/**
 * The window layout tree as an arena: node `k` of the client's tree is entry
 * `k` of a sequence, a `Window *` is an index, and a freed window is a `Freed`
 * entry.  The root is entry 0 and every child has a larger index than its
 * parent, which makes the parent chain acyclic.
 *
 * Rectangles are C `int`s: a grown window may get a negative extent, so the
 * tiling arithmetic below never assumes extents are non-negative.
 */
module WindowTree {
  import opened Wrappers

  /** A buffer a leaf shows; `None` is the NULL pointer `new` stores. */
  type BufferRef = Option<nat>

  /** `W_HS` splits the rows (top/bottom), `W_VS` the columns (left/right). */
  datatype Dir = HS | VS

  /** Columns (`x`, `width`) or rows (`y`, `height`). */
  datatype Axis = X | Y

  /** The union of `struct window`, tagged by `type`; `Freed` is a released node. */
  datatype Payload =
    | Leaf(buffer: BufferRef, scroll: int, resize: bool)
    | Split(dir: Dir, one: nat, two: nat)
    | Freed

  datatype Node = Node(parent: Option<nat>, height: int, width: int, y: int, x: int, payload: Payload)

  /** The part of a node that says where it hangs in the tree. */
  datatype Link = Link(parent: Option<nat>, payload: Payload)

  function Links(ns: seq<Node>): (ls: seq<Link>)
    ensures |ls| == |ns|
    ensures forall k :: 0 <= k < |ns| ==> ls[k] == Link(ns[k].parent, ns[k].payload)
  {
    seq(|ns|, k requires 0 <= k < |ns| => Link(ns[k].parent, ns[k].payload))
  }

  /** The axis a split divides: HS divides rows, VS columns. */
  function SplitAxis(dir: Dir): Axis
  {
    if dir == HS then Y else X
  }

  function Other(a: Axis): Axis
  {
    if a == X then Y else X
  }

  /** `width` or `height`. */
  function Extent(nd: Node, a: Axis): int
  {
    if a == X then nd.width else nd.height
  }

  /** `x` or `y`. */
  function Offset(nd: Node, a: Axis): int
  {
    if a == X then nd.x else nd.y
  }

  /** `nd` with offset `o` and extent `e` on axis `a`, everything else kept. */
  function Place(nd: Node, a: Axis, o: int, e: int): (r: Node)
    ensures Offset(r, a) == o && Extent(r, a) == e
    ensures Offset(r, Other(a)) == Offset(nd, Other(a)) && Extent(r, Other(a)) == Extent(nd, Other(a))
    ensures r.parent == nd.parent && r.payload == nd.payload
  {
    if a == X then nd.(x := o, width := e) else nd.(y := o, height := e)
  }

  /** C's `/` on `int`, which truncates toward zero. */
  function CDiv(a: int, b: int): int
    requires b > 0
  {
    if a >= 0 then a / b else -((-a) / b)
  }

  /** `(e / 2) + (e & 1)`, the share `hbalance`/`vbalance` give the first child. */
  function FirstShare(e: int): int
  {
    CDiv(e, 2) + e % 2
  }

  /** On a non-negative extent the first child gets the rounded-up half. */
  lemma FirstShareIsCeiling(e: int)
    requires e >= 0
    ensures FirstShare(e) == (e + 1) / 2
    ensures FirstShare(e) - (e - FirstShare(e)) in {0, 1}
  {
  }

  // ---------------------------------------------------------------------
  // The shape of the tree

  predicate Live(ls: seq<Link>, k: nat)
  {
    k < |ls| && !ls[k].payload.Freed?
  }

  predicate IsLeaf(ls: seq<Link>, k: nat)
  {
    k < |ls| && ls[k].payload.Leaf?
  }

  predicate IsSplit(ls: seq<Link>, k: nat)
  {
    k < |ls| && ls[k].payload.Split?
  }

  /**
   * A well-formed tree: the root 0 is live and parentless; every other live node
   * hangs below a smaller split that names it as a child; every split has two
   * distinct live children with larger indices that point back at it.
   */
  predicate Structural(ls: seq<Link>)
  {
    && |ls| >= 1
    && ls[0].parent.None?
    && !ls[0].payload.Freed?
    && (forall k {:trigger ParentNames(ls, k)} :: 0 < k < |ls| && !ls[k].payload.Freed? ==> ParentNames(ls, k))
    && (forall k {:trigger ChildrenOk(ls, k)} :: 0 <= k < |ls| && ls[k].payload.Split? ==> ChildrenOk(ls, k))
  }

  predicate ChildrenOk(ls: seq<Link>, k: nat)
    requires IsSplit(ls, k)
  {
    var one, two := ls[k].payload.one, ls[k].payload.two;
    && k < one < |ls| && k < two < |ls| && one != two
    && ls[one].parent == Some(k) && ls[two].parent == Some(k)
    && !ls[one].payload.Freed? && !ls[two].payload.Freed?
  }

  /** `k` lies in the subtree of `n`: `n` is on the parent chain of `k`. */
  predicate Below(ls: seq<Link>, k: nat, n: nat)
    requires k < |ls|
    decreases k
  {
    k == n || (ls[k].parent.Some? && ls[k].parent.value < k && Below(ls, ls[k].parent.value, n))
  }

  lemma {:induction false} BelowIndex(ls: seq<Link>, k: nat, n: nat)
    requires k < |ls| && Below(ls, k, n)
    ensures n <= k
    decreases k
  {
    if k != n {
      BelowIndex(ls, ls[k].parent.value, n);
    }
  }

  lemma {:induction false} BelowTrans(ls: seq<Link>, k: nat, m: nat, n: nat)
    requires k < |ls| && m < |ls| && Below(ls, k, m) && Below(ls, m, n)
    ensures Below(ls, k, n)
    decreases k
  {
    if k != m {
      BelowTrans(ls, ls[k].parent.value, m, n);
    }
  }

  /** Two subtrees that share a node are nested. */
  lemma {:induction false} BelowComparable(ls: seq<Link>, k: nat, a: nat, b: nat)
    requires k < |ls| && a < |ls| && b < |ls| && Below(ls, k, a) && Below(ls, k, b)
    ensures Below(ls, a, b) || Below(ls, b, a)
    decreases k
  {
    if k != a && k != b {
      BelowComparable(ls, ls[k].parent.value, a, b);
    }
  }

  /** The two children of a split have disjoint subtrees. */
  lemma SiblingsDisjoint(ls: seq<Link>, i: nat, k: nat)
    requires Structural(ls) && IsSplit(ls, i) && k < |ls|
    ensures !(Below(ls, k, ls[i].payload.one) && Below(ls, k, ls[i].payload.two))
  {
    assert ChildrenOk(ls, i);
    var one, two := ls[i].payload.one, ls[i].payload.two;
    if Below(ls, k, one) && Below(ls, k, two) {
      BelowComparable(ls, k, one, two);
      if Below(ls, one, two) {
        BelowIndex(ls, i, two);
      } else {
        BelowIndex(ls, i, one);
      }
    }
  }

  /** A child is in a subtree when it is its root or its parent is in it. */
  lemma BelowChild(ls: seq<Link>, c: nat, p: nat, n: nat)
    requires c < |ls| && ls[c].parent == Some(p) && p < c
    ensures Below(ls, c, n) <==> c == n || Below(ls, p, n)
  {
  }

  /** Only the root lacks a parent; every other live node hangs below its parent split. */
  lemma ParentOf(ls: seq<Link>, k: nat)
    requires Structural(ls) && Live(ls, k)
    ensures ls[k].parent.None? <==> k == 0
    ensures k != 0 ==> ParentNames(ls, k)
  {
    if k != 0 {
      assert ParentNames(ls, k);
    }
  }

  /** `root(w)`: follow parent pointers to the parentless node. */
  function Root(ls: seq<Link>, k: nat): (r: nat)
    requires Structural(ls) && Live(ls, k)
    ensures r == 0 && Below(ls, k, r)
    decreases k
  {
    ParentOf(ls, k);
    if ls[k].parent.None? then k else Root(ls, ls[k].parent.value)
  }

  // ---------------------------------------------------------------------
  // Geometry

  /** The rectangle invariant of one split on one axis. */
  predicate TilesOn(ns: seq<Node>, i: nat, a: Axis)
    requires i < |ns| && ns[i].payload.Split?
    requires ns[i].payload.one < |ns| && ns[i].payload.two < |ns|
  {
    var p, c1, c2 := ns[i], ns[ns[i].payload.one], ns[ns[i].payload.two];
    if SplitAxis(p.payload.dir) == a then
      && Extent(c1, a) + Extent(c2, a) == Extent(p, a)
      && Offset(c1, a) == Offset(p, a)
      && Offset(c2, a) == Offset(c1, a) + Extent(c1, a)
    else
      && Extent(c1, a) == Extent(p, a) && Extent(c2, a) == Extent(p, a)
      && Offset(c1, a) == Offset(p, a) && Offset(c2, a) == Offset(p, a)
  }

  /** Every split's children tile its rectangle. */
  predicate Tiled(ns: seq<Node>)
    requires Structural(Links(ns))
  {
    forall i :: 0 <= i < |ns| && ns[i].payload.Split? ==> TileBoth(ns, i)
  }

  predicate TileBoth(ns: seq<Node>, i: nat)
    requires Structural(Links(ns)) && i < |ns| && ns[i].payload.Split?
  {
    assert ChildrenOk(Links(ns), i);
    TilesOn(ns, i, X) && TilesOn(ns, i, Y)
  }

  /** The rectangle invariant together with the even split `hbalance`/`vbalance` make. */
  predicate HalvesOn(ns: seq<Node>, i: nat, a: Axis)
    requires i < |ns| && ns[i].payload.Split?
    requires ns[i].payload.one < |ns| && ns[i].payload.two < |ns|
  {
    && TilesOn(ns, i, a)
    && (SplitAxis(ns[i].payload.dir) == a ==>
          Extent(ns[ns[i].payload.one], a) == FirstShare(Extent(ns[i], a)))
  }

  /** `nd` and `nd'` differ at most in offset and extent on axis `a`. */
  predicate SameExcept(nd: Node, nd': Node, a: Axis)
  {
    nd' == Place(nd, a, Offset(nd', a), Extent(nd', a))
  }

  /**
   * The first half of `hbalance` (axis X) / `vbalance` (axis Y) at split `n`: a
   * split on that axis gives its first child `FirstShare` of the extent and the
   * second child the rest, placed right after; a split across it copies the
   * extent and offset to both children.
   */
  function Spread(ns: seq<Node>, n: nat, a: Axis): (r: seq<Node>)
    requires Structural(Links(ns)) && IsSplit(Links(ns), n)
    ensures Links(r) == Links(ns)
    ensures ChildrenOk(Links(ns), n) && HalvesOn(r, n, a)
    ensures forall k :: 0 <= k < |ns| && k != ns[n].payload.one && k != ns[n].payload.two ==> r[k] == ns[k]
    ensures forall k :: 0 <= k < |ns| ==> SameExcept(ns[k], r[k], a)
  {
    assert ChildrenOk(Links(ns), n);
    var dir, one, two := ns[n].payload.dir, ns[n].payload.one, ns[n].payload.two;
    var e, o := Extent(ns[n], a), Offset(ns[n], a);
    var e1 := if SplitAxis(dir) == a then FirstShare(e) else e;
    var e2 := if SplitAxis(dir) == a then e - e1 else e;
    var o2 := if SplitAxis(dir) == a then o + e1 else o;
    var r := ns[one := Place(ns[one], a, o, e1)][two := Place(ns[two], a, o2, e2)];
    assert Links(r) == Links(ns);
    r
  }

  /** `hbalance` (axis X) and `vbalance` (axis Y) below node `n`. */
  function Balanced(ns: seq<Node>, n: nat, a: Axis): (r: seq<Node>)
    requires Structural(Links(ns)) && n < |ns|
    ensures Links(r) == Links(ns)
    decreases |ns| - n
  {
    if ns[n].payload.Split? then
      var ns1 := Spread(ns, n, a);
      Balanced(Balanced(ns1, ns[n].payload.one, a), ns[n].payload.two, a)
    else ns
  }

  /** Balancing below `n` leaves `n` and everything outside its subtree alone. */
  lemma {:induction false} BalancedUntouched(ns: seq<Node>, n: nat, a: Axis)
    requires Structural(Links(ns)) && n < |ns|
    ensures forall k :: 0 <= k < |ns| && (k == n || !Below(Links(ns), k, n)) ==> Balanced(ns, n, a)[k] == ns[k]
    decreases |ns| - n
  {
    if ns[n].payload.Split? {
      var ls := Links(ns);
      var one, two := ns[n].payload.one, ns[n].payload.two;
      var ns1 := Spread(ns, n, a);
      var ns2 := Balanced(ns1, one, a);
      BalancedUntouched(ns1, one, a);
      BalancedUntouched(ns2, two, a);
      forall k | 0 <= k < |ns| && (k == n || !Below(ls, k, n))
        ensures Balanced(ns, n, a)[k] == ns[k]
      {
        NotBelowChild(ls, k, n, one);
        NotBelowChild(ls, k, n, two);
      }
    }
  }

  /** A node that is `n` or outside its subtree is outside the subtree of each of its children. */
  lemma NotBelowChild(ls: seq<Link>, k: nat, n: nat, c: nat)
    requires k < |ls| && c < |ls| && ls[c].parent == Some(n) && n < c
    requires k == n || !Below(ls, k, n)
    ensures k != c && !Below(ls, k, c)
  {
    BelowChild(ls, c, n, n);
    if Below(ls, k, c) {
      BelowTrans(ls, k, c, n);
      BelowIndex(ls, k, c);
    }
  }

  /** Balancing changes nodes only in offset and extent on its own axis. */
  lemma {:induction false} BalancedSameExcept(ns: seq<Node>, n: nat, a: Axis)
    requires Structural(Links(ns)) && n < |ns|
    ensures forall k :: 0 <= k < |ns| ==> SameExcept(ns[k], Balanced(ns, n, a)[k], a)
    decreases |ns| - n
  {
    if ns[n].payload.Split? {
      var ns1 := Spread(ns, n, a);
      var ns2 := Balanced(ns1, ns[n].payload.one, a);
      BalancedSameExcept(ns1, ns[n].payload.one, a);
      BalancedSameExcept(ns2, ns[n].payload.two, a);
    }
  }

  /** The ancestors of a live node are splits. */
  lemma {:induction false} AncestorIsSplit(ls: seq<Link>, k: nat, n: nat)
    requires Structural(ls) && Live(ls, k) && k != n && Below(ls, k, n)
    ensures IsSplit(ls, n)
    decreases k
  {
    assert k != 0 && ParentNames(ls, k);
    var p := ls[k].parent.value;
    if p != n {
      AncestorIsSplit(ls, p, n);
    }
  }

  /** After balancing below `n`, every split in that subtree is tiled and halved on the axis. */
  lemma BalancedHalves(ns: seq<Node>, n: nat, a: Axis)
    requires Structural(Links(ns)) && n < |ns|
    ensures var r := Balanced(ns, n, a);
      forall i :: 0 <= i < |r| && r[i].payload.Split? && Below(Links(ns), i, n) ==> HalvesAt(r, i, a)
  {
    forall i | 0 <= i < |ns| && ns[i].payload.Split? && Below(Links(ns), i, n)
      ensures HalvesAt(Balanced(ns, n, a), i, a)
    {
      BalancedHalvesAt(ns, n, a, i);
    }
  }

  lemma {:induction false} BalancedHalvesAt(ns: seq<Node>, n: nat, a: Axis, i: nat)
    requires Structural(Links(ns)) && n < |ns|
    requires IsSplit(Links(ns), i) && Below(Links(ns), i, n)
    ensures HalvesAt(Balanced(ns, n, a), i, a)
    decreases |ns| - n
  {
    var ls := Links(ns);
    var r := Balanced(ns, n, a);
    if !ns[n].payload.Split? {
      AncestorIsSplit(ls, i, n);
    }
    var one, two := ns[n].payload.one, ns[n].payload.two;
    var ns1 := Spread(ns, n, a);
    var ns2 := Balanced(ns1, one, a);
    BalancedUntouched(ns1, one, a);
    BalancedUntouched(ns2, two, a);
    assert ChildrenOk(ls, i);
    var c1, c2 := ls[i].payload.one, ls[i].payload.two;
    if i == n {
      // n's children are the roots of the two balanced subtrees, which keep them
      SiblingsDisjoint(ls, n, one);
      NotBelowChild(ls, n, n, one);
      NotBelowChild(ls, n, n, two);
      assert r[n] == ns1[n] && r[one] == ns1[one] && r[two] == ns1[two];
    } else {
      OneStepBelow(ls, i, n);
      if Below(ls, i, one) {
        BalancedHalvesAt(ns1, one, a, i);
        BelowChild(ls, c1, i, one);
        BelowChild(ls, c2, i, one);
        SiblingsDisjoint(ls, n, i);
        SiblingsDisjoint(ls, n, c1);
        SiblingsDisjoint(ls, n, c2);
        assert r[i] == ns2[i] && r[c1] == ns2[c1] && r[c2] == ns2[c2];
      } else {
        BalancedHalvesAt(ns2, two, a, i);
      }
    }
  }

  /** Tiling on one axis depends only on the offsets and extents on that axis. */
  lemma TilesOnOtherAxis(ns: seq<Node>, r: seq<Node>, i: nat, a: Axis)
    requires |r| == |ns| && i < |ns| && ns[i].payload.Split?
    requires ns[i].payload.one < |ns| && ns[i].payload.two < |ns|
    requires SameExcept(ns[i], r[i], a)
    requires SameExcept(ns[ns[i].payload.one], r[ns[i].payload.one], a)
    requires SameExcept(ns[ns[i].payload.two], r[ns[i].payload.two], a)
    ensures TilesOn(ns, i, Other(a)) <==> TilesOn(r, i, Other(a))
  {
  }

  /**
   * Balancing below `n` restores the tiling of the whole tree when only splits
   * inside that subtree were out of tile, and only on the balanced axis.
   */
  lemma BalancedTiled(ns: seq<Node>, n: nat, a: Axis)
    requires Structural(Links(ns)) && n < |ns|
    requires forall i :: 0 <= i < |ns| && ns[i].payload.Split? ==> ChildrenOk(Links(ns), i) && TilesOn(ns, i, Other(a))
    requires forall i :: 0 <= i < |ns| && ns[i].payload.Split? && !Below(Links(ns), i, n) ==>
      ChildrenOk(Links(ns), i) && TilesOn(ns, i, a)
    ensures Structural(Links(Balanced(ns, n, a))) && Tiled(Balanced(ns, n, a))
  {
    var r := Balanced(ns, n, a);
    forall i | 0 <= i < |r| && r[i].payload.Split?
      ensures TileBoth(r, i)
    {
      BalancedTiledAt(ns, n, a, i);
    }
  }

  lemma BalancedTiledAt(ns: seq<Node>, n: nat, a: Axis, i: nat)
    requires Structural(Links(ns)) && n < |ns| && IsSplit(Links(ns), i)
    requires ChildrenOk(Links(ns), i) && TilesOn(ns, i, Other(a))
    requires !Below(Links(ns), i, n) ==> TilesOn(ns, i, a)
    ensures Structural(Links(Balanced(ns, n, a)))
    ensures ChildrenOk(Links(ns), i) && TileBoth(Balanced(ns, n, a), i)
  {
    var ls := Links(ns);
    var r := Balanced(ns, n, a);
    var c1, c2 := ls[i].payload.one, ls[i].payload.two;
    SameExceptAt(ns, n, a, i);
    SameExceptAt(ns, n, a, c1);
    SameExceptAt(ns, n, a, c2);
    TilesOnOtherAxis(ns, r, i, a);
    assert Other(Other(a)) == a;
    if Below(ls, i, n) {
      BalancedHalvesAt(ns, n, a, i);
    } else {
      BelowChild(ls, c1, i, n);
      BelowChild(ls, c2, i, n);
      UntouchedAt(ns, n, a, i);
      UntouchedAt(ns, n, a, c1);
      UntouchedAt(ns, n, a, c2);
    }
  }

  lemma UntouchedAt(ns: seq<Node>, n: nat, a: Axis, k: nat)
    requires Structural(Links(ns)) && n < |ns| && k < |ns| && (k == n || !Below(Links(ns), k, n))
    ensures Balanced(ns, n, a)[k] == ns[k]
  {
    BalancedUntouched(ns, n, a);
  }

  lemma SameExceptAt(ns: seq<Node>, n: nat, a: Axis, k: nat)
    requires Structural(Links(ns)) && n < |ns| && k < |ns|
    ensures SameExcept(ns[k], Balanced(ns, n, a)[k], a)
  {
    BalancedSameExcept(ns, n, a);
  }

  /** A live strict descendant of a split lies below one of its two children. */
  lemma {:induction false} OneStepBelow(ls: seq<Link>, k: nat, n: nat)
    requires Structural(ls) && IsSplit(ls, n) && Live(ls, k) && k != n && Below(ls, k, n)
    ensures Below(ls, k, ls[n].payload.one) || Below(ls, k, ls[n].payload.two)
    decreases k
  {
    assert k != 0 && ParentNames(ls, k);
    var p := ls[k].parent.value;
    if p != n {
      OneStepBelow(ls, p, n);
    }
  }

  /** `HalvesOn` with the children's indices in range. */
  predicate HalvesAt(ns: seq<Node>, i: nat, a: Axis)
    requires i < |ns| && ns[i].payload.Split?
  {
    ns[i].payload.one < |ns| && ns[i].payload.two < |ns| && HalvesOn(ns, i, a)
  }

  /** What balancing below `n` does to one split `i` and its two children. */
  lemma BalancedAt(ns: seq<Node>, n: nat, a: Axis, i: nat)
    requires Structural(Links(ns)) && n < |ns| && IsSplit(Links(ns), i)
    ensures ChildrenOk(Links(ns), i)
    ensures var r, c1, c2 := Balanced(ns, n, a), ns[i].payload.one, ns[i].payload.two;
      && (Below(Links(ns), i, n) ==> HalvesAt(r, i, a))
      && (!Below(Links(ns), i, n) ==> r[i] == ns[i] && r[c1] == ns[c1] && r[c2] == ns[c2])
      && SameExcept(ns[i], r[i], a) && SameExcept(ns[c1], r[c1], a) && SameExcept(ns[c2], r[c2], a)
  {
    var ls := Links(ns);
    assert ChildrenOk(ls, i);
    var c1, c2 := ls[i].payload.one, ls[i].payload.two;
    SameExceptAt(ns, n, a, i);
    SameExceptAt(ns, n, a, c1);
    SameExceptAt(ns, n, a, c2);
    if Below(ls, i, n) {
      BalancedHalvesAt(ns, n, a, i);
    } else {
      BelowChild(ls, c1, i, n);
      BelowChild(ls, c2, i, n);
      UntouchedAt(ns, n, a, i);
      UntouchedAt(ns, n, a, c1);
      UntouchedAt(ns, n, a, c2);
    }
  }

  // ---------------------------------------------------------------------
  // find

  /** The point (`y`, `x`) lies in the rectangle of `nd`. */
  predicate Contains(nd: Node, y: int, x: int)
  {
    nd.y <= y < nd.y + nd.height && nd.x <= x < nd.x + nd.width
  }

  /**
   * `find(n, y, x)`: descend into the left child while `x` is left of its right
   * edge (VS) or into the top child while `y` is above its bottom edge (HS).
   */
  function Find(ns: seq<Node>, n: nat, y: int, x: int): (r: nat)
    requires Structural(Links(ns)) && Live(Links(ns), n)
    ensures IsLeaf(Links(ns), r) && Below(Links(ns), r, n)
    decreases |ns| - n
  {
    match ns[n].payload
    case Leaf(_, _, _) => n
    case Split(dir, one, two) =>
      assert ChildrenOk(Links(ns), n);
      var c :=
        if dir == VS then (if x < ns[one].x + ns[one].width then one else two)
        else (if y < ns[one].y + ns[one].height then one else two);
      var r := Find(ns, c, y, x);
      BelowChild(Links(ns), c, n, n);
      BelowTrans(Links(ns), r, c, n);
      r
  }

  /** In a tiled tree `find` returns the leaf whose rectangle holds the point, if `n`'s does. */
  lemma {:induction false} FindContains(ns: seq<Node>, n: nat, y: int, x: int)
    requires Structural(Links(ns)) && Tiled(ns) && Live(Links(ns), n) && Contains(ns[n], y, x)
    ensures Contains(ns[Find(ns, n, y, x)], y, x)
    decreases |ns| - n
  {
    if ns[n].payload.Split? {
      var one, two := ns[n].payload.one, ns[n].payload.two;
      assert TileBoth(ns, n);
      assert ChildrenOk(Links(ns), n);
      var c :=
        if ns[n].payload.dir == VS then (if x < ns[one].x + ns[one].width then one else two)
        else (if y < ns[one].y + ns[one].height then one else two);
      FindContains(ns, c, y, x);
    }
  }

  // ---------------------------------------------------------------------
  // window_hsplit and window_vsplit

  /** `min`. */
  function Min(a: int, b: int): int
  {
    if a < b then a else b
  }

  /** The extent the new window gets: half (rounded toward zero) for size -1, else the clamped size. */
  function NewShare(e: int, size: int): int
  {
    if size == -1 then CDiv(e, 2) else Min(size, e)
  }

  /**
   * `window_hsplit(w, b, size)` (HS) and `window_vsplit(w, b, size)` (VS): leaf
   * `w` becomes a split whose first child (new node `|ns|`) keeps the old side and
   * whose second child (new node `|ns| + 1`) shows `b`.
   */
  function SplitLeaf(ns: seq<Node>, w: nat, dir: Dir, b: BufferRef, size: int): (r: seq<Node>)
    requires w < |ns| && ns[w].payload.Leaf?
    ensures |r| == |ns| + 2
    ensures r[..|ns|] == ns[w := ns[w].(payload := Split(dir, |ns|, |ns| + 1))]
  {
    var r := ns[w := ns[w].(payload := Split(dir, |ns|, |ns| + 1))] + NewChildren(ns[w], w, dir, b, size);
    assert r[..|ns|] == ns[w := ns[w].(payload := Split(dir, |ns|, |ns| + 1))];
    r
  }

  /** The two windows `new` makes for a split of leaf `w` (whose node is `nd`). */
  function NewChildren(nd: Node, w: nat, dir: Dir, b: BufferRef, size: int): (c: seq<Node>)
    requires nd.payload.Leaf?
    ensures |c| == 2 && c[0].parent == Some(w) && c[1].parent == Some(w)
    ensures c[0].payload.Leaf? && c[1].payload.Leaf?
  {
    var was := nd.payload;
    if dir == HS then
      var bh := NewShare(nd.height, size);
      var th := nd.height - bh;
      [Node(Some(w), th, nd.width, nd.y, nd.x, Leaf(was.buffer, was.scroll, was.resize)),
       Node(Some(w), bh, nd.width, nd.y + th, nd.x, Leaf(b, 0, false))]
    else
      var rw := NewShare(nd.width, size);
      var lw := nd.width - rw;
      [Node(Some(w), nd.height, lw, nd.y, nd.x, Leaf(was.buffer, 0, false)),
       Node(Some(w), nd.height, rw, nd.y, nd.x + lw, Leaf(b, 0, false))]
  }

  /**
   * With `size == -1` the new window gets half the extent and the old side the
   * rest, which is the larger part by at most one; an explicit size is clamped
   * to the whole extent.  The two extents always add up to the old one.
   */
  lemma SplitShares(e: int, size: int)
    ensures NewShare(e, size) + (e - NewShare(e, size)) == e
    ensures size == -1 && e >= 0 ==> (e - NewShare(e, size)) - NewShare(e, size) in {0, 1}
    ensures size != -1 ==> NewShare(e, size) <= e && NewShare(e, size) <= size
    ensures size != -1 && size <= e ==> NewShare(e, size) == size
  {
  }

  /**
   * What a split leaves in the two new windows: HS stacks them, the top one at
   * the old `y` with the old leaf fields and the bottom one right below it with
   * `b`, scroll 0 and resize off; VS sets them side by side, the left one
   * keeping only the buffer.  Both share the other axis with the old leaf,
   * their extents add up to its extent, and the split keeps its rectangle.
   */
  lemma SplitChildren(ns: seq<Node>, w: nat, dir: Dir, b: BufferRef, size: int)
    requires w < |ns| && ns[w].payload.Leaf?
    ensures var r, nd := SplitLeaf(ns, w, dir, b, size), ns[w];
      var one, two := r[|ns|], r[|ns| + 1];
      && r[w] == nd.(payload := Split(dir, |ns|, |ns| + 1))
      && one.parent == Some(w) && two.parent == Some(w)
      && two.payload == Leaf(b, 0, false)
      && (dir == HS ==>
            && one.payload == nd.payload
            && one.width == nd.width && two.width == nd.width && one.x == nd.x && two.x == nd.x
            && two.height == NewShare(nd.height, size) && one.height + two.height == nd.height
            && one.y == nd.y && two.y == nd.y + one.height)
      && (dir == VS ==>
            && one.payload == Leaf(nd.payload.buffer, 0, false)
            && one.height == nd.height && two.height == nd.height && one.y == nd.y && two.y == nd.y
            && two.width == NewShare(nd.width, size) && one.width + two.width == nd.width
            && one.x == nd.x && two.x == nd.x + one.width)
  {
    var r := SplitLeaf(ns, w, dir, b, size);
    assert r[w] == r[..|ns|][w];
  }

  /** Splitting a leaf keeps the tree well formed and tiled. */
  lemma SplitLeafValid(ns: seq<Node>, w: nat, dir: Dir, b: BufferRef, size: int)
    requires Structural(Links(ns)) && Tiled(ns) && w < |ns| && ns[w].payload.Leaf?
    ensures Structural(Links(SplitLeaf(ns, w, dir, b, size)))
    ensures Tiled(SplitLeaf(ns, w, dir, b, size))
  {
    var r := SplitLeaf(ns, w, dir, b, size);
    SplitLeafStructural(ns, w, dir, b, size);
    forall i | 0 <= i < |r| && r[i].payload.Split?
      ensures TileBoth(r, i)
    {
      if i != w {
        assert TileBoth(ns, i);
        assert ChildrenOk(Links(ns), i);
      }
    }
  }

  lemma SplitLeafStructural(ns: seq<Node>, w: nat, dir: Dir, b: BufferRef, size: int)
    requires Structural(Links(ns)) && w < |ns| && ns[w].payload.Leaf?
    ensures Structural(Links(SplitLeaf(ns, w, dir, b, size)))
  {
    var ls := Links(ns);
    var r := SplitLeaf(ns, w, dir, b, size);
    var lr := Links(r);
    var t, u := |ns|, |ns| + 1;
    assert forall k :: 0 <= k < |ns| && k != w ==> r[k] == r[..|ns|][k] == ns[k];
    assert r[w] == r[..|ns|][w];
    assert r[t] == NewChildren(ns[w], w, dir, b, size)[0];
    assert r[u] == NewChildren(ns[w], w, dir, b, size)[1];
    SplitLinksStructural(ls, lr, w, dir);
  }

  lemma SplitLinksStructural(ls: seq<Link>, lr: seq<Link>, w: nat, dir: Dir)
    requires Structural(ls) && IsLeaf(ls, w) && |lr| == |ls| + 2
    requires forall k :: 0 <= k < |ls| && k != w ==> lr[k] == ls[k]
    requires lr[w] == Link(ls[w].parent, Split(dir, |ls|, |ls| + 1))
    requires lr[|ls|].parent == Some(w) && lr[|ls| + 1].parent == Some(w)
    requires lr[|ls|].payload.Leaf? && lr[|ls| + 1].payload.Leaf?
    ensures Structural(lr)
  {
    forall k | 0 < k < |lr| && !lr[k].payload.Freed?
      ensures ParentNames(lr, k)
    {
      if k < |ls| {
        assert ParentNames(ls, k);
        var q := ls[k].parent.value;
        assert lr[k].parent == ls[k].parent;
        assert q != w ==> lr[q] == ls[q];
        if k == w {
          assert q != w;
        } else {
          assert q != w;
        }
      } else {
        assert lr[w].payload.one == |ls| && lr[w].payload.two == |ls| + 1;
      }
    }
    forall k | 0 <= k < |lr| && lr[k].payload.Split?
      ensures ChildrenOk(lr, k)
    {
      if k != w {
        assert ChildrenOk(ls, k);
      }
    }
  }

  /** Node `k` has a smaller split parent that names it as a child. */
  predicate ParentNames(ls: seq<Link>, k: nat)
    requires k < |ls|
  {
    && ls[k].parent.Some?
    && ls[k].parent.value < k
    && ls[ls[k].parent.value].payload.Split?
    && (ls[ls[k].parent.value].payload.one == k || ls[ls[k].parent.value].payload.two == k)
  }

  // ---------------------------------------------------------------------
  // window_grow_x and window_grow_y

  /** The split kind `grow` looks for: HS for rows, VS for columns. */
  function DirOf(a: Axis): Dir
  {
    if a == Y then HS else VS
  }

  /**
   * The window the loop of `window_grow_*` ends at: the first node on the chain
   * from `w` up whose parent is a split of kind `dir`; `None` when there is none.
   */
  function GrowChild(ls: seq<Link>, w: nat, dir: Dir): (r: Option<nat>)
    requires Structural(ls) && Live(ls, w)
    ensures r.Some? ==>
      && Live(ls, r.value) && r.value > 0 && Below(ls, w, r.value)
      && ls[r.value].parent.Some? && IsSplit(ls, ls[r.value].parent.value)
      && ls[ls[r.value].parent.value].payload.dir == dir
    decreases w
  {
    match ls[w].parent
    case None => None
    case Some(p) =>
      assert w != 0 && ParentNames(ls, w);
      if ls[p].payload.dir == dir then Some(w)
      else
        var r := GrowChild(ls, p, dir);
        assert r.Some? ==> Below(ls, w, r.value) by {
          if r.Some? { BelowTrans(ls, w, p, r.value); }
        }
        r
  }

  /** There is no such window exactly when no ancestor of `w` is a split of kind `dir`. */
  lemma {:induction false} GrowChildNone(ls: seq<Link>, w: nat, dir: Dir)
    requires Structural(ls) && Live(ls, w)
    ensures GrowChild(ls, w, dir).None? <==> !exists q :: KindAbove(ls, w, q, dir)
    decreases w
  {
    match ls[w].parent
    case None =>
    case Some(p) =>
      assert ParentNames(ls, w);
      if ls[p].payload.dir == dir {
        assert KindAbove(ls, w, p, dir);
      } else {
        GrowChildNone(ls, p, dir);
        if exists q :: KindAbove(ls, w, q, dir) {
          var q :| KindAbove(ls, w, q, dir);
          assert KindAbove(ls, p, q, dir);
        }
        if exists q :: KindAbove(ls, p, q, dir) {
          var q :| KindAbove(ls, p, q, dir);
          BelowIndex(ls, p, q);
          assert KindAbove(ls, w, q, dir);
        }
      }
  }

  /** `q` is a proper ancestor of `w` and a split of kind `dir`. */
  predicate KindAbove(ls: seq<Link>, w: nat, q: nat, dir: Dir)
  {
    w < |ls| && q < |ls| && q != w && Below(ls, w, q) && ls[q].payload.Split? && ls[q].payload.dir == dir
  }

  /**
   * `window_grow_y(w, d)` (axis Y) and `window_grow_x(w, d)` (axis X): the child
   * `c` that the loop stops at gains `d` and its sibling loses `d`; the second
   * child's offset moves so that the two still abut; both children are then
   * balanced on the axis.
   */
  function Grown(ns: seq<Node>, w: nat, a: Axis, d: int): (r: seq<Node>)
    requires Structural(Links(ns)) && Live(Links(ns), w)
    ensures Links(r) == Links(ns)
  {
    match GrowChild(Links(ns), w, DirOf(a))
    case None => ns
    case Some(c) =>
      var p := ns[c].parent.value;
      ParentOf(Links(ns), c);
      var ns1 := Adjusted(ns, p, c, a, d);
      Balanced(Balanced(ns1, ns[p].payload.one, a), ns[p].payload.two, a)
  }

  /**
   * The resize step of `window_grow_*` at split `p` whose child `c` grows by
   * `d`: the sibling shrinks by `d`, and the second child's offset moves by the
   * first child's change.
   */
  function Adjusted(ns: seq<Node>, p: nat, c: nat, a: Axis, d: int): (r: seq<Node>)
    requires Structural(Links(ns)) && IsSplit(Links(ns), p)
    requires c == ns[p].payload.one || c == ns[p].payload.two
    ensures Links(r) == Links(ns) && ChildrenOk(Links(ns), p)
    ensures forall k :: 0 <= k < |ns| && k != ns[p].payload.one && k != ns[p].payload.two ==> r[k] == ns[k]
    ensures forall k :: 0 <= k < |ns| ==> SameExcept(ns[k], r[k], a)
    ensures SplitAxis(ns[p].payload.dir) == a && TilesOn(ns, p, a) ==> TilesOn(r, p, a)
    ensures Extent(r[c], a) == Extent(ns[c], a) + d
    ensures var s := if c == ns[p].payload.one then ns[p].payload.two else ns[p].payload.one;
      Extent(r[s], a) == Extent(ns[s], a) - d
  {
    assert ChildrenOk(Links(ns), p);
    var one, two := ns[p].payload.one, ns[p].payload.two;
    var r :=
      if c == one then
        ns[one := Place(ns[one], a, Offset(ns[one], a), Extent(ns[one], a) + d)]
          [two := Place(ns[two], a, Offset(ns[two], a) + d, Extent(ns[two], a) - d)]
      else
        ns[two := Place(ns[two], a, Offset(ns[two], a) - d, Extent(ns[two], a) + d)]
          [one := Place(ns[one], a, Offset(ns[one], a), Extent(ns[one], a) - d)];
    assert Links(r) == Links(ns);
    r
  }

  /** Chained changes on one axis are a change on that axis. */
  lemma SameExceptTrans(x: Node, y: Node, z: Node, a: Axis)
    requires SameExcept(x, y, a) && SameExcept(y, z, a)
    ensures SameExcept(x, z, a)
  {
  }

  /** `window_grow_*` rebalances only what it resized, so the tree stays tiled. */
  lemma GrownValid(ns: seq<Node>, w: nat, a: Axis, d: int)
    requires Structural(Links(ns)) && Tiled(ns) && Live(Links(ns), w)
    ensures Structural(Links(Grown(ns, w, a, d))) && Tiled(Grown(ns, w, a, d))
  {
    match GrowChild(Links(ns), w, DirOf(a))
    case None =>
    case Some(c) =>
      var r := Grown(ns, w, a, d);
      forall i | 0 <= i < |r| && r[i].payload.Split?
        ensures TileBoth(r, i)
      {
        ParentOf(Links(ns), c);
        GrownTilesAt(ns, ns[c].parent.value, c, a, d, i);
      }
  }

  lemma GrownTilesAt(ns: seq<Node>, p: nat, c: nat, a: Axis, d: int, i: nat)
    requires Structural(Links(ns)) && Tiled(ns) && IsSplit(Links(ns), p) && IsSplit(Links(ns), i)
    requires c == ns[p].payload.one || c == ns[p].payload.two
    requires SplitAxis(ns[p].payload.dir) == a
    ensures var ns1 := Adjusted(ns, p, c, a, d);
      var r := Balanced(Balanced(ns1, ns[p].payload.one, a), ns[p].payload.two, a);
      Structural(Links(r)) && TileBoth(r, i)
  {
    GrownOnAxis(ns, p, c, a, d, i);
    GrownOffAxis(ns, p, c, a, d, i);
    assert Other(Other(a)) == a;
  }

  /** After the resize and both rebalances, split `i` still tiles along the grown axis. */
  lemma GrownOnAxis(ns: seq<Node>, p: nat, c: nat, a: Axis, d: int, i: nat)
    requires Structural(Links(ns)) && Tiled(ns) && IsSplit(Links(ns), p) && IsSplit(Links(ns), i)
    requires c == ns[p].payload.one || c == ns[p].payload.two
    requires SplitAxis(ns[p].payload.dir) == a
    ensures var ns1 := Adjusted(ns, p, c, a, d);
      var r := Balanced(Balanced(ns1, ns[p].payload.one, a), ns[p].payload.two, a);
      ChildrenOk(Links(r), i) && TilesOn(r, i, a)
  {
    var ls := Links(ns);
    if Below(ls, i, ns[p].payload.two) {
      BalancedAt(Balanced(Adjusted(ns, p, c, a, d), ns[p].payload.one, a), ns[p].payload.two, a, i);
    } else if Below(ls, i, ns[p].payload.one) {
      GrownInFirst(ns, p, c, a, d, i);
    } else {
      GrownOutside(ns, p, c, a, d, i);
    }
  }

  /** A split inside the first child's subtree is left halved by the first rebalance and untouched by the second. */
  lemma GrownInFirst(ns: seq<Node>, p: nat, c: nat, a: Axis, d: int, i: nat)
    requires Structural(Links(ns)) && Tiled(ns) && IsSplit(Links(ns), p) && IsSplit(Links(ns), i)
    requires c == ns[p].payload.one || c == ns[p].payload.two
    requires SplitAxis(ns[p].payload.dir) == a
    requires Below(Links(ns), i, ns[p].payload.one) && !Below(Links(ns), i, ns[p].payload.two)
    ensures var ns1 := Adjusted(ns, p, c, a, d);
      var r := Balanced(Balanced(ns1, ns[p].payload.one, a), ns[p].payload.two, a);
      ChildrenOk(Links(r), i) && TilesOn(r, i, a)
  {
    var ns1 := Adjusted(ns, p, c, a, d);
    BalancedAt(ns1, ns[p].payload.one, a, i);
    BalancedAt(Balanced(ns1, ns[p].payload.one, a), ns[p].payload.two, a, i);
  }

  /** A split outside both subtrees is the resized one, which tiles by construction, or one nothing touched. */
  lemma GrownOutside(ns: seq<Node>, p: nat, c: nat, a: Axis, d: int, i: nat)
    requires Structural(Links(ns)) && Tiled(ns) && IsSplit(Links(ns), p) && IsSplit(Links(ns), i)
    requires c == ns[p].payload.one || c == ns[p].payload.two
    requires SplitAxis(ns[p].payload.dir) == a
    requires !Below(Links(ns), i, ns[p].payload.one) && !Below(Links(ns), i, ns[p].payload.two)
    ensures var ns1 := Adjusted(ns, p, c, a, d);
      var r := Balanced(Balanced(ns1, ns[p].payload.one, a), ns[p].payload.two, a);
      ChildrenOk(Links(r), i) && TilesOn(r, i, a)
  {
    var ls := Links(ns);
    var one, two := ns[p].payload.one, ns[p].payload.two;
    var ns1 := Adjusted(ns, p, c, a, d);
    var ns2 := Balanced(ns1, one, a);
    assert ChildrenOk(ls, i);
    assert TileBoth(ns, i);
    BalancedAt(ns1, one, a, i);
    BalancedAt(ns2, two, a, i);
    if i == p {
      assert TileBoth(ns, p);
    } else {
      var c1, c2 := ls[i].payload.one, ls[i].payload.two;
      assert i != one && i != two;
      assert c1 != one && c1 != two && c2 != one && c2 != two;
    }
  }

  /** The resize and the rebalances move nothing across the grown axis, so split `i` tiles there still. */
  lemma GrownOffAxis(ns: seq<Node>, p: nat, c: nat, a: Axis, d: int, i: nat)
    requires Structural(Links(ns)) && Tiled(ns) && IsSplit(Links(ns), p) && IsSplit(Links(ns), i)
    requires c == ns[p].payload.one || c == ns[p].payload.two
    ensures var ns1 := Adjusted(ns, p, c, a, d);
      var r := Balanced(Balanced(ns1, ns[p].payload.one, a), ns[p].payload.two, a);
      ChildrenOk(Links(r), i) && TilesOn(r, i, Other(a))
  {
    var ls := Links(ns);
    var one, two := ns[p].payload.one, ns[p].payload.two;
    var ns1 := Adjusted(ns, p, c, a, d);
    var ns2 := Balanced(ns1, one, a);
    var r := Balanced(ns2, two, a);
    assert ChildrenOk(ls, i);
    assert TileBoth(ns, i);
    var c1, c2 := ls[i].payload.one, ls[i].payload.two;
    BalancedAt(ns1, one, a, i);
    BalancedAt(ns2, two, a, i);
    SameExceptTrans(ns[i], ns1[i], ns2[i], a);
    SameExceptTrans(ns[i], ns2[i], r[i], a);
    SameExceptTrans(ns[c1], ns1[c1], ns2[c1], a);
    SameExceptTrans(ns[c1], ns2[c1], r[c1], a);
    SameExceptTrans(ns[c2], ns1[c2], ns2[c2], a);
    SameExceptTrans(ns[c2], ns2[c2], r[c2], a);
    TilesOnOtherAxis(ns, r, i, a);
  }

  /** After `window_grow_*` the grown window and its sibling have changed by `d` and `-d`. */
  lemma GrownExtents(ns: seq<Node>, w: nat, a: Axis, d: int)
    requires Structural(Links(ns)) && Live(Links(ns), w)
    requires GrowChild(Links(ns), w, DirOf(a)).Some?
    ensures var c := GrowChild(Links(ns), w, DirOf(a)).value;
      var p := ns[c].parent.value;
      var s := Sibling(Links(ns), c);
      var r := Grown(ns, w, a, d);
      && Extent(r[c], a) == Extent(ns[c], a) + d
      && Extent(r[s], a) == Extent(ns[s], a) - d
      && r[p] == ns[p]
  {
    var ls := Links(ns);
    var c := GrowChild(ls, w, DirOf(a)).value;
    var p := ns[c].parent.value;
    ParentOf(ls, c);
    var one, two := ns[p].payload.one, ns[p].payload.two;
    var ns1 := Adjusted(ns, p, c, a, d);
    var ns2 := Balanced(ns1, one, a);
    SiblingsDisjoint(ls, p, one);
    SiblingsDisjoint(ls, p, two);
    NotBelowChild(ls, p, p, one);
    NotBelowChild(ls, p, p, two);
    UntouchedAt(ns1, one, a, one);
    UntouchedAt(ns1, one, a, two);
    UntouchedAt(ns1, one, a, p);
    UntouchedAt(ns2, two, a, one);
    UntouchedAt(ns2, two, a, two);
    UntouchedAt(ns2, two, a, p);
  }

  // ---------------------------------------------------------------------
  // window_delete

  /** The other child of `w`'s parent (`SIBLING(w)`). */
  function Sibling(ls: seq<Link>, w: nat): (s: nat)
    requires Structural(ls) && Live(ls, w) && w != 0
    ensures ParentNames(ls, w) && ChildrenOk(ls, ls[w].parent.value)
    ensures var p := ls[w].parent.value;
      s != w && (s == ls[p].payload.one || s == ls[p].payload.two) && Live(ls, s)
  {
    ParentOf(ls, w);
    var p := ls[w].parent.value;
    assert ChildrenOk(ls, p);
    if ls[p].payload.one == w then ls[p].payload.two else ls[p].payload.one
  }

  /** What a freed window is left as. */
  const FreedNode := Node(None, 0, 0, 0, 0, Freed)

  /**
   * The unlinking step of `window_delete(w)`: the parent takes over the sibling's
   * payload (its leaf fields or its two children, which are re-parented) and
   * keeps its own rectangle; the sibling and `w` are freed.
   */
  function Unlinked(ns: seq<Node>, w: nat): (r: seq<Node>)
    requires Structural(Links(ns)) && IsLeaf(Links(ns), w) && w != 0
    ensures |r| == |ns|
  {
    var ls := Links(ns);
    var s := Sibling(ls, w);
    var p := ns[w].parent.value;
    var base := ns[p := ns[p].(payload := ns[s].payload)];
    var moved :=
      if ns[s].payload.Split? then
        assert ChildrenOk(ls, s);
        var g1, g2 := ns[s].payload.one, ns[s].payload.two;
        base[g1 := ns[g1].(parent := Some(p))][g2 := ns[g2].(parent := Some(p))]
      else base;
    moved[s := FreedNode][w := FreedNode]
  }

  /** Pointwise, unlinking changes the parent, the sibling, `w` and the re-parented children only. */
  lemma UnlinkedAt(ns: seq<Node>, w: nat, k: nat)
    requires Structural(Links(ns)) && IsLeaf(Links(ns), w) && w != 0 && k < |ns|
    ensures var ls, r := Links(ns), Unlinked(ns, w);
      var s, p := Sibling(ls, w), ns[w].parent.value;
      && p < s && p < w
      && (k == w || k == s ==> r[k] == FreedNode)
      && (k == p ==> r[k] == ns[p].(payload := ns[s].payload))
      && (ns[s].payload.Split? ==> ChildrenOk(ls, s))
      && (ns[s].payload.Split? && (k == ns[s].payload.one || k == ns[s].payload.two) ==>
            r[k] == ns[k].(parent := Some(p)))
      && ((k != w && k != s && k != p &&
           !(ns[s].payload.Split? && (k == ns[s].payload.one || k == ns[s].payload.two))) ==> r[k] == ns[k])
  {
    var ls := Links(ns);
    var s := Sibling(ls, w);
    if ns[s].payload.Split? {
      assert ChildrenOk(ls, s);
    }
  }

  /** Unlinking keeps the tree well formed. */
  lemma UnlinkedStructural(ns: seq<Node>, w: nat)
    requires Structural(Links(ns)) && IsLeaf(Links(ns), w) && w != 0
    ensures Structural(Links(Unlinked(ns, w)))
  {
    var lu := Links(Unlinked(ns, w));
    UnlinkedAt(ns, w, 0);
    ParentOf(Links(ns), 0);
    forall k | 0 < k < |lu| && !lu[k].payload.Freed?
      ensures ParentNames(lu, k)
    {
      UnlinkedParent(ns, w, k);
    }
    forall k | 0 <= k < |lu| && lu[k].payload.Split?
      ensures ChildrenOk(lu, k)
    {
      UnlinkedChildren(ns, w, k);
    }
  }

  /** After unlinking, every live window but the root still names a parent that holds it. */
  lemma UnlinkedParent(ns: seq<Node>, w: nat, k: nat)
    requires Structural(Links(ns)) && IsLeaf(Links(ns), w) && w != 0
    requires 0 < k < |ns| && !Unlinked(ns, w)[k].payload.Freed?
    ensures ParentNames(Links(Unlinked(ns, w)), k)
  {
    var ls, lu := Links(ns), Links(Unlinked(ns, w));
    var s, p := Sibling(ls, w), ns[w].parent.value;
    UnlinkedAt(ns, w, p);
    UnlinkedAt(ns, w, k);
    if k == p {
      ParentOf(ls, p);
      var q := ls[p].parent.value;
      UnlinkedAt(ns, w, q);
    } else if ns[s].payload.Split? && (k == ns[s].payload.one || k == ns[s].payload.two) {
    } else {
      ParentOf(ls, k);
      var q := ls[k].parent.value;
      UnlinkedAt(ns, w, q);
      assert q != s && q != p && q != w;
      if ns[s].payload.Split? && (q == ns[s].payload.one || q == ns[s].payload.two) {
        assert lu[q].payload == ls[q].payload;
      }
    }
  }

  /** After unlinking, every split still has two distinct later children that name it as parent. */
  lemma UnlinkedChildren(ns: seq<Node>, w: nat, k: nat)
    requires Structural(Links(ns)) && IsLeaf(Links(ns), w) && w != 0
    requires k < |ns| && Unlinked(ns, w)[k].payload.Split?
    ensures ChildrenOk(Links(Unlinked(ns, w)), k)
  {
    var ls := Links(ns);
    var s, p := Sibling(ls, w), ns[w].parent.value;
    UnlinkedAt(ns, w, p);
    UnlinkedAt(ns, w, k);
    if k == p {
      var g1, g2 := ns[s].payload.one, ns[s].payload.two;
      UnlinkedAt(ns, w, g1);
      UnlinkedAt(ns, w, g2);
    } else {
      assert ChildrenOk(ls, k);
      var c1, c2 := ls[k].payload.one, ls[k].payload.two;
      UnlinkedAt(ns, w, c1);
      UnlinkedAt(ns, w, c2);
      if ns[s].payload.Split? {
        assert c1 != ns[s].payload.one && c1 != ns[s].payload.two;
        assert c2 != ns[s].payload.one && c2 != ns[s].payload.two;
      }
    }
  }

  /**
   * `window_delete(w)` up to its return value: the root is left alone; otherwise
   * the tree is unlinked and, when the sibling was a split, the parent is
   * rebalanced on the axis the parent used to divide (`vbalance` for HS,
   * `hbalance` for VS).
   */
  function Deleted(ns: seq<Node>, w: nat): (r: seq<Node>)
    requires Structural(Links(ns)) && IsLeaf(Links(ns), w)
    ensures Structural(Links(r)) && |r| == |ns|
  {
    if w == 0 then ns
    else
      var s, p := Sibling(Links(ns), w), ns[w].parent.value;
      UnlinkedStructural(ns, w);
      var r := Unlinked(ns, w);
      if ns[s].payload.Split? then Balanced(r, p, SplitAxis(ns[p].payload.dir)) else r
  }

  /**
   * After `window_delete(w)` the parent has the sibling's type and payload
   * (leaf fields, or the two children, now re-parented to it) and its own
   * rectangle; `w` and the sibling are freed.
   */
  lemma DeletedParent(ns: seq<Node>, w: nat)
    requires Structural(Links(ns)) && IsLeaf(Links(ns), w) && w != 0
    ensures var s, p := Sibling(Links(ns), w), ns[w].parent.value;
      var r := Deleted(ns, w);
      && r[p] == ns[p].(payload := ns[s].payload)
      && r[w] == FreedNode && r[s] == FreedNode
      && (ns[s].payload.Split? ==> r[ns[s].payload.one].parent == Some(p) && r[ns[s].payload.two].parent == Some(p))
  {
    var ls := Links(ns);
    var s, p := Sibling(ls, w), ns[w].parent.value;
    UnlinkedAt(ns, w, p);
    UnlinkedAt(ns, w, s);
    UnlinkedAt(ns, w, w);
    UnlinkedStructural(ns, w);
    var u := Unlinked(ns, w);
    if ns[s].payload.Split? {
      var g1, g2 := ns[s].payload.one, ns[s].payload.two;
      UnlinkedAt(ns, w, g1);
      UnlinkedAt(ns, w, g2);
      var a := SplitAxis(ns[p].payload.dir);
      var lu := Links(u);
      assert !Below(lu, s, p) && !Below(lu, w, p);
      UntouchedAt(u, p, a, p);
      UntouchedAt(u, p, a, s);
      UntouchedAt(u, p, a, w);
      assert Links(Deleted(ns, w))[g1] == lu[g1] && Links(Deleted(ns, w))[g2] == lu[g2];
    }
  }

  /** The two nodes have the same rectangle. */
  predicate SameRect(a: Node, b: Node)
  {
    a.height == b.height && a.width == b.width && a.y == b.y && a.x == b.x
  }

  /** Tiling of split `i` depends on its rectangle, its payload and its children's rectangles. */
  lemma TilesOnCongruent(ns: seq<Node>, r: seq<Node>, i: nat)
    requires |r| == |ns| && i < |ns| && ns[i].payload.Split? && r[i].payload == ns[i].payload
    requires ns[i].payload.one < |ns| && ns[i].payload.two < |ns|
    requires SameRect(ns[i], r[i])
    requires SameRect(ns[ns[i].payload.one], r[ns[i].payload.one])
    requires SameRect(ns[ns[i].payload.two], r[ns[i].payload.two])
    ensures TilesOn(ns, i, X) == TilesOn(r, i, X) && TilesOn(ns, i, Y) == TilesOn(r, i, Y)
  {
  }

  /** After unlinking, every split except the parent is tiled as before; the parent is tiled across its old axis. */
  lemma UnlinkedTilesAt(ns: seq<Node>, w: nat, i: nat)
    requires Structural(Links(ns)) && Tiled(ns) && IsLeaf(Links(ns), w) && w != 0
    requires i < |ns| && Unlinked(ns, w)[i].payload.Split?
    ensures ChildrenOk(Links(Unlinked(ns, w)), i)
    ensures Structural(Links(Unlinked(ns, w))) && var p := ns[w].parent.value;
      i != p ==> TileBoth(Unlinked(ns, w), i)
    ensures var p := ns[w].parent.value;
      i == p ==> TilesOn(Unlinked(ns, w), p, Other(SplitAxis(ns[p].payload.dir)))
  {
    UnlinkedStructural(ns, w);
    assert ChildrenOk(Links(Unlinked(ns, w)), i);
    if i != ns[w].parent.value {
      UnlinkedTilesOther(ns, w, i);
    } else {
      UnlinkedTilesParent(ns, w);
    }
  }

  /** A split other than the parent of the deleted leaf keeps its tiling. */
  lemma UnlinkedTilesOther(ns: seq<Node>, w: nat, i: nat)
    requires Structural(Links(ns)) && Tiled(ns) && IsLeaf(Links(ns), w) && w != 0
    requires Structural(Links(Unlinked(ns, w)))
    requires i < |ns| && Unlinked(ns, w)[i].payload.Split? && i != ns[w].parent.value
    ensures TileBoth(Unlinked(ns, w), i)
  {
    var ls, r := Links(ns), Unlinked(ns, w);
    var s := Sibling(ls, w);
    UnlinkedAt(ns, w, i);
    assert i != s && i != w;
    assert ns[i].payload.Split?;
    assert ChildrenOk(ls, i);
    assert TileBoth(ns, i);
    var c1, c2 := ls[i].payload.one, ls[i].payload.two;
    UnlinkedAt(ns, w, c1);
    UnlinkedAt(ns, w, c2);
    TilesOnCongruent(ns, r, i);
  }

  /** The parent, which took over the sibling's children, tiles them across its own split axis. */
  lemma UnlinkedTilesParent(ns: seq<Node>, w: nat)
    requires Structural(Links(ns)) && Tiled(ns) && IsLeaf(Links(ns), w) && w != 0
    requires Structural(Links(Unlinked(ns, w)))
    requires var p := ns[w].parent.value; p < |ns| && Unlinked(ns, w)[p].payload.Split?
    ensures var p := ns[w].parent.value;
      ChildrenOk(Links(Unlinked(ns, w)), p) && TilesOn(Unlinked(ns, w), p, Other(SplitAxis(ns[p].payload.dir)))
  {
    var ls := Links(ns);
    var s, p := Sibling(ls, w), ns[w].parent.value;
    UnlinkedAt(ns, w, p);
    var g1, g2 := ns[s].payload.one, ns[s].payload.two;
    UnlinkedAt(ns, w, g1);
    UnlinkedAt(ns, w, g2);
    assert TileBoth(ns, p);
    assert TileBoth(ns, s);
  }

  /** Deleting a leaf keeps the tree tiled. */
  lemma DeletedValid(ns: seq<Node>, w: nat)
    requires Structural(Links(ns)) && Tiled(ns) && IsLeaf(Links(ns), w)
    ensures Tiled(Deleted(ns, w))
  {
    if w != 0 {
      var ls := Links(ns);
      var s, p := Sibling(ls, w), ns[w].parent.value;
      UnlinkedStructural(ns, w);
      var r := Unlinked(ns, w);
      var fix := SplitAxis(ns[p].payload.dir);
      forall i | 0 <= i < |r| && r[i].payload.Split?
        ensures ChildrenOk(Links(r), i) && TilesOn(r, i, Other(fix))
        ensures i != p ==> TilesOn(r, i, fix)
      {
        UnlinkedTilesAt(ns, w, i);
        assert Other(fix) == X || Other(fix) == Y;
      }
      if ns[s].payload.Split? {
        BalancedTiled(r, p, fix);
      } else {
        forall i | 0 <= i < |r| && r[i].payload.Split?
          ensures TileBoth(r, i)
        {
          UnlinkedAt(ns, w, p);
          UnlinkedTilesAt(ns, w, i);
        }
      }
    }
  }

  // ---------------------------------------------------------------------
  // The window window_delete hands back

  /**
   * What `window_delete(w)` returns for a non-root leaf as it is written:
   * `find(parent, parent->x, parent->y)`, the parent's column passed as the row
   * and its row as the column.
   */
  function DeleteFocusAsWritten(ns: seq<Node>, w: nat): (r: nat)
    requires Structural(Links(ns)) && IsLeaf(Links(ns), w) && w != 0
    ensures IsLeaf(Links(Deleted(ns, w)), r)
    ensures Below(Links(Deleted(ns, w)), r, ns[w].parent.value)
  {
    ParentOf(Links(ns), w);
    var p := ns[w].parent.value;
    DeletedParent(ns, w);
    Find(Deleted(ns, w), p, ns[p].x, ns[p].y)
  }

  /**
   * What `window_delete(w)` evidently means to return: the leaf `find` reaches
   * from the parent at the parent's top-left cell, row first.
   */
  function DeleteFocus(ns: seq<Node>, w: nat): (r: nat)
    requires Structural(Links(ns)) && IsLeaf(Links(ns), w) && w != 0
    ensures IsLeaf(Links(Deleted(ns, w)), r)
    ensures Below(Links(Deleted(ns, w)), r, ns[w].parent.value)
  {
    ParentOf(Links(ns), w);
    var p := ns[w].parent.value;
    DeletedParent(ns, w);
    Find(Deleted(ns, w), p, ns[p].y, ns[p].x)
  }

  /**
   * In a tiled tree whose deleted window's parent has a non-empty rectangle,
   * the corrected focus is the window now covering the parent's top-left cell.
   */
  lemma DeleteFocusCorner(ns: seq<Node>, w: nat, p: nat)
    requires Structural(Links(ns)) && Tiled(ns) && IsLeaf(Links(ns), w) && w != 0
    requires ns[w].parent == Some(p) && p < |ns| && ns[p].height > 0 && ns[p].width > 0
    ensures Contains(Deleted(ns, w)[DeleteFocus(ns, w)], ns[p].y, ns[p].x)
  {
    var r := Deleted(ns, w);
    DeletedParent(ns, w);
    DeletedValid(ns, w);
    assert Contains(r[p], ns[p].y, ns[p].x);
    FindContains(r, p, ns[p].y, ns[p].x);
  }

  /**
   * A 24x80 screen: leaf 1 on the left half; on the right half, leaf 3 beside
   * node 4, which holds leaf 5 over leaf 6.
   */
  const SwapExample: seq<Node> := [
    Node(None, 24, 80, 0, 0, Split(VS, 1, 2)),
    Node(Some(0), 24, 40, 0, 0, Leaf(None, 0, false)),
    Node(Some(0), 24, 40, 0, 40, Split(VS, 3, 4)),
    Node(Some(2), 24, 20, 0, 40, Leaf(None, 0, false)),
    Node(Some(2), 24, 20, 0, 60, Split(HS, 5, 6)),
    Node(Some(4), 12, 20, 0, 60, Leaf(None, 0, false)),
    Node(Some(4), 12, 20, 12, 60, Leaf(None, 0, false))
  ]

  /**
   * Deleting leaf 3 of the example gives the right half to leaves 5 (top) and
   * 6 (bottom).  The call as written asks for row 40, column 0 and lands on the
   * bottom leaf 6, which does not hold the right half's top-left cell (row 0,
   * column 40); the corrected call lands on leaf 5, which does.
   */
  lemma SwappedFocusExample()
    ensures Structural(Links(SwapExample)) && Tiled(SwapExample) && IsLeaf(Links(SwapExample), 3)
    ensures DeleteFocusAsWritten(SwapExample, 3) == 6
    ensures !Contains(Deleted(SwapExample, 3)[6], 0, 40)
    ensures DeleteFocus(SwapExample, 3) == 5
  {
    var ns := SwapExample;
    SwapExampleValid();
    DeletedParent(ns, 3);
    UnlinkedAt(ns, 3, 5);
    UnlinkedAt(ns, 3, 6);
    UnlinkedStructural(ns, 3);
    BalancedSameExcept(Unlinked(ns, 3), 2, X);
    var r := Deleted(ns, 3);
    assert r[2].payload == Split(HS, 5, 6);
    assert r[5].y == 0 && r[5].height == 12 && r[6].y == 12 && r[6].height == 12;
    assert r[5].payload.Leaf? && r[6].payload.Leaf?;
  }

  /** The example is a well-formed, tiled tree in which 3 is a leaf under 2, beside 4. */
  lemma SwapExampleValid()
    ensures Structural(Links(SwapExample)) && Tiled(SwapExample) && IsLeaf(Links(SwapExample), 3)
    ensures SwapExample[3].parent == Some(2) && Sibling(Links(SwapExample), 3) == 4
  {
    var ns := SwapExample;
    var ls := Links(ns);
    assert ParentNames(ls, 1) && ParentNames(ls, 2) && ParentNames(ls, 3);
    assert ParentNames(ls, 4) && ParentNames(ls, 5) && ParentNames(ls, 6);
    assert ChildrenOk(ls, 0) && ChildrenOk(ls, 2) && ChildrenOk(ls, 4);
    assert Structural(ls);
    assert TileBoth(ns, 0) && TileBoth(ns, 2) && TileBoth(ns, 4);
  }

  // ---------------------------------------------------------------------
  // Leaf order, for window_next and window_prev

  /** The leaves of the subtree of `n`, left to right (first children first). */
  function Leaves(ls: seq<Link>, n: nat): (r: seq<nat>)
    requires Structural(ls) && Live(ls, n)
    ensures |r| >= 1
    ensures forall i :: 0 <= i < |r| ==> IsLeaf(ls, r[i]) && Below(ls, r[i], n)
    decreases |ls| - n
  {
    if ls[n].payload.Leaf? then [n]
    else
      assert ChildrenOk(ls, n);
      var one, two := ls[n].payload.one, ls[n].payload.two;
      var a, b := Leaves(ls, one), Leaves(ls, two);
      BelowChild(ls, one, n, n);
      BelowChild(ls, two, n, n);
      forall i | 0 <= i < |a| ensures Below(ls, a[i], n) { BelowTrans(ls, a[i], one, n); }
      forall i | 0 <= i < |b| ensures Below(ls, b[i], n) { BelowTrans(ls, b[i], two, n); }
      a + b
  }

  /** No leaf is listed twice. */
  lemma {:induction false} LeavesDistinct(ls: seq<Link>, n: nat)
    requires Structural(ls) && Live(ls, n)
    ensures Distinct(Leaves(ls, n))
    decreases |ls| - n
  {
    if ls[n].payload.Split? {
      assert ChildrenOk(ls, n);
      var one, two := ls[n].payload.one, ls[n].payload.two;
      var a, b := Leaves(ls, one), Leaves(ls, two);
      LeavesDistinct(ls, one);
      LeavesDistinct(ls, two);
      forall i, j | 0 <= i < |a| && 0 <= j < |b| ensures a[i] != b[j]
      {
        SiblingsDisjoint(ls, n, a[i]);
      }
      assert Leaves(ls, n) == a + b;
    }
  }

  predicate Distinct(s: seq<nat>)
  {
    forall i, j :: 0 <= i < |s| && 0 <= j < |s| && i != j ==> s[i] != s[j]
  }

  /** Every leaf of the subtree is listed. */
  lemma {:induction false} LeavesComplete(ls: seq<Link>, n: nat, k: nat)
    requires Structural(ls) && Live(ls, n) && IsLeaf(ls, k) && Below(ls, k, n)
    ensures k in Leaves(ls, n)
    decreases |ls| - n
  {
    if ls[n].payload.Split? {
      assert ChildrenOk(ls, n);
      var one, two := ls[n].payload.one, ls[n].payload.two;
      if k == n {
      } else {
        OneStepBelow(ls, k, n);
        if Below(ls, k, one) { LeavesComplete(ls, one, k); } else { LeavesComplete(ls, two, k); }
      }
    } else if k != n {
      AncestorIsSplit(ls, k, n);
    }
  }

  /** The leaves of any subtree form one contiguous run of the leaves of the whole tree. */
  lemma {:induction false} LeavesSegment(ls: seq<Link>, n: nat) returns (pre: seq<nat>, post: seq<nat>)
    requires Structural(ls) && Live(ls, n)
    ensures Leaves(ls, 0) == pre + Leaves(ls, n) + post
    decreases n
  {
    ParentOf(ls, n);
    if n == 0 {
      pre, post := [], [];
    } else {
      var p := ls[n].parent.value;
      var pre', post' := LeavesSegment(ls, p);
      assert ChildrenOk(ls, p);
      var one, two := ls[p].payload.one, ls[p].payload.two;
      if n == one {
        pre, post := pre', Leaves(ls, two) + post';
      } else {
        pre, post := pre' + Leaves(ls, one), post';
      }
    }
  }

  function Last(s: seq<nat>): nat
    requires |s| >= 1
  {
    s[|s| - 1]
  }

  /** The leaves of a split are those of its first child, then those of its second. */
  lemma LeavesOfSplit(ls: seq<Link>, n: nat)
    requires Structural(ls) && IsSplit(ls, n)
    ensures ChildrenOk(ls, n)
    ensures Leaves(ls, n) == Leaves(ls, ls[n].payload.one) + Leaves(ls, ls[n].payload.two)
  {
    assert ChildrenOk(ls, n);
  }

  /** Inside a split, the first leaf of the second child follows the last leaf of the first child. */
  lemma NextAcross(ls: seq<Link>, q: nat)
    requires Structural(ls) && IsSplit(ls, q)
    ensures ChildrenOk(ls, q)
    ensures CyclicNext(Leaves(ls, 0), Last(Leaves(ls, ls[q].payload.one)), Leaves(ls, ls[q].payload.two)[0])
  {
    var s := Leaves(ls, 0);
    var pre, post := LeavesSegment(ls, q);
    LeavesOfSplit(ls, q);
    var a, b := Leaves(ls, ls[q].payload.one), Leaves(ls, ls[q].payload.two);
    var i := |pre| + |a| - 1;
    assert s == (pre + a) + (b + post);
    ConcatAt(pre + a, b + post, i);
    assert NextAt(s, i, Last(a), b[0]);
  }

  /** Across the seam of `x + y`, the last of `x` is followed by the first of `y`. */
  lemma ConcatAt(x: seq<nat>, y: seq<nat>, i: nat)
    requires |x| >= 1 && |y| >= 1 && i == |x| - 1
    ensures (x + y)[i] == x[|x| - 1] && (x + y)[i + 1] == y[0] && i + 1 < |x + y|
  {
  }

  /** The first leaf of the whole tree follows its last one. */
  lemma NextWraps(ls: seq<Link>)
    requires Structural(ls)
    ensures CyclicNext(Leaves(ls, 0), Last(Leaves(ls, 0)), Leaves(ls, 0)[0])
  {
    var s := Leaves(ls, 0);
    assert NextAt(s, |s| - 1, Last(s), s[0]);
  }

  /** The index after `i` in a cycle of length `n`. */
  function Succ(i: nat, n: nat): nat
  {
    if i + 1 < n then i + 1 else 0
  }

  /** `r` follows `w` in the cyclic order `s`. */
  predicate CyclicNext(s: seq<nat>, w: nat, r: nat)
  {
    exists i :: 0 <= i < |s| && NextAt(s, i, w, r)
  }

  /** `w` is at index `i` of `s` and `r` at the index after it, cyclically. */
  predicate NextAt(s: seq<nat>, i: nat, w: nat, r: nat)
  {
    i < |s| && s[i] == w && r == s[Succ(i, |s|)]
  }

  /** In a list without repetitions an element has one successor. */
  lemma CyclicNextUnique(s: seq<nat>, w: nat, r1: nat, r2: nat)
    requires Distinct(s) && CyclicNext(s, w, r1) && CyclicNext(s, w, r2)
    ensures r1 == r2
  {
    var i :| NextAt(s, i, w, r1);
    var j :| NextAt(s, j, w, r2);
  }

  /** In a list without repetitions an element has one predecessor. */
  lemma CyclicPrevUnique(s: seq<nat>, w1: nat, w2: nat, r: nat)
    requires Distinct(s) && CyclicNext(s, w1, r) && CyclicNext(s, w2, r)
    ensures w1 == w2
  {
    var i :| NextAt(s, i, w1, r);
    var j :| NextAt(s, j, w2, r);
  }

  /**
   * Stepping to the next leaf and back returns to the start: the leaf whose
   * successor is `r` is unique, because no leaf is listed twice.
   */
  lemma NextThenPrev(ls: seq<Link>, w: nat, r: nat, q: nat)
    requires Structural(ls)
    requires CyclicNext(Leaves(ls, 0), w, r) && CyclicNext(Leaves(ls, 0), q, r)
    ensures q == w
  {
    ParentOf(ls, 0);
    LeavesDistinct(ls, 0);
    CyclicPrevUnique(Leaves(ls, 0), w, q, r);
  }
}
