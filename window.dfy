/**
 * The window layout as the client keeps it: one object whose arena of nodes the
 * split, delete, grow and balance operations rewrite in place, and read-only
 * navigation along parent pointers.  The arena invariant and the lemmas the
 * operations rely on are in `WindowTree`.
 */
module Window {
  import opened Wrappers
  import opened WindowTree

  class Layout {
    /** Every window ever allocated, indexed by its handle; 0 is the root. */
    var nodes: seq<Node>

    ghost predicate Valid()
      reads this
    {
      Structural(Links(nodes)) && Tiled(nodes)
    }

    /** `window_root(height, width)`: a single leaf at (0, 0) with no buffer yet. */
    constructor (height: int, width: int)
      ensures Valid()
      ensures nodes == [Node(None, height, width, 0, 0, Leaf(None, 0, false))]
    {
      nodes := [Node(None, height, width, 0, 0, Leaf(None, 0, false))];
    }

    /** `new(parent, height, width, y, x)`: a fresh leaf with NULL buffer, scroll 0, resize false. */
    method New(parent: nat, height: int, width: int, y: int, x: int) returns (k: nat)
      modifies this
      ensures k == |old(nodes)|
      ensures nodes == old(nodes) + [Node(Some(parent), height, width, y, x, Leaf(None, 0, false))]
    {
      k := |nodes|;
      nodes := nodes + [Node(Some(parent), height, width, y, x, Leaf(None, 0, false))];
    }

    /** `hbalance(n)` for axis X and `vbalance(n)` for axis Y. */
    method Balance(n: nat, a: Axis)
      requires Structural(Links(nodes)) && n < |nodes|
      modifies this
      ensures nodes == Balanced(old(nodes), n, a)
      decreases |nodes| - n
    {
      if nodes[n].payload.Split? {
        assert ChildrenOk(Links(nodes), n);
        var dir, one, two := nodes[n].payload.dir, nodes[n].payload.one, nodes[n].payload.two;
        var e, o := Extent(nodes[n], a), Offset(nodes[n], a);
        if SplitAxis(dir) == a {
          // `one->width = (width / 2) + (width & 1); two->width = width - one->width`
          var e1 := FirstShare(e);
          nodes := nodes[one := Place(nodes[one], a, o, e1)];
          nodes := nodes[two := Place(nodes[two], a, o + e1, e - e1)];
        } else {
          nodes := nodes[one := Place(nodes[one], a, o, e)];
          nodes := nodes[two := Place(nodes[two], a, o, e)];
        }
        assert nodes == Spread(old(nodes), n, a);
        Balance(one, a);
        Balance(two, a);
      }
    }

    /** `window_hsplit(w, b, size)`: the bottom window shows `b`, the top one keeps `w`'s leaf fields. */
    method HSplit(w: nat, b: BufferRef, size: int)
      requires Valid() && IsLeaf(Links(nodes), w)
      modifies this
      ensures nodes == SplitLeaf(old(nodes), w, HS, b, size)
      ensures Valid()
    {
      var ns := nodes;
      var nd := nodes[w];
      var bh := NewShare(nd.height, size);
      var th := nd.height - bh;
      var top := New(w, th, nd.width, nd.y, nd.x);
      var bot := New(w, bh, nd.width, nd.y + th, nd.x);
      nodes := nodes[w := nd.(payload := Split(HS, top, bot))];
      nodes := nodes[top := nodes[top].(payload := Leaf(nd.payload.buffer, nd.payload.scroll, nd.payload.resize))];
      nodes := nodes[bot := nodes[bot].(payload := Leaf(b, 0, false))];
      SplitLeafValid(ns, w, HS, b, size);
    }

    /** `window_vsplit(w, b, size)`: the right window shows `b`, the left one keeps only `w`'s buffer. */
    method VSplit(w: nat, b: BufferRef, size: int)
      requires Valid() && IsLeaf(Links(nodes), w)
      modifies this
      ensures nodes == SplitLeaf(old(nodes), w, VS, b, size)
      ensures Valid()
    {
      var ns := nodes;
      var nd := nodes[w];
      var rw := NewShare(nd.width, size);
      var lw := nd.width - rw;
      var left := New(w, nd.height, lw, nd.y, nd.x);
      var right := New(w, nd.height, rw, nd.y, nd.x + lw);
      nodes := nodes[w := nd.(payload := Split(VS, left, right))];
      nodes := nodes[left := nodes[left].(payload := Leaf(nd.payload.buffer, 0, false))];
      nodes := nodes[right := nodes[right].(payload := Leaf(b, 0, false))];
      SplitLeafValid(ns, w, VS, b, size);
    }

    /**
     * The `while` loop of `window_grow_*`: climb from `w` to the first ancestor
     * whose parent splits in direction `dir`, or to the root.
     */
    method FindGrowChild(w: nat, dir: Dir) returns (r: Option<nat>)
      requires Valid() && Live(Links(nodes), w)
      ensures r == GrowChild(Links(nodes), w, dir)
    {
      var ls := Links(nodes);
      var c := w;
      var p := nodes[w].parent;
      ParentOf(ls, w);
      while p.Some? && nodes[p.value].payload.dir != dir
        invariant Live(ls, c) && p == ls[c].parent
        invariant c != 0 ==> ParentNames(ls, c)
        invariant GrowChild(ls, c, dir) == GrowChild(ls, w, dir)
        decreases c
      {
        c := p.value;
        p := nodes[c].parent;
        ParentOf(ls, c);
      }
      r := if p.None? then None else Some(c);
    }

    /**
     * The resize step of `window_grow_*`: child `c` of split `q` changes extent by
     * `d` and its sibling by `-d`; the second child's offset moves with the first
     * child's extent.
     */
    method Adjust(q: nat, c: nat, a: Axis, d: int)
      requires Structural(Links(nodes)) && IsSplit(Links(nodes), q)
      requires c == nodes[q].payload.one || c == nodes[q].payload.two
      modifies this
      ensures nodes == Adjusted(old(nodes), q, c, a, d)
    {
      var one, two := nodes[q].payload.one, nodes[q].payload.two;
      assert ChildrenOk(Links(nodes), q);
      if c == one {
        nodes := nodes[one := Place(nodes[one], a, Offset(nodes[one], a), Extent(nodes[one], a) + d)]
          [two := Place(nodes[two], a, Offset(nodes[two], a) + d, Extent(nodes[two], a) - d)];
      } else {
        nodes := nodes[two := Place(nodes[two], a, Offset(nodes[two], a) - d, Extent(nodes[two], a) + d)]
          [one := Place(nodes[one], a, Offset(nodes[one], a), Extent(nodes[one], a) - d)];
      }
    }

    /** The body shared by `window_grow_y` (axis Y, looking for HS) and `window_grow_x` (axis X, VS). */
    method Grow(w: nat, a: Axis, d: int)
      requires Valid() && Live(Links(nodes), w)
      modifies this
      ensures nodes == Grown(old(nodes), w, a, d)
      ensures Valid()
    {
      var ns := nodes;
      var r := FindGrowChild(w, DirOf(a));
      if r.None? {
        return;
      }
      var c := r.value;
      var q := nodes[c].parent.value;
      ParentOf(Links(ns), c);
      var one, two := nodes[q].payload.one, nodes[q].payload.two;
      Adjust(q, c, a, d);
      Balance(one, a);
      Balance(two, a);
      GrownValid(ns, w, a, d);
    }

    /** `window_grow_y(w, dy)`. */
    method GrowY(w: nat, dy: int)
      requires Valid() && Live(Links(nodes), w)
      modifies this
      ensures nodes == Grown(old(nodes), w, Y, dy) && Valid()
    {
      Grow(w, Y, dy);
    }

    /** `window_grow_x(w, dx)`. */
    method GrowX(w: nat, dx: int)
      requires Valid() && Live(Links(nodes), w)
      modifies this
      ensures nodes == Grown(old(nodes), w, X, dx) && Valid()
    {
      Grow(w, X, dx);
    }

    /** `window_set_height(w, height)`: grow by the difference. */
    method SetHeight(w: nat, height: int)
      requires Valid() && Live(Links(nodes), w)
      modifies this
      ensures nodes == Grown(old(nodes), w, Y, height - old(nodes)[w].height) && Valid()
    {
      GrowY(w, height - nodes[w].height);
    }

    /** `window_set_width(w, width)`: grow by the difference. */
    method SetWidth(w: nat, width: int)
      requires Valid() && Live(Links(nodes), w)
      modifies this
      ensures nodes == Grown(old(nodes), w, X, width - old(nodes)[w].width) && Valid()
    {
      GrowX(w, width - nodes[w].width);
    }

    /**
     * `window_delete(w)` on a leaf.  The window returned is what `find` reaches
     * from the parent at the parent's top-left cell, row first.  The call is
     * written with the row and column swapped (`DeleteFocusAsWritten`).
     */
    method Delete(w: nat) returns (r: nat)
      requires Valid() && IsLeaf(Links(nodes), w)
      modifies this
      ensures nodes == Deleted(old(nodes), w)
      ensures Valid()
      ensures w == 0 ==> r == w
      ensures w != 0 ==> r == DeleteFocus(old(nodes), w)
    {
      var ns := nodes;
      var ls := Links(nodes);
      ParentOf(ls, w);
      if nodes[w].parent.None? {
        return w;
      }
      var p := nodes[w].parent.value;
      var s := Sibling(ls, w);
      var fix := SplitAxis(nodes[p].payload.dir);
      var sib := nodes[s];
      // the parent takes the sibling's type and payload; a split sibling's
      // children are re-parented
      var base := nodes[p := nodes[p].(payload := sib.payload)];
      if sib.payload.Split? {
        assert ChildrenOk(ls, s);
        var g1, g2 := sib.payload.one, sib.payload.two;
        base := base[g1 := nodes[g1].(parent := Some(p))][g2 := nodes[g2].(parent := Some(p))];
      }
      // the two frees, done before the rebalance, which never reaches them
      nodes := base[s := FreedNode][w := FreedNode];
      assert nodes == Unlinked(ns, w);
      UnlinkedStructural(ns, w);
      if sib.payload.Split? {
        Balance(p, fix);
      }
      DeletedValid(ns, w);
      assert Live(Links(nodes), p) by {
        UnlinkedAt(ns, w, p);
      }
      // `find(parent, parent->y, parent->x)`, read from the parent's rectangle on entry
      r := Find(nodes, p, ns[p].y, ns[p].x);
    }

    /** `window_right(w)`: `w` at the right edge of the root, else the leaf holding the cell just right of `w`'s top row. */
    function Right(w: nat): (r: nat)
      reads this
      requires Valid() && IsLeaf(Links(nodes), w)
      ensures IsLeaf(Links(nodes), r)
      ensures nodes[w].x + nodes[w].width == nodes[0].width ==> r == w
      ensures nodes[w].x + nodes[w].width != nodes[0].width && Contains(nodes[0], nodes[w].y, nodes[w].x + nodes[w].width)
        ==> Contains(nodes[r], nodes[w].y, nodes[w].x + nodes[w].width)
    {
      var root, nd := Root(Links(nodes), w), nodes[w];
      if nd.x + nd.width == nodes[root].width then w
      else Probe(root, nd.y, nd.x + nd.width)
    }

    /** `window_left(w)`: `w` at column 0, else the leaf holding the cell just left of `w`'s top row. */
    function Left(w: nat): (r: nat)
      reads this
      requires Valid() && IsLeaf(Links(nodes), w)
      ensures IsLeaf(Links(nodes), r)
      ensures nodes[w].x == 0 ==> r == w
      ensures nodes[w].x != 0 && Contains(nodes[0], nodes[w].y, nodes[w].x - 1)
        ==> Contains(nodes[r], nodes[w].y, nodes[w].x - 1)
    {
      var root, nd := Root(Links(nodes), w), nodes[w];
      if nd.x == 0 then w
      else Probe(root, nd.y, nd.x - 1)
    }

    /** `window_up(w)`: `w` at row 0, else the leaf holding the cell just above `w`'s left column. */
    function Up(w: nat): (r: nat)
      reads this
      requires Valid() && IsLeaf(Links(nodes), w)
      ensures IsLeaf(Links(nodes), r)
      ensures nodes[w].y == 0 ==> r == w
      ensures nodes[w].y != 0 && Contains(nodes[0], nodes[w].y - 1, nodes[w].x)
        ==> Contains(nodes[r], nodes[w].y - 1, nodes[w].x)
    {
      var root, nd := Root(Links(nodes), w), nodes[w];
      if nd.y == 0 then w
      else Probe(root, nd.y - 1, nd.x)
    }

    /** `window_down(w)`: `w` at the bottom edge of the root, else the leaf holding the cell just below `w`'s left column. */
    function Down(w: nat): (r: nat)
      reads this
      requires Valid() && IsLeaf(Links(nodes), w)
      ensures IsLeaf(Links(nodes), r)
      ensures nodes[w].y + nodes[w].height == nodes[0].height ==> r == w
      ensures nodes[w].y + nodes[w].height != nodes[0].height && Contains(nodes[0], nodes[w].y + nodes[w].height, nodes[w].x)
        ==> Contains(nodes[r], nodes[w].y + nodes[w].height, nodes[w].x)
    {
      var root, nd := Root(Links(nodes), w), nodes[w];
      if nd.y + nd.height == nodes[root].height then w
      else Probe(root, nd.y + nd.height, nd.x)
    }

    /** `find(root, y, x)`: a leaf, and the one covering the point when the root does. */
    function Probe(root: nat, y: int, x: int): (r: nat)
      reads this
      requires Valid() && root == 0
      ensures IsLeaf(Links(nodes), r)
      ensures Contains(nodes[0], y, x) ==> Contains(nodes[r], y, x)
    {
      if Contains(nodes[0], y, x) then FindContains(nodes, 0, y, x); Find(nodes, 0, y, x)
      else Find(nodes, 0, y, x)
    }

    /** The first loop of `window_next`: climb while the window is its parent's second child. */
    method ClimbWhileSecond(w: nat) returns (c: nat, p: Option<nat>)
      requires Valid() && IsLeaf(Links(nodes), w)
      ensures Live(Links(nodes), c) && p == Links(nodes)[c].parent
      ensures c != 0 ==> ParentNames(Links(nodes), c)
      ensures Last(Leaves(Links(nodes), c)) == w
      ensures p.Some? ==> nodes[p.value].payload.two != c
    {
      ghost var ls := Links(nodes);
      ParentOf(ls, w);
      c, p := w, nodes[w].parent;
      while p.Some? && nodes[p.value].payload.two == c
        invariant Live(ls, c) && p == ls[c].parent
        invariant c != 0 ==> ParentNames(ls, c)
        invariant Last(Leaves(ls, c)) == w
        decreases c
      {
        LeavesOfSplit(ls, p.value);
        c := p.value;
        p := nodes[c].parent;
        ParentOf(ls, c);
      }
    }

    /** The first loop of `window_prev`: climb while the window is its parent's first child. */
    method ClimbWhileFirst(w: nat) returns (c: nat, p: Option<nat>)
      requires Valid() && IsLeaf(Links(nodes), w)
      ensures Live(Links(nodes), c) && p == Links(nodes)[c].parent
      ensures c != 0 ==> ParentNames(Links(nodes), c)
      ensures Leaves(Links(nodes), c)[0] == w
      ensures p.Some? ==> nodes[p.value].payload.one != c
    {
      ghost var ls := Links(nodes);
      ParentOf(ls, w);
      c, p := w, nodes[w].parent;
      while p.Some? && nodes[p.value].payload.one == c
        invariant Live(ls, c) && p == ls[c].parent
        invariant c != 0 ==> ParentNames(ls, c)
        invariant Leaves(ls, c)[0] == w
        decreases c
      {
        LeavesOfSplit(ls, p.value);
        c := p.value;
        p := nodes[c].parent;
        ParentOf(ls, c);
      }
    }

    /** The last loop of `window_next`: follow first children down to a leaf. */
    method DescendFirst(n: nat) returns (r: nat)
      requires Valid() && Live(Links(nodes), n)
      ensures IsLeaf(Links(nodes), r) && r == Leaves(Links(nodes), n)[0]
    {
      ghost var ls := Links(nodes);
      r := n;
      while !nodes[r].payload.Leaf?
        invariant Live(ls, r) && Leaves(ls, r)[0] == Leaves(ls, n)[0]
        decreases |nodes| - r
      {
        LeavesOfSplit(ls, r);
        r := nodes[r].payload.one;
      }
    }

    /** The last loop of `window_prev`: follow second children down to a leaf. */
    method DescendLast(n: nat) returns (r: nat)
      requires Valid() && Live(Links(nodes), n)
      ensures IsLeaf(Links(nodes), r) && r == Last(Leaves(Links(nodes), n))
    {
      ghost var ls := Links(nodes);
      r := n;
      while !nodes[r].payload.Leaf?
        invariant Live(ls, r) && Last(Leaves(ls, r)) == Last(Leaves(ls, n))
        decreases |nodes| - r
      {
        LeavesOfSplit(ls, r);
        r := nodes[r].payload.two;
      }
    }

    /**
     * `window_next(w)`: climb while `w` is a second child, step to the second
     * child of the split reached (or stay at the root), then descend through
     * first children.  The result is the leaf after `w` in the left-to-right
     * order of all leaves, wrapping from the last to the first.
     */
    method Next(w: nat) returns (r: nat)
      requires Valid() && IsLeaf(Links(nodes), w)
      ensures IsLeaf(Links(nodes), r)
      ensures CyclicNext(Leaves(Links(nodes), 0), w, r)
    {
      ghost var ls := Links(nodes);
      ParentOf(ls, w);
      var p := nodes[w].parent;
      if p.None? {
        NextWraps(ls);
        return w;
      }
      var c;
      c, p := ClimbWhileSecond(w);
      var d := c;
      if p.Some? {
        NextAcross(ls, p.value);
        d := nodes[p.value].payload.two;
      } else {
        NextWraps(ls);
      }
      r := DescendFirst(d);
    }

    /**
     * `window_prev(w)`: the mirror image of `window_next`, climbing while `w`
     * is a first child and descending through second children.  The result
     * is the leaf before `w` in the same cyclic order.
     */
    method Prev(w: nat) returns (r: nat)
      requires Valid() && IsLeaf(Links(nodes), w)
      ensures IsLeaf(Links(nodes), r)
      ensures CyclicNext(Leaves(Links(nodes), 0), r, w)
    {
      ghost var ls := Links(nodes);
      ParentOf(ls, w);
      var p := nodes[w].parent;
      if p.None? {
        NextWraps(ls);
        return w;
      }
      var c;
      c, p := ClimbWhileFirst(w);
      var d := c;
      if p.Some? {
        NextAcross(ls, p.value);
        d := nodes[p.value].payload.one;
      } else {
        NextWraps(ls);
      }
      r := DescendLast(d);
    }
  }
}
