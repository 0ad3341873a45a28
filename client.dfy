/**
 * The client state the key and text handlers act on (`Eria`): the window
 * layout and the focused window, the networks with their buffers, and the
 * completion and resize flags; with `handle_key`, `handle_text` and the
 * actions of the key table that act on that state.
 */
module Client {
  import opened Bytes
  import opened Wrappers
  import opened InputLine
  import opened WindowTree
  import Window
  import Buffers
  import Keys
  import Messages
  import Terminal

  // ---------------------------------------------------------------------
  // The walk `next_buffer` and `prev_buffer` take: the buffers of the first
  // network in order, then those of the second, and so on, around and around.
  // A network is its index; `nets[n]` lists the buffers of network `n`.

  /** The place of `b` in a list that holds it (the scan `while (r[0] != buffer) ++r`). */
  function IndexOf(s: seq<nat>, b: nat): (i: nat)
    requires b in s
    ensures i < |s| && s[i] == b
    ensures forall k :: 0 <= k < i ==> s[k] != b
  {
    if s[0] == b then 0 else 1 + IndexOf(s[1..], b)
  }

  /** The networks as the client keeps them: at least one, each listing at least one buffer, none twice. */
  predicate Ring(nets: seq<seq<nat>>)
  {
    |nets| > 0 && forall n :: 0 <= n < |nets| ==> nets[n] != [] && Unique(nets[n])
  }

  /** No buffer is listed twice: each is found at its own place. */
  predicate Unique(s: seq<nat>)
  {
    forall i :: 0 <= i < |s| ==> IndexOf(s, s[i]) == i
  }

  /** How many buffers the networks before `n` list. */
  function Before(nets: seq<seq<nat>>, n: nat): nat
    requires n <= |nets|
    decreases n
  {
    if n == 0 then 0 else Before(nets, n - 1) + |nets[n - 1]|
  }

  /** The length of the walk. */
  function Total(nets: seq<seq<nat>>): nat
  {
    Before(nets, |nets|)
  }

  /** Network `n` has a buffer `j`. */
  predicate Holds(nets: seq<seq<nat>>, n: nat, j: nat)
  {
    n < |nets| && j < |nets[n]|
  }

  /** Where buffer `j` of network `n` comes in the walk. */
  function Rank(nets: seq<seq<nat>>, n: nat, j: nat): (r: nat)
    requires Holds(nets, n, j)
    ensures r < Total(nets)
  {
    BeforeGrows(nets, n + 1, |nets|);
    Before(nets, n) + j
  }

  lemma {:induction false} BeforeGrows(nets: seq<seq<nat>>, n: nat, m: nat)
    requires n <= m <= |nets|
    ensures Before(nets, n) <= Before(nets, m)
    decreases m
  {
    if n < m {
      BeforeGrows(nets, n, m - 1);
    }
  }

  /** Every buffer comes before the end of its network and of the walk ... */
  lemma RankBelow(nets: seq<seq<nat>>, n: nat, j: nat)
    requires Holds(nets, n, j)
    ensures Rank(nets, n, j) < Before(nets, n + 1) <= Total(nets)
  {
    BeforeGrows(nets, n + 1, |nets|);
  }

  /** ... no two come at the same place ... */
  lemma RankInjective(nets: seq<seq<nat>>, n1: nat, j1: nat, n2: nat, j2: nat)
    requires Holds(nets, n1, j1) && Holds(nets, n2, j2)
    ensures Rank(nets, n1, j1) == Rank(nets, n2, j2) ==> n1 == n2 && j1 == j2
  {
    RankBelow(nets, n1, j1);
    RankBelow(nets, n2, j2);
    if n1 < n2 {
      BeforeGrows(nets, n1 + 1, n2);
    } else if n2 < n1 {
      BeforeGrows(nets, n2 + 1, n1);
    }
  }

  /** ... and every place of the walk, from network `n` on, holds a buffer. */
  function Locate(nets: seq<seq<nat>>, r: nat, n: nat): (p: (nat, nat))
    requires n < |nets| && Before(nets, n) <= r < Total(nets)
    ensures Holds(nets, p.0, p.1) && Rank(nets, p.0, p.1) == r
    decreases |nets| - n
  {
    if r < Before(nets, n + 1) then (n, r - Before(nets, n))
    else Locate(nets, r, n + 1)
  }

  /** The walk is never empty. */
  lemma TotalPositive(nets: seq<seq<nat>>)
    requires Ring(nets)
    ensures Total(nets) > 0
  {
    RankBelow(nets, |nets| - 1, 0);
  }

  /** The place before `i` in a cycle of `n` places (`Succ` is the one after). */
  function Pred(i: nat, n: nat): nat
  {
    if 0 < i then i - 1 else if 0 < n then n - 1 else 0
  }

  /** The place `d` steps after place `r` in a cycle of `n` places. */
  function Ahead(r: nat, d: nat, n: nat): (a: nat)
    requires r < n
    ensures a < n
    decreases d
  {
    if d == 0 then r else Succ(Ahead(r, d - 1, n), n)
  }

  /** Counting `d` steps on from `r` wraps around once past the last place. */
  lemma {:induction false} AheadWraps(r: nat, d: nat, n: nat)
    requires r < n && d <= n
    ensures Ahead(r, d, n) == if r + d < n then r + d else r + d - n
    decreases d
  {
    if d > 0 {
      AheadWraps(r, d - 1, n);
    }
  }

  /**
   * `next_buffer` for buffer `b` of network `n`: the last buffer of the last
   * network wraps to the first buffer of the first network, the last buffer of any
   * other network goes on to the first buffer of the next network, and any other
   * buffer to the one after it.  The result is one place further in the walk.
   */
  method NextPlace(nets: seq<seq<nat>>, n: nat, b: nat) returns (n2: nat, j2: nat)
    requires Ring(nets) && n < |nets| && b in nets[n]
    ensures Holds(nets, n2, j2)
    ensures Rank(nets, n2, j2) == Succ(Rank(nets, n, IndexOf(nets[n], b)), Total(nets))
  {
    ghost var j := IndexOf(nets[n], b);
    var last := |nets[n]| - 1;
    RankBelow(nets, n, j);
    if n == |nets| - 1 && nets[n][last] == b {
      assert j == last;
      n2, j2 := 0, 0;
    } else if nets[n][last] == b {
      assert j == last;
      // `n = networks.items; while (n[0] != network) ++n` finds the place of
      // the network, which here is the network itself
      n2, j2 := n + 1, 0;
      RankBelow(nets, n2, 0);
    } else {
      // `r = network->buffers.items; while (r[0] != buffer) ++r`
      var k := 0;
      while nets[n][k] != b
        invariant k <= j
        decreases j - k
      {
        k := k + 1;
      }
      n2, j2 := n, k + 1;
      RankBelow(nets, n2, j2);
    }
  }

  /**
   * `prev_buffer` for buffer `b` of network `n`: the first buffer of the first
   * network wraps to the last buffer of the last network, the first buffer of any
   * other network goes back to the last buffer of the network before, and any
   * other buffer to the one before it.  The result is one place back in the walk.
   */
  method PrevPlace(nets: seq<seq<nat>>, n: nat, b: nat) returns (n2: nat, j2: nat)
    requires Ring(nets) && n < |nets| && b in nets[n]
    ensures Holds(nets, n2, j2)
    ensures Rank(nets, n2, j2) == Pred(Rank(nets, n, IndexOf(nets[n], b)), Total(nets))
  {
    ghost var j := IndexOf(nets[n], b);
    RankBelow(nets, n, j);
    if n == 0 && nets[n][0] == b {
      assert j == 0;
      n2 := |nets| - 1;
      j2 := |nets[n2]| - 1;
    } else if nets[n][0] == b {
      assert j == 0;
      // `n = networks.items; while (n[1] != network) ++n` stops at the
      // network before, which here is `n - 1`
      n2 := n - 1;
      j2 := |nets[n2]| - 1;
      RankBelow(nets, n2, j2);
    } else {
      // `r = network->buffers.items; while (r[1] != buffer) ++r`
      var k := 0;
      while nets[n][k + 1] != b
        invariant k < j
        decreases j - k
      {
        k := k + 1;
      }
      n2, j2 := n, k;
    }
  }

  /** `prev_buffer` after `next_buffer` comes back to where it started ... */
  lemma PrevAfterNext(nets: seq<seq<nat>>, n: nat, j: nat, n2: nat, j2: nat, n3: nat, j3: nat)
    requires Holds(nets, n, j) && Holds(nets, n2, j2) && Holds(nets, n3, j3)
    requires Rank(nets, n2, j2) == Succ(Rank(nets, n, j), Total(nets))
    requires Rank(nets, n3, j3) == Pred(Rank(nets, n2, j2), Total(nets))
    ensures n3 == n && j3 == j
  {
    RankBelow(nets, n, j);
    RankInjective(nets, n, j, n3, j3);
  }

  /** ... and so does `next_buffer` after `prev_buffer`. */
  lemma NextAfterPrev(nets: seq<seq<nat>>, n: nat, j: nat, n2: nat, j2: nat, n3: nat, j3: nat)
    requires Holds(nets, n, j) && Holds(nets, n2, j2) && Holds(nets, n3, j3)
    requires Rank(nets, n2, j2) == Pred(Rank(nets, n, j), Total(nets))
    requires Rank(nets, n3, j3) == Succ(Rank(nets, n2, j2), Total(nets))
    ensures n3 == n && j3 == j
  {
    RankBelow(nets, n, j);
    RankInjective(nets, n, j, n3, j3);
  }

  // ---------------------------------------------------------------------
  // scroll_up and scroll_down

  /** `scroll_up`: five lines further back, but not past the number of messages. */
  function Raised(scroll: int, count: nat): int
  {
    if scroll + 5 > count then count else scroll + 5
  }

  /** `scroll_down`: five lines nearer the newest message, but not below 0. */
  function Lowered(scroll: int): int
  {
    if scroll - 5 < 0 then 0 else scroll - 5
  }

  /** From a scroll within the messages, both keys stay within them and move the right way. */
  lemma ScrollStaysInside(scroll: int, count: nat)
    requires 0 <= scroll <= count
    ensures scroll <= Raised(scroll, count) <= count && (Raised(scroll, count) == scroll <==> scroll == count)
    ensures 0 <= Lowered(scroll) <= scroll && (Lowered(scroll) == scroll <==> scroll == 0)
  {
  }

  /** Away from the ends each key undoes the other. */
  lemma ScrollUndoes(scroll: int, count: nat)
    ensures 0 <= scroll && scroll + 5 <= count ==> Lowered(Raised(scroll, count)) == scroll
    ensures 5 <= scroll <= count ==> Raised(Lowered(scroll), count) == scroll
  {
  }

  // ---------------------------------------------------------------------
  // Changing the fields of leaves, as `state->window->buffer = ...`,
  // the scroll keys and `replace_buffer` do

  /** `b` is `a`, or the same window with other leaf fields (buffer, scroll, resize flag). */
  predicate Relabel(a: Node, b: Node)
  {
    b == a || (a.payload.Leaf? && b.payload.Leaf? && b == a.(payload := b.payload))
  }

  predicate Relabels(ns: seq<Node>, r: seq<Node>)
  {
    |r| == |ns| && forall k :: 0 <= k < |ns| ==> Relabel(ns[k], r[k])
  }

  /** Changing the fields of leaves keeps the tree well formed ... */
  lemma RelabelsStructural(ns: seq<Node>, r: seq<Node>)
    requires Relabels(ns, r) && Structural(Links(ns))
    ensures Structural(Links(r))
  {
    var ls, lr := Links(ns), Links(r);
    forall k | 0 <= k < |r| && r[k].payload.Split?
      ensures ChildrenOk(lr, k)
    {
      assert Relabel(ns[k], r[k]);
      assert ChildrenOk(ls, k);
      var one, two := ns[k].payload.one, ns[k].payload.two;
      assert Relabel(ns[one], r[one]) && Relabel(ns[two], r[two]);
    }
    forall k | 0 < k < |r| && !r[k].payload.Freed?
      ensures ParentNames(lr, k)
    {
      assert Relabel(ns[k], r[k]);
      assert ParentNames(ls, k);
      var p := ns[k].parent.value;
      assert Relabel(ns[p], r[p]);
    }
    assert Relabel(ns[0], r[0]);
  }

  /** ... and tiled. */
  lemma RelabelsValid(ns: seq<Node>, r: seq<Node>)
    requires Relabels(ns, r) && Structural(Links(ns)) && Tiled(ns)
    ensures Structural(Links(r)) && Tiled(r)
  {
    RelabelsStructural(ns, r);
    forall i | 0 <= i < |r| && r[i].payload.Split?
      ensures TileBoth(r, i)
    {
      assert Relabel(ns[i], r[i]);
      assert TileBoth(ns, i);
      assert ChildrenOk(Links(ns), i);
      var one, two := ns[i].payload.one, ns[i].payload.two;
      assert Relabel(ns[one], r[one]) && Relabel(ns[two], r[two]);
    }
  }

  /** Changing the fields of leaves moves no window in the tree. */
  lemma {:induction false} RelabelsBelow(ns: seq<Node>, r: seq<Node>, k: nat, n: nat)
    requires Relabels(ns, r) && k < |ns|
    ensures Below(Links(r), k, n) == Below(Links(ns), k, n)
    decreases k
  {
    assert Relabel(ns[k], r[k]);
    if k != n && ns[k].parent.Some? && ns[k].parent.value < k {
      RelabelsBelow(ns, r, ns[k].parent.value, n);
    }
  }

  /** `k` lies below `n` when it lies below a node `c` below `n`. */
  lemma BelowVia(ls: seq<Link>, k: nat, c: nat, n: nat)
    requires k < |ls| && c < |ls|
    ensures Below(ls, k, c) && Below(ls, c, n) ==> Below(ls, k, n)
  {
    if Below(ls, k, c) && Below(ls, c, n) {
      BelowTrans(ls, k, c, n);
    }
  }

  /** Nothing but a leaf itself lies below a leaf. */
  lemma {:induction false} BelowLeaf(ls: seq<Link>, k: nat, n: nat)
    requires Structural(ls) && IsLeaf(ls, n) && k < |ls|
    ensures Live(ls, k) && Below(ls, k, n) ==> k == n
    decreases k
  {
    if Live(ls, k) && k != n && Below(ls, k, n) {
      ParentOf(ls, k);
      assert ParentNames(ls, k);
      BelowLeaf(ls, ls[k].parent.value, n);
    }
  }

  /** A live strict descendant of a split lies below one of its children. */
  lemma BelowSplit(ls: seq<Link>, k: nat, n: nat)
    requires Structural(ls) && IsSplit(ls, n) && k < |ls|
    ensures Live(ls, k) && k != n && Below(ls, k, n) ==> Below(ls, k, ls[n].payload.one) || Below(ls, k, ls[n].payload.two)
  {
    if Live(ls, k) && k != n && Below(ls, k, n) {
      OneStepBelow(ls, k, n);
    }
  }

  /** What `replace_buffer(n, from, to)` leaves at node `k`: a leaf below `n` that showed `from` shows `to`. */
  function Swapped(ns: seq<Node>, n: nat, k: nat, from: BufferRef, to: BufferRef): Node
    requires k < |ns|
  {
    var p := ns[k].payload;
    if Below(Links(ns), k, n) && p.Leaf? && p.buffer == from then ns[k].(payload := p.(buffer := to)) else ns[k]
  }

  /**
   * `replace_buffer(n, from, to)`: recurse into both children of a split; a
   * leaf that shows `from` shows `to` instead.  Every leaf below `n` that
   * showed `from` shows `to`, and nothing else changes.
   */
  function Replaced(ns: seq<Node>, n: nat, from: BufferRef, to: BufferRef): (r: seq<Node>)
    requires Structural(Links(ns)) && Live(Links(ns), n)
    ensures Relabels(ns, r)
    ensures forall k :: 0 <= k < |ns| ==> r[k] == Swapped(ns, n, k, from, to)
    decreases |ns| - n
  {
    if ns[n].payload.Split? then
      var one, two := ns[n].payload.one, ns[n].payload.two;
      assert ChildrenOk(Links(ns), n);
      var r1 := Replaced(ns, one, from, to);
      RelabelsStructural(ns, r1);
      assert Relabel(ns[two], r1[two]);
      var r2 := Replaced(r1, two, from, to);
      forall k | 0 <= k < |ns|
        ensures r2[k] == Swapped(ns, n, k, from, to)
      {
        ReplacedSplitAt(ns, n, from, to, r1, r2, k);
      }
      r2
    else
      forall k | 0 <= k < |ns|
        ensures !Live(Links(ns), k) || !Below(Links(ns), k, n) || k == n
      {
        BelowLeaf(Links(ns), k, n);
      }
      var p := ns[n].payload;
      if p.buffer == from then ns[n := ns[n].(payload := p.(buffer := to))] else ns
  }

  /** The two recursive calls of `replace_buffer` together replace below the split. */
  lemma ReplacedSplitAt(ns: seq<Node>, n: nat, from: BufferRef, to: BufferRef, r1: seq<Node>, r2: seq<Node>, k: nat)
    requires Structural(Links(ns)) && IsSplit(Links(ns), n) && k < |ns|
    requires Relabels(ns, r1) && k < |r2|
    requires r1[k] == Swapped(ns, ns[n].payload.one, k, from, to)
    requires r2[k] == Swapped(r1, ns[n].payload.two, k, from, to)
    ensures r2[k] == Swapped(ns, n, k, from, to)
  {
    var ls := Links(ns);
    assert ChildrenOk(ls, n);
    var one, two := ns[n].payload.one, ns[n].payload.two;
    assert Relabel(ns[k], r1[k]);
    RelabelsBelow(ns, r1, k, two);
    SiblingsDisjoint(ls, n, k);
    BelowChild(ls, one, n, n);
    BelowChild(ls, two, n, n);
    BelowVia(ls, k, one, n);
    BelowVia(ls, k, two, n);
    BelowSplit(ls, k, n);
  }

  /** `replace_buffer(w, from, to)`, in place on the layout. */
  method ReplaceBuffer(l: Window.Layout, w: nat, from: BufferRef, to: BufferRef)
    requires l.Valid() && Live(Links(l.nodes), w)
    modifies l
    ensures l.nodes == Replaced(old(l.nodes), w, from, to) && l.Valid()
    decreases |l.nodes| - w
  {
    ghost var ns := l.nodes;
    if l.nodes[w].payload.Split? {
      var one, two := l.nodes[w].payload.one, l.nodes[w].payload.two;
      assert ChildrenOk(Links(ns), w);
      ReplaceBuffer(l, one, from, to);
      assert Relabel(ns[two], l.nodes[two]);
      ReplaceBuffer(l, two, from, to);
    } else if l.nodes[w].payload.buffer == from {
      l.nodes := l.nodes[w := l.nodes[w].(payload := l.nodes[w].payload.(buffer := to))];
      assert l.nodes == Replaced(ns, w, from, to);
      RelabelsValid(ns, l.nodes);
    }
  }

  // ---------------------------------------------------------------------
  // The state

  /** Every window shows one of the client's `count` buffers. */
  predicate Showing(ls: seq<Link>, count: nat)
  {
    forall k :: 0 <= k < |ls| && ls[k].payload.Leaf? ==> ls[k].payload.buffer.Some? && ls[k].payload.buffer.value < count
  }

  /** The arena with the fields of leaf `w` set to `p`. */
  function SetLeaf(ns: seq<Node>, w: nat, p: Payload): seq<Node>
    requires w < |ns|
  {
    ns[w := ns[w].(payload := p)]
  }

  /** Splitting the focused window shows its buffer in both halves. */
  lemma SplitShowing(ns: seq<Node>, w: nat, dir: Dir, size: int, count: nat)
    requires w < |ns| && ns[w].payload.Leaf? && Showing(Links(ns), count)
    ensures Showing(Links(SplitLeaf(ns, w, dir, ns[w].payload.buffer, size)), count)
  {
    var r := SplitLeaf(ns, w, dir, ns[w].payload.buffer, size);
    assert forall k :: 0 <= k < |ns| ==> r[k] == r[..|ns|][k];
    assert Links(ns)[w].payload.Leaf?;
  }

  /** Closing a window leaves only windows that showed a buffer before. */
  lemma DeletedShowing(ns: seq<Node>, w: nat, count: nat)
    requires Structural(Links(ns)) && IsLeaf(Links(ns), w) && Showing(Links(ns), count)
    ensures Showing(Links(Deleted(ns, w)), count)
  {
    if w != 0 {
      var ls := Links(ns);
      var r := Unlinked(ns, w);
      forall k | 0 <= k < |r| && r[k].payload.Leaf?
        ensures r[k].payload.buffer.Some? && r[k].payload.buffer.value < count
      {
        UnlinkedAt(ns, w, k);
        var s := Sibling(ls, w);
        assert ls[s] == Link(ns[s].parent, ns[s].payload);
      }
      assert Showing(Links(r), count);
      UnlinkedStructural(ns, w);
    }
  }

  /** The root window showing buffer `b` is a well-formed layout of one focused window. */
  lemma StartFramed(ns: seq<Node>, b: nat, count: nat)
    requires |ns| == 1 && ns[0].parent.None? && ns[0].payload.Leaf? && Structural(Links(ns)) && Tiled(ns) && b < count
    ensures var r := [ns[0].(payload := Leaf(Some(b), 0, false))];
      Structural(Links(r)) && Tiled(r) && IsLeaf(Links(r), 0) && Showing(Links(r), count)
  {
    var r := [ns[0].(payload := Leaf(Some(b), 0, false))];
    assert Relabels(ns, r);
    RelabelsValid(ns, r);
  }

  /** What a key did besides changing the state: a line to send, the end of the program, or an action left out here. */
  datatype Outcome = Done | Sent(line: seq<byte>) | Exit | Skipped(action: Keys.Action)

  /**
   * What action `a` reports on input `input`: `quit` ends the program, `enter`
   * sends the text of a non-empty input, completion and leaving a buffer are
   * not modelled, and every other action only changes the state.
   */
  function Reply(a: Keys.Action, input: seq<byte>): Outcome
  {
    match a
    case Quit => Exit
    case Enter => if input == [] then Done else Sent(Strip(input))
    case Complete | LeaveBuffer => Skipped(a)
    case _ => Done
  }

  /** What `Reply` gives for the line editing keys and for the actions that leave the input alone. */
  lemma ReplyKinds(a: Keys.Action, input: seq<byte>)
    ensures Buffers.LineKey(a) ==> Reply(a, input) == Done
    ensures a != Keys.Enter ==> Reply(a, input) == Reply(a, [])
  {
  }

  /** Every buffer belongs to one network, which lists it once. */
  ghost predicate Homed(nets: seq<seq<nat>>, buffers: seq<Buffers.Buffer>)
    reads buffers`network
  {
    && Ring(nets)
    && (forall n, j :: 0 <= n < |nets| && 0 <= j < |nets[n]| ==> nets[n][j] < |buffers| && buffers[nets[n][j]].network == n)
    && (forall b :: 0 <= b < |buffers| ==> buffers[b].network < |nets| && b in nets[buffers[b].network])
  }

  /** The buffers' activity flags, by number. */
  function Flags(buffers: seq<Buffers.Buffer>): (a: seq<bool>)
    reads buffers
    ensures |a| == |buffers| && forall b :: 0 <= b < |buffers| ==> a[b] == buffers[b].activity
  {
    seq(|buffers|, b reads buffers requires 0 <= b < |buffers| => buffers[b].activity)
  }

  /** Every input line is well formed. */
  ghost predicate Editable(buffers: seq<Buffers.Buffer>)
    reads buffers`input, buffers`cursor
  {
    forall b :: 0 <= b < |buffers| ==> buffers[b].Valid()
  }

  /** The buffer at place `r` of the walk. */
  function WalkAt(nets: seq<seq<nat>>, r: nat): nat
    requires r < Total(nets)
  {
    var p := Locate(nets, r, 0);
    nets[p.0][p.1]
  }

  /** The buffer at a place of the walk is the one listed there. */
  lemma WalkAtRank(nets: seq<seq<nat>>, n: nat, j: nat)
    requires Holds(nets, n, j)
    ensures Rank(nets, n, j) < Total(nets) && WalkAt(nets, Rank(nets, n, j)) == nets[n][j]
  {
    RankBelow(nets, n, j);
    var p := Locate(nets, Rank(nets, n, j), 0);
    RankInjective(nets, n, j, p.0, p.1);
  }

  /** Every listed buffer has a flag in `active`. */
  predicate Covers(nets: seq<seq<nat>>, active: seq<bool>)
  {
    forall m, i :: 0 <= m < |nets| && 0 <= i < |nets[m]| ==> nets[m][i] < |active|
  }

  /** None of the places 1 to `steps - 1` on from place `s` holds an active buffer. */
  ghost predicate Quiet(nets: seq<seq<nat>>, active: seq<bool>, s: nat, steps: nat)
    requires Covers(nets, active) && s < Total(nets)
  {
    forall d :: 0 < d < steps ==> !active[WalkAt(nets, Ahead(s, d, Total(nets)))]
  }

  /** Passing over one more inactive buffer keeps the search quiet. */
  lemma QuietStep(nets: seq<seq<nat>>, active: seq<bool>, s: nat, steps: nat)
    requires Covers(nets, active) && s < Total(nets) && Quiet(nets, active, s, steps)
    requires !active[WalkAt(nets, Ahead(s, steps, Total(nets)))]
    ensures Quiet(nets, active, s, steps + 1)
  {
  }

  /**
   * Some walk of `jump_active` from place `from` ends at place `to`: it passed
   * over buffers without activity only, and it stopped on `found`, an active
   * buffer, or having gone round to `from` again.
   */
  ghost predicate Jumped(nets: seq<seq<nat>>, active: seq<bool>, from: nat, to: nat, found: bool)
    requires Covers(nets, active) && from < Total(nets)
  {
    exists steps: nat ::
      && 0 < steps <= Total(nets)
      && Quiet(nets, active, from, steps)
      && to == Ahead(from, steps, Total(nets))
      && (found || steps == Total(nets))
  }

  /**
   * The search of `jump_active` from buffer `save` of network `n0`, given the
   * buffers' activity flags: `next_buffer` until a buffer with activity comes
   * up or the walk is back at `save`.  Every buffer passed over had no activity.
   */
  method SeekPlace(nets: seq<seq<nat>>, active: seq<bool>, n0: nat, save: nat) returns (n: nat, j: nat, ghost steps: nat)
    requires Ring(nets) && n0 < |nets| && save in nets[n0] && Covers(nets, active)
    requires forall m, i :: 0 <= m < |nets| && 0 <= i < |nets[m]| && nets[m][i] == save ==> m == n0
    ensures Holds(nets, n, j) && 0 < steps <= Total(nets)
    ensures Rank(nets, n, j) == Ahead(Rank(nets, n0, IndexOf(nets[n0], save)), steps, Total(nets))
    ensures active[nets[n][j]] || steps == Total(nets)
    ensures Quiet(nets, active, Rank(nets, n0, IndexOf(nets[n0], save)), steps)
  {
    ghost var j0 := IndexOf(nets[n0], save);
    ghost var s, t := Rank(nets, n0, j0), Total(nets);
    n, j := NextPlace(nets, n0, save);
    steps := 1;
    while !active[nets[n][j]] && nets[n][j] != save
      invariant Holds(nets, n, j) && 0 < steps <= t
      invariant Rank(nets, n, j) == Ahead(s, steps, t)
      invariant Quiet(nets, active, s, steps)
      decreases t - steps
    {
      RankInjective(nets, n, j, n0, j0);
      AheadWraps(s, steps, t);
      WalkAtRank(nets, n, j);
      QuietStep(nets, active, s, steps);
      assert IndexOf(nets[n], nets[n][j]) == j;
      n, j := NextPlace(nets, n, nets[n][j]);
      steps := steps + 1;
    }
    if nets[n][j] == save {
      assert n == n0 && IndexOf(nets[n], nets[n][j]) == j;
      AheadWraps(s, steps, t);
    }
  }

  /**
   * What an action reads of the client before it runs (`Eria.Snapshot`): the
   * window nodes, the focused window and its payload, the resize flag, the
   * shown buffer by number and by place, the networks, the activity flags, the
   * shown buffer's message count, the first buffer of its network, and the
   * windows below, above, left and right of the focused one.
   */
  datatype Was = Was(
    nodes: seq<Node>, focus: nat, resize: bool, pane: Payload, shown: nat, position: nat,
    nets: seq<seq<nat>>, flags: seq<bool>, lines: nat, first: nat,
    down: nat, up: nat, left: nat, right: nat)

  /**
   * What the layout actions change, read after they run (`Eria.Current`): the
   * window nodes, the focused window, the resize flag, the shown buffer by
   * number and by place, and whether it has activity.
   */
  datatype Now = Now(nodes: seq<Node>, focus: nat, resize: bool, shown: nat, position: nat, active: bool)

  /** What holds of every snapshot of a well-formed client. */
  ghost predicate Sound(w: Was)
  {
    && Structural(Links(w.nodes)) && IsLeaf(Links(w.nodes), w.focus)
    && w.pane == w.nodes[w.focus].payload && w.pane.Leaf?
    && Covers(w.nets, w.flags) && w.position < Total(w.nets)
  }

  /**
   * What action `a` does, from snapshot `w` before it to snapshot `v` after
   * it, to the layout, the focus and the resize flag, as the method of each
   * action states it; the actions that do not act on the layout leave all
   * three alone.
   */
  ghost predicate Change(a: Keys.Action, w: Was, v: Now)
    requires Sound(w) && Structural(Links(v.nodes))
  {
    match a
    case ResizeWindow =>
      v.resize == !w.resize && v.nodes == w.nodes && v.focus == w.focus
    case NextBuffer =>
      && v.resize == w.resize && v.focus == w.focus
      && v.position == Succ(w.position, Total(w.nets))
      && v.nodes == SetLeaf(w.nodes, v.focus, w.pane.(buffer := Some(v.shown)))
    case PrevBuffer =>
      && v.resize == w.resize && v.focus == w.focus
      && v.position == Pred(w.position, Total(w.nets))
      && v.nodes == SetLeaf(w.nodes, v.focus, w.pane.(buffer := Some(v.shown)))
    case JumpActive =>
      && v.resize == w.resize && v.focus == w.focus
      && Jumped(w.nets, w.flags, w.position, v.position, v.active)
      && v.nodes == SetLeaf(w.nodes, v.focus, w.pane.(buffer := Some(v.shown)))
    case JumpServer =>
      && v.resize == w.resize && v.focus == w.focus
      && v.shown == w.first
      && v.nodes == SetLeaf(w.nodes, v.focus, w.pane.(buffer := Some(v.shown)))
    case ScrollUp =>
      && v.resize == w.resize && v.focus == w.focus
      && v.nodes == SetLeaf(w.nodes, v.focus, w.pane.(scroll := Raised(w.pane.scroll, w.lines)))
    case ScrollDown =>
      && v.resize == w.resize && v.focus == w.focus
      && v.nodes == SetLeaf(w.nodes, v.focus, w.pane.(scroll := Lowered(w.pane.scroll)))
    case HSplit =>
      && v.resize == w.resize && v.focus == |w.nodes|
      && v.nodes == SplitLeaf(w.nodes, w.focus, HS, Some(w.shown), -1)
    case VSplit =>
      && v.resize == w.resize && v.focus == |w.nodes|
      && v.nodes == SplitLeaf(w.nodes, w.focus, VS, Some(w.shown), -1)
    case CloseWindow =>
      && v.resize == w.resize
      && v.nodes == Deleted(w.nodes, w.focus)
      && (w.focus == 0 ==> v.focus == 0)
      && (w.focus != 0 ==> v.focus == DeleteFocus(w.nodes, w.focus))
    case WDown => Moved(w, v, Y, -1, w.down)
    case WUp => Moved(w, v, Y, 1, w.up)
    case WLeft => Moved(w, v, X, -1, w.left)
    case WRight => Moved(w, v, X, 1, w.right)
    case _ => v.nodes == w.nodes && v.focus == w.focus && v.resize == w.resize
  }

  /**
   * `window_down`/`up`/`left`/`right`, which keep the resize flag: in resize
   * mode the focused window grows by `d` along axis `ax` (the root stays as it
   * is), otherwise the focus moves to `to` and the layout stays as it is.
   */
  ghost predicate Moved(w: Was, v: Now, ax: Axis, d: int, to: nat)
    requires Sound(w)
  {
    && v.resize == w.resize
    && if w.resize then
         && v.focus == w.focus
         && (w.nodes[w.focus].parent.None? ==> v.nodes == w.nodes)
         && (w.nodes[w.focus].parent.Some? ==> v.nodes == Grown(w.nodes, w.focus, ax, d))
       else
         v.nodes == w.nodes && v.focus == to
  }

  /** The actions on the input line, and `enter`, leave the layout, the focus and the resize flag alone. */
  lemma Still(a: Keys.Action, w: Was, v: Now)
    requires Sound(w) && Structural(Links(v.nodes)) && (Buffers.LineKey(a) || a == Keys.Enter)
    requires v.nodes == w.nodes && v.focus == w.focus && v.resize == w.resize
    ensures Change(a, w, v)
  {
  }

  /** `Eria`, without its configuration, poll set and terminal key reader. */
  class Eria {
    var layout: Window.Layout
    /** `state->window`, the focused window. */
    var focus: nat
    /** Every buffer of every network, by number. */
    var buffers: seq<Buffers.Buffer>
    /** `networks`: for each network, its buffers in order. */
    var nets: seq<seq<nat>>
    var completeAgain: bool
    var resize: bool

    /** The layout is well formed, the focus is a window, and every window shows a buffer. */
    ghost predicate Framed()
      reads this`layout, this`focus, this`buffers, layout
    {
      layout.Valid() && IsLeaf(Links(layout.nodes), focus) && Showing(Links(layout.nodes), |buffers|)
    }

    ghost predicate Listed()
      reads this`buffers, this`nets, buffers`network
    {
      Homed(nets, buffers)
    }

    ghost predicate Lines()
      reads this`buffers, buffers`input, buffers`cursor
    {
      Editable(buffers)
    }

    ghost predicate Valid()
      reads this`layout, this`focus, this`buffers, this`nets, layout, buffers`network, buffers`input, buffers`cursor
    {
      Framed() && Listed() && Lines()
    }

    /**
     * The start of the client: one window over the whole screen (`window_root`),
     * focused and showing the first buffer of the first network.
     */
    constructor (height: int, width: int, bs: seq<Buffers.Buffer>, ns: seq<seq<nat>>)
      requires Homed(ns, bs) && Editable(bs)
      ensures Valid() && buffers == bs && nets == ns && focus == 0 && !completeAgain && !resize
      ensures fresh(layout) && layout.nodes == [Node(None, height, width, 0, 0, Leaf(Some(ns[0][0]), 0, false))]
    {
      var root := new Window.Layout(height, width);
      StartFramed(root.nodes, ns[0][0], |bs|);
      root.nodes := [Node(None, height, width, 0, 0, Leaf(Some(ns[0][0]), 0, false))];
      layout, focus := root, 0;
      buffers, nets := bs, ns;
      completeAgain, resize := false, false;
    }

    /** The focused window's fields. */
    function Pane(): (p: Payload)
      reads this`layout, this`focus, this`buffers, layout
      requires Framed()
      ensures p.Leaf? && p.buffer.Some? && p.buffer.value < |buffers|
      ensures p == layout.nodes[focus].payload
    {
      assert Links(layout.nodes)[focus].payload.Leaf?;
      layout.nodes[focus].payload
    }

    /** `state->window->buffer`. */
    function Shown(): (b: nat)
      reads this`layout, this`focus, this`buffers, layout
      requires Framed()
      ensures b < |buffers|
    {
      Pane().buffer.value
    }

    /** Where buffer `b` stands in the walk of `next_buffer`. */
    ghost function Position(b: nat): (r: nat)
      reads this`buffers, this`nets, buffers`network
      requires Listed() && b < |buffers|
      ensures r < Total(nets)
    {
      var n := buffers[b].network;
      RankBelow(nets, n, IndexOf(nets[n], b));
      Rank(nets, n, IndexOf(nets[n], b))
    }

    /** The buffer at place `r` of the walk stands there. */
    lemma WalkPosition(r: nat)
      requires Listed() && r < Total(nets)
      ensures WalkAt(nets, r) < |buffers| && Position(WalkAt(nets, r)) == r
    {
      var p := Locate(nets, r, 0);
      assert IndexOf(nets[p.0], WalkAt(nets, r)) == p.1;
    }

    /** No two buffers stand at the same place. */
    lemma PositionInjective(b1: nat, b2: nat)
      requires Listed() && b1 < |buffers| && b2 < |buffers|
      ensures Position(b1) == Position(b2) ==> b1 == b2
    {
      var n1, n2 := buffers[b1].network, buffers[b2].network;
      RankInjective(nets, n1, IndexOf(nets[n1], b1), n2, IndexOf(nets[n2], b2));
    }

    /** The focused window gets the fields `p`, which name one of the buffers. */
    method SetPane(p: Payload)
      requires Valid() && p.Leaf? && p.buffer.Some? && p.buffer.value < |buffers|
      modifies layout
      ensures Valid() && layout.nodes == SetLeaf(old(layout.nodes), focus, p)
    {
      ghost var ns := layout.nodes;
      layout.nodes := SetLeaf(layout.nodes, focus, p);
      assert Links(ns)[focus].payload.Leaf?;
      assert Relabels(ns, layout.nodes);
      RelabelsValid(ns, layout.nodes);
    }

    /** The buffer `next_buffer` goes to from buffer `b`: the next one in the walk. */
    method Following(b: nat) returns (b2: nat)
      requires Listed() && b < |buffers|
      ensures b2 < |buffers| && Position(b2) == Succ(Position(b), Total(nets))
    {
      var n := buffers[b].network;
      var n2, j2 := NextPlace(nets, n, b);
      b2 := nets[n2][j2];
      assert IndexOf(nets[n2], b2) == j2;
    }

    /** The buffer `prev_buffer` goes to from buffer `b`: the one before in the walk. */
    method Preceding(b: nat) returns (b2: nat)
      requires Listed() && b < |buffers|
      ensures b2 < |buffers| && Position(b2) == Pred(Position(b), Total(nets))
    {
      var n := buffers[b].network;
      var n2, j2 := PrevPlace(nets, n, b);
      b2 := nets[n2][j2];
      assert IndexOf(nets[n2], b2) == j2;
    }

    /** `next_buffer`: the focused window shows the next buffer of the walk. */
    method NextBuffer()
      requires Valid()
      modifies layout
      ensures Valid()
      ensures Position(Shown()) == Succ(old(Position(Shown())), Total(nets))
      ensures layout.nodes == SetLeaf(old(layout.nodes), focus, old(Pane()).(buffer := Some(Shown())))
    {
      var b := Following(Shown());
      SetPane(Pane().(buffer := Some(b)));
    }

    /** `prev_buffer`: the focused window shows the buffer before in the walk. */
    method PrevBuffer()
      requires Valid()
      modifies layout
      ensures Valid()
      ensures Position(Shown()) == Pred(old(Position(Shown())), Total(nets))
      ensures layout.nodes == SetLeaf(old(layout.nodes), focus, old(Pane()).(buffer := Some(Shown())))
    {
      var b := Preceding(Shown());
      SetPane(Pane().(buffer := Some(b)));
    }

    /**
     * The search of `jump_active` from buffer `save`: `next_buffer` until a
     * buffer with activity comes up or the walk is back at `save`.  Every
     * buffer passed over had no activity.
     */
    method Seek(save: nat) returns (b: nat, ghost steps: nat)
      requires Listed() && save < |buffers|
      ensures b < |buffers| && 0 < steps <= Total(nets)
      ensures Position(b) == Ahead(Position(save), steps, Total(nets))
      ensures buffers[b].activity || steps == Total(nets)
      ensures Quiet(nets, Flags(buffers), Position(save), steps)
    {
      var acts := Flags(buffers);
      var n0 := buffers[save].network;
      var n, j;
      n, j, steps := SeekPlace(nets, acts, n0, save);
      b := nets[n][j];
      assert IndexOf(nets[n], b) == j;
    }

    /**
     * `jump_active`: the focused window shows the buffer `Seek` finds.  The
     * steps go through a local buffer and the window is set once at the end.
     */
    method JumpActive() returns (ghost steps: nat)
      requires Valid()
      modifies layout
      ensures Valid() && 0 < steps <= Total(nets)
      ensures Position(Shown()) == Ahead(old(Position(Shown())), steps, Total(nets))
      ensures buffers[Shown()].activity || steps == Total(nets)
      ensures Quiet(nets, Flags(buffers), old(Position(Shown())), steps)
      ensures var p := old(Pane()); layout.nodes == SetLeaf(old(layout.nodes), focus, p.(buffer := Some(Shown())))
    {
      var b;
      b, steps := Seek(Shown());
      var p := Pane();
      SetPane(p.(buffer := Some(b)));
      assert Shown() == b;
    }

    /** `jump_server`: the focused window shows the first buffer of its buffer's network. */
    method JumpServer()
      requires Valid()
      modifies layout
      ensures Valid()
      ensures Shown() == nets[buffers[old(Shown())].network][0]
      ensures layout.nodes == SetLeaf(old(layout.nodes), focus, old(Pane()).(buffer := Some(Shown())))
    {
      var n := buffers[Shown()].network;
      SetPane(Pane().(buffer := Some(nets[n][0])));
    }

    /** `scroll_up`: the focused window scrolls five lines back, up to its buffer's message count. */
    method ScrollUp()
      requires Valid()
      modifies layout
      ensures Valid()
      ensures var p := old(Pane()); layout.nodes == SetLeaf(old(layout.nodes), focus, p.(scroll := Raised(p.scroll, |buffers[p.buffer.value].messages|)))
    {
      var p := Pane();
      SetPane(p.(scroll := Raised(p.scroll, |buffers[p.buffer.value].messages|)));
    }

    /** `scroll_down`: the focused window scrolls five lines forward, down to 0. */
    method ScrollDown()
      requires Valid()
      modifies layout
      ensures Valid()
      ensures var p := old(Pane()); layout.nodes == SetLeaf(old(layout.nodes), focus, p.(scroll := Lowered(p.scroll)))
    {
      var p := Pane();
      SetPane(p.(scroll := Lowered(p.scroll)));
    }

    /** `hsplit`: split the focused window top and bottom, both showing its buffer, and focus the top one. */
    method HSplit()
      requires Valid()
      modifies layout, this`focus
      ensures Valid()
      ensures layout.nodes == SplitLeaf(old(layout.nodes), old(focus), HS, Some(old(Shown())), -1)
      ensures focus == |old(layout.nodes)|
    {
      ghost var ns := layout.nodes;
      var b := layout.nodes[focus].payload.buffer;
      layout.HSplit(focus, b, -1);
      SplitShowing(ns, focus, HS, -1, |buffers|);
      focus := layout.nodes[focus].payload.one;
      assert layout.nodes[..|ns|][old(focus)] == layout.nodes[old(focus)];
    }

    /** `vsplit`: split the focused window left and right, both showing its buffer, and focus the left one. */
    method VSplit()
      requires Valid()
      modifies layout, this`focus
      ensures Valid()
      ensures layout.nodes == SplitLeaf(old(layout.nodes), old(focus), VS, Some(old(Shown())), -1)
      ensures focus == |old(layout.nodes)|
    {
      ghost var ns := layout.nodes;
      var b := layout.nodes[focus].payload.buffer;
      layout.VSplit(focus, b, -1);
      SplitShowing(ns, focus, VS, -1, |buffers|);
      focus := layout.nodes[focus].payload.one;
      assert layout.nodes[..|ns|][old(focus)] == layout.nodes[old(focus)];
    }

    /** `close_window`: delete the focused window and focus the window `window_delete` returns. */
    method CloseWindow()
      requires Valid()
      modifies layout, this`focus
      ensures Valid()
      ensures layout.nodes == Deleted(old(layout.nodes), old(focus))
      ensures old(focus) == 0 ==> focus == 0
      ensures old(focus) != 0 ==> focus == DeleteFocus(old(layout.nodes), old(focus))
    {
      DeletedShowing(layout.nodes, focus, |buffers|);
      focus := layout.Delete(focus);
    }

    /** `resize_window`: `--state->resize` on a `bool` turns resize mode on and off. */
    method ResizeWindow()
      modifies this`resize
      ensures resize == !old(resize)
    {
      resize := !resize;
    }

    /** The resize step of the window keys: the focused window grows by `d` on axis `a`. */
    method GrowFocus(a: Axis, d: int)
      requires Valid()
      modifies layout
      ensures Valid() && layout.nodes == Grown(old(layout.nodes), focus, a, d)
    {
      if a == Y {
        layout.GrowY(focus, d);
      } else {
        layout.GrowX(focus, d);
      }
    }

    /** `wdown`: in resize mode the focused window grows by -1 rows unless it is the root; otherwise the focus moves down. */
    method WDown()
      requires Valid()
      modifies layout, this`focus
      ensures Valid()
      ensures old(resize) && old(layout.nodes)[old(focus)].parent.None? ==> layout.nodes == old(layout.nodes) && focus == old(focus)
      ensures old(resize) && old(layout.nodes)[old(focus)].parent.Some? ==>
        focus == old(focus) && layout.nodes == Grown(old(layout.nodes), old(focus), Y, -1)
      ensures !old(resize) ==> layout.nodes == old(layout.nodes) && focus == old(layout.Down(focus))
    {
      if resize {
        if layout.nodes[focus].parent.None? {
          return;
        }
        GrowFocus(Y, -1);
      } else {
        focus := layout.Down(focus);
      }
    }

    /** `wleft`: in resize mode the focused window grows by -1 columns unless it is the root; otherwise the focus moves left. */
    method WLeft()
      requires Valid()
      modifies layout, this`focus
      ensures Valid()
      ensures old(resize) && old(layout.nodes)[old(focus)].parent.None? ==> layout.nodes == old(layout.nodes) && focus == old(focus)
      ensures old(resize) && old(layout.nodes)[old(focus)].parent.Some? ==>
        focus == old(focus) && layout.nodes == Grown(old(layout.nodes), old(focus), X, -1)
      ensures !old(resize) ==> layout.nodes == old(layout.nodes) && focus == old(layout.Left(focus))
    {
      if resize {
        if layout.nodes[focus].parent.None? {
          return;
        }
        GrowFocus(X, -1);
      } else {
        focus := layout.Left(focus);
      }
    }

    /** `wright`: in resize mode the focused window grows by 1 column unless it is the root; otherwise the focus moves right. */
    method WRight()
      requires Valid()
      modifies layout, this`focus
      ensures Valid()
      ensures old(resize) && old(layout.nodes)[old(focus)].parent.None? ==> layout.nodes == old(layout.nodes) && focus == old(focus)
      ensures old(resize) && old(layout.nodes)[old(focus)].parent.Some? ==>
        focus == old(focus) && layout.nodes == Grown(old(layout.nodes), old(focus), X, 1)
      ensures !old(resize) ==> layout.nodes == old(layout.nodes) && focus == old(layout.Right(focus))
    {
      if resize {
        if layout.nodes[focus].parent.None? {
          return;
        }
        GrowFocus(X, 1);
      } else {
        focus := layout.Right(focus);
      }
    }

    /** `wup`: in resize mode the focused window grows by 1 row unless it is the root; otherwise the focus moves up. */
    method WUp()
      requires Valid()
      modifies layout, this`focus
      ensures Valid()
      ensures old(resize) && old(layout.nodes)[old(focus)].parent.None? ==> layout.nodes == old(layout.nodes) && focus == old(focus)
      ensures old(resize) && old(layout.nodes)[old(focus)].parent.Some? ==>
        focus == old(focus) && layout.nodes == Grown(old(layout.nodes), old(focus), Y, 1)
      ensures !old(resize) ==> layout.nodes == old(layout.nodes) && focus == old(layout.Up(focus))
    {
      if resize {
        if layout.nodes[focus].parent.None? {
          return;
        }
        GrowFocus(Y, 1);
      } else {
        focus := layout.Up(focus);
      }
    }

    /** The line-editing keys, on the input line of the shown buffer. */
    method EditLine(a: Keys.Action)
      requires Valid() && Buffers.LineKey(a)
      modifies {buffers[Shown()]}`input, {buffers[Shown()]}`cursor
      ensures Valid() && buffers[Shown()].Line() == Buffers.Edited(a, old(buffers[Shown()].Line()))
    {
      buffers[Shown()].EditKey(a);
    }

    /** `handle_text`: the text goes into the shown buffer's input at the cursor, and completion starts over. */
    method HandleText(s: seq<byte>)
      requires Valid() && NoNul(s)
      modifies {buffers[Shown()]}`input, {buffers[Shown()]}`cursor, this`completeAgain
      ensures Valid() && !completeAgain
      ensures buffers[Shown()].Line() == Inserted(old(buffers[Shown()].Line()), s)
    {
      buffers[Shown()].Insert(s);
      completeAgain := false;
    }

    /**
     * `enter` on the shown buffer: an empty input sends nothing; otherwise its
     * text is sent, echoed into the buffer's messages, and the input cleared.
     */
    method Send(nick: seq<byte>, color: Terminal.Color) returns (o: Outcome)
      requires Valid() && NoNul(nick) && buffers[Shown()].Fits(nick)
      modifies {buffers[Shown()]}`input, {buffers[Shown()]}`cursor, {buffers[Shown()]}`messages
      ensures Valid()
      ensures var b := buffers[Shown()];
        old(b.input) == [] ==> o == Done && unchanged(b)
      ensures var b := buffers[Shown()];
        old(b.input) != [] ==>
          && o == Sent(Strip(old(b.input))) && b.Line() == Edit([], 0)
          && Buffers.Echoed(old(b.messages), b.messages, color, nick, Strip(old(b.input)))
    {
      var line := buffers[Shown()].Enter(nick, color);
      o := if line.Some? then Sent(line.value) else Done;
    }

    /**
     * The action `a` of the key table, on the current state, which `w` records
     * as the actions read it and whose shown buffer holds the line `line`.
     */
    method Act(a: Keys.Action, nick: seq<byte>, color: Terminal.Color, ghost w: Was, ghost line: Edit) returns (o: Outcome)
      requires Valid() && w == Snapshot() && line == buffers[Shown()].Line()
      requires a == Keys.Enter ==> NoNul(nick) && buffers[Shown()].Fits(nick)
      modifies layout, this`focus, this`resize, {buffers[Shown()]}`input, {buffers[Shown()]}`cursor, {buffers[Shown()]}`messages
      ensures Valid() && o == Reply(a, line.text) && Change(a, w, Current())
      ensures Buffers.LineKey(a) ==> buffers[w.shown].Line() == Buffers.Edited(a, line)
    {
      if Buffers.LineKey(a) || a == Keys.Enter {
        o := ActOnInput(a, nick, color, w, line);
      } else {
        o := ActOnRest(a, w);
      }
    }

    /** The actions on the shown buffer's input: the line editing keys and `enter`. */
    method ActOnInput(a: Keys.Action, nick: seq<byte>, color: Terminal.Color, ghost w: Was, ghost line: Edit) returns (o: Outcome)
      requires Valid() && w == Snapshot() && line == buffers[Shown()].Line() && (Buffers.LineKey(a) || a == Keys.Enter)
      requires a == Keys.Enter ==> NoNul(nick) && buffers[Shown()].Fits(nick)
      modifies {buffers[Shown()]}`input, {buffers[Shown()]}`cursor, {buffers[Shown()]}`messages
      ensures Valid() && o == Reply(a, line.text) && Change(a, w, Current())
      ensures Buffers.LineKey(a) ==> buffers[w.shown].Line() == Buffers.Edited(a, line)
    {
      if Buffers.LineKey(a) {
        o := ActOnLine(a, w, line);
      } else {
        o := ActOnEnter(nick, color, w, line);
      }
    }

    /** A line editing key: the shown buffer's line is edited and nothing else changes. */
    method ActOnLine(a: Keys.Action, ghost w: Was, ghost line: Edit) returns (o: Outcome)
      requires Valid() && w == Snapshot() && line == buffers[Shown()].Line() && Buffers.LineKey(a)
      modifies {buffers[Shown()]}`input, {buffers[Shown()]}`cursor
      ensures Valid() && o == Reply(a, line.text) && Change(a, w, Current())
      ensures buffers[w.shown].Line() == Buffers.Edited(a, line)
    {
      EditLine(a);
      o := Done;
      ReplyKinds(a, line.text);
      ghost var v := Current();
      assert v.nodes == w.nodes && v.focus == w.focus && v.resize == w.resize;
      Still(a, w, v);
    }

    /** `enter`: the shown buffer's line is sent, and the layout is left alone. */
    method ActOnEnter(nick: seq<byte>, color: Terminal.Color, ghost w: Was, ghost line: Edit) returns (o: Outcome)
      requires Valid() && w == Snapshot() && line == buffers[Shown()].Line() && NoNul(nick) && buffers[Shown()].Fits(nick)
      modifies {buffers[Shown()]}`input, {buffers[Shown()]}`cursor, {buffers[Shown()]}`messages
      ensures Valid() && o == Reply(Keys.Enter, line.text) && Change(Keys.Enter, w, Current())
    {
      o := Send(nick, color);
      assert o == Reply(Keys.Enter, line.text);
      ghost var v := Current();
      assert v.nodes == w.nodes && v.focus == w.focus && v.resize == w.resize;
      Still(Keys.Enter, w, v);
    }

    /** The actions that leave every buffer's input alone. */
    method ActOnRest(a: Keys.Action, ghost w: Was) returns (o: Outcome)
      requires Valid() && w == Snapshot() && !Buffers.LineKey(a) && a != Keys.Enter
      modifies layout, this`focus, this`resize
      ensures Valid() && o == Reply(a, []) && Change(a, w, Current())
    {
      if a == Keys.Quit {
        o := Exit;
      } else if a == Keys.Complete || a == Keys.LeaveBuffer {
        o := Skipped(a);
      } else {
        ActOnLayout(a, w);
        o := Done;
      }
    }

    /**
     * What the actions read of the state before they run: the layout, the
     * focus, the resize flag, the shown buffer and its place, the networks,
     * the activity flags, and the windows next to the focused one.
     */
    ghost function Snapshot(): (w: Was)
      requires Valid()
      reads this`layout, this`focus, this`resize, this`buffers, this`nets, layout, buffers
      ensures Sound(w)
    {
      Was(layout.nodes, focus, resize, Pane(), Shown(), Position(Shown()), nets, Flags(buffers),
          |buffers[Shown()].messages|, nets[buffers[Shown()].network][0],
          layout.Down(focus), layout.Up(focus), layout.Left(focus), layout.Right(focus))
    }

    /** What the layout actions change, in the current state. */
    ghost function Current(): (v: Now)
      requires Valid()
      reads this`layout, this`focus, this`resize, this`buffers, this`nets, layout, buffers
      ensures Structural(Links(v.nodes))
    {
      Now(layout.nodes, focus, resize, Shown(), Position(Shown()), buffers[Shown()].activity)
    }

    /**
     * What action `a` does to the layout, the focus and the resize flag, as the
     * method of each action states it; the actions that do not act on the
     * layout leave all three alone.
     */
    twostate predicate LaidOut(a: Keys.Action)
      requires old(Valid()) && Valid()
      reads this`layout, this`focus, this`resize, this`buffers, this`nets, layout, buffers
    {
      Change(a, old(Snapshot()), Current())
    }

    /** The actions that change only the layout, the focus and the resize flag. */
    method ActOnLayout(a: Keys.Action, ghost w: Was)
      requires Valid() && w == Snapshot()
      modifies layout, this`focus, this`resize
      ensures Valid() && Change(a, w, Current())
    {
      if a in {Keys.NextBuffer, Keys.PrevBuffer, Keys.JumpActive, Keys.JumpServer, Keys.ScrollUp, Keys.ScrollDown} {
        ActOnPane(a, w);
      } else if a in {Keys.ResizeWindow, Keys.HSplit, Keys.VSplit, Keys.CloseWindow} {
        ActOnTiling(a, w);
      } else if a in {Keys.WDown, Keys.WLeft, Keys.WRight, Keys.WUp} {
        ActOnFocus(a, w);
      }
    }

    /** The actions that change what the focused window shows: its buffer or its scroll. */
    method ActOnPane(a: Keys.Action, ghost w: Was)
      requires Valid() && w == Snapshot() && a in {Keys.NextBuffer, Keys.PrevBuffer, Keys.JumpActive, Keys.JumpServer, Keys.ScrollUp, Keys.ScrollDown}
      modifies layout
      ensures Valid() && Change(a, w, Current())
    {
      if a in {Keys.ScrollUp, Keys.ScrollDown} {
        ActOnScroll(a, w);
      } else {
        ActOnBuffer(a, w);
      }
    }

    /** The actions that switch the focused window to another buffer. */
    method ActOnBuffer(a: Keys.Action, ghost w: Was)
      requires Valid() && w == Snapshot() && a in {Keys.NextBuffer, Keys.PrevBuffer, Keys.JumpActive, Keys.JumpServer}
      modifies layout
      ensures Valid() && Change(a, w, Current())
    {
      match a {
        case NextBuffer => NextBuffer();
        case PrevBuffer => PrevBuffer();
        case JumpActive => var steps := JumpActive();
        case JumpServer => JumpServer();
      }
    }

    /** The actions that scroll the focused window. */
    method ActOnScroll(a: Keys.Action, ghost w: Was)
      requires Valid() && w == Snapshot() && a in {Keys.ScrollUp, Keys.ScrollDown}
      modifies layout
      ensures Valid() && Change(a, w, Current())
    {
      match a {
        case ScrollUp => ScrollUp();
        case ScrollDown => ScrollDown();
      }
    }

    /** The actions that change the windows or the resize mode. */
    method ActOnTiling(a: Keys.Action, ghost w: Was)
      requires Valid() && w == Snapshot() && a in {Keys.ResizeWindow, Keys.HSplit, Keys.VSplit, Keys.CloseWindow}
      modifies layout, this`focus, this`resize
      ensures Valid() && Change(a, w, Current())
    {
      if a == Keys.ResizeWindow {
        ResizeWindow();
      } else if a == Keys.CloseWindow {
        ActOnClose(w);
      } else {
        ActOnSplit(a, w);
      }
    }

    /** `close_window`, as the key table runs it. */
    method ActOnClose(ghost w: Was)
      requires Valid() && w == Snapshot()
      modifies layout, this`focus
      ensures Valid() && Change(Keys.CloseWindow, w, Current())
    {
      CloseWindow();
    }

    /** The actions that split the focused window. */
    method ActOnSplit(a: Keys.Action, ghost w: Was)
      requires Valid() && w == Snapshot() && a in {Keys.HSplit, Keys.VSplit}
      modifies layout, this`focus
      ensures Valid() && Change(a, w, Current())
    {
      if a == Keys.HSplit {
        HSplit();
      } else {
        VSplit();
      }
    }

    /** The actions that move the focus, or grow the focused window in resize mode. */
    method ActOnFocus(a: Keys.Action, ghost w: Was)
      requires Valid() && w == Snapshot() && a in {Keys.WDown, Keys.WLeft, Keys.WRight, Keys.WUp}
      modifies layout, this`focus
      ensures Valid() && Change(a, w, Current())
    {
      match a {
        case WDown => WDown();
        case WLeft => WLeft();
        case WRight => WRight();
        case WUp => WUp();
      }
    }

    /**
     * `handle_key`: the key's action, if the table binds one; every key but
     * the completion key makes completion start over.
     */
    method HandleKey(key: string, nick: seq<byte>, color: Terminal.Color) returns (o: Outcome)
      requires Valid()
      requires Keys.Bound(key, 0) == Some(Keys.Enter) ==> NoNul(nick) && buffers[Shown()].Fits(nick)
      modifies layout, this`focus, this`resize, this`completeAgain, {buffers[Shown()]}`input, {buffers[Shown()]}`cursor, {buffers[Shown()]}`messages
      ensures Valid()
      ensures completeAgain == (old(completeAgain) && Keys.Bound(key, 0) == Some(Keys.Complete))
      ensures Keys.Bound(key, 0).None? ==>
        o == Done && focus == old(focus) && layout.nodes == old(layout.nodes) && resize == old(resize) && unchanged(buffers[old(Shown())])
      ensures Keys.Bound(key, 0).Some? ==> o == Reply(Keys.Bound(key, 0).value, old(buffers[Shown()].input))
      ensures Keys.Bound(key, 0).Some? ==> LaidOut(Keys.Bound(key, 0).value)
      ensures Keys.Bound(key, 0).Some? && Buffers.LineKey(Keys.Bound(key, 0).value) ==>
        buffers[old(Shown())].Line() == Buffers.Edited(Keys.Bound(key, 0).value, old(buffers[Shown()].Line()))
    {
      var a := Keys.Lookup(key);
      if a.None? {
        KeepCompletion(false);
        o := Done;
      } else {
        o := ActOn(a.value, nick, color);
      }
    }

    /** A bound key's action `a`, and the completion flag it leaves. */
    method ActOn(a: Keys.Action, nick: seq<byte>, color: Terminal.Color) returns (o: Outcome)
      requires Valid()
      requires a == Keys.Enter ==> NoNul(nick) && buffers[Shown()].Fits(nick)
      modifies layout, this`focus, this`resize, this`completeAgain, {buffers[Shown()]}`input, {buffers[Shown()]}`cursor, {buffers[Shown()]}`messages
      ensures Valid() && completeAgain == (old(completeAgain) && a == Keys.Complete)
      ensures o == Reply(a, old(buffers[Shown()].input)) && LaidOut(a) == true
      ensures Buffers.LineKey(a) ==> buffers[old(Shown())].Line() == Buffers.Edited(a, old(buffers[Shown()].Line()))
    {
      // no action but the completion, which is not modelled, reads or writes
      // `complete_again`, so clearing it before the action is clearing it after
      ghost var w, line := Snapshot(), buffers[Shown()].Line();
      KeepCompletion(a == Keys.Complete);
      o := Act(a, nick, color, w, line);
    }

    /** `complete_again` stays set only when `keep` holds; nothing the actions read changes. */
    method KeepCompletion(keep: bool)
      requires Valid()
      modifies this`completeAgain
      ensures completeAgain == (old(completeAgain) && keep)
      ensures Valid() && buffers == old(buffers) && Shown() == old(Shown()) && Snapshot() == old(Snapshot())
      ensures buffers[Shown()].input == old(buffers[Shown()].input) && buffers[Shown()].Line() == old(buffers[Shown()].Line())
    {
      completeAgain := completeAgain && keep;
    }
  }
}
