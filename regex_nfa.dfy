/**
 * Thompson's construction as the regular-expression engine does it: an array
 * of states, each with at most two outgoing transitions, grown by `addstate`
 * and patched by `transition` while `tonfa` walks the tree.  Transitions keep
 * the index of their target; an unset slot is `None` (the `SIZE_MAX` index).
 */
module Nfa {
  import opened Bytes
  import opened Wrappers
  import opened Classes
  import RegexParse

  type Re = RegexParse.Re

  /** The transition types, `NFA_CHAR` to `NFA_END`, with the byte or the ranges each one carries. */
  datatype Label = Char(c: byte) | Epsilon | AnyChar | Class(ranges: seq<Range>) | NClass(ranges: seq<Range>) | Begin | End

  /** A set transition: its type and the index of its target. */
  datatype Arrow = Arrow(guard: Label, target: nat)

  /** `struct st`. */
  datatype State = State(one: Option<Arrow>, two: Option<Arrow>)

  /** A state as `addstate` leaves it: both slots unset. */
  const Blank: State := State(None, None)

  /** A state with a slot left for `transition` to fill. */
  predicate Free(st: State)
  {
    st.one.None? || st.two.None?
  }

  /** The state with its first unset slot set to `a`. */
  function Filled(st: State, a: Arrow): (r: State)
    requires Free(st)
  {
    if st.one.None? then State(Some(a), st.two) else State(st.one, Some(a))
  }

  /** Every set slot of `st` targets one of the first `n` states. */
  predicate Targets(st: State, n: nat)
  {
    && (st.one.Some? ==> st.one.value.target < n)
    && (st.two.Some? ==> st.two.value.target < n)
  }

  /** The transitions of state `k` target states of the array. */
  predicate TargetsAt(ss: seq<State>, k: nat)
    requires k < |ss|
  {
    Targets(ss[k], |ss|)
  }

  /** Every transition targets a state of the array. */
  predicate Closed(ss: seq<State>)
  {
    forall k :: 0 <= k < |ss| ==> TargetsAt(ss, k)
  }

  /** `transition(nfa, from, to, type)` on the array. */
  function Link(ss: seq<State>, from: nat, to: nat, l: Label): (r: seq<State>)
    requires from < |ss| && Free(ss[from])
  {
    ss[from := Filled(ss[from], Arrow(l, to))]
  }

  /** Linking fills exactly one slot and keeps the array closed when the target is in it. */
  lemma LinkFacts(ss: seq<State>, from: nat, to: nat, l: Label)
    requires from < |ss| && Free(ss[from])
    ensures |Link(ss, from, to, l)| == |ss|
    ensures forall k :: 0 <= k < |ss| && k != from ==> Link(ss, from, to, l)[k] == ss[k]
    ensures Link(ss, from, to, l)[from].one.Some?
    ensures ss[from] == Blank ==> Link(ss, from, to, l)[from] == State(Some(Arrow(l, to)), None)
    ensures ss[from].one.Some? ==> Link(ss, from, to, l)[from] == State(ss[from].one, Some(Arrow(l, to)))
  {
  }

  /** State `k` of `r` is state `k` of `ss`. */
  predicate Kept(ss: seq<State>, r: seq<State>, k: nat)
    requires k < |ss| && k < |r|
  {
    r[k] == ss[k]
  }

  /** Keeping the first `n` states but `x` composes. */
  lemma KeptTrans(a: seq<State>, b: seq<State>, c: seq<State>, n: nat, x: nat)
    requires n <= |a| && n <= |b| && n <= |c|
    requires forall k :: 0 <= k < n && k != x ==> Kept(a, b, k)
    requires forall k :: 0 <= k < n && k != x ==> Kept(b, c, k)
    ensures forall k :: 0 <= k < n && k != x ==> Kept(a, c, k)
  {
    forall k | 0 <= k < n && k != x
      ensures Kept(a, c, k)
    {
      assert Kept(a, b, k) && Kept(b, c, k);
    }
  }

  /** A tree `tonfa` can walk: no alternation has a NULL left side. */
  predicate Sound(re: Re)
  {
    match re
    case Alt(first, second) => first.Some? && Sound(first.value) && Sound(second)
    case Star(b) => Sound(b)
    case Plus(b) => Sound(b)
    case Opt(b) => Sound(b)
    case Concat(h, t) => Sound(h) && Sound(t)
    case _ => true
  }

  /** The number of states `tonfa` adds for `re`. */
  function Size(re: Re): nat
  {
    match re
    case Alt(first, second) => 3 + (if first.Some? then Size(first.value) else 0) + Size(second)
    case Star(b) => 2 + Size(b)
    case Plus(b) => 2 + Size(b)
    case Opt(b) => 2 + Size(b)
    case Concat(h, t) => Size(h) + Size(t)
    case _ => 1
  }

  /** The states after building a fragment, and the index of its end state. */
  datatype Built = Built(states: seq<State>, end: nat)

  /**
   * What building a fragment from `start` onto `ss` promises: `size` new
   * states, among them the end state, which has no transition yet; `start`
   * has its first slot set and every other old state is as it was.
   */
  predicate Grown(ss: seq<State>, start: nat, size: nat, r: Built)
    requires start < |ss|
  {
    && |r.states| == |ss| + size
    && |ss| <= r.end < |r.states| && r.states[r.end] == Blank
    && (forall k :: 0 <= k < |ss| && k != start ==> Kept(ss, r.states, k))
    && r.states[start].one.Some?
  }

  /**
   * `tonfa(nfa, start, re)` on the array: the states it adds, in the order its
   * `addstate` calls add them, the transitions it sets, in the order its
   * `transition` calls set them, and the end state it returns.
   */
  function Build(ss: seq<State>, start: nat, re: Re): (r: Built)
    requires start < |ss| && ss[start] == Blank && Sound(re)
    ensures Grown(ss, start, Size(re), r)
    decreases re, 1
  {
    match re
    case Alt(_, _) => BuildAlt(ss, start, re)
    case Star(_) => BuildStar(ss, start, re)
    case Plus(_) => BuildPlus(ss, start, re)
    case Opt(_) => BuildOpt(ss, start, re)
    case Concat(_, _) => BuildConcat(ss, start, re)
    case _ => Step(ss, start, Labelled(re))
  }

  /** The type of the one transition `tonfa` sets for a leaf of the tree. */
  function Labelled(re: Re): Label
  {
    match re
    case Char(c) => Char(c)
    case Begin => Begin
    case End => End
    case Class(rs) => Class(rs)
    case NClass(rs) => NClass(rs)
    case _ => AnyChar
  }

  /** One new state, reached from `start` by one transition. */
  function Step(ss: seq<State>, start: nat, l: Label): (r: Built)
    requires start < |ss| && ss[start] == Blank
    ensures Grown(ss, start, 1, r)
  {
    var n := |ss|;
    var r := Link(ss + [Blank], start, n, l);
    KeptTrans(ss, ss + [Blank], r, n, start);
    Built(r, n)
  }

  /** An ε-transition to `to`. */
  function Eps(to: nat): Option<Arrow>
  {
    Some(Arrow(Epsilon, to))
  }

  /** `RE_ALT`: the end state, the starts of both sides, both sides, and four ε-transitions. */
  function BuildAlt(ss: seq<State>, start: nat, re: Re): (r: Built)
    requires re.Alt? && start < |ss| && ss[start] == Blank && Sound(re)
    ensures Grown(ss, start, Size(re), r)
    decreases re, 0
  {
    var n := |ss|;
    var s1 := ss + [Blank, Blank, Blank];
    var t := Build(s1, n + 1, re.first.value);
    assert Kept(s1, t.states, n + 2);
    var v := Build(t.states, n + 2, re.second);
    assert Kept(s1, t.states, start) && Kept(t.states, v.states, start) && Kept(t.states, v.states, t.end);
    var r := Join(v.states, t.end, v.end, start, n);
    assert Kept(s1, t.states, n) && Kept(t.states, v.states, n) && Kept(v.states, r, n);
    KeptTrans(ss, s1, t.states, n, start);
    KeptTrans(ss, t.states, v.states, n, start);
    KeptTrans(ss, v.states, r, n, start);
    Built(r, n)
  }

  /** The ε-transitions of `RE_ALT`: both ends to the end `n`, then `start` to both sides. */
  function Join(ss: seq<State>, te: nat, ve: nat, start: nat, n: nat): (r: seq<State>)
    requires te < |ss| && ve < |ss| && start < |ss| && te != ve && te != start && ve != start
    requires ss[te] == Blank && ss[ve] == Blank && ss[start] == Blank
    ensures |r| == |ss| && r[te] == State(Eps(n), None) && r[ve] == State(Eps(n), None)
    ensures r[start] == State(Eps(n + 1), Eps(n + 2))
    ensures forall k :: 0 <= k < |ss| && k != te && k != ve && k != start ==> Kept(ss, r, k)
  {
    var s2 := Link(ss, te, n, Epsilon);
    var s3 := Link(s2, ve, n, Epsilon);
    var s4 := Link(s3, start, n + 1, Epsilon);
    Link(s4, start, n + 2, Epsilon)
  }

  /** `RE_STAR`: the loop back to the operand and the way out, then both ways in from `start`. */
  function BuildStar(ss: seq<State>, start: nat, re: Re): (r: Built)
    requires re.Star? && start < |ss| && ss[start] == Blank && Sound(re)
    ensures Grown(ss, start, Size(re), r)
    decreases re, 0
  {
    var n := |ss|;
    var s1 := ss + [Blank, Blank];
    var t := Build(s1, n + 1, re.body);
    assert Kept(s1, t.states, start) && Kept(s1, t.states, n);
    var r := Loop(t.states, t.end, start, n, true);
    assert Kept(t.states, r, n);
    KeptTrans(ss, s1, t.states, n, start);
    KeptTrans(ss, t.states, r, n, start);
    Built(r, n)
  }

  /** `RE_PLUS`: as `RE_STAR` without the way from `start` straight to the end. */
  function BuildPlus(ss: seq<State>, start: nat, re: Re): (r: Built)
    requires re.Plus? && start < |ss| && ss[start] == Blank && Sound(re)
    ensures Grown(ss, start, Size(re), r)
    decreases re, 0
  {
    var n := |ss|;
    var s1 := ss + [Blank, Blank];
    var t := Build(s1, n + 1, re.body);
    assert Kept(s1, t.states, start) && Kept(s1, t.states, n);
    var r := Loop(t.states, t.end, start, n, false);
    assert Kept(t.states, r, n);
    KeptTrans(ss, s1, t.states, n, start);
    KeptTrans(ss, t.states, r, n, start);
    Built(r, n)
  }

  /**
   * The ε-transitions of `RE_STAR` and `RE_PLUS`: the operand's end back to
   * its start `n + 1` and out to the end `n`, `start` to the operand, and for
   * `RE_STAR` (`skip`) `start` straight to the end.
   */
  function Loop(ss: seq<State>, te: nat, start: nat, n: nat, skip: bool): (r: seq<State>)
    requires te < |ss| && start < |ss| && te != start && ss[te] == Blank && ss[start] == Blank
    ensures |r| == |ss| && r[te] == State(Eps(n + 1), Eps(n))
    ensures r[start] == State(Eps(n + 1), if skip then Eps(n) else None)
    ensures forall k :: 0 <= k < |ss| && k != te && k != start ==> Kept(ss, r, k)
  {
    var s2 := Link(ss, te, n + 1, Epsilon);
    var s3 := Link(s2, te, n, Epsilon);
    var s4 := Link(s3, start, n + 1, Epsilon);
    if skip then Link(s4, start, n, Epsilon) else s4
  }

  /** `RE_OPTION`: the operand's end to the end, then `start` to the end before `start` to the operand. */
  function BuildOpt(ss: seq<State>, start: nat, re: Re): (r: Built)
    requires re.Opt? && start < |ss| && ss[start] == Blank && Sound(re)
    ensures Grown(ss, start, Size(re), r)
    decreases re, 0
  {
    var n := |ss|;
    var s1 := ss + [Blank, Blank];
    var t := Build(s1, n + 1, re.body);
    assert Kept(s1, t.states, start) && Kept(s1, t.states, n);
    var r := Maybe(t.states, t.end, start, n);
    assert Kept(t.states, r, n);
    KeptTrans(ss, s1, t.states, n, start);
    KeptTrans(ss, t.states, r, n, start);
    Built(r, n)
  }

  /** The ε-transitions of `RE_OPTION`. */
  function Maybe(ss: seq<State>, te: nat, start: nat, n: nat): (r: seq<State>)
    requires te < |ss| && start < |ss| && te != start && ss[te] == Blank && ss[start] == Blank
    ensures |r| == |ss| && r[te] == State(Eps(n), None)
    ensures r[start] == State(Eps(n), Eps(n + 1))
    ensures forall k :: 0 <= k < |ss| && k != te && k != start ==> Kept(ss, r, k)
  {
    var s2 := Link(ss, te, n, Epsilon);
    var s3 := Link(s2, start, n, Epsilon);
    Link(s3, start, n + 1, Epsilon)
  }

  /** `RE_CONCAT`: the right side is built from the end of the left side. */
  function BuildConcat(ss: seq<State>, start: nat, re: Re): (r: Built)
    requires re.Concat? && start < |ss| && ss[start] == Blank && Sound(re)
    ensures Grown(ss, start, Size(re), r)
    decreases re, 0
  {
    var t := Build(ss, start, re.head);
    var v := Build(t.states, t.end, re.tail);
    KeptTrans(ss, t.states, v.states, |ss|, start);
    assert Kept(t.states, v.states, start);
    v
  }

  /** State `k` has its first slot set. */
  predicate SetAt(ss: seq<State>, k: nat)
    requires k < |ss|
  {
    ss[k].one.Some?
  }

  /** Every state from `lo` on other than `end` has its first slot set. */
  predicate Settled(ss: seq<State>, lo: nat, end: nat)
  {
    forall k :: lo <= k < |ss| && k != end ==> SetAt(ss, k)
  }

  /** The transitions of state `k` target states from `n` on. */
  predicate OnwardAt(ss: seq<State>, k: nat, n: nat)
    requires k < |ss|
  {
    && (ss[k].one.Some? ==> n <= ss[k].one.value.target)
    && (ss[k].two.Some? ==> n <= ss[k].two.value.target)
  }

  /** The transitions of `start` and of the states from `n` on target states from `n` on. */
  predicate Inner(ss: seq<State>, n: nat, start: nat)
    requires start < |ss|
  {
    && OnwardAt(ss, start, n)
    && forall k :: n <= k < |ss| ==> OnwardAt(ss, k, n)
  }

  /**
   * The wiring a fragment has once built: the array stays closed, every new
   * state but the end has its first transition, and the transitions of
   * `start` and of the new states stay among the new states.
   */
  predicate Wired(ss: seq<State>, start: nat, r: Built)
    requires start < |ss| <= |r.states|
  {
    && (Closed(ss) ==> Closed(r.states))
    && Settled(r.states, |ss|, r.end)
    && Inner(r.states, |ss|, start)
  }
  /** Every fragment is wired as `Wired` says. */
  lemma {:induction false} BuildWired(ss: seq<State>, start: nat, re: Re)
    requires start < |ss| && ss[start] == Blank && Sound(re)
    ensures Wired(ss, start, Build(ss, start, re))
    decreases re, 1
  {
    match re
    case Alt(_, _) => AltWired(ss, start, re);
    case Star(_) => StarWired(ss, start, re);
    case Plus(_) => PlusWired(ss, start, re);
    case Opt(_) => OptWired(ss, start, re);
    case Concat(head, tail) =>
      var t := Build(ss, start, head);
      BuildWired(ss, start, head);
      var v := Build(t.states, t.end, tail);
      BuildWired(t.states, t.end, tail);
      ChainWired(ss, start, t, v);
    case _ => StepWired(ss, start, re);
  }

  lemma StepWired(ss: seq<State>, start: nat, re: Re)
    requires start < |ss| && ss[start] == Blank && Sound(re)
    requires !re.Alt? && !re.Star? && !re.Plus? && !re.Opt? && !re.Concat?
    ensures Wired(ss, start, Build(ss, start, re))
  {
    var n := |ss|;
    var r := Build(ss, start, re);
    assert r == Step(ss, start, Labelled(re));
    if Closed(ss) {
      BlanksClosed(ss, [Blank]);
      LinkClosed(ss + [Blank], start, n, Labelled(re));
    }
    assert r.end == n && r.states[n] == Blank;
    assert OnwardAt(r.states, n, n);
  }

  lemma {:induction false} AltWired(ss: seq<State>, start: nat, re: Re)
    requires start < |ss| && ss[start] == Blank && Sound(re) && re.Alt?
    ensures Wired(ss, start, Build(ss, start, re))
    decreases re, 0
  {
    var n := |ss|;
    var s1 := ss + [Blank, Blank, Blank];
    var t := Build(s1, n + 1, re.first.value);
    BuildWired(s1, n + 1, re.first.value);
    assert Kept(s1, t.states, n + 2);
    var v := Build(t.states, n + 2, re.second);
    BuildWired(t.states, n + 2, re.second);
    if Closed(ss) {
      BlanksClosed(ss, [Blank, Blank, Blank]);
    }
    assert Kept(s1, t.states, start) && Kept(t.states, v.states, start) && Kept(t.states, v.states, t.end);
    var r := Join(v.states, t.end, v.end, start, n);
    assert Build(ss, start, re) == BuildAlt(ss, start, re) == Built(r, n);
    ForkWired(ss, start, n, t, v, r);
  }

  lemma {:induction false} StarWired(ss: seq<State>, start: nat, re: Re)
    requires start < |ss| && ss[start] == Blank && Sound(re) && re.Star?
    ensures Wired(ss, start, Build(ss, start, re))
    decreases re, 0
  {
    var n := |ss|;
    var s1 := ss + [Blank, Blank];
    var t := Build(s1, n + 1, re.body);
    BuildWired(s1, n + 1, re.body);
    if Closed(ss) {
      BlanksClosed(ss, [Blank, Blank]);
    }
    assert Kept(s1, t.states, start);
    var r := Loop(t.states, t.end, start, n, true);
    assert Build(ss, start, re) == BuildStar(ss, start, re) == Built(r, n);
    LoopWired(ss, start, n, t, r);
  }

  lemma {:induction false} PlusWired(ss: seq<State>, start: nat, re: Re)
    requires start < |ss| && ss[start] == Blank && Sound(re) && re.Plus?
    ensures Wired(ss, start, Build(ss, start, re))
    decreases re, 0
  {
    var n := |ss|;
    var s1 := ss + [Blank, Blank];
    var t := Build(s1, n + 1, re.body);
    BuildWired(s1, n + 1, re.body);
    if Closed(ss) {
      BlanksClosed(ss, [Blank, Blank]);
    }
    assert Kept(s1, t.states, start);
    var r := Loop(t.states, t.end, start, n, false);
    assert Build(ss, start, re) == BuildPlus(ss, start, re) == Built(r, n);
    LoopWired(ss, start, n, t, r);
  }

  lemma {:induction false} OptWired(ss: seq<State>, start: nat, re: Re)
    requires start < |ss| && ss[start] == Blank && Sound(re) && re.Opt?
    ensures Wired(ss, start, Build(ss, start, re))
    decreases re, 0
  {
    var n := |ss|;
    var s1 := ss + [Blank, Blank];
    var t := Build(s1, n + 1, re.body);
    BuildWired(s1, n + 1, re.body);
    if Closed(ss) {
      BlanksClosed(ss, [Blank, Blank]);
    }
    assert Kept(s1, t.states, start);
    var r := Maybe(t.states, t.end, start, n);
    assert Build(ss, start, re) == BuildOpt(ss, start, re) == Built(r, n);
    LoopWired(ss, start, n, t, r);
  }

  /** The step of concatenation: the right side is built from the end of the left side. */
  lemma ChainWired(ss: seq<State>, start: nat, t: Built, v: Built)
    requires start < |ss| && ss[start] == Blank && |ss| < |t.states|
    requires Grown(ss, start, |t.states| - |ss|, t) && Wired(ss, start, t)
    requires |t.states| <= |v.states| && Grown(t.states, t.end, |v.states| - |t.states|, v) && Wired(t.states, t.end, v)
    ensures Wired(ss, start, v)
  {
    var n := |ss|;
    var r := v.states;
    forall k | n <= k < |r| && k != v.end ensures SetAt(r, k) {
      if k < |t.states| && k != t.end {
        assert Kept(t.states, r, k) && SetAt(t.states, k);
      } else if k >= |t.states| {
        assert SetAt(v.states, k);
      }
    }
    assert OnwardAt(r, start, n) by {
      assert Kept(t.states, r, start) && OnwardAt(t.states, start, n);
    }
    forall k | n <= k < |r| ensures OnwardAt(r, k, n) {
      if k < |t.states| && k != t.end {
        assert Kept(t.states, r, k) && OnwardAt(t.states, k, n);
      } else if k == t.end {
        assert OnwardAt(v.states, t.end, |t.states|);
      } else {
        assert OnwardAt(v.states, k, |t.states|);
      }
    }
  }

  /**
   * The step of `|`: the end `n` and the starts `n + 1` and `n + 2` of both
   * sides were added blank, both sides were built, their ends now have a
   * transition to `n`, and `start` has transitions to both sides.
   */
  lemma ForkWired(ss: seq<State>, start: nat, n: nat, t: Built, v: Built, r: seq<State>)
    requires n == |ss| && start < n && n + 3 <= |t.states| <= |v.states| == |r|
    requires Wired(ss + [Blank, Blank, Blank], n + 1, t) && Grown(ss + [Blank, Blank, Blank], n + 1, |t.states| - n - 3, t)
    requires Wired(t.states, n + 2, v) && Grown(t.states, n + 2, |v.states| - |t.states|, v)
    requires Closed(ss) ==> Closed(ss + [Blank, Blank, Blank])
    requires forall k :: 0 <= k < |r| && k != t.end && k != v.end && k != start ==> Kept(v.states, r, k)
    requires r[t.end] == State(Eps(n), None) && r[v.end] == State(Eps(n), None)
    requires r[start] == State(Eps(n + 1), Eps(n + 2))
    ensures Wired(ss, start, Built(r, n))
  {
    forall k | n <= k < |r| && k != n ensures SetAt(r, k) {
      if k < |t.states| && k != t.end && k != n + 2 {
        assert Kept(v.states, r, k) && Kept(t.states, v.states, k);
        assert k == n + 1 || SetAt(t.states, k);
      } else if k != t.end && k != v.end {
        assert Kept(v.states, r, k) && SetAt(v.states, k);
      }
    }
    forall k | n <= k < |r| ensures OnwardAt(r, k, n) {
      if k == n {
        assert Kept(v.states, r, k) && Kept(t.states, v.states, k) && Kept(ss + [Blank, Blank, Blank], t.states, k);
      } else if k < |t.states| && k != t.end && k != n + 2 {
        assert Kept(v.states, r, k) && Kept(t.states, v.states, k) && OnwardAt(t.states, k, n + 3);
      } else if k != t.end && k != v.end {
        assert Kept(v.states, r, k) && OnwardAt(v.states, k, |t.states|);
      }
    }
    if Closed(ss) {
      forall k | 0 <= k < |r| ensures TargetsAt(r, k) {
        if k != t.end && k != v.end && k != start {
          assert Kept(v.states, r, k) && TargetsAt(v.states, k);
        }
      }
    }
  }

  /**
   * The step of `*`, `+` and `?`: the end `n` and the operand's start
   * `n + 1` were added blank, the operand was built from `n + 1`, and its
   * end and `start` now have transitions to `n` and `n + 1` only.
   */
  lemma LoopWired(ss: seq<State>, start: nat, n: nat, t: Built, r: seq<State>)
    requires n == |ss| && start < n && n + 2 <= |t.states| == |r|
    requires Wired(ss + [Blank, Blank], n + 1, t) && Grown(ss + [Blank, Blank], n + 1, |t.states| - n - 2, t)
    requires Closed(ss) ==> Closed(ss + [Blank, Blank])
    requires forall k :: 0 <= k < |r| && k != t.end && k != start ==> Kept(t.states, r, k)
    requires r[t.end].one.Some? && Within(r[t.end], n, n + 2)
    requires r[start].one.Some? && Within(r[start], n, n + 2)
    ensures Wired(ss, start, Built(r, n))
  {
    forall k | n <= k < |r| && k != n ensures SetAt(r, k) {
      if k != t.end {
        assert Kept(t.states, r, k);
        assert k == n + 1 || SetAt(t.states, k);
      }
    }
    assert OnwardAt(r, start, n);
    forall k | n <= k < |r| ensures OnwardAt(r, k, n) {
      if k == n {
        assert Kept(t.states, r, k) && Kept(ss + [Blank, Blank], t.states, k);
      } else if k != t.end {
        assert Kept(t.states, r, k) && OnwardAt(t.states, k, n + 2);
      }
    }
    if Closed(ss) {
      forall k | 0 <= k < |r| ensures TargetsAt(r, k) {
        if k != t.end && k != start {
          assert Kept(t.states, r, k) && TargetsAt(t.states, k);
        }
      }
    }
  }

  /** Every set slot of `st` targets a state in `[lo, hi)`. */
  predicate Within(st: State, lo: nat, hi: nat)
  {
    && (st.one.Some? ==> lo <= st.one.value.target < hi)
    && (st.two.Some? ==> lo <= st.two.value.target < hi)
  }

  /** Blank states keep the array closed. */
  lemma BlanksClosed(ss: seq<State>, bs: seq<State>)
    requires Closed(ss) && forall k :: 0 <= k < |bs| ==> bs[k] == Blank
    ensures Closed(ss + bs)
  {
    var r := ss + bs;
    forall k | 0 <= k < |r| ensures TargetsAt(r, k) {
      if k < |ss| {
        assert r[k] == ss[k] && TargetsAt(ss, k);
      } else {
        assert r[k] == bs[k - |ss|];
      }
    }
  }

  /** A transition to a state of the array keeps it closed. */
  lemma LinkClosed(ss: seq<State>, from: nat, to: nat, l: Label)
    requires from < |ss| && Free(ss[from]) && Closed(ss) && to < |ss|
    ensures |Link(ss, from, to, l)| == |ss| && Closed(Link(ss, from, to, l))
  {
    var r := Link(ss, from, to, l);
    forall k | 0 <= k < |r| ensures TargetsAt(r, k) {
      assert TargetsAt(ss, k);
    }
  }

  /**
   * The compiled automaton: state 0 is the start, every transition targets a
   * state, and exactly one state, the end, has no transition: the state
   * `domatch` accepts in.
   */
  lemma CompiledShape(re: Re)
    requires Sound(re)
    ensures var r := Build([Blank], 0, re);
      && |r.states| == 1 + Size(re) && 0 < r.end && Closed(r.states)
      && forall k :: 0 <= k < |r.states| ==> (r.states[k].one.None? <==> k == r.end)
  {
    var r := Build([Blank], 0, re);
    BuildWired([Blank], 0, re);
    assert TargetsAt([Blank], 0);
    forall k | 0 <= k < |r.states|
      ensures r.states[k].one.None? <==> k == r.end
    {
      if k != 0 && k != r.end {
        assert SetAt(r.states, k);
      }
    }
  }

  /** `struct re_nfa`: the states `addstate` and `transition` fill, by index. */
  class Automaton {
    var states: seq<State>

    /** An automaton with no states, as `re_compile` sets it up. */
    constructor ()
      ensures states == []
    {
      states := [];
    }

    /** `addstate`: one more state with both slots unset; its index. */
    method AddState() returns (idx: nat)
      modifies this
      ensures states == old(states) + [Blank] && idx == |old(states)|
    {
      idx := |states|;
      states := states + [Blank];
    }

    /** `transition`: the first unset slot of `from` goes to `to`. */
    method Transition(from: nat, to: nat, l: Label)
      requires from < |states| && Free(states[from])
      modifies this
      ensures states == Link(old(states), from, to, l)
    {
      var st := states[from];
      if st.one.None? {
        st := State(Some(Arrow(l, to)), st.two);
      } else {
        st := State(st.one, Some(Arrow(l, to)));
      }
      states := states[from := st];
    }

    /** `tonfa`: the fragment for `re` from `start`; its end state. */
    method ToNfa(start: nat, re: Re) returns (end: nat)
      requires start < |states| && states[start] == Blank && Sound(re)
      modifies this
      ensures Built(states, end) == Build(old(states), start, re)
      decreases re, 1
    {
      match re {
        case Alt(_, _) =>
          end := AltNfa(start, re);
        case Star(_) =>
          end := StarNfa(start, re);
        case Plus(_) =>
          end := PlusNfa(start, re);
        case Opt(_) =>
          end := OptNfa(start, re);
        case Concat(head, tail) =>
          var t := ToNfa(start, head);
          end := ToNfa(t, tail);
        case _ =>
          var a := AddState();
          Transition(start, a, Labelled(re));
          end := a;
      }
    }

    /** The `RE_ALT` case of `tonfa`. */
    method AltNfa(start: nat, re: Re) returns (end: nat)
      requires re.Alt? && start < |states| && states[start] == Blank && Sound(re)
      modifies this
      ensures Built(states, end) == BuildAlt(old(states), start, re)
      decreases re, 0
    {
      ghost var ss := states;
      var n := |states|;
      var c := AddState();
      var a := AddState();
      var b := AddState();
      ghost var s1 := states;
      assert s1 == ss + [Blank, Blank, Blank];
      var t := ToNfa(a, re.first.value);
      ghost var tb := Build(s1, n + 1, re.first.value);
      assert Kept(s1, tb.states, n + 2);
      var v := ToNfa(b, re.second);
      ghost var vb := Build(tb.states, n + 2, re.second);
      assert Kept(s1, tb.states, start) && Kept(tb.states, vb.states, start) && Kept(tb.states, vb.states, t);
      Transition(t, c, Epsilon);
      Transition(v, c, Epsilon);
      Transition(start, a, Epsilon);
      Transition(start, b, Epsilon);
      end := c;
    }

    /** The `RE_STAR` case of `tonfa`. */
    method StarNfa(start: nat, re: Re) returns (end: nat)
      requires re.Star? && start < |states| && states[start] == Blank && Sound(re)
      modifies this
      ensures Built(states, end) == BuildStar(old(states), start, re)
      decreases re, 0
    {
      ghost var ss := states;
      var n := |states|;
      var b := AddState();
      var a := AddState();
      ghost var s1 := states;
      assert s1 == ss + [Blank, Blank];
      var t := ToNfa(a, re.body);
      assert Kept(s1, Build(s1, n + 1, re.body).states, start);
      Transition(t, a, Epsilon);
      Transition(t, b, Epsilon);
      Transition(start, a, Epsilon);
      Transition(start, b, Epsilon);
      end := b;
    }

    /** The `RE_PLUS` case of `tonfa`. */
    method PlusNfa(start: nat, re: Re) returns (end: nat)
      requires re.Plus? && start < |states| && states[start] == Blank && Sound(re)
      modifies this
      ensures Built(states, end) == BuildPlus(old(states), start, re)
      decreases re, 0
    {
      ghost var ss := states;
      var n := |states|;
      var b := AddState();
      var a := AddState();
      ghost var s1 := states;
      assert s1 == ss + [Blank, Blank];
      var t := ToNfa(a, re.body);
      assert Kept(s1, Build(s1, n + 1, re.body).states, start);
      Transition(t, a, Epsilon);
      Transition(t, b, Epsilon);
      Transition(start, a, Epsilon);
      end := b;
    }

    /** The `RE_OPTION` case of `tonfa`. */
    method OptNfa(start: nat, re: Re) returns (end: nat)
      requires re.Opt? && start < |states| && states[start] == Blank && Sound(re)
      modifies this
      ensures Built(states, end) == BuildOpt(old(states), start, re)
      decreases re, 0
    {
      ghost var ss := states;
      var n := |states|;
      var b := AddState();
      var a := AddState();
      ghost var s1 := states;
      assert s1 == ss + [Blank, Blank];
      var t := ToNfa(a, re.body);
      assert Kept(s1, Build(s1, n + 1, re.body).states, start);
      Transition(t, b, Epsilon);
      Transition(start, b, Epsilon);
      Transition(start, a, Epsilon);
      end := b;
    }
  }

  /** What `re_compile` gives back. */
  datatype Compiled =
    /** The pattern does not parse: a null pointer. */
    | Refused
    /** The pattern parses to an alternation with nothing on its left, which `tonfa` dereferences. */
    | Faults
    /** The automaton, its states built from state 0. */
    | Ready(nfa: Automaton)

  /**
   * `re_compile`: parse the pattern, add state 0, and build the whole tree
   * from it.
   */
  method Compile(pattern: seq<byte>) returns (r: Compiled)
    ensures r.Refused? <==> RegexParse.ParseOf(pattern).None?
    ensures r.Faults? <==> RegexParse.ParseOf(pattern).Some? && !Sound(RegexParse.ParseOf(pattern).value)
    ensures r.Ready? ==> fresh(r.nfa) && r.nfa.states == Build([Blank], 0, RegexParse.ParseOf(pattern).value).states
  {
    var re := RegexParse.Parse(pattern);
    if re.None? {
      return Refused;
    }
    if !Sound(re.value) {
      return Faults;
    }
    var nfa := new Automaton();
    var zero := nfa.AddState();
    assert nfa.states == [Blank];
    var end := nfa.ToNfa(zero, re.value);
    return Ready(nfa);
  }
}
