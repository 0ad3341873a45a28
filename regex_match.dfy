/**
 * The matcher of the regular-expression engine: `charmatch` decides whether
 * one transition can be taken at a position of the subject, `domatch` walks
 * the automaton depth first with an explicit stack of frames, and `re_match`
 * tries the walk from successive start positions.  The subject is the bytes
 * before its terminating NUL; a pointer into it is a position `0..|s|`, and
 * the position `|s|` is the terminator itself.
 */
module Match {
  import opened Bytes
  import opened Wrappers
  import opened Classes
  import opened Nfa
  import RegexParse

  /** `struct frame`: a position in the subject and a state of the automaton. */
  datatype Frame = Frame(pos: nat, state: nat)

  /** Where `begin` points: position 0 on the first try, NULL afterwards. */
  function Begins(i: nat): Option<nat>
  {
    if i == 0 then Some(0) else None
  }

  /**
   * `charmatch` as the source writes it: the subject byte is a `char`,
   * signed here, and `NFA_CHAR` compares it with the unsigned byte of the
   * pattern.
   */
  function FiresAsWritten(l: Label, s: seq<byte>, pos: nat, begin: Option<nat>): Option<nat>
    requires pos <= |s|
  {
    match l
    case Char(c) => if pos < |s| && SignedChar(s[pos]) == c as int then Some(pos + 1) else None
    case _ => Fires(l, s, pos, begin)
  }

  /**
   * `charmatch` with both sides of the `NFA_CHAR` comparison taken as
   * unsigned bytes: the position after the transition, or `None` when it
   * cannot be taken.
   */
  function Fires(l: Label, s: seq<byte>, pos: nat, begin: Option<nat>): (r: Option<nat>)
    requires pos <= |s|
    ensures r.Some? ==> r.value <= |s|
    ensures r.Some? && (l.Epsilon? || l.Begin? || l.End?) ==> r.value == pos
    ensures r.Some? && !(l.Epsilon? || l.Begin? || l.End?) ==> r.value == pos + 1
  {
    match l
    case Epsilon => Some(pos)
    case AnyChar => if At(s, pos) != 0 then Some(pos + 1) else None
    case Begin => if begin == Some(pos) then Some(pos) else None
    case End => if At(s, pos) == 0 then Some(pos) else None
    case Class(rs) => if At(s, pos) != 0 && Bsearch(rs, At(s, pos), 0, |rs| - 1) then Some(pos + 1) else None
    case NClass(rs) => if At(s, pos) != 0 && !Bsearch(rs, At(s, pos), 0, |rs| - 1) then Some(pos + 1) else None
    case Char(c) => if pos < |s| && s[pos] == c then Some(pos + 1) else None
  }

  /** A pattern byte from 128 on never matches as written, whatever the subject holds. */
  lemma HighCharNeverFires(c: byte, s: seq<byte>, pos: nat, begin: Option<nat>)
    requires 128 <= c && pos <= |s|
    ensures FiresAsWritten(Char(c), s, pos, begin) == None
  {
  }

  /** Below 128 the written comparison is the intended one. */
  lemma LowCharAgrees(c: byte, s: seq<byte>, pos: nat, begin: Option<nat>)
    requires c < 128 && pos <= |s|
    ensures FiresAsWritten(Char(c), s, pos, begin) == Fires(Char(c), s, pos, begin)
  {
  }

  /** An `NFA_CHAR` transition is taken exactly on its own byte. */
  lemma CharFires(c: byte, s: seq<byte>, pos: nat, begin: Option<nat>)
    requires pos <= |s|
    ensures Fires(Char(c), s, pos, begin) == Some(pos + 1) <==> pos < |s| && s[pos] == c
  {
  }

  /**
   * On a normalised class, `NFA_CLASS` is taken exactly on a member byte and
   * `NFA_NCLASS` exactly on any other byte before the terminator.
   */
  lemma ClassFires(rs: seq<Range>, s: seq<byte>, pos: nat, begin: Option<nat>)
    requires Normal(rs) && pos < |s| && NoNul(s)
    ensures Fires(Class(rs), s, pos, begin).Some? <==> Member(rs, s[pos])
    ensures Fires(NClass(rs), s, pos, begin).Some? <==> !Member(rs, s[pos])
  {
    SearchExact(rs, s[pos]);
  }

  /** At the terminator only transitions that consume nothing can be taken. */
  lemma NothingPastEnd(l: Label, s: seq<byte>, begin: Option<nat>)
    ensures Fires(l, s, |s|, begin).Some? ==> l.Epsilon? || l.Begin? || l.End?
  {
  }

  /** `charmatch`, with `searchclass` for the two class types. */
  method CharMatch(l: Label, s: seq<byte>, pos: nat, begin: Option<nat>) returns (r: Option<nat>)
    requires pos <= |s|
    ensures r == Fires(l, s, pos, begin)
  {
    var b := if pos < |s| then s[pos] else 0;
    match l {
      case Epsilon => r := Some(pos);
      case AnyChar => r := if b != 0 then Some(pos + 1) else None;
      case Begin => r := if begin == Some(pos) then Some(pos) else None;
      case End => r := if b == 0 then Some(pos) else None;
      case Class(rs) =>
        r := None;
        if b != 0 {
          var found := SearchClass(rs, b);
          if found {
            r := Some(pos + 1);
          }
        }
      case NClass(rs) =>
        r := None;
        if b != 0 {
          var found := SearchClass(rs, b);
          if !found {
            r := Some(pos + 1);
          }
        }
      case Char(c) => r := if pos < |s| && b == c then Some(pos + 1) else None;
    }
  }

  /** A frame that names a state of the automaton and a position of the subject. */
  predicate FitsAt(ss: seq<State>, s: seq<byte>, f: Frame)
  {
    f.state < |ss| && f.pos <= |s|
  }

  /** Every frame of the stack fits. */
  predicate Fits(ss: seq<State>, s: seq<byte>, stack: seq<Frame>)
  {
    forall i :: 0 <= i < |stack| ==> FitsAt(ss, s, stack[i])
  }

  /** The stack with a frame for `a` pushed when `a` is set and can be taken at `pos`. */
  function Push(stack: seq<Frame>, a: Option<Arrow>, s: seq<byte>, pos: nat, begin: Option<nat>): (r: seq<Frame>)
    requires pos <= |s|
    ensures |stack| <= |r| <= |stack| + 1 && forall i :: 0 <= i < |stack| ==> r[i] == stack[i]
  {
    if a.None? then stack
    else match Fires(a.value.guard, s, pos, begin)
      case None => stack
      case Some(p) => stack + [Frame(p, a.value.target)]
  }

  /** How a walk ends: in an accepting state at a position, with an empty stack, or out of fuel. */
  datatype Outcome = Accept(pos: nat) | Reject | OutOfFuel

  /**
   * The loop of `domatch`, at most `fuel` rounds: pop the top frame; accept
   * at its position when its state has no transition; otherwise push the
   * frame for the second transition, then the one for the first, so that
   * the first is tried first.
   */
  function Run(ss: seq<State>, s: seq<byte>, begin: Option<nat>, stack: seq<Frame>, fuel: nat): Outcome
    requires Closed(ss) && Fits(ss, s, stack)
    decreases fuel
  {
    if stack == [] then Reject
    else if fuel == 0 then OutOfFuel
    else
      var f := stack[|stack| - 1];
      assert FitsAt(ss, s, f);
      var st := ss[f.state];
      if st.one.None? then Accept(f.pos)
      else
        var next := Expand(ss, s, begin, stack[..|stack| - 1], f);
        Run(ss, s, begin, next, fuel - 1)
  }

  /** The stack after the frame `f` of a state with a first transition was popped and expanded. */
  function Expand(ss: seq<State>, s: seq<byte>, begin: Option<nat>, rest: seq<Frame>, f: Frame): (r: seq<Frame>)
    requires Closed(ss) && Fits(ss, s, rest) && FitsAt(ss, s, f)
    ensures Fits(ss, s, r)
  {
    var st := ss[f.state];
    assert TargetsAt(ss, f.state);
    var two := Push(rest, st.two, s, f.pos, begin);
    var r := Push(two, st.one, s, f.pos, begin);
    assert forall i :: 0 <= i < |two| ==> two[i] == r[i];
    assert forall i :: 0 <= i < |rest| ==> rest[i] == two[i];
    r
  }

  /** `domatch` from state 0 at `pos`, at most `fuel` rounds of its loop. */
  method DoMatch(ss: seq<State>, s: seq<byte>, pos: nat, begin: Option<nat>, fuel: nat) returns (o: Outcome)
    requires Closed(ss) && 0 < |ss| && pos <= |s|
    ensures o == Run(ss, s, begin, [Frame(pos, 0)], fuel)
  {
    o := RunLoop(ss, s, begin, [Frame(pos, 0)], fuel);
  }

  /** The loop of `domatch` from the stack `start`, at most `fuel` rounds. */
  method RunLoop(ss: seq<State>, s: seq<byte>, begin: Option<nat>, start: seq<Frame>, fuel: nat) returns (o: Outcome)
    requires Closed(ss) && Fits(ss, s, start)
    ensures o == Run(ss, s, begin, start, fuel)
  {
    var stack := start;
    var left := fuel;
    while stack != [] && left > 0
      invariant Fits(ss, s, stack)
      invariant Run(ss, s, begin, stack, left) == Run(ss, s, begin, start, fuel)
      decreases left
    {
      var accept;
      accept, stack := Round(ss, s, begin, stack, left);
      if accept.Some? {
        return Accept(accept.value);
      }
      left := left - 1;
    }
    if stack == [] {
      return Reject;
    }
    return OutOfFuel;
  }

  /**
   * One round of the loop of `domatch`: pop the top frame; accept at its
   * position when its state has no transition, otherwise push its successors
   * and go on with `left - 1` rounds.
   */
  method Round(ss: seq<State>, s: seq<byte>, begin: Option<nat>, stack: seq<Frame>, left: nat) returns (accept: Option<nat>, next: seq<Frame>)
    requires Closed(ss) && Fits(ss, s, stack) && stack != [] && left > 0
    ensures Fits(ss, s, next)
    ensures Run(ss, s, begin, stack, left) == if accept.Some? then Accept(accept.value) else Run(ss, s, begin, next, left - 1)
  {
    var f := stack[|stack| - 1];
    var rest := stack[..|stack| - 1];
    RunTurn(ss, s, begin, stack, left);
    if ss[f.state].one.None? {
      return Some(f.pos), rest;
    }
    next := PushSuccessors(ss, s, begin, rest, f);
    accept := None;
  }

  /**
   * The body of the loop of `domatch` once the top frame `f` is popped and
   * its state has a first transition: push the frame of the second
   * transition, then that of the first, each when it can be taken.
   */
  method PushSuccessors(ss: seq<State>, s: seq<byte>, begin: Option<nat>, rest: seq<Frame>, f: Frame) returns (stack: seq<Frame>)
    requires Closed(ss) && Fits(ss, s, rest) && FitsAt(ss, s, f) && ss[f.state].one.Some?
    ensures stack == Expand(ss, s, begin, rest, f)
  {
    stack := rest;
    var st := ss[f.state];
    assert TargetsAt(ss, f.state);
    if st.two.Some? {
      var p := CharMatch(st.two.value.guard, s, f.pos, begin);
      if p.Some? {
        stack := stack + [Frame(p.value, st.two.value.target)];
      }
    }
    var p := CharMatch(st.one.value.guard, s, f.pos, begin);
    if p.Some? {
      stack := stack + [Frame(p.value, st.one.value.target)];
    }
  }

  /** One round of the loop of `domatch`: accept at a top frame without transitions, otherwise expand it. */
  lemma RunTurn(ss: seq<State>, s: seq<byte>, begin: Option<nat>, stack: seq<Frame>, fuel: nat)
    requires Closed(ss) && Fits(ss, s, stack) && stack != [] && fuel > 0
    ensures var f, rest := stack[|stack| - 1], stack[..|stack| - 1];
      && Fits(ss, s, rest) && FitsAt(ss, s, f)
      && Run(ss, s, begin, stack, fuel) ==
        if ss[f.state].one.None? then Accept(f.pos) else Run(ss, s, begin, Expand(ss, s, begin, rest, f), fuel - 1)
  {
    assert FitsAt(ss, s, stack[|stack| - 1]);
  }

  /** The state of `f` has no transition: `domatch` accepts there. */
  predicate Final(ss: seq<State>, f: Frame)
  {
    f.state < |ss| && ss[f.state].one.None?
  }

  /** The set transition `a` leads from position `pos` to the frame `g`. */
  predicate Via(a: Option<Arrow>, s: seq<byte>, pos: nat, begin: Option<nat>, g: Frame)
  {
    a.Some? && pos <= |s| && Fires(a.value.guard, s, pos, begin) == Some(g.pos) && a.value.target == g.state
  }

  /** One transition of a state that is not accepting leads from `f` to `g`. */
  predicate Moves(ss: seq<State>, s: seq<byte>, begin: Option<nat>, f: Frame, g: Frame)
  {
    && f.state < |ss| && ss[f.state].one.Some?
    && (Via(ss[f.state].one, s, f.pos, begin, g) || Via(ss[f.state].two, s, f.pos, begin, g))
  }

  /** Step `i` of `p` is a move. */
  predicate StepAt(ss: seq<State>, s: seq<byte>, begin: Option<nat>, p: seq<Frame>, i: nat)
    requires i + 1 < |p|
  {
    Moves(ss, s, begin, p[i], p[i + 1])
  }

  /** `p` is a walk through the automaton, one transition at a time. */
  predicate Path(ss: seq<State>, s: seq<byte>, begin: Option<nat>, p: seq<Frame>)
  {
    0 < |p| && forall i :: 0 <= i < |p| - 1 ==> StepAt(ss, s, begin, p, i)
  }

  /** `p` is a walk from `f` that ends in an accepting state at position `q`. */
  predicate Walk(ss: seq<State>, s: seq<byte>, begin: Option<nat>, p: seq<Frame>, f: Frame, q: nat)
  {
    Path(ss, s, begin, p) && p[0] == f && Final(ss, p[|p| - 1]) && p[|p| - 1].pos == q
  }

  /** Some walk from `f` reaches an accepting state at position `q`. */
  ghost predicate Accepts(ss: seq<State>, s: seq<byte>, begin: Option<nat>, f: Frame, q: nat)
  {
    exists p :: Walk(ss, s, begin, p, f, q)
  }

  /** A walk from a successor, with the frame it came from in front. */
  lemma Prepend(ss: seq<State>, s: seq<byte>, begin: Option<nat>, f: Frame, g: Frame, q: nat)
    requires Moves(ss, s, begin, f, g) && Accepts(ss, s, begin, g, q)
    ensures Accepts(ss, s, begin, f, q)
  {
    var p :| Walk(ss, s, begin, p, g, q);
    var p' := [f] + p;
    forall i | 0 <= i < |p'| - 1
      ensures StepAt(ss, s, begin, p', i)
    {
      if i > 0 {
        assert StepAt(ss, s, begin, p, i - 1);
        assert p'[i] == p[i - 1] && p'[i + 1] == p[i];
      }
    }
    assert p'[|p'| - 1] == p[|p| - 1];
    assert Walk(ss, s, begin, p', f, q);
  }

  /** A walk from a frame that is not accepting goes through one of its successors. */
  lemma Behead(ss: seq<State>, s: seq<byte>, begin: Option<nat>, f: Frame, q: nat) returns (g: Frame)
    requires Accepts(ss, s, begin, f, q) && !Final(ss, f) && f.state < |ss|
    ensures Moves(ss, s, begin, f, g) && Accepts(ss, s, begin, g, q)
  {
    var p :| Walk(ss, s, begin, p, f, q);
    assert |p| > 1;
    assert StepAt(ss, s, begin, p, 0);
    g := p[1];
    var p' := p[1..];
    forall i | 0 <= i < |p'| - 1
      ensures StepAt(ss, s, begin, p', i)
    {
      assert StepAt(ss, s, begin, p, i + 1);
      assert p'[i] == p[i + 1] && p'[i + 1] == p[i + 2];
    }
    assert p'[|p'| - 1] == p[|p| - 1];
    assert Walk(ss, s, begin, p', g, q);
  }

  /** The frames below `f` and every successor of `f` are on the stack once `f` has been expanded. */
  lemma ExpandHolds(ss: seq<State>, s: seq<byte>, begin: Option<nat>, rest: seq<Frame>, f: Frame, g: Frame)
    requires Closed(ss) && Fits(ss, s, rest) && FitsAt(ss, s, f)
    requires g in rest || Moves(ss, s, begin, f, g)
    ensures g in Expand(ss, s, begin, rest, f)
  {
    var st := ss[f.state];
    var two := Push(rest, st.two, s, f.pos, begin);
    var r := Expand(ss, s, begin, rest, f);
    assert r == Push(two, st.one, s, f.pos, begin);
    if g in rest {
      var i :| 0 <= i < |rest| && rest[i] == g;
      assert two[i] == g && r[i] == g;
    } else if Via(st.one, s, f.pos, begin, g) {
      assert r == two + [g];
    } else {
      assert two == rest + [g];
      assert r[|rest|] == g;
    }
  }

  /** Accepting means some frame of the stack has a walk to an accepting state at that position. */
  lemma {:induction false} RunSound(ss: seq<State>, s: seq<byte>, begin: Option<nat>, stack: seq<Frame>, fuel: nat, q: nat)
    requires Closed(ss) && Fits(ss, s, stack) && Run(ss, s, begin, stack, fuel) == Accept(q)
    ensures exists f :: f in stack && Accepts(ss, s, begin, f, q)
    decreases fuel
  {
    var f := stack[|stack| - 1];
    assert FitsAt(ss, s, f);
    var rest := stack[..|stack| - 1];
    if ss[f.state].one.None? {
      assert Run(ss, s, begin, stack, fuel) == Accept(f.pos);
      assert Walk(ss, s, begin, [f], f, q);
      assert f in stack && Accepts(ss, s, begin, f, q);
    } else {
      var next := Expand(ss, s, begin, rest, f);
      RunSound(ss, s, begin, next, fuel - 1, q);
      var g :| g in next && Accepts(ss, s, begin, g, q);
      var st := ss[f.state];
      var two := Push(rest, st.two, s, f.pos, begin);
      assert next == Push(two, st.one, s, f.pos, begin);
      if g in rest {
        assert g in stack;
      } else {
        assert Moves(ss, s, begin, f, g) by {
          if g in two {
            assert two != rest && two == rest + [Frame(g.pos, st.two.value.target)];
            assert g == two[|rest|] by {
              var i :| 0 <= i < |two| && two[i] == g;
              assert i == |rest|;
            }
          } else {
            assert next == two + [g];
          }
        }
        Prepend(ss, s, begin, f, g, q);
      }
      assert f in stack;
    }
  }

  /** A run that rejects from a non-empty stack expanded its top frame and rejected from there. */
  lemma RejectStep(ss: seq<State>, s: seq<byte>, begin: Option<nat>, stack: seq<Frame>, fuel: nat) returns (top: Frame, rest: seq<Frame>, next: seq<Frame>)
    requires Closed(ss) && Fits(ss, s, stack) && stack != [] && Run(ss, s, begin, stack, fuel) == Reject
    ensures stack == rest + [top] && fuel > 0 && FitsAt(ss, s, top) && Fits(ss, s, rest) && ss[top.state].one.Some?
    ensures next == Expand(ss, s, begin, rest, top) && Fits(ss, s, next) && Run(ss, s, begin, next, fuel - 1) == Reject
  {
    top, rest := stack[|stack| - 1], stack[..|stack| - 1];
    assert FitsAt(ss, s, top);
    next := Expand(ss, s, begin, rest, top);
  }

  /** Rejecting means no frame of the stack has a walk to an accepting state. */
  lemma {:induction false} RunComplete(ss: seq<State>, s: seq<byte>, begin: Option<nat>, stack: seq<Frame>, fuel: nat, q: nat)
    requires Closed(ss) && Fits(ss, s, stack) && Run(ss, s, begin, stack, fuel) == Reject
    ensures forall f :: f in stack ==> !Accepts(ss, s, begin, f, q)
    decreases fuel
  {
    if stack != [] {
      var top, rest, next := RejectStep(ss, s, begin, stack, fuel);
      RunComplete(ss, s, begin, next, fuel - 1, q);
      forall f | f in stack
        ensures !Accepts(ss, s, begin, f, q)
      {
        if Accepts(ss, s, begin, f, q) {
          LastOrRest(rest, top, f);
          var g := Successor(ss, s, begin, rest, top, f, q, next);
        }
      }
    }
  }

  /** A frame of a stack is its top or below it. */
  lemma LastOrRest(rest: seq<Frame>, top: Frame, f: Frame)
    requires f in rest + [top]
    ensures f in rest || f == top
  {
    var i :| 0 <= i < |rest + [top]| && (rest + [top])[i] == f;
    if i < |rest| {
      assert rest[i] == f;
    }
  }

  /** A frame of the stack that accepts leaves, once the top is expanded, a frame of the new stack that accepts. */
  lemma Successor(ss: seq<State>, s: seq<byte>, begin: Option<nat>, rest: seq<Frame>, top: Frame, f: Frame, q: nat, next: seq<Frame>) returns (g: Frame)
    requires Closed(ss) && Fits(ss, s, rest) && FitsAt(ss, s, top) && ss[top.state].one.Some?
    requires (f in rest || f == top) && Accepts(ss, s, begin, f, q) && next == Expand(ss, s, begin, rest, top)
    ensures g in next && Accepts(ss, s, begin, g, q)
  {
    if f in rest {
      g := f;
      ExpandHolds(ss, s, begin, rest, top, f);
    } else {
      g := Behead(ss, s, begin, top, q);
      ExpandHolds(ss, s, begin, rest, top, g);
    }
  }

  /** What `re_match` reports: the span of a match, no match, a read past the terminator, or a walk that never ends. */
  datatype Result = Found(start: nat, end: nat) | NotFound | Overrun | Unfinished

  /** One try at start position `i`, with `begin` as `re_match` passes it. */
  function Try(ss: seq<State>, s: seq<byte>, i: nat, fuel: nat): Outcome
    requires Closed(ss) && 0 < |ss| && i <= |s|
  {
    Run(ss, s, Begins(i), [Frame(i, 0)], fuel)
  }

  /**
   * `re_match` as the source writes it: a try at position 0, then, when the
   * subject is empty, a read past its terminator, otherwise tries at
   * positions `1..|s| - 1`.
   */
  function SearchAsWritten(ss: seq<State>, s: seq<byte>, fuel: nat): Result
    requires Closed(ss) && 0 < |ss| && NoNul(s)
  {
    match Try(ss, s, 0, fuel)
    case Accept(e) => Found(0, e)
    case OutOfFuel => Unfinished
    case Reject => if |s| == 0 then Overrun else ScanAsWritten(ss, s, 1, fuel)
  }

  /** The `while (*++s)` loop: tries from `i` while the byte at `i` is not the terminator. */
  function ScanAsWritten(ss: seq<State>, s: seq<byte>, i: nat, fuel: nat): Result
    requires Closed(ss) && 0 < |ss| && i <= |s|
    decreases |s| - i
  {
    if i == |s| then NotFound
    else match Try(ss, s, i, fuel)
      case Accept(e) => Found(i, e)
      case OutOfFuel => Unfinished
      case Reject => ScanAsWritten(ss, s, i + 1, fuel)
  }

  /** `re_match`, with `domatch` bounded by `fuel` rounds per try. */
  method ReMatch(ss: seq<State>, s: seq<byte>, fuel: nat) returns (r: Result)
    requires Closed(ss) && 0 < |ss| && NoNul(s)
    ensures r == SearchAsWritten(ss, s, fuel)
  {
    var o := DoMatch(ss, s, 0, Some(0), fuel);
    if o.Accept? {
      return Found(0, o.pos);
    } else if o.OutOfFuel? {
      return Unfinished;
    }
    if |s| == 0 {
      return Overrun;
    }
    var i := 1;
    while i < |s|
      invariant 1 <= i <= |s|
      invariant SearchAsWritten(ss, s, fuel) == ScanAsWritten(ss, s, i, fuel)
      decreases |s| - i
    {
      o := DoMatch(ss, s, i, None, fuel);
      if o.Accept? {
        return Found(i, o.pos);
      } else if o.OutOfFuel? {
        return Unfinished;
      }
      i := i + 1;
    }
    return NotFound;
  }

  /** A search that also tries the position of the terminator, and so never reads past it. */
  function Search(ss: seq<State>, s: seq<byte>, fuel: nat): Result
    requires Closed(ss) && 0 < |ss| && NoNul(s)
  {
    ScanFrom(ss, s, 0, fuel)
  }

  /** Tries at positions `i..|s|`. */
  function ScanFrom(ss: seq<State>, s: seq<byte>, i: nat, fuel: nat): Result
    requires Closed(ss) && 0 < |ss| && i <= |s|
    decreases |s| - i
  {
    match Try(ss, s, i, fuel)
    case Accept(e) => Found(i, e)
    case OutOfFuel => Unfinished
    case Reject => if i == |s| then NotFound else ScanFrom(ss, s, i + 1, fuel)
  }

  /**
   * Scanning from `i` finds the leftmost start with a match: a reported span
   * is a match from its start, no start before it in `i..` has any, and when
   * nothing is found no start in `i..|s|` has any.
   */
  lemma {:induction false} ScanLeftmost(ss: seq<State>, s: seq<byte>, i: nat, fuel: nat)
    requires Closed(ss) && 0 < |ss| && i <= |s|
    ensures ScanFrom(ss, s, i, fuel) != Overrun
    ensures ScanFrom(ss, s, i, fuel).Found? ==>
      var m := ScanFrom(ss, s, i, fuel);
      && i <= m.start <= m.end <= |s|
      && Accepts(ss, s, Begins(m.start), Frame(m.start, 0), m.end)
      && forall j: nat, q: nat :: i <= j < m.start ==> !Accepts(ss, s, Begins(j), Frame(j, 0), q)
    ensures ScanFrom(ss, s, i, fuel).NotFound? ==>
      forall j: nat, q: nat :: i <= j <= |s| ==> !Accepts(ss, s, Begins(j), Frame(j, 0), q)
    decreases |s| - i
  {
    var o := Try(ss, s, i, fuel);
    var start := [Frame(i, 0)];
    assert FitsAt(ss, s, start[0]);
    if o.Accept? {
      RunSound(ss, s, Begins(i), start, fuel, o.pos);
      var f :| f in start && Accepts(ss, s, Begins(i), f, o.pos);
      assert f == Frame(i, 0);
      AcceptBound(ss, s, Begins(i), start, fuel, i);
      assert ScanFrom(ss, s, i, fuel) == Found(i, o.pos);
    } else if o.Reject? {
      forall q
        ensures !Accepts(ss, s, Begins(i), Frame(i, 0), q)
      {
        RunComplete(ss, s, Begins(i), start, fuel, q);
      }
      if i < |s| {
        ScanLeftmost(ss, s, i + 1, fuel);
      }
    }
  }

  /** Every frame of the stack is at `lo` or later. */
  predicate From(stack: seq<Frame>, lo: nat)
  {
    forall i :: 0 <= i < |stack| ==> lo <= stack[i].pos
  }

  /** Transitions never move back in the subject, so expanding keeps frames at `lo` or later. */
  lemma ExpandFrom(ss: seq<State>, s: seq<byte>, begin: Option<nat>, rest: seq<Frame>, f: Frame, lo: nat)
    requires Closed(ss) && Fits(ss, s, rest) && FitsAt(ss, s, f) && From(rest, lo) && lo <= f.pos
    ensures From(Expand(ss, s, begin, rest, f), lo)
  {
    var st := ss[f.state];
    var two := Push(rest, st.two, s, f.pos, begin);
    var r := Push(two, st.one, s, f.pos, begin);
    assert From(two, lo) by {
      forall i | 0 <= i < |two| ensures lo <= two[i].pos {
        if i < |rest| {
          assert two[i] == rest[i];
        }
      }
    }
    forall i | 0 <= i < |r| ensures lo <= r[i].pos {
      if i < |two| {
        assert r[i] == two[i];
      }
    }
  }

  /** An accepting position is a position of the subject, and no earlier than any frame it started from. */
  lemma {:induction false} AcceptBound(ss: seq<State>, s: seq<byte>, begin: Option<nat>, stack: seq<Frame>, fuel: nat, lo: nat)
    requires Closed(ss) && Fits(ss, s, stack) && From(stack, lo)
    ensures Run(ss, s, begin, stack, fuel).Accept? ==> lo <= Run(ss, s, begin, stack, fuel).pos <= |s|
    decreases fuel
  {
    if stack != [] && fuel > 0 {
      var f := stack[|stack| - 1];
      assert FitsAt(ss, s, f) && lo <= f.pos;
      if ss[f.state].one.Some? {
        var rest := stack[..|stack| - 1];
        assert From(rest, lo) by {
          forall i | 0 <= i < |rest| ensures lo <= rest[i].pos {
            assert rest[i] == stack[i];
          }
        }
        ExpandFrom(ss, s, begin, rest, f, lo);
        AcceptBound(ss, s, begin, Expand(ss, s, begin, rest, f), fuel - 1, lo);
      }
    }
  }

  /** The search from position 0 finds the leftmost match among all positions `0..|s|`. */
  lemma SearchLeftmost(ss: seq<State>, s: seq<byte>, fuel: nat)
    requires Closed(ss) && 0 < |ss| && NoNul(s)
    ensures Search(ss, s, fuel) != Overrun
    ensures Search(ss, s, fuel).Found? ==>
      var m := Search(ss, s, fuel);
      && m.start <= m.end <= |s|
      && Accepts(ss, s, Begins(m.start), Frame(m.start, 0), m.end)
      && forall j: nat, q: nat :: j < m.start ==> !Accepts(ss, s, Begins(j), Frame(j, 0), q)
    ensures Search(ss, s, fuel).NotFound? ==>
      forall j: nat, q: nat :: j <= |s| ==> !Accepts(ss, s, Begins(j), Frame(j, 0), q)
  {
    ScanLeftmost(ss, s, 0, fuel);
  }

  /** The written search agrees with the corrected one except at the position of the terminator. */
  lemma {:induction false} ScanAgrees(ss: seq<State>, s: seq<byte>, i: nat, fuel: nat)
    requires Closed(ss) && 0 < |ss| && i <= |s|
    ensures ScanAsWritten(ss, s, i, fuel) != Overrun
    ensures ScanAsWritten(ss, s, i, fuel).Found? ==> ScanFrom(ss, s, i, fuel) == ScanAsWritten(ss, s, i, fuel)
    ensures ScanAsWritten(ss, s, i, fuel).Unfinished? ==> ScanFrom(ss, s, i, fuel).Unfinished?
    decreases |s| - i
  {
    if i < |s| && Try(ss, s, i, fuel).Reject? {
      ScanAgrees(ss, s, i + 1, fuel);
    }
  }

  /** The automaton of the pattern `$`. */
  function EndOnly(): seq<State>
  {
    Build([Blank], 0, RegexParse.End).states
  }

  /**
   * `$` matches at the end of `a`, but the written search never tries the
   * position of the terminator, so it reports no match.
   */
  lemma EndNeverTried(fuel: nat)
    requires 2 <= fuel
    ensures Closed(EndOnly()) && 0 < |EndOnly()|
    ensures SearchAsWritten(EndOnly(), [97], fuel) == NotFound
    ensures Search(EndOnly(), [97], fuel) == Found(1, 1)
  {
    EndStates();
    EndTries([State(Some(Arrow(End, 1)), None), Blank], fuel);
  }

  /** The states `$` compiles to: an `NFA_END` transition to the accepting state. */
  lemma EndStates()
    ensures EndOnly() == [State(Some(Arrow(End, 1)), None), Blank]
  {
  }

  /** The two tries of the search for `$` in `a`. */
  lemma EndTries(ss: seq<State>, fuel: nat)
    requires ss == [State(Some(Arrow(End, 1)), None), Blank] && 2 <= fuel
    ensures Closed(ss)
    ensures Try(ss, [97], 0, fuel) == Reject && Try(ss, [97], 1, fuel) == Accept(1)
  {
    assert TargetsAt(ss, 0) && TargetsAt(ss, 1);
    assert Run(ss, [97], Some(0), [Frame(0, 0)], fuel) == Run(ss, [97], Some(0), [], fuel - 1);
    assert Run(ss, [97], None, [Frame(1, 0)], fuel) == Run(ss, [97], None, [Frame(1, 1)], fuel - 1);
  }

  /** The automaton of the pattern `a`. */
  function CharOnly(): seq<State>
  {
    Build([Blank], 0, RegexParse.Char(97)).states
  }

  /**
   * On an empty subject a failed first try is followed by a read of the byte
   * after the terminator.
   */
  lemma EmptySubjectOverrun(fuel: nat)
    requires 2 <= fuel
    ensures Closed(CharOnly()) && 0 < |CharOnly()|
    ensures SearchAsWritten(CharOnly(), [], fuel) == Overrun
    ensures Search(CharOnly(), [], fuel) == NotFound
  {
    CharStates();
    CharTry([State(Some(Arrow(Char(97), 1)), None), Blank], fuel);
  }

  /** The states `a` compiles to: an `NFA_CHAR` transition to the accepting state. */
  lemma CharStates()
    ensures CharOnly() == [State(Some(Arrow(Char(97), 1)), None), Blank]
  {
  }

  /** The first try of the search for `a` in the empty subject. */
  lemma CharTry(ss: seq<State>, fuel: nat)
    requires ss == [State(Some(Arrow(Char(97), 1)), None), Blank] && 2 <= fuel
    ensures Closed(ss) && Try(ss, [], 0, fuel) == Reject
  {
    assert TargetsAt(ss, 0) && TargetsAt(ss, 1);
    assert Run(ss, [], Some(0), [Frame(0, 0)], fuel) == Run(ss, [], Some(0), [], fuel - 1);
  }

  /** The automaton of the pattern `a?`. */
  function OptOnly(): seq<State>
  {
    Build([Blank], 0, RegexParse.Opt(RegexParse.Char(97))).states
  }

  /**
   * `?` prefers to skip its operand: on `a` the search reports the empty
   * match at 0 although a walk through `a` is there.
   */
  lemma OptionIsLazy(fuel: nat)
    requires 2 <= fuel
    ensures Closed(OptOnly()) && 0 < |OptOnly()|
    ensures SearchAsWritten(OptOnly(), [97], fuel) == Found(0, 0)
    ensures Accepts(OptOnly(), [97], Some(0), Frame(0, 0), 1)
  {
    var e1 := Some(Arrow(Epsilon, 1));
    var ss := [State(e1, Some(Arrow(Epsilon, 2))), Blank, State(Some(Arrow(Char(97), 3)), None), State(e1, None)];
    OptStates();
    OptRuns(ss, fuel);
  }

  /**
   * The states `a?` compiles to: a split whose first transition skips to the
   * accepting state and whose second enters `a`, which leads back to the
   * accepting state.
   */
  lemma OptStates()
    ensures var e1 := Some(Arrow(Epsilon, 1));
      OptOnly() == [State(e1, Some(Arrow(Epsilon, 2))), Blank, State(Some(Arrow(Char(97), 3)), None), State(e1, None)]
  {
  }

  /** The first try of the search for `a?` in `a` accepts at once, and a longer walk through `a` exists. */
  lemma OptRuns(ss: seq<State>, fuel: nat)
    requires var e1 := Some(Arrow(Epsilon, 1));
      ss == [State(e1, Some(Arrow(Epsilon, 2))), Blank, State(Some(Arrow(Char(97), 3)), None), State(e1, None)]
    requires 2 <= fuel
    ensures Closed(ss) && Try(ss, [97], 0, fuel) == Accept(0)
    ensures Accepts(ss, [97], Some(0), Frame(0, 0), 1)
  {
    assert TargetsAt(ss, 0) && TargetsAt(ss, 1) && TargetsAt(ss, 2) && TargetsAt(ss, 3);
    assert Run(ss, [97], Some(0), [Frame(0, 0)], fuel) == Run(ss, [97], Some(0), [Frame(0, 2), Frame(0, 1)], fuel - 1);
    var p := [Frame(0, 0), Frame(0, 2), Frame(1, 3), Frame(1, 1)];
    assert StepAt(ss, [97], Some(0), p, 0) && StepAt(ss, [97], Some(0), p, 1) && StepAt(ss, [97], Some(0), p, 2);
    assert Walk(ss, [97], Some(0), p, Frame(0, 0), 1);
  }
}
