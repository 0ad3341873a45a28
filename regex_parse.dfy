/**
 * The recursive-descent parser of the regular-expression engine.  The C
 * functions share a cursor `char const **s` into the pattern; here each takes
 * the pattern and the cursor position and returns the tree it built (`None`
 * for NULL) with the position the cursor was left at, which the callers go on
 * from even after a failure.  The pattern is a C string: index `|s|` reads
 * as its terminating NUL.
 */
module RegexParse {
  import opened Bytes
  import opened Wrappers
  import opened Classes

  /** `struct re`. */
  datatype Re =
    | Char(c: byte)
    /** `RE_ALT`; the left side is NULL when nothing stood before the `|`. */
    | Alt(first: Option<Re>, second: Re)
    | Star(body: Re)
    | Plus(body: Re)
    | Opt(body: Re)
    | Dot
    | Concat(head: Re, tail: Re)
    | Class(ranges: seq<Range>)
    | NClass(ranges: seq<Range>)
    | Begin
    | End

  /** A parse result and where the cursor was left. */
  datatype Parsed = Parsed(re: Option<Re>, next: nat)

  const Pipe: byte := 124
  const Open: byte := 40
  const Close: byte := 41
  const Asterisk: byte := 42
  const PlusSign: byte := 43
  const Query: byte := 63
  const Period: byte := 46
  const Circumflex: byte := 94
  const DollarSign: byte := 36
  const OpenBracket: byte := 91
  const CloseBracket: byte := 93
  const Escape: byte := 92
  const Hyphen: byte := 45

  /** `and`: a concatenation, where a NULL side leaves the other alone. */
  function And(left: Option<Re>, right: Option<Re>): (r: Option<Re>)
    ensures r.None? <==> left.None? && right.None?
    ensures left.Some? && right.Some? ==> r == Some(Concat(left.value, right.value))
    ensures left.None? || right.None? ==> r == (if left.None? then right else left)
  {
    if left.None? then right
    else if right.None? then left
    else Some(Concat(left.value, right.value))
  }

  /** `or`: an alternation, where a NULL side leaves the other alone.  The parser does not call it. */
  function Or(left: Option<Re>, right: Option<Re>): (r: Option<Re>)
    ensures r.None? <==> left.None? && right.None?
    ensures left.Some? && right.Some? ==> r == Some(Alt(left, right.value))
    ensures left.None? || right.None? ==> r == (if left.None? then right else left)
  {
    if left.None? then right
    else if right.None? then left
    else Some(Alt(left, right.value))
  }

  /** The class item at `k` is a range `x-y`: a `-` follows and after it neither the end nor `]`. */
  predicate RangeAt(s: seq<byte>, k: nat)
    requires k < |s|
  {
    At(s, k + 1) == Hyphen && At(s, k + 2) != 0 && At(s, k + 2) != CloseBracket
  }

  /** Where the class item at `k` ends. */
  function ItemEnd(s: seq<byte>, k: nat): (r: nat)
    requires k < |s|
    ensures k < r <= |s|
  {
    if RangeAt(s, k) then k + 3 else k + 1
  }

  /**
   * The counting loop of `charclass` for a class whose items start at `p`:
   * the items from `k` on, up to the end of the pattern or a `]` that is not
   * the first item.
   */
  function Items(s: seq<byte>, p: nat, k: nat): nat
    requires p <= k <= |s|
    decreases |s| - k
  {
    if At(s, k) == 0 || (At(s, k) == CloseBracket && k != p) then 0
    else 1 + Items(s, p, ItemEnd(s, k))
  }

  /** The entry of the class item at `k`: `x-y`, or the single byte `x`. */
  function ItemEntry(s: seq<byte>, k: nat): Range
    requires k < |s|
  {
    if RangeAt(s, k) then Entry(s[k], s[k + 2]) else Entry(s[k], s[k])
  }

  /** The entries the filling loop produces and where it leaves the cursor. */
  datatype Filled = Filled(entries: seq<Range>, next: nat)

  /** The filling loop of `charclass`: `n` items from `q` on, each a range or a single byte. */
  function Fill(s: seq<byte>, p: nat, q: nat, n: nat): (r: Filled)
    requires p <= q <= |s| && n <= Items(s, p, q)
    ensures q <= r.next <= |s| && |r.entries| == n
    decreases n
  {
    if n == 0 then Filled([], q)
    else
      var f := Fill(s, p, ItemEnd(s, q), n - 1);
      Filled([ItemEntry(s, q)] + f.entries, f.next)
  }

  /** One turn of the filling loop: the item at `q` gives the first entry and the rest follow from its end. */
  lemma FillStep(s: seq<byte>, p: nat, q: nat, n: nat)
    requires p <= q <= |s| && 0 < n <= Items(s, p, q)
    ensures q < |s| && Items(s, p, ItemEnd(s, q)) == Items(s, p, q) - 1
    ensures var f := Fill(s, p, ItemEnd(s, q), n - 1);
      Fill(s, p, q, n) == Filled([ItemEntry(s, q)] + f.entries, f.next)
  {
  }

  /** `FillStep` as the filling loop uses it: the entries done so far, then the rest. */
  lemma FillTurn(s: seq<byte>, p: nat, q: nat, n: nat, done: seq<Range>, whole: Filled)
    requires p <= q <= |s| && 0 < n <= Items(s, p, q)
    requires done + Fill(s, p, q, n).entries == whole.entries && Fill(s, p, q, n).next == whole.next
    ensures q < |s| && Items(s, p, ItemEnd(s, q)) == Items(s, p, q) - 1
    ensures done + [ItemEntry(s, q)] + Fill(s, p, ItemEnd(s, q), n - 1).entries == whole.entries
    ensures Fill(s, p, ItemEnd(s, q), n - 1).next == whole.next
  {
    FillStep(s, p, q, n);
    var rest := Fill(s, p, ItemEnd(s, q), n - 1);
    assert done + [ItemEntry(s, q)] + rest.entries == done + ([ItemEntry(s, q)] + rest.entries);
  }

  /** The items of the class whose text starts at `i`, after the `^` that negates it, as the filling loop leaves them. */
  function ClassFill(s: seq<byte>, i: nat): (r: Filled)
    requires i < |s|
    ensures i <= r.next <= |s|
  {
    var p := if s[i] == Circumflex then i + 1 else i;
    Fill(s, p, p, Items(s, p, p) % 256)
  }

  /**
   * `charclass` with the cursor just past the `[`: an optional `^`, the item
   * count truncated to the `uint8_t` it is kept in, the items, the closing
   * byte (NULL at the end of the pattern), then the sorted and merged ranges.
   */
  function ClassOf(s: seq<byte>, i: nat): (r: Parsed)
    requires i <= |s|
    ensures i <= r.next <= |s|
    ensures r.re.Some? ==> r.next > i && (r.re.value.Class? || r.re.value.NClass?)
  {
    if At(s, i) == 0 then Parsed(None, i)
    else
      var negate := s[i] == Circumflex;
      var f := ClassFill(s, i);
      if At(s, f.next) == 0 then Parsed(None, f.next)
      else
        var rs := Merged(Sort(f.entries));
        Parsed(Some(if negate then NClass(rs) else Class(rs)), f.next + 1)
  }

  /**
   * `regexp(s, allow_trailing)` once its loop has built `e`: further
   * sub-expressions are concatenated until the end or a `|`; a failed one
   * ends the expression (keeping `e` only inside parentheses); a `|` makes an
   * alternation whose right side must not be NULL.
   */
  function SeqOf(s: seq<byte>, i: nat, trailing: bool, e: Option<Re>): (r: Parsed)
    requires i <= |s|
    ensures i <= r.next <= |s|
    decreases |s| - i, 2
  {
    if At(s, i) != 0 && At(s, i) != Pipe then
      var sub := SubExpOf(s, i);
      if sub.re.None? then Parsed(if trailing then e else None, sub.next)
      else SeqOf(s, sub.next, trailing, And(e, sub.re))
    else if At(s, i) == 0 then Parsed(e, i)
    else
      var right := RegExpOf(s, i + 1, trailing);
      if right.re.None? then Parsed(None, right.next)
      else Parsed(Some(Alt(e, right.re.value)), right.next)
  }

  /** `regexp(s, allow_trailing)`. */
  function RegExpOf(s: seq<byte>, i: nat, trailing: bool): (r: Parsed)
    requires i <= |s|
    ensures i <= r.next <= |s|
    decreases |s| - i, 3
  {
    SeqOf(s, i, trailing, None)
  }

  /** `subexp`: an atom and an optional `*`, `+` or `?` after it. */
  function SubExpOf(s: seq<byte>, i: nat): (r: Parsed)
    requires i <= |s|
    ensures i <= r.next <= |s|
    ensures r.re.Some? ==> r.next > i
    decreases |s| - i, 1
  {
    var a := AtomOf(s, i);
    if a.re.None? then a
    else if At(s, a.next) == Asterisk then Parsed(Some(Star(a.re.value)), a.next + 1)
    else if At(s, a.next) == PlusSign then Parsed(Some(Plus(a.re.value)), a.next + 1)
    else if At(s, a.next) == Query then Parsed(Some(Opt(a.re.value)), a.next + 1)
    else a
  }

  /**
   * `atom`: NULL at the end or at `)`; a parenthesised expression, which must
   * be followed by `)`; `.`, `^`, `$`; a class after `[`; an escaped byte,
   * NULL when the backslash is last; or the byte itself.
   */
  function AtomOf(s: seq<byte>, i: nat): (r: Parsed)
    requires i <= |s|
    ensures i <= r.next <= |s|
    ensures r.re.Some? ==> r.next > i
    decreases |s| - i, 0
  {
    var b := At(s, i);
    if b == 0 || b == Close then Parsed(None, i)
    else if b == Open then
      var inner := RegExpOf(s, i + 1, true);
      if At(s, inner.next) != Close then Parsed(None, inner.next)
      else Parsed(inner.re, inner.next + 1)
    else if b == Period then Parsed(Some(Dot), i + 1)
    else if b == Circumflex then Parsed(Some(Begin), i + 1)
    else if b == DollarSign then Parsed(Some(End), i + 1)
    else if b == OpenBracket then ClassOf(s, i + 1)
    else if b == Escape then
      if At(s, i + 1) == 0 then Parsed(None, i + 1) else Parsed(Some(Char(s[i + 1])), i + 2)
    else Parsed(Some(Char(b)), i + 1)
  }

  /** `parse`: the whole pattern, with no trailing text allowed. */
  function ParseOf(s: seq<byte>): Option<Re>
  {
    RegExpOf(s, 0, false).re
  }

  /** `regexp`. */
  method RegExp(s: seq<byte>, i: nat, trailing: bool) returns (r: Parsed)
    requires i <= |s|
    ensures r == RegExpOf(s, i, trailing)
    decreases |s| - i, 3
  {
    var e: Option<Re> := None;
    var k := i;
    while At(s, k) != 0 && At(s, k) != Pipe
      invariant i <= k <= |s|
      invariant SeqOf(s, k, trailing, e) == RegExpOf(s, i, trailing)
      decreases |s| - k
    {
      var sub := SubExp(s, k);
      if sub.re.None? {
        return Parsed(if trailing then e else None, sub.next);
      }
      e := And(e, sub.re);
      k := sub.next;
    }
    if At(s, k) == 0 {
      return Parsed(e, k);
    }
    var right := RegExp(s, k + 1, trailing);
    if right.re.None? {
      return Parsed(None, right.next);
    }
    return Parsed(Some(Alt(e, right.re.value)), right.next);
  }

  /** `subexp`. */
  method SubExp(s: seq<byte>, i: nat) returns (r: Parsed)
    requires i <= |s|
    ensures r == SubExpOf(s, i)
    decreases |s| - i, 1
  {
    r := Atom(s, i);
    if r.re.None? {
      return;
    }
    var b := At(s, r.next);
    if b == Asterisk {
      r := Parsed(Some(Star(r.re.value)), r.next + 1);
    } else if b == PlusSign {
      r := Parsed(Some(Plus(r.re.value)), r.next + 1);
    } else if b == Query {
      r := Parsed(Some(Opt(r.re.value)), r.next + 1);
    }
  }

  /** `atom`. */
  method Atom(s: seq<byte>, i: nat) returns (r: Parsed)
    requires i <= |s|
    ensures r == AtomOf(s, i)
    decreases |s| - i, 0
  {
    var b := At(s, i);
    if b == 0 || b == Close {
      return Parsed(None, i);
    }
    if b == Open {
      var inner := RegExp(s, i + 1, true);
      if At(s, inner.next) != Close {
        return Parsed(None, inner.next);
      }
      return Parsed(inner.re, inner.next + 1);
    } else if b == Period {
      return Parsed(Some(Dot), i + 1);
    } else if b == Circumflex {
      return Parsed(Some(Begin), i + 1);
    } else if b == DollarSign {
      return Parsed(Some(End), i + 1);
    } else if b == OpenBracket {
      r := CharClass(s, i + 1);
    } else if b == Escape {
      if At(s, i + 1) == 0 {
        return Parsed(None, i + 1);
      }
      return Parsed(Some(Char(s[i + 1])), i + 2);
    } else {
      return Parsed(Some(Char(b)), i + 1);
    }
  }

  /** `parse(s)`. */
  method Parse(s: seq<byte>) returns (r: Option<Re>)
    ensures r == ParseOf(s)
  {
    var p := RegExp(s, 0, false);
    r := p.re;
  }

  /** The counting loop of `charclass`; `n` is a `uint8_t`. */
  method CountItems(s: seq<byte>, p: nat) returns (n: nat)
    requires p <= |s|
    ensures n == Items(s, p, p) % 256
  {
    var k := p;
    ghost var counted := 0;
    n := 0;
    while At(s, k) != 0
      invariant p <= k <= |s|
      invariant counted + Items(s, p, k) == Items(s, p, p) && n == counted % 256
      decreases |s| - k
    {
      if At(s, k) == CloseBracket && k != p {
        break;
      }
      k := ItemEnd(s, k);
      n, counted := (n + 1) % 256, counted + 1;
    }
  }

  /** The filling loop of `charclass`: `n` entries into a fresh array, and where the cursor stops. */
  method FillItems(s: seq<byte>, p: nat, n: nat) returns (cls: array<Range>, q: nat)
    requires p <= |s| && n <= Items(s, p, p)
    ensures fresh(cls) && cls[..] == Fill(s, p, p, n).entries && q == Fill(s, p, p, n).next
  {
    cls := new Range[n](_ => Range(0, 0));
    q := p;
    ghost var done: seq<Range> := [];
    ghost var whole := Fill(s, p, p, n);
    for j := 0 to n
      invariant p <= q <= |s| && n - j <= Items(s, p, q)
      invariant cls[..j] == done
      invariant done + Fill(s, p, q, n - j).entries == whole.entries
      invariant Fill(s, p, q, n - j).next == whole.next
    {
      FillTurn(s, p, q, n - j, done, whole);
      // `*s += 2` after a range, then `++*s`
      var e := ItemEntry(s, q);
      cls[j] := e;
      assert cls[..j + 1] == cls[..j] + [e];
      done := done + [e];
      q := ItemEnd(s, q);
    }
    assert cls[..] == cls[..n];
  }

  /** `qsort(class, n, sizeof *class, classcmp)`. */
  method SortInPlace(cls: array<Range>)
    modifies cls
    ensures cls[..] == Sort(old(cls[..]))
  {
    var sorted := Sort(cls[..]);
    forall m | 0 <= m < cls.Length {
      cls[m] := sorted[m];
    }
    assert cls[..] == sorted;
  }

  /** The inner loop of the merge: the entries from `x` that join the range at `x`, and its new high byte. */
  method AbsorbFrom(cls: array<Range>, x: nat, count: nat) returns (y: nat, high: byte)
    requires x < count <= cls.Length
    ensures x < y <= count
    ensures Absorb(cls[x..count], 1, cls[x].hi) == Absorbed(y - x, high)
  {
    ghost var rest := cls[x..count];
    high := cls[x].hi;
    y := x + 1;
    while y < count && cls[y].lo as int <= high as int + 1
      invariant x + 1 <= y <= count
      invariant Absorb(rest, y - x, high) == Absorb(rest, 1, rest[0].hi)
      decreases count - y
    {
      if cls[y].hi > high {
        high := cls[y].hi;
      }
      y := y + 1;
    }
  }

  /** `memmove(cls + to, cls + from, (count - from) * sizeof *cls)`: the entries from `from` move down to `to`. */
  method MoveDown(cls: array<Range>, to: nat, from: nat, count: nat)
    requires to <= from <= count <= cls.Length
    modifies cls
    ensures cls[..to] == old(cls[..to])
    ensures cls[to..count - (from - to)] == old(cls[from..count])
  {
    ghost var pre := cls[..];
    var shift := from - to;
    forall m | to <= m < count - shift {
      cls[m] := cls[m + shift];
    }
    ghost var moved := cls[to..count - shift];
    forall k | 0 <= k < |moved| ensures moved[k] == pre[from..count][k] {
      assert moved[k] == cls[to + k] == pre[from + k];
    }
  }

  /** One pass of the merge loop: the range at `x` takes in the entries it absorbs and the tail moves down. */
  method MergeAt(cls: array<Range>, x: nat, count: nat) returns (count': nat)
    requires x < count <= cls.Length
    modifies cls
    ensures x < count' <= count
    ensures cls[..x + 1] + Merged(cls[x + 1..count']) == old(cls[..x] + Merged(cls[x..count]))
  {
    ghost var before := cls[..];
    var y, high := AbsorbFrom(cls, x, count);
    cls[x] := Range(cls[x].lo, high);
    ghost var mid := cls[..];
    MoveDown(cls, x + 1, y, count);
    count' := count - (y - x - 1);
    assert cls[..x + 1] == mid[..x + 1];
    MergeAtSeq(before, cls[..], x, y, count, high);
    assert cls[x + 1..count'] == cls[..][x + 1..count - (y - x - 1)];
    assert old(cls[..x]) == before[..x] && old(cls[x..count]) == before[x..count];
  }

  /** The array facts `MergeAt` establishes, stated on sequences. */
  lemma MergeAtSeq(before: seq<Range>, after: seq<Range>, x: nat, y: nat, count: nat, high: byte)
    requires x < y <= count <= |before| == |after|
    requires Absorb(before[x..count], 1, before[x].hi) == Absorbed(y - x, high)
    requires after[..x + 1] == before[..x] + [Range(before[x].lo, high)]
    requires after[x + 1..count - (y - x - 1)] == before[y..count]
    ensures after[..x + 1] + Merged(after[x + 1..count - (y - x - 1)]) == before[..x] + Merged(before[x..count])
  {
    var rest := before[x..count];
    assert rest[y - x..] == before[y..count];
    MergedFirst(rest, y - x, high);
    AppendAssoc(before[..x], [Range(rest[0].lo, high)], Merged(rest[y - x..]));
  }

  /** The merge loop of `charclass`, in place: the merged ranges are the first `count` entries. */
  method MergeInPlace(cls: array<Range>) returns (count: nat)
    modifies cls
    ensures count <= cls.Length && cls[..count] == Merged(old(cls[..]))
  {
    ghost var whole := cls[..];
    count := cls.Length;
    var x := 0;
    assert cls[x..count] == whole;
    while x < count
      invariant x <= count <= cls.Length
      invariant cls[..x] + Merged(cls[x..count]) == Merged(whole)
      decreases count - x
    {
      count := MergeAt(cls, x, count);
      x := x + 1;
    }
    assert cls[x..count] == [];
  }

  /** `charclass`: NULL at the end of the pattern, else the counting loop, the filling loop and the normalisation. */
  method CharClass(s: seq<byte>, i: nat) returns (r: Parsed)
    requires i <= |s|
    ensures r == ClassOf(s, i)
  {
    if At(s, i) == 0 {
      return Parsed(None, i);
    }
    var negate := s[i] == Circumflex;
    var p := if negate then i + 1 else i;
    var n := CountItems(s, p);
    var cls, q := FillItems(s, p, n);
    if At(s, q) == 0 {
      return Parsed(None, q);
    }
    SortInPlace(cls);
    var count := MergeInPlace(cls);
    var rs := cls[..count];
    return Parsed(Some(if negate then NClass(rs) else Class(rs)), q + 1);
  }

  /** A byte that stands for itself wherever it occurs: not the end, not an operator, not a quantifier. */
  predicate Plain(b: byte)
  {
    b != 0 && b != Pipe && b != Open && b != Close && b != Asterisk && b != PlusSign && b != Query
    && b != Period && b != Circumflex && b != DollarSign && b != OpenBracket && b != Escape
  }

  predicate AllPlain(w: seq<byte>)
  {
    forall k :: 0 <= k < |w| ==> Plain(w[k])
  }

  /** What the loop of `regexp` builds onto `e` from a run of plain bytes: each byte concatenated in turn. */
  function Lits(e: Option<Re>, w: seq<byte>): (r: Option<Re>)
    ensures r.None? <==> e.None? && w == []
    decreases |w|
  {
    if w == [] then e else Lits(And(e, Some(Char(w[0]))), w[1..])
  }

  /** The bytes a tree of literal characters and concatenations spells, `None` for any other tree. */
  function Spelled(r: Re): Option<seq<byte>>
  {
    match r
    case Char(c) => Some([c])
    case Concat(h, t) =>
      var a := Spelled(h);
      var b := Spelled(t);
      if a.Some? && b.Some? then Some(a.value + b.value) else None
    case _ => None
  }

  /** `Spelled` extended to NULL, the empty expression. */
  function Word(e: Option<Re>): Option<seq<byte>>
  {
    if e.None? then Some([]) else Spelled(e.value)
  }

  /** A run of plain bytes adds exactly those bytes to what the expression spells. */
  lemma {:induction false} LitsSpell(e: Option<Re>, w: seq<byte>)
    requires Word(e).Some?
    ensures Word(Lits(e, w)) == Some(Word(e).value + w)
    decreases |w|
  {
    if w != [] {
      var e' := And(e, Some(Char(w[0])));
      assert Spelled(Char(w[0])) == Some([w[0]]);
      if e.Some? {
        assert e' == Some(Concat(e.value, Char(w[0])));
        assert Spelled(e'.value) == Some(Spelled(e.value).value + [w[0]]);
      } else {
        assert e' == Some(Char(w[0]));
        assert Word(e).value + [w[0]] == [w[0]];
      }
      assert Word(e') == Some(Word(e).value + [w[0]]);
      LitsSpell(e', w[1..]);
      assert Lits(e, w) == Lits(e', w[1..]);
      assert Word(e).value + [w[0]] + w[1..] == Word(e).value + w;
    } else {
      assert Word(e).value + w == Word(e).value;
    }
  }

  /** The loop of `regexp` over a run of plain bytes not followed by a quantifier concatenates them one by one. */
  lemma {:induction false} PlainRun(s: seq<byte>, i: nat, j: nat, trailing: bool, e: Option<Re>)
    requires i <= j <= |s| && AllPlain(s[i..j])
    requires At(s, j) != Asterisk && At(s, j) != PlusSign && At(s, j) != Query
    ensures SeqOf(s, i, trailing, e) == SeqOf(s, j, trailing, Lits(e, s[i..j]))
    decreases j - i
  {
    if i < j {
      assert s[i] == s[i..j][0];
      assert i + 1 < j ==> s[i + 1] == s[i..j][1];
      assert SubExpOf(s, i) == Parsed(Some(Char(s[i])), i + 1);
      assert s[i + 1..j] == s[i..j][1..];
      PlainRun(s, i + 1, j, trailing, And(e, Some(Char(s[i]))));
    }
  }

  /** A pattern of plain bytes parses to the concatenation of those bytes, which spells the pattern back. */
  lemma PlainParses(w: seq<byte>)
    requires AllPlain(w)
    ensures ParseOf(w) == Lits(None, w)
    ensures ParseOf(w).Some? <==> w != []
    ensures Word(ParseOf(w)) == Some(w)
  {
    assert w[0..|w|] == w;
    PlainRun(w, 0, |w|, false, None);
    assert SeqOf(w, |w|, false, Lits(None, w)) == Parsed(Lits(None, w), |w|);
    assert RegExpOf(w, 0, false) == SeqOf(w, 0, false, None);
    assert ParseOf(w) == Lits(None, w);
    LitsSpell(None, w);
    assert Word(None).value + w == w;
  }

  /** The loop of `regexp` after a plain prefix `p`: it reaches the byte after `p` with the prefix's concatenation. */
  lemma AfterPlain(p: seq<byte>, t: seq<byte>, trailing: bool)
    requires AllPlain(p) && t != [] && t[0] != Asterisk && t[0] != PlusSign && t[0] != Query
    ensures RegExpOf(p + t, 0, trailing) == SeqOf(p + t, |p|, trailing, Lits(None, p))
  {
    var s := p + t;
    assert s[0..|p|] == p;
    assert At(s, |p|) == t[0];
    PlainRun(s, 0, |p|, trailing, None);
  }

  /** A pattern cannot end with a backslash. */
  lemma TrailingEscape(p: seq<byte>)
    requires AllPlain(p)
    ensures ParseOf(p + [Escape]) == None
  {
    var s, i := p + [Escape], |p|;
    AfterPlain(p, [Escape], false);
    assert At(s, i) == Escape && At(s, i + 1) == 0;
    assert AtomOf(s, i) == Parsed(None, i + 1);
    assert SeqOf(s, i, false, Lits(None, p)).re == None;
  }

  /** A `|` must have an alternative after it. */
  lemma TrailingPipe(p: seq<byte>)
    requires AllPlain(p)
    ensures ParseOf(p + [Pipe]) == None
  {
    var s, i := p + [Pipe], |p|;
    AfterPlain(p, [Pipe], false);
    assert At(s, i) == Pipe && At(s, i + 1) == 0;
    assert RegExpOf(s, i + 1, false) == Parsed(None, i + 1);
    assert SeqOf(s, i, false, Lits(None, p)).re == None;
  }

  /** A `)` without its `(` makes the whole pattern fail, whatever follows it. */
  lemma StrayClose(p: seq<byte>, q: seq<byte>)
    requires AllPlain(p)
    ensures ParseOf(p + [Close] + q) == None
  {
    assert p + [Close] + q == p + ([Close] + q);
    var s, i := p + [Close] + q, |p|;
    AfterPlain(p, [Close] + q, false);
    assert At(s, i) == Close;
    assert AtomOf(s, i) == Parsed(None, i);
    assert SeqOf(s, i, false, Lits(None, p)).re == None;
  }

  /** A `(` whose expression runs to the end of the pattern makes the whole pattern fail. */
  lemma UnclosedGroup(p: seq<byte>, q: seq<byte>)
    requires AllPlain(p) && AllPlain(q)
    ensures ParseOf(p + [Open] + q) == None
  {
    var s := p + [Open] + q;
    assert s == p + ([Open] + q);
    AfterPlain(p, [Open] + q, false);
    var i := |p| + 1;
    assert s[i..|s|] == q;
    PlainRun(s, i, |s|, true, None);
    assert SeqOf(s, |s|, true, Lits(None, q)) == Parsed(Lits(None, q), |s|);
    assert RegExpOf(s, i, true) == Parsed(Lits(None, q), |s|);
    assert At(s, |p|) == Open;
    assert AtomOf(s, |p|) == Parsed(None, |s|);
    assert SeqOf(s, |p|, false, Lits(None, p)).re == None;
  }

  /** Inside parentheses a run of plain bytes makes the group that concatenation. */
  lemma PlainGroup(q: seq<byte>)
    requires AllPlain(q) && q != []
    ensures ParseOf([Open] + q + [Close]) == Lits(None, q)
  {
    var s := [Open] + q + [Close];
    assert s[1..|q| + 1] == q;
    var e := Lits(None, q);
    PlainRun(s, 1, |q| + 1, true, None);
    assert At(s, |q| + 1) == Close && At(s, 0) == Open;
    assert AtomOf(s, |q| + 1) == Parsed(None, |q| + 1);
    assert SeqOf(s, |q| + 1, true, e) == Parsed(e, |q| + 1);
    assert RegExpOf(s, 1, true) == Parsed(e, |q| + 1);
    assert AtomOf(s, 0) == Parsed(e, |s|);
    assert SubExpOf(s, 0) == AtomOf(s, 0);
    assert SeqOf(s, |s|, false, e) == Parsed(e, |s|);
    assert SeqOf(s, 0, false, None) == Parsed(e, |s|);
  }

  /** An `|` with nothing before it builds an alternation whose left side is NULL. */
  lemma EmptyLeft()
    ensures ParseOf([Pipe, 97]) == Some(Alt(None, Char(97)))
  {
    var s := [Pipe, 97];
    assert At(s, 0) == Pipe && At(s, 1) == 97 && At(s, 2) == 0;
    assert AtomOf(s, 1) == Parsed(Some(Char(97)), 2);
    assert SubExpOf(s, 1) == Parsed(Some(Char(97)), 2);
    assert SeqOf(s, 2, false, Some(Char(97))) == Parsed(Some(Char(97)), 2);
    assert SeqOf(s, 1, false, None) == Parsed(Some(Char(97)), 2);
    assert RegExpOf(s, 1, false) == Parsed(Some(Char(97)), 2);
    assert SeqOf(s, 0, false, None) == Parsed(Some(Alt(None, Char(97))), 2);
  }

  /** A quantifier with nothing before it is a literal byte. */
  lemma LeadingQuantifier(b: byte)
    requires b == Asterisk || b == PlusSign || b == Query
    ensures ParseOf([b]) == Some(Char(b))
  {
    var s := [b];
    assert At(s, 0) == b && At(s, 1) == 0;
    assert AtomOf(s, 0) == Parsed(Some(Char(b)), 1);
    assert SubExpOf(s, 0) == Parsed(Some(Char(b)), 1);
    assert SeqOf(s, 1, false, Some(Char(b))) == Parsed(Some(Char(b)), 1);
    assert SeqOf(s, 0, false, None) == Parsed(Some(Char(b)), 1);
  }

  /** The loop of `regexp` without trailing text succeeds only at the end of the pattern. */
  lemma {:induction false} SeqConsumes(s: seq<byte>, i: nat, e: Option<Re>)
    requires i <= |s| && NoNul(s)
    ensures SeqOf(s, i, false, e).re.Some? ==> SeqOf(s, i, false, e).next == |s|
    decreases |s| - i
  {
    if At(s, i) != 0 && At(s, i) != Pipe {
      var sub := SubExpOf(s, i);
      if sub.re.Some? {
        SeqConsumes(s, sub.next, And(e, sub.re));
      }
    } else if At(s, i) != 0 {
      SeqConsumes(s, i + 1, None);
    }
  }

  /** `parse` allows no trailing text: a tree is returned only when the whole pattern was read. */
  lemma ParseConsumes(s: seq<byte>)
    requires NoNul(s)
    ensures ParseOf(s).Some? ==> RegExpOf(s, 0, false).next == |s|
  {
    SeqConsumes(s, 0, None);
  }

  /**
   * A class that parses is in normal form: its ranges are sorted and
   * separated by gaps, they are well formed when every item is, and a byte is
   * in them exactly when one of the items covers it.
   */
  lemma ClassNormal(s: seq<byte>, i: nat, c: int)
    requires i <= |s| && ClassOf(s, i).re.Some?
    ensures var rs := ClassOf(s, i).re.value.ranges;
      && Gaps(rs)
      && (WellFormed(ClassFill(s, i).entries) ==> Normal(rs))
      && (Member(rs, c) <==> Member(ClassFill(s, i).entries, c))
  {
    Normalised(ClassFill(s, i).entries, c);
  }

  /** A byte that counts as one class item and does not end the class. */
  predicate Simple(b: byte)
  {
    b != 0 && b != CloseBracket && b != Hyphen
  }

  /** Items made of simple bytes followed by `]` are counted one each. */
  lemma {:induction false} SimpleItems(s: seq<byte>, p: nat, k: nat)
    requires p <= k < |s| && p < |s| - 1 && s[|s| - 1] == CloseBracket
    requires forall m :: k <= m < |s| - 1 ==> Simple(s[m])
    ensures Items(s, p, k) == |s| - 1 - k
    decreases |s| - k
  {
    if k < |s| - 1 {
      assert !RangeAt(s, k);
      SimpleItems(s, p, k + 1);
    }
  }

  /**
   * The item count is a `uint8_t`: a class of 256 simple items is counted as
   * none, so it parses as an empty class and the cursor stops after its first
   * item, which leaves the other items and the `]` to be read as literals.
   */
  lemma ClassCountWraps(w: seq<byte>)
    requires |w| == 256 && w[0] != Circumflex && forall m :: 0 <= m < |w| ==> Simple(w[m])
    ensures ClassOf(w + [CloseBracket], 0) == Parsed(Some(Class([])), 1)
  {
    var s := w + [CloseBracket];
    SimpleItems(s, 0, 0);
    assert ClassFill(s, 0) == Filled([], 0);
    assert Sort([]) == [];
  }
}
