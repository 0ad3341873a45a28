/**
 * The input line of a buffer: a byte vector made of NUL-terminated chunks,
 * one per piece of text the terminal delivered, and a cursor that always sits
 * at the start of a chunk.  The editing keys move and delete whole chunks;
 * `enter` sends the text with the separators squeezed out.
 */
module InputLine {
  import opened Bytes

  /** `c` is the start of a chunk: the start of the input or just after a NUL. */
  predicate Boundary(t: seq<byte>, c: int)
  {
    c == 0 || (0 < c <= |t| && t[c - 1] == 0)
  }

  /** Every chunk is terminated: the input is empty or its last byte is a NUL. */
  predicate Chunked(t: seq<byte>)
  {
    t == [] || t[|t| - 1] == 0
  }

  /** The input and the cursor, as `buffer->input` and `buffer->cursor` hold them. */
  datatype Edit = Edit(text: seq<byte>, cursor: nat)

  /** The invariant every editing key keeps. */
  predicate Good(e: Edit)
  {
    e.cursor <= |e.text| && Boundary(e.text, e.cursor) && Chunked(e.text)
  }

  /**
   * Where the scan `while (i > 0 && input[i - 1] != '\0') --i` stops: the
   * start of the chunk that index `i` is in.  No NUL lies between the two.
   */
  function Back(t: seq<byte>, i: nat): (b: nat)
    requires i <= |t|
    ensures b <= i && Boundary(t, b)
    ensures forall j :: b <= j < i ==> t[j] != 0
    decreases i
  {
    if i == 0 || t[i - 1] == 0 then i else Back(t, i - 1)
  }

  /** The first NUL at or after `i` (`i + strlen(input + i)`). */
  function NulFrom(t: seq<byte>, i: nat): (n: nat)
    requires i < |t| && Chunked(t)
    ensures i <= n < |t| && t[n] == 0
    ensures forall j :: i <= j < n ==> t[j] != 0
    decreases |t| - i
  {
    if t[i] == 0 then i else NulFrom(t, i + 1)
  }

  /** `backspace`: nothing at the start, else the chunk before the cursor is cut out and the cursor goes to its start. */
  function Backspaced(e: Edit): (r: Edit)
    requires Good(e)
    ensures Good(r)
  {
    if e.cursor == 0 then e
    else
      var b := Back(e.text, e.cursor - 1);
      Edit(e.text[..b] + e.text[e.cursor..], b)
  }

  /** `left`: nothing at the start, else the cursor goes to the start of the chunk before it. */
  function Lefted(e: Edit): (r: Edit)
    requires Good(e)
    ensures Good(r) && r.text == e.text && r.cursor <= e.cursor
    ensures e.cursor > 0 ==> r.cursor < e.cursor
  {
    if e.cursor == 0 then e else Edit(e.text, Back(e.text, e.cursor - 1))
  }

  /** `right`: nothing at the end, else the cursor goes past the NUL that ends its chunk. */
  function Righted(e: Edit): (r: Edit)
    requires Good(e)
    ensures Good(r) && r.text == e.text && r.cursor >= e.cursor
    ensures e.cursor < |e.text| ==> r.cursor > e.cursor
  {
    if e.cursor == |e.text| then e else Edit(e.text, NulFrom(e.text, e.cursor) + 1)
  }

  /** `handle_text(s)`: the text and its NUL go in at the cursor, which moves past them. */
  function Inserted(e: Edit, s: seq<byte>): (r: Edit)
    requires Good(e) && NoNul(s)
    ensures Good(r) && |r.text| == |e.text| + |s| + 1 && r.text[..e.cursor] == e.text[..e.cursor]
  {
    var c := e.cursor;
    var t := e.text[..c] + s + [0] + e.text[c..];
    assert t[..c] == e.text[..c];
    Edit(t, c + |s| + 1)
  }

  /** `cut_rest`: the input ends at the cursor. */
  function Cut(e: Edit): (r: Edit)
    requires Good(e)
    ensures Good(r) && r.cursor == e.cursor && r.cursor == |r.text|
    ensures r.text == e.text[..e.cursor]
  {
    Edit(e.text[..e.cursor], e.cursor)
  }

  /** The one byte the compaction loop of `enter` keeps of `b`. */
  function Keep(b: byte): seq<byte>
  {
    if b == 0 then [] else [b]
  }

  /** The text `enter` sends: the non-NUL bytes of the input, in order. */
  function Strip(t: seq<byte>): seq<byte>
    decreases |t|
  {
    if t == [] then [] else Strip(t[..|t| - 1]) + Keep(t[|t| - 1])
  }

  /** The sent text holds no separator and is never longer than the input. */
  lemma {:induction false} StripNoNul(t: seq<byte>)
    ensures NoNul(Strip(t)) && |Strip(t)| <= |t|
    decreases |t|
  {
    if t != [] {
      StripNoNul(t[..|t| - 1]);
    }
  }

  /** A terminated input sends strictly fewer bytes than it holds. */
  lemma StripShorter(t: seq<byte>)
    requires t != [] && Chunked(t)
    ensures |Strip(t)| < |t|
  {
    StripNoNul(t[..|t| - 1]);
  }

  /** Squeezing out the separators works piece by piece. */
  lemma {:induction false} StripAppend(a: seq<byte>, b: seq<byte>)
    ensures Strip(a + b) == Strip(a) + Strip(b)
    decreases |b|
  {
    if b == [] {
      assert a + b == a;
    } else {
      var b' := b[..|b| - 1];
      assert (a + b)[..|a + b| - 1] == a + b';
      StripAppend(a, b');
    }
  }

  /** Text without NUL sends as itself. */
  lemma {:induction false} StripPlain(s: seq<byte>)
    requires NoNul(s)
    ensures Strip(s) == s
    decreases |s|
  {
    if s != [] {
      var p := s[..|s| - 1];
      StripPlain(p);
      assert s == p + [s[|s| - 1]];
    }
  }

  /** Text without NUL sends as itself with its terminator too. */
  lemma StripText(s: seq<byte>)
    requires NoNul(s)
    ensures Strip(s + [0]) == s
  {
    var t := s + [0];
    assert t[..|t| - 1] == s;
    StripPlain(s);
  }

  /** What `enter` sends after `handle_text(s)`: `s` spliced in where the cursor was. */
  lemma InsertedSends(e: Edit, s: seq<byte>)
    requires Good(e) && NoNul(s)
    ensures Strip(Inserted(e, s).text) == Strip(e.text[..e.cursor]) + s + Strip(e.text[e.cursor..])
  {
    var a, c := e.text[..e.cursor], e.text[e.cursor..];
    StripAppend(a + (s + [0]), c);
    StripAppend(a, s + [0]);
    StripText(s);
    assert a + s + [0] + c == a + (s + [0]) + c;
  }

  /** `backspace` undoes `handle_text`: the chunk just typed is exactly what it removes. */
  lemma BackspaceUndoesInsert(e: Edit, s: seq<byte>)
    requires Good(e) && NoNul(s)
    ensures Backspaced(Inserted(e, s)) == e
  {
    var c := e.cursor;
    var r := Inserted(e, s);
    assert r.text[c + |s|] == 0;
    assert forall j :: c <= j < c + |s| ==> r.text[j] == s[j - c];
    BackStops(r.text, c, c + |s|);
    assert r.text[..c] + r.text[c + |s| + 1..] == e.text;
  }

  /** The backward scan from `i` stops at boundary `c` when no NUL lies between. */
  lemma {:induction false} BackStops(t: seq<byte>, c: nat, i: nat)
    requires c <= i <= |t| && Boundary(t, c)
    requires forall j :: c <= j < i ==> t[j] != 0
    ensures Back(t, i) == c
    decreases i
  {
    if i > c {
      BackStops(t, c, i - 1);
    }
  }

  /** The forward scan from a chunk start `c` finds the NUL at `n` when none lies between. */
  lemma {:induction false} NulFinds(t: seq<byte>, c: nat, n: nat)
    requires c <= n < |t| && Chunked(t) && t[n] == 0
    requires forall j :: c <= j < n ==> t[j] != 0
    ensures NulFrom(t, c) == n
    decreases n - c
  {
    if c < n {
      NulFinds(t, c + 1, n);
    }
  }

  /** `left` undoes `right` whenever `right` moves. */
  lemma LeftUndoesRight(e: Edit)
    requires Good(e) && e.cursor < |e.text|
    ensures Lefted(Righted(e)) == e
  {
    var n := NulFrom(e.text, e.cursor);
    BackStops(e.text, e.cursor, n);
  }

  /** `right` undoes `left` whenever `left` moves. */
  lemma RightUndoesLeft(e: Edit)
    requires Good(e) && e.cursor > 0
    ensures Righted(Lefted(e)) == e
  {
    var b := Back(e.text, e.cursor - 1);
    NulFinds(e.text, b, e.cursor - 1);
  }

  /** `backspace` removes one chunk: the text sent before and after differ by that chunk's text alone. */
  lemma BackspaceSends(e: Edit)
    requires Good(e) && e.cursor > 0
    ensures var r := Backspaced(e);
      Strip(e.text) == Strip(r.text[..r.cursor]) + Strip(e.text[r.cursor..e.cursor]) + Strip(r.text[r.cursor..])
  {
    var r, c := Backspaced(e), e.cursor;
    var b := r.cursor;
    assert r.text[..b] == e.text[..b];
    assert r.text[b..] == e.text[c..];
    assert e.text == e.text[..b] + e.text[b..c] + e.text[c..];
    StripAppend(e.text[..b] + e.text[b..c], e.text[c..]);
    StripAppend(e.text[..b], e.text[b..c]);
  }
}
