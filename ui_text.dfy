/**
 * The inline formatting the frame composer reads in titles and bodies: mIRC
 * colour codes (byte 3), the attribute bytes 1, 2, 15, 18 and 28-31, and the
 * two scans over them, one that measures text (`calcwidth`) and one that
 * draws it (`drawtext`).
 *
 * Terminal output is modelled as the ordered list of calls the composer
 * makes on the terminal grid: `term_move`, `term_write`, `term_clear` and
 * `term_flush`.  Both scans read the C string whose content is `s` (the byte
 * at `|s|` is its terminator) from byte `i` while they are before byte `e`,
 * as the C code reads from `s` while `s < end`.
 */
module UiText {
  import opened Bytes
  import opened Wrappers
  import opened Utf8
  import Terminal
  import Messages

  /** One call on the terminal grid. */
  datatype Op = Move(y: int, x: int) | Write(video: Terminal.Video, text: seq<byte>) | Clear | Flush

  /** `ops` written before whatever `rest` produces; nothing when `rest` is undefined. */
  function Then(ops: seq<Op>, rest: Option<seq<Op>>): Option<seq<Op>>
  {
    if rest.None? then None else Some(ops + rest.value)
  }

  lemma ThenThen(a: seq<Op>, b: seq<Op>, rest: Option<seq<Op>>)
    ensures Then(a, Then(b, rest)) == Then(a + b, rest)
  {
    if rest.Some? {
      AppendAssoc(a, b, rest.value);
    }
  }

  /** `k` columns counted before whatever `rest` counts. */
  function Plus(k: nat, rest: Option<nat>): Option<nat>
  {
    if rest.None? then None else Some(k + rest.value)
  }

  /** Every call is a `term_write`. */
  predicate AllWrites(ops: seq<Op>)
  {
    forall k :: 0 <= k < |ops| ==> ops[k].Write?
  }

  /** The bytes the writes among `ops` put on the grid, in order. */
  function Texts(ops: seq<Op>): seq<byte>
  {
    if ops == [] then [] else (if ops[0].Write? then ops[0].text else []) + Texts(ops[1..])
  }

  // ---------------------------------------------------------------------
  // colorcode

  /** The colour table: mIRC colour `k` is entry `k + 1`; entry 0 is the default sentinel `C_DEFAULT`. */
  const Palette: seq<Terminal.Color> := [
    Terminal.Color(1, 1, 1),
    Terminal.Color(255, 255, 255),
    Terminal.Color(0, 0, 0),
    Terminal.Color(0, 0, 127),
    Terminal.Color(0, 147, 0),
    Terminal.Color(255, 0, 0),
    Terminal.Color(127, 0, 0),
    Terminal.Color(156, 0, 156),
    Terminal.Color(252, 127, 0),
    Terminal.Color(255, 255, 0),
    Terminal.Color(0, 252, 0),
    Terminal.Color(0, 147, 147),
    Terminal.Color(0, 255, 255),
    Terminal.Color(0, 0, 252),
    Terminal.Color(255, 0, 255),
    Terminal.Color(127, 127, 127),
    Terminal.Color(210, 210, 210)
  ]

  /** A colour `colorcode` read and the byte after the code. */
  datatype Coded = Coded(color: Terminal.Color, next: nat)

  /** `#` at `i` is followed by six hexadecimal digits. */
  predicate HexAt(s: seq<byte>, i: nat)
  {
    i + 7 <= |s| && forall j :: i + 1 <= j < i + 7 ==> IsHexDigit(s[j])
  }

  /**
   * `colorcode(&s)` at byte `i`: `#rrggbb` names a colour directly, one or
   * two decimal digits pick entry `(k + 1) % 17` of the table, anything else
   * is `C_DEFAULT` and consumes nothing.  `None` for a `#` that is not
   * followed by six hexadecimal digits, where `sscanf` converts part of the
   * input or nothing (and `n` stays uninitialised).
   */
  function ColorCode(s: seq<byte>, i: nat): (r: Option<Coded>)
    requires i <= |s|
    ensures r.None? <==> At(s, i) == 35 && !HexAt(s, i)
    ensures r.Some? ==> i <= r.value.next <= |s|
  {
    var c := At(s, i);
    if c == 35 then
      if HexAt(s, i) then Some(Coded(Messages.HexColor(s[i + 1..i + 7]), i + 7)) else None
    else if !IsDigit(c) then Some(Coded(Terminal.Default, i))
    else
      var two := IsDigit(At(s, i + 1));
      var k := if two then 10 * (c - 48) + (At(s, i + 1) - 48) else c - 48;
      Some(Coded(Palette[(k + 1) % 17], if two then i + 2 else i + 1))
  }

  /**
   * A decimal code takes its one or two digits and selects the table entry
   * after the number they spell, modulo the 17 entries; a byte that is
   * neither a digit nor `#` gives the default sentinel and is not consumed.
   */
  lemma ColorCodeNumber(s: seq<byte>, i: nat)
    requires i <= |s|
    ensures IsDigit(At(s, i)) ==>
      var m := if IsDigit(At(s, i + 1)) then 2 else 1;
      && i + m <= |s|
      && (forall j :: i <= j < i + m ==> IsDigit(s[j]))
      && ColorCode(s, i) == Some(Coded(Palette[(DigitsValue(s[i..i + m]) + 1) % 17], i + m))
    ensures !IsDigit(At(s, i)) && At(s, i) != 35 ==> ColorCode(s, i) == Some(Coded(Terminal.Default, i))
  {
    if IsDigit(At(s, i)) {
      var d1 := s[i..i + 1];
      assert d1[..0] == [];
      assert DigitsValue(d1) == s[i] - 48;
      if IsDigit(At(s, i + 1)) {
        var d2 := s[i..i + 2];
        assert d2[..1] == d1;
        assert DigitsValue(d2) == 10 * (s[i] - 48) + (s[i + 1] - 48);
      }
    }
  }

  /** mIRC colour 16 and above wraps around the table: 16 is the default sentinel again. */
  lemma ColorCodeWraps(s: seq<byte>, i: nat)
    requires i + 2 <= |s| && s[i] == 49 && s[i + 1] == 54
    ensures ColorCode(s, i) == Some(Coded(Terminal.Default, i + 2))
  {
  }

  /**
   * The codes the message formatter writes, `\003#rrggbb,#rrggbb`, read back
   * as the two colours they were made from, in 16 bytes.
   */
  lemma ColorCodeReadsFormatter(fg: Terminal.Color, bg: Terminal.Color, t: seq<byte>)
    ensures var s := Messages.ColorCode(fg, bg) + t;
      && ColorCode(s, 1) == Some(Coded(fg, 8))
      && s[8] == 44
      && ColorCode(s, 9) == Some(Coded(bg, 16))
  {
    var c := Messages.ColorCode(fg, bg);
    var s := c + t;
    Messages.ColorCodeColors(fg, bg);
    assert s[2..8] == c[2..8] && s[10..16] == c[10..16];
    assert forall j :: 2 <= j < 8 ==> s[j] == c[2..8][j - 2];
    assert forall j :: 10 <= j < 16 ==> s[j] == c[10..16][j - 10];
  }

  // ---------------------------------------------------------------------
  // The scan shared by calcwidth and drawtext

  /** The attribute bytes: they take no columns and only change the video. */
  predicate IsAttr(b: byte)
  {
    b == 1 || b == 2 || b == 15 || b == 18 || 28 <= b <= 31
  }

  /** What one turn of the `switch` reads: an attribute byte, a colour code, or a display unit of some width. */
  datatype Piece = Attr(code: byte) | Paint(fg: Terminal.Color, bg: Option<Terminal.Color>) | Glyph(width: nat)

  /** A piece and the byte after it. */
  datatype Token = Token(piece: Piece, next: nat)

  /**
   * One turn of the loops of `calcwidth` and `drawtext` at byte `i`: an
   * attribute byte, byte 3 with a foreground code and, after a comma, a
   * background code, or the bytes of `utf8_next` (one byte when it takes
   * none) with their width.
   */
  function TokenAt(s: seq<byte>, i: nat, wc: WcWidth): (t: Option<Token>)
    requires i < |s|
    ensures t.Some? ==> i < t.value.next <= |s|
  {
    var b := s[i];
    if IsAttr(b) then Some(Token(Attr(b), i + 1))
    else if b == 3 then
      match ColorCode(s, i + 1)
      case None => None
      case Some(fg) =>
        if At(s, fg.next) == 44 then
          match ColorCode(s, fg.next + 1)
          case None => None
          case Some(bg) => Some(Token(Paint(fg.color, Some(bg.color)), bg.next))
        else Some(Token(Paint(fg.color, None), fg.next))
    else
      var u := NextUnit(s, i, wc);
      Some(Token(Glyph(u.width), i + if u.end == 0 then 1 else u.end))
  }

  /** `TokenAt`, with the `switch` of the C code. */
  method ReadToken(s: seq<byte>, i: nat, wc: WcWidth) returns (t: Option<Token>)
    requires i < |s|
    ensures t == TokenAt(s, i, wc)
  {
    var b := s[i];
    if IsAttr(b) {
      t := Some(Token(Attr(b), i + 1));
    } else if b == 3 {
      var fg := ColorCode(s, i + 1);
      if fg.None? { return None; }
      var p := fg.value.next;
      if At(s, p) == 44 {
        var bg := ColorCode(s, p + 1);
        if bg.None? { return None; }
        t := Some(Token(Paint(fg.value.color, Some(bg.value.color)), bg.value.next));
      } else {
        t := Some(Token(Paint(fg.value.color, None), p));
      }
    } else {
      var n, w := Utf8Next(s, i, wc);
      if n == 0 { n := 1; }
      t := Some(Token(Glyph(w), i + n));
    }
  }

  /** The columns a piece takes. */
  function Spent(p: Piece): nat
  {
    if p.Glyph? then p.width else 0
  }

  // ---------------------------------------------------------------------
  // calcwidth

  /** The loop of `calcwidth` from byte `i` while before byte `e`: the columns counted. */
  function WidthFrom(s: seq<byte>, i: nat, e: nat, wc: WcWidth): Option<nat>
    requires i <= |s| && e <= |s|
    decreases |s| - i
  {
    if i >= e then Some(0)
    else match TokenAt(s, i, wc)
      case None => None
      case Some(t) => Plus(Spent(t.piece), WidthFrom(s, t.next, e, wc))
  }

  /** `calcwidth(s, n)`. */
  method CalcWidth(s: seq<byte>, n: nat, wc: WcWidth) returns (r: Option<nat>)
    requires n <= |s|
    ensures r == WidthFrom(s, 0, n, wc)
  {
    var p: nat, width: nat := 0, 0;
    while p < n
      invariant p <= |s|
      invariant WidthFrom(s, 0, n, wc) == Plus(width, WidthFrom(s, p, n, wc))
      decreases |s| - p
    {
      var t := ReadToken(s, p, wc);
      if t.None? { return None; }
      WidthTurn(s, p, n, wc, width);
      if t.value.piece.Glyph? {
        width := width + t.value.piece.width;
      }
      p := t.value.next;
    }
    return Some(width);
  }

  /** One turn of the loop of `calcwidth` over a piece it reads. */
  lemma WidthTurn(s: seq<byte>, p: nat, n: nat, wc: WcWidth, width: nat)
    requires p < n <= |s| && TokenAt(s, p, wc).Some?
    ensures var t := TokenAt(s, p, wc).value;
      Plus(width, WidthFrom(s, p, n, wc)) == Plus(width + Spent(t.piece), WidthFrom(s, t.next, n, wc))
  {
    var t := TokenAt(s, p, wc).value;
    assert WidthFrom(s, p, n, wc) == Plus(Spent(t.piece), WidthFrom(s, t.next, n, wc));
  }

  /** `next_utf8` reads no further than the terminator, so a bound of 16 and one at the end of the string agree. */
  lemma DecodeToEnd(s: seq<byte>, i: nat)
    requires i < |s|
    ensures Decode(s, i, 16) == Decode(s, i, |s| - i)
  {
    var n := LeadLength(At(s, i));
    if n > 1 && |s| - i < n {
      assert Missing(s, i + n - 1);
      assert Cut(s, i, n);
    }
  }

  /**
   * The columns of the code points `utf8_next` groups from byte `i` (when
   * `w` of them are already counted) are the `utf8_width` of those bytes.
   */
  lemma {:induction false} NextWidthSum(s: seq<byte>, i: nat, w: nat, wc: WcWidth)
    requires i <= |s| && w <= 2
    ensures var r := NextFrom(s, i, w, wc);
      Width(s, i, |s|, wc) == (r.width - w) + Width(s, r.end, |s|, wc)
    decreases |s| - i
  {
    if !StopsAt(s, i, w, wc) {
      var d := Decode(s, i, 16);
      DecodeToEnd(s, i);
      NextWidthSum(s, i + d.len, w + wc(d.cp), wc);
    }
  }

  /** A unit of `utf8_next` that is empty stands in front of a byte `utf8_width` skips. */
  lemma StopSkips(s: seq<byte>, i: nat, wc: WcWidth)
    requires i < |s| && StopsAt(s, i, 0, wc)
    ensures Scan(s, i, |s| - i, wc).Skip?
  {
    DecodeToEnd(s, i);
  }

  /**
   * Without colour codes, `calcwidth` to the end of the string counts the
   * columns `utf8_width` counts: attribute bytes are controls, which both
   * skip, and the units of `utf8_next` add up the same code points.
   */
  lemma {:induction false} CalcWidthAgrees(s: seq<byte>, i: nat, wc: WcWidth)
    requires i <= |s|
    requires forall k :: i <= k < |s| ==> s[k] != 3
    ensures WidthFrom(s, i, |s|, wc) == Some(Width(s, i, |s|, wc))
    decreases |s| - i
  {
    if i < |s| {
      var t := TokenAt(s, i, wc).value;
      CalcWidthAgrees(s, t.next, wc);
      TokenWidth(s, i, wc);
    }
  }

  /** One piece that is not a colour code spans as many columns of `utf8_width` as it counts. */
  lemma TokenWidth(s: seq<byte>, i: nat, wc: WcWidth)
    requires i < |s| && s[i] != 3
    ensures TokenAt(s, i, wc).Some?
    ensures var t := TokenAt(s, i, wc).value;
      Width(s, i, |s|, wc) == Spent(t.piece) + Width(s, t.next, |s|, wc)
  {
    if IsAttr(s[i]) {
      DecodeToEnd(s, i);
      assert Scan(s, i, |s| - i, wc).Skip?;
    } else {
      NextStops(s, i, 0, wc);
      NextWidthSum(s, i, 0, wc);
      if NextUnit(s, i, wc).end == 0 {
        StopSkips(s, i, wc);
      }
    }
  }

  /** A colour code of the message formatter takes no columns. */
  lemma WidthSkipsFormatterCode(fg: Terminal.Color, bg: Terminal.Color, pre: seq<byte>, t: seq<byte>, e: nat, wc: WcWidth)
    requires var s := pre + Messages.ColorCode(fg, bg) + t; |pre| < e <= |s|
    ensures var s := pre + Messages.ColorCode(fg, bg) + t;
      WidthFrom(s, |pre|, e, wc) == WidthFrom(s, |pre| + 16, e, wc)
  {
    FormatterCodeToken(fg, bg, pre, t, wc);
  }

  // ---------------------------------------------------------------------
  // drawtext

  /** The video after one piece, with `dv` the video `drawtext` started with. */
  function Restyled(p: Piece, dv: Terminal.Video, v: Terminal.Video): Terminal.Video
  {
    match p
    case Attr(b) =>
      if b == 1 then v.(bold := false)
      else if b == 2 then v.(bold := true)
      else if b == 15 then dv
      else if b == 18 then v.(reverse := true)
      else if b == 28 then v.(italic := false)
      else if b == 29 then v.(italic := true)
      else if b == 30 then v.(underline := false)
      else if b == 31 then v.(underline := true)
      else v
    case Paint(fg, bg) =>
      var c := if bg.Some? then bg.value else dv.bg;
      v.(fg := fg, bg := if c == Terminal.Default then dv.bg else c)
    case Glyph(_) => v
  }

  /**
   * The loop of `drawtext` from byte `i` while before byte `e`, with `dv`
   * the starting video and `v` the current one: the `term_write` of every
   * display unit, in the video in force.
   */
  function DrawFrom(s: seq<byte>, i: nat, e: nat, dv: Terminal.Video, v: Terminal.Video, wc: WcWidth): Option<seq<Op>>
    requires i <= |s| && e <= |s|
    decreases |s| - i
  {
    if i >= e then Some([])
    else match TokenAt(s, i, wc)
      case None => None
      case Some(t) =>
        var rest := DrawFrom(s, t.next, e, dv, Restyled(t.piece, dv, v), wc);
        if t.piece.Glyph? then Then([Write(v, s[i..t.next])], rest) else rest
  }

  /** `drawtext(s, n, v)`. */
  method DrawText(s: seq<byte>, n: nat, v: Terminal.Video, wc: WcWidth) returns (r: Option<seq<Op>>)
    requires n <= |s|
    ensures r == DrawFrom(s, 0, n, v, v, wc)
  {
    var dv, cur := v, v;
    var p := 0;
    var ops: seq<Op> := [];
    if DrawFrom(s, 0, n, dv, dv, wc).Some? {
      assert ops + DrawFrom(s, 0, n, dv, dv, wc).value == DrawFrom(s, 0, n, dv, dv, wc).value;
    }
    while p < n
      invariant p <= |s|
      invariant DrawFrom(s, 0, n, dv, dv, wc) == Then(ops, DrawFrom(s, p, n, dv, cur, wc))
      decreases |s| - p
    {
      var t := ReadToken(s, p, wc);
      if t.None? { return None; }
      var next := t.value.next;
      ghost var v', rest := Restyled(t.value.piece, dv, cur), DrawFrom(s, next, n, dv, Restyled(t.value.piece, dv, cur), wc);
      ThenThen(ops, [Write(cur, s[p..next])], rest);
      match t.value.piece {
      case Attr(b) =>
        if b == 1 { cur := cur.(bold := false); }
        else if b == 2 { cur := cur.(bold := true); }
        else if b == 15 { cur := dv; }
        else if b == 18 { cur := cur.(reverse := true); }
        else if b == 28 { cur := cur.(italic := false); }
        else if b == 29 { cur := cur.(italic := true); }
        else if b == 30 { cur := cur.(underline := false); }
        else if b == 31 { cur := cur.(underline := true); }
      case Paint(fg, bg) =>
        var c := if bg.Some? then bg.value else dv.bg;
        if c == Terminal.Default { c := dv.bg; }
        cur := cur.(fg := fg, bg := c);
      case Glyph(_) =>
        ops := ops + [Write(cur, s[p..next])];
      }
      assert cur == v';
      p := next;
    }
    assert ops + [] == ops;
    return Some(ops);
  }

  /** `drawtext` only writes. */
  lemma {:induction false} DrawWrites(s: seq<byte>, i: nat, e: nat, dv: Terminal.Video, v: Terminal.Video, wc: WcWidth)
    requires i <= |s| && e <= |s|
    ensures var r := DrawFrom(s, i, e, dv, v, wc); r.Some? ==> AllWrites(r.value)
    decreases |s| - i
  {
    if i < e && TokenAt(s, i, wc).Some? {
      var t := TokenAt(s, i, wc).value;
      DrawWrites(s, t.next, e, dv, Restyled(t.piece, dv, v), wc);
    }
  }

  /**
   * The default sentinel never reaches the grid as a background that a code
   * chose: every write's background is the starting one or a real colour.
   */
  lemma {:induction false} SentinelBackground(s: seq<byte>, i: nat, e: nat, dv: Terminal.Video, v: Terminal.Video, wc: WcWidth)
    requires i <= |s| && e <= |s|
    requires v.bg == dv.bg || v.bg != Terminal.Default
    ensures var r := DrawFrom(s, i, e, dv, v, wc);
      r.Some? ==> forall k :: 0 <= k < |r.value| && r.value[k].Write? ==>
        r.value[k].video.bg == dv.bg || r.value[k].video.bg != Terminal.Default
    decreases |s| - i
  {
    if i < e && TokenAt(s, i, wc).Some? {
      var t := TokenAt(s, i, wc).value;
      SentinelBackground(s, t.next, e, dv, Restyled(t.piece, dv, v), wc);
      var rest := DrawFrom(s, t.next, e, dv, Restyled(t.piece, dv, v), wc);
      if rest.Some? && t.piece.Glyph? {
        var r := [Write(v, s[i..t.next])] + rest.value;
        assert forall k :: 1 <= k < |r| ==> r[k] == rest.value[k - 1];
      }
    }
  }

  /** The four one-bit attributes of a video. */
  datatype Style = Bold | Italic | Underline | Reverse

  function On(v: Terminal.Video, st: Style): bool
  {
    match st
    case Bold => v.bold
    case Italic => v.italic
    case Underline => v.underline
    case Reverse => v.reverse
  }

  /** The byte that sets (`on`) or clears (`!on`) an attribute: 2/1 bold, 29/28 italic, 31/30 underline, 18 reverse (nothing clears it but 15). */
  predicate Turns(b: byte, st: Style, on: bool)
  {
    match st
    case Bold => b == (if on then 2 else 1)
    case Italic => b == (if on then 29 else 28)
    case Underline => b == (if on then 31 else 30)
    case Reverse => on && b == 18
  }

  /**
   * An attribute keeps its state on every write until a byte turns it the
   * other way, or byte 15 restores a starting video in which it differs.
   */
  lemma {:induction false} StyleKept(s: seq<byte>, i: nat, e: nat, dv: Terminal.Video, v: Terminal.Video, st: Style, on: bool, wc: WcWidth)
    requires i <= |s| && e <= |s|
    requires On(v, st) == on
    requires forall k :: i <= k < |s| ==> !Turns(s[k], st, !on)
    requires On(dv, st) == on || forall k :: i <= k < |s| ==> s[k] != 15
    ensures var r := DrawFrom(s, i, e, dv, v, wc);
      r.Some? ==> forall k :: 0 <= k < |r.value| && r.value[k].Write? ==> On(r.value[k].video, st) == on
    decreases |s| - i
  {
    if i < e && TokenAt(s, i, wc).Some? {
      var t := TokenAt(s, i, wc).value;
      RestyleKeeps(s, i, dv, v, st, on, wc);
      StyleKept(s, t.next, e, dv, Restyled(t.piece, dv, v), st, on, wc);
      var rest := DrawFrom(s, t.next, e, dv, Restyled(t.piece, dv, v), wc);
      if rest.Some? && t.piece.Glyph? {
        var r := [Write(v, s[i..t.next])] + rest.value;
        assert forall k :: 1 <= k < |r| ==> r[k] == rest.value[k - 1];
      }
    }
  }

  /** One piece keeps an attribute unless it is the byte that turns it, or byte 15 with a starting video that differs. */
  lemma RestyleKeeps(s: seq<byte>, i: nat, dv: Terminal.Video, v: Terminal.Video, st: Style, on: bool, wc: WcWidth)
    requires i < |s| && TokenAt(s, i, wc).Some?
    requires On(v, st) == on && !Turns(s[i], st, !on) && (On(dv, st) == on || s[i] != 15)
    ensures On(Restyled(TokenAt(s, i, wc).value.piece, dv, v), st) == on
  {
  }

  /** Text without attribute bytes or colour codes: the start of the scan from `i`, and the bytes of `s[i..]` it covers. */
  predicate Inert(s: seq<byte>, i: nat)
    requires i <= |s|
  {
    forall k :: i <= k < |s| ==> !IsAttr(s[k]) && s[k] != 3
  }

  /**
   * Text without attribute bytes or colour codes is drawn to its end in the
   * video `drawtext` was given, and its bytes are handed to `term_write` unchanged.
   */
  lemma {:induction false} DrawPlain(s: seq<byte>, i: nat, dv: Terminal.Video, v: Terminal.Video, wc: WcWidth)
    requires i <= |s| && Inert(s, i)
    ensures var r := DrawFrom(s, i, |s|, dv, v, wc);
      && r.Some?
      && Texts(r.value) == s[i..]
      && forall k :: 0 <= k < |r.value| && r.value[k].Write? ==> r.value[k].video == v
    decreases |s| - i
  {
    if i < |s| {
      var t := TokenAt(s, i, wc).value;
      DrawPlain(s, t.next, dv, v, wc);
      var rest := DrawFrom(s, t.next, |s|, dv, v, wc).value;
      var ops := [Write(v, s[i..t.next])] + rest;
      assert ops[1..] == rest;
      assert s[i..] == s[i..t.next] + s[t.next..];
    }
  }

  /**
   * A tab, which `utf8_next` does not take, is drawn as the one-byte fallback:
   * the first call is `term_write` of the tab alone, a string `term_write`
   * never finishes.
   */
  lemma TabFallbackSpins(v: Terminal.Video, size: int, row: int, x: int, wc: WcWidth)
    ensures TokenAt([9, 97], 0, wc) == Some(Token(Glyph(0), 1))
    ensures var r := DrawFrom([9, 97], 0, 2, v, v, wc); r.Some? && r.value[0] == Write(v, [9])
    ensures !Terminal.Writable(size, row, x, [9], 0, wc)
  {
    var s: seq<byte> := [9, 97];
    assert NextUnit(s, 0, wc).end == 0;
    assert NextUnit([9], 0, wc).end == 0;
    assert s[0..1] == [9];
  }

  /** A formatter colour code at `|pre|` is read as one colour piece with the two colours it names. */
  lemma FormatterCodeToken(fg: Terminal.Color, bg: Terminal.Color, pre: seq<byte>, t: seq<byte>, wc: WcWidth)
    ensures var s := pre + Messages.ColorCode(fg, bg) + t;
      TokenAt(s, |pre|, wc) == Some(Token(Paint(fg, Some(bg)), |pre| + 16))
  {
    var c := Messages.ColorCode(fg, bg);
    var s := pre + c + t;
    ColorCodeReadsFormatter(fg, bg, t);
    ColorCodeShift(pre, c + t, 1);
    ColorCodeShift(pre, c + t, 9);
    assert s == pre + (c + t);
    assert s[|pre|] == 3 && s[|pre| + 8] == 44;
  }

  /** `colorcode` reads only the bytes from `j` on. */
  lemma ColorCodeShift(pre: seq<byte>, s: seq<byte>, j: nat)
    requires j <= |s|
    ensures var r := ColorCode(pre + s, |pre| + j);
      r == (if ColorCode(s, j).None? then None else Some(Coded(ColorCode(s, j).value.color, |pre| + ColorCode(s, j).value.next)))
  {
    var u, i := pre + s, |pre| + j;
    var c := At(s, j);
    assert At(u, i) == c;
    if c == 35 {
      HexShift(pre, s, j);
      if HexAt(s, j) {
        assert u[i + 1..i + 7] == s[j + 1..j + 7];
      }
    } else if IsDigit(c) {
      assert At(u, i + 1) == At(s, j + 1);
    }
  }

  /** Six hexadecimal digits after `#` stay so behind a prefix. */
  lemma HexShift(pre: seq<byte>, s: seq<byte>, j: nat)
    requires j <= |s|
    ensures HexAt(pre + s, |pre| + j) == HexAt(s, j)
  {
    var u := pre + s;
    assert forall k :: j + 1 <= k < j + 7 && k < |s| ==> u[|pre| + k] == s[k];
    if HexAt(s, j) {
      assert forall k :: |pre| + j + 1 <= k < |pre| + j + 7 ==> u[k] == s[k - |pre|];
    }
  }

  /**
   * A colour code of the message formatter switches the video to the two
   * colours it names (the default sentinel background to the starting one)
   * and draws nothing itself.
   */
  lemma DrawFormatterCode(fg: Terminal.Color, bg: Terminal.Color, pre: seq<byte>, t: seq<byte>, e: nat, dv: Terminal.Video, v: Terminal.Video, wc: WcWidth)
    requires var s := pre + Messages.ColorCode(fg, bg) + t; |pre| < e <= |s|
    ensures var s := pre + Messages.ColorCode(fg, bg) + t;
      DrawFrom(s, |pre|, e, dv, v, wc)
        == DrawFrom(s, |pre| + 16, e, dv, v.(fg := fg, bg := if bg == Terminal.Default then dv.bg else bg), wc)
  {
    FormatterCodeToken(fg, bg, pre, t, wc);
  }
}
