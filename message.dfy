/**
 * Messages: the markup formatter that turns a format string and its
 * arguments into text with attribute and colour control bytes, the message
 * record that stores a formatted title and body, and the sanitiser that strips
 * the control bytes again when a message is logged.
 *
 * Markup: `*`, `/` and `_` toggle bold, italic and underline; `^` and `$`
 * toggle an explicit foreground and background colour, taking a colour
 * argument when switched on; `%` inserts a string argument; `\` escapes the
 * next byte.  Arguments are consumed from one list shared by title and body,
 * as the C code passes one `va_list` to both calls of `fmt`.
 */
module Messages {
  import opened Bytes
  import opened Wrappers
  import Terminal

  /** One variadic argument: a `Color` for `^`/`$`, or a `char const *` (possibly NULL) for `%`. */
  datatype Arg = Paint(color: Terminal.Color) | Text(text: Option<seq<byte>>)

  /** The bytes `%` copies for a string argument: NULL reads as the empty string. */
  function TextOf(a: Arg): seq<byte>
    requires a.Text?
  {
    if a.text.None? then [] else a.text.value
  }

  /** The toggles and current colours `fmt` keeps while it scans. */
  datatype Marks = Marks(bold: bool, italic: bool, underline: bool, fg: bool, bg: bool, fgc: Terminal.Color, bgc: Terminal.Color)

  /** The state at the start of every format string. */
  const Start := Marks(false, false, false, false, false, Terminal.Default, Terminal.Default)

  /** `%02x%02x%02x` of a colour's red, green and blue. */
  function RgbHex(c: Terminal.Color): (r: seq<byte>)
    ensures |r| == 6 && forall j :: 0 <= j < 6 ==> IsHexDigit(r[j])
  {
    Hex2(c.r) + Hex2(c.g) + Hex2(c.b)
  }

  /** The colour six hexadecimal digits name. */
  function HexColor(r: seq<byte>): Terminal.Color
    requires |r| == 6 && forall j :: 0 <= j < 6 ==> IsHexDigit(r[j])
  {
    Terminal.Color(HexValue(r[0]) * 16 + HexValue(r[1]), HexValue(r[2]) * 16 + HexValue(r[3]), HexValue(r[4]) * 16 + HexValue(r[5]))
  }

  /** Reading back the digits of a colour gives the colour. */
  lemma HexColorOf(c: Terminal.Color)
    ensures HexColor(RgbHex(c)) == c
  {
    var r := RgbHex(c);
    assert r[0..2] == Hex2(c.r) && r[2..4] == Hex2(c.g) && r[4..6] == Hex2(c.b);
  }

  /** `color(dst, fg, bg)`: `\003#rrggbb,#rrggbb` in lower-case hexadecimal. */
  function ColorCode(fg: Terminal.Color, bg: Terminal.Color): (r: seq<byte>)
    ensures |r| == 16 && r[0] == 3 && r[1] == 35 && r[8] == 44 && r[9] == 35 && NoNul(r)
    ensures r[2..8] == RgbHex(fg) && r[10..16] == RgbHex(bg)
  {
    [3, 35] + RgbHex(fg) + [44, 35] + RgbHex(bg)
  }

  /** A colour code names its two colours: reading back its two groups of hex digits gives them. */
  lemma ColorCodeColors(fg: Terminal.Color, bg: Terminal.Color)
    ensures HexColor(ColorCode(fg, bg)[2..8]) == fg && HexColor(ColorCode(fg, bg)[10..16]) == bg
  {
    HexColorOf(fg);
    HexColorOf(bg);
  }

  /** `bytes` output before whatever `rest` produces; nothing when `rest` is undefined. */
  function Then(bytes: seq<byte>, rest: Option<(seq<byte>, nat)>): Option<(seq<byte>, nat)>
  {
    if rest.None? then None else Some((bytes + rest.value.0, rest.value.1))
  }

  lemma ThenNil(rest: Option<(seq<byte>, nat)>)
    ensures Then([], rest) == rest
  {
    if rest.Some? {
      assert [] + rest.value.0 == rest.value.0;
    }
  }

  lemma ThenThen(a: seq<byte>, b: seq<byte>, rest: Option<(seq<byte>, nat)>)
    ensures Then(a, Then(b, rest)) == Then(a + b, rest)
  {
    if rest.Some? {
      AppendAssoc(a, b, rest.value.0);
    }
  }

  /** What one directive writes, where the scan goes on, the new state and the next unused argument. */
  datatype Step = Step(out: seq<byte>, next: nat, marks: Marks, arg: nat)

  /**
   * One turn of `fmt`'s loop at format byte `i`, in state `m`, with the next
   * unused argument at `k`.  `None` where the C code is undefined: a `\` that
   * escapes the terminator, an argument that is missing or of the other type.
   */
  function Directive(f: seq<byte>, i: nat, m: Marks, args: seq<Arg>, k: nat): (d: Option<Step>)
    requires i < |f|
    ensures d.Some? ==> i < d.value.next <= |f|
  {
    var c := f[i];
    if c == 92 then
      if i + 1 < |f| then Some(Step([f[i + 1]], i + 2, m, k)) else None
    else if c == 42 then Some(Step([if m.bold then 1 else 2], i + 1, m.(bold := !m.bold), k))
    else if c == 47 then Some(Step([if m.italic then 28 else 29], i + 1, m.(italic := !m.italic), k))
    else if c == 95 then Some(Step([if m.underline then 30 else 31], i + 1, m.(underline := !m.underline), k))
    else if c == 94 then
      if m.fg then
        var m' := m.(fg := false, fgc := Terminal.Default);
        Some(Step(ColorCode(m'.fgc, m'.bgc), i + 1, m', k))
      else if k < |args| && args[k].Paint? then
        var m' := m.(fg := true, fgc := args[k].color);
        Some(Step(ColorCode(m'.fgc, m'.bgc), i + 1, m', k + 1))
      else None
    else if c == 36 then
      if m.bg then
        var m' := m.(bg := false, bgc := Terminal.Default);
        Some(Step(ColorCode(m'.fgc, m'.bgc), i + 1, m', k))
      else if k < |args| && args[k].Paint? then
        var m' := m.(bg := true, bgc := args[k].color);
        Some(Step(ColorCode(m'.fgc, m'.bgc), i + 1, m', k + 1))
      else None
    else if c == 37 then
      if k < |args| && args[k].Text? then Some(Step(TextOf(args[k]), i + 1, m, k + 1)) else None
    else Some(Step([c], i + 1, m, k))
  }

  /**
   * What `fmt` writes for the format bytes from `i` on, before the
   * terminator: the bytes and the index of the next unused argument.
   */
  function Format(f: seq<byte>, i: nat, m: Marks, args: seq<Arg>, k: nat): Option<(seq<byte>, nat)>
    requires i <= |f|
    decreases |f| - i
  {
    if i == |f| then Some(([], k))
    else
      var d := Directive(f, i, m, args, k);
      if d.None? then None else Then(d.value.out, Format(f, d.value.next, d.value.marks, args, d.value.arg))
  }

  /** What a reader sees of one directive: the visible bytes, where the scan goes on, the colour toggles and the next argument. */
  datatype Seen = Seen(out: seq<byte>, next: nat, fg: bool, bg: bool, arg: nat)

  /** The visible effect of the directive at `i`: markup shows nothing, escaped and literal bytes and string arguments show themselves. */
  function Shown(f: seq<byte>, i: nat, fg: bool, bg: bool, args: seq<Arg>, k: nat): Option<Seen>
    requires i < |f|
  {
    var c := f[i];
    if c == 92 then
      if i + 1 < |f| then Some(Seen([f[i + 1]], i + 2, fg, bg, k)) else None
    else if c == 42 || c == 47 || c == 95 then Some(Seen([], i + 1, fg, bg, k))
    else if c == 94 then
      if fg then Some(Seen([], i + 1, false, bg, k))
      else if k < |args| && args[k].Paint? then Some(Seen([], i + 1, true, bg, k + 1))
      else None
    else if c == 36 then
      if bg then Some(Seen([], i + 1, fg, false, k))
      else if k < |args| && args[k].Paint? then Some(Seen([], i + 1, fg, true, k + 1))
      else None
    else if c == 37 then
      if k < |args| && args[k].Text? then Some(Seen(TextOf(args[k]), i + 1, fg, bg, k + 1)) else None
    else Some(Seen([c], i + 1, fg, bg, k))
  }

  /** The text a reader of the formatted string sees, and the index of the next unused argument. */
  function Visible(f: seq<byte>, i: nat, fg: bool, bg: bool, args: seq<Arg>, k: nat): Option<(seq<byte>, nat)>
    requires i <= |f|
    decreases |f| - i
  {
    if i == |f| then Some(([], k))
    else
      var v := Shown(f, i, fg, bg, args, k);
      if v.None? || v.value.next <= i || v.value.next > |f| then None
      else Then(v.value.out, Visible(f, v.value.next, v.value.fg, v.value.bg, args, v.value.arg))
  }

  /** The bytes the sanitiser removes by themselves: the attribute toggles. */
  predicate Toggle(b: byte)
  {
    b == 1 || b == 2 || (28 <= b <= 31)
  }

  /** A byte that is plain text to the sanitiser and to the terminal: not NUL, a toggle or a colour introducer. */
  predicate Plain(b: byte)
  {
    b != 0 && b != 3 && !Toggle(b)
  }

  /** Every byte of `s` is plain. */
  predicate AllPlain(s: seq<byte>)
  {
    forall j :: 0 <= j < |s| ==> Plain(s[j])
  }

  /** Every string argument holds only plain bytes. */
  predicate PlainArgs(args: seq<Arg>)
  {
    forall j :: 0 <= j < |args| && args[j].Text? ==> AllPlain(TextOf(args[j]))
  }

  /** Every string argument is a C string: it holds no NUL. */
  predicate StringArgs(args: seq<Arg>)
  {
    forall j :: 0 <= j < |args| && args[j].Text? ==> NoNul(TextOf(args[j]))
  }

  /** One directive writes no NUL when the format and the string arguments hold none. */
  lemma DirectiveNoNul(f: seq<byte>, i: nat, m: Marks, args: seq<Arg>, k: nat)
    requires i < |f| && NoNul(f) && StringArgs(args) && Directive(f, i, m, args, k).Some?
    ensures NoNul(Directive(f, i, m, args, k).value.out)
  {
  }

  /**
   * Everything `fmt` writes is free of NUL when the format and string
   * arguments are, so the title and body it writes read back as C strings.
   */
  lemma {:induction false} FormatNoNul(f: seq<byte>, i: nat, m: Marks, args: seq<Arg>, k: nat)
    requires i <= |f| && NoNul(f) && StringArgs(args) && Format(f, i, m, args, k).Some?
    ensures NoNul(Format(f, i, m, args, k).value.0)
    decreases |f| - i
  {
    if i < |f| {
      var d := Directive(f, i, m, args, k).value;
      DirectiveNoNul(f, i, m, args, k);
      FormatNoNul(f, d.next, d.marks, args, d.arg);
    }
  }

  /** One directive taken off the front of the rest of the format. */
  lemma FormatStep(f: seq<byte>, i: nat, m: Marks, args: seq<Arg>, k: nat, w: seq<byte>)
    requires i < |f| && Then(w, Format(f, i, m, args, k)).Some?
    ensures Directive(f, i, m, args, k).Some?
    ensures var d := Directive(f, i, m, args, k).value;
      Then(w, Format(f, i, m, args, k)) == Then(w + d.out, Format(f, d.next, d.marks, args, d.arg))
  {
    var d := Directive(f, i, m, args, k).value;
    ThenThen(w, d.out, Format(f, d.next, d.marks, args, d.arg));
  }

  /**
   * `fmt(dst, fmt, ap)`: the bytes written at `dst`, terminator included (so
   * `|w|` is the count `fmt` returns), and the index of the next unused
   * argument.
   */
  method Fmt(f: seq<byte>, args: seq<Arg>, k0: nat) returns (w: seq<byte>, k: nat)
    requires Format(f, 0, Start, args, k0).Some?
    ensures w == Format(f, 0, Start, args, k0).value.0 + [0]
    ensures k == Format(f, 0, Start, args, k0).value.1
  {
    var bold, italic, underline, fg, bg := false, false, false, false, false;
    var fgc, bgc := Terminal.Default, Terminal.Default;
    var i := 0;
    w, k := [], k0;
    ThenNil(Format(f, 0, Start, args, k0));
    while i < |f|
      invariant i <= |f|
      invariant Format(f, 0, Start, args, k0) == Then(w, Format(f, i, Marks(bold, italic, underline, fg, bg, fgc, bgc), args, k))
      decreases |f| - i
    {
      ghost var i0, m0, k1 := i, Marks(bold, italic, underline, fg, bg, fgc, bgc), k;
      FormatStep(f, i0, m0, args, k1, w);
      var c, e := f[i], [];
      i := i + 1;
      if c == 92 {
        e := [f[i]];
        i := i + 1;
      } else if c == 42 {
        bold := !bold;
        e := [if bold then 2 else 1];
      } else if c == 47 {
        italic := !italic;
        e := [if italic then 29 else 28];
      } else if c == 95 {
        underline := !underline;
        e := [if underline then 31 else 30];
      } else if c == 94 {
        fg := !fg;
        if fg {
          fgc := args[k].color;
          k := k + 1;
        } else {
          fgc := Terminal.Default;
        }
        e := ColorCode(fgc, bgc);
      } else if c == 36 {
        bg := !bg;
        if bg {
          bgc := args[k].color;
          k := k + 1;
        } else {
          bgc := Terminal.Default;
        }
        e := ColorCode(fgc, bgc);
      } else if c == 37 {
        e := TextOf(args[k]);
        k := k + 1;
      } else {
        e := [c];
      }
      assert Directive(f, i0, m0, args, k1) == Some(Step(e, i, Marks(bold, italic, underline, fg, bg, fgc, bgc), k));
      w := w + e;
    }
    w := w + [0];
  }

  /** A stored message: its bytes, title at 0 and body at `body`, each NUL-terminated. */
  datatype Message = Message(important: bool, data: seq<byte>, body: nat)

  /** The C string that starts at `i`: the bytes up to the first NUL. */
  function CString(s: seq<byte>, i: nat): seq<byte>
    requires i <= |s|
    decreases |s| - i
  {
    if i == |s| || s[i] == 0 then [] else [s[i]] + CString(s, i + 1)
  }

  /** Reading a C string back from `a + [0] + b` at `|a|`-shifted positions gives the NUL-free `a`. */
  lemma {:induction false} CStringOf(pre: seq<byte>, a: seq<byte>, rest: seq<byte>, j: nat)
    requires NoNul(a) && j <= |a|
    ensures CString(pre + a + [0] + rest, |pre| + j) == a[j..]
    decreases |a| - j
  {
    var s := pre + a + [0] + rest;
    if j < |a| {
      CStringOf(pre, a, rest, j + 1);
      assert s[|pre| + j] == a[j];
      assert a[j..] == [a[j]] + a[j + 1..];
    } else {
      assert s[|pre| + j] == 0;
    }
  }

  /** Two NUL-free strings stored one after the other, each with its terminator, read back as they were. */
  lemma CStringPair(t: seq<byte>, b: seq<byte>)
    requires NoNul(t) && NoNul(b)
    ensures CString(t + [0] + (b + [0]), 0) == t
    ensures CString(t + [0] + (b + [0]), |t + [0]|) == b
  {
    CStringOf([], t, b + [0], 0);
    assert [] + t + [0] + (b + [0]) == t + [0] + (b + [0]);
    CStringOf(t + [0], b, [], 0);
    assert t + [0] + b + [0] + [] == t + [0] + (b + [0]);
  }

  /** The size of the static buffer both format strings are written into. */
  const BufferSize := 0x1_0000

  /**
   * `msg(tfmt, bfmt, ...)`: format the title and then the body, with the
   * arguments the title leaves, and store both.  The time stamp is left out.
   */
  method Msg(tf: seq<byte>, bf: seq<byte>, args: seq<Arg>) returns (r: Message)
    requires NoNul(tf) && NoNul(bf) && StringArgs(args)
    requires Format(tf, 0, Start, args, 0).Some?
    requires Format(bf, 0, Start, args, Format(tf, 0, Start, args, 0).value.1).Some?
    requires |Format(tf, 0, Start, args, 0).value.0| + |Format(bf, 0, Start, args, Format(tf, 0, Start, args, 0).value.1).value.0| + 2 <= BufferSize
    ensures !r.important && r.body <= |r.data|
    ensures CString(r.data, 0) == Format(tf, 0, Start, args, 0).value.0
    ensures CString(r.data, r.body) == Format(bf, 0, Start, args, Format(tf, 0, Start, args, 0).value.1).value.0
    ensures |r.data| == r.body + |CString(r.data, r.body)| + 1
  {
    var tw, k := Fmt(tf, args, 0);
    var bw, _ := Fmt(bf, args, k);
    ghost var t, b := Format(tf, 0, Start, args, 0).value.0, Format(bf, 0, Start, args, k).value.0;
    FormatNoNul(tf, 0, Start, args, 0);
    FormatNoNul(bf, 0, Start, args, k);
    r := Message(false, tw + bw, |tw|);
    CStringPair(t, b);
  }

  /**
   * What `write_sanitized` writes for the C string `s` from index `i` on:
   * toggles are dropped, a `\003#` colour code is skipped whole (16 bytes),
   * and any other `\003` is skipped with up to two digits, a comma and up to
   * two more digits.  `None` where a `#` code would run past the terminator.
   */
  function Sanitize(s: seq<byte>, i: nat): Option<seq<byte>>
    requires i <= |s|
    decreases |s| - i
  {
    if i == |s| then Some([])
    else if Toggle(s[i]) then Sanitize(s, i + 1)
    else if s[i] == 3 then
      if At(s, i + 1) == 35 then
        if i + 16 <= |s| then Sanitize(s, i + 16) else None
      else Sanitize(s, MircEnd(s, i) + 1)
    else if Sanitize(s, i + 1).None? then None
    else Some([s[i]] + Sanitize(s, i + 1).value)
  }

  /** The position one of `++c` leaves `c` at when the next byte satisfies the test. */
  function SkipIf(s: seq<byte>, p: nat, ok: bool): (q: nat)
    requires p < |s|
    ensures p <= q < |s|
  {
    if ok && p + 1 < |s| then p + 1 else p
  }

  /** Where the `\003` at `i` of an mIRC colour ends: after up to two digits, a comma and up to two digits. */
  function MircEnd(s: seq<byte>, i: nat): (e: nat)
    requires i < |s|
    ensures i <= e < |s|
  {
    var p1 := SkipIf(s, i, i + 1 < |s| && IsDigit(s[i + 1]));
    var p2 := SkipIf(s, p1, p1 + 1 < |s| && IsDigit(s[p1 + 1]));
    var p3 := SkipIf(s, p2, p2 + 1 < |s| && s[p2 + 1] == 44);
    var p4 := SkipIf(s, p3, p3 + 1 < |s| && IsDigit(s[p3 + 1]));
    SkipIf(s, p4, p4 + 1 < |s| && IsDigit(s[p4 + 1]))
  }

  /** `write_sanitized(s, f)`: the bytes it passes to `fputc`, in order. */
  method WriteSanitized(s: seq<byte>) returns (out: seq<byte>)
    requires NoNul(s) && Sanitize(s, 0).Some?
    ensures Sanitize(s, 0) == Some(out)
  {
    out := [];
    var c := 0;
    assert [] + Sanitize(s, 0).value == Sanitize(s, 0).value;
    while c < |s|
      invariant c <= |s| && Sanitize(s, c).Some?
      invariant Sanitize(s, 0) == Some(out + Sanitize(s, c).value)
      decreases |s| - c
    {
      ghost var c0 := c;
      var b := s[c];
      if b == 1 || b == 2 || b == 28 || b == 29 || b == 30 || b == 31 {
      } else if b == 3 {
        if At(s, c + 1) == 35 {
          c := c + 15;
        } else {
          if c + 1 < |s| && IsDigit(s[c + 1]) { c := c + 1; }
          if c + 1 < |s| && IsDigit(s[c + 1]) { c := c + 1; }
          if c + 1 < |s| && s[c + 1] == 44 { c := c + 1; }
          if c + 1 < |s| && IsDigit(s[c + 1]) { c := c + 1; }
          if c + 1 < |s| && IsDigit(s[c + 1]) { c := c + 1; }
          assert c == MircEnd(s, c0);
        }
      } else {
        AppendAssoc(out, [b], Sanitize(s, c + 1).value);
        out := out + [b];
      }
      c := c + 1;
    }
    assert out + [] == out;
  }

  /** Sanitising looks only forward, so a prefix does not change what a suffix sanitises to. */
  lemma {:induction false} SanitizeShift(a: seq<byte>, b: seq<byte>, j: nat)
    requires j <= |b|
    ensures Sanitize(a + b, |a| + j) == Sanitize(b, j)
    decreases |b| - j
  {
    var s := a + b;
    if j < |b| {
      assert s[|a| + j] == b[j];
      assert At(s, |a| + j + 1) == At(b, j + 1);
      if Toggle(b[j]) {
        SanitizeShift(a, b, j + 1);
      } else if b[j] == 3 {
        if At(b, j + 1) == 35 {
          if j + 16 <= |b| { SanitizeShift(a, b, j + 16); }
        } else {
          MircShift(a, b, j);
          SanitizeShift(a, b, MircEnd(b, j) + 1);
        }
      } else {
        SanitizeShift(a, b, j + 1);
      }
    }
  }

  lemma MircShift(a: seq<byte>, b: seq<byte>, j: nat)
    requires j < |b|
    ensures MircEnd(a + b, |a| + j) == |a| + MircEnd(b, j)
  {
    var s := a + b;
    forall p | j <= p < |b| ensures s[|a| + p] == b[p] { }
  }

  /** Bytes the sanitiser passes through, followed by anything. */
  lemma {:induction false} SanitizePlain(t: seq<byte>, r: seq<byte>)
    requires AllPlain(t)
    ensures Sanitize(t + r, 0) == Prefixed(t, Sanitize(r, 0))
    decreases |t|
  {
    if t != [] {
      var s := t + r;
      assert s[0] == t[0] && At(s, 1) == At(t[1..] + r, 0);
      SanitizeShift([t[0]], t[1..] + r, 0);
      assert [t[0]] + (t[1..] + r) == s;
      SanitizePlain(t[1..], r);
      assert t == [t[0]] + t[1..];
      if Sanitize(r, 0).Some? {
        AppendAssoc([t[0]], t[1..], Sanitize(r, 0).value);
      }
    } else {
      assert t + r == r;
      if Sanitize(r, 0).Some? {
        assert t + Sanitize(r, 0).value == Sanitize(r, 0).value;
      }
    }
  }

  /** `t` before the sanitised rest; nothing when the rest is undefined. */
  function Prefixed(t: seq<byte>, rest: Option<seq<byte>>): Option<seq<byte>>
  {
    if rest.None? then None else Some(t + rest.value)
  }

  /** Nothing before the rest leaves it as it is. */
  lemma PrefixedEmpty(rest: Option<seq<byte>>)
    ensures Prefixed([], rest) == rest
  {
    if rest.Some? {
      assert [] + rest.value == rest.value;
    }
  }

  /** A toggle byte sanitises to nothing. */
  lemma SanitizeToggle(b: byte, r: seq<byte>)
    requires Toggle(b)
    ensures Sanitize([b] + r, 0) == Sanitize(r, 0)
  {
    SanitizeShift([b], r, 0);
  }

  /** A colour code sanitises to nothing. */
  lemma SanitizeCode(fg: Terminal.Color, bg: Terminal.Color, r: seq<byte>)
    ensures Sanitize(ColorCode(fg, bg) + r, 0) == Sanitize(r, 0)
  {
    var s := ColorCode(fg, bg) + r;
    assert s[0] == 3 && At(s, 1) == 35;
    SanitizeShift(ColorCode(fg, bg), r, 0);
  }

  /** A directive's output `d` followed by `r` sanitises to what it shows, `v`, and both go on at the same place. */
  predicate Agrees(d: Step, v: Option<Seen>, r: seq<byte>)
  {
    && v.Some? && v.value.next == d.next && v.value.arg == d.arg
    && v.value.fg == d.marks.fg && v.value.bg == d.marks.bg
    && Sanitize(d.out + r, 0) == Prefixed(v.value.out, Sanitize(r, 0))
  }

  /** A bold, italic or underline toggle shows nothing. */
  lemma SanitizeMark(f: seq<byte>, i: nat, m: Marks, args: seq<Arg>, k: nat, r: seq<byte>)
    requires i < |f| && (f[i] == 42 || f[i] == 47 || f[i] == 95)
    ensures Directive(f, i, m, args, k).Some?
    ensures Agrees(Directive(f, i, m, args, k).value, Shown(f, i, m.fg, m.bg, args, k), r)
  {
    var d := Directive(f, i, m, args, k).value;
    SanitizeToggle(d.out[0], r);
    assert d.out == [d.out[0]];
    PrefixedEmpty(Sanitize(r, 0));
  }

  /** A colour directive shows nothing. */
  lemma SanitizePaint(f: seq<byte>, i: nat, m: Marks, args: seq<Arg>, k: nat, r: seq<byte>)
    requires i < |f| && (f[i] == 94 || f[i] == 36) && Directive(f, i, m, args, k).Some?
    ensures Agrees(Directive(f, i, m, args, k).value, Shown(f, i, m.fg, m.bg, args, k), r)
  {
    var d := Directive(f, i, m, args, k).value;
    SanitizeCode(d.marks.fgc, d.marks.bgc, r);
    PrefixedEmpty(Sanitize(r, 0));
  }

  /** An escaped byte, a literal byte or a string argument shows itself. */
  lemma SanitizeText(f: seq<byte>, i: nat, m: Marks, args: seq<Arg>, k: nat, r: seq<byte>)
    requires i < |f| && AllPlain(f) && PlainArgs(args) && Directive(f, i, m, args, k).Some?
    requires f[i] != 42 && f[i] != 47 && f[i] != 95 && f[i] != 94 && f[i] != 36
    ensures Agrees(Directive(f, i, m, args, k).value, Shown(f, i, m.fg, m.bg, args, k), r)
  {
    SanitizePlain(Directive(f, i, m, args, k).value.out, r);
  }

  /** What one directive writes sanitises to what it shows, whatever follows. */
  lemma SanitizeDirective(f: seq<byte>, i: nat, m: Marks, args: seq<Arg>, k: nat, r: seq<byte>)
    requires i < |f| && AllPlain(f) && PlainArgs(args) && Directive(f, i, m, args, k).Some?
    ensures Agrees(Directive(f, i, m, args, k).value, Shown(f, i, m.fg, m.bg, args, k), r)
  {
    var c := f[i];
    if c == 42 || c == 47 || c == 95 {
      SanitizeMark(f, i, m, args, k, r);
    } else if c == 94 || c == 36 {
      SanitizePaint(f, i, m, args, k, r);
    } else {
      SanitizeText(f, i, m, args, k, r);
    }
  }

  /**
   * Sanitising undoes formatting: for a format and string arguments of plain
   * bytes, `write_sanitized` of what `fmt` writes is exactly the visible text.
   */
  lemma {:induction false} SanitizeFormat(f: seq<byte>, i: nat, m: Marks, args: seq<Arg>, k: nat)
    requires i <= |f| && AllPlain(f) && PlainArgs(args) && Format(f, i, m, args, k).Some?
    ensures Visible(f, i, m.fg, m.bg, args, k).Some?
    ensures Sanitize(Format(f, i, m, args, k).value.0, 0) == Some(Visible(f, i, m.fg, m.bg, args, k).value.0)
    ensures Visible(f, i, m.fg, m.bg, args, k).value.1 == Format(f, i, m, args, k).value.1
    decreases |f| - i
  {
    if i < |f| {
      var d := Directive(f, i, m, args, k).value;
      var rest := Format(f, d.next, d.marks, args, d.arg).value;
      SanitizeFormat(f, d.next, d.marks, args, d.arg);
      SanitizeDirective(f, i, m, args, k, rest.0);
    }
  }
}
