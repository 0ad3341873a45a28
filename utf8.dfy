/**
 * Text metrics: the UTF-8 decoder and the width, fit and display-unit scans
 * that the renderer and the frame composer measure text with.
 *
 * Every scan works on a C string whose content is `s` and starts at byte `i`
 * of it, as the C code does on the pointer `str + i`.
 *
 * The decoder follows the bit layout of section 3 of RFC 3629 but is laxer:
 * it checks neither the continuation-byte tag bits nor overlong forms nor
 * surrogates, and it accepts lead bytes up to 0xF7.
 *
 * `mk_wcwidth` is not part of this model: every scan takes it as a parameter
 * `wc` whose results are limited to -1 (not printable), 0, 1 and 2.
 */
module Utf8 {
  import opened Bytes

  /** The column count `mk_wcwidth` reports for one code point. */
  type Columns = w: int | -1 <= w <= 2

  /** `mk_wcwidth`, supplied by the caller. */
  type WcWidth = nat -> Columns

  /** The outcome of `next_utf8`: -1, or a sequence length and its code point. */
  datatype Decoded = Invalid | Unit(len: nat, cp: nat)

  /** The sequence length a lead byte announces; 0 when it cannot start one. */
  function LeadLength(b0: byte): (n: nat)
    ensures n <= 4
  {
    if b0 == 0 then 0
    else if b0 < 0x80 then 1
    else if b0 < 0xC0 then 0
    else if b0 < 0xE0 then 2
    else if b0 < 0xF0 then 3
    else if b0 < 0xF8 then 4
    else 0
  }

  /** The payload bits of a lead byte of an `n`-byte sequence. */
  function LeadBits(b0: byte, n: nat): nat
  {
    if n == 2 then b0 % 32 else if n == 3 then b0 % 16 else if n == 4 then b0 % 8 else b0
  }

  /** C0 and C1 control code points, which every scan skips. */
  predicate IsControl(cp: nat)
  {
    cp < 0x20 || (0x80 <= cp < 0xA0)
  }

  /** Byte `j` of the C string `s` is the terminator or lies past it. */
  predicate Missing(s: seq<byte>, j: nat)
  {
    j >= |s| || s[j] == 0
  }

  /** One of the continuation bytes of an `n`-byte sequence at `i` is missing. */
  predicate Cut(s: seq<byte>, i: nat, n: nat)
  {
    Missing(s, i + 1) || (n >= 3 && Missing(s, i + 2)) || (n >= 4 && Missing(s, i + 3))
  }

  /**
   * The code point of an `n`-byte sequence at `i`: an ASCII byte stands for
   * itself, and a lead contributes its low 5, 4 or 3 bits followed by 6 bits
   * per continuation byte.
   */
  function CodePoint(s: seq<byte>, i: nat, n: nat): nat
    requires 1 <= n <= 4 && i + n <= |s|
  {
    if n == 1 then s[i]
    else if n == 2 then (s[i] as int % 32) * 64 + s[i + 1] as int % 64
    else if n == 3 then (s[i] as int % 16) * 4096 + (s[i + 1] as int % 64) * 64 + s[i + 2] as int % 64
    else (s[i] as int % 8) * 262144 + (s[i + 1] as int % 64) * 4096 + (s[i + 2] as int % 64) * 64 + s[i + 3] as int % 64
  }

  /**
   * `next_utf8(str + i, len, &cp)` on the C string whose content is `s`.
   * Nothing past the first NUL is read, so `s` may end before `len` bytes.
   */
  function Decode(s: seq<byte>, i: nat, len: int): (r: Decoded)
    requires i <= |s|
    ensures r.Unit? ==> 1 <= r.len <= 4 && i + r.len <= |s| && (len >= 0 ==> r.len <= len)
  {
    var n := LeadLength(At(s, i));
    if len == 0 || n == 0 then Invalid
    else if n > 1 && (len < n || Cut(s, i, n)) then Invalid
    else Unit(n, CodePoint(s, i, n))
  }

  /**
   * `next_utf8` fails exactly for an empty input, a NUL lead, a continuation
   * or C1 lead (0x80-0xBF), a lead of 0xF8 or more, a sequence longer than
   * `len`, and a NUL continuation byte; otherwise it consumes 1 to 4 bytes.
   */
  lemma DecodeFails(s: seq<byte>, i: nat, len: int)
    requires i <= |s|
    ensures var b0 := At(s, i);
      Decode(s, i, len).Invalid? <==>
        len == 0 || b0 == 0 || (0x80 <= b0 < 0xC0) || b0 >= 0xF8 || (b0 >= 0xC0 && len < LeadLength(b0))
        || exists j :: i < j < i + LeadLength(b0) && Missing(s, j)
  {
    var n := LeadLength(At(s, i));
    if Cut(s, i, n) && n > 1 {
      var j := if Missing(s, i + 1) then 1 else if n >= 3 && Missing(s, i + 2) then 2 else 3;
      assert i < i + j < i + n && Missing(s, i + j);
    }
  }

  /** The state of the `for` loop of `next_utf8` at continuation byte `k` with code point `cp` so far. */
  function Continue(s: seq<byte>, i: nat, k: nat, n: nat, cp: nat): (r: Decoded)
    requires 1 <= k <= n <= 4 && i + k <= |s|
    decreases n - k
  {
    if k == n then Unit(n, cp)
    else
      var b := At(s, i + k);
      if b == 0 then Invalid else Continue(s, i, k + 1, n, cp * 64 + b % 64)
  }

  /** The `for` loop, started after a multi-byte lead with its payload bits, computes `Decode`. */
  lemma DecodeLoop(s: seq<byte>, i: nat, len: int)
    requires i <= |s| && len >= LeadLength(At(s, i)) > 1
    ensures Decode(s, i, len) == Continue(s, i, 1, LeadLength(s[i]), LeadBits(s[i], LeadLength(s[i])))
  {
    var n := LeadLength(s[i]);
    var c1 := LeadBits(s[i], n);
    if !Missing(s, i + 1) {
      var c2 := c1 * 64 + s[i + 1] % 64;
      assert Continue(s, i, 1, n, c1) == Continue(s, i, 2, n, c2);
      if n > 2 && !Missing(s, i + 2) {
        var c3 := c2 * 64 + s[i + 2] % 64;
        assert Continue(s, i, 2, n, c2) == Continue(s, i, 3, n, c3);
        if n > 3 && !Missing(s, i + 3) {
          assert Continue(s, i, 3, n, c3) == Continue(s, i, 4, n, c3 * 64 + s[i + 3] % 64);
        }
      }
    }
  }

  /**
   * A shorter `len` gives the same answer unless the sequence would run past
   * it; then decoding fails.
   */
  lemma DecodeBound(s: seq<byte>, i: nat, len: int, k: nat)
    requires i <= |s| && 1 <= k <= len
    ensures var d := Decode(s, i, len);
      if d.Unit? && d.len <= k then Decode(s, i, k) == d else Decode(s, i, k).Invalid?
  {
  }

  /** `next_utf8(str + i, len, &cp)`: the `for` loop over continuation bytes. */
  method NextUtf8(s: seq<byte>, i: nat, len: int) returns (n: int, cp: nat)
    requires i <= |s|
    ensures n == -1 <==> Decode(s, i, len).Invalid?
    ensures n != -1 ==> n >= 1 && Decode(s, i, len) == Unit(n as nat, cp)
  {
    cp := 0;
    var b0 := At(s, i);
    var nbytes: nat;
    if len == 0 { return -1, cp; }
    if b0 == 0 {
      return -1, cp;
    } else if b0 < 0x80 {
      return 1, b0;
    } else if b0 < 0xC0 {
      return -1, cp;
    } else if b0 < 0xE0 {
      nbytes, cp := 2, b0 % 32;
    } else if b0 < 0xF0 {
      nbytes, cp := 3, b0 % 16;
    } else if b0 < 0xF8 {
      nbytes, cp := 4, b0 % 8;
    } else {
      return -1, cp;
    }
    if len < nbytes { return -1, cp; }
    DecodeLoop(s, i, len);
    var k := 1;
    while k < nbytes
      invariant 1 <= k <= nbytes && i + k <= |s|
      invariant Decode(s, i, len) == Continue(s, i, k, nbytes, cp)
    {
      var b := At(s, i + k);
      if b == 0 { return -1, cp; }
      // `*cp <<= 6; *cp |= b & 0x3f` on a value whose low six bits are clear
      cp := cp * 64 + b % 64;
      k := k + 1;
    }
    n := nbytes;
  }

  // ---------------------------------------------------------------------
  // utf8_valid

  /** Repeated `next_utf8` calls from byte `i` consume the rest of `s` without failing. */
  predicate IsValid(s: seq<byte>, i: nat)
    requires i <= |s|
    decreases |s| - i
  {
    i == |s| || (Decode(s, i, |s| - i).Unit? && IsValid(s, i + Decode(s, i, |s| - i).len))
  }

  /** `utf8_valid(str, len)` with `len == |s|`. */
  method Utf8Valid(s: seq<byte>) returns (ok: bool)
    ensures ok == IsValid(s, 0)
  {
    var pos := 0;
    while pos != |s|
      invariant 0 <= pos <= |s|
      invariant IsValid(s, 0) == IsValid(s, pos)
      decreases |s| - pos
    {
      var n, cp := NextUtf8(s, pos, |s| - pos);
      if n == -1 { return false; }
      pos := pos + n;
    }
    return true;
  }

  /** Valid text holds no NUL byte. */
  lemma {:induction false} ValidHasNoNul(s: seq<byte>, i: nat)
    requires i <= |s| && IsValid(s, i)
    ensures forall k :: i <= k < |s| ==> s[k] != 0
    decreases |s| - i
  {
    if i < |s| {
      var d := Decode(s, i, |s| - i);
      ValidHasNoNul(s, i + d.len);
      forall k | i < k < i + d.len ensures s[k] != 0 {
        assert !Missing(s, k);
      }
    }
  }

  /** Decoding inside `b` sees the same bytes when `b` follows `a`. */
  lemma DecodeShift(a: seq<byte>, b: seq<byte>, j: nat, len: int)
    requires j <= |b|
    ensures Decode(a + b, |a| + j, len) == Decode(b, j, len)
  {
    var s := a + b;
    forall k | |a| <= k < |s| ensures s[k] == b[k - |a|] { }
    assert At(s, |a| + j) == At(b, j);
  }

  /** A sequence that `next_utf8` decodes within `a` decodes the same way when `b` follows. */
  lemma DecodeExtend(a: seq<byte>, b: seq<byte>, i: nat)
    requires i <= |a| && Decode(a, i, |a| - i).Unit?
    ensures Decode(a + b, i, |a + b| - i) == Decode(a, i, |a| - i)
  {
    var s := a + b;
    forall k | 0 <= k < |a| ensures s[k] == a[k] { }
    assert At(s, i) == At(a, i);
  }

  /** Valid text stays valid, position by position, when something is put in front of it. */
  lemma {:induction false} ValidShift(a: seq<byte>, b: seq<byte>, j: nat)
    requires j <= |b|
    ensures IsValid(a + b, |a| + j) == IsValid(b, j)
    decreases |b| - j
  {
    if j < |b| {
      DecodeShift(a, b, j, |b| - j);
      var d := Decode(b, j, |b| - j);
      if d.Unit? { ValidShift(a, b, j + d.len); }
    }
  }

  /** Concatenating valid text gives valid text. */
  lemma {:induction false} ValidConcat(a: seq<byte>, b: seq<byte>, i: nat)
    requires i <= |a| && IsValid(a, i) && IsValid(b, 0)
    ensures IsValid(a + b, i)
    decreases |a| - i
  {
    if i == |a| {
      ValidShift(a, b, 0);
    } else {
      var d := Decode(a, i, |a| - i);
      DecodeExtend(a, b, i);
      ValidConcat(a, b, i + d.len);
    }
  }

  // ---------------------------------------------------------------------
  // utf8_width

  /** One step of the width and fit scans after the colour-code check. */
  datatype Scanned = Skip | Printable(len: nat, width: nat)

  /**
   * Invalid sequences, C0/C1 controls and code points `mk_wcwidth` calls
   * non-printable are skipped (one byte); anything else is a printable unit.
   */
  function Scan(s: seq<byte>, i: nat, len: int, wc: WcWidth): (r: Scanned)
    requires i <= |s|
    ensures r.Printable? ==> 1 <= r.len && i + r.len <= |s| && (len >= 0 ==> r.len <= len) && r.width <= 2
  {
    match Decode(s, i, len)
    case Invalid => Skip
    case Unit(n, cp) => if IsControl(cp) || wc(cp) == -1 then Skip else Printable(n, wc(cp))
  }

  /** What `next_utf8`, the control check and `mk_wcwidth` return decides the scan step. */
  lemma ScanOf(s: seq<byte>, i: nat, len: int, wc: WcWidth, n: int, cp: nat)
    requires i <= |s|
    requires n == -1 <==> Decode(s, i, len).Invalid?
    requires n != -1 ==> n >= 1 && Decode(s, i, len) == Unit(n as nat, cp)
    ensures Scan(s, i, len, wc) == if n == -1 || IsControl(cp) || wc(cp) == -1 then Skip else Printable(n, wc(cp))
  {
  }

  /** How far one step of a scan of `s[i..e]` moves. */
  function StepLength(s: seq<byte>, i: nat, e: nat, wc: WcWidth): (n: nat)
    requires i < e <= |s|
    ensures 1 <= n <= e - i
  {
    match Scan(s, i, e - i, wc)
    case Skip => 1
    case Printable(n, _) => n
  }

  /** `utf8_width(str + i, e - i)`: the columns of the printable units of `s[i..e]`. */
  function Width(s: seq<byte>, i: nat, e: nat, wc: WcWidth): nat
    requires i <= e <= |s|
    decreases e - i
  {
    if i == e then 0
    else match Scan(s, i, e - i, wc)
      case Skip => Width(s, i + 1, e, wc)
      case Printable(n, w) => w + Width(s, i + n, e, wc)
  }

  /** One turn of the loop of `utf8_width` at byte `p`: it moves on by `bytes` and counts `width` columns. */
  method WidthTurn(s: seq<byte>, p: nat, e: nat, wc: WcWidth) returns (bytes: nat, width: nat)
    requires p < e <= |s|
    ensures p < p + bytes <= e && Width(s, p, e, wc) == width + Width(s, p + bytes, e, wc)
  {
    var b, cp := NextUtf8(s, p, e - p);
    ScanOf(s, p, e - p, wc, b, cp);
    if b == -1 || IsControl(cp) || wc(cp) == -1 {
      bytes, width := 1, 0;
    } else {
      bytes, width := b, wc(cp);
    }
  }

  /** `utf8_width(str, len)`: the `while` loop. */
  method Utf8Width(s: seq<byte>, len: nat, wc: WcWidth) returns (w: nat)
    requires len <= |s|
    ensures w == Width(s, 0, len, wc)
  {
    w := 0;
    var pos := 0;
    while pos != len
      invariant 0 <= pos <= len
      invariant w + Width(s, pos, len, wc) == Width(s, 0, len, wc)
      decreases len - pos
    {
      var bytes, width := WidthTurn(s, pos, len, wc);
      w, pos := w + width, pos + bytes;
    }
  }

  /** The positions the width scan of `s[i..e]` stops at. */
  ghost predicate Boundary(s: seq<byte>, i: nat, k: nat, e: nat, wc: WcWidth)
    requires i <= k <= e <= |s|
    decreases k - i
  {
    k == i || (StepLength(s, i, e, wc) <= k - i && Boundary(s, i + StepLength(s, i, e, wc), k, e, wc))
  }

  /** A scan of `s[i..k]` takes the same first step as one of `s[i..e]` when that step ends by `k`. */
  lemma ScanBound(s: seq<byte>, i: nat, k: nat, e: nat, wc: WcWidth)
    requires i < k <= e <= |s| && StepLength(s, i, e, wc) <= k - i
    ensures Scan(s, i, k - i, wc) == Scan(s, i, e - i, wc)
  {
    DecodeBound(s, i, e - i, k - i);
  }

  /** `utf8_width` is additive across every position its scan reaches. */
  lemma {:induction false} WidthSplit(s: seq<byte>, i: nat, k: nat, e: nat, wc: WcWidth)
    requires i <= k <= e <= |s| && Boundary(s, i, k, e, wc)
    ensures Width(s, i, e, wc) == Width(s, i, k, wc) + Width(s, k, e, wc)
    decreases k - i
  {
    if k > i {
      ScanBound(s, i, k, e, wc);
      WidthSplit(s, i + StepLength(s, i, e, wc), k, e, wc);
    }
  }

  /** The width scan of `s` from `i` never meets a lead byte whose sequence would run past the end. */
  predicate Whole(s: seq<byte>, i: nat, wc: WcWidth)
    requires i <= |s|
    decreases |s| - i
  {
    i == |s| || (LeadLength(s[i]) <= |s| - i && Whole(s, i + StepLength(s, i, |s|, wc), wc))
  }

  /** A sequence that fits in `a` decodes the same way whatever follows `a`. */
  lemma DecodeWhole(a: seq<byte>, b: seq<byte>, k: nat)
    requires k < |a| && LeadLength(a[k]) <= |a| - k
    ensures Decode(a + b, k, |a + b| - k) == Decode(a, k, |a| - k)
  {
    var s := a + b;
    forall j | 0 <= j < |a| ensures s[j] == a[j] { }
    assert At(s, k) == At(a, k);
  }

  /** The width of the part of `a + b` inside `b` is the width of `b`. */
  lemma {:induction false} WidthShift(a: seq<byte>, b: seq<byte>, j: nat, wc: WcWidth)
    requires j <= |b|
    ensures Width(a + b, |a| + j, |a + b|, wc) == Width(b, j, |b|, wc)
    decreases |b| - j
  {
    if j < |b| {
      DecodeShift(a, b, j, |b| - j);
      match Scan(b, j, |b| - j, wc)
      case Skip => WidthShift(a, b, j + 1, wc);
      case Printable(n, _) => WidthShift(a, b, j + n, wc);
    }
  }

  /** The columns one scan step of `s[i..e]` counts. */
  function StepWidth(s: seq<byte>, i: nat, e: nat, wc: WcWidth): nat
    requires i < e <= |s|
  {
    match Scan(s, i, e - i, wc)
    case Skip => 0
    case Printable(_, w) => w
  }

  /** The width of `s[i..e]` is that of its first scan step plus that of the rest. */
  lemma WidthUnfold(s: seq<byte>, i: nat, e: nat, wc: WcWidth)
    requires i < e <= |s|
    ensures Width(s, i, e, wc) == StepWidth(s, i, e, wc) + Width(s, i + StepLength(s, i, e, wc), e, wc)
  {
  }

  /** `utf8_width` adds up across `a + b` when the scan of `a` ends on a sequence boundary. */
  lemma {:induction false} WidthConcat(a: seq<byte>, b: seq<byte>, i: nat, wc: WcWidth)
    requires i <= |a| && Whole(a, i, wc)
    ensures Width(a + b, i, |a + b|, wc) == Width(a, i, |a|, wc) + Width(b, 0, |b|, wc)
    decreases |a| - i
  {
    if i == |a| {
      WidthShift(a, b, 0, wc);
    } else {
      var n := StepLength(a, i, |a|, wc);
      ConcatStep(a, b, i, wc, n, StepWidth(a, i, |a|, wc));
      WidthConcat(a, b, i + n, wc);
    }
  }

  /** A scan step of `a` that fits in `a` is the same step in `a + b`. */
  lemma ConcatStep(a: seq<byte>, b: seq<byte>, i: nat, wc: WcWidth, n: nat, w: nat)
    requires i < |a| && LeadLength(a[i]) <= |a| - i
    requires n == StepLength(a, i, |a|, wc) && w == StepWidth(a, i, |a|, wc)
    ensures i + n <= |a|
    ensures Width(a + b, i, |a + b|, wc) == w + Width(a + b, i + n, |a + b|, wc)
    ensures Width(a, i, |a|, wc) == w + Width(a, i + n, |a|, wc)
  {
    DecodeWhole(a, b, i);
    assert Scan(a + b, i, |a + b| - i, wc) == Scan(a, i, |a| - i, wc);
    WidthUnfold(a + b, i, |a + b|, wc);
    WidthUnfold(a, i, |a|, wc);
  }

  // ---------------------------------------------------------------------
  // utf8_fit

  /** The bytes of an inline colour code that starts with byte 3 at `s[i]`. */
  function ColorLength(s: seq<byte>, i: nat): (n: nat)
    requires i < |s| && s[i] == 3
    ensures 1 <= n <= |s| - i && n <= 16
  {
    if At(s, i + 1) == 35 then (if |s| - i > 16 then 16 else |s| - i)
    else
      var b1 := if IsDigit(At(s, i + 1)) then 2 else 1;
      var b2 := if IsDigit(At(s, i + b1)) then b1 + 1 else b1;
      var b3 := if At(s, i + b2) == 44 then b2 + 1 else b2;
      var b4 := if b3 > 3 && IsDigit(At(s, i + b3)) then b3 + 1 else b3;
      if b4 > 3 && IsDigit(At(s, i + b4)) then b4 + 1 else b4
  }

  /**
   * A `#` colour code takes 16 bytes, clipped to the string; any other takes
   * byte 3 and then only digits and at most one comma, at most two digits
   * before it, and background digits only after two digits and a comma.
   */
  lemma ColorLengthShape(s: seq<byte>, i: nat)
    requires i < |s| && s[i] == 3
    ensures var n := ColorLength(s, i);
      && (At(s, i + 1) == 35 ==> n == if |s| - i > 16 then 16 else |s| - i)
      && (At(s, i + 1) != 35 ==>
            && n <= 6
            && (forall j :: i < j < i + n ==> IsDigit(s[j]) || s[j] == 44)
            && (n >= 3 && IsDigit(s[i + 1]) && IsDigit(s[i + 2]) ==> n == 3 || s[i + 3] == 44)
            && (n >= 5 ==> IsDigit(s[i + 1]) && IsDigit(s[i + 2]) && s[i + 3] == 44 && IsDigit(s[i + 4]))
            && (IsDigit(At(s, i + 1)) ==> n >= 2))
  {
  }

  /** Where `utf8_fit` stopped and how many of the `cols` columns are left. */
  datatype Fitted = Fitted(end: nat, left: int)

  /** The loop of `utf8_fit` from byte `i` of `s` to its end with `cols` columns still free. */
  function FitFrom(s: seq<byte>, i: nat, cols: int, wc: WcWidth): (r: Fitted)
    requires i <= |s|
    ensures i <= r.end <= |s|
    ensures r.left <= cols && (r.left >= 0 || r.left == cols)
    decreases |s| - i
  {
    if i == |s| then Fitted(i, cols)
    else if s[i] == 3 then FitFrom(s, i + ColorLength(s, i), cols, wc)
    else match Scan(s, i, |s| - i, wc)
      case Skip => FitFrom(s, i + 1, cols, wc)
      case Printable(n, w) =>
        if cols - w < 0 then Fitted(i, cols) else FitFrom(s, i + n, cols - w, wc)
  }

  /**
   * One turn of the loop of `utf8_fit` at byte `p` with `cols` columns free:
   * it stops, or it moves on by `bytes` with `cols'` columns left.
   */
  method FitTurn(s: seq<byte>, p: nat, cols: int, wc: WcWidth) returns (stop: bool, bytes: nat, cols': int)
    requires p < |s|
    ensures stop ==> FitFrom(s, p, cols, wc) == Fitted(p, cols)
    ensures !stop ==> p < p + bytes <= |s| && FitFrom(s, p, cols, wc) == FitFrom(s, p + bytes, cols', wc)
  {
    stop, cols' := false, cols;
    if s[p] == 3 {
      bytes := ColorLength(s, p);
    } else {
      var b, cp := NextUtf8(s, p, |s| - p);
      ScanOf(s, p, |s| - p, wc, b, cp);
      if b == -1 || IsControl(cp) || wc(cp) == -1 {
        bytes := 1;
      } else if cols - wc(cp) < 0 {
        stop, bytes := true, 0;
      } else {
        cols', bytes := cols - wc(cp), b;
      }
    }
  }

  /** `utf8_fit(str + i, len, cols)` with `len` reaching the end of `s`: the loop ends at `n` bytes. */
  method Utf8Fit(s: seq<byte>, i: nat, cols0: int, wc: WcWidth) returns (n: nat)
    requires i <= |s|
    ensures i + n == FitFrom(s, i, cols0, wc).end
  {
    var p, cols := i, cols0;
    while p != |s|
      invariant i <= p <= |s|
      invariant FitFrom(s, i, cols0, wc) == FitFrom(s, p, cols, wc)
      decreases |s| - p
    {
      var stop, bytes, cols' := FitTurn(s, p, cols, wc);
      if stop { break; }
      p, cols := p + bytes, cols';
    }
    n := p - i;
  }

  /**
   * `utf8_fit` stops early only in front of a printable unit that is wider than
   * the columns left, never inside a colour code or in front of skipped bytes.
   */
  lemma {:induction false} FitStops(s: seq<byte>, i: nat, cols: int, wc: WcWidth)
    requires i <= |s|
    ensures var r := FitFrom(s, i, cols, wc);
      r.end < |s| ==>
        && s[r.end] != 3
        && var sc := Scan(s, r.end, |s| - r.end, wc);
           sc.Printable? && r.left - sc.width < 0
    decreases |s| - i
  {
    if i < |s| {
      var j, c := FitNext(s, i, cols, wc);
      if j > i { FitStops(s, j, c, wc); }
    }
  }

  /**
   * One turn of the loop of `utf8_fit` at byte `i`: it goes on at byte `j` with
   * `c` columns, or (`j == i`) it stops in front of a unit that is too wide.
   */
  lemma FitNext(s: seq<byte>, i: nat, cols: int, wc: WcWidth) returns (j: nat, c: int)
    requires i < |s|
    ensures i <= j <= |s|
    ensures j > i ==> FitFrom(s, i, cols, wc) == FitFrom(s, j, c, wc)
    ensures j == i ==> (FitFrom(s, i, cols, wc) == Fitted(i, cols) && s[i] != 3
      && Scan(s, i, |s| - i, wc).Printable? && cols - Scan(s, i, |s| - i, wc).width < 0)
  {
    if s[i] == 3 {
      j, c := i + ColorLength(s, i), cols;
    } else {
      match Scan(s, i, |s| - i, wc)
      case Skip => j, c := i + 1, cols;
      case Printable(n, w) => j, c := if cols - w < 0 then i else i + n, cols - w;
    }
  }

  /** The width of `s[i..e]` is that of the first scan step of `s` from `i`, `n` bytes and `w` columns, plus that of the rest. */
  lemma FitStep(s: seq<byte>, i: nat, e: nat, wc: WcWidth, n: nat, w: nat)
    requires i < e <= |s| && n == StepLength(s, i, |s|, wc) && w == StepWidth(s, i, |s|, wc) && n <= e - i
    ensures Width(s, i, e, wc) == w + Width(s, i + n, e, wc)
  {
    ScanBound(s, i, e, |s|, wc);
    WidthUnfold(s, i, e, wc);
  }

  /**
   * On text without colour codes the columns `utf8_fit` spends are exactly the
   * `utf8_width` of the bytes it accepts, so that part never exceeds `cols`.
   */
  lemma {:induction false} FitWidth(s: seq<byte>, i: nat, cols: int, wc: WcWidth)
    requires i <= |s| && cols >= 0
    requires forall k :: i <= k < |s| ==> s[k] != 3
    ensures var r := FitFrom(s, i, cols, wc);
      Width(s, i, r.end, wc) == cols - r.left <= cols
    decreases |s| - i
  {
    if i < |s| {
      assert s[i] != 3;
      match Scan(s, i, |s| - i, wc)
      case Skip =>
        var r := FitFrom(s, i + 1, cols, wc);
        FitWidth(s, i + 1, cols, wc);
        FitStep(s, i, r.end, wc, 1, 0);
      case Printable(n, w) =>
        if cols - w >= 0 {
          var r := FitFrom(s, i + n, cols - w, wc);
          FitWidth(s, i + n, cols - w, wc);
          FitStep(s, i, r.end, wc, n, w);
        }
    }
  }

  // ---------------------------------------------------------------------
  // utf8_next

  /** What `utf8_next` computes: how many bytes its unit takes (or where it ends) and the width it stores in `*w`. */
  datatype NextResult = NextResult(end: nat, width: nat)

  /** Whether the loop of `utf8_next` stops at byte `i` with `*w == w`. */
  predicate StopsAt(s: seq<byte>, i: nat, w: nat, wc: WcWidth)
    requires i <= |s|
  {
    At(s, i) == 0 ||
    match Decode(s, i, 16)
    case Invalid => true
    case Unit(_, cp) => IsControl(cp) || wc(cp) == -1 || (w > 0 && wc(cp) > 0)
  }

  /** The loop of `utf8_next` from byte `i` of the C string `s` with `*w == w`: where it ends. */
  function NextFrom(s: seq<byte>, i: nat, w: nat, wc: WcWidth): (r: NextResult)
    requires i <= |s| && w <= 2
    ensures i <= r.end <= |s| && r.width <= 2
    ensures r.end == i ==> r.width == w
    ensures w > 0 ==> r.width == w
    decreases |s| - i
  {
    if StopsAt(s, i, w, wc) then NextResult(i, w)
    else
      var d := Decode(s, i, 16);
      NextFrom(s, i + d.len, w + wc(d.cp), wc)
  }

  /** `utf8_next(str + i, &w)` on the C string with content `s`: the unit's bytes and width. */
  function NextUnit(s: seq<byte>, i: nat, wc: WcWidth): (u: NextResult)
    requires i <= |s|
    ensures i + u.end == NextFrom(s, i, 0, wc).end && u.width == NextFrom(s, i, 0, wc).width
  {
    var r := NextFrom(s, i, 0, wc);
    NextResult(r.end - i, r.width)
  }

  /**
   * `utf8_next` consumes nothing exactly when the loop stops at once (the first
   * code point is NUL, invalid, a control or non-printable), and it always
   * stops in front of a code point that would end its unit.
   */
  lemma {:induction false} NextStops(s: seq<byte>, i: nat, w: nat, wc: WcWidth)
    requires i <= |s| && w <= 2
    ensures var r := NextFrom(s, i, w, wc);
      (r.end == i <==> StopsAt(s, i, w, wc)) && StopsAt(s, r.end, r.width, wc)
    decreases |s| - i
  {
    if !StopsAt(s, i, w, wc) {
      var d := Decode(s, i, 16);
      NextStops(s, i + d.len, w + wc(d.cp), wc);
    }
  }

  /** At byte `j` starts a code point of width `w > 0`. */
  predicate PositiveAt(s: seq<byte>, j: nat, w: nat, wc: WcWidth)
    requires j <= |s|
  {
    w > 0 && match Decode(s, j, 16)
      case Invalid => false
      case Unit(_, cp) => wc(cp) == w
  }

  /** A unit holds at most one code point of positive width: its width is that code point's. */
  lemma {:induction false} NextWidth(s: seq<byte>, i: nat, w: nat, wc: WcWidth)
    requires i <= |s| && w <= 2
    ensures var r := NextFrom(s, i, w, wc);
      r.width == w || (w == 0 && exists j :: i <= j < r.end && PositiveAt(s, j, r.width, wc))
    decreases |s| - i
  {
    if !StopsAt(s, i, w, wc) {
      var d := Decode(s, i, 16);
      NextWidth(s, i + d.len, w + wc(d.cp), wc);
      if w == 0 && wc(d.cp) > 0 {
        assert PositiveAt(s, i, wc(d.cp), wc);
      }
    }
  }

  /** `utf8_next(str + i, &w)`: the `while` loop that groups zero-width code points with one printable one. */
  method Utf8Next(s: seq<byte>, i: nat, wc: WcWidth) returns (n: nat, w: nat)
    requires i <= |s|
    ensures NextResult(n, w) == NextUnit(s, i, wc)
  {
    var p := i;
    w := 0;
    while At(s, p) != 0
      invariant i <= p <= |s| && w <= 2
      invariant NextFrom(s, i, 0, wc) == NextFrom(s, p, w, wc)
      decreases |s| - p
    {
      var bytes, cp := NextUtf8(s, p, 16);
      if bytes == -1 { break; }
      if IsControl(cp) { break; }
      var width := wc(cp);
      if width == -1 { break; }
      if w > 0 && width > 0 { break; }
      w := w + width;
      p := p + bytes;
    }
    n := p - i;
  }
}
