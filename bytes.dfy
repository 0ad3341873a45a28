/** Bytes, C strings and the small text encodings shared by the whole client. */
module Bytes {

  /** An unsigned 8-bit value; C strings are sequences of these. */
  type byte = x: int | 0 <= x < 256

  /** A 32-bit unsigned value, as `uint32_t`. */
  type u32 = x: int | 0 <= x < 0x1_0000_0000

  /**
   * The byte at index `k` of a NUL-terminated C string whose content is `s`:
   * index `|s|` is the terminator.  Reading further is undefined in C, so it is
   * not allowed here.
   */
  function At(s: seq<byte>, k: nat): (b: byte)
    requires k <= |s|
    ensures k < |s| ==> b == s[k]
    ensures k == |s| ==> b == 0
  {
    if k < |s| then s[k] else 0
  }

  /** The character code of an ASCII character, as a byte. */
  function B(c: char): byte
    requires c as int < 128
  {
    c as int
  }

  /** An ASCII string literal as bytes. */
  function Lit(s: string): (r: seq<byte>)
    requires forall i :: 0 <= i < |s| ==> s[i] as int < 128
    ensures |r| == |s|
    ensures forall i :: 0 <= i < |s| ==> r[i] == s[i] as int
  {
    if s == [] then [] else [B(s[0])] + Lit(s[1..])
  }

  /** `isdigit` on a byte of the C locale. */
  predicate IsDigit(b: byte)
  {
    48 <= b <= 57
  }

  /** `isxdigit` on a byte of the C locale. */
  predicate IsHexDigit(b: byte)
  {
    IsDigit(b) || (65 <= b <= 70) || (97 <= b <= 102)
  }

  /** The value of a hexadecimal digit. */
  function HexValue(b: byte): (v: nat)
    requires IsHexDigit(b)
    ensures v < 16
  {
    if IsDigit(b) then b - 48 else if b <= 70 then b - 55 else b - 87
  }

  /** The lower-case hexadecimal digit for a value below 16. */
  function HexDigit(v: nat): (b: byte)
    requires v < 16
    ensures IsHexDigit(b) && HexValue(b) == v
  {
    if v < 10 then 48 + v else 87 + v
  }

  /** `%02x` of a byte: two lower-case hexadecimal digits. */
  function Hex2(v: byte): (r: seq<byte>)
    ensures |r| == 2 && IsHexDigit(r[0]) && IsHexDigit(r[1])
    ensures HexValue(r[0]) * 16 + HexValue(r[1]) == v
  {
    [HexDigit(v / 16), HexDigit(v % 16)]
  }

  /** True when no byte of `s` is NUL, i.e. `strlen` of the C string is `|s|`. */
  predicate NoNul(s: seq<byte>)
  {
    forall i :: 0 <= i < |s| ==> s[i] != 0
  }

  /** The value of a string of decimal digits. */
  function DigitsValue(s: seq<byte>): nat
    requires forall i :: 0 <= i < |s| ==> IsDigit(s[i])
  {
    if s == [] then 0
    else
      var d := s[|s| - 1];
      assert IsDigit(d);
      DigitsValue(s[..|s| - 1]) * 10 + (d - 48)
  }

  /** `%d` of a non-negative number: its decimal digits, without leading zeros. */
  function Decimal(n: nat): (r: seq<byte>)
    ensures 1 <= |r| && (n < 10 <==> |r| == 1)
  {
    if n < 10 then [48 + n] else Decimal(n / 10) + [48 + n % 10]
  }

  /** `Decimal(n)` is a string of digits with no leading zero that reads back as `n`. */
  lemma {:induction false} DecimalDigits(n: nat)
    ensures forall i :: 0 <= i < |Decimal(n)| ==> IsDigit(Decimal(n)[i])
    ensures DigitsValue(Decimal(n)) == n
    ensures |Decimal(n)| > 1 ==> Decimal(n)[0] != 48
  {
    if n >= 10 {
      DecimalDigits(n / 10);
      var r := Decimal(n);
      assert r[..|r| - 1] == Decimal(n / 10);
    }
  }

  /** `%d` of any `int`: a minus sign before the digits of a negative number. */
  function SignedDecimal(n: int): (r: seq<byte>)
    ensures n >= 0 ==> r == Decimal(n)
    ensures n < 0 ==> r == [45] + Decimal(-n)
  {
    if n >= 0 then Decimal(n) else [45] + Decimal(-n)
  }

  /** The bytes of `s` that are not NUL, in order (how the client joins input chunks). */
  function NonNul(s: seq<byte>): (r: seq<byte>)
    ensures |r| <= |s| && NoNul(r)
  {
    if s == [] then []
    else if s[|s| - 1] == 0 then NonNul(s[..|s| - 1])
    else NonNul(s[..|s| - 1]) + [s[|s| - 1]]
  }

  lemma {:induction false} NonNulAppend(a: seq<byte>, b: seq<byte>)
    ensures NonNul(a + b) == NonNul(a) + NonNul(b)
    decreases |b|
  {
    if b == [] {
      assert a + b == a;
    } else {
      assert (a + b)[..|a + b| - 1] == a + b[..|b| - 1];
      NonNulAppend(a, b[..|b| - 1]);
    }
  }

  /** Concatenation is associative (stated once, so that callers need not prove it by extensionality). */
  lemma AppendAssoc<T>(a: seq<T>, b: seq<T>, c: seq<T>)
    ensures (a + b) + c == a + (b + c)
  {
  }

  /** `strstr(hay, needle) != NULL`: `needle` occurs in `hay` as a contiguous run. */
  predicate Occurs(needle: seq<byte>, hay: seq<byte>)
  {
    exists i :: 0 <= i <= |hay| - |needle| && OccursAt(needle, hay, i)
  }

  /** `needle` is the run of `hay` that starts at index `i`. */
  predicate OccursAt(needle: seq<byte>, hay: seq<byte>, i: int)
  {
    0 <= i <= |hay| - |needle| && hay[i..i + |needle|] == needle
  }
}
