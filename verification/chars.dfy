/** Character classes and numeric conversions used by the assembler:
    the regular-expression classes `\s`, `\S`, `\w` and `[0-9A-F]`,
    `str.upper()`, and `int(digits, 2)` / `int(digits, 16)`.
    Only the ASCII range is classified; see README for what this leaves out. */
module Chars {

  /** `\s`: space, \t \n \v \f \r and the separators \x1c-\x1f. */
  predicate IsSpace(c: char) {
    c == ' ' || ('\t' <= c <= '\r') || ('\U{1C}' <= c <= '\U{1F}')
  }

  /** `\w`: letters, digits and the underscore. */
  predicate IsWordChar(c: char) {
    ('a' <= c <= 'z') || ('A' <= c <= 'Z') || ('0' <= c <= '9') || c == '_'
  }

  /** `[0-9A-F]`: an upper-case hexadecimal digit. */
  predicate IsHexDigit(c: char) {
    ('0' <= c <= '9') || ('A' <= c <= 'F')
  }

  predicate IsBit(c: char) {
    c == '0' || c == '1'
  }

  predicate IsLower(c: char) {
    'a' <= c <= 'z'
  }

  /** `str.upper()` on one character. */
  function ToUpper(c: char): (u: char)
    ensures !IsLower(u)
    ensures IsSpace(u) <==> IsSpace(c)
    ensures IsWordChar(u) <==> IsWordChar(c)
    ensures !IsLower(c) ==> u == c
  {
    if IsLower(c) then (c as int - 32) as char else c
  }

  /** `str.upper()` on a string. */
  function Upper(s: string): (u: string)
    ensures |u| == |s|
    ensures forall i | 0 <= i < |s| :: u[i] == ToUpper(s[i])
  {
    seq(|s|, i requires 0 <= i < |s| => ToUpper(s[i]))
  }

  predicate IsUpperCase(s: string) {
    forall i | 0 <= i < |s| :: !IsLower(s[i])
  }

  predicate AllBits(s: string) {
    forall i | 0 <= i < |s| :: IsBit(s[i])
  }

  predicate AllHexDigits(s: string) {
    forall i | 0 <= i < |s| :: IsHexDigit(s[i])
  }

  function Pow2(n: nat): (p: nat)
    ensures p >= 1
  {
    if n == 0 then 1 else 2 * Pow2(n - 1)
  }

  function Pow16(n: nat): (p: nat)
    ensures p >= 1
  {
    if n == 0 then 1 else 16 * Pow16(n - 1)
  }

  function Bit(c: char): (b: nat)
    requires IsBit(c)
    ensures b < 2
  {
    if c == '1' then 1 else 0
  }

  function HexDigitValue(c: char): (v: nat)
    requires IsHexDigit(c)
    ensures v < 16
  {
    if '0' <= c <= '9' then c as int - '0' as int else c as int - 'A' as int + 10
  }

  /** `int(bits, 2)`: the bits read most significant first. */
  function BinValue(bits: string): (v: nat)
    requires AllBits(bits)
  {
    if bits == [] then 0 else 2 * BinValue(bits[..|bits| - 1]) + Bit(bits[|bits| - 1])
  }

  /** `int(digits, 16)`: the digits read most significant first. */
  function HexValue(digits: string): (v: nat)
    requires AllHexDigits(digits)
  {
    if digits == [] then 0
    else 16 * HexValue(digits[..|digits| - 1]) + HexDigitValue(digits[|digits| - 1])
  }

  /** Reading a concatenation: the high part is shifted left by the width of the low part. */
  lemma {:induction false} BinValueAppend(hi: string, lo: string)
    requires AllBits(hi) && AllBits(lo)
    ensures AllBits(hi + lo)
    ensures BinValue(hi + lo) == BinValue(hi) * Pow2(|lo|) + BinValue(lo)
    decreases |lo|
  {
    var s := hi + lo;
    assert AllBits(s);
    if lo == [] {
      assert s == hi;
    } else {
      var lo' := lo[..|lo| - 1];
      var b := Bit(lo[|lo| - 1]);
      assert BinValue(s) == 2 * BinValue(hi + lo') + b by {
        assert s[..|s| - 1] == hi + lo';
        assert s[|s| - 1] == lo[|lo| - 1];
      }
      BinValueAppend(hi, lo');
      ShiftStep(BinValue(hi), BinValue(lo'), Pow2(|lo'|), b);
    }
  }

  lemma ShiftStep(h: int, l: int, p: int, b: int)
    ensures 2 * (h * p + l) + b == h * (2 * p) + (2 * l + b)
  {
  }

  /** An n-bit string denotes a value below 2^n. */
  lemma {:induction false} BinValueBound(bits: string)
    requires AllBits(bits)
    ensures BinValue(bits) < Pow2(|bits|)
    decreases |bits|
  {
    if bits != [] {
      BinValueBound(bits[..|bits| - 1]);
    }
  }

  /** An n-digit hexadecimal string denotes a value below 16^n. */
  lemma {:induction false} HexValueBound(digits: string)
    requires AllHexDigits(digits)
    ensures HexValue(digits) < Pow16(|digits|)
    decreases |digits|
  {
    if digits != [] {
      HexValueBound(digits[..|digits| - 1]);
    }
  }

  /** One to four hexadecimal digits always fit in a 16-bit word. */
  lemma HexValueFitsWord(digits: string)
    requires AllHexDigits(digits) && |digits| <= 4
    ensures HexValue(digits) < 0x1_0000
  {
    HexValueBound(digits);
    assert Pow16(|digits|) <= Pow16(4) by {
      var k := |digits|;
      assert k == 0 || k == 1 || k == 2 || k == 3 || k == 4;
    }
  }

  /** The value of a seven-bit class code, bit by bit. */
  lemma BinValueSeven(s: string)
    requires |s| == 7 && AllBits(s)
    ensures BinValue(s) == 64 * Bit(s[0]) + 32 * Bit(s[1]) + 16 * Bit(s[2]) + 8 * Bit(s[3])
                         + 4 * Bit(s[4]) + 2 * Bit(s[5]) + Bit(s[6])
  {
    assert BinValue(s[..1]) == Bit(s[0]) by { assert s[..1][..0] == []; }
    assert BinValue(s[..2]) == 2 * BinValue(s[..1]) + Bit(s[1]) by { assert s[..2][..1] == s[..1]; }
    assert BinValue(s[..3]) == 2 * BinValue(s[..2]) + Bit(s[2]) by { assert s[..3][..2] == s[..2]; }
    assert BinValue(s[..4]) == 2 * BinValue(s[..3]) + Bit(s[3]) by { assert s[..4][..3] == s[..3]; }
    assert BinValue(s[..5]) == 2 * BinValue(s[..4]) + Bit(s[4]) by { assert s[..5][..4] == s[..4]; }
    assert BinValue(s[..6]) == 2 * BinValue(s[..5]) + Bit(s[5]) by { assert s[..6][..5] == s[..5]; }
    assert BinValue(s) == 2 * BinValue(s[..6]) + Bit(s[6]);
  }

  /** The value of a three-bit field, bit by bit. */
  lemma BinValueThree(s: string)
    requires |s| == 3 && AllBits(s)
    ensures BinValue(s) == 4 * Bit(s[0]) + 2 * Bit(s[1]) + Bit(s[2])
  {
    assert BinValue(s[..1]) == Bit(s[0]) by { assert s[..1][..0] == []; }
    assert BinValue(s[..2]) == 2 * BinValue(s[..1]) + Bit(s[1]) by { assert s[..2][..1] == s[..1]; }
    assert BinValue(s) == 2 * BinValue(s[..2]) + Bit(s[2]);
  }

  /** Division by a positive divisor is unique: `q * m + r` with `0 <= r < m`
      has quotient `q` and remainder `r`. */
  lemma DivModUnique(q: int, r: int, m: int)
    requires m > 0 && 0 <= r < m
    ensures (q * m + r) / m == q && (q * m + r) % m == r
  {
    var w := q * m + r;
    var d := w / m;
    assert (q - d) * m == w % m - r;
    MulAwayFromZero(q - d, m);
  }

  lemma MulAwayFromZero(k: int, m: int)
    requires m > 0
    ensures k >= 1 ==> k * m >= m
    ensures k <= -1 ==> k * m <= -m
  {
  }
}
