/**
 * Hexadecimal digits as Python's `string` module defines them, their values,
 * the most-significant-first value of a digit string, and the two-digit
 * lower-case formatter that inverts it for bytes.
 */
module HexDigits {

  /** The characters of Python's `string.hexdigits`, in its order. */
  const HexDigitCharacters: string := "0123456789abcdefABCDEF"

  /** A digit in one of the three ranges that make up `string.hexdigits`. */
  predicate IsHexDigit(c: char) {
    '0' <= c <= '9' || 'a' <= c <= 'f' || 'A' <= c <= 'F'
  }

  /** The three ranges are exactly the characters of `string.hexdigits`. */
  lemma HexDigitChars(c: char)
    ensures IsHexDigit(c) <==> c in HexDigitCharacters
  {
  }

  predicate AllHexDigits(s: string) {
    forall i :: 0 <= i < |s| ==> IsHexDigit(s[i])
  }

  /** The value of one digit, as `int(c, 16)` gives it: both cases weigh the same. */
  function DigitValue(c: char): (v: nat)
    requires IsHexDigit(c)
    ensures v < 16
    ensures v < 10 <==> '0' <= c <= '9'
  {
    if '0' <= c <= '9' then c as int - '0' as int
    else if 'a' <= c <= 'f' then c as int - 'a' as int + 10
    else c as int - 'A' as int + 10
  }

  function Pow16(n: nat): (p: nat)
    ensures p > 0
  {
    if n == 0 then 1 else 16 * Pow16(n - 1)
  }

  /** The value of a digit string read most significant digit first. */
  function HexValue(s: string): (v: nat)
    requires AllHexDigits(s)
    ensures v < Pow16(|s|)
  {
    if |s| == 0 then 0 else 16 * HexValue(s[..|s| - 1]) + DigitValue(s[|s| - 1])
  }

  /** Two digits: the first is the sixteens, the second the units. */
  lemma HexValuePair(s: string)
    requires |s| == 2 && AllHexDigits(s)
    ensures HexValue(s) == 16 * DigitValue(s[0]) + DigitValue(s[1])
    ensures HexValue(s) < 256
  {
    var first := s[..1];
    assert first[..0] == [];
    assert HexValue(first) == DigitValue(s[0]);
  }

  /** ASCII lower-casing of one character, as `str.lower` does on ASCII text. */
  function LowerChar(c: char): char {
    if 'A' <= c <= 'Z' then (c as int - 'A' as int + 'a' as int) as char else c
  }

  function Lower(s: string): (r: string)
    ensures |r| == |s|
  {
    seq(|s|, i requires 0 <= i < |s| => LowerChar(s[i]))
  }

  /** Lower-casing works character by character, so it distributes over concatenation. */
  lemma LowerConcat(a: string, b: string, c: string)
    ensures Lower(a + b + c) == Lower(a) + Lower(b) + Lower(c)
  {
    var l, r := Lower(a + b + c), Lower(a) + Lower(b) + Lower(c);
    forall i | 0 <= i < |l| ensures l[i] == r[i] {
      if i < |a| {
        assert l[i] == LowerChar(a[i]);
      } else if i < |a| + |b| {
        assert l[i] == LowerChar(b[i - |a|]);
      } else {
        assert l[i] == LowerChar(c[i - |a| - |b|]);
      }
    }
  }

  /** The lower-case digit of a value below 16, as the `x` format code writes it. */
  function LowerDigit(v: nat): (c: char)
    requires v < 16
    ensures IsHexDigit(c) && DigitValue(c) == v
    ensures LowerChar(c) == c
  {
    var c := if v < 10 then ('0' as int + v) as char else ('a' as int + v - 10) as char;
    c
  }

  /** Lower-casing a digit keeps its value, and writing the value back gives the lower-case digit. */
  lemma LowerDigitOfValue(c: char)
    requires IsHexDigit(c)
    ensures IsHexDigit(LowerChar(c)) && DigitValue(LowerChar(c)) == DigitValue(c)
    ensures LowerDigit(DigitValue(c)) == LowerChar(c)
  {
  }

  /** A byte as two lower-case hex digits, zero-padded: the `{:02x}` format. */
  function FormatByte(n: nat): (s: string)
    requires n < 256
    ensures |s| == 2 && AllHexDigits(s)
    ensures HexValue(s) == n
  {
    var s := [LowerDigit(n / 16), LowerDigit(n % 16)];
    HexValuePair(s);
    s
  }

  /** Formatting the value of two digits gives back the digits in lower case. */
  lemma {:induction false} FormatByteOfPair(s: string)
    requires |s| == 2 && AllHexDigits(s)
    ensures HexValue(s) < 256 && FormatByte(HexValue(s)) == Lower(s)
  {
    HexValuePair(s);
    var hi, lo := DigitValue(s[0]), DigitValue(s[1]);
    assert (16 * hi + lo) / 16 == hi && (16 * hi + lo) % 16 == lo;
    LowerDigitOfValue(s[0]);
    LowerDigitOfValue(s[1]);
    assert FormatByte(HexValue(s)) == [LowerDigit(hi), LowerDigit(lo)];
  }

  /** Lower-casing a digit string does not change its value. */
  lemma {:induction false} HexValueLower(s: string)
    requires AllHexDigits(s)
    ensures AllHexDigits(Lower(s)) && HexValue(Lower(s)) == HexValue(s)
  {
    forall i | 0 <= i < |s| ensures IsHexDigit(Lower(s)[i]) {
      LowerDigitOfValue(s[i]);
    }
    if |s| > 0 {
      var init := s[..|s| - 1];
      HexValueLower(init);
      assert Lower(s)[..|s| - 1] == Lower(init);
      LowerDigitOfValue(s[|s| - 1]);
    }
  }
}
