/**
 * Python's `int(text, 16)` on ASCII text, as CPython's string-to-integer
 * conversion reads it: white space around the literal, an optional sign, an
 * optional `0x`/`0X` prefix that may be followed by one underscore, then
 * hex digits in which single underscores may separate two digits. Anything
 * else raises `ValueError`, modelled as `None`.
 */
module PyInt {
  import opened Wrappers
  import opened HexDigits

  /** The ASCII characters CPython skips as white space around a literal. */
  predicate IsAsciiSpace(c: char) {
    c == ' ' || c == '\t' || c == '\n' || c == '\r' || c == '\U{000B}' || c == '\U{000C}'
  }

  /** The first position at or after `i` that does not hold white space. */
  function SkipSpace(s: string, i: nat): (k: nat)
    requires i <= |s|
    ensures i <= k <= |s|
    ensures forall j :: i <= j < k ==> IsAsciiSpace(s[j])
    ensures k < |s| ==> !IsAsciiSpace(s[k])
    decreases |s| - i
  {
    if i < |s| && IsAsciiSpace(s[i]) then SkipSpace(s, i + 1) else i
  }

  /** The position after an optional `+` or `-` at position `i`. */
  function SignEnd(s: string, i: nat): (k: nat)
    requires i <= |s|
    ensures k == i || k == i + 1
    ensures k == i + 1 <==> i < |s| && (s[i] == '+' || s[i] == '-')
  {
    if i < |s| && (s[i] == '+' || s[i] == '-') then i + 1 else i
  }

  /** The position after an optional `0x` or `0X` prefix at position `i` and the one underscore that may follow it. */
  function PrefixEnd(s: string, i: nat): (k: nat)
    requires i <= |s|
    ensures k == i || k == i + 2 || k == i + 3
    ensures k <= |s|
    ensures k != i <==> i + 1 < |s| && s[i] == '0' && (s[i + 1] == 'x' || s[i + 1] == 'X')
    ensures k == i + 3 <==> k != i && i + 2 < |s| && s[i + 2] == '_'
  {
    if i + 1 < |s| && s[i] == '0' && (s[i + 1] == 'x' || s[i + 1] == 'X') then
      if i + 2 < |s| && s[i + 2] == '_' then i + 3 else i + 2
    else i
  }

  /**
   * Reads hex digits and underscores from position `i`, `acc` being the value
   * of the digits read so far and `afterUnderscore` whether the last character
   * read was `_`. Yields the value and the position where the run ends, or None
   * for an underscore that follows another or ends the run.
   */
  function ReadDigits(s: string, i: nat, acc: nat, afterUnderscore: bool): (r: Option<(nat, nat)>)
    requires i <= |s|
    ensures r.Some? ==> i <= r.value.1 <= |s|
    ensures r.Some? && r.value.1 < |s| ==> !IsHexDigit(s[r.value.1]) && s[r.value.1] != '_'
    ensures r.Some? && r.value.1 > i ==> IsHexDigit(s[r.value.1 - 1])
    decreases |s| - i
  {
    if i < |s| && IsHexDigit(s[i]) then ReadDigits(s, i + 1, 16 * acc + DigitValue(s[i]), false)
    else if i < |s| && s[i] == '_' then
      if afterUnderscore then None else ReadDigits(s, i + 1, acc, true)
    else if afterUnderscore then None
    else Some((acc, i))
  }

  /**
   * `int(s, 16)`: the integer the literal denotes, or None where Python raises
   * `ValueError`. The digits must start with a digit (no leading `_`, at least
   * one digit), and only white space may follow them.
   */
  function ParseInt16(s: string): Option<int> {
    var start := SkipSpace(s, 0);
    var first := PrefixEnd(s, SignEnd(s, start));
    if first < |s| && IsHexDigit(s[first]) then
      match ReadDigits(s, first, 0, false)
      case None => None
      case Some((magnitude, end)) =>
        if SkipSpace(s, end) == |s| then
          Some(if start < |s| && s[start] == '-' then -(magnitude as int) else magnitude as int)
        else None
    else None
  }

  predicate AllSpace(s: string) {
    forall i :: 0 <= i < |s| ==> IsAsciiSpace(s[i])
  }

  /** Skipping white space from `i` stops exactly at `j` when `s[i..j]` is all white space and `s[j]` is not. */
  lemma {:induction false} SkipSpaceRun(s: string, i: nat, j: nat)
    requires i <= j <= |s|
    requires forall m :: i <= m < j ==> IsAsciiSpace(s[m])
    requires j < |s| ==> !IsAsciiSpace(s[j])
    ensures SkipSpace(s, i) == j
    decreases j - i
  {
    if i < j {
      SkipSpaceRun(s, i + 1, j);
    }
  }

  /**
   * Reading the digits `s[p..p + n]` from their `j`-th on, with the value of the
   * first `j` accumulated, ends where the run ends with the value of all of them.
   */
  lemma {:induction false} ReadDigitRun(s: string, p: nat, n: nat, j: nat)
    requires j <= n && p + n <= |s|
    requires forall m :: p <= m < p + n ==> IsHexDigit(s[m])
    requires p + n < |s| ==> !IsHexDigit(s[p + n]) && s[p + n] != '_'
    ensures AllHexDigits(s[p..p + j]) && AllHexDigits(s[p..p + n])
    ensures ReadDigits(s, p + j, HexValue(s[p..p + j]), false) == Some((HexValue(s[p..p + n]), p + n))
    decreases n - j
  {
    assert AllHexDigits(s[p..p + j]);
    assert AllHexDigits(s[p..p + n]);
    if j < n {
      var next := s[p..p + j + 1];
      assert next[..j] == s[p..p + j];
      assert HexValue(next) == 16 * HexValue(s[p..p + j]) + DigitValue(s[p + j]);
      ReadDigitRun(s, p, n, j + 1);
    }
  }

  /**
   * `int(s, 16)` when white space runs up to `p0`, the sign ends at `p1`, the
   * prefix at `p2`, the digits fill `s[p2..p3]` and only white space follows.
   */
  lemma ParseLiteralAt(s: string, p0: nat, p1: nat, p2: nat, p3: nat, d: string, negative: bool)
    requires p0 <= p1 <= p2 < p3 <= |s|
    requires forall m :: 0 <= m < p0 ==> IsAsciiSpace(s[m])
    requires !IsAsciiSpace(s[p0]) && (s[p0] == '-' <==> negative)
    requires SignEnd(s, p0) == p1 && PrefixEnd(s, p1) == p2
    requires forall m :: p2 <= m < p3 ==> IsHexDigit(s[m])
    requires s[p2..p3] == d && AllHexDigits(d)
    requires forall m :: p3 <= m < |s| ==> IsAsciiSpace(s[m])
    ensures ParseInt16(s) == Some(if negative then -(HexValue(d) as int) else HexValue(d))
  {
    assert SkipSpace(s, 0) == p0 by {
      SkipSpaceRun(s, 0, p0);
    }
    DigitsBeforeSpace(s, p2, p3, d);
    assert SkipSpace(s, p3) == |s| by {
      SkipSpaceRun(s, p3, |s|);
    }
    assert IsHexDigit(s[p2]);
  }

  /** Digits followed by nothing but white space read as their value. */
  lemma DigitsBeforeSpace(s: string, p2: nat, p3: nat, d: string)
    requires p2 <= p3 <= |s|
    requires forall m :: p2 <= m < p3 ==> IsHexDigit(s[m])
    requires s[p2..p3] == d && AllHexDigits(d)
    requires forall m :: p3 <= m < |s| ==> IsAsciiSpace(s[m])
    ensures ReadDigits(s, p2, 0, false) == Some((HexValue(d), p3))
  {
    assert p3 < |s| ==> IsAsciiSpace(s[p3]);
    ReadDigitRun(s, p2, p3 - p2, 0);
    assert s[p2..p2 + 0] == [];
  }

  /**
   * `int(a + sign + prefix + d + b, 16)` for white space `a` and `b`, a sign of
   * `+`, `-` or none, a prefix of `0x` or `0X`, either followed by one `_`, or
   * none, and a non-empty run of hex digits `d`: the value of `d`, negated
   * after a `-`.
   */
  lemma ParseLiteral(a: string, sign: string, prefix: string, d: string, b: string)
    requires AllSpace(a) && AllSpace(b)
    requires sign == "" || sign == "+" || sign == "-"
    requires prefix == "" || prefix == "0x" || prefix == "0X" || prefix == "0x_" || prefix == "0X_"
    requires |d| > 0 && AllHexDigits(d)
    ensures ParseInt16(a + sign + prefix + d + b) == Some(if sign == "-" then -(HexValue(d) as int) else HexValue(d))
  {
    var s := a + sign + prefix + d + b;
    var p0 := |a|;
    var p1 := p0 + |sign|;
    var p2 := p1 + |prefix|;
    LiteralLayout(a, sign, prefix, d, b);
    ParseLiteralAt(s, p0, p1, p2, p2 + |d|, d, sign == "-");
  }

  /** Where each part of `a + sign + prefix + d + b` sits. */
  lemma LiteralLayout(a: string, sign: string, prefix: string, d: string, b: string)
    requires AllSpace(a) && AllSpace(b)
    requires sign == "" || sign == "+" || sign == "-"
    requires prefix == "" || prefix == "0x" || prefix == "0X" || prefix == "0x_" || prefix == "0X_"
    requires |d| > 0 && AllHexDigits(d)
    ensures var s, p0 := a + sign + prefix + d + b, |a|;
      var p1 := p0 + |sign|;
      var p2 := p1 + |prefix|;
      var p3 := p2 + |d|;
      && p3 <= |s|
      && (forall m :: 0 <= m < p0 ==> IsAsciiSpace(s[m]))
      && !IsAsciiSpace(s[p0]) && (s[p0] == '-' <==> sign == "-")
      && SignEnd(s, p0) == p1 && PrefixEnd(s, p1) == p2
      && s[p2..p3] == d
      && (forall m :: p2 <= m < p3 ==> IsHexDigit(s[m]))
      && (forall m :: p3 <= m < |s| ==> IsAsciiSpace(s[m]))
  {
    var s, p0 := a + sign + prefix + d + b, |a|;
    var p1 := p0 + |sign|;
    var p2 := p1 + |prefix|;
    var p3 := p2 + |d|;
    assert forall m :: 0 <= m < p0 ==> s[m] == a[m];
    assert forall m :: p2 <= m < p3 ==> s[m] == d[m - p2];
    assert forall m :: p3 <= m < |s| ==> s[m] == b[m - p3];
    assert sign != "" ==> s[p0] == sign[0];
    assert prefix != "" ==> s[p1] == '0' && s[p1 + 1] == prefix[1];
    assert |prefix| == 3 ==> s[p1 + 2] == '_';
    assert s[p2] == d[0];
    if prefix == "" && p1 + 1 < |s| {
      assert IsHexDigit(s[p1 + 1]) || IsAsciiSpace(s[p1 + 1]);
    }
  }

  /** A bare run of hex digits parses to its most-significant-first value, whatever the case of its letters. */
  lemma ParseHexDigits(s: string)
    requires |s| > 0 && AllHexDigits(s)
    ensures ParseInt16(s) == Some(HexValue(s))
  {
    ParseLiteral("", "", "", s, "");
    assert "" + "" + "" + s + "" == s;
  }

  /** Python skips white space around the literal: `int(" ff\n", 16) == 255`. */
  lemma SpacedLiteralExample()
    ensures ParseInt16(" ff\n") == Some(255)
  {
    var s := " ff\n";
    assert SkipSpace(s, 0) == 1 && SignEnd(s, 1) == 1 && PrefixEnd(s, 1) == 1;
    assert ReadDigits(s, 1, 0, false) == Some((255, 3));
    assert SkipSpace(s, 3) == 4;
  }

  /** A sign, the `0X` prefix and one underscore after it: `int("-0X_1F", 16) == -31`. */
  lemma SignedPrefixedExample()
    ensures ParseInt16("-0X_1F") == Some(-31)
  {
    var s := "-0X_1F";
    assert SkipSpace(s, 0) == 0 && SignEnd(s, 0) == 1 && PrefixEnd(s, 1) == 4;
    assert ReadDigits(s, 4, 0, false) == Some((31, 6));
  }

  /** A prefix with no digits after it raises `ValueError`. */
  lemma BarePrefixExample()
    ensures ParseInt16("0x") == None
  {
    var s := "0x";
    assert SkipSpace(s, 0) == 0 && SignEnd(s, 0) == 0 && PrefixEnd(s, 0) == 2;
  }

  /** Two underscores in a row raise `ValueError`, and so does an underscore before the first digit. */
  lemma UnderscoreExamples()
    ensures ParseInt16("f__f") == None
    ensures ParseInt16("_ff") == None
  {
    var s := "f__f";
    assert SkipSpace(s, 0) == 0 && SignEnd(s, 0) == 0 && PrefixEnd(s, 0) == 0;
    assert ReadDigits(s, 2, 15, true) == None;
    var u := "_ff";
    assert SkipSpace(u, 0) == 0 && SignEnd(u, 0) == 0 && PrefixEnd(u, 0) == 0;
  }
}
