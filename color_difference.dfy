/**
 * The hex-colour front end of the colour-difference script: the validator
 * `is_valid_hexcolor`, the parser `hex_to_rgb`, and the order in which the
 * script checks its two arguments before converting them.
 */
module ColorDifference {
  import opened Wrappers
  import opened HexDigits
  import opened PyInt

  predicate StartsWithHash(s: string) {
    |s| > 0 && s[0] == '#'
  }

  // ---------------------------------------------------------------------------
  // Validation
  // ---------------------------------------------------------------------------

  /**
   * `is_valid_hexcolor`: every character is in `string.hexdigits`, and either
   * six characters without a leading `#` or seven with one. As `#` is not a hex
   * digit the second alternative never holds, so only six bare digits pass.
   */
  function IsValidHexColor(s: string): (ok: bool)
    ensures ok <==> |s| == 6 && AllHexDigits(s)
  {
    AllHexDigits(s) && ((|s| == 6 && !StartsWithHash(s)) || (|s| == 7 && StartsWithHash(s)))
  }

  /** The `#`-prefixed alternative of the validator can never be the one that holds. */
  lemma PrefixedAlternativeUnreachable(s: string)
    ensures !(AllHexDigits(s) && |s| == 7 && StartsWithHash(s))
  {
    if AllHexDigits(s) && |s| > 0 {
      assert IsHexDigit(s[0]);
    }
  }

  /** A `#` anywhere in the argument makes it invalid. */
  lemma HashRejected(s: string, i: nat)
    requires i < |s| && s[i] == '#'
    ensures !IsValidHexColor(s)
  {
    assert !IsHexDigit(s[i]);
  }

  /** The validator on typical inputs, with and without `#`. */
  lemma ValidationExamples()
    ensures IsValidHexColor("FF0000") && IsValidHexColor("a1B2c3")
    ensures !IsValidHexColor("#FF0000")
    ensures !IsValidHexColor("FF000") && !IsValidHexColor("FF00001")
    ensures !IsValidHexColor("#GG0000") && !IsValidHexColor("FF00G0")
  {
    HashRejected("#FF0000", 0);
    assert !IsHexDigit("FF00G0"[4]);
  }

  // ---------------------------------------------------------------------------
  // Parsing
  // ---------------------------------------------------------------------------

  /** Why `hex_to_rgb` raises: `range` with a zero step, or a slice `int` refuses. */
  datatype ParseError = ZeroStep | InvalidLiteral(literal: string)

  /** `hexcode.lstrip('#')`: every leading `#` removed, and nothing else. */
  function LStripHash(s: string): (t: string)
    ensures |t| <= |s| && t == s[|s| - |t|..]
    ensures forall i :: 0 <= i < |s| - |t| ==> s[i] == '#'
    ensures !StartsWithHash(t)
  {
    if StartsWithHash(s) then LStripHash(s[1..]) else s
  }

  function Min(a: int, b: int): int {
    if a <= b then a else b
  }

  /** The slices `t[i:i + w]` for `i` in `range(start, len(t), w)`, Python clamping the end of the last. */
  function Slices(t: string, w: nat, start: nat): seq<string>
    requires w > 0
    decreases |t| - start
  {
    if start >= |t| then [] else [t[start..Min(start + w, |t|)]] + Slices(t, w, start + w)
  }

  function Concat(r: seq<string>): string {
    if r == [] then [] else r[0] + Concat(r[1..])
  }

  /** Read back in order, the slices are exactly the text from `start` on. */
  lemma {:induction false} SlicesCover(t: string, w: nat, start: nat)
    requires w > 0 && start <= |t|
    ensures Concat(Slices(t, w, start)) == t[start..]
    decreases |t| - start
  {
    if start < |t| {
      var next := Min(start + w, |t|);
      SlicesCover(t, w, next);
      if next == |t| {
        assert Slices(t, w, start + w) == [];
      }
      assert t[start..] == t[start..next] + t[next..];
    }
  }

  /** Every slice is non-empty and at most `w` long, and all but the last are exactly `w` long. */
  lemma {:induction false} SliceWidths(t: string, w: nat, start: nat)
    requires w > 0
    ensures forall j :: 0 <= j < |Slices(t, w, start)| ==> 0 < |Slices(t, w, start)[j]| <= w
    ensures forall j :: 0 <= j < |Slices(t, w, start)| - 1 ==> |Slices(t, w, start)[j]| == w
    decreases |t| - start
  {
    if start < |t| {
      SliceWidths(t, w, start + w);
      var rest := Slices(t, w, start + w);
      var r := Slices(t, w, start);
      assert r == [t[start..Min(start + w, |t|)]] + rest;
      forall j | 0 <= j < |r| ensures 0 < |r[j]| <= w && (j < |r| - 1 ==> |r[j]| == w) {
        if j == 0 {
          var end := Min(start + w, |t|);
          assert r[0] == t[start..end] && start < end <= start + w;
          if rest != [] {
            assert start + w < |t| && end == start + w;
          }
        } else {
          assert |r| == |rest| + 1 && r[j] == rest[j - 1];
          assert 0 < |rest[j - 1]| <= w && (j - 1 < |rest| - 1 ==> |rest[j - 1]| == w);
        }
      }
    }
  }

  /**
   * With `w = len(t) // 3`, the slices are three of width `w`, then the
   * remaining `len(t) % 3` characters: nothing, one slice of them when they are
   * at most `w`, or (five characters) two slices of one.
   */
  lemma SliceLayout(t: string)
    requires |t| >= 3
    ensures var w, rem := |t| / 3, |t| % 3;
      Slices(t, w, 0) == [t[..w], t[w..2 * w], t[2 * w..3 * w]] +
        (if rem == 0 then [] else if rem <= w then [t[3 * w..]] else [t[3 * w..3 * w + 1], t[3 * w + 1..]])
  {
    SliceLayoutBy(t, |t| / 3, |t| % 3);
  }

  lemma SliceLayoutBy(t: string, w: nat, rem: nat)
    requires w > 0 && rem < 3 && |t| == 3 * w + rem
    ensures Slices(t, w, 0) == [t[..w], t[w..2 * w], t[2 * w..3 * w]] +
        (if rem == 0 then [] else if rem <= w then [t[3 * w..]] else [t[3 * w..3 * w + 1], t[3 * w + 1..]])
  {
    FirstThreeSlices(t, w);
    if rem == 0 {
      assert Slices(t, w, 3 * w) == [];
    } else if rem <= w {
      LastSlice(t, w, 3 * w);
    } else {
      assert w == 1 && |t| == 5;
      LastSlice(t, 1, 4);
      assert Slices(t, 1, 3) == [t[3..4]] + Slices(t, 1, 4);
    }
  }

  /** The first three slices have the full width `w`. */
  lemma FirstThreeSlices(t: string, w: nat)
    requires w > 0 && |t| >= 3 * w
    ensures Slices(t, w, 0) == [t[0..w], t[w..2 * w], t[2 * w..3 * w]] + Slices(t, w, 3 * w)
  {
    var a, b, c := t[0..w], t[w..2 * w], t[2 * w..3 * w];
    var rest := Slices(t, w, 3 * w);
    FullSlice(t, w, 2 * w);
    assert Slices(t, w, 2 * w) == [c] + rest;
    FullSlice(t, w, w);
    assert Slices(t, w, w) == [b] + ([c] + rest);
    FullSlice(t, w, 0);
    assert Slices(t, w, 0) == [a] + ([b] + ([c] + rest));
    assert [a] + ([b] + ([c] + rest)) == [a, b, c] + rest;
  }

  lemma FullSlice(t: string, w: nat, start: nat)
    requires w > 0 && start + w <= |t|
    ensures Slices(t, w, start) == [t[start..start + w]] + Slices(t, w, start + w)
  {
  }

  /** A slice that reaches the end of the text is the last one. */
  lemma LastSlice(t: string, w: nat, start: nat)
    requires w > 0 && start < |t| <= start + w
    ensures Slices(t, w, start) == [t[start..]]
  {
    assert Slices(t, w, start + w) == [];
    assert t[start..Min(start + w, |t|)] == t[start..];
  }

  /** `tuple(int(c, 16) for c in chunks)`: evaluated left to right, the first slice that fails raises. */
  function ParseSlices(chunks: seq<string>): Result<seq<int>, ParseError> {
    if chunks == [] then Ok([])
    else
      match ParseInt16(chunks[0])
      case None => Err(InvalidLiteral(chunks[0]))
      case Some(v) =>
        match ParseSlices(chunks[1..])
        case Err(e) => Err(e)
        case Ok(vs) => Ok([v] + vs)
  }

  /**
   * The tuple is built exactly when every slice parses, and then holds their
   * values in order; otherwise the error names the first slice that fails.
   */
  lemma {:induction false} ParseSlicesOutcome(chunks: seq<string>)
    ensures var r := ParseSlices(chunks);
      && (r.Ok? <==> forall i :: 0 <= i < |chunks| ==> ParseInt16(chunks[i]).Some?)
      && (r.Ok? ==> |r.value| == |chunks| && forall i :: 0 <= i < |chunks| ==> ParseInt16(chunks[i]) == Some(r.value[i]))
      && (r.Err? ==> exists i :: FirstFailure(chunks, i) && r.error == InvalidLiteral(chunks[i]))
  {
    if chunks != [] {
      var rest := chunks[1..];
      ParseSlicesOutcome(rest);
      assert forall i :: 0 < i < |chunks| ==> chunks[i] == rest[i - 1];
      match ParseInt16(chunks[0])
      case None =>
        assert FirstFailure(chunks, 0);
      case Some(v) =>
        match ParseSlices(rest)
        case Err(e) =>
          var i :| FirstFailure(rest, i) && e == InvalidLiteral(rest[i]);
          assert FirstFailure(chunks, i + 1);
        case Ok(vs) =>
      }
  }

  /** Slice `i` is the first that `int(_, 16)` refuses. */
  ghost predicate FirstFailure(chunks: seq<string>, i: int) {
    && 0 <= i < |chunks|
    && ParseInt16(chunks[i]).None?
    && forall j :: 0 <= j < i ==> ParseInt16(chunks[j]).Some?
  }

  /**
   * `hex_to_rgb`: strip every leading `#`, cut the rest into slices of width
   * `len // 3` and read each in base 16. The width is 0 when fewer than three
   * characters remain, and `range` then raises.
   */
  function HexToRgb(hexcode: string): (r: Result<seq<int>, ParseError>)
    ensures r == Err(ZeroStep) <==> |LStripHash(hexcode)| < 3
    ensures r.Ok? ==> |r.value| >= 3
  {
    var t := LStripHash(hexcode);
    var w := |t| / 3;
    if w == 0 then Err(ZeroStep)
    else
      SliceLayout(t);
      ParseSlicesOutcome(Slices(t, w, 0));
      ParseSlices(Slices(t, w, 0))
  }

  /** Any run of leading `#`, however long, is stripped, not only the first. */
  lemma HashRunIgnored(n: nat, s: string)
    ensures HexToRgb(Hashes(n) + s) == HexToRgb(s)
  {
    StripHashRun(n, s);
    SameStripSameResult(Hashes(n) + s, s);
  }

  function Hashes(n: nat): (h: string)
    ensures |h| == n && forall i :: 0 <= i < n ==> h[i] == '#'
  {
    seq(n, _ => '#')
  }

  lemma {:induction false} StripHashRun(n: nat, s: string)
    ensures LStripHash(Hashes(n) + s) == LStripHash(s)
  {
    if n == 0 {
      assert Hashes(n) + s == s;
    } else {
      StripHashRun(n - 1, s);
      DropFirstHash(n, s);
      var t := Hashes(n) + s;
      assert StartsWithHash(t);
      assert LStripHash(t) == LStripHash(t[1..]);
    }
  }

  lemma DropFirstHash(n: nat, s: string)
    requires n > 0
    ensures var t := Hashes(n) + s; t[0] == '#' && t[1..] == Hashes(n - 1) + s
  {
    var t, u := Hashes(n) + s, Hashes(n - 1) + s;
    forall i | 0 <= i < |u| ensures t[1..][i] == u[i] {
      if i < n - 1 {
        assert t[i + 1] == '#' && u[i] == '#';
      } else {
        assert t[i + 1] == s[i - (n - 1)] && u[i] == s[i - (n - 1)];
      }
    }
  }

  /** `hex_to_rgb` sees its argument only through `lstrip('#')`. */
  lemma SameStripSameResult(a: string, b: string)
    requires LStripHash(a) == LStripHash(b)
    ensures HexToRgb(a) == HexToRgb(b)
  {
  }

  /**
   * How many integers `hex_to_rgb` returns: three when the stripped length is a
   * multiple of three, five for five characters, four otherwise.
   */
  lemma ComponentCount(s: string)
    requires HexToRgb(s).Ok?
    ensures var n := |LStripHash(s)|;
      |HexToRgb(s).value| == if n % 3 == 0 then 3 else if n == 5 then 5 else 4
  {
    var t := LStripHash(s);
    SliceLayout(t);
    ParseSlicesOutcome(Slices(t, |t| / 3, 0));
  }

  /** Channel `k` of a six-digit colour: digits `2k` and `2k+1`, the first the sixteens. */
  function Channel(s: string, k: nat): (v: nat)
    requires |s| == 6 && AllHexDigits(s) && k < 3
    ensures v < 256
  {
    16 * DigitValue(s[2 * k]) + DigitValue(s[2 * k + 1])
  }

  /** An accepted colour parses to exactly three integers, read pairwise left to right. */
  lemma HexToRgbOfValid(s: string)
    requires IsValidHexColor(s)
    ensures HexToRgb(s) == Ok([Channel(s, 0), Channel(s, 1), Channel(s, 2)])
  {
    SixDigitsUnstripped(s);
    SixCharacterSlices(s);
    ChannelsParse(s);
  }

  /** The three pairs of a valid colour all parse, to its three channels. */
  lemma ChannelsParse(s: string)
    requires IsValidHexColor(s)
    ensures ParseSlices([s[..2], s[2..4], s[4..6]]) == Ok([Channel(s, 0), Channel(s, 1), Channel(s, 2)])
  {
    PairParses(s, 0);
    PairParses(s, 1);
    PairParses(s, 2);
    AllSlicesParse([s[..2], s[2..4], s[4..6]], [Channel(s, 0), Channel(s, 1), Channel(s, 2)]);
  }

  /** Six digits are not stripped, and the slice width is 2. */
  lemma SixDigitsUnstripped(s: string)
    requires IsValidHexColor(s)
    ensures HexToRgb(s) == ParseSlices(Slices(s, 2, 0))
  {
    assert IsHexDigit(s[0]);
    assert LStripHash(s) == s;
  }

  /** Six characters cut at width 2 give three pairs. */
  lemma SixCharacterSlices(s: string)
    requires |s| == 6
    ensures Slices(s, 2, 0) == [s[..2], s[2..4], s[4..6]]
  {
    SliceLayoutBy(s, 2, 0);
  }

  /** The pair of digits of channel `k` reads in base 16 as that channel. */
  lemma PairParses(s: string, k: nat)
    requires |s| == 6 && AllHexDigits(s) && k < 3
    ensures ParseInt16(s[2 * k..2 * k + 2]) == Some(Channel(s, k))
  {
    DigitPairParses(s, 2 * k);
  }

  /** Any two adjacent digits read in base 16 as the sixteens and then the units. */
  lemma DigitPairParses(s: string, i: nat)
    requires i + 2 <= |s| && AllHexDigits(s)
    ensures ParseInt16(s[i..i + 2]) == Some(16 * DigitValue(s[i]) + DigitValue(s[i + 1]))
  {
    var c := s[i..i + 2];
    assert c[0] == s[i] && c[1] == s[i + 1];
    ParseHexDigits(c);
    HexValuePair(c);
  }

  /** When every slice parses, the tuple holds their values in order. */
  lemma AllSlicesParse(chunks: seq<string>, values: seq<int>)
    requires |chunks| == |values|
    requires forall k :: 0 <= k < |chunks| ==> ParseInt16(chunks[k]) == Some(values[k])
    ensures ParseSlices(chunks) == Ok(values)
  {
    ParseSlicesOutcome(chunks);
    var r := ParseSlices(chunks);
    assert r.Ok? && |r.value| == |values|;
    forall k | 0 <= k < |values| ensures r.value[k] == values[k] {
      assert ParseInt16(chunks[k]) == Some(r.value[k]);
    }
    assert r.value == values;
  }

  /** An RGB triple as the script passes it on. */
  datatype Rgb = Rgb(red: int, green: int, blue: int) {
    predicate InByteRange() {
      0 <= red < 256 && 0 <= green < 256 && 0 <= blue < 256
    }

    function Components(): seq<int> {
      [red, green, blue]
    }
  }

  /** The triple `hex_to_rgb` returns for an accepted colour (see HexToRgbOfValid), each channel a byte. */
  function RgbOf(s: string): (c: Rgb)
    requires IsValidHexColor(s)
    ensures c.InByteRange()
  {
    Rgb(Channel(s, 0), Channel(s, 1), Channel(s, 2))
  }

  // ---------------------------------------------------------------------------
  // Formatting: the inverse of parsing
  // ---------------------------------------------------------------------------

  /** Each channel as two lower-case hex digits, concatenated: `'{:02x}{:02x}{:02x}'`. */
  function FormatRgb(c: Rgb): (s: string)
    requires c.InByteRange()
    ensures IsValidHexColor(s) && Lower(s) == s
  {
    var s := FormatByte(c.red) + FormatByte(c.green) + FormatByte(c.blue);
    assert forall i :: 0 <= i < 6 ==> LowerChar(s[i]) == s[i];
    s
  }

  /** Parsing a formatted triple gives the triple back. */
  lemma FormatThenParse(c: Rgb)
    requires c.InByteRange()
    ensures HexToRgb(FormatRgb(c)) == Ok(c.Components())
  {
    var s := FormatRgb(c);
    assert RgbOf(s) == c by {
      assert s[..2] == FormatByte(c.red) && s[2..4] == FormatByte(c.green) && s[4..] == FormatByte(c.blue);
      HexValuePair(s[..2]);
      HexValuePair(s[2..4]);
      HexValuePair(s[4..]);
    }
    HexToRgbOfValid(s);
  }

  /** Formatting what `hex_to_rgb` returns gives back the colour in lower case. */
  lemma RoundTrip(s: string)
    requires IsValidHexColor(s)
    ensures HexToRgb(s) == Ok(RgbOf(s).Components())
    ensures FormatRgb(RgbOf(s)) == Lower(s)
  {
    HexToRgbOfValid(s);
    FormatChannels(s);
  }

  /** Formatting the three channels of a valid colour gives it back in lower case. */
  lemma FormatChannels(s: string)
    requires IsValidHexColor(s)
    ensures FormatRgb(RgbOf(s)) == Lower(s)
  {
    var c := RgbOf(s);
    FormatChannel(s, 0);
    FormatChannel(s, 1);
    FormatChannel(s, 2);
    assert FormatRgb(c) == FormatByte(c.red) + FormatByte(c.green) + FormatByte(c.blue);
    assert s == s[0..2] + s[2..4] + s[4..6];
    LowerConcat(s[0..2], s[2..4], s[4..6]);
  }

  /** Formatting channel `k` gives its two digits in lower case. */
  lemma FormatChannel(s: string, k: nat)
    requires |s| == 6 && AllHexDigits(s) && k < 3
    ensures FormatByte(Channel(s, k)) == Lower(s[2 * k..2 * k + 2])
  {
    var pair := s[2 * k..2 * k + 2];
    assert pair[0] == s[2 * k] && pair[1] == s[2 * k + 1];
    HexValuePair(pair);
    FormatByteOfPair(pair);
  }

  /** Upper- and lower-case digits give the same triple. */
  lemma CaseInsensitive(s: string)
    requires IsValidHexColor(s)
    ensures IsValidHexColor(Lower(s)) && HexToRgb(Lower(s)) == HexToRgb(s)
  {
    var l := Lower(s);
    assert IsValidHexColor(l) && forall k :: 0 <= k < 3 ==> Channel(l, k) == Channel(s, k) by {
      forall i | 0 <= i < 6 ensures IsHexDigit(l[i]) && DigitValue(l[i]) == DigitValue(s[i]) {
        LowerDigitOfValue(s[i]);
      }
    }
    HexToRgbOfValid(s);
    HexToRgbOfValid(l);
  }

  /**
   * Two digits after the `#` leave a slice width of 0. The text is passed as a
   * parameter equal to the literal: with the literal written into the call,
   * the verifier would evaluate the whole parser on it.
   */
  lemma TooShortExample(hexcode: string)
    requires hexcode == "#ab"
    ensures HexToRgb(hexcode) == Err(ZeroStep)
  {
    assert StartsWithHash(hexcode);
  }

  // ---------------------------------------------------------------------------
  // The script's guard
  // ---------------------------------------------------------------------------

  /** What the script does with its two arguments before any colour arithmetic. */
  datatype Verdict =
    | ReferenceInvalid(reference: string)
    | SampleInvalid(sample: string)
    | Converted(referenceRgb: Rgb, sampleRgb: Rgb)

  /**
   * The reference is checked first and alone decides when it is invalid; the
   * sample is checked only after it; both are converted only when both pass.
   */
  function CheckArguments(reference: string, sample: string): (v: Verdict)
    ensures v.ReferenceInvalid? <==> !IsValidHexColor(reference)
    ensures v.SampleInvalid? <==> IsValidHexColor(reference) && !IsValidHexColor(sample)
    ensures v.ReferenceInvalid? ==> v.reference == reference
    ensures v.SampleInvalid? ==> v.sample == sample
    ensures v.Converted? ==>
      && v.referenceRgb.InByteRange() && HexToRgb(reference) == Ok(v.referenceRgb.Components())
      && v.sampleRgb.InByteRange() && HexToRgb(sample) == Ok(v.sampleRgb.Components())
  {
    if !IsValidHexColor(reference) then ReferenceInvalid(reference)
    else if !IsValidHexColor(sample) then SampleInvalid(sample)
    else
      HexToRgbOfValid(reference);
      HexToRgbOfValid(sample);
      Converted(RgbOf(reference), RgbOf(sample))
  }

  /** White against black is converted; a `#`-prefixed reference stops the script first. */
  lemma CheckArgumentsExamples()
    ensures CheckArguments("FFFFFF", "000000") == Converted(Rgb(255, 255, 255), Rgb(0, 0, 0))
    ensures CheckArguments("#FFFFFF", "#000000") == ReferenceInvalid("#FFFFFF")
    ensures CheckArguments("FFFFFF", "#000000") == SampleInvalid("#000000")
  {
    assert IsValidHexColor("FFFFFF") && IsValidHexColor("000000");
    assert RgbOf("FFFFFF") == Rgb(255, 255, 255);
    assert RgbOf("000000") == Rgb(0, 0, 0);
    HashRejected("#FFFFFF", 0);
    HashRejected("#000000", 0);
  }
}
