# Hex-colour front end of `color_difference.py`

`color_difference.py` reads two hexadecimal colours from the command line, a
reference and a sample. It converts each to CIE Lab and prints their CIE94
distance. This project models the integer part of that path:

- `is_valid_hexcolor`, which accepts or rejects each argument;
- `hex_to_rgb`, which turns a hex string into a tuple of integers;
- the guard in the script's main block. It checks the reference first, then
  the sample, and converts only when both pass.

The model has four modules, one per file:

- `Wrappers` (`wrappers.dfy`): the `Option` and `Result` datatypes.
- `HexDigits` (`hex_digits.dfy`):
  - the characters of Python's `string.hexdigits`;
  - digit values, and the most-significant-first value of a digit string;
  - ASCII lower-casing;
  - the two-digit lower-case byte formatter (`'{:02x}'`). It is the inverse
    the round-trip properties are stated against.
- `PyInt` (`py_int.dfy`): Python's `int(text, 16)` on ASCII text, as CPython
  reads a literal:
  - white space around it;
  - an optional sign;
  - an optional `0x`/`0X` prefix with one optional underscore after it;
  - digits separated by single underscores.

  Where Python raises `ValueError`, the model returns `None`.
- `ColorDifference` (`color_difference.dfy`): the validator, `hex_to_rgb`, the
  formatter for a whole colour, and the argument guard.

`hex_to_rgb` is defined on every string, not only on validated ones. It
returns a `Result` with two error cases:

- `ZeroStep`: fewer than three characters remain after stripping `#`, so
  `len // 3` is 0 and `range` raises;
- `InvalidLiteral`: the first slice that `int(_, 16)` refuses.

Otherwise it returns the tuple of slice values. That tuple has three, four or
five elements, depending on the length of the stripped text.

The validator's second alternative suggests that a `#`-prefixed colour such
as `#FF0000` is meant to pass. It never does: `'#'` is not in
`string.hexdigits`, so the `all(...)` test fails for every string that
contains `#`. The second alternative (seven characters starting with `#`) can
therefore never hold, and only six bare hex digits pass. The model follows
the code. This is proved by `PrefixedAlternativeUnreachable`, `HashRejected`
and `ValidationExamples`.

The script calls `hex_to_rgb` only on validated input. On its own,
`hex_to_rgb` raises when fewer than three characters remain, and the model
returns `ZeroStep`.

## Model

| member | source | states |
|---|---|---|
| `HexDigits.HexDigitChars` | color_difference.py:81 | A character is a hex digit in the model exactly when it is one of the 22 characters of `string.hexdigits`. |
| `HexDigits.DigitValue` | color_difference.py:12 | A digit's base-16 value is below 16. It is below 10 exactly for `0`-`9`. |
| `HexDigits.HexValue` | color_difference.py:12 | The most-significant-first value of `n` digits is below `16^n`. |
| `HexDigits.HexValuePair` | color_difference.py:12 | Two digits read as 16 times the first plus the second, which is below 256. |
| `HexDigits.LowerConcat` | color_difference.py:12 | Lower-casing works character by character, so it distributes over concatenation. |
| `HexDigits.LowerDigitOfValue` | color_difference.py:12 | Lower-casing a digit keeps it a digit and keeps its value. Writing that value back gives the lower-case digit. |
| `HexDigits.FormatByte` | color_difference.py:12 | Two-digit formatting of a byte gives two hex digits whose value is the byte. |
| `HexDigits.FormatByteOfPair` | color_difference.py:12 | Formatting the value of any two digits gives those digits in lower case. |
| `HexDigits.HexValueLower` | color_difference.py:12 | Lower-casing a digit string keeps every character a digit and keeps its value. |
| `PyInt.SkipSpace` | color_difference.py:12 | `int` skips white space up to the first non-space character and no further. |
| `PyInt.ReadDigits` | color_difference.py:12 | A successful digit run ends after a digit, at the end of the text or at a character that is neither a digit nor `_`. |
| `PyInt.SignEnd` | color_difference.py:12 | `int` takes one optional sign: it moves past exactly one character, and does so exactly when that character is `+` or `-`. |
| `PyInt.PrefixEnd` | color_difference.py:12 | `int` takes an optional `0x`/`0X` prefix and then at most one `_`: it moves past 0, 2 or 3 characters, past 2 or 3 exactly when `0x` or `0X` is there, and past 3 exactly when a `_` follows the prefix. |
| `PyInt.SkipSpaceRun` | color_difference.py:12 | Skipping white space stops exactly at the first character that is not white space. |
| `PyInt.ReadDigitRun` | color_difference.py:12 | Reading a run of digits left to right, from any point in it, accumulates the most-significant-first value of the whole run and stops where the run ends. |
| `PyInt.DigitsBeforeSpace` | color_difference.py:12 | Digits followed only by white space read as their value and end where the white space starts. |
| `PyInt.ParseLiteralAt` | color_difference.py:12 | `int(s, 16)` given where the leading white space, the sign, the prefix and the digits end, with only white space after: the digits' value, negated after `-`. |
| `PyInt.LiteralLayout` | color_difference.py:12 | In white space + sign + prefix + digits + white space, each part sits where `int` looks for it. |
| `PyInt.ParseLiteral` | color_difference.py:12 | For all white-space `a` and `b`, any sign `+`, `-` or none, any prefix `0x`, `0X`, `0x_`, `0X_` or none, and any non-empty hex digits `d`, `int(a + sign + prefix + d + b, 16)` is the value of `d`, negated after `-`. |
| `PyInt.ParseHexDigits` | color_difference.py:12 | `int(s, 16)` of a non-empty run of hex digits of either case is its most-significant-first value. This is the case of `ParseLiteral` with no white space, sign or prefix. |
| `PyInt.SpacedLiteralExample` | color_difference.py:12 | `int(" ff\n", 16)` is 255: surrounding white space is accepted. |
| `PyInt.SignedPrefixedExample` | color_difference.py:12 | `int("-0X_1F", 16)` is -31: a sign, the prefix and one underscore after it are accepted. |
| `PyInt.BarePrefixExample` | color_difference.py:12 | `int("0x", 16)` raises: a prefix needs digits after it. |
| `PyInt.UnderscoreExamples` | color_difference.py:12 | Two underscores in a row raise, and so does an underscore before the first digit. |
| `ColorDifference.IsValidHexColor` | color_difference.py:80-81 | The validator as written holds exactly when the string has six characters, all hex digits. |
| `ColorDifference.PrefixedAlternativeUnreachable` | color_difference.py:81 | The seven-character `#`-prefixed alternative of the validator never holds. |
| `ColorDifference.HashRejected` | color_difference.py:81 | A `#` at any position makes the string invalid. |
| `ColorDifference.ValidationExamples` | color_difference.py:81 | `FF0000` and `a1B2c3` are valid. `#FF0000`, `FF000`, `FF00001`, `#GG0000` and `FF00G0` are not. |
| `ColorDifference.LStripHash` | color_difference.py:10 | `lstrip('#')` returns a suffix of its argument. Everything it removes is `#`, and the result does not start with `#`. |
| `ColorDifference.SlicesCover` | color_difference.py:12 | The slices `t[i:i+w]` for `i` in `range(start, len(t), w)`, read back in order, are exactly `t[start:]`. |
| `ColorDifference.SliceLayout` | color_difference.py:11-12 | With `w = len(t)//3`, the slices are three of width `w`, then one of three tails. The tail is nothing when the length is a multiple of 3. Otherwise it is one slice of the remaining `len % 3 <= w` characters, or two one-character slices for five characters. |
| `ColorDifference.SliceWidths` | color_difference.py:12 | Python's clamped slices `t[i:i+w]` over `range(start, len(t), w)` are each non-empty and at most `w` long. All but the last are exactly `w` long. |
| `ColorDifference.ParseSlicesOutcome` | color_difference.py:12 | The tuple is built exactly when every slice parses, and then holds their values in order. Otherwise the error names the first slice that fails. |
| `ColorDifference.AllSlicesParse` | color_difference.py:12 | Slices that all parse give the tuple of their values. |
| `ColorDifference.HexToRgb` | color_difference.py:9-12 | `hex_to_rgb` raises for the zero step exactly when fewer than three characters remain after stripping. Any tuple it returns has at least three elements. |
| `ColorDifference.HashRunIgnored` | color_difference.py:10 | Any number of leading `#` is ignored, not only one. |
| `ColorDifference.StripHashRun` | color_difference.py:10 | `lstrip('#')` removes a whole leading run of `#`. |
| `ColorDifference.SameStripSameResult` | color_difference.py:10-12 | `hex_to_rgb` depends on its argument only through `lstrip('#')`. |
| `ColorDifference.ComponentCount` | color_difference.py:11-12 | A successful result has 3 elements when the stripped length is a multiple of 3, 5 for five characters, and 4 otherwise. |
| `ColorDifference.Channel` | color_difference.py:12 | Channel `k` of a six-digit colour, read from digits `2k` and `2k+1`, is a byte. |
| `ColorDifference.DigitPairParses` | color_difference.py:12 | `int(s[i:i+2], 16)` of two adjacent hex digits is 16 times the first plus the second. |
| `ColorDifference.PairParses` | color_difference.py:12 | `int(s[2k:2k+2], 16)` is channel `k`. |
| `ColorDifference.SixDigitsUnstripped` | color_difference.py:10-12 | For a valid colour nothing is stripped, and the slice width is 2. |
| `ColorDifference.SixCharacterSlices` | color_difference.py:12 | Six characters cut at width 2 give the three pairs, in order. |
| `ColorDifference.ChannelsParse` | color_difference.py:12 | The three pairs of a valid colour all parse, to its three channels in order. |
| `ColorDifference.HexToRgbOfValid` | color_difference.py:9-12 | For a valid colour, `hex_to_rgb` returns exactly three integers. Integer `k` is 16 times the value of digit `2k` plus the value of digit `2k+1`. |
| `ColorDifference.RgbOf` | color_difference.py:12 | The triple of a valid colour has every component in [0, 255]. |
| `ColorDifference.FormatRgb` | color_difference.py:12 | Formatting a byte triple gives a colour the validator accepts, already in lower case. |
| `ColorDifference.FormatChannel` | color_difference.py:12 | Formatting channel `k` gives digits `2k` and `2k+1` in lower case. |
| `ColorDifference.FormatThenParse` | color_difference.py:12 | `hex_to_rgb` of a formatted byte triple gives the triple back. |
| `ColorDifference.FormatChannels` | color_difference.py:12 | Formatting the three channels of a valid colour gives it back in lower case. |
| `ColorDifference.RoundTrip` | color_difference.py:12 | `hex_to_rgb` returns the triple of a valid colour, and formatting that triple gives the lower-case form of the colour. |
| `ColorDifference.CaseInsensitive` | color_difference.py:12 | A valid colour and its lower-case form are both valid and give the same triple. |
| `ColorDifference.TooShortExample` | color_difference.py:10-12 | `hex_to_rgb("#ab")` raises: two characters remain, so the slice width is 0. |
| `ColorDifference.CheckArguments` | color_difference.py:89-98 | The reference is reported exactly when it is invalid, whatever the sample. The sample is reported exactly when the reference is valid and the sample is not. Each report carries the offending string. Both are converted only when both pass, to the byte triples `hex_to_rgb` returns. |
| `ColorDifference.CheckArgumentsExamples` | color_difference.py:89-98 | `FFFFFF`/`000000` are converted to (255,255,255) and (0,0,0). `#FFFFFF`/`#000000` stops at the reference. `FFFFFF`/`#000000` stops at the sample. |

## Left out

- Colour arithmetic (`inverse_srgb_companding`, `rgb_to_xyz`, `pivot_xyz`, `xyz_to_lab`, `delta_e_cie94`, `hex_to_lab`, color_difference.py:14-78): IEEE floating point with non-integer powers and square roots, which Dafny's `real` does not provide. The square root at line 71 can get a slightly negative argument through rounding; that is also not modelled.
- The missing colon at color_difference.py:30 is a syntax error in the source; it lies in the colour arithmetic and does not affect the modelled parser.
- Command-line handling (`argparse`, `print`, `sys.exit()` and its exit status 0, color_difference.py:83-99): the guard is modelled as a pure function returning which argument failed or the two triples. The message text and the process exit are not modelled.
- `PyInt.ParseInt16`: Unicode white space and non-ASCII digits, which CPython's `int` also accepts, are not modelled; ASCII text only.
- `HexDigits.Lower`: ASCII lower-casing only, as the round-trip and case properties only concern hex digits.
- The two-digit formatter (`FormatByte`, `FormatRgb`) is not part of the source; it is the `'{:02x}'` formatting the round-trip properties are stated against.
- `PyInt.ParseInt16`, `ColorDifference.Slices`, `ColorDifference.ParseSlices`: these carry no `ensures` of their own, which keeps every proof that unfolds them small. Their properties are stated by the lemmas in their rows above (`ParseLiteral`, `SlicesCover`, `SliceWidths`, `SliceLayout`, `ParseSlicesOutcome`).
