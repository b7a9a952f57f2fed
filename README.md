# hex_to_rgba, modelled and proved in Dafny

The baseball-analytics plotting helpers have one piece of logic of their own: `hex_to_rgba(h, alpha)`. It turns a hexadecimal colour string into the tuple `(R, G, B, alpha)`. The function appears twice with the same body: once standalone (plots/scatter_graphs/hex_to_rgba.py) and once in plots/scatter_graphs/graph_utilities.py. In the second file, `scatter_with_regression` uses it to draw its regression line and its two standard-deviation lines at alpha 0.4.

The function does four things in one expression:

1. `h.lstrip('#')` removes every leading `#`, not just one.
2. It slices the result at `[0:2]`, `[2:4]` and `[4:6]`, in that order.
3. It parses each slice with `int(..., 16)`.
4. It appends `alpha` unchanged and returns a 4-tuple.

The code is pure, so the model uses datatypes, functions and lemmas:

- `builtins.dfy`, module `Builtins`: the three Python built-ins involved. These are `str.lstrip`, slicing with Python's clamping (a slice past the end is shorter or empty), and `int(s, 16)`. A failure is modelled as `ValueError(literal)`.
- `color_converter.dfy`, module `ColorConverter`: the decoder. This includes the comprehension over the offsets `(0, 2, 4)`, an independent success predicate `Decodable`, a `#rrggbb` encoder used for round trips, and the lemmas.
- `graph_utilities.dfy`, module `GraphUtilities`: the duplicate `hex_to_rgba`, merged into the standalone one, and the alpha-0.4 line colour.

`alpha` is a type parameter because it is never inspected. A successful result is `Rgba(red, green, blue, alpha)`, which always has exactly four components. A failure is `ValueError(literal)`. Because the comprehension stops at its first exception, the literal is the first slice that fails to parse.

The code never checks the length of the stripped string; it reads only the three slices:

- A stripped string of five characters decodes, and its blue channel is a single digit.
- Anything after the sixth character is ignored.
- Only a string shorter than five characters, or one with a non-digit among its first six characters, fails.

## Model

| member | source | states |
|---|---|---|
| Builtins.LStrip | plots/scatter_graphs/hex_to_rgba.py:8 | `lstrip('#')` returns a suffix of its input. Every removed character is a `#`, and the result does not start with `#`, so all leading `#` go. |
| Builtins.Slice | plots/scatter_graphs/hex_to_rgba.py:8 | `s[i:j]` has length `min(j, len(s)) - i`, or 0 when `i` is past the end or `j <= i`. Its k-th character is `s[i + k]`. |
| Builtins.ParseHexInt | plots/scatter_graphs/hex_to_rgba.py:8 | `int(s, 16)` succeeds exactly on non-empty strings of hex digits in either case. The value is the positional base-16 value and is below 16^len(s). A failure carries the rejected literal. |
| Builtins.HexVal | plots/scatter_graphs/hex_to_rgba.py:8 | The digit-by-digit (Horner) reading of a hex string is below 16^len(s). |
| Builtins.HornerIsPositional | plots/scatter_graphs/hex_to_rgba.py:8 | The Horner reading equals the positional sum, where digit i has weight 16^(len-1-i). |
| Builtins.LStripRepeat | plots/scatter_graphs/hex_to_rgba.py:8 | Stripping n extra leading `#` gives the same result as stripping none. |
| Builtins.LStripAppend | plots/scatter_graphs/hex_to_rgba.py:8 | When the stripped string is non-empty, text appended after the input stays after the stripped string. |
| Builtins.LStripUpToCase | plots/scatter_graphs/hex_to_rgba.py:8 | Stripping `#` preserves equality up to letter case. |
| Builtins.HexValUpToCase | plots/scatter_graphs/hex_to_rgba.py:8 | Digit strings that differ only in letter case are digit strings together and have the same value. |
| ColorConverter.Pair | plots/scatter_graphs/hex_to_rgba.py:8 | The slice `[i:i+2]` has at most two characters: two, one at the end of the string, or none past it. |
| ColorConverter.Channels | plots/scatter_graphs/hex_to_rgba.py:8 | The comprehension over the offsets succeeds exactly when every pair is a digit run. It then returns one value per offset, the value of that pair. Otherwise it raises the error of the first pair that fails, and every earlier pair parsed. |
| ColorConverter.HexToRgba | plots/scatter_graphs/hex_to_rgba.py:4-8 | The result is Ok exactly when the stripped pairs `[0:2]`, `[2:4]` and `[4:6]` are digit runs. Component k is the value of pair k, and the fourth component is `alpha` unchanged. Each channel lies in [0, 255]. A failure names the first pair that does not parse. |
| ColorConverter.PairIsRun | plots/scatter_graphs/hex_to_rgba.py:8 | A pair parses exactly when its first character exists and is a digit, and its second character, if present, is a digit too. |
| ColorConverter.PairsDecodable | plots/scatter_graphs/hex_to_rgba.py:8 | The three pairs all parse exactly when the stripped string has at least 5 characters and its first six (or five) are hex digits. |
| ColorConverter.SucceedsIff | plots/scatter_graphs/hex_to_rgba.py:8 | Decoding succeeds if and only if the stripped input is `Decodable`. |
| ColorConverter.LeadingHashesIgnored | plots/scatter_graphs/hex_to_rgba.py:8 | `h`, `"#" + h`, `"##" + h` and any number of further leading `#` decode identically, including their errors. |
| ColorConverter.SameStripSameColor | plots/scatter_graphs/hex_to_rgba.py:8 | Inputs with the same `lstrip('#')` decode identically. |
| ColorConverter.PairOfPrefix | plots/scatter_graphs/hex_to_rgba.py:8 | A slice lying inside `s` does not change when text is appended to `s`. |
| ColorConverter.SamePairsSameColor | plots/scatter_graphs/hex_to_rgba.py:8 | Inputs whose three stripped pairs agree decode identically. |
| ColorConverter.TrailingIgnored | plots/scatter_graphs/hex_to_rgba.py:8 | When at least six characters remain after stripping, appended text does not change the result. |
| ColorConverter.CaseInsensitive | plots/scatter_graphs/hex_to_rgba.py:8 | Inputs equal up to letter case either both decode or both fail. When they decode, the results are equal. |
| ColorConverter.PairUpToCase | plots/scatter_graphs/hex_to_rgba.py:8 | Pairs cut from strings that are equal up to case parse together and have equal values. |
| ColorConverter.ShortInputFails | plots/scatter_graphs/hex_to_rgba.py:8 | Fewer than five stripped characters always give `ValueError`, because slice `[4:6]` is empty. |
| ColorConverter.FiveCharsSingleDigitBlue | plots/scatter_graphs/hex_to_rgba.py:8 | With exactly five stripped characters, a successful decode has blue equal to the fifth digit's value, which is at most 15. |
| ColorConverter.SingleDigitPair | plots/scatter_graphs/hex_to_rgba.py:8 | A slice cut short by the end of the string has the value of its single digit. |
| ColorConverter.InnerHashRejected | plots/scatter_graphs/hex_to_rgba.py:8 | A `#` that is not leading, anywhere in the first six stripped characters, makes decoding fail. |
| ColorConverter.DecodeEncode | plots/scatter_graphs/hex_to_rgba.py:8 | For channels in [0, 255], decoding `#rrggbb` returns exactly `(r, g, b, alpha)`. |
| ColorConverter.EncodePairs | plots/scatter_graphs/hex_to_rgba.py:8 | Re-encoding the values of three parsed pairs gives the first six characters back, up to case. |
| ColorConverter.EncodeDecode | plots/scatter_graphs/hex_to_rgba.py:8 | When six or more characters remain and decoding succeeds, re-encoding the channels gives `"#"` plus the first six stripped characters, up to case. |
| ColorConverter.Hex2Value | plots/scatter_graphs/hex_to_rgba.py:8 | A two-digit encoding of n in [0, 255] parses back to n. |
| ColorConverter.PairHex2 | plots/scatter_graphs/hex_to_rgba.py:8 | A full pair of digits has a value in [0, 255], and re-encoding that value gives the pair back, up to case. |
| ColorConverter.PureRedExample | plots/scatter_graphs/hex_to_rgba.py:8 | `"#FF0000"` decodes to `(255, 0, 0, alpha)`. |
| ColorConverter.PureRedAnyHashes | plots/scatter_graphs/hex_to_rgba.py:8 | `"FF0000"` with any number of leading `#`, including none, decodes to `(255, 0, 0, alpha)`. |
| ColorConverter.PureRedWithSuffix | plots/scatter_graphs/hex_to_rgba.py:8 | `"#FF0000"` followed by anything, such as `"AA"`, decodes to `(255, 0, 0, alpha)`. |
| GraphUtilities.HexToRgba | plots/scatter_graphs/graph_utilities.py:82-86 | The duplicate returns the same result as the standalone copy for every `(h, alpha)`. This holds by definition, because the expression at line 86 is identical to hex_to_rgba.py:8. It succeeds exactly on `Decodable` inputs, passes `alpha` through and keeps each channel in [0, 255]. |
| GraphUtilities.LineColor | plots/scatter_graphs/graph_utilities.py:49-73 | Each of the three dashed lines gets a colour whose alpha is exactly 0.4, with channels in [0, 255]. It succeeds exactly on `Decodable` base colours. |
| GraphUtilities.LineColorIsBaseColor | plots/scatter_graphs/graph_utilities.py:49-73 | The line colour has the base colour's channels, and it succeeds exactly when decoding with any other alpha does. |
| GraphUtilities.D3LineColor | plots/scatter_graphs/graph_utilities.py:40-49 | With the D3 palette's first colour `#1F77B4`, the lines are `(31, 119, 180, 0.4)`. |

## Left out

- Builtins.ParseHexInt: accepts only plain runs of ASCII hex digits. Python's `int(s, 16)` also accepts a leading sign, surrounding whitespace and non-ASCII decimal digits (such as Arabic-Indic digits). In Python `"#-f0000"` decodes to `(-15, 0, 0, alpha)` and `"# f0000"` to `(15, 0, 0, alpha)`, while both are a `ValueError` here. Underscores and a `0x` prefix, which Python also allows, cannot make a slice of at most two characters valid, so they make no difference.
- ColorConverter.HexToRgba: inherits that narrowing. Its "Ok exactly when" clause and the [0, 255] bounds describe plain hex-digit slices only. Inputs with a sign or whitespace inside the first six stripped characters are rejected here and accepted by Python.
- The type of `h`: the model types it as a string. In Python an object without `lstrip` raises `AttributeError`, and a `bytes` or `bytearray` `h` raises `TypeError` because `lstrip` is given a `str` argument.
- The error is modelled as the rejected literal only. Python's message wording is not modelled.
- `alpha` is a type parameter and is never inspected. At the call sites it is `0.4`, modelled as the real 0.4 rather than the nearest double, which changes nothing because the value is only passed through.
- The `'rgba' + str(tuple)` string at plots/scatter_graphs/graph_utilities.py:49 depends on Python's float formatting. It is not modelled.
- The value of the D3 palette comes from the charting library. `D3LineColor` fixes it at `#1F77B4`, and `LineColor` takes the base colour as a parameter.
- `scatter_with_regression` and `scatter`: figure construction, least-squares fit, `linspace`, standard deviation and means. These are calls into the charting and numerics libraries, and their floating-point results are not modelled.
- `add_percentiles`, `add_annotation` and `add_shape`: quantiles, `math.trunc` of a float for the label, and in-place figure mutation. All of this happens inside the charting and data-frame libraries.
- The unused data-acquisition and image imports.
