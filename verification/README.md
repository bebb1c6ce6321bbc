# Colorspace: packed ARGB colours, web colour text and HSL, in Dafny

This project models two value types of the C# Colorspace library and proves
what they promise.

- **`ColorRGB32Bit`** (module `RGB32`, file `rgb32.dfy`) is four bytes: alpha,
  red, green and blue.
  - The constructors build a colour from bytes, from 16-bit integers (keeping
    the low eight bits), from a 32-bit word (alpha in bits 24-31, then red,
    green and blue), from an `int`, or from a colour whose alpha is replaced.
  - `ToUInt` and `ToInt` pack the bytes back into a word. `Equals` compares the
    bytes. `GetHashCode` is the packed word.
  - `ToWebColorString` writes `#rrggbb`, or `#aarrggbb` for a colour that is
    not opaque.
  - `TryParseWebColorString` trims the text, strips every leading `#`, trims
    again, and wants six characters. It hands them to `Int32.TryParse` with
    `NumberStyles.HexNumber` and sets the top byte of the number, which makes
    the colour opaque. `ParseWebColorString` throws where the try variant
    gives nothing.
  - The parser is a method with the source's loop. It is proved equal to a
    specification function, `ReadWebColor`, which reads as the code is
    written. `ParseWebColor` is the reading the source's comments describe:
    exactly six hex digits. The two are proved to agree except on six
    cleaned characters that end in `'\0'` (see Findings below). The round
    trips and rejections are proved for both.
- **`ColorHSL`** (module `HSL`, file `hsl.dfy`) holds alpha, hue, saturation and
  lightness. A valid colour (`HSL.Valid`) has each in [0,1].
  - A grey has no hue and no saturation. The C# type stores NaN in both; here
    the `Chroma` datatype has an `Achromatic` case instead, so "both NaN or
    neither" holds by construction.
  - The validating constructors are `Result`s: the range checks' exceptions
    become `Failure` values carrying which check failed.
  - The conversion from RGB is computed over `real` exactly as the source
    writes it (max, min, the `rc`/`gc`/`bc` terms, the R-then-G-then-B branch).
    Its saturation and hue are proved equal to the textbook HSL formulas.
  - `Add` shifts hue, saturation and lightness and rebuilds the colour through
    the three-argument constructor.

Supporting modules:

- `DotNet` (`dotnet.dfy`) holds the .NET behaviour the source relies on:
  - the integer widths and their unchecked casts;
  - `Char.IsWhiteSpace` and `String.Trim`;
  - `Int32.TryParse` with `NumberStyles.HexNumber`, including the `'\0'`
    characters it tolerates after the number.

  Integers are unbounded `int` subset types. The bit operations of the packing
  are written as arithmetic: `(u & 0x00ff0000) >> 16` becomes
  `(u / 0x1_0000) % 0x100`, and an OR of bytes in disjoint positions becomes a
  weighted sum.
- `ColorUtil` (`colorutil.dfy`) holds the hue, saturation and lightness
  normalisers and the range checks that `ColorHSL` calls. The C# `ColorUtil`
  is not part of this model. Each of these members is therefore defined by
  what its callers rely on, and its contract states that behaviour:
  - hue wraps into [0,1) by whole turns;
  - saturation and lightness clamp into [0,1];
  - the checks accept [0,1], and NaN in the `_NAN` variant;
  - the compatibility check demands that hue and saturation are NaN together.
- `RGB` (`rgb.dfy`) holds the `ColorRGB` data that `ColorHSL` is built from:
  four reals in [0,1]. Its source is not part of this model.
- `Wrappers` (`wrappers.dfy`) holds `Option`, which models a null or absent
  value, and `Result`, which models a thrown exception.

A null string is `None`. The four-byte constructor
(Colorspace/ColorRGB32Bit.cs:10-16) is the datatype constructor
`RGB32.ColorRGB32Bit` itself.

## Model

| member | source | states |
|---|---|---|
| `RGB32.FromRGB` | Colorspace/ColorRGB32Bit.cs:18-21 | the 3-byte constructor makes the colour opaque (alpha 0xff) and keeps r, g, b |
| `RGB32.FromShorts` | Colorspace/ColorRGB32Bit.cs:23-29 | each channel is congruent to its `short` argument mod 256, and equals it when the argument is already a byte |
| `RGB32.FromShortsRGB` | Colorspace/ColorRGB32Bit.cs:37-40 | the 3-short constructor is opaque and equals the 4-short constructor with alpha 0xff |
| `RGB32.WithAlpha` | Colorspace/ColorRGB32Bit.cs:31-34 | alpha is replaced; r, g, b (the low 24 bits of the packed word) are unchanged |
| `RGB32.FromUInt` | Colorspace/ColorRGB32Bit.cs:47-53 | the four bytes weighted by 2^24, 2^16, 2^8 and 1 add up to the word |
| `RGB32.FromInt` | Colorspace/ColorRGB32Bit.cs:42-45 | the `int` constructor and the cast from `int` are inverted by `ToInt` |
| `RGB32.ToUInt` | Colorspace/ColorRGB32Bit.cs:148-151 | alpha sits in bits 24-31, r in 16-23, g in 8-15, b in 0-7 of the word |
| `RGB32.ToInt` | Colorspace/ColorRGB32Bit.cs:143-146 | the `int` is the packed word reread as two's complement (same 32 bits) |
| `RGB32.UIntRoundTrip` | Colorspace/ColorRGB32Bit.cs:47-53 | unpacking and repacking gives back every 32-bit word |
| `RGB32.ColorRoundTrip` | Colorspace/ColorRGB32Bit.cs:148-151 | packing and unpacking gives back every colour |
| `RGB32.IntRoundTrip` | Colorspace/ColorRGB32Bit.cs:90-98 | casting a colour to `int` and back is the identity |
| `RGB32.Equals` | Colorspace/ColorRGB32Bit.cs:118-136 | equality holds iff all four bytes agree, iff the packed words agree |
| `RGB32.GetHashCode` | Colorspace/ColorRGB32Bit.cs:138-141 | the hash determines the colour: reading it back as an `int` colour gives the colour |
| `RGB32.HashMatchesEquals` | Colorspace/ColorRGB32Bit.cs:118-141 | two colours are equal iff their hashes are equal |
| `RGB32.Hex2` | Colorspace/ColorRGB32Bit.cs:104-106 | the `x2` format of a byte is two lower-case hex digits whose value is the byte |
| `RGB32.ToWebColorString` | Colorspace/ColorRGB32Bit.cs:100-116 | `#` and 6 digits when opaque, else 8; the digits are lower-case hex; each byte is written as one 2-digit pair, in the order (alpha,) r, g, b |
| `RGB32.SkipHashes` | Colorspace/ColorRGB32Bit.cs:215-218 | the loop drops a prefix of `#`s and nothing else; what is left does not start with `#` |
| `RGB32.ParseWebColor` | Colorspace/ColorRGB32Bit.cs:229-233 | the intended six-digit reading: a text is read iff it is non-null and cleans to exactly six hex digits; the colour read is opaque |
| `RGB32.ParseCleaned` | Colorspace/ColorRGB32Bit.cs:229-233 | on cleaned text, the six-digit reading finds a colour iff the text is six hex digits, and that colour is opaque |
| `RGB32.ReadWebColor` | Colorspace/ColorRGB32Bit.cs:190-256 | the reading as written: a text is read iff it is non-null, cleans to six characters, and `Int32.TryParse` accepts those; the colour read is opaque |
| `RGB32.ReadCleaned` | Colorspace/ColorRGB32Bit.cs:230-254 | on cleaned text, the reading as written finds a colour iff the text has six characters that the hex parse accepts, and that colour is opaque |
| `RGB32.SixDigitColor` | Colorspace/ColorRGB32Bit.cs:235-254 | on six characters with non-white ends, both readings find the same colour when all six are hex digits; if the last is not `'\0'`, the reading as written succeeds exactly on six hex digits |
| `RGB32.ReadWebColorAgrees` | Colorspace/ColorRGB32Bit.cs:229-248 | the reading as written gives the six-digit reading's colour whenever that reading finds one; the two differ only on texts that clean to six characters ending in `'\0'` |
| `RGB32.NulPaddingAccepted` | Colorspace/ColorRGB32Bit.cs:236 | `"#fff\0\0\0"`, which holds three hex digits, is read as written as the opaque colour 0x000fff, while the six-digit reading rejects it |
| `RGB32.TryParseWebColorString` | Colorspace/ColorRGB32Bit.cs:190-256 | the parser with its `#`-stripping loop computes exactly `ReadWebColor` |
| `RGB32.ParseWebColorString` | Colorspace/ColorRGB32Bit.cs:158-168 | it throws exactly when the try variant finds nothing (`ReadWebColor` is `None`), with the text in the exception; otherwise it returns the same colour |
| `RGB32.ParseRejectsBlank` | Colorspace/ColorRGB32Bit.cs:192-212 | null, empty and white-space-only texts are rejected by both readings |
| `RGB32.WebColorRoundTrip` | Colorspace/ColorRGB32Bit.cs:100-108 | the web text of an opaque colour reads back as that colour, under both readings |
| `RGB32.WebColorTranslucentRejected` | Colorspace/ColorRGB32Bit.cs:109-115 | the 8-digit web text of a colour that is not opaque is rejected by both readings |
| `RGB32.ParseIgnoresDecoration` | Colorspace/ColorRGB32Bit.cs:205-221 | surrounding white space, any number of leading `#` and white space after them change the colour found by neither reading |
| `RGB32.SameCleaned` | Colorspace/ColorRGB32Bit.cs:205-256 | texts that clean to the same characters are read alike, under both readings |
| `RGB32.ParseRedExample` | Tests/TestColors.cs:103 | "#ff0000" reads as alpha 255, red 255, green 0, blue 0, under both readings |
| `DotNet.ToByte` | Colorspace/ColorRGB32Bit.cs:25-28 | the unchecked `(byte)` cast keeps the value mod 256 and is the identity on bytes |
| `DotNet.ToUInt32` | Colorspace/ColorRGB32Bit.cs:43 | `(uint)` keeps the 32 bits: congruent mod 2^32, identity on non-negative values |
| `DotNet.ToInt32` | Colorspace/ColorRGB32Bit.cs:145 | `(int)` keeps the 32 bits: congruent mod 2^32, identity below 2^31 |
| `DotNet.SetTopByte` | Colorspace/ColorRGB32Bit.cs:241 | OR with 0xff000000 sets the top byte to 0xff and keeps the low 24 bits |
| `DotNet.IsWhiteSpace` | Colorspace/ColorRGB32Bit.cs:206 | white space (either kind) is never a hex digit, a `#` or a `'\0'` |
| `DotNet.Trim` | Colorspace/ColorRGB32Bit.cs:206 | the trimmed text neither starts nor ends with white space |
| `DotNet.TrimRemovesWhiteEnds` | Colorspace/ColorRGB32Bit.cs:206 | the trimmed text is the part of the text that lies between a white prefix and a white suffix |
| `DotNet.TrimStart` | Colorspace/ColorRGB32Bit.cs:206 | the leading white space is removed, and only white space is removed |
| `DotNet.TrimEnd` | Colorspace/ColorRGB32Bit.cs:221 | the trailing white space is removed, and only white space is removed |
| `DotNet.TrimTrailingNuls` | Colorspace/ColorRGB32Bit.cs:236 | the `'\0'`s at the end are dropped, and only those |
| `DotNet.TryParseHexInt32` | Colorspace/ColorRGB32Bit.cs:236 | the hex parse succeeds iff, after leading white space and before trailing white space and `'\0'`s, there is a non-empty run of hex digits worth less than 2^32; its value is those 32 bits read as two's complement |
| `DotNet.TryParseHexInt32Accepts` | Colorspace/ColorRGB32Bit.cs:236 | every text of white space, hex digits worth less than 2^32, white space and `'\0'`s is read as the value of its digits |
| `DotNet.TryParseHexInt32Trimmed` | Colorspace/ColorRGB32Bit.cs:236 | on text whose ends are neither white nor `'\0'`, the hex parse succeeds exactly on hex digits whose value fits in 32 bits |
| `DotNet.HexValueAppend` | Colorspace/ColorRGB32Bit.cs:236 | the value of concatenated hex digits is the front value shifted by one hex place per following digit, plus the back value |
| `ColorUtil.NormalizeHue` | Colorspace/ColorHSL.cs:131 | hue is wrapped into [0,1) by a whole number of turns; NaN stays NaN |
| `ColorUtil.NormalizeSaturation` | Colorspace/ColorHSL.cs:142 | saturation is clamped into [0,1]; NaN stays NaN |
| `ColorUtil.NormalizeLightness` | Colorspace/ColorHSL.cs:143 | lightness is clamped into [0,1] |
| `ColorUtil.CheckRange01` | Colorspace/ColorHSL.cs:43 | the check passes exactly on [0,1], else fails with a range error naming the type and the field |
| `ColorUtil.CheckRange01NaN` | Colorspace/ColorHSL.cs:44-45 | the check passes exactly on NaN and [0,1], else fails with a range error naming the field |
| `ColorUtil.CheckCompatibleHS` | Colorspace/ColorHSL.cs:47 | the check passes iff hue and saturation are NaN together, else fails with the incompatible-value error |
| `HSL.H` | Colorspace/ColorHSL.cs:16-19 | the hue property is NaN exactly for a grey, and otherwise the stored hue |
| `HSL.S` | Colorspace/ColorHSL.cs:21-24 | the saturation property is NaN exactly for a grey, and otherwise the stored saturation |
| `HSL.CheckHSLInRange` | Colorspace/ColorHSL.cs:41-48 | the check passes iff alpha and l lie in [0,1], h and s each lie in [0,1] or are NaN, and h and s are NaN together; the first failing check (A, H, S, L, then pairing) decides the error |
| `HSL.CheckHSLInRangeDefaultAlpha` | Colorspace/ColorHSL.cs:36-39 | the 3-argument check accepts what the 4-argument one accepts with alpha 1.0, and never fails on alpha |
| `HSL.IsChromatic` | Colorspace/ColorHSL.cs:50-53 | a colour is chromatic iff it is not a grey (neither hue nor saturation is NaN) |
| `HSL.FromAHSL` | Colorspace/ColorHSL.cs:55-62 | the 4-argument constructor succeeds iff the check passes, then stores exactly its arguments; otherwise it throws the check's error |
| `HSL.FromHSL` | Colorspace/ColorHSL.cs:64-71 | the 3-argument constructor succeeds iff the check with alpha 1.0 passes, then stores alpha 1.0 and its arguments; otherwise it throws the check's error |
| `HSL.Copy` | Colorspace/ColorHSL.cs:73-79 | the copy constructor copies all four properties unchanged |
| `HSL.FromRGB` | Colorspace/ColorHSL.cs:81-137 | alpha is copied; lightness is (max+min)/2; the result is a grey iff r == g == b |
| `HSL.GreyIsAchromatic` | Colorspace/ColorHSL.cs:92-100 | a grey has no hue or saturation, its lightness is its channel value, and it is not chromatic |
| `HSL.SaturationOfRGB` | Colorspace/ColorHSL.cs:103-110 | saturation is chroma over 1 - abs(2l - 1), that is delta/(max+min) below l = 0.5 and delta/(2-max-min) from there on, and lies in (0,1] |
| `HSL.HueOfRGB` | Colorspace/ColorHSL.cs:112-131 | the hue is the hexcone hue of the first maximal channel (R, then G, then B), lies in [0,1), and falls in that channel's third of the circle |
| `HSL.RedHue` | Colorspace/ColorHSL.cs:118-121 | with red largest, `bc - gc` wrapped into [0,1) is the hexcone hue, within a sixth of a turn of 0 |
| `HSL.GreenHue` | Colorspace/ColorHSL.cs:122-125 | with green largest and red not, `1/3 + rc - bc` wrapped is the hexcone hue, in [1/6, 1/2] |
| `HSL.BlueHue` | Colorspace/ColorHSL.cs:126-129 | with blue largest alone, `2/3 + gc - rc` wrapped is the hexcone hue, in [1/2, 5/6] |
| `HSL.FromRGBIsValid` | Colorspace/ColorHSL.cs:81-137 | the conversion, which runs no check, produces a colour that `CheckHSLInRange` accepts and that the 4-argument constructor rebuilds from its properties |
| `HSL.ReferenceVectors` | Tests/TestColors.cs:35-37 | RGB(1,0,0) gives (0, 1, 0.5); RGB(0.5,1,0.5) gives (1/3, 1, 0.75); RGB(0,0,0.5) gives (2/3, 1, 0.25), exactly |
| `HSL.Add` | Colorspace/ColorHSL.cs:139-145 | the result always passes the check; alpha becomes 1.0; a grey stays a grey and a chromatic colour stays chromatic; hue moves by the offset modulo whole turns and lies in [0,1); saturation and lightness are the clamped sums |
| `HSL.AddWholeTurns` | Colorspace/ColorHSL.cs:139-145 | for a valid colour whose hue is below 1.0: adding a whole number of turns, and nothing else, gives back the colour with alpha 1.0 |
| `HSL.AddRedExample` | Tests/TestColors.cs:99-105 | turning red (from "#ff0000") by -2.3 gives hue 0.7 with saturation 1 and lightness 0.5 |

## Left out

- `ColorRGB32Bit(ColorRGB)` (Colorspace/ColorRGB32Bit.cs:55-61): it rounds doubles with `Math.Round`, and `ColorRGB` is not part of this model.
- The `ToString` overrides: culture-invariant floating-point formatting. The HSL one (Colorspace/ColorHSL.cs:33) prints saturation where lightness should be, because its last placeholder repeats `{3}`.
- `Equals(object)`: the boxing and the type test are not modelled; equality between two colours is `RGB32.Equals`. The operators `==` and `!=` are that equality and its negation.
- IEEE doubles: HSL is computed over exact reals, so rounding and the tests' 1e-16 tolerances are outside the model. Infinities are not modelled. NaN is modelled only for hue and saturation, where the source uses it as the grey sentinel. A NaN alpha or lightness, and NaN arguments to `Add`, are not modelled.
- `HSL.Add`: that a grey stays a grey is an assumption about the `ColorUtil` normalisers, which are not part of this model: NaN plus an offset is NaN, and the normalisers are assumed to keep NaN.
- `ColorUtil`, `ColorRGB`, `ColorException` and `RGBWorkingSpace`/`Illuminant` sources are not part of this model. The XYZ, LAB and HSV types are not modelled.
- `String.StartsWith("#")` is culture-sensitive in .NET. It is modelled as a comparison of the first character.
- The exception messages are not modelled. The exception carries the text that failed.
- The check in Colorspace/ColorRGB32Bit.cs:238 (`Length == 6`) always holds where it stands, because shorter and longer texts were rejected at line 230. The model keeps the branch.
- A `#` that becomes the first character only after the second trim is not stripped. So `"# #ff0000"` cleans to `#ff0000` (7 characters) and is rejected. The model keeps this behaviour.

## Findings

| source | as written | input that shows it | evidently intended | confidence | as-written member | corrected member |
|---|---|---|---|---|---|---|
| Colorspace/ColorRGB32Bit.cs:229-236 | the length check admits any six characters and hands them to `Int32.TryParse` with `NumberStyles.HexNumber`, which also accepts trailing white space and trailing `'\0'` characters after fewer digits | `"#fff\0\0\0"` is read as the opaque colour (255, 0x00, 0x0f, 0xff) although it holds three hex digits | the comment at line 229 asks for exactly six hex digits, so such a text should be rejected | medium, not executed | `RGB32.NulPaddingAccepted` | `RGB32.ParseWebColor` |
