/**
 * `ColorRGB32Bit`: an immutable colour made of four bytes (alpha, red, green,
 * blue), its packing into one 32-bit word, and its web colour text `#rrggbb`.
 *
 * The word is an unsigned number below 2^32; the bit operations of the packing
 * are written as arithmetic: `(u & 0x00ff0000) >> 16` is `(u / 0x1_0000) % 0x100`,
 * and the OR of bytes shifted into disjoint positions is their weighted sum.
 */
module RGB32 {
  import opened Wrappers
  import opened DotNet

  datatype ColorRGB32Bit = ColorRGB32Bit(alpha: Byte, r: Byte, g: Byte, b: Byte)

  /** The exception `ParseWebColorString` throws, naming the text it could not read. */
  datatype ColorException = FailedToParse(webcolor: Option<string>)

  // ------------------------------------------------------------ constructors

  /** `ColorRGB32Bit(byte r, byte g, byte b)`: an opaque colour. */
  function FromRGB(r: Byte, g: Byte, b: Byte): (c: ColorRGB32Bit)
    ensures c.alpha == 0xff
    ensures c.r == r && c.g == g && c.b == b
  {
    ColorRGB32Bit(0xff, r, g, b)
  }

  /** `ColorRGB32Bit(short a, short r, short g, short b)`: each channel is its argument modulo 256. */
  function FromShorts(a: Int16, r: Int16, g: Int16, b: Int16): (c: ColorRGB32Bit)
    ensures (c.alpha - a) % 0x100 == 0 && (c.r - r) % 0x100 == 0
    ensures (c.g - g) % 0x100 == 0 && (c.b - b) % 0x100 == 0
    ensures 0 <= a < 0x100 && 0 <= r < 0x100 && 0 <= g < 0x100 && 0 <= b < 0x100 ==>
      c == ColorRGB32Bit(a, r, g, b)
  {
    ColorRGB32Bit(ToByte(a), ToByte(r), ToByte(g), ToByte(b))
  }

  /** `ColorRGB32Bit(short r, short g, short b)`: opaque, each channel its argument modulo 256. */
  function FromShortsRGB(r: Int16, g: Int16, b: Int16): (c: ColorRGB32Bit)
    ensures c.alpha == 0xff
    ensures c == FromShorts(0xff, r, g, b)
  {
    ColorRGB32Bit(0xff, ToByte(r), ToByte(g), ToByte(b))
  }

  /** `ColorRGB32Bit(byte alpha, ColorRGB32Bit c)`: `c` with its alpha replaced. */
  function WithAlpha(alpha: Byte, c: ColorRGB32Bit): (d: ColorRGB32Bit)
    ensures d.alpha == alpha && d.r == c.r && d.g == c.g && d.b == c.b
    ensures ToUInt(d) % 0x100_0000 == ToUInt(c) % 0x100_0000
  {
    ColorRGB32Bit(alpha, c.r, c.g, c.b)
  }

  /** `ColorRGB32Bit(uint rgb)`: alpha from bits 24-31, red from 16-23, green from 8-15, blue from 0-7. */
  function FromUInt(u: UInt32): (c: ColorRGB32Bit)
    ensures c.alpha * 0x100_0000 + c.r * 0x1_0000 + c.g * 0x100 + c.b == u
  {
    SplitWord(u);
    ColorRGB32Bit(u / 0x100_0000, (u / 0x1_0000) % 0x100, (u / 0x100) % 0x100, u % 0x100)
  }

  /** A word is the weighted sum of its four bytes. */
  lemma SplitWord(u: UInt32)
    ensures u == (u / 0x100_0000) * 0x100_0000 + ((u / 0x1_0000) % 0x100) * 0x1_0000
                 + ((u / 0x100) % 0x100) * 0x100 + u % 0x100
  {
    var x1 := u / 0x100;
    var x2 := u / 0x1_0000;
    var x3 := u / 0x100_0000;
    assert u == x1 * 0x100 + u % 0x100;
    assert x2 == x1 / 0x100;
    assert x1 == x2 * 0x100 + x1 % 0x100;
    assert x3 == x2 / 0x100;
    assert x2 == x3 * 0x100 + x2 % 0x100;
  }

  /** `ColorRGB32Bit(int rgb)` and the explicit cast from `int`: the same 32 bits read as unsigned. */
  function FromInt(i: Int32): (c: ColorRGB32Bit)
    ensures ToInt(c) == i
  {
    FromUInt(ToUInt32(i))
  }

  // ------------------------------------------------------------- conversions

  /** `ToUInt`: alpha in bits 24-31, red in 16-23, green in 8-15, blue in 0-7. */
  function ToUInt(c: ColorRGB32Bit): (u: UInt32)
    ensures u / 0x100_0000 == c.alpha && (u / 0x1_0000) % 0x100 == c.r
    ensures (u / 0x100) % 0x100 == c.g && u % 0x100 == c.b
  {
    var u := c.alpha * 0x100_0000 + c.r * 0x1_0000 + c.g * 0x100 + c.b;
    UnpackBytes(c.alpha, c.r, c.g, c.b);
    u
  }

  /** `ToInt` and the explicit cast to `int`: the packed word read as a two's complement number. */
  function ToInt(c: ColorRGB32Bit): (i: Int32)
    ensures ToUInt32(i) == ToUInt(c)
  {
    ToInt32(ToUInt(c))
  }

  lemma DivMod256(hi: int, lo: int)
    requires 0 <= lo < 0x100
    ensures (hi * 0x100 + lo) / 0x100 == hi && (hi * 0x100 + lo) % 0x100 == lo
  {
  }

  /** The four bytes come back out of the word they are packed into. */
  lemma UnpackBytes(a: Byte, r: Byte, g: Byte, b: Byte)
    ensures var u := a * 0x100_0000 + r * 0x1_0000 + g * 0x100 + b;
      u / 0x100_0000 == a && (u / 0x1_0000) % 0x100 == r && (u / 0x100) % 0x100 == g && u % 0x100 == b
  {
    var u := a * 0x100_0000 + r * 0x1_0000 + g * 0x100 + b;
    DivMod256(a * 0x1_0000 + r * 0x100 + g, b);
    assert u / 0x100 == a * 0x1_0000 + r * 0x100 + g;
    DivMod256(a * 0x100 + r, g);
    assert u / 0x1_0000 == (u / 0x100) / 0x100;
    DivMod256(a, r);
    assert u / 0x100_0000 == (u / 0x1_0000) / 0x100;
  }

  /** Unpacking then packing gives back every 32-bit word. */
  lemma UIntRoundTrip(u: UInt32)
    ensures ToUInt(FromUInt(u)) == u
  {
  }

  /** Packing then unpacking gives back every colour. */
  lemma ColorRoundTrip(c: ColorRGB32Bit)
    ensures FromUInt(ToUInt(c)) == c
  {
  }

  /** The `int` form round-trips as well: the cast to `int` and back is the identity on colours. */
  lemma IntRoundTrip(c: ColorRGB32Bit)
    ensures FromInt(ToInt(c)) == c
  {
  }

  // ---------------------------------------------------- equality and hashing

  /** `Equals`, `operator ==` (and, negated, `operator !=`): all four bytes agree. */
  function Equals(x: ColorRGB32Bit, y: ColorRGB32Bit): (eq: bool)
    ensures eq <==> x == y
    ensures eq <==> ToUInt(x) == ToUInt(y)
  {
    ColorRoundTrip(x);
    ColorRoundTrip(y);
    x.alpha == y.alpha && x.r == y.r && x.g == y.g && x.b == y.b
  }

  /** `GetHashCode`: the packed word as an `int`; it determines the colour. */
  function GetHashCode(c: ColorRGB32Bit): (h: Int32)
    ensures FromInt(h) == c
  {
    IntRoundTrip(c);
    ToInt(c)
  }

  /** Equal colours hash alike, and since the hash is the packed word, distinct colours hash apart. */
  lemma HashMatchesEquals(x: ColorRGB32Bit, y: ColorRGB32Bit)
    ensures Equals(x, y) <==> GetHashCode(x) == GetHashCode(y)
  {
  }

  // ------------------------------------------------------------ web colours

  /** The `x2` format of a byte: two lower-case hex digits. */
  function Hex2(b: Byte): (s: string)
    ensures |s| == 2 && AllHexDigits(s) && HexValue(s) == b && NoUpperHex(s)
    ensures s[0] != '#' && !IsWhiteSpace(Unicode, s[0]) && !IsWhiteSpace(Unicode, s[1])
  {
    var s := [LowerHexDigit(b / 16), LowerHexDigit(b % 16)];
    assert s[..1] == [s[0]];
    s
  }

  /** No character of `s` is an upper-case hex letter. */
  predicate NoUpperHex(s: string) {
    forall i | 0 <= i < |s| :: !('A' <= s[i] <= 'F')
  }

  /** `ToWebColorString`: `#rrggbb` for an opaque colour, `#aarrggbb` otherwise. */
  function ToWebColorString(c: ColorRGB32Bit): (s: string)
    ensures |s| == if c.alpha == 0xff then 7 else 9
    ensures s[0] == '#' && AllHexDigits(s[1..])
    ensures forall i | 1 <= i < |s| :: !('A' <= s[i] <= 'F')
    ensures c.alpha == 0xff ==>
      HexValue(s[1..3]) == c.r && HexValue(s[3..5]) == c.g && HexValue(s[5..7]) == c.b
    ensures c.alpha != 0xff ==>
      HexValue(s[1..3]) == c.alpha && HexValue(s[3..5]) == c.r &&
      HexValue(s[5..7]) == c.g && HexValue(s[7..9]) == c.b
  {
    if c.alpha == 0xff then
      HashedPairs(Hex2(c.r), Hex2(c.g), Hex2(c.b), []);
      "#" + Hex2(c.r) + Hex2(c.g) + Hex2(c.b)
    else
      HashedPairs(Hex2(c.alpha), Hex2(c.r), Hex2(c.g), Hex2(c.b));
      "#" + Hex2(c.alpha) + Hex2(c.r) + Hex2(c.g) + Hex2(c.b)
  }

  /** Where the pairs of digits sit in `#` followed by three or four of them. */
  lemma HashedPairs(p: string, q: string, t: string, u: string)
    requires |p| == 2 && |q| == 2 && |t| == 2 && (|u| == 0 || |u| == 2)
    requires AllHexDigits(p) && AllHexDigits(q) && AllHexDigits(t) && AllHexDigits(u)
    requires NoUpperHex(p) && NoUpperHex(q) && NoUpperHex(t) && NoUpperHex(u)
    ensures var s := "#" + p + q + t + u;
      && |s| == 7 + |u| && s[0] == '#' && AllHexDigits(s[1..])
      && (forall i | 1 <= i < |s| :: !('A' <= s[i] <= 'F'))
      && s[1..3] == p && s[3..5] == q && s[5..7] == t && s[7..7 + |u|] == u
  {
    var s := "#" + p + q + t + u;
    var d := p + q + t + u;
    assert s == "#" + d && s[1..] == d;
    forall i | 0 <= i < |d| ensures IsHexDigit(d[i]) && !('A' <= d[i] <= 'F') {
      if i < 2 { assert d[i] == p[i]; }
      else if i < 4 { assert d[i] == q[i - 2]; }
      else if i < 6 { assert d[i] == t[i - 4]; }
      else { assert d[i] == u[i - 6]; }
    }
    forall i | 1 <= i < |s| ensures !('A' <= s[i] <= 'F') {
      assert s[i] == d[i - 1];
    }
  }

  /** Drops every leading `#`. */
  function SkipHashes(s: string): (r: string)
    ensures |r| <= |s| && r == s[|s| - |r|..]
    ensures r != [] ==> r[0] != '#'
    ensures forall i | 0 <= i < |s| - |r| :: s[i] == '#'
    decreases |s|
  {
    if s != [] && s[0] == '#' then SkipHashes(s[1..]) else s
  }

  /** What is left of a web colour text once it is trimmed, rid of its leading `#`s and trimmed again. */
  function Cleaned(s: string): string {
    Trim(SkipHashes(Trim(s)))
  }

  /**
   * What a web colour text denotes: once cleaned it must be exactly six hex
   * digits, whose pairs are red, green and blue of an opaque colour.
   */
  function ParseWebColor(webcolor: Option<string>): (c: Option<ColorRGB32Bit>)
    ensures c.Some? ==> c.value.alpha == 0xff
    ensures c.Some? <==> webcolor.Some? && |Cleaned(webcolor.value)| == 6 && AllHexDigits(Cleaned(webcolor.value))
  {
    if webcolor.None? then None else ParseCleaned(Cleaned(webcolor.value))
  }

  /** The six-digit reading of a text that is already cleaned. */
  function ParseCleaned(w: string): (c: Option<ColorRGB32Bit>)
    ensures c.Some? ==> c.value.alpha == 0xff
    ensures c.Some? <==> |w| == 6 && AllHexDigits(w)
  {
    if |w| == 6 && AllHexDigits(w) then
      PairsOfDigits(w);
      Some(FromRGB(HexValue(w[0..2]), HexValue(w[2..4]), HexValue(w[4..6])))
    else None
  }

  /** The three pairs of six hex digits are hex digits worth a byte each. */
  lemma PairsOfDigits(w: string)
    requires |w| == 6 && AllHexDigits(w)
    ensures AllHexDigits(w[0..2]) && AllHexDigits(w[2..4]) && AllHexDigits(w[4..6])
    ensures HexValue(w[0..2]) < 0x100 && HexValue(w[2..4]) < 0x100 && HexValue(w[4..6]) < 0x100
  {
    assert Pow16(2) == 0x100;
  }

  /** Six hex digits read as one number are their three pairs read as bytes. */
  lemma SixDigits(w: string)
    requires |w| == 6 && AllHexDigits(w)
    ensures AllHexDigits(w[0..2]) && AllHexDigits(w[2..4]) && AllHexDigits(w[4..6])
    ensures HexValue(w) == HexValue(w[0..2]) * 0x1_0000 + HexValue(w[2..4]) * 0x100 + HexValue(w[4..6])
  {
    PairsOfDigits(w);
    var p, q, t := w[0..2], w[2..4], w[4..6];
    SixInThree(w);
    assert Pow16(2) == 0x100;
    HexValueAppend(p, q);
    var pq := HexValue(p + q);
    assert pq == HexValue(p) * 0x100 + HexValue(q);
    HexValueAppend(p + q, t);
  }

  lemma SixInThree(w: string)
    requires |w| == 6
    ensures w == w[0..2] + w[2..4] + w[4..6]
  {
  }

  /** Setting the top byte of three packed bytes and reading the word back gives the opaque colour. */
  lemma OpaqueWord(hi: Byte, mid: Byte, lo: Byte)
    ensures var v := hi * 0x1_0000 + mid * 0x100 + lo;
      FromInt(ToInt32(SetTopByte(ToUInt32(v)))) == FromRGB(hi, mid, lo)
  {
    var v := hi * 0x1_0000 + mid * 0x100 + lo;
    var word := SetTopByte(v);
    assert word == 0xff * 0x100_0000 + v;
    assert ToUInt32(ToInt32(word)) == word;
    UnpackBytes(0xff, hi, mid, lo);
  }

  /**
   * On six characters, the reading as written and the six-digit reading agree
   * on hex digits: `Int32.TryParse` reads them, and their number with its top
   * byte set is the opaque colour of the three digit pairs. Six characters
   * that do not end in `'\0'` are read as written exactly when they are all
   * hex digits.
   */
  lemma SixDigitColor(w: string)
    requires |w| == 6 && !IsWhiteSpace(Unicode, w[0]) && !IsWhiteSpace(Unicode, w[5])
    ensures w[5] != '\0' ==> (ReadCleaned(w).Some? <==> AllHexDigits(w))
    ensures AllHexDigits(w) ==> ReadCleaned(w).Some? && ReadCleaned(w) == ParseCleaned(w)
  {
    if AllHexDigits(w) {
      assert IsHexDigit(w[5]);
    }
    if w[5] != '\0' {
      TryParseHexInt32Trimmed(w);
    }
    if AllHexDigits(w) {
      SixDigits(w);
      var hi, mid, lo := HexValue(w[0..2]), HexValue(w[2..4]), HexValue(w[4..6]);
      var v := HexValue(w);
      assert v == hi * 0x1_0000 + mid * 0x100 + lo;
      assert TryParseHexInt32(w) == Some(v);
      OpaqueWord(hi, mid, lo);
      assert ReadCleaned(w) == Some(FromRGB(hi, mid, lo));
    }
  }

  /** Setting the top byte of a word makes the colour it denotes opaque. */
  lemma SetTopByteOpaque(u: UInt32)
    ensures FromInt(ToInt32(SetTopByte(u))).alpha == 0xff
  {
    var word := SetTopByte(u);
    assert ToUInt32(ToInt32(word)) == word;
  }

  /**
   * What `TryParseWebColorString` reads as written: once cleaned the text must
   * be six characters that `Int32.TryParse` reads as a hex number; that
   * number with its top byte set is the colour.
   */
  function ReadWebColor(webcolor: Option<string>): (c: Option<ColorRGB32Bit>)
    ensures c.Some? ==> c.value.alpha == 0xff
    ensures c.Some? <==>
      webcolor.Some? && |Cleaned(webcolor.value)| == 6 && TryParseHexInt32(Cleaned(webcolor.value)).Some?
  {
    if webcolor.None? then None else ReadCleaned(Cleaned(webcolor.value))
  }

  /** The reading as written of a text that is already cleaned. */
  function ReadCleaned(w: string): (c: Option<ColorRGB32Bit>)
    ensures c.Some? ==> c.value.alpha == 0xff
    ensures c.Some? <==> |w| == 6 && TryParseHexInt32(w).Some?
  {
    if |w| == 6 then
      match TryParseHexInt32(w)
      case Some(v) =>
        SetTopByteOpaque(ToUInt32(v));
        Some(FromInt(ToInt32(SetTopByte(ToUInt32(v)))))
      case None => None
    else None
  }

  /**
   * The parser as written agrees with the six-digit reading wherever that
   * reading finds a colour; it differs only on six cleaned characters that
   * end in `'\0'`, which `Int32.TryParse` tolerates after the digits.
   */
  lemma ReadWebColorAgrees(webcolor: Option<string>)
    ensures ParseWebColor(webcolor).Some? ==> ReadWebColor(webcolor) == ParseWebColor(webcolor)
    ensures ReadWebColor(webcolor) != ParseWebColor(webcolor) ==>
      webcolor.Some? && |Cleaned(webcolor.value)| == 6 && Cleaned(webcolor.value)[5] == '\0'
  {
    if webcolor.Some? {
      var w := Cleaned(webcolor.value);
      assert ParseWebColor(webcolor) == ParseCleaned(w);
      assert ReadWebColor(webcolor) == ReadCleaned(w);
      if |w| == 6 {
        SixDigitColor(w);
      }
    }
  }

  /**
   * `"#fff\0\0\0"` is read as written, as the opaque colour 0x000fff,
   * although it holds only three hex digits.
   */
  lemma NulPaddingAccepted()
    ensures ReadWebColor(Some("#fff\0\0\0")) == Some(ColorRGB32Bit(0xff, 0x00, 0x0f, 0xff))
    ensures ParseWebColor(Some("#fff\0\0\0")) == None
  {
    var s, w := "#fff\0\0\0", "fff\0\0\0";
    CleanedNulPadded();
    NulPaddedNumber();
    ReadOfCleaned(s, w, 0xfff);
    OpaqueFff();
    ParseOfCleaned(s, w);
  }

  lemma OpaqueFff()
    ensures FromInt(ToInt32(SetTopByte(ToUInt32(0xfff)))) == ColorRGB32Bit(0xff, 0x00, 0x0f, 0xff)
  {
    var word := SetTopByte(ToUInt32(0xfff));
    assert word == 0xff00_0fff;
    assert ToUInt32(ToInt32(word)) == word;
    assert FromUInt(0xff00_0fff) == ColorRGB32Bit(0xff, 0x00, 0x0f, 0xff);
  }

  /** `ReadWebColor` looks only at the cleaned text. */
  lemma ReadOfCleaned(s: string, w: string, v: Int32)
    requires Cleaned(s) == w && |w| == 6 && TryParseHexInt32(w) == Some(v)
    ensures ReadWebColor(Some(s)) == Some(FromInt(ToInt32(SetTopByte(ToUInt32(v)))))
  {
  }

  lemma ParseOfCleaned(s: string, w: string)
    requires Cleaned(s) == w && |w| > 3 && w[3] == '\0'
    ensures ParseWebColor(Some(s)) == None
  {
    assert !IsHexDigit(w[3]);
  }

  lemma CleanedNulPadded()
    ensures Cleaned("#fff\0\0\0") == "fff\0\0\0"
  {
    var w := "fff\0\0\0";
    assert "#fff\0\0\0" == "#" + w;
    CleanedOfHashed(w);
  }

  /** A text of one `#` and then characters that are neither `#` nor white at the ends is cleaned to those characters. */
  lemma CleanedOfHashed(w: string)
    requires w != [] && w[0] != '#' && !IsWhiteSpace(Unicode, w[0]) && !IsWhiteSpace(Unicode, w[|w| - 1])
    ensures Cleaned("#" + w) == w
  {
    var s := "#" + w;
    TrimOfUntrimmed(s);
    assert s[1..] == w;
    assert SkipHashes(s) == SkipHashes(w) == w;
    TrimOfUntrimmed(w);
  }

  lemma NulPaddedNumber()
    ensures TryParseHexInt32("fff\0\0\0") == Some(0xfff)
  {
    var digits, nuls := "fff", "\0\0\0";
    ThreeFs();
    TryParseHexInt32Accepts([], digits, [], nuls);
    assert [] + digits + [] + nuls == "fff\0\0\0";
  }

  lemma ThreeFs()
    ensures AllHexDigits("fff") && HexValue("fff") == 0xfff
  {
    var f3 := "fff";
    assert f3[..2] == "ff";
    assert "ff"[..1] == "f";
    assert "f"[..0] == [];
    assert HexValue("f") == 15;
    assert HexValue("ff") == 255;
  }

  /**
   * `TryParseWebColorString`: trims, strips every leading `#`, trims again,
   * then reads six characters with `Int32.TryParse` as an opaque colour;
   * `None` otherwise.  `ReadWebColorAgrees` relates this to the six-digit
   * reading.
   */
  method TryParseWebColorString(webcolor: Option<string>) returns (color: Option<ColorRGB32Bit>)
    ensures color == ReadWebColor(webcolor)
  {
    if webcolor.None? {
      return None;
    }
    var w := webcolor.value;
    if |w| < 1 {
      return None;
    }
    w := Trim(w);
    if |w| < 1 {
      return None;
    }
    ghost var trimmed := w;
    while |w| > 0 && w[0] == '#'
      invariant SkipHashes(w) == SkipHashes(trimmed)
      decreases |w|
    {
      w := w[1..];
    }
    assert w == SkipHashes(trimmed);
    w := Trim(w);
    assert w == Cleaned(webcolor.value);
    assert ReadWebColor(webcolor) == ReadCleaned(w);
    if |w| < 1 {
      return None;
    }
    if |w| != 6 {
      return None;
    }
    // Int32.TryParse(w, NumberStyles.HexNumber, null, out currentColor)
    var parsed := TryParseHexInt32(w);
    var currentColor: Int32 := if parsed.Some? then parsed.value else 0;
    var result := parsed.Some?;
    if |w| == 6 {
      currentColor := ToInt32(SetTopByte(ToUInt32(currentColor)));
    }
    if !result {
      return None;
    }
    color := Some(FromInt(currentColor));
  }

  /** `ParseWebColorString`: the colour that `TryParseWebColorString` finds, or the exception when it finds none. */
  method ParseWebColorString(webcolor: Option<string>) returns (r: Result<ColorRGB32Bit, ColorException>)
    ensures r.Success? <==> ReadWebColor(webcolor).Some?
    ensures r.Success? ==> ReadWebColor(webcolor) == Some(r.value)
    ensures r.Failure? ==> r.error == FailedToParse(webcolor)
  {
    var outputColor := TryParseWebColorString(webcolor);
    if outputColor.None? {
      return Failure(FailedToParse(webcolor));
    }
    return Success(outputColor.value);
  }

  // ------------------------------------------------- web colour properties

  /** A null text, and a text of white space only (the empty text among them), is rejected. */
  lemma ParseRejectsBlank(s: string)
    requires forall i | 0 <= i < |s| :: IsWhiteSpace(Unicode, s[i])
    ensures ParseWebColor(None) == None && ReadWebColor(None) == None
    ensures ParseWebColor(Some(s)) == None && ReadWebColor(Some(s)) == None
  {
    assert Trim(s) == [];
  }

  /** The web text of an opaque colour reads back as that colour. */
  lemma WebColorRoundTrip(c: ColorRGB32Bit)
    requires c.alpha == 0xff
    ensures ParseWebColor(Some(ToWebColorString(c))) == Some(c)
    ensures ReadWebColor(Some(ToWebColorString(c))) == Some(c)
  {
    var s := ToWebColorString(c);
    var digits := s[1..];
    assert s == "#" + digits;
    CleanedOfHashed(digits);
    PairsAfterHash(s);
    assert ParseCleaned(digits) == Some(c);
    assert ParseWebColor(Some(s)) == Some(c);
    ReadWebColorAgrees(Some(s));
  }

  lemma PairsAfterHash(s: string)
    requires |s| >= 7
    ensures s[1..][0..2] == s[1..3] && s[1..][2..4] == s[3..5] && s[1..][4..6] == s[5..7]
  {
  }

  /** The eight-digit web text of a colour that is not opaque is not read back: the parser wants six digits. */
  lemma WebColorTranslucentRejected(c: ColorRGB32Bit)
    requires c.alpha != 0xff
    ensures ParseWebColor(Some(ToWebColorString(c))) == None
    ensures ReadWebColor(Some(ToWebColorString(c))) == None
  {
    var s := ToWebColorString(c);
    var digits := s[1..];
    assert s == "#" + digits;
    CleanedOfHashed(digits);
  }

  /** Trimming removes white space on both sides of a text that is not white at its ends. */
  lemma TrimAround(lead: string, t: string, trail: string)
    requires forall i | 0 <= i < |lead| :: IsWhiteSpace(Unicode, lead[i])
    requires forall i | 0 <= i < |trail| :: IsWhiteSpace(Unicode, trail[i])
    requires t != [] && !IsWhiteSpace(Unicode, t[0]) && !IsWhiteSpace(Unicode, t[|t| - 1])
    ensures Trim(lead + t + trail) == t
  {
    assert lead + t + trail == lead + (t + trail);
    TrimStartSkips(lead, t + trail, Unicode);
    TrimUntrimmed(t, Unicode);
    assert TrimStart(t + trail, Unicode) == t + trail;
    TrimEndSkips(t, trail, Unicode);
  }

  /**
   * White space around the text, any number of leading `#`s and white space
   * between them and the digits do not change what a web colour text denotes.
   */
  lemma ParseIgnoresDecoration(lead: string, hashes: string, gap: string, t: string, trail: string)
    requires forall i | 0 <= i < |lead| :: IsWhiteSpace(Unicode, lead[i])
    requires forall i | 0 <= i < |hashes| :: hashes[i] == '#'
    requires forall i | 0 <= i < |gap| :: IsWhiteSpace(Unicode, gap[i])
    requires forall i | 0 <= i < |trail| :: IsWhiteSpace(Unicode, trail[i])
    requires t != [] && t[0] != '#' && !IsWhiteSpace(Unicode, t[0]) && !IsWhiteSpace(Unicode, t[|t| - 1])
    ensures ParseWebColor(Some(lead + hashes + gap + t + trail)) == ParseWebColor(Some(t))
    ensures ReadWebColor(Some(lead + hashes + gap + t + trail)) == ReadWebColor(Some(t))
  {
    CleanedDecorated(lead, hashes, gap, t, trail);
    TrimOfUntrimmed(t);
    assert Cleaned(t) == t;
    SameCleaned(lead + hashes + gap + t + trail, t);
  }

  /** Both readings look only at the cleaned text. */
  lemma SameCleaned(x: string, y: string)
    requires Cleaned(x) == Cleaned(y)
    ensures ParseWebColor(Some(x)) == ParseWebColor(Some(y))
    ensures ReadWebColor(Some(x)) == ReadWebColor(Some(y))
  {
    var w := Cleaned(x);
    assert ParseWebColor(Some(x)) == ParseCleaned(w) == ParseWebColor(Some(y));
    assert ReadWebColor(Some(x)) == ReadCleaned(w) == ReadWebColor(Some(y));
  }

  lemma CleanedDecorated(lead: string, hashes: string, gap: string, t: string, trail: string)
    requires forall i | 0 <= i < |lead| :: IsWhiteSpace(Unicode, lead[i])
    requires forall i | 0 <= i < |hashes| :: hashes[i] == '#'
    requires forall i | 0 <= i < |gap| :: IsWhiteSpace(Unicode, gap[i])
    requires forall i | 0 <= i < |trail| :: IsWhiteSpace(Unicode, trail[i])
    requires t != [] && t[0] != '#' && !IsWhiteSpace(Unicode, t[0]) && !IsWhiteSpace(Unicode, t[|t| - 1])
    ensures Cleaned(lead + hashes + gap + t + trail) == t
  {
    if hashes == [] {
      assert lead + hashes + gap + t + trail == lead + gap + t + trail;
      CleanedWithoutHashes(lead, gap, t, trail);
    } else {
      CleanedWithHashes(lead, hashes, gap, t, trail);
    }
  }

  lemma CleanedWithoutHashes(lead: string, gap: string, t: string, trail: string)
    requires forall i | 0 <= i < |lead| :: IsWhiteSpace(Unicode, lead[i])
    requires forall i | 0 <= i < |gap| :: IsWhiteSpace(Unicode, gap[i])
    requires forall i | 0 <= i < |trail| :: IsWhiteSpace(Unicode, trail[i])
    requires t != [] && t[0] != '#' && !IsWhiteSpace(Unicode, t[0]) && !IsWhiteSpace(Unicode, t[|t| - 1])
    ensures Cleaned(lead + gap + t + trail) == t
  {
    var white := lead + gap;
    assert forall i | 0 <= i < |white| :: IsWhiteSpace(Unicode, white[i]) by {
      forall i | 0 <= i < |white| ensures IsWhiteSpace(Unicode, white[i]) {
        if i < |lead| { assert white[i] == lead[i]; } else { assert white[i] == gap[i - |lead|]; }
      }
    }
    assert lead + gap + t + trail == white + t + trail;
    TrimAround(white, t, trail);
    assert SkipHashes(t) == t;
    TrimOfUntrimmed(t);
  }

  lemma CleanedWithHashes(lead: string, hashes: string, gap: string, t: string, trail: string)
    requires forall i | 0 <= i < |lead| :: IsWhiteSpace(Unicode, lead[i])
    requires hashes != [] && forall i | 0 <= i < |hashes| :: hashes[i] == '#'
    requires forall i | 0 <= i < |gap| :: IsWhiteSpace(Unicode, gap[i])
    requires forall i | 0 <= i < |trail| :: IsWhiteSpace(Unicode, trail[i])
    requires t != [] && t[0] != '#' && !IsWhiteSpace(Unicode, t[0]) && !IsWhiteSpace(Unicode, t[|t| - 1])
    ensures Cleaned(lead + hashes + gap + t + trail) == t
  {
    var core := hashes + gap + t;
    assert lead + hashes + gap + t + trail == lead + core + trail;
    assert core[0] == '#' && core[|core| - 1] == t[|t| - 1];
    TrimAround(lead, core, trail);
    HashesThenGap(hashes, gap, t);
  }

  lemma HashesThenGap(hashes: string, gap: string, t: string)
    requires forall i | 0 <= i < |hashes| :: hashes[i] == '#'
    requires forall i | 0 <= i < |gap| :: IsWhiteSpace(Unicode, gap[i])
    requires t != [] && t[0] != '#' && !IsWhiteSpace(Unicode, t[0]) && !IsWhiteSpace(Unicode, t[|t| - 1])
    ensures Trim(SkipHashes(hashes + gap + t)) == t
  {
    var rest := gap + t;
    assert hashes + gap + t == hashes + rest;
    SkipHashesPrefix(hashes, rest);
    assert rest[0] != '#' by {
      if gap == [] { assert rest[0] == t[0]; } else { assert rest[0] == gap[0]; }
    }
    assert SkipHashes(rest) == rest;
    TrimLeading(gap, t);
  }

  lemma TrimLeading(gap: string, t: string)
    requires forall i | 0 <= i < |gap| :: IsWhiteSpace(Unicode, gap[i])
    requires t != [] && !IsWhiteSpace(Unicode, t[0]) && !IsWhiteSpace(Unicode, t[|t| - 1])
    ensures Trim(gap + t) == t
  {
    TrimStartSkips(gap, t, Unicode);
    TrimUntrimmed(t, Unicode);
  }

  lemma SkipHashesPrefix(hashes: string, rest: string)
    requires forall i | 0 <= i < |hashes| :: hashes[i] == '#'
    ensures SkipHashes(hashes + rest) == SkipHashes(rest)
    decreases |hashes|
  {
    if hashes != [] {
      DropFirst(hashes, rest);
      SkipHashesPrefix(hashes[1..], rest);
    } else {
      assert hashes + rest == rest;
    }
  }

  /** One leading `#` of a longer text is skipped like the rest. */
  lemma DropFirst(hashes: string, rest: string)
    requires hashes != [] && hashes[0] == '#'
    ensures SkipHashes(hashes + rest) == SkipHashes(hashes[1..] + rest)
  {
    var whole := hashes + rest;
    assert whole[0] == '#';
    assert whole[1..] == hashes[1..] + rest;
  }

  /** "#ff0000" is opaque red. */
  lemma ParseRedExample()
    ensures ParseWebColor(Some("#ff0000")) == Some(ColorRGB32Bit(255, 255, 0, 0))
    ensures ReadWebColor(Some("#ff0000")) == Some(ColorRGB32Bit(255, 255, 0, 0))
  {
    var red := ColorRGB32Bit(255, 255, 0, 0);
    assert ToWebColorString(red) == "#ff0000";
    WebColorRoundTrip(red);
  }
}
