/**
 * The parts of the .NET base library that the colour types lean on: the integer
 * widths and their unchecked casts, `Char.IsWhiteSpace`, `String.Trim` and
 * `Int32.TryParse` with `NumberStyles.HexNumber`.  The definitions follow the
 * behaviour of those members, including the parser's tolerance of `'\0'`
 * characters after the number.
 */
module DotNet {
  import opened Wrappers

  type Byte = x: int | 0 <= x < 0x100
  type Int16 = x: int | -0x8000 <= x < 0x8000
  type Int32 = x: int | -0x8000_0000 <= x < 0x8000_0000
  type UInt32 = x: int | 0 <= x < 0x1_0000_0000

  /** `(byte)x` in an unchecked context: keeps the low eight bits. */
  function ToByte(x: int): (b: Byte)
    ensures (x - b) % 0x100 == 0
    ensures 0 <= x < 0x100 ==> b == x
  {
    x % 0x100
  }

  /** `(uint)i`: the same 32 bits read as an unsigned number. */
  function ToUInt32(i: Int32): (u: UInt32)
    ensures (u - i) % 0x1_0000_0000 == 0
    ensures 0 <= i ==> u == i
  {
    if i < 0 then i + 0x1_0000_0000 else i
  }

  /** `(int)u`: the same 32 bits read as a two's complement number. */
  function ToInt32(u: UInt32): (i: Int32)
    ensures (u - i) % 0x1_0000_0000 == 0
    ensures u < 0x8000_0000 ==> i == u
  {
    if u < 0x8000_0000 then u else u - 0x1_0000_0000
  }

  /** `u | 0xff000000`: sets the top eight of the 32 bits and keeps the low 24. */
  function SetTopByte(u: UInt32): (r: UInt32)
    ensures r / 0x100_0000 == 0xff
    ensures r % 0x100_0000 == u % 0x100_0000
  {
    u % 0x100_0000 + 0xff00_0000
  }

  // ---------------------------------------------------------------- characters

  /** Which characters count as white space. */
  datatype WhiteSpaceKind =
    | Unicode      // `Char.IsWhiteSpace`, used by `String.Trim`
    | NumberStyle  // NumberStyles.AllowLeadingWhite / AllowTrailingWhite

  /** White space is never a hex digit, a `#` or a `'\0'`. */
  function IsWhiteSpace(kind: WhiteSpaceKind, c: char): (b: bool)
    ensures b ==> !IsHexDigit(c) && c != '#' && c != '\0'
  {
    var n := c as int;
    match kind
    case Unicode =>
      || 0x09 <= n <= 0x0D || n == 0x20 || n == 0x85 || n == 0xA0 || n == 0x1680
      || 0x2000 <= n <= 0x200A || n == 0x2028 || n == 0x2029 || n == 0x202F
      || n == 0x205F || n == 0x3000
    case NumberStyle =>
      0x09 <= n <= 0x0D || n == 0x20
  }

  /** Every character of `s` is white space in the sense of `Char.IsWhiteSpace`. */
  predicate AllWhite(s: string) {
    forall i | 0 <= i < |s| :: IsWhiteSpace(Unicode, s[i])
  }

  predicate IsHexDigit(c: char) {
    '0' <= c <= '9' || 'a' <= c <= 'f' || 'A' <= c <= 'F'
  }

  predicate AllHexDigits(s: string) {
    forall i | 0 <= i < |s| :: IsHexDigit(s[i])
  }

  function HexDigitValue(c: char): (d: nat)
    requires IsHexDigit(c)
    ensures d < 16
  {
    if c <= '9' then c as int - '0' as int
    else if c <= 'F' then c as int - 'A' as int + 10
    else c as int - 'a' as int + 10
  }

  /** The digit that the `x` format specifier writes for `d`: lower case. */
  function LowerHexDigit(d: nat): (c: char)
    requires d < 16
    ensures IsHexDigit(c) && HexDigitValue(c) == d
    ensures !IsWhiteSpace(Unicode, c) && c != '#'
  {
    if d < 10 then ('0' as int + d) as char else ('a' as int + d - 10) as char
  }

  function Pow16(n: nat): (p: nat)
    ensures p > 0
  {
    if n == 0 then 1 else 16 * Pow16(n - 1)
  }

  /** The number that a run of hex digits denotes, most significant digit first. */
  function HexValue(s: string): (v: nat)
    requires AllHexDigits(s)
    ensures v < Pow16(|s|)
  {
    if s == [] then 0 else HexValue(s[..|s| - 1]) * 16 + HexDigitValue(s[|s| - 1])
  }

  lemma AllHexDigitsAppend(s: string, t: string)
    requires AllHexDigits(s) && AllHexDigits(t)
    ensures AllHexDigits(s + t)
  {
    forall i | 0 <= i < |s + t| ensures IsHexDigit((s + t)[i]) {
      if i < |s| { assert (s + t)[i] == s[i]; } else { assert (s + t)[i] == t[i - |s|]; }
    }
  }

  /** Appending digits shifts the value of the front part by one hex place per digit. */
  lemma {:induction false} HexValueAppend(s: string, t: string)
    requires AllHexDigits(s) && AllHexDigits(t)
    ensures AllHexDigits(s + t)
    ensures HexValue(s + t) == HexValue(s) * Pow16(|t|) + HexValue(t)
    decreases |t|
  {
    AllHexDigitsAppend(s, t);
    if t == [] {
      assert s + t == s;
    } else {
      var t' := t[..|t| - 1];
      assert (s + t)[..|s + t| - 1] == s + t';
      assert (s + t)[|s + t| - 1] == t[|t| - 1];
      HexValueAppend(s, t');
      ShiftOneDigit(HexValue(s), Pow16(|t'|), HexValue(t'), HexDigitValue(t[|t| - 1]));
    }
  }

  lemma ShiftOneDigit(a: int, p: int, v: int, d: int)
    ensures (a * p + v) * 16 + d == a * (16 * p) + (v * 16 + d)
  {
  }

  // ------------------------------------------------------------------- strings

  /** `TrimStart()`: drops the white space at the front. */
  function TrimStart(s: string, kind: WhiteSpaceKind): (r: string)
    ensures |r| <= |s| && r == s[|s| - |r|..]
    ensures r != [] ==> !IsWhiteSpace(kind, r[0])
    ensures forall i | 0 <= i < |s| - |r| :: IsWhiteSpace(kind, s[i])
    decreases |s|
  {
    if s != [] && IsWhiteSpace(kind, s[0]) then TrimStart(s[1..], kind) else s
  }

  /** `TrimEnd()`: drops the white space at the back. */
  function TrimEnd(s: string, kind: WhiteSpaceKind): (r: string)
    ensures |r| <= |s| && r == s[..|r|]
    ensures r != [] ==> !IsWhiteSpace(kind, r[|r| - 1])
    ensures forall i | |r| <= i < |s| :: IsWhiteSpace(kind, s[i])
    decreases |s|
  {
    if s != [] && IsWhiteSpace(kind, s[|s| - 1]) then TrimEnd(s[..|s| - 1], kind) else s
  }

  /** `String.Trim()`: drops the white space (in the sense of `Char.IsWhiteSpace`) at both ends. */
  function Trim(s: string): (r: string)
    ensures r != [] ==> !IsWhiteSpace(Unicode, r[0]) && !IsWhiteSpace(Unicode, r[|r| - 1])
  {
    var r := TrimEnd(TrimStart(s, Unicode), Unicode);
    assert r != [] ==> r[0] == TrimStart(s, Unicode)[0];
    r
  }

  /** `r` is the part of `s` from index `k` on that lies between a white prefix and a white suffix. */
  predicate TrimmedFrom(s: string, r: string, k: nat) {
    && k + |r| <= |s| && r == s[k..k + |r|]
    && AllWhite(s[..k]) && AllWhite(s[k + |r|..])
  }

  /**
   * `Trim` removes white space at the ends and nothing else: what it returns
   * is the part of `s` between a white prefix and a white suffix.
   */
  lemma TrimRemovesWhiteEnds(s: string)
    ensures TrimmedFrom(s, Trim(s), |s| - |TrimStart(s, Unicode)|)
  {
    var t := TrimStart(s, Unicode);
    TrimParts(s, t, TrimEnd(t, Unicode));
    TrimUnfolds(s);
  }

  lemma TrimUnfolds(s: string)
    ensures Trim(s) == TrimEnd(TrimStart(s, Unicode), Unicode)
  {
  }

  /** The parts around `r` inside `s`, given that `r` is `s` with white space dropped at the front and then at the back. */
  lemma TrimParts(s: string, t: string, r: string)
    requires |t| <= |s| && t == s[|s| - |t|..]
    requires forall i | 0 <= i < |s| - |t| :: IsWhiteSpace(Unicode, s[i])
    requires |r| <= |t| && r == t[..|r|]
    requires forall i | |r| <= i < |t| :: IsWhiteSpace(Unicode, t[i])
    ensures TrimmedFrom(s, r, |s| - |t|)
  {
    var k := |s| - |t|;
    var head, tail := s[..k], s[k + |r|..];
    forall i | 0 <= i < |head| ensures IsWhiteSpace(Unicode, head[i]) {
      assert head[i] == s[i];
    }
    assert tail == t[|r|..];
    forall i | 0 <= i < |tail| ensures IsWhiteSpace(Unicode, tail[i]) {
      assert tail[i] == t[|r| + i];
    }
  }

  /** Trimming a text that already starts and ends with other characters changes nothing. */
  lemma TrimUntrimmed(s: string, kind: WhiteSpaceKind)
    requires s != [] && !IsWhiteSpace(kind, s[0]) && !IsWhiteSpace(kind, s[|s| - 1])
    ensures TrimStart(s, kind) == s && TrimEnd(s, kind) == s
  {
  }

  lemma TrimOfUntrimmed(s: string)
    requires s != [] && !IsWhiteSpace(Unicode, s[0]) && !IsWhiteSpace(Unicode, s[|s| - 1])
    ensures Trim(s) == s
  {
    TrimUntrimmed(s, Unicode);
  }

  // ------------------------------------------------------------------- numbers

  /** Drops the `'\0'` characters at the back. */
  function TrimTrailingNuls(s: string): (r: string)
    ensures |r| <= |s| && r == s[..|r|]
    ensures r != [] ==> r[|r| - 1] != '\0'
    ensures forall i | |r| <= i < |s| :: s[i] == '\0'
    decreases |s|
  {
    if s != [] && s[|s| - 1] == '\0' then TrimTrailingNuls(s[..|s| - 1]) else s
  }

  /**
   * The text `Int32.TryParse` with `NumberStyles.HexNumber` reads as the
   * number: leading white space, then the number, then trailing white space,
   * then any `'\0'` characters, which the parser tolerates at the end.
   */
  function HexNumberBody(s: string): string {
    TrimEnd(TrimTrailingNuls(TrimStart(s, NumberStyle)), NumberStyle)
  }

  /**
   * `Int32.TryParse(s, NumberStyles.HexNumber, null, out v)`: a non-empty run
   * of hex digits whose value fits in 32 bits, between the white space and
   * trailing `'\0'`s that `HexNumberBody` drops; those bits are read as a
   * two's complement number.
   */
  function TryParseHexInt32(s: string): (r: Option<Int32>)
    ensures r.Some? <==>
      HexNumberBody(s) != [] && AllHexDigits(HexNumberBody(s)) && HexValue(HexNumberBody(s)) < 0x1_0000_0000
    ensures r.Some? ==> ToUInt32(r.value) == HexValue(HexNumberBody(s))
  {
    var t := HexNumberBody(s);
    if t != [] && AllHexDigits(t) && HexValue(t) < 0x1_0000_0000 then Some(ToInt32(HexValue(t)))
    else None
  }

  /**
   * Every text of the form white space, hex digits, white space, `'\0'`s is
   * read as the value of its digits, when that fits in 32 bits.
   */
  lemma TryParseHexInt32Accepts(lead: string, digits: string, gap: string, nuls: string)
    requires forall i | 0 <= i < |lead| :: IsWhiteSpace(NumberStyle, lead[i])
    requires digits != [] && AllHexDigits(digits) && HexValue(digits) < 0x1_0000_0000
    requires forall i | 0 <= i < |gap| :: IsWhiteSpace(NumberStyle, gap[i])
    requires forall i | 0 <= i < |nuls| :: nuls[i] == '\0'
    ensures TryParseHexInt32(lead + digits + gap + nuls) == Some(ToInt32(HexValue(digits)))
  {
    var rest := digits + gap + nuls;
    assert lead + digits + gap + nuls == lead + rest;
    BodyAfterLead(lead, rest);
    BodyOfDigits(digits, gap, nuls);
    assert HexNumberBody(lead + digits + gap + nuls) == digits;
  }

  lemma BodyAfterLead(lead: string, rest: string)
    requires forall i | 0 <= i < |lead| :: IsWhiteSpace(NumberStyle, lead[i])
    requires rest != [] && !IsWhiteSpace(NumberStyle, rest[0])
    ensures TrimStart(lead + rest, NumberStyle) == rest
  {
    TrimStartSkips(lead, rest, NumberStyle);
  }

  lemma BodyOfDigits(digits: string, gap: string, nuls: string)
    requires digits != [] && AllHexDigits(digits)
    requires forall i | 0 <= i < |gap| :: IsWhiteSpace(NumberStyle, gap[i])
    requires forall i | 0 <= i < |nuls| :: nuls[i] == '\0'
    ensures var rest := digits + gap + nuls;
      rest != [] && !IsWhiteSpace(NumberStyle, rest[0])
      && TrimEnd(TrimTrailingNuls(rest), NumberStyle) == digits
  {
    var rest := digits + gap + nuls;
    assert rest[0] == digits[0];
    var dg := digits + gap;
    assert rest == dg + nuls;
    TrimTrailingNulsSkips(dg, nuls);
    assert dg[|dg| - 1] != '\0' by {
      if gap == [] {
        assert dg[|dg| - 1] == digits[|digits| - 1];
      } else {
        assert dg[|dg| - 1] == gap[|gap| - 1];
      }
    }
    TrimEndSkips(digits, gap, NumberStyle);
    assert TrimEnd(digits, NumberStyle) == digits;
  }

  /** On a text whose ends are not white space and which does not end in `'\0'`, the parse reads exactly hex digits that fit. */
  lemma TryParseHexInt32Trimmed(s: string)
    requires s != [] && !IsWhiteSpace(Unicode, s[0]) && !IsWhiteSpace(Unicode, s[|s| - 1])
    requires s[|s| - 1] != '\0'
    ensures TryParseHexInt32(s) ==
      if AllHexDigits(s) && HexValue(s) < 0x1_0000_0000 then Some(ToInt32(HexValue(s))) else None
  {
    TrimUntrimmed(s, NumberStyle);
    assert TrimTrailingNuls(s) == s;
  }

  lemma TrimStartSkips(pre: string, rest: string, kind: WhiteSpaceKind)
    requires forall i | 0 <= i < |pre| :: IsWhiteSpace(kind, pre[i])
    ensures TrimStart(pre + rest, kind) == TrimStart(rest, kind)
    decreases |pre|
  {
    if pre != [] {
      assert (pre + rest)[1..] == pre[1..] + rest;
      TrimStartSkips(pre[1..], rest, kind);
    } else {
      assert pre + rest == rest;
    }
  }

  lemma TrimEndSkips(rest: string, post: string, kind: WhiteSpaceKind)
    requires forall i | 0 <= i < |post| :: IsWhiteSpace(kind, post[i])
    ensures TrimEnd(rest + post, kind) == TrimEnd(rest, kind)
    decreases |post|
  {
    if post != [] {
      assert (rest + post)[..|rest + post| - 1] == rest + post[..|post| - 1];
      TrimEndSkips(rest, post[..|post| - 1], kind);
    } else {
      assert rest + post == rest;
    }
  }

  lemma TrimTrailingNulsSkips(rest: string, nuls: string)
    requires forall i | 0 <= i < |nuls| :: nuls[i] == '\0'
    ensures TrimTrailingNuls(rest + nuls) == TrimTrailingNuls(rest)
    decreases |nuls|
  {
    if nuls != [] {
      assert (rest + nuls)[..|rest + nuls| - 1] == rest + nuls[..|nuls| - 1];
      TrimTrailingNulsSkips(rest, nuls[..|nuls| - 1]);
    } else {
      assert rest + nuls == rest;
    }
  }
}
