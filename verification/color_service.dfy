/** The 8-bit ARGB part of `ColorService`: hex validation, parsing and
    formatting, channel replacement, lighten/darken and blending. */
module ColorService {
  import opened Wrappers
  import opened DotNetText
  import opened HexFormat

  /** A C# `int`. */
  type Int32 = x: int | -0x8000_0000 <= x < 0x8000_0000

  /** `System.Windows.Media.Color`: four bytes, alpha first. */
  datatype Color = Color(A: Byte, R: Byte, G: Byte, B: Byte)

  /** The out parameters of `ColorToRgb` and `HexToRgb`, in their order. */
  datatype Channels = Channels(red: Byte, green: Byte, blue: Byte, alpha: Byte)

  /** `GetHex`, the colour-name lookup `HexToColor` consults, is not part of
      this model: it is a parameter, any function from the lowered input to a
      string or `null`. */
  type HexLookup = string -> Option<string>

  /** `getHex` hands `s` back unchanged, as a lookup does for a string that
      is not a colour name. */
  predicate PassesThrough(getHex: HexLookup, s: string)
  {
    getHex(s) == Some(s)
  }

  const OPAQUE: Byte := 255

  const BRUSH_FORMAT_MESSAGE := "Color in hex representation has to be between 6 and 8 characters"

  const HEX_FORMAT_MESSAGE := " is invalid hex color format"

  // ---------------------------------------------------------------------
  // The hex language and the two regular expressions that accept it
  // ---------------------------------------------------------------------

  /** Six or eight hexadecimal digits in either case. */
  predicate IsHexBody(h: string)
  {
    (|h| == 6 || |h| == 8) && AllHexDigits(h)
  }

  /** `#` followed by a hex body: the strings the pattern
      `^#([0-9a-fA-F]{6}$|[0-9a-fA-F]{8})$` matches in full. */
  predicate IsHexColorText(t: string)
  {
    |t| > 0 && t[0] == '#' && IsHexBody(t[1..])
  }

  /** The pattern `([A-F0-9]{2}){k}` (case-insensitive) anchored at both ends. */
  predicate HexPairs(s: string, k: nat)
    decreases k
  {
    if k == 0 then s == []
    else |s| >= 2 && IsHexDigit(s[0]) && IsHexDigit(s[1]) && HexPairs(s[2..], k - 1)
  }

  /** `^#([A-F0-9]{2}){3,4}$`, the pattern of `GetSolidColorBrush`. */
  predicate BrushPattern(t: string)
  {
    |t| > 0 && t[0] == '#' && (HexPairs(t[1..], 3) || HexPairs(t[1..], 4))
  }

  lemma {:induction false} HexPairsIsDigits(s: string, k: nat)
    ensures HexPairs(s, k) <==> |s| == 2 * k && AllHexDigits(s)
    decreases k
  {
    if k > 0 && |s| >= 2 {
      HexPairsIsDigits(s[2..], k - 1);
      assert AllHexDigits(s) <==> IsHexDigit(s[0]) && IsHexDigit(s[1]) && AllHexDigits(s[2..]) by {
        assert forall i | 2 <= i < |s| :: s[i] == s[2..][i - 2];
      }
    }
  }

  /** `HexColorValidate`: the pattern `^#([0-9a-fA-F]{6}$|[0-9a-fA-F]{8})$`
      matched against the trimmed, non-null input. */
  function HexColorValidate(hexColor: Option<string>): (r: bool)
    ensures hexColor.None? ==> !r
    ensures r ==> |Trim(hexColor.value)| == 7 || |Trim(hexColor.value)| == 9
  {
    hexColor.Some? && IsHexColorText(Trim(hexColor.value))
  }

  /** Surrounding white space never matters to the validator: a string and
      its trimmed form are accepted alike. */
  lemma HexColorValidateTrimmed(s: string)
    ensures HexColorValidate(Some(Trim(s))) == HexColorValidate(Some(s))
  {
    TrimIdempotent(s);
  }

  /** The two regular expressions of the service accept the same strings:
      `GetSolidColorBrush`'s `#` and three or four digit pairs is exactly
      `HexColorValidate`'s `#` and six or eight digits. */
  lemma BrushPatternIsValidate(s: string)
    ensures BrushPattern(Trim(s)) <==> HexColorValidate(Some(s))
  {
    var t := Trim(s);
    if |t| > 0 {
      HexPairsIsDigits(t[1..], 3);
      HexPairsIsDigits(t[1..], 4);
    }
  }

  // ---------------------------------------------------------------------
  // Parsing
  // ---------------------------------------------------------------------

  /** The colour a hex body denotes: six digits are R, G, B with alpha 255,
      eight digits are A, R, G, B; each channel is a digit pair. */
  function DecodeBody(h: string): (c: Color)
    requires IsHexBody(h)
    ensures |h| == 6 ==>
      && c.A == OPAQUE && c.R == PairValue(h[0], h[1])
      && c.G == PairValue(h[2], h[3]) && c.B == PairValue(h[4], h[5])
    ensures |h| == 8 ==>
      && c.A == PairValue(h[0], h[1]) && c.R == PairValue(h[2], h[3])
      && c.G == PairValue(h[4], h[5]) && c.B == PairValue(h[6], h[7])
  {
    PairValuesSpec(h);
    var v := PairValues(h);
    if |h| == 6 then Color(OPAQUE, v[0], v[1], v[2]) else Color(v[0], v[1], v[2], v[3])
  }

  /** What `HexToColor` keeps of the looked-up string: trimmed, with every
      leading `#` removed. */
  function StripHashes(s: string): (r: string)
    ensures |r| <= |Trim(s)| && r == Trim(s)[|Trim(s)| - |r|..]
    ensures forall i | 0 <= i < |Trim(s)| - |r| :: Trim(s)[i] == '#'
    ensures r == [] || (r[0] != '#' && !IsWhiteSpace(r[|r| - 1]))
  {
    TrimSpec(s);
    TrimStartCharSpec(Trim(s), '#');
    TrimStartChar(Trim(s), '#')
  }

  /** Putting one `#` back in front of a stripped string needs no trimming. */
  lemma TrimHashStripped(s: string)
    ensures Trim("#" + StripHashes(s)) == "#" + StripHashes(s)
  {
    var t := Trim(s);
    var b := StripHashes(s);
    TrimSpec(s);
    TrimStartCharSpec(t, '#');
    if b != [] {
      assert b[|b| - 1] == t[|t| - 1];
    }
    TrimNoPadding("#" + b);
  }

  lemma HashText(b: string)
    ensures IsHexColorText("#" + b) <==> IsHexBody(b)
  {
    assert ("#" + b)[1..] == b;
  }

  /** `HexToColor`: `null` for a null or blank input and for anything that,
      once looked up, trimmed and stripped of leading `#`s, is not six or
      eight hexadecimal digits. */
  function HexToColor(hexColor: Option<string>, getHex: HexLookup): (r: Option<Color>)
    ensures hexColor.None? ==> r.None?
    ensures hexColor.Some? && IsWhiteSpaceOnly(hexColor.value) ==> r.None?
  {
    if hexColor.None? || IsWhiteSpaceOnly(hexColor.value) then None
    else
      var named := getHex(ToLower(hexColor.value));
      if named.None? then None
      else
        var body := StripHashes(named.value);
        TrimHashStripped(named.value);
        if !HexColorValidate(Some("#" + body)) then None
        else Some(DecodeBody(body))
  }

  lemma DecodeLower(h: string)
    requires IsHexBody(h)
    ensures IsHexBody(ToLower(h)) && DecodeBody(ToLower(h)) == DecodeBody(h)
  {
    var l := ToLower(h);
    forall i | 0 <= i < |h| ensures IsHexDigit(l[i]) && DigitValue(l[i]) == DigitValue(h[i]) {
      LowerDigit(h[i]);
    }
    assert IsHexBody(l);
    var v, w := PairValues(h), PairValues(l);
    PairValuesSpec(h);
    PairValuesSpec(l);
    forall k | 0 <= k < |v| ensures w[k] == v[k] {
      assert w[k] == PairValue(l[2 * k], l[2 * k + 1]);
      assert v[k] == PairValue(h[2 * k], h[2 * k + 1]);
    }
    assert w == v;
  }

  lemma HexBodyLower(h: string)
    ensures IsHexBody(ToLower(h)) <==> IsHexBody(h)
  {
    if IsHexBody(h) {
      DecodeLower(h);
    }
  }

  /** What `HexToColor` does with a non-blank string the lookup passes through. */
  lemma HexToColorPassThrough(s: string, getHex: HexLookup)
    requires PassesThrough(getHex, ToLower(s)) && !IsWhiteSpaceOnly(s)
    ensures var body := StripHashes(ToLower(s));
      HexToColor(Some(s), getHex) == if IsHexBody(body) then Some(DecodeBody(body)) else None
  {
    var body := StripHashes(ToLower(s));
    TrimHashStripped(ToLower(s));
    HashText(body);
  }

  /** Stripping commutes with lower-casing. */
  lemma StripHashesLower(s: string)
    ensures StripHashes(ToLower(s)) == ToLower(StripHashes(s))
  {
    TrimLower(s);
    TrimStartCharLower(Trim(s), '#');
  }

  /** The strings `HexToColor` accepts, for a lookup that passes the input
      through: exactly those that, trimmed and stripped of every leading
      `#`, are six or eight hexadecimal digits; the colour is the one those
      digits denote. */
  lemma HexToColorLanguage(s: string, getHex: HexLookup)
    requires PassesThrough(getHex, ToLower(s))
    ensures var r := HexToColor(Some(s), getHex);
      && (r.Some? <==> IsHexBody(StripHashes(s)))
      && (r.Some? ==> r.value == DecodeBody(StripHashes(s)))
  {
    var h := StripHashes(s);
    TrimEmptyIffWhiteSpace(s);
    if !IsWhiteSpaceOnly(s) {
      HexToColorPassThrough(s, getHex);
      StripHashesLower(s);
      HexBodyLower(h);
      if IsHexBody(h) {
        DecodeLower(h);
      }
    }
  }

  /** Every string `HexColorValidate` accepts is read by `HexToColor` (for a
      lookup that passes it through) as the colour its digits denote. */
  lemma HexToColorOfValidText(s: string, getHex: HexLookup)
    requires HexColorValidate(Some(s))
    requires PassesThrough(getHex, ToLower(s))
    ensures HexToColor(Some(s), getHex) == Some(DecodeBody(Trim(s)[1..]))
  {
    var t := Trim(s);
    assert StripHashes(s) == t[1..] by {
      assert IsHexDigit(t[1..][0]);
      assert TrimStartChar(t[1..], '#') == t[1..];
    }
    HexToColorLanguage(s, getHex);
  }

  // ---------------------------------------------------------------------
  // Formatting
  // ---------------------------------------------------------------------

  /** The channels `ColorToHex` writes: alpha only when it is not 255. */
  function HexChannels(c: Color): seq<Byte>
  {
    if c.A == OPAQUE then [c.R, c.G, c.B] else [c.A, c.R, c.G, c.B]
  }

  /** `ColorToHex`: `""` for `null`; `#RRGGBB` for an opaque colour and
      `#AARRGGBB` otherwise, in upper-case digits. */
  function ColorToHex(color: Option<Color>): (r: string)
    ensures color.None? ==> r == ""
    ensures color.Some? ==> |r| == (if color.value.A == OPAQUE then 7 else 9)
    ensures color.Some? ==> r[0] == '#' && forall i | 1 <= i < |r| :: IsUpperHexDigit(r[i])
  {
    if color.None? then ""
    else
      PairsTextSpec(HexChannels(color.value));
      "#" + PairsText(HexChannels(color.value))
  }

  /** What `ColorToHex` writes is a hex body behind one `#`, so
      `HexColorValidate` accepts it. */
  lemma ColorToHexIsValid(c: Color)
    ensures IsHexBody(ColorToHex(Some(c))[1..])
    ensures HexColorValidate(Some(ColorToHex(Some(c))))
  {
    var r := ColorToHex(Some(c));
    TrimNoPadding(r);
    assert IsHexBody(r[1..]);
  }

  /** The digits `ColorToHex` writes denote the colour it was given. */
  lemma DecodeColorToHex(c: Color)
    ensures IsHexBody(ColorToHex(Some(c))[1..])
    ensures DecodeBody(ColorToHex(Some(c))[1..]) == c
  {
    ColorToHexIsValid(c);
    var h := ColorToHex(Some(c))[1..];
    assert h == PairsText(HexChannels(c));
    PairValuesOfPairsText(HexChannels(c));
  }

  /** Different colours are never written as the same text. */
  lemma ColorToHexInjective(c: Color, d: Color)
    requires ColorToHex(Some(c)) == ColorToHex(Some(d))
    ensures c == d
  {
    DecodeColorToHex(c);
    DecodeColorToHex(d);
  }

  /** Round trip: `HexToColor(ColorToHex(c)) == c` for every colour, when the
      lookup passes the lowered hex text through. */
  lemma HexToColorOfColorToHex(c: Color, getHex: HexLookup)
    requires PassesThrough(getHex, ToLower(ColorToHex(Some(c))))
    ensures HexToColor(Some(ColorToHex(Some(c))), getHex) == Some(c)
  {
    var s := ColorToHex(Some(c));
    ColorToHexIsValid(c);
    TrimNoPadding(s);
    HexToColorOfValidText(s, getHex);
    DecodeColorToHex(c);
  }

  /** `ByteHex` is "FF" for 255 and for nothing else. */
  lemma ByteHexFF(b: Byte)
    ensures ByteHex(b) == "FF" <==> b == OPAQUE
  {
    if ByteHex(b) == "FF" {
      assert PairValue('F', 'F') == b;
    }
  }

  /** Dropping the first digit pair drops the first value. */
  lemma PairValuesDropFirst(h: string)
    requires |h| >= 2 && |h| % 2 == 0 && AllHexDigits(h)
    ensures AllHexDigits(h[2..]) && PairValues(h[2..]) == PairValues(h)[1..]
  {
    assert PairValues(h) == [PairValue(h[0], h[1])] + PairValues(h[2..]);
  }

  /** The leading pair of an eight-digit body reads "FF" exactly when the
      alpha it denotes is 255. */
  lemma AlphaPairFF(h: string)
    requires IsHexBody(h) && |h| == 8
    ensures ToUpper(h[..2]) == "FF" <==> PairValues(h)[0] == OPAQUE
  {
    var v := PairValues(h);
    ByteHexOfPair(h[0], h[1]);
    assert ToUpper(h[..2]) == [UpperChar(h[0]), UpperChar(h[1])];
    ByteHexFF(v[0]);
  }

  /** The hex text of the colour a body denotes, written from the channels
      that body lists. */
  lemma ColorToHexOfChannels(h: string, c: Color)
    requires |h| % 2 == 0 && AllHexDigits(h) && HexChannels(c) == PairValues(h)
    ensures ColorToHex(Some(c)) == "#" + ToUpper(h)
  {
    PairsTextOfPairValues(h);
  }

  /** A six-digit body formats back to itself in upper case. */
  lemma ColorToHexOfDecodeOpaque(h: string)
    requires IsHexBody(h) && |h| == 6
    ensures ColorToHex(Some(DecodeBody(h))) == "#" + ToUpper(h)
  {
    ColorToHexOfChannels(h, DecodeBody(h));
  }

  /** An eight-digit body whose alpha is not 255 formats back to itself in
      upper case. */
  lemma ColorToHexOfDecodeAlpha(h: string)
    requires IsHexBody(h) && |h| == 8 && PairValues(h)[0] != OPAQUE
    ensures ColorToHex(Some(DecodeBody(h))) == "#" + ToUpper(h)
  {
    ColorToHexOfChannels(h, DecodeBody(h));
  }

  /** An eight-digit body whose alpha is 255 formats back without its alpha. */
  lemma ColorToHexOfDecodeDropsFF(h: string)
    requires IsHexBody(h) && |h| == 8 && PairValues(h)[0] == OPAQUE
    ensures ColorToHex(Some(DecodeBody(h))) == "#" + ToUpper(h[2..])
  {
    PairValuesDropFirst(h);
    ColorToHexOfChannels(h[2..], DecodeBody(h));
  }

  /** `ColorToHex` of a decoded body is the body in upper case behind one
      `#`, except that an eight-digit body with alpha `FF` loses its alpha. */
  lemma ColorToHexOfDecode(h: string)
    requires IsHexBody(h)
    ensures ColorToHex(Some(DecodeBody(h))) ==
      if |h| == 8 && ToUpper(h[..2]) == "FF" then "#" + ToUpper(h[2..]) else "#" + ToUpper(h)
  {
    if |h| == 6 {
      ColorToHexOfDecodeOpaque(h);
    } else {
      AlphaPairFF(h);
      if PairValues(h)[0] == OPAQUE {
        ColorToHexOfDecodeDropsFF(h);
      } else {
        ColorToHexOfDecodeAlpha(h);
      }
    }
  }

  /** Round trip from the text side: for a body of six or eight digits,
      `ColorToHex(HexToColor("#" + h))` is `"#" + upper(h)`, except that an
      eight-digit body whose alpha pair is `FF` collapses to six digits. */
  lemma ColorToHexOfHexToColor(h: string, getHex: HexLookup)
    requires IsHexBody(h)
    requires PassesThrough(getHex, ToLower("#" + h))
    ensures HexToColor(Some("#" + h), getHex).Some?
    ensures ColorToHex(HexToColor(Some("#" + h), getHex)) ==
      if |h| == 8 && ToUpper(h[..2]) == "FF" then "#" + ToUpper(h[2..]) else "#" + ToUpper(h)
  {
    var s := "#" + h;
    assert s[1..] == h;
    TrimNoPadding(s);
    assert IsHexColorText(s);
    HexToColorOfValidText(s, getHex);
    ColorToHexOfDecode(h);
  }

  /** `RgbToHex`: the hex text of the colour with those channels; seven
      characters exactly when the alpha is 255. */
  function RgbToHex(red: Byte, green: Byte, blue: Byte, alpha: Byte := OPAQUE): (r: string)
    ensures |r| == 7 <==> alpha == OPAQUE
  {
    ColorToHex(Some(RgbToColor(red, green, blue, alpha)))
  }

  /** `RgbToColor`: the colour with those channels. */
  function RgbToColor(red: Byte, green: Byte, blue: Byte, alpha: Byte := OPAQUE): (c: Color)
    ensures ColorToRgb(c) == Channels(red, green, blue, alpha)
  {
    Color(alpha, red, green, blue)
  }

  /** `ColorToRgb`: the four channels of a colour. */
  function ColorToRgb(color: Color): (ch: Channels)
    ensures color == Color(ch.alpha, ch.red, ch.green, ch.blue)
  {
    Channels(color.R, color.G, color.B, color.A)
  }

  lemma RgbToColorOfColorToRgb(color: Color)
    ensures var ch := ColorToRgb(color); RgbToColor(ch.red, ch.green, ch.blue, ch.alpha) == color
  {
  }

  /** `HexToRgb`: throws exactly when `HexToColor` gives `null`, and
      otherwise hands out that colour's channels. */
  function HexToRgb(hexColor: Option<string>, getHex: HexLookup): (r: Result<Channels, string>)
    ensures r.Failure? <==> HexToColor(hexColor, getHex).None?
    ensures r.Success? ==> RgbToColor(r.value.red, r.value.green, r.value.blue, r.value.alpha) == HexToColor(hexColor, getHex).value
  {
    match HexToColor(hexColor, getHex)
    case Some(color) => Success(ColorToRgb(color))
    case None => Failure((if hexColor.Some? then hexColor.value else "") + HEX_FORMAT_MESSAGE)
  }

  /** Round trip through the channel-level API. */
  lemma HexToRgbOfRgbToHex(red: Byte, green: Byte, blue: Byte, alpha: Byte, getHex: HexLookup)
    requires PassesThrough(getHex, ToLower(RgbToHex(red, green, blue, alpha)))
    ensures HexToRgb(Some(RgbToHex(red, green, blue, alpha)), getHex) == Success(Channels(red, green, blue, alpha))
  {
    HexToColorOfColorToHex(RgbToColor(red, green, blue, alpha), getHex);
  }

  // ---------------------------------------------------------------------
  // Channel replacement
  // ---------------------------------------------------------------------

  /** The unchecked `(byte)` cast of an `int`: its low eight bits. */
  function LowByte(v: int): (b: Byte)
    ensures 0 <= v < 256 ==> b == v
    ensures (b - v) % 256 == 0
  {
    v % 256
  }

  /** `SetRgba`: every channel whose argument is above -1 is replaced by
      that argument's low byte; every other channel is kept. */
  method SetRgba(color: Color, red: Int32 := -1, green: Int32 := -1, blue: Int32 := -1, alpha: Int32 := -1)
    returns (newColor: Color)
    ensures newColor.A == if alpha > -1 then LowByte(alpha) else color.A
    ensures newColor.R == if red > -1 then LowByte(red) else color.R
    ensures newColor.G == if green > -1 then LowByte(green) else color.G
    ensures newColor.B == if blue > -1 then LowByte(blue) else color.B
  {
    newColor := color;
    if alpha > -1 {
      newColor := newColor.(A := LowByte(alpha));
    }
    if red > -1 {
      newColor := newColor.(R := LowByte(red));
    }
    if green > -1 {
      newColor := newColor.(G := LowByte(green));
    }
    if blue > -1 {
      newColor := newColor.(B := LowByte(blue));
    }
  }

  /** `SetAlphaComponent`: only alpha may change. */
  method SetAlphaComponent(color: Color, alpha: Int32) returns (newColor: Color)
    ensures newColor == if alpha > -1 then color.(A := LowByte(alpha)) else color
  {
    newColor := SetRgba(color, -1, -1, -1, alpha);
  }

  /** `SetRedComponent`: only red may change. */
  method SetRedComponent(color: Color, red: Int32) returns (newColor: Color)
    ensures newColor == if red > -1 then color.(R := LowByte(red)) else color
  {
    newColor := SetRgba(color, red);
  }

  /** `SetGreenComponent`: only green may change. */
  method SetGreenComponent(color: Color, green: Int32) returns (newColor: Color)
    ensures newColor == if green > -1 then color.(G := LowByte(green)) else color
  {
    newColor := SetRgba(color, -1, green);
  }

  /** `SetBlueComponent`: only blue may change. */
  method SetBlueComponent(color: Color, blue: Int32) returns (newColor: Color)
    ensures newColor == if blue > -1 then color.(B := LowByte(blue)) else color
  {
    newColor := SetRgba(color, -1, -1, blue);
  }

  // ---------------------------------------------------------------------
  // The brush parser
  // ---------------------------------------------------------------------

  /** The parsing half of `GetSolidColorBrush`: `null` for a null or empty
      input whatever `throws` says; for any other input that, trimmed, is not
      `#` and six or eight hex digits, an `ArgumentException` when `throws`
      holds and `null` otherwise; else the colour of those digits, opaque
      when there are six. */
  method GetSolidColorBrush(colorHex: Option<string>, throws: bool := true)
    returns (r: Result<Option<Color>, string>)
    ensures colorHex.None? || colorHex.value == [] ==> r == Success(None)
    ensures r.Failure? <==> colorHex.Some? && colorHex.value != [] && throws && !HexColorValidate(colorHex)
    ensures r.Failure? ==> r.error == BRUSH_FORMAT_MESSAGE
    ensures r == Success(None) <==> colorHex.None? || colorHex.value == [] || (!throws && !HexColorValidate(colorHex))
    ensures r.Success? && r.value.Some? ==>
      HexColorValidate(colorHex) && r.value.value == DecodeBody(Trim(colorHex.value)[1..])
    ensures r.Success? && r.value.Some? && |Trim(colorHex.value)| == 7 ==> r.value.value.A == OPAQUE
  {
    if colorHex.None? || colorHex.value == [] {
      return Success(None);
    }
    var hex := Trim(colorHex.value);
    BrushPatternIsValidate(colorHex.value);
    if !BrushPattern(hex) {
      if throws {
        return Failure(BRUSH_FORMAT_MESSAGE);
      }
      return Success(None);
    }
    hex := hex[1..];
    PairValuesSpec(hex);
    var a: Byte := OPAQUE;
    var red: Byte;
    var green: Byte;
    var blue: Byte;
    if |hex| == 6 {
      red := PairValue(hex[0], hex[1]);
      green := PairValue(hex[2], hex[3]);
      blue := PairValue(hex[4], hex[5]);
    } else {
      a := PairValue(hex[0], hex[1]);
      red := PairValue(hex[2], hex[3]);
      green := PairValue(hex[4], hex[5]);
      blue := PairValue(hex[6], hex[7]);
    }
    r := Success(Some(Color(a, red, green, blue)));
  }

  // ---------------------------------------------------------------------
  // Lighten and darken
  // ---------------------------------------------------------------------

  /** `Math.Min` and `Math.Max` on doubles. */
  function Min(x: real, y: real): real { if x <= y then x else y }
  function Max(x: real, y: real): real { if x >= y then x else y }
  /** `Math.Abs` on doubles. */
  function Abs(x: real): real { if x < 0.0 then -x else x }

  /** The `(byte)` cast of a double already in range: truncation toward
      zero, which on a non-negative value is the floor. */
  function TruncateToByte(x: real): (b: Byte)
    requires 0.0 <= x < 256.0
    ensures b as real <= x < b as real + 1.0
  {
    x.Floor
  }

  /** One channel of `Lighten`: the channel plus `absolute`, clamped to
      [0, 255], truncated. */
  function LightenChannel(v: Byte, absolute: real): (r: Byte)
    ensures absolute >= 0.0 ==> r >= v
    ensures absolute <= 0.0 ==> r <= v
    ensures absolute == 0.0 ==> r == v
    ensures v as real + absolute >= 255.0 ==> r == 255
    ensures v as real + absolute < 1.0 ==> r == 0
  {
    TruncateToByte(Min(255.0, Max(0.0, v as real + absolute)))
  }

  /** `Lighten`: adds `percent` of 255 to red, green and blue, clamping
      each to [0, 255] and truncating; alpha is left alone. */
  function Lighten(color: Color, percent: real): (r: Color)
    ensures r.A == color.A
    ensures percent >= 0.0 ==> r.R >= color.R && r.G >= color.G && r.B >= color.B
    ensures percent <= 0.0 ==> r.R <= color.R && r.G <= color.G && r.B <= color.B
    ensures percent == 0.0 ==> r == color
    ensures percent >= 100.0 ==> r == Color(color.A, 255, 255, 255)
  {
    var absolute := (percent * 255.0) / 100.0;
    Color(color.A, LightenChannel(color.R, absolute), LightenChannel(color.G, absolute), LightenChannel(color.B, absolute))
  }

  /** `Darken`: `Lighten` by the negated percent; never brighter, alpha kept,
      black from 100 percent on. */
  function Darken(color: Color, percent: real): (r: Color)
    ensures r.A == color.A
    ensures percent >= 0.0 ==> r.R <= color.R && r.G <= color.G && r.B <= color.B
    ensures percent >= 100.0 ==> r == Color(color.A, 0, 0, 0)
  {
    Lighten(color, -percent)
  }

  /** The larger the percent, the lighter every channel. */
  lemma LightenMonotonic(color: Color, p: real, q: real)
    requires p <= q
    ensures Lighten(color, p).R <= Lighten(color, q).R
    ensures Lighten(color, p).G <= Lighten(color, q).G
    ensures Lighten(color, p).B <= Lighten(color, q).B
  {
    assert (p * 255.0) / 100.0 <= (q * 255.0) / 100.0;
  }

  // ---------------------------------------------------------------------
  // Blending
  // ---------------------------------------------------------------------

  /** `Interpolate`: the point `percent` of the way from `from` to `to`. */
  function Interpolate(from: real, to: real, percent: real): (r: real)
    ensures percent == 0.0 ==> r == from
    ensures percent == 100.0 ==> r == to
  {
    from + (to - from) * (percent / 100.0)
  }

  lemma ScaledGap(d: real, t: real)
    requires 0.0 <= t <= 1.0
    ensures d >= 0.0 ==> 0.0 <= d * t <= d
    ensures d <= 0.0 ==> d <= d * t <= 0.0
  {
    if d >= 0.0 {
      assert d * t <= d * 1.0;
    } else {
      assert d * t >= d * 1.0;
    }
  }

  /** For a percent in [0, 100] the interpolated value lies between the two ends. */
  lemma InterpolateBetween(from: real, to: real, percent: real)
    requires 0.0 <= percent <= 100.0
    ensures Min(from, to) <= Interpolate(from, to, percent) <= Max(from, to)
  {
    ScaledGap(to - from, percent / 100.0);
  }

  /** One channel of `Blend`, for a percent already in [0, 100]. */
  function BlendChannel(from: Byte, to: Byte, percent: real): (r: Byte)
    requires 0.0 <= percent <= 100.0
    ensures (from <= r <= to) || (to <= r <= from)
  {
    InterpolateBetween(from as real, to as real, percent);
    TruncateToByte(Interpolate(from as real, to as real, percent))
  }

  /** `v` lies between `x` and `y`. */
  predicate Between(v: Byte, x: Byte, y: Byte)
  {
    (x <= v <= y) || (y <= v <= x)
  }

  /** `Blend` on colours: the percent becomes `min(100, |percent|)` and each
      channel, alpha included, is interpolated and truncated; every channel
      of the result lies between the two inputs' channels. */
  function Blend(fromColor: Color, toColor: Color, percent: real): (r: Color)
    ensures Between(r.A, fromColor.A, toColor.A) && Between(r.R, fromColor.R, toColor.R)
    ensures Between(r.G, fromColor.G, toColor.G) && Between(r.B, fromColor.B, toColor.B)
  {
    var p := Max(Min(100.0, Abs(percent)), 0.0);
    Color(BlendChannel(fromColor.A, toColor.A, p), BlendChannel(fromColor.R, toColor.R, p),
          BlendChannel(fromColor.G, toColor.G, p), BlendChannel(fromColor.B, toColor.B, p))
  }

  /** Blending by 0 percent gives the first colour. */
  lemma BlendAtZero(a: Color, b: Color)
    ensures Blend(a, b, 0.0) == a
  {
  }

  /** Blending by 100 percent or more (in either sign) gives the second colour. */
  lemma BlendAtFull(a: Color, b: Color, percent: real)
    requires percent >= 100.0 || percent <= -100.0
    ensures Blend(a, b, percent) == b
  {
  }

  /** The sign of the percent does not matter. */
  lemma BlendNegatedPercent(a: Color, b: Color, percent: real)
    ensures Blend(a, b, -percent) == Blend(a, b, percent)
  {
  }

  /** Blending a colour with itself gives that colour. */
  lemma BlendSelf(a: Color, percent: real)
    ensures Blend(a, a, percent) == a
  {
  }

  /** `Blend` on hex strings: `""` when neither parses; the hex text of the
      one that parses when only one does; otherwise the hex text of the
      blended colour. */
  function BlendHex(fromHexColor: Option<string>, toHexColor: Option<string>, percent: real, getHex: HexLookup): (r: string)
    ensures HexToColor(fromHexColor, getHex).None? && HexToColor(toHexColor, getHex).None? ==> r == ""
    ensures HexToColor(fromHexColor, getHex).None? && HexToColor(toHexColor, getHex).Some? ==>
      r == ColorToHex(HexToColor(toHexColor, getHex))
    ensures HexToColor(fromHexColor, getHex).Some? && HexToColor(toHexColor, getHex).None? ==>
      r == ColorToHex(HexToColor(fromHexColor, getHex))
    ensures HexToColor(fromHexColor, getHex).Some? && HexToColor(toHexColor, getHex).Some? ==>
      r == ColorToHex(Some(Blend(HexToColor(fromHexColor, getHex).value, HexToColor(toHexColor, getHex).value, percent)))
  {
    var colorFrom := HexToColor(fromHexColor, getHex);
    var colorTo := HexToColor(toHexColor, getHex);
    if colorFrom.None? && colorTo.None? then ""
    else if colorFrom.None? then ColorToHex(colorTo)
    else if colorTo.None? then ColorToHex(colorFrom)
    else ColorToHex(Some(Blend(colorFrom.value, colorTo.value, percent)))
  }

  // ---------------------------------------------------------------------
  // Worked examples
  // ---------------------------------------------------------------------

  /** `#FF0000` is opaque red. */
  lemma OpaqueRedExample(getHex: HexLookup)
    requires PassesThrough(getHex, "#ff0000")
    ensures HexToColor(Some("#FF0000"), getHex) == Some(Color(255, 255, 0, 0))
  {
    assert ToLower("#FF0000") == "#ff0000";
    assert DecodeBody("FF0000") == Color(255, 255, 0, 0);
    assert HexColorValidate(Some("#FF0000")) && Trim("#FF0000")[1..] == "FF0000" by {
      TrimNoPadding("#FF0000");
      assert "#FF0000"[1..] == "FF0000";
    }
    HexToColorOfValidText("#FF0000", getHex);
  }

  /** `#80FF0000` is red at alpha 128. */
  lemma TranslucentRedExample(getHex: HexLookup)
    requires PassesThrough(getHex, "#80ff0000")
    ensures HexToColor(Some("#80FF0000"), getHex) == Some(Color(128, 255, 0, 0))
  {
    assert ToLower("#80FF0000") == "#80ff0000";
    assert DecodeBody("80FF0000") == Color(128, 255, 0, 0);
    assert HexColorValidate(Some("#80FF0000")) && Trim("#80FF0000")[1..] == "80FF0000" by {
      TrimNoPadding("#80FF0000");
      assert "#80FF0000"[1..] == "80FF0000";
    }
    HexToColorOfValidText("#80FF0000", getHex);
  }

  /** Red at alpha 128 formats as `#80FF0000`, alpha first. */
  lemma TranslucentRedFormatExample()
    ensures ColorToHex(Some(Color(128, 255, 0, 0))) == "#80FF0000"
  {
    assert DecodeBody("80FF0000") == Color(128, 255, 0, 0);
    assert ToUpper("80FF0000") == "80FF0000";
    ColorToHexOfDecodeAlpha("80FF0000");
  }

  /** Blending black into white by half truncates 127.5 to 127: the
      result is `#7F7F7F`, not `#808080`. */
  lemma BlendBlackWhiteExample()
    ensures Blend(Color(255, 0, 0, 0), Color(255, 255, 255, 255), 50.0) == Color(255, 127, 127, 127)
    ensures ColorToHex(Some(Color(255, 127, 127, 127))) == "#7F7F7F"
  {
    assert Interpolate(0.0, 255.0, 50.0) == 127.5;
    assert Interpolate(255.0, 255.0, 50.0) == 255.0;
    assert DecodeBody("7F7F7F") == Color(255, 127, 127, 127);
    assert ToUpper("7F7F7F") == "7F7F7F";
    ColorToHexOfDecodeOpaque("7F7F7F");
  }

  /** `HexToColor` strips any number of leading `#`, while
      `HexColorValidate` (and so `GetSolidColorBrush`) wants exactly one. */
  lemma DoubleHashExample(getHex: HexLookup)
    requires PassesThrough(getHex, "##ff0000")
    ensures HexToColor(Some("##FF0000"), getHex) == Some(Color(255, 255, 0, 0))
    ensures !HexColorValidate(Some("##FF0000"))
  {
    assert ToLower("##FF0000") == "##ff0000";
    assert Trim("##FF0000") == "##FF0000" by {
      TrimNoPadding("##FF0000");
    }
    assert StripHashes("##FF0000") == "FF0000" by {
      assert "##FF0000"[1..] == "#FF0000";
      assert "#FF0000"[1..] == "FF0000";
    }
    assert DecodeBody("FF0000") == Color(255, 255, 0, 0);
    assert "##FF0000"[1..][0] == '#';
    HexToColorLanguage("##FF0000", getHex);
  }

  /** Six characters behind a `#` that are not all hexadecimal digits are
      neither parsed nor validated. */
  lemma NotHexDigitsExample(getHex: HexLookup)
    requires PassesThrough(getHex, "#gg0000")
    ensures HexToColor(Some("#GG0000"), getHex).None?
    ensures !HexColorValidate(Some("#GG0000"))
  {
    assert ToLower("#GG0000") == "#gg0000";
    assert Trim("#GG0000") == "#GG0000" by {
      TrimNoPadding("#GG0000");
    }
    assert StripHashes("#GG0000") == "GG0000" by {
      assert "#GG0000"[1..] == "GG0000";
    }
    assert !IsHexDigit("GG0000"[0]);
    assert "#GG0000"[1..] == "GG0000";
    HexToColorLanguage("#GG0000", getHex);
  }
}
