/**
  The byte views of the text tab (`textToHex`, `textToBinary`, `textToUtf16`
  of `AdvancedBase64Tool`): the UTF-8 bytes written as fixed-width digit
  groups, and the characters written as `\u` escapes.
*/
module Views {
  import opened Common
  import opened JsText
  import Utf8

  /** `values.map(v => v.toString(radix).padStart(width, '0'))`. */
  function DigitFields(values: seq<nat>, radix: nat, width: nat): (r: seq<string>)
    requires 2 <= radix <= 16
    ensures |r| == |values|
  {
    seq(|values|, i requires 0 <= i < |values| => PadStart(RadixString(values[i], radix), width, '0'))
  }

  /** `textToHex`: two lower-case hex digits per UTF-8 byte, separated by spaces. */
  function TextToHex(text: string): string {
    Join(DigitFields(Utf8.Encode(text), 16, 2), " ")
  }

  /** `textToBinary`: eight binary digits per UTF-8 byte, separated by spaces. */
  function TextToBinary(text: string): string {
    Join(DigitFields(Utf8.Encode(text), 2, 8), " ")
  }

  /** Reads a view back: the value of every field of width `w`, the fields
      `d` separator characters apart. */
  function ReadFields(s: string, w: nat, d: nat, radix: nat): (r: seq<nat>)
    requires 0 < w && d <= 1
  {
    var f := Fields(s, w, d);
    seq(|f|, i requires 0 <= i < |f| => DigitsValue(f[i], radix))
  }

  // ---------------------------------------------------------------------
  // Fixed-width digit groups.

  lemma PowFacts()
    ensures Pow(16, 2) == 256 && Pow(2, 8) == 256 && Pow(16, 4) == 0x10000
  {
    assert Pow(2, 4) == 16;
    assert Pow(2, 8) == 256;
    assert Pow(16, 2) == 256;
    assert Pow(16, 4) == 0x10000;
  }

  /** When every value fits in `width` digits, padding makes each field exactly
      the `width`-digit numeral of the value. */
  lemma DigitFieldsFixed(values: seq<nat>, radix: nat, width: nat)
    requires 2 <= radix <= 16 && 0 < width
    requires forall i :: 0 <= i < |values| ==> values[i] < Pow(radix, width)
    ensures forall i :: 0 <= i < |values| ==>
      DigitFields(values, radix, width)[i] == FixedDigits(values[i], radix, width)
  {
    forall i | 0 <= i < |values|
      ensures DigitFields(values, radix, width)[i] == FixedDigits(values[i], radix, width)
    {
      PaddedRadixIsFixed(values[i], radix, width);
    }
  }

  /** The length of a view: `width` digits per value plus one separator
      between neighbours; `m` is the width of a value and a separator. */
  lemma ViewLength(values: seq<nat>, radix: nat, width: nat, sep: string, m: nat)
    requires 2 <= radix <= 16 && 0 < width && m == width + |sep|
    requires forall i :: 0 <= i < |values| ==> values[i] < Pow(radix, width)
    ensures values == [] ==> Join(DigitFields(values, radix, width), sep) == ""
    ensures values != [] ==> |Join(DigitFields(values, radix, width), sep)| + |sep| == |values| * m
  {
    DigitFieldsFixed(values, radix, width);
    if values != [] {
      JoinLength(DigitFields(values, radix, width), sep, width, m);
    }
  }

  /** A view holds only separator characters and digits below `radix`. */
  lemma ViewDigits(values: seq<nat>, radix: nat, width: nat, sep: string)
    requires 2 <= radix <= 16 && 0 < width
    requires forall i :: 0 <= i < |values| ==> values[i] < Pow(radix, width)
    ensures AllChars(Join(DigitFields(values, radix, width), sep), c => c in sep || 0 <= DigitValue(c) < radix)
  {
    var ok := c => c in sep || 0 <= DigitValue(c) < radix;
    var parts := DigitFields(values, radix, width);
    DigitFieldsFixed(values, radix, width);
    forall k | 0 <= k < |parts|
      ensures AllChars(parts[k], ok)
    {
      forall j | 0 <= j < width
        ensures ok(parts[k][j])
      {
        FixedDigitsAreDigits(values[k], radix, width, j);
      }
    }
    JoinChars(parts, sep, ok);
  }

  /** Reading a view back gives the values it was written from. */
  lemma ViewRoundTrip(values: seq<nat>, radix: nat, width: nat, sep: string)
    requires 2 <= radix <= 16 && 0 < width && |sep| <= 1
    requires forall i :: 0 <= i < |values| ==> values[i] < Pow(radix, width)
    ensures ReadFields(Join(DigitFields(values, radix, width), sep), width, |sep|, radix) == values
  {
    var parts := DigitFields(values, radix, width);
    DigitFieldsFixed(values, radix, width);
    FieldsOfJoin(parts, sep, width);
    forall i | 0 <= i < |values|
      ensures DigitsValue(parts[i], radix) == values[i]
    {
      FixedDigitsValue(values[i], radix, width);
    }
  }

  // ---------------------------------------------------------------------
  // Hex and binary views.

  /** The hex view is `3n - 1` characters for `n` UTF-8 bytes, and empty
      exactly for the empty text. */
  lemma HexLength(text: string)
    ensures var n := |Utf8.Encode(text)|;
      |TextToHex(text)| == if n == 0 then 0 else 3 * n - 1
    ensures TextToHex(text) == "" <==> text == ""
  {
    PowFacts();
    var b := Utf8.Encode(text);
    ViewLength(b, 16, 2, " ", 3);
  }

  /** The binary view is `9n - 1` characters for `n` UTF-8 bytes, and empty
      exactly for the empty text. */
  lemma BinaryLength(text: string)
    ensures var n := |Utf8.Encode(text)|;
      |TextToBinary(text)| == if n == 0 then 0 else 9 * n - 1
    ensures TextToBinary(text) == "" <==> text == ""
  {
    PowFacts();
    var b := Utf8.Encode(text);
    ViewLength(b, 2, 8, " ", 9);
  }

  /** The hex view is spaces and lower-case hex digits. */
  lemma HexAlphabet(text: string)
    ensures forall i :: 0 <= i < |TextToHex(text)| ==>
      var c := TextToHex(text)[i]; c == ' ' || '0' <= c <= '9' || 'a' <= c <= 'f'
  {
    PowFacts();
    var s := TextToHex(text);
    ViewDigits(Utf8.Encode(text), 16, 2, " ");
    assert AllChars(s, c => c in " " || 0 <= DigitValue(c) < 16);
  }

  /** Every group of two hex digits reads back as the UTF-8 byte it shows. */
  lemma HexRoundTrip(text: string)
    ensures ReadFields(TextToHex(text), 2, 1, 16) == Utf8.Encode(text)
  {
    PowFacts();
    ViewRoundTrip(Utf8.Encode(text), 16, 2, " ");
  }

  /** The binary view is spaces, `0` and `1`. */
  lemma BinaryAlphabet(text: string)
    ensures forall i :: 0 <= i < |TextToBinary(text)| ==>
      var c := TextToBinary(text)[i]; c == ' ' || c == '0' || c == '1'
  {
    PowFacts();
    var s := TextToBinary(text);
    ViewDigits(Utf8.Encode(text), 2, 8, " ");
    forall i | 0 <= i < |s|
      ensures s[i] == ' ' || s[i] == '0' || s[i] == '1'
    {
      var c := s[i];
      assert c in " " || 0 <= DigitValue(c) < 2;
      if c != ' ' {
        BitChar(c);
      }
    }
  }

  lemma BitChar(c: char)
    requires 0 <= DigitValue(c) < 2
    ensures c == '0' || c == '1'
  {
  }

  /** Every group of eight bits reads back as the UTF-8 byte it shows. */
  lemma BinaryRoundTrip(text: string)
    ensures ReadFields(TextToBinary(text), 8, 1, 2) == Utf8.Encode(text)
  {
    PowFacts();
    ViewRoundTrip(Utf8.Encode(text), 2, 8, " ");
  }

  /** Different texts have different hex views. */
  lemma HexInjective(a: string, b: string)
    requires TextToHex(a) == TextToHex(b)
    ensures a == b
  {
    HexRoundTrip(a);
    HexRoundTrip(b);
    Utf8.DecodeEncode(a);
    Utf8.DecodeEncode(b);
  }

  /** Different texts have different binary views. */
  lemma BinaryInjective(a: string, b: string)
    requires TextToBinary(a) == TextToBinary(b)
    ensures a == b
  {
    BinaryRoundTrip(a);
    BinaryRoundTrip(b);
    Utf8.DecodeEncode(a);
    Utf8.DecodeEncode(b);
  }

  // ---------------------------------------------------------------------
  // The UTF-16 view.

  /** `'\\u' + unit.toString(16).padStart(4, '0')` for each code unit. */
  function Escapes(units: seq<nat>): (r: seq<string>)
    ensures |r| == |units|
  {
    var digits := DigitFields(units, 16, 4);
    seq(|units|, i requires 0 <= i < |units| => "\\u" + digits[i])
  }

  /** `charCodeAt(0)` of every character (`Array.from` walks code points). */
  function FirstUnits(text: string): (r: seq<nat>)
    ensures |r| == |text|
  {
    seq(|text|, i requires 0 <= i < |text| => FirstCodeUnit(text[i]))
  }

  /** `textToUtf16`: one six-character escape per character, of its first
      UTF-16 code unit. */
  function TextToUtf16(text: string): string {
    Join(Escapes(FirstUnits(text)), "")
  }

  /** Reads escapes back: the hex value after the `\u` of each six-character
      field. */
  function ReadEscapes(s: string): (r: seq<nat>) {
    var f := Fields(s, 6, 0);
    seq(|f|, i requires 0 <= i < |f| => if |f[i]| < 2 then 0 else DigitsValue(f[i][2..], 16))
  }

  /** The escapes of 16-bit units: six characters each, `\u` then the
      four-digit numeral. */
  lemma EscapeParts(units: seq<nat>)
    requires forall i :: 0 <= i < |units| ==> units[i] < 0x10000
    ensures forall k :: 0 <= k < |units| ==>
      Escapes(units)[k] == "\\u" + FixedDigits(units[k], 16, 4) && |Escapes(units)[k]| == 6
  {
    PowFacts();
    DigitFieldsFixed(units, 16, 4);
  }

  /** The digits after each `\\u` read back as the unit. */
  lemma EscapeValues(units: seq<nat>)
    requires forall i :: 0 <= i < |units| ==> units[i] < 0x10000
    ensures forall k :: 0 <= k < |units| ==>
      |Escapes(units)[k]| == 6 && DigitsValue(Escapes(units)[k][2..], 16) == units[k]
  {
    var parts := Escapes(units);
    EscapeParts(units);
    PowFacts();
    forall k | 0 <= k < |units|
      ensures DigitsValue(parts[k][2..], 16) == units[k]
    {
      assert parts[k][2..] == FixedDigits(units[k], 16, 4);
      FixedDigitsValue(units[k], 16, 4);
    }
  }

  /** Escapes of 16-bit units are six characters each, each begins with `\\u`,
      and they read back as the units. */
  lemma EscapesRoundTrip(units: seq<nat>)
    requires forall i :: 0 <= i < |units| ==> units[i] < 0x10000
    ensures |Join(Escapes(units), "")| == 6 * |units|
    ensures Fields(Join(Escapes(units), ""), 6, 0) == Escapes(units)
    ensures ReadEscapes(Join(Escapes(units), "")) == units
  {
    var parts := Escapes(units);
    var s := Join(parts, "");
    EscapeParts(units);
    assert |s| == 6 * |units| by {
      if units != [] {
        JoinLength(parts, "", 6, 6);
      }
    }
    FieldsOfJoin(parts, "", 6);
    EscapeValues(units);
  }

  /** The UTF-16 view is six characters per character, and reads back as the
      first code unit of each: the character itself inside the Basic
      Multilingual Plane, only its high surrogate outside it. */
  lemma Utf16View(text: string)
    ensures |TextToUtf16(text)| == 6 * |text|
    ensures var units := ReadEscapes(TextToUtf16(text));
      |units| == |text| &&
      forall i :: 0 <= i < |text| ==>
        (text[i] as int < 0x10000 ==> units[i] == text[i] as int) &&
        (text[i] as int >= 0x10000 ==> 0xD800 <= units[i] < 0xDC00)
  {
    EscapesRoundTrip(FirstUnits(text));
  }

  /** Two astral characters with the same high surrogate get the same UTF-16
      view: U+1F600 and U+1F601 both show as `\ud83d`. */
  lemma Utf16ViewCollides()
    ensures "\U{1F600}" != "\U{1F601}"
    ensures TextToUtf16("\U{1F600}") == TextToUtf16("\U{1F601}")
  {
    assert FirstUnits("\U{1F600}") == [0xD83D] == FirstUnits("\U{1F601}");
  }

  /** The escapes of every UTF-16 code unit, so an astral character shows as
      its surrogate pair, one escape per unit of `text.length`. */
  function TextToUtf16Units(text: string): string {
    Join(Escapes(CodeUnits(text)), "")
  }

  /** The character a surrogate pair stands for. */
  function Pair(hi: nat, lo: nat): (c: char)
    requires 0xD800 <= hi < 0xDC00 && 0xDC00 <= lo < 0xE000
  {
    (0x10000 + (hi - 0xD800) * 0x400 + (lo - 0xDC00)) as char
  }

  function PrependChar(c: char, r: Option<string>): Option<string> {
    match r
    case None => None
    case Some(s) => Some([c] + s)
  }

  /** Reading UTF-16 code units back into characters; `None` for a lone
      surrogate. */
  function DecodeUnits(u: seq<nat>): (r: Option<string>)
    decreases |u|
  {
    if u == [] then Some([])
    else if 0xD800 <= u[0] < 0xDC00 && |u| >= 2 && 0xDC00 <= u[1] < 0xE000 then
      PrependChar(Pair(u[0], u[1]), DecodeUnits(u[2..]))
    else if u[0] < 0xD800 || 0xE000 <= u[0] < 0x10000 then
      PrependChar(u[0] as char, DecodeUnits(u[1..]))
    else None
  }

  lemma SurrogateSplit(v: int)
    requires 0x10000 <= v < 0x110000
    ensures var x := v - 0x10000;
      0 <= x / 0x400 < 0x400 && 0 <= x % 0x400 < 0x400 && (x / 0x400) * 0x400 + x % 0x400 == x
  {
  }

  /** The code units of a character, whatever follows them, read back as that
      character. */
  lemma DecodeCharUnits(c: char, rest: seq<nat>)
    ensures DecodeUnits(CharUnits(c) + rest) == PrependChar(c, DecodeUnits(rest))
  {
    var u := CharUnits(c) + rest;
    var v := c as int;
    if v < 0x10000 {
      assert u[0] == v && u[1..] == rest;
    } else {
      SurrogateSplit(v);
      assert u[0] == CharUnits(c)[0] && u[1] == CharUnits(c)[1] && u[2..] == rest;
      assert Pair(u[0], u[1]) == c;
    }
  }

  lemma {:induction false} DecodeCodeUnits(text: string)
    ensures DecodeUnits(CodeUnits(text)) == Some(text)
  {
    if text != [] {
      DecodeCodeUnits(text[1..]);
      DecodeCharUnits(text[0], CodeUnits(text[1..]));
      assert [text[0]] + text[1..] == text;
    }
  }

  /** Every UTF-16 code unit is below 0x10000. */
  lemma {:induction false} CodeUnitsBelow(text: string)
    ensures forall i :: 0 <= i < |CodeUnits(text)| ==> CodeUnits(text)[i] < 0x10000
  {
    if text != [] {
      CodeUnitsBelow(text[1..]);
      var head := CharUnits(text[0]);
      assert forall i :: 0 <= i < |head| ==> head[i] < 0x10000;
    }
  }

  /** The escape-every-unit view is six characters per unit of `text.length`
      and reads back as the text, so different texts get different views. */
  lemma Utf16UnitsRoundTrip(text: string)
    ensures |TextToUtf16Units(text)| == 6 * Utf16Length(text)
    ensures DecodeUnits(ReadEscapes(TextToUtf16Units(text))) == Some(text)
  {
    CodeUnitsBelow(text);
    CodeUnitsLength(text);
    EscapesRoundTrip(CodeUnits(text));
    DecodeCodeUnits(text);
  }
}
