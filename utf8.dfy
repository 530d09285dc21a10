/**
  The browser's text/byte boundary: `TextEncoder` (UTF-8 as in RFC 3629),
  `new TextDecoder('utf-8', { fatal: true })` and `new TextDecoder('latin1')`,
  which the WHATWG Encoding Standard maps to windows-1252.
*/
module Utf8 {
  import opened Common
  import opened JsText

  /** U+FEFF, the byte order mark. */
  const Bom: char := '\U{FEFF}'

  /** The UTF-8 form of one scalar value: the value cut into six-bit groups behind
      a lead byte that announces the length (RFC 3629, section 3). */
  function EncodeChar(c: char): (b: seq<Byte>)
    ensures 1 <= |b| <= 4
    ensures |b| == 1 <==> c as int < 0x80
  {
    var v := c as int;
    if v < 0x80 then [v]
    else if v < 0x800 then [0xC0 + v / 64, 0x80 + v % 64]
    else if v < 0x10000 then [0xE0 + v / 64 / 64, 0x80 + v / 64 % 64, 0x80 + v % 64]
    else [0xF0 + v / 64 / 64 / 64, 0x80 + v / 64 / 64 % 64, 0x80 + v / 64 % 64, 0x80 + v % 64]
  }

  /** `new TextEncoder().encode(s)`. */
  function Encode(s: string): (b: seq<Byte>)
    ensures |b| >= |s|
  {
    if s == [] then [] else EncodeChar(s[0]) + Encode(s[1..])
  }

  lemma {:induction false} EncodeConcat(a: string, b: string)
    ensures Encode(a + b) == Encode(a) + Encode(b)
  {
    if a == [] {
      assert a + b == b;
    } else {
      assert (a + b)[1..] == a[1..] + b;
      EncodeConcat(a[1..], b);
    }
  }

  predicate IsContinuation(x: Byte) { 0x80 <= x <= 0xBF }

  /** The six payload bits of a continuation byte. */
  function Payload(x: Byte): int { x as int - 0x80 }

  /** The well-formed byte sequence at the front of `b`, as the table of
      well-formed UTF-8 sequences in the Unicode Standard (section 3.9) lists
      them: the character and how many bytes it took; `None` when the front of
      `b` is ill-formed or cut short. */
  function DecodeFirst(b: seq<Byte>): (r: Option<(char, nat)>)
    requires |b| > 0
    ensures r.Some? ==> 1 <= r.value.1 <= |b| && r.value.1 <= 4
  {
    var b0 := b[0] as int;
    if b0 < 0x80 then Some((b0 as char, 1))
    else if 0xC2 <= b0 <= 0xDF then
      if |b| >= 2 && IsContinuation(b[1]) then
        Some((((b0 - 0xC0) * 64 + Payload(b[1])) as char, 2))
      else None
    else if 0xE0 <= b0 <= 0xEF then
      var lo := if b0 == 0xE0 then 0xA0 else 0x80;
      var hi := if b0 == 0xED then 0x9F else 0xBF;
      if |b| >= 3 && lo <= b[1] <= hi && IsContinuation(b[2]) then
        Some((((b0 - 0xE0) * 4096 + Payload(b[1]) * 64 + Payload(b[2])) as char, 3))
      else None
    else if 0xF0 <= b0 <= 0xF4 then
      var lo := if b0 == 0xF0 then 0x90 else 0x80;
      var hi := if b0 == 0xF4 then 0x8F else 0xBF;
      if |b| >= 4 && lo <= b[1] <= hi && IsContinuation(b[2]) && IsContinuation(b[3]) then
        Some((((b0 - 0xF0) * 262144 + Payload(b[1]) * 4096 + Payload(b[2]) * 64 + Payload(b[3])) as char, 4))
      else None
    else None
  }

  /** Strict UTF-8 decoding: the text, or `None` at the first ill-formed sequence. */
  function Decode(b: seq<Byte>): (r: Option<string>)
    decreases |b|
  {
    if b == [] then Some([])
    else match DecodeFirst(b)
      case None => None
      case Some(first) =>
        match Decode(b[first.1..])
        case None => None
        case Some(rest) => Some([first.0] + rest)
  }

  /** `new TextDecoder('utf-8', { fatal: true }).decode(b)`: strict decoding that
      also skips a leading byte order mark; `None` stands for the thrown TypeError. */
  function DecodeFatal(b: seq<Byte>): (r: Option<string>) {
    match Decode(b)
    case None => None
    case Some(s) => Some(StripBom(s))
  }

  function StripBom(s: string): (r: string)
    ensures r == s || (s != [] && s[0] == Bom && r == s[1..])
  {
    if s != [] && s[0] == Bom then s[1..] else s
  }

  /** A two-byte sequence decodes to the character it encodes. */
  lemma DecodeFirstTwo(c: char, rest: seq<Byte>)
    requires 0x80 <= c as int < 0x800
    ensures DecodeFirst(EncodeChar(c) + rest) == Some((c, 2))
  {
    var v := c as int;
    var a, w1 := v % 64, v / 64;
    assert v == w1 * 64 + a;
    var b := EncodeChar(c) + rest;
    assert b[0] == 0xC0 + w1 && b[1] == 0x80 + a;
  }

  /** A three-byte sequence decodes to the character it encodes: the lead
      byte's bounds on the second byte exclude overlong forms and surrogates,
      which a `char` never is. */
  lemma DecodeFirstThree(c: char, rest: seq<Byte>)
    requires 0x800 <= c as int < 0x10000
    ensures DecodeFirst(EncodeChar(c) + rest) == Some((c, 3))
  {
    var v := c as int;
    var a, w1 := v % 64, v / 64;
    var bb, w2 := w1 % 64, w1 / 64;
    assert v == w1 * 64 + a;
    assert w1 == w2 * 64 + bb;
    assert v == w2 * 4096 + bb * 64 + a;
    var b := EncodeChar(c) + rest;
    assert b[0] == 0xE0 + w2 && b[1] == 0x80 + bb && b[2] == 0x80 + a;
  }

  /** A four-byte sequence decodes to the character it encodes. */
  lemma DecodeFirstFour(c: char, rest: seq<Byte>)
    requires 0x10000 <= c as int
    ensures DecodeFirst(EncodeChar(c) + rest) == Some((c, 4))
  {
    var v := c as int;
    var a, w1 := v % 64, v / 64;
    var bb, w2 := w1 % 64, w1 / 64;
    var cc, d := w2 % 64, w2 / 64;
    assert v == w1 * 64 + a;
    assert w1 == w2 * 64 + bb;
    assert w2 == d * 64 + cc;
    assert v == d * 262144 + cc * 4096 + bb * 64 + a;
    var b := EncodeChar(c) + rest;
    assert b[0] == 0xF0 + d && b[1] == 0x80 + cc && b[2] == 0x80 + bb && b[3] == 0x80 + a;
  }

  /** The decoder reads back the character at the front. */
  lemma DecodeFirstEncodeChar(c: char, rest: seq<Byte>)
    ensures DecodeFirst(EncodeChar(c) + rest) == Some((c, |EncodeChar(c)|))
  {
    var v := c as int;
    if v < 0x80 {
      assert (EncodeChar(c) + rest)[0] == v;
    } else if v < 0x800 {
      DecodeFirstTwo(c, rest);
    } else if v < 0x10000 {
      DecodeFirstThree(c, rest);
    } else {
      DecodeFirstFour(c, rest);
    }
  }

  /** `s` put in front of a decoding result, failure staying failure. */
  function Prepend(s: string, r: Option<string>): Option<string> {
    if r.Some? then Some(s + r.value) else None
  }

  lemma DecodeAfterChar(c: char, tail: seq<Byte>)
    ensures Decode(EncodeChar(c) + tail) == Prepend([c], Decode(tail))
  {
    var b := EncodeChar(c) + tail;
    DecodeFirstEncodeChar(c, tail);
    assert b[|EncodeChar(c)|..] == tail;
  }

  /** Putting `t` and then `s` in front is putting `s + t` in front. */
  lemma PrependTwice(s: string, t: string, r: Option<string>)
    ensures Prepend(s, Prepend(t, r)) == Prepend(s + t, r)
  {
    if r.Some? {
      assert s + (t + r.value) == (s + t) + r.value;
    }
  }

  /** Decoding the UTF-8 form of `s` followed by more bytes yields `s` followed by
      the decoding of those bytes. */
  lemma {:induction false} DecodeEncodeAppend(s: string, rest: seq<Byte>)
    ensures Decode(Encode(s) + rest) == Prepend(s, Decode(rest))
  {
    if s == [] {
      assert Encode(s) + rest == rest;
      if Decode(rest).Some? {
        assert s + Decode(rest).value == Decode(rest).value;
      }
    } else {
      var c, tail := s[0], Encode(s[1..]) + rest;
      assert Encode(s) + rest == EncodeChar(c) + tail by {
        assert Encode(s) == EncodeChar(c) + Encode(s[1..]);
      }
      DecodeAfterChar(c, tail);
      DecodeEncodeAppend(s[1..], rest);
      PrependTwice([c], s[1..], Decode(rest));
      assert [c] + s[1..] == s;
    }
  }

  /** Strict decoding undoes `TextEncoder`. */
  lemma DecodeEncode(s: string)
    ensures Decode(Encode(s)) == Some(s)
  {
    DecodeEncodeAppend(s, []);
    assert Encode(s) + [] == Encode(s);
    assert s + [] == s;
  }

  /** The fatal decoder gives back the encoded text, less a leading byte order mark. */
  lemma DecodeFatalEncode(s: string)
    ensures DecodeFatal(Encode(s)) == Some(StripBom(s))
  {
    DecodeEncode(s);
  }

  lemma EncodeTwo(b: seq<Byte>)
    requires |b| > 0 && DecodeFirst(b).Some? && DecodeFirst(b).value.1 == 2
    ensures EncodeChar(DecodeFirst(b).value.0) == b[..2]
  {
    var v := DecodeFirst(b).value.0 as int;
    assert v == (b[0] as int - 0xC0) * 64 + Payload(b[1]);
    assert v / 64 == b[0] as int - 0xC0 && v % 64 == Payload(b[1]);
  }

  lemma EncodeThree(b: seq<Byte>)
    requires |b| > 0 && DecodeFirst(b).Some? && DecodeFirst(b).value.1 == 3
    ensures EncodeChar(DecodeFirst(b).value.0) == b[..3]
  {
    var v := DecodeFirst(b).value.0 as int;
    var x, y, z := b[0] as int - 0xE0, Payload(b[1]), Payload(b[2]);
    assert v == x * 4096 + y * 64 + z;
    assert v / 64 == x * 64 + y && v % 64 == z;
    assert v / 64 / 64 == x && v / 64 % 64 == y;
  }

  lemma EncodeFour(b: seq<Byte>)
    requires |b| > 0 && DecodeFirst(b).Some? && DecodeFirst(b).value.1 == 4
    ensures EncodeChar(DecodeFirst(b).value.0) == b[..4]
  {
    var v := DecodeFirst(b).value.0 as int;
    var w, x, y, z := b[0] as int - 0xF0, Payload(b[1]), Payload(b[2]), Payload(b[3]);
    assert v == w * 262144 + x * 4096 + y * 64 + z;
    assert v / 64 == w * 4096 + x * 64 + y && v % 64 == z;
    assert v / 64 / 64 == w * 64 + x && v / 64 % 64 == y;
    assert v / 64 / 64 / 64 == w && v / 64 / 64 % 64 == x;
  }

  /** The encoder writes back the bytes the decoder read. */
  lemma EncodeCharDecodeFirst(b: seq<Byte>)
    requires |b| > 0 && DecodeFirst(b).Some?
    ensures EncodeChar(DecodeFirst(b).value.0) == b[..DecodeFirst(b).value.1]
  {
    var n := DecodeFirst(b).value.1;
    if n == 1 {
      assert EncodeChar(DecodeFirst(b).value.0) == [b[0]];
    } else if n == 2 {
      EncodeTwo(b);
    } else if n == 3 {
      EncodeThree(b);
    } else {
      EncodeFour(b);
    }
  }

  /** Whatever strict decoding accepts, `TextEncoder` turns back into the same
      bytes: the two are inverse on well-formed UTF-8. */
  lemma {:induction false} EncodeDecode(b: seq<Byte>)
    requires Decode(b).Some?
    ensures Encode(Decode(b).value) == b
    decreases |b|
  {
    if b != [] {
      var c, n, t := DecodeStep(b);
      var rest := b[n..];
      assert Encode([c] + t) == EncodeChar(c) + Encode(t) by {
        EncodeCons(c, t);
      }
      EncodeDecode(rest);
      assert b == b[..n] + rest;
    }
  }

  /** One step of strict decoding: the first character, which re-encodes to the
      bytes it took, and the text the remaining bytes decode to. */
  lemma DecodeStep(b: seq<Byte>) returns (c: char, n: nat, t: string)
    requires b != [] && Decode(b).Some?
    ensures 0 < n <= |b| && EncodeChar(c) == b[..n]
    ensures Decode(b[n..]) == Some(t) && Decode(b).value == [c] + t
  {
    c, n := DecodeFirst(b).value.0, DecodeFirst(b).value.1;
    t := Decode(b[n..]).value;
    EncodeCharDecodeFirst(b);
  }

  lemma EncodeCons(c: char, t: string)
    ensures Encode([c] + t) == EncodeChar(c) + Encode(t)
  {
    assert ([c] + t)[0] == c && ([c] + t)[1..] == t;
  }

  /** The windows-1252 decoder of the WHATWG Encoding Standard for one byte:
      0x80 to 0x9F follow the standard's index, every other byte is the code point
      with the same number. */
  function Windows1252Char(x: Byte): (c: char)
    ensures (x < 0x80 || x >= 0xA0) ==> c as int == x
  {
    if x < 0x80 || x >= 0xA0 then x as char
    else match x
      case 0x80 => '\U{20AC}'
      case 0x82 => '\U{201A}'
      case 0x83 => '\U{0192}'
      case 0x84 => '\U{201E}'
      case 0x85 => '\U{2026}'
      case 0x86 => '\U{2020}'
      case 0x87 => '\U{2021}'
      case 0x88 => '\U{02C6}'
      case 0x89 => '\U{2030}'
      case 0x8A => '\U{0160}'
      case 0x8B => '\U{2039}'
      case 0x8C => '\U{0152}'
      case 0x8E => '\U{017D}'
      case 0x91 => '\U{2018}'
      case 0x92 => '\U{2019}'
      case 0x93 => '\U{201C}'
      case 0x94 => '\U{201D}'
      case 0x95 => '\U{2022}'
      case 0x96 => '\U{2013}'
      case 0x97 => '\U{2014}'
      case 0x98 => '\U{02DC}'
      case 0x99 => '\U{2122}'
      case 0x9A => '\U{0161}'
      case 0x9B => '\U{203A}'
      case 0x9C => '\U{0153}'
      case 0x9E => '\U{017E}'
      case 0x9F => '\U{0178}'
      case _ => x as char  // 0x81, 0x8D, 0x8F, 0x90 and 0x9D
  }

  /** `new TextDecoder('latin1').decode(b)`: one character per byte, never fails. */
  function Windows1252Decode(b: seq<Byte>): (s: string)
    ensures |s| == |b|
    ensures forall i :: 0 <= i < |b| ==> s[i] == Windows1252Char(b[i])
  {
    seq(|b|, i requires 0 <= i < |b| => Windows1252Char(b[i]))
  }

  /** No two bytes share a character, so the fallback decoding loses nothing. */
  lemma Windows1252Injective(x: Byte, y: Byte)
    requires x != y
    ensures Windows1252Char(x) != Windows1252Char(y)
  {
  }

  /** The number of UTF-8 bytes is at least the number of UTF-16 code units, and the
      two agree exactly when every character is ASCII. */
  lemma {:induction false} EncodedSizeVsUtf16(s: string)
    ensures |Encode(s)| >= Utf16Length(s)
    ensures |Encode(s)| == Utf16Length(s) <==> forall i :: 0 <= i < |s| ==> s[i] as int < 0x80
  {
    if s != [] {
      EncodedSizeVsUtf16(s[1..]);
      Utf16LengthConcat([s[0]], s[1..]);
      assert [s[0]] + s[1..] == s;
      assert [s[0]][..0] == [];
      assert forall i :: 1 <= i < |s| ==> s[1..][i - 1] == s[i];
    }
  }

  /** No character takes more than three UTF-8 bytes per UTF-16 unit. */
  lemma {:induction false} EncodedSizeAtMost(s: string)
    ensures |Encode(s)| <= 3 * Utf16Length(s)
  {
    if s != [] {
      EncodedSizeAtMost(s[1..]);
      Utf16LengthConcat([s[0]], s[1..]);
      assert [s[0]] + s[1..] == s;
      assert [s[0]][..0] == [];
    }
  }

  /** Every byte after the first of a character's UTF-8 form is a
      continuation byte. */
  lemma EncodeCharTail(c: char, j: nat)
    requires 1 <= j < |EncodeChar(c)|
    ensures IsContinuation(EncodeChar(c)[j])
  {
  }

  /** Cutting UTF-8 text anywhere but before a continuation byte leaves
      well-formed UTF-8. */
  lemma {:induction false} DecodeCutAtBoundary(s: string, n: nat)
    requires n <= |Encode(s)|
    requires n == |Encode(s)| || !IsContinuation(Encode(s)[n])
    ensures Decode(Encode(s)[..n]).Some?
  {
    if n > 0 {
      var c, e, tail := s[0], EncodeChar(s[0]), Encode(s[1..]);
      assert Encode(s) == e + tail;
      if n < |e| {
        assert Encode(s)[n] == e[n];
        EncodeCharTail(c, n);
        assert false;
      }
      var m := n - |e|;
      assert Encode(s)[..n] == e + tail[..m];
      assert m == |tail| || (tail[m] == Encode(s)[n] && !IsContinuation(tail[m]));
      DecodeCutAtBoundary(s[1..], m);
      DecodeAfterChar(c, tail[..m]);
    }
  }
}
