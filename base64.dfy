/**
  The two Base64 primitives the browser provides: `btoa`, which encodes bytes
  with the alphabet and padding of RFC 4648 section 4, and `atob`, whose
  behaviour is the "forgiving-base64 decode" algorithm of the WHATWG Infra
  standard.
*/
module Base64 {
  import opened Common
  import opened JsText

  /** A character of the RFC 4648 section 4 alphabet (padding excluded). */
  predicate IsSymbol(c: char) {
    ('A' <= c <= 'Z') || ('a' <= c <= 'z') || ('0' <= c <= '9') || c == '+' || c == '/'
  }

  /** The character for a six-bit value (RFC 4648, Table 1). */
  function Symbol(v: int): (c: char)
    requires 0 <= v < 64
    ensures IsSymbol(c)
  {
    if v < 26 then ('A' as int + v) as char
    else if v < 52 then ('a' as int + v - 26) as char
    else if v < 62 then ('0' as int + v - 52) as char
    else if v == 62 then '+'
    else '/'
  }

  /** The six-bit value of an alphabet character; inverse of `Symbol`. */
  function SymbolValue(c: char): (v: int)
    requires IsSymbol(c)
    ensures 0 <= v < 64
  {
    if 'A' <= c <= 'Z' then c as int - 'A' as int
    else if 'a' <= c <= 'z' then c as int - 'a' as int + 26
    else if '0' <= c <= '9' then c as int - '0' as int + 52
    else if c == '+' then 62
    else 63
  }

  lemma SymbolValueOfSymbol(v: int)
    requires 0 <= v < 64
    ensures SymbolValue(Symbol(v)) == v
  {
  }

  /** Three bytes as four characters (RFC 4648, section 4). */
  function Quantum(x: Byte, y: Byte, z: Byte): (s: string) {
    [Symbol(x / 4), Symbol(x % 4 * 16 + y / 16), Symbol(y % 16 * 4 + z / 64), Symbol(z % 64)]
  }

  /** A final single byte: two characters and two `=`. */
  function Final1(x: Byte): (s: string) {
    [Symbol(x / 4), Symbol(x % 4 * 16), '=', '=']
  }

  /** Two final bytes: three characters and one `=`. */
  function Final2(x: Byte, y: Byte): (s: string) {
    [Symbol(x / 4), Symbol(x % 4 * 16 + y / 16), Symbol(y % 16 * 4), '=']
  }

  /** `btoa` applied to the bytes: full quanta, then a final quantum of one or
      two bytes padded with `=` to four characters. */
  function Encode(b: seq<Byte>): (s: string)
    decreases |b|
  {
    if |b| == 0 then ""
    else if |b| == 1 then Final1(b[0])
    else if |b| == 2 then Final2(b[0], b[1])
    else Quantum(b[0], b[1], b[2]) + Encode(b[3..])
  }

  /** How many `=` end the encoding of `n` bytes. */
  function PadLength(n: nat): (p: nat)
    ensures p <= 2
  {
    if n == 0 then 0 else if n == 1 then 2 else if n == 2 then 1 else PadLength(n - 3)
  }

  /** `btoa` output is four characters per started group of three bytes. */
  lemma {:induction false} EncodeLength(b: seq<Byte>)
    ensures |Encode(b)| == 4 * ((|b| + 2) / 3)
    ensures PadLength(|b|) == (3 - |b| % 3) % 3
    decreases |b|
  {
    PadLengthFormula(|b|);
    if |b| >= 3 {
      EncodeLength(b[3..]);
      assert |Encode(b)| == 4 + |Encode(b[3..])|;
      Thirds(|b|);
    }
  }

  lemma {:induction false} PadLengthFormula(n: nat)
    ensures PadLength(n) == (3 - n % 3) % 3
  {
    if n >= 3 {
      PadLengthFormula(n - 3);
      Thirds(n);
    }
  }

  lemma Thirds(n: nat)
    requires n >= 3
    ensures 4 * ((n + 2) / 3) == 4 + 4 * ((n - 1) / 3) && n % 3 == (n - 3) % 3
  {
  }

  /** The encoding is alphabet characters followed by exactly `PadLength` padding
      characters, and is empty only for no bytes. */
  lemma {:induction false} EncodeShape(b: seq<Byte>)
    ensures var s := Encode(b);
      && PadLength(|b|) < |s| + (if |b| == 0 then 1 else 0)
      && (forall i :: 0 <= i < |s| - PadLength(|b|) ==> IsSymbol(s[i]))
      && (forall i :: |s| - PadLength(|b|) <= i < |s| ==> s[i] == '=')
    decreases |b|
  {
    if |b| >= 3 {
      EncodeShape(b[3..]);
      assert PadLength(|b|) == PadLength(|b[3..]|);
      var s := Encode(b);
      assert s == Quantum(b[0], b[1], b[2]) + Encode(b[3..]);
      assert forall i :: 4 <= i < |s| ==> s[i] == Encode(b[3..])[i - 4];
    }
  }

  /** Step 2 of forgiving-base64 decode: drop one or two trailing `=`. */
  function DropPadding(d: string): (r: string)
    ensures |r| <= |d| <= |r| + 2
  {
    if |d| >= 2 && d[|d| - 2] == '=' && d[|d| - 1] == '=' then d[..|d| - 2]
    else if |d| >= 1 && d[|d| - 1] == '=' then d[..|d| - 1]
    else d
  }

  predicate AllSymbols(s: string) {
    forall i :: 0 <= i < |s| ==> IsSymbol(s[i])
  }

  /** Steps 5 to 9 of forgiving-base64 decode: the bits of the characters, eight
      at a time; a final group of two or three characters gives one or two bytes
      and its leftover bits are dropped. (A single leftover character never
      reaches this step: `ForgivingDecode` rejects it first.) */
  function DecodeSymbols(s: string): (b: seq<Byte>)
    requires AllSymbols(s)
    decreases |s|
  {
    if |s| < 2 then []
    else
      var v0, v1 := SymbolValue(s[0]), SymbolValue(s[1]);
      if |s| == 2 then [v0 * 4 + v1 / 16]
      else
        var v2 := SymbolValue(s[2]);
        if |s| == 3 then [v0 * 4 + v1 / 16, v1 % 16 * 16 + v2 / 4]
        else
          var v3 := SymbolValue(s[3]);
          [v0 * 4 + v1 / 16, v1 % 16 * 16 + v2 / 4, v2 % 4 * 64 + v3] + DecodeSymbols(s[4..])
  }

  /** The WHATWG Infra "forgiving-base64 decode" of `data` (what `atob` runs):
      remove ASCII whitespace; when the length is a multiple of four drop one or
      two trailing `=`; fail when the length leaves remainder 1 or a character is
      outside the alphabet; otherwise decode. */
  function ForgivingDecode(data: string): (r: Option<seq<Byte>>)
  {
    var d := Filter(data, NotAsciiWhitespace);
    var e := if |d| % 4 == 0 then DropPadding(d) else d;
    if |e| % 4 == 1 then None
    else if !AllSymbols(e) then None
    else Some(DecodeSymbols(e))
  }

  lemma QuantumArithmetic(x: Byte, y: Byte, z: Byte)
    ensures x / 4 * 4 + (x % 4 * 16 + y / 16) / 16 == x
    ensures (x % 4 * 16 + y / 16) % 16 * 16 + (y % 16 * 4 + z / 64) / 4 == y
    ensures (y % 16 * 4 + z / 64) % 4 * 64 + z % 64 == z
  {
  }

  lemma {:induction false} AllSymbolsConcat(a: string, b: string)
    requires AllSymbols(a) && AllSymbols(b)
    ensures AllSymbols(a + b)
  {
    forall i | 0 <= i < |a + b|
      ensures IsSymbol((a + b)[i])
    {
      if i >= |a| {
        assert (a + b)[i] == b[i - |a|];
      }
    }
  }

  /** Decoding proceeds one group of four characters at a time. */
  lemma {:induction false} DecodeSplit(s: string)
    requires AllSymbols(s) && |s| >= 4
    ensures AllSymbols(s[..4]) && AllSymbols(s[4..])
    ensures DecodeSymbols(s) == DecodeSymbols(s[..4]) + DecodeSymbols(s[4..])
  {
    var h := s[..4];
    assert AllSymbols(h) by {
      forall i | 0 <= i < 4 ensures IsSymbol(h[i]) { assert h[i] == s[i]; }
    }
    assert AllSymbols(s[4..]) by {
      forall i | 0 <= i < |s| - 4 ensures IsSymbol(s[4..][i]) { assert s[4..][i] == s[i + 4]; }
    }
    assert h[4..] == [];
  }

  /** A full quantum decodes to the three bytes it encodes. */
  lemma {:induction false} QuantumDecodes(x: Byte, y: Byte, z: Byte)
    ensures AllSymbols(Quantum(x, y, z))
    ensures DecodeSymbols(Quantum(x, y, z)) == [x, y, z]
  {
    SymbolValueOfSymbol(x / 4);
    SymbolValueOfSymbol(x % 4 * 16 + y / 16);
    SymbolValueOfSymbol(y % 16 * 4 + z / 64);
    SymbolValueOfSymbol(z % 64);
    QuantumArithmetic(x, y, z);
  }

  /** A final single byte, its padding dropped, decodes to that byte. */
  lemma {:induction false} Final1Decodes(x: Byte)
    ensures AllSymbols(Final1(x)[..2])
    ensures DecodeSymbols(Final1(x)[..2]) == [x]
  {
    SymbolValueOfSymbol(x / 4);
    SymbolValueOfSymbol(x % 4 * 16);
  }

  /** Two final bytes, their padding dropped, decode to those bytes. */
  lemma {:induction false} Final2Decodes(x: Byte, y: Byte)
    ensures AllSymbols(Final2(x, y)[..3])
    ensures DecodeSymbols(Final2(x, y)[..3]) == [x, y]
  {
    SymbolValueOfSymbol(x / 4);
    SymbolValueOfSymbol(x % 4 * 16 + y / 16);
    SymbolValueOfSymbol(y % 16 * 4);
  }

  /** The encoding with its padding dropped. */
  function Unpadded(b: seq<Byte>): (s: string) {
    var e := Encode(b);
    if PadLength(|b|) <= |e| then e[..|e| - PadLength(|b|)] else e
  }

  /** One unfolding of `Encode` past a full quantum. */
  lemma {:induction false} EncodeUnfold(b: seq<Byte>)
    requires |b| >= 3
    ensures Encode(b) == Quantum(b[0], b[1], b[2]) + Encode(b[3..])
    ensures Unpadded(b) == Quantum(b[0], b[1], b[2]) + Unpadded(b[3..])
  {
    EncodeShape(b[3..]);
    var tail := Encode(b[3..]);
    assert PadLength(|b|) == PadLength(|b[3..]|);
    assert (Quantum(b[0], b[1], b[2]) + tail)[..4 + |tail| - PadLength(|b|)] == Quantum(b[0], b[1], b[2]) + tail[..|tail| - PadLength(|b|)];
  }

  /** A decodable group of four characters in front of more characters adds its
      bytes in front of theirs. */
  lemma {:induction false} GroupThenRest(q: string, t: string, b: seq<Byte>)
    requires |q| == 4 && AllSymbols(q) && AllSymbols(t) && |b| >= 3
    requires DecodeSymbols(q) == b[..3] && DecodeSymbols(t) == b[3..]
    ensures AllSymbols(q + t)
    ensures DecodeSymbols(q + t) == b
  {
    AllSymbolsConcat(q, t);
    DecodeSplit(q + t);
    assert (q + t)[..4] == q && (q + t)[4..] == t;
    assert b == b[..3] + b[3..];
  }

  /** A full quantum in front of the decodable encoding of the later bytes. */
  lemma {:induction false} QuantumThenRest(b: seq<Byte>, t: string)
    requires |b| >= 3 && AllSymbols(t) && DecodeSymbols(t) == b[3..]
    ensures AllSymbols(Quantum(b[0], b[1], b[2]) + t)
    ensures DecodeSymbols(Quantum(b[0], b[1], b[2]) + t) == b
  {
    QuantumDecodes(b[0], b[1], b[2]);
    assert b[..3] == [b[0], b[1], b[2]];
    GroupThenRest(Quantum(b[0], b[1], b[2]), t, b);
  }

  /** The encoding without its padding decodes to the bytes it came from. */
  lemma {:induction false} DecodeUnpadded(b: seq<Byte>)
    ensures AllSymbols(Unpadded(b)) && DecodeSymbols(Unpadded(b)) == b
    decreases |b|
  {
    if |b| == 1 {
      Final1Decodes(b[0]);
    } else if |b| == 2 {
      Final2Decodes(b[0], b[1]);
    } else if |b| >= 3 {
      EncodeUnfold(b);
      DecodeUnpadded(b[3..]);
      QuantumThenRest(b, Unpadded(b[3..]));
    }
  }

  /** The encoding is whole quanta; without its padding it never leaves a
      single character over. */
  lemma FourTimes(k: nat, p: nat)
    requires p <= 2
    ensures (4 * k) % 4 == 0
    ensures p <= 4 * k ==> (4 * k - p) % 4 != 1
  {
  }

  lemma {:induction false} EncodeQuads(b: seq<Byte>)
    ensures |Encode(b)| % 4 == 0
    ensures |Unpadded(b)| % 4 != 1
    decreases |b|
  {
    EncodeLength(b);
    EncodeShape(b);
    var e, p := Encode(b), PadLength(|b|);
    FourTimes((|b| + 2) / 3, p);
  }

  /** Forgiving decoding drops exactly the padding `btoa` added. */
  lemma {:induction false} DropPaddingOfEncode(b: seq<Byte>)
    ensures DropPadding(Encode(b)) == Unpadded(b)
  {
    EncodeShape(b);
    var e := Encode(b);
    var p := PadLength(|b|);
    if p == 0 && |e| > 0 {
      assert IsSymbol(e[|e| - 1]);
    } else if p == 1 {
      assert IsSymbol(e[|e| - 2]);
    }
  }

  /** The encoding is its unpadded part, all alphabet characters, followed by
      `PadLength` padding characters. */
  lemma {:induction false} EncodeIsUnpaddedThenPadding(b: seq<Byte>)
    ensures AllSymbols(Unpadded(b))
    ensures Encode(b) == Unpadded(b) + Repeat('=', PadLength(|b|))
  {
    EncodeShape(b);
    var e := Encode(b);
    var p := PadLength(|b|);
    assert e == e[..|e| - p] + e[|e| - p..];
    assert e[|e| - p..] == Repeat('=', p);
  }

  /** What step 2 of forgiving-base64 decode leaves of alphabet characters
      followed by `k` padding characters. */
  lemma {:induction false} DropPaddingAfterSymbols(a: string, k: nat)
    requires AllSymbols(a) && k <= 3
    ensures k <= 2 ==> DropPadding(a + Repeat('=', k)) == a
    ensures k == 3 ==> DropPadding(a + Repeat('=', k)) == a + "="
  {
    var d := a + Repeat('=', k);
    if k == 0 {
      assert d == a;
      if |a| > 0 {
        assert IsSymbol(a[|a| - 1]);
      }
    } else if k == 1 {
      assert d[..|d| - 1] == a;
      if |a| > 0 {
        assert d[|d| - 2] == a[|a| - 1];
        assert IsSymbol(a[|a| - 1]);
      }
    } else if k == 2 {
      assert d[..|d| - 2] == a;
    } else {
      assert d[..|d| - 2] == a + "=";
    }
  }

  /** `atob(btoa(x))` gives back `x`: forgiving decoding inverts the encoding. */
  lemma {:induction false} DecodeEncode(b: seq<Byte>)
    ensures ForgivingDecode(Encode(b)) == Some(b)
  {
    var e := Encode(b);
    EncodeShape(b);
    assert forall i :: 0 <= i < |e| ==> NotAsciiWhitespace(e[i]);
    FilterKeepsAll(e, NotAsciiWhitespace);
    EncodeQuads(b);
    DropPaddingOfEncode(b);
    DecodeUnpadded(b);
  }

  /** Whitespace anywhere is ignored by `atob`. */
  lemma {:induction false} DecodeIgnoresWhitespace(a: string, b: string)
    requires forall i :: 0 <= i < |b| ==> IsAsciiWhitespace(b[i])
    ensures ForgivingDecode(a + b) == ForgivingDecode(a)
    ensures ForgivingDecode(b + a) == ForgivingDecode(a)
  {
    FilterConcat(a, b, NotAsciiWhitespace);
    FilterConcat(b, a, NotAsciiWhitespace);
    FilterDropsAll(b, NotAsciiWhitespace);
    assert Filter(a, NotAsciiWhitespace) + [] == Filter(a, NotAsciiWhitespace);
    assert [] + Filter(a, NotAsciiWhitespace) == Filter(a, NotAsciiWhitespace);
  }

  /** How many bytes `n` characters decode to: three per full group, and one
      fewer than the characters in a final partial group. */
  lemma Quarters(n: nat)
    requires n >= 4
    ensures 3 * (n / 4) == 3 + 3 * ((n - 4) / 4) && n % 4 == (n - 4) % 4
  {
  }

  lemma SmallQuarter(n: nat)
    requires n < 4
    ensures n / 4 == 0 && n % 4 == n
  {
  }

  lemma {:induction false} DecodeSymbolsLength(s: string)
    requires AllSymbols(s) && |s| % 4 != 1
    ensures |DecodeSymbols(s)| == 3 * (|s| / 4) + (if |s| % 4 == 0 then 0 else |s| % 4 - 1)
    decreases |s|
  {
    var n := |s|;
    if n >= 4 {
      assert AllSymbols(s[4..]) by {
        forall i | 0 <= i < n - 4 ensures IsSymbol(s[4..][i]) { assert s[4..][i] == s[i + 4]; }
      }
      assert |DecodeSymbols(s)| == 3 + |DecodeSymbols(s[4..])|;
      DecodeSymbolsLength(s[4..]);
      Quarters(n);
    } else {
      SmallQuarter(n);
    }
  }
}
