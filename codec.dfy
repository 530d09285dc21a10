/**
  The three Base64 dialects of the tool (`encodeWithFormat`, `decodeWithFormat`
  and `isValidBase64` of `AdvancedBase64Tool`): standard RFC 4648 output, the
  URL-safe alphabet of RFC 4648 section 5 without padding, and MIME output
  wrapped at 76 characters a line as section 6.8 of RFC 2045 asks.
*/
module Codec {
  import opened Common
  import opened JsText
  import Utf8
  import Base64

  /** The value of the format selector. */
  datatype Format = Standard | UrlSafe | Mime

  /** `pako.inflate(bytes, { to: 'string' })` when the gzip checkbox is ticked
      and the library is loaded; a `None` result is an exception from it. */
  type Inflate = Option<seq<Byte> -> Option<string>>

  /** `btoa` of the UTF-8 bytes of the text. */
  function StandardOf(input: string): string {
    Base64.Encode(Utf8.Encode(input))
  }

  /** `s.match(/.{1,76}/g)`, for text without line terminators, as `btoa`
      output is: the text cut into lines of 76 characters, the last one
      shorter. */
  function Chunks76(s: string): (r: seq<string>)
    requires s != ""
    ensures |r| > 0
    decreases |s|
  {
    if |s| <= 76 then [s] else [s[..76]] + Chunks76(s[76..])
  }

  predicate NotPadding(c: char) { c != '=' }

  /** The `switch` of `encodeWithFormat`: how each dialect reshapes the
      standard text. An empty text has no 76-character match, and `|| ''`
      turns that into the empty string. */
  function Dialect(standard: string, format: Format): (r: string) {
    match format
    case UrlSafe => Filter(ReplaceChar(ReplaceChar(standard, '+', '-'), '/', '_'), NotPadding)
    case Mime => if standard == "" then "" else Join(Chunks76(standard), "\n")
    case Standard => standard
  }

  /** `encodeWithFormat`: UTF-8 encode, `btoa`, then shape for the dialect. */
  function EncodeWithFormat(input: string, format: Format): (r: string) {
    Dialect(StandardOf(input), format)
  }

  /** How many characters a length `n` lacks to reach a multiple of four. */
  function Missing(n: nat): (m: nat)
    ensures m <= 3
  {
    (4 - n % 4) % 4
  }

  /** The input handed to `atob`: URL-safe characters mapped back and `=`
      appended until the UTF-16 length is a multiple of four; for the other
      dialects every `\s` character removed. */
  function Cleaned(input: string, format: Format): (r: string) {
    if format == UrlSafe then
      var t := ReplaceChar(ReplaceChar(input, '-', '+'), '_', '/');
      t + Repeat('=', Missing(Utf16Length(t)))
    else
      RemoveJsWhitespace(input)
  }

  /** `atob`: the decoded bytes as a string of characters 0 to 255, or an
      exception. */
  function Atob(s: string): (r: Option<string>)
    ensures r.Some? ==> forall i :: 0 <= i < |r.value| ==> r.value[i] as int < 256
  {
    match Base64.ForgivingDecode(s)
    case None => None
    case Some(b) => Some(seq(|b|, i requires 0 <= i < |b| => (b[i] as int) as char))
  }

  /** The text `decodeWithFormat` makes of the decoded bytes: the inflated text
      when gzip is on and inflating succeeds, else strict UTF-8 (a leading
      byte-order mark dropped), else windows-1252, which the `latin1` label
      names. */
  function TextOf(bytes: seq<Byte>, inflate: Inflate): string {
    if inflate.Some? && inflate.value(bytes).Some? then inflate.value(bytes).value
    else match Utf8.DecodeFatal(bytes)
      case Some(t) => t
      case None => Utf8.Windows1252Decode(bytes)
  }

  /** What `decodeWithFormat` returns; `None` when it throws. */
  function Decoded(input: string, format: Format, inflate: Inflate): (r: Option<string>) {
    match Base64.ForgivingDecode(Cleaned(input, format))
    case None => None
    case Some(bytes) => Some(TextOf(bytes, inflate))
  }

  /** Adding `k` characters to a length `n` reaches a multiple of four exactly
      when `k` is the number of characters missing. */
  lemma PadStep(n: nat, k: nat)
    requires k <= Missing(n)
    ensures (n + k) % 4 == 0 <==> k == Missing(n)
  {
  }

  /** What the padding loop keeps: `k` copies of `=` added so far, no more
      than were missing. */
  predicate PadInvariant(t: string, processed: string, k: nat) {
    k <= Missing(Utf16Length(t)) && processed == t + Repeat('=', k)
  }

  /** Each `=` is one UTF-16 unit. */
  lemma {:induction false} PaddedLength(t: string, k: nat)
    ensures Utf16Length(t + Repeat('=', k)) == Utf16Length(t) + k
  {
    if k == 0 {
      assert t + Repeat('=', 0) == t;
    } else {
      var s := t + Repeat('=', k - 1);
      PaddedLength(t, k - 1);
      RepeatSnoc(t, '=', k - 1);
      assert (s + "=")[..|s|] == s;
    }
  }

  /** One more `=` keeps the loop's invariant while the length is not yet a
      multiple of four. */
  lemma PadMore(t: string, processed: string, k: nat)
    requires PadInvariant(t, processed, k) && Utf16Length(processed) % 4 != 0
    ensures PadInvariant(t, processed + "=", k + 1) && k < 3
  {
    var n := Utf16Length(t);
    assert Utf16Length(processed) == n + k by {
      PaddedLength(t, k);
    }
    assert k < Missing(n) by {
      PadStep(n, k);
    }
    assert processed + "=" == t + Repeat('=', k + 1) by {
      RepeatSnoc(t, '=', k);
    }
  }

  /** When the length is a multiple of four, exactly the missing copies were added. */
  lemma PadDone(t: string, processed: string, k: nat)
    requires PadInvariant(t, processed, k) && Utf16Length(processed) % 4 == 0
    ensures processed == t + Repeat('=', Missing(Utf16Length(t)))
  {
    var n := Utf16Length(t);
    assert Utf16Length(processed) == n + k by {
      PaddedLength(t, k);
    }
    PadStep(n, k);
  }

  /** The loop of `decodeWithFormat`'s URL-safe branch: append `=` while the
      UTF-16 length is not a multiple of four. */
  method PadToQuantum(t: string) returns (processed: string)
    ensures processed == t + Repeat('=', Missing(Utf16Length(t)))
  {
    processed := t;
    ghost var k := 0;
    while Utf16Length(processed) % 4 != 0
      invariant PadInvariant(t, processed, k)
      decreases 3 - k
    {
      PadMore(t, processed, k);
      processed := processed + "=";
      k := k + 1;
    }
    PadDone(t, processed, k);
  }

  /** The loop of `decodeWithFormat` that fills a `Uint8Array` with the
      character codes of `atob`'s result. */
  method CharCodes(text: string) returns (bytes: array<Byte>)
    requires forall i :: 0 <= i < |text| ==> text[i] as int < 256
    ensures fresh(bytes)
    ensures bytes.Length == |text|
    ensures forall i :: 0 <= i < |text| ==> bytes[i] == text[i] as int
  {
    bytes := new Byte[|text|];
    for i := 0 to |text|
      invariant forall j :: 0 <= j < i ==> bytes[j] == text[j] as int
    {
      bytes[i] := text[i] as int;
    }
  }

  /** `decodeWithFormat`, step by step: clean the input for the dialect, `atob`,
      copy the character codes into bytes, then try inflating, strict UTF-8 and
      windows-1252 in turn. */
  method DecodeWithFormat(input: string, format: Format, inflate: Inflate) returns (r: Option<string>)
    ensures r == Decoded(input, format, inflate)
  {
    var processed: string;
    if format == UrlSafe {
      processed := PadToQuantum(ReplaceChar(ReplaceChar(input, '-', '+'), '_', '/'));
      assert processed == Cleaned(input, format);
    } else {
      processed := RemoveJsWhitespace(input);
      assert processed == Cleaned(input, format);
    }
    var binary := Atob(processed);
    if binary.None? {
      return None;
    }
    var bytes := CharCodes(binary.value);
    var b := bytes[..];
    var decoded := Base64.ForgivingDecode(processed).value;
    assert b == decoded by {
      assert |b| == |decoded|;
      forall i | 0 <= i < |b| ensures b[i] == decoded[i] {
        assert binary.value[i] == (decoded[i] as int) as char;
      }
    }
    assert Decoded(input, format, inflate) == Some(TextOf(b, inflate));
    if inflate.Some? {
      var inflated := inflate.value(b);
      if inflated.Some? {
        return Some(inflated.value);
      }
    }
    var utf8 := Utf8.DecodeFatal(b);
    if utf8.Some? {
      return Some(utf8.value);
    }
    return Some(Utf8.Windows1252Decode(b));
  }

  /** A character of the URL-safe alphabet, RFC 4648 section 5. */
  predicate IsUrlSymbol(c: char) {
    ('A' <= c <= 'Z') || ('a' <= c <= 'z') || ('0' <= c <= '9') || c == '-' || c == '_'
  }

  /** `/^[A-Za-z0-9+/]*={0,2}$/`. */
  predicate MatchesStandard(t: string) {
    || Base64.AllSymbols(t)
    || (|t| >= 1 && Base64.AllSymbols(t[..|t| - 1]) && t[|t| - 1..] == "=")
    || (|t| >= 2 && Base64.AllSymbols(t[..|t| - 2]) && t[|t| - 2..] == "==")
  }

  /** `/^[A-Za-z0-9_-]*$/`. */
  predicate MatchesUrlSafe(t: string) {
    forall i :: 0 <= i < |t| ==> IsUrlSymbol(t[i])
  }

  /** `/^[A-Za-z0-9+/=\s]*$/`. */
  predicate MatchesMime(t: string) {
    forall i :: 0 <= i < |t| ==> Base64.IsSymbol(t[i]) || t[i] == '=' || IsJsWhitespace(t[i])
  }

  predicate MatchesGrammar(t: string, format: Format) {
    match format
    case Standard => MatchesStandard(t)
    case UrlSafe => MatchesUrlSafe(t)
    case Mime => MatchesMime(t)
  }

  /** Whether `atob` accepts the input once cleaned for the dialect, which is
      exactly when `decodeWithFormat` does not throw (`DecodesIff`). */
  predicate Decodes(input: string, format: Format) {
    Base64.ForgivingDecode(Cleaned(input, format)).Some?
  }

  /** `isValidBase64`: trim; no whitespace inside unless MIME; for standard a
      UTF-16 length that is a multiple of four; the dialect's pattern; and
      `decodeWithFormat` must not throw. */
  function IsValidBase64(str: string, format: Format): bool {
    var t := Trim(str);
    if format != Mime && exists i :: 0 <= i < |t| && IsJsWhitespace(t[i]) then false
    else if format == Standard && Utf16Length(t) % 4 != 0 then false
    else if !MatchesGrammar(t, format) then false
    else Decodes(t, format)
  }


  // ---------------------------------------------------------------------
  // Characters and padding.

  /** Base64 text is ASCII, so its UTF-16 length is its length. */
  lemma {:induction false} AsciiUtf16Length(s: string)
    requires forall i :: 0 <= i < |s| ==> s[i] as int < 0x80
    ensures Utf16Length(s) == |s|
  {
    Utf16LengthBmp(s);
  }

  lemma SymbolFacts(c: char)
    requires Base64.IsSymbol(c)
    ensures c as int < 0x80 && !IsJsWhitespace(c) && !IsAsciiWhitespace(c)
    ensures c != '=' && c != '-' && c != '_' && c != '\n'
  {
  }

  /** No character `\s` matches. */
  predicate NoSpace(s: string) {
    forall i :: 0 <= i < |s| ==> NotJsWhitespace(s[i])
  }

  /** `u` followed by `p` padding characters. */
  function Padded(u: string, p: nat): (s: string)
    ensures |s| == |u| + p
  {
    u + Repeat('=', p)
  }

  /** Alphabet characters followed by `p` padding characters making whole
      quanta: the shape of every `btoa` output. */
  predicate WellPadded(u: string, p: nat) {
    Base64.AllSymbols(u) && p <= 2 && (|u| + p) % 4 == 0
  }

  /** The standard text of any input is well padded. */
  lemma {:induction false} StandardOfIsWellPadded(input: string)
    ensures var b := Utf8.Encode(input);
      && WellPadded(Base64.Unpadded(b), Base64.PadLength(|b|))
      && StandardOf(input) == Padded(Base64.Unpadded(b), Base64.PadLength(|b|))
  {
    var b := Utf8.Encode(input);
    Base64.EncodeIsUnpaddedThenPadding(b);
    Base64.EncodeQuads(b);
  }

  /** Alphabet characters and padding hold no whitespace and are ASCII, so the
      cleaning steps leave them alone. */
  lemma {:induction false} PaddedHasNoSpace(u: string, p: nat)
    requires Base64.AllSymbols(u)
    ensures NoSpace(Padded(u, p))
    ensures RemoveJsWhitespace(Padded(u, p)) == Padded(u, p)
    ensures Filter(Padded(u, p), NotAsciiWhitespace) == Padded(u, p)
    ensures Utf16Length(Padded(u, p)) == |u| + p
  {
    var s := Padded(u, p);
    forall i | 0 <= i < |s|
      ensures NotJsWhitespace(s[i]) && NotAsciiWhitespace(s[i]) && s[i] as int < 0x80
    {
      if i < |u| {
        SymbolFacts(u[i]);
      } else {
        assert s[i] == '=';
      }
    }
    FilterKeepsAll(s, NotJsWhitespace);
    FilterKeepsAll(s, NotAsciiWhitespace);
    AsciiUtf16Length(s);
  }

  /** `p` characters complete a length `n` to whole quanta only when `p` is
      the number missing. */
  lemma MissingPadding(n: nat, p: nat)
    requires p <= 3 && (n + p) % 4 == 0
    ensures p == Missing(n)
  {
  }

  /** At most two padding characters never leave a lone character in the
      last quantum. */
  lemma NotRemainderOne(n: nat, k: nat)
    requires k <= 2 && (n + k) % 4 == 0
    ensures n % 4 != 1
  {
  }

  /** Three characters are missing exactly when one is left over. */
  lemma MissingThree(n: nat)
    ensures Missing(n) == 3 <==> n % 4 == 1
  {
  }

  // ---------------------------------------------------------------------
  // Shape of each dialect's output.

  /** Alphabet characters followed by at most two `=` match the standard pattern. */
  lemma {:induction false} PaddedMatchesStandard(u: string, p: nat)
    requires Base64.AllSymbols(u) && p <= 2
    ensures MatchesStandard(Padded(u, p))
  {
    var r := Padded(u, p);
    assert r[..|r| - p] == u;
    if p == 1 {
      assert r[|r| - 1..] == "=";
    } else if p == 2 {
      assert r[|r| - 2..] == "==";
    } else {
      assert r == u;
    }
  }

  /** Standard output matches the standard pattern, is four characters per
      started group of three bytes, and ends in at most two `=`. */
  lemma {:induction false} StandardShape(input: string)
    ensures var b := Utf8.Encode(input);
      var r := EncodeWithFormat(input, Standard);
      && r == Padded(Base64.Unpadded(b), Base64.PadLength(|b|))
      && |r| == 4 * ((|b| + 2) / 3)
      && MatchesStandard(r)
  {
    var b := Utf8.Encode(input);
    var u, p := Base64.Unpadded(b), Base64.PadLength(|b|);
    assert EncodeWithFormat(input, Standard) == Padded(u, p) && Base64.AllSymbols(u) by {
      Base64.EncodeIsUnpaddedThenPadding(b);
    }
    assert MatchesStandard(Padded(u, p)) by {
      PaddedMatchesStandard(u, p);
    }
    Base64.EncodeLength(b);
  }

  /** The URL-safe dialect of alphabet characters and padding is the alphabet
      characters with `+` and `/` swapped for `-` and `_`. */
  lemma {:induction false} UrlSafeOfPadded(u: string, p: nat)
    requires Base64.AllSymbols(u)
    ensures Dialect(Padded(u, p), UrlSafe) == ReplaceChar(ReplaceChar(u, '+', '-'), '/', '_')
    ensures MatchesUrlSafe(Dialect(Padded(u, p), UrlSafe))
  {
    var pad := Repeat('=', p);
    var swapped := ReplaceChar(ReplaceChar(u, '+', '-'), '/', '_');
    forall i | 0 <= i < |u| ensures IsUrlSymbol(swapped[i]) && NotPadding(swapped[i]) {
      SymbolFacts(u[i]);
    }
    assert ReplaceChar(ReplaceChar(u + pad, '+', '-'), '/', '_') == swapped + pad;
    FilterConcat(swapped, pad, NotPadding);
    FilterKeepsAll(swapped, NotPadding);
    FilterDropsAll(pad, NotPadding);
    assert swapped + [] == swapped;
  }

  /** URL-safe output is the standard output's alphabet characters with `+`
      and `/` swapped for `-` and `_`: the padding is gone, and its length is
      never one more than a multiple of four. */
  lemma {:induction false} UrlSafeShape(input: string)
    ensures var b := Utf8.Encode(input);
      var r := EncodeWithFormat(input, UrlSafe);
      && r == ReplaceChar(ReplaceChar(Base64.Unpadded(b), '+', '-'), '/', '_')
      && |r| % 4 != 1
      && MatchesUrlSafe(r)
  {
    var b := Utf8.Encode(input);
    StandardOfIsWellPadded(input);
    UrlSafeOfPadded(Base64.Unpadded(b), Base64.PadLength(|b|));
    NotRemainderOne(|Base64.Unpadded(b)|, Base64.PadLength(|b|));
  }

  /** The lines are 76 characters long but for the last, which holds 1 to 76,
      and run together they give the text back. */
  lemma {:induction false} ChunkLines(s: string)
    requires s != ""
    ensures var r := Chunks76(s);
      && Join(r, "") == s
      && (forall k :: 0 <= k < |r| - 1 ==> |r[k]| == 76)
      && 0 < |r[|r| - 1]| <= 76
    decreases |s|
  {
    if |s| > 76 {
      var rest := Chunks76(s[76..]);
      ChunkLines(s[76..]);
      var r := Chunks76(s);
      assert r[1..] == rest;
      assert s == s[..76] + s[76..];
      assert forall k :: 1 <= k < |r| ==> r[k] == rest[k - 1];
    }
  }

  lemma SmallMod77(i: nat)
    requires i < 77
    ensures i % 77 == i && i / 77 == 0
  {
  }

  lemma DivMod77(i: nat)
    requires i >= 77
    ensures (i - 77) % 77 == i % 77 && (i - 77) / 77 == i / 77 - 1
  {
  }

  lemma Div76Step(n: nat)
    requires n > 76
    ensures (n - 1) / 76 == (n - 77) / 76 + 1
  {
  }

  /** Length of the MIME text of a non-empty text: one line feed fewer than
      lines. */
  lemma {:induction false} MimeLength(s: string)
    requires s != ""
    ensures |Join(Chunks76(s), "\n")| == |s| + (|s| - 1) / 76
    decreases |s|
  {
    if |s| > 76 {
      MimeLength(s[76..]);
      Div76Step(|s|);
      assert Chunks76(s)[1..] == Chunks76(s[76..]);
    }
  }

  /** The MIME text is the standard text with a line feed after every 76
      characters but the last: character `i` is a line feed exactly when
      `i % 77 == 76`, and every other character is the next one of the
      standard text. */
  lemma {:induction false} MimeChar(s: string, i: nat)
    requires s != "" && i < |Join(Chunks76(s), "\n")|
    ensures var r := Join(Chunks76(s), "\n");
      && (i % 77 == 76 ==> r[i] == '\n')
      && (i % 77 != 76 ==> i / 77 * 76 + i % 77 < |s| && r[i] == s[i / 77 * 76 + i % 77])
    decreases |s|
  {
    var parts := Chunks76(s);
    var r := Join(parts, "\n");
    if |s| <= 76 {
      assert r == s;
      MimeLength(s);
      SmallMod77(i);
    } else {
      var rest := Chunks76(s[76..]);
      assert parts[1..] == rest;
      var tail := Join(rest, "\n");
      assert r == s[..76] + "\n" + tail;
      if i >= 77 {
        MimeChar(s[76..], i - 77);
        DivMod77(i);
        assert r[i] == tail[i - 77];
      } else {
        SmallMod77(i);
      }
    }
  }

  /** Stripping whitespace from a line without whitespace, a line feed and
      more text keeps the line and strips the rest. */
  lemma {:induction false} UnwrapLine(line: string, rest: string)
    requires NoSpace(line)
    ensures RemoveJsWhitespace(line + "\n" + rest) == line + RemoveJsWhitespace(rest)
  {
    FilterConcat(line + "\n", rest, NotJsWhitespace);
    FilterConcat(line, "\n", NotJsWhitespace);
    FilterKeepsAll(line, NotJsWhitespace);
    assert Filter("\n", NotJsWhitespace) == [];
    assert line + [] == line;
  }

  /** Stripping whitespace from lines joined by line feeds gives back the lines
      run together, when the lines hold no whitespace. */
  lemma {:induction false} UnwrapLines(parts: seq<string>)
    requires forall k :: 0 <= k < |parts| ==> NoSpace(parts[k])
    ensures RemoveJsWhitespace(Join(parts, "\n")) == Join(parts, "")
  {
    if |parts| == 1 {
      FilterKeepsAll(parts[0], NotJsWhitespace);
    } else if |parts| > 1 {
      UnwrapLines(parts[1..]);
      UnwrapLine(parts[0], Join(parts[1..], "\n"));
      assert parts[0] + "" + Join(parts[1..], "") == parts[0] + Join(parts[1..], "");
    }
  }

  /** The lines of a text without whitespace hold no whitespace. */
  lemma {:induction false} ChunksNoSpace(s: string)
    requires s != "" && NoSpace(s)
    ensures forall k :: 0 <= k < |Chunks76(s)| ==> NoSpace(Chunks76(s)[k])
    decreases |s|
  {
    if |s| > 76 {
      ChunksNoSpace(s[76..]);
      var r := Chunks76(s);
      assert NoSpace(r[0]) by {
        forall i | 0 <= i < 76 ensures NotJsWhitespace(r[0][i]) {
          assert r[0][i] == s[i];
        }
      }
      assert forall k :: 1 <= k < |r| ==> r[k] == Chunks76(s[76..])[k - 1];
    }
  }

  /** Removing the whitespace of the MIME dialect of a text without whitespace
      gives the text back. */
  lemma {:induction false} MimeUnwraps(s: string)
    requires NoSpace(s)
    ensures RemoveJsWhitespace(Dialect(s, Mime)) == s
  {
    if s != "" {
      ChunksNoSpace(s);
      UnwrapLines(Chunks76(s));
      ChunkLines(s);
    } else {
      assert Filter("", NotJsWhitespace) == "";
    }
  }

  /** MIME output is the standard output wrapped as `MimeChar` says, empty
      only when that is, and removing its whitespace gives the standard output
      back. */
  lemma {:induction false} MimeShape(input: string)
    ensures var standard := StandardOf(input);
      var r := EncodeWithFormat(input, Mime);
      && (standard == "" <==> r == "")
      && RemoveJsWhitespace(r) == standard
  {
    var b := Utf8.Encode(input);
    StandardOfIsWellPadded(input);
    var standard := StandardOf(input);
    PaddedHasNoSpace(Base64.Unpadded(b), Base64.PadLength(|b|));
    MimeUnwraps(standard);
    if standard != "" {
      MimeLength(standard);
    }
  }

  /** The dialect text is empty exactly when the standard text is. */
  lemma {:induction false} DialectEmptyIff(u: string, p: nat, format: Format)
    requires WellPadded(u, p)
    ensures Dialect(Padded(u, p), format) == "" <==> Padded(u, p) == ""
  {
    var s := Padded(u, p);
    match format
    case Standard =>
    case UrlSafe =>
      UrlSafeOfPadded(u, p);
    case Mime =>
      if s != "" {
        MimeLength(s);
      }
  }

  /** Encoding gives the empty string exactly for the empty text. */
  lemma {:induction false} EncodeEmptyIff(input: string, format: Format)
    ensures EncodeWithFormat(input, format) == "" <==> input == ""
  {
    var b := Utf8.Encode(input);
    StandardOfIsWellPadded(input);
    Base64.EncodeLength(b);
    DialectEmptyIff(Base64.Unpadded(b), Base64.PadLength(|b|), format);
    if input == "" {
      assert b == [];
    }
  }

  // ---------------------------------------------------------------------
  // Round trips.

  /** Swapping `+` and `/` for `-` and `_` and back gives alphabet characters
      back. */
  lemma {:induction false} AlphabetRoundTrip(u: string)
    requires Base64.AllSymbols(u)
    ensures ReplaceChar(ReplaceChar(ReplaceChar(ReplaceChar(u, '+', '-'), '/', '_'), '-', '+'), '_', '/') == u
  {
    var t := ReplaceChar(ReplaceChar(ReplaceChar(ReplaceChar(u, '+', '-'), '/', '_'), '-', '+'), '_', '/');
    forall i | 0 <= i < |u| ensures t[i] == u[i] {
      SymbolFacts(u[i]);
    }
  }

  /** Cleaning the URL-safe dialect of a well-padded standard text maps the
      characters back and restores the padding. */
  lemma {:induction false} UrlSafeCleaned(u: string, p: nat)
    requires WellPadded(u, p)
    ensures Cleaned(Dialect(Padded(u, p), UrlSafe), UrlSafe) == Padded(u, p)
  {
    var r := Dialect(Padded(u, p), UrlSafe);
    var t := ReplaceChar(ReplaceChar(r, '-', '+'), '_', '/');
    assert Cleaned(r, UrlSafe) == t + Repeat('=', Missing(Utf16Length(t)));
    assert t == u by {
      assert r == ReplaceChar(ReplaceChar(u, '+', '-'), '/', '_') by {
        UrlSafeOfPadded(u, p);
      }
      AlphabetRoundTrip(u);
    }
    assert Missing(Utf16Length(u)) == p by {
      assert Utf16Length(u) == |u| by {
        forall i | 0 <= i < |u| ensures u[i] as int < 0x80 {
          SymbolFacts(u[i]);
        }
        AsciiUtf16Length(u);
      }
      MissingPadding(|u|, p);
    }
  }

  /** For each dialect, what `atob` is given when decoding the dialect text of
      a well-padded standard text is that standard text. */
  lemma {:induction false} CleanedDialect(u: string, p: nat, format: Format)
    requires WellPadded(u, p)
    ensures Cleaned(Dialect(Padded(u, p), format), format) == Padded(u, p)
  {
    var s := Padded(u, p);
    match format
    case Standard =>
      PaddedHasNoSpace(u, p);
    case Mime =>
      PaddedHasNoSpace(u, p);
      MimeUnwraps(s);
    case UrlSafe =>
      UrlSafeCleaned(u, p);
  }

  /** Decoding what was encoded, in the same dialect, gives the text back,
      less a leading byte-order mark, unless gzip inflating succeeds on the
      bytes. */
  lemma {:induction false} DecodeEncode(input: string, format: Format, inflate: Inflate)
    requires inflate.None? || inflate.value(Utf8.Encode(input)).None?
    ensures Decoded(EncodeWithFormat(input, format), format, inflate) == Some(Utf8.StripBom(input))
  {
    var b := Utf8.Encode(input);
    StandardOfIsWellPadded(input);
    CleanedDialect(Base64.Unpadded(b), Base64.PadLength(|b|), format);
    Base64.DecodeEncode(b);
    Utf8.DecodeFatalEncode(input);
  }

  // ---------------------------------------------------------------------
  // The validator.

  /** `decodeWithFormat` throws exactly when `atob` does, gzip or not: a failed
      inflate falls through to the text decoders, and the windows-1252 decoder
      never fails. */
  lemma DecodesIff(input: string, format: Format, inflate: Inflate)
    ensures Decoded(input, format, inflate).Some? <==> Decodes(input, format)
  {
  }

  /** A string matching the standard pattern is alphabet characters and at
      most two `=`. */
  lemma {:induction false} StandardPatternSplit(t: string) returns (a: string, k: nat)
    requires MatchesStandard(t)
    ensures k <= 2 && Base64.AllSymbols(a) && t == Padded(a, k)
  {
    if Base64.AllSymbols(t) {
      a, k := t, 0;
      assert t == Padded(a, k);
    } else if |t| >= 1 && Base64.AllSymbols(t[..|t| - 1]) && t[|t| - 1..] == "=" {
      a, k := t[..|t| - 1], 1;
      assert t == Padded(a, k);
    } else {
      a, k := t[..|t| - 2], 2;
      assert t == Padded(a, k);
    }
  }

  /** A string matching the standard pattern holds no whitespace and is ASCII;
      when its length is a multiple of four `atob` accepts it. */
  lemma {:induction false} StandardPatternDecodes(t: string)
    requires MatchesStandard(t)
    ensures NoSpace(t) && Utf16Length(t) == |t| && Cleaned(t, Standard) == t
    ensures |t| % 4 == 0 ==> Base64.ForgivingDecode(t).Some?
  {
    var a, k := StandardPatternSplit(t);
    PaddedHasNoSpace(a, k);
    if |t| % 4 == 0 {
      assert Base64.DropPadding(t) == a by {
        Base64.DropPaddingAfterSymbols(a, k);
      }
      NotRemainderOne(|a|, k);
    }
  }

  /** Standard: a string passes exactly when, trimmed, it matches the pattern
      and its length is a multiple of four; `atob` then never fails. */
  lemma {:induction false} StandardValidIff(str: string)
    ensures var t := Trim(str);
      IsValidBase64(str, Standard) <==> MatchesStandard(t) && |t| % 4 == 0
  {
    var t := Trim(str);
    if MatchesStandard(t) {
      StandardPatternDecodes(t);
    }
  }

  /** Alphabet characters completed with `=` to whole quanta decode exactly
      when no lone character is left in the last quantum. */
  lemma {:induction false} PaddedDecodes(a: string)
    requires Base64.AllSymbols(a)
    ensures Base64.ForgivingDecode(Padded(a, Missing(|a|))).Some? <==> |a| % 4 != 1
  {
    var k := Missing(|a|);
    var d := Padded(a, k);
    assert Filter(d, NotAsciiWhitespace) == d by {
      PaddedHasNoSpace(a, k);
    }
    MissingThree(|a|);
    assert |d| % 4 == 0 by {
      PadStep(|a|, k);
    }
    if k == 3 {
      assert Base64.DropPadding(d) == a + "=" by {
        Base64.DropPaddingAfterSymbols(a, k);
      }
      assert !Base64.AllSymbols(a + "=") by {
        assert !Base64.IsSymbol((a + "=")[|a|]);
      }
    } else {
      assert Base64.DropPadding(d) == a by {
        Base64.DropPaddingAfterSymbols(a, k);
      }
    }
  }

  /** Cleaning a string of URL-safe characters maps them to the standard
      alphabet and completes the last quantum with `=`. */
  lemma {:induction false} UrlCleaned(t: string) returns (a: string)
    requires MatchesUrlSafe(t)
    ensures NoSpace(t) && Base64.AllSymbols(a) && |a| == |t|
    ensures Cleaned(t, UrlSafe) == Padded(a, Missing(|a|))
  {
    a := ReplaceChar(ReplaceChar(t, '-', '+'), '_', '/');
    forall i | 0 <= i < |t|
      ensures Base64.IsSymbol(a[i]) && NotJsWhitespace(t[i]) && a[i] as int < 0x80
    {
      assert IsUrlSymbol(t[i]);
    }
    AsciiUtf16Length(a);
  }

  /** A string matching the URL-safe pattern holds no whitespace, and `atob`
      accepts it after cleaning exactly when its length does not leave
      remainder one. */
  lemma {:induction false} UrlPatternDecodes(t: string)
    requires MatchesUrlSafe(t)
    ensures NoSpace(t)
    ensures Base64.ForgivingDecode(Cleaned(t, UrlSafe)).Some? <==> |t| % 4 != 1
  {
    var a := UrlCleaned(t);
    PaddedDecodes(a);
  }

  /** URL-safe: a string passes exactly when, trimmed, it matches the pattern
      and its length does not leave remainder one after division by four. */
  lemma {:induction false} UrlSafeValidIff(str: string)
    ensures var t := Trim(str);
      IsValidBase64(str, UrlSafe) <==> MatchesUrlSafe(t) && |t| % 4 != 1
  {
    var t := Trim(str);
    if MatchesUrlSafe(t) {
      UrlPatternDecodes(t);
    }
  }

  /** The last MIME character comes from the last standard character. */
  lemma MimeLast(n: nat)
    requires n > 0
    ensures var last := n - 1 + (n - 1) / 76;
      last % 77 != 76 && last / 77 * 76 + last % 77 == n - 1
  {
    var q, m := (n - 1) / 76, (n - 1) % 76;
    assert n - 1 + q == 77 * q + m;
    assert (77 * q + m) / 77 == q && (77 * q + m) % 77 == m;
  }

  /** The MIME dialect of alphabet characters and padding matches the MIME
      pattern. */
  lemma {:induction false} MimePattern(s: string)
    requires forall i :: 0 <= i < |s| ==> Base64.IsSymbol(s[i]) || s[i] == '='
    ensures MatchesMime(Dialect(s, Mime))
  {
    if s != "" {
      var r := Dialect(s, Mime);
      forall i | 0 <= i < |r| ensures Base64.IsSymbol(r[i]) || r[i] == '=' || IsJsWhitespace(r[i]) {
        MimeChar(s, i);
      }
    }
  }

  /** The first and last characters of non-empty alphabet characters followed
      by padding are not whitespace. */
  lemma {:induction false} PaddedEnds(u: string, p: nat)
    requires Base64.AllSymbols(u) && u != ""
    ensures var s := Padded(u, p); !IsJsWhitespace(s[0]) && !IsJsWhitespace(s[|s| - 1])
  {
    var s := Padded(u, p);
    SymbolFacts(u[0]);
    assert s[0] == u[0];
    if p == 0 {
      SymbolFacts(u[|u| - 1]);
      assert s[|s| - 1] == u[|u| - 1];
    } else {
      assert s[|s| - 1] == '=';
    }
  }

  /** The standard dialect of a non-empty well-padded text is left alone by
      trimming and passes the check. */
  lemma {:induction false} StandardDialectValid(u: string, p: nat)
    requires WellPadded(u, p) && u != ""
    ensures Trim(Dialect(Padded(u, p), Standard)) == Dialect(Padded(u, p), Standard)
    ensures IsValidBase64(Dialect(Padded(u, p), Standard), Standard)
  {
    var s := Padded(u, p);
    PaddedEnds(u, p);
    TrimUnpadded(s);
    PaddedMatchesStandard(u, p);
    StandardValidIff(s);
  }

  /** The URL-safe dialect of a non-empty well-padded text is left alone by
      trimming and passes the check. */
  lemma {:induction false} UrlSafeDialectValid(u: string, p: nat)
    requires WellPadded(u, p) && u != ""
    ensures Trim(Dialect(Padded(u, p), UrlSafe)) == Dialect(Padded(u, p), UrlSafe)
    ensures IsValidBase64(Dialect(Padded(u, p), UrlSafe), UrlSafe)
  {
    NotRemainderOne(|u|, p);
    var r := Dialect(Padded(u, p), UrlSafe);
    assert |r| == |u| && MatchesUrlSafe(r) by {
      UrlSafeOfPadded(u, p);
    }
    assert IsUrlSymbol(r[0]) && IsUrlSymbol(r[|r| - 1]);
    TrimUnpadded(r);
    UrlSafeValidIff(r);
  }

  /** The MIME dialect of a non-empty well-padded text neither starts nor ends
      with whitespace. */
  lemma {:induction false} MimeEnds(u: string, p: nat)
    requires WellPadded(u, p) && u != ""
    ensures var r := Dialect(Padded(u, p), Mime);
      |r| > 0 && !IsJsWhitespace(r[0]) && !IsJsWhitespace(r[|r| - 1])
  {
    var s := Padded(u, p);
    var r := Dialect(s, Mime);
    PaddedEnds(u, p);
    MimeLength(s);
    MimeChar(s, 0);
    MimeChar(s, |r| - 1);
    MimeLast(|s|);
  }

  /** The MIME dialect of a non-empty well-padded text is left alone by
      trimming and passes the check. */
  lemma {:induction false} MimeDialectValid(u: string, p: nat)
    requires WellPadded(u, p) && u != ""
    ensures Trim(Dialect(Padded(u, p), Mime)) == Dialect(Padded(u, p), Mime)
    ensures IsValidBase64(Dialect(Padded(u, p), Mime), Mime)
  {
    var r := Dialect(Padded(u, p), Mime);
    assert Trim(r) == r by {
      MimeEnds(u, p);
      TrimUnpadded(r);
    }
    MimeMatches(u, p);
    MimeDecodes(u, p);
  }

  /** The MIME dialect of a well-padded text matches the MIME pattern. */
  lemma {:induction false} MimeMatches(u: string, p: nat)
    requires WellPadded(u, p) && u != ""
    ensures MatchesMime(Dialect(Padded(u, p), Mime))
  {
    var s := Padded(u, p);
    forall i | 0 <= i < |s| ensures Base64.IsSymbol(s[i]) || s[i] == '=' {
      if i >= |u| {
        assert s[i] == '=';
      }
    }
    MimePattern(s);
  }

  /** The MIME dialect of a well-padded text decodes. */
  lemma {:induction false} MimeDecodes(u: string, p: nat)
    requires WellPadded(u, p) && u != ""
    ensures Decodes(Dialect(Padded(u, p), Mime), Mime)
  {
    var s := Padded(u, p);
    assert Cleaned(Dialect(s, Mime), Mime) == s by {
      CleanedDialect(u, p, Mime);
    }
    PaddedMatchesStandard(u, p);
    StandardPatternDecodes(s);
  }

  /** Alphabet characters followed by at most two `=`: with padding the text
      fills whole quanta, and without it no lone character is left over in the
      last quantum. These are the strings `atob` accepts among those made only
      of alphabet characters and `=`. */
  ghost predicate PaddedQuanta(u: string) {
    exists a: string, k: nat :: k <= 2 && Base64.AllSymbols(a) && u == Padded(a, k)
      && (if k == 0 then |a| % 4 != 1 else |u| % 4 == 0)
  }

  /** Removing the whitespace from text matching the MIME pattern leaves only
      alphabet characters and `=`. */
  lemma {:induction false} MimeStripped(t: string)
    requires MatchesMime(t)
    ensures var u := RemoveJsWhitespace(t);
      forall i :: 0 <= i < |u| ==> Base64.IsSymbol(u[i]) || u[i] == '='
  {
    if t != [] {
      assert MatchesMime(t[1..]) by {
        forall i | 0 <= i < |t[1..]| ensures Base64.IsSymbol(t[1..][i]) || t[1..][i] == '=' || IsJsWhitespace(t[1..][i]) {
          assert t[1..][i] == t[i + 1];
        }
      }
      MimeStripped(t[1..]);
      var head: string := if NotJsWhitespace(t[0]) then [t[0]] else [];
      var rest := RemoveJsWhitespace(t[1..]);
      var u := RemoveJsWhitespace(t);
      assert u == head + rest;
      forall i | 0 <= i < |u| ensures Base64.IsSymbol(u[i]) || u[i] == '=' {
        if i < |head| {
          assert u[i] == t[0];
        } else {
          assert u[i] == rest[i - |head|];
        }
      }
    }
  }

  /** What `atob` keeps of text without ASCII whitespace once the padding of
      a whole number of quanta is dropped. */
  function QuantaBody(u: string): (e: string)
    ensures |e| <= |u| <= |e| + 2
  {
    if |u| % 4 == 0 then Base64.DropPadding(u) else u
  }

  /** On text without ASCII whitespace, `atob` succeeds exactly when the body
      is alphabet characters with no lone one in the last quantum. */
  lemma UnspacedDecode(u: string)
    requires Filter(u, NotAsciiWhitespace) == u
    ensures Base64.ForgivingDecode(u).Some? <==>
      |QuantaBody(u)| % 4 != 1 && Base64.AllSymbols(QuantaBody(u))
  {
  }

  /** The text is its body followed by the `=` that were dropped, and only a
      whole number of quanta loses any. */
  lemma QuantaBodyPadded(u: string)
    ensures u == Padded(QuantaBody(u), |u| - |QuantaBody(u)|)
    ensures |QuantaBody(u)| < |u| ==> |u| % 4 == 0
  {
    var e := QuantaBody(u);
    if |e| == |u| {
      assert u == Padded(e, 0);
    } else if |e| + 1 == |u| {
      assert u == e + [u[|u| - 1]];
      assert u == Padded(e, 1);
    } else {
      assert u == e + [u[|u| - 2], u[|u| - 1]];
      assert u == Padded(e, 2);
    }
  }

  /** A string `atob` decodes is alphabet characters and at most two `=`. */
  lemma DecodedIsPaddedQuanta(u: string)
    requires |QuantaBody(u)| % 4 != 1 && Base64.AllSymbols(QuantaBody(u))
    ensures PaddedQuanta(u)
  {
    QuantaBodyPadded(u);
    var e := QuantaBody(u);
    var k := |u| - |e|;
    assert k <= 2 && Base64.AllSymbols(e) && u == Padded(e, k)
      && (if k == 0 then |e| % 4 != 1 else |u| % 4 == 0);
  }

  /** `atob` decodes every `PaddedQuanta` string. */
  lemma PaddedQuantaIsDecoded(u: string)
    requires PaddedQuanta(u)
    ensures |QuantaBody(u)| % 4 != 1 && Base64.AllSymbols(QuantaBody(u))
  {
    var a: string, k: nat :| k <= 2 && Base64.AllSymbols(a) && u == Padded(a, k)
      && (if k == 0 then |a| % 4 != 1 else |u| % 4 == 0);
    assert QuantaBody(u) == a by {
      if |u| % 4 == 0 {
        Base64.DropPaddingAfterSymbols(a, k);
      }
    }
    if k != 0 {
      NotRemainderOne(|a|, k);
    }
  }

  /** On alphabet characters and `=`, `atob` succeeds exactly on
      `PaddedQuanta`. */
  lemma PaddedQuantaDecodes(u: string)
    requires forall i :: 0 <= i < |u| ==> Base64.IsSymbol(u[i]) || u[i] == '='
    ensures Base64.ForgivingDecode(u).Some? <==> PaddedQuanta(u)
  {
    FilterKeepsAll(u, NotAsciiWhitespace);
    UnspacedDecode(u);
    if Base64.ForgivingDecode(u).Some? {
      DecodedIsPaddedQuanta(u);
    }
    if PaddedQuanta(u) {
      PaddedQuantaIsDecoded(u);
    }
  }

  /** MIME: a string passes exactly when, trimmed, it matches the loose
      pattern and, with its whitespace removed, is alphabet characters and at
      most two `=`, filling whole quanta when padded and leaving no lone
      character when not. */
  lemma {:induction false} MimeValidIff(str: string)
    ensures var t := Trim(str);
      IsValidBase64(str, Mime) <==> MatchesMime(t) && PaddedQuanta(RemoveJsWhitespace(t))
  {
    var t := Trim(str);
    if MatchesMime(t) {
      MimeStripped(t);
      PaddedQuantaDecodes(RemoveJsWhitespace(t));
    }
  }

  /** A string of alphabet characters and `=` is left alone by trimming and
      whitespace removal. */
  lemma PlainMime(s: string)
    requires forall i :: 0 <= i < |s| ==> Base64.IsSymbol(s[i]) || s[i] == '='
    ensures Trim(s) == s && RemoveJsWhitespace(s) == s && MatchesMime(s)
  {
    TrimUnpadded(s);
    FilterKeepsAll(s, NotJsWhitespace);
  }

  /** On alphabet characters and `=` alone, the MIME check is `PaddedQuanta`. */
  lemma PlainMimeValid(u: string)
    requires forall i :: 0 <= i < |u| ==> Base64.IsSymbol(u[i]) || u[i] == '='
    ensures IsValidBase64(u, Mime) <==> PaddedQuanta(u)
  {
    PlainMime(u);
    MimeValidIff(u);
  }

  /** Alphabet characters with no lone one in the last quantum pass the MIME
      check unpadded. */
  lemma MimeAcceptsSymbols(a: string)
    requires Base64.AllSymbols(a) && |a| % 4 != 1
    ensures IsValidBase64(a, Mime)
  {
    assert a == Padded(a, 0);
    PlainMimeValid(a);
  }

  /** `QQ` passes the MIME check: two characters need no padding. */
  lemma MimeAcceptsUnpadded()
    ensures IsValidBase64("QQ", Mime)
  {
    MimeAcceptsSymbols("QQ");
  }

  /** A single `=` after two characters leaves the quantum unfilled. */
  lemma MimeRejectsShortPadding()
    ensures !IsValidBase64("QQ=", Mime)
  {
    var u := "QQ=";
    assert !PaddedQuanta(u) by {
      forall a: string, k: nat | k <= 2 && u == Padded(a, k)
        ensures k > 0 || !Base64.AllSymbols(a)
      {
        if k == 0 {
          assert a[2] == u[2];
        }
      }
    }
    PlainMimeValid(u);
  }

  /** Padding in the middle of the text is refused. */
  lemma MimeRejectsInnerPadding()
    ensures !IsValidBase64("QQ==QQ==", Mime)
  {
    var u := "QQ==QQ==";
    assert !PaddedQuanta(u) by {
      forall a: string, k: nat | k <= 2 && u == Padded(a, k)
        ensures !Base64.AllSymbols(a)
      {
        assert a[2] == u[2];
      }
    }
    PlainMimeValid(u);
  }

  /** Three `=` are one too many. */
  lemma MimeRejectsTriplePadding()
    ensures !IsValidBase64("Q===", Mime)
  {
    var u := "Q===";
    assert !PaddedQuanta(u) by {
      forall a: string, k: nat | k <= 2 && u == Padded(a, k)
        ensures !Base64.AllSymbols(a)
      {
        assert a[1] == u[1];
      }
    }
    PlainMimeValid(u);
  }

  /** Whatever the dialect, the tool's own output for a non-empty text is left
      alone by trimming and passes the check. */
  lemma {:induction false} EncodedIsValid(input: string, format: Format)
    requires input != ""
    ensures Trim(EncodeWithFormat(input, format)) == EncodeWithFormat(input, format)
    ensures IsValidBase64(EncodeWithFormat(input, format), format)
  {
    var b := Utf8.Encode(input);
    StandardOfIsWellPadded(input);
    Base64.EncodeLength(b);
    var u, p := Base64.Unpadded(b), Base64.PadLength(|b|);
    assert u != "";
    match format
    case Standard => StandardDialectValid(u, p);
    case UrlSafe => UrlSafeDialectValid(u, p);
    case Mime => MimeDialectValid(u, p);
  }

  /** Text of the URL-safe alphabet matches the standard pattern exactly
      when it holds no `-` and no `_`. */
  lemma UrlSafeMatchesStandard(t: string)
    requires MatchesUrlSafe(t)
    ensures MatchesStandard(t) <==> forall i :: 0 <= i < |t| ==> t[i] != '-' && t[i] != '_'
  {
    if forall i :: 0 <= i < |t| ==> t[i] != '-' && t[i] != '_' {
      assert Base64.AllSymbols(t);
    }
    if |t| >= 1 {
      assert t[|t| - 1..][0] == t[|t| - 1] && IsUrlSymbol(t[|t| - 1]);
    }
    if |t| >= 2 {
      assert t[|t| - 2..][1] == t[|t| - 1];
    }
  }

  /** The URL-safe output of a non-empty text also passes the standard check
      exactly when it holds neither `-` nor `_` and its length is a multiple
      of four. */
  lemma {:induction false} UrlSafeOutputIsStandard(input: string)
    requires input != ""
    ensures var e := EncodeWithFormat(input, UrlSafe);
      IsValidBase64(e, Standard) <==>
        (forall i :: 0 <= i < |e| ==> e[i] != '-' && e[i] != '_') && |e| % 4 == 0
  {
    var e := EncodeWithFormat(input, UrlSafe);
    EncodedIsValid(input, UrlSafe);
    UrlSafeShape(input);
    UrlSafeMatchesStandard(e);
    StandardValidIff(e);
  }

  // ---------------------------------------------------------------------
  // Worked examples.

  /** "A" encodes to `QQ==` in the standard dialect, and `QQ==` decodes back
      to "A". */
  lemma StandardExample()
    ensures EncodeWithFormat("A", Standard) == "QQ=="
    ensures Decoded("QQ==", Standard, None) == Some("A")
  {
    assert Utf8.Encode("A") == [65] by {
      assert Utf8.Encode("A"[1..]) == [];
    }
    assert Base64.Encode([65]) == "QQ==";
    DecodeEncode("A", Standard, None);
  }

  lemma TwoSymbolsPadded(p: nat)
    requires p <= 2
    ensures (2 + p) % 4 == 0 <==> p == 2
  {
  }

  /** Two alphabet characters pass the standard check with `==` after them,
      and not with one `=` or none, which leave the quantum incomplete. */
  lemma {:induction false} StandardPadding(u: string, p: nat)
    requires Base64.AllSymbols(u) && |u| == 2 && p <= 2
    ensures IsValidBase64(Padded(u, p), Standard) <==> p == 2
  {
    var t := Padded(u, p);
    assert Trim(t) == t by {
      PaddedEnds(u, p);
      TrimUnpadded(t);
    }
    assert MatchesStandard(t) by {
      PaddedMatchesStandard(u, p);
    }
    assert |t| == 2 + p;
    TwoSymbolsPadded(p);
    assert IsValidBase64(t, Standard) <==> MatchesStandard(t) && |t| % 4 == 0 by {
      StandardValidIff(t);
    }
  }

  /** In the URL-safe dialect two characters pass (the padding is restored);
      a single one does not. */
  lemma {:induction false} UrlSafeShortInputs(t: string)
    requires MatchesUrlSafe(t) && 1 <= |t| <= 2
    ensures IsValidBase64(t, UrlSafe) <==> |t| == 2
  {
    assert Trim(t) == t by {
      assert IsUrlSymbol(t[0]) && IsUrlSymbol(t[|t| - 1]);
      TrimUnpadded(t);
    }
    assert |t| % 4 != 1 <==> |t| == 2;
    UrlSafeValidIff(t);
  }
}
