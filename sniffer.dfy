/**
  The two file-signature sniffers of `AdvancedBase64Tool`: `detectImageType`,
  which decides whether decoded bytes can be previewed as an image, and
  `detectMimeTypeAndExtension`, which names the file a decoded download is
  saved as.
*/
module Sniffer {
  import opened Common
  import opened JsText
  import Utf8

  // ---------------------------------------------------------------------
  // detectImageType

  datatype ImageType = Jpeg | Png | Gif | Webp | Bmp | Tiff

  /** The MIME type string `detectImageType` returns for each kind. */
  function MimeOf(t: ImageType): string {
    match t
    case Jpeg => "image/jpeg"
    case Png => "image/png"
    case Gif => "image/gif"
    case Webp => "image/webp"
    case Bmp => "image/bmp"
    case Tiff => "image/tiff"
  }

  /** The signature table of `detectImageType` in the order it is written;
      none of its keys looks like an array index, so `Object.entries` keeps
      that order. */
  const ImageSignatures: seq<(ImageType, seq<Byte>)> := [
    (Jpeg, [0xFF, 0xD8, 0xFF]),
    (Png, [0x89, 0x50, 0x4E, 0x47]),
    (Gif, [0x47, 0x49, 0x46, 0x38]),
    (Webp, [0x52, 0x49, 0x46, 0x46]),
    (Bmp, [0x42, 0x4D]),
    (Tiff, [0x49, 0x49, 0x2A, 0x00])
  ]

  /** `WEBP`, expected at offset 8 of a RIFF file. */
  const WebpTag: seq<Byte> := [0x57, 0x45, 0x42, 0x50]

  /** The big-endian TIFF header, checked after the table. */
  const BigEndianTiff: seq<Byte> := [0x4D, 0x4D, 0x00, 0x2A]

  /** The loop of `detectImageType` from entry `i` on: the first entry whose
      signature starts the bytes wins, except that a RIFF header counts only
      with `WEBP` at offset 8 and otherwise the loop goes on; after the table
      comes the big-endian TIFF test. Reading past the end yields `undefined`,
      which equals no byte, so a short buffer never matches. */
  function ScanImages(bytes: seq<Byte>, i: nat): Option<ImageType>
    requires i <= |ImageSignatures|
    decreases |ImageSignatures| - i
  {
    if i == |ImageSignatures| then
      if StartsWith(bytes, BigEndianTiff) then Some(Tiff) else None
    else
      var (t, sig) := ImageSignatures[i];
      if StartsWith(bytes, sig) && (t != Webp || (|bytes| >= 12 && HasAt(bytes, WebpTag, 8))) then Some(t)
      else ScanImages(bytes, i + 1)
  }

  /** `detectImageType`; `None` is its `null`. */
  function DetectImageType(bytes: seq<Byte>): Option<ImageType> {
    ScanImages(bytes, 0)
  }

  /** What it takes for bytes to be an image of each kind, independently of
      the order of the table. */
  predicate Shows(bytes: seq<Byte>, t: ImageType) {
    match t
    case Jpeg => StartsWith(bytes, [0xFF, 0xD8, 0xFF])
    case Png => StartsWith(bytes, [0x89, 0x50, 0x4E, 0x47])
    case Gif => StartsWith(bytes, [0x47, 0x49, 0x46, 0x38])
    case Webp => StartsWith(bytes, [0x52, 0x49, 0x46, 0x46]) && HasAt(bytes, WebpTag, 8)
    case Bmp => StartsWith(bytes, [0x42, 0x4D])
    case Tiff => StartsWith(bytes, [0x49, 0x49, 0x2A, 0x00]) || StartsWith(bytes, BigEndianTiff)
  }

  /** The fewest bytes an image of each kind can have. */
  function MinLength(t: ImageType): nat {
    match t
    case Jpeg => 3
    case Bmp => 2
    case Webp => 12
    case _ => 4
  }

  /** The scan unrolled, entry by entry. */
  lemma ScanUnrolled(bytes: seq<Byte>)
    ensures DetectImageType(bytes) ==
      if StartsWith(bytes, [0xFF, 0xD8, 0xFF]) then Some(Jpeg)
      else if StartsWith(bytes, [0x89, 0x50, 0x4E, 0x47]) then Some(Png)
      else if StartsWith(bytes, [0x47, 0x49, 0x46, 0x38]) then Some(Gif)
      else if StartsWith(bytes, [0x52, 0x49, 0x46, 0x46]) && HasAt(bytes, WebpTag, 8) then Some(Webp)
      else if StartsWith(bytes, [0x42, 0x4D]) then Some(Bmp)
      else if StartsWith(bytes, [0x49, 0x49, 0x2A, 0x00]) then Some(Tiff)
      else if StartsWith(bytes, BigEndianTiff) then Some(Tiff)
      else None
  {
    assert ScanImages(bytes, 5) == if StartsWith(bytes, [0x49, 0x49, 0x2A, 0x00]) then Some(Tiff) else ScanImages(bytes, 6);
    assert ScanImages(bytes, 4) == if StartsWith(bytes, [0x42, 0x4D]) then Some(Bmp) else ScanImages(bytes, 5);
    assert ScanImages(bytes, 3) ==
      if StartsWith(bytes, [0x52, 0x49, 0x46, 0x46]) && HasAt(bytes, WebpTag, 8) then Some(Webp) else ScanImages(bytes, 4);
    assert ScanImages(bytes, 2) == if StartsWith(bytes, [0x47, 0x49, 0x46, 0x38]) then Some(Gif) else ScanImages(bytes, 3);
    assert ScanImages(bytes, 1) == if StartsWith(bytes, [0x89, 0x50, 0x4E, 0x47]) then Some(Png) else ScanImages(bytes, 2);
  }

  /** The first byte of a match. */
  lemma StartsWithFirst(bytes: seq<Byte>, sig: seq<Byte>)
    requires StartsWith(bytes, sig) && sig != []
    ensures bytes[0] == sig[0]
  {
    assert bytes[..|sig|][0] == bytes[0];
  }

  /** No two kinds can match the same bytes: their signatures begin with
      different bytes. */
  lemma ShowsExclusive(bytes: seq<Byte>, t: ImageType, u: ImageType)
    requires Shows(bytes, t) && Shows(bytes, u)
    ensures t == u
  {
    var first := map[Jpeg := 0xFF, Png := 0x89, Gif := 0x47, Webp := 0x52, Bmp := 0x42];
    assert forall k :: k in first ==> Shows(bytes, k) ==> bytes[0] == first[k] by {
      if Shows(bytes, Jpeg) { StartsWithFirst(bytes, [0xFF, 0xD8, 0xFF]); }
      if Shows(bytes, Png) { StartsWithFirst(bytes, [0x89, 0x50, 0x4E, 0x47]); }
      if Shows(bytes, Gif) { StartsWithFirst(bytes, [0x47, 0x49, 0x46, 0x38]); }
      if Shows(bytes, Webp) { StartsWithFirst(bytes, [0x52, 0x49, 0x46, 0x46]); }
      if Shows(bytes, Bmp) { StartsWithFirst(bytes, [0x42, 0x4D]); }
    }
    if Shows(bytes, Tiff) {
      if StartsWith(bytes, [0x49, 0x49, 0x2A, 0x00]) {
        StartsWithFirst(bytes, [0x49, 0x49, 0x2A, 0x00]);
      } else {
        StartsWithFirst(bytes, BigEndianTiff);
      }
    }
  }

  /** `detectImageType` names a kind exactly when the bytes show that kind,
      and returns `null` exactly when they show none. */
  lemma ImageTypeIff(bytes: seq<Byte>, t: ImageType)
    ensures DetectImageType(bytes) == Some(t) <==> Shows(bytes, t)
    ensures DetectImageType(bytes).None? <==>
      (!Shows(bytes, Jpeg) && !Shows(bytes, Png) && !Shows(bytes, Gif)
       && !Shows(bytes, Webp) && !Shows(bytes, Bmp) && !Shows(bytes, Tiff))
  {
    ScanUnrolled(bytes);
    if Shows(bytes, t) && DetectImageType(bytes).Some? {
      ShowsExclusive(bytes, t, DetectImageType(bytes).value);
    }
  }

  /** A buffer shorter than a kind's signature (for WebP, than the twelve
      bytes that reach the `WEBP` tag) is never that kind; fewer than two bytes
      are no image at all. */
  lemma ImageTypeNeedsLength(bytes: seq<Byte>)
    ensures DetectImageType(bytes).Some? ==> |bytes| >= MinLength(DetectImageType(bytes).value)
    ensures |bytes| < 2 ==> DetectImageType(bytes).None?
  {
    ScanUnrolled(bytes);
  }

  /** A RIFF file that is not WebP (a WAVE file, say) is no image. */
  lemma RiffWithoutWebp(bytes: seq<Byte>)
    requires StartsWith(bytes, [0x52, 0x49, 0x46, 0x46]) && !HasAt(bytes, WebpTag, 8)
    ensures DetectImageType(bytes).None?
  {
    ImageTypeIff(bytes, Webp);
    StartsWithFirst(bytes, [0x52, 0x49, 0x46, 0x46]);
  }

  // ---------------------------------------------------------------------
  // detectMimeTypeAndExtension

  datatype FileType = FileType(mime: string, ext: string)

  /** A key of the signature table and the file type it stands for. */
  datatype Entry = Entry(key: string, file: FileType)

  /** The table of `detectMimeTypeAndExtension` in the order `for...in`
      visits it: keys that look like array indices ("494433", "25504446",
      "47494638", "52494646") first, in ascending numeric order, then the
      others in the order they are written. */
  const MimeSignatures: seq<Entry> := [
    Entry("494433", FileType("audio/mpeg", "mp3")),
    Entry("25504446", FileType("application/pdf", "pdf")),
    Entry("47494638", FileType("image/gif", "gif")),
    Entry("52494646", FileType("image/webp", "webp")),
    Entry("FFD8FFE0", FileType("image/jpeg", "jpg")),
    Entry("89504E47", FileType("image/png", "png")),
    Entry("49492A00", FileType("image/tiff", "tif")),
    Entry("4D4D002A", FileType("image/tiff", "tif")),
    Entry("424D", FileType("image/bmp", "bmp")),
    Entry("504B0304", FileType("application/zip", "zip")),
    Entry("664C6143", FileType("audio/flac", "flac"))
  ]

  /** The bytes each key spells, entry for entry. */
  const SignatureBytes: seq<seq<Byte>> := [
    [0x49, 0x44, 0x33],
    [0x25, 0x50, 0x44, 0x46],
    [0x47, 0x49, 0x46, 0x38],
    [0x52, 0x49, 0x46, 0x46],
    [0xFF, 0xD8, 0xFF, 0xE0],
    [0x89, 0x50, 0x4E, 0x47],
    [0x49, 0x49, 0x2A, 0x00],
    [0x4D, 0x4D, 0x00, 0x2A],
    [0x42, 0x4D],
    [0x50, 0x4B, 0x03, 0x04],
    [0x66, 0x4C, 0x61, 0x43]
  ]

  const Zip := FileType("application/zip", "zip")
  const TextPlain := FileType("text/plain", "txt")
  const OctetStream := FileType("application/octet-stream", "bin")

  /** `toUpperCase` on the ASCII letters, the only letters a hex numeral has. */
  function ToUpperAscii(s: string): (r: string)
    ensures |r| == |s|
  {
    seq(|s|, i requires 0 <= i < |s| => if 'a' <= s[i] <= 'z' then (s[i] as int - 32) as char else s[i])
  }

  /** `byte.toString(16).toUpperCase().padStart(2, '0')`. */
  function UpperHex(x: Byte): string {
    PadStart(ToUpperAscii(RadixString(x, 16)), 2, '0')
  }

  /** The upper-case hex numerals of some bytes, joined without separator
      (`map(...).join('')`). */
  function HexOf(bytes: seq<Byte>): string {
    if bytes == [] then "" else UpperHex(bytes[0]) + HexOf(bytes[1..])
  }

  /** The `hex` string of `detectMimeTypeAndExtension`: its first four bytes. */
  function HexHead(u8: seq<Byte>): string {
    HexOf(Take(u8, 4))
  }

  /** The `for...in` loop from entry `i` on: the first key that starts `hex`. */
  function FirstMatch(hex: string, i: nat): Option<FileType>
    requires i <= |MimeSignatures|
    decreases |MimeSignatures| - i
  {
    if i == |MimeSignatures| then None
    else if StartsWith(hex, MimeSignatures[i].key) then Some(MimeSignatures[i].file)
    else FirstMatch(hex, i + 1)
  }

  /** `detectMimeTypeAndExtension`: a table match, the repeated ZIP test, then
      a fatal UTF-8 decode of the first 1024 bytes. It never fails. */
  function DetectMimeTypeAndExtension(u8: seq<Byte>): FileType {
    var hex := HexHead(u8);
    match FirstMatch(hex, 0)
    case Some(file) => file
    case None =>
      if StartsWith(hex, "504B0304") then Zip
      else if Utf8.DecodeFatal(Take(u8, 1024)).Some? then TextPlain
      else OctetStream
  }

  // ---------------------------------------------------------------------
  // From hex strings to bytes.

  /** The upper-case digit for `d`. */
  function UpperDigit(d: nat): char
    requires d < 16
  {
    if d < 10 then ('0' as int + d) as char else ('A' as int + d - 10) as char
  }

  /** The two characters of `UpperHex(x)`: the high and the low nibble. */
  lemma UpperHexDigits(x: Byte)
    ensures UpperHex(x) == [UpperDigit(x / 16), UpperDigit(x % 16)]
  {
    var s := RadixString(x, 16);
    assert Pow(16, 2) == 256;
    PaddedRadixIsFixed(x, 16, 2);
    assert FixedDigits(x, 16, 2) == [DigitChar(x / 16 % 16), DigitChar(x % 16)];
    if |s| == 1 {
      assert PadStart(ToUpperAscii(s), 2, '0') == ['0'] + ToUpperAscii(s);
    }
  }

  lemma UpperHexInjective(x: Byte, y: Byte)
    requires UpperHex(x) == UpperHex(y)
    ensures x == y
  {
    UpperHexDigits(x);
    UpperHexDigits(y);
    assert UpperDigit(x / 16) == UpperDigit(y / 16) && UpperDigit(x % 16) == UpperDigit(y % 16);
  }

  lemma {:induction false} HexOfLength(bytes: seq<Byte>)
    ensures |HexOf(bytes)| == 2 * |bytes|
  {
    if bytes != [] {
      HexOfLength(bytes[1..]);
      UpperHexDigits(bytes[0]);
    }
  }

  /** Comparing hex strings by prefix compares the bytes by prefix. */
  lemma {:induction false} HexPrefixIff(a: seq<Byte>, b: seq<Byte>)
    ensures StartsWith(HexOf(a), HexOf(b)) <==> StartsWith(a, b)
  {
    if b == [] {
      assert HexOf(b) == "";
    } else if a == [] {
      assert HexOf(a) == "";
      HexOfLength(b);
    } else {
      UpperHexDigits(a[0]);
      UpperHexDigits(b[0]);
      var ha, hb := UpperHex(a[0]), UpperHex(b[0]);
      HexPrefixIff(a[1..], b[1..]);
      PrefixCons(ha, hb, HexOf(a[1..]), HexOf(b[1..]));
      if ha == hb {
        UpperHexInjective(a[0], b[0]);
      }
      PrefixCons([a[0]], [b[0]], a[1..], b[1..]);
      assert a == [a[0]] + a[1..] && b == [b[0]] + b[1..];
    }
  }

  /** Prefix of a concatenation, blocks of equal width. */
  lemma PrefixCons<T>(x: seq<T>, y: seq<T>, s: seq<T>, t: seq<T>)
    requires |x| == |y|
    ensures StartsWith(x + s, y + t) <==> x == y && StartsWith(s, t)
  {
    if StartsWith(x + s, y + t) {
      assert (x + s)[..|y + t|][..|x|] == x;
      assert (x + s)[..|y + t|][|x|..] == s[..|t|];
    }
    if x == y && StartsWith(s, t) {
      assert (x + s)[..|y + t|] == x + s[..|t|];
    }
  }

  /** Every key of the table is the hex spelling of its bytes. */
  lemma KeysSpellBytes(k: nat)
    requires k < |MimeSignatures|
    ensures |SignatureBytes| == |MimeSignatures| && 2 <= |SignatureBytes[k]| <= 4
    ensures MimeSignatures[k].key == HexOf(SignatureBytes[k])
  {
    if k == 0 {
      KeyMp3();
    } else if k == 1 {
      KeyPdf();
    } else if k == 2 {
      KeyGif();
    } else if k == 3 {
      KeyWebp();
    } else if k == 4 {
      KeyJpeg();
    } else if k == 5 {
      KeyPng();
    } else if k == 6 {
      KeyTiffLittle();
    } else if k == 7 {
      KeyTiffBig();
    } else if k == 8 {
      KeyBmp();
    } else if k == 9 {
      KeyZip();
    } else {
      KeyFlac();
    }
  }

  lemma KeyMp3()
    ensures MimeSignatures[0].key == HexOf(SignatureBytes[0])
  {
    UpperHexDigits(0x49); UpperHexDigits(0x44); UpperHexDigits(0x33);
  }

  lemma KeyPdf()
    ensures MimeSignatures[1].key == HexOf(SignatureBytes[1])
  {
    UpperHexDigits(0x25); UpperHexDigits(0x50); UpperHexDigits(0x44); UpperHexDigits(0x46);
  }

  lemma KeyGif()
    ensures MimeSignatures[2].key == HexOf(SignatureBytes[2])
  {
    UpperHexDigits(0x47); UpperHexDigits(0x49); UpperHexDigits(0x46); UpperHexDigits(0x38);
  }

  lemma KeyWebp()
    ensures MimeSignatures[3].key == HexOf(SignatureBytes[3])
  {
    UpperHexDigits(0x52); UpperHexDigits(0x49); UpperHexDigits(0x46);
  }

  lemma KeyJpeg()
    ensures MimeSignatures[4].key == HexOf(SignatureBytes[4])
  {
    UpperHexDigits(0xFF); UpperHexDigits(0xD8); UpperHexDigits(0xE0);
  }

  lemma KeyPng()
    ensures MimeSignatures[5].key == HexOf(SignatureBytes[5])
  {
    UpperHexDigits(0x89); UpperHexDigits(0x50); UpperHexDigits(0x4E); UpperHexDigits(0x47);
  }

  lemma KeyTiffLittle()
    ensures MimeSignatures[6].key == HexOf(SignatureBytes[6])
  {
    UpperHexDigits(0x49); UpperHexDigits(0x2A); UpperHexDigits(0x00);
  }

  lemma KeyTiffBig()
    ensures MimeSignatures[7].key == HexOf(SignatureBytes[7])
  {
    UpperHexDigits(0x4D); UpperHexDigits(0x00); UpperHexDigits(0x2A);
  }

  lemma KeyBmp()
    ensures MimeSignatures[8].key == HexOf(SignatureBytes[8])
  {
    UpperHexDigits(0x42); UpperHexDigits(0x4D);
  }

  lemma KeyZip()
    ensures MimeSignatures[9].key == HexOf(SignatureBytes[9])
  {
    UpperHexDigits(0x50); UpperHexDigits(0x4B); UpperHexDigits(0x03); UpperHexDigits(0x04);
  }

  lemma KeyFlac()
    ensures MimeSignatures[10].key == HexOf(SignatureBytes[10])
  {
    UpperHexDigits(0x66); UpperHexDigits(0x4C); UpperHexDigits(0x61); UpperHexDigits(0x43);
  }

  /** A key starts the `hex` string exactly when its bytes start the buffer. */
  lemma KeyMatchIff(u8: seq<Byte>, k: nat)
    requires k < |MimeSignatures|
    ensures StartsWith(HexHead(u8), MimeSignatures[k].key) <==> StartsWith(u8, SignatureBytes[k])
  {
    KeysSpellBytes(k);
    var sig := SignatureBytes[k];
    HexPrefixIff(Take(u8, 4), sig);
    assert StartsWith(Take(u8, 4), sig) <==> StartsWith(u8, sig) by {
      if |u8| > 4 {
        assert Take(u8, 4)[..|sig|] == u8[..|sig|];
      }
    }
  }

  /** The index of the entry whose bytes begin with `x0, x1`, or -1. */
  function EntryOf(x0: Byte, x1: Byte): int {
    if x0 == 0x49 then (if x1 == 0x44 then 0 else if x1 == 0x49 then 6 else -1)
    else if x0 == 0x25 then 1
    else if x0 == 0x47 then 2
    else if x0 == 0x52 then 3
    else if x0 == 0xFF then 4
    else if x0 == 0x89 then 5
    else if x0 == 0x4D then 7
    else if x0 == 0x42 then 8
    else if x0 == 0x50 then 9
    else if x0 == 0x66 then 10
    else -1
  }

  lemma EntryOfBytes(k: nat)
    requires k < |SignatureBytes|
    ensures |SignatureBytes[k]| >= 2 && EntryOf(SignatureBytes[k][0], SignatureBytes[k][1]) == k
  {
  }

  /** No two entries' bytes start the same buffer: the first two bytes already
      tell them apart. */
  lemma SignaturesExclusive(u8: seq<Byte>, i: nat, j: nat)
    requires i < |SignatureBytes| && j < |SignatureBytes|
    requires StartsWith(u8, SignatureBytes[i]) && StartsWith(u8, SignatureBytes[j])
    ensures i == j
  {
    MatchHead(u8, i);
    MatchHead(u8, j);
  }

  /** The first two bytes of a buffer name the entry that can match it. */
  lemma MatchHead(u8: seq<Byte>, k: nat)
    requires k < |SignatureBytes| && StartsWith(u8, SignatureBytes[k])
    ensures |u8| >= 2 && EntryOf(u8[0], u8[1]) == k
  {
    EntryOfBytes(k);
    assert u8[..|SignatureBytes[k]|][0] == u8[0] && u8[..|SignatureBytes[k]|][1] == u8[1];
  }

  /** A buffer whose first two bytes name no entry matches none. */
  lemma NoSignature(u8: seq<Byte>)
    requires |u8| >= 2 && EntryOf(u8[0], u8[1]) == -1
    ensures forall k :: 0 <= k < |SignatureBytes| ==> !StartsWith(u8, SignatureBytes[k])
  {
    forall k | 0 <= k < |SignatureBytes| ensures !StartsWith(u8, SignatureBytes[k]) {
      if StartsWith(u8, SignatureBytes[k]) {
        MatchHead(u8, k);
      }
    }
  }

  /** The loop returns the entry `k` that matches when no other entry does. */
  lemma {:induction false} FirstMatchFinds(hex: string, i: nat, k: nat)
    requires i <= k < |MimeSignatures| && StartsWith(hex, MimeSignatures[k].key)
    requires forall j :: i <= j < |MimeSignatures| && j != k ==> !StartsWith(hex, MimeSignatures[j].key)
    ensures FirstMatch(hex, i) == Some(MimeSignatures[k].file)
    decreases k - i
  {
    if i < k {
      FirstMatchFinds(hex, i + 1, k);
    }
  }

  /** The loop returns nothing when no entry matches. */
  lemma {:induction false} FirstMatchNone(hex: string, i: nat)
    requires i <= |MimeSignatures|
    requires forall j :: i <= j < |MimeSignatures| ==> !StartsWith(hex, MimeSignatures[j].key)
    ensures FirstMatch(hex, i).None?
    decreases |MimeSignatures| - i
  {
    if i < |MimeSignatures| {
      FirstMatchNone(hex, i + 1);
    }
  }

  /** Whatever its place in the table, the entry whose bytes start the buffer
      decides the file type, ahead of the text test. */
  lemma MimeSignatureWins(u8: seq<Byte>, k: nat)
    requires k < |SignatureBytes| && StartsWith(u8, SignatureBytes[k])
    ensures DetectMimeTypeAndExtension(u8) == MimeSignatures[k].file
  {
    var hex := HexHead(u8);
    KeyMatchIff(u8, k);
    forall j | 0 <= j < |MimeSignatures| && j != k
      ensures !StartsWith(hex, MimeSignatures[j].key)
    {
      KeyMatchIff(u8, j);
      if StartsWith(u8, SignatureBytes[j]) {
        SignaturesExclusive(u8, j, k);
      }
    }
    FirstMatchFinds(hex, 0, k);
  }

  /** Without a signature the result is `text/plain` exactly when the first
      1024 bytes are well-formed UTF-8, and `application/octet-stream`
      otherwise; the repeated ZIP test never decides. */
  lemma MimeFallback(u8: seq<Byte>)
    requires forall k :: 0 <= k < |SignatureBytes| ==> !StartsWith(u8, SignatureBytes[k])
    ensures DetectMimeTypeAndExtension(u8) ==
      if Utf8.Decode(Take(u8, 1024)).Some? then TextPlain else OctetStream
  {
    var hex := HexHead(u8);
    forall j | 0 <= j < |MimeSignatures|
      ensures !StartsWith(hex, MimeSignatures[j].key)
    {
      KeyMatchIff(u8, j);
    }
    FirstMatchNone(hex, 0);
    assert MimeSignatures[9].key == "504B0304";
  }

  /** The empty buffer is plain text. */
  lemma EmptyIsText()
    ensures DetectMimeTypeAndExtension([]) == TextPlain
  {
    forall k | 0 <= k < |SignatureBytes| ensures !StartsWith([], SignatureBytes[k]) {
      EntryOfBytes(k);
    }
    MimeFallback([]);
  }

  /** A RIFF header alone is enough for `image/webp` here, while
      `detectImageType` also wants `WEBP` at offset 8: a RIFF WAVE file is
      saved as WebP yet gets no image preview. */
  lemma RiffIsWebp(rest: seq<Byte>)
    ensures DetectMimeTypeAndExtension([0x52, 0x49, 0x46, 0x46] + rest) == FileType("image/webp", "webp")
    ensures DetectImageType([0x52, 0x49, 0x46, 0x46, 0, 0, 0, 0, 0x57, 0x41, 0x56, 0x45] + rest).None?
  {
    var riff: seq<Byte> := [0x52, 0x49, 0x46, 0x46];
    assert (riff + rest)[..4] == riff;
    MimeSignatureWins(riff + rest, 3);
    var wave := [0x52, 0x49, 0x46, 0x46, 0, 0, 0, 0, 0x57, 0x41, 0x56, 0x45] + rest;
    assert wave[..4] == riff;
    assert wave[9] == 0x41;
    RiffWithoutWebp(wave);
  }

  /** An Exif JPEG (`FF D8 FF E1`) is an image to `detectImageType` but, since
      the table wants `FF D8 FF E0` and `FF` is no UTF-8 lead byte, an opaque
      binary to `detectMimeTypeAndExtension`. */
  lemma ExifJpeg(rest: seq<Byte>)
    ensures DetectImageType([0xFF, 0xD8, 0xFF, 0xE1] + rest) == Some(Jpeg)
    ensures DetectMimeTypeAndExtension([0xFF, 0xD8, 0xFF, 0xE1] + rest) == OctetStream
  {
    var b := [0xFF, 0xD8, 0xFF, 0xE1] + rest;
    assert b[..3] == [0xFF, 0xD8, 0xFF];
    ImageTypeIff(b, Jpeg);
    forall k | 0 <= k < |SignatureBytes| ensures !StartsWith(b, SignatureBytes[k]) {
      EntryOfBytes(k);
    }
    MimeFallback(b);
    assert Take(b, 1024)[0] == 0xFF;
  }

  /** A signature beats the text test: a buffer starting with `BM` is a
      bitmap even when all of it is ASCII text. */
  lemma BitmapBeatsText(rest: seq<Byte>)
    ensures DetectMimeTypeAndExtension([0x42, 0x4D] + rest) == FileType("image/bmp", "bmp")
  {
    assert ([0x42, 0x4D] + rest)[..2] == [0x42, 0x4D];
    MimeSignatureWins([0x42, 0x4D] + rest, 8);
  }

  // ---------------------------------------------------------------------
  // The 1024-byte sample.

  /** Up to the `é`, each character takes one byte. */
  lemma SplitLayout(text: string)
    requires |text| == 1023 && forall i :: 0 <= i < |text| ==> text[i] == 'a'
    ensures var head := Utf8.Encode(text);
      |head| == 1023 && head[0] == 0x61 && Utf8.Encode(text + "é") == head + [0xC3, 0xA9]
  {
    var head := Utf8.Encode(text);
    assert |head| == 1023 by {
      Utf8.EncodedSizeVsUtf16(text);
      Utf16LengthBmp(text);
    }
    assert head == Utf8.EncodeChar('a') + Utf8.Encode(text[1..]);
    Utf8.EncodeConcat(text, "é");
    assert Utf8.Encode("é") == Utf8.EncodeChar('é') + Utf8.Encode([]);
  }

  /** As written, the sample of the first 1024 bytes can end inside a
      character: 1023 letters `a` and an `é`, well-formed UTF-8 without a
      signature, are saved as `application/octet-stream`, since the `é` takes
      the bytes 1023 and 1024 and the sample keeps only its lead byte. */
  lemma SplitCharacterIsBinary(text: string)
    requires |text| == 1023 && forall i :: 0 <= i < |text| ==> text[i] == 'a'
    ensures Utf8.Decode(Utf8.Encode(text + "é")) == Some(text + "é")
    ensures forall k :: 0 <= k < |SignatureBytes| ==> !StartsWith(Utf8.Encode(text + "é"), SignatureBytes[k])
    ensures DetectMimeTypeAndExtension(Utf8.Encode(text + "é")) == OctetStream
  {
    var u8 := Utf8.Encode(text + "é");
    SplitLayout(text);
    Utf8.DecodeEncode(text + "é");
    NoSignature(u8);
    MimeFallback(u8);
    SampleCutsCharacter(text);
  }

  /** The sample of the first 1024 bytes ends in the lone lead byte `C3`. */
  lemma SampleCutsCharacter(text: string)
    requires |text| == 1023 && forall i :: 0 <= i < |text| ==> text[i] == 'a'
    ensures Utf8.Decode(Take(Utf8.Encode(text + "é"), 1024)).None?
  {
    var head := Utf8.Encode(text);
    SplitLayout(text);
    assert Take(Utf8.Encode(text + "é"), 1024) == head + [0xC3];
    Utf8.DecodeEncodeAppend(text, [0xC3]);
  }

  /** The largest cut at or below `n` that does not fall before a continuation
      byte, that is, inside a character. */
  function CharBoundary(u8: seq<Byte>, n: nat): (m: nat)
    requires n <= |u8|
    ensures m <= n
    ensures m == 0 || m == |u8| || !Utf8.IsContinuation(u8[m])
  {
    if n == 0 || n == |u8| || !Utf8.IsContinuation(u8[n]) then n else CharBoundary(u8, n - 1)
  }

  /** The first 1024 bytes, less the start of a character they cut. */
  function TextSample(u8: seq<Byte>): seq<Byte> {
    u8[..CharBoundary(u8, if |u8| < 1024 then |u8| else 1024)]
  }

  /** `detectMimeTypeAndExtension` with the sample cut at a character
      boundary. */
  function DetectMimeTypeAndExtensionFixed(u8: seq<Byte>): FileType {
    var hex := HexHead(u8);
    match FirstMatch(hex, 0)
    case Some(file) => file
    case None =>
      if StartsWith(hex, "504B0304") then Zip
      else if Utf8.DecodeFatal(TextSample(u8)).Some? then TextPlain
      else OctetStream
  }

  /** The corrected sample of well-formed UTF-8 is well-formed UTF-8. */
  lemma SampleDecodes(u8: seq<Byte>)
    requires Utf8.Decode(u8).Some?
    ensures Utf8.Decode(TextSample(u8)).Some?
  {
    var s := Utf8.Decode(u8).value;
    Utf8.EncodeDecode(u8);
    var m := CharBoundary(u8, if |u8| < 1024 then |u8| else 1024);
    if m == 0 {
      assert TextSample(u8) == [];
    } else {
      Utf8.DecodeCutAtBoundary(s, m);
    }
  }

  /** Without a signature the corrected sniffer falls back on its sample. */
  lemma FixedFallback(u8: seq<Byte>)
    requires forall k :: 0 <= k < |SignatureBytes| ==> !StartsWith(u8, SignatureBytes[k])
    ensures DetectMimeTypeAndExtensionFixed(u8) ==
      if Utf8.Decode(TextSample(u8)).Some? then TextPlain else OctetStream
  {
    var hex := HexHead(u8);
    forall j | 0 <= j < |MimeSignatures|
      ensures !StartsWith(hex, MimeSignatures[j].key)
    {
      KeyMatchIff(u8, j);
    }
    FirstMatchNone(hex, 0);
    assert MimeSignatures[9].key == "504B0304";
  }

  /** With the corrected sample, well-formed UTF-8 without a signature is
      always plain text. */
  lemma FixedValidTextIsText(u8: seq<Byte>)
    requires Utf8.Decode(u8).Some?
    requires forall k :: 0 <= k < |SignatureBytes| ==> !StartsWith(u8, SignatureBytes[k])
    ensures DetectMimeTypeAndExtensionFixed(u8) == TextPlain
  {
    FixedFallback(u8);
    SampleDecodes(u8);
  }

  /** Up to 1024 bytes nothing is cut, and the corrected sniffer agrees with
      the original. */
  lemma FixedAgreesOnShort(u8: seq<Byte>)
    requires |u8| <= 1024
    ensures DetectMimeTypeAndExtensionFixed(u8) == DetectMimeTypeAndExtension(u8)
  {
    assert TextSample(u8) == u8 == Take(u8, 1024);
  }
}
