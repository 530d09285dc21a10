# Base64 Lab core, in Dafny

This project models the text-handling core of `AdvancedBase64Tool`, the one
class behind the Base64 Lab web page (`script.js`). It covers:

- the three Base64 dialects. Standard output is RFC 4648 `btoa` of the
  UTF-8 bytes. URL-safe output uses the alphabet of section 5 of RFC 4648
  and drops the padding. MIME output is wrapped at 76 characters a line.
- decoding with optional gzip inflation, then strict UTF-8 with a
  windows-1252 fallback;
- the validator `isValidBase64`, the Encode and Decode buttons, and live
  auto-detection;
- the input-encoding label;
- the hex, binary and `\uXXXX` views and the analysis panel;
- two byte-signature sniffers: one picks an image preview and one names a
  decoded download.

Modules follow the program's layers:

| module | file | models |
|---|---|---|
| `Common` | `common.dfy` | `Option`, bytes, and prefix and slice helpers |
| `JsText` | `jstext.dfy` | the JavaScript string built-ins the class uses: `\s`, `trim`, `replace`, `join`, `toString(radix)`, `padStart` and UTF-16 length |
| `Utf8` | `utf8.dfy` | `TextEncoder`, fatal `TextDecoder` (which strips a byte order mark), and the windows-1252 table behind the `latin1` label |
| `Base64` | `base64.dfy` | `btoa`, and `atob` as the WHATWG forgiving-base64 decode |
| `Codec` | `codec.dfy` | `encodeWithFormat`, `decodeWithFormat` (a method with its loops, proved against a function), `isValidBase64` |
| `Classifier` | `classifier.dfy` | `encodeText`, `decodeText`, `autoDetectAndConvert`, `detectInputEncoding` |
| `Views` | `views.dfy` | `textToHex`, `textToBinary`, `textToUtf16` |
| `Analysis` | `analysis.dfy` | `updateAnalysis` |
| `Sniffer` | `sniffer.dfy` | `detectImageType`, `detectMimeTypeAndExtension` |

The model makes these choices:

- A `char` is a Unicode scalar value. JavaScript lengths, which count UTF-16
  code units, are computed explicitly with `JsText.Utf16Length`.
- An exception, or a JavaScript `null`, is `None`.
- The `pako` library is a parameter `Inflate`. It is `None` when the gzip box
  is unticked or the library is missing. An inflater that throws returns
  `None`.
- `detectMimeTypeAndExtension` walks its table with `for...in`. For that
  loop, JavaScript visits keys that look like array indices first, in
  ascending order. The model lists the table in that visiting order, and
  proves the order irrelevant.

Two behaviours a reader may not expect; the model follows the code:

- The analysis "length" counts UTF-16 code units.
- The `\u` view of an astral character shows only its high surrogate.

## Model

| member | source | states |
|---|---|---|
| Codec.EncodeEmptyIff | script.js:543-559 | the encoding in every dialect is empty exactly when the input is empty |
| Codec.StandardShape | script.js:543-559 | standard output is the RFC 4648 symbols of the UTF-8 bytes followed by 0-2 `=`. Its length is 4·⌈n/3⌉ for n bytes, and it matches the standard pattern |
| Codec.UrlSafeShape | script.js:549-553 | URL-safe output is the unpadded encoding with `+`→`-` and `/`→`_`. Its length is never 1 mod 4, and it matches `^[A-Za-z0-9_-]*$` |
| Codec.MimeShape | script.js:554-555 | MIME output is empty exactly when the standard text is empty, and removing its whitespace gives the standard text back |
| Codec.ChunkLines | script.js:555 | `match(/.{1,76}/g)` cuts the text into lines of exactly 76 characters plus a last line of 1-76, and joining them gives the text back |
| Codec.MimeLength | script.js:555 | a MIME text of n symbols is n + ⌊(n−1)/76⌋ characters long |
| Codec.MimeChar | script.js:555 | every 77th character of MIME output is a line feed, and every other character is the corresponding standard symbol |
| Codec.PadToQuantum | script.js:565-567 | the `while` loop appends exactly the `=` characters the UTF-16 length lacks to reach a multiple of four |
| Codec.PadMore | script.js:565-567 | each pass of the padding loop keeps its invariant, and at most three passes happen |
| Codec.CharCodes | script.js:573-576 | the `for` loop copies each character code of the `atob` result into a new byte array of the same length |
| Codec.DecodeWithFormat | script.js:561-595 | the method (cleaning, `atob`, byte copy, inflate attempt, strict UTF-8, then windows-1252) returns exactly `Codec.Decoded` |
| Codec.DecodeEncode | script.js:543-595 | decoding the encoding of any text in any dialect gives the text back, less a leading byte order mark, unless gzip inflation steps in |
| Codec.StandardValidIff | script.js:614-640 | standard input is valid exactly when the trimmed text matches `^[A-Za-z0-9+/]*={0,2}$` and its length is a multiple of four |
| Codec.UrlSafeValidIff | script.js:614-640 | URL-safe input is valid exactly when the trimmed text matches `^[A-Za-z0-9_-]*$` and its length is not 1 mod 4 |
| Codec.PaddedQuantaDecodes | script.js:561-595 | on alphabet characters and `=`, the `atob` inside `decodeWithFormat` succeeds exactly when the text is alphabet characters then at most two `=`, filling whole quanta when padded and leaving no lone character when not |
| Codec.MimeValidIff | script.js:614-640 | MIME input is valid exactly when the trimmed text matches `^[A-Za-z0-9+/=\s]*$` and, with its whitespace removed, is alphabet characters then at most two `=` that fill whole quanta, or unpadded with no lone last character |
| Codec.MimeAcceptsUnpadded | script.js:623-640 | `QQ` passes the MIME check without padding |
| Codec.MimeRejectsShortPadding | script.js:623-640 | `QQ=` fails the MIME check although the loose pattern accepts it |
| Codec.MimeRejectsInnerPadding | script.js:623-640 | `QQ==QQ==` fails the MIME check: padding may only end the text |
| Codec.MimeRejectsTriplePadding | script.js:623-640 | `Q===` fails the MIME check: three `=` are too many |
| Codec.EncodedIsValid | script.js:543-559 | the encoding of non-empty text in any dialect is already trimmed, and it passes `isValidBase64` for that dialect |
| Codec.StandardExample | script.js:543-595 | "A" encodes to "QQ==", which decodes back to "A" |
| Codec.StandardPadding | script.js:628-629 | two symbols pass as standard Base64 only with both `=` |
| Codec.UrlSafeShortInputs | script.js:620-635 | a one-symbol URL-safe input is invalid and a two-symbol one is valid |
| Base64.EncodeLength | script.js:546 | `btoa` of n bytes has 4·⌈n/3⌉ characters and (3 − n mod 3) mod 3 padding characters |
| Base64.EncodeShape | script.js:546 | `btoa` output is alphabet symbols followed by its padding only |
| Base64.DecodeEncode | script.js:546 | `atob(btoa(bytes))` gives the bytes back |
| Base64.DecodeIgnoresWhitespace | script.js:572 | ASCII whitespace before or after the data does not change what `atob` decodes |
| Base64.DecodeSymbolsLength | script.js:572 | decoding k symbols (k mod 4 ≠ 1) gives 3·⌊k/4⌋ bytes plus one byte fewer than the remaining symbols |
| Utf8.DecodeEncode | script.js:544 | strict UTF-8 decoding of the `TextEncoder` output gives the text back |
| Utf8.EncodeDecode | script.js:590 | whatever strict decoding accepts is exactly the encoding of what it returns |
| Utf8.DecodeFatalEncode | script.js:590 | the fatal `TextDecoder` returns the encoded text less a leading byte order mark |
| Utf8.DecodeCutAtBoundary | script.js:1041 | cutting a UTF-8 text anywhere except before a continuation byte leaves well-formed UTF-8 |
| Utf8.Windows1252Injective | script.js:593 | the windows-1252 fallback maps distinct bytes to distinct characters |
| Utf8.EncodedSizeVsUtf16 | script.js:692-697 | the UTF-8 size is at least the UTF-16 length, with equality exactly for ASCII text |
| Utf8.EncodedSizeAtMost | script.js:692-697 | the UTF-8 size is at most three times the UTF-16 length |
| JsText.TrimIdempotent | script.js:519 | trimming twice trims once |
| JsText.PaddedRadixIsFixed | script.js:666 | `toString(radix).padStart(w, '0')` of a value below radix^w is its w lowest digits |
| JsText.FieldsOfJoin | script.js:667 | splitting a `join` of equal-width fields by that width gives the fields back |
| JsText.CodeUnitsLength | script.js:696 | the code units of a text number its UTF-16 length |
| Classifier.EncodeText | script.js:497-515 | the Encode button shows an error exactly when the input is empty |
| Classifier.DecodeTextErrors | script.js:517-541 | the Decode button shows an error exactly when the trimmed input is empty or invalid, and never "Decoding failed" |
| Classifier.ValidDecodes | script.js:525-530 | input passing `isValidBase64` never makes the decoder throw |
| Classifier.AutoDetectDecision | script.js:597-612 | auto-detection never errs. It does nothing when off, clears the output on blank input, decodes exactly the valid input and encodes the rest |
| Classifier.EncodedIsDecoded | script.js:497-612 | auto-detection and the Decode button turn the encoding of non-empty text back into the text, less a leading byte order mark |
| Classifier.NeverBinary | script.js:833-839 | the "Binary" label is never given, because every binary string already passes the hex test |
| Codec.UrlSafeOutputIsStandard | script.js:614-640 | the URL-safe encoding of non-empty text passes the standard check exactly when it holds no `-` or `_` and its length is a multiple of four |
| Classifier.EncodedLabels | script.js:833-839 | the standard encoding of non-empty text is labelled "Base64"; its URL-safe encoding is labelled "Base64" exactly when it holds no `-` or `_` and its length is a multiple of four, and "URL-Safe Base64" otherwise |
| Views.HexLength | script.js:664-668 | the hex view of n UTF-8 bytes is 3n − 1 characters long, and it is empty exactly for empty text |
| Views.HexAlphabet | script.js:664-668 | the hex view holds only lower-case hex digits and spaces |
| Views.HexRoundTrip | script.js:664-668 | reading the hex view back field by field gives the UTF-8 bytes |
| Views.HexInjective | script.js:664-668 | distinct texts have distinct hex views |
| Views.BinaryLength | script.js:670-674 | the binary view of n bytes is 9n − 1 characters long |
| Views.BinaryAlphabet | script.js:670-674 | the binary view holds only `0`, `1` and spaces |
| Views.BinaryRoundTrip | script.js:670-674 | reading the binary view back gives the UTF-8 bytes |
| Views.BinaryInjective | script.js:670-674 | distinct texts have distinct binary views |
| Views.Utf16View | script.js:676-680 | the `\u` view has six characters per code point. It reads back as the character for BMP characters and as a high surrogate for astral ones |
| Views.Utf16ViewCollides | script.js:676-680 | two different emoji have the same `\u` view |
| Views.Utf16UnitsRoundTrip | script.js:676-680 | the corrected view has six characters per UTF-16 unit, and decoding its units gives the text back |
| Analysis.AnalysisSizes | script.js:692-697 | the length is the UTF-16 length, and length ≤ size ≤ 3·length. Size equals length exactly for ASCII text |
| Analysis.AnalysisLabels | script.js:682-701 | empty text shows the N/A labels. The charset is ASCII exactly for non-empty ASCII text, the label is never "Binary", and the line-break count is the number of `\n` positions |
| Analysis.CountPositions | script.js:693 | counting `\n` counts the positions that hold one |
| Sniffer.ImageTypeIff | script.js:738-769 | `detectImageType` names a type exactly when the bytes show that type, and returns `null` exactly when they show none |
| Sniffer.ShowsExclusive | script.js:740-747 | no buffer shows two image types, so the table order does not matter |
| Sniffer.ImageTypeNeedsLength | script.js:749-766 | a match needs the signature's length (twelve bytes for WebP), and fewer than two bytes never match |
| Sniffer.RiffWithoutWebp | script.js:752-756 | a RIFF header without `WEBP` at offset 8 is no image |
| Sniffer.HexPrefixIff | script.js:1026-1031 | a hex prefix test on upper-case hex strings is a prefix test on the bytes |
| Sniffer.KeysSpellBytes | script.js:1007-1024 | each table key is the upper-case hex of its signature bytes |
| Sniffer.KeyMatchIff | script.js:1026-1031 | a key starts the hex of the first four bytes exactly when its bytes start the buffer |
| Sniffer.SignaturesExclusive | script.js:1007-1024 | no two signatures match the same buffer, so the visiting order of the keys is irrelevant |
| Sniffer.MimeSignatureWins | script.js:1030-1034 | the matching signature decides the type whatever its table position, ahead of the text test |
| Sniffer.MimeFallback | script.js:1036-1047 | with no signature, the result is text/plain exactly when the first 1024 bytes are strict UTF-8, else application/octet-stream. The repeated ZIP test never decides |
| Sniffer.EmptyIsText | script.js:1040-1042 | an empty buffer is text/plain |
| Sniffer.RiffIsWebp | script.js:1012 | any RIFF header is saved as webp, while a RIFF WAVE header gets no image preview |
| Sniffer.ExifJpeg | script.js:1009 | an Exif JPEG (FF D8 FF E1) is an image to `detectImageType` but application/octet-stream here |
| Sniffer.BitmapBeatsText | script.js:1015 | a buffer starting with `BM` is a bitmap even when it is all text |
| Sniffer.SplitCharacterIsBinary | script.js:1040-1047 | valid UTF-8 text of 1023 letters and an `é` is saved as application/octet-stream |
| Sniffer.FixedValidTextIsText | script.js:1040-1047 | with the sample cut at a character boundary, valid UTF-8 without a signature is always text/plain |
| Sniffer.FixedAgreesOnShort | script.js:1040-1047 | up to 1024 bytes, the corrected sniffer gives what the original gives |

## Left out

- The DOM, events, settings, notifications, history, the debounce timer and
  the image preview are out of scope. The model returns the value that ends
  up in an output field; it does not model writing to the field.
- File reading (`FileReader`, `processFile`), the download and the SHA-256
  digest are not modelled: they are I/O or a foreign call into the Web Crypto API.
- The `encodeURIComponent` wrappers of the URL tab are not modelled: they are
  a foreign built-in.
- Number formatting (`toLocaleString`, `toFixed`): the analysis report keeps
  the numbers.
- `pako.inflate` is a parameter. Nothing is assumed about what it returns.
- Lone surrogates in input text are not modelled: a Dafny `char` is a scalar value.
- The argument limit of `String.fromCharCode(...bytes)` on very large inputs
  is not modelled: the spread is treated as unbounded.
- Sniffer.UpperHex: `toUpperCase` is modelled on ASCII letters only, which are
  the only letters a hex numeral contains.
- Codec.PadToQuantum: the pass counter `k` is ghost. The source has no counter,
  and the counter only serves the termination proof.
- Codec.DecodeWithFormat: the gzip path is modelled by its result. The
  `console.log` of the catch branch is not modelled.
- Codec.DecodeEncode: the round trip is stated for the case where the inflater
  is off or rejects the bytes. An inflater that accepts plain UTF-8 may return
  anything.

## Findings

| source | as written | input that shows it | evidently intended | confidence | as-written member | corrected member |
|---|---|---|---|---|---|---|
| script.js:676-680 | `charCodeAt(0)` of each code point keeps only the high surrogate of an astral character | U+1F600 and U+1F601 both give `\ud83d` | one `\uXXXX` per UTF-16 unit, so the view identifies the text | high (proved; not executed) | Views.Utf16ViewCollides | Views.Utf16UnitsRoundTrip |
| script.js:1040-1047 | the first 1024 bytes are decoded strictly even when the cut falls inside a character | 1023 × `a` followed by `é` (bytes 1023-1024 are C3 A9) gives application/octet-stream | valid UTF-8 text without a signature is text/plain | high (proved; not executed) | Sniffer.SplitCharacterIsBinary | Sniffer.FixedValidTextIsText |
