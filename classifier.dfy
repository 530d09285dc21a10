/**
  The decisions of the text tab: the Encode and Decode buttons (`encodeText`,
  `decodeText`), live auto-detection (`autoDetectAndConvert`), and the label
  the analysis panel gives the input (`detectInputEncoding`).
*/
module Classifier {
  import opened Common
  import opened JsText
  import Utf8
  import Codec

  /** The error messages the buttons can show. */
  datatype Message = EmptyEncodeInput | EmptyDecodeInput | InvalidBase64 | DecodingFailed

  /** What a button press or an input event does to the output field. */
  datatype Outcome =
    | Unchanged              // auto-detection is switched off
    | Cleared                // the output field is emptied
    | Encoded(text: string)  // the output is the encoding of the input
    | Decoded(text: string)  // the output is the decoded input
    | Error(message: Message)

  /** `encodeText`: the raw input, refused only when empty. */
  function EncodeText(raw: string, format: Codec.Format): (r: Outcome)
    ensures r.Error? <==> raw == ""
  {
    if raw == "" then Error(EmptyEncodeInput)
    else Encoded(Codec.EncodeWithFormat(raw, format))
  }

  /** `decodeText`: the trimmed input, checked with `isValidBase64`, then
      decoded; an exception from the decoder becomes an error message. */
  function DecodeText(raw: string, format: Codec.Format, inflate: Codec.Inflate): (r: Outcome)
    ensures r.Decoded? || r.Error?
  {
    var input := Trim(raw);
    if input == "" then Error(EmptyDecodeInput)
    else if !Codec.IsValidBase64(input, format) then Error(InvalidBase64)
    else match Codec.Decoded(input, format, inflate)
      case None => Error(DecodingFailed)
      case Some(text) => Decoded(text)
  }

  /** `autoDetectAndConvert`: nothing when switched off, clear the output for
      blank input, else decode what passes `isValidBase64` and encode the rest. */
  function AutoDetect(autoDetect: bool, raw: string, format: Codec.Format, inflate: Codec.Inflate): Outcome {
    if !autoDetect then Unchanged
    else
      var input := Trim(raw);
      if input == "" then Cleared
      else if Codec.IsValidBase64(input, format) then DecodeText(raw, format, inflate)
      else EncodeText(raw, format)
  }

  /** The labels of `detectInputEncoding`. */
  datatype InputEncoding = Base64Text | UrlSafeBase64Text | HexText | BinaryText | PlainText

  predicate IsHexOrSpace(c: char) {
    ('0' <= c <= '9') || ('a' <= c <= 'f') || ('A' <= c <= 'F') || IsJsWhitespace(c)
  }

  predicate IsBitOrSpace(c: char) {
    c == '0' || c == '1' || IsJsWhitespace(c)
  }

  /** `/^[0-9a-fA-F\s]+$/`; the second test of the source, that no other
      character occurs, says the same. */
  predicate MatchesHex(text: string) {
    text != "" && forall i :: 0 <= i < |text| ==> IsHexOrSpace(text[i])
  }

  /** `/^[01\s]+$/`, likewise. */
  predicate MatchesBinary(text: string) {
    text != "" && forall i :: 0 <= i < |text| ==> IsBitOrSpace(text[i])
  }

  /** `detectInputEncoding`: the first label whose test passes. */
  function DetectInputEncoding(text: string): InputEncoding {
    if Codec.IsValidBase64(text, Codec.Standard) then Base64Text
    else if Codec.IsValidBase64(text, Codec.UrlSafe) then UrlSafeBase64Text
    else if MatchesHex(text) then HexText
    else if MatchesBinary(text) then BinaryText
    else PlainText
  }

  // ---------------------------------------------------------------------
  // Decisions.

  /** The check `decodeText` makes is the one `autoDetectAndConvert` made, on
      the same trimmed text. */
  lemma ValidTrimmed(raw: string, format: Codec.Format)
    ensures Codec.IsValidBase64(Trim(raw), format) == Codec.IsValidBase64(raw, format)
  {
    TrimIdempotent(raw);
  }

  /** Input that passes `isValidBase64` never makes the decoder throw. */
  lemma ValidDecodes(raw: string, format: Codec.Format, inflate: Codec.Inflate)
    requires Codec.IsValidBase64(Trim(raw), format)
    ensures Codec.Decoded(Trim(raw), format, inflate).Some?
  {
    var t := Trim(raw);
    TrimIdempotent(raw);
    assert Codec.Decodes(Trim(t), format);
    Codec.DecodesIff(t, format, inflate);
  }

  /** `decodeText` shows an error exactly when the trimmed input is blank or
      fails `isValidBase64`; the "Decoding failed" message never appears. */
  lemma DecodeTextErrors(raw: string, format: Codec.Format, inflate: Codec.Inflate)
    ensures DecodeText(raw, format, inflate).Error? <==>
      Trim(raw) == "" || !Codec.IsValidBase64(raw, format)
    ensures DecodeText(raw, format, inflate) != Error(DecodingFailed)
  {
    ValidTrimmed(raw, format);
    if Trim(raw) != "" && Codec.IsValidBase64(raw, format) {
      ValidDecodes(raw, format, inflate);
    }
  }

  /** Auto-detection never shows an error. When it is on, blank input clears
      the output, input passing `isValidBase64` is decoded, and anything else
      is encoded. */
  lemma AutoDetectDecision(autoDetect: bool, raw: string, format: Codec.Format, inflate: Codec.Inflate)
    ensures var r := AutoDetect(autoDetect, raw, format, inflate);
      && !r.Error?
      && (r.Unchanged? <==> !autoDetect)
      && (r.Cleared? <==> autoDetect && Trim(raw) == "")
      && (r.Decoded? <==> autoDetect && Trim(raw) != "" && Codec.IsValidBase64(raw, format))
      && (r.Encoded? <==> autoDetect && Trim(raw) != "" && !Codec.IsValidBase64(raw, format))
  {
    ValidTrimmed(raw, format);
    if autoDetect && Trim(raw) != "" {
      assert raw != "";
      DecodeTextErrors(raw, format, inflate);
    }
  }

  /** Encoding any non-empty text and feeding the result back in is
      recognised as Base64 of the same dialect and decoded to the text (less a
      leading byte order mark), when gzip does not step in. */
  lemma EncodedIsDecoded(text: string, format: Codec.Format, inflate: Codec.Inflate)
    requires text != ""
    requires inflate.None? || inflate.value(Utf8.Encode(text)).None?
    ensures EncodeText(text, format) == Encoded(Codec.EncodeWithFormat(text, format))
    ensures AutoDetect(true, Codec.EncodeWithFormat(text, format), format, inflate) == Decoded(Utf8.StripBom(text))
    ensures DecodeText(Codec.EncodeWithFormat(text, format), format, inflate) == Decoded(Utf8.StripBom(text))
  {
    var e := Codec.EncodeWithFormat(text, format);
    Codec.EncodedIsValid(text, format);
    Codec.EncodeEmptyIff(text, format);
    Codec.DecodeEncode(text, format, inflate);
    assert Trim(e) == e != "";
  }

  // ---------------------------------------------------------------------
  // Labels.

  /** Every string of bits and whitespace is also one of hex digits and
      whitespace, so the `Binary` label is never given. */
  lemma NeverBinary(text: string)
    ensures DetectInputEncoding(text) != BinaryText
  {
    if MatchesBinary(text) {
      assert MatchesHex(text) by {
        forall i | 0 <= i < |text| ensures IsHexOrSpace(text[i]) {
          assert IsBitOrSpace(text[i]);
        }
      }
    }
  }

  /** The standard encoding of a non-empty text is labelled Base64. Its
      URL-safe encoding is labelled Base64 when it holds neither `-` nor `_`
      and its length is a multiple of four, and URL-Safe Base64 otherwise. */
  lemma EncodedLabels(text: string)
    requires text != ""
    ensures DetectInputEncoding(Codec.EncodeWithFormat(text, Codec.Standard)) == Base64Text
    ensures DetectInputEncoding(Codec.EncodeWithFormat(text, Codec.UrlSafe)) in {Base64Text, UrlSafeBase64Text}
    ensures var e := Codec.EncodeWithFormat(text, Codec.UrlSafe);
      DetectInputEncoding(e) == Base64Text <==>
        (forall i :: 0 <= i < |e| ==> e[i] != '-' && e[i] != '_') && |e| % 4 == 0
  {
    Codec.EncodedIsValid(text, Codec.Standard);
    Codec.EncodedIsValid(text, Codec.UrlSafe);
    Codec.UrlSafeOutputIsStandard(text);
  }
}
