/**
  The figures of the analysis panel (`updateAnalysis` of
  `AdvancedBase64Tool`): length, byte size, input label, character set and
  line breaks of a text.
*/
module Analysis {
  import opened Common
  import opened JsText
  import Utf8
  import Classifier

  datatype Charset = Ascii | Utf8Text

  /** The five fields of the panel; `None` is the `N/A` the panel shows for an
      empty text. */
  datatype Report = Report(
    length: nat,
    size: nat,
    encoding: Option<Classifier.InputEncoding>,
    charset: Option<Charset>,
    lineBreaks: nat)

  /** `(s.match(/c/g) || []).length` for a single character `c`. */
  function Count(s: string, c: char): (n: nat)
    ensures n <= |s|
  {
    if s == [] then 0 else Count(s[..|s| - 1], c) + (if s[|s| - 1] == c then 1 else 0)
  }

  /** `/[^\x00-\x7F]/.test(text)`. */
  predicate HasNonAscii(text: string) {
    exists i :: 0 <= i < |text| && text[i] as int > 0x7F
  }

  /** `updateAnalysis(text)`: the label is computed from the input field's
      value, which the caller passes as `inputValue`. */
  function UpdateAnalysis(text: string, inputValue: string): Report {
    if text == "" then Report(0, 0, None, None, 0)
    else Report(
      Utf16Length(text),
      |Utf8.Encode(text)|,
      Some(Classifier.DetectInputEncoding(inputValue)),
      Some(if HasNonAscii(text) then Utf8Text else Ascii),
      Count(text, '\n'))
  }

  /** The positions of `c` in `s`. */
  function Positions(s: string, c: char): set<nat> {
    set i: nat | i < |s| && s[i] == c
  }

  /** Counting a character counts the positions it occupies. */
  lemma {:induction false} CountPositions(s: string, c: char)
    ensures Count(s, c) == |Positions(s, c)|
  {
    if s != [] {
      var n := |s| - 1;
      var t := s[..n];
      CountPositions(t, c);
      if s[n] == c {
        assert Positions(s, c) == Positions(t, c) + {n};
        assert n !in Positions(t, c);
      } else {
        assert Positions(s, c) == Positions(t, c);
      }
    }
  }

  /** Length counts UTF-16 code units and size UTF-8 bytes; a text is never
      smaller in bytes than in units nor more than three times larger, and the
      two agree exactly for ASCII text. The empty text reports 0 and 0. */
  lemma AnalysisSizes(text: string, inputValue: string)
    ensures var r := UpdateAnalysis(text, inputValue);
      && r.length == |CodeUnits(text)|
      && r.length <= r.size <= 3 * r.length
      && (r.size == r.length <==> forall i :: 0 <= i < |text| ==> text[i] as int <= 0x7F)
  {
    CodeUnitsLength(text);
    Utf8.EncodedSizeVsUtf16(text);
    Utf8.EncodedSizeAtMost(text);
  }

  /** The character set is `N/A` exactly for the empty text and `ASCII` exactly
      for a non-empty text without a character above 0x7F; the label is `N/A`
      exactly for the empty text and is never `Binary`; line breaks count the
      positions of `\n`. */
  lemma AnalysisLabels(text: string, inputValue: string)
    ensures var r := UpdateAnalysis(text, inputValue);
      && (r.charset.None? <==> text == "")
      && (r.charset == Some(Ascii) <==> text != "" && forall i :: 0 <= i < |text| ==> text[i] as int <= 0x7F)
      && (r.encoding.None? <==> text == "")
      && r.encoding != Some(Classifier.BinaryText)
      && r.lineBreaks == |Positions(text, '\n')|
  {
    Classifier.NeverBinary(inputValue);
    if text != "" {
      CountPositions(text, '\n');
    }
  }
}
