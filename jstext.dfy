/**
  The JavaScript string built-ins the tool relies on, over Dafny strings.
  A Dafny `char` is a Unicode scalar value; where JavaScript counts UTF-16
  code units instead (`length`, `charCodeAt`) the count is written out here.
*/
module JsText {
  import opened Common

  /** The characters `\s` matches in a regular expression, which are also the
      ones `String.prototype.trim` removes: WhiteSpace and LineTerminator of
      ECMA-262 (sections 12.2 and 12.3). */
  predicate IsJsWhitespace(c: char) {
    var v := c as int;
    || (0x09 <= v <= 0x0D)   // tab, line feed, vertical tab, form feed, carriage return
    || v == 0x20 || v == 0xA0 || v == 0x1680
    || (0x2000 <= v <= 0x200A)
    || v == 0x2028 || v == 0x2029 || v == 0x202F || v == 0x205F
    || v == 0x3000 || v == 0xFEFF
  }

  predicate NotJsWhitespace(c: char) { !IsJsWhitespace(c) }

  /** ASCII whitespace as the WHATWG Infra standard defines it: tab, line feed,
      form feed, carriage return and space. */
  predicate IsAsciiWhitespace(c: char) {
    c == '\t' || c == '\n' || c as int == 0x0C || c == '\r' || c == ' '
  }

  predicate NotAsciiWhitespace(c: char) { !IsAsciiWhitespace(c) }

  lemma AsciiWhitespaceIsJsWhitespace(c: char)
    ensures IsAsciiWhitespace(c) ==> IsJsWhitespace(c)
  {
  }

  /** The characters of `s` that satisfy `keep`, in order (`replace(/[..]/g, '')`). */
  function Filter(s: string, keep: char -> bool): (r: string)
    ensures |r| <= |s|
    ensures forall i :: 0 <= i < |r| ==> keep(r[i])
  {
    if s == [] then [] else (if keep(s[0]) then [s[0]] else []) + Filter(s[1..], keep)
  }

  lemma {:induction false} FilterConcat(a: string, b: string, keep: char -> bool)
    ensures Filter(a + b, keep) == Filter(a, keep) + Filter(b, keep)
  {
    if a == [] {
      assert a + b == b;
    } else {
      assert (a + b)[1..] == a[1..] + b;
      FilterConcat(a[1..], b, keep);
    }
  }

  lemma {:induction false} FilterKeepsAll(s: string, keep: char -> bool)
    requires forall i :: 0 <= i < |s| ==> keep(s[i])
    ensures Filter(s, keep) == s
  {
    if s != [] {
      FilterKeepsAll(s[1..], keep);
    }
  }

  lemma {:induction false} FilterDropsAll(s: string, keep: char -> bool)
    requires forall i :: 0 <= i < |s| ==> !keep(s[i])
    ensures Filter(s, keep) == []
  {
    if s != [] {
      FilterDropsAll(s[1..], keep);
    }
  }

  /** `s.replace(/\s/g, '')`. */
  function RemoveJsWhitespace(s: string): (r: string) {
    Filter(s, NotJsWhitespace)
  }

  /** `s` with every `from` replaced by `to` (`replace(/x/g, 'y')` for one character). */
  function ReplaceChar(s: string, from: char, to: char): (r: string)
    ensures |r| == |s|
    ensures forall i :: 0 <= i < |s| ==> r[i] == (if s[i] == from then to else s[i])
  {
    if s == [] then [] else [if s[0] == from then to else s[0]] + ReplaceChar(s[1..], from, to)
  }

  /** The number of whitespace characters `s` starts with. */
  function LeadingSpace(s: string): (n: nat)
    ensures n <= |s|
    ensures forall i :: 0 <= i < n ==> IsJsWhitespace(s[i])
    ensures n < |s| ==> !IsJsWhitespace(s[n])
  {
    if s != [] && IsJsWhitespace(s[0]) then 1 + LeadingSpace(s[1..]) else 0
  }

  /** The number of whitespace characters `s` ends with. */
  function TrailingSpace(s: string): (n: nat)
    ensures n <= |s|
    ensures forall i :: |s| - n <= i < |s| ==> IsJsWhitespace(s[i])
    ensures n < |s| ==> !IsJsWhitespace(s[|s| - n - 1])
  {
    if s != [] && IsJsWhitespace(s[|s| - 1]) then 1 + TrailingSpace(s[..|s| - 1]) else 0
  }

  /** `String.prototype.trim`: the text between the leading and the trailing whitespace. */
  function Trim(s: string): (r: string)
    ensures r == [] || (!IsJsWhitespace(r[0]) && !IsJsWhitespace(r[|r| - 1]))
    ensures r == [] <==> forall i :: 0 <= i < |s| ==> IsJsWhitespace(s[i])
  {
    var lo := LeadingSpace(s);
    if lo == |s| then "" else s[lo..|s| - TrailingSpace(s)]
  }

  /** Trimming leaves a string alone when it neither starts nor ends with whitespace. */
  lemma TrimUnpadded(s: string)
    requires s == [] || (!IsJsWhitespace(s[0]) && !IsJsWhitespace(s[|s| - 1]))
    ensures Trim(s) == s
  {
  }

  /** Trimming twice is trimming once. */
  lemma TrimIdempotent(s: string)
    ensures Trim(Trim(s)) == Trim(s)
  {
    TrimUnpadded(Trim(s));
  }

  /** `parts.join(sep)`. */
  function Join(parts: seq<string>, sep: string): (r: string) {
    if |parts| == 0 then ""
    else if |parts| == 1 then parts[0]
    else parts[0] + sep + Join(parts[1..], sep)
  }

  /** Joining `n` parts of width `w` with a separator takes `n` widths and
      `n - 1` separators; `m` is the width of a part and a separator. */
  lemma {:induction false} JoinLength(parts: seq<string>, sep: string, w: nat, m: nat)
    requires |parts| > 0 && m == w + |sep|
    requires forall k :: 0 <= k < |parts| ==> |parts[k]| == w
    ensures |Join(parts, sep)| + |sep| == |parts| * m
  {
    if |parts| > 1 {
      JoinLength(parts[1..], sep, w, m);
    }
  }

  /** Cuts `s` into fields of width `w`, skipping `d` separator characters after each;
      the reading side of `Join` for fixed-width parts. */
  function Fields(s: string, w: nat, d: nat): (r: seq<string>)
    requires 0 < w && d <= 1
    decreases |s|
  {
    if s == [] then []
    else if |s| <= w then [s]
    else [s[..w]] + Fields(s[w + d..], w, d)
  }

  /** Joining non-empty parts of one width with a separator of that many characters
      can be cut back into the same parts. */
  lemma {:induction false} FieldsOfJoin(parts: seq<string>, sep: string, w: nat)
    requires 0 < w && |sep| <= 1
    requires forall k :: 0 <= k < |parts| ==> |parts[k]| == w
    ensures Fields(Join(parts, sep), w, |sep|) == parts
  {
    if |parts| == 1 {
      assert Join(parts, sep) == parts[0];
    } else if |parts| > 1 {
      var rest := Join(parts[1..], sep);
      var s := Join(parts, sep);
      assert s == parts[0] + sep + rest;
      assert s[..w] == parts[0];
      assert s[w + |sep|..] == rest;
      FieldsOfJoin(parts[1..], sep, w);
      assert [parts[0]] + parts[1..] == parts;
    }
  }

  /** Every character of `s` passes `ok`. */
  predicate AllChars(s: string, ok: char -> bool) {
    forall i :: 0 <= i < |s| ==> ok(s[i])
  }

  /** A join holds only characters of its parts and of its separator. */
  lemma {:induction false} JoinChars(parts: seq<string>, sep: string, ok: char -> bool)
    requires forall k :: 0 <= k < |parts| ==> AllChars(parts[k], ok)
    requires AllChars(sep, ok)
    ensures AllChars(Join(parts, sep), ok)
  {
    if |parts| > 1 {
      JoinChars(parts[1..], sep, ok);
      var rest := Join(parts[1..], sep);
      var s := parts[0] + sep + rest;
      assert Join(parts, sep) == s;
      forall i | 0 <= i < |s|
        ensures ok(s[i])
      {
        if i < |parts[0]| {
          assert s[i] == parts[0][i];
        } else if i < |parts[0]| + |sep| {
          assert s[i] == sep[i - |parts[0]|];
        } else {
          assert s[i] == rest[i - |parts[0]| - |sep|];
        }
      }
    }
  }

  /** The digit character for `d` as `Number.prototype.toString` writes it (lower case). */
  function DigitChar(d: nat): (c: char)
    requires d < 16
  {
    if d < 10 then ('0' as int + d) as char else ('a' as int + d - 10) as char
  }

  predicate IsDigitChar(c: char, radix: nat) {
    exists d :: 0 <= d < radix && d < 16 && DigitChar(d) == c
  }

  /** The value of a digit character; inverse of `DigitChar`. */
  function DigitValue(c: char): (d: int)
    ensures -1 <= d < 16
  {
    if '0' <= c <= '9' then c as int - '0' as int
    else if 'a' <= c <= 'f' then c as int - 'a' as int + 10
    else -1
  }

  lemma DigitRoundTrip(d: nat)
    requires d < 16
    ensures DigitValue(DigitChar(d)) == d
  {
  }

  /** `v.toString(radix)` for a non-negative integer: the shortest digit string. */
  function RadixString(v: nat, radix: nat): (s: string)
    requires 2 <= radix <= 16
    decreases v
  {
    if v < radix then [DigitChar(v)] else RadixString(v / radix, radix) + [DigitChar(v % radix)]
  }

  /** `s.padStart(n, fill)`. */
  function PadStart(s: string, n: nat, fill: char): (r: string) {
    if |s| >= n then s else Repeat(fill, n - |s|) + s
  }

  function Pow(b: nat, e: nat): (p: nat)
    ensures b >= 1 ==> p >= 1
  {
    if e == 0 then 1 else b * Pow(b, e - 1)
  }

  /** The `width` lowest digits of `v` in base `radix`, most significant first. */
  function FixedDigits(v: nat, radix: nat, width: nat): (s: string)
    requires 2 <= radix <= 16
    ensures |s| == width
  {
    if width == 0 then "" else FixedDigits(v / radix, radix, width - 1) + [DigitChar(v % radix)]
  }

  /** The number a digit string stands for in base `radix`. */
  function DigitsValue(s: string, radix: nat): nat {
    if s == [] then 0
    else DigitsValue(s[..|s| - 1], radix) * radix + (if 0 <= DigitValue(s[|s| - 1]) then DigitValue(s[|s| - 1]) else 0)
  }

  lemma DivMod(v: nat, radix: nat)
    requires 2 <= radix
    ensures v == (v / radix) * radix + v % radix && 0 <= v % radix < radix
  {
  }

  lemma DivBelow(v: nat, radix: nat, p: nat)
    requires 2 <= radix && v < radix * p
    ensures v / radix < p
  {
    DivMod(v, radix);
    if v / radix >= p {
      MulMonotone(v / radix, p, radix);
    }
  }

  lemma SmallDiv(v: nat, radix: nat)
    requires 2 <= radix && v < radix
    ensures v / radix == 0 && v % radix == v
  {
    DivMod(v, radix);
    if v / radix > 0 {
      MulMonotone(v / radix, 1, radix);
    }
  }

  lemma MulMonotone(a: nat, b: nat, c: nat)
    requires a >= b
    ensures a * c >= b * c
  {
  }

  /** `v.toString(radix).padStart(width, '0')` is the fixed-width digit string of `v`
      whenever `v` fits in `width` digits. */
  lemma {:induction false} PaddedRadixIsFixed(v: nat, radix: nat, width: nat)
    requires 2 <= radix <= 16 && 0 < width && v < Pow(radix, width)
    ensures PadStart(RadixString(v, radix), width, '0') == FixedDigits(v, radix, width)
    ensures |RadixString(v, radix)| <= width
    decreases width
  {
    var p := Pow(radix, width - 1);
    var q, m := v / radix, v % radix;
    assert q < p by {
      assert Pow(radix, width) == radix * p;
      DivBelow(v, radix, p);
    }
    var last := [DigitChar(m)];
    FixedDigitsSplit(v, radix, width);
    if v < radix {
      SmallDiv(v, radix);
      FixedZeros(radix, width - 1);
    } else {
      PaddedRadixIsFixed(q, radix, width - 1);
      var head := RadixString(q, radix);
      assert RadixString(v, radix) == head + last;
      if |head| < width - 1 {
        assert Repeat('0', width - 1 - |head|) + head + last == Repeat('0', width - (|head| + 1)) + (head + last);
      }
    }
  }

  lemma {:induction false} FixedZeros(radix: nat, width: nat)
    requires 2 <= radix <= 16
    ensures FixedDigits(0, radix, width) == Repeat('0', width)
  {
    if width > 0 {
      FixedZeros(radix, width - 1);
    }
  }

  /** Every character of a fixed-width digit string is a digit below `radix`. */
  lemma {:induction false} FixedDigitsAreDigits(v: nat, radix: nat, width: nat, i: nat)
    requires 2 <= radix <= 16 && i < width
    ensures 0 <= DigitValue(FixedDigits(v, radix, width)[i]) < radix
    decreases width
  {
    if i == width - 1 {
      DigitRoundTrip(v % radix);
    } else {
      FixedDigitsAreDigits(v / radix, radix, width - 1, i);
    }
  }

  lemma FixedDigitsSplit(v: nat, radix: nat, width: nat)
    requires 2 <= radix <= 16 && width > 0
    ensures FixedDigits(v, radix, width) == FixedDigits(v / radix, radix, width - 1) + [DigitChar(v % radix)]
  {
  }

  lemma DigitsValueSnoc(s: string, d: nat, radix: nat)
    requires d < 16
    ensures DigitsValue(s + [DigitChar(d)], radix) == DigitsValue(s, radix) * radix + d
  {
    assert (s + [DigitChar(d)])[..|s|] == s;
    DigitRoundTrip(d);
  }

  /** Reading back a fixed-width digit string gives the number that was written. */
  lemma {:induction false} FixedDigitsValue(v: nat, radix: nat, width: nat)
    requires 2 <= radix <= 16 && v < Pow(radix, width)
    ensures DigitsValue(FixedDigits(v, radix, width), radix) == v
    decreases width
  {
    if width > 0 {
      var p := Pow(radix, width - 1);
      var q, m := v / radix, v % radix;
      assert q < p by {
        assert Pow(radix, width) == radix * p;
        DivBelow(v, radix, p);
      }
      var head := FixedDigits(q, radix, width - 1);
      assert DigitsValue(head, radix) == q by {
        FixedDigitsValue(q, radix, width - 1);
      }
      assert DigitsValue(FixedDigits(v, radix, width), radix) == DigitsValue(head, radix) * radix + m by {
        FixedDigitsSplit(v, radix, width);
        DigitsValueSnoc(head, m, radix);
      }
      assert v == q * radix + m by {
        DivMod(v, radix);
      }
    }
  }

  /** How many UTF-16 code units a character takes (1 or a surrogate pair). */
  function Utf16Units(c: char): nat {
    if c as int >= 0x10000 then 2 else 1
  }

  /** `s.length` in JavaScript: the number of UTF-16 code units. */
  function Utf16Length(s: string): (n: nat)
    ensures |s| <= n <= 2 * |s|
  {
    if s == [] then 0 else Utf16Length(s[..|s| - 1]) + Utf16Units(s[|s| - 1])
  }

  lemma {:induction false} Utf16LengthConcat(a: string, b: string)
    ensures Utf16Length(a + b) == Utf16Length(a) + Utf16Length(b)
  {
    if b != [] {
      assert (a + b)[..|a + b| - 1] == a + b[..|b| - 1];
      Utf16LengthConcat(a, b[..|b| - 1]);
    } else {
      assert a + b == a;
    }
  }

  /** Without characters outside the Basic Multilingual Plane the UTF-16 length is
      the character count, and only then. */
  lemma {:induction false} Utf16LengthBmp(s: string)
    ensures Utf16Length(s) == |s| <==> forall i :: 0 <= i < |s| ==> s[i] as int < 0x10000
  {
    if s != [] {
      Utf16LengthBmp(s[..|s| - 1]);
      assert forall i :: 0 <= i < |s| - 1 ==> s[..|s| - 1][i] == s[i];
    }
  }

  /** `c.charCodeAt(0)` for a one-character string: the character itself inside the
      Basic Multilingual Plane, its high surrogate outside it. */
  function FirstCodeUnit(c: char): (u: nat)
    ensures u < 0x10000
    ensures c as int < 0x10000 ==> u == c as int
    ensures c as int >= 0x10000 ==> 0xD800 <= u < 0xDC00
  {
    var v := c as int;
    if v < 0x10000 then v else 0xD800 + (v - 0x10000) / 0x400
  }

  /** The UTF-16 code units of one character: itself inside the Basic
      Multilingual Plane, a high and a low surrogate outside it. */
  function CharUnits(c: char): (u: seq<nat>)
    ensures |u| == Utf16Units(c)
    ensures u[0] == FirstCodeUnit(c)
    ensures c as int >= 0x10000 ==> 0xDC00 <= u[1] < 0xE000
  {
    var v := c as int;
    if v < 0x10000 then [v] else [0xD800 + (v - 0x10000) / 0x400, 0xDC00 + (v - 0x10000) % 0x400]
  }

  /** The UTF-16 code units a JavaScript string holds for `s`. */
  function CodeUnits(s: string): (u: seq<nat>) {
    if s == [] then [] else CharUnits(s[0]) + CodeUnits(s[1..])
  }

  /** `s.length` counts exactly these code units. */
  lemma {:induction false} CodeUnitsLength(s: string)
    ensures |CodeUnits(s)| == Utf16Length(s)
  {
    if s != [] {
      CodeUnitsLength(s[1..]);
      assert s == [s[0]] + s[1..];
      Utf16LengthConcat([s[0]], s[1..]);
      assert Utf16Length([s[0]]) == Utf16Units(s[0]) by {
        assert [s[0]][..0] == [];
      }
    }
  }
}
