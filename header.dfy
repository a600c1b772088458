/** The fixed-width header segment of an FCS 3.0 file: a 6-character version,
    4 ignored characters, then six 8-character decimal fields holding the inclusive
    byte ranges of the text, data and analysis segments. */
module HeaderCodec {
  import opened Wrappers
  import opened Decimal

  /** An inclusive byte range `start..=end`. */
  datatype Offsets = Offsets(start: nat, end: nat)

  datatype Header = Header(
    version: string,
    textOffsets: Offsets,
    dataOffsets: Offsets,
    analysisOffsets: Offsets)

  predicate IsAscii(s: string) {
    forall i :: 0 <= i < |s| ==> s[i] < 128 as char
  }

  /** The Unicode White_Space property, which `str::trim_start` strips. */
  predicate IsWhitespace(c: char) {
    ('\t' <= c <= '\r') || c == ' ' || c == '\U{0085}' || c == '\U{00A0}' || c == '\U{1680}'
    || ('\U{2000}' <= c <= '\U{200A}') || c == '\U{2028}' || c == '\U{2029}'
    || c == '\U{202F}' || c == '\U{205F}' || c == '\U{3000}'
  }

  predicate AllWhitespace(s: string) {
    forall i :: 0 <= i < |s| ==> IsWhitespace(s[i])
  }

  function Spaces(k: nat): (r: string)
    ensures |r| == k && forall i :: 0 <= i < k ==> r[i] == ' '
  {
    seq(k, _ => ' ')
  }

  /** `str::trim_start`: drops the leading white space and nothing else. */
  function TrimStart(s: string): (r: string)
    ensures |r| <= |s| && r == s[|s| - |r|..]
    ensures AllWhitespace(s[..|s| - |r|])
    ensures r == [] || !IsWhitespace(r[0])
  {
    if s != [] && IsWhitespace(s[0]) then
      var r := TrimStart(s[1..]);
      assert s[..|s| - |r|] == [s[0]] + s[1..][..|s[1..]| - |r|];
      r
    else
      s
  }

  /** `zero_when_empty`: an empty field means offset 0; every other error stays. */
  function ZeroWhenEmpty(error: IntErrorKind): (r: Result<nat, IntErrorKind>)
    ensures r == Success(0) <==> error == Empty
    ensures error != Empty ==> r == Failure(error)
  {
    if error == Empty then Success(0) else Failure(error)
  }

  /** A text or data offset field: `trim_start().parse::<usize>()`. */
  function ParseField(s: string): (r: Result<nat, IntErrorKind>)
    ensures r == Failure(Empty) <==> AllWhitespace(s)
    ensures r.Success? <==> IsNumeral(TrimStart(s)) && NumeralValue(TrimStart(s)) <= UsizeMax
    ensures r.Success? ==> r.value == NumeralValue(TrimStart(s))
    ensures |s| <= 19 && r.Failure? && !AllWhitespace(s) ==> r.error == InvalidDigit
    ensures |s| <= 19 ==> (r.Success? <==> FieldOk(s))
  {
    var t := TrimStart(s);
    ShortNumeralFits(t);
    ParseUsize(t)
  }

  /** An analysis offset field: the same parse, `.or_else(zero_when_empty)`. */
  function ParseAnalysisField(s: string): (r: Result<nat, IntErrorKind>)
    ensures AllWhitespace(s) ==> r == Success(0)
    ensures !AllWhitespace(s) ==> r == ParseField(s)
    ensures |s| <= 19 ==> (r.Success? <==> AnalysisFieldOk(s))
  {
    match ParseField(s)
    case Success(n) => Success(n)
    case Failure(e) => ZeroWhenEmpty(e)
  }

  /** A text or data field that parses. */
  predicate FieldOk(s: string) {
    IsNumeral(TrimStart(s))
  }

  /** An analysis field that parses: blank, or a numeral after the white space. */
  predicate AnalysisFieldOk(s: string) {
    AllWhitespace(s) || FieldOk(s)
  }

  /** Header::try_from on an ASCII header of at least 58 characters, where byte and
      character positions agree; characters 6 to 9 are never read. */
  function Parse(header: string): (r: Result<Header, IntErrorKind>)
    requires |header| >= 58 && IsAscii(header)
    ensures r.Success? ==> r.value.version == header[..6]
  {
    Assemble(header[0..6],
      ParseField(header[10..18]), ParseField(header[18..26]),
      ParseField(header[26..34]), ParseField(header[34..42]),
      ParseAnalysisField(header[42..50]), ParseAnalysisField(header[50..58]))
  }

  /** The chain of `?` in `try_from`: the fields are examined in order and the first
      error is the one returned; otherwise the record holds the six values. */
  function Assemble(version: string,
                    textStart: Result<nat, IntErrorKind>, textEnd: Result<nat, IntErrorKind>,
                    dataStart: Result<nat, IntErrorKind>, dataEnd: Result<nat, IntErrorKind>,
                    analysisStart: Result<nat, IntErrorKind>, analysisEnd: Result<nat, IntErrorKind>)
    : (r: Result<Header, IntErrorKind>)
    ensures r.Success? <==>
      textStart.Success? && textEnd.Success? && dataStart.Success? && dataEnd.Success?
      && analysisStart.Success? && analysisEnd.Success?
    ensures r.Success? ==> r.value == Header(version,
      Offsets(textStart.value, textEnd.value), Offsets(dataStart.value, dataEnd.value),
      Offsets(analysisStart.value, analysisEnd.value))
    ensures textStart.Failure? ==> r == Failure(textStart.error)
    ensures textStart.Success? && textEnd.Failure? ==> r == Failure(textEnd.error)
    ensures textStart.Success? && textEnd.Success? && dataStart.Failure? ==> r == Failure(dataStart.error)
    ensures textStart.Success? && textEnd.Success? && dataStart.Success? && dataEnd.Failure?
      ==> r == Failure(dataEnd.error)
    ensures textStart.Success? && textEnd.Success? && dataStart.Success? && dataEnd.Success?
      && analysisStart.Failure?
      ==> r == Failure(analysisStart.error)
    ensures textStart.Success? && textEnd.Success? && dataStart.Success? && dataEnd.Success?
      && analysisStart.Success? && analysisEnd.Failure?
      ==> r == Failure(analysisEnd.error)
  {
    var ts :- textStart;
    var te :- textEnd;
    var ds :- dataStart;
    var de :- dataEnd;
    var ans :- analysisStart;
    var ae :- analysisEnd;
    Success(Header(version, Offsets(ts, te), Offsets(ds, de), Offsets(ans, ae)))
  }

  function Max(a: nat, b: nat): nat {
    if a < b then b else a
  }

  /** `{:<w}`: left-justify, padding with spaces on the right to width `w`. */
  function PadRight(s: string, w: nat): (r: string)
    ensures |r| == Max(|s|, w) && r[..|s|] == s
    ensures forall i :: |s| <= i < |r| ==> r[i] == ' '
  {
    if |s| < w then s + Spaces(w - |s|) else s
  }

  /** `{:>w}`: right-justify, padding with spaces on the left to width `w`. */
  function PadLeft(s: string, w: nat): (r: string)
    ensures |r| == Max(|s|, w) && r[|r| - |s|..] == s
    ensures forall i :: 0 <= i < |r| - |s| ==> r[i] == ' '
  {
    if |s| < w then Spaces(w - |s|) + s else s
  }

  /** The formatted text of one offset: right-justified in width 8. */
  function FormatOffset(n: nat): (r: string)
    ensures |r| == Max(|NatToString(n)|, 8) && r[|r| - |NatToString(n)|..] == NatToString(n)
    ensures |r| == 8 <==> n < 100_000_000
  {
    FitsEightDigits(n);
    PadLeft(NatToString(n), 8)
  }

  /** `Display for Header`: the format string `{:<10}{:>8}{:>8}{:>8}{:>8}{:>8}{:>8}`. */
  function Format(h: Header): string {
    PadRight(h.version, 10)
    + FormatOffset(h.textOffsets.start) + FormatOffset(h.textOffsets.end)
    + FormatOffset(h.dataOffsets.start) + FormatOffset(h.dataOffsets.end)
    + FormatOffset(h.analysisOffsets.start) + FormatOffset(h.analysisOffsets.end)
  }

  /** Every offset fits the 8-character field. */
  predicate OffsetsFit(h: Header) {
    && h.textOffsets.start < 100_000_000 && h.textOffsets.end < 100_000_000
    && h.dataOffsets.start < 100_000_000 && h.dataOffsets.end < 100_000_000
    && h.analysisOffsets.start < 100_000_000 && h.analysisOffsets.end < 100_000_000
  }
}

module HeaderLemmas {
  import opened Wrappers
  import opened Decimal
  import opened HeaderCodec

  /** The header parses exactly when every text and data field is a numeral after
      its leading white space and each analysis field is either that or blank. */
  lemma ParseSucceedsExactly(header: string)
    requires |header| >= 58 && IsAscii(header)
    ensures Parse(header).Success? <==>
      FieldOk(header[10..18]) && FieldOk(header[18..26]) && FieldOk(header[26..34])
      && FieldOk(header[34..42]) && AnalysisFieldOk(header[42..50])
      && AnalysisFieldOk(header[50..58])
  {
    var a, b, c := header[10..18], header[18..26], header[26..34];
    var d, e, f := header[34..42], header[42..50], header[50..58];
    assert |a| == |b| == |c| == |d| == |e| == |f| == 8;
    assert ParseField(a).Success? <==> FieldOk(a);
    assert ParseField(b).Success? <==> FieldOk(b);
    assert ParseField(c).Success? <==> FieldOk(c);
    assert ParseField(d).Success? <==> FieldOk(d);
    assert ParseAnalysisField(e).Success? <==> AnalysisFieldOk(e);
    assert ParseAnalysisField(f).Success? <==> AnalysisFieldOk(f);
  }

  /** Each offset is read from its own 8-character slice and from nothing else:
      the numeral after the leading white space, or 0 for a blank analysis field. */
  lemma ParseFieldValues(header: string)
    requires |header| >= 58 && IsAscii(header)
    requires Parse(header).Success?
    ensures var h := Parse(header).value;
      && h.textOffsets == Offsets(NumeralValue(TrimStart(header[10..18])), NumeralValue(TrimStart(header[18..26])))
      && h.dataOffsets == Offsets(NumeralValue(TrimStart(header[26..34])), NumeralValue(TrimStart(header[34..42])))
      && h.analysisOffsets.start == (if AllWhitespace(header[42..50]) then 0 else NumeralValue(TrimStart(header[42..50])))
      && h.analysisOffsets.end == (if AllWhitespace(header[50..58]) then 0 else NumeralValue(TrimStart(header[50..58])))
  {
  }

  /** Only a blank text or data field makes the parse fail with `Empty`, and a blank
      analysis field never does; every other failure is an invalid digit, since an
      8-character field cannot overflow. */
  lemma ParseErrors(header: string)
    requires |header| >= 58 && IsAscii(header)
    requires Parse(header).Failure?
    ensures Parse(header).error == Empty || Parse(header).error == InvalidDigit
    ensures Parse(header).error == Empty ==>
      AllWhitespace(header[10..18]) || AllWhitespace(header[18..26])
      || AllWhitespace(header[26..34]) || AllWhitespace(header[34..42])
  {
    var a, b, c := header[10..18], header[18..26], header[26..34];
    var d, e, f := header[34..42], header[42..50], header[50..58];
    assert |a| == |b| == |c| == |d| == |e| == |f| == 8;
  }

  /** The text start field is read first: a blank one fails with `Empty`, one that
      is not a numeral after its white space fails with `InvalidDigit`. */
  lemma BadTextStart(header: string)
    requires |header| >= 58 && IsAscii(header)
    ensures AllWhitespace(header[10..18]) ==> Parse(header) == Failure(Empty)
    ensures !AllWhitespace(header[10..18]) && !FieldOk(header[10..18]) ==> Parse(header) == Failure(InvalidDigit)
  {
    assert |header[10..18]| == 8;
  }

  /** A blank analysis field is not an error, but any other bad analysis field is
      still reported once the text and data fields are good. */
  lemma BadAnalysisField(header: string)
    requires |header| >= 58 && IsAscii(header)
    requires FieldOk(header[10..18]) && FieldOk(header[18..26])
    requires FieldOk(header[26..34]) && FieldOk(header[34..42])
    ensures !AnalysisFieldOk(header[42..50]) ==> Parse(header) == Failure(InvalidDigit)
    ensures AnalysisFieldOk(header[42..50]) && !AnalysisFieldOk(header[50..58]) ==> Parse(header) == Failure(InvalidDigit)
  {
    var a, b, c := header[10..18], header[18..26], header[26..34];
    var d, e, f := header[34..42], header[42..50], header[50..58];
    assert Parse(header) == Assemble(header[0..6], ParseField(a), ParseField(b), ParseField(c),
      ParseField(d), ParseAnalysisField(e), ParseAnalysisField(f));
    BadAnalysisFields(header[0..6], a, b, c, d, e, f);
  }

  lemma BadAnalysisFields(v: string, a: string, b: string, c: string, d: string, e: string, f: string)
    requires |a| == |b| == |c| == |d| == |e| == |f| == 8
    requires FieldOk(a) && FieldOk(b) && FieldOk(c) && FieldOk(d)
    ensures var r := Assemble(v, ParseField(a), ParseField(b), ParseField(c),
      ParseField(d), ParseAnalysisField(e), ParseAnalysisField(f));
      && (!AnalysisFieldOk(e) ==> r == Failure(InvalidDigit))
      && (AnalysisFieldOk(e) && !AnalysisFieldOk(f) ==> r == Failure(InvalidDigit))
  {
    assert ParseField(a).Success? && ParseField(b).Success?;
    assert ParseField(c).Success? && ParseField(d).Success?;
    assert !AnalysisFieldOk(e) ==> ParseAnalysisField(e) == Failure(InvalidDigit);
    assert !AnalysisFieldOk(f) ==> ParseAnalysisField(f) == Failure(InvalidDigit);
  }

  /** Characters 6 to 9 are ignored, and so is everything after character 57. */
  lemma ParseIgnoresReserved(h1: string, h2: string)
    requires |h1| >= 58 && IsAscii(h1) && |h2| >= 58 && IsAscii(h2)
    requires h1[..6] == h2[..6] && h1[10..58] == h2[10..58]
    ensures Parse(h1) == Parse(h2)
  {
    SameSlice(h1, h2, 10, 18);
    SameSlice(h1, h2, 18, 26);
    SameSlice(h1, h2, 26, 34);
    SameSlice(h1, h2, 34, 42);
    SameSlice(h1, h2, 42, 50);
    SameSlice(h1, h2, 50, 58);
    assert h1[0..6] == h2[0..6];
  }

  lemma SameSlice(h1: string, h2: string, i: nat, j: nat)
    requires 10 <= i <= j <= 58 && |h1| >= 58 && |h2| >= 58
    requires h1[10..58] == h2[10..58]
    ensures h1[i..j] == h2[i..j]
  {
    forall t | 0 <= t < j - i ensures h1[i..j][t] == h2[i..j][t] {
      assert h1[i + t] == h1[10..58][i - 10 + t];
      assert h2[i + t] == h2[10..58][i - 10 + t];
    }
  }

  /** The formatted length: each part is as wide as its field or as its text,
      whichever is longer. */
  lemma FormatLength(h: Header)
    ensures |Format(h)| == Max(|h.version|, 10)
      + Max(|NatToString(h.textOffsets.start)|, 8) + Max(|NatToString(h.textOffsets.end)|, 8)
      + Max(|NatToString(h.dataOffsets.start)|, 8) + Max(|NatToString(h.dataOffsets.end)|, 8)
      + Max(|NatToString(h.analysisOffsets.start)|, 8) + Max(|NatToString(h.analysisOffsets.end)|, 8)
  {
  }

  /** The formatted header is exactly 58 characters long when, and only when, the
      version has at most 10 characters and every offset is below 10^8. */
  lemma {:induction false} FormatIs58(h: Header)
    ensures |Format(h)| == 58 <==> |h.version| <= 10 && OffsetsFit(h)
  {
    FormatLength(h);
    var a := OffsetWidth(h.textOffsets.start);
    var b := OffsetWidth(h.textOffsets.end);
    var c := OffsetWidth(h.dataOffsets.start);
    var d := OffsetWidth(h.dataOffsets.end);
    var e := OffsetWidth(h.analysisOffsets.start);
    var f := OffsetWidth(h.analysisOffsets.end);
    assert |Format(h)| == Max(|h.version|, 10) + a + b + c + d + e + f;
  }

  /** The width a formatted offset takes: at least 8, and exactly 8 when, and only
      when, the offset is below 10^8. */
  lemma OffsetWidth(n: nat) returns (w: nat)
    ensures w == Max(|NatToString(n)|, 8) && w >= 8
    ensures w == 8 <==> n < 100_000_000
  {
    FitsEightDigits(n);
    w := Max(|NatToString(n)|, 8);
  }

  lemma {:induction false} TrimSpaces(k: nat, s: string)
    requires s != [] && !IsWhitespace(s[0])
    ensures TrimStart(Spaces(k) + s) == s
  {
    if k > 0 {
      assert (Spaces(k) + s)[1..] == Spaces(k - 1) + s;
      TrimSpaces(k - 1, s);
    } else {
      assert Spaces(k) + s == s;
    }
  }

  lemma {:induction false} FormattedOffsetShape(n: nat)
    requires n < 100_000_000
    ensures |FormatOffset(n)| == 8 && IsAscii(FormatOffset(n))
  {
    FitsEightDigits(n);
  }

  /** An offset below 10^8, formatted, is an 8-character ASCII field that both
      field parsers read back as the same number. */
  lemma {:induction false} FormattedOffsetParses(n: nat)
    requires n < 100_000_000
    ensures |FormatOffset(n)| == 8 && IsAscii(FormatOffset(n))
    ensures ParseField(FormatOffset(n)) == Success(n)
    ensures ParseAnalysisField(FormatOffset(n)) == Success(n)
  {
    var d := NatToString(n);
    FitsEightDigits(n);
    assert FormatOffset(n) == Spaces(8 - |d|) + d;
    ParseDisplayed(n);
    PaddedNumeralParses(8 - |d|, d, n);
  }

  /** Digits after a run of spaces parse as the digits alone. */
  lemma PaddedNumeralParses(k: nat, d: string, n: nat)
    requires d != [] && AllDigits(d) && ParseUsize(d) == Success(n)
    ensures ParseField(Spaces(k) + d) == Success(n)
    ensures ParseAnalysisField(Spaces(k) + d) == Success(n)
  {
    var f := Spaces(k) + d;
    TrimSpaces(k, d);
    assert TrimStart(f) == d;
    assert ParseField(f) == Success(n);
  }

  lemma AsciiConcat(a: string, b: string)
    requires IsAscii(a) && IsAscii(b)
    ensures IsAscii(a + b)
  {
  }

  /** A well-fitting formatted header is 58 ASCII characters. */
  lemma {:induction false} FormatAscii(h: Header)
    requires IsAscii(h.version) && OffsetsFit(h)
    ensures IsAscii(Format(h))
  {
    FormattedOffsetShape(h.textOffsets.start);
    FormattedOffsetShape(h.textOffsets.end);
    FormattedOffsetShape(h.dataOffsets.start);
    FormattedOffsetShape(h.dataOffsets.end);
    FormattedOffsetShape(h.analysisOffsets.start);
    FormattedOffsetShape(h.analysisOffsets.end);
    FormatPartsAscii(h);
  }

  lemma FormatPartsAscii(h: Header)
    requires IsAscii(h.version)
    requires IsAscii(FormatOffset(h.textOffsets.start)) && IsAscii(FormatOffset(h.textOffsets.end))
    requires IsAscii(FormatOffset(h.dataOffsets.start)) && IsAscii(FormatOffset(h.dataOffsets.end))
    requires IsAscii(FormatOffset(h.analysisOffsets.start)) && IsAscii(FormatOffset(h.analysisOffsets.end))
    ensures IsAscii(Format(h))
  {
    var v := PadRight(h.version, 10);
    var a, b := FormatOffset(h.textOffsets.start), FormatOffset(h.textOffsets.end);
    var c, d := FormatOffset(h.dataOffsets.start), FormatOffset(h.dataOffsets.end);
    var e, f := FormatOffset(h.analysisOffsets.start), FormatOffset(h.analysisOffsets.end);
    PadRightAscii(h.version, 10);
    AsciiLayout(v, a, b, c, d, e, f);
    assert Format(h) == v + a + b + c + d + e + f;
  }

  lemma PadRightAscii(s: string, w: nat)
    requires IsAscii(s)
    ensures IsAscii(PadRight(s, w))
  {
    var r := PadRight(s, w);
    forall i | 0 <= i < |r| ensures r[i] < 128 as char {
      if i < |s| {
        assert r[i] == r[..|s|][i];
      }
    }
  }

  lemma AsciiLayout(v: string, a: string, b: string, c: string, d: string, e: string, f: string)
    requires IsAscii(v) && IsAscii(a) && IsAscii(b) && IsAscii(c)
    requires IsAscii(d) && IsAscii(e) && IsAscii(f)
    ensures IsAscii(v + a + b + c + d + e + f)
  {
    AsciiConcat(v, a);
    AsciiConcat(v + a, b);
    AsciiConcat(v + a + b, c);
    AsciiConcat(v + a + b + c, d);
    AsciiConcat(v + a + b + c + d, e);
    AsciiConcat(v + a + b + c + d + e, f);
  }

  /** Where each part of a well-fitting formatted header lands. */
  lemma {:induction false} FormatLayout(h: Header)
    requires |h.version| <= 10 && OffsetsFit(h)
    ensures |Format(h)| == 58
    ensures Format(h)[0..6] == PadRight(h.version, 10)[..6]
    ensures Format(h)[10..18] == FormatOffset(h.textOffsets.start)
    ensures Format(h)[18..26] == FormatOffset(h.textOffsets.end)
    ensures Format(h)[26..34] == FormatOffset(h.dataOffsets.start)
    ensures Format(h)[34..42] == FormatOffset(h.dataOffsets.end)
    ensures Format(h)[42..50] == FormatOffset(h.analysisOffsets.start)
    ensures Format(h)[50..58] == FormatOffset(h.analysisOffsets.end)
  {
    var v := PadRight(h.version, 10);
    var a, b := FormatOffset(h.textOffsets.start), FormatOffset(h.textOffsets.end);
    var c, d := FormatOffset(h.dataOffsets.start), FormatOffset(h.dataOffsets.end);
    var e, f := FormatOffset(h.analysisOffsets.start), FormatOffset(h.analysisOffsets.end);
    FormattedOffsetShape(h.textOffsets.start);
    FormattedOffsetShape(h.textOffsets.end);
    FormattedOffsetShape(h.dataOffsets.start);
    FormattedOffsetShape(h.dataOffsets.end);
    FormattedOffsetShape(h.analysisOffsets.start);
    FormattedOffsetShape(h.analysisOffsets.end);
    SliceLayout(v, a, b, c, d, e, f);
  }

  lemma SliceLayout(v: string, a: string, b: string, c: string, d: string, e: string, f: string)
    requires |v| == 10 && |a| == |b| == |c| == |d| == |e| == |f| == 8
    ensures var s := v + a + b + c + d + e + f;
      && |s| == 58 && s[0..6] == v[..6]
      && s[10..18] == a && s[18..26] == b && s[26..34] == c
      && s[34..42] == d && s[42..50] == e && s[50..58] == f
  {
    var s := v + a + b + c + d + e + f;
    assert s[0..6] == v[..6];
    var s1 := v + a;
    assert s1[10..18] == a;
    assert s[10..18] == s1[10..18];
    var s2 := s1 + b;
    assert s2[18..26] == b;
    assert s[18..26] == s2[18..26];
    var s3 := s2 + c;
    assert s3[26..34] == c;
    assert s[26..34] == s3[26..34];
    var s4 := s3 + d;
    assert s4[34..42] == d;
    assert s[34..42] == s4[34..42];
    var s5 := s4 + e;
    assert s5[42..50] == e;
    assert s[42..50] == s5[42..50];
    assert s[50..58] == f;
  }

  /** Parsing a formatted header gives the record back, except that the version
      comes back as the first 6 characters of the version padded to width 10. */
  lemma {:induction false} ParseFormat(h: Header)
    requires |h.version| <= 10 && IsAscii(h.version) && OffsetsFit(h)
    ensures |Format(h)| == 58 && IsAscii(Format(h))
    ensures Parse(Format(h)) == Success(h.(version := PadRight(h.version, 10)[..6]))
  {
    FormatIs58(h);
    FormatAscii(h);
    FormatLayout(h);
    FormattedOffsetParses(h.textOffsets.start);
    FormattedOffsetParses(h.textOffsets.end);
    FormattedOffsetParses(h.dataOffsets.start);
    FormattedOffsetParses(h.dataOffsets.end);
    FormattedOffsetParses(h.analysisOffsets.start);
    FormattedOffsetParses(h.analysisOffsets.end);
  }

  /** The round trip `Header::try_from(&h.to_string()) == Ok(h)` for a
      6-character ASCII version and offsets below 10^8. */
  lemma RoundTrip(h: Header)
    requires |h.version| == 6 && IsAscii(h.version) && OffsetsFit(h)
    ensures |Format(h)| == 58 && IsAscii(Format(h))
    ensures Parse(Format(h)) == Success(h)
  {
    ParseFormat(h);
  }

  /** A version shorter than 6 characters does not survive the round trip: it comes
      back padded with spaces to 6 characters. */
  lemma ShortVersionComesBackPadded(h: Header)
    requires |h.version| < 6 && IsAscii(h.version) && OffsetsFit(h)
    ensures |Format(h)| == 58 && IsAscii(Format(h))
    ensures Parse(Format(h)) == Success(h.(version := h.version + Spaces(6 - |h.version|)))
    ensures Parse(Format(h)) != Success(h)
  {
    var padded := h.version + Spaces(6 - |h.version|);
    PaddedVersion(h.version);
    assert h.(version := PadRight(h.version, 10)[..6]) == h.(version := padded);
    ParseFormat(h);
    assert h.(version := padded).version != h.version by {
      assert |padded| == 6;
    }
  }

  lemma PaddedVersion(v: string)
    requires |v| <= 6
    ensures PadRight(v, 10)[..6] == v + Spaces(6 - |v|)
  {
    var p, q := PadRight(v, 10)[..6], v + Spaces(6 - |v|);
    assert |p| == |q| == 6;
    forall i | 0 <= i < 6 ensures p[i] == q[i] {
      if i < |v| {
        assert p[i] == PadRight(v, 10)[..|v|][i];
      }
    }
  }
}

/** The header fixtures of the source's unit tests, stated with the 58-character
    header strings split at the field boundaries. */
module HeaderExamples {
  import opened Wrappers
  import opened Decimal
  import opened HeaderCodec
  import opened HeaderLemmas

  const Version: string := "FCS3.0    "

  lemma VersionText()
    ensures PadRight("FCS3.0", 10) == Version
  {
  }

  /** The formatted offsets that occur in the fixtures. */
  lemma Offset0()
    ensures FormatOffset(0) == "       0"
  {
    assert NatToString(0) == "0";
  }

  lemma Offset256()
    ensures FormatOffset(256) == "     256"
  {
    assert NatToString(256) == "256";
  }

  lemma Offset1545()
    ensures FormatOffset(1545) == "    1545"
  {
    assert NatToString(1545) == "1545";
  }

  lemma Offset1792()
    ensures FormatOffset(1792) == "    1792"
  {
    assert NatToString(1792) == "1792";
  }

  lemma Offset202450()
    ensures FormatOffset(202450) == "  202450"
  {
    assert NatToString(202450) == "202450";
  }

  lemma Offset202451()
    ensures FormatOffset(202451) == "  202451"
  {
    assert NatToString(202451) == "202451";
  }

  lemma Offset202456()
    ensures FormatOffset(202456) == "  202456"
  {
    assert NatToString(202456) == "202456";
  }

  lemma Offset203140()
    ensures FormatOffset(203140) == "  203140"
  {
    assert NatToString(2031) == "2031";
    assert NatToString(203140) == "203140";
  }

  /** `header1` and `write_header1`. */
  lemma Header1()
    ensures var h := Header("FCS3.0", Offsets(256, 1545), Offsets(1792, 202456), Offsets(0, 0));
      var s := Version + "     256" + "    1545" + "    1792" + "  202456" + "       0" + "       0";
      && Format(h) == s && |s| == 58 && IsAscii(s) && Parse(s) == Success(h)
  {
    VersionText(); Offset256(); Offset1545(); Offset1792(); Offset202456(); Offset0();
    RoundTrip(Header("FCS3.0", Offsets(256, 1545), Offsets(1792, 202456), Offsets(0, 0)));
  }

  /** `header2` and `write_header2`. */
  lemma Header2()
    ensures var h := Header("FCS3.0", Offsets(256, 1545), Offsets(0, 0), Offsets(0, 0));
      var s := Version + "     256" + "    1545" + "       0" + "       0" + "       0" + "       0";
      && Format(h) == s && |s| == 58 && IsAscii(s) && Parse(s) == Success(h)
  {
    VersionText(); Offset256(); Offset1545(); Offset0();
    RoundTrip(Header("FCS3.0", Offsets(256, 1545), Offsets(0, 0), Offsets(0, 0)));
  }

  /** `header3` and `write_header3`. */
  lemma Header3()
    ensures var h := Header("FCS3.0", Offsets(202451, 203140), Offsets(1792, 202450), Offsets(0, 0));
      var s := Version + "  202451" + "  203140" + "    1792" + "  202450" + "       0" + "       0";
      && Format(h) == s && |s| == 58 && IsAscii(s) && Parse(s) == Success(h)
  {
    VersionText(); Offset202451(); Offset203140(); Offset1792(); Offset202450(); Offset0();
    RoundTrip(Header("FCS3.0", Offsets(202451, 203140), Offsets(1792, 202450), Offsets(0, 0)));
  }

  /** `header1_spaces`: an all-blank analysis area parses as `0..=0`. */
  lemma Header1Spaces()
    ensures var s := Version + "     256" + "    1545" + "    1792" + "  202456" + "        " + "        ";
      && |s| == 58 && IsAscii(s)
      && Parse(s) == Success(Header("FCS3.0", Offsets(256, 1545), Offsets(1792, 202456), Offsets(0, 0)))
  {
    VersionText(); Offset256(); Offset1545(); Offset1792(); Offset202456();
    assert Version[..6] == "FCS3.0";
    var blank := "        ";
    assert blank == Spaces(8);
    var s := Version + "     256" + "    1545" + "    1792" + "  202456" + blank + blank;
    SliceLayout(Version, "     256", "    1545", "    1792", "  202456", blank, blank);
    AsciiLayout(Version, "     256", "    1545", "    1792", "  202456", blank, blank);
    FormattedOffsetParses(256);
    FormattedOffsetParses(1545);
    FormattedOffsetParses(1792);
    FormattedOffsetParses(202456);
    assert AllWhitespace(blank);
  }
}

