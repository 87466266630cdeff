/**
  The outdated-citation filter (utils/grobid_citation_alerts.py).

  The GROBID call and the XML parsing are not modelled: the parsed
  references are an input. What is modelled is how `int(r.get("year", 0))`
  turns each reference's year field into a year or fails, and the filter and
  report built on it.
*/
module CitationAlerts {
  import opened Wrappers
  import opened Text
  import opened Seqs

  /** The value under a reference's "year" key, as JSON can hold it, or no key at all. */
  datatype YearField =
    | Missing
    | Null
    | BoolValue(b: bool)
    | IntValue(i: int)
    | FloatValue(f: real)
    | StrValue(s: string)
    | Composite

  /** A parsed reference. */
  datatype Reference = Reference(title: Option<string>, year: YearField, authors: seq<string>, doi: Option<string>)

  // ---------------------------------------------------------------------------
  // int(str) for decimal ASCII text

  predicate IsDigit(c: char) {
    '0' <= c <= '9'
  }

  function DigitValue(c: char): nat
    requires IsDigit(c)
  {
    (c as int) - ('0' as int)
  }

  /**
    The text `int` accepts after the sign: digits, with single underscores
    allowed between two digits.
  */
  predicate IsDigitText(t: string) {
    && t != []
    && IsDigit(t[0]) && IsDigit(t[|t| - 1])
    && (forall i | 0 <= i < |t| :: IsDigit(t[i]) || t[i] == '_')
    && (forall i | 0 <= i < |t| - 1 :: !(t[i] == '_' && t[i + 1] == '_'))
  }

  /** The number the digits of `t` spell, underscores skipped. */
  function DigitTextValue(t: string): nat
    requires forall i | 0 <= i < |t| :: IsDigit(t[i]) || t[i] == '_'
    decreases |t|
  {
    if t == [] then 0
    else
      var init := t[..|t| - 1];
      var c := t[|t| - 1];
      assert forall i | 0 <= i < |init| :: init[i] == t[i];
      if c == '_' then DigitTextValue(init) else 10 * DigitTextValue(init) + DigitValue(c)
  }

  /** A leading `+` or `-`. */
  predicate HasSign(t: string) {
    t != [] && (t[0] == '+' || t[0] == '-')
  }

  /**
    `int` on text already stripped: an optional sign, then decimal digits.
    It succeeds exactly on that shape; the value is the digits' number, negated
    after a `-`.
  */
  function ParseSigned(t: string): (r: Option<int>)
    ensures r.Some? <==> IsDigitText(t) || (HasSign(t) && IsDigitText(t[1..]))
    ensures IsDigitText(t) ==> r == Some(DigitTextValue(t) as int)
    ensures HasSign(t) && IsDigitText(t[1..]) ==>
      r == Some(if t[0] == '-' then -(DigitTextValue(t[1..]) as int) else DigitTextValue(t[1..]) as int)
  {
    if HasSign(t) then
      var body := t[1..];
      if IsDigitText(body) then Some(if t[0] == '-' then -(DigitTextValue(body) as int) else DigitTextValue(body)) else None
    else if IsDigitText(t) then Some(DigitTextValue(t))
    else None
  }

  /** `int(s)` for a string: white space at both ends is ignored. */
  function ParseInt(s: string): Option<int> {
    ParseSigned(Strip(s))
  }

  /** White space around the text is ignored: stripped text reads the same. */
  lemma ParseIntStripped(s: string)
    ensures ParseInt(Strip(s)) == ParseInt(s)
    ensures NoEdgeSpace(s) ==> ParseInt(s) == ParseSigned(s)
  {
    StripIdempotent(s);
    if NoEdgeSpace(s) {
      StripClean(s);
    }
  }

  /** `str(n)` for a natural number: its decimal digits, most significant first. */
  function Digits(n: nat): (t: string)
    ensures t != [] && forall i | 0 <= i < |t| :: IsDigit(t[i])
    decreases n
  {
    var d := ['0' + ((n % 10) as char)];
    if n < 10 then d else Digits(n / 10) + d
  }

  /** `str(n)`. */
  function IntToString(n: int): string {
    if n < 0 then "-" + Digits(-n) else Digits(n)
  }

  lemma {:induction false} DigitsValue(n: nat)
    ensures IsDigitText(Digits(n))
    ensures DigitTextValue(Digits(n)) == n
    decreases n
  {
    var t := Digits(n);
    if n >= 10 {
      DigitsValue(n / 10);
      var init := Digits(n / 10);
      assert t[..|t| - 1] == init;
    }
  }

  lemma SignedPrinted(n: int)
    ensures ParseSigned(IntToString(n)) == Some(n)
  {
    var m := if n < 0 then -n else n;
    DigitsValue(m);
    if n < 0 {
      var t := IntToString(n);
      assert t[1..] == Digits(m);
    }
  }

  lemma PrintedUnpadded(n: int)
    ensures NoEdgeSpace(IntToString(n))
  {
    var m := if n < 0 then -n else n;
    var d := Digits(m);
    assert !IsSpace(d[0]) && !IsSpace(d[|d| - 1]);
  }

  /** Parsing what `str` prints gives the number back, as `int(str(n)) == n` does. */
  lemma ParsePrinted(n: int)
    ensures ParseInt(IntToString(n)) == Some(n)
  {
    PrintedUnpadded(n);
    StripClean(IntToString(n));
    SignedPrinted(n);
  }

  /** Underscores between digits are skipped; a doubled one, a decimal point or a bare sign is refused. */
  lemma ParseExamples()
    ensures ParseSigned("20_18") == Some(2018)
    ensures ParseSigned("-7") == Some(-7)
    ensures ParseSigned("2__018") == None
    ensures ParseSigned("2018.0") == None
    ensures ParseSigned("+") == None
  {
    var t := "20_18";
    assert "2"[..0] == [] && DigitTextValue("2") == 2;
    assert "20"[..1] == "2" && DigitTextValue("20") == 20;
    assert "20_"[..2] == "20" && DigitTextValue("20_") == 20;
    assert "20_1"[..3] == "20_" && DigitTextValue("20_1") == 201;
    assert t[..4] == "20_1" && DigitTextValue(t) == 2018;
    assert "-7"[1..] == "7";
    assert "2__018"[1] == '_' && "2__018"[2] == '_';
    assert "2018.0"[4] == '.';
    assert "+"[1..] == [];
  }

  // ---------------------------------------------------------------------------
  // filter_outdated_references

  /** `x` rounded toward zero, as `int(x)` does for a float. */
  function Truncate(x: real): int {
    if x >= 0.0 then x.Floor else -((-x).Floor)
  }

  /** `int(r.get("year", 0))`: a missing key reads 0; `None`, lists and dicts fail; text must parse. */
  function YearOf(y: YearField): Option<int> {
    match y
    case Missing => Some(0)
    case Null => None
    case BoolValue(b) => Some(if b then 1 else 0)
    case IntValue(i) => Some(i)
    case FloatValue(f) => Some(Truncate(f))
    case StrValue(s) => ParseInt(s)
    case Composite => None
  }

  /** A reference whose year, read as `int(...)`, is at most the threshold. */
  predicate IsOutdated(r: Reference, yearThreshold: int) {
    var y := YearOf(r.year);
    y.Some? && y.value <= yearThreshold
  }

  /** `filter_outdated_references`: a reference whose year fails to parse is passed over. */
  method FilterOutdatedReferences(refs: seq<Reference>, yearThreshold: int) returns (outdated: seq<Reference>)
    ensures outdated == Filter(r => IsOutdated(r, yearThreshold), refs)
  {
    outdated := [];
    var i := 0;
    while i < |refs|
      invariant 0 <= i <= |refs|
      invariant outdated == Filter(r => IsOutdated(r, yearThreshold), refs[..i])
    {
      var r := refs[i];
      FilterSnoc(r => IsOutdated(r, yearThreshold), refs[..i], r);
      assert refs[..i + 1] == refs[..i] + [r];
      i := i + 1;
      var y := YearOf(r.year);
      if y == None {
        continue;
      }
      if y.value <= yearThreshold {
        outdated := outdated + [r];
      }
    }
    assert refs[..i] == refs;
  }

  /**
    The outdated references keep the order of the input, and a reference is
    among them exactly when its year parses to a number no later than the
    threshold; one whose year does not parse is never among them.
  */
  lemma OutdatedExactly(refs: seq<Reference>, yearThreshold: int)
    ensures IsSubsequence(Filter(r => IsOutdated(r, yearThreshold), refs), refs)
    ensures forall r :: r in Filter(r => IsOutdated(r, yearThreshold), refs) <==>
      r in refs && YearOf(r.year).Some? && YearOf(r.year).value <= yearThreshold
  {
    FilterIsSubsequence(r => IsOutdated(r, yearThreshold), refs);
    FilterMembers(r => IsOutdated(r, yearThreshold), refs);
  }

  /** A reference with no year counts as year 0, and one with a year of `None` is skipped. */
  lemma YearDefaults(r: Reference, yearThreshold: int)
    ensures r.year == Missing ==> (IsOutdated(r, yearThreshold) <==> 0 <= yearThreshold)
    ensures r.year == Null || r.year == Composite ==> !IsOutdated(r, yearThreshold)
  {
  }

  // ---------------------------------------------------------------------------
  // main

  datatype Report = Report(pdf: string, totalReferences: nat, outdatedReferences: seq<Reference>)

  /** The report `main` writes, once the references are parsed. */
  method CitationReport(pdf: string, refs: seq<Reference>, yearThreshold: int) returns (report: Report)
    ensures report.pdf == pdf
    ensures report.totalReferences == |refs|
    ensures report.outdatedReferences == Filter(r => IsOutdated(r, yearThreshold), refs)
    ensures |report.outdatedReferences| <= report.totalReferences
  {
    var outdated := FilterOutdatedReferences(refs, yearThreshold);
    report := Report(pdf, |refs|, outdated);
  }
}
