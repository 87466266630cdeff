/**
  Claim extraction and claim-to-claim mapping (utils/claims_mapping.py).

  Text comes from PDF or text files and similarity scores from a sentence
  embedding model; both are inputs here. A paper's extracted text is a field
  of its metadata record, and the cosine-similarity matrix is a parameter of
  `MapClaims`.
*/
module ClaimsMapping {
  import opened Wrappers
  import opened Text
  import opened Seqs

  /** Similarity at or above which a claim counts as already made. */
  const DefaultClaimSimThreshold: real := 0.70
  /** Sentences shorter than this, once stripped, are dropped. */
  const MinSentLen: nat := 30
  /** Phrases that mark a sentence as a claim, matched in its lower-cased form. */
  const ClaimKeywords: seq<string> := [
    "we propose", "we present", "this paper", "our contribution",
    "we show", "we demonstrate", "we introduce", "in this work",
    "we report", "we observe", "we develop", "we design"
  ]
  /** Fallback sizes: longest sentences taken when no keyword claim is found. */
  const ExistingFallbackCount: nat := 3
  const NewFallbackCount: nat := 5

  // ---------------------------------------------------------------------------
  // split_into_sentences

  /** Every white-space character is a plain space and no two spaces are adjacent. */
  predicate SingleSpaced(s: string) {
    forall i | 0 <= i < |s| :: IsSpace(s[i]) ==> s[i] == ' ' && (i == 0 || s[i - 1] != ' ')
  }

  /** `re.sub(r"\s+", " ", s)`: each maximal run of white space becomes one space. */
  function CollapseSpace(s: string): (r: string)
    ensures SingleSpaced(r)
    ensures s == [] <==> r == []
    ensures s != [] ==> (IsSpace(s[0]) <==> r[0] == ' ')
    decreases |s|
  {
    if s == [] then []
    else if IsSpace(s[0]) then
      var t := StripLeft(s);
      var rest := CollapseSpace(t);
      assert forall i | 1 <= i < |" " + rest| :: (" " + rest)[i] == rest[i - 1];
      " " + rest
    else
      var rest := CollapseSpace(s[1..]);
      assert forall i | 1 <= i < |[s[0]] + rest| :: ([s[0]] + rest)[i] == rest[i - 1];
      [s[0]] + rest
  }

  /** The collapsed text ends with a space exactly when the text ends with white space. */
  lemma {:induction false} CollapseSpaceLast(s: string)
    requires s != []
    ensures IsSpace(s[|s| - 1]) <==> CollapseSpace(s)[|CollapseSpace(s)| - 1] == ' '
    decreases |s|
  {
    if IsSpace(s[0]) {
      var t := StripLeft(s);
      if t != [] {
        CollapseSpaceLast(t);
        assert t[|t| - 1] == s[|s| - 1];
      }
    } else if |s| > 1 {
      CollapseSpaceLast(s[1..]);
    }
  }

  /** A character that is not white space comes through collapsing unchanged. */
  lemma CollapseNonSpaceHead(c: char, z: string)
    requires !IsSpace(c)
    ensures CollapseSpace([c] + z) == [c] + CollapseSpace(z)
  {
    var u := [c] + z;
    assert u[0] == c && u[1..] == z;
  }

  /** Collapsing leaves a white-space-free prefix in place. */
  lemma {:induction false} CollapseAfterWord(w: string, z: string)
    requires forall i | 0 <= i < |w| :: !IsSpace(w[i])
    ensures CollapseSpace(w + z) == w + CollapseSpace(z)
    decreases |w|
  {
    if w == [] {
      assert w + z == z;
    } else {
      var c, v := w[0], w[1..];
      calc {
        CollapseSpace(w + z);
        { assert w + z == [c] + (v + z); }
        CollapseSpace([c] + (v + z));
        { CollapseNonSpaceHead(c, v + z); }
        [c] + CollapseSpace(v + z);
        { CollapseAfterWord(v, z); }
        [c] + (v + CollapseSpace(z));
        { assert [c] + v == w; }
        w + CollapseSpace(z);
      }
    }
  }

  /** Collapsing white space does not change what `split()` returns. */
  lemma {:induction false} CollapseSpaceWords(s: string)
    ensures Words(CollapseSpace(s)) == Words(s)
    decreases |s|
  {
    if s != [] {
      if IsSpace(s[0]) {
        var t := StripLeft(s);
        CollapseSpaceWords(t);
        LeadingSpaceWords(CollapseSpace(t));
        assert StripLeft(t) == t;
      } else {
        var n := WordLength(s);
        var w, z := s[..n], s[n..];
        assert s == w + z;
        assert forall i | 0 <= i < |w| :: w[i] == s[i];
        CollapseAfterWord(w, z);
        CollapseSpaceWords(z);
        WordsCons(w, z);
        WordsCons(w, CollapseSpace(z));
      }
    }
  }

  predicate IsTerminator(c: char) {
    c == '.' || c == '?' || c == '!'
  }

  predicate EndsWithTerminator(s: string) {
    s != [] && IsTerminator(s[|s| - 1])
  }

  /** A split point of `(?<=[\.\?\!])\s+` in single-spaced text: a space right after `.`, `?` or `!`. */
  predicate IsBoundary(s: string, i: int) {
    0 < i < |s| && s[i] == ' ' && IsTerminator(s[i - 1])
  }

  /** The first split point at or after `k`, or `|s|` when there is none. */
  function BoundaryFrom(s: string, k: nat): (i: nat)
    requires k <= |s|
    ensures k <= i <= |s|
    ensures i < |s| ==> IsBoundary(s, i)
    ensures forall m | k <= m < i :: !IsBoundary(s, m)
    decreases |s| - k
  {
    if k == |s| then |s| else if IsBoundary(s, k) then k else BoundaryFrom(s, k + 1)
  }

  /** `re.split(r'(?<=[\.\?\!])\s+', s)` on single-spaced text. */
  function SplitAtBoundaries(s: string): (parts: seq<string>)
    ensures |parts| >= 1
    decreases |s|
  {
    var i := BoundaryFrom(s, 0);
    if i == |s| then [s] else [s[..i]] + SplitAtBoundaries(s[i + 1..])
  }

  /** The split loses nothing but the separating spaces. */
  lemma {:induction false} SplitAtBoundariesJoin(s: string)
    ensures Join(" ", SplitAtBoundaries(s)) == s
    decreases |s|
  {
    var i := BoundaryFrom(s, 0);
    if i < |s| {
      var rest := s[i + 1..];
      SplitAtBoundariesJoin(rest);
      JoinCons(" ", s[..i], SplitAtBoundaries(rest));
      assert s == s[..i] + " " + rest;
    }
  }

  /** Every piece but the last ends with a sentence terminator. */
  lemma {:induction false} SplitAtBoundariesEnds(s: string)
    ensures forall k | 0 <= k < |SplitAtBoundaries(s)| - 1 :: EndsWithTerminator(SplitAtBoundaries(s)[k])
    decreases |s|
  {
    var i := BoundaryFrom(s, 0);
    if i < |s| {
      var rest := s[i + 1..];
      SplitAtBoundariesEnds(rest);
      var ps := SplitAtBoundaries(s);
      assert ps == [s[..i]] + SplitAtBoundaries(rest);
      assert EndsWithTerminator(ps[0]);
      forall k | 1 <= k < |ps| - 1
        ensures EndsWithTerminator(ps[k])
      {
        assert ps[k] == SplitAtBoundaries(rest)[k - 1];
      }
    }
  }

  /** No piece holds a split point of its own: the split is at every boundary. */
  lemma {:induction false} SplitAtBoundariesMaximal(s: string)
    ensures forall k, m | 0 <= k < |SplitAtBoundaries(s)| :: !IsBoundary(SplitAtBoundaries(s)[k], m)
    decreases |s|
  {
    var i := BoundaryFrom(s, 0);
    var ps := SplitAtBoundaries(s);
    if i == |s| {
      assert ps == [s];
    } else {
      var rest := s[i + 1..];
      SplitAtBoundariesMaximal(rest);
      assert ps == [s[..i]] + SplitAtBoundaries(rest);
      forall k, m | 0 <= k < |ps|
        ensures !IsBoundary(ps[k], m)
      {
        if k == 0 {
          if IsBoundary(s[..i], m) {
            assert IsBoundary(s, m);
          }
        } else {
          assert ps[k] == SplitAtBoundaries(rest)[k - 1];
        }
      }
    }
  }

  function StripAll(parts: seq<string>): (r: seq<string>)
    ensures |r| == |parts|
    ensures forall i | 0 <= i < |parts| :: r[i] == Strip(parts[i])
  {
    MapSeq(Strip, parts)
  }

  predicate LongEnough(s: string) {
    |s| >= MinSentLen
  }

  /** The comprehension at the end of `split_into_sentences`: each piece stripped, kept when long enough. */
  function KeepSentences(parts: seq<string>): seq<string>
    decreases |parts|
  {
    if parts == [] then []
    else
      var s := Strip(parts[|parts| - 1]);
      KeepSentences(parts[..|parts| - 1]) + (if |s| >= MinSentLen then [s] else [])
  }

  /** Keeping sentences is filtering the stripped pieces by length. */
  lemma {:induction false} KeepSentencesFilters(parts: seq<string>)
    ensures KeepSentences(parts) == Filter(LongEnough, StripAll(parts))
    decreases |parts|
  {
    if parts != [] {
      var init, s := parts[..|parts| - 1], Strip(parts[|parts| - 1]);
      calc {
        KeepSentences(parts);
        KeepSentences(init) + (if |s| >= MinSentLen then [s] else []);
        { KeepSentencesFilters(init); }
        Filter(LongEnough, StripAll(init)) + (if LongEnough(s) then [s] else []);
        { FilterSnoc(LongEnough, StripAll(init), s); }
        Filter(LongEnough, StripAll(init) + [s]);
        { StripAllSnoc(parts); }
        Filter(LongEnough, StripAll(parts));
      }
    }
  }

  lemma StripAllSnoc(parts: seq<string>)
    requires parts != []
    ensures StripAll(parts) == StripAll(parts[..|parts| - 1]) + [Strip(parts[|parts| - 1])]
  {
    MapSeqSnoc(Strip, parts);
  }

  /** `split_into_sentences`: collapse white space, split after terminators, strip, drop short pieces. */
  function SplitIntoSentences(text: string): seq<string> {
    KeepSentences(SplitAtBoundaries(CollapseSpace(text)))
  }

  /** The pieces `split_into_sentences` keeps are exactly the stripped pieces that are long enough. */
  lemma KeptPiecesExactly(parts: seq<string>)
    ensures forall s :: s in Filter(LongEnough, StripAll(parts)) <==> s in StripAll(parts) && |s| >= MinSentLen
  {
    FilterMembers(LongEnough, StripAll(parts));
  }

  /** The pieces `split_into_sentences` keeps are long enough and stripped, and keep their order. */
  lemma KeptPiecesShape(parts: seq<string>)
    ensures forall s | s in Filter(LongEnough, StripAll(parts)) :: |s| >= MinSentLen && NoEdgeSpace(s)
    ensures IsSubsequence(Filter(LongEnough, StripAll(parts)), StripAll(parts))
  {
    var pieces := StripAll(parts);
    FilterMembers(LongEnough, pieces);
    FilterIsSubsequence(LongEnough, pieces);
    forall s | s in Filter(LongEnough, pieces)
      ensures |s| >= MinSentLen && NoEdgeSpace(s)
    {
      var i :| 0 <= i < |pieces| && pieces[i] == s;
    }
  }

  /**
    Every sentence is at least `MinSentLen` long and has no white space at
    either end; the sentences are the long enough stripped pieces, in order.
  */
  lemma SentencesShape(text: string)
    ensures forall s :: s in SplitIntoSentences(text) <==> s in StripAll(SplitAtBoundaries(CollapseSpace(text))) && |s| >= MinSentLen
    ensures forall s | s in SplitIntoSentences(text) :: |s| >= MinSentLen && NoEdgeSpace(s)
    ensures IsSubsequence(SplitIntoSentences(text), StripAll(SplitAtBoundaries(CollapseSpace(text))))
  {
    var parts := SplitAtBoundaries(CollapseSpace(text));
    KeepSentencesFilters(parts);
    KeptPiecesExactly(parts);
    KeptPiecesShape(parts);
  }

  // ---------------------------------------------------------------------------
  // extract_claims_by_keywords

  /** A sentence whose lower-cased form contains one of the claim keywords. */
  predicate IsClaim(s: string) {
    exists kw | kw in ClaimKeywords :: Contains(Lower(s), kw)
  }

  /**
    `extract_claims_by_keywords`: the claim sentences, in input order. A
    sentence is returned exactly when it is a claim.
  */
  method ExtractClaimsByKeywords(sentences: seq<string>) returns (claims: seq<string>)
    ensures claims == Filter(IsClaim, sentences)
    ensures forall s :: s in claims <==> s in sentences && IsClaim(s)
    ensures IsSubsequence(claims, sentences)
  {
    claims := [];
    var i := 0;
    while i < |sentences|
      invariant 0 <= i <= |sentences|
      invariant claims == Filter(IsClaim, sentences[..i])
    {
      var s := sentences[i];
      var low := Lower(s);
      FilterSnoc(IsClaim, sentences[..i], s);
      assert sentences[..i + 1] == sentences[..i] + [s];
      if exists kw | kw in ClaimKeywords :: Contains(low, kw) {
        claims := claims + [s];
      }
      i := i + 1;
    }
    assert sentences[..i] == sentences;
    FilterMembers(IsClaim, sentences);
    FilterIsSubsequence(IsClaim, sentences);
  }

  // ---------------------------------------------------------------------------
  // the "longest sentences" fallback

  /** The sort key order of `sorted(sents, key=len, reverse=True)`. */
  predicate LongerOrEqual(a: string, b: string) {
    |a| >= |b|
  }

  lemma LongerOrEqualTotalPreorder()
    ensures TotalPreorder(LongerOrEqual)
  {
  }

  /** The keyword claims of `sents`, or, if there are none, its `n` longest sentences. */
  function ClaimsOrLongest(sents: seq<string>, n: nat): seq<string> {
    var claims := Filter(IsClaim, sents);
    if claims == [] then PyHead(SortBy(LongerOrEqual, sents), n) else claims
  }

  /**
    With no keyword claim, the fallback takes `min(n, |sents|)` of the
    sentences, and no sentence left out is longer than one taken.
  */
  lemma FallbackTakesLongest(sents: seq<string>, n: nat)
    requires Filter(IsClaim, sents) == []
    ensures |ClaimsOrLongest(sents, n)| == if n < |sents| then n else |sents|
    ensures multiset(ClaimsOrLongest(sents, n)) <= multiset(sents)
    ensures forall x, y | x in ClaimsOrLongest(sents, n) && y in multiset(sents) - multiset(ClaimsOrLongest(sents, n)) :: |x| >= |y|
  {
    var top := PyHead(SortBy(LongerOrEqual, sents), n);
    assert ClaimsOrLongest(sents, n) == top;
    LongerOrEqualTotalPreorder();
    SortPermutes(LongerOrEqual, sents);
    SortedHeadDominates(LongerOrEqual, sents, n);
    forall x, y | x in top && y in multiset(sents) - multiset(top)
      ensures |x| >= |y|
    {
      assert LongerOrEqual(x, y);
    }
  }

  // ---------------------------------------------------------------------------
  // gather_existing_claims

  /** An entry of the similar-papers list: the position of a paper in the metadata list. */
  datatype SimilarEntry = SimilarEntry(index: int)

  /**
    A paper's metadata: its `title` key, when present, and the text that
    extraction from its PDF or text file produced (None when none was found).
  */
  datatype PaperMeta = PaperMeta(title: Option<string>, text: Option<string>)

  datatype ExistingClaim = ExistingClaim(paperIndex: int, paperTitle: string, claim: string)

  function ClaimRecords(idx: int, title: string, claims: seq<string>): (r: seq<ExistingClaim>)
    ensures |r| == |claims|
    ensures forall i | 0 <= i < |r| :: r[i] == ExistingClaim(idx, title, claims[i])
  {
    seq(|claims|, i requires 0 <= i < |claims| => ExistingClaim(idx, title, claims[i]))
  }

  /**
    The records one similar-papers entry contributes: none for an index
    outside the metadata list, and every record names the paper at its index.
  */
  function EntryClaims(e: SimilarEntry, papers: seq<PaperMeta>): (r: seq<ExistingClaim>)
    ensures e.index < 0 || e.index >= |papers| ==> r == []
    ensures forall i | 0 <= i < |r| :: WellIndexed(r[i], papers)
  {
    if e.index < 0 || e.index >= |papers| then []
    else
      var meta := papers[e.index];
      match meta.text
      case None => []
      case Some(text) =>
        if text == "" then []
        else ClaimRecords(e.index, meta.title.GetOr(""), ClaimsOrLongest(SplitIntoSentences(text), ExistingFallbackCount))
  }

  /** The records of all entries, entry by entry. */
  function GatheredClaims(entries: seq<SimilarEntry>, papers: seq<PaperMeta>): seq<ExistingClaim>
    decreases |entries|
  {
    if entries == [] then []
    else GatheredClaims(entries[..|entries| - 1], papers) + EntryClaims(entries[|entries| - 1], papers)
  }

  /** An out-of-range index contributes nothing; a record always names a paper that exists. */
  predicate WellIndexed(r: ExistingClaim, papers: seq<PaperMeta>) {
    0 <= r.paperIndex < |papers| && r.paperTitle == papers[r.paperIndex].title.GetOr("")
  }

  /** The keyword claims, or when there are none the `n` longest sentences, as both callers compute them. */
  method ClaimsWithFallback(sents: seq<string>, n: nat) returns (claims: seq<string>)
    ensures claims == ClaimsOrLongest(sents, n)
  {
    claims := ExtractClaimsByKeywords(sents);
    if claims == [] {
      claims := PyHead(SortBy(LongerOrEqual, sents), n);
    }
  }

  /** The body of the loop in `gather_existing_claims`, for one entry. */
  method ClaimsOfEntry(entry: SimilarEntry, papers: seq<PaperMeta>) returns (records: seq<ExistingClaim>)
    ensures records == EntryClaims(entry, papers)
    ensures forall i | 0 <= i < |records| :: WellIndexed(records[i], papers)
  {
    var idx := entry.index;
    if idx < 0 || idx >= |papers| {
      return [];
    }
    var meta := papers[idx];
    if meta.text == None || meta.text.value == "" {
      return [];
    }
    var sents := SplitIntoSentences(meta.text.value);
    var claims := ClaimsWithFallback(sents, ExistingFallbackCount);
    records := RecordsFor(idx, meta.title.GetOr(""), claims);
  }

  /** One record per claim, all naming the same paper. */
  method RecordsFor(idx: int, title: string, claims: seq<string>) returns (records: seq<ExistingClaim>)
    ensures records == ClaimRecords(idx, title, claims)
  {
    records := [];
    var c := 0;
    while c < |claims|
      invariant 0 <= c <= |claims|
      invariant records == ClaimRecords(idx, title, claims[..c])
    {
      assert ClaimRecords(idx, title, claims[..c + 1]) == ClaimRecords(idx, title, claims[..c]) + [ExistingClaim(idx, title, claims[c])];
      records := records + [ExistingClaim(idx, title, claims[c])];
      c := c + 1;
    }
    assert claims[..c] == claims;
  }

  lemma GatheredStep(entries: seq<SimilarEntry>, e: nat, papers: seq<PaperMeta>)
    requires e < |entries|
    ensures GatheredClaims(entries[..e + 1], papers) == GatheredClaims(entries[..e], papers) + EntryClaims(entries[e], papers)
  {
    assert entries[..e + 1][..e] == entries[..e];
  }

  lemma AllWellIndexed(a: seq<ExistingClaim>, b: seq<ExistingClaim>, papers: seq<PaperMeta>)
    requires forall i | 0 <= i < |a| :: WellIndexed(a[i], papers)
    requires forall i | 0 <= i < |b| :: WellIndexed(b[i], papers)
    ensures forall i | 0 <= i < |a + b| :: WellIndexed((a + b)[i], papers)
  {
  }

  /**
    `gather_existing_claims`: for each entry in range whose paper has text,
    one record per claim of that text.
  */
  method GatherExistingClaims(entries: seq<SimilarEntry>, papers: seq<PaperMeta>)
    returns (existing: seq<ExistingClaim>)
    ensures existing == GatheredClaims(entries, papers)
    ensures forall i | 0 <= i < |existing| :: WellIndexed(existing[i], papers)
  {
    existing := [];
    var e := 0;
    while e < |entries|
      invariant 0 <= e <= |entries|
      invariant existing == GatheredClaims(entries[..e], papers)
      invariant forall i | 0 <= i < |existing| :: WellIndexed(existing[i], papers)
    {
      var records := ClaimsOfEntry(entries[e], papers);
      GatheredStep(entries, e, papers);
      AllWellIndexed(existing, records, papers);
      existing := existing + records;
      e := e + 1;
    }
    assert entries[..e] == entries;
  }

  // ---------------------------------------------------------------------------
  // extract_new_claims_from_new_pdf

  const NoTextError: string := "Could not extract text for the new PDF (no parser available or file missing)."

  /**
    `extract_new_claims_from_new_pdf` given the text extraction produced:
    an error when there is no text, else the keyword claims or, failing
    those, the five longest sentences, together with the text.
  */
  function ExtractNewClaims(text: Option<string>): (r: Result<(seq<string>, string), string>)
    ensures r.Err? <==> text == None || text == Some("")
    ensures r.Ok? ==> r.value.1 == text.value
  {
    if text == None || text.value == "" then Err(NoTextError)
    else Ok((ClaimsOrLongest(SplitIntoSentences(text.value), NewFallbackCount), text.value))
  }

  /** The claims of a sentence list are its keyword claims, or at most `n` of its longest sentences. */
  lemma ClaimsOrLongestShape(sents: seq<string>, n: nat)
    ensures Filter(IsClaim, sents) != [] ==> ClaimsOrLongest(sents, n) == Filter(IsClaim, sents)
    ensures Filter(IsClaim, sents) == [] ==>
      && |ClaimsOrLongest(sents, n)| <= n
      && multiset(ClaimsOrLongest(sents, n)) <= multiset(sents)
      && forall x, y | x in ClaimsOrLongest(sents, n) && y in multiset(sents) - multiset(ClaimsOrLongest(sents, n)) :: |x| >= |y|
  {
    if Filter(IsClaim, sents) == [] {
      FallbackTakesLongest(sents, n);
    }
  }

  /**
    The new paper's claims are found from its sentences as the existing
    papers' are, with a fallback of at most five sentences (which ones,
    the longest, is what `ClaimsOrLongestShape` states).
  */
  lemma NewClaimsFallback(text: string)
    requires text != ""
    ensures ExtractNewClaims(Some(text)) == Ok((ClaimsOrLongest(SplitIntoSentences(text), NewFallbackCount), text))
    ensures |ExtractNewClaims(Some(text)).value.0| <= NewFallbackCount || Filter(IsClaim, SplitIntoSentences(text)) != []
  {
    var sents := SplitIntoSentences(text);
    assert ExtractNewClaims(Some(text)).value.0 == ClaimsOrLongest(sents, NewFallbackCount);
    FallbackLength(sents, NewFallbackCount);
  }

  /** The length half of `ClaimsOrLongestShape`, for callers that need nothing else. */
  lemma FallbackLength(sents: seq<string>, n: nat)
    ensures Filter(IsClaim, sents) == [] ==> |ClaimsOrLongest(sents, n)| <= n
  {
  }

  // ---------------------------------------------------------------------------
  // map_claims

  datatype ClaimMatch = ClaimMatch(claim: string, paperTitle: string, paperIndex: int)

  /**
    One output record: the claim, whether it is novel, the best-matching
    existing claim (None when there was nothing to compare against) and the
    best similarity.
  */
  datatype ClaimMapping = ClaimMapping(claim: string, isNovel: bool, matched: Option<ClaimMatch>, similarity: real)

  /** `j` is where `np.argmax` lands: a maximum of `row`, and the first one. */
  predicate IsFirstArgMax(row: seq<real>, j: int) {
    && 0 <= j < |row|
    && (forall k | 0 <= k < |row| :: row[k] <= row[j])
    && (forall k | 0 <= k < j :: row[k] < row[j])
  }

  /** The first position of a greatest element of `row`. */
  function ArgMax(row: seq<real>): (j: nat)
    requires |row| > 0
    ensures IsFirstArgMax(row, j)
    decreases |row|
  {
    if |row| == 1 then 0
    else
      var init := row[..|row| - 1];
      var j := ArgMax(init);
      assert forall k | 0 <= k < |init| :: init[k] == row[k];
      if row[|row| - 1] > row[j] then |row| - 1 else j
  }

  /** There is only one first greatest element: any index with that property is `ArgMax(row)`. */
  lemma ArgMaxUnique(row: seq<real>, j: int)
    requires |row| > 0
    ensures IsFirstArgMax(row, j) <==> j == ArgMax(row)
  {
  }

  /** `np.argmax(row)`. */
  method FirstArgMax(row: seq<real>) returns (j: nat)
    requires |row| > 0
    ensures j == ArgMax(row)
  {
    j := 0;
    var k := 1;
    assert row[..1] == [row[0]];
    while k < |row|
      invariant 1 <= k <= |row|
      invariant j == ArgMax(row[..k])
    {
      assert row[..k + 1][..k] == row[..k];
      if row[k] > row[j] {
        j := k;
      }
      k := k + 1;
    }
    assert row[..k] == row;
  }

  /** The record for a claim whose best match is `e` with similarity `score`. */
  function MatchedTo(c: string, e: ExistingClaim, score: real, threshold: real): ClaimMapping {
    ClaimMapping(c, score < threshold, Some(ClaimMatch(e.claim, e.paperTitle, e.paperIndex)), score)
  }

  /** The body of the loop of `map_claims` for one claim and its row of similarities. */
  method MapOne(c: string, existing: seq<ExistingClaim>, row: seq<real>, threshold: real) returns (m: ClaimMapping)
    requires existing != [] && |row| == |existing|
    ensures m == MatchedTo(c, existing[ArgMax(row)], row[ArgMax(row)], threshold)
    ensures m.claim == c
    ensures forall k | 0 <= k < |row| :: row[k] <= m.similarity
    ensures m.isNovel <==> m.similarity < threshold
  {
    var bestJ := FirstArgMax(row);
    var bestScore := row[bestJ];
    var bestMatch := existing[bestJ];
    var isNovel := bestScore < threshold;
    m := ClaimMapping(c, isNovel, Some(ClaimMatch(bestMatch.claim, bestMatch.paperTitle, bestMatch.paperIndex)), bestScore);
  }

  /**
    `map_claims` given the cosine-similarity matrix `sim` of new claims
    (rows) against existing claims (columns). No new claims give no
    records; no existing claims make every claim novel with similarity 0;
    otherwise each claim is matched to the first existing claim of highest
    similarity, and is novel exactly when that similarity is below the
    threshold.
  */
  method MapClaims(newClaims: seq<string>, existing: seq<ExistingClaim>, sim: seq<seq<real>>, threshold: real)
    returns (mappings: seq<ClaimMapping>)
    requires newClaims != [] && existing != [] ==>
      |sim| == |newClaims| && forall i | 0 <= i < |sim| :: |sim[i]| == |existing|
    ensures |mappings| == |newClaims|
    ensures existing == [] ==>
      forall i | 0 <= i < |mappings| :: mappings[i] == ClaimMapping(newClaims[i], true, None, 0.0)
    ensures existing != [] ==>
      forall i | 0 <= i < |mappings| ::
        mappings[i] == MatchedTo(newClaims[i], existing[ArgMax(sim[i])], sim[i][ArgMax(sim[i])], threshold)
    ensures existing != [] ==>
      forall i | 0 <= i < |mappings| ::
        && mappings[i].claim == newClaims[i]
        && (forall k | 0 <= k < |sim[i]| :: sim[i][k] <= mappings[i].similarity)
        && (mappings[i].isNovel <==> mappings[i].similarity < threshold)
  {
    if newClaims == [] {
      return [];
    }
    if existing == [] {
      mappings := seq(|newClaims|, i requires 0 <= i < |newClaims| => ClaimMapping(newClaims[i], true, None, 0.0));
      return;
    }
    mappings := [];
    var i := 0;
    while i < |newClaims|
      invariant 0 <= i <= |newClaims|
      invariant |mappings| == i
      invariant forall n | 0 <= n < i ::
        mappings[n] == MatchedTo(newClaims[n], existing[ArgMax(sim[n])], sim[n][ArgMax(sim[n])], threshold)
      invariant forall n | 0 <= n < i ::
        && mappings[n].claim == newClaims[n]
        && (forall k | 0 <= k < |sim[n]| :: sim[n][k] <= mappings[n].similarity)
        && (mappings[n].isNovel <==> mappings[n].similarity < threshold)
    {
      var m := MapOne(newClaims[i], existing, sim[i], threshold);
      mappings := mappings + [m];
      i := i + 1;
    }
  }
}
