/**
  Chunk-level overlap detection between a paper and its references
  (utils/plagiarism_check.py).

  Text extraction from PDF files, the `SequenceMatcher` ratio and the
  embedding cosine similarity are inputs: the extracted texts and the two
  score functions are parameters, as is the file-existence test.
*/
module PlagiarismCheck {
  import opened Wrappers
  import opened Text
  import opened Seqs

  const DefaultChunkSize: nat := 500

  // ---------------------------------------------------------------------------
  // split_into_chunks

  /** `[ws[i:i+size] for i in range(0, len(ws), size)]`. */
  function Groups<T>(ws: seq<T>, size: nat): seq<seq<T>>
    requires size > 0
    decreases |ws|
  {
    if ws == [] then []
    else if |ws| <= size then [ws]
    else [ws[..size]] + Groups(ws[size..], size)
  }

  /** `ceil(n / d)`. */
  function CeilDiv(n: nat, d: nat): nat
    requires d > 0
  {
    (n + d - 1) / d
  }

  lemma MulLe(a: int, b: int, d: int)
    requires a <= b && d >= 0
    ensures a * d <= b * d
  {
    assert b * d - a * d == (b - a) * d;
  }

  /** The quotient is the one multiple that fits. */
  lemma DivUnique(a: int, d: int, q: int)
    requires d > 0 && q * d <= a < (q + 1) * d
    ensures a / d == q
  {
    var q0 := a / d;
    if q0 < q {
      MulLe(q0 + 1, q, d);
    } else if q0 > q {
      MulLe(q + 1, q0, d);
    }
  }

  lemma CeilStep(n: nat, size: nat)
    requires size > 0
    ensures (n + size + size - 1) / size == (n + size - 1) / size + 1
  {
    var q := (n + size - 1) / size;
    assert q * size <= n + size - 1 < (q + 1) * size;
    assert (q + 1) * size == q * size + size && (q + 2) * size == (q + 1) * size + size;
    DivUnique(n + size + size - 1, size, q + 1);
  }

  lemma CeilOne(n: nat, size: nat)
    requires 0 < n <= size
    ensures (n + size - 1) / size == 1
  {
    DivUnique(n + size - 1, size, 1);
  }

  /**
    The groups put back together give the sequence; every group is
    non-empty and at most `size` long, all but the last exactly `size`, and
    there are `ceil(|ws| / size)` of them.
  */
  lemma {:induction false} GroupsShape<T>(ws: seq<T>, size: nat)
    requires size > 0
    ensures Flatten(Groups(ws, size)) == ws
    ensures forall i | 0 <= i < |Groups(ws, size)| :: 0 < |Groups(ws, size)[i]| <= size
    ensures forall i | 0 <= i < |Groups(ws, size)| - 1 :: |Groups(ws, size)[i]| == size
    ensures |Groups(ws, size)| == CeilDiv(|ws|, size)
    decreases |ws|
  {
    var gs := Groups(ws, size);
    if ws == [] {
    } else if |ws| <= size {
      CeilOne(|ws|, size);
      assert Flatten(gs) == ws + Flatten([]);
    } else {
      var rest := Groups(ws[size..], size);
      GroupsShape(ws[size..], size);
      assert gs == [ws[..size]] + rest;
      assert gs[1..] == rest;
      assert ws == ws[..size] + ws[size..];
      CeilStep(|ws| - size, size);
      forall i | 1 <= i < |gs|
        ensures gs[i] == rest[i - 1]
      {
      }
    }
  }

  /** `split_into_chunks`: the words of the text, `size` at a time, each group joined by single spaces. */
  function SplitIntoChunks(text: string, size: int): seq<string>
    requires size != 0
  {
    if size < 0 then []
    else
      var gs := Groups(Words(text), size);
      seq(|gs|, i requires 0 <= i < |gs| => Join(" ", gs[i]))
  }

  /** Splitting every chunk into words gives back the groups of words it was made from. */
  lemma ChunkWords(text: string, size: nat)
    requires size > 0
    ensures |SplitIntoChunks(text, size)| == |Groups(Words(text), size)|
    ensures forall i | 0 <= i < |SplitIntoChunks(text, size)| :: Words(SplitIntoChunks(text, size)[i]) == Groups(Words(text), size)[i]
  {
    var ws := Words(text);
    var gs := Groups(ws, size);
    var cs := SplitIntoChunks(text, size);
    WordsAreWords(text);
    GroupsShape(ws, size);
    forall i | 0 <= i < |cs|
      ensures Words(cs[i]) == gs[i]
    {
      GroupedWords(ws, size, i);
      WordsOfJoin(gs[i]);
    }
  }

  /** Every element of a group is an element of the grouped sequence. */
  lemma {:induction false} GroupedWords(ws: seq<string>, size: nat, i: nat)
    requires size > 0
    requires forall k | 0 <= k < |ws| :: IsWord(ws[k])
    requires i < |Groups(ws, size)|
    ensures forall k | 0 <= k < |Groups(ws, size)[i]| :: IsWord(Groups(ws, size)[i][k])
    decreases |ws|
  {
    if |ws| > size {
      if i > 0 {
        GroupedWords(ws[size..], size, i - 1);
        assert Groups(ws, size)[i] == Groups(ws[size..], size)[i - 1];
      }
    }
  }

  /** The words of each chunk, in chunk order. */
  function WordsOfChunks(chunks: seq<string>): (r: seq<seq<string>>)
    ensures |r| == |chunks|
  {
    seq(|chunks|, i requires 0 <= i < |chunks| => Words(chunks[i]))
  }

  /**
    Chunking loses and reorders nothing: the words of the chunks, one chunk
    after another, are the words of the text.
  */
  lemma ChunksRoundTrip(text: string, size: nat)
    requires size > 0
    ensures Flatten(WordsOfChunks(SplitIntoChunks(text, size))) == Words(text)
  {
    var cs := SplitIntoChunks(text, size);
    var gs := Groups(Words(text), size);
    ChunkWords(text, size);
    GroupsShape(Words(text), size);
    assert WordsOfChunks(cs) == gs;
  }

  /**
    A chunk has at most `size` words, every chunk but the last exactly
    `size`, and there are `ceil(n / size)` chunks for `n` words, so an empty
    text has none.
  */
  lemma ChunkSizes(text: string, size: nat)
    requires size > 0
    ensures forall i | 0 <= i < |SplitIntoChunks(text, size)| :: 0 < |Words(SplitIntoChunks(text, size)[i])| <= size
    ensures forall i | 0 <= i < |SplitIntoChunks(text, size)| - 1 :: |Words(SplitIntoChunks(text, size)[i])| == size
    ensures |SplitIntoChunks(text, size)| == CeilDiv(|Words(text)|, size)
  {
    var cs := SplitIntoChunks(text, size);
    var gs := Groups(Words(text), size);
    ChunkWords(text, size);
    GroupsShape(Words(text), size);
    assert |cs| == |gs|;
    forall i | 0 <= i < |cs|
      ensures 0 < |Words(cs[i])| <= size
      ensures i < |cs| - 1 ==> |Words(cs[i])| == size
    {
      assert Words(cs[i]) == gs[i];
    }
  }

  // ---------------------------------------------------------------------------
  // calculate_exact_overlap, calculate_paraphrase_overlap

  const ExactThreshold: real := 0.8
  const ParaphraseThreshold: real := 0.7

  /** `score if score >= threshold else None`. */
  function Gate(score: real, threshold: real): (r: Option<real>)
    ensures r.Some? <==> score >= threshold
    ensures r.Some? ==> r.value == score
  {
    if score >= threshold then Some(score) else None
  }

  /** `calculate_exact_overlap`, given the `SequenceMatcher` ratio of the two chunks. */
  function CalculateExactOverlap(ratio: real): (r: Option<real>)
    ensures r.Some? <==> ratio >= 0.8
    ensures r.Some? ==> r.value == ratio
  {
    Gate(ratio, ExactThreshold)
  }

  /** `calculate_paraphrase_overlap`, given the cosine similarity of the two chunk embeddings. */
  function CalculateParaphraseOverlap(cosine: real): (r: Option<real>)
    ensures r.Some? <==> cosine >= 0.7
    ensures r.Some? ==> r.value == cosine
  {
    Gate(cosine, ParaphraseThreshold)
  }

  /** Python truthiness of an optional score: `None` and `0.0` are false. */
  predicate Truthy(r: Option<real>) {
    r.Some? && r.value != 0.0
  }

  /**
    With a positive threshold a passing score is never 0, so testing the
    gate's result for truth is the same as comparing with the threshold.
  */
  lemma GateTruthy(score: real, threshold: real)
    requires threshold > 0.0
    ensures Truthy(Gate(score, threshold)) <==> score >= threshold
  {
  }

  // ---------------------------------------------------------------------------
  // run_plagiarism_check

  /** An entry of the metadata list: its `pdf_path` and `title` keys, when present. */
  datatype PaperRecord = PaperRecord(pdfPath: Option<string>, title: Option<string>)

  datatype MatchType = ExactOverlap | ParaphraseOverlap

  datatype Match = Match(chunk: string, score: real, matchType: MatchType)

  datatype Summary = Summary(exactOverlapCount: nat, paraphraseOverlapCount: nat)

  datatype Report = Report(
    paper: string,
    references: seq<string>,
    exactOverlap: seq<Match>,
    paraphraseOverlap: seq<Match>,
    summary: Summary)

  /** The error `paper['title']` raises for a compared paper without a title. */
  const MissingTitle: string := "KeyError: 'title'"

  /** `paper.get("pdf_path")` is truthy: present and not empty. */
  predicate HasPath(p: PaperRecord) {
    p.pdfPath.Some? && p.pdfPath.value != ""
  }

  /** A paper that is compared: it has a path and the file exists. */
  predicate Compared(p: PaperRecord, exists_: string -> bool) {
    HasPath(p) && exists_(p.pdfPath.value)
  }

  /** The matches of one kind for one pair of chunks: one when the gated score is truthy. */
  function PairMatch(t: string, r: string, score: (string, string) -> real, threshold: real, kind: MatchType): seq<Match> {
    var g := Gate(score(t, r), threshold);
    if Truthy(g) then [Match(t, g.value, kind)] else []
  }

  /** The matches of test chunk `t` against each reference chunk in turn. */
  function RowMatches(t: string, refs: seq<string>, score: (string, string) -> real, threshold: real, kind: MatchType): seq<Match>
    decreases |refs|
  {
    if refs == [] then []
    else RowMatches(t, refs[..|refs| - 1], score, threshold, kind) + PairMatch(t, refs[|refs| - 1], score, threshold, kind)
  }

  /** The matches of every test chunk against the chunks of one reference. */
  function PaperMatches(tests: seq<string>, refs: seq<string>, score: (string, string) -> real, threshold: real, kind: MatchType): seq<Match>
    decreases |tests|
  {
    if tests == [] then []
    else PaperMatches(tests[..|tests| - 1], refs, score, threshold, kind) + RowMatches(tests[|tests| - 1], refs, score, threshold, kind)
  }

  /** The chunks of a compared reference's text. */
  function RefChunks(p: PaperRecord, extract: string -> string): seq<string>
    requires HasPath(p)
  {
    SplitIntoChunks(extract(p.pdfPath.value), DefaultChunkSize)
  }

  /** The matches of one kind that paper `p` contributes: none when it is not compared. */
  function Contribution(tests: seq<string>, p: PaperRecord, exists_: string -> bool, extract: string -> string,
                        score: (string, string) -> real, threshold: real, kind: MatchType): seq<Match> {
    if Compared(p, exists_) then PaperMatches(tests, RefChunks(p, extract), score, threshold, kind) else []
  }

  /** The matches of one kind over all papers; a skipped paper contributes none. */
  function AllMatches(tests: seq<string>, papers: seq<PaperRecord>, exists_: string -> bool, extract: string -> string,
                      score: (string, string) -> real, threshold: real, kind: MatchType): seq<Match>
    decreases |papers|
  {
    if papers == [] then []
    else
      var p := papers[|papers| - 1];
      AllMatches(tests, papers[..|papers| - 1], exists_, extract, score, threshold, kind)
      + Contribution(tests, p, exists_, extract, score, threshold, kind)
  }

  /** `[p.get("pdf_path") for p in metadata_list if p.get("pdf_path")]`. */
  function References(papers: seq<PaperRecord>): (r: seq<string>)
    decreases |papers|
  {
    if papers == [] then []
    else
      var p := papers[|papers| - 1];
      References(papers[..|papers| - 1]) + (if HasPath(p) then [p.pdfPath.value] else [])
  }

  /** A reported match is of the right kind, for a test chunk, with a score at the threshold. */
  ghost predicate SoundMatch(m: Match, tests: seq<string>, threshold: real, kind: MatchType) {
    m.chunk in tests && m.score >= threshold && m.matchType == kind
  }

  lemma {:induction false} RowMatchesSound(t: string, refs: seq<string>, score: (string, string) -> real, threshold: real, kind: MatchType)
    ensures forall m | m in RowMatches(t, refs, score, threshold, kind) :: m.chunk == t && m.score >= threshold && m.matchType == kind
    decreases |refs|
  {
    if refs != [] {
      RowMatchesSound(t, refs[..|refs| - 1], score, threshold, kind);
    }
  }

  lemma {:induction false} PaperMatchesSound(tests: seq<string>, refs: seq<string>, score: (string, string) -> real, threshold: real, kind: MatchType)
    ensures forall m | m in PaperMatches(tests, refs, score, threshold, kind) :: SoundMatch(m, tests, threshold, kind)
    decreases |tests|
  {
    if tests != [] {
      var n := |tests| - 1;
      PaperMatchesSound(tests[..n], refs, score, threshold, kind);
      RowMatchesSound(tests[n], refs, score, threshold, kind);
      forall m | m in PaperMatches(tests, refs, score, threshold, kind)
        ensures SoundMatch(m, tests, threshold, kind)
      {
        if m in PaperMatches(tests[..n], refs, score, threshold, kind) {
          assert m.chunk in tests[..n];
        }
      }
    }
  }

  /**
    Every reported match belongs to a test chunk, carries a score at or
    above the threshold and is of the kind asked for.
  */
  lemma {:induction false} AllMatchesSound(tests: seq<string>, papers: seq<PaperRecord>, exists_: string -> bool, extract: string -> string,
                                           score: (string, string) -> real, threshold: real, kind: MatchType)
    ensures forall m | m in AllMatches(tests, papers, exists_, extract, score, threshold, kind) :: SoundMatch(m, tests, threshold, kind)
    decreases |papers|
  {
    if papers != [] {
      var n := |papers| - 1;
      var p := papers[n];
      AllMatchesSound(tests, papers[..n], exists_, extract, score, threshold, kind);
      if Compared(p, exists_) {
        PaperMatchesSound(tests, RefChunks(p, extract), score, threshold, kind);
      }
    }
  }

  /** Papers that are not compared add nothing. */
  lemma {:induction false} NothingComparedNoMatches(tests: seq<string>, papers: seq<PaperRecord>, exists_: string -> bool, extract: string -> string,
                                                    score: (string, string) -> real, threshold: real, kind: MatchType)
    requires forall i | 0 <= i < |papers| :: !Compared(papers[i], exists_)
    ensures AllMatches(tests, papers, exists_, extract, score, threshold, kind) == []
    decreases |papers|
  {
    if papers != [] {
      var n := |papers| - 1;
      assert forall i | 0 <= i < n :: papers[..n][i] == papers[i];
      NothingComparedNoMatches(tests, papers[..n], exists_, extract, score, threshold, kind);
    }
  }

  /** The test of `Compared` for a given file-existence test. */
  function ComparedBy(exists_: string -> bool): PaperRecord -> bool {
    p => Compared(p, exists_)
  }

  /** Appending a paper appends its contribution. */
  lemma AllMatchesSnoc(tests: seq<string>, ps: seq<PaperRecord>, p: PaperRecord, exists_: string -> bool,
                       extract: string -> string, score: (string, string) -> real, threshold: real, kind: MatchType)
    ensures AllMatches(tests, ps + [p], exists_, extract, score, threshold, kind)
      == AllMatches(tests, ps, exists_, extract, score, threshold, kind) + Contribution(tests, p, exists_, extract, score, threshold, kind)
  {
    var all := ps + [p];
    assert all[..|all| - 1] == ps;
    assert all[|all| - 1] == p;
  }

  /**
    Only the compared papers count: the matches over all papers are the
    matches over the compared ones, in the same order.
  */
  lemma {:induction false} AllMatchesOnlyCompared(tests: seq<string>, papers: seq<PaperRecord>, exists_: string -> bool, extract: string -> string,
                                                  score: (string, string) -> real, threshold: real, kind: MatchType)
    ensures AllMatches(tests, papers, exists_, extract, score, threshold, kind)
      == AllMatches(tests, Filter(ComparedBy(exists_), papers), exists_, extract, score, threshold, kind)
    decreases |papers|
  {
    if papers != [] {
      var n := |papers| - 1;
      var init, p := papers[..n], papers[n];
      var f := Filter(ComparedBy(exists_), init);
      var c := Contribution(tests, p, exists_, extract, score, threshold, kind);
      assert papers == init + [p];
      AllMatchesSnoc(tests, init, p, exists_, extract, score, threshold, kind);
      AllMatchesOnlyCompared(tests, init, exists_, extract, score, threshold, kind);
      FilterSnoc(ComparedBy(exists_), init, p);
      if Compared(p, exists_) {
        assert Filter(ComparedBy(exists_), papers) == f + [p];
        AllMatchesSnoc(tests, f, p, exists_, extract, score, threshold, kind);
      } else {
        assert Filter(ComparedBy(exists_), papers) == f;
        assert c == [];
      }
    }
  }

  /** The references are exactly the non-empty paths of the papers, in paper order. */
  lemma {:induction false} ReferencesMembers(papers: seq<PaperRecord>)
    ensures forall r :: r in References(papers) <==> exists i | 0 <= i < |papers| :: HasPath(papers[i]) && papers[i].pdfPath.value == r
    ensures forall r | r in References(papers) :: r != ""
    decreases |papers|
  {
    if papers != [] {
      var n := |papers| - 1;
      var init := papers[..n];
      ReferencesMembers(init);
      forall r
        ensures r in References(papers) <==> exists i | 0 <= i < |papers| :: HasPath(papers[i]) && papers[i].pdfPath.value == r
      {
        if r in References(init) {
          var i :| 0 <= i < n && HasPath(init[i]) && init[i].pdfPath.value == r;
          assert papers[i] == init[i];
        }
        if exists i | 0 <= i < |papers| :: HasPath(papers[i]) && papers[i].pdfPath.value == r {
          var i :| 0 <= i < |papers| && HasPath(papers[i]) && papers[i].pdfPath.value == r;
          if i < n {
            assert init[i] == papers[i];
          }
        }
      }
    }
  }

  /** Some compared paper lacks a title, so the comparison loop stops with a `KeyError`. */
  predicate TitleMissing(papers: seq<PaperRecord>, exists_: string -> bool) {
    exists i | 0 <= i < |papers| :: Compared(papers[i], exists_) && papers[i].title.None?
  }

  lemma TitleMissingSnoc(papers: seq<PaperRecord>, k: nat, exists_: string -> bool)
    requires k < |papers|
    ensures TitleMissing(papers[..k + 1], exists_) <==>
      TitleMissing(papers[..k], exists_) || (Compared(papers[k], exists_) && papers[k].title.None?)
  {
    var pre := papers[..k + 1];
    assert forall i | 0 <= i < k :: pre[i] == papers[..k][i];
    assert pre[k] == papers[k];
  }

  /** A missing title among the first `k` compared papers is a missing title among all of them. */
  lemma TitleMissingPrefix(papers: seq<PaperRecord>, k: nat, exists_: string -> bool)
    requires k <= |papers| && TitleMissing(papers[..k], exists_)
    ensures TitleMissing(papers, exists_)
  {
    var i :| 0 <= i < k && Compared(papers[..k][i], exists_) && papers[..k][i].title.None?;
    assert papers[..k][i] == papers[i];
  }

  /** The matches of one pair of chunks, of both kinds. */
  method ComparePair(t: string, r: string, exactRatio: (string, string) -> real, cosine: (string, string) -> real)
    returns (exact: seq<Match>, para: seq<Match>)
    ensures exact == PairMatch(t, r, exactRatio, ExactThreshold, ExactOverlap)
    ensures para == PairMatch(t, r, cosine, ParaphraseThreshold, ParaphraseOverlap)
  {
    exact, para := [], [];
    var scoreExact := CalculateExactOverlap(exactRatio(t, r));
    if Truthy(scoreExact) {
      exact := [Match(t, scoreExact.value, ExactOverlap)];
    }
    var scorePara := CalculateParaphraseOverlap(cosine(t, r));
    if Truthy(scorePara) {
      para := [Match(t, scorePara.value, ParaphraseOverlap)];
    }
  }

  /** The innermost loop of `run_plagiarism_check`: one test chunk against every chunk of a reference. */
  method CompareRow(t: string, refs: seq<string>, exactRatio: (string, string) -> real, cosine: (string, string) -> real)
    returns (rowExact: seq<Match>, rowPara: seq<Match>)
    ensures rowExact == RowMatches(t, refs, exactRatio, ExactThreshold, ExactOverlap)
    ensures rowPara == RowMatches(t, refs, cosine, ParaphraseThreshold, ParaphraseOverlap)
  {
    rowExact, rowPara := [], [];
    var j := 0;
    while j < |refs|
      invariant 0 <= j <= |refs|
      invariant rowExact == RowMatches(t, refs[..j], exactRatio, ExactThreshold, ExactOverlap)
      invariant rowPara == RowMatches(t, refs[..j], cosine, ParaphraseThreshold, ParaphraseOverlap)
    {
      assert refs[..j + 1][..j] == refs[..j];
      var e, p := ComparePair(t, refs[j], exactRatio, cosine);
      rowExact, rowPara := rowExact + e, rowPara + p;
      j := j + 1;
    }
    assert refs[..j] == refs;
  }

  /** The two inner loops of `run_plagiarism_check`, for one compared reference. */
  method ComparePaper(tests: seq<string>, refs: seq<string>, exactRatio: (string, string) -> real, cosine: (string, string) -> real)
    returns (exact: seq<Match>, para: seq<Match>)
    ensures exact == PaperMatches(tests, refs, exactRatio, ExactThreshold, ExactOverlap)
    ensures para == PaperMatches(tests, refs, cosine, ParaphraseThreshold, ParaphraseOverlap)
  {
    exact, para := [], [];
    var i := 0;
    while i < |tests|
      invariant 0 <= i <= |tests|
      invariant exact == PaperMatches(tests[..i], refs, exactRatio, ExactThreshold, ExactOverlap)
      invariant para == PaperMatches(tests[..i], refs, cosine, ParaphraseThreshold, ParaphraseOverlap)
    {
      assert tests[..i + 1][..i] == tests[..i];
      var rowExact, rowPara := CompareRow(tests[i], refs, exactRatio, cosine);
      exact, para := exact + rowExact, para + rowPara;
      i := i + 1;
    }
    assert tests[..i] == tests;
  }

  /**
    The outer loop of `run_plagiarism_check`: every reference whose PDF
    exists is compared, until one of them turns out to have no title.
  */
  method CompareAll(tests: seq<string>, papers: seq<PaperRecord>, exists_: string -> bool, extract: string -> string,
                    exactRatio: (string, string) -> real, cosine: (string, string) -> real)
    returns (ok: bool, exact: seq<Match>, para: seq<Match>)
    ensures ok <==> !TitleMissing(papers, exists_)
    ensures ok ==> exact == AllMatches(tests, papers, exists_, extract, exactRatio, ExactThreshold, ExactOverlap)
    ensures ok ==> para == AllMatches(tests, papers, exists_, extract, cosine, ParaphraseThreshold, ParaphraseOverlap)
  {
    exact, para := [], [];
    var k := 0;
    while k < |papers|
      invariant 0 <= k <= |papers|
      invariant !TitleMissing(papers[..k], exists_)
      invariant exact == AllMatches(tests, papers[..k], exists_, extract, exactRatio, ExactThreshold, ExactOverlap)
      invariant para == AllMatches(tests, papers[..k], exists_, extract, cosine, ParaphraseThreshold, ParaphraseOverlap)
    {
      var paper := papers[k];
      assert papers[..k + 1][..k] == papers[..k];
      TitleMissingSnoc(papers, k, exists_);
      if paper.pdfPath == None || paper.pdfPath.value == "" || !exists_(paper.pdfPath.value) {
        k := k + 1;
        continue;
      }
      if paper.title == None {
        TitleMissingPrefix(papers, k + 1, exists_);
        return false, exact, para;
      }
      var refs := SplitIntoChunks(extract(paper.pdfPath.value), DefaultChunkSize);
      var e, p := ComparePaper(tests, refs, exactRatio, cosine);
      exact, para := exact + e, para + p;
      k := k + 1;
    }
    assert papers[..k] == papers;
    ok := true;
  }

  /** The list of reference paths `run_plagiarism_check` reports. */
  method CollectReferences(papers: seq<PaperRecord>) returns (references: seq<string>)
    ensures references == References(papers)
  {
    references := [];
    var r := 0;
    while r < |papers|
      invariant 0 <= r <= |papers|
      invariant references == References(papers[..r])
    {
      assert papers[..r + 1][..r] == papers[..r];
      if papers[r].pdfPath.Some? && papers[r].pdfPath.value != "" {
        references := references + [papers[r].pdfPath.value];
      }
      r := r + 1;
    }
    assert papers[..r] == papers;
  }

  /**
    `run_plagiarism_check` once the test paper's text is extracted: compares
    its chunks with those of every reference whose PDF exists, and reports
    the matches and their counts. Fails as the source does when a compared
    reference has no title.
  */
  method RunPlagiarismCheck(
    testPdf: string, testText: string, papers: seq<PaperRecord>,
    exists_: string -> bool, extract: string -> string,
    exactRatio: (string, string) -> real, cosine: (string, string) -> real)
    returns (result: Result<Report, string>)
    ensures result.Err? <==> TitleMissing(papers, exists_)
    ensures result.Err? ==> result.error == MissingTitle
    ensures result.Ok? ==> result.value == Report(
      testPdf,
      References(papers),
      AllMatches(SplitIntoChunks(testText, DefaultChunkSize), papers, exists_, extract, exactRatio, ExactThreshold, ExactOverlap),
      AllMatches(SplitIntoChunks(testText, DefaultChunkSize), papers, exists_, extract, cosine, ParaphraseThreshold, ParaphraseOverlap),
      Summary(|result.value.exactOverlap|, |result.value.paraphraseOverlap|))
  {
    var tests := SplitIntoChunks(testText, DefaultChunkSize);
    var ok, exact, para := CompareAll(tests, papers, exists_, extract, exactRatio, cosine);
    if !ok {
      return Err(MissingTitle);
    }
    var references := CollectReferences(papers);
    result := Ok(Report(testPdf, references, exact, para, Summary(|exact|, |para|)));
  }
}
