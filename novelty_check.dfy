/**
  Novelty reporting (utils/novelty_check.py): a title guess, a three-band
  label for a similarity score, and the ranked list of the most similar
  reference PDFs.

  The directory listing, the extracted texts and the embedding similarity
  are inputs: the listing is a sequence of names, and text extraction and
  similarity are function parameters.
*/
module NoveltyCheck {
  import opened Text
  import opened Seqs

  // ---------------------------------------------------------------------------
  // extract_title

  const UnknownTitle: string := "Unknown Title"

  /** A line that can serve as a title: more than five characters once stripped. */
  predicate TitleLine(line: string) {
    |Strip(line)| > 5
  }

  /** The title `extract_title` guesses from the lines of a text. */
  function TitleOf(lines: seq<string>): string {
    var i := FirstIndex(lines, TitleLine);
    if i < |lines| then Strip(lines[i]) else UnknownTitle
  }

  /**
    The guess is the stripped form of the first line that can serve as a
    title, or "Unknown Title" when no line can.
  */
  lemma TitleOfFirst(lines: seq<string>)
    ensures || (exists i | 0 <= i < |lines| :: TitleLine(lines[i]) && TitleOf(lines) == Strip(lines[i])
                                              && forall j | 0 <= j < i :: !TitleLine(lines[j]))
            || ((forall i | 0 <= i < |lines| :: !TitleLine(lines[i])) && TitleOf(lines) == UnknownTitle)
  {
    var i := FirstIndex(lines, TitleLine);
    if i < |lines| {
      assert TitleLine(lines[i]) && TitleOf(lines) == Strip(lines[i]);
    }
  }

  /** The loop of `extract_title`: the position of the first title line, or `|lines|`. */
  method FindTitleLine(lines: seq<string>) returns (i: nat)
    ensures i == FirstIndex(lines, TitleLine)
  {
    i := 0;
    assert lines[0..] == lines;
    while i < |lines|
      invariant 0 <= i <= |lines|
      invariant FirstIndex(lines, TitleLine) == i + FirstIndex(lines[i..], TitleLine)
    {
      FirstIndexStep(lines, TitleLine, i);
      if TitleLine(lines[i]) {
        return;
      }
      i := i + 1;
    }
    assert lines[i..] == [];
  }

  /** `extract_title`: the stripped first title line of `text.split("\n")`, or "Unknown Title". */
  method ExtractTitle(text: string) returns (title: string)
    ensures title == TitleOf(SplitOn(text, '\n'))
  {
    var lines := SplitOn(text, '\n');
    var i := FindTitleLine(lines);
    if i < |lines| {
      return Strip(lines[i]);
    }
    return UnknownTitle;
  }

  // ---------------------------------------------------------------------------
  // label_novelty

  datatype Novelty = NotNovel | PartiallyNovel | HighlyNovel {
    /** The label text the report shows. */
    function Text(): string {
      match this
      case NotNovel => "❌ Not Novel (very similar)"
      case PartiallyNovel => "⚠️ Partially Novel (some overlap)"
      case HighlyNovel => "✅ Highly Novel (no strong match)"
    }

    /** How similar a paper with this label is: higher means less novel. */
    function Rank(): nat {
      match this
      case HighlyNovel => 0
      case PartiallyNovel => 1
      case NotNovel => 2
    }
  }

  const NotNovelFrom: real := 0.40
  const PartiallyNovelFrom: real := 0.25

  /** `label_novelty`: three bands, each containing its lower bound. */
  function LabelNovelty(score: real): (n: Novelty)
    ensures n == NotNovel <==> score >= NotNovelFrom
    ensures n == PartiallyNovel <==> PartiallyNovelFrom <= score < NotNovelFrom
    ensures n == HighlyNovel <==> score < PartiallyNovelFrom
  {
    if score >= NotNovelFrom then NotNovel
    else if score >= PartiallyNovelFrom then PartiallyNovel
    else HighlyNovel
  }

  /** A higher similarity never gives a more novel label. */
  lemma LabelMonotone(a: real, b: real)
    requires a <= b
    ensures LabelNovelty(a).Rank() <= LabelNovelty(b).Rank()
  {
  }

  /** The three labels are told apart by their text. */
  lemma LabelTextsDistinct(m: Novelty, n: Novelty)
    requires m != n
    ensures m.Text() != n.Text()
  {
    assert m.Text()[0] != n.Text()[0];
  }

  // ---------------------------------------------------------------------------
  // novelty_check

  /** One entry of `results`. */
  datatype Entry = Entry(title: string, similarity: real, novelty: Novelty, file: string)

  /** `os.path.join(dir, name)` on POSIX: an absolute name replaces the directory. */
  function PathJoin(dir: string, name: string): (p: string)
    ensures name != [] && name[0] == '/' ==> p == name
    ensures EndsWith(p, name)
  {
    if name != [] && name[0] == '/' then name
    else if dir == [] || dir[|dir| - 1] == '/' then dir + name
    else dir + "/" + name
  }

  /** The entry for one PDF, given its text and its similarity to the query. */
  function EntryFor(path: string, text: string, sim: real): Entry {
    Entry(TitleOf(SplitOn(text, '\n')), sim, LabelNovelty(sim), path)
  }

  predicate IsPdfName(name: string) {
    EndsWith(name, ".pdf")
  }

  /** The entries of the listed names that end in ".pdf", in listing order. */
  function Candidates(dir: string, names: seq<string>, extract: string -> string, similarity: string -> real): (r: seq<Entry>)
    ensures |r| <= |names|
    decreases |names|
  {
    if names == [] then []
    else
      var name := names[|names| - 1];
      var path := PathJoin(dir, name);
      Candidates(dir, names[..|names| - 1], extract, similarity)
      + (if IsPdfName(name) then [EntryFor(path, extract(path), similarity(extract(path)))] else [])
  }

  lemma CandidatesSnoc(dir: string, names: seq<string>, i: nat, extract: string -> string, similarity: string -> real)
    requires i < |names|
    ensures var path := PathJoin(dir, names[i]);
      Candidates(dir, names[..i + 1], extract, similarity) == Candidates(dir, names[..i], extract, similarity)
        + (if IsPdfName(names[i]) then [EntryFor(path, extract(path), similarity(extract(path)))] else [])
  {
    assert names[..i + 1][..i] == names[..i];
  }

  /** The number of listed names that end in ".pdf". */
  function PdfCount(names: seq<string>): nat
    decreases |names|
  {
    if names == [] then 0 else PdfCount(names[..|names| - 1]) + (if IsPdfName(names[|names| - 1]) then 1 else 0)
  }

  /** The order of `sort(key=similarity, reverse=True)`. */
  predicate MoreSimilar(a: Entry, b: Entry) {
    a.similarity >= b.similarity
  }

  lemma MoreSimilarTotalPreorder()
    ensures TotalPreorder(MoreSimilar)
  {
  }

  /** One comparison of the loop in `novelty_check`. */
  method CompareFile(dir: string, name: string, extract: string -> string, similarity: string -> real) returns (e: Entry)
    requires IsPdfName(name)
    ensures e == EntryFor(PathJoin(dir, name), extract(PathJoin(dir, name)), similarity(extract(PathJoin(dir, name))))
  {
    var pdfPath := PathJoin(dir, name);
    var text := extract(pdfPath);
    var sim := similarity(text);
    var title := ExtractTitle(text);
    e := Entry(title, sim, LabelNovelty(sim), pdfPath);
  }

  /** One turn of the listing loop: the entry of `names[i]` is added when it ends in ".pdf". */
  method AddCandidate(dir: string, names: seq<string>, i: nat, extract: string -> string, similarity: string -> real,
                      results: seq<Entry>)
    returns (next: seq<Entry>)
    requires i < |names|
    requires results == Candidates(dir, names[..i], extract, similarity)
    ensures next == Candidates(dir, names[..i + 1], extract, similarity)
  {
    var name := names[i];
    CandidatesSnoc(dir, names, i, extract, similarity);
    next := results;
    if IsPdfName(name) {
      var e := CompareFile(dir, name, extract, similarity);
      next := results + [e];
    }
  }

  /**
    `novelty_check` without its console and file output: one entry per
    listed name ending in ".pdf", ranked by similarity, most similar first,
    ties in listing order, and cut to `top_k` as `results[:top_k]` does.
  */
  method NoveltyCheck(dir: string, names: seq<string>, topK: int, extract: string -> string, similarity: string -> real)
    returns (results: seq<Entry>)
    ensures results == PyHead(SortBy(MoreSimilar, Candidates(dir, names, extract, similarity)), topK)
  {
    results := [];
    var i := 0;
    while i < |names|
      invariant 0 <= i <= |names|
      invariant results == Candidates(dir, names[..i], extract, similarity)
    {
      results := AddCandidate(dir, names, i, extract, similarity, results);
      i := i + 1;
    }
    assert names[..i] == names;
    results := SortBy(MoreSimilar, results);
    results := PyHead(results, topK);
  }

  /** There is one candidate for every name ending in ".pdf", and each one's file is such a name in the directory. */
  lemma {:induction false} CandidatesFromPdfs(dir: string, names: seq<string>, extract: string -> string, similarity: string -> real)
    ensures |Candidates(dir, names, extract, similarity)| == PdfCount(names)
    ensures forall e | e in Candidates(dir, names, extract, similarity) :: exists n | n in names :: IsPdfName(n) && e.file == PathJoin(dir, n)
    decreases |names|
  {
    if names != [] {
      var k := |names| - 1;
      CandidatesFromPdfs(dir, names[..k], extract, similarity);
      forall e | e in Candidates(dir, names, extract, similarity)
        ensures exists n | n in names :: IsPdfName(n) && e.file == PathJoin(dir, n)
      {
        if e in Candidates(dir, names[..k], extract, similarity) {
          var n :| n in names[..k] && IsPdfName(n) && e.file == PathJoin(dir, n);
          assert n in names;
        } else {
          assert names[k] in names;
        }
      }
    }
  }

  /** Ranking any entries and cutting the list keeps them in non-increasing order of similarity. */
  lemma RankedSorted(cands: seq<Entry>, topK: int)
    ensures var results := PyHead(SortBy(MoreSimilar, cands), topK);
      forall i, j | 0 <= i < j < |results| :: results[i].similarity >= results[j].similarity
  {
    var sorted := SortBy(MoreSimilar, cands);
    var results := PyHead(sorted, topK);
    MoreSimilarTotalPreorder();
    SortSorted(MoreSimilar, cands);
    forall i, j | 0 <= i < j < |results|
      ensures results[i].similarity >= results[j].similarity
    {
      assert results[i] == sorted[i] && results[j] == sorted[j];
      assert MoreSimilar(sorted[i], sorted[j]);
    }
  }

  /** Ranking rearranges the entries and the cut keeps a prefix of them. */
  lemma RankedFrom(cands: seq<Entry>, topK: int)
    ensures var results := PyHead(SortBy(MoreSimilar, cands), topK);
      && (topK >= 0 ==> |results| == if topK < |cands| then topK else |cands|)
      && (topK < 0 ==> |results| == if |cands| + topK > 0 then |cands| + topK else 0)
      && forall e | e in results :: e in cands
  {
    var sorted := SortBy(MoreSimilar, cands);
    SortPermutes(MoreSimilar, cands);
    forall e | e in PyHead(sorted, topK)
      ensures e in cands
    {
      assert e in sorted;
      assert e in multiset(sorted);
    }
  }

  /**
    The results come from the ".pdf" names only, are in non-increasing
    order of similarity, and number `min(top_k, n)` for `n` PDFs (for a
    negative `top_k`, all but the last `-top_k`).
  */
  lemma NoveltyRanking(dir: string, names: seq<string>, topK: int, extract: string -> string, similarity: string -> real)
    ensures var results := PyHead(SortBy(MoreSimilar, Candidates(dir, names, extract, similarity)), topK);
      && (forall i, j | 0 <= i < j < |results| :: results[i].similarity >= results[j].similarity)
      && (topK >= 0 ==> |results| == if topK < PdfCount(names) then topK else PdfCount(names))
      && (topK < 0 ==> |results| == if PdfCount(names) + topK > 0 then PdfCount(names) + topK else 0)
      && (forall e | e in results :: exists n | n in names :: IsPdfName(n) && e.file == PathJoin(dir, n))
  {
    var cands := Candidates(dir, names, extract, similarity);
    RankedSorted(cands, topK);
    RankedFrom(cands, topK);
    CandidatesFromPdfs(dir, names, extract, similarity);
  }

  /** No PDF left out of the results is more similar than one kept. */
  lemma NoveltyKeepsMostSimilar(dir: string, names: seq<string>, k: nat, extract: string -> string, similarity: string -> real)
    ensures var cands := Candidates(dir, names, extract, similarity);
      var results := PyHead(SortBy(MoreSimilar, cands), k);
      && multiset(results) <= multiset(cands)
      && forall x, y | x in results && y in multiset(cands) - multiset(results) :: x.similarity >= y.similarity
  {
    var cands := Candidates(dir, names, extract, similarity);
    var results := PyHead(SortBy(MoreSimilar, cands), k);
    MoreSimilarTotalPreorder();
    SortedHeadDominates(MoreSimilar, cands, k);
    forall x, y | x in results && y in multiset(cands) - multiset(results)
      ensures x.similarity >= y.similarity
    {
      assert MoreSimilar(x, y);
    }
  }
}
