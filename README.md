# ReviewMatch heuristics in Dafny

ReviewMatch AI is a paper-review pipeline. It parses submitted PDFs, looks
up similar papers, checks novelty, plagiarism, numeric facts and outdated
citations, and keeps user accounts in SQLite. Around its calls to PDF,
embedding, GROBID and database libraries it uses a set of small,
deterministic heuristics. This project models those heuristics and proves
what they promise. Wherever a library result is involved, that result is an
input: a similarity score or matrix, a list of split pieces, a SHA-256
digest, a directory listing, an "exists" test or a statement executor.

The modules follow the source files:

- `ClaimsMapping` (utils/claims_mapping.py): sentence splitting, the keyword
  claim filter, the "longest sentences" fallback, the index guard when
  gathering claims, and the first-argmax/threshold novelty decision of
  `map_claims`.
- `FactualCheck` (utils/factual_check.py): unit-token normalisation, metric
  labels from cue phrases (an in-place update of an array of mentions), range
  checks, bucketed consistency checks and the z-score outlier test.
- `PlagiarismCheck` (utils/plagiarism_check.py): word chunking, the two
  threshold gates, the nested comparison loops and the report with its
  summary counts.
- `NoveltyCheck` (utils/novelty_check.py): title guess, three-band label,
  descending sort and top-k cut.
- `CitationAlerts` (utils/grobid_citation_alerts.py): Python's `int()` on a
  reference's year field, the outdated filter and the report counts.
- `ReviewApp` (app.py): the upload extension check and the heading/content
  pairing of `parse_review`.
- `DbUtils` (database/db_utils.py): password hash and verify over an
  uninterpreted digest, the allow-list that builds `update_user`'s
  statement, and the removal of the hash in `authenticate_user`.

Shared modules:

- `Wrappers`: `Option` and `Result`.
- `Text`: Python white space, ASCII lower-casing, `strip`, `split()`,
  `split(sep)`, `join`, substring search and a lexicographic order.
- `Seqs`: filter, `FlatMap`, a stable descending insertion sort, Python slice
  `[:k]`, flatten and an in-place `UpdateEach` over an array.
- `Dicts`: a Python dict as an insertion-ordered list of pairs.

Scores are real numbers. Python dicts that the code iterates over or builds
keep their insertion order in the model.

The conflict-of-interest separation scorer that the database schema's author
columns suggest is not part of this model: none of the modelled files
implements it.

## Model

| member | source | states |
|---|---|---|
| ClaimsMapping.CollapseSpace | utils/claims_mapping.py:60 | no white space other than single spaces is left; the result is empty exactly when the text is, and starts with a space exactly when the text starts with white space |
| ClaimsMapping.CollapseSpaceLast | utils/claims_mapping.py:60 | the result ends with a space exactly when the text ends with white space |
| ClaimsMapping.CollapseAfterWord | utils/claims_mapping.py:60 | a white-space-free prefix comes through the substitution unchanged |
| ClaimsMapping.CollapseSpaceWords | utils/claims_mapping.py:60 | the substitution keeps the text's words, in order: `split()` of the result is `split()` of the text |
| ClaimsMapping.SplitAtBoundaries | utils/claims_mapping.py:62 | the split always yields at least one piece; with SplitAtBoundariesJoin, SplitAtBoundariesEnds and SplitAtBoundariesMaximal it is `re.split` at every space after a terminator |
| ClaimsMapping.SplitAtBoundariesJoin | utils/claims_mapping.py:62 | joining the pieces of the split with single spaces gives the (collapsed) text back |
| ClaimsMapping.SplitAtBoundariesEnds | utils/claims_mapping.py:62 | every piece but the last ends with '.', '?' or '!', as the lookbehind requires |
| ClaimsMapping.SplitAtBoundariesMaximal | utils/claims_mapping.py:62 | no piece holds a space right after a terminator: the split is taken at every such point |
| ClaimsMapping.StripAll | utils/claims_mapping.py:63 | one stripped piece per piece, in order |
| ClaimsMapping.KeepSentences | utils/claims_mapping.py:63 | the comprehension, piece by piece: each piece stripped and kept when it has at least 30 characters |
| ClaimsMapping.KeepSentencesFilters | utils/claims_mapping.py:63 | the comprehension is the length filter over the stripped pieces, so KeptPiecesExactly and KeptPiecesShape describe what it keeps |
| ClaimsMapping.KeptPiecesExactly | utils/claims_mapping.py:63 | a piece is kept iff it is a stripped piece of at least 30 characters |
| ClaimsMapping.KeptPiecesShape | utils/claims_mapping.py:63 | the pieces kept have stripped length at least 30 and no white space at either end, and they keep the order of the stripped pieces |
| ClaimsMapping.SplitIntoSentences | utils/claims_mapping.py:55-64 | collapse, split, strip and keep the pieces of at least 30 characters; SentencesShape states that exactly those pieces are returned, in order, and with CollapseSpaceWords and SplitAtBoundariesJoin no word is lost before the length filter |
| ClaimsMapping.SentencesShape | utils/claims_mapping.py:55-64 | a text is a sentence iff it is a stripped piece of the split with at least `MIN_SENT_LEN` (30) characters; every sentence has no edge white space, and the sentences keep the order of the pieces |
| ClaimsMapping.ExtractClaimsByKeywords | utils/claims_mapping.py:66-75 | the loop returns the keyword claims in input order; a sentence is returned iff its lower-cased form contains one of `CLAIM_KEYWORDS` |
| ClaimsMapping.LongerOrEqualTotalPreorder | utils/claims_mapping.py:125 | "at least as long" is a total preorder, so sorting by length is well defined |
| ClaimsMapping.FallbackTakesLongest | utils/claims_mapping.py:123-126 | with no keyword claim, the fallback takes min(n, number of sentences) of the sentences, and none left out is longer than one taken |
| ClaimsMapping.ClaimRecords | utils/claims_mapping.py:127-132 | one record per claim, in order, with the paper's index and title |
| ClaimsMapping.ClaimsWithFallback | utils/claims_mapping.py:121-126 | the keyword claims, or the n longest sentences when there are none |
| ClaimsMapping.EntryClaims | utils/claims_mapping.py:112-132 | no record for an index outside the metadata list, and every record names the paper at its index with that paper's title |
| ClaimsMapping.ClaimsOfEntry | utils/claims_mapping.py:112-132 | one entry's records; an out-of-range index or a missing or empty text contributes none, and every record has a valid index and that paper's title |
| ClaimsMapping.RecordsFor | utils/claims_mapping.py:127-132 | the append loop builds exactly the records of the claims |
| ClaimsMapping.GatherExistingClaims | utils/claims_mapping.py:105-133 | the records of all entries, entry by entry, and every `paper_index` is within the metadata list |
| ClaimsMapping.ExtractNewClaims | utils/claims_mapping.py:155-163 | an error exactly when no text (or empty text) was extracted; otherwise the text itself is returned with the claims |
| ClaimsMapping.ClaimsOrLongestShape | utils/claims_mapping.py:120-126 | the keyword claims when there are any; otherwise at most n sentences, drawn from the sentences, none of them shorter than one left out |
| ClaimsMapping.FallbackLength | utils/claims_mapping.py:162 | with no keyword claim, the fallback holds at most `n` sentences (the length half of ClaimsOrLongestShape) |
| ClaimsMapping.NewClaimsFallback | utils/claims_mapping.py:158-163 | the new paper's claims are its keyword claims or at most 5 of its longest sentences |
| ClaimsMapping.ArgMax | utils/claims_mapping.py:190 | the first index of a row that holds the row's maximum |
| ClaimsMapping.ArgMaxUnique | utils/claims_mapping.py:190 | an index is a first maximum of the row iff it is `ArgMax` |
| ClaimsMapping.FirstArgMax | utils/claims_mapping.py:190 | the scan finds the first index with the largest score, as `np.argmax` does |
| ClaimsMapping.MapOne | utils/claims_mapping.py:189-201 | one mapping: the claim, the existing claim at the first argmax, a score at least every score of the row, and `is_novel` iff that score is below the threshold |
| ClaimsMapping.MapClaims | utils/claims_mapping.py:172-202 | one mapping per new claim, in order; with no existing claims every claim is novel with similarity 0.0; otherwise each is matched to the first argmax of its row and is novel iff the best score is below the threshold |
| FactualCheck.NormalizeUnitToken | utils/factual_check.py:60-63 | the result is None exactly when the token is |
| FactualCheck.AliasTargetsLetters | utils/factual_check.py:37-43 | every unit name in `UNIT_ALIASES` is lower-case ASCII letters |
| FactualCheck.AliasTargetsFinal | utils/factual_check.py:37-43 | every unit name is already stripped and lower case, and none is itself an alias |
| FactualCheck.NormalKey | utils/factual_check.py:63 | a stripped, lower-cased token is unchanged by stripping and lower-casing again |
| FactualCheck.ResolveFinal | utils/factual_check.py:63 | resolving an alias twice is resolving it once, and resolution keeps a normal form normal |
| FactualCheck.NormalizeIdempotent | utils/factual_check.py:60-63 | normalising a normalised token changes nothing |
| FactualCheck.NormalizeAliasExample | utils/factual_check.py:38 | "MS " normalises to "millisecond" |
| FactualCheck.MetricLabelsFor | utils/factual_check.py:115 | the metrics of `METRIC_CUES` with a cue in the context, by name; MetricLabelsMembers states membership and order |
| FactualCheck.MetricLabelsMembers | utils/factual_check.py:115 | a label is bound iff it names a metric of `METRIC_CUES` with a cue in the context, and the labels keep the declaration order of `METRIC_CUES` |
| FactualCheck.BindMetricLabels | utils/factual_check.py:112-115 | every mention in the array gets exactly the labels of its context, and nothing else about it changes |
| FactualCheck.MentionIssues | utils/factual_check.py:120-123 | at most one issue per mention; `range_error_percent` iff a percent lies outside [0, 100], `negative_physical_quantity` iff a time, length, memory or frequency value is negative |
| FactualCheck.CheckMention | utils/factual_check.py:120-123 | the two tests of the loop body raise exactly the mention's issues |
| FactualCheck.SanityChecks | utils/factual_check.py:117-124 | the issues of all mentions, in mention order |
| FactualCheck.SanityIssues | utils/factual_check.py:117-124 | the issues of every mention, one mention after another; SanityIssuesMembers bounds and characterises them |
| FactualCheck.SanityIssuesMembers | utils/factual_check.py:117-124 | no more issues than mentions, and an issue is reported iff some mention raises it |
| FactualCheck.KeyOf | utils/factual_check.py:129 | the bucket key: the sorted labels when there are any, else the kind and its converted unit; LabelKeySorted and SameBucketIffSameKey state it |
| FactualCheck.LabelKeySorted | utils/factual_check.py:129 | a labelled mention's key is its labels sorted, as a permutation of them |
| FactualCheck.BucketsOf | utils/factual_check.py:127-130 | the buckets after the grouping loop; BucketsContents and BucketsDistinct state what they hold |
| FactualCheck.BucketsContents | utils/factual_check.py:127-130 | the bucket of a key holds exactly the mentions with that key, in mention order, and a key with no mention has no bucket |
| FactualCheck.BucketsDistinct | utils/factual_check.py:127-130 | each key has one bucket |
| FactualCheck.WithKeyMembers | utils/factual_check.py:129-130 | a mention is in the list for a key iff it has that key |
| FactualCheck.SameBucketIffSameKey | utils/factual_check.py:129-130 | every mention has a bucket, and two mentions share a bucket iff their keys are equal |
| FactualCheck.Values | utils/factual_check.py:134 | the values of the bucket's items, one per item, in order |
| FactualCheck.SeqMax | utils/factual_check.py:135 | `max(vals)`: a value of the list no smaller than any other |
| FactualCheck.SeqMin | utils/factual_check.py:135 | `min(vals)`: a value of the list no larger than any other |
| FactualCheck.BucketIssue | utils/factual_check.py:133-139 | at most one issue per bucket, none for fewer than 2 items, always naming the bucket's key, and only for buckets with a percent or physical mention |
| FactualCheck.SpreadIff | utils/factual_check.py:135 | max − min ≥ 10 iff some two values lie at least 10 apart |
| FactualCheck.HundredFoldIff | utils/factual_check.py:138 | max / max(1e-12, min) ≥ 100 iff some value is at least 100 times another, floored at 1e-12 |
| FactualCheck.BucketPercentIff | utils/factual_check.py:135-136 | a bucket of 2 or more items with a percent mention is flagged `inconsistent_percent`, with its min and max, iff two values lie at least 10 apart |
| FactualCheck.BucketPhysicalIff | utils/factual_check.py:137-139 | when the percent test does not fire, a bucket is flagged `inconsistent_physical_quantity` iff it holds a physical mention and one value is a hundred-fold another |
| FactualCheck.IssuesOfBuckets | utils/factual_check.py:132-139 | no more issues than buckets |
| FactualCheck.GroupMentions | utils/factual_check.py:127-130 | the `defaultdict` loop builds exactly the buckets of the mentions |
| FactualCheck.CheckBucket | utils/factual_check.py:133-139 | the loop body raises exactly the bucket's issue |
| FactualCheck.InternalConsistencyChecks | utils/factual_check.py:126-140 | the issues of the buckets, in bucket order |
| FactualCheck.IssuesOfBucketsNamed | utils/factual_check.py:132-139 | every consistency issue names the key of a bucket with at least 2 items |
| FactualCheck.Zscore | utils/factual_check.py:163-164 | 0 when sigma ≤ 1e-12, otherwise the z with z · sigma = val − mu |
| FactualCheck.StatKey | utils/factual_check.py:170 | the key `f"{kind}::{si_unit}"` under which a mention's statistics are looked up; OutlierIssue names it in every issue |
| FactualCheck.OutlierIssue | utils/factual_check.py:170-175 | an issue iff the `kind::si_unit` key has statistics and abs(z) reaches the threshold; it names that key |
| FactualCheck.StatisticalPlausibilityChecks | utils/factual_check.py:166-176 | the outlier issues of all mentions, in mention order |
| FactualCheck.StatIssues | utils/factual_check.py:166-176 | the outlier issues of the mentions, in mention order; StatIssuesCount, StatIssuesSound and StatIssuesComplete state them |
| FactualCheck.StatIssuesCount | utils/factual_check.py:166-176 | one issue per outlier mention |
| FactualCheck.StatIssuesSound | utils/factual_check.py:171-175 | every issue is a statistical outlier whose bucket has statistics and whose abs(z) reaches the threshold |
| FactualCheck.StatIssuesComplete | utils/factual_check.py:171-175 | every outlier mention's issue is reported |
| PlagiarismCheck.SplitIntoChunks | utils/plagiarism_check.py:20-23 | the text's words, `size` at a time, joined by single spaces, and no chunk for a negative size; ChunksRoundTrip and ChunkSizes state it |
| PlagiarismCheck.GroupsShape | utils/plagiarism_check.py:23 | the groups flatten back to the words; each has 1 to size words, all but the last exactly size, and there are ceil(n / size) of them |
| PlagiarismCheck.ChunkWords | utils/plagiarism_check.py:20-23 | the words of chunk i are group i of the text's words |
| PlagiarismCheck.ChunksRoundTrip | utils/plagiarism_check.py:22-23 | the words of all chunks, concatenated, are `text.split()` |
| PlagiarismCheck.ChunkSizes | utils/plagiarism_check.py:23 | every chunk has 1 to size words, all but the last exactly size, and there are ceil(n / size) chunks, so empty text gives none |
| PlagiarismCheck.Gate | utils/plagiarism_check.py:27-28 | the score is returned iff it reaches the threshold, else None |
| PlagiarismCheck.CalculateExactOverlap | utils/plagiarism_check.py:25-28 | the ratio is returned iff it is at least 0.8, else None |
| PlagiarismCheck.CalculateParaphraseOverlap | utils/plagiarism_check.py:30-35 | the cosine similarity is returned iff it is at least 0.7, else None |
| PlagiarismCheck.GateTruthy | utils/plagiarism_check.py:68 | with a positive threshold, `if score:` on a gated score holds iff the score reaches the threshold |
| PlagiarismCheck.RowMatchesSound | utils/plagiarism_check.py:65-82 | every match of a test chunk is for that chunk, of the given kind, with a score at the threshold or above |
| PlagiarismCheck.PaperMatchesSound | utils/plagiarism_check.py:64-82 | every match of a paper is for one of the test chunks, of the given kind, at or above the threshold |
| PlagiarismCheck.AllMatchesSound | utils/plagiarism_check.py:54-82 | every match over all papers is sound in that sense |
| PlagiarismCheck.AllMatches | utils/plagiarism_check.py:54-82 | the matches of every compared paper, paper by paper; AllMatchesSound and AllMatchesOnlyCompared state them |
| PlagiarismCheck.AllMatchesSnoc | utils/plagiarism_check.py:54-58 | one more paper adds exactly its own matches, none when it is not compared |
| PlagiarismCheck.NothingComparedNoMatches | utils/plagiarism_check.py:55-58 | when every paper lacks a path or its file is missing, there are no matches |
| PlagiarismCheck.AllMatchesOnlyCompared | utils/plagiarism_check.py:55-58 | a paper without a path or whose file is missing contributes nothing wherever it stands: the matches over all papers are the matches over the compared ones |
| PlagiarismCheck.ReferencesMembers | utils/plagiarism_check.py:87 | `references` holds exactly the truthy `pdf_path`s, none of them empty |
| PlagiarismCheck.ComparePair | utils/plagiarism_check.py:66-82 | the pair's exact and paraphrase matches |
| PlagiarismCheck.CompareRow | utils/plagiarism_check.py:65-82 | the inner loop's matches for one test chunk |
| PlagiarismCheck.ComparePaper | utils/plagiarism_check.py:64-82 | the matches for one paper, test chunk by test chunk |
| PlagiarismCheck.CompareAll | utils/plagiarism_check.py:54-82 | fails iff a compared paper has no title; otherwise the matches of all compared papers |
| PlagiarismCheck.CollectReferences | utils/plagiarism_check.py:87 | the comprehension's list of paths |
| PlagiarismCheck.RunPlagiarismCheck | utils/plagiarism_check.py:38-94 | a `KeyError` exactly when a compared paper has no title; otherwise the report of 500-word chunk matches with summary counts equal to the lengths of the two match lists |
| NoveltyCheck.TitleOf | utils/novelty_check.py:21-26 | the stripped first line that can serve as a title, else "Unknown Title"; TitleOfFirst states it |
| NoveltyCheck.TitleOfFirst | utils/novelty_check.py:21-26 | the title is the stripped first line longer than 5 characters once stripped, or "Unknown Title" when there is none |
| NoveltyCheck.FindTitleLine | utils/novelty_check.py:23-25 | the search stops at the first such line |
| NoveltyCheck.ExtractTitle | utils/novelty_check.py:21-26 | `extract_title` on the text's `split("\n")` lines |
| NoveltyCheck.LabelNovelty | utils/novelty_check.py:28-35 | ≥ 0.40 Not Novel, [0.25, 0.40) Partially Novel, < 0.25 Highly Novel |
| NoveltyCheck.LabelMonotone | utils/novelty_check.py:28-35 | a higher score never gets a more novel label |
| NoveltyCheck.LabelTextsDistinct | utils/novelty_check.py:31-35 | the three label texts differ |
| NoveltyCheck.PathJoin | utils/novelty_check.py:45 | `os.path.join`: an absolute name replaces the directory, and the path ends with the name |
| NoveltyCheck.Candidates | utils/novelty_check.py:43-56 | no more results than directory entries |
| NoveltyCheck.MoreSimilarTotalPreorder | utils/novelty_check.py:59 | ordering by similarity is a total preorder |
| NoveltyCheck.CompareFile | utils/novelty_check.py:45-56 | the entry of one PDF: its title, similarity, label and path |
| NoveltyCheck.AddCandidate | utils/novelty_check.py:44-56 | one turn of the listing loop: an entry only for a ".pdf" name |
| NoveltyCheck.NoveltyCheck | utils/novelty_check.py:37-60 | the candidates sorted by similarity, descending, then cut at `top_k` |
| NoveltyCheck.CandidatesFromPdfs | utils/novelty_check.py:43-45 | one entry per ".pdf" name, each at that name's joined path |
| NoveltyCheck.RankedSorted | utils/novelty_check.py:59-60 | the results are in non-increasing order of similarity |
| NoveltyCheck.RankedFrom | utils/novelty_check.py:60 | the cut keeps min(top_k, n) results (Python slicing for a negative `top_k`), all of them candidates |
| NoveltyCheck.NoveltyRanking | utils/novelty_check.py:42-60 | the results are sorted, number min(top_k, number of PDFs) and come from ".pdf" names |
| NoveltyCheck.NoveltyKeepsMostSimilar | utils/novelty_check.py:59-60 | the results are drawn from the candidates, and none left out is more similar than one kept |
| CitationAlerts.ParseSigned | utils/grobid_citation_alerts.py:35 | `int()` on stripped text succeeds iff the text is a digit string (single underscores between digits allowed), optionally after one `+` or `-`; the value is that number, negated after `-` |
| CitationAlerts.ParseInt | utils/grobid_citation_alerts.py:35 | `int(s)` for a string: the stripped text read by ParseSigned; ParseIntStripped and ParsePrinted state it |
| CitationAlerts.ParseIntStripped | utils/grobid_citation_alerts.py:35 | white space around the text does not change what it reads as |
| CitationAlerts.ParsePrinted | utils/grobid_citation_alerts.py:35 | `int(str(n)) == n` |
| CitationAlerts.ParseExamples | utils/grobid_citation_alerts.py:35 | "20_18" reads 2018 and "-7" reads −7; "2__018", "2018.0" and "+" fail |
| CitationAlerts.FilterOutdatedReferences | utils/grobid_citation_alerts.py:31-40 | the loop keeps exactly the references whose year reads as a number at most the threshold, in order |
| CitationAlerts.OutdatedExactly | utils/grobid_citation_alerts.py:32-40 | the result is an order-preserving selection of the references; a reference is in it iff its year parses and is at most the threshold |
| CitationAlerts.YearOf | utils/grobid_citation_alerts.py:35 | `int(r.get("year", 0))` for each kind of JSON value: a missing key reads 0, `None` and composites fail, booleans read 0 or 1, floats are truncated, text is parsed; YearDefaults states the first cases |
| CitationAlerts.IsOutdated | utils/grobid_citation_alerts.py:35-37 | a year that reads as a number at most the threshold; OutdatedExactly states the filter built on it |
| CitationAlerts.YearDefaults | utils/grobid_citation_alerts.py:35-39 | a missing year reads 0; a `None` or composite year is skipped |
| CitationAlerts.CitationReport | utils/grobid_citation_alerts.py:60-64 | `total_references` is the number of references and the outdated list is the filter's result, never longer |
| ReviewApp.AfterLastDot | app.py:19 | the text after the last dot, which contains no dot |
| ReviewApp.AllowedFile | app.py:18-19 | a dot in the name, and the lower-cased text after the last one is an allowed extension; AllowedFileIff states it |
| ReviewApp.AllowedFileIff | app.py:18-19 | a name is accepted iff its last four characters, lower-cased, are ".pdf" |
| ReviewApp.AllowedFileExamples | app.py:18-19 | "x.PDF" is accepted; "pdf" and "x.pdf.exe" are not |
| ReviewApp.Pairs | app.py:26-28 | one (heading, content) pair per odd piece |
| ReviewApp.LastContent | app.py:29 | there is a content for a heading iff some pair has that heading |
| ReviewApp.AddSection | app.py:27-29 | one turn of the loop assigns the next pair |
| ReviewApp.ParseReview | app.py:22-30 | the loop builds exactly the sections of the pieces |
| ReviewApp.AssignGet | app.py:29 | looking a heading up finds the content of its last occurrence |
| ReviewApp.AssignDistinct | app.py:29 | each heading is one key |
| ReviewApp.Sections | app.py:22-30 | the pairs assigned in order into a dict; SectionsLookup and ParseReview state it |
| ReviewApp.SectionsLookup | app.py:26-29 | a heading has a section iff some odd piece strips to it; the section holds the stripped piece after its last occurrence; keys are distinct |
| ReviewApp.TrailingHeading | app.py:28 | a heading that ends the split gets ""; `re.split` with its one capturing group always returns an odd number of pieces, so in the source this branch is never taken |
| ReviewApp.NoHeadings | app.py:25-26 | a split of one piece or none gives no sections |
| DbUtils.Hex | database/db_utils.py:19 | `hexdigest`: two lower-case hexadecimal digits per byte |
| DbUtils.HexInjective | database/db_utils.py:19 | different digests have different hex forms |
| DbUtils.HashPassword | database/db_utils.py:17-19 | the hash is twice as long as the digest |
| DbUtils.VerifyPassword | database/db_utils.py:21-23 | the password's hash equals the stored one; VerifyOwnHash and VerifyAgainstHash state it |
| DbUtils.VerifyOwnHash | database/db_utils.py:21-23 | a password always verifies against its own hash |
| DbUtils.VerifyAgainstHash | database/db_utils.py:21-23 | a password verifies against another's hash iff the two digests agree |
| DbUtils.AssignmentOf | database/db_utils.py:107-114 | an item yields at most one assignment, and none when its field is not allowed |
| DbUtils.BuildUpdate | database/db_utils.py:103-114 | the loop builds the clauses and values of the assignments, in the order of `updates` |
| DbUtils.UpdateStatement | database/db_utils.py:116-121 | no statement iff no assignment; otherwise one value per clause, followed by `user_id` |
| DbUtils.UpdateUserWith | database/db_utils.py:97-131 | the update succeeds iff there is a statement and running it affects a row |
| DbUtils.UpdateUser | database/db_utils.py:97-131 | `update_user` with its own `allowed_fields` |
| DbUtils.UpdateUserWithPassword | database/db_utils.py:103-111 | `update_user` with "password" allowed, so the hashing branch can run |
| DbUtils.AssignmentsAllowListed | database/db_utils.py:103-114 | the assignments are exactly the items whose field is allowed, in order |
| DbUtils.UpdateOnlyAllowed | database/db_utils.py:103-114 | only allowed fields are set, in the order of `updates`, and "password" never is |
| DbUtils.NoAllowedField | database/db_utils.py:116-118 | with no allowed field there is no statement, and `update_user` returns False |
| DbUtils.PasswordIgnored | database/db_utils.py:103-111 | as written, a "password" update yields no assignment and no statement |
| DbUtils.PasswordAssigned | database/db_utils.py:108-111 | with "password" allowed, a non-empty password becomes a `password_hash` assignment of its hash |
| DbUtils.PasswordHashed | database/db_utils.py:108-121 | with "password" allowed, a password update runs `UPDATE Users SET password_hash = ? WHERE user_id = ?` with the hash and the user id |
| DbUtils.SingleStatement | database/db_utils.py:120-121 | the statement of a single assignment |
| DbUtils.PasswordOnlyDifference | database/db_utils.py:107-114 | the corrected allow-list differs from the original for "password" only |
| DbUtils.AuthenticateUser | database/db_utils.py:133-140 | a record iff the user exists and the password verifies; it is the user's record with `password_hash` popped |
| DbUtils.PopRecord | database/db_utils.py:138 | popping the hash keeps every other column, in order |
| DbUtils.AuthenticatedRecord | database/db_utils.py:138 | the returned record has no `password_hash`, and every other key has its value from the row |

## Left out

- Text extraction from PDFs, file reading and writing, JSON, `argparse`, console output, `os.makedirs`: I/O. The extracted texts are inputs or function parameters.
- Sentence-transformer embeddings, cosine similarity and the `difflib.SequenceMatcher` ratio: library numerics. Scores and the similarity matrix are parameters.
- The GROBID request and the XML parsing of references: I/O. The parsed references are an input.
- `re.split` on the bold numbered heading pattern in `parse_review`: regular-expression matching. Its result is the input of `ReviewApp.ParseReview`. The result is any list of pieces, so the model also covers an even number of pieces, which the real split (one capturing group, so `1 + 2 * splits` pieces) never gives; `ReviewApp.TrailingHeading` is about that unreachable case.
- The `NUM_UNIT_RE` regex and the pint unit conversion in `extract_numeric_mentions` (utils/factual_check.py:68-110): library behaviour. Mentions are given records.
- The `value_si is None` tests (utils/factual_check.py:134, 169): left out, because mentions built at utils/factual_check.py:80 and 107 always carry a float there. A mention's `valueSi` is a real.
- `build_corpus_stats` and the report assembly of `factual_check`: file listing and floating-point `mean`/`pstdev`. The corpus statistics are an input.
- Message strings of issues: only the values they show are modelled.
- Floating-point arithmetic: scores and values are reals, so rounding, `inf`, `nan` and `round(best_score, 4)` are not modelled.
- CitationAlerts.ParseInt: CPython's limit on decimal conversion (a `ValueError` from `int()` on more than 4300 digits) is not modelled, so a year string that long is read by the model and skipped by the source.
- CitationAlerts.ParsePrinted: `int(str(n)) == n` is proved for every integer; in CPython `str(n)` itself raises `ValueError` beyond 4300 digits, a limit the model does not have.
- CitationAlerts.ParseSigned: accepts ASCII digits only. Python's `int()` also reads other Unicode decimal digits (fullwidth "２０１８" is 2018), so such a year is kept by the source and skipped by the model; only the white space of `Text.IsSpace` is stripped.
- `ClaimsMapping.MapClaims`: the similarity is the unrounded best score.
- Lower-casing is ASCII only. Unicode case folding is not modelled.
- `int(entry.get("index"))` in `gather_existing_claims`: the index is a given integer, so the `TypeError`/`ValueError` a non-numeric index raises is not modelled.
- `DbUtils.HashPassword`: the UTF-8 encoding and SHA-256 are one uninterpreted function `sha256` from text to bytes.
- SQLite connections, `get_user_by_email`'s query, `get_user_by_id`, `create_user` and `get_statistics`: database I/O. The looked-up row and the statement executor are inputs; executing a statement yields a row count, or `None` when it raises.
- The Flask `index` route: it runs shell commands and writes files.
- `PlagiarismCheck.SplitIntoChunks`: a chunk size of 0 (a `ValueError` from `range`) is excluded by its precondition. A negative size gives no chunks, as `range` with a negative step from 0 does.
- `Seqs` sort: the fallback and the ranking use a stable insertion sort, but stability is not stated as a property.

## Findings

| source | as written | input that shows it | evidently intended | confidence | as-written member | corrected member |
|---|---|---|---|---|---|---|
| database/db_utils.py:103-111 | `allowed_fields` lacks "password", so the branch that hashes a new password is never taken. A "password" update is silently dropped, and on its own it makes `update_user` return False | `updates = {"password": "pw"}` | the password is stored as its hash: `UPDATE Users SET password_hash = ? WHERE user_id = ?` | high, not executed | DbUtils.PasswordIgnored | DbUtils.PasswordHashed |
