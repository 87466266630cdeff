/**
  Checks on the numeric mentions of a paper (utils/factual_check.py).

  Mentions are the records that regex matching and unit conversion produce;
  here they are given. What is modelled is what the module does with them:
  unit-token normalisation, metric labels from cue phrases, range checks,
  bucketed consistency checks and the z-score outlier test against given
  corpus statistics.
*/
module FactualCheck {
  import opened Wrappers
  import opened Text
  import opened Seqs
  import opened Dicts

  /** The `kind` a mention is given: a percentage, a bare number, a quantity of some dimension. */
  datatype Kind = Percent | Scalar | Time | Length | Memory | Frequency | Other

  /** The `kind` string as it appears in keys. */
  function KindName(k: Kind): string {
    match k
    case Percent => "percent"
    case Scalar => "scalar"
    case Time => "time"
    case Length => "length"
    case Memory => "memory"
    case Frequency => "frequency"
    case Other => "other"
  }

  /** The kinds `{"time", "length", "memory", "frequency"}` that measure a physical quantity. */
  predicate IsPhysical(k: Kind) {
    k == Time || k == Length || k == Memory || k == Frequency
  }

  /**
    A numeric mention: the matched text, its value, kind and unit token, the
    value and unit after conversion, the lower-cased text around it, and the
    labels `bind_metric_labels` gives it.
  */
  datatype Mention = Mention(
    raw: string,
    value: real,
    kind: Kind,
    unit: Option<string>,
    valueSi: real,
    siUnit: Option<string>,
    context: string,
    metricLabels: seq<string>)

  // ---------------------------------------------------------------------------
  // normalize_unit_token

  /** Short unit spellings and the unit names they stand for. */
  const UnitAliases: map<string, string> := map[
    "ms" := "millisecond", "s" := "second", "sec" := "second", "secs" := "second",
    "kb" := "kilobyte", "mb" := "megabyte", "gb" := "gigabyte", "tb" := "terabyte",
    "kib" := "kibibyte", "mib" := "mebibyte", "gib" := "gibibyte",
    "mm" := "millimeter", "cm" := "centimeter", "m" := "meter", "km" := "kilometer",
    "hz" := "hertz", "khz" := "kilohertz", "mhz" := "megahertz", "ghz" := "gigahertz"
  ]

  /** A token that is already lower case and stripped: a fixed point of `.strip().lower()`. */
  predicate IsNormalForm(u: string) {
    Lower(Strip(u)) == u
  }

  /** `normalize_unit_token`: strip and lower-case the token, then replace an alias by its unit name. */
  function NormalizeUnitToken(tok: Option<string>): (r: Option<string>)
    ensures tok == None <==> r == None
  {
    match tok
    case None => None
    case Some(t) => Some(Resolve(Lower(Strip(t))))
  }

  /** `UNIT_ALIASES.get(key, key)`. */
  function Resolve(key: string): string {
    if key in UnitAliases then UnitAliases[key] else key
  }

  /** A string of lower-case ASCII letters is left alone by stripping and lower-casing. */
  lemma LettersNormal(w: string)
    requires forall i | 0 <= i < |w| :: 'a' <= w[i] <= 'z'
    ensures IsNormalForm(w)
  {
    LettersUnspaced(w);
    StripClean(w);
    LettersLower(w);
  }

  lemma LettersUnspaced(w: string)
    requires forall i | 0 <= i < |w| :: 'a' <= w[i] <= 'z'
    ensures NoEdgeSpace(w)
  {
    if w != [] {
      assert 'a' <= w[0] <= 'z' && 'a' <= w[|w| - 1] <= 'z';
    }
  }

  lemma LettersLower(w: string)
    requires forall i | 0 <= i < |w| :: 'a' <= w[i] <= 'z'
    ensures Lower(w) == w
  {
    assert forall i | 0 <= i < |w| :: Lower(w)[i] == w[i];
  }

  /** Every alias is at most four characters long. */
  lemma AliasesShort()
    ensures forall k | k in UnitAliases :: |k| <= 4
  {
  }

  /** Every unit name is at least five characters long. */
  lemma UnitNamesLong()
    ensures forall k | k in UnitAliases :: |UnitAliases[k]| >= 5
  {
  }

  /** Every unit name is spelt in lower-case ASCII letters. */
  lemma AliasTargetsLetters()
    ensures forall k, i | k in UnitAliases && 0 <= i < |UnitAliases[k]| :: 'a' <= UnitAliases[k][i] <= 'z'
  {
  }

  /** Every unit name an alias stands for is in normal form and is not itself an alias. */
  lemma AliasTargetsFinal()
    ensures forall k | k in UnitAliases :: IsNormalForm(UnitAliases[k]) && UnitAliases[k] !in UnitAliases
  {
    AliasesShort();
    UnitNamesLong();
    AliasTargetsLetters();
    forall k | k in UnitAliases
      ensures IsNormalForm(UnitAliases[k])
    {
      LettersNormal(UnitAliases[k]);
    }
  }

  /** The stripped, lower-cased form of any text is in normal form. */
  lemma NormalKey(t: string)
    ensures IsNormalForm(Lower(Strip(t)))
  {
    LowerStrip(Strip(t));
    StripIdempotent(t);
    LowerIdempotent(Strip(t));
  }

  /** Resolving an alias gives a unit name that resolves to itself. */
  lemma ResolveFinal(key: string)
    ensures Resolve(Resolve(key)) == Resolve(key)
    ensures IsNormalForm(key) ==> IsNormalForm(Resolve(key))
  {
    AliasTargetsFinal();
  }

  /** A normalised token is in normal form: normalising it again changes nothing. */
  lemma NormalizeIdempotent(tok: Option<string>)
    ensures NormalizeUnitToken(NormalizeUnitToken(tok)) == NormalizeUnitToken(tok)
  {
    if tok.Some? {
      var key := Lower(Strip(tok.value));
      var r := Resolve(key);
      NormalKey(tok.value);
      ResolveFinal(key);
      assert Lower(Strip(r)) == r;
      assert NormalizeUnitToken(Some(r)) == Some(Resolve(r));
    }
  }

  /** An alias written with stray case and white space still resolves to its unit name. */
  lemma NormalizeAliasExample()
    ensures NormalizeUnitToken(Some("MS ")) == Some("millisecond")
  {
    var w := "MS";
    assert w + " " == "MS ";
    assert w[0] == 'M' && w[1] == 'S';
    StripTrailingBlank(w);
    LowerMs();
    ResolveMs();
  }

  lemma LowerMs()
    ensures Lower("MS") == "ms"
  {
    var l := Lower("MS");
    assert |l| == 2 && l[0] == 'm' && l[1] == 's';
  }

  lemma ResolveMs()
    ensures Resolve("ms") == "millisecond"
  {
  }

  // ---------------------------------------------------------------------------
  // bind_metric_labels

  /** The metrics a mention can be labelled with (the keys of `METRIC_CUES`). */
  datatype Metric =
    | Accuracy | F1 | Precision | Recall | Specificity | Auc
    | Latency | Throughput | MemoryUse | ModelSize | Duration | Freq

  /** The metrics in the order `METRIC_CUES` declares them. */
  const AllMetrics: seq<Metric> := [
    Accuracy, F1, Precision, Recall, Specificity, Auc,
    Latency, Throughput, MemoryUse, ModelSize, Duration, Freq
  ]

  /** The label a metric gives a mention. */
  function MetricName(m: Metric): string {
    match m
    case Accuracy => "accuracy"
    case F1 => "f1"
    case Precision => "precision"
    case Recall => "recall"
    case Specificity => "specificity"
    case Auc => "auc"
    case Latency => "latency"
    case Throughput => "throughput"
    case MemoryUse => "memory"
    case ModelSize => "size"
    case Duration => "time"
    case Freq => "freq"
  }

  /** The phrases that, found in a mention's context, mark the mention as about a metric. */
  function Cues(m: Metric): seq<string> {
    match m
    case Accuracy => ["accuracy", "top-1", "top1", "acc."]
    case F1 => ["f1", "f-1", "f score", "f-score", "f1-score", "f measure", "f-measure"]
    case Precision => ["precision"]
    case Recall => ["recall", "sensitivity", "tpr"]
    case Specificity => ["specificity", "tnr"]
    case Auc => ["auc", "roc auc", "area under curve"]
    case Latency => ["latency", "response time", "inference time"]
    case Throughput => ["throughput", "qps", "rps", "samples/sec"]
    case MemoryUse => ["memory", "ram", "gpu memory", "vram"]
    case ModelSize => ["model size", "parameters", "params", "param"]
    case Duration => ["time", "duration", "runtime"]
    case Freq => ["frequency", "clock", "hz"]
  }

  /** `any(cue in ctx for cue in cues)`. */
  predicate HasCue(ctx: string, cues: seq<string>) {
    exists c | c in cues :: Contains(ctx, c)
  }

  /** The metric names, in declaration order. */
  function MetricNames(): seq<string> {
    MapSeq(MetricName, AllMetrics)
  }

  /** A metric one of whose cues occurs in the context. */
  predicate IsCued(ctx: string, m: Metric) {
    HasCue(ctx, Cues(m))
  }

  /** The labels `bind_metric_labels` gives a mention with context `ctx`: the comprehension over `METRIC_CUES`. */
  function MetricLabelsFor(ctx: string): seq<string> {
    MapSeq(MetricName, Filter(m => IsCued(ctx, m), AllMetrics))
  }

  /**
    `bind_metric_labels` for one context: a metric is a label exactly when
    one of its cues occurs in the context, and the labels follow the
    declaration order of the metrics.
  */
  lemma MetricLabelsMembers(ctx: string)
    ensures forall l :: l in MetricLabelsFor(ctx) <==> exists m | m in AllMetrics :: MetricName(m) == l && IsCued(ctx, m)
    ensures IsSubsequence(MetricLabelsFor(ctx), MetricNames())
  {
    MapFilterMembers(MetricName, m => IsCued(ctx, m), AllMetrics);
  }

  /** A mention after `bind_metric_labels`: its labels are those its context calls for. */
  function Bound(m: Mention): Mention {
    m.(metricLabels := MetricLabelsFor(m.context))
  }

  /** `bind_metric_labels`: sets every mention's labels in place and changes nothing else. */
  method BindMetricLabels(mentions: array<Mention>)
    modifies mentions
    ensures forall i | 0 <= i < mentions.Length :: mentions[i] == Bound(old(mentions[i]))
  {
    UpdateEach(mentions, Bound);
  }

  // ---------------------------------------------------------------------------
  // sanity_checks

  /** The key under which `internal_consistency_checks` groups mentions. */
  datatype BucketKey = Labels(labels: seq<string>) | KindUnit(kind: Kind, siUnit: Option<string>)

  /** The issues the checks report; message strings are not modelled, the values they show are. */
  datatype Issue =
    | RangeErrorPercent(valueSi: real, mention: string)
    | NegativePhysicalQuantity(kind: Kind, mention: string)
    | InconsistentPercent(metric: BucketKey, low: real, high: real)
    | InconsistentPhysicalQuantity(metric: BucketKey)
    | StatisticalOutlier(value: real, unit: Option<string>, bucket: string, zscore: real)

  const PercentMin: real := 0.0
  const PercentMax: real := 100.0

  predicate PercentOutOfRange(m: Mention) {
    m.kind == Percent && !(PercentMin <= m.valueSi <= PercentMax)
  }

  predicate NegativePhysical(m: Mention) {
    IsPhysical(m.kind) && m.valueSi < 0.0
  }

  /**
    The issues one mention raises. The percent kind is not physical, so a
    mention raises at most one; each issue is raised exactly when its test holds.
  */
  function MentionIssues(m: Mention): (r: seq<Issue>)
    ensures |r| <= 1
    ensures r != [] ==> r[0] == RangeErrorPercent(m.valueSi, m.raw) || r[0] == NegativePhysicalQuantity(m.kind, m.raw)
    ensures RangeErrorPercent(m.valueSi, m.raw) in r <==> PercentOutOfRange(m)
    ensures NegativePhysicalQuantity(m.kind, m.raw) in r <==> NegativePhysical(m)
  {
    (if PercentOutOfRange(m) then [RangeErrorPercent(m.valueSi, m.raw)] else [])
    + (if NegativePhysical(m) then [NegativePhysicalQuantity(m.kind, m.raw)] else [])
  }

  /** The issues of all mentions, in mention order. */
  function SanityIssues(ms: seq<Mention>): seq<Issue> {
    FlatMap(MentionIssues, ms)
  }

  /** The body of the loop of `sanity_checks`, for one mention. */
  method CheckMention(m: Mention) returns (found: seq<Issue>)
    ensures found == MentionIssues(m)
  {
    found := [];
    if m.kind == Percent && !(PercentMin <= m.valueSi <= PercentMax) {
      found := found + [RangeErrorPercent(m.valueSi, m.raw)];
    }
    if m.kind in {Time, Length, Memory, Frequency} && m.valueSi < 0.0 {
      found := found + [NegativePhysicalQuantity(m.kind, m.raw)];
    }
  }

  /** `sanity_checks`. */
  method SanityChecks(mentions: seq<Mention>) returns (issues: seq<Issue>)
    ensures issues == SanityIssues(mentions)
  {
    issues := [];
    var i := 0;
    while i < |mentions|
      invariant 0 <= i <= |mentions|
      invariant issues == SanityIssues(mentions[..i])
    {
      FlatMapStep(MentionIssues, mentions, i);
      var found := CheckMention(mentions[i]);
      issues := issues + found;
      i := i + 1;
    }
    assert mentions[..i] == mentions;
  }

  /**
    There are no more issues than mentions, and an issue is reported exactly
    when some mention raises it.
  */
  lemma SanityIssuesMembers(ms: seq<Mention>)
    ensures |SanityIssues(ms)| <= |ms|
    ensures forall x :: x in SanityIssues(ms) <==> exists i | 0 <= i < |ms| :: x in MentionIssues(ms[i])
  {
    FlatMapAtMostOne(MentionIssues, ms);
    FlatMapMembers(MentionIssues, ms);
  }

  // ---------------------------------------------------------------------------
  // internal_consistency_checks

  /** A mention's bucket: its sorted labels if it has any, else its kind and converted unit. */
  function KeyOf(m: Mention): BucketKey {
    if m.metricLabels != [] then Labels(SortBy(LexLe, m.metricLabels)) else KindUnit(m.kind, m.siUnit)
  }

  /** A labelled mention's key holds its labels rearranged into ascending string order. */
  lemma LabelKeySorted(m: Mention)
    requires m.metricLabels != []
    ensures KeyOf(m).Labels?
    ensures SortedBy(LexLe, KeyOf(m).labels)
    ensures multiset(KeyOf(m).labels) == multiset(m.metricLabels)
  {
    LexLeTotalPreorder();
    assert TotalPreorder(LexLe);
    SortSorted(LexLe, m.metricLabels);
    SortPermutes(LexLe, m.metricLabels);
  }

  /** The `buckets` defaultdict: bucket keys in first-seen order, each with its mentions in order. */
  type Buckets = Dict<BucketKey, seq<Mention>>

  /** `buckets[key].append(m)`. */
  function AddToBucket(b: Buckets, m: Mention): Buckets {
    Put(b, KeyOf(m), Get(b, KeyOf(m)).GetOr([]) + [m])
  }

  /** The buckets after the grouping loop has seen `ms`. */
  function BucketsOf(ms: seq<Mention>): Buckets
    decreases |ms|
  {
    if ms == [] then [] else AddToBucket(BucketsOf(ms[..|ms| - 1]), ms[|ms| - 1])
  }

  /** The mentions of `ms` with key `k`, in order: what bucket `k` should hold. */
  function WithKey(ms: seq<Mention>, k: BucketKey): (r: seq<Mention>)
    ensures |r| <= |ms|
    decreases |ms|
  {
    if ms == [] then []
    else WithKey(ms[..|ms| - 1], k) + (if KeyOf(ms[|ms| - 1]) == k then [ms[|ms| - 1]] else [])
  }

  /**
    Bucket `k` holds exactly the mentions whose key is `k`, in mention order,
    and there is a bucket for a key exactly when some mention has it. No key
    is listed twice.
  */
  lemma {:induction false} BucketsContents(ms: seq<Mention>, k: BucketKey)
    ensures Get(BucketsOf(ms), k) == if WithKey(ms, k) == [] then None else Some(WithKey(ms, k))
    decreases |ms|
  {
    if ms != [] {
      var n := |ms| - 1;
      var b := BucketsOf(ms[..n]);
      var m := ms[n];
      BucketsContents(ms[..n], k);
      PutGet(b, KeyOf(m), Get(b, KeyOf(m)).GetOr([]) + [m], k);
      assert BucketsOf(ms) == Put(b, KeyOf(m), Get(b, KeyOf(m)).GetOr([]) + [m]);
      assert WithKey(ms, k) == WithKey(ms[..n], k) + (if KeyOf(m) == k then [m] else []);
      if KeyOf(m) == k {
        assert Get(b, k).GetOr([]) == WithKey(ms[..n], k);
        assert Get(BucketsOf(ms), k) == Some(WithKey(ms, k));
      } else {
        assert Get(BucketsOf(ms), k) == Get(b, k);
        assert WithKey(ms, k) == WithKey(ms[..n], k);
      }
    }
  }

  lemma {:induction false} BucketsDistinct(ms: seq<Mention>)
    ensures DistinctKeys(BucketsOf(ms))
    decreases |ms|
  {
    if ms != [] {
      var n := |ms| - 1;
      BucketsDistinct(ms[..n]);
      var m := ms[n];
      PutDistinct(BucketsOf(ms[..n]), KeyOf(m), Get(BucketsOf(ms[..n]), KeyOf(m)).GetOr([]) + [m]);
    }
  }

  lemma {:induction false} WithKeyMembers(ms: seq<Mention>, k: BucketKey)
    ensures forall m :: m in WithKey(ms, k) <==> m in ms && KeyOf(m) == k
    decreases |ms|
  {
    if ms != [] {
      var n := |ms| - 1;
      WithKeyMembers(ms[..n], k);
      assert ms == ms[..n] + [ms[n]];
    }
  }

  /** Two mentions share a bucket exactly when they have the same key. */
  lemma SameBucketIffSameKey(ms: seq<Mention>, i: nat, j: nat)
    requires i < |ms| && j < |ms|
    ensures Get(BucketsOf(ms), KeyOf(ms[i])).Some?
    ensures ms[j] in Get(BucketsOf(ms), KeyOf(ms[i])).value <==> KeyOf(ms[j]) == KeyOf(ms[i])
  {
    BucketsContents(ms, KeyOf(ms[i]));
    WithKeyMembers(ms, KeyOf(ms[i]));
  }

  /** The `value_si` of each item. */
  function Values(items: seq<Mention>): (vals: seq<real>)
    ensures |vals| == |items|
    ensures forall i | 0 <= i < |items| :: vals[i] == items[i].valueSi
  {
    seq(|items|, i requires 0 <= i < |items| => items[i].valueSi)
  }

  /** `max(vals)`. */
  function SeqMax(vals: seq<real>): (r: real)
    requires vals != []
    ensures r in vals
    ensures forall i | 0 <= i < |vals| :: vals[i] <= r
    decreases |vals|
  {
    if |vals| == 1 then vals[0]
    else
      var rest := SeqMax(vals[1..]);
      if vals[0] >= rest then vals[0] else rest
  }

  /** `min(vals)`. */
  function SeqMin(vals: seq<real>): (r: real)
    requires vals != []
    ensures r in vals
    ensures forall i | 0 <= i < |vals| :: r <= vals[i]
    decreases |vals|
  {
    if |vals| == 1 then vals[0]
    else
      var rest := SeqMin(vals[1..]);
      if vals[0] <= rest then vals[0] else rest
  }

  function RealMax(a: real, b: real): real {
    if a >= b then a else b
  }

  /** The floor `1e-12` below which a minimum is not divided by, and below which a deviation counts as none. */
  const Tiny: real := 0.000000000001

  predicate HasPercent(items: seq<Mention>) {
    exists i | 0 <= i < |items| :: items[i].kind == Percent
  }

  predicate HasPhysical(items: seq<Mention>) {
    exists i | 0 <= i < |items| :: IsPhysical(items[i].kind)
  }

  /** Some two values of the bucket lie at least 10 apart. */
  ghost predicate PercentSpread(vals: seq<real>) {
    exists i, j | 0 <= i < |vals| && 0 <= j < |vals| :: vals[i] - vals[j] >= 10.0
  }

  /** Some value is at least 100 times another, the smaller taken as no less than `1e-12`. */
  ghost predicate HundredFold(vals: seq<real>) {
    exists i, j | 0 <= i < |vals| && 0 <= j < |vals| :: vals[i] >= 100.0 * RealMax(Tiny, vals[j])
  }

  /** The two kinds of issue a bucket can raise. */
  predicate IsBucketIssue(x: Issue) {
    x.InconsistentPercent? || x.InconsistentPhysicalQuantity?
  }

  /** The issue one bucket raises, if any: a wide percent spread first, else a hundred-fold physical spread. */
  function BucketIssue(key: BucketKey, items: seq<Mention>): (r: seq<Issue>)
    ensures |r| <= 1
    ensures |items| < 2 ==> r == []
    ensures forall x | x in r :: IsBucketIssue(x) && x.metric == key
    ensures r != [] ==> HasPercent(items) || HasPhysical(items)
  {
    if |items| < 2 then []
    else
      var vals := Values(items);
      var hi := SeqMax(vals);
      var lo := SeqMin(vals);
      if HasPercent(items) && hi - lo >= 10.0 then [InconsistentPercent(key, lo, hi)]
      else if HasPhysical(items) && hi / RealMax(Tiny, lo) >= 100.0 then [InconsistentPhysicalQuantity(key)]
      else []
  }

  /** `max - min >= 10` says that some two values lie at least 10 apart. */
  lemma SpreadIff(vals: seq<real>)
    requires vals != []
    ensures SeqMax(vals) - SeqMin(vals) >= 10.0 <==> PercentSpread(vals)
  {
    var hi := SeqMax(vals);
    var lo := SeqMin(vals);
    var i :| 0 <= i < |vals| && vals[i] == hi;
    var j :| 0 <= j < |vals| && vals[j] == lo;
    if hi - lo >= 10.0 {
      assert vals[i] - vals[j] >= 10.0;
    }
  }

  /** `max / max(1e-12, min) >= 100` says that some value is a hundred times another. */
  lemma HundredFoldIff(vals: seq<real>)
    requires vals != []
    ensures SeqMax(vals) / RealMax(Tiny, SeqMin(vals)) >= 100.0 <==> HundredFold(vals)
  {
    var hi := SeqMax(vals);
    var lo := SeqMin(vals);
    var d := RealMax(Tiny, lo);
    QuotientAtLeast(hi, d);
    var i :| 0 <= i < |vals| && vals[i] == hi;
    var j :| 0 <= j < |vals| && vals[j] == lo;
    if hi >= 100.0 * d {
      assert vals[i] >= 100.0 * RealMax(Tiny, vals[j]);
    }
    if HundredFold(vals) {
      var a, b :| 0 <= a < |vals| && 0 <= b < |vals| && vals[a] >= 100.0 * RealMax(Tiny, vals[b]);
      assert RealMax(Tiny, vals[b]) >= d;
      assert vals[a] <= hi;
    }
  }

  lemma QuotientAtLeast(a: real, d: real)
    requires d > 0.0
    ensures a / d >= 100.0 <==> a >= 100.0 * d
  {
    assert a == (a / d) * d;
  }

  /**
    A bucket of two or more items with a percent mention is flagged as an
    inconsistent percent, with its least and greatest values, exactly when
    two of its values lie 10 or more apart.
  */
  lemma BucketPercentIff(key: BucketKey, items: seq<Mention>)
    requires |items| >= 2 && HasPercent(items)
    ensures BucketIssue(key, items) == [InconsistentPercent(key, SeqMin(Values(items)), SeqMax(Values(items)))]
      <==> PercentSpread(Values(items))
  {
    SpreadIff(Values(items));
  }

  /**
    A bucket of two or more items that is not flagged for its percent spread
    is flagged as an inconsistent physical quantity exactly when it holds a
    physical mention and one value is a hundred times another.
  */
  lemma BucketPhysicalIff(key: BucketKey, items: seq<Mention>)
    requires |items| >= 2 && !(HasPercent(items) && PercentSpread(Values(items)))
    ensures BucketIssue(key, items) == [InconsistentPhysicalQuantity(key)]
      <==> HasPhysical(items) && HundredFold(Values(items))
  {
    var vals := Values(items);
    var hi, lo := SeqMax(vals), SeqMin(vals);
    SpreadIff(vals);
    HundredFoldIff(vals);
    assert !(HasPercent(items) && hi - lo >= 10.0);
    assert BucketIssue(key, items) == if HasPhysical(items) && hi / RealMax(Tiny, lo) >= 100.0 then [InconsistentPhysicalQuantity(key)] else [];
  }

  /** The issues of the buckets in `b`, in bucket order. */
  function IssuesOfBuckets(b: Buckets): (r: seq<Issue>)
    ensures |r| <= |b|
    decreases |b|
  {
    if b == [] then []
    else IssuesOfBuckets(b[..|b| - 1]) + BucketIssue(b[|b| - 1].0, b[|b| - 1].1)
  }

  /** The issues `internal_consistency_checks` reports: at most one per bucket. */
  function ConsistencyIssues(ms: seq<Mention>): seq<Issue> {
    IssuesOfBuckets(BucketsOf(ms))
  }

  /** The grouping loop of `internal_consistency_checks`. */
  method GroupMentions(mentions: seq<Mention>) returns (buckets: Buckets)
    ensures buckets == BucketsOf(mentions)
  {
    buckets := [];
    var i := 0;
    while i < |mentions|
      invariant 0 <= i <= |mentions|
      invariant buckets == BucketsOf(mentions[..i])
    {
      var m := mentions[i];
      assert mentions[..i + 1][..i] == mentions[..i];
      var key := KeyOf(m);
      var items := Get(buckets, key).GetOr([]);
      buckets := Put(buckets, key, items + [m]);
      i := i + 1;
    }
    assert mentions[..i] == mentions;
  }

  /** The body of the second loop of `internal_consistency_checks`, for one bucket. */
  method CheckBucket(key: BucketKey, items: seq<Mention>) returns (issue: seq<Issue>)
    ensures issue == BucketIssue(key, items)
  {
    issue := [];
    if |items| >= 2 {
      var vals := Values(items);
      var hi := SeqMax(vals);
      var lo := SeqMin(vals);
      if HasPercent(items) && hi - lo >= 10.0 {
        issue := [InconsistentPercent(key, lo, hi)];
      } else if HasPhysical(items) && hi / RealMax(Tiny, lo) >= 100.0 {
        issue := [InconsistentPhysicalQuantity(key)];
      }
    }
  }

  lemma IssuesOfBucketsStep(buckets: Buckets, b: nat)
    requires b < |buckets|
    ensures IssuesOfBuckets(buckets[..b + 1]) == IssuesOfBuckets(buckets[..b]) + BucketIssue(buckets[b].0, buckets[b].1)
  {
    assert buckets[..b + 1][..b] == buckets[..b];
  }

  /** `internal_consistency_checks`. */
  method InternalConsistencyChecks(mentions: seq<Mention>) returns (issues: seq<Issue>)
    ensures issues == ConsistencyIssues(mentions)
  {
    var buckets := GroupMentions(mentions);
    issues := [];
    var b := 0;
    while b < |buckets|
      invariant 0 <= b <= |buckets|
      invariant issues == IssuesOfBuckets(buckets[..b])
    {
      IssuesOfBucketsStep(buckets, b);
      var issue := CheckBucket(buckets[b].0, buckets[b].1);
      issues := issues + issue;
      b := b + 1;
    }
    assert buckets[..b] == buckets;
  }

  /** Every consistency issue names a bucket of the mentions, one that holds two or more of them. */
  lemma {:induction false} IssuesOfBucketsNamed(b: Buckets)
    ensures forall x | x in IssuesOfBuckets(b) :: IsBucketIssue(x) && exists i | 0 <= i < |b| :: x.metric == b[i].0 && |b[i].1| >= 2
    decreases |b|
  {
    if b != [] {
      var n := |b| - 1;
      IssuesOfBucketsNamed(b[..n]);
      var last := BucketIssue(b[n].0, b[n].1);
      assert IssuesOfBuckets(b) == IssuesOfBuckets(b[..n]) + last;
      forall x | x in IssuesOfBuckets(b)
        ensures IsBucketIssue(x) && exists i | 0 <= i < |b| :: x.metric == b[i].0 && |b[i].1| >= 2
      {
        if x in IssuesOfBuckets(b[..n]) {
          var i :| 0 <= i < n && x.metric == b[..n][i].0 && |b[..n][i].1| >= 2;
          assert b[i] == b[..n][i];
        } else {
          assert x.metric == b[n].0 && |b[n].1| >= 2;
        }
      }
    }
  }

  // ---------------------------------------------------------------------------
  // zscore and statistical_plausibility_checks

  /**
    `zscore`: how many standard deviations `val` lies from `mu`, or 0 when
    the deviation is too small to divide by.
  */
  function Zscore(val: real, mu: real, sigma: real): (z: real)
    ensures sigma <= Tiny ==> z == 0.0
    ensures sigma > Tiny ==> z * sigma == val - mu
  {
    if sigma <= Tiny then 0.0 else (val - mu) / sigma
  }

  function Abs(x: real): real {
    if x < 0.0 then -x else x
  }

  /** The corpus statistics of one bucket, as `build_corpus_stats` records them. */
  datatype BucketStats = BucketStats(count: nat, mean: real, std: real, min: real, max: real)

  /** The default `z_thresh` of `statistical_plausibility_checks`. */
  const DefaultZThresh: real := 3.0

  /** `str(None)` or the unit itself. */
  function UnitText(u: Option<string>): string {
    match u
    case None => "None"
    case Some(t) => t
  }

  /** The statistics key `f"{kind}::{si_unit}"` of a mention. */
  function StatKey(m: Mention): string {
    KindName(m.kind) + "::" + UnitText(m.siUnit)
  }

  /** A mention whose bucket has statistics and whose z-score reaches the threshold in size. */
  predicate IsOutlier(m: Mention, stats: map<string, BucketStats>, zThresh: real) {
    var k := StatKey(m);
    k in stats && Abs(Zscore(m.valueSi, stats[k].mean, stats[k].std)) >= zThresh
  }

  /** The issue one mention raises. */
  function OutlierIssue(m: Mention, stats: map<string, BucketStats>, zThresh: real): (r: seq<Issue>)
    ensures r != [] <==> IsOutlier(m, stats, zThresh)
    ensures forall x | x in r :: x.StatisticalOutlier? && x.bucket == StatKey(m) && x.bucket in stats && Abs(x.zscore) >= zThresh
  {
    var k := StatKey(m);
    if k in stats then
      var z := Zscore(m.valueSi, stats[k].mean, stats[k].std);
      if Abs(z) >= zThresh then [StatisticalOutlier(m.valueSi, m.siUnit, k, z)] else []
    else []
  }

  /** The outlier issues of all mentions, in mention order. */
  function StatIssues(ms: seq<Mention>, stats: map<string, BucketStats>, zThresh: real): seq<Issue>
    decreases |ms|
  {
    if ms == [] then []
    else StatIssues(ms[..|ms| - 1], stats, zThresh) + OutlierIssue(ms[|ms| - 1], stats, zThresh)
  }

  /** `statistical_plausibility_checks`. */
  method StatisticalPlausibilityChecks(mentions: seq<Mention>, stats: map<string, BucketStats>, zThresh: real := DefaultZThresh)
    returns (issues: seq<Issue>)
    ensures issues == StatIssues(mentions, stats, zThresh)
  {
    issues := [];
    var i := 0;
    while i < |mentions|
      invariant 0 <= i <= |mentions|
      invariant issues == StatIssues(mentions[..i], stats, zThresh)
    {
      var m := mentions[i];
      assert mentions[..i + 1][..i] == mentions[..i];
      var k := KindName(m.kind) + "::" + UnitText(m.siUnit);
      if k in stats {
        var mu, sd := stats[k].mean, stats[k].std;
        var z := Zscore(m.valueSi, mu, sd);
        if Abs(z) >= zThresh {
          issues := issues + [StatisticalOutlier(m.valueSi, m.siUnit, k, z)];
        }
      }
      i := i + 1;
    }
    assert mentions[..i] == mentions;
  }

  /** One issue per outlier: the count of issues is the count of outliers. */
  lemma {:induction false} StatIssuesCount(ms: seq<Mention>, stats: map<string, BucketStats>, zThresh: real)
    ensures |StatIssues(ms, stats, zThresh)| == |Filter(m => IsOutlier(m, stats, zThresh), ms)|
    decreases |ms|
  {
    if ms != [] {
      StatIssuesCount(ms[..|ms| - 1], stats, zThresh);
    }
  }

  /** Every issue is an outlier report naming a bucket with statistics and a z-score at the threshold. */
  lemma {:induction false} StatIssuesSound(ms: seq<Mention>, stats: map<string, BucketStats>, zThresh: real)
    ensures forall x | x in StatIssues(ms, stats, zThresh) :: x.StatisticalOutlier? && x.bucket in stats && Abs(x.zscore) >= zThresh
    decreases |ms|
  {
    if ms != [] {
      var n := |ms| - 1;
      StatIssuesSound(ms[..n], stats, zThresh);
      assert StatIssues(ms, stats, zThresh) == StatIssues(ms[..n], stats, zThresh) + OutlierIssue(ms[n], stats, zThresh);
    }
  }

  /** Every outlier's issue is reported. */
  lemma {:induction false} StatIssuesComplete(ms: seq<Mention>, stats: map<string, BucketStats>, zThresh: real, i: nat)
    requires i < |ms| && IsOutlier(ms[i], stats, zThresh)
    ensures OutlierIssue(ms[i], stats, zThresh)[0] in StatIssues(ms, stats, zThresh)
    decreases |ms|
  {
    var n := |ms| - 1;
    assert StatIssues(ms, stats, zThresh) == StatIssues(ms[..n], stats, zThresh) + OutlierIssue(ms[n], stats, zThresh);
    if i < n {
      assert ms[..n][i] == ms[i];
      StatIssuesComplete(ms[..n], stats, zThresh, i);
    }
  }
}
