/**
  List operations the heuristics share: a filtering comprehension, Python's
  stable `sorted`/`list.sort` and the slice `xs[:k]`.
*/
module Seqs {

  /** `[x for x in xs if p(x)]`. */
  function Filter<T>(p: T -> bool, xs: seq<T>): (r: seq<T>)
    ensures |r| <= |xs|
    decreases |xs|
  {
    if xs == [] then []
    else Filter(p, xs[..|xs| - 1]) + (if p(xs[|xs| - 1]) then [xs[|xs| - 1]] else [])
  }

  /** Filtering one more element extends the result by that element exactly when it is kept. */
  lemma FilterSnoc<T>(p: T -> bool, xs: seq<T>, x: T)
    ensures Filter(p, xs + [x]) == Filter(p, xs) + (if p(x) then [x] else [])
  {
    assert (xs + [x])[..|xs|] == xs;
  }

  /** An element is kept exactly when it is in the input and passes the test. */
  lemma {:induction false} FilterMembers<T>(p: T -> bool, xs: seq<T>)
    ensures forall x :: x in Filter(p, xs) <==> x in xs && p(x)
    decreases |xs|
  {
    if xs != [] {
      var n := |xs| - 1;
      FilterMembers(p, xs[..n]);
      assert xs == xs[..n] + [xs[n]];
    }
  }

  /** Every element of `Filter(p, xs)` passes `p`. */
  lemma FilterAll<T>(p: T -> bool, xs: seq<T>)
    ensures forall i | 0 <= i < |Filter(p, xs)| :: p(Filter(p, xs)[i])
  {
    FilterMembers(p, xs);
  }

  /** `idx` lists, in increasing order, positions of `ys` that hold the elements of `xs`. */
  ghost predicate Embeds<T>(idx: seq<nat>, xs: seq<T>, ys: seq<T>) {
    && |idx| == |xs|
    && (forall i | 0 <= i < |idx| :: idx[i] < |ys| && ys[idx[i]] == xs[i])
    && (forall i, j | 0 <= i < j < |idx| :: idx[i] < idx[j])
  }

  /** `xs` is an order-preserving subsequence of `ys`. */
  ghost predicate IsSubsequence<T>(xs: seq<T>, ys: seq<T>) {
    exists idx :: Embeds(idx, xs, ys)
  }

  /** Filtering keeps the order of what it keeps. */
  lemma {:induction false} FilterIsSubsequence<T>(p: T -> bool, xs: seq<T>)
    ensures IsSubsequence(Filter(p, xs), xs)
    decreases |xs|
  {
    if xs == [] {
      assert Embeds([], Filter(p, xs), xs);
    } else {
      var n := |xs| - 1;
      FilterIsSubsequence(p, xs[..n]);
      var idx :| Embeds(idx, Filter(p, xs[..n]), xs[..n]);
      if p(xs[n]) {
        assert Embeds(idx + [n], Filter(p, xs), xs);
      } else {
        assert Embeds(idx, Filter(p, xs), xs);
      }
    }
  }

  /** `[f(x) for x in xs]`. */
  function MapSeq<T, U>(f: T -> U, xs: seq<T>): (r: seq<U>)
    ensures |r| == |xs|
    ensures forall i | 0 <= i < |xs| :: r[i] == f(xs[i])
  {
    seq(|xs|, i requires 0 <= i < |xs| => f(xs[i]))
  }

  /** Mapping a sequence with one more element appends that element's image. */
  lemma MapSeqSnoc<T, U>(f: T -> U, xs: seq<T>)
    requires xs != []
    ensures MapSeq(f, xs) == MapSeq(f, xs[..|xs| - 1]) + [f(xs[|xs| - 1])]
  {
  }

  /** Mapping both sides keeps an order-preserving subsequence one. */
  lemma MapSubsequence<T, U>(f: T -> U, xs: seq<T>, ys: seq<T>)
    requires IsSubsequence(xs, ys)
    ensures IsSubsequence(MapSeq(f, xs), MapSeq(f, ys))
  {
    var idx :| Embeds(idx, xs, ys);
    assert Embeds(idx, MapSeq(f, xs), MapSeq(f, ys));
  }

  /** `[f(x) for x in xs if p(x)]` holds the images of the elements that pass, in order. */
  lemma MapFilterMembers<T, U>(f: T -> U, p: T -> bool, xs: seq<T>)
    ensures forall y :: y in MapSeq(f, Filter(p, xs)) <==> exists x | x in xs :: f(x) == y && p(x)
    ensures IsSubsequence(MapSeq(f, Filter(p, xs)), MapSeq(f, xs))
  {
    var kept := Filter(p, xs);
    FilterMembers(p, xs);
    FilterIsSubsequence(p, xs);
    MapSubsequence(f, kept, xs);
    forall y
      ensures y in MapSeq(f, kept) <==> exists x | x in xs :: f(x) == y && p(x)
    {
      if y in MapSeq(f, kept) {
        var i :| 0 <= i < |kept| && f(kept[i]) == y;
        assert kept[i] in kept;
      }
      if exists x | x in xs :: f(x) == y && p(x) {
        var x :| x in xs && f(x) == y && p(x);
        assert x in kept;
        var i :| 0 <= i < |kept| && kept[i] == x;
        assert MapSeq(f, kept)[i] == y;
      }
    }
  }

  /** The results of `g` on the elements of `xs`, in order, concatenated: a loop that appends `g(x)` for each `x`. */
  function FlatMap<T, U>(g: T -> seq<U>, xs: seq<T>): seq<U>
    decreases |xs|
  {
    if xs == [] then [] else FlatMap(g, xs[..|xs| - 1]) + g(xs[|xs| - 1])
  }

  lemma FlatMapStep<T, U>(g: T -> seq<U>, xs: seq<T>, i: nat)
    requires i < |xs|
    ensures FlatMap(g, xs[..i + 1]) == FlatMap(g, xs[..i]) + g(xs[i])
  {
    assert xs[..i + 1][..i] == xs[..i];
  }

  /** An element is in the result exactly when `g` gives it for some element of `xs`. */
  lemma {:induction false} FlatMapMembers<T, U>(g: T -> seq<U>, xs: seq<T>)
    ensures forall y :: y in FlatMap(g, xs) <==> exists i | 0 <= i < |xs| :: y in g(xs[i])
    decreases |xs|
  {
    if xs != [] {
      var n := |xs| - 1;
      var init := xs[..n];
      FlatMapMembers(g, init);
      forall y
        ensures y in FlatMap(g, xs) <==> exists i | 0 <= i < |xs| :: y in g(xs[i])
      {
        if y in FlatMap(g, init) {
          var i :| 0 <= i < n && y in g(init[i]);
          assert init[i] == xs[i];
        }
        if exists i | 0 <= i < |xs| :: y in g(xs[i]) {
          var i :| 0 <= i < |xs| && y in g(xs[i]);
          if i < n {
            assert init[i] == xs[i];
          }
        }
      }
    }
  }

  /** When `g` gives at most one element, the result is no longer than the input. */
  lemma {:induction false} FlatMapAtMostOne<T, U>(g: T -> seq<U>, xs: seq<T>)
    requires forall i | 0 <= i < |xs| :: |g(xs[i])| <= 1
    ensures |FlatMap(g, xs)| <= |xs|
    decreases |xs|
  {
    if xs != [] {
      var n := |xs| - 1;
      assert forall i | 0 <= i < n :: xs[..n][i] == xs[i];
      FlatMapAtMostOne(g, xs[..n]);
    }
  }

  // ---------------------------------------------------------------------------
  // Python's sort: stable, and allowed to be any total preorder

  /** `le` orders every pair and is transitive, as a sort key's `>=` or `<=` is. */
  ghost predicate TotalPreorder<T(!new)>(le: (T, T) -> bool) {
    && (forall a, b :: le(a, b) || le(b, a))
    && (forall a, b, c :: le(a, b) && le(b, c) ==> le(a, c))
  }

  /** Every element comes no later in the `le` order than every later one. */
  ghost predicate SortedBy<T>(le: (T, T) -> bool, s: seq<T>) {
    forall i, j | 0 <= i < j < |s| :: le(s[i], s[j])
  }

  /** Inserts `x` in front of the first element it may precede; ties keep `x` first. */
  function Insert<T>(le: (T, T) -> bool, x: T, ys: seq<T>): seq<T>
    decreases |ys|
  {
    if ys == [] || le(x, ys[0]) then [x] + ys else [ys[0]] + Insert(le, x, ys[1..])
  }

  /**
    Insertion sort. Each element is inserted ahead of the equal ones that
    follow it in the input, so equal elements keep their input order, as in
    Python's stable sort.
  */
  function SortBy<T>(le: (T, T) -> bool, xs: seq<T>): seq<T>
    decreases |xs|
  {
    if xs == [] then [] else Insert(le, xs[0], SortBy(le, xs[1..]))
  }

  lemma {:induction false} InsertPermutes<T>(le: (T, T) -> bool, x: T, ys: seq<T>)
    ensures multiset(Insert(le, x, ys)) == multiset(ys) + multiset{x}
    decreases |ys|
  {
    if ys != [] && !le(x, ys[0]) {
      var rest := Insert(le, x, ys[1..]);
      InsertPermutes(le, x, ys[1..]);
      assert ys == [ys[0]] + ys[1..];
      assert multiset(ys) == multiset{ys[0]} + multiset(ys[1..]);
      assert multiset(Insert(le, x, ys)) == multiset{ys[0]} + multiset(rest);
    } else {
      assert multiset(Insert(le, x, ys)) == multiset{x} + multiset(ys);
    }
  }

  /** Sorting rearranges and neither adds nor drops anything. */
  lemma {:induction false} SortPermutes<T>(le: (T, T) -> bool, xs: seq<T>)
    ensures multiset(SortBy(le, xs)) == multiset(xs)
    ensures |SortBy(le, xs)| == |xs|
    decreases |xs|
  {
    if xs != [] {
      SortPermutes(le, xs[1..]);
      InsertPermutes(le, xs[0], SortBy(le, xs[1..]));
      assert xs == [xs[0]] + xs[1..];
    }
  }

  lemma {:induction false} InsertSorted<T(!new)>(le: (T, T) -> bool, x: T, ys: seq<T>)
    requires TotalPreorder(le)
    requires SortedBy(le, ys)
    ensures SortedBy(le, Insert(le, x, ys))
    decreases |ys|
  {
    if ys != [] && !le(x, ys[0]) {
      var tail := Insert(le, x, ys[1..]);
      InsertSorted(le, x, ys[1..]);
      InsertPermutes(le, x, ys[1..]);
      var r := Insert(le, x, ys);
      assert r == [ys[0]] + tail;
      forall j | 1 <= j < |r|
        ensures le(r[0], r[j])
      {
        assert r[j] == tail[j - 1];
        assert r[j] in multiset(ys[1..]) + multiset{x};
        if r[j] != x {
          assert r[j] in ys[1..];
          var k :| 0 <= k < |ys[1..]| && ys[1..][k] == r[j];
          assert ys[k + 1] == r[j];
        }
      }
    }
  }

  /** Sorting by a total preorder produces a sequence sorted by it. */
  lemma {:induction false} SortSorted<T(!new)>(le: (T, T) -> bool, xs: seq<T>)
    requires TotalPreorder(le)
    ensures SortedBy(le, SortBy(le, xs))
    decreases |xs|
  {
    if xs != [] {
      SortSorted(le, xs[1..]);
      InsertSorted(le, xs[0], SortBy(le, xs[1..]));
    }
  }

  /** Python's `xs[:k]`, including a negative `k`, which drops `-k` elements from the end. */
  function PyHead<T>(xs: seq<T>, k: int): (r: seq<T>)
    ensures k >= 0 ==> |r| == (if k < |xs| then k else |xs|)
    ensures k < 0 ==> |r| == (if |xs| + k > 0 then |xs| + k else 0)
    ensures r == xs[..|r|]
  {
    if k >= 0 then (if k < |xs| then xs[..k] else xs)
    else if |xs| + k > 0 then xs[..|xs| + k]
    else []
  }

  /** In a sorted sequence, everything before position `n` may precede everything from `n` on. */
  lemma SortedSplit<T>(le: (T, T) -> bool, s: seq<T>, n: nat)
    requires SortedBy(le, s) && n <= |s|
    ensures forall x, y | x in s[..n] && y in s[n..] :: le(x, y)
  {
    forall x, y | x in s[..n] && y in s[n..]
      ensures le(x, y)
    {
      var i :| 0 <= i < n && s[..n][i] == x;
      var j :| 0 <= j < |s| - n && s[n..][j] == y;
      assert s[i] == x && s[n + j] == y;
    }
  }

  /**
    The first `k` elements of a sorted sequence come no later in the order
    than anything left behind: `sorted(xs)[:k]` picks the `k` first-ranked
    elements of `xs`.
  */
  lemma SortedHeadDominates<T(!new)>(le: (T, T) -> bool, xs: seq<T>, k: nat)
    requires TotalPreorder(le)
    ensures multiset(PyHead(SortBy(le, xs), k)) <= multiset(xs)
    ensures forall x, y | x in PyHead(SortBy(le, xs), k) && y in multiset(xs) - multiset(PyHead(SortBy(le, xs), k)) :: le(x, y)
  {
    var s := SortBy(le, xs);
    SortPermutes(le, xs);
    SortSorted(le, xs);
    SortedPrefixRest(le, s, |PyHead(s, k)|);
  }

  /** What a prefix of a sorted sequence leaves behind is its suffix, and the prefix precedes all of it. */
  lemma SortedPrefixRest<T>(le: (T, T) -> bool, s: seq<T>, n: nat)
    requires SortedBy(le, s) && n <= |s|
    ensures multiset(s[..n]) <= multiset(s)
    ensures multiset(s) - multiset(s[..n]) == multiset(s[n..])
    ensures forall x, y | x in s[..n] && y in multiset(s) - multiset(s[..n]) :: le(x, y)
  {
    assert s == s[..n] + s[n..];
    assert multiset(s) == multiset(s[..n]) + multiset(s[n..]);
    SortedSplit(le, s, n);
  }

  // ---------------------------------------------------------------------------
  // concatenation of a list of lists

  /** `[x for xs in xss for x in xs]`. */
  function Flatten<T>(xss: seq<seq<T>>): seq<T>
    decreases |xss|
  {
    if xss == [] then [] else xss[0] + Flatten(xss[1..])
  }

  /** The position of the first element that passes `p`, or `|xs|` when none does. */
  function FirstIndex<T>(xs: seq<T>, p: T -> bool): (i: nat)
    ensures i <= |xs|
    ensures i < |xs| ==> p(xs[i])
    ensures forall j | 0 <= j < i :: !p(xs[j])
    decreases |xs|
  {
    if xs == [] || p(xs[0]) then 0 else 1 + FirstIndex(xs[1..], p)
  }

  /** One step of a left-to-right search: the first match in `xs[i..]` is at its head or after it. */
  lemma FirstIndexStep<T>(xs: seq<T>, p: T -> bool, i: nat)
    requires i < |xs|
    ensures FirstIndex(xs[i..], p) == if p(xs[i]) then 0 else 1 + FirstIndex(xs[i + 1..], p)
  {
    assert xs[i..][0] == xs[i];
    assert xs[i..][1..] == xs[i + 1..];
  }


  // ---------------------------------------------------------------------------
  // updating every element of a list in place

  /** `for x in a: update(x)` on a list of records: every element is replaced by `f` of itself. */
  method UpdateEach<T>(a: array<T>, f: T -> T)
    modifies a
    ensures forall i | 0 <= i < a.Length :: a[i] == f(old(a[i]))
  {
    var i := 0;
    while i < a.Length
      invariant 0 <= i <= a.Length
      invariant forall k | 0 <= k < i :: a[k] == f(old(a[k]))
      invariant forall k | i <= k < a.Length :: a[k] == old(a[k])
    {
      a[i] := f(a[i]);
      i := i + 1;
    }
  }
}
