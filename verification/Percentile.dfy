/** The latency report's order statistics, against counts over the unsorted samples. */
module Percentile {
  // ---------- Sorting ----------

  ghost predicate Sorted(xs: seq<real>) { forall i, j :: 0 <= i < j < |xs| ==> xs[i] <= xs[j] }

  function Insert(x: real, xs: seq<real>): (r: seq<real>)
    ensures multiset(r) == multiset{x} + multiset(xs)
  {
    if xs == [] || x <= xs[0] then [x] + xs
    else
      assert xs == [xs[0]] + xs[1..];
      [xs[0]] + Insert(x, xs[1..])
  }

  function Sort(xs: seq<real>): (r: seq<real>)
    ensures multiset(r) == multiset(xs)
  {
    if xs == [] then []
    else
      assert xs == [xs[0]] + xs[1..];
      Insert(xs[0], Sort(xs[1..]))
  }

  lemma {:induction false} InsertSorts(x: real, xs: seq<real>)
    requires Sorted(xs)
    ensures Sorted(Insert(x, xs))
  {
    if xs != [] && x > xs[0] {
      InsertSorts(x, xs[1..]);
      var rest := Insert(x, xs[1..]);
      forall i | 0 <= i < |rest|
        ensures xs[0] <= rest[i]
      {
        assert rest[i] in multiset(rest);
        assert rest[i] == x || rest[i] in multiset(xs[1..]);
      }
    }
  }

  lemma {:induction false} SortSorts(xs: seq<real>)
    ensures Sorted(Sort(xs)) && |Sort(xs)| == |xs|
  {
    assert |multiset(Sort(xs))| == |multiset(xs)|;
    if xs != [] {
      SortSorts(xs[1..]);
      InsertSorts(xs[0], Sort(xs[1..]));
    }
  }

  // ---------- Counting ----------

  /** How many samples are below `v`. */
  function Below(xs: seq<real>, v: real): nat {
    if xs == [] then 0 else (if xs[0] < v then 1 else 0) + Below(xs[1..], v)
  }

  /** How many samples are at most `v`. */
  function AtMost(xs: seq<real>, v: real): nat {
    if xs == [] then 0 else (if xs[0] <= v then 1 else 0) + AtMost(xs[1..], v)
  }

  lemma {:induction false} InsertCounts(x: real, xs: seq<real>, v: real)
    ensures Below(Insert(x, xs), v) == (if x < v then 1 else 0) + Below(xs, v)
    ensures AtMost(Insert(x, xs), v) == (if x <= v then 1 else 0) + AtMost(xs, v)
  {
    if xs == [] || x <= xs[0] {
      assert ([x] + xs)[1..] == xs;
    } else {
      InsertCounts(x, xs[1..], v);
      assert Insert(x, xs)[1..] == Insert(x, xs[1..]);
    }
  }

  lemma {:induction false} SortCounts(xs: seq<real>, v: real)
    ensures Below(Sort(xs), v) == Below(xs, v) && AtMost(Sort(xs), v) == AtMost(xs, v)
  {
    if xs != [] {
      SortCounts(xs[1..], v);
      InsertCounts(xs[0], Sort(xs[1..]), v);
    }
  }

  lemma {:induction false} SortedCounts(xs: seq<real>, k: nat, v: real)
    requires Sorted(xs) && k < |xs|
    ensures k < Below(xs, v) <==> xs[k] < v
    ensures k < AtMost(xs, v) <==> xs[k] <= v
    decreases |xs|
  {
    if |xs| > 1 {
      SortedCounts(xs[1..], if k > 0 then k - 1 else 0, v);
    }
    if k == 0 && xs[0] >= v {
      NoneBelow(xs, v);
    }
  }

  lemma {:induction false} NoneBelow(xs: seq<real>, v: real)
    requires Sorted(xs) && xs != [] && xs[0] >= v
    ensures Below(xs, v) == 0
    ensures xs[0] > v ==> AtMost(xs, v) == 0
  {
    if |xs| > 1 {
      NoneBelow(xs[1..], v);
    }
  }

  /** The `k`-th sorted sample is the one value with at most `k` samples below it and more than `k` at or
      below it: an order statistic needs no sorting to be recognised. */
  lemma OrderStatistic(xs: seq<real>, k: nat, v: real)
    requires k < |xs|
    ensures |Sort(xs)| == |xs|
    ensures Sort(xs)[k] == v <==> Below(xs, v) <= k < AtMost(xs, v)
  {
    SortSorts(xs);
    SortCounts(xs, v);
    SortedCounts(Sort(xs), k, v);
  }

  // ---------- The report ----------

  /** int(n * 0.95). */
  function P95Index(n: nat): nat { 19 * n / 20 }

  function P95(xs: seq<real>): real
    requires xs != []
  {
    SortSorts(xs);
    Sort(xs)[P95Index(|xs|)]
  }

  /** statistics.median. */
  function Median(xs: seq<real>): real
    requires xs != []
  {
    SortSorts(xs);
    var (s, n) := (Sort(xs), |xs|);
    if n % 2 == 1 then s[n / 2] else (s[n / 2 - 1] + s[n / 2]) / 2.0
  }

  /** More than 95% of the samples are at most the reported p95, no more than 95% are below it, and it is
      itself a sample no smaller than the median. */
  lemma P95IsOrderStatistic(xs: seq<real>)
    requires xs != []
    ensures 20 * AtMost(xs, P95(xs)) > 19 * |xs|
    ensures 20 * Below(xs, P95(xs)) <= 19 * |xs|
    ensures P95(xs) in xs && Median(xs) <= P95(xs)
  {
    var (s, k) := (Sort(xs), P95Index(|xs|));
    SortSorts(xs);
    P95IndexBounds(|xs|);
    OrderStatistic(xs, k, s[k]);
    MedianAtMostMiddle(xs);
    SortedAt(s, |xs| / 2, k);
    assert s[k] in multiset(s);
  }

  lemma SortedAt(s: seq<real>, i: nat, j: nat)
    requires Sorted(s) && i <= j < |s|
    ensures s[i] <= s[j]
  {}

  lemma P95IndexBounds(n: nat)
    requires n > 0
    ensures n / 2 <= P95Index(n) < n && 20 * P95Index(n) <= 19 * n < 20 * (P95Index(n) + 1)
  {}

  lemma MedianAtMostMiddle(xs: seq<real>)
    requires xs != []
    ensures |Sort(xs)| == |xs| && Median(xs) <= Sort(xs)[|xs| / 2]
  {
    SortSorts(xs);
    if |xs| % 2 == 0 {
      assert Sort(xs)[|xs| / 2 - 1] <= Sort(xs)[|xs| / 2];
    }
  }

  /** At least half the samples are at most the median and at most half are below it, for both parities. */
  lemma MedianHalves(xs: seq<real>)
    requires xs != []
    ensures 2 * AtMost(xs, Median(xs)) >= |xs| && 2 * Below(xs, Median(xs)) <= |xs|
  {
    SortSorts(xs);
    SortCounts(xs, Median(xs));
    MiddleCounts(Sort(xs), |xs| / 2, Median(xs));
  }

  /** Exactly: for an odd number of samples the median is the middle order statistic, for an even number the mean
      of the two in the middle, each recognised by counts over the unsorted samples. */
  lemma MedianIsMiddle(xs: seq<real>) returns (lo: real, hi: real)
    requires xs != []
    ensures Below(xs, lo) <= (|xs| - 1) / 2 < AtMost(xs, lo) && Below(xs, hi) <= |xs| / 2 < AtMost(xs, hi)
    ensures lo in xs && hi in xs && Median(xs) * 2.0 == lo + hi
  {
    SortSorts(xs);
    lo, hi := Sort(xs)[(|xs| - 1) / 2], Sort(xs)[|xs| / 2];
    Ranked(xs, (|xs| - 1) / 2);
    Ranked(xs, |xs| / 2);
    assert |xs| % 2 == 1 ==> (|xs| - 1) / 2 == |xs| / 2;
    assert |xs| % 2 == 0 ==> (|xs| - 1) / 2 == |xs| / 2 - 1;
  }

  lemma Ranked(xs: seq<real>, k: nat)
    requires k < |xs|
    ensures |Sort(xs)| == |xs| && Sort(xs)[k] in xs
    ensures Below(xs, Sort(xs)[k]) <= k < AtMost(xs, Sort(xs)[k])
  {
    SortSorts(xs);
    OrderStatistic(xs, k, Sort(xs)[k]);
    assert Sort(xs)[k] in multiset(Sort(xs));
  }

  lemma MiddleCounts(s: seq<real>, h: nat, m: real)
    requires Sorted(s) && s != [] && 2 * h <= |s| <= 2 * h + 1
    requires if |s| == 2 * h + 1 then m == s[h] else m == (s[h - 1] + s[h]) / 2.0
    ensures 2 * AtMost(s, m) >= |s| && 2 * Below(s, m) <= |s|
  {
    SortedCounts(s, h, m);
    if |s| == 2 * h {
      assert s[h - 1] <= s[h];
      SortedCounts(s, h - 1, m);
    }
  }
}
