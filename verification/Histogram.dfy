/** The latency ladder, histograms over it and order statistics (`src/usage.rs`, "Percentiles"). */
module Histogram {
  import opened Prelude

  const LATENCY_BUCKETS_MS: seq<int> := [1, 2, 5, 10, 25, 50, 100, 250, 500, 1000]
  const BUCKET_OVERFLOW := -1
  const LAST_FINITE := 1000

  /** One `(bucket_le_ms, request_count)` pair. */
  datatype Bucket = Bucket(bound: int, count: int)

  type Buckets = seq<Bucket>

  // ---- The ladder ------------------------------------------------------------

  function FirstBound(bounds: seq<int>, ms: int): int {
    if bounds == [] then BUCKET_OVERFLOW
    else if ms <= bounds[0] then bounds[0]
    else FirstBound(bounds[1..], ms)
  }

  /** `bucket_for`: the first ladder bound at or above the latency. */
  function BucketFor(ms: nat): int { FirstBound(LATENCY_BUCKETS_MS, ms) }

  predicate OnLadder(bound: int) { bound in LATENCY_BUCKETS_MS }

  lemma {:induction false} FirstBoundMeaning(bounds: seq<int>, ms: int)
    requires forall i, j :: 0 <= i < j < |bounds| ==> bounds[i] < bounds[j]
    requires forall i :: 0 <= i < |bounds| ==> bounds[i] > 0
    ensures var b := FirstBound(bounds, ms);
            if b == BUCKET_OVERFLOW then forall x :: x in bounds ==> x < ms
            else b in bounds && forall x :: x in bounds ==> (x < b <==> x < ms)
  {
    if bounds != [] && ms > bounds[0] {
      FirstBoundMeaning(bounds[1..], ms);
      assert forall x :: x in bounds <==> x == bounds[0] || x in bounds[1..];
    }
  }

  /** A latency falls in the ladder bucket just above it, or in overflow past 1000 ms. */
  lemma BucketForMeaning(ms: nat)
    ensures var b := BucketFor(ms);
            if ms > 1000 then b == -1
            else OnLadder(b) && forall x :: OnLadder(x) ==> (x < b <==> x < ms)
    ensures forall x :: OnLadder(x) <==> x in {1, 2, 5, 10, 25, 50, 100, 250, 500, 1000}
  {
    FirstBoundMeaning(LATENCY_BUCKETS_MS, ms);
    assert LATENCY_BUCKETS_MS[9] == LAST_FINITE;
    assert OnLadder(LAST_FINITE);
    assert forall x :: OnLadder(x) ==> 0 < x <= LAST_FINITE;
  }

  // ---- Sums over buckets ------------------------------------------------------

  function Total(h: Buckets): int {
    if h == [] then 0 else h[0].count + Total(h[1..])
  }

  function Finite(h: Buckets): Buckets {
    if h == [] then []
    else if h[0].bound != BUCKET_OVERFLOW then [h[0]] + Finite(h[1..])
    else Finite(h[1..])
  }

  function SumAt(h: Buckets, bound: int): int {
    if h == [] then 0 else (if h[0].bound == bound then h[0].count else 0) + SumAt(h[1..], bound)
  }

  /** Counts of the finite buckets up to and including `bound`. */
  function SumUpTo(h: Buckets, bound: int): int {
    if h == [] then 0
    else (if h[0].bound != BUCKET_OVERFLOW && h[0].bound <= bound then h[0].count else 0) + SumUpTo(h[1..], bound)
  }

  predicate Listed(h: Buckets, bound: int) { exists i :: 0 <= i < |h| && h[i].bound == bound }

  predicate NonNegative(h: Buckets) { forall i :: 0 <= i < |h| ==> h[i].count >= 0 }

  predicate Sorted(h: Buckets) { forall i, j :: 0 <= i < j < |h| ==> h[i].bound <= h[j].bound }

  // ---- Sorting -----------------------------------------------------------------

  /** Inserts `b` before the first entry whose bound is not smaller. */
  function Insert(b: Bucket, h: Buckets): Buckets {
    if h == [] then [b]
    else if b.bound <= h[0].bound then [b] + h
    else [h[0]] + Insert(b, h[1..])
  }

  /** `sort_by_key` on the bound: stable, so equal bounds keep their order. */
  function SortByBound(h: Buckets): Buckets {
    if h == [] then [] else Insert(h[0], SortByBound(h[1..]))
  }

  lemma {:induction false} InsertKeeps(b: Bucket, h: Buckets, bound: int)
    ensures SumAt(Insert(b, h), bound) == SumAt([b] + h, bound)
    ensures SumUpTo(Insert(b, h), bound) == SumUpTo([b] + h, bound)
    ensures Total(Insert(b, h)) == b.count + Total(h)
    ensures Listed(Insert(b, h), bound) <==> b.bound == bound || Listed(h, bound)
    ensures |Insert(b, h)| == |h| + 1
  {
    if h != [] && b.bound > h[0].bound {
      InsertKeeps(b, h[1..], bound);
      assert Listed(h, bound) <==> h[0].bound == bound || Listed(h[1..], bound) by { ListedCons(h, bound); }
      ListedCons(Insert(b, h), bound);
      assert ([b] + h)[1..] == h && ([b] + h[1..])[1..] == h[1..];
    } else {
      ListedCons([b] + h, bound);
      assert ([b] + h)[1..] == h;
      if h == [] {
        assert [b] + h == [b];
      }
    }
  }

  lemma ListedCons(h: Buckets, bound: int)
    requires h != []
    ensures Listed(h, bound) <==> h[0].bound == bound || Listed(h[1..], bound)
  {
    if Listed(h[1..], bound) {
      var i :| 0 <= i < |h[1..]| && h[1..][i].bound == bound;
      assert h[i + 1].bound == bound;
    }
    if Listed(h, bound) && h[0].bound != bound {
      var i :| 0 <= i < |h| && h[i].bound == bound;
      assert h[1..][i - 1].bound == bound;
    }
  }

  lemma {:induction false} InsertSorted(b: Bucket, h: Buckets)
    requires Sorted(h)
    ensures Sorted(Insert(b, h))
    ensures NonNegative(h) && b.count >= 0 ==> NonNegative(Insert(b, h))
    ensures Insert(b, h) != []
    ensures Insert(b, h)[0] == b || (h != [] && Insert(b, h)[0] == h[0])
  {
    if h != [] && b.bound > h[0].bound {
      InsertSorted(b, h[1..]);
    }
  }

  /** Sorting keeps every per-bound sum and the listed bounds. */
  lemma {:induction false} SortKeeps(h: Buckets, bound: int)
    ensures Sorted(SortByBound(h))
    ensures NonNegative(h) ==> NonNegative(SortByBound(h))
    ensures SumAt(SortByBound(h), bound) == SumAt(h, bound)
    ensures SumUpTo(SortByBound(h), bound) == SumUpTo(h, bound)
    ensures Total(SortByBound(h)) == Total(h)
    ensures Listed(SortByBound(h), bound) <==> Listed(h, bound)
  {
    if h != [] {
      SortKeeps(h[1..], bound);
      var s := SortByBound(h[1..]);
      InsertKeeps(h[0], s, bound);
      InsertSorted(h[0], s);
      ListedCons(h, bound);
      assert ([h[0]] + s)[1..] == s;
    }
  }

  lemma {:induction false} FiniteKeeps(h: Buckets, bound: int)
    ensures NonNegative(h) ==> NonNegative(Finite(h))
    ensures !Listed(Finite(h), BUCKET_OVERFLOW)
    ensures bound != BUCKET_OVERFLOW ==> SumAt(Finite(h), bound) == SumAt(h, bound)
    ensures bound != BUCKET_OVERFLOW ==> (Listed(Finite(h), bound) <==> Listed(h, bound))
    ensures SumUpTo(Finite(h), bound) == SumUpTo(h, bound)
    ensures Total(h) == Total(Finite(h)) + SumAt(h, BUCKET_OVERFLOW)
  {
    if h != [] {
      FiniteKeeps(h[1..], bound);
      ListedCons(h, bound);
      if h[0].bound != BUCKET_OVERFLOW {
        ListedCons(Finite(h), bound);
        ListedCons(Finite(h), BUCKET_OVERFLOW);
        assert Finite(h)[1..] == Finite(h[1..]);
      }
    }
  }

  lemma {:induction false} SumsAreNonNegative(h: Buckets, bound: int)
    requires NonNegative(h)
    ensures 0 <= SumAt(h, bound) <= Total(h) && 0 <= SumUpTo(h, bound) <= Total(h)
  {
    if h != [] {
      SumsAreNonNegative(h[1..], bound);
    }
  }

  lemma {:induction false} SumUpToStep(h: Buckets, below: int, bound: int)
    requires below < bound && bound != BUCKET_OVERFLOW
    requires forall i :: 0 <= i < |h| ==> h[i].bound <= below || h[i].bound >= bound || h[i].bound == BUCKET_OVERFLOW
    ensures SumUpTo(h, bound) == SumUpTo(h, below) + SumAt(h, bound)
  {
    if h != [] {
      SumUpToStep(h[1..], below, bound);
    }
  }

  // ---- Order statistics ---------------------------------------------------------

  function CountUpTo(latencies: seq<nat>, x: int): nat {
    if latencies == [] then 0
    else (if latencies[0] <= x then 1 else 0) + CountUpTo(latencies[1..], x)
  }

  function CountIn(latencies: seq<nat>, bound: int): nat {
    if latencies == [] then 0
    else (if BucketFor(latencies[0]) == bound then 1 else 0) + CountIn(latencies[1..], bound)
  }

  /** `x` is the `k`-th smallest latency: fewer than `k` lie below it, at least `k` at or below. */
  predicate IsKthSmallest(latencies: seq<nat>, k: int, x: nat) {
    CountUpTo(latencies, x - 1) < k <= CountUpTo(latencies, x)
  }

  lemma {:induction false} CountUpToBounds(latencies: seq<nat>, x: int, y: int)
    requires x <= y
    ensures CountUpTo(latencies, x) <= CountUpTo(latencies, y) <= |latencies|
    ensures x < 0 ==> CountUpTo(latencies, x) == 0
  {
    if latencies != [] {
      CountUpToBounds(latencies[1..], x, y);
    }
  }

  function Max(latencies: seq<nat>): nat {
    if latencies == [] then 0
    else var m := Max(latencies[1..]); if latencies[0] > m then latencies[0] else m
  }

  lemma {:induction false} CountUpToMax(latencies: seq<nat>, x: int)
    requires x >= Max(latencies)
    ensures CountUpTo(latencies, x) == |latencies|
  {
    if latencies != [] {
      CountUpToMax(latencies[1..], x);
    }
  }

  /** Every rank from 1 to the number of latencies has exactly one order statistic. */
  lemma KthSmallestExists(latencies: seq<nat>, k: int)
    requires 1 <= k <= |latencies|
    ensures exists x: nat :: IsKthSmallest(latencies, k, x)
  {
    CountUpToMax(latencies, Max(latencies));
    CountUpToBounds(latencies, -1, -1);
    SearchKth(latencies, k, Max(latencies));
  }

  lemma {:induction false} SearchKth(latencies: seq<nat>, k: int, x: nat)
    requires 1 <= k <= CountUpTo(latencies, x)
    ensures exists y: nat :: IsKthSmallest(latencies, k, y)
  {
    if CountUpTo(latencies, x - 1) >= k {
      CountUpToBounds(latencies, x - 1, x);
      SearchKth(latencies, k, x - 1);
    } else {
      assert IsKthSmallest(latencies, k, x);
    }
  }

  lemma KthSmallestIsUnique(latencies: seq<nat>, k: int, x: nat, y: nat)
    requires IsKthSmallest(latencies, k, x) && IsKthSmallest(latencies, k, y)
    ensures x == y
  {
    if x < y {
      CountUpToBounds(latencies, x, y - 1);
    } else if y < x {
      CountUpToBounds(latencies, y, x - 1);
    }
  }

  // ---- Histograms of latencies ---------------------------------------------------

  /** `h` records `latencies`: ladder bounds only, and per bound the entries, however many
      there are, add up to the number of latencies in that bucket. */
  ghost predicate IsHistogramOf(h: Buckets, latencies: seq<nat>) {
    && NonNegative(h)
    && (forall i :: 0 <= i < |h| ==> OnLadder(h[i].bound) || h[i].bound == BUCKET_OVERFLOW)
    && (forall b :: OnLadder(b) || b == BUCKET_OVERFLOW ==> SumAt(h, b) == CountIn(latencies, b))
  }

  lemma {:induction false} CountUpToStep(latencies: seq<nat>, j: nat)
    requires j < 10
    ensures CountUpTo(latencies, LATENCY_BUCKETS_MS[j]) ==
            (if j == 0 then 0 else CountUpTo(latencies, LATENCY_BUCKETS_MS[j - 1]))
            + CountIn(latencies, LATENCY_BUCKETS_MS[j])
  {
    if latencies != [] {
      CountUpToStep(latencies[1..], j);
      BucketForMeaning(latencies[0]);
      var b := BucketFor(latencies[0]);
      var x := LATENCY_BUCKETS_MS[j];
      assert OnLadder(x);
      if j > 0 {
        assert OnLadder(LATENCY_BUCKETS_MS[j - 1]);
      }
      hide BucketFor;
      assert latencies[0] <= x <==> b != BUCKET_OVERFLOW && b <= x;
    }
  }

  lemma LadderGap(bound: int, j: nat)
    requires 0 < j < 10 && OnLadder(bound)
    ensures bound <= LATENCY_BUCKETS_MS[j - 1] || bound >= LATENCY_BUCKETS_MS[j]
  {
  }

  /** Up to any ladder bound the histogram and the latencies count the same. */
  lemma {:induction false} HistogramCounts(h: Buckets, latencies: seq<nat>, j: nat)
    requires IsHistogramOf(h, latencies) && j < 10
    ensures SumUpTo(h, LATENCY_BUCKETS_MS[j]) == CountUpTo(latencies, LATENCY_BUCKETS_MS[j])
  {
    CountUpToStep(latencies, j);
    assert OnLadder(LATENCY_BUCKETS_MS[j]);
    if j == 0 {
      SumUpToStep(h, 0, 1);
      NothingBelowLadder(h);
    } else {
      HistogramCounts(h, latencies, j - 1);
      forall i | 0 <= i < |h| && h[i].bound != BUCKET_OVERFLOW
        ensures h[i].bound <= LATENCY_BUCKETS_MS[j - 1] || h[i].bound >= LATENCY_BUCKETS_MS[j]
      {
        LadderGap(h[i].bound, j);
      }
      SumUpToStep(h, LATENCY_BUCKETS_MS[j - 1], LATENCY_BUCKETS_MS[j]);
    }
  }

  lemma {:induction false} NothingBelowLadder(h: Buckets)
    requires forall i :: 0 <= i < |h| ==> OnLadder(h[i].bound) || h[i].bound == BUCKET_OVERFLOW
    ensures SumUpTo(h, 0) == 0
  {
    if h != [] {
      NothingBelowLadder(h[1..]);
    }
  }

  lemma {:induction false} CountSplits(latencies: seq<nat>)
    ensures CountUpTo(latencies, LAST_FINITE) + CountIn(latencies, BUCKET_OVERFLOW) == |latencies|
  {
    if latencies != [] {
      CountSplits(latencies[1..]);
      BucketForMeaning(latencies[0]);
      hide BucketFor;
    }
  }

  lemma {:induction false} AllFiniteUpToLast(h: Buckets)
    requires forall i :: 0 <= i < |h| ==> OnLadder(h[i].bound) || h[i].bound == BUCKET_OVERFLOW
    ensures Total(h) == SumUpTo(h, LAST_FINITE) + SumAt(h, BUCKET_OVERFLOW)
  {
    if h != [] {
      AllFiniteUpToLast(h[1..]);
    }
  }

  lemma HistogramTotal(h: Buckets, latencies: seq<nat>)
    requires IsHistogramOf(h, latencies)
    ensures Total(h) == |latencies|
    ensures SumUpTo(h, LAST_FINITE) == CountUpTo(latencies, LAST_FINITE)
  {
    HistogramCounts(h, latencies, 9);
    CountSplits(latencies);
    AllFiniteUpToLast(h);
  }
}
