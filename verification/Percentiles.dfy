/** `percentile`: interpolation inside the bucket that crosses the target rank (`src/usage.rs`).
    The source's `f64` values are modelled as reals. */
module Percentiles {
  import opened Prelude
  import opened Histogram

  // ---- The source's computation -------------------------------------------------

  /** `f64::round`: half away from zero. */
  function Round(x: real): int {
    if x >= 0.0 then (x + 0.5).Floor else -((-x + 0.5).Floor)
  }

  /** `as u64` on a float saturates at zero. */
  function SaturateU64(n: int): nat { if n < 0 then 0 else n }

  function Clamp(x: real): real { if x < 0.0 then 0.0 else if x > 1.0 then 1.0 else x }

  function Interpolate(lower: int, bucket: Bucket, cumulative: int, rank: real): real
    requires bucket.count > 0
  {
    lower as real
    + (bucket.bound - lower) as real * Clamp((rank - cumulative as real) / bucket.count as real)
  }

  datatype WalkEnd = Crossed(value: real) | RanOut(lower: int)

  /** The walk over the sorted finite buckets. `lower` is the bound of the previous listed
      bucket, whether or not that bucket holds anything. */
  function Walk(ordered: Buckets, cumulative: int, lower: int, rank: real): WalkEnd {
    if ordered == [] then RanOut(lower)
    else
      var b := ordered[0];
      if b.count <= 0 then Walk(ordered[1..], cumulative, b.bound, rank)
      else if (cumulative + b.count) as real >= rank then Crossed(Interpolate(lower, b, cumulative, rank))
      else Walk(ordered[1..], cumulative + b.count, b.bound, rank)
  }

  function Report(end: WalkEnd, overflow: int): nat {
    match end
    case Crossed(value) => SaturateU64(Round(value))
    case RanOut(lower) => if overflow > 0 then LAST_FINITE else SaturateU64(lower)
  }

  /** The target rank, `q * total as f64`. */
  function Rank(q: real, total: int): real { q * total as real }

  function Quantile(h: Buckets, q: real): Option<nat> {
    if Total(h) <= 0 then None
    else Some(Report(Walk(SortByBound(Finite(h)), 0, 0, Rank(q, Total(h))), SumAt(h, BUCKET_OVERFLOW)))
  }

  /** `percentile`, with its loop. */
  method Percentile(buckets: Buckets, q: real) returns (r: Option<nat>)
    ensures r == Quantile(buckets, q)
  {
    var total := Total(buckets);
    if total <= 0 {
      return None;
    }
    var ordered := SortByBound(Finite(buckets));
    var overflow := SumAt(buckets, BUCKET_OVERFLOW);
    var rank := Rank(q, total);
    hide Rank, Interpolate, Round;

    var cumulative, lower := 0, 0;
    var i := 0;
    while i < |ordered|
      invariant 0 <= i <= |ordered|
      invariant Walk(ordered, 0, 0, rank) == Walk(ordered[i..], cumulative, lower, rank)
    {
      var upper, count := ordered[i].bound, ordered[i].count;
      assert ordered[i..][1..] == ordered[i + 1..];
      if count <= 0 {
        lower := upper;
      } else {
        var next := cumulative + count;
        if next as real >= rank {
          var value := Interpolate(lower, ordered[i], cumulative, rank);
          return Some(SaturateU64(Round(value)));
        }
        cumulative := next;
        lower := upper;
      }
      i := i + 1;
    }

    assert ordered[i..] == [];
    if overflow > 0 {
      return Some(LAST_FINITE);
    }
    return Some(SaturateU64(lower));
  }

  // ---- Arithmetic ------------------------------------------------------------------

  lemma MulMonotone(a: real, f: real, g: real)
    requires a >= 0.0 && f <= g
    ensures a * f <= a * g
  {
    assert a * (g - f) >= 0.0;
  }

  lemma DivMonotone(x: real, y: real, c: real)
    requires c > 0.0 && x <= y
    ensures x / c <= y / c
  {
    assert y / c - x / c == (y - x) / c;
  }

  lemma DivBySmaller(x: real, c: real, d: real)
    requires 0.0 < c <= d && x >= 0.0
    ensures x / d <= x / c
  {
    assert x / c * c == x && x / d * d == x;
    if x / c < x / d {
      MulMonotone(c, x / c, x / d);
      MulMonotone(x / d, c, d);
    }
  }

  lemma InterpolateBracket(lower: int, b: Bucket, cumulative: int, rank: real)
    requires b.count > 0 && lower <= b.bound
    ensures lower as real <= Interpolate(lower, b, cumulative, rank) <= b.bound as real
  {
    var f := Clamp((rank - cumulative as real) / b.count as real);
    var a := (b.bound - lower) as real;
    MulMonotone(a, 0.0, f);
    MulMonotone(a, f, 1.0);
    assert 0.0 <= a * f <= a;
  }

  lemma InterpolateMonotone(lower: int, b: Bucket, cumulative: int, rank: real, rank': real)
    requires b.count > 0 && lower <= b.bound && rank <= rank'
    ensures Interpolate(lower, b, cumulative, rank) <= Interpolate(lower, b, cumulative, rank')
  {
    var c := b.count as real;
    DivMonotone(rank - cumulative as real, rank' - cumulative as real, c);
    MulMonotone((b.bound - lower) as real,
                Clamp((rank - cumulative as real) / c), Clamp((rank' - cumulative as real) / c));
  }

  /** Spreading the same rank over a larger bucket lowers the interpolated value. */
  lemma InterpolateLargerBucket(lower: int, b: Bucket, count: int, cumulative: int, rank: real)
    requires 0 < b.count <= count && lower <= b.bound
    ensures Interpolate(lower, b.(count := count), cumulative, rank) <= Interpolate(lower, b, cumulative, rank)
  {
    var x := rank - cumulative as real;
    if x >= 0.0 {
      DivBySmaller(x, b.count as real, count as real);
    } else {
      DivMonotone(x, 0.0, b.count as real);
      DivMonotone(x, 0.0, count as real);
    }
    MulMonotone((b.bound - lower) as real, Clamp(x / count as real), Clamp(x / b.count as real));
  }

  lemma RankMonotone(q: real, q': real, total: int)
    requires q <= q' && total >= 0
    ensures Rank(q, total) <= Rank(q', total)
  {
    MulMonotone(total as real, q, q');
  }

  lemma RoundMonotone(x: real, y: real)
    requires x <= y
    ensures Round(x) <= Round(y)
  {
  }

  lemma RoundOfInt(n: int)
    ensures Round(n as real) == n
  {
  }

  // ---- The bucket that crosses the rank ------------------------------------------------

  /** `end` is a crossing whose value lies in the bucket with bound `b`: at most `b` and at
      least every listed bound below `b`. */
  ghost predicate LandsIn(end: WalkEnd, ordered: Buckets, lower: int, b: int) {
    && end.Crossed?
    && lower as real <= end.value <= b as real
    && (forall i :: 0 <= i < |ordered| && ordered[i].bound < b ==> ordered[i].bound as real <= end.value)
  }

  ghost predicate StartsAt(ordered: Buckets, lower: int) {
    forall i :: 0 <= i < |ordered| ==> lower <= ordered[i].bound
  }

  /** Counts of the entries strictly below `bound`. */
  function SumBelow(h: Buckets, bound: int): int {
    if h == [] then 0 else (if h[0].bound < bound then h[0].count else 0) + SumBelow(h[1..], bound)
  }

  /** Counts of the entries up to and including `bound`, overflow not being listed. */
  function SumThrough(h: Buckets, bound: int): int {
    if h == [] then 0 else (if h[0].bound <= bound then h[0].count else 0) + SumThrough(h[1..], bound)
  }

  lemma {:induction false} NothingBelow(h: Buckets, bound: int)
    requires forall i :: 0 <= i < |h| ==> bound <= h[i].bound
    ensures SumBelow(h, bound) == 0
  {
    if h != [] {
      NothingBelow(h[1..], bound);
    }
  }

  lemma {:induction false} NothingThrough(h: Buckets, bound: int)
    requires forall i :: 0 <= i < |h| ==> bound < h[i].bound
    ensures SumThrough(h, bound) == 0
  {
    if h != [] {
      NothingThrough(h[1..], bound);
    }
  }

  lemma {:induction false} SumBelowNonNegative(h: Buckets, bound: int)
    requires NonNegative(h)
    ensures SumBelow(h, bound) >= 0
  {
    if h != [] {
      SumBelowNonNegative(h[1..], bound);
    }
  }

  /** The walk lands in the bucket whose cumulative counts straddle the rank. */
  lemma {:induction false} WalkLandsIn(ordered: Buckets, cumulative: int, lower: int, rank: real, b: int)
    requires Sorted(ordered) && NonNegative(ordered) && StartsAt(ordered, lower) && lower <= b
    requires (cumulative + SumBelow(ordered, b)) as real < rank <= (cumulative + SumThrough(ordered, b)) as real
    ensures LandsIn(Walk(ordered, cumulative, lower, rank), ordered, lower, b)
  {
    if ordered == [] {
      assert false;
    } else {
      var head := ordered[0];
      if head.bound > b {
        NothingThrough(ordered, b);
        NothingBelow(ordered, b);
        assert false;
      } else if head.count > 0 && (cumulative + head.count) as real >= rank {
        InterpolateBracket(lower, head, cumulative, rank);
        if head.bound < b {
          SumBelowNonNegative(ordered[1..], b);
          assert false;
        }
      } else {
        if head.bound == b {
          NothingBelow(ordered[1..], b);
        }
        WalkLandsIn(ordered[1..], cumulative + head.count, head.bound, rank, b);
      }
    }
  }

  lemma {:induction false} FiniteSums(h: Buckets, bound: int)
    requires !Listed(h, BUCKET_OVERFLOW)
    ensures SumThrough(h, bound) == SumUpTo(h, bound)
    ensures SumBelow(h, bound) == SumUpTo(h, bound - 1)
  {
    if h != [] {
      ListedCons(h, BUCKET_OVERFLOW);
      FiniteSums(h[1..], bound);
    }
  }

  lemma {:induction false} RanOutOnlyPastTotal(ordered: Buckets, cumulative: int, lower: int, rank: real)
    requires NonNegative(ordered)
    requires (cumulative + Total(ordered)) as real < rank
    ensures Walk(ordered, cumulative, lower, rank).RanOut?
  {
    if ordered != [] {
      SumsAreNonNegative(ordered[1..], 0);
      RanOutOnlyPastTotal(ordered[1..], cumulative + ordered[0].count, ordered[0].bound, rank);
    }
  }

  ghost predicate NonNegativeBounds(h: Buckets) {
    forall i :: 0 <= i < |h| ==> h[i].bound == BUCKET_OVERFLOW || 0 <= h[i].bound <= LAST_FINITE
  }

  lemma SortedFinite(h: Buckets)
    requires NonNegative(h) && NonNegativeBounds(h)
    ensures var s := SortByBound(Finite(h));
            && Sorted(s) && NonNegative(s) && StartsAt(s, 0)
            && (forall i :: 0 <= i < |s| ==> s[i].bound <= LAST_FINITE)
            && !Listed(s, BUCKET_OVERFLOW)
            && (forall b :: b != BUCKET_OVERFLOW ==> (Listed(s, b) <==> Listed(h, b)))
            && (forall b :: SumUpTo(s, b) == SumUpTo(h, b))
            && (forall b :: b != BUCKET_OVERFLOW ==> SumAt(s, b) == SumAt(h, b))
            && Total(h) == Total(s) + SumAt(h, BUCKET_OVERFLOW)
  {
    var s := SortByBound(Finite(h));
    forall b
      ensures b != BUCKET_OVERFLOW ==> (Listed(s, b) <==> Listed(h, b))
      ensures b != BUCKET_OVERFLOW ==> SumAt(s, b) == SumAt(h, b)
      ensures SumUpTo(s, b) == SumUpTo(h, b)
    {
      FiniteKeeps(h, b);
      SortKeeps(Finite(h), b);
    }
    FiniteKeeps(h, 0);
    SortKeeps(Finite(h), 0);
    SortKeeps(Finite(h), BUCKET_OVERFLOW);
    forall i | 0 <= i < |s|
      ensures 0 <= s[i].bound <= LAST_FINITE
    {
      assert Listed(s, s[i].bound);
      assert Listed(h, s[i].bound);
    }
  }

  /** The reported percentile lies in the bucket whose cumulative counts straddle the rank. */
  ghost predicate InBucket(h: Buckets, b: int, p: nat) {
    p <= b && forall x :: x != BUCKET_OVERFLOW && Listed(h, x) && x < b ==> x <= p
  }

  lemma QuantileLandsIn(h: Buckets, q: real, b: int)
    requires NonNegative(h) && NonNegativeBounds(h) && Total(h) > 0
    requires 0 <= b && SumUpTo(h, b - 1) as real < Rank(q, Total(h)) <= SumUpTo(h, b) as real
    ensures Quantile(h, q).Some? && InBucket(h, b, Quantile(h, q).value)
  {
    SortedFinite(h);
    var s := SortByBound(Finite(h));
    FiniteSums(s, b);
    WalkLandsIn(s, 0, 0, Rank(q, Total(h)), b);
    var v := Walk(s, 0, 0, Rank(q, Total(h))).value;
    RoundOfInt(0);
    RoundMonotone(0.0, v);
    RoundOfInt(b);
    RoundMonotone(v, b as real);
    forall x | x != BUCKET_OVERFLOW && Listed(h, x) && x < b
      ensures x <= Round(v)
    {
      assert Listed(s, x);
      RoundOfInt(x);
      RoundMonotone(x as real, v);
    }
  }

  // ---- Percentiles of recorded latencies -----------------------------------------------

  predicate IsCeiling(k: int, r: real) { (k - 1) as real < r <= k as real }

  lemma RankIs(q: real, n: int)
    ensures Rank(q, n) == q * n as real
  {
  }

  lemma RankBounds(n: int, q: real)
    requires n > 0 && 0.0 < q <= 1.0
    ensures 0.0 < Rank(q, n) <= n as real
  {
    MulMonotone(n as real, q, 1.0);
  }

  lemma CeilingSplits(k: int, r: real, a: int, b: int)
    requires IsCeiling(k, r)
    ensures a < k ==> a as real < r
    ensures k <= b ==> r <= b as real
    ensures b < k ==> b as real < r
  {
  }

  /** For latencies recorded in any number of entries per ladder bound, the percentile lies in
      the bucket of the ceil(q*N)-th smallest latency, and is 1000 when that one overflowed. */
  lemma PercentileBracketsOrderStatistic(h: Buckets, latencies: seq<nat>, q: real, rank: real, k: int, x: nat)
    requires IsHistogramOf(h, latencies) && latencies != []
    requires 0.0 < q <= 1.0 && rank == q * |latencies| as real && (k - 1) as real < rank <= k as real
    requires IsKthSmallest(latencies, k, x)
    ensures Quantile(h, q).Some?
    ensures var b, p := BucketFor(x), Quantile(h, q).value;
            if b == BUCKET_OVERFLOW then p == 1000 else InBucket(h, b, p)
  {
    hide Rank, BucketFor, Quantile;
    RankIs(q, |latencies|);
    HistogramTotal(h, latencies);
    BucketForMeaning(x);
    var b, r := BucketFor(x), Rank(q, Total(h));
    if b == BUCKET_OVERFLOW {
      CountUpToBounds(latencies, LAST_FINITE, x - 1);
      CeilingSplits(k, r, CountUpTo(latencies, LAST_FINITE), k);
      OverflowQuantile(h, latencies, q);
    } else {
      var j :| 0 <= j < 10 && LATENCY_BUCKETS_MS[j] == b;
      BracketInLadder(h, latencies, q, k, x, j);
    }
  }

  lemma BracketInLadder(h: Buckets, latencies: seq<nat>, q: real, k: int, x: nat, j: nat)
    requires IsHistogramOf(h, latencies) && Total(h) > 0
    requires IsCeiling(k, Rank(q, Total(h))) && IsKthSmallest(latencies, k, x)
    requires j < 10 && BucketFor(x) == LATENCY_BUCKETS_MS[j]
    ensures Quantile(h, q).Some? && InBucket(h, LATENCY_BUCKETS_MS[j], Quantile(h, q).value)
  {
    var b, r := LATENCY_BUCKETS_MS[j], Rank(q, Total(h));
    BucketForMeaning(x);
    BelowBucket(h, latencies, j, x);
    hide BucketFor, Quantile, Rank;
    assert OnLadder(b);
    HistogramCounts(h, latencies, j);
    CountUpToBounds(latencies, x, b);
    CeilingSplits(k, r, SumUpTo(h, b - 1), SumUpTo(h, b));
    QuantileLandsIn(h, q, b);
  }

  lemma {:induction false} SumUpToSame(h: Buckets, low: int, high: int)
    requires low <= high
    requires forall i :: 0 <= i < |h| && h[i].bound != BUCKET_OVERFLOW ==> h[i].bound <= low || h[i].bound > high
    ensures SumUpTo(h, low) == SumUpTo(h, high)
  {
    if h != [] {
      SumUpToSame(h[1..], low, high);
    }
  }

  /** Fewer latencies than the bucket's own lie in the buckets before it. */
  lemma BelowBucket(h: Buckets, latencies: seq<nat>, j: nat, x: nat)
    requires IsHistogramOf(h, latencies) && j < 10 && BucketFor(x) == LATENCY_BUCKETS_MS[j]
    ensures SumUpTo(h, LATENCY_BUCKETS_MS[j] - 1) <= CountUpTo(latencies, x - 1)
  {
    hide BucketFor, SumUpTo, CountUpTo;
    BucketForMeaning(x);
    var b := LATENCY_BUCKETS_MS[j];
    if j == 0 {
      NothingBelowLadder(h);
      assert b - 1 == 0;
    } else {
      var low := LATENCY_BUCKETS_MS[j - 1];
      assert OnLadder(low);
      HistogramCounts(h, latencies, j - 1);
      forall i | 0 <= i < |h| && h[i].bound != BUCKET_OVERFLOW
        ensures h[i].bound <= low || h[i].bound > b - 1
      {
        LadderGap(h[i].bound, j);
      }
      SumUpToSame(h, low, b - 1);
      CountUpToBounds(latencies, low, x - 1);
    }
  }

  lemma OverflowQuantile(h: Buckets, latencies: seq<nat>, q: real)
    requires IsHistogramOf(h, latencies) && latencies != [] && NonNegativeBounds(h)
    requires 0.0 < q <= 1.0 && CountUpTo(latencies, LAST_FINITE) as real < Rank(q, Total(h))
    ensures Quantile(h, q) == Some(LAST_FINITE)
  {
    HistogramTotal(h, latencies);
    SortedFinite(h);
    var s := SortByBound(Finite(h));
    AllFiniteUpToLast(h);
    RankBounds(Total(h), q);
    hide SortByBound, Finite, Rank, Interpolate;
    RanOutOnlyPastTotal(s, 0, 0, Rank(q, Total(h)));
  }

  /** With every ladder bound listed the percentile is in the ladder bucket itself. */
  lemma PercentileInLadderBucket(h: Buckets, latencies: seq<nat>, q: real, rank: real, k: int, x: nat)
    requires IsHistogramOf(h, latencies) && latencies != []
    requires 0.0 < q <= 1.0 && rank == q * |latencies| as real && (k - 1) as real < rank <= k as real
    requires IsKthSmallest(latencies, k, x)
    requires forall b :: OnLadder(b) ==> Listed(h, b)
    ensures Quantile(h, q).Some?
    ensures var b, p := BucketFor(x), Quantile(h, q).value;
            if b == BUCKET_OVERFLOW then p == 1000
            else p <= b && forall y :: OnLadder(y) && y < b ==> y <= p
  {
    PercentileBracketsOrderStatistic(h, latencies, q, rank, k, x);
    hide BucketFor, Quantile;
  }

  // ---- Monotone in the quantile ----------------------------------------------------------

  function EndValue(end: WalkEnd, overflow: int): real {
    match end
    case Crossed(value) => value
    case RanOut(lower) => if overflow > 0 then LAST_FINITE as real else lower as real
  }

  lemma {:induction false} WalkAtLeastLower(ordered: Buckets, cumulative: int, lower: int, rank: real, overflow: int)
    requires Sorted(ordered) && StartsAt(ordered, lower) && 0 <= lower <= LAST_FINITE
    requires forall i :: 0 <= i < |ordered| ==> ordered[i].bound <= LAST_FINITE
    ensures lower as real <= EndValue(Walk(ordered, cumulative, lower, rank), overflow) <= LAST_FINITE as real
  {
    if ordered != [] {
      var b := ordered[0];
      if b.count > 0 && (cumulative + b.count) as real >= rank {
        InterpolateBracket(lower, b, cumulative, rank);
      } else {
        WalkAtLeastLower(ordered[1..], cumulative + if b.count > 0 then b.count else 0, b.bound, rank, overflow);
      }
    }
  }

  lemma {:induction false} WalkMonotone(ordered: Buckets, cumulative: int, lower: int, rank: real, rank': real, overflow: int)
    requires Sorted(ordered) && StartsAt(ordered, lower) && 0 <= lower <= LAST_FINITE && rank <= rank'
    requires forall i :: 0 <= i < |ordered| ==> ordered[i].bound <= LAST_FINITE
    ensures EndValue(Walk(ordered, cumulative, lower, rank), overflow)
            <= EndValue(Walk(ordered, cumulative, lower, rank'), overflow)
  {
    if ordered != [] {
      var b := ordered[0];
      if b.count <= 0 {
        WalkMonotone(ordered[1..], cumulative, b.bound, rank, rank', overflow);
      } else if (cumulative + b.count) as real >= rank' {
        InterpolateMonotone(lower, b, cumulative, rank, rank');
      } else if (cumulative + b.count) as real >= rank {
        InterpolateBracket(lower, b, cumulative, rank);
        WalkAtLeastLower(ordered[1..], cumulative + b.count, b.bound, rank', overflow);
      } else {
        WalkMonotone(ordered[1..], cumulative + b.count, b.bound, rank, rank', overflow);
      }
    }
  }

  lemma ReportIsRounded(end: WalkEnd, overflow: int)
    ensures Report(end, overflow) == SaturateU64(Round(EndValue(end, overflow)))
  {
    RoundOfInt(LAST_FINITE);
    if end.RanOut? {
      RoundOfInt(end.lower);
    }
  }

  /** A higher quantile never reports a lower latency; nothing is reported exactly when the
      histogram is empty. */
  lemma QuantileMonotone(h: Buckets, q: real, q': real)
    requires NonNegative(h) && NonNegativeBounds(h) && 0.0 <= q <= q' <= 1.0
    ensures Quantile(h, q).None? <==> Total(h) == 0
    ensures Total(h) != 0 ==> Quantile(h, q').Some? && Quantile(h, q).value <= Quantile(h, q').value <= LAST_FINITE
  {
    SumsAreNonNegative(h, 0);
    SortedFinite(h);
    var s, overflow := SortByBound(Finite(h)), SumAt(h, BUCKET_OVERFLOW);
    RankMonotone(q, q', Total(h));
    hide Rank, Round, Walk;
    WalkMonotone(s, 0, 0, Rank(q, Total(h)), Rank(q', Total(h)), overflow);
    WalkAtLeastLower(s, 0, 0, Rank(q', Total(h)), overflow);
    ReportIsRounded(Walk(s, 0, 0, Rank(q, Total(h))), overflow);
    ReportIsRounded(Walk(s, 0, 0, Rank(q', Total(h))), overflow);
    var v := EndValue(Walk(s, 0, 0, Rank(q, Total(h))), overflow);
    var v' := EndValue(Walk(s, 0, 0, Rank(q', Total(h))), overflow);
    RoundMonotone(v, v');
    RoundMonotone(v', LAST_FINITE as real);
    RoundOfInt(LAST_FINITE);
  }

  // ---- Split histograms ---------------------------------------------------------------------

  /** Adds up neighbouring entries with the same bound. */
  function Coalesce(ordered: Buckets): Buckets
    decreases |ordered|
  {
    if |ordered| <= 1 then ordered
    else if ordered[0].bound == ordered[1].bound then
      Coalesce([Bucket(ordered[0].bound, ordered[0].count + ordered[1].count)] + ordered[2..])
    else [ordered[0]] + Coalesce(ordered[1..])
  }

  predicate DistinctBounds(h: Buckets) { forall i, j :: 0 <= i < j < |h| ==> h[i].bound != h[j].bound }

  /** `m` lists the bounds of `h` once each, with the summed counts. */
  ghost predicate IsMergeOf(m: Buckets, h: Buckets) {
    && DistinctBounds(m)
    && (forall b :: Listed(m, b) <==> Listed(h, b))
    && (forall b :: SumAt(m, b) == SumAt(h, b))
  }

  lemma MergeTwo(ordered: Buckets, cumulative: int, lower: int, rank: real)
    requires |ordered| >= 2 && ordered[0].bound == ordered[1].bound
    requires Sorted(ordered) && NonNegative(ordered) && StartsAt(ordered, lower)
    ensures var merged := [Bucket(ordered[0].bound, ordered[0].count + ordered[1].count)] + ordered[2..];
            var end, end' := Walk(ordered, cumulative, lower, rank), Walk(merged, cumulative, lower, rank);
            && end.Crossed? == end'.Crossed?
            && (end.Crossed? ==> end.value >= end'.value)
            && (end.RanOut? ==> end == end')
  {
    var (a, b) := (ordered[0], ordered[1]);
    var rest := ordered[2..];
    var sum := Bucket(a.bound, a.count + b.count);
    assert ([sum] + rest)[1..] == rest;
    assert ordered[1..][1..] == rest;
    assert Walk(ordered[1..], cumulative + a.count, a.bound, rank) ==
           if b.count <= 0 then Walk(rest, cumulative + a.count, b.bound, rank)
           else if (cumulative + a.count + b.count) as real >= rank
           then Crossed(Interpolate(a.bound, b, cumulative + a.count, rank))
           else Walk(rest, cumulative + a.count + b.count, b.bound, rank);
    if sum.count > 0 && (cumulative + sum.count) as real >= rank {
      InterpolateBracket(lower, sum, cumulative, rank);
      if a.count > 0 && (cumulative + a.count) as real >= rank {
        InterpolateLargerBucket(lower, a, sum.count, cumulative, rank);
      } else if b.count > 0 {
        InterpolateBracket(a.bound, b, cumulative + a.count, rank);
      }
    }
  }

  /** Splitting counts over repeated bounds never lowers the value the walk finds. */
  lemma {:induction false} CoalesceLowers(ordered: Buckets, cumulative: int, lower: int, rank: real)
    requires Sorted(ordered) && NonNegative(ordered) && StartsAt(ordered, lower)
    ensures var end, end' := Walk(ordered, cumulative, lower, rank), Walk(Coalesce(ordered), cumulative, lower, rank);
            && end.Crossed? == end'.Crossed?
            && (end.Crossed? ==> end.value >= end'.value)
            && (end.RanOut? ==> end == end')
    decreases |ordered|
  {
    if |ordered| > 1 {
      if ordered[0].bound == ordered[1].bound {
        MergeTwo(ordered, cumulative, lower, rank);
        CoalesceLowers([Bucket(ordered[0].bound, ordered[0].count + ordered[1].count)] + ordered[2..], cumulative, lower, rank);
      } else {
        var head := ordered[0];
        assert Coalesce(ordered)[1..] == Coalesce(ordered[1..]);
        CoalesceLowers(ordered[1..], cumulative + head.count, head.bound, rank);
      }
    }
  }

  lemma {:induction false} CoalesceSorted(ordered: Buckets)
    requires Sorted(ordered)
    ensures Sorted(Coalesce(ordered)) && DistinctBounds(Coalesce(ordered))
    ensures ordered != [] ==> Coalesce(ordered) != [] && Coalesce(ordered)[0].bound == ordered[0].bound
    decreases |ordered|
  {
    if |ordered| > 1 {
      if ordered[0].bound == ordered[1].bound {
        CoalesceSorted([Bucket(ordered[0].bound, ordered[0].count + ordered[1].count)] + ordered[2..]);
      } else {
        CoalesceSorted(ordered[1..]);
      }
    }
  }

  lemma {:induction false} CoalesceKeeps(ordered: Buckets, bound: int)
    requires Sorted(ordered)
    ensures SumAt(Coalesce(ordered), bound) == SumAt(ordered, bound)
    ensures Listed(Coalesce(ordered), bound) <==> Listed(ordered, bound)
    ensures Sorted(Coalesce(ordered)) && DistinctBounds(Coalesce(ordered))
    decreases |ordered|
  {
    hide Listed, DistinctBounds;
    CoalesceSorted(ordered);
    if |ordered| > 1 {
      ListedCons(ordered, bound);
      if ordered[0].bound == ordered[1].bound {
        var merged := [Bucket(ordered[0].bound, ordered[0].count + ordered[1].count)] + ordered[2..];
        assert merged[1..] == ordered[2..] && ordered[1..][1..] == ordered[2..];
        ListedCons(ordered[1..], bound);
        ListedCons(merged, bound);
        CoalesceKeeps(merged, bound);
      } else {
        CoalesceKeeps(ordered[1..], bound);
        ListedCons(Coalesce(ordered), bound);
        assert Coalesce(ordered)[1..] == Coalesce(ordered[1..]);
      }
    }
  }

  lemma SumAtUnlisted(h: Buckets, bound: int)
    requires !Listed(h, bound)
    ensures SumAt(h, bound) == 0
  {
    if h != [] {
      ListedCons(h, bound);
      SumAtUnlisted(h[1..], bound);
    }
  }

  lemma HeadIsListed(h: Buckets)
    requires h != []
    ensures Listed(h, h[0].bound)
  {
  }

  /** Strictly sorted histograms are determined by their bounds and sums. */
  lemma {:induction false} SortedDistinctUnique(s: Buckets, t: Buckets)
    requires Sorted(s) && DistinctBounds(s) && Sorted(t) && DistinctBounds(t)
    requires forall b :: Listed(s, b) <==> Listed(t, b)
    requires forall b :: SumAt(s, b) == SumAt(t, b)
    ensures s == t
  {
    if s == [] {
      if t != [] {
        HeadIsListed(t);
      }
    } else {
      assert Listed(s, s[0].bound) && Listed(t, s[0].bound);
      assert Listed(t, t[0].bound) && Listed(s, t[0].bound);
      assert s[0].bound == t[0].bound;
      var b0 := s[0].bound;
      assert !Listed(s[1..], b0) && !Listed(t[1..], b0);
      SumAtUnlisted(s[1..], b0);
      SumAtUnlisted(t[1..], b0);
      assert SumAt(s, b0) == SumAt(t, b0);
      forall b
        ensures Listed(s[1..], b) <==> Listed(t[1..], b)
        ensures SumAt(s[1..], b) == SumAt(t[1..], b)
      {
        ListedCons(s, b);
        ListedCons(t, b);
        assert Listed(s, b) <==> Listed(t, b);
        assert SumAt(s, b) == SumAt(t, b);
      }
      SortedDistinctUnique(s[1..], t[1..]);
    }
  }

  lemma {:induction false} FiniteDistinct(h: Buckets)
    requires DistinctBounds(h)
    ensures DistinctBounds(SortByBound(Finite(h)))
    ensures |Finite(h)| <= |h|
  {
    if h != [] {
      FiniteDistinct(h[1..]);
      if h[0].bound != BUCKET_OVERFLOW {
        assert Finite(h)[1..] == Finite(h[1..]);
        var s := SortByBound(Finite(h[1..]));
        var b := h[0].bound;
        FiniteKeeps(h[1..], b);
        SortKeeps(Finite(h[1..]), b);
        assert !Listed(h[1..], b);
        InsertDistinct(h[0], s);
      }
    }
  }

  lemma {:induction false} InsertDistinct(b: Bucket, h: Buckets)
    requires Sorted(h) && DistinctBounds(h) && !Listed(h, b.bound)
    ensures DistinctBounds(Insert(b, h))
  {
    if h != [] && b.bound > h[0].bound {
      ListedCons(h, b.bound);
      InsertDistinct(b, h[1..]);
      var t := Insert(b, h[1..]);
      forall i | 0 <= i < |t|
        ensures t[i].bound != h[0].bound
      {
        assert Listed(t, t[i].bound);
        InsertKeeps(b, h[1..], t[i].bound);
      }
    }
  }

  lemma MergeSortsToCoalesce(m: Buckets, h: Buckets)
    requires IsMergeOf(m, h)
    ensures SortByBound(Finite(m)) == Coalesce(SortByBound(Finite(h)))
  {
    var s, t := SortByBound(Finite(m)), SortByBound(Finite(h));
    FiniteDistinct(m);
    SortKeeps(Finite(m), 0);
    SortKeeps(Finite(h), 0);
    CoalesceKeeps(t, 0);
    forall b
      ensures Listed(s, b) <==> Listed(Coalesce(t), b)
      ensures SumAt(s, b) == SumAt(Coalesce(t), b)
    {
      SortKeeps(Finite(m), b);
      SortKeeps(Finite(h), b);
      FiniteKeeps(m, b);
      FiniteKeeps(h, b);
      CoalesceKeeps(t, b);
      assert Listed(m, b) <==> Listed(h, b);
      assert SumAt(m, b) == SumAt(h, b);
      if b == BUCKET_OVERFLOW {
        SumAtUnlisted(s, b);
        SumAtUnlisted(t, b);
      }
    }
    SortedDistinctUnique(s, Coalesce(t));
  }

  lemma {:induction false} TotalFromSums(s: Buckets)
    ensures Total(Coalesce(s)) == Total(s)
    decreases |s|
  {
    if |s| > 1 {
      if s[0].bound == s[1].bound {
        var merged := [Bucket(s[0].bound, s[0].count + s[1].count)] + s[2..];
        assert merged[1..] == s[2..] && s[1..][1..] == s[2..];
        TotalFromSums(merged);
      } else {
        TotalFromSums(s[1..]);
        assert Coalesce(s)[1..] == Coalesce(s[1..]);
      }
    }
  }

  lemma MergeKeepsTotal(m: Buckets, h: Buckets)
    requires IsMergeOf(m, h)
    ensures Total(m) == Total(h)
  {
    MergeSortsToCoalesce(m, h);
    TotalFromSums(SortByBound(Finite(h)));
    FiniteKeeps(m, 0);
    FiniteKeeps(h, 0);
    SortKeeps(Finite(m), 0);
    SortKeeps(Finite(h), 0);
    assert SumAt(m, BUCKET_OVERFLOW) == SumAt(h, BUCKET_OVERFLOW);
  }

  /** Repeated entries for a bound, as a flat aggregate over several days has, never lower the
      percentile below that of the merged histogram. */
  lemma SplitNeverLowers(m: Buckets, h: Buckets, q: real)
    requires NonNegative(h) && NonNegativeBounds(h) && IsMergeOf(m, h)
    ensures Quantile(m, q).Some? == Quantile(h, q).Some?
    ensures Quantile(h, q).Some? ==> Quantile(m, q).value <= Quantile(h, q).value
  {
    hide Rank;
    MergeKeepsTotal(m, h);
    MergeSortsToCoalesce(m, h);
    SortedFinite(h);
    var s := SortByBound(Finite(h));
    CoalesceLowers(s, 0, 0, Rank(q, Total(h)));
    assert SumAt(m, BUCKET_OVERFLOW) == SumAt(h, BUCKET_OVERFLOW);
    var (end, end') := (Walk(s, 0, 0, Rank(q, Total(h))), Walk(Coalesce(s), 0, 0, Rank(q, Total(h))));
    if end.Crossed? {
      RoundMonotone(end'.value, end.value);
    }
  }

  /** It can be strictly higher: two days of fifty requests in one bucket read 10, the same hundred
      in one entry read 5. */
  lemma SplitCanDiffer()
    ensures Quantile([Bucket(10, 50), Bucket(10, 50)], 0.5) == Some(10)
    ensures Quantile([Bucket(10, 100)], 0.5) == Some(5)
  {
    var (split, merged) := ([Bucket(10, 50), Bucket(10, 50)], [Bucket(10, 100)]);
    assert split[1..] == [Bucket(10, 50)] && merged[1..] == [];
    assert Finite([Bucket(10, 50)]) == [Bucket(10, 50)];
    assert SortByBound([Bucket(10, 50)]) == [Bucket(10, 50)];
    assert Finite(split) == split && SortByBound(split) == split && Total(split) == 100;
    assert Finite(merged) == merged && SortByBound(merged) == merged && Total(merged) == 100;
    assert Interpolate(0, split[0], 0, 50.0) == 10.0;
    assert Interpolate(0, merged[0], 0, 50.0) == 5.0;
    assert Walk(split, 0, 0, 50.0) == Crossed(10.0);
    assert Walk(merged, 0, 0, 50.0) == Crossed(5.0);
  }

  /** When every bound appears once there is nothing to merge and the percentiles agree. */
  lemma UnsplitAgrees(m: Buckets, h: Buckets, q: real)
    requires IsMergeOf(m, h) && DistinctBounds(h)
    ensures Quantile(m, q) == Quantile(h, q)
  {
    MergeKeepsTotal(m, h);
    MergeSortsToCoalesce(m, h);
    FiniteDistinct(h);
    CoalesceDistinct(SortByBound(Finite(h)));
    assert SumAt(m, BUCKET_OVERFLOW) == SumAt(h, BUCKET_OVERFLOW);
    assert SortByBound(Finite(m)) == SortByBound(Finite(h));
    hide Rank;
  }

  lemma {:induction false} CoalesceDistinct(s: Buckets)
    requires DistinctBounds(s)
    ensures Coalesce(s) == s
    decreases |s|
  {
    if |s| > 1 {
      CoalesceDistinct(s[1..]);
      assert s == [s[0]] + s[1..];
    }
  }

  lemma MergeKeepsSumUpTo(m: Buckets, h: Buckets, b: int)
    requires IsMergeOf(m, h)
    ensures SumUpTo(m, b) == SumUpTo(h, b)
  {
    MergeSortsToCoalesce(m, h);
    FiniteKeeps(m, b);
    FiniteKeeps(h, b);
    SortKeeps(Finite(m), b);
    SortKeeps(Finite(h), b);
    CoalesceKeepsSumUpTo(SortByBound(Finite(h)), b);
  }

  lemma {:induction false} CoalesceKeepsSumUpTo(s: Buckets, b: int)
    ensures SumUpTo(Coalesce(s), b) == SumUpTo(s, b)
    decreases |s|
  {
    if |s| > 1 {
      if s[0].bound == s[1].bound {
        var merged := [Bucket(s[0].bound, s[0].count + s[1].count)] + s[2..];
        assert merged[1..] == s[2..] && s[1..][1..] == s[2..];
        CoalesceKeepsSumUpTo(merged, b);
      } else {
        CoalesceKeepsSumUpTo(s[1..], b);
        assert Coalesce(s)[1..] == Coalesce(s[1..]);
      }
    }
  }

  lemma {:induction false} SearchCrossing(h: Buckets, rank: real, b: int)
    requires SumUpTo(h, -1) as real < rank <= SumUpTo(h, b) as real && b >= -1
    ensures exists c :: 0 <= c && SumUpTo(h, c - 1) as real < rank <= SumUpTo(h, c) as real
    decreases b + 1
  {
    if b >= 0 {
      if SumUpTo(h, b - 1) as real >= rank {
        SearchCrossing(h, rank, b - 1);
      }
    }
  }

  lemma {:induction false} SumUpToNegative(h: Buckets)
    requires NonNegativeBounds(h)
    ensures SumUpTo(h, -1) == 0
    ensures SumUpTo(h, LAST_FINITE) + SumAt(h, BUCKET_OVERFLOW) == Total(h)
  {
    if h != [] {
      SumUpToNegative(h[1..]);
    }
  }

  lemma PastTheFiniteBuckets(h: Buckets, q: real)
    requires NonNegative(h) && NonNegativeBounds(h) && Total(h) > 0
    requires SumUpTo(h, LAST_FINITE) as real < Rank(q, Total(h)) <= Total(h) as real
    ensures Quantile(h, q) == Some(LAST_FINITE)
  {
    hide Rank, Interpolate;
    SumUpToNegative(h);
    SortedFinite(h);
    RanOutOnlyPastTotal(SortByBound(Finite(h)), 0, 0, Rank(q, Total(h)));
    hide SortByBound, Finite;
  }

  lemma MergeBounds(m: Buckets, h: Buckets)
    requires NonNegativeBounds(h) && IsMergeOf(m, h)
    ensures NonNegativeBounds(m)
  {
    forall i | 0 <= i < |m|
      ensures m[i].bound == BUCKET_OVERFLOW || 0 <= m[i].bound <= LAST_FINITE
    {
      assert Listed(m, m[i].bound);
      assert Listed(h, m[i].bound);
    }
  }

  lemma {:induction false} DistinctSumAt(m: Buckets, i: nat)
    requires DistinctBounds(m) && i < |m|
    ensures SumAt(m, m[i].bound) == m[i].count
  {
    if i > 0 {
      DistinctSumAt(m[1..], i - 1);
    } else {
      SumAtUnlisted(m[1..], m[0].bound);
    }
  }

  lemma MergeNonNegative(m: Buckets, h: Buckets)
    requires NonNegative(h) && IsMergeOf(m, h)
    ensures NonNegative(m)
  {
    forall i | 0 <= i < |m|
      ensures m[i].count >= 0
    {
      DistinctSumAt(m, i);
      SumsAreNonNegative(h, m[i].bound);
      assert SumAt(m, m[i].bound) == SumAt(h, m[i].bound);
    }
  }

  /** The split and the merged histogram report from the same bucket. */
  lemma SplitKeepsBucket(m: Buckets, h: Buckets, q: real)
    requires NonNegative(h) && NonNegativeBounds(h) && Total(h) > 0
    requires IsMergeOf(m, h) && 0.0 < q <= 1.0
    ensures Quantile(h, q).Some? && Quantile(m, q).Some?
    ensures Quantile(h, q).value == Quantile(m, q).value == LAST_FINITE
            || exists b :: InBucket(h, b, Quantile(h, q).value) && InBucket(h, b, Quantile(m, q).value)
  {
    hide Rank, Quantile;
    var rank := Rank(q, Total(h));
    MergeBounds(m, h);
    MergeNonNegative(m, h);
    MergeKeepsTotal(m, h);
    MergeKeepsSumUpTo(m, h, LAST_FINITE);
    RankBounds(Total(h), q);
    if SumUpTo(h, LAST_FINITE) as real < rank {
      PastTheFiniteBuckets(h, q);
      PastTheFiniteBuckets(m, q);
    } else {
      SumUpToNegative(h);
      SearchCrossing(h, rank, LAST_FINITE);
      var b :| 0 <= b && SumUpTo(h, b - 1) as real < rank <= SumUpTo(h, b) as real;
      MergeKeepsSumUpTo(m, h, b);
      MergeKeepsSumUpTo(m, h, b - 1);
      QuantileLandsIn(h, q, b);
      QuantileLandsIn(m, q, b);
      assert forall x :: Listed(m, x) <==> Listed(h, x);
    }
  }

  // ---- The exact value -----------------------------------------------------------------------

  /** `prev` is the largest listed bound below `b`, or `lower` when there is none. */
  ghost predicate IsPrevious(h: Buckets, lower: int, b: int, prev: int) {
    && lower <= prev
    && (prev == lower || (Listed(h, prev) && prev < b))
    && (forall x :: Listed(h, x) && x < b ==> x <= prev)
  }

  /** The point that divides the stretch from `prev` to `b` in the proportion of the rank among the
      `count` places after the first `c`. */
  function Point(prev: int, b: int, count: int, c: int, rank: real): real
    requires count != 0
  {
    prev as real + (b - prev) as real * ((rank - c as real) / count as real)
  }

  /** `r` is the integer nearest to `p`, halves rounded up. */
  predicate Nearest(p: real, r: int) { r as real - 0.5 <= p < r as real + 0.5 }

  lemma NearestIsUnique(p: real, r: int, r': int)
    ensures Nearest(p, r) && Nearest(p, r') ==> r == r'
  {
  }

  lemma InterpolateIsPoint(prev: int, b: int, count: int, c: int, rank: real)
    requires count > 0 && c as real < rank <= (c + count) as real
    ensures Interpolate(prev, Bucket(b, count), c, rank) == Point(prev, b, count, c, rank)
  {
    QuotientAtMostOne(rank - c as real, count as real);
  }

  lemma RoundIsNearest(p: real)
    requires p >= 0.0
    ensures Nearest(p, SaturateU64(Round(p)))
  {
  }

  /** On a merged histogram the percentile is the integer nearest to the point that divides the stretch
      from the previous listed bound to the crossing bound in the proportion of the rank. */
  lemma QuantileFormula(h: Buckets, q: real, rank: real, b: int)
    requires NonNegative(h) && NonNegativeBounds(h) && DistinctBounds(h) && Total(h) > 0
    requires rank == q * Total(h) as real && Crosses(h, rank, b)
    ensures SumAt(h, b) > 0 && Quantile(h, q).Some?
    ensures Nearest(Point(PreviousBound(h, b), b, SumAt(h, b), SumUpTo(h, b - 1), rank), Quantile(h, q).value)
  {
    hide Rank, Point, Quantile;
    DistinctFirst(h, b);
    SumUpToStep(h, b - 1, b);
    SplitQuantileFormula(h, q, rank, b);
  }

  // ---- When split and merged agree ------------------------------------------------------------

  /** The count of the first entry listed for `bound`. */
  function FirstAt(h: Buckets, bound: int): int {
    if h == [] then 0 else if h[0].bound == bound then h[0].count else FirstAt(h[1..], bound)
  }

  /** The largest listed bound below `b`, or 0. */
  function PreviousBound(h: Buckets, b: int): int {
    if h == [] then 0
    else
      var prev := PreviousBound(h[1..], b);
      if prev < h[0].bound < b then h[0].bound else prev
  }

  /** The rank falls on bound `b`: the finite counts below it do not reach the rank, with it they do. */
  predicate Crosses(h: Buckets, rank: real, b: int) {
    0 <= b && SumUpTo(h, b - 1) as real < rank <= SumUpTo(h, b) as real
  }

  lemma {:induction false} PreviousBoundMeaning(h: Buckets, b: int)
    requires 0 <= b
    ensures var prev := PreviousBound(h, b);
            && 0 <= prev <= b && (prev == 0 || (Listed(h, prev) && prev < b))
            && forall x :: Listed(h, x) && x < b ==> x <= prev
  {
    if h != [] {
      PreviousBoundMeaning(h[1..], b);
      ListedCons(h, PreviousBound(h, b));
      forall x | Listed(h, x) && x < b
        ensures x <= PreviousBound(h, b)
      {
        ListedCons(h, x);
      }
    }
  }

  lemma {:induction false} InsertKeepsFirst(x: Bucket, h: Buckets, bound: int)
    ensures FirstAt(Insert(x, h), bound) == if x.bound == bound then x.count else FirstAt(h, bound)
  {
    if h != [] && x.bound > h[0].bound {
      InsertKeepsFirst(x, h[1..], bound);
    }
  }

  /** The stable sort keeps the first entry of a bound first. */
  lemma {:induction false} SortKeepsFirst(h: Buckets, bound: int)
    requires bound != BUCKET_OVERFLOW
    ensures FirstAt(SortByBound(Finite(h)), bound) == FirstAt(h, bound)
  {
    if h != [] {
      SortKeepsFirst(h[1..], bound);
      if h[0].bound != BUCKET_OVERFLOW {
        assert Finite(h)[1..] == Finite(h[1..]);
        InsertKeepsFirst(h[0], SortByBound(Finite(h[1..])), bound);
      }
    }
  }

  /** Where the walk stops on a bound that may be listed several times, with `c` counted below it:
      inside the first entry if that alone reaches the rank, else at the bound itself. */
  function SplitPoint(prev: int, b: int, first: int, c: int, rank: real): real {
    if first > 0 && (c + first) as real >= rank then Point(prev, b, first, c, rank) else b as real
  }

  lemma {:induction false} WalkSplitFormula(ordered: Buckets, cumulative: int, lower: int, rank: real, b: int, prev: int)
    requires Sorted(ordered) && NonNegative(ordered) && StartsAt(ordered, lower)
    requires IsPrevious(ordered, lower, b, prev) && lower <= b
    requires (cumulative + SumBelow(ordered, b)) as real < rank <= (cumulative + SumThrough(ordered, b)) as real
    ensures Walk(ordered, cumulative, lower, rank) ==
            Crossed(SplitPoint(prev, b, FirstAt(ordered, b), cumulative + SumBelow(ordered, b), rank))
  {
    hide Interpolate, Point;
    if ordered == [] {
      assert false;
    } else {
      var (head, rest) := (ordered[0], ordered[1..]);
      if head.bound > b {
        NothingThrough(ordered, b);
        NothingBelow(ordered, b);
        assert false;
      } else if head.bound == b {
        NothingBelow(ordered, b);
        NothingBelow(rest, b);
        assert prev == lower;
        if head.count > 0 && (cumulative + head.count) as real >= rank {
          InterpolateIsPoint(prev, b, head.count, cumulative, rank);
        }
        if !(head.count > 0 && (cumulative + head.count) as real >= rank) {
          WalkLandsIn(rest, cumulative + head.count, b, rank, b);
        }
      } else {
        SumBelowNonNegative(rest, b);
        forall x | Listed(rest, x)
          ensures Listed(ordered, x)
        {
          ListedCons(ordered, x);
        }
        ListedCons(ordered, prev);
        assert Listed(ordered, head.bound);
        WalkSplitFormula(rest, cumulative + head.count, head.bound, rank, b, prev);
      }
    }
  }

  lemma SplitPointBounds(prev: int, b: int, first: int, c: int, rank: real)
    requires 0 <= prev <= b && c as real < rank
    ensures 0.0 <= SplitPoint(prev, b, first, c, rank)
  {
    if first > 0 && (c + first) as real >= rank {
      QuotientAtMostOne(rank - c as real, first as real);
      MulMonotone((b - prev) as real, 0.0, (rank - c as real) / first as real);
    }
  }

  lemma ReportAtRank(h: Buckets, q: real, rank: real, b: int)
    requires NonNegative(h) && NonNegativeBounds(h) && Total(h) > 0
    requires rank == Rank(q, Total(h)) && Crosses(h, rank, b)
    ensures Quantile(h, q).Some?
    ensures Nearest(SplitPoint(PreviousBound(h, b), b, FirstAt(h, b), SumUpTo(h, b - 1), rank), Quantile(h, q).value)
  {
    hide Rank, SplitPoint, Round, SaturateU64, Nearest;
    SortedFinite(h);
    PreviousBoundMeaning(h, b);
    var s := SortByBound(Finite(h));
    FiniteSums(s, b);
    SortKeepsFirst(h, b);
    assert IsPrevious(s, 0, b, PreviousBound(h, b)) by {
      assert forall x :: Listed(s, x) ==> x != BUCKET_OVERFLOW && Listed(h, x);
    }
    WalkSplitFormula(s, 0, 0, rank, b, PreviousBound(h, b));
    SplitPointBounds(PreviousBound(h, b), b, FirstAt(h, b), SumUpTo(h, b - 1), rank);
    RoundIsNearest(SplitPoint(PreviousBound(h, b), b, FirstAt(h, b), SumUpTo(h, b - 1), rank));
    hide SortByBound, Finite, Walk;
  }

  /** The report on any histogram, bounds repeated or not: the integer nearest to the split point. */
  lemma SplitQuantileFormula(h: Buckets, q: real, rank: real, b: int)
    requires NonNegative(h) && NonNegativeBounds(h) && Total(h) > 0
    requires rank == q * Total(h) as real && Crosses(h, rank, b)
    ensures Quantile(h, q).Some?
    ensures Nearest(SplitPoint(PreviousBound(h, b), b, FirstAt(h, b), SumUpTo(h, b - 1), rank), Quantile(h, q).value)
  {
    hide Rank, SplitPoint, Nearest, Quantile, Crosses;
    RankIs(q, Total(h));
    ReportAtRank(h, q, rank, b);
  }

  /** Dividing the same stretch by counts of different size meets only at its ends. */
  lemma PointsMeet(prev: int, b: int, first: int, sum: int, c: int, rank: real)
    requires prev <= b && 0 <= first <= sum && c as real < rank <= (c + sum) as real
    ensures SplitPoint(prev, b, first, c, rank) == Point(prev, b, sum, c, rank) <==>
            prev == b || first == sum || rank == (c + sum) as real
  {
    var (width, over) := ((b - prev) as real, rank - c as real);
    var whole := over / sum as real;
    QuotientAtMostOne(over, sum as real);
    assert Point(prev, b, sum, c, rank) == prev as real + width * whole;
    if first > 0 && (c + first) as real >= rank {
      var part := over / first as real;
      assert SplitPoint(prev, b, first, c, rank) == prev as real + width * part;
      SameProduct(width, part, whole);
      SameQuotient(over, first as real, sum as real);
    } else {
      assert SplitPoint(prev, b, first, c, rank) == prev as real + width * 1.0;
      SameProduct(width, 1.0, whole);
    }
  }

  lemma QuotientAtMostOne(x: real, y: real)
    requires 0.0 < x <= y
    ensures 0.0 < x / y <= 1.0 && (x / y == 1.0 <==> x == y)
  {
    assert x == y * (x / y);
  }

  lemma SameProduct(w: real, x: real, y: real)
    ensures w * x == w * y <==> w == 0.0 || x == y
  {
    assert w * x - w * y == w * (x - y);
  }

  lemma SameQuotient(x: real, y: real, z: real)
    requires x > 0.0 && y > 0.0 && z > 0.0
    ensures x / y == x / z <==> y == z
  {
    assert x == y * (x / y) && x == z * (x / z);
    if x / y == x / z {
      SameProduct(x / y, y, z);
    }
  }

  /** The split and the merged histogram have the same crossing bound, and on it: */
  lemma MergeKeepsCrossing(m: Buckets, h: Buckets, b: int)
    requires NonNegative(h) && NonNegativeBounds(h) && IsMergeOf(m, h) && 0 <= b
    ensures SumUpTo(m, b - 1) == SumUpTo(h, b - 1) && SumUpTo(m, b) == SumUpTo(h, b)
    ensures PreviousBound(m, b) == PreviousBound(h, b)
    ensures FirstAt(m, b) == SumAt(h, b) && 0 <= FirstAt(h, b) <= SumAt(h, b)
    ensures SumUpTo(h, b) == SumUpTo(h, b - 1) + SumAt(h, b)
  {
    MergeKeepsSumUpTo(m, h, b - 1);
    MergeKeepsSumUpTo(m, h, b);
    PreviousBoundMeaning(m, b);
    PreviousBoundMeaning(h, b);
    assert SumAt(m, b) == SumAt(h, b);
    DistinctFirst(m, b);
    FirstIsPart(h, b);
    SumUpToStep(h, b - 1, b);
    MergedPrevious(m, h, b);
  }

  lemma MergedPrevious(m: Buckets, h: Buckets, b: int)
    requires 0 <= b && forall x :: Listed(m, x) <==> Listed(h, x)
    ensures PreviousBound(m, b) == PreviousBound(h, b)
  {
    hide PreviousBound, Listed;
    PreviousBoundMeaning(m, b);
    PreviousBoundMeaning(h, b);
    var (p, r) := (PreviousBound(m, b), PreviousBound(h, b));
    assert Listed(m, p) <==> Listed(h, p);
    assert Listed(m, r) <==> Listed(h, r);
  }

  lemma {:induction false} DistinctFirst(m: Buckets, bound: int)
    requires DistinctBounds(m)
    ensures FirstAt(m, bound) == SumAt(m, bound)
  {
    if m != [] {
      if m[0].bound == bound {
        SumAtUnlisted(m[1..], bound);
      } else {
        DistinctFirst(m[1..], bound);
      }
    }
  }

  lemma {:induction false} FirstIsPart(h: Buckets, bound: int)
    requires NonNegative(h)
    ensures 0 <= FirstAt(h, bound) <= SumAt(h, bound)
  {
    if h != [] {
      SumsAreNonNegative(h[1..], bound);
      FirstIsPart(h[1..], bound);
    }
  }

  /** Exactly when repeated entries make no difference to the interpolated point: the crossing bucket
      has no width, its first entry holds all of it, or the rank is its last place. The reports are
      the integers nearest to the points, so then they agree too. */
  lemma SplitAgreesExactly(m: Buckets, h: Buckets, q: real, rank: real, b: int)
    requires NonNegative(h) && NonNegativeBounds(h) && Total(h) > 0 && IsMergeOf(m, h)
    requires rank == q * Total(h) as real && Crosses(h, rank, b)
    ensures var (prev, c) := (PreviousBound(h, b), SumUpTo(h, b - 1));
            var split := SplitPoint(prev, b, FirstAt(h, b), c, rank);
            && SumAt(h, b) > 0
            && var merged := Point(prev, b, SumAt(h, b), c, rank);
               && Quantile(h, q).Some? && Nearest(split, Quantile(h, q).value)
               && Quantile(m, q).Some? && Nearest(merged, Quantile(m, q).value)
               && (split == merged <==>
                     prev == b || FirstAt(h, b) == SumAt(h, b) || rank == (c + SumAt(h, b)) as real)
               && (split == merged ==> Quantile(h, q) == Quantile(m, q))
  {
    hide Point, SplitPoint, Quantile, IsMergeOf, Rank, Nearest;
    RankIs(q, Total(h));
    MergeKeepsCrossing(m, h, b);
    MergeKeepsTotal(m, h);
    MergeBounds(m, h);
    MergeNonNegative(m, h);
    PreviousBoundMeaning(h, b);
    var (prev, c) := (PreviousBound(h, b), SumUpTo(h, b - 1));
    assert Crosses(m, rank, b);
    ReportAtRank(h, q, rank, b);
    ReportAtRank(m, q, rank, b);
    PointsMeet(prev, b, FirstAt(h, b), SumAt(h, b), c, rank);
    PointsMeet(prev, b, SumAt(h, b), SumAt(h, b), c, rank);
    NearestIsUnique(Point(prev, b, SumAt(h, b), c, rank), Quantile(h, q).value, Quantile(m, q).value);
  }

  lemma RankCrossesOrOverflows(m: Buckets, h: Buckets, q: real, rank: real)
    requires NonNegative(h) && NonNegativeBounds(h) && Total(h) > 0 && IsMergeOf(m, h)
    requires 0.0 < q <= 1.0 && rank == Rank(q, Total(h))
    ensures (exists b :: Crosses(h, rank, b)) || (Quantile(h, q) == Quantile(m, q) == Some(LAST_FINITE))
  {
    hide Rank, Quantile;
    RankBounds(Total(h), q);
    SumUpToNegative(h);
    if SumUpTo(h, LAST_FINITE) as real >= rank {
      SearchCrossing(h, rank, LAST_FINITE);
      var b :| 0 <= b && SumUpTo(h, b - 1) as real < rank <= SumUpTo(h, b) as real;
      assert Crosses(h, rank, b);
    } else {
      MergeBounds(m, h);
      MergeNonNegative(m, h);
      MergeKeepsTotal(m, h);
      MergeKeepsSumUpTo(m, h, LAST_FINITE);
      PastTheFiniteBuckets(h, q);
      PastTheFiniteBuckets(m, q);
    }
  }

  /** For every q in (0,1] either the rank crosses a bound, which the theorem above covers, or it lies
      in overflow and both reports are 1000. */
  lemma SplitCrossesOrOverflows(m: Buckets, h: Buckets, q: real, rank: real)
    requires NonNegative(h) && NonNegativeBounds(h) && Total(h) > 0 && IsMergeOf(m, h)
    requires 0.0 < q <= 1.0 && rank == q * Total(h) as real
    ensures (exists b :: Crosses(h, rank, b))
            || (Quantile(h, q) == Some(1000) && Quantile(m, q) == Some(1000))
  {
    hide Rank, Quantile, Crosses, IsMergeOf;
    RankIs(q, Total(h));
    RankCrossesOrOverflows(m, h, q, rank);
  }
}
