/** `aggregate_latency`: percentiles per day, or over the whole window (`src/usage.rs`). */
module LatencyTrends {
  import opened Prelude
  import opened Histogram
  import opened Percentiles
  import DayText

  datatype LatencyRow = LatencyRow(day: string, bucket: Bucket)

  type Date = Option<string>

  datatype Trend = Trend(date: Date, level: string, valueMs: nat)

  const LEVELS: seq<(string, real)> := [("p50", 0.50), ("p95", 0.95), ("p99", 0.99)]

  function DateOf(row: LatencyRow, dated: bool): Date { if dated then Some(row.day) else None }

  /** The buckets of one output group, in row order. Equal bounds are not merged. */
  function GroupOf(rows: seq<LatencyRow>, dated: bool, date: Date): Buckets {
    if rows == [] then []
    else (if DateOf(rows[0], dated) == date then [rows[0].bucket] else []) + GroupOf(rows[1..], dated, date)
  }

  function DatesOf(rows: seq<LatencyRow>, dated: bool): set<Date> {
    set i | 0 <= i < |rows| :: DateOf(rows[i], dated)
  }

  // ---- Date order -----------------------------------------------------------------

  predicate DateLess(a: Date, b: Date) {
    match (a, b)
    case (None, Some(_)) => true
    case (Some(x), Some(y)) => DayText.LexLess(x, y)
    case _ => false
  }

  lemma {:induction false} LexLessTotal(a: string, b: string)
    ensures a == b || DayText.LexLess(a, b) || DayText.LexLess(b, a)
    ensures !(DayText.LexLess(a, b) && DayText.LexLess(b, a))
  {
    if a != "" && b != "" {
      LexLessTotal(a[1..], b[1..]);
      assert a == [a[0]] + a[1..] && b == [b[0]] + b[1..];
    }
  }

  lemma {:induction false} LexLessTransitive(a: string, b: string, c: string)
    requires DayText.LexLess(a, b) && DayText.LexLess(b, c)
    ensures DayText.LexLess(a, c)
  {
    if a != "" && a[0] == b[0] == c[0] {
      LexLessTransitive(a[1..], b[1..], c[1..]);
    }
  }

  predicate Ascending(dates: seq<Date>) {
    forall i, j :: 0 <= i < j < |dates| ==> DateLess(dates[i], dates[j])
  }

  /** In ascending dates no day comes first, and each is below every later one. */
  lemma AscendingMeaning(dates: seq<Date>, i: nat, j: nat)
    ensures Ascending(dates) && i < j < |dates| ==>
              dates[j].Some? && (dates[i].Some? ==> DayText.LexLess(dates[i].value, dates[j].value))
  {
    if Ascending(dates) && i < j < |dates| {
      assert DateLess(dates[i], dates[j]);
    }
  }

  lemma InsertAscending(before: seq<Date>, date: Date, after: seq<Date>)
    requires Ascending(before + after)
    requires forall i :: 0 <= i < |before| ==> DateLess(before[i], date)
    requires after != [] ==> DateLess(date, after[0])
    ensures Ascending(before + [date] + after)
  {
    var old' := before + after;
    forall i | 0 <= i < |after|
      ensures DateLess(date, after[i])
    {
      if i > 0 {
        assert old'[|before|] == after[0] && old'[|before| + i] == after[i];
        if date.Some? {
          LexLessTransitive(date.value, after[0].value, after[i].value);
        }
      }
    }
    var new' := before + [date] + after;
    forall i, j | 0 <= i < j < |new'|
      ensures DateLess(new'[i], new'[j])
    {
      var (i', j') := (if i > |before| then i - 1 else i, if j > |before| then j - 1 else j);
      if i != |before| && j != |before| {
        assert new'[i] == old'[i'] && new'[j] == old'[j'];
      }
    }
  }

  lemma InsertMembers(before: seq<Date>, date: Date, after: seq<Date>)
    ensures forall d :: d in before + [date] + after <==> d == date || d in before + after
  {
    forall d
      ensures d in before + [date] + after <==> d == date || d in before || d in after
      ensures d in before + after <==> d in before || d in after
    {
    }
  }

  /** `dates.sort()` on distinct keys. */
  method SortDates(keys: set<Date>) returns (dates: seq<Date>)
    ensures Ascending(dates)
    ensures forall d :: d in dates <==> d in keys
  {
    dates := [];
    var rest := keys;
    while rest != {}
      invariant rest <= keys
      invariant Ascending(dates)
      invariant forall d :: d in dates <==> d in keys - rest
    {
      var key :| key in rest;
      var i := 0;
      while i < |dates| && DateLess(dates[i], key)
        invariant 0 <= i <= |dates|
        invariant forall j :: 0 <= j < i ==> DateLess(dates[j], key)
      {
        i := i + 1;
      }
      if i < |dates| {
        assert dates[i] in dates;
        if key.Some? && dates[i].Some? {
          LexLessTotal(key.value, dates[i].value);
        }
      }
      var (before, after) := (dates[..i], dates[i..]);
      assert dates == before + after;
      InsertAscending(before, key, after);
      InsertMembers(before, key, after);
      dates := before + [key] + after;
      rest := rest - {key};
    }
  }

  // ---- The aggregate -----------------------------------------------------------------

  function GroupTrends(date: Date, buckets: Buckets, levels: seq<(string, real)>): seq<Trend> {
    if levels == [] then []
    else
      match Quantile(buckets, levels[0].1)
      case Some(v) => [Trend(date, levels[0].0, v)] + GroupTrends(date, buckets, levels[1..])
      case None => GroupTrends(date, buckets, levels[1..])
  }

  function AllTrends(rows: seq<LatencyRow>, dated: bool, dates: seq<Date>): seq<Trend> {
    if dates == [] then []
    else GroupTrends(dates[0], GroupOf(rows, dated, dates[0]), LEVELS) + AllTrends(rows, dated, dates[1..])
  }

  lemma {:induction false} GroupOfAppend(rows: seq<LatencyRow>, row: LatencyRow, dated: bool, date: Date)
    ensures GroupOf(rows + [row], dated, date) ==
            GroupOf(rows, dated, date) + if DateOf(row, dated) == date then [row.bucket] else []
  {
    if rows == [] {
      assert rows + [row] == [row];
    } else {
      GroupOfAppend(rows[1..], row, dated, date);
      assert (rows + [row])[1..] == rows[1..] + [row];
    }
  }

  lemma {:induction false} GroupTrendsAppend(date: Date, buckets: Buckets, levels: seq<(string, real)>, level: (string, real))
    ensures GroupTrends(date, buckets, levels + [level]) ==
            GroupTrends(date, buckets, levels) + GroupTrends(date, buckets, [level])
  {
    hide Quantile;
    if levels == [] {
      assert levels + [level] == [level];
    } else {
      GroupTrendsAppend(date, buckets, levels[1..], level);
      assert (levels + [level])[1..] == levels[1..] + [level];
    }
  }

  lemma {:induction false} AllTrendsAppend(rows: seq<LatencyRow>, dated: bool, dates: seq<Date>, date: Date)
    ensures AllTrends(rows, dated, dates + [date]) ==
            AllTrends(rows, dated, dates) + GroupTrends(date, GroupOf(rows, dated, date), LEVELS)
  {
    if dates == [] {
      assert dates + [date] == [date];
    } else {
      AllTrendsAppend(rows, dated, dates[1..], date);
      assert (dates + [date])[1..] == dates[1..] + [date];
    }
  }

  /** The first pass: buckets collected per output date. */
  method GroupRows(rows: seq<LatencyRow>, dated: bool) returns (grouped: map<Date, Buckets>)
    ensures grouped.Keys == DatesOf(rows, dated)
    ensures forall d :: d in grouped ==> grouped[d] == GroupOf(rows, dated, d)
  {
    grouped := map[];
    for i := 0 to |rows|
      invariant grouped.Keys == DatesOf(rows[..i], dated)
      invariant forall d :: d in grouped ==> grouped[d] == GroupOf(rows[..i], dated, d)
      invariant forall d :: d !in grouped ==> GroupOf(rows[..i], dated, d) == []
    {
      var date := DateOf(rows[i], dated);
      assert rows[..i + 1] == rows[..i] + [rows[i]];
      forall d {
        GroupOfAppend(rows[..i], rows[i], dated, d);
      }
      DatesOfAppend(rows[..i], rows[i], dated);
      grouped := grouped[date := (if date in grouped then grouped[date] else []) + [rows[i].bucket]];
    }
    assert rows[..|rows|] == rows;
  }

  /** The inner loop of the second pass: the percentiles of one group. */
  method PushGroup(date: Date, buckets: Buckets) returns (out: seq<Trend>)
    ensures out == GroupTrends(date, buckets, LEVELS)
  {
    hide Quantile;
    out := [];
    for l := 0 to |LEVELS|
      invariant out == GroupTrends(date, buckets, LEVELS[..l])
    {
      assert LEVELS[..l + 1] == LEVELS[..l] + [LEVELS[l]];
      GroupTrendsAppend(date, buckets, LEVELS[..l], LEVELS[l]);
      var r := Percentile(buckets, LEVELS[l].1);
      match r {
        case Some(v) => out := out + [Trend(date, LEVELS[l].0, v)];
        case None =>
      }
    }
    assert LEVELS[..|LEVELS|] == LEVELS;
  }

  /** One group per date in the rows, in date order, each with its percentiles. */
  method AggregateLatency(rows: seq<LatencyRow>, dated: bool) returns (out: seq<Trend>)
    ensures exists dates ::
              && Ascending(dates) && (forall d :: d in dates <==> d in DatesOf(rows, dated))
              && out == AllTrends(rows, dated, dates)
  {
    hide GroupOf, GroupTrends, DateLess;
    var grouped := GroupRows(rows, dated);
    var sorted := SortDates(grouped.Keys);
    out := [];
    for i := 0 to |sorted|
      invariant out == AllTrends(rows, dated, sorted[..i])
    {
      var date := sorted[i];
      assert date in sorted;
      var trends := PushGroup(date, grouped[date]);
      out := out + trends;
      assert sorted[..i + 1] == sorted[..i] + [date];
      AllTrendsAppend(rows, dated, sorted[..i], date);
    }
    assert sorted[..|sorted|] == sorted;
  }

  lemma DatesOfAppend(rows: seq<LatencyRow>, row: LatencyRow, dated: bool)
    ensures DatesOf(rows + [row], dated) == DatesOf(rows, dated) + {DateOf(row, dated)}
  {
    var all := rows + [row];
    forall d | d in DatesOf(rows, dated) + {DateOf(row, dated)}
      ensures d in DatesOf(all, dated)
    {
      if d in DatesOf(rows, dated) {
        var i :| 0 <= i < |rows| && DateOf(rows[i], dated) == d;
        assert all[i] == rows[i];
      } else {
        assert all[|rows|] == row;
      }
    }
  }

  // ---- What a group reports --------------------------------------------------------------

  /** Every group with requests reports exactly p50 <= p95 <= p99 <= 1000; an empty one nothing. */
  lemma GroupPercentilesAscend(date: Date, buckets: Buckets)
    requires NonNegative(buckets) && NonNegativeBounds(buckets)
    ensures var trends := GroupTrends(date, buckets, LEVELS);
            if Total(buckets) == 0 then trends == []
            else
              && |trends| == 3
              && trends[0].level == "p50" && trends[1].level == "p95" && trends[2].level == "p99"
              && (forall i :: 0 <= i < 3 ==> trends[i].date == date)
              && Quantile(buckets, 0.50) == Some(trends[0].valueMs)
              && Quantile(buckets, 0.95) == Some(trends[1].valueMs)
              && Quantile(buckets, 0.99) == Some(trends[2].valueMs)
              && trends[0].valueMs <= trends[1].valueMs <= trends[2].valueMs <= LAST_FINITE
  {
    QuantileMonotone(buckets, 0.50, 0.95);
    QuantileMonotone(buckets, 0.95, 0.99);
    hide Quantile;
    var (p95, p99) := (LEVELS[1..], LEVELS[1..][1..]);
    assert LEVELS[0] == ("p50", 0.50) && p95[0] == ("p95", 0.95) && p99[0] == ("p99", 0.99) && p99[1..] == [];
    assert GroupTrends(date, buckets, p99[1..]) == [];
    assert GroupTrends(date, buckets, p95) ==
           match Quantile(buckets, 0.95)
           case Some(v) => [Trend(date, "p95", v)] + GroupTrends(date, buckets, p99)
           case None => GroupTrends(date, buckets, p99);
  }

  /** The report date by date: three percentiles for each, every date's after those of earlier dates. */
  lemma {:induction false} ReportLayout(rows: seq<LatencyRow>, dated: bool, dates: seq<Date>)
    requires forall i :: 0 <= i < |dates| ==> ReportsDate(rows, dated, dates[i])
    ensures |AllTrends(rows, dated, dates)| == 3 * |dates|
    ensures forall i :: 0 <= i < |dates| ==>
              var (out, h) := (AllTrends(rows, dated, dates), GroupOf(rows, dated, dates[i]));
              && out[3 * i].date == out[3 * i + 1].date == out[3 * i + 2].date == dates[i]
              && out[3 * i].level == "p50" && Some(out[3 * i].valueMs) == Quantile(h, 0.50)
              && out[3 * i + 1].level == "p95" && Some(out[3 * i + 1].valueMs) == Quantile(h, 0.95)
              && out[3 * i + 2].level == "p99" && Some(out[3 * i + 2].valueMs) == Quantile(h, 0.99)
  {
    hide Quantile, GroupTrends, GroupOf;
    if dates != [] {
      var rest := dates[1..];
      assert forall i :: 0 <= i < |rest| ==> rest[i] == dates[i + 1];
      ReportLayout(rows, dated, rest);
      assert ReportsDate(rows, dated, dates[0]);
      GroupPercentilesAscend(dates[0], GroupOf(rows, dated, dates[0]));
      var (head, tail) := (GroupTrends(dates[0], GroupOf(rows, dated, dates[0]), LEVELS), AllTrends(rows, dated, rest));
      assert AllTrends(rows, dated, dates) == head + tail;
      forall i | 0 <= i < |rest|
        ensures (head + tail)[3 * (i + 1)] == tail[3 * i] && (head + tail)[3 * (i + 1) + 1] == tail[3 * i + 1]
        ensures (head + tail)[3 * (i + 1) + 2] == tail[3 * i + 2]
      {
      }
    }
  }

  /** The date has requests to report on. */
  ghost predicate ReportsDate(rows: seq<LatencyRow>, dated: bool, date: Date) {
    var h := GroupOf(rows, dated, date);
    NonNegative(h) && NonNegativeBounds(h) && Total(h) > 0
  }

  lemma {:induction false} FlatGroupIsEveryRow(rows: seq<LatencyRow>)
    ensures GroupOf(rows, false, None) == seq(|rows|, i requires 0 <= i < |rows| => rows[i].bucket)
  {
    if rows != [] {
      FlatGroupIsEveryRow(rows[1..]);
    }
  }

  // ---- Several days in one group --------------------------------------------------------------

  /** The rows of a query: positive counts in ladder or overflow buckets. */
  predicate FromQuery(rows: seq<LatencyRow>) {
    forall i :: 0 <= i < |rows| ==>
      rows[i].bucket.count > 0 && (OnLadder(rows[i].bucket.bound) || rows[i].bucket.bound == BUCKET_OVERFLOW)
  }

  predicate ListedOnce(rows: seq<LatencyRow>, b: int) {
    forall i, j :: 0 <= i < |rows| && 0 <= j < |rows| && rows[i].bucket.bound == b && rows[j].bucket.bound == b ==> i == j
  }

  lemma {:induction false} FirstHoldsAll(rows: seq<LatencyRow>, b: int)
    requires FromQuery(rows)
    ensures var h := GroupOf(rows, false, None);
            && 0 <= SumAt(h, b) && (SumAt(h, b) == 0 <==> forall i :: 0 <= i < |rows| ==> rows[i].bucket.bound != b)
            && (FirstAt(h, b) == SumAt(h, b) <==> ListedOnce(rows, b))
  {
    if rows != [] {
      var rest := rows[1..];
      FirstHoldsAll(rest, b);
      assert forall i :: 0 < i < |rows| ==> rows[i] == rest[i - 1];
      assert forall i :: 0 <= i < |rest| ==> rest[i] == rows[i + 1];
      assert GroupOf(rows, false, None) == [rows[0].bucket] + GroupOf(rest, false, None);
    }
  }

  lemma RecordedGroup(rows: seq<LatencyRow>)
    requires FromQuery(rows)
    ensures NonNegative(GroupOf(rows, false, None)) && NonNegativeBounds(GroupOf(rows, false, None))
    ensures forall b :: Listed(GroupOf(rows, false, None), b) ==> b > 0 || b == BUCKET_OVERFLOW
  {
    FlatGroupIsEveryRow(rows);
    assert forall b :: OnLadder(b) ==> 0 < b <= LAST_FINITE;
  }

  /** An undated aggregate over several days interpolates to the point of the summed histogram exactly
      when a single row carries the crossing bound or the rank is the last place of its bucket. */
  lemma FlatAgreesExactly(rows: seq<LatencyRow>, m: Buckets, q: real, rank: real, b: int)
    requires FromQuery(rows) && rows != [] && IsMergeOf(m, GroupOf(rows, false, None))
    requires rank == q * Total(GroupOf(rows, false, None)) as real && Crosses(GroupOf(rows, false, None), rank, b)
    ensures var h := GroupOf(rows, false, None);
            var (prev, c) := (PreviousBound(h, b), SumUpTo(h, b - 1));
            var split := SplitPoint(prev, b, FirstAt(h, b), c, rank);
            && SumAt(h, b) > 0
            && var merged := Point(prev, b, SumAt(h, b), c, rank);
               && Quantile(h, q).Some? && Nearest(split, Quantile(h, q).value)
               && Quantile(m, q).Some? && Nearest(merged, Quantile(m, q).value)
               && (split == merged <==> ListedOnce(rows, b) || rank == (c + SumAt(h, b)) as real)
               && (split == merged ==> Quantile(h, q) == Quantile(m, q))
  {
    hide Point, SplitPoint, Quantile, IsMergeOf, FromQuery, ListedOnce;
    var h := GroupOf(rows, false, None);
    RecordedGroup(rows);
    PositiveTotal(rows);
    SplitAgreesExactly(m, h, q, rank, b);
    FirstHoldsAll(rows, b);
    PreviousBoundMeaning(h, b);
    if !Listed(h, b) {
      SumAtUnlisted(h, b);
      assert false;
    }
  }

  lemma {:induction false} PositiveTotal(rows: seq<LatencyRow>)
    requires FromQuery(rows)
    ensures Total(GroupOf(rows, false, None)) >= |rows|
  {
    if rows != [] {
      PositiveTotal(rows[1..]);
      assert GroupOf(rows, false, None) == [rows[0].bucket] + GroupOf(rows[1..], false, None);
    }
  }

  /** Two days of fifty requests each in the bucket up to 10 ms: undated, p50 reads 10; the hundred
      requests in one entry read 5. */
  lemma FlatAggregateCanDiffer()
    ensures var rows := [LatencyRow("2024-01-01", Bucket(10, 50)), LatencyRow("2024-01-02", Bucket(10, 50))];
            var h := GroupOf(rows, false, None);
            && IsMergeOf([Bucket(10, 100)], h)
            && Quantile(h, 0.50) == Some(10) && Quantile([Bucket(10, 100)], 0.50) == Some(5)
  {
    var rows := [LatencyRow("2024-01-01", Bucket(10, 50)), LatencyRow("2024-01-02", Bucket(10, 50))];
    FlatGroupIsEveryRow(rows);
    var h := [Bucket(10, 50), Bucket(10, 50)];
    assert GroupOf(rows, false, None) == h;
    SplitCanDiffer();
    hide Quantile;
    forall b
      ensures Listed([Bucket(10, 100)], b) <==> Listed(h, b)
      ensures SumAt([Bucket(10, 100)], b) == SumAt(h, b)
    {
      assert [Bucket(10, 100)][1..] == [] && h[1..] == [Bucket(10, 50)] && h[1..][1..] == [];
      assert h[0].bound == 10 && [Bucket(10, 100)][0].bound == 10;
    }
  }
}
