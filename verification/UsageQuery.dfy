/** The latency query and what the reported percentiles say about the recorded requests
    (`query_usage_latency` in `src/store.rs`, `aggregate_latency` in `src/usage.rs`). */
module UsageQuery {
  import opened Prelude
  import opened MapSums
  import opened UsageRecorder
  import opened UsageFlow
  import opened Histogram
  import opened LatencyTrends
  import opened Percentiles
  import UsageWindow
  import DayText

  /** `tenant_id = None` is platform scope; `Some(id)` restricts to one tenant. */
  type Scope = Option<string>

  predicate InScope(scope: Scope, tenantId: string) { scope.None? || scope.value == tenantId }

  predicate Selected(k: LatencyKey, scope: Scope, start: string, end: string) {
    UsageWindow.InRange(k.day, start, end) && InScope(scope, k.tenantId)
  }

  // ---- The query -------------------------------------------------------------------

  /** The weight of one `GROUP BY day, bucket_le_ms` group. */
  ghost function GroupWeight(scope: Scope, start: string, end: string, day: string, bound: int): LatencyWeight {
    (k: LatencyKey, n: int) =>
      if Selected(k, scope, start, end) && k.day == day && k.bucketLeMs == bound then n else 0
  }

  /** What the grouped SQL query returns, in any row order. */
  ghost predicate IsQueryResult(rows: seq<LatencyRow>, table: LatencyMap, scope: Scope, start: string, end: string) {
    && (forall i, j :: 0 <= i < j < |rows| ==>
          rows[i].day != rows[j].day || rows[i].bucket.bound != rows[j].bucket.bound)
    && (forall i :: 0 <= i < |rows| ==>
          rows[i].bucket.count == Sum(table, GroupWeight(scope, start, end, rows[i].day, rows[i].bucket.bound)))
    && (forall i :: 0 <= i < |rows| ==> HasGroup(table, scope, start, end, rows[i].day, rows[i].bucket.bound))
    && (forall k :: k in table && Selected(k, scope, start, end) ==> HasRow(rows, k.day, k.bucketLeMs))
  }

  ghost predicate HasGroup(table: LatencyMap, scope: Scope, start: string, end: string, day: string, bound: int) {
    exists k :: k in table && Selected(k, scope, start, end) && k.day == day && k.bucketLeMs == bound
  }

  ghost predicate HasRow(rows: seq<LatencyRow>, day: string, bound: int) {
    exists i :: 0 <= i < |rows| && rows[i].day == day && rows[i].bucket.bound == bound
  }

  function GroupUp(entries: LatencyEntries, scope: Scope, start: string, end: string): map<(string, int), int> {
    if entries == [] then map[]
    else
      var (k, n) := entries[|entries| - 1];
      var groups := GroupUp(entries[..|entries| - 1], scope, start, end);
      if Selected(k, scope, start, end) then Upsert(groups, (k.day, k.bucketLeMs), n, PlusInt) else groups
  }

  lemma {:induction false} GroupUpSums(entries: LatencyEntries, scope: Scope, start: string, end: string,
                                       day: string, bound: int)
    ensures var groups := GroupUp(entries, scope, start, end);
            && ((day, bound) in groups <==>
                exists i :: 0 <= i < |entries| && Selected(entries[i].0, scope, start, end)
                            && entries[i].0.day == day && entries[i].0.bucketLeMs == bound)
            && SumEntries(entries, GroupWeight(scope, start, end, day, bound)) ==
               if (day, bound) in groups then groups[(day, bound)] else 0
  {
    if entries != [] {
      var init, last := entries[..|entries| - 1], entries[|entries| - 1];
      GroupUpSums(init, scope, start, end, day, bound);
      SumEntriesSnoc(init, last, GroupWeight(scope, start, end, day, bound));
      assert entries == init + [last];
    }
  }

  lemma {:induction false} SumEntriesSnoc<K, V>(entries: seq<(K, V)>, e: (K, V), w: (K, V) -> int)
    ensures SumEntries(entries + [e], w) == SumEntries(entries, w) + w(e.0, e.1)
  {
    if entries == [] {
      assert entries + [e] == [e];
    } else {
      SumEntriesSnoc(entries[1..], e, w);
      assert (entries + [e])[1..] == entries[1..] + [e];
    }
  }

  /** `query_usage_latency`: one row per day and bucket in the window and scope. */
  method QueryUsageLatency(table: LatencyMap, scope: Scope, start: string, end: string) returns (rows: seq<LatencyRow>)
    ensures IsQueryResult(rows, table, scope, start, end)
  {
    var entries := Collect(table);
    var groups: map<(string, int), int> := map[];
    for i := 0 to |entries|
      invariant groups == GroupUp(entries[..i], scope, start, end)
    {
      var (k, n) := entries[i];
      assert entries[..i + 1][..i] == entries[..i];
      if Selected(k, scope, start, end) {
        var group := (k.day, k.bucketLeMs);
        groups := groups[group := if group in groups then groups[group] + n else n];
      }
    }
    assert entries[..|entries|] == entries;
    var listed := Collect(groups);
    rows := seq(|listed|, i requires 0 <= i < |listed| =>
      LatencyRow(listed[i].0.0, Bucket(listed[i].0.1, listed[i].1)));
    forall i | 0 <= i < |rows|
      ensures rows[i].bucket.count == Sum(table, GroupWeight(scope, start, end, rows[i].day, rows[i].bucket.bound))
      ensures HasGroup(table, scope, start, end, rows[i].day, rows[i].bucket.bound)
    {
      var (day, bound) := listed[i].0;
      GroupUpSums(entries, scope, start, end, day, bound);
      SumOfListing(entries, table, GroupWeight(scope, start, end, day, bound));
      assert (day, bound) in groups;
      var e :| 0 <= e < |entries| && Selected(entries[e].0, scope, start, end)
               && entries[e].0.day == day && entries[e].0.bucketLeMs == bound;
      assert entries[e].0 in table;
    }
    forall k | k in table && Selected(k, scope, start, end)
      ensures HasRow(rows, k.day, k.bucketLeMs)
    {
      GroupUpSums(entries, scope, start, end, k.day, k.bucketLeMs);
      assert (k.day, k.bucketLeMs) in groups;
      var i :| 0 <= i < |listed| && listed[i].0 == (k.day, k.bucketLeMs);
      assert rows[i].day == k.day;
    }
  }

  /** A tenant's query is the platform's query of the tenant's own entries. */
  lemma TenantSeesOwnEntries(rows: seq<LatencyRow>, table: LatencyMap, tenant: string, start: string, end: string)
    ensures var own := map k | k in table && k.tenantId == tenant :: table[k];
            IsQueryResult(rows, table, Some(tenant), start, end) <==> IsQueryResult(rows, own, None, start, end)
  {
    var own: LatencyMap := map k | k in table && k.tenantId == tenant :: table[k];
    var keys := own.Keys;
    forall day, bound
      ensures Sum(table, GroupWeight(Some(tenant), start, end, day, bound))
              == Sum(own, GroupWeight(None, start, end, day, bound))
      ensures HasGroup(table, Some(tenant), start, end, day, bound) <==> HasGroup(own, None, start, end, day, bound)
    {
      var (w, w') := (GroupWeight(Some(tenant), start, end, day, bound), GroupWeight(None, start, end, day, bound));
      SumSplit(table, keys, w);
      SumZero(table - keys, w);
      assert Only(table, keys) == own;
      SumAgree(own, w, w');
    }
    assert forall k :: k in own && Selected(k, None, start, end) <==> k in table && Selected(k, Some(tenant), start, end);
  }

  // ---- Rows of one output group add up to the table ----------------------------------------

  predicate DayIn(day: string, dated: bool, date: Date) { (if dated then Some(day) else None) == date }

  /** The weight of one bucket of one output group of `aggregate_latency`. */
  ghost function BucketWeight(scope: Scope, start: string, end: string, dated: bool, date: Date,
                              bound: int): LatencyWeight {
    (k: LatencyKey, n: int) =>
      if Selected(k, scope, start, end) && DayIn(k.day, dated, date) && k.bucketLeMs == bound then n else 0
  }

  /** The rows of a group and bucket, each weighed on the given table. */
  ghost function RowSums(rows: seq<LatencyRow>, table: LatencyMap, scope: Scope, start: string, end: string,
                         dated: bool, date: Date, bound: int): int {
    if rows == [] then 0
    else
      (if DateOf(rows[0], dated) == date && rows[0].bucket.bound == bound
       then Sum(table, GroupWeight(scope, start, end, rows[0].day, bound)) else 0)
      + RowSums(rows[1..], table, scope, start, end, dated, date, bound)
  }

  lemma {:induction false} GroupSumIsRowSums(rows: seq<LatencyRow>, table: LatencyMap, scope: Scope, start: string,
                                             end: string, dated: bool, date: Date, bound: int)
    requires forall i :: 0 <= i < |rows| ==>
               rows[i].bucket.count == Sum(table, GroupWeight(scope, start, end, rows[i].day, rows[i].bucket.bound))
    ensures SumAt(GroupOf(rows, dated, date), bound) == RowSums(rows, table, scope, start, end, dated, date, bound)
  {
    if rows != [] {
      GroupSumIsRowSums(rows[1..], table, scope, start, end, dated, date, bound);
      var head := if DateOf(rows[0], dated) == date then [rows[0].bucket] else [];
      SumAtConcat(head, GroupOf(rows[1..], dated, date), bound);
    }
  }

  lemma {:induction false} SumAtConcat(a: Buckets, b: Buckets, bound: int)
    ensures SumAt(a + b, bound) == SumAt(a, bound) + SumAt(b, bound)
  {
    if a == [] {
      assert a + b == b;
    } else {
      SumAtConcat(a[1..], b, bound);
      assert (a + b)[1..] == a[1..] + b;
    }
  }

  /** Distinct rows, and a row for every selected key of the table. */
  ghost predicate Covers(rows: seq<LatencyRow>, table: LatencyMap, scope: Scope, start: string, end: string) {
    && (forall i, j :: 0 <= i < j < |rows| ==>
          rows[i].day != rows[j].day || rows[i].bucket.bound != rows[j].bucket.bound)
    && (forall k :: k in table && Selected(k, scope, start, end) ==> HasRow(rows, k.day, k.bucketLeMs))
  }

  /** What one table entry contributes to the rows of a group and bucket. */
  function RowShare(rows: seq<LatencyRow>, k: LatencyKey, n: int, scope: Scope, start: string, end: string,
                    dated: bool, date: Date, bound: int): int {
    if rows == [] then 0
    else
      (if DateOf(rows[0], dated) == date && rows[0].bucket.bound == bound
          && Selected(k, scope, start, end) && k.day == rows[0].day && k.bucketLeMs == bound then n else 0)
      + RowShare(rows[1..], k, n, scope, start, end, dated, date, bound)
  }

  lemma {:induction false} RowSumsRemove(rows: seq<LatencyRow>, table: LatencyMap, k: LatencyKey, scope: Scope,
                                         start: string, end: string, dated: bool, date: Date, bound: int)
    requires k in table
    ensures RowSums(rows, table, scope, start, end, dated, date, bound) ==
            RowShare(rows, k, table[k], scope, start, end, dated, date, bound)
            + RowSums(rows, table - {k}, scope, start, end, dated, date, bound)
  {
    if rows != [] {
      RowSumsRemove(rows[1..], table, k, scope, start, end, dated, date, bound);
      var w := GroupWeight(scope, start, end, rows[0].day, bound);
      SumRemove(table, k, w);
    }
  }

  /** Distinct rows: at most one takes the entry, and none does when no row is listed for it. */
  lemma {:induction false} RowShareOnce(rows: seq<LatencyRow>, k: LatencyKey, n: int, scope: Scope, start: string,
                                        end: string, dated: bool, date: Date, bound: int)
    requires forall i, j :: 0 <= i < j < |rows| ==>
               rows[i].day != rows[j].day || rows[i].bucket.bound != rows[j].bucket.bound
    ensures RowShare(rows, k, n, scope, start, end, dated, date, bound) ==
            if HasRow(rows, k.day, k.bucketLeMs) && Selected(k, scope, start, end)
               && DayIn(k.day, dated, date) && k.bucketLeMs == bound then n else 0
  {
    if rows != [] {
      RowShareOnce(rows[1..], k, n, scope, start, end, dated, date, bound);
      HasRowCons(rows, k.day, k.bucketLeMs);
      if rows[0].day == k.day && rows[0].bucket.bound == k.bucketLeMs {
        assert !HasRow(rows[1..], k.day, k.bucketLeMs);
      }
    }
  }

  lemma HasRowCons(rows: seq<LatencyRow>, day: string, bound: int)
    requires rows != []
    ensures HasRow(rows, day, bound) <==>
            (rows[0].day == day && rows[0].bucket.bound == bound) || HasRow(rows[1..], day, bound)
  {
    if HasRow(rows[1..], day, bound) {
      var i :| 0 <= i < |rows[1..]| && rows[1..][i].day == day && rows[1..][i].bucket.bound == bound;
      assert rows[i + 1].day == day;
    }
    if HasRow(rows, day, bound) && !(rows[0].day == day && rows[0].bucket.bound == bound) {
      var i :| 0 <= i < |rows| && rows[i].day == day && rows[i].bucket.bound == bound;
      assert rows[1..][i - 1].day == day;
    }
  }

  lemma {:induction false} RowSumsEmpty(rows: seq<LatencyRow>, scope: Scope, start: string, end: string,
                                        dated: bool, date: Date, bound: int)
    ensures RowSums(rows, map[], scope, start, end, dated, date, bound) == 0
  {
    if rows != [] {
      RowSumsEmpty(rows[1..], scope, start, end, dated, date, bound);
      SumEmpty(GroupWeight(scope, start, end, rows[0].day, bound));
    }
  }

  /** Across its days a group's rows add up to the table's selected counts, bucket by bucket. */
  lemma {:induction false} RowSumsAreTableSums(rows: seq<LatencyRow>, table: LatencyMap, scope: Scope, start: string,
                                               end: string, dated: bool, date: Date, bound: int)
    requires Covers(rows, table, scope, start, end)
    ensures RowSums(rows, table, scope, start, end, dated, date, bound) ==
            Sum(table, BucketWeight(scope, start, end, dated, date, bound))
    decreases |table|
  {
    var w := BucketWeight(scope, start, end, dated, date, bound);
    if table == map[] {
      RowSumsEmpty(rows, scope, start, end, dated, date, bound);
    } else {
      var k :| k in table;
      RowSumsAreTableSums(rows, table - {k}, scope, start, end, dated, date, bound);
      RowSumsRemove(rows, table, k, scope, start, end, dated, date, bound);
      RowShareOnce(rows, k, table[k], scope, start, end, dated, date, bound);
      SumRemove(table, k, w);
    }
  }

  // ---- From the log to the reported percentile -----------------------------------------------

  /** The event is of the caller's scope and window, and of the output group's day. */
  predicate Concerns(e: Event, scope: Scope, start: string, end: string, dated: bool, date: Date) {
    && (scope == None || scope == Some(e.tenantId))
    && !DayText.LexLess(e.day, start) && !DayText.LexLess(end, e.day)
    && date == (if dated then Some(e.day) else None)
  }

  /** The recorded latencies, in whole milliseconds, that an output group is about. */
  function Recorded(log: seq<Event>, scope: Scope, start: string, end: string, dated: bool, date: Date): seq<nat> {
    if log == [] then []
    else
      (if Concerns(log[0], scope, start, end, dated, date) then [log[0].micros / 1000] else [])
      + Recorded(log[1..], scope, start, end, dated, date)
  }

  lemma {:induction false} LogBucketSum(log: seq<Event>, scope: Scope, start: string, end: string,
                                        dated: bool, date: Date, bound: int)
    ensures SumSeq(log, OfEventLatency(BucketWeight(scope, start, end, dated, date, bound))) ==
            CountIn(Recorded(log, scope, start, end, dated, date), bound)
  {
    if log != [] {
      LogBucketSum(log[1..], scope, start, end, dated, date, bound);
      var w := BucketWeight(scope, start, end, dated, date, bound);
      assert OfEventLatency(w)(log[0]) == w(LatencyKeyOf(log[0]), 1);
      assert Concerns(log[0], scope, start, end, dated, date) <==>
             Selected(LatencyKeyOf(log[0]), scope, start, end) && DayIn(log[0].day, dated, date);
      hide BucketFor, Selected, Concerns;
      var rest := Recorded(log[1..], scope, start, end, dated, date);
      assert ([Millis(log[0])] + rest)[1..] == rest && [] + rest == rest;
    }
  }

  /** Every record has reached the table, except what was lost or purged outside the window. */
  ghost predicate Settled(s: State, start: string, end: string) {
    && s.latency == map[] && s.betweenLocks == [] && s.inFlight == []
    && (forall i, j :: 0 <= i < |s.lost| && 0 <= j < |s.lost[i].latency| ==>
          !UsageWindow.InRange(s.lost[i].latency[j].0.day, start, end))
    && (forall i, k :: 0 <= i < |s.purgedLatency| && k in s.purgedLatency[i] ==>
          !UsageWindow.InRange(k.day, start, end))
  }

  predicate LadderKeys(m: LatencyMap) {
    forall k :: k in m ==> OnLadder(k.bucketLeMs) || k.bucketLeMs == BUCKET_OVERFLOW
  }

  predicate LadderEntries(es: LatencyEntries) {
    forall i :: 0 <= i < |es| ==> OnLadder(es[i].0.bucketLeMs) || es[i].0.bucketLeMs == BUCKET_OVERFLOW
  }

  predicate OnlyLadderKeys(s: State) {
    && LadderKeys(s.latency) && LadderKeys(s.latencyTable)
    && forall i :: 0 <= i < |s.inFlight| ==> LadderEntries(s.inFlight[i].latency)
  }

  lemma {:induction false} UpsertAllLadderKeys(m: LatencyMap, es: LatencyEntries)
    requires LadderKeys(m) && LadderEntries(es)
    ensures LadderKeys(UpsertAll(m, es, PlusInt))
    decreases |es|
  {
    if es != [] {
      UpsertAllLadderKeys(Upsert(m, es[0].0, es[0].1, PlusInt), es[1..]);
    }
  }

  lemma StepKeepsLadderKeys(s: State, step: Step)
    requires Enabled(s, step) && OnlyLadderKeys(s)
    ensures OnlyLadderKeys(Next(s, step))
  {
    match step {
      case EndRecord(i) => BucketForMeaning(Millis(s.betweenLocks[i]));
      case FlushOk(i) => UpsertAllLadderKeys(s.latencyTable, s.inFlight[i].latency);
      case _ =>
    }
    hide BucketFor;
  }

  lemma {:induction false} RunsKeepLadderKeys(s: State, steps: seq<Step>, t: State)
    requires Leads(s, steps, t) && OnlyLadderKeys(s)
    ensures OnlyLadderKeys(t)
    decreases |steps|
  {
    if steps != [] {
      StepKeepsLadderKeys(s, steps[0]);
      RunsKeepLadderKeys(Next(s, steps[0]), steps[1..], t);
    }
  }

  /** The weight counts nothing from outside the window. */
  ghost predicate Confined(w: LatencyWeight, start: string, end: string) {
    forall k: LatencyKey, n: int :: !UsageWindow.InRange(k.day, start, end) ==> w(k, n) == 0
  }

  lemma ConfinedAt(w: LatencyWeight, start: string, end: string, k: LatencyKey, n: int)
    requires Confined(w, start, end) && !UsageWindow.InRange(k.day, start, end)
    ensures w(k, n) == 0
  {
  }

  /** A settled table holds the recorded counts of every weight confined to the window. */
  lemma SettledSum(steps: seq<Step>, s: State, start: string, end: string, w: LatencyWeight)
    requires Leads(EMPTY, steps, s) && Settled(s, start, end) && Additive(w, PlusInt) && Confined(w, start, end)
    ensures Sum(s.latencyTable, w) == SumSeq(s.log, OfEventLatency(w))
  {
    hide Sum, SumSeq, Leads, UsageWindow.InRange;
    EveryRunConserves(steps, s, (k: DailyKey, c: DailyCounters) => 0, w);
    SumEmpty(w);
    SumSeqEmpty(OfBatchLatency(w));
    SumSeqEmpty(OfEventLatency(w));
    assert LatencySpared(s, w) by {
      forall i, j | 0 <= i < |s.lost| && 0 <= j < |s.lost[i].latency|
        ensures w(s.lost[i].latency[j].0, s.lost[i].latency[j].1) == 0
      {
        ConfinedAt(w, start, end, s.lost[i].latency[j].0, s.lost[i].latency[j].1);
      }
      forall i, k | 0 <= i < |s.purgedLatency| && k in s.purgedLatency[i]
        ensures w(k, s.purgedLatency[i][k]) == 0
      {
        ConfinedAt(w, start, end, k, s.purgedLatency[i][k]);
      }
    }
    LatencyGoneNothing(s, w);
  }

  lemma {:induction false} GroupEntries(rows: seq<LatencyRow>, dated: bool, date: Date, i: nat)
    requires i < |GroupOf(rows, dated, date)|
    ensures exists j ::
              0 <= j < |rows| && rows[j].bucket == GroupOf(rows, dated, date)[i] && DateOf(rows[j], dated) == date
  {
    var head := if DateOf(rows[0], dated) == date then [rows[0].bucket] else [];
    if i < |head| {
      assert rows[0].bucket == GroupOf(rows, dated, date)[i];
    } else {
      GroupEntries(rows[1..], dated, date, i - |head|);
      var j :| 0 <= j < |rows[1..]| && rows[1..][j].bucket == GroupOf(rows[1..], dated, date)[i - |head|]
               && DateOf(rows[1..][j], dated) == date;
      assert rows[j + 1].bucket == GroupOf(rows, dated, date)[i];
    }
  }

  lemma RowCountNonNegative(steps: seq<Step>, s: State, scope: Scope, start: string, end: string,
                            day: string, bound: int)
    requires Leads(EMPTY, steps, s) && Settled(s, start, end)
    ensures Sum(s.latencyTable, GroupWeight(scope, start, end, day, bound)) >= 0
  {
    var w := GroupWeight(scope, start, end, day, bound);
    SettledSum(steps, s, start, end, w);
    SumSeqNonNegative(s.log, OfEventLatency(w));
  }

  /** The buckets of every output group are a histogram of the latencies recorded for it. */
  lemma GroupIsHistogramOfRecorded(steps: seq<Step>, s: State, scope: Scope, start: string, end: string,
                                   rows: seq<LatencyRow>, dated: bool, date: Date)
    requires Leads(EMPTY, steps, s) && Settled(s, start, end)
    requires IsQueryResult(rows, s.latencyTable, scope, start, end)
    ensures IsHistogramOf(GroupOf(rows, dated, date), Recorded(s.log, scope, start, end, dated, date))
  {
    var h, table := GroupOf(rows, dated, date), s.latencyTable;
    RunsKeepLadderKeys(EMPTY, steps, s);
    forall i | 0 <= i < |h|
      ensures h[i].count >= 0 && (OnLadder(h[i].bound) || h[i].bound == BUCKET_OVERFLOW)
    {
      GroupEntries(rows, dated, date, i);
      var j :| 0 <= j < |rows| && rows[j].bucket == h[i] && DateOf(rows[j], dated) == date;
      RowCountNonNegative(steps, s, scope, start, end, rows[j].day, rows[j].bucket.bound);
      assert HasGroup(table, scope, start, end, rows[j].day, rows[j].bucket.bound);
    }
    forall b
      ensures SumAt(h, b) == CountIn(Recorded(s.log, scope, start, end, dated, date), b)
    {
      GroupSumIsRowSums(rows, table, scope, start, end, dated, date, b);
      RowSumsAreTableSums(rows, table, scope, start, end, dated, date, b);
      SettledSum(steps, s, start, end, BucketWeight(scope, start, end, dated, date, b));
      LogBucketSum(s.log, scope, start, end, dated, date, b);
    }
  }

  /** End to end: once the buffer is flushed, the percentile reported for a window, or for one of
      its days, lies in the bucket of the true order statistic of the latencies recorded there. */
  lemma ReportedPercentileBracketsRecorded(steps: seq<Step>, s: State, scope: Scope, start: string, end: string,
                                           rows: seq<LatencyRow>, dated: bool, date: Date, q: real, rank: real, k: int, x: nat)
    requires Leads(EMPTY, steps, s) && Settled(s, start, end)
    requires IsQueryResult(rows, s.latencyTable, scope, start, end)
    requires Recorded(s.log, scope, start, end, dated, date) != [] && 0.0 < q <= 1.0
    requires rank == q * |Recorded(s.log, scope, start, end, dated, date)| as real
    requires (k - 1) as real < rank <= k as real
    requires IsKthSmallest(Recorded(s.log, scope, start, end, dated, date), k, x)
    ensures var h := GroupOf(rows, dated, date);
            && Quantile(h, q).Some?
            && var (b, p) := (BucketFor(x), Quantile(h, q).value);
               if b == BUCKET_OVERFLOW then p == 1000 else InBucket(h, b, p)
  {
    hide BucketFor, Quantile, Rank, InBucket, Leads, Settled, IsQueryResult, IsHistogramOf, IsKthSmallest, GroupOf, Recorded;
    GroupIsHistogramOfRecorded(steps, s, scope, start, end, rows, dated, date);
    PercentileBracketsOrderStatistic(
      GroupOf(rows, dated, date), Recorded(s.log, scope, start, end, dated, date), q, rank, k, x);
  }
}
