/** The in-memory usage buffer and the rollup tables it is flushed into
    (`UsageRecorder` in `src/usage.rs`; `flush_usage` and `purge_usage_before` in `src/store.rs`). */
module UsageRecorder {
  import opened Prelude
  import opened MapSums
  import Histogram
  import DayText

  datatype DailyKey = DailyKey(day: string, tenantId: string, language: string, status: int, errorSlug: string)

  datatype DailyCounters = DailyCounters(requestCount: int, latencySumUs: int)

  datatype LatencyKey = LatencyKey(day: string, tenantId: string, bucketLeMs: int)

  /** One call of `record`: its arguments and the day the clock gave it. */
  datatype Event = Event(day: string, tenantId: string, language: string, status: nat, errorSlug: string, micros: nat)

  type DailyMap = map<DailyKey, DailyCounters>
  type LatencyMap = map<LatencyKey, int>

  function PlusCounters(a: DailyCounters, b: DailyCounters): DailyCounters {
    DailyCounters(a.requestCount + b.requestCount, a.latencySumUs + b.latencySumUs)
  }

  function PlusInt(a: int, b: int): int { a + b }

  function DailyKeyOf(e: Event): DailyKey { DailyKey(e.day, e.tenantId, e.language, e.status, e.errorSlug) }

  function CountersOf(e: Event): DailyCounters { DailyCounters(1, e.micros) }

  function Millis(e: Event): nat { e.micros / 1000 }

  function LatencyKeyOf(e: Event): LatencyKey { LatencyKey(e.day, e.tenantId, Histogram.BucketFor(Millis(e))) }

  function RecordDaily(daily: DailyMap, e: Event): DailyMap {
    Upsert(daily, DailyKeyOf(e), CountersOf(e), PlusCounters)
  }

  function RecordLatency(latency: LatencyMap, e: Event): LatencyMap {
    Upsert(latency, LatencyKeyOf(e), 1, PlusInt)
  }

  /** The ladder bucket of a latency in microseconds: the whole milliseconds of the latency are at most
      the bound and above every smaller one; -1 from 1001 ms on. */
  ghost predicate IsBucketOf(bound: int, micros: nat) {
    if micros >= 1001000 then bound == -1
    else
      && Histogram.OnLadder(bound) && micros < (bound + 1) * 1000
      && forall x :: Histogram.OnLadder(x) && x < bound ==> (x + 1) * 1000 <= micros
  }

  /** The bucket and the key an event is counted under. */
  lemma EventBucket(e: Event)
    ensures IsBucketOf(LatencyKeyOf(e).bucketLeMs, e.micros)
    ensures LatencyKeyOf(e).day == e.day && LatencyKeyOf(e).tenantId == e.tenantId
  {
    hide Histogram.BucketFor, Histogram.OnLadder;
    Histogram.BucketForMeaning(e.micros / 1000);
  }

  /** There is one such bucket. */
  lemma BucketIsUnique(a: int, b: int, micros: nat)
    requires IsBucketOf(a, micros) && IsBucketOf(b, micros)
    ensures a == b
  {
  }

  class Recorder {
    var daily: DailyMap
    var latency: LatencyMap

    constructor ()
      ensures daily == map[] && latency == map[]
    {
      daily, latency := map[], map[];
    }

    /** The first critical section of `record`. */
    method AddToDaily(e: Event)
      modifies this`daily
      ensures daily == RecordDaily(old(daily), e)
      ensures var key := DailyKey(e.day, e.tenantId, e.language, e.status, e.errorSlug);
              && key in daily
              && daily[key].requestCount == (if key in old(daily) then old(daily)[key].requestCount else 0) + 1
              && daily[key].latencySumUs == (if key in old(daily) then old(daily)[key].latencySumUs else 0) + e.micros
              && daily - {key} == old(daily) - {key}
    {
      var key := DailyKeyOf(e);
      var counters := if key in daily then daily[key] else DailyCounters(0, 0);
      counters := counters.(requestCount := counters.requestCount + 1);
      counters := counters.(latencySumUs := counters.latencySumUs + e.micros);
      daily := daily[key := counters];
    }

    /** The second critical section of `record`. */
    method AddToLatency(e: Event)
      modifies this`latency
      ensures latency == RecordLatency(old(latency), e)
      ensures exists bound | IsBucketOf(bound, e.micros) ::
                var key := LatencyKey(e.day, e.tenantId, bound);
                && key in latency
                && latency[key] == (if key in old(latency) then old(latency)[key] else 0) + 1
                && latency - {key} == old(latency) - {key}
    {
      EventBucket(e);
      hide Histogram.BucketFor;
      var key := LatencyKeyOf(e);
      assert IsBucketOf(key.bucketLeMs, e.micros);
      var count := if key in latency then latency[key] else 0;
      latency := latency[key := count + 1];
    }

    method Record(e: Event)
      modifies this
      ensures daily == RecordDaily(old(daily), e) && latency == RecordLatency(old(latency), e)
    {
      AddToDaily(e);
      AddToLatency(e);
    }

    /** Takes both maps, one lock after the other, and lists them in arbitrary order. */
    method Drain() returns (dailyEntries: seq<(DailyKey, DailyCounters)>, latencyEntries: seq<(LatencyKey, int)>)
      modifies this
      ensures daily == map[] && latency == map[]
      ensures Lists(dailyEntries, old(daily)) && Lists(latencyEntries, old(latency))
    {
      var taken := daily;
      daily := map[];
      dailyEntries := Collect(taken);
      var takenLatency := latency;
      latency := map[];
      latencyEntries := Collect(takenLatency);
    }
  }

  // ---- Tables ----------------------------------------------------------------------

  function DaysBefore<V>(table: map<DailyKey, V>, cutoff: string): set<DailyKey> {
    set k | k in table && DayText.LexLess(k.day, cutoff)
  }

  function LatencyDaysBefore<V>(table: map<LatencyKey, V>, cutoff: string): set<LatencyKey> {
    set k | k in table && DayText.LexLess(k.day, cutoff)
  }

  class Tables {
    var daily: DailyMap
    var latency: LatencyMap

    /** `flush_usage`: one transaction, so either every upsert lands or none does. `commits`
        says whether the database accepts the transaction. */
    method FlushUsage(dailyEntries: seq<(DailyKey, DailyCounters)>, latencyEntries: seq<(LatencyKey, int)>, commits: bool)
      returns (ok: bool)
      modifies this
      ensures ok == (commits || (dailyEntries == [] && latencyEntries == []))
      ensures daily == if ok then UpsertAll(old(daily), dailyEntries, PlusCounters) else old(daily)
      ensures latency == if ok then UpsertAll(old(latency), latencyEntries, PlusInt) else old(latency)
    {
      if |dailyEntries| == 0 && |latencyEntries| == 0 {
        return true;
      }
      var newDaily, newLatency := daily, latency;
      for i := 0 to |dailyEntries|
        invariant unchanged(this)
        invariant newDaily == UpsertAll(daily, dailyEntries[..i], PlusCounters)
      {
        var (key, counters) := dailyEntries[i];
        assert dailyEntries[..i + 1] == dailyEntries[..i] + [dailyEntries[i]];
        UpsertAllSnoc(daily, dailyEntries[..i], dailyEntries[i], PlusCounters);
        newDaily := newDaily[key := if key in newDaily then PlusCounters(newDaily[key], counters) else counters];
      }
      for i := 0 to |latencyEntries|
        invariant unchanged(this)
        invariant newLatency == UpsertAll(latency, latencyEntries[..i], PlusInt)
      {
        var (key, count) := latencyEntries[i];
        assert latencyEntries[..i + 1] == latencyEntries[..i] + [latencyEntries[i]];
        UpsertAllSnoc(latency, latencyEntries[..i], latencyEntries[i], PlusInt);
        newLatency := newLatency[key := if key in newLatency then newLatency[key] + count else count];
      }
      assert dailyEntries[..|dailyEntries|] == dailyEntries && latencyEntries[..|latencyEntries|] == latencyEntries;
      if commits {
        daily, latency := newDaily, newLatency;
      }
      return commits;
    }

    /** `purge_usage_before`: drops the rows whose day text is strictly below the cutoff. */
    method PurgeUsageBefore(cutoff: string) returns (removed: nat)
      modifies this
      ensures forall k :: k in daily <==> k in old(daily) && !DayText.LexLess(k.day, cutoff)
      ensures forall k :: k in daily ==> daily[k] == old(daily)[k]
      ensures forall k :: k in latency <==> k in old(latency) && !DayText.LexLess(k.day, cutoff)
      ensures forall k :: k in latency ==> latency[k] == old(latency)[k]
      ensures daily == old(daily) - DaysBefore(old(daily), cutoff)
      ensures latency == old(latency) - LatencyDaysBefore(old(latency), cutoff)
      ensures removed == (|old(daily)| - |daily|) + (|old(latency)| - |latency|)
    {
      var gone, latencyGone := DaysBefore(daily, cutoff), LatencyDaysBefore(latency, cutoff);
      assert |daily.Keys - gone| == |daily| - |gone|;
      assert (daily - gone).Keys == daily.Keys - gone;
      daily := daily - gone;
      assert |latency.Keys - latencyGone| == |latency| - |latencyGone|;
      assert (latency - latencyGone).Keys == latency.Keys - latencyGone;
      latency := latency - latencyGone;
      removed := |gone| + |latencyGone|;
    }
  }

  /** What a flush of a drained buffer leaves in the tables, in whatever order it lists them. */
  lemma FlushedBufferIsMerged(
    table: DailyMap, entries: seq<(DailyKey, DailyCounters)>, buffer: DailyMap,
    latencyTable: LatencyMap, latencyEntries: seq<(LatencyKey, int)>, latencyBuffer: LatencyMap)
    requires Lists(entries, buffer) && Lists(latencyEntries, latencyBuffer)
    ensures UpsertAll(table, entries, PlusCounters) == Merge(table, buffer, PlusCounters)
    ensures UpsertAll(latencyTable, latencyEntries, PlusInt) == Merge(latencyTable, latencyBuffer, PlusInt)
  {
    UpsertListing(table, entries, buffer, PlusCounters);
    UpsertListing(latencyTable, latencyEntries, latencyBuffer, PlusInt);
  }
}
