/** Write-behind of usage counts as a state machine at lock granularity: any number of `record`
    calls, drains, flushes and purges interleaved, over any number of server lifetimes on one
    database (`src/usage.rs`, `src/store.rs`, `src/main.rs`). */
module UsageFlow {
  import opened Prelude
  import opened MapSums
  import opened UsageRecorder

  type DailyEntries = seq<(DailyKey, DailyCounters)>
  type LatencyEntries = seq<(LatencyKey, int)>

  /** What one `drain` handed to its caller. */
  datatype Batch = Batch(daily: DailyEntries, latency: LatencyEntries)

  /** The shared state, plus the history needed to say where every record went. */
  datatype State = State(
    daily: DailyMap,               // the recorder's first map
    latency: LatencyMap,           // the recorder's second map
    betweenLocks: seq<Event>,      // records that released the first lock and wait for the second
    halfDrained: seq<DailyEntries>, // drains that took the first map and wait for the second
    inFlight: seq<Batch>,          // drained, not yet flushed
    dailyTable: DailyMap,
    latencyTable: LatencyMap,
    log: seq<Event>,               // every record so far, in first-lock order
    lost: seq<Batch>,              // batches whose flush failed, and what a killed server held
    purgedDaily: seq<DailyMap>,    // rows removed by retention purges
    purgedLatency: seq<LatencyMap>
  )

  const EMPTY := State(map[], map[], [], [], [], map[], map[], [], [], [], [])

  datatype Step =
    | BeginRecord(event: Event)
    | EndRecord(record: nat)
    | BeginDrain(dailyEntries: DailyEntries)
    | EndDrain(drain: nat, latencyEntries: LatencyEntries)
    | FlushOk(batch: nat)
    | FlushFailed(failed: nat)
    | Purge(cutoff: string)
    | Crash(dailyEntries: DailyEntries, latencyEntries: LatencyEntries)

  ghost predicate Enabled(s: State, step: Step) {
    match step
    case BeginRecord(_) => true
    case EndRecord(i) => i < |s.betweenLocks|
    case BeginDrain(entries) => Lists(entries, s.daily)
    case EndDrain(i, entries) => i < |s.halfDrained| && Lists(entries, s.latency)
    case FlushOk(i) => i < |s.inFlight|
    case FlushFailed(i) => i < |s.inFlight|
    case Purge(_) => true
    case Crash(entries, latencyEntries) => Lists(entries, s.daily) && Lists(latencyEntries, s.latency)
  }

  /** What half drained maps and records between their locks still held. */
  function Halves(halfDrained: seq<DailyEntries>): seq<Batch> {
    if halfDrained == [] then [] else [Batch(halfDrained[0], [])] + Halves(halfDrained[1..])
  }

  function Opens(betweenLocks: seq<Event>): seq<Batch> {
    if betweenLocks == [] then [] else [Batch([], [(LatencyKeyOf(betweenLocks[0]), 1)])] + Opens(betweenLocks[1..])
  }

  /** What a server that is killed takes with it. */
  function Wreck(s: State, entries: DailyEntries, latencyEntries: LatencyEntries): seq<Batch> {
    s.inFlight + [Batch(entries, latencyEntries)] + Halves(s.halfDrained) + Opens(s.betweenLocks)
  }

  ghost function Next(s: State, step: Step): State
    requires Enabled(s, step)
  {
    match step
    case BeginRecord(e) =>
      s.(daily := RecordDaily(s.daily, e), betweenLocks := s.betweenLocks + [e], log := s.log + [e])
    case EndRecord(i) =>
      s.(latency := RecordLatency(s.latency, s.betweenLocks[i]), betweenLocks := Without(s.betweenLocks, i))
    case BeginDrain(entries) =>
      s.(daily := map[], halfDrained := s.halfDrained + [entries])
    case EndDrain(i, entries) =>
      s.(latency := map[], halfDrained := Without(s.halfDrained, i),
         inFlight := s.inFlight + [Batch(s.halfDrained[i], entries)])
    case FlushOk(i) =>
      s.(dailyTable := UpsertAll(s.dailyTable, s.inFlight[i].daily, PlusCounters),
         latencyTable := UpsertAll(s.latencyTable, s.inFlight[i].latency, PlusInt),
         inFlight := Without(s.inFlight, i))
    case FlushFailed(i) =>
      s.(lost := s.lost + [s.inFlight[i]], inFlight := Without(s.inFlight, i))
    case Purge(cutoff) =>
      var (gone, latencyGone) := (DaysBefore(s.dailyTable, cutoff), LatencyDaysBefore(s.latencyTable, cutoff));
      s.(dailyTable := s.dailyTable - gone, latencyTable := s.latencyTable - latencyGone,
         purgedDaily := s.purgedDaily + [Only(s.dailyTable, gone)],
         purgedLatency := s.purgedLatency + [Only(s.latencyTable, latencyGone)])
    case Crash(entries, latencyEntries) =>
      s.(daily := map[], latency := map[], betweenLocks := [], halfDrained := [], inFlight := [],
         lost := s.lost + Wreck(s, entries, latencyEntries))
  }

  /** `steps`, each enabled in turn, lead from `s` to `t`. */
  ghost predicate Leads(s: State, steps: seq<Step>, t: State)
    decreases |steps|
  {
    if steps == [] then s == t
    else Enabled(s, steps[0]) && Leads(Next(s, steps[0]), steps[1..], t)
  }

  // ---- Weights -----------------------------------------------------------------------

  type DailyWeight = (DailyKey, DailyCounters) -> int
  type LatencyWeight = (LatencyKey, int) -> int

  ghost function OfEntries<K(!new), V>(w: (K, V) -> int): seq<(K, V)> -> int { es => SumEntries(es, w) }
  ghost function OfBatchDaily(w: DailyWeight): Batch -> int { (b: Batch) => SumEntries(b.daily, w) }
  ghost function OfBatchLatency(w: LatencyWeight): Batch -> int { (b: Batch) => SumEntries(b.latency, w) }
  ghost function OfMap<K(!new), V>(w: (K, V) -> int): map<K, V> -> int { m => Sum(m, w) }
  ghost function OfEventDaily(w: DailyWeight): Event -> int { (e: Event) => w(DailyKeyOf(e), CountersOf(e)) }
  ghost function OfEventLatency(w: LatencyWeight): Event -> int { (e: Event) => w(LatencyKeyOf(e), 1) }

  /** Weight still on its way into the daily table or in it. */
  ghost function DailyLive(s: State, w: DailyWeight): int {
    Sum(s.dailyTable, w) + Sum(s.daily, w) + SumSeq(s.halfDrained, OfEntries(w)) + SumSeq(s.inFlight, OfBatchDaily(w))
  }

  ghost function LatencyLive(s: State, w: LatencyWeight): int {
    Sum(s.latencyTable, w) + Sum(s.latency, w) + SumSeq(s.inFlight, OfBatchLatency(w))
  }

  ghost function DailyGone(s: State, w: DailyWeight): int {
    SumSeq(s.lost, OfBatchDaily(w)) + SumSeq(s.purgedDaily, OfMap(w))
  }

  ghost function LatencyGone(s: State, w: LatencyWeight): int {
    SumSeq(s.lost, OfBatchLatency(w)) + SumSeq(s.purgedLatency, OfMap(w))
  }

  /** Everything accounted for, less everything recorded. */
  ghost function DailyBalance(s: State, w: DailyWeight): int {
    DailyLive(s, w) + DailyGone(s, w) - SumSeq(s.log, OfEventDaily(w))
  }

  /** The same for latencies, where records between their two locks are still to come. */
  ghost function LatencyBalance(s: State, w: LatencyWeight): int {
    LatencyLive(s, w) + LatencyGone(s, w) + SumSeq(s.betweenLocks, OfEventLatency(w)) - SumSeq(s.log, OfEventLatency(w))
  }

  // ---- Conservation ----------------------------------------------------------------------

  lemma {:induction false} HalvesSum(h: seq<DailyEntries>, w: DailyWeight, v: LatencyWeight)
    ensures SumSeq(Halves(h), OfBatchDaily(w)) == SumSeq(h, OfEntries(w))
    ensures SumSeq(Halves(h), OfBatchLatency(v)) == 0
  {
    if h != [] {
      HalvesSum(h[1..], w, v);
      assert Halves(h)[1..] == Halves(h[1..]);
    }
  }

  lemma {:induction false} OpensSum(es: seq<Event>, w: DailyWeight, v: LatencyWeight)
    ensures SumSeq(Opens(es), OfBatchDaily(w)) == 0
    ensures SumSeq(Opens(es), OfBatchLatency(v)) == SumSeq(es, OfEventLatency(v))
  {
    if es != [] {
      OpensSum(es[1..], w, v);
      assert Opens(es)[1..] == Opens(es[1..]);
      var first: LatencyEntries := [(LatencyKeyOf(es[0]), 1)];
      assert first[1..] == [];
      assert SumEntries(first, v) == v(LatencyKeyOf(es[0]), 1);
    }
  }

  lemma WreckSum(s: State, entries: DailyEntries, latencyEntries: LatencyEntries, w: DailyWeight, v: LatencyWeight)
    requires Lists(entries, s.daily) && Lists(latencyEntries, s.latency)
    ensures SumSeq(Wreck(s, entries, latencyEntries), OfBatchDaily(w)) ==
            SumSeq(s.inFlight, OfBatchDaily(w)) + Sum(s.daily, w) + SumSeq(s.halfDrained, OfEntries(w))
    ensures SumSeq(Wreck(s, entries, latencyEntries), OfBatchLatency(v)) ==
            SumSeq(s.inFlight, OfBatchLatency(v)) + Sum(s.latency, v) + SumSeq(s.betweenLocks, OfEventLatency(v))
  {
    hide Sum, SumSeq, SumEntries, Halves, Opens, Lists;
    var buffered := Batch(entries, latencyEntries);
    SumOfListing(entries, s.daily, w);
    SumOfListing(latencyEntries, s.latency, v);
    HalvesSum(s.halfDrained, w, v);
    OpensSum(s.betweenLocks, w, v);
    SumSeqAppend(s.inFlight, buffered, OfBatchDaily(w));
    SumSeqAppend(s.inFlight, buffered, OfBatchLatency(v));
    SumSeqConcat(s.inFlight + [buffered], Halves(s.halfDrained), OfBatchDaily(w));
    SumSeqConcat(s.inFlight + [buffered], Halves(s.halfDrained), OfBatchLatency(v));
    SumSeqConcat(s.inFlight + [buffered] + Halves(s.halfDrained), Opens(s.betweenLocks), OfBatchDaily(w));
    SumSeqConcat(s.inFlight + [buffered] + Halves(s.halfDrained), Opens(s.betweenLocks), OfBatchLatency(v));
  }

  lemma SumEmpty<K(!new), V>(w: (K, V) -> int)
    ensures Sum(map[], w) == 0
  {
  }

  lemma SumSeqEmpty<T>(f: T -> int)
    ensures SumSeq([], f) == 0
  {
  }

  lemma StepConservesDaily(s: State, step: Step, w: DailyWeight)
    requires Enabled(s, step) && Additive(w, PlusCounters)
    ensures DailyBalance(Next(s, step), w) == DailyBalance(s, w)
  {
    hide Sum, SumSeq, SumEntries, Wreck;
    var t := Next(s, step);
    match step {
      case BeginRecord(e) =>
        UpsertSum(s.daily, DailyKeyOf(e), CountersOf(e), PlusCounters, w);
        SumSeqAppend(s.log, e, OfEventDaily(w));
      case EndRecord(_) =>
      case BeginDrain(entries) =>
        SumOfListing(entries, s.daily, w);
        SumEmpty(w);
        SumSeqAppend(s.halfDrained, entries, OfEntries(w));
      case EndDrain(i, entries) =>
        SumSeqWithout(s.halfDrained, i, OfEntries(w));
        SumSeqAppend(s.inFlight, Batch(s.halfDrained[i], entries), OfBatchDaily(w));
      case FlushOk(i) =>
        UpsertAllSum(s.dailyTable, s.inFlight[i].daily, PlusCounters, w);
        SumSeqWithout(s.inFlight, i, OfBatchDaily(w));
      case FlushFailed(i) =>
        SumSeqWithout(s.inFlight, i, OfBatchDaily(w));
        SumSeqAppend(s.lost, s.inFlight[i], OfBatchDaily(w));
      case Purge(cutoff) =>
        var gone := DaysBefore(s.dailyTable, cutoff);
        SumSplit(s.dailyTable, gone, w);
        SumSeqAppend(s.purgedDaily, Only(s.dailyTable, gone), OfMap(w));
      case Crash(entries, latencyEntries) =>
        WreckSum(s, entries, latencyEntries, w, (k: LatencyKey, n: int) => 0);
        SumSeqConcat(s.lost, Wreck(s, entries, latencyEntries), OfBatchDaily(w));
        SumEmpty(w);
        SumSeqEmpty(OfEntries(w));
        SumSeqEmpty(OfBatchDaily(w));
    }
  }

  lemma StepConservesLatency(s: State, step: Step, w: LatencyWeight)
    requires Enabled(s, step) && Additive(w, PlusInt)
    ensures LatencyBalance(Next(s, step), w) == LatencyBalance(s, w)
  {
    hide Sum, SumSeq, SumEntries, Wreck;
    match step {
      case BeginRecord(e) =>
        SumSeqAppend(s.log, e, OfEventLatency(w));
        SumSeqAppend(s.betweenLocks, e, OfEventLatency(w));
      case EndRecord(i) =>
        UpsertSum(s.latency, LatencyKeyOf(s.betweenLocks[i]), 1, PlusInt, w);
        SumSeqWithout(s.betweenLocks, i, OfEventLatency(w));
      case BeginDrain(entries) =>
      case EndDrain(i, entries) =>
        SumOfListing(entries, s.latency, w);
        SumEmpty(w);
        SumSeqAppend(s.inFlight, Batch(s.halfDrained[i], entries), OfBatchLatency(w));
      case FlushOk(i) =>
        UpsertAllSum(s.latencyTable, s.inFlight[i].latency, PlusInt, w);
        SumSeqWithout(s.inFlight, i, OfBatchLatency(w));
      case FlushFailed(i) =>
        SumSeqWithout(s.inFlight, i, OfBatchLatency(w));
        SumSeqAppend(s.lost, s.inFlight[i], OfBatchLatency(w));
      case Purge(cutoff) =>
        var gone := LatencyDaysBefore(s.latencyTable, cutoff);
        SumSplit(s.latencyTable, gone, w);
        SumSeqAppend(s.purgedLatency, Only(s.latencyTable, gone), OfMap(w));
      case Crash(entries, latencyEntries) =>
        WreckSum(s, entries, latencyEntries, (k: DailyKey, c: DailyCounters) => 0, w);
        SumSeqConcat(s.lost, Wreck(s, entries, latencyEntries), OfBatchLatency(w));
        SumEmpty(w);
        SumSeqEmpty(OfEventLatency(w));
        SumSeqEmpty(OfBatchLatency(w));
    }
  }

  /** Write-behind conservation over every run from any state, for every additive way of counting:
      per key, per day and tenant, requests or microseconds. */
  lemma {:induction false} RunsConserve(s: State, steps: seq<Step>, t: State, w: DailyWeight, v: LatencyWeight)
    requires Leads(s, steps, t) && Additive(w, PlusCounters) && Additive(v, PlusInt)
    ensures DailyBalance(t, w) == DailyBalance(s, w) && LatencyBalance(t, v) == LatencyBalance(s, v)
    decreases |steps|
  {
    hide Next, Enabled, DailyBalance, LatencyBalance;
    if steps != [] {
      StepConservesDaily(s, steps[0], w);
      StepConservesLatency(s, steps[0], v);
      RunsConserve(Next(s, steps[0]), steps[1..], t, w, v);
    }
  }

  lemma EmptyConserves(w: DailyWeight, v: LatencyWeight)
    ensures DailyBalance(EMPTY, w) == 0 && LatencyBalance(EMPTY, v) == 0
  {
    SumEmpty(w);
    SumEmpty(v);
  }

  /** Everything ever recorded on a database is in the table, buffered, half drained, in flight, lost
      with a failed batch or a killed server, or purged, exactly once; a latency may also still wait
      for its second lock. */
  lemma EveryRunConserves(steps: seq<Step>, s: State, w: DailyWeight, v: LatencyWeight)
    requires Leads(EMPTY, steps, s) && Additive(w, PlusCounters) && Additive(v, PlusInt)
    ensures SumSeq(s.log, OfEventDaily(w)) ==
            Sum(s.dailyTable, w) + Sum(s.daily, w) + SumSeq(s.halfDrained, OfEntries(w))
            + SumSeq(s.inFlight, OfBatchDaily(w)) + SumSeq(s.lost, OfBatchDaily(w)) + SumSeq(s.purgedDaily, OfMap(w))
    ensures SumSeq(s.log, OfEventLatency(v)) ==
            Sum(s.latencyTable, v) + Sum(s.latency, v) + SumSeq(s.betweenLocks, OfEventLatency(v))
            + SumSeq(s.inFlight, OfBatchLatency(v)) + SumSeq(s.lost, OfBatchLatency(v)) + SumSeq(s.purgedLatency, OfMap(v))
  {
    EmptyConserves(w, v);
    RunsConserve(EMPTY, steps, s, w, v);
  }

  // ---- One key ---------------------------------------------------------------------------

  ghost function RequestsAt(key: DailyKey): DailyWeight {
    (k: DailyKey, c: DailyCounters) => if k == key then c.requestCount else 0
  }

  ghost function MicrosAt(key: DailyKey): DailyWeight {
    (k: DailyKey, c: DailyCounters) => if k == key then c.latencySumUs else 0
  }

  ghost function BucketAt(key: LatencyKey): LatencyWeight { (k: LatencyKey, n: int) => if k == key then n else 0 }

  function DailyRequests(m: DailyMap, key: DailyKey): int { if key in m then m[key].requestCount else 0 }
  function DailyMicros(m: DailyMap, key: DailyKey): int { if key in m then m[key].latencySumUs else 0 }

  function BucketCount(m: LatencyMap, key: LatencyKey): int { if key in m then m[key] else 0 }

  /** Events of the log with the given daily key, and their latencies added up. */
  function LoggedRequests(log: seq<Event>, key: DailyKey): nat {
    if log == [] then 0 else (if DailyKeyOf(log[0]) == key then 1 else 0) + LoggedRequests(log[1..], key)
  }

  function LoggedMicros(log: seq<Event>, key: DailyKey): nat {
    if log == [] then 0 else (if DailyKeyOf(log[0]) == key then log[0].micros else 0) + LoggedMicros(log[1..], key)
  }

  lemma {:induction false} LogByKey(log: seq<Event>, key: DailyKey)
    ensures SumSeq(log, OfEventDaily(RequestsAt(key))) == LoggedRequests(log, key)
    ensures SumSeq(log, OfEventDaily(MicrosAt(key))) == LoggedMicros(log, key)
  {
    if log != [] {
      LogByKey(log[1..], key);
      var (e, w, u) := (log[0], RequestsAt(key), MicrosAt(key));
      assert OfEventDaily(w)(e) == w(DailyKeyOf(e), CountersOf(e));
      assert OfEventDaily(u)(e) == u(DailyKeyOf(e), CountersOf(e));
    }
  }

  function LoggedBucket(log: seq<Event>, key: LatencyKey): nat {
    if log == [] then 0 else (if LatencyKeyOf(log[0]) == key then 1 else 0) + LoggedBucket(log[1..], key)
  }

  lemma {:induction false} LogByBucket(log: seq<Event>, key: LatencyKey)
    ensures SumSeq(log, OfEventLatency(BucketAt(key))) == LoggedBucket(log, key)
  {
    if log != [] {
      LogByBucket(log[1..], key);
      assert OfEventLatency(BucketAt(key))(log[0]) == BucketAt(key)(LatencyKeyOf(log[0]), 1);
    }
  }

  /** What was lost or purged weighs nothing. */
  ghost predicate DailySpared(s: State, w: DailyWeight) {
    && (forall i, j :: 0 <= i < |s.lost| && 0 <= j < |s.lost[i].daily| ==>
          w(s.lost[i].daily[j].0, s.lost[i].daily[j].1) == 0)
    && (forall i, k :: 0 <= i < |s.purgedDaily| && k in s.purgedDaily[i] ==> w(k, s.purgedDaily[i][k]) == 0)
  }

  ghost predicate LatencySpared(s: State, v: LatencyWeight) {
    && (forall i, j :: 0 <= i < |s.lost| && 0 <= j < |s.lost[i].latency| ==>
          v(s.lost[i].latency[j].0, s.lost[i].latency[j].1) == 0)
    && (forall i, k :: 0 <= i < |s.purgedLatency| && k in s.purgedLatency[i] ==> v(k, s.purgedLatency[i][k]) == 0)
  }

  lemma DailyGoneNothing(s: State, w: DailyWeight)
    requires DailySpared(s, w)
    ensures DailyGone(s, w) == 0
  {
    forall i | 0 <= i < |s.lost|
      ensures OfBatchDaily(w)(s.lost[i]) == 0
    {
      SumEntriesZero(s.lost[i].daily, w);
    }
    SumSeqZero(s.lost, OfBatchDaily(w));
    forall i | 0 <= i < |s.purgedDaily|
      ensures OfMap(w)(s.purgedDaily[i]) == 0
    {
      SumZero(s.purgedDaily[i], w);
    }
    SumSeqZero(s.purgedDaily, OfMap(w));
  }

  lemma LatencyGoneNothing(s: State, v: LatencyWeight)
    requires LatencySpared(s, v)
    ensures LatencyGone(s, v) == 0
  {
    forall i | 0 <= i < |s.lost|
      ensures OfBatchLatency(v)(s.lost[i]) == 0
    {
      SumEntriesZero(s.lost[i].latency, v);
    }
    SumSeqZero(s.lost, OfBatchLatency(v));
    forall i | 0 <= i < |s.purgedLatency|
      ensures OfMap(v)(s.purgedLatency[i]) == 0
    {
      SumZero(s.purgedLatency[i], v);
    }
    SumSeqZero(s.purgedLatency, OfMap(v));
  }

  /** Nothing is left to flush. */
  predicate Quiet(s: State) {
    s.daily == map[] && s.latency == map[] && s.betweenLocks == [] && s.halfDrained == [] && s.inFlight == []
  }

  lemma QuietSums(steps: seq<Step>, s: State, w: DailyWeight, v: LatencyWeight)
    requires Leads(EMPTY, steps, s) && Quiet(s) && Additive(w, PlusCounters) && Additive(v, PlusInt)
    ensures Sum(s.dailyTable, w) + DailyGone(s, w) == SumSeq(s.log, OfEventDaily(w))
    ensures Sum(s.latencyTable, v) + LatencyGone(s, v) == SumSeq(s.log, OfEventLatency(v))
  {
    hide Sum, SumSeq, Leads;
    EveryRunConserves(steps, s, w, v);
    SumEmpty(w);
    SumEmpty(v);
    SumSeqEmpty(OfEntries(w));
    SumSeqEmpty(OfBatchDaily(w));
    SumSeqEmpty(OfBatchLatency(v));
    SumSeqEmpty(OfEventLatency(v));
  }

  /** No lost batch and no purge held the key. */
  predicate KeptDaily(s: State, key: DailyKey) {
    && (forall i, j :: 0 <= i < |s.lost| && 0 <= j < |s.lost[i].daily| ==> s.lost[i].daily[j].0 != key)
    && (forall i :: 0 <= i < |s.purgedDaily| ==> key !in s.purgedDaily[i])
  }

  predicate KeptBucket(s: State, key: LatencyKey) {
    && (forall i, j :: 0 <= i < |s.lost| && 0 <= j < |s.lost[i].latency| ==> s.lost[i].latency[j].0 != key)
    && (forall i :: 0 <= i < |s.purgedLatency| ==> key !in s.purgedLatency[i])
  }

  /** Once everything drained has been flushed, the table holds exactly the recorded counts of every
      key that no failure, crash or purge has touched. */
  lemma QuietTableIsTheLog(steps: seq<Step>, s: State, key: DailyKey)
    requires Leads(EMPTY, steps, s) && Quiet(s) && KeptDaily(s, key)
    ensures DailyRequests(s.dailyTable, key) == LoggedRequests(s.log, key)
    ensures DailyMicros(s.dailyTable, key) == LoggedMicros(s.log, key)
  {
    hide Sum, SumSeq, Leads, Quiet, DailyGone;
    var v: LatencyWeight := (k: LatencyKey, n: int) => 0;
    QuietSums(steps, s, RequestsAt(key), v);
    QuietSums(steps, s, MicrosAt(key), v);
    DailyGoneNothing(s, RequestsAt(key));
    DailyGoneNothing(s, MicrosAt(key));
    LogByKey(s.log, key);
    SumAtKey(s.dailyTable, key, RequestsAt(key));
    SumAtKey(s.dailyTable, key, MicrosAt(key));
  }

  /** The same for a latency bucket. */
  lemma QuietBucketIsTheLog(steps: seq<Step>, s: State, key: LatencyKey)
    requires Leads(EMPTY, steps, s) && Quiet(s) && KeptBucket(s, key)
    ensures BucketCount(s.latencyTable, key) == LoggedBucket(s.log, key)
  {
    hide Sum, SumSeq, Leads, Quiet, LatencyGone;
    QuietSums(steps, s, (k: DailyKey, c: DailyCounters) => 0, BucketAt(key));
    LatencyGoneNothing(s, BucketAt(key));
    LogByBucket(s.log, key);
    SumAtKey(s.latencyTable, key, BucketAt(key));
  }

  // ---- Never more than was recorded ----------------------------------------------------------

  /** Every entry anywhere weighs at least nothing. */
  ghost predicate DailyOk(s: State, w: DailyWeight) {
    && MapOk(s.daily, w) && MapOk(s.dailyTable, w)
    && (forall i :: 0 <= i < |s.halfDrained| ==> EntriesOk(s.halfDrained[i], w))
    && (forall i :: 0 <= i < |s.inFlight| ==> EntriesOk(s.inFlight[i].daily, w))
    && (forall i :: 0 <= i < |s.lost| ==> EntriesOk(s.lost[i].daily, w))
    && (forall i :: 0 <= i < |s.purgedDaily| ==> MapOk(s.purgedDaily[i], w))
  }

  ghost predicate LatencyOk(s: State, v: LatencyWeight) {
    && MapOk(s.latency, v) && MapOk(s.latencyTable, v)
    && (forall i :: 0 <= i < |s.inFlight| ==> EntriesOk(s.inFlight[i].latency, v))
    && (forall i :: 0 <= i < |s.lost| ==> EntriesOk(s.lost[i].latency, v))
    && (forall i :: 0 <= i < |s.purgedLatency| ==> MapOk(s.purgedLatency[i], v))
  }

  /** The weights count every event as nothing or more. */
  ghost predicate Positive(w: DailyWeight, v: LatencyWeight) {
    forall e: Event :: w(DailyKeyOf(e), CountersOf(e)) >= 0 && v(LatencyKeyOf(e), 1) >= 0
  }

  lemma {:induction false} HalvesOk(h: seq<DailyEntries>, w: DailyWeight, v: LatencyWeight)
    requires forall i :: 0 <= i < |h| ==> EntriesOk(h[i], w)
    ensures forall i :: 0 <= i < |Halves(h)| ==> EntriesOk(Halves(h)[i].daily, w) && EntriesOk(Halves(h)[i].latency, v)
  {
    if h != [] {
      HalvesOk(h[1..], w, v);
    }
  }

  lemma {:induction false} OpensOk(es: seq<Event>, w: DailyWeight, v: LatencyWeight)
    requires Positive(w, v)
    ensures forall i :: 0 <= i < |Opens(es)| ==> EntriesOk(Opens(es)[i].daily, w) && EntriesOk(Opens(es)[i].latency, v)
  {
    if es != [] {
      OpensOk(es[1..], w, v);
      assert EntriesOk([(LatencyKeyOf(es[0]), 1)], v);
    }
  }

  lemma ListingOk<K, V>(entries: seq<(K, V)>, m: map<K, V>, w: (K, V) -> int)
    requires Lists(entries, m) && MapOk(m, w)
    ensures EntriesOk(entries, w)
  {
  }

  lemma StepKeepsDailyOk(s: State, step: Step, w: DailyWeight, v: LatencyWeight)
    requires Enabled(s, step) && DailyOk(s, w) && Additive(w, PlusCounters) && Positive(w, v)
    ensures DailyOk(Next(s, step), w)
  {
    hide MapOk, EntriesOk, Lists, Upsert, UpsertAll, Halves, Opens;
    OnlyNonNegative(map[], {}, w);
    match step {
      case BeginRecord(e) => UpsertOk(s.daily, DailyKeyOf(e), CountersOf(e), PlusCounters, w);
      case BeginDrain(entries) => ListingOk(entries, s.daily, w);
      case FlushOk(i) => UpsertAllOk(s.dailyTable, s.inFlight[i].daily, PlusCounters, w);
      case Purge(cutoff) => OnlyNonNegative(s.dailyTable, DaysBefore(s.dailyTable, cutoff), w);
      case Crash(entries, _) =>
        ListingOk(entries, s.daily, w);
        HalvesOk(s.halfDrained, w, v);
        OpensOk(s.betweenLocks, w, v);
      case _ =>
    }
  }

  lemma OnlyNonNegative<K, V>(m: map<K, V>, keys: set<K>, w: (K, V) -> int)
    ensures MapOk(m, w) ==> MapOk(Only(m, keys), w) && MapOk(m - keys, w)
    ensures MapOk<K, V>(map[], w)
  {
  }

  lemma StepKeepsLatencyOk(s: State, step: Step, w: DailyWeight, v: LatencyWeight)
    requires Enabled(s, step) && DailyOk(s, w) && LatencyOk(s, v) && Additive(v, PlusInt) && Positive(w, v)
    ensures LatencyOk(Next(s, step), v)
  {
    hide MapOk, EntriesOk, Lists, Upsert, UpsertAll, Halves, Opens;
    OnlyNonNegative(map[], {}, v);
    match step {
      case EndRecord(i) => UpsertOk(s.latency, LatencyKeyOf(s.betweenLocks[i]), 1, PlusInt, v);
      case EndDrain(_, entries) => ListingOk(entries, s.latency, v);
      case FlushOk(i) => UpsertAllOk(s.latencyTable, s.inFlight[i].latency, PlusInt, v);
      case Purge(cutoff) => OnlyNonNegative(s.latencyTable, LatencyDaysBefore(s.latencyTable, cutoff), v);
      case Crash(_, entries) =>
        ListingOk(entries, s.latency, v);
        HalvesOk(s.halfDrained, w, v);
        OpensOk(s.betweenLocks, w, v);
      case _ =>
    }
  }

  lemma {:induction false} RunsKeepOk(s: State, steps: seq<Step>, t: State, w: DailyWeight, v: LatencyWeight)
    requires Leads(s, steps, t) && DailyOk(s, w) && LatencyOk(s, v)
    requires Additive(w, PlusCounters) && Additive(v, PlusInt) && Positive(w, v)
    ensures DailyOk(t, w) && LatencyOk(t, v)
    decreases |steps|
  {
    hide Next, Enabled, DailyOk, LatencyOk, Positive;
    if steps != [] {
      StepKeepsDailyOk(s, steps[0], w, v);
      StepKeepsLatencyOk(s, steps[0], w, v);
      RunsKeepOk(Next(s, steps[0]), steps[1..], t, w, v);
    }
  }

  lemma DailyWeightsNonNegative(s: State, w: DailyWeight)
    requires DailyOk(s, w)
    ensures Sum(s.daily, w) >= 0 && SumSeq(s.halfDrained, OfEntries(w)) >= 0
    ensures SumSeq(s.inFlight, OfBatchDaily(w)) >= 0
    ensures SumSeq(s.lost, OfBatchDaily(w)) >= 0 && SumSeq(s.purgedDaily, OfMap(w)) >= 0
  {
    SumNonNegative(s.daily, w);
    forall i | 0 <= i < |s.halfDrained|
      ensures OfEntries(w)(s.halfDrained[i]) >= 0
    {
      EntriesNonNegative(s.halfDrained[i], w);
    }
    SumSeqNonNegative(s.halfDrained, OfEntries(w));
    forall i | 0 <= i < |s.inFlight|
      ensures OfBatchDaily(w)(s.inFlight[i]) >= 0
    {
      EntriesNonNegative(s.inFlight[i].daily, w);
    }
    SumSeqNonNegative(s.inFlight, OfBatchDaily(w));
    forall i | 0 <= i < |s.lost|
      ensures OfBatchDaily(w)(s.lost[i]) >= 0
    {
      EntriesNonNegative(s.lost[i].daily, w);
    }
    SumSeqNonNegative(s.lost, OfBatchDaily(w));
    forall i | 0 <= i < |s.purgedDaily|
      ensures OfMap(w)(s.purgedDaily[i]) >= 0
    {
      SumNonNegative(s.purgedDaily[i], w);
    }
    SumSeqNonNegative(s.purgedDaily, OfMap(w));
  }

  lemma LatencyWeightsNonNegative(s: State, w: DailyWeight, v: LatencyWeight)
    requires LatencyOk(s, v) && Positive(w, v)
    ensures Sum(s.latency, v) >= 0 && SumSeq(s.betweenLocks, OfEventLatency(v)) >= 0
    ensures SumSeq(s.inFlight, OfBatchLatency(v)) >= 0
    ensures SumSeq(s.lost, OfBatchLatency(v)) >= 0 && SumSeq(s.purgedLatency, OfMap(v)) >= 0
  {
    SumNonNegative(s.latency, v);
    SumSeqNonNegative(s.betweenLocks, OfEventLatency(v));
    forall i | 0 <= i < |s.inFlight|
      ensures OfBatchLatency(v)(s.inFlight[i]) >= 0
    {
      EntriesNonNegative(s.inFlight[i].latency, v);
    }
    SumSeqNonNegative(s.inFlight, OfBatchLatency(v));
    forall i | 0 <= i < |s.lost|
      ensures OfBatchLatency(v)(s.lost[i]) >= 0
    {
      EntriesNonNegative(s.lost[i].latency, v);
    }
    SumSeqNonNegative(s.lost, OfBatchLatency(v));
    forall i | 0 <= i < |s.purgedLatency|
      ensures OfMap(v)(s.purgedLatency[i]) >= 0
    {
      SumNonNegative(s.purgedLatency[i], v);
    }
    SumSeqNonNegative(s.purgedLatency, OfMap(v));
  }

  /** In every reachable state, failed flushes, crashes and purges included, neither table holds more
      than was recorded, counted in any additive way that counts no event negatively. */
  lemma TablesNeverOvercount(steps: seq<Step>, s: State, w: DailyWeight, v: LatencyWeight)
    requires Leads(EMPTY, steps, s) && Additive(w, PlusCounters) && Additive(v, PlusInt) && Positive(w, v)
    ensures Sum(s.dailyTable, w) <= SumSeq(s.log, OfEventDaily(w))
    ensures Sum(s.latencyTable, v) <= SumSeq(s.log, OfEventLatency(v))
  {
    hide Sum, SumSeq, Leads, Positive, Additive;
    EveryRunConserves(steps, s, w, v);
    RunsKeepOk(EMPTY, steps, s, w, v);
    DailyWeightsNonNegative(s, w);
    LatencyWeightsNonNegative(s, w, v);
  }

  // ---- Daily against latency -------------------------------------------------------------------

  ghost function RequestsOn(day: string, tenant: string): DailyWeight {
    (k: DailyKey, c: DailyCounters) => if k.day == day && k.tenantId == tenant then c.requestCount else 0
  }

  ghost function LatenciesOn(day: string, tenant: string): LatencyWeight {
    (k: LatencyKey, n: int) => if k.day == day && k.tenantId == tenant then n else 0
  }

  function EventsOn(events: seq<Event>, day: string, tenant: string): nat {
    if events == [] then 0
    else (if events[0].day == day && events[0].tenantId == tenant then 1 else 0) + EventsOn(events[1..], day, tenant)
  }

  lemma {:induction false} EventsByDay(events: seq<Event>, day: string, tenant: string)
    ensures SumSeq(events, OfEventDaily(RequestsOn(day, tenant))) == EventsOn(events, day, tenant)
    ensures SumSeq(events, OfEventLatency(LatenciesOn(day, tenant))) == EventsOn(events, day, tenant)
  {
    if events != [] {
      EventsByDay(events[1..], day, tenant);
      var (e, w, v) := (events[0], RequestsOn(day, tenant), LatenciesOn(day, tenant));
      assert OfEventDaily(w)(e) == w(DailyKeyOf(e), CountersOf(e));
      assert OfEventLatency(v)(e) == v(LatencyKeyOf(e), 1);
    }
  }

  /** No lost batch and no purge held anything of the day. */
  predicate DayKept(s: State, day: string) {
    && (forall i, j :: 0 <= i < |s.lost| && 0 <= j < |s.lost[i].daily| ==> s.lost[i].daily[j].0.day != day)
    && (forall i, j :: 0 <= i < |s.lost| && 0 <= j < |s.lost[i].latency| ==> s.lost[i].latency[j].0.day != day)
    && (forall i, k :: 0 <= i < |s.purgedDaily| && k in s.purgedDaily[i] ==> k.day != day)
    && (forall i, k :: 0 <= i < |s.purgedLatency| && k in s.purgedLatency[i] ==> k.day != day)
  }

  /** In every reachable state a day and tenant's daily and latency totals, with what was lost or
      purged of them, differ by exactly the records that are between their two locks; the live totals
      alone do as long as nothing of that day was lost or purged. */
  lemma TotalsDifferByOpenRecords(steps: seq<Step>, s: State, day: string, tenant: string)
    requires Leads(EMPTY, steps, s)
    ensures var (w, v) := (RequestsOn(day, tenant), LatenciesOn(day, tenant));
            && DailyLive(s, w) + DailyGone(s, w) ==
               LatencyLive(s, v) + LatencyGone(s, v) + EventsOn(s.betweenLocks, day, tenant)
            && (DayKept(s, day) ==> DailyLive(s, w) == LatencyLive(s, v) + EventsOn(s.betweenLocks, day, tenant))
  {
    var (w, v) := (RequestsOn(day, tenant), LatenciesOn(day, tenant));
    EmptyConserves(w, v);
    RunsConserve(EMPTY, steps, s, w, v);
    EventsByDay(s.log, day, tenant);
    EventsByDay(s.betweenLocks, day, tenant);
    if DayKept(s, day) {
      DailyGoneNothing(s, w);
      LatencyGoneNothing(s, v);
    }
    hide DailyLive, LatencyLive, DailyGone, LatencyGone, Leads;
  }
}
