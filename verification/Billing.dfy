/** The layers around the spell-check handlers (`src/handlers.rs`, `build_app` and `record_usage`;
    the gates of `src/auth.rs`) and what they charge. Any number of requests pass the layers
    concurrently, while the store, the usage buffer and its tables change around them. */
module Billing {
  import opened Prelude
  import opened StoreRows
  import opened MapSums
  import opened UsageRecorder
  import U = UsageFlow
  import M = StoreMachine
  import K = KeyStore
  import T = TenantStore
  import O = OriginStore
  import R = RateLimiting
  import Cidr

  datatype Layer = RecordUsage | RequireQuota | RequireOriginBinding | RequireActiveTenant | RequireActiveKey

  /** The calls of `route_layer` on the spell-check routes, in the order they are written. */
  const ADDED: seq<Layer> := [RecordUsage, RequireQuota, RequireOriginBinding, RequireActiveTenant, RequireActiveKey]

  /** The layer a request meets in position `i`: the last one added comes first. */
  function LayerAt(i: nat): Layer
    requires i < |ADDED|
  {
    ADDED[|ADDED| - 1 - i]
  }

  datatype OriginHeader = NoOrigin | NotText | Text(origin: string)

  /** A request: where it comes from, the hash of the key it shows and its `Origin` header. */
  datatype Request = Request(ip: Cidr.IpAddr, keyHash: Option<string>, origin: OriginHeader)

  datatype Refusal = RateLimited(retryAfterSecs: nat) | Unauthorized | Forbidden | QuotaExceeded

  /** Where a request stands. `charged` is the tenant whose quota it has used; `tenant` is the one
      `record_usage` read from the key record before it called the handler. */
  datatype Stage =
    | At(layer: nat, record: Option<KeyRecord>, charged: Option<string>)
    | InHandler(tenant: string, charged: Option<string>)
    | Answered(charged: Option<string>)
    | Aborted(charged: Option<string>)
    | Refused(refusal: Refusal, charged: Option<string>)
    | Panicked(charged: Option<string>)

  datatype Entry = Entry(request: Request, stage: Stage)

  datatype State = State(store: M.State, usage: U.State, windows: R.Windows, requests: map<nat, Entry>)

  datatype Step =
    | Arrive(id: nat, request: Request)
    | Enter(id: nat, now: Clock, instant: nat)
    | Finish(id: nat, event: Event)
    | Abort(id: nat)
    | Elsewhere(storeStep: M.Step)
    | Usage(usageStep: U.Step)

  const NANOS_PER_SECOND := 1_000_000_000

  function RetryAfter(remaining: nat): nat {
    var secs := remaining / NANOS_PER_SECOND;
    if secs < 1 then 1 else secs
  }

  // ---- The layers --------------------------------------------------------------------------

  datatype Outcome = Outcome(store: M.State, windows: R.Windows, stage: Stage)

  /** `require_active_key`. */
  ghost function ActiveKey(c: R.Config, s: State, q: Request, here: Stage, now: Clock, instant: nat): Outcome
    requires here.At?
  {
    var failed := s.windows[q.ip := R.Fail(c, R.WindowOf(s.windows, q.ip), instant)];
    match R.Remaining(R.WindowOf(s.windows, q.ip), instant)
    case Some(remaining) => Outcome(s.store, s.windows, Refused(RateLimited(RetryAfter(remaining)), here.charged))
    case None =>
      match q.keyHash
      case None => Outcome(s.store, failed, Refused(Unauthorized, here.charged))
      case Some(hash) =>
        var (keys, found) := K.Authenticate(s.store.keys, hash, now);
        match found
        case None => Outcome(s.store.(keys := keys), failed, Refused(Unauthorized, here.charged))
        case Some(record) =>
          Outcome(s.store.(keys := K.Touch(keys, record.id, now)), s.windows, At(here.layer + 1, Some(record), here.charged))
  }

  /** The tenant a layer reads from the key record; without one the source's `expect` panics. */
  function TenantOf(record: Option<KeyRecord>): Option<string> { if record.Some? then record.value.tenantId else None }

  /** `require_active_tenant`. A tenant that does not exist counts as active. */
  function ActiveTenant(s: State, here: Stage): Stage
    requires here.At?
  {
    match TenantOf(here.record)
    case None => Panicked(here.charged)
    case Some(t) =>
      if t in s.store.tenants.cache && s.store.tenants.cache[t].suspendedAt.Some? then Refused(Forbidden, here.charged)
      else here.(layer := here.layer + 1)
  }

  /** `require_origin_binding`. */
  function OriginBinding(s: State, q: Request, here: Stage): Stage
    requires here.At?
  {
    match q.origin
    case NoOrigin => here.(layer := here.layer + 1)
    case NotText => Refused(Forbidden, here.charged)
    case Text(origin) =>
      match TenantOf(here.record)
      case None => Panicked(here.charged)
      case Some(t) =>
        if !O.Owns(s.store.origins.byTenant, t, origin) then Refused(Forbidden, here.charged)
        else here.(layer := here.layer + 1)
  }

  /** `require_quota`. */
  function Quota(s: State, here: Stage): (T.TenantCache, Stage)
    requires here.At?
  {
    match TenantOf(here.record)
    case None => (s.store.tenants.cache, Panicked(here.charged))
    case Some(t) =>
      var (cache, admitted) := T.TryConsume(s.store.tenants.cache, t);
      (cache, if admitted then At(here.layer + 1, here.record, Some(t)) else Refused(QuotaExceeded, here.charged))
  }

  /** `record_usage` up to its call of the handler: the tenant comes from the key record again. */
  function UsageRecording(here: Stage): Stage
    requires here.At?
  {
    match TenantOf(here.record)
    case None => Panicked(here.charged)
    case Some(t) => InHandler(t, here.charged)
  }

  /** One layer, up to the point where it calls the next one. */
  ghost function Through(c: R.Config, s: State, q: Request, here: Stage, now: Clock, instant: nat): Outcome
    requires here.At? && here.layer < |ADDED|
  {
    match LayerAt(here.layer)
    case RequireActiveKey => ActiveKey(c, s, q, here, now, instant)
    case RequireActiveTenant => Outcome(s.store, s.windows, ActiveTenant(s, here))
    case RequireOriginBinding => Outcome(s.store, s.windows, OriginBinding(s, q, here))
    case RequireQuota =>
      var (cache, stage) := Quota(s, here);
      Outcome(s.store.(tenants := s.store.tenants.(cache := cache)), s.windows, stage)
    case RecordUsage => Outcome(s.store, s.windows, UsageRecording(here))
  }

  // ---- Runs ----------------------------------------------------------------------------------

  /** A request that has not ended. */
  predicate Open(stage: Stage) { stage.At? || stage.InHandler? }

  ghost predicate Enabled(s: State, step: Step) {
    match step
    case Arrive(id, _) => id !in s.requests
    case Enter(id, _, _) => id in s.requests && s.requests[id].stage.At? && s.requests[id].stage.layer < |ADDED|
    case Finish(id, e) =>
      id in s.requests && s.requests[id].stage.InHandler? && s.requests[id].stage.tenant == e.tenantId
    case Abort(id) => id in s.requests && Open(s.requests[id].stage)
    case Elsewhere(step) => M.Enabled(s.store, step) && !step.TryConsumeQuota?
    case Usage(step) => U.Enabled(s.usage, step) && !step.BeginRecord? && !step.Crash?
  }

  function Moved(s: State, id: nat, stage: Stage): map<nat, Entry>
    requires id in s.requests
  {
    s.requests[id := s.requests[id].(stage := stage)]
  }

  /** Finishing is the handler's answer and the first lock of `record`; the second one is a step of
      the usage buffer. A request aborts when its client goes away or its handler panics. */
  ghost function Next(c: R.Config, s: State, step: Step): State
    requires Enabled(s, step)
  {
    match step
    case Arrive(id, q) => s.(requests := s.requests[id := Entry(q, At(0, None, None))])
    case Enter(id, now, instant) =>
      var o := Through(c, s, s.requests[id].request, s.requests[id].stage, now, instant);
      State(o.store, s.usage, o.windows, Moved(s, id, o.stage))
    case Finish(id, e) =>
      s.(usage := U.Next(s.usage, U.BeginRecord(e)), requests := Moved(s, id, Answered(s.requests[id].stage.charged)))
    case Abort(id) => s.(requests := Moved(s, id, Aborted(s.requests[id].stage.charged)))
    case Elsewhere(step) => s.(store := M.Next(s.store, step))
    case Usage(step) => s.(usage := U.Next(s.usage, step))
  }

  ghost predicate Leads(c: R.Config, s: State, steps: seq<Step>, t: State)
    decreases |steps|
  {
    if steps == [] then s == t else Enabled(s, steps[0]) && Leads(c, Next(c, s, steps[0]), steps[1..], t)
  }

  /** A server just started, on whatever store and usage tables it finds. */
  predicate IsStart(s: State) { s.windows == map[] && s.requests == map[] }

  // ---- What is counted --------------------------------------------------------------------------

  type EntryWeight = (nat, Entry) -> int

  /** Requests that used the tenant's quota, by where they stand. */
  ghost function ChargedTo(t: string): EntryWeight { (k: nat, e: Entry) => if e.stage.charged == Some(t) then 1 else 0 }
  ghost function OpenOf(t: string): EntryWeight {
    (k: nat, e: Entry) => if e.stage.charged == Some(t) && Open(e.stage) then 1 else 0
  }
  ghost function AbortedOf(t: string): EntryWeight {
    (k: nat, e: Entry) => if e.stage.charged == Some(t) && e.stage.Aborted? then 1 else 0
  }

  /** Recorded requests of the tenant. */
  ghost function RequestsOf(t: string): U.DailyWeight {
    (k: DailyKey, c: DailyCounters) => if k.tenantId == t then c.requestCount else 0
  }

  ghost function Recorded(s: State, t: string): int { SumSeq(s.usage.log, U.OfEventDaily(RequestsOf(t))) }

  // ---- The layer order ------------------------------------------------------------------------------

  /** A request is charged by the quota layer and not before; once past the tenant layer it has a
      tenant, and from the quota layer on it is charged to that tenant. */
  predicate WellCharged(stage: Stage) {
    match stage
    case At(l, record, charged) =>
      && (l <= 3 ==> charged.None?) && (2 <= l ==> TenantOf(record).Some?)
      && (l == 4 ==> charged == TenantOf(record)) && l <= 4
    case InHandler(tenant, charged) => charged == Some(tenant)
    case Answered(charged) => charged.Some?
    case Aborted(_) => true
    case Refused(_, charged) => charged.None?
    case Panicked(charged) => charged.None?
  }

  ghost predicate AllWellCharged(s: State) { forall id :: id in s.requests ==> WellCharged(s.requests[id].stage) }

  lemma LayerOrder()
    ensures LayerAt(0) == RequireActiveKey && LayerAt(1) == RequireActiveTenant && LayerAt(2) == RequireOriginBinding
    ensures LayerAt(3) == RequireQuota && LayerAt(4) == RecordUsage && |ADDED| == 5
  {
  }

  /** A layer charges a tenant exactly when it is the quota layer and admits; whatever refuses or
      panics leaves the request uncharged and every tenant's count alone. */
  lemma ThroughCharges(c: R.Config, s: State, q: Request, here: Stage, now: Clock, instant: nat)
    requires here.At? && here.layer < |ADDED| && WellCharged(here)
    ensures var o := Through(c, s, q, here, now, instant);
            && WellCharged(o.stage) && (o.stage.At? || o.stage.InHandler? || o.stage.Refused? || o.stage.Panicked?)
            && o.store.tenants.table == s.store.tenants.table
            && if o.stage.charged == here.charged then o.store.tenants.cache == s.store.tenants.cache
               else here.charged.None? && o.stage.charged.Some?
                    && T.TryConsume(s.store.tenants.cache, o.stage.charged.value) == (o.store.tenants.cache, true)
  {
    LayerOrder();
    hide K.Authenticate, K.Touch, R.Fail, R.Remaining, O.Owns;
  }

  // ---- Charged and recorded -----------------------------------------------------------------------------

  /** Every charge of the tenant is recorded, still on its way through the handler, or aborted;
      `before` requests were recorded before this server started. */
  ghost predicate Accounted(s: State, t: string, before: int) {
    before + Sum(s.requests, ChargedTo(t)) == Recorded(s, t) + Sum(s.requests, OpenOf(t)) + Sum(s.requests, AbortedOf(t))
  }

  lemma MoveCounts(s: State, id: nat, stage: Stage, w: EntryWeight)
    requires id in s.requests
    ensures Sum(Moved(s, id, stage), w) ==
            Sum(s.requests, w) + w(id, s.requests[id].(stage := stage)) - w(id, s.requests[id])
  {
    SumUpdate(s.requests, id, s.requests[id].(stage := stage), w);
  }

  lemma LogIsKept(s: U.State, step: U.Step)
    requires U.Enabled(s, step) && !step.BeginRecord?
    ensures U.Next(s, step).log == s.log
  {
    hide UpsertAll;
  }

  lemma StepAccounts(c: R.Config, s: State, step: Step, t: string, before: int)
    requires Enabled(s, step) && AllWellCharged(s) && Accounted(s, t, before)
    ensures AllWellCharged(Next(c, s, step)) && Accounted(Next(c, s, step), t, before)
  {
    hide Sum, SumSeq, M.Next, M.Enabled, U.Enabled, Through;
    match step {
      case Arrive(id, q) =>
        SumUpdate(s.requests, id, Entry(q, At(0, None, None)), ChargedTo(t));
        SumUpdate(s.requests, id, Entry(q, At(0, None, None)), OpenOf(t));
        SumUpdate(s.requests, id, Entry(q, At(0, None, None)), AbortedOf(t));
      case Enter(id, now, instant) =>
        var e := s.requests[id];
        ThroughCharges(c, s, e.request, e.stage, now, instant);
        var stage := Through(c, s, e.request, e.stage, now, instant).stage;
        MoveCounts(s, id, stage, ChargedTo(t));
        MoveCounts(s, id, stage, OpenOf(t));
        MoveCounts(s, id, stage, AbortedOf(t));
      case Finish(id, e) =>
        var stage := Answered(s.requests[id].stage.charged);
        MoveCounts(s, id, stage, ChargedTo(t));
        MoveCounts(s, id, stage, OpenOf(t));
        MoveCounts(s, id, stage, AbortedOf(t));
        SumSeqAppend(s.usage.log, e, U.OfEventDaily(RequestsOf(t)));
        assert U.OfEventDaily(RequestsOf(t))(e) == RequestsOf(t)(DailyKeyOf(e), CountersOf(e));
        assert U.OfEventDaily(RequestsOf(t))(e) == if e.tenantId == t then 1 else 0;
      case Abort(id) =>
        var stage := Aborted(s.requests[id].stage.charged);
        MoveCounts(s, id, stage, ChargedTo(t));
        MoveCounts(s, id, stage, OpenOf(t));
        MoveCounts(s, id, stage, AbortedOf(t));
      case Elsewhere(_) =>
      case Usage(step) => LogIsKept(s.usage, step);
    }
  }

  lemma {:induction false} RunsAccount(c: R.Config, s: State, steps: seq<Step>, end: State, t: string, before: int)
    requires Leads(c, s, steps, end) && AllWellCharged(s) && Accounted(s, t, before)
    ensures AllWellCharged(end) && Accounted(end, t, before)
    decreases |steps|
  {
    hide Next, Enabled, AllWellCharged, Accounted;
    if steps != [] {
      StepAccounts(c, s, steps[0], t, before);
      RunsAccount(c, Next(c, s, steps[0]), steps[1..], end, t, before);
    }
  }

  lemma StartAccounts(s: State, t: string)
    requires IsStart(s)
    ensures AllWellCharged(s) && Accounted(s, t, Recorded(s, t))
  {
    U.SumEmpty(ChargedTo(t));
    U.SumEmpty(OpenOf(t));
    U.SumEmpty(AbortedOf(t));
  }

  /** In every run of concurrent requests, each tenant's successful quota consumptions are its
      recorded requests plus those still on the way through the handler and those aborted there. */
  lemma ConsumedIsRecorded(c: R.Config, start: State, steps: seq<Step>, end: State, t: string)
    requires IsStart(start) && Leads(c, start, steps, end)
    ensures Sum(end.requests, ChargedTo(t)) ==
            Recorded(end, t) - Recorded(start, t) + Sum(end.requests, OpenOf(t)) + Sum(end.requests, AbortedOf(t))
  {
    StartAccounts(start, t);
    RunsAccount(c, start, steps, end, t, Recorded(start, t));
  }

  /** A request that a layer refuses, or whose layer panics, has used no quota and left no record. */
  lemma RefusalIsFree(c: R.Config, start: State, steps: seq<Step>, s: State, id: nat, now: Clock, instant: nat)
    requires IsStart(start) && Leads(c, start, steps, s) && Enabled(s, Enter(id, now, instant))
    ensures var t := Next(c, s, Enter(id, now, instant));
            t.requests[id].stage.Refused? || t.requests[id].stage.Panicked? ==>
              t.store.tenants == s.store.tenants && t.usage == s.usage && t.requests[id].stage.charged.None?
  {
    hide Through, Leads, Accounted, T.TryConsume;
    StartAccounts(start, "");
    RunsAccount(c, start, steps, s, "", Recorded(start, ""));
    var e := s.requests[id];
    ThroughCharges(c, s, e.request, e.stage, now, instant);
  }

  /** In every reachable state the tenant `record_usage` will record is the one that was charged. */
  lemma RecordedTenantIsCharged(c: R.Config, start: State, steps: seq<Step>, s: State, id: nat)
    requires IsStart(start) && Leads(c, start, steps, s) && id in s.requests
    ensures s.requests[id].stage.InHandler? ==> s.requests[id].stage.charged == Some(s.requests[id].stage.tenant)
  {
    hide Leads, Accounted;
    StartAccounts(start, "");
    RunsAccount(c, start, steps, s, "", Recorded(start, ""));
  }

  // ---- Charges and the tenant's count -------------------------------------------------------------------

  /** No `update_tenant` elsewhere sets a request count. */
  predicate Unpatched(step: Step) {
    step.Elsewhere? && step.storeStep.UpdateTenant? ==> step.storeStep.patch.requestCount.None?
  }

  function BaseCount(start: T.TenantCache, t: string): nat { if t in start then start[t].requestCount else 0 }

  /** Each tenant's count is what it started with plus its charges. */
  ghost predicate Counted(start: T.TenantCache, s: State) {
    && M.Inv(s.store)
    && (forall id :: id in s.requests && s.requests[id].stage.charged.Some? ==>
          s.requests[id].stage.charged.value in s.store.tenants.cache)
    && (forall t :: t in start ==> t in s.store.tenants.cache)
    && (forall t :: t in s.store.tenants.cache ==>
          s.store.tenants.cache[t].requestCount == BaseCount(start, t) + Sum(s.requests, ChargedTo(t)))
  }

  /** Every tenant keeps its count; a new one starts at zero. */
  ghost predicate KeepsCounts(before: T.TenantCache, after: T.TenantCache) {
    && (forall t :: t in before ==> t in after && after[t].requestCount == before[t].requestCount)
    && (forall t :: t in after && t !in before ==> after[t].requestCount == 0)
  }

  lemma StoreKeepsCounts(m: M.State, step: M.Step)
    requires m.tenants.table.Keys == m.tenants.cache.Keys && M.Enabled(m, step) && !step.TryConsumeQuota?
    requires step.UpdateTenant? ==> step.patch.requestCount.None?
    ensures KeepsCounts(m.tenants.cache, M.Next(m, step).tenants.cache)
  {
    hide M.IsNewKey, K.Revoke, K.Rotate, K.ResetBootstrap, K.Authenticate, K.Touch, K.LandTouch, K.Create,
      O.Register, O.Revoke, BindTenant, T.WriteSnapshot;
  }

  /** What a layer does to the store is what the store's own operations do. */
  lemma ThroughKeepsInv(c: R.Config, s: State, q: Request, here: Stage, now: Clock, instant: nat)
    requires here.At? && here.layer < |ADDED| && M.Inv(s.store)
    ensures M.Inv(Through(c, s, q, here, now, instant).store)
  {
    hide M.Inv, K.Authenticate, K.Touch, T.TryConsume, R.Fail, R.Remaining, O.Owns;
    LayerOrder();
    match LayerAt(here.layer) {
      case RequireActiveKey =>
        if q.keyHash.Some? {
          var m := M.Next(s.store, M.Authenticate(q.keyHash.value, now));
          M.StepKeepsInv(s.store, M.Authenticate(q.keyHash.value, now));
          match K.Authenticate(s.store.keys, q.keyHash.value, now).1 {
            case Some(record) => M.StepKeepsInv(m, M.TouchLastUsed(record.id, now));
            case None =>
          }
        }
      case RequireQuota =>
        match TenantOf(here.record) {
          case Some(t) => M.StepKeepsInv(s.store, M.TryConsumeQuota(t));
          case None =>
        }
      case _ =>
    }
  }

  /** A successful call adds one to the tenant's count and leaves the others. */
  lemma ConsumeCounts(cache: T.TenantCache, t: string)
    ensures var (after, ok) := T.TryConsume(cache, t);
            ok ==> && t in cache && after.Keys == cache.Keys
                   && after[t].requestCount == cache[t].requestCount + 1
                   && forall x :: x in cache && x != t ==> after[x] == cache[x]
  {
  }

  /** A request moves on, and the store with it: either no charge and the caches of the tenants as
      they were, or one charge counted. */
  lemma MoveIsCounted(start: T.TenantCache, s: State, id: nat, stage: Stage, store: M.State, windows: R.Windows)
    requires Counted(start, s) && id in s.requests && M.Inv(store)
    requires stage.charged == s.requests[id].stage.charged ==> store.tenants.cache == s.store.tenants.cache
    requires stage.charged != s.requests[id].stage.charged ==>
               s.requests[id].stage.charged.None? && stage.charged.Some?
               && T.TryConsume(s.store.tenants.cache, stage.charged.value) == (store.tenants.cache, true)
    ensures Counted(start, State(store, s.usage, windows, Moved(s, id, stage)))
  {
    hide Sum, M.Inv, T.TryConsume;
    if stage.charged.Some? {
      ConsumeCounts(s.store.tenants.cache, stage.charged.value);
    }
    forall t {
      MoveCounts(s, id, stage, ChargedTo(t));
    }
  }

  lemma EnterCounts(c: R.Config, start: T.TenantCache, s: State, id: nat, now: Clock, instant: nat)
    requires Enabled(s, Enter(id, now, instant)) && AllWellCharged(s) && Counted(start, s)
    ensures Counted(start, Next(c, s, Enter(id, now, instant)))
  {
    hide Sum, M.Inv, Through, T.TryConsume;
    var e := s.requests[id];
    ThroughCharges(c, s, e.request, e.stage, now, instant);
    ThroughKeepsInv(c, s, e.request, e.stage, now, instant);
    var o := Through(c, s, e.request, e.stage, now, instant);
    MoveIsCounted(start, s, id, o.stage, o.store, o.windows);
  }

  lemma ElsewhereCounts(c: R.Config, start: T.TenantCache, s: State, step: M.Step)
    requires Enabled(s, Elsewhere(step)) && Counted(start, s) && Unpatched(Elsewhere(step))
    ensures Counted(start, Next(c, s, Elsewhere(step)))
  {
    hide Sum, M.Inv, M.Next, M.Enabled;
    M.StepKeepsInv(s.store, step);
    M.TenantKeys(s.store);
    StoreKeepsCounts(s.store, step);
    forall t | t !in s.store.tenants.cache
      ensures Sum(s.requests, ChargedTo(t)) == 0
    {
      SumZero(s.requests, ChargedTo(t));
    }
  }

  lemma SameCounts(start: T.TenantCache, s: State, t: State)
    requires Counted(start, s) && t.store == s.store && t.requests == s.requests
    ensures Counted(start, t)
  {
    hide Sum, M.Inv;
  }

  lemma ArrivalCounts(start: T.TenantCache, s: State, id: nat, q: Request)
    requires Counted(start, s) && id !in s.requests
    ensures Counted(start, s.(requests := s.requests[id := Entry(q, At(0, None, None))]))
  {
    hide Sum, M.Inv;
    forall t {
      SumUpdate(s.requests, id, Entry(q, At(0, None, None)), ChargedTo(t));
    }
  }

  lemma StoreIsGood(start: T.TenantCache, s: State)
    requires Counted(start, s)
    ensures M.Inv(s.store)
  {
    hide Sum, M.Inv;
  }

  lemma StepCounts(c: R.Config, start: T.TenantCache, s: State, step: Step)
    requires Enabled(s, step) && AllWellCharged(s) && Counted(start, s) && Unpatched(step)
    ensures Counted(start, Next(c, s, step))
  {
    hide Counted, AllWellCharged, M.Inv, Through, M.Next, M.Enabled, U.Next, U.Enabled;
    StoreIsGood(start, s);
    match step {
      case Enter(id, now, instant) => EnterCounts(c, start, s, id, now, instant);
      case Elsewhere(step) => ElsewhereCounts(c, start, s, step);
      case Arrive(id, q) => ArrivalCounts(start, s, id, q);
      case Finish(id, e) =>
        MoveIsCounted(start, s, id, Answered(s.requests[id].stage.charged), s.store, s.windows);
        SameCounts(start, s.(requests := Moved(s, id, Answered(s.requests[id].stage.charged))), Next(c, s, step));
      case Abort(id) => MoveIsCounted(start, s, id, Aborted(s.requests[id].stage.charged), s.store, s.windows);
      case Usage(_) => SameCounts(start, s, Next(c, s, step));
    }
  }

  lemma {:induction false} RunsCount(c: R.Config, start: T.TenantCache, s: State, steps: seq<Step>, end: State, before: int)
    requires Leads(c, s, steps, end) && AllWellCharged(s) && Accounted(s, "", before) && Counted(start, s)
    requires forall i :: 0 <= i < |steps| ==> Unpatched(steps[i])
    ensures Counted(start, end)
    decreases |steps|
  {
    hide Next, Enabled, AllWellCharged, Accounted, Counted, Unpatched;
    if steps != [] {
      StepAccounts(c, s, steps[0], "", before);
      StepCounts(c, start, s, steps[0]);
      RunsCount(c, start, Next(c, s, steps[0]), steps[1..], end, before);
    }
  }

  // ---- From the tenant's count to the usage table --------------------------------------------------------

  lemma UsageConserves(c: R.Config, s: State, step: Step, w: U.DailyWeight)
    requires Enabled(s, step) && Additive(w, PlusCounters)
    ensures U.DailyBalance(Next(c, s, step).usage, w) == U.DailyBalance(s.usage, w)
  {
    hide U.DailyBalance, U.Next, U.Enabled, M.Next, M.Enabled, Through;
    match step {
      case Finish(_, e) =>
        assert U.Enabled(s.usage, U.BeginRecord(e)) by { Beginning(s.usage, e); }
        U.StepConservesDaily(s.usage, U.BeginRecord(e), w);
      case Usage(step) => U.StepConservesDaily(s.usage, step, w);
      case _ =>
    }
  }

  lemma Beginning(s: U.State, e: Event)
    ensures U.Enabled(s, U.BeginRecord(e))
  {
  }

  lemma {:induction false} RunsConserveUsage(c: R.Config, s: State, steps: seq<Step>, end: State, w: U.DailyWeight)
    requires Leads(c, s, steps, end) && Additive(w, PlusCounters)
    ensures U.DailyBalance(end.usage, w) == U.DailyBalance(s.usage, w)
    decreases |steps|
  {
    hide Next, Enabled, U.DailyBalance;
    if steps != [] {
      UsageConserves(c, s, steps[0], w);
      RunsConserveUsage(c, Next(c, s, steps[0]), steps[1..], end, w);
    }
  }

  /** All of a tenant's requests that the usage rollup accounts for: in the table, buffered, half
      drained, in flight, lost with a failed batch, or purged. */
  ghost function RolledUp(u: U.State, t: string): int { U.DailyLive(u, RequestsOf(t)) + U.DailyGone(u, RequestsOf(t)) }

  /** Without count patches, what a tenant's count has grown by since the server started is what its
      rollup has grown by, plus the requests still in their handler or aborted there. */
  lemma CountIsUsage(c: R.Config, start: State, steps: seq<Step>, end: State, t: string)
    requires IsStart(start) && M.Inv(start.store) && Leads(c, start, steps, end)
    requires forall i :: 0 <= i < |steps| ==> Unpatched(steps[i])
    requires t in end.store.tenants.cache
    ensures end.store.tenants.cache[t].requestCount - BaseCount(start.store.tenants.cache, t) ==
            RolledUp(end.usage, t) - RolledUp(start.usage, t)
            + Sum(end.requests, OpenOf(t)) + Sum(end.requests, AbortedOf(t))
  {
    hide Sum, SumSeq, M.Inv, Leads, U.DailyLive, U.DailyGone;
    forall x {
      U.SumEmpty(ChargedTo(x));
    }
    StartAccounts(start, "");
    RunsCount(c, start.store.tenants.cache, start, steps, end, Recorded(start, ""));
    ConsumedIsRecorded(c, start, steps, end, t);
    RunsConserveUsage(c, start, steps, end, RequestsOf(t));
  }
}
