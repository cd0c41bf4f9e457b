/** The layers of the spell-check routes as they run, over a live `Store`, `RateLimiter` and
    `Recorder` (`src/auth.rs`, `src/handlers.rs`). Each does to the store what `Billing` says. */
module Gates {
  import opened Prelude
  import opened StoreRows
  import opened Billing
  import opened Vetting
  import opened UsageRecorder
  import U = UsageFlow
  import M = StoreMachine
  import K = KeyStore
  import T = TenantStore
  import O = OriginStore
  import R = RateLimiting
  import S = Store

  /** What a layer sees of the whole server. */
  ghost function Seen(store: M.State, windows: R.Windows): State { State(store, U.EMPTY, windows, map[]) }

  method RequireActiveKey(store: S.Store, limiter: R.RateLimiter, q: Request, here: Stage, now: Clock, instant: nat)
    returns (stage: Stage)
    requires here.At? && store.Valid()
    modifies store, limiter
    ensures store.Valid()
    ensures Outcome(store.State(), limiter.windows, stage) ==
            ActiveKey(limiter.config, Seen(old(store.State()), old(limiter.windows)), q, here, now, instant)
    ensures KeyOutcome(limiter.config, old(store.State()), old(limiter.windows), q, here, now, instant,
                       store.keys, limiter.windows, stage)
    ensures store.tenants == old(store.tenants) && store.originTable == old(store.originTable)
  {
    hide M.Inv, K.Authenticate, K.Touch, R.Fail, KeyOutcome;
    ActiveKeyExactly(limiter.config, Seen(store.State(), limiter.windows), q, here, now, instant);
    var remaining := limiter.Check(q.ip, instant);
    if remaining.Some? {
      return Refused(RateLimited(RetryAfter(remaining.value)), here.charged);
    }
    if q.keyHash.None? {
      limiter.RecordFailure(q.ip, instant);
      return Refused(Unauthorized, here.charged);
    }
    var record := store.Authenticate(q.keyHash.value, now);
    if record.None? {
      limiter.RecordFailure(q.ip, instant);
      return Refused(Unauthorized, here.charged);
    }
    store.TouchLastUsed(record.value.id, now);
    return At(here.layer + 1, record, here.charged);
  }

  method RequireActiveTenant(store: S.Store, here: Stage) returns (stage: Stage)
    requires here.At?
    ensures stage == ActiveTenant(Seen(store.State(), map[]), here)
    ensures stage == if here.record.None? || here.record.value.tenantId.None? then Panicked(here.charged)
                     else
                       var t := here.record.value.tenantId.value;
                       if t in store.tenants && store.tenants[t].suspendedAt.Some? then Refused(Forbidden, here.charged)
                       else At(here.layer + 1, here.record, here.charged)
  {
    var tenantId := TenantOf(here.record);
    if tenantId.None? {
      return Panicked(here.charged);
    }
    var suspended := tenantId.value in store.tenants && store.tenants[tenantId.value].suspendedAt.Some?;
    if suspended {
      return Refused(Forbidden, here.charged);
    }
    return here.(layer := here.layer + 1);
  }

  method RequireOriginBinding(store: S.Store, q: Request, here: Stage) returns (stage: Stage)
    requires here.At? && store.Valid()
    ensures stage == OriginBinding(Seen(store.State(), map[]), q, here)
    ensures here.record.Some? && here.record.value.tenantId.Some? ==>
              stage == if OriginAllowed(store.originTable, q.origin, here.record.value.tenantId.value)
                       then At(here.layer + 1, here.record, here.charged) else Refused(Forbidden, here.charged)
  {
    hide M.Inv;
    if !q.origin.NoOrigin? {
      if q.origin.NotText? {
        return Refused(Forbidden, here.charged);
      }
      var tenantId := TenantOf(here.record);
      if tenantId.None? {
        return Panicked(here.charged);
      }
      var owns := store.TenantOwnsOrigin(tenantId.value, q.origin.origin);
      if !owns {
        return Refused(Forbidden, here.charged);
      }
    }
    return here.(layer := here.layer + 1);
  }

  method RequireQuota(store: S.Store, here: Stage) returns (stage: Stage)
    requires here.At? && store.Valid()
    modifies store
    ensures store.Valid()
    ensures var (cache, stage') := Quota(Seen(old(store.State()), map[]), here);
            stage == stage' && store.State() == old(store.State()).(tenants := old(store.State()).tenants.(cache := cache))
    ensures here.record.Some? && here.record.value.tenantId.Some? ==>
              stage == if HasQuota(old(store.tenants), here.record.value.tenantId.value)
                       then At(here.layer + 1, here.record, here.record.value.tenantId)
                       else Refused(QuotaExceeded, here.charged)
  {
    hide M.Inv, T.TryConsume;
    var tenantId := TenantOf(here.record);
    if tenantId.None? {
      return Panicked(here.charged);
    }
    var admitted := store.TryConsumeQuota(tenantId.value);
    if !admitted {
      return Refused(QuotaExceeded, here.charged);
    }
    return At(here.layer + 1, here.record, tenantId);
  }

  /** `record_usage` up to its call of the handler. */
  method EnterHandler(here: Stage) returns (stage: Stage)
    requires here.At?
    ensures stage == UsageRecording(here)
  {
    var tenantId := TenantOf(here.record);
    if tenantId.None? {
      return Panicked(here.charged);
    }
    return InHandler(tenantId.value, here.charged);
  }

  /** The handler's response, as far as the usage rollup looks at it. */
  datatype Response = Response(status: nat, language: Option<string>, slug: Option<string>)

  /** `record_usage` once the inner call has returned. */
  method RecordUsage(recorder: Recorder, tenantId: string, r: Response, day: string, micros: nat) returns (e: Event)
    modifies recorder
    ensures e.day == day && e.tenantId == tenantId && e.status == r.status && e.micros == micros
    ensures e.language == if r.language.Some? then r.language.value else "unknown"
    ensures e.errorSlug == if r.status < 400 then "" else if r.slug.Some? then r.slug.value else "internal-error"
    ensures recorder.daily == RecordDaily(old(recorder.daily), e)
    ensures recorder.latency == RecordLatency(old(recorder.latency), e)
  {
    var language := if r.language.Some? then r.language.value else "unknown";
    var errorSlug := "";
    if r.status >= 400 {
      errorSlug := if r.slug.Some? then r.slug.value else "internal-error";
    }
    e := Event(day, tenantId, language, r.status, errorSlug, micros);
    recorder.Record(e);
  }

  ghost predicate ShowsActiveKey(m: M.State, q: Request, now: Clock) {
    q.keyHash.Some? && K.MayAuthenticate(m.keys.cache, m.keys.table, q.keyHash.value, now)
  }

  /** Everything a request of the tenant has to bring to be let in. */
  ghost predicate Welcome(m: M.State, windows: R.Windows, q: Request, t: string, now: Clock, instant: nat) {
    && !CoolingDown(windows, q.ip, instant)
    && q.keyHash.Some?
    && (exists record: KeyRecord :: StandsFor(m.keys, q.keyHash.value, now, record) && record.tenantId == Some(t))
    && !Suspended(m.tenants.cache, t)
    && OriginAllowed(m.origins.table, q.origin, t)
    && HasQuota(m.tenants.cache, t)
  }

  lemma OnlyItsTenant(m: M.State, windows: R.Windows, q: Request, record: KeyRecord, now: Clock, instant: nat)
    requires M.Inv(m) && q.keyHash.Some? && StandsFor(m.keys, q.keyHash.value, now, record)
    ensures forall t :: Welcome(m, windows, q, t, now, instant) ==> record.tenantId == Some(t)
  {
    hide M.Inv, StandsFor, CoolingDown, Suspended, OriginAllowed, HasQuota;
    forall t | Welcome(m, windows, q, t, now, instant)
      ensures record.tenantId == Some(t)
    {
      var r: KeyRecord :| StandsFor(m.keys, q.keyHash.value, now, r) && r.tenantId == Some(t);
      OneTenant(m, q.keyHash.value, now, r, record);
    }
  }

  /** Only an active key is let past the first layer. */
  lemma WelcomeShowsActiveKey(m: M.State, windows: R.Windows, q: Request, t: string, now: Clock, instant: nat)
    requires M.Inv(m) && Welcome(m, windows, q, t, now, instant)
    ensures ShowsActiveKey(m, q, now)
  {
    hide M.Inv, CoolingDown, Suspended, OriginAllowed, HasQuota;
    M.KeysMatch(m);
    var r: KeyRecord :| StandsFor(m.keys, q.keyHash.value, now, r) && r.tenantId == Some(t);
    StandingMayAuthenticate(m.keys, q.keyHash.value, now, r);
  }

  /** A request runs the layers in order until one refuses it or the handler is reached. */
  method Admit(store: S.Store, limiter: R.RateLimiter, q: Request, now: Clock, instant: nat) returns (stage: Stage)
    requires store.Valid()
    modifies store, limiter
    ensures store.Valid() && WellCharged(stage) && !stage.At?
    ensures stage.InHandler? <==> stage.charged.Some?
    ensures stage.InHandler? ==> stage.charged == Some(stage.tenant)
    ensures store.State().tenants.cache ==
            if stage.charged.Some? then T.TryConsume(old(store.tenants), stage.charged.value).0 else old(store.tenants)
    ensures stage.charged.Some? ==> T.TryConsume(old(store.tenants), stage.charged.value).1
    ensures forall t :: stage.InHandler? && stage.tenant == t <==>
                        Welcome(old(store.State()), old(limiter.windows), q, t, now, instant)
    ensures stage.Refused? && stage.refusal.RateLimited? <==> CoolingDown(old(limiter.windows), q.ip, instant)
    ensures stage == Refused(Unauthorized, None) <==>
            !CoolingDown(old(limiter.windows), q.ip, instant) && !ShowsActiveKey(old(store.State()), q, now)
  {
    hide M.Inv, R.Fail, R.Remaining, O.Owns, K.Authenticate, K.Touch, K.MayAuthenticate, StandsFor;
    LayerOrder();
    forall t | Welcome(store.State(), limiter.windows, q, t, now, instant) {
      WelcomeShowsActiveKey(store.State(), limiter.windows, q, t, now, instant);
    }
    stage := At(0, None, None);
    stage := RequireActiveKey(store, limiter, q, stage, now, instant);
    if stage.At? {
      OnlyItsTenant(old(store.State()), old(limiter.windows), q, stage.record.value, now, instant);
    }
    if stage.At? {
      stage := RequireActiveTenant(store, stage);
    }
    if stage.At? {
      stage := RequireOriginBinding(store, q, stage);
    }
    if stage.At? {
      stage := RequireQuota(store, stage);
    }
    if stage.At? {
      stage := EnterHandler(stage);
    }
  }
}
