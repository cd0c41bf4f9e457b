/** Who gets to the spell-check handlers (`src/auth.rs`, `build_app` in `src/handlers.rs`): what each
    layer asks, on the fields of the store and the limiter, and what a charged request has passed in
    every run. */
module Vetting {
  import opened Prelude
  import opened StoreRows
  import opened Billing
  import M = StoreMachine
  import K = KeyStore
  import T = TenantStore
  import O = OriginStore
  import R = RateLimiting
  import Cidr

  // ---- What the layers ask -----------------------------------------------------------------

  predicate CoolingDown(windows: R.Windows, ip: Cidr.IpAddr, instant: nat) {
    ip in windows && windows[ip].cooldownUntil.Some? && instant < windows[ip].cooldownUntil.value
  }

  /** The record is what the hash stands for: neither revoked nor expired, and cached under the hash or
      read from a row with it. */
  ghost predicate StandsFor(keys: K.KeyState, hash: string, now: Clock, record: KeyRecord) {
    && record.keyHash == hash && record.revokedAt == None && (record.expiresAt == None || now < record.expiresAt.value)
    && ((hash in keys.cache && record == keys.cache[hash])
        || (exists id :: id in keys.table && keys.table[id].keyHash == hash && record == ReadKey(id, keys.table[id])))
  }

  predicate Suspended(tenants: T.TenantCache, t: string) { t in tenants && tenants[t].suspendedAt.Some? }

  /** Without an `Origin` header nothing is asked; else a row of the table gives the origin to the tenant. */
  ghost predicate OriginAllowed(origins: O.OriginTable, header: OriginHeader, t: string) {
    match header
    case NoOrigin => true
    case NotText => false
    case Text(origin) => exists id :: id in origins && origins[id].tenantId == t && origins[id].origin == origin
  }

  predicate HasQuota(tenants: T.TenantCache, t: string) {
    t in tenants && (tenants[t].quotaLimit == 0 || tenants[t].requestCount < tenants[t].quotaLimit)
  }

  /** The seconds a client is told to wait: the whole ones of the nanoseconds left, but at least one. */
  predicate TellsToWait(secs: nat, nanos: nat) {
    secs >= 1 && nanos < (secs + 1) * 1_000_000_000 && (secs == 1 || secs * 1_000_000_000 <= nanos)
  }

  lemma StandingMayAuthenticate(s: K.KeyState, hash: string, now: Clock, r: KeyRecord)
    requires StandsFor(s, hash, now, r)
    ensures K.MayAuthenticate(s.cache, s.table, hash, now)
  {
    forall id | id in s.table && s.table[id].keyHash == hash && r == ReadKey(id, s.table[id])
      ensures K.RowIsLive(s.table[id], now)
    {
      K.LiveRowReads(id, s.table[id], now);
    }
    hide ReadKey, K.RowIsLive;
  }

  lemma OneTenant(m: M.State, hash: string, now: Clock, r1: KeyRecord, r2: KeyRecord)
    requires M.Inv(m) && StandsFor(m.keys, hash, now, r1) && StandsFor(m.keys, hash, now, r2)
    ensures r1.tenantId == r2.tenantId
  {
    hide T.Match, O.Match;
    M.KeysAreUnique(m);
    forall id | id in m.keys.table && m.keys.table[id].keyHash == hash
      ensures hash in m.keys.cache && ReadKey(id, m.keys.table[id]).tenantId == m.keys.cache[hash].tenantId
    {
      assert K.RowMatches(id, m.keys.table[id], m.keys.cache[hash]);
      assert K.GoodRecord(m.keys.cache[hash], false);
    }
    hide ReadKey, K.RowMatches;
  }

  // ---- The layers --------------------------------------------------------------------------------

  lemma AuthenticatedStandsFor(s: K.KeyState, hash: string, now: Clock)
    requires K.Match(s)
    ensures var r := K.Authenticate(s, hash, now).1;
            && (r.Some? <==> K.MayAuthenticate(s.cache, s.table, hash, now))
            && (r.Some? ==> StandsFor(s, hash, now, r.value))
  {
    K.AuthenticatesExactly(s, hash, now);
    hide K.Match, K.MayAuthenticate, K.RowIsLive, ReadKey, KeyRecord.IsActive;
    if !(hash in s.cache && s.cache[hash].IsActive(now)) && K.HasHash(s.table, hash) {
      var id := K.IdByHash(s.table, hash);
      assert id in s.table && s.table[id].keyHash == hash;
    }
  }

  /** What a request with this key and address meets at `require_active_key`: turned away while the
      address cools down, refused without an active key and then noted as a failure of the address, else
      on its way with the key's record, the use of the key noted. */
  ghost predicate KeyOutcome(c: R.Config, m: M.State, windows: R.Windows, q: Request, here: Stage, now: Clock,
                             instant: nat, keys': K.KeyCache, windows': R.Windows, stage: Stage)
    requires here.At?
  {
    if CoolingDown(windows, q.ip, instant) then
      && windows' == windows && stage.Refused? && stage.refusal.RateLimited? && stage.charged == here.charged
      && TellsToWait(stage.refusal.retryAfterSecs, windows[q.ip].cooldownUntil.value - instant)
    else if q.keyHash.Some? && K.MayAuthenticate(m.keys.cache, m.keys.table, q.keyHash.value, now) then
      && windows' == windows && stage.At? && stage.layer == here.layer + 1 && stage.charged == here.charged
      && stage.record.Some? && StandsFor(m.keys, q.keyHash.value, now, stage.record.value)
      && q.keyHash.value in keys' && keys'[q.keyHash.value] == stage.record.value.(lastUsedAt := Some(now))
    else
      && stage == Refused(Unauthorized, here.charged)
      && windows' == windows[q.ip := R.Fail(c, R.WindowOf(windows, q.ip), instant)]
  }

  lemma ActiveKeyExactly(c: R.Config, s: State, q: Request, here: Stage, now: Clock, instant: nat)
    requires M.Inv(s.store) && here.At?
    ensures var o := ActiveKey(c, s, q, here, now, instant);
            KeyOutcome(c, s.store, s.windows, q, here, now, instant, o.store.keys.cache, o.windows, o.stage)
            && (CoolingDown(s.windows, q.ip, instant) ==> o.store == s.store)
            && o.store.tenants == s.store.tenants && o.store.origins == s.store.origins
            && o.store.dictionaries == s.store.dictionaries
  {
    hide M.Inv, K.Match, K.Authenticate, K.Touch, K.MayAuthenticate, StandsFor, R.Fail;
    M.KeysMatch(s.store);
    if q.keyHash.Some? {
      AuthenticatedStandsFor(s.store.keys, q.keyHash.value, now);
      if K.Authenticate(s.store.keys, q.keyHash.value, now).1.Some? {
        K.AuthenticatedIsTouched(s.store.keys, q.keyHash.value, now);
      }
    }
  }

  /** The first layer. */
  lemma KeyLayerExactly(c: R.Config, s: State, q: Request, here: Stage, now: Clock, instant: nat)
    requires M.Inv(s.store) && here.At? && here.layer == 0
    ensures var o := Through(c, s, q, here, now, instant);
            KeyOutcome(c, s.store, s.windows, q, here, now, instant, o.store.keys.cache, o.windows, o.stage)
  {
    hide M.Inv, ActiveKey, KeyOutcome;
    LayerOrder();
    ActiveKeyExactly(c, s, q, here, now, instant);
  }

  /** The second layer: forbidden exactly while the key's tenant is suspended. */
  lemma TenantLayerExactly(c: R.Config, s: State, q: Request, here: Stage, now: Clock, instant: nat)
    requires here.At? && here.layer == 1
    ensures var o := Through(c, s, q, here, now, instant);
            && o.store == s.store && o.windows == s.windows
            && o.stage ==
               if here.record.None? || here.record.value.tenantId.None? then Panicked(here.charged)
               else if Suspended(s.store.tenants.cache, here.record.value.tenantId.value)
               then Refused(Forbidden, here.charged)
               else At(2, here.record, here.charged)
  {
    LayerOrder();
  }

  /** The third layer: forbidden exactly when there is an `Origin` header that no row of the table gives
      to the key's tenant. */
  lemma OriginLayerExactly(c: R.Config, s: State, q: Request, here: Stage, now: Clock, instant: nat)
    requires M.Inv(s.store) && here.At? && here.layer == 2
    requires here.record.Some? && here.record.value.tenantId.Some?
    ensures var o := Through(c, s, q, here, now, instant);
            && o.store == s.store && o.windows == s.windows
            && o.stage ==
               if OriginAllowed(s.store.origins.table, q.origin, here.record.value.tenantId.value)
               then At(3, here.record, here.charged)
               else Refused(Forbidden, here.charged)
  {
    LayerOrder();
    if q.origin.Text? {
      OwnsIsRow(s.store, here.record.value.tenantId.value, q.origin.origin);
    }
    hide M.Inv, O.Owns;
  }

  lemma OwnsIsRow(m: M.State, t: string, origin: string)
    requires M.Inv(m)
    ensures O.Owns(m.origins.byTenant, t, origin) <==>
            exists id :: id in m.origins.table && m.origins.table[id].tenantId == t && m.origins.table[id].origin == origin
  {
    hide K.Match, T.Match, K.GoodCache;
    if O.Owns(m.origins.byTenant, t, origin) {
      assert m.origins.byTenant[t][origin].id in m.origins.table;
    }
  }

  /** The fourth layer: charged exactly while the tenant has quota left. */
  lemma QuotaLayerExactly(c: R.Config, s: State, q: Request, here: Stage, now: Clock, instant: nat)
    requires here.At? && here.layer == 3
    requires here.record.Some? && here.record.value.tenantId.Some?
    ensures var (o, t) := (Through(c, s, q, here, now, instant), here.record.value.tenantId.value);
            && o.store.keys == s.store.keys && o.store.origins == s.store.origins && o.windows == s.windows
            && if HasQuota(s.store.tenants.cache, t) then
                 && o.stage == At(4, here.record, Some(t))
                 && o.store.tenants.cache ==
                    s.store.tenants.cache[t := s.store.tenants.cache[t].(requestCount := s.store.tenants.cache[t].requestCount + 1)]
               else o.stage == Refused(QuotaExceeded, here.charged) && o.store == s.store
  {
    LayerOrder();
  }

  lemma LastLayerExactly(c: R.Config, s: State, q: Request, here: Stage, now: Clock, instant: nat)
    requires here.At? && here.layer == 4 && here.record.Some? && here.record.value.tenantId.Some?
    ensures Through(c, s, q, here, now, instant)
            == Outcome(s.store, s.windows, InHandler(here.record.value.tenantId.value, here.charged))
  {
    LayerOrder();
  }

  // ---- Runs ------------------------------------------------------------------------------------------

  /** The state a run has led to; steps that cannot be taken do nothing. */
  ghost function After(c: R.Config, s: State, steps: seq<Step>): State
    decreases |steps|
  {
    if steps == [] then s
    else
      var (before, step) := (After(c, s, steps[..|steps| - 1]), steps[|steps| - 1]);
      if Enabled(before, step) then Next(c, before, step) else before
  }

  /** With this step the request passed layer `k`, which it had reached in state `s`, for the key `record`. */
  ghost predicate Clears(s: State, step: Step, k: nat, id: nat, q: Request, record: KeyRecord) {
    && step.Enter? && step.id == id && id in s.requests && s.requests[id].request == q
    && s.requests[id].stage.At? && s.requests[id].stage.layer == k
    && match k
       case 0 =>
         !CoolingDown(s.windows, q.ip, step.instant)
         && q.keyHash.Some? && StandsFor(s.store.keys, q.keyHash.value, step.now, record)
       case 1 => record.tenantId.Some? && !Suspended(s.store.tenants.cache, record.tenantId.value)
       case 2 => record.tenantId.Some? && OriginAllowed(s.store.origins.table, q.origin, record.tenantId.value)
       case 3 => record.tenantId.Some? && HasQuota(s.store.tenants.cache, record.tenantId.value)
       case _ => true
  }

  ghost predicate Cleared(c: R.Config, start: State, run: seq<Step>, k: nat, id: nat, q: Request, record: KeyRecord) {
    exists i :: 0 <= i < |run| && Clears(After(c, start, run[..i]), run[i], k, id, q, record)
  }

  /** The first `n` layers were passed, each at its own moment of the run. */
  ghost predicate Vetted(c: R.Config, start: State, run: seq<Step>, n: nat, id: nat, q: Request, record: KeyRecord) {
    forall k: nat :: k < n ==> Cleared(c, start, run, k, id, q, record)
  }

  ghost predicate EntryVetted(c: R.Config, start: State, run: seq<Step>, id: nat, e: Entry) {
    && WellCharged(e.stage)
    && (e.stage.At? && e.stage.layer > 0 ==>
          && e.stage.record.Some?
          && Vetted(c, start, run, e.stage.layer, id, e.request, e.stage.record.value))
    && (e.stage.charged.Some? ==>
          exists record: KeyRecord ::
            record.tenantId == e.stage.charged && Vetted(c, start, run, 4, id, e.request, record))
  }

  ghost predicate AllVetted(c: R.Config, start: State, run: seq<Step>, s: State) {
    forall id :: id in s.requests ==> EntryVetted(c, start, run, id, s.requests[id])
  }

  lemma AfterStep(c: R.Config, start: State, run: seq<Step>, step: Step)
    requires Enabled(After(c, start, run), step)
    ensures After(c, start, run + [step]) == Next(c, After(c, start, run), step)
  {
    hide Enabled, Next;
    assert (run + [step])[..|run + [step]| - 1] == run;
  }

  lemma StaysCleared(c: R.Config, start: State, run: seq<Step>, step: Step, k: nat, id: nat, q: Request, record: KeyRecord)
    requires Cleared(c, start, run, k, id, q, record)
    ensures Cleared(c, start, run + [step], k, id, q, record)
  {
    hide Clears, After;
    var i :| 0 <= i < |run| && Clears(After(c, start, run[..i]), run[i], k, id, q, record);
    assert (run + [step])[..i] == run[..i] && (run + [step])[i] == run[i];
  }

  lemma NowCleared(c: R.Config, start: State, run: seq<Step>, step: Step, k: nat, id: nat, q: Request, record: KeyRecord)
    requires Clears(After(c, start, run), step, k, id, q, record)
    ensures Cleared(c, start, run + [step], k, id, q, record)
  {
    hide Clears, After;
    var i := |run|;
    assert (run + [step])[..i] == run && (run + [step])[i] == step;
  }

  lemma StaysVetted(c: R.Config, start: State, run: seq<Step>, step: Step, n: nat, id: nat, q: Request, record: KeyRecord)
    requires Vetted(c, start, run, n, id, q, record)
    ensures Vetted(c, start, run + [step], n, id, q, record)
  {
    hide Cleared;
    forall k: nat | k < n
      ensures Cleared(c, start, run + [step], k, id, q, record)
    {
      StaysCleared(c, start, run, step, k, id, q, record);
    }
  }

  /** One more layer. */
  lemma VettedFurther(c: R.Config, start: State, run: seq<Step>, step: Step, n: nat, id: nat, q: Request, record: KeyRecord)
    requires n > 0 ==> Vetted(c, start, run, n, id, q, record)
    requires Clears(After(c, start, run), step, n, id, q, record)
    ensures Vetted(c, start, run + [step], n + 1, id, q, record)
  {
    hide Cleared, Clears;
    if n > 0 {
      StaysVetted(c, start, run, step, n, id, q, record);
    }
    NowCleared(c, start, run, step, n, id, q, record);
  }

  lemma EntryStays(c: R.Config, start: State, run: seq<Step>, step: Step, id: nat, e: Entry)
    requires EntryVetted(c, start, run, id, e)
    ensures EntryVetted(c, start, run + [step], id, e)
  {
    hide Vetted;
    if e.stage.At? && e.stage.layer > 0 {
      StaysVetted(c, start, run, step, e.stage.layer, id, e.request, e.stage.record.value);
    }
    if e.stage.charged.Some? {
      var record: KeyRecord :| record.tenantId == e.stage.charged && Vetted(c, start, run, 4, id, e.request, record);
      StaysVetted(c, start, run, step, 4, id, e.request, record);
    }
  }

  /** An ended request is vetted as it was while it was open. */
  lemma EndedStays(c: R.Config, start: State, run: seq<Step>, id: nat, e: Entry, stage: Stage)
    requires EntryVetted(c, start, run, id, e) && !stage.At? && WellCharged(stage) && stage.charged == e.stage.charged
    ensures EntryVetted(c, start, run, id, e.(stage := stage))
  {
    hide Vetted, WellCharged;
  }

  lemma EnterVets(c: R.Config, start: State, run: seq<Step>, s: State, id: nat, now: Clock, instant: nat)
    requires s == After(c, start, run) && M.Inv(s.store) && Enabled(s, Enter(id, now, instant))
    requires EntryVetted(c, start, run, id, s.requests[id])
    ensures var o := Through(c, s, s.requests[id].request, s.requests[id].stage, now, instant);
            EntryVetted(c, start, run + [Enter(id, now, instant)], id, s.requests[id].(stage := o.stage))
  {
    hide Vetted, After, Through, M.Inv, CoolingDown, StandsFor, Suspended, OriginAllowed, HasQuota, K.MayAuthenticate;
    var (q, here, step) := (s.requests[id].request, s.requests[id].stage, Enter(id, now, instant));
    ThroughCharges(c, s, q, here, now, instant);
    EntryStays(c, start, run, step, id, s.requests[id]);
    var stage := Through(c, s, q, here, now, instant).stage;
    if here.layer == 0 {
      KeyLayerExactly(c, s, q, here, now, instant);
      if stage.At? {
        VettedFurther(c, start, run, step, 0, id, q, stage.record.value);
      }
    } else if here.layer == 1 {
      TenantLayerExactly(c, s, q, here, now, instant);
      if stage.At? {
        VettedFurther(c, start, run, step, 1, id, q, here.record.value);
      }
    } else if here.layer == 2 {
      OriginLayerExactly(c, s, q, here, now, instant);
      if stage.At? {
        VettedFurther(c, start, run, step, 2, id, q, here.record.value);
      }
    } else if here.layer == 3 {
      QuotaLayerExactly(c, s, q, here, now, instant);
      if stage.At? {
        VettedFurther(c, start, run, step, 3, id, q, here.record.value);
      }
    } else {
      LastLayerExactly(c, s, q, here, now, instant);
    }
  }

  lemma StepKeepsStore(c: R.Config, s: State, step: Step)
    requires M.Inv(s.store) && Enabled(s, step)
    ensures M.Inv(Next(c, s, step).store)
  {
    hide M.Inv, Through, M.Next, M.Enabled;
    match step {
      case Enter(id, now, instant) =>
        ThroughKeepsInv(c, s, s.requests[id].request, s.requests[id].stage, now, instant);
      case Elsewhere(step) => M.StepKeepsInv(s.store, step);
      case _ =>
    }
  }

  lemma StepVets(c: R.Config, start: State, run: seq<Step>, s: State, step: Step)
    requires s == After(c, start, run) && M.Inv(s.store) && Enabled(s, step) && AllVetted(c, start, run, s)
    ensures AllVetted(c, start, run + [step], Next(c, s, step))
  {
    hide After, M.Inv, Through, M.Next, M.Enabled, EntryVetted;
    var t := Next(c, s, step);
    forall id | id in s.requests
      ensures EntryVetted(c, start, run + [step], id, s.requests[id])
    {
      EntryStays(c, start, run, step, id, s.requests[id]);
    }
    match step {
      case Arrive(id, q) => Arrived(c, start, run + [step], id, q);
      case Enter(id, now, instant) => EnterVets(c, start, run, s, id, now, instant);
      case Finish(id, _) => Ended(c, start, run + [step], id, s.requests[id], Answered(s.requests[id].stage.charged));
      case Abort(id) => Ended(c, start, run + [step], id, s.requests[id], Aborted(s.requests[id].stage.charged));
      case _ =>
    }
  }

  lemma Arrived(c: R.Config, start: State, run: seq<Step>, id: nat, q: Request)
    ensures EntryVetted(c, start, run, id, Entry(q, At(0, None, None)))
  {
  }

  lemma Ended(c: R.Config, start: State, run: seq<Step>, id: nat, e: Entry, stage: Stage)
    requires EntryVetted(c, start, run, id, e) && stage.charged == e.stage.charged
    requires stage.Aborted? || (stage.Answered? && e.stage.InHandler?)
    ensures EntryVetted(c, start, run, id, e.(stage := stage))
  {
    EndedStays(c, start, run, id, e, stage);
    hide Vetted;
  }

  lemma {:induction false} RunsVet(c: R.Config, start: State, run: seq<Step>, s: State, steps: seq<Step>, end: State)
    requires s == After(c, start, run) && M.Inv(s.store) && AllVetted(c, start, run, s) && Leads(c, s, steps, end)
    ensures AllVetted(c, start, run + steps, end) && end == After(c, start, run + steps)
    decreases |steps|
  {
    hide After, AllVetted, M.Inv, Next, Enabled;
    if steps == [] {
      assert run + steps == run;
    } else {
      StepVets(c, start, run, s, steps[0]);
      StepKeepsStore(c, s, steps[0]);
      AfterStep(c, start, run, steps[0]);
      RunsVet(c, start, run + [steps[0]], Next(c, s, steps[0]), steps[1..], end);
      assert run + [steps[0]] + steps[1..] == run + steps;
    }
  }

  /** Whoever is charged in any run, and so whoever is in a handler or was answered by one, has shown the
      hash of an active key of the charged tenant while its address was not cooling down; then the tenant
      was not suspended; then an `Origin` header was one the table gave to the tenant; then the tenant had
      quota left. Each held when the request was at that layer. */
  lemma ChargedWereVetted(c: R.Config, start: State, steps: seq<Step>, end: State, id: nat)
    requires IsStart(start) && M.Inv(start.store) && Leads(c, start, steps, end)
    requires id in end.requests && end.requests[id].stage.charged.Some?
    ensures end == After(c, start, steps)
    ensures exists record: KeyRecord ::
              && record.tenantId == end.requests[id].stage.charged
              && Cleared(c, start, steps, 0, id, end.requests[id].request, record)
              && Cleared(c, start, steps, 1, id, end.requests[id].request, record)
              && Cleared(c, start, steps, 2, id, end.requests[id].request, record)
              && Cleared(c, start, steps, 3, id, end.requests[id].request, record)
  {
    hide Cleared, M.Inv, Leads;
    RunsVet(c, start, [], start, steps, end);
    assert [] + steps == steps;
    assert EntryVetted(c, start, steps, id, end.requests[id]);
  }

  /** The same for a request in the handler, of the tenant it will be recorded for. */
  lemma HandledWereVetted(c: R.Config, start: State, steps: seq<Step>, end: State, id: nat)
    requires IsStart(start) && M.Inv(start.store) && Leads(c, start, steps, end)
    requires id in end.requests && end.requests[id].stage.InHandler?
    ensures exists record: KeyRecord ::
              && record.tenantId == Some(end.requests[id].stage.tenant)
              && Vetted(c, start, steps, 4, id, end.requests[id].request, record)
  {
    hide Cleared, M.Inv, Leads;
    RunsVet(c, start, [], start, steps, end);
    assert [] + steps == steps;
    assert EntryVetted(c, start, steps, id, end.requests[id]);
  }

  /** A suspension takes effect at once: whoever of the tenant is at the second layer is forbidden. */
  lemma SuspensionTakesEffect(c: R.Config, s: State, id: nat, t: string, at: Clock, now: Clock, instant: nat)
    requires t in s.store.tenants.cache && id in s.requests && s.requests[id].stage.At? && s.requests[id].stage.layer == 1
    requires s.requests[id].stage.record.Some? && s.requests[id].stage.record.value.tenantId == Some(t)
    ensures Enabled(s, Elsewhere(M.SetSuspended(t, Some(at))))
    ensures var s' := Next(c, s, Elsewhere(M.SetSuspended(t, Some(at))));
            Enabled(s', Enter(id, now, instant))
            && Next(c, s', Enter(id, now, instant)).requests[id].stage == Refused(Forbidden, s.requests[id].stage.charged)
  {
    hide Through;
    LayerOrder();
    var s' := Next(c, s, Elsewhere(M.SetSuspended(t, Some(at))));
    TenantLayerExactly(c, s', s.requests[id].request, s.requests[id].stage, now, instant);
  }

  // ---- Cooldowns and the failures of the run -------------------------------------------------------------

  /** The failed authentications of a run: the entries of the first layer that were not turned away and
      showed no active key. */
  ghost function Failed(c: R.Config, start: State, run: seq<Step>): seq<R.Failure>
    decreases |run|
  {
    if run == [] then []
    else
      var (s, step) := (After(c, start, run[..|run| - 1]), run[|run| - 1]);
      Failed(c, start, run[..|run| - 1])
      + if FailsNow(s, step) then [R.Failure(s.requests[step.id].request.ip, step.instant)] else []
  }

  ghost predicate FailsNow(s: State, step: Step) {
    && step.Enter? && step.id in s.requests && s.requests[step.id].stage.At? && s.requests[step.id].stage.layer == 0
    && var q := s.requests[step.id].request;
       && !CoolingDown(s.windows, q.ip, step.instant)
       && !(q.keyHash.Some? && K.MayAuthenticate(s.store.keys.cache, s.store.keys.table, q.keyHash.value, step.now))
  }

  lemma StepNotesFailures(c: R.Config, s: State, step: Step)
    requires M.Inv(s.store) && Enabled(s, step)
    ensures Next(c, s, step).windows ==
            if FailsNow(s, step)
            then var ip := s.requests[step.id].request.ip; s.windows[ip := R.Fail(c, R.WindowOf(s.windows, ip), step.instant)]
            else s.windows
  {
    hide M.Inv, M.Next, M.Enabled, Through, CoolingDown, K.MayAuthenticate, StandsFor, R.Fail;
    match step {
      case Enter(id, now, instant) =>
        var (q, here) := (s.requests[id].request, s.requests[id].stage);
        if here.layer == 0 {
          KeyLayerExactly(c, s, q, here, now, instant);
        } else {
          LaterLayersKeepWindows(c, s, q, here, now, instant);
        }
      case _ =>
    }
  }

  lemma LaterLayersKeepWindows(c: R.Config, s: State, q: Request, here: Stage, now: Clock, instant: nat)
    requires here.At? && 0 < here.layer < |ADDED|
    ensures Through(c, s, q, here, now, instant).windows == s.windows
  {
    LayerOrder();
  }

  lemma {:induction false} RunNotesFailures(c: R.Config, start: State, run: seq<Step>, s: State, steps: seq<Step>, end: State)
    requires s == After(c, start, run) && M.Inv(s.store) && Leads(c, s, steps, end)
    requires s.windows == R.After(c, Failed(c, start, run))
    ensures end.windows == R.After(c, Failed(c, start, run + steps))
    decreases |steps|
  {
    hide After, M.Inv, Next, CoolingDown, K.MayAuthenticate, R.Fail;
    if steps == [] {
      assert run + steps == run;
    } else {
      var step := steps[0];
      StepNotesFailures(c, s, step);
      StepKeepsStore(c, s, step);
      AfterStep(c, start, run, step);
      assert (run + [step])[..|run + [step]| - 1] == run;
      var before := Failed(c, start, run);
      if FailsNow(s, step) {
        var f := R.Failure(s.requests[step.id].request.ip, step.instant);
        assert (before + [f])[..|before + [f]| - 1] == before;
      } else {
        assert before + [] == before;
      }
      RunNotesFailures(c, start, run + [step], Next(c, s, step), steps[1..], end);
      assert run + [step] + steps[1..] == run + steps;
    }
  }

  /** In every run whose failures were noted in the order of their times, a request is turned away at the
      first layer exactly while a cooldown is running that the full history of its address's failures
      started. */
  lemma TurnedAwayByOwnFailures(c: R.Config, start: State, steps: seq<Step>, s: State, id: nat, now: Clock, instant: nat)
    requires IsStart(start) && M.Inv(start.store) && Leads(c, start, steps, s)
    requires Enabled(s, Enter(id, now, instant)) && s.requests[id].stage.layer == 0
    requires R.Monotone(Failed(c, start, steps))
    ensures var stage := Next(c, s, Enter(id, now, instant)).requests[id].stage;
            stage.Refused? && stage.refusal.RateLimited? <==>
            R.Cooling(c, R.TimesOf(Failed(c, start, steps), s.requests[id].request.ip), instant)
  {
    hide M.Inv, Through, Leads, Failed, R.Cooling, R.TimesOf, R.After, StandsFor, K.MayAuthenticate, R.Fail;
    FailedAtStart(c, start, steps, s);
    RunKeepsStore(c, start, steps, s);
    var (q, here) := (s.requests[id].request, s.requests[id].stage);
    KeyLayerExactly(c, s, q, here, now, instant);
    R.ChecksAgainstFullHistory(c, Failed(c, start, steps), q.ip, instant);
  }

  lemma FailedAtStart(c: R.Config, start: State, steps: seq<Step>, s: State)
    requires IsStart(start) && M.Inv(start.store) && Leads(c, start, steps, s)
    ensures s.windows == R.After(c, Failed(c, start, steps))
  {
    hide M.Inv, Leads;
    RunNotesFailures(c, start, [], start, steps, s);
    assert [] + steps == steps;
  }

  lemma {:induction false} RunKeepsStore(c: R.Config, s: State, steps: seq<Step>, end: State)
    requires M.Inv(s.store) && Leads(c, s, steps, end)
    ensures M.Inv(end.store)
    decreases |steps|
  {
    hide M.Inv, Next, Enabled;
    if steps != [] {
      StepKeepsStore(c, s, steps[0]);
      RunKeepsStore(c, Next(c, s, steps[0]), steps[1..], end);
    }
  }
}
