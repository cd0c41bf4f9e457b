/** The whole store as a state machine, one step per store operation, and what a restart keeps
    (`src/store.rs`). */
module StoreMachine {
  import opened Prelude
  import opened StoreRows
  import K = KeyStore
  import T = TenantStore
  import O = OriginStore
  import D = DictionaryStore

  datatype State = State(keys: K.KeyState, tenants: T.TenantState, origins: O.OriginState, dictionaries: D.DictionaryState)

  datatype Step =
    | CreateKey(record: KeyRecord)
    | RevokeKey(tenantId: string, id: string, now: Clock)
    | RotateKey(tenantId: string, id: string, newHash: string)
    | ResetBootstrap(now: Clock, newId: string, newHash: string)
    | Authenticate(hash: string, now: Clock)
    | TouchLastUsed(id: string, now: Clock)
    | LandLastUsed(id: string, now: Clock)
    | CreateTenant(info: TenantInfo, adminKey: KeyRecord)
    | UpdateTenant(id: string, patch: T.Patch)
    | TryConsumeQuota(id: string)
    | LandRequestCount(id: string, count: nat)
    | SetSuspended(id: string, suspendedAt: Option<Clock>)
    | RegisterOrigin(origin: OriginInfo)
    | RevokeOrigin(tenantId: string, id: string)
    | RegisterDictionary(dictionary: DictionaryInfo)

  predicate IsNewKey(s: State, r: KeyRecord) {
    K.IsFresh(s.keys, r.id, r.keyHash) && r.revokedAt.None? && r.lastUsedAt.None?
  }

  /** Generated ids and hashes are fresh and not empty; nothing else is asked of a call. */
  predicate Enabled(s: State, step: Step) {
    match step
    case CreateKey(r) => IsNewKey(s, r)
    case RotateKey(_, _, h) => h !in s.keys.cache && forall i :: i in s.keys.table ==> s.keys.table[i].keyHash != h
    case ResetBootstrap(_, id, h) => K.IsFresh(s.keys, id, h)
    case CreateTenant(info, r) =>
      info.id != "" && info.id !in s.tenants.table && info.suspendedAt.None? && info.requestCount == 0
      && IsNewKey(s, r) && r.tenantId == Some(info.id) && r.expiresAt.None?
    case RegisterOrigin(o) => o.id !in s.origins.table
    case _ => true
  }

  /** The foreign key of `api_keys` accepts the row. */
  predicate KeyAccepted(s: State, r: KeyRecord) { r.tenantId.Some? ==> r.tenantId.value in s.tenants.table }

  /** The foreign key and the unique pair of `tenant_origins` accept the row. */
  predicate OriginAccepted(s: State, o: OriginInfo) {
    o.tenantId in s.tenants.table && !O.Taken(s.origins.table, o.tenantId, o.origin)
  }

  function AsTime(t: Option<Clock>): Option<U64> { match t case Some(v) => Some(v) case None => None }

  ghost function Next(s: State, step: Step): State
    requires Enabled(s, step)
  {
    match step
    case CreateKey(r) => if KeyAccepted(s, r) then s.(keys := K.Create(s.keys, r)) else s
    case RevokeKey(t, id, now) => s.(keys := K.Revoke(s.keys, t, id, now).0)
    case RotateKey(t, id, h) => s.(keys := K.Rotate(s.keys, t, id, h).0)
    case ResetBootstrap(now, id, h) => s.(keys := K.ResetBootstrap(s.keys, now, id, h).0)
    case Authenticate(h, now) => s.(keys := K.Authenticate(s.keys, h, now).0)
    case TouchLastUsed(id, now) => s.(keys := K.Touch(s.keys, id, now))
    case LandLastUsed(id, now) => s.(keys := K.LandTouch(s.keys, id, now))
    case CreateTenant(info, r) => s.(tenants := T.CreateTenant(s.tenants, info), keys := K.Create(s.keys, r))
    case UpdateTenant(id, p) => s.(tenants := T.UpdateTenant(s.tenants, id, p).0)
    case TryConsumeQuota(id) => s.(tenants := s.tenants.(cache := T.TryConsume(s.tenants.cache, id).0))
    case LandRequestCount(id, n) => s.(tenants := s.tenants.(table := T.WriteCount(s.tenants.table, id, n)))
    case SetSuspended(id, at) => s.(tenants := T.SetSuspended(s.tenants, id, AsTime(at)))
    case RegisterOrigin(o) => if OriginAccepted(s, o) then s.(origins := O.Register(s.origins, o)) else s
    case RevokeOrigin(t, id) => s.(origins := O.Revoke(s.origins, t, id).0)
    case RegisterDictionary(d) => s.(dictionaries := D.Register(s.dictionaries, d))
  }

  ghost predicate Leads(s: State, steps: seq<Step>, t: State)
    decreases |steps|
  {
    if steps == [] then s == t
    else Enabled(s, steps[0]) && Leads(Next(s, steps[0]), steps[1..], t)
  }

  // ---- The invariant ------------------------------------------------------------------

  /** Each table matches its caches, and no tenant or key carries the empty tenant id. */
  ghost predicate Inv(s: State) {
    && K.Match(s.keys) && T.Match(s.tenants) && O.Match(s.origins) && D.Match(s.dictionaries)
    && "" !in s.tenants.table && K.GoodCache(s.keys.cache, false)
  }

  const EMPTY := State(K.KeyState(map[], map[]), T.TenantState(map[], map[]), O.OriginState(map[], {}, map[]),
                       D.DictionaryState(map[], map[]))

  /** A new database satisfies it. */
  lemma EmptyIsGood()
    ensures Inv(EMPTY) && TimesFit(EMPTY)
  {
    O.EmptyMatches();
  }

  lemma StepKeepsGoodKeys(s: State, step: Step, strict: bool)
    requires Enabled(s, step) && K.GoodCache(s.keys.cache, strict) && "" !in s.tenants.table
    requires strict ==> ArgumentsFit(step)
    ensures K.GoodCache(Next(s, step).keys.cache, strict)
  {
    match step {
      case RevokeKey(t, id, now) => K.OperationsKeepGood(s.keys, t, id, "", now, strict);
      case RotateKey(t, id, h) => K.OperationsKeepGood(s.keys, t, id, h, 0, strict);
      case ResetBootstrap(now, id, h) => K.ResetKeepsGood(s.keys, now, id, h, strict);
      case Authenticate(h, now) => K.AuthenticateKeepsGood(s.keys, h, now, strict);
      case TouchLastUsed(id, now) => K.OperationsKeepGood(s.keys, "", id, "", now, strict);
      case CreateKey(_) =>
      case CreateTenant(_, _) =>
      case _ =>
    }
    hide K.Revoke, K.Rotate, K.ResetBootstrap, K.Authenticate, K.Touch;
  }

  lemma StepKeepsTenantIds(s: State, step: Step)
    requires Enabled(s, step) && "" !in s.tenants.table
    ensures "" !in Next(s, step).tenants.table
  {
  }

  /** What a caller can check before the call: the times it passes are below 2^63. */
  predicate ArgumentsFit(step: Step) {
    match step
    case CreateKey(r) => TimeFits(r.expiresAt)
    case CreateTenant(info, _) => TimeFits(info.periodStart) && TimeFits(info.periodEnd)
    case UpdateTenant(_, p) =>
      (p.periodStart.Some? ==> TimeFits(p.periodStart.value)) && (p.periodEnd.Some? ==> TimeFits(p.periodEnd.value))
    case _ => true
  }

  lemma StepKeepsInv(s: State, step: Step)
    requires Inv(s) && Enabled(s, step)
    ensures Inv(Next(s, step))
  {
    StepKeepsGoodKeys(s, step, false);
    StepKeepsTenantIds(s, step);
    hide K.GoodCache, K.Match, T.Match, O.Match, D.Match;
    match step {
      case CreateKey(r) =>
        if KeyAccepted(s, r) {
          K.CreateMatches(s.keys, r);
        }
      case RevokeKey(t, id, now) => K.RevokeMatches(s.keys, t, id, now);
      case RotateKey(t, id, h) => K.RotateMatches(s.keys, t, id, h);
      case ResetBootstrap(now, id, h) => K.ResetMatches(s.keys, now, id, h);
      case Authenticate(h, now) => K.AuthenticateMatches(s.keys, h, now);
      case TouchLastUsed(id, now) => K.TouchMatches(s.keys, id, now);
      case LandLastUsed(id, now) => K.LandTouchMatches(s.keys, id, now);
      case CreateTenant(info, r) =>
        T.CreateMatches(s.tenants, info);
        K.CreateMatches(s.keys, r);
      case UpdateTenant(id, p) => T.UpdateMatches(s.tenants, id, p);
      case TryConsumeQuota(id) => T.ConsumeMatches(s.tenants, id);
      case LandRequestCount(id, n) => T.WriteCountMatches(s.tenants, id, n);
      case SetSuspended(id, at) => T.SuspendMatches(s.tenants, id, AsTime(at));
      case RegisterOrigin(o) =>
        if OriginAccepted(s, o) {
          O.RegisterMatches(s.origins, o);
        }
      case RevokeOrigin(t, id) => O.RevokeMatches(s.origins, t, id);
      case RegisterDictionary(d) => D.RegisterMatches(s.dictionaries, d);
    }
  }

  lemma KeysAreUnique(s: State)
    requires Inv(s)
    ensures K.UniqueHashes(s.keys.table)
    ensures forall h, k :: h in s.keys.cache && k in s.keys.cache && s.keys.cache[h].id == s.keys.cache[k].id ==> h == k
  {
    K.MatchIsUnique(s.keys);
  }

  lemma KeysMatch(s: State)
    requires Inv(s)
    ensures K.Match(s.keys)
  {
  }

  lemma DictionariesMatch(s: State)
    requires Inv(s)
    ensures s.dictionaries.cache == D.Reload(s.dictionaries.table)
  {
    hide K.Match, T.Match, O.Match, D.Reload, K.GoodCache;
  }

  lemma TenantKeys(s: State)
    requires Inv(s)
    ensures s.tenants.table.Keys == s.tenants.cache.Keys
  {
    hide K.Match, O.Match, D.Match, K.GoodCache;
  }

  lemma FoundIsUnique(s: State, h: string)
    requires Inv(s) && h in s.keys.cache
    ensures K.FindId(s.keys.cache, s.keys.cache[h].id) == Some(h)
    ensures s.keys.cache[h].tenantId.Some? ==>
              K.FindOwned(s.keys.cache, s.keys.cache[h].tenantId.value, s.keys.cache[h].id) == Some(h)
    ensures s.keys.cache[h].id in s.keys.table
  {
    hide T.Match, O.Match, D.Match;
    K.FoundIsUnique(s.keys, h);
  }

  lemma {:induction false} RunsKeepInv(s: State, steps: seq<Step>, t: State)
    requires Inv(s) && Leads(s, steps, t)
    ensures Inv(t)
    decreases |steps|
  {
    hide Inv, Next;
    if steps != [] {
      StepKeepsInv(s, steps[0]);
      RunsKeepInv(Next(s, steps[0]), steps[1..], t);
    }
  }

  /** After every run from a new database the set of all origins, the index per tenant and the
      table agree. */
  lemma OriginsAgree(steps: seq<Step>, s: State, o: string)
    requires Leads(EMPTY, steps, s)
    ensures o in s.origins.any <==> exists t :: O.Owns(s.origins.byTenant, t, o)
    ensures o in s.origins.any <==> exists id :: id in s.origins.table && s.origins.table[id].origin == o
  {
    hide K.Match, T.Match, D.Match, O.Match, K.GoodCache, O.Owns, Leads;
    EmptyIsGood();
    RunsKeepInv(EMPTY, steps, s);
    O.RegisteredIffOwned(s.origins, o);
  }

  // ---- Restart ------------------------------------------------------------------------------

  /** The caches of a store opened on the tables of `s`. */
  ghost predicate IsReopened(s: State, r: State) {
    && r.keys == K.KeyState(s.keys.table, K.Reload(s.keys.table))
    && r.tenants == T.TenantState(s.tenants.table, T.Reload(s.tenants.table))
    && r.dictionaries == D.DictionaryState(s.dictionaries.table, D.Reload(s.dictionaries.table))
    && r.origins.table == s.origins.table && O.Match(r.origins)
  }

  /** The caches answer alike, but for use times, request counts and empty origin maps. */
  ghost predicate Indistinguishable(r: State, s: State) {
    && K.AgreeButUse(r.keys.cache, s.keys.cache)
    && T.AgreeButCount(r.tenants.cache, s.tenants.cache)
    && O.AgreeOnOrigins(r.origins.any, r.origins.byTenant, s.origins.any, s.origins.byTenant)
    && r.dictionaries.cache == s.dictionaries.cache
  }

  /** Every expiry and every billing period in the caches lies below 2^63. */
  ghost predicate TimesFit(s: State) {
    && (forall h :: h in s.keys.cache ==> K.Survives(s.keys.cache[h]))
    && (forall id :: id in s.tenants.cache ==> TenantFits(s.tenants.cache[id]))
  }

  lemma DictionariesReload(s: D.DictionaryState)
    requires D.Match(s)
    ensures s.cache == D.Reload(s.table)
  {
  }

  /** A restart after any sequence of successful operations is invisible exactly when every
      optional time in the caches fits the database's signed integers. */
  lemma RestartIsInvisible(s0: State, steps: seq<Step>, s: State, r: State)
    requires Inv(s0) && Leads(s0, steps, s) && IsReopened(s, r)
    ensures Indistinguishable(r, s) <==> TimesFit(s)
  {
    hide K.Match, T.Match, O.Match, D.Match, K.AgreeButUse, T.AgreeButCount, O.AgreeOnOrigins, K.Reload, T.Reload, Leads;
    RunsKeepInv(s0, steps, s);
    K.RestartKeepsKeys(s.keys);
    T.RestartKeepsTenants(s.tenants);
    var (ro, so) := (r.origins, s.origins);
    assert ro == O.OriginState(so.table, ro.any, ro.byTenant) && so == O.OriginState(so.table, so.any, so.byTenant);
    O.MatchesAgree(so.table, ro.any, ro.byTenant, so.any, so.byTenant);
    DictionariesReload(s.dictionaries);
  }

  lemma StepKeepsTenantTimes(s: State, step: Step)
    requires Enabled(s, step) && ArgumentsFit(step)
    requires forall id :: id in s.tenants.cache ==> TenantFits(s.tenants.cache[id])
    ensures forall id :: id in Next(s, step).tenants.cache ==> TenantFits(Next(s, step).tenants.cache[id])
  {
    hide IsNewKey, K.IsFresh;
  }

  /** In the invariant a record survives exactly when its expiry does. */
  lemma GoodKeysSurvive(s: State)
    requires Inv(s)
    ensures K.GoodCache(s.keys.cache, true) <==> forall h :: h in s.keys.cache ==> K.Survives(s.keys.cache[h])
  {
    forall h | h in s.keys.cache
      ensures K.GoodRecord(s.keys.cache[h], true) <==> K.Survives(s.keys.cache[h])
    {
      assert K.RowMatches(s.keys.cache[h].id, s.keys.table[s.keys.cache[h].id], s.keys.cache[h]);
      assert K.GoodRecord(s.keys.cache[h], false);
    }
    hide K.RowMatches;
  }

  lemma StepKeepsTimes(s: State, step: Step)
    requires Inv(s) && TimesFit(s) && Enabled(s, step) && ArgumentsFit(step)
    ensures TimesFit(Next(s, step))
  {
    GoodKeysSurvive(s);
    StepKeepsInv(s, step);
    StepKeepsGoodKeys(s, step, true);
    StepKeepsTenantTimes(s, step);
    GoodKeysSurvive(Next(s, step));
    hide Inv, Next, K.GoodCache;
  }

  /** With such arguments throughout, every restart is invisible. */
  lemma {:induction false} RunsKeepTimes(s: State, steps: seq<Step>, t: State)
    requires Inv(s) && TimesFit(s) && Leads(s, steps, t) && forall i :: 0 <= i < |steps| ==> ArgumentsFit(steps[i])
    ensures TimesFit(t)
    decreases |steps|
  {
    hide Inv, TimesFit, Next, ArgumentsFit;
    if steps != [] {
      StepKeepsTimes(s, steps[0]);
      StepKeepsInv(s, steps[0]);
      RunsKeepTimes(Next(s, steps[0]), steps[1..], t);
    }
  }

  lemma ReloadedKeysAreGood(s: K.KeyState)
    requires K.Match(s)
    ensures K.Match(K.KeyState(s.table, K.Reload(s.table))) && K.GoodCache(K.Reload(s.table), false)
    ensures forall h :: h in K.Reload(s.table) ==> K.Survives(K.Reload(s.table)[h])
  {
    K.MatchIsUnique(s);
    forall id | id in s.table
      ensures s.table[id].revokedAt.Some? ==> s.table[id].revokedAt.value >= 0
    {
      assert K.RowMatches(id, s.table[id], s.cache[s.table[id].keyHash]);
    }
    K.ReloadMatches(s.table);
    forall h | h in K.Reload(s.table)
      ensures K.Survives(K.Reload(s.table)[h]) && K.GoodRecord(K.Reload(s.table)[h], false)
    {
      var id := K.IdByHash(s.table, h);
      ReadIsStable(id, s.table[id]);
    }
    hide K.Match;
  }

  /** A store opened on the tables of a good one is good, and every time in it fits. */
  lemma ReopenedIsGood(s: State, r: State)
    requires Inv(s) && IsReopened(s, r)
    ensures Inv(r) && TimesFit(r)
  {
    hide K.Match, K.Reload, K.GoodCache, T.Match, O.Match, K.Survives;
    ReloadedKeysAreGood(s.keys);
    T.ReloadMatches(s.tenants.table);
  }

  /** One expiry past 2^63 is enough: the restarted server reads it as no expiry at all. */
  lemma HugeExpiryIsLost()
    ensures ReadTime(BindTime(Some(TWO_63))) == None
  {
    TimeRoundTrip(Some(TWO_63));
  }
}
