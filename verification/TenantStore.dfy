/** Tenants: the `tenants` table and its cache by id (`src/store.rs`, "Tenants"). */
module TenantStore {
  import opened Prelude
  import opened StoreRows

  type TenantTable = map<string, TenantRow>
  type TenantCache = map<string, TenantInfo>

  datatype TenantState = TenantState(table: TenantTable, cache: TenantCache)

  const DEFAULT_LANGUAGE := "en_US"

  /** The fields of an `update_tenant` call; `None` leaves a field alone, and the two periods can
      also be set to nothing. */
  datatype Patch = Patch(
    name: Option<string>, language: Option<string>, quotaLimit: Option<U64>, requestCount: Option<nat>,
    periodStart: Option<Option<U64>>, periodEnd: Option<Option<U64>>)

  function OrElse<T>(o: Option<T>, d: T): T { match o case Some(v) => v case None => d }

  function ApplyPatch(info: TenantInfo, p: Patch): TenantInfo {
    info.(name := OrElse(p.name, info.name), language := OrElse(p.language, info.language),
          quotaLimit := OrElse(p.quotaLimit, info.quotaLimit), requestCount := OrElse(p.requestCount, info.requestCount),
          periodStart := OrElse(p.periodStart, info.periodStart), periodEnd := OrElse(p.periodEnd, info.periodEnd))
  }

  /** `r` is `info` with the given fields replaced and every other field kept. */
  predicate IsPatched(info: TenantInfo, p: Patch, r: TenantInfo) {
    && r.id == info.id && r.suspendedAt == info.suspendedAt && r.createdAt == info.createdAt
    && r.name == (if p.name.Some? then p.name.value else info.name)
    && r.language == (if p.language.Some? then p.language.value else info.language)
    && r.quotaLimit == (if p.quotaLimit.Some? then p.quotaLimit.value else info.quotaLimit)
    && r.requestCount == (if p.requestCount.Some? then p.requestCount.value else info.requestCount)
    && r.periodStart == (if p.periodStart.Some? then p.periodStart.value else info.periodStart)
    && r.periodEnd == (if p.periodEnd.Some? then p.periodEnd.value else info.periodEnd)
  }

  lemma PatchReplacesGiven(info: TenantInfo, p: Patch)
    ensures IsPatched(info, p, ApplyPatch(info, p))
  {
  }

  // ---- Operations ------------------------------------------------------------------

  function CreateTenant(s: TenantState, info: TenantInfo): TenantState {
    TenantState(s.table[info.id := BindTenant(info)], s.cache[info.id := info])
  }

  /** The cache half of `update_tenant`: the snapshot it takes under the lock. */
  function PatchCache(cache: TenantCache, id: string, p: Patch): TenantCache {
    if id in cache then cache[id := ApplyPatch(cache[id], p)] else cache
  }

  /** The database half: every column of the snapshot but the suspension and creation times. */
  function WriteSnapshot(table: TenantTable, id: string, snapshot: TenantInfo): TenantTable {
    if id !in table then table
    else
      var row := BindTenant(snapshot);
      table[id := table[id].(name := row.name, language := row.language, quotaLimit := row.quotaLimit,
                             requestCount := row.requestCount, periodStart := row.periodStart, periodEnd := row.periodEnd)]
  }

  lemma SnapshotTouchesOneRow(table: TenantTable, id: string, snapshot: TenantInfo)
    ensures WriteSnapshot(table, id, snapshot) - {id} == table - {id}
  {
  }

  function UpdateTenant(s: TenantState, id: string, p: Patch): (TenantState, Option<TenantInfo>) {
    if id !in s.cache then (s, None)
    else
      var cache := PatchCache(s.cache, id, p);
      (TenantState(WriteSnapshot(s.table, id, cache[id]), cache), Some(cache[id]))
  }

  /** The critical section of `try_consume_quota`. A limit of 0 means unlimited. */
  function TryConsume(cache: TenantCache, id: string): (TenantCache, bool) {
    if id !in cache then (cache, false)
    else if cache[id].quotaLimit > 0 && cache[id].requestCount >= cache[id].quotaLimit then (cache, false)
    else (cache[id := cache[id].(requestCount := cache[id].requestCount + 1)], true)
  }

  /** The deferred write of `try_consume_quota`. */
  function WriteCount(table: TenantTable, id: string, count: nat): TenantTable {
    if id in table then table[id := table[id].(requestCount := count)] else table
  }

  function SetSuspended(s: TenantState, id: string, suspendedAt: Option<U64>): TenantState {
    if id !in s.cache then s
    else
      TenantState(if id in s.table then s.table[id := s.table[id].(suspendedAt := BindTime(suspendedAt))] else s.table,
                  s.cache[id := s.cache[id].(suspendedAt := suspendedAt)])
  }

  // ---- Restart -----------------------------------------------------------------------

  function Reload(table: TenantTable): TenantCache { map id | id in table :: ReadTenant(id, table[id]) }

  method ReloadTenants(table: TenantTable) returns (cache: TenantCache)
    ensures cache == Reload(table)
  {
    cache := map[];
    var rest := table.Keys;
    while rest != {}
      invariant rest <= table.Keys
      invariant cache.Keys == table.Keys - rest
      invariant forall id :: id in cache ==> cache[id] == ReadTenant(id, table[id])
    {
      var id :| id in rest;
      cache := cache[id := ReadTenant(id, table[id])];
      rest := rest - {id};
    }
  }

  predicate SameButCount(a: TenantInfo, b: TenantInfo) { a.(requestCount := 0) == b.(requestCount := 0) }

  ghost predicate AgreeButCount(a: TenantCache, b: TenantCache) {
    a.Keys == b.Keys && forall id :: id in a ==> SameButCount(a[id], b[id])
  }

  function Stored(t: TenantInfo): TenantInfo { ReadTenant(t.id, BindTenant(t)) }

  predicate RowMatches(id: string, row: TenantRow, t: TenantInfo) {
    t.id == id && SameButCount(ReadTenant(id, row), Stored(t))
  }

  /** Table and cache hold the same tenants, each row reading back as its record would. */
  ghost predicate Match(s: TenantState) {
    s.table.Keys == s.cache.Keys && forall id :: id in s.cache ==> RowMatches(id, s.table[id], s.cache[id])
  }

  lemma StoredFits(t: TenantInfo)
    ensures SameButCount(Stored(t), t) <==> TenantFits(t)
  {
    TimeRoundTrip(t.periodStart);
    TimeRoundTrip(t.periodEnd);
    TimeRoundTrip(t.suspendedAt);
    IntegersRoundTrip(t.createdAt);
    IntegersRoundTrip(t.quotaLimit);
  }

  lemma ReloadMatches(table: TenantTable)
    ensures Match(TenantState(table, Reload(table)))
  {
    forall id | id in table
      ensures RowMatches(id, table[id], ReadTenant(id, table[id]))
    {
      TenantRoundTrip(ReadTenant(id, table[id]));
    }
  }

  lemma CreateMatches(s: TenantState, info: TenantInfo)
    requires Match(s)
    ensures Match(CreateTenant(s, info))
  {
    assert RowMatches(info.id, BindTenant(info), info);
    hide RowMatches;
  }

  lemma SnapshotMatches(id: string, row: TenantRow, t: TenantInfo, p: Patch)
    requires RowMatches(id, row, t)
    ensures var t' := ApplyPatch(t, p);
            RowMatches(id, WriteSnapshot(map[id := row], id, t')[id], t')
  {
  }

  lemma UpdateMatches(s: TenantState, id: string, p: Patch)
    requires Match(s)
    ensures Match(UpdateTenant(s, id, p).0)
  {
    hide RowMatches;
    if id in s.cache {
      SnapshotMatches(id, s.table[id], s.cache[id], p);
      assert WriteSnapshot(s.table, id, ApplyPatch(s.cache[id], p))[id] ==
             WriteSnapshot(map[id := s.table[id]], id, ApplyPatch(s.cache[id], p))[id];
    }
  }

  lemma CountMatches(id: string, row: TenantRow, t: TenantInfo, count: nat, count': nat)
    requires RowMatches(id, row, t)
    ensures RowMatches(id, row.(requestCount := count), t.(requestCount := count'))
  {
  }

  lemma ConsumeMatches(s: TenantState, id: string)
    requires Match(s)
    ensures Match(s.(cache := TryConsume(s.cache, id).0))
  {
    hide RowMatches;
    if id in s.cache {
      CountMatches(id, s.table[id], s.cache[id], s.table[id].requestCount, s.cache[id].requestCount + 1);
    }
  }

  lemma WriteCountMatches(s: TenantState, id: string, count: nat)
    requires Match(s)
    ensures Match(s.(table := WriteCount(s.table, id, count)))
  {
    hide RowMatches;
    if id in s.table {
      CountMatches(id, s.table[id], s.cache[id], count, s.cache[id].requestCount);
    }
  }

  lemma SuspendMatches(s: TenantState, id: string, suspendedAt: Option<U64>)
    requires Match(s)
    ensures Match(SetSuspended(s, id, suspendedAt))
  {
    if id in s.cache {
      var (row, t) := (s.table[id], s.cache[id]);
      assert RowMatches(id, row, t);
      assert RowMatches(id, row.(suspendedAt := BindTime(suspendedAt)), t.(suspendedAt := suspendedAt));
      hide RowMatches;
    }
  }

  /** Reloading gives back the running cache, request counts aside, exactly when every cached
      tenant's optional times stay below 2^63. */
  lemma RestartKeepsTenants(s: TenantState)
    requires Match(s)
    ensures AgreeButCount(Reload(s.table), s.cache) <==> forall id :: id in s.cache ==> TenantFits(s.cache[id])
  {
    var fresh' := Reload(s.table);
    forall id | id in s.cache
      ensures SameButCount(fresh'[id], s.cache[id]) <==> TenantFits(s.cache[id])
    {
      assert RowMatches(id, s.table[id], s.cache[id]);
      StoredFits(s.cache[id]);
    }
  }

  /** `update_tenant` changes the cache before the database: if the database then refuses, a
      restart undoes the patch, unless the patch would not have changed anything stored. */
  lemma RefusedUpdateIsUndone(s: TenantState, id: string, p: Patch)
    requires Match(s) && id in s.cache
    ensures Match(s.(cache := PatchCache(s.cache, id, p))) <==>
            SameButCount(Stored(ApplyPatch(s.cache[id], p)), Stored(s.cache[id]))
  {
    assert RowMatches(id, s.table[id], s.cache[id]);
    var t := s.(cache := PatchCache(s.cache, id, p));
    assert t.table.Keys == t.cache.Keys;
    assert forall k :: k in s.cache && k != id ==> t.cache[k] == s.cache[k];
    assert RowMatches(id, t.table[id], t.cache[id]) <==>
           SameButCount(Stored(ApplyPatch(s.cache[id], p)), Stored(s.cache[id]));
    hide RowMatches;
  }
}
