/** `Store` (`src/store.rs`): tables and caches updated in place. Every method is one step of
    `StoreMachine`; the tables stand for the database, which here refuses nothing but what its
    keys and constraints forbid. */
module Store {
  import opened Prelude
  import opened StoreRows
  import K = KeyStore
  import T = TenantStore
  import O = OriginStore
  import D = DictionaryStore
  import M = StoreMachine

  class Store {
    var keyTable: K.KeyTable
    var tenantTable: T.TenantTable
    var originTable: O.OriginTable
    var dictionaryTable: D.DictionaryTable

    var keys: K.KeyCache
    var tenants: T.TenantCache
    var originsAny: set<string>
    var originsByTenant: O.OriginIndex
    var dictionaries: D.DictionaryCache

    ghost function State(): M.State
      reads this
    {
      M.State(K.KeyState(keyTable, keys), T.TenantState(tenantTable, tenants),
              O.OriginState(originTable, originsAny, originsByTenant), D.DictionaryState(dictionaryTable, dictionaries))
    }

    ghost predicate Valid()
      reads this
    {
      M.Inv(State())
    }

    /** Opening a store on existing tables: empty maps, then `reload_caches`. */
    constructor (keyRows: K.KeyTable, tenantRows: T.TenantTable, originRows: O.OriginTable, dictionaryRows: D.DictionaryTable)
      requires K.UniqueHashes(keyRows) && O.UniquePairs(originRows)
      ensures keyTable == keyRows && tenantTable == tenantRows && originTable == originRows && dictionaryTable == dictionaryRows
      ensures keys == K.Reload(keyRows) && tenants == T.Reload(tenantRows) && dictionaries == D.Reload(dictionaryRows)
      ensures O.Match(State().origins)
    {
      hide K.Reload, T.Reload, D.Reload, O.Match, K.UniqueHashes, O.UniquePairs;
      keyTable, tenantTable, originTable, dictionaryTable := keyRows, tenantRows, originRows, dictionaryRows;
      var k := K.ReloadKeys(keyRows);
      var t := T.ReloadTenants(tenantRows);
      var any, byTenant := O.ReloadOrigins(originRows);
      var d := D.ReloadDictionaries(dictionaryRows);
      keys, tenants, originsAny, originsByTenant, dictionaries := k, t, any, byTenant, d;
    }

    /** Nothing changed but, perhaps, the keys. */
    twostate predicate OnlyKeys()
      reads this
    {
      && tenantTable == old(tenantTable) && originTable == old(originTable) && dictionaryTable == old(dictionaryTable)
      && tenants == old(tenants) && originsAny == old(originsAny) && originsByTenant == old(originsByTenant)
      && dictionaries == old(dictionaries)
    }

    /** Nothing changed but, perhaps, the tenants. */
    twostate predicate OnlyTenants()
      reads this
    {
      && keyTable == old(keyTable) && originTable == old(originTable) && dictionaryTable == old(dictionaryTable)
      && keys == old(keys) && originsAny == old(originsAny) && originsByTenant == old(originsByTenant)
      && dictionaries == old(dictionaries)
    }

    // ---- Keys ----------------------------------------------------------------------

    lemma NoneWithId(owned: set<string>, id: string)
      requires owned == {} && forall h :: h in owned <==> h in keys && keys[h].id == id
      ensures K.FindId(keys, id) == None
    {
      assert forall h :: h in keys && keys[h].id == id ==> h in owned;
    }

    lemma NoneOwned(owned: set<string>, tenantId: string, id: string)
      requires owned == {} && forall h :: h in owned <==> h in keys && keys[h].id == id && keys[h].tenantId == Some(tenantId)
      ensures K.FindOwned(keys, tenantId, id) == None
    {
      assert forall h :: K.Owned(keys, h, tenantId, id) ==> h in owned;
    }

    /** `create_key_internal` on a generated id and hash. `None` when the database refuses the row:
        the tenant does not exist. */
    method CreateKey(id: string, tenantId: Option<string>, title: string, role: Role, hash: string, now: Clock,
                     expiresAt: Option<U64>)
      returns (created: Option<KeyRecord>)
      requires Valid() && K.IsFresh(State().keys, id, hash)
      modifies this
      ensures created == if tenantId.None? || tenantId.value in old(tenantTable)
                         then Some(KeyRecord(id, tenantId, title, role, hash, now, expiresAt, None, None)) else None
      ensures keys == if created.Some? then old(keys)[hash := created.value] else old(keys)
      ensures keyTable == if created.Some? then old(keyTable)[id := BindKey(created.value)] else old(keyTable)
      ensures OnlyKeys()
      ensures State() == M.Next(old(State()), M.CreateKey(K.NewRecord(id, tenantId, title, role, hash, now, expiresAt)))
      ensures Valid()
    {
      hide M.Inv, K.Revoke, K.Rotate, K.ResetBootstrap, K.Authenticate, K.Touch, K.LandTouch, T.CreateTenant,
        T.UpdateTenant, T.TryConsume, T.WriteCount, T.SetSuspended, O.Register, O.Revoke, D.Register;
      ghost var step := M.CreateKey(K.NewRecord(id, tenantId, title, role, hash, now, expiresAt));
      M.StepKeepsInv(State(), step);
      if tenantId.Some? && tenantId.value !in tenantTable {
        return None;
      }
      keyTable := keyTable[id := KeyRow(tenantId, title, role, hash, AsI64(now), BindTime(expiresAt), None, None)];
      var record := KeyRecord(id, tenantId, title, role, hash, now, expiresAt, None, None);
      keys := keys[hash := record];
      return Some(record);
    }

    method RevokeKey(tenantId: string, id: string, now: Clock) returns (found: bool)
      requires Valid()
      modifies this
      ensures found == K.Revoke(old(State()).keys, tenantId, id, now).1
      ensures found <==> K.HasKey(old(keys), tenantId, id)
      ensures K.KeysRevoked(old(keys), keys, tenantId, id, now)
      ensures OnlyKeys()
      ensures State() == M.Next(old(State()), M.RevokeKey(tenantId, id, now)) && Valid()
    {
      hide K.RevokeRow, K.RevokeRecord, K.Match, K.Revoke, K.FindOwned, K.KeysRevoked, K.HasKey, M.Inv, K.Rotate,
        K.ResetBootstrap, K.Authenticate, K.Touch, K.LandTouch, K.Create,
        T.CreateTenant, T.UpdateTenant, T.TryConsume, T.WriteCount, T.SetSuspended, O.Register, O.Revoke, D.Register;
      M.StepKeepsInv(State(), M.RevokeKey(tenantId, id, now));
      M.KeysMatch(State());
      K.RevokesExactly(State().keys, tenantId, id, now);
      var owned := set h | h in keys && keys[h].id == id && keys[h].tenantId == Some(tenantId);
      if owned == {} {
        NoneOwned(owned, tenantId, id);
        K.RevokeNothing(State().keys, tenantId, id, now);
        return false;
      }
      var hash :| hash in owned;
      K.RevokeFound(State().keys, tenantId, id, now, hash);
      RevokeFound(id, hash, now);
      return true;
    }

    /** The update of the row, then of the cached entry. */
    method RevokeFound(id: string, hash: string, now: Clock)
      requires hash in keys
      modifies this
      ensures keyTable == K.RevokeRow(old(keyTable), id, now) && keys == K.RevokeRecord(old(keys), hash, now)
      ensures OnlyKeys()
    {
      if id in keyTable && keyTable[id].revokedAt.None? {
        keyTable := keyTable[id := keyTable[id].(revokedAt := Some(now))];
      }
      if keys[hash].revokedAt.None? {
        keys := keys[hash := keys[hash].(revokedAt := Some(now))];
      }
    }

    /** `rotate_key_by_hash`; the cached entry is there because the caller has just found it. */
    method RotateKeyByHash(oldHash: string, id: string, newHash: string) returns (record: KeyRecord)
      requires oldHash in keys
      modifies this
      ensures State() == old(State()).(keys := K.RotateByHash(old(State()).keys, oldHash, id, newHash))
      ensures record == old(keys)[oldHash].(keyHash := newHash, lastUsedAt := None)
    {
      if id in keyTable {
        keyTable := keyTable[id := keyTable[id].(keyHash := newHash, lastUsedAt := None)];
      }
      record := keys[oldHash];
      keys := keys - {oldHash};
      record := record.(keyHash := newHash, lastUsedAt := None);
      keys := keys[newHash := record];
    }

    method RotateKey(tenantId: string, id: string, newHash: string) returns (r: Option<KeyRecord>)
      requires Valid() && M.Enabled(State(), M.RotateKey(tenantId, id, newHash))
      modifies this
      ensures r == K.Rotate(old(State()).keys, tenantId, id, newHash).1
      ensures r.Some? <==> K.HasKey(old(keys), tenantId, id)
      ensures K.KeysRotated(old(keys), keys, tenantId, id, newHash, r)
      ensures OnlyKeys()
      ensures State() == M.Next(old(State()), M.RotateKey(tenantId, id, newHash)) && Valid()
    {
      hide K.FindOwned, K.KeysRotated, K.HasKey, M.Inv, K.Revoke, K.ResetBootstrap, K.Authenticate, K.Touch, K.LandTouch, K.Create,
        T.CreateTenant, T.UpdateTenant, T.TryConsume, T.WriteCount, T.SetSuspended, O.Register, O.Revoke, D.Register;
      M.StepKeepsInv(State(), M.RotateKey(tenantId, id, newHash));
      M.KeysMatch(State());
      K.RotatesExactly(State().keys, tenantId, id, newHash);
      var owned := set h | h in keys && keys[h].id == id && keys[h].tenantId == Some(tenantId);
      if owned == {} {
        NoneOwned(owned, tenantId, id);
        return None;
      }
      var oldHash :| oldHash in owned;
      M.FoundIsUnique(State(), oldHash);
      var record := RotateKeyByHash(oldHash, id, newHash);
      return Some(record);
    }

    method ResetBootstrapPlatformKey(now: Clock, newId: string, newHash: string) returns (r: K.ResetResult)
      requires Valid() && K.IsFresh(State().keys, newId, newHash)
      modifies this
      ensures r == K.ResetBootstrap(old(State()).keys, now, newId, newHash).1
      ensures K.ResetOutcome(old(keys), keys, now, newId, newHash, r)
      ensures OnlyKeys()
      ensures State() == M.Next(old(State()), M.ResetBootstrap(now, newId, newHash)) && Valid()
    {
      hide K.ResetOutcome, M.Inv, K.Revoke, K.Rotate, K.Authenticate, K.Touch, K.LandTouch, T.CreateTenant, T.UpdateTenant,
        T.TryConsume, T.WriteCount, T.SetSuspended, O.Register, O.Revoke, D.Register;
      M.StepKeepsInv(State(), M.ResetBootstrap(now, newId, newHash));
      K.ResetsExactly(State().keys, now, newId, newHash);
      var found := set h | h in keys && K.IsBootstrap(keys[h], now);
      assert found == K.Bootstraps(keys, now);
      if |found| == 0 {
        var record := K.NewRecord(newId, None, "bootstrap", Platform, newHash, now, None);
        keyTable := keyTable[newId := BindKey(record)];
        keys := keys[newHash := record];
        return K.ResetTo(record);
      } else if |found| == 1 {
        var h :| h in found;
        K.Singleton(found, h);
        var record := RotateKeyByHash(h, keys[h].id, newHash);
        return K.ResetTo(record);
      }
      return K.AmbiguousReset(|found|);
    }

    method Authenticate(hash: string, now: Clock) returns (r: Option<KeyRecord>)
      requires Valid()
      modifies this
      ensures r == K.Authenticate(old(State()).keys, hash, now).1
      ensures r.Some? ==> r.value.keyHash == hash && r.value.revokedAt.None?
      ensures r.Some? ==> (r.value.expiresAt.Some? ==> now < r.value.expiresAt.value)
      ensures r.Some? <==> K.MayAuthenticate(old(keys), keyTable, hash, now)
      ensures keyTable == old(keyTable) && OnlyKeys()
      ensures State() == M.Next(old(State()), M.Authenticate(hash, now)) && Valid()
    {
      hide K.Authenticate, K.MayAuthenticate, K.WithoutId, ReadKey, K.Match, M.Inv, K.Revoke, K.Rotate, K.ResetBootstrap,
        K.Touch, K.LandTouch, K.Create, T.CreateTenant, T.UpdateTenant, T.TryConsume, T.WriteCount, T.SetSuspended,
        O.Register, O.Revoke, D.Register;
      M.StepKeepsInv(State(), M.Authenticate(hash, now));
      M.KeysAreUnique(State());
      M.KeysMatch(State());
      K.AuthenticatesExactly(State().keys, hash, now);
      if hash in keys && keys[hash].IsActive(now) {
        K.HitReturnsCached(State().keys, hash, now);
        return Some(keys[hash]);
      }
      var rows := set id | id in keyTable && keyTable[id].keyHash == hash;
      if rows == {} {
        assert forall id :: id in keyTable ==> id !in rows;
        K.MissWithoutRow(State().keys, hash, now);
        return None;
      }
      var id :| id in rows;
      K.MissReadsRow(State().keys, id, hash, now);
      var record := ReadKey(id, keyTable[id]);
      if !record.IsActive(now) {
        return None;
      }
      keys := K.WithoutId(keys, id)[hash := record];
      return Some(record);
    }

    /** The synchronous half; `LandLastUsed` is the write it leaves behind. */
    method TouchLastUsed(id: string, now: Clock)
      requires Valid()
      modifies this
      ensures State() == M.Next(old(State()), M.TouchLastUsed(id, now)) && Valid()
      ensures keys.Keys == old(keys).Keys && keyTable == old(keyTable) && OnlyKeys()
      ensures forall h :: h in keys ==>
                keys[h] == if old(keys)[h].id == id then old(keys)[h].(lastUsedAt := Some(now)) else old(keys)[h]
    {
      hide M.Inv, K.Revoke, K.Rotate, K.ResetBootstrap, K.Authenticate, K.LandTouch, K.FindId, K.Create,
        T.CreateTenant, T.UpdateTenant, T.TryConsume, T.WriteCount, T.SetSuspended, O.Register, O.Revoke, D.Register;
      M.StepKeepsInv(State(), M.TouchLastUsed(id, now));
      var owned := set h | h in keys && keys[h].id == id;
      if owned != {} {
        var hash :| hash in owned;
        M.FoundIsUnique(old(State()), hash);
        M.KeysAreUnique(old(State()));
        keys := keys[hash := keys[hash].(lastUsedAt := Some(now))];
      } else {
        NoneWithId(owned, id);
      }
    }

    method LandLastUsed(id: string, now: Clock)
      requires Valid()
      modifies this
      ensures State() == M.Next(old(State()), M.LandLastUsed(id, now)) && Valid()
      ensures keyTable == if id in old(keyTable) then old(keyTable)[id := old(keyTable)[id].(lastUsedAt := Some(now))]
                          else old(keyTable)
      ensures keys == old(keys) && OnlyKeys()
    {
      hide M.Inv, K.Revoke, K.Rotate, K.ResetBootstrap, K.Authenticate, K.Touch, K.Create, T.CreateTenant,
        T.UpdateTenant, T.TryConsume, T.WriteCount, T.SetSuspended, O.Register, O.Revoke, D.Register;
      M.StepKeepsInv(State(), M.LandLastUsed(id, now));
      if id in keyTable {
        keyTable := keyTable[id := keyTable[id].(lastUsedAt := Some(now))];
      }
    }

    // ---- Tenants --------------------------------------------------------------------

    /** A new tenant and its first admin key, both under generated ids. */
    method CreateTenant(id: string, name: string, language: Option<string>, quotaLimit: Option<U64>,
                        periodStart: Option<U64>, periodEnd: Option<U64>, now: Clock, keyId: string, hash: string)
      returns (info: TenantInfo, adminKey: KeyRecord)
      requires Valid() && id != "" && id !in tenantTable && K.IsFresh(State().keys, keyId, hash)
      modifies this
      ensures info == TenantInfo(id, name, if language.Some? then language.value else "en_US",
                                 if quotaLimit.Some? then quotaLimit.value else 0, 0, periodStart, periodEnd, None, now)
      ensures adminKey == KeyRecord(keyId, Some(id), "default", Admin, hash, now, None, None, None)
      ensures tenants == old(tenants)[id := info] && tenantTable == old(tenantTable)[id := BindTenant(info)]
      ensures keys == old(keys)[hash := adminKey] && keyTable == old(keyTable)[keyId := BindKey(adminKey)]
      ensures originTable == old(originTable) && originsAny == old(originsAny) && originsByTenant == old(originsByTenant)
      ensures State() == M.Next(old(State()), M.CreateTenant(info, adminKey)) && Valid()
    {
      hide M.Inv, K.Revoke, K.Rotate, K.ResetBootstrap, K.Authenticate, K.Touch, K.LandTouch,
        T.UpdateTenant, T.TryConsume, T.WriteCount, T.SetSuspended, O.Register, O.Revoke, D.Register;
      var language' := if language.Some? then language.value else T.DEFAULT_LANGUAGE;
      var quotaLimit' := if quotaLimit.Some? then quotaLimit.value else 0;
      info := TenantInfo(id, name, language', quotaLimit', 0, periodStart, periodEnd, None, now);
      adminKey := KeyRecord(keyId, Some(id), "default", Admin, hash, now, None, None, None);
      M.StepKeepsInv(State(), M.CreateTenant(info, adminKey));
      tenantTable := tenantTable[id := TenantRow(name, language', AsI64(quotaLimit'), 0,
                                                 BindTime(periodStart), BindTime(periodEnd), None, AsI64(now))];
      tenants := tenants[id := info];
      keyTable := keyTable[keyId := BindKey(adminKey)];
      keys := keys[hash := adminKey];
    }

    /** Cache first, then the row. */
    method UpdateTenant(id: string, patch: T.Patch) returns (r: Option<TenantInfo>)
      requires Valid()
      modifies this
      ensures r == T.UpdateTenant(old(State()).tenants, id, patch).1
      ensures r.Some? <==> id in old(tenants)
      ensures r.Some? ==> id in tenants && r.value == tenants[id] && T.IsPatched(old(tenants)[id], patch, r.value)
      ensures tenants - {id} == old(tenants) - {id} && tenantTable - {id} == old(tenantTable) - {id}
      ensures OnlyTenants()
      ensures State() == M.Next(old(State()), M.UpdateTenant(id, patch)) && Valid()
    {
      hide M.Inv, K.Revoke, K.Rotate, K.ResetBootstrap, K.Authenticate, K.Touch, K.LandTouch, K.Create,
        T.CreateTenant, T.TryConsume, T.WriteCount, T.SetSuspended, O.Register, O.Revoke, D.Register, T.IsPatched, T.WriteSnapshot;
      M.StepKeepsInv(State(), M.UpdateTenant(id, patch));
      if id in tenants {
        T.PatchReplacesGiven(tenants[id], patch);
      }
      if id !in tenants {
        return None;
      }
      var info := tenants[id];
      if patch.name.Some? { info := info.(name := patch.name.value); }
      if patch.language.Some? { info := info.(language := patch.language.value); }
      if patch.quotaLimit.Some? { info := info.(quotaLimit := patch.quotaLimit.value); }
      if patch.requestCount.Some? { info := info.(requestCount := patch.requestCount.value); }
      if patch.periodStart.Some? { info := info.(periodStart := patch.periodStart.value); }
      if patch.periodEnd.Some? { info := info.(periodEnd := patch.periodEnd.value); }
      assert info == T.ApplyPatch(tenants[id], patch);
      tenants := tenants[id := info];
      T.SnapshotTouchesOneRow(tenantTable, id, info);
      tenantTable := T.WriteSnapshot(tenantTable, id, info);
      return Some(info);
    }

    /** The critical section; `LandRequestCount` is the write it leaves behind. */
    method TryConsumeQuota(id: string) returns (admitted: bool)
      requires Valid()
      modifies this
      ensures admitted == T.TryConsume(old(tenants), id).1
      ensures admitted <==> id in old(tenants)
                            && (old(tenants)[id].quotaLimit == 0 || old(tenants)[id].requestCount < old(tenants)[id].quotaLimit)
      ensures tenants == if admitted
                         then old(tenants)[id := old(tenants)[id].(requestCount := old(tenants)[id].requestCount + 1)]
                         else old(tenants)
      ensures tenantTable == old(tenantTable) && OnlyTenants()
      ensures State() == M.Next(old(State()), M.TryConsumeQuota(id)) && Valid()
    {
      hide M.Inv, K.Revoke, K.Rotate, K.ResetBootstrap, K.Authenticate, K.Touch, K.LandTouch, K.Create,
        T.CreateTenant, T.UpdateTenant, T.WriteCount, T.SetSuspended, O.Register, O.Revoke, D.Register;
      M.StepKeepsInv(State(), M.TryConsumeQuota(id));
      if id !in tenants {
        return false;
      }
      var tenant := tenants[id];
      if tenant.quotaLimit > 0 && tenant.requestCount >= tenant.quotaLimit {
        return false;
      }
      tenants := tenants[id := tenant.(requestCount := tenant.requestCount + 1)];
      return true;
    }

    method LandRequestCount(id: string, count: nat)
      requires Valid()
      modifies this
      ensures State() == M.Next(old(State()), M.LandRequestCount(id, count)) && Valid()
      ensures tenantTable == if id in old(tenantTable) then old(tenantTable)[id := old(tenantTable)[id].(requestCount := count)]
                             else old(tenantTable)
      ensures tenants == old(tenants) && OnlyTenants()
    {
      hide M.Inv, K.Revoke, K.Rotate, K.ResetBootstrap, K.Authenticate, K.Touch, K.LandTouch, K.Create,
        T.CreateTenant, T.UpdateTenant, T.TryConsume, T.SetSuspended, O.Register, O.Revoke, D.Register;
      M.StepKeepsInv(State(), M.LandRequestCount(id, count));
      if id in tenantTable {
        tenantTable := tenantTable[id := tenantTable[id].(requestCount := count)];
      }
    }

    method SetSuspended(id: string, suspended: bool, now: Clock) returns (found: bool)
      requires Valid()
      modifies this
      ensures found == (id in old(tenants))
      ensures tenants == if found then old(tenants)[id := old(tenants)[id].(suspendedAt := if suspended then Some(now) else None)]
                         else old(tenants)
      ensures found ==> id in old(tenantTable)
                        && tenantTable == old(tenantTable)[
                             id := old(tenantTable)[id].(suspendedAt := if suspended then Some(now) else None)]
      ensures !found ==> tenantTable == old(tenantTable)
      ensures OnlyTenants()
      ensures State() == M.Next(old(State()), M.SetSuspended(id, if suspended then Some(now) else None)) && Valid()
    {
      hide M.Inv, K.Revoke, K.Rotate, K.ResetBootstrap, K.Authenticate, K.Touch, K.LandTouch, K.Create,
        T.CreateTenant, T.UpdateTenant, T.TryConsume, T.WriteCount, O.Register, O.Revoke, D.Register;
      M.StepKeepsInv(State(), M.SetSuspended(id, if suspended then Some(now) else None));
      M.TenantKeys(State());
      if id !in tenants {
        return false;
      }
      var suspendedAt: Option<U64> := if suspended then Some(now) else None;
      if id in tenantTable {
        tenantTable := tenantTable[id := tenantTable[id].(suspendedAt := BindTime(suspendedAt))];
      }
      tenants := tenants[id := tenants[id].(suspendedAt := suspendedAt)];
      return true;
    }

    // ---- Origins -----------------------------------------------------------------------

    /** `None` when a constraint refuses the row: no such tenant, or the pair is registered. */
    method RegisterOrigin(id: string, tenantId: string, origin: string, now: Clock) returns (r: Option<OriginInfo>)
      requires Valid() && id !in originTable
      modifies this
      ensures r.Some? <==> tenantId in tenantTable
                           && !exists i :: i in old(originTable) && old(originTable)[i].tenantId == tenantId
                                           && old(originTable)[i].origin == origin
      ensures r.Some? ==> r.value == OriginInfo(id, tenantId, origin, now)
      ensures originTable == if r.Some? then old(originTable)[id := OriginRow(tenantId, origin, now)] else old(originTable)
      ensures keys == old(keys) && tenants == old(tenants) && dictionaries == old(dictionaries)
      ensures State() == M.Next(old(State()), M.RegisterOrigin(OriginInfo(id, tenantId, origin, now))) && Valid()
    {
      hide M.Inv, K.Revoke, K.Rotate, K.ResetBootstrap, K.Authenticate, K.Touch, K.LandTouch, K.Create, T.CreateTenant,
        T.UpdateTenant, T.TryConsume, T.WriteCount, T.SetSuspended, O.Revoke, D.Register;
      M.StepKeepsInv(State(), M.RegisterOrigin(OriginInfo(id, tenantId, origin, now)));
      if tenantId !in tenantTable || O.Taken(originTable, tenantId, origin) {
        return None;
      }
      originTable := originTable[id := OriginRow(tenantId, origin, AsI64(now))];
      var info := OriginInfo(id, tenantId, origin, now);
      originsAny := originsAny + {origin};
      var owned := if tenantId in originsByTenant then originsByTenant[tenantId] else map[];
      originsByTenant := originsByTenant[tenantId := owned[origin := info]];
      return Some(info);
    }

    method RevokeOrigin(tenantId: string, id: string) returns (found: bool)
      requires Valid()
      modifies this
      ensures found == (id in old(originTable) && old(originTable)[id].tenantId == tenantId)
      ensures originTable == if found then old(originTable) - {id} else old(originTable)
      ensures keys == old(keys) && tenants == old(tenants) && dictionaries == old(dictionaries)
      ensures State() == M.Next(old(State()), M.RevokeOrigin(tenantId, id)) && Valid()
    {
      hide M.Inv, K.Revoke, K.Rotate, K.ResetBootstrap, K.Authenticate, K.Touch, K.LandTouch, K.Create,
        T.CreateTenant, T.UpdateTenant, T.TryConsume, T.WriteCount, T.SetSuspended, O.Register, D.Register;
      M.StepKeepsInv(State(), M.RevokeOrigin(tenantId, id));
      if id !in originTable || originTable[id].tenantId != tenantId {
        return false;
      }
      var origin := originTable[id].origin;
      originTable := originTable - {id};
      if tenantId in originsByTenant {
        originsByTenant := originsByTenant[tenantId := originsByTenant[tenantId] - {origin}];
      }
      var stillOwned := exists t :: t in originsByTenant && origin in originsByTenant[t];
      if !stillOwned {
        originsAny := originsAny - {origin};
      }
      return true;
    }

    method TenantOwnsOrigin(tenantId: string, origin: string) returns (owns: bool)
      requires Valid()
      ensures owns == (tenantId in originsByTenant && origin in originsByTenant[tenantId])
      ensures owns <==> exists id :: id in originTable && originTable[id].tenantId == tenantId && originTable[id].origin == origin
    {
      owns := tenantId in originsByTenant && origin in originsByTenant[tenantId];
      if owns {
        assert O.Owns(originsByTenant, tenantId, origin);
        assert originsByTenant[tenantId][origin].id in originTable;
      }
    }

    // ---- Dictionaries -------------------------------------------------------------------

    /** The upsert, then the row as the database now has it. */
    method RegisterDictionary(code: string, sourceUrl: string, now: Clock) returns (stored: DictionaryInfo)
      requires Valid()
      modifies this
      ensures dictionaries == old(dictionaries)[code := stored] && stored.code == code && stored.sourceUrl == sourceUrl
      ensures stored.createdAt == if code in old(dictionaries) then old(dictionaries)[code].createdAt else now
      ensures keys == old(keys) && tenants == old(tenants) && originTable == old(originTable)
      ensures State() == M.Next(old(State()), M.RegisterDictionary(DictionaryInfo(code, sourceUrl, now))) && Valid()
    {
      hide M.Inv, K.Revoke, K.Rotate, K.ResetBootstrap, K.Authenticate, K.Touch, K.LandTouch, K.Create, T.CreateTenant,
        T.UpdateTenant, T.TryConsume, T.WriteCount, T.SetSuspended, O.Register, O.Revoke;
      M.StepKeepsInv(State(), M.RegisterDictionary(DictionaryInfo(code, sourceUrl, now)));
      M.DictionariesMatch(State());
      if code in dictionaryTable {
        dictionaryTable := dictionaryTable[code := dictionaryTable[code].(sourceUrl := sourceUrl)];
      } else {
        dictionaryTable := dictionaryTable[code := DictionaryRow(sourceUrl, AsI64(now))];
      }
      stored := ReadDictionary(code, dictionaryTable[code]);
      dictionaries := dictionaries[code := stored];
    }
  }
}
