/** Registered origins: the `tenant_origins` table, the index per tenant and the set of all
    origins (`src/store.rs`, "Origins"). Each operation is one atomic step. */
module OriginStore {
  import opened Prelude
  import opened StoreRows

  type OriginTable = map<string, OriginRow>
  type OriginIndex = map<string, map<string, OriginInfo>>

  datatype OriginState = OriginState(table: OriginTable, any: set<string>, byTenant: OriginIndex)

  function Lookup(byTenant: OriginIndex, tenantId: string, origin: string): Option<OriginInfo> {
    if tenantId in byTenant && origin in byTenant[tenantId] then Some(byTenant[tenantId][origin]) else None
  }

  /** `tenant_owns_origin`. */
  predicate Owns(byTenant: OriginIndex, tenantId: string, origin: string) { Lookup(byTenant, tenantId, origin).Some? }

  predicate SomeoneOwns(byTenant: OriginIndex, origin: string) {
    exists t :: t in byTenant && origin in byTenant[t]
  }

  /** The `UNIQUE(tenant_id, origin)` constraint would refuse this pair. */
  predicate Taken(table: OriginTable, tenantId: string, origin: string) {
    exists id :: id in table && table[id].tenantId == tenantId && table[id].origin == origin
  }

  function Add(byTenant: OriginIndex, info: OriginInfo): OriginIndex {
    var owned := if info.tenantId in byTenant then byTenant[info.tenantId] else map[];
    byTenant[info.tenantId := owned[info.origin := info]]
  }

  function Drop(byTenant: OriginIndex, tenantId: string, origin: string): OriginIndex {
    if tenantId in byTenant then byTenant[tenantId := byTenant[tenantId] - {origin}] else byTenant
  }

  /** `register_origin`, once the insert is accepted. */
  function Register(s: OriginState, info: OriginInfo): OriginState {
    OriginState(s.table[info.id := BindOrigin(info)], s.any + {info.origin}, Add(s.byTenant, info))
  }

  /** `revoke_origin`: false when the id is unknown or belongs to another tenant. The origin
      leaves the global set only when no tenant owns it any more. */
  function Revoke(s: OriginState, tenantId: string, id: string): (OriginState, bool) {
    if id !in s.table || s.table[id].tenantId != tenantId then (s, false)
    else
      var origin := s.table[id].origin;
      var byTenant := Drop(s.byTenant, tenantId, origin);
      (OriginState(s.table - {id}, if SomeoneOwns(byTenant, origin) then s.any else s.any - {origin}, byTenant), true)
  }

  // ---- Agreement -------------------------------------------------------------------------

  predicate SamePair(a: OriginRow, b: OriginRow) { a.tenantId == b.tenantId && a.origin == b.origin }

  ghost predicate UniquePairs(table: OriginTable) {
    forall i, j :: i in table && j in table && SamePair(table[i], table[j]) ==> i == j
  }

  /** The set of all origins is the set of owned ones. */
  ghost predicate AnyIsOwned(s: OriginState) { forall o :: o in s.any <==> SomeoneOwns(s.byTenant, o) }

  /** The index per tenant is the table, seen by tenant and origin. */
  ghost predicate IndexIsTable(table: OriginTable, byTenant: OriginIndex) {
    && (forall id :: id in table ==>
          Lookup(byTenant, table[id].tenantId, table[id].origin) == Some(ReadOrigin(id, table[id])))
    && (forall t, o :: Owns(byTenant, t, o) ==>
          var info := byTenant[t][o]; info.id in table && table[info.id].tenantId == t && table[info.id].origin == o)
  }

  ghost predicate Match(s: OriginState) { UniquePairs(s.table) && AnyIsOwned(s) && IndexIsTable(s.table, s.byTenant) }

  lemma LookupAdd(byTenant: OriginIndex, info: OriginInfo, t: string, o: string)
    ensures Lookup(Add(byTenant, info), t, o) ==
            if t == info.tenantId && o == info.origin then Some(info) else Lookup(byTenant, t, o)
  {
  }

  lemma LookupDrop(byTenant: OriginIndex, tenantId: string, origin: string, t: string, o: string)
    ensures Lookup(Drop(byTenant, tenantId, origin), t, o) ==
            if t == tenantId && o == origin then None else Lookup(byTenant, t, o)
  {
  }

  lemma SomeoneOwnsByLookup(byTenant: OriginIndex, origin: string)
    ensures SomeoneOwns(byTenant, origin) <==> exists t :: Owns(byTenant, t, origin)
  {
    if t :| t in byTenant && origin in byTenant[t] {
      assert Owns(byTenant, t, origin);
    }
  }

  lemma IndexAdd(table: OriginTable, byTenant: OriginIndex, info: OriginInfo)
    requires IndexIsTable(table, byTenant)
    requires info.id !in table && !Taken(table, info.tenantId, info.origin)
    ensures IndexIsTable(table[info.id := BindOrigin(info)], Add(byTenant, info))
  {
    OriginRoundTrip(info);
    forall x, o
      ensures Lookup(Add(byTenant, info), x, o) ==
              if x == info.tenantId && o == info.origin then Some(info) else Lookup(byTenant, x, o)
    {
      LookupAdd(byTenant, info, x, o);
    }
    assert BindOrigin(info).tenantId == info.tenantId && BindOrigin(info).origin == info.origin;
    hide Add, BindOrigin, ReadOrigin;
  }

  lemma AnyAdd(any: set<string>, byTenant: OriginIndex, info: OriginInfo, o: string)
    requires o in any <==> SomeoneOwns(byTenant, o)
    ensures o in any + {info.origin} <==> SomeoneOwns(Add(byTenant, info), o)
  {
    SomeoneOwnsByLookup(byTenant, o);
    SomeoneOwnsByLookup(Add(byTenant, info), o);
    forall x
      ensures Owns(Add(byTenant, info), x, o) <==> Owns(byTenant, x, o) || (x == info.tenantId && o == info.origin)
    {
      LookupAdd(byTenant, info, x, o);
    }
    hide Owns, SomeoneOwns, Add;
    assert o == info.origin ==> Owns(Add(byTenant, info), info.tenantId, o);
  }

  lemma RegisterMatches(s: OriginState, info: OriginInfo)
    requires Match(s) && info.id !in s.table && !Taken(s.table, info.tenantId, info.origin)
    ensures Match(Register(s, info))
  {
    IndexAdd(s.table, s.byTenant, info);
    forall o {
      AnyAdd(s.any, s.byTenant, info, o);
    }
    hide IndexIsTable, Add, SomeoneOwns;
  }

  lemma IndexDrop(table: OriginTable, byTenant: OriginIndex, id: string)
    requires UniquePairs(table) && IndexIsTable(table, byTenant) && id in table
    ensures IndexIsTable(table - {id}, Drop(byTenant, table[id].tenantId, table[id].origin))
  {
    var (tenantId, origin) := (table[id].tenantId, table[id].origin);
    forall x, o
      ensures Lookup(Drop(byTenant, tenantId, origin), x, o) ==
              if x == tenantId && o == origin then None else Lookup(byTenant, x, o)
    {
      LookupDrop(byTenant, tenantId, origin, x, o);
    }
    hide Drop, ReadOrigin;
  }

  lemma AnyDrop(any: set<string>, byTenant: OriginIndex, tenantId: string, origin: string, o: string)
    requires o in any <==> SomeoneOwns(byTenant, o)
    ensures var byTenant' := Drop(byTenant, tenantId, origin);
            o in (if SomeoneOwns(byTenant', origin) then any else any - {origin}) <==> SomeoneOwns(byTenant', o)
  {
    var byTenant' := Drop(byTenant, tenantId, origin);
    SomeoneOwnsByLookup(byTenant, o);
    SomeoneOwnsByLookup(byTenant', o);
    forall x
      ensures Owns(byTenant', x, o) <==> Owns(byTenant, x, o) && !(x == tenantId && o == origin)
    {
      LookupDrop(byTenant, tenantId, origin, x, o);
    }
    hide Owns, SomeoneOwns, Drop;
  }

  lemma RevokeMatches(s: OriginState, tenantId: string, id: string)
    requires Match(s)
    ensures Match(Revoke(s, tenantId, id).0)
  {
    if id in s.table && s.table[id].tenantId == tenantId {
      IndexDrop(s.table, s.byTenant, id);
      forall o {
        AnyDrop(s.any, s.byTenant, tenantId, s.table[id].origin, o);
      }
      hide IndexIsTable, Drop, SomeoneOwns;
    }
  }

  /** Revoking one tenant's registration changes that one answer, also while others share the
      origin. */
  lemma RevokeIsPrecise(s: OriginState, tenantId: string, id: string, t: string, o: string)
    requires Match(s) && id in s.table && s.table[id].tenantId == tenantId
    ensures var s' := Revoke(s, tenantId, id).0;
            && (Owns(s'.byTenant, t, o) <==> Owns(s.byTenant, t, o) && !(t == tenantId && o == s.table[id].origin))
            && (o in s'.any <==> exists x :: Owns(s.byTenant, x, o) && !(x == tenantId && o == s.table[id].origin))
  {
    var s' := Revoke(s, tenantId, id).0;
    RevokeMatches(s, tenantId, id);
    SomeoneOwnsByLookup(s'.byTenant, o);
    forall x
      ensures Owns(s'.byTenant, x, o) <==> Owns(s.byTenant, x, o) && !(x == tenantId && o == s.table[id].origin)
    {
      LookupDrop(s.byTenant, tenantId, s.table[id].origin, x, o);
    }
    assert o in s'.any <==> SomeoneOwns(s'.byTenant, o);
    hide SomeoneOwns, Owns, Drop;
  }

  /** An origin counts as registered exactly when some row of the table carries it, that is when
      some tenant owns it. */
  lemma RegisteredIffOwned(s: OriginState, o: string)
    requires Match(s)
    ensures o in s.any <==> exists t :: Owns(s.byTenant, t, o)
    ensures o in s.any <==> exists id :: id in s.table && s.table[id].origin == o
  {
    SomeoneOwnsByLookup(s.byTenant, o);
    assert o in s.any <==> SomeoneOwns(s.byTenant, o);
    hide SomeoneOwns;
    if id :| id in s.table && s.table[id].origin == o {
      assert Owns(s.byTenant, s.table[id].tenantId, o);
    }
    if t :| Owns(s.byTenant, t, o) {
      assert s.byTenant[t][o].id in s.table;
    }
  }

  // ---- Restart ------------------------------------------------------------------------------

  lemma EmptyMatches()
    ensures Match(OriginState(map[], {}, map[]))
  {
  }

  /** The loop of `reload_caches` over `tenant_origins`, in whatever order the rows arrive. */
  method ReloadOrigins(table: OriginTable) returns (any: set<string>, byTenant: OriginIndex)
    requires UniquePairs(table)
    ensures Match(OriginState(table, any, byTenant))
  {
    hide Add, SomeoneOwns, IndexIsTable;
    any, byTenant := {}, map[];
    var rest := table.Keys;
    ghost var done: OriginTable := map[];
    EmptyMatches();
    while rest != {}
      invariant rest <= table.Keys
      invariant done == table - rest
      invariant Match(OriginState(done, any, byTenant))
    {
      var id :| id in rest;
      var info := ReadOrigin(id, table[id]);
      assert BindOrigin(info) == table[id];
      assert !Taken(done, info.tenantId, info.origin);
      RegisterMatches(OriginState(done, any, byTenant), info);
      any := any + {info.origin};
      byTenant := Add(byTenant, info);
      rest := rest - {id};
      done := done[id := table[id]];
    }
    assert done == table;
  }

  /** Two caches that answer every question alike; an empty map for a tenant makes no difference. */
  ghost predicate AgreeOnOrigins(any: set<string>, byTenant: OriginIndex, any': set<string>, byTenant': OriginIndex) {
    any == any' && forall t, o :: Lookup(byTenant, t, o) == Lookup(byTenant', t, o)
  }

  /** Whatever matches the table answers as the running caches do: a restart is invisible. */
  lemma MatchesAgree(table: OriginTable, any: set<string>, byTenant: OriginIndex, any': set<string>, byTenant': OriginIndex)
    requires Match(OriginState(table, any, byTenant)) && Match(OriginState(table, any', byTenant'))
    ensures AgreeOnOrigins(any, byTenant, any', byTenant')
  {
    forall t, o
      ensures Lookup(byTenant, t, o) == Lookup(byTenant', t, o)
    {
      if Owns(byTenant, t, o) {
        var id := byTenant[t][o].id;
        assert Lookup(byTenant, table[id].tenantId, table[id].origin) == Some(ReadOrigin(id, table[id]));
      }
      if Owns(byTenant', t, o) {
        var id := byTenant'[t][o].id;
        assert Lookup(byTenant', table[id].tenantId, table[id].origin) == Some(ReadOrigin(id, table[id]));
      }
    }
    forall o
      ensures o in any <==> o in any'
    {
      SomeoneOwnsByLookup(byTenant, o);
      SomeoneOwnsByLookup(byTenant', o);
      assert forall t :: Owns(byTenant, t, o) <==> Owns(byTenant', t, o);
      assert o in any <==> SomeoneOwns(byTenant, o);
      assert o in any' <==> SomeoneOwns(byTenant', o);
      hide SomeoneOwns, Owns;
    }
  }
}
