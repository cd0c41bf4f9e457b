/** API keys: the `api_keys` table and its cache by hash (`src/store.rs`, "Keys"). A key is
    presented by the hash of its raw value; hashing is taken as injective, and newly generated
    ids and hashes as fresh. Each operation is one atomic step. */
module KeyStore {
  import opened Prelude
  import opened StoreRows

  type KeyTable = map<string, KeyRow>
  type KeyCache = map<string, KeyRecord>

  datatype KeyState = KeyState(table: KeyTable, cache: KeyCache)

  // ---- Lookups ---------------------------------------------------------------------

  ghost predicate HasHash(table: KeyTable, hash: string) { exists id :: id in table && table[id].keyHash == hash }

  /** `SELECT ... WHERE key_hash = ?` on a unique column. */
  ghost function IdByHash(table: KeyTable, hash: string): string
    requires HasHash(table, hash)
  {
    var id :| id in table && table[id].keyHash == hash; id
  }

  predicate Owned(cache: KeyCache, h: string, tenantId: string, id: string) {
    h in cache && cache[h].id == id && cache[h].tenantId == Some(tenantId)
  }

  /** `values().find(...)`: the cached hash of a tenant's key. */
  ghost function FindOwned(cache: KeyCache, tenantId: string, id: string): Option<string> {
    if exists h :: Owned(cache, h, tenantId, id) then var h :| Owned(cache, h, tenantId, id); Some(h) else None
  }

  predicate IsFresh(s: KeyState, id: string, hash: string) {
    id !in s.table && hash !in s.cache && forall i :: i in s.table ==> s.table[i].keyHash != hash
  }

  // ---- Operations --------------------------------------------------------------------

  function NewRecord(id: string, tenantId: Option<string>, title: string, role: Role, hash: string, now: Clock,
                     expiresAt: Option<U64>): KeyRecord {
    KeyRecord(id, tenantId, title, role, hash, now, expiresAt, None, None)
  }

  /** `create_key_internal`, once the insert is accepted. */
  function Create(s: KeyState, record: KeyRecord): KeyState {
    KeyState(s.table[record.id := BindKey(record)], s.cache[record.keyHash := record])
  }

  /** `UPDATE api_keys SET revoked_at = ? WHERE id = ? AND revoked_at IS NULL`. */
  function RevokeRow(table: KeyTable, id: string, now: Clock): KeyTable {
    if id in table && table[id].revokedAt.None? then table[id := table[id].(revokedAt := Some(now))] else table
  }

  function RevokeRecord(cache: KeyCache, hash: string, now: Clock): KeyCache {
    if hash in cache && cache[hash].revokedAt.None? then cache[hash := cache[hash].(revokedAt := Some(now))] else cache
  }

  /** `revoke_key`: false when the tenant has no such key. */
  ghost function Revoke(s: KeyState, tenantId: string, id: string, now: Clock): (KeyState, bool) {
    match FindOwned(s.cache, tenantId, id)
    case None => (s, false)
    case Some(h) => (KeyState(RevokeRow(s.table, id, now), RevokeRecord(s.cache, h, now)), true)
  }

  function RotateRow(table: KeyTable, id: string, newHash: string): KeyTable {
    if id in table then table[id := table[id].(keyHash := newHash, lastUsedAt := None)] else table
  }

  /** `rotate_key_by_hash`. The precondition is the `expect` in the source. */
  function RotateByHash(s: KeyState, oldHash: string, id: string, newHash: string): KeyState
    requires oldHash in s.cache
  {
    var record := s.cache[oldHash].(keyHash := newHash, lastUsedAt := None);
    KeyState(RotateRow(s.table, id, newHash), (s.cache - {oldHash})[newHash := record])
  }

  ghost function Rotate(s: KeyState, tenantId: string, id: string, newHash: string): (KeyState, Option<KeyRecord>) {
    match FindOwned(s.cache, tenantId, id)
    case None => (s, None)
    case Some(h) => (RotateByHash(s, h, id, newHash), Some(s.cache[h].(keyHash := newHash, lastUsedAt := None)))
  }

  predicate IsBootstrap(r: KeyRecord, now: nat) {
    r.role == Platform && r.title == "bootstrap" && r.tenantId.None? && r.IsActive(now)
  }

  function Bootstraps(cache: KeyCache, now: nat): set<string> { set h | h in cache && IsBootstrap(cache[h], now) }

  datatype ResetResult = ResetTo(record: KeyRecord) | AmbiguousReset(found: nat)

  /** `reset_bootstrap_platform_key`: create when there is none, rotate the only one, else fail. */
  ghost function ResetBootstrap(s: KeyState, now: Clock, newId: string, newHash: string): (KeyState, ResetResult) {
    var found := Bootstraps(s.cache, now);
    if |found| == 0 then
      var record := NewRecord(newId, None, "bootstrap", Platform, newHash, now, None);
      (Create(s, record), ResetTo(record))
    else if |found| == 1 then
      var h :| h in found;
      (RotateByHash(s, h, s.cache[h].id, newHash), ResetTo(s.cache[h].(keyHash := newHash, lastUsedAt := None)))
    else (s, AmbiguousReset(|found|))
  }

  function WithoutId(cache: KeyCache, id: string): KeyCache { map h | h in cache && cache[h].id != id :: cache[h] }

  /** `authenticate`: an active cached key, or an active row, which replaces every cached hash
      of its id. */
  ghost function Authenticate(s: KeyState, hash: string, now: Clock): (KeyState, Option<KeyRecord>) {
    if hash in s.cache && s.cache[hash].IsActive(now) then (s, Some(s.cache[hash]))
    else if !HasHash(s.table, hash) then (s, None)
    else
      var id := IdByHash(s.table, hash);
      var record := ReadKey(id, s.table[id]);
      if !record.IsActive(now) then (s, None)
      else (s.(cache := WithoutId(s.cache, id)[hash := record]), Some(record))
  }

  ghost function FindId(cache: KeyCache, id: string): Option<string> {
    if exists h :: h in cache && cache[h].id == id then var h :| h in cache && cache[h].id == id; Some(h) else None
  }

  /** The synchronous half of `touch_last_used`. */
  ghost function Touch(s: KeyState, id: string, now: Clock): KeyState {
    match FindId(s.cache, id)
    case None => s
    case Some(h) => s.(cache := s.cache[h := s.cache[h].(lastUsedAt := Some(now))])
  }

  /** The deferred half: `UPDATE api_keys SET last_used_at = ? WHERE id = ?`. */
  function LandTouch(s: KeyState, id: string, now: Clock): KeyState {
    if id in s.table then s.(table := s.table[id := s.table[id].(lastUsedAt := Some(now))]) else s
  }

  // ---- Restart ---------------------------------------------------------------------------

  ghost predicate UniqueHashes(table: KeyTable) {
    forall i, j :: i in table && j in table && table[i].keyHash == table[j].keyHash ==> i == j
  }

  /** The cache `reload_caches` builds from an empty one. */
  ghost function Reload(table: KeyTable): KeyCache {
    var hashes := set id | id in table :: table[id].keyHash;
    map h | h in hashes :: var id := IdByHash(table, h); ReadKey(id, table[id])
  }

  /** The loop of `reload_caches` over the rows of `api_keys`, in whatever order they arrive. */
  method ReloadKeys(table: KeyTable) returns (cache: KeyCache)
    requires UniqueHashes(table)
    ensures cache == Reload(table)
  {
    hide Reload;
    cache := map[];
    var rest := table.Keys;
    while rest != {}
      invariant rest <= table.Keys
      invariant forall h :: h in cache ==> exists id :: id in table && id !in rest && table[id].keyHash == h
      invariant forall id :: id in table && id !in rest ==>
                  table[id].keyHash in cache && cache[table[id].keyHash] == ReadKey(id, table[id])
    {
      var id :| id in rest;
      var record := ReadKey(id, table[id]);
      cache := cache[record.keyHash := record];
      rest := rest - {id};
    }
    ReloadIs(table, cache);
  }

  lemma ReloadIs(table: KeyTable, cache: KeyCache)
    requires UniqueHashes(table)
    requires forall h :: h in cache ==> exists id :: id in table && table[id].keyHash == h
    requires forall id :: id in table ==> table[id].keyHash in cache && cache[table[id].keyHash] == ReadKey(id, table[id])
    ensures cache == Reload(table)
  {
    hide Reload, ReadKey;
    forall id | id in table {
      ReloadedRow(table, id);
    }
    forall h | h in Reload(table)
      ensures h in cache && cache[h] == Reload(table)[h]
    {
      ReloadedHash(table, h);
    }
    assert cache.Keys == Reload(table).Keys;
  }

  /** Two caches that differ at most in when keys were last used. */
  ghost predicate AgreeButUse(a: KeyCache, b: KeyCache) {
    a.Keys == b.Keys && forall h :: h in a ==> SameButUse(a[h], b[h])
  }

  predicate SameButUse(a: KeyRecord, b: KeyRecord) { a.(lastUsedAt := None) == b.(lastUsedAt := None) }

  function Stored(r: KeyRecord): KeyRecord { ReadKey(r.id, BindKey(r)) }

  /** Everything about the record that a restart must keep does survive the database. */
  predicate Survives(r: KeyRecord) { TimeFits(r.expiresAt) && TimeFits(r.revokedAt) && r.tenantId != Some("") }

  lemma StoredSurvives(r: KeyRecord)
    ensures SameButUse(Stored(r), r) <==> Survives(r)
  {
    TimeRoundTrip(r.expiresAt);
    TimeRoundTrip(r.revokedAt);
    IntegersRoundTrip(r.createdAt);
  }

  // ---- Table and cache agree ------------------------------------------------------------------

  /** The row reads back as the cached record would, were it bound again. */
  predicate RowMatches(id: string, row: KeyRow, r: KeyRecord) {
    && r.id == id && r.keyHash == row.keyHash
    && SameButUse(ReadKey(id, row), Stored(r))
    && TimeFits(r.revokedAt) && (row.revokedAt.Some? ==> row.revokedAt.value >= 0)
  }

  /** Every cached record matches its row, every row is cached under its hash, and no hash or id
      is there twice. */
  ghost predicate Match(s: KeyState) {
    && (forall h :: h in s.cache ==>
          && s.cache[h].keyHash == h && s.cache[h].id in s.table && s.table[s.cache[h].id].keyHash == h
          && RowMatches(s.cache[h].id, s.table[s.cache[h].id], s.cache[h]))
    && (forall id :: id in s.table ==> s.table[id].keyHash in s.cache && s.cache[s.table[id].keyHash].id == id)
  }

  lemma MatchIsUnique(s: KeyState)
    requires Match(s)
    ensures UniqueHashes(s.table)
    ensures forall h, k :: h in s.cache && k in s.cache && s.cache[h].id == s.cache[k].id ==> h == k
  {
    hide RowMatches;
  }

  /** A hash that was found is the one `find` reports, whatever order the cache is walked in. */
  lemma FoundIsUnique(s: KeyState, h: string)
    requires Match(s) && h in s.cache
    ensures FindId(s.cache, s.cache[h].id) == Some(h)
    ensures s.cache[h].tenantId.Some? ==> FindOwned(s.cache, s.cache[h].tenantId.value, s.cache[h].id) == Some(h)
    ensures s.cache[h].id in s.table
  {
    MatchIsUnique(s);
    hide Match;
    if s.cache[h].tenantId.Some? {
      assert Owned(s.cache, h, s.cache[h].tenantId.value, s.cache[h].id);
    }
  }

  lemma ReadMatches(id: string, row: KeyRow)
    requires row.revokedAt.Some? ==> row.revokedAt.value >= 0
    ensures RowMatches(id, row, ReadKey(id, row))
  {
    StoredSurvives(ReadKey(id, row));
    ReadIsStable(id, row);
  }

  lemma BindMatches(r: KeyRecord)
    requires TimeFits(r.revokedAt)
    ensures RowMatches(r.id, BindKey(r), r)
  {
  }

  lemma RevokedMatches(id: string, row: KeyRow, r: KeyRecord, now: Clock)
    requires RowMatches(id, row, r)
    ensures row.revokedAt.None? <==> r.revokedAt.None?
    ensures RowMatches(id, row.(revokedAt := Some(now)), r.(revokedAt := Some(now)))
  {
    TimeRoundTrip(r.revokedAt);
    TimeRoundTrip(Some(now));
    assert ReadKey(id, row).revokedAt == Stored(r).revokedAt;
    var (row', r') := (row.(revokedAt := Some(now)), r.(revokedAt := Some(now)));
    assert ReadKey(id, row') == ReadKey(id, row).(revokedAt := Some(now));
    assert Stored(r') == Stored(r).(revokedAt := Some(now));
    hide ReadKey, BindKey;
  }

  lemma RotatedMatches(id: string, row: KeyRow, r: KeyRecord, hash: string)
    requires RowMatches(id, row, r)
    ensures RowMatches(id, row.(keyHash := hash, lastUsedAt := None), r.(keyHash := hash, lastUsedAt := None))
  {
    var (row', r') := (row.(keyHash := hash, lastUsedAt := None), r.(keyHash := hash, lastUsedAt := None));
    assert ReadKey(id, row') == ReadKey(id, row).(keyHash := hash, lastUsedAt := None);
    assert Stored(r') == Stored(r).(keyHash := hash, lastUsedAt := None);
    hide ReadKey, BindKey;
  }

  lemma UsedMatches(id: string, row: KeyRow, r: KeyRecord, used: Option<U64>, column: Option<I64>)
    requires RowMatches(id, row, r)
    ensures RowMatches(id, row, r.(lastUsedAt := used))
    ensures RowMatches(id, row.(lastUsedAt := column), r)
  {
    assert Stored(r.(lastUsedAt := used)) == Stored(r).(lastUsedAt := ReadTime(BindTime(used)));
    assert ReadKey(id, row.(lastUsedAt := column)) == ReadKey(id, row).(lastUsedAt := ReadTime(column));
    hide ReadKey, BindKey;
  }

  lemma ReloadedRow(table: KeyTable, id: string)
    requires UniqueHashes(table) && id in table
    ensures table[id].keyHash in Reload(table) && Reload(table)[table[id].keyHash] == ReadKey(id, table[id])
  {
    hide ReadKey;
    assert HasHash(table, table[id].keyHash);
    assert IdByHash(table, table[id].keyHash) == id;
  }

  lemma ReloadedHash(table: KeyTable, h: string)
    requires h in Reload(table)
    ensures HasHash(table, h)
  {
    hide ReadKey, IdByHash;
  }

  lemma ReloadMatches(table: KeyTable)
    requires UniqueHashes(table)
    requires forall id :: id in table ==> table[id].revokedAt.Some? ==> table[id].revokedAt.value >= 0
    ensures Match(KeyState(table, Reload(table)))
  {
    hide RowMatches, Reload, UniqueHashes;
    forall id | id in table
      ensures table[id].keyHash in Reload(table) && Reload(table)[table[id].keyHash] == ReadKey(id, table[id])
      ensures RowMatches(id, table[id], ReadKey(id, table[id]))
    {
      ReloadedRow(table, id);
      ReadMatches(id, table[id]);
    }
    forall h | h in Reload(table) {
      ReloadedHash(table, h);
    }
  }

  lemma CreateMatches(s: KeyState, record: KeyRecord)
    requires Match(s) && IsFresh(s, record.id, record.keyHash) && record.revokedAt.None?
    ensures Match(Create(s, record))
  {
    hide RowMatches;
    BindMatches(record);
  }

  lemma RevokeMatches(s: KeyState, tenantId: string, id: string, now: Clock)
    requires Match(s)
    ensures Match(Revoke(s, tenantId, id, now).0)
  {
    hide RowMatches;
    MatchIsUnique(s);
    match FindOwned(s.cache, tenantId, id) {
      case None =>
      case Some(h) => RevokedMatches(id, s.table[id], s.cache[h], now);
    }
  }

  lemma RotateByHashMatches(s: KeyState, oldHash: string, newHash: string)
    requires Match(s) && oldHash in s.cache
    requires newHash !in s.cache && forall i :: i in s.table ==> s.table[i].keyHash != newHash
    ensures Match(RotateByHash(s, oldHash, s.cache[oldHash].id, newHash))
  {
    hide RowMatches;
    var id := s.cache[oldHash].id;
    RotatedMatches(id, s.table[id], s.cache[oldHash], newHash);
    var t := RotateByHash(s, oldHash, id, newHash);
    forall h | h in t.cache
      ensures && t.cache[h].keyHash == h && t.cache[h].id in t.table && t.table[t.cache[h].id].keyHash == h
              && RowMatches(t.cache[h].id, t.table[t.cache[h].id], t.cache[h])
    {
      if h != newHash {
        assert t.cache[h] == s.cache[h] && s.table[s.cache[h].id].keyHash == h;
      }
    }
    forall i | i in t.table
      ensures t.table[i].keyHash in t.cache && t.cache[t.table[i].keyHash].id == i
    {
      if i != id {
        assert s.cache[s.table[i].keyHash].id == i;
      }
    }
  }

  lemma AuthenticateMatches(s: KeyState, hash: string, now: Clock)
    requires Match(s)
    ensures Match(Authenticate(s, hash, now).0)
  {
    MatchIsUnique(s);
    if HasHash(s.table, hash) && !(hash in s.cache && s.cache[hash].IsActive(now)) {
      var id := IdByHash(s.table, hash);
      assert RowMatches(id, s.table[id], s.cache[hash]);
      ReadMatches(id, s.table[id]);
      hide RowMatches, BindKey;
    }
  }

  lemma TouchMatches(s: KeyState, id: string, now: Clock)
    requires Match(s)
    ensures Match(Touch(s, id, now))
  {
    hide RowMatches;
    MatchIsUnique(s);
    match FindId(s.cache, id) {
      case None =>
      case Some(h) => UsedMatches(id, s.table[id], s.cache[h], Some(now), None);
    }
  }

  lemma LandTouchMatches(s: KeyState, id: string, now: Clock)
    requires Match(s)
    ensures Match(LandTouch(s, id, now))
  {
    hide RowMatches;
    MatchIsUnique(s);
    if id in s.table {
      UsedMatches(id, s.table[id], s.cache[s.table[id].keyHash], None, Some(now));
    }
  }

  lemma Singleton<T>(s: set<T>, x: T)
    requires |s| == 1 && x in s
    ensures s == {x}
  {
    assert |s - {x}| == 0;
    assert s - {x} == {};
  }

  lemma ResetMatches(s: KeyState, now: Clock, newId: string, newHash: string)
    requires Match(s) && IsFresh(s, newId, newHash)
    ensures Match(ResetBootstrap(s, now, newId, newHash).0)
  {
    hide Match, RotateByHash, Create;
    var found := Bootstraps(s.cache, now);
    if |found| == 0 {
      CreateMatches(s, NewRecord(newId, None, "bootstrap", Platform, newHash, now, None));
    } else if |found| == 1 {
      var h :| h in found;
      Singleton(found, h);
      RotateByHashMatches(s, h, newHash);
    }
  }

  lemma RotateMatches(s: KeyState, tenantId: string, id: string, newHash: string)
    requires Match(s) && newHash !in s.cache && forall i :: i in s.table ==> s.table[i].keyHash != newHash
    ensures Match(Rotate(s, tenantId, id, newHash).0)
  {
    hide Match, RotateByHash;
    match FindOwned(s.cache, tenantId, id) {
      case None =>
      case Some(h) => RotateByHashMatches(s, h, newHash);
    }
  }

  /** Reloading gives back the running cache exactly when every cached record survives. */
  lemma RestartKeepsKeys(s: KeyState)
    requires Match(s)
    ensures AgreeButUse(Reload(s.table), s.cache) <==> forall h :: h in s.cache ==> Survives(s.cache[h])
  {
    MatchIsUnique(s);
    var fresh' := Reload(s.table);
    assert fresh'.Keys == s.cache.Keys;
    forall h | h in s.cache
      ensures SameButUse(fresh'[h], s.cache[h]) <==> Survives(s.cache[h])
    {
      var id := s.cache[h].id;
      assert RowMatches(id, s.table[id], s.cache[h]);
      assert HasHash(s.table, h) && IdByHash(s.table, h) == id;
      StoredSurvives(s.cache[h]);
      hide ReadKey, BindKey;
    }
  }

  // ---- What create and rotate mean for the holder of a key -------------------------------------

  /** Rotating an active key keeps its identity, makes the new value authenticate and the old one
      fail; a key of another tenant is left alone. */
  lemma RotationReplacesValue(s: KeyState, tenantId: string, id: string, newHash: string, now: Clock)
    requires Match(s) && newHash !in s.cache && forall i :: i in s.table ==> s.table[i].keyHash != newHash
    ensures var (t, result) := Rotate(s, tenantId, id, newHash);
            match FindOwned(s.cache, tenantId, id)
            case None => t == s && result == None
            case Some(oldHash) =>
              var r := s.cache[oldHash];
              && r.id == id && r.tenantId == Some(tenantId) && result == Some(r.(keyHash := newHash, lastUsedAt := None))
              && Authenticate(t, oldHash, now).1 == None
              && (r.IsActive(now) ==> Authenticate(t, newHash, now).1 == result)
  {
    match FindOwned(s.cache, tenantId, id) {
      case None =>
      case Some(oldHash) =>
        MatchIsUnique(s);
        hide RowMatches, ReadKey;
        var t := Rotate(s, tenantId, id, newHash).0;
        assert oldHash !in t.cache;
        assert !HasHash(t.table, oldHash);
    }
  }

  /** A new key authenticates, as what it was created as, exactly until the second it expires at. */
  lemma CreatedKeyAuthenticates(s: KeyState, id: string, tenantId: Option<string>, title: string, role: Role,
                                hash: string, created: Clock, expiresAt: Option<U64>, now: Clock)
    requires Match(s) && IsFresh(s, id, hash)
    ensures var t := Create(s, NewRecord(id, tenantId, title, role, hash, created, expiresAt));
            Authenticate(t, hash, now).1 ==
            if expiresAt.Some? && expiresAt.value <= now then None
            else Some(KeyRecord(id, tenantId, title, role, hash, created, expiresAt, None, None))
  {
    hide Match, RowMatches, Authenticate;
    var record := KeyRecord(id, tenantId, title, role, hash, created, expiresAt, None, None);
    var t := Create(s, record);
    CreateMatches(s, record);
    MatchIsUnique(t);
    TimeRoundTrip(expiresAt);
    CachedOrLookedUp(t, id, hash, now);
  }

  lemma CachedOrLookedUp(s: KeyState, id: string, hash: string, now: Clock)
    requires UniqueHashes(s.table) && id in s.table && s.table[id].keyHash == hash
    ensures Authenticate(s, hash, now).1 ==
            if hash in s.cache && s.cache[hash].IsActive(now) then Some(s.cache[hash])
            else if ReadKey(id, s.table[id]).IsActive(now) then Some(ReadKey(id, s.table[id])) else None
  {
    hide ReadKey, Authenticate;
    if hash in s.cache && s.cache[hash].IsActive(now) {
      HitReturnsCached(s, hash, now);
    } else {
      MissReadsRow(s, id, hash, now);
    }
  }

  lemma HitReturnsCached(s: KeyState, hash: string, now: Clock)
    requires hash in s.cache && s.cache[hash].IsActive(now)
    ensures Authenticate(s, hash, now) == (s, Some(s.cache[hash]))
  {
  }

  lemma MissReadsRow(s: KeyState, id: string, hash: string, now: Clock)
    requires UniqueHashes(s.table) && id in s.table && s.table[id].keyHash == hash
    requires hash in s.cache ==> !s.cache[hash].IsActive(now)
    ensures var record := ReadKey(id, s.table[id]);
            Authenticate(s, hash, now) ==
            if record.IsActive(now) then (s.(cache := WithoutId(s.cache, id)[hash := record]), Some(record)) else (s, None)
  {
    hide ReadKey;
    assert HasHash(s.table, hash) && IdByHash(s.table, hash) == id;
  }

  lemma MissWithoutRow(s: KeyState, hash: string, now: Clock)
    requires forall id :: id in s.table ==> s.table[id].keyHash != hash
    requires hash in s.cache ==> !s.cache[hash].IsActive(now)
    ensures Authenticate(s, hash, now) == (s, None)
  {
  }

  lemma NobodyOwns(cache: KeyCache, tenantId: string, id: string)
    requires forall h :: h in cache ==> !(cache[h].id == id && cache[h].tenantId == Some(tenantId))
    ensures FindOwned(cache, tenantId, id) == None
  {
  }

  /** The row says neither that the key is revoked nor that it has expired; NULL and negative times
      say nothing. */
  predicate RowIsLive(row: KeyRow, now: Clock) {
    && (row.revokedAt == None || row.revokedAt.value < 0)
    && (row.expiresAt == None || row.expiresAt.value < 0 || row.expiresAt.value > now)
  }

  lemma LiveRowReads(id: string, row: KeyRow, now: Clock)
    ensures ReadKey(id, row).IsActive(now) <==> RowIsLive(row, now)
    ensures ReadKey(id, row).id == id && ReadKey(id, row).keyHash == row.keyHash
    ensures ReadKey(id, row).IsActive(now) ==>
              var r := ReadKey(id, row); r.revokedAt == None && (r.expiresAt == None || now < r.expiresAt.value)
  {
  }

  lemma ActiveMeans(r: KeyRecord, now: Clock)
    ensures r.IsActive(now) <==> r.revokedAt == None && (r.expiresAt == None || now < r.expiresAt.value)
  {
  }

  lemma RowsAreCached(s: KeyState)
    requires Match(s)
    ensures forall h :: h in s.cache ==>
              s.cache[h].keyHash == h && s.cache[h].id in s.table && s.table[s.cache[h].id].keyHash == h
    ensures forall id :: id in s.table ==> s.table[id].keyHash in s.cache && s.cache[s.table[id].keyHash].id == id
  {
    hide RowMatches;
  }

  /** The hash is that of a cached key neither revoked nor expired, or of a row that is neither. */
  ghost predicate MayAuthenticate(cache: KeyCache, table: KeyTable, hash: string, now: Clock) {
    || (hash in cache && cache[hash].revokedAt == None && (cache[hash].expiresAt == None || now < cache[hash].expiresAt.value))
    || (exists id :: id in table && table[id].keyHash == hash && RowIsLive(table[id], now))
  }

  /** Who authenticates: the holder of a cached value that is neither revoked nor expired, or of one
      whose row is neither. Nobody else does, and nothing but the cache of that key changes. */
  lemma AuthenticatesExactly(s: KeyState, hash: string, now: Clock)
    requires Match(s)
    ensures var (t, r) := Authenticate(s, hash, now);
            && (r.Some? <==> MayAuthenticate(s.cache, s.table, hash, now))
            && (r.Some? ==>
                && r.value.keyHash == hash && r.value.revokedAt == None
                && (r.value.expiresAt == None || now < r.value.expiresAt.value)
                && r.value.id in s.table && s.table[r.value.id].keyHash == hash)
            && t.table == s.table
            && (forall h :: h in s.cache && s.cache[h].keyHash != hash ==> h in t.cache && t.cache[h] == s.cache[h])
            && (forall h :: h in t.cache && h != hash ==> h in s.cache)
  {
    hide Match, RowMatches, ReadKey, KeyRecord.IsActive, RowIsLive;
    MatchIsUnique(s);
    RowsAreCached(s);
    if HasHash(s.table, hash) {
      var id := IdByHash(s.table, hash);
      assert forall i :: i in s.table && s.table[i].keyHash == hash ==> i == id;
      LiveRowReads(id, s.table[id], now);
    }
    if hash in s.cache {
      ActiveMeans(s.cache[hash], now);
    }
  }

  /** What `require_active_key` leaves in the cache: the key under the value it was shown with, used now. */
  lemma AuthenticatedIsTouched(s: KeyState, hash: string, now: Clock)
    requires Match(s) && Authenticate(s, hash, now).1.Some?
    ensures var r := Authenticate(s, hash, now).1.value;
            var t := Touch(Authenticate(s, hash, now).0, r.id, now);
            hash in t.cache && t.cache[hash] == r.(lastUsedAt := Some(now))
  {
    AuthenticateMatches(s, hash, now);
    var (t, r) := (Authenticate(s, hash, now).0, Authenticate(s, hash, now).1.value);
    assert hash in t.cache && t.cache[hash] == r;
    hide Match, Authenticate;
    FoundIsUnique(t, hash);
  }

  /** The cache after a tenant's revocation: its own key of that id is revoked, unless it was; nothing of
      another tenant and no other key is touched. */
  ghost predicate KeysRevoked(before: KeyCache, after: KeyCache, tenantId: string, id: string, now: Clock) {
    after.Keys == before.Keys && forall h :: h in before ==>
      after[h] == if before[h].id == id && before[h].tenantId == Some(tenantId) && before[h].revokedAt == None
                  then before[h].(revokedAt := Some(now)) else before[h]
  }

  /** The tenant has a cached key of that id. */
  ghost predicate HasKey(cache: KeyCache, tenantId: string, id: string) {
    exists h :: h in cache && cache[h].id == id && cache[h].tenantId == Some(tenantId)
  }

  /** Which keys a tenant can revoke, and what the revocation does. */
  lemma RevokesExactly(s: KeyState, tenantId: string, id: string, now: Clock)
    requires Match(s)
    ensures var (t, found) := Revoke(s, tenantId, id, now);
            && (found <==> HasKey(s.cache, tenantId, id)) && (!found ==> t == s)
            && KeysRevoked(s.cache, t.cache, tenantId, id, now) && t.table.Keys == s.table.Keys
            && (forall i :: i in s.table ==>
                  t.table[i] ==
                  if found && i == id && s.table[i].revokedAt == None then s.table[i].(revokedAt := Some(now))
                  else s.table[i])
  {
    hide Match, FindOwned;
    MatchIsUnique(s);
    if h :| h in s.cache && s.cache[h].id == id && s.cache[h].tenantId == Some(tenantId) {
      FoundIsUnique(s, h);
    } else {
      NobodyOwns(s.cache, tenantId, id);
    }
  }

  lemma RevokeNothing(s: KeyState, tenantId: string, id: string, now: Clock)
    requires FindOwned(s.cache, tenantId, id) == None
    ensures Revoke(s, tenantId, id, now) == (s, false)
  {
  }

  /** Revoking works on whichever cached hash of the key was found. */
  lemma RevokeFound(s: KeyState, tenantId: string, id: string, now: Clock, h: string)
    requires Match(s) && h in s.cache && s.cache[h].id == id && s.cache[h].tenantId == Some(tenantId)
    ensures Revoke(s, tenantId, id, now) == (KeyState(RevokeRow(s.table, id, now), RevokeRecord(s.cache, h, now)), true)
  {
    hide Match;
    FoundIsUnique(s, h);
  }

  /** The cache after a tenant's rotation: its key of that id has moved to the new value with its use
      forgotten, and is the answer; nothing else has changed. */
  ghost predicate KeysRotated(before: KeyCache, after: KeyCache, tenantId: string, id: string, newHash: string,
                              r: Option<KeyRecord>) {
    && (r.Some? ==> newHash in after && after[newHash] == r.value)
    && (forall h :: h in before ==>
          if before[h].id == id && before[h].tenantId == Some(tenantId)
          then h !in after && r == Some(before[h].(keyHash := newHash, lastUsedAt := None))
          else h in after && after[h] == before[h])
    && (forall h :: h in after && (h != newHash || r == None) ==> h in before)
  }

  /** What a rotation does, in the cache and in the key's row. */
  lemma RotatesExactly(s: KeyState, tenantId: string, id: string, newHash: string)
    requires Match(s) && newHash !in s.cache
    ensures var (t, result) := Rotate(s, tenantId, id, newHash);
            && (result.Some? <==> HasKey(s.cache, tenantId, id)) && (result.None? ==> t == s)
            && KeysRotated(s.cache, t.cache, tenantId, id, newHash, result)
            && t.table.Keys == s.table.Keys
            && (forall i :: i in s.table ==>
                  t.table[i] ==
                  if result.Some? && i == id then s.table[i].(keyHash := newHash, lastUsedAt := None) else s.table[i])
  {
    hide Match, FindOwned;
    MatchIsUnique(s);
    if h :| h in s.cache && s.cache[h].id == id && s.cache[h].tenantId == Some(tenantId) {
      FoundIsUnique(s, h);
    } else {
      NobodyOwns(s.cache, tenantId, id);
    }
  }

  /** The outcome of a reset. It counts the platform keys without a tenant titled "bootstrap" that are
      neither revoked nor expired: with none it creates one, a single one gets the new value, and several
      are left alone. */
  ghost predicate ResetOutcome(before: KeyCache, after: KeyCache, now: Clock, newId: string, newHash: string, r: ResetResult) {
    var boots := set h | h in before && before[h].role == Platform && before[h].title == "bootstrap"
                         && before[h].tenantId == None && before[h].revokedAt == None
                         && (before[h].expiresAt == None || now < before[h].expiresAt.value);
    match r
    case ResetTo(record) =>
      if boots == {} then
        record == KeyRecord(newId, None, "bootstrap", Platform, newHash, now, None, None, None)
        && after == before[newHash := record]
      else
        exists h :: h in boots && boots == {h} && record == before[h].(keyHash := newHash, lastUsedAt := None)
                    && after == (before - {h})[newHash := record]
    case AmbiguousReset(found) => found == |boots| >= 2 && after == before
  }

  lemma ResetsExactly(s: KeyState, now: Clock, newId: string, newHash: string)
    ensures var (t, r) := ResetBootstrap(s, now, newId, newHash);
            ResetOutcome(s.cache, t.cache, now, newId, newHash, r) && (r.AmbiguousReset? ==> t == s)
  {
    var boots := set h | h in s.cache && s.cache[h].role == Platform && s.cache[h].title == "bootstrap"
                         && s.cache[h].tenantId == None && s.cache[h].revokedAt == None
                         && (s.cache[h].expiresAt == None || now < s.cache[h].expiresAt.value);
    var found := Bootstraps(s.cache, now);
    assert boots == found;
    if |found| == 1 {
      var h :| h in found;
      Singleton(found, h);
    }
  }

  /** Whenever a reset succeeds the value it returns authenticates at once as a platform key; it fails,
      changing nothing, exactly when two or more keys could be meant. */
  lemma ResetGivesAWorkingKey(s: KeyState, now: Clock, newId: string, newHash: string)
    requires Match(s) && IsFresh(s, newId, newHash)
    ensures var (t, r) := ResetBootstrap(s, now, newId, newHash);
            match r
            case ResetTo(record) =>
              && Authenticate(t, newHash, now).1 == Some(record) && record.role == Platform
              && record.tenantId == None && record.title == "bootstrap" && |Bootstraps(s.cache, now)| <= 1
              && (forall h :: h in Bootstraps(s.cache, now) ==> record.id == s.cache[h].id && Authenticate(t, h, now).1 == None)
            case AmbiguousReset(found) => t == s && found == |Bootstraps(s.cache, now)| >= 2
  {
    hide Match, Authenticate, RotateByHash;
    var found := Bootstraps(s.cache, now);
    if |found| == 0 {
      CreatedKeyAuthenticates(s, newId, None, "bootstrap", Platform, newHash, now, None, now);
    } else if |found| == 1 {
      var h :| h in found;
      Singleton(found, h);
      NewValueOnly(s, h, newHash, now);
    }
  }

  lemma NewValueOnly(s: KeyState, h: string, newHash: string, now: Clock)
    requires Match(s) && h in s.cache && s.cache[h].IsActive(now)
    requires newHash !in s.cache && forall i :: i in s.table ==> s.table[i].keyHash != newHash
    ensures var t := RotateByHash(s, h, s.cache[h].id, newHash);
            Authenticate(t, newHash, now).1 == Some(s.cache[h].(keyHash := newHash, lastUsedAt := None))
            && Authenticate(t, h, now).1 == None
  {
    MatchIsUnique(s);
    hide RowMatches, ReadKey, BindKey;
    assert !HasHash(RotateByHash(s, h, s.cache[h].id, newHash).table, h);
  }

  // ---- Tenant ids and expiry times in the cache ----------------------------------------------

  /** No cached record has the empty tenant id; with `strict`, every expiry is below 2^63. */
  predicate GoodRecord(r: KeyRecord, strict: bool) { r.tenantId != Some("") && (strict ==> TimeFits(r.expiresAt)) }

  ghost predicate GoodCache(cache: KeyCache, strict: bool) { forall h :: h in cache ==> GoodRecord(cache[h], strict) }

  lemma OperationsKeepGood(s: KeyState, tenantId: string, id: string, hash: string, now: Clock, strict: bool)
    requires GoodCache(s.cache, strict)
    ensures GoodCache(Revoke(s, tenantId, id, now).0.cache, strict)
    ensures GoodCache(Rotate(s, tenantId, id, hash).0.cache, strict)
    ensures GoodCache(Touch(s, id, now).cache, strict)
  {
  }

  lemma AuthenticateKeepsGood(s: KeyState, hash: string, now: Clock, strict: bool)
    requires GoodCache(s.cache, strict)
    ensures GoodCache(Authenticate(s, hash, now).0.cache, strict)
  {
    if HasHash(s.table, hash) {
      ReadIsStable(IdByHash(s.table, hash), s.table[IdByHash(s.table, hash)]);
    }
  }

  lemma ResetKeepsGood(s: KeyState, now: Clock, newId: string, newHash: string, strict: bool)
    requires GoodCache(s.cache, strict)
    ensures GoodCache(ResetBootstrap(s, now, newId, newHash).0.cache, strict)
  {
  }
}
