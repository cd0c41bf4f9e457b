/** API keys over whole runs, with other processes creating, rotating and revoking keys in
    the same table, and with restarts (`src/store.rs`, "Keys"; `src/cli.rs`). */
module KeyLifecycle {
  import opened Prelude
  import opened StoreRows
  import opened KeyStore

  /** Which key a hash was generated for, and when, counted in generated hashes. */
  datatype Birth = Birth(id: string, generation: nat)

  datatype Server = Server(keys: KeyState, births: map<string, Birth>, generated: nat)

  datatype Step =
    | DoCreate(record: KeyRecord)
    | DoRevoke(tenantId: string, id: string, now: Clock)
    | DoRotate(tenantId: string, id: string, newHash: string)
    | DoAuthenticate(hash: string, now: Clock)
    | DoTouch(id: string, now: Clock)
    | DoLandTouch(id: string, now: Clock)
    | DoRestart
    | ElsewhereCreates(id: string, row: KeyRow)
    | ElsewhereRotates(id: string, newHash: string)
    | ElsewhereRevokes(id: string, now: Clock)

  ghost predicate Enabled(s: Server, step: Step) {
    match step
    case DoCreate(r) => r.id !in s.keys.table && r.keyHash !in s.births && r.revokedAt.None?
    case DoRotate(_, _, h) => h !in s.births
    case ElsewhereCreates(id, row) =>
      id !in s.keys.table && row.keyHash !in s.births && (row.revokedAt.Some? ==> row.revokedAt.value >= 0)
    case ElsewhereRotates(id, h) => id in s.keys.table && h !in s.births
    case ElsewhereRevokes(id, _) => id in s.keys.table
    case _ => true
  }

  function Born(s: Server, hash: string, id: string): Server {
    s.(births := s.births[hash := Birth(id, s.generated)], generated := s.generated + 1)
  }

  ghost function Next(s: Server, step: Step): Server
    requires Enabled(s, step)
  {
    match step
    case DoCreate(r) => Born(s, r.keyHash, r.id).(keys := Create(s.keys, r))
    case DoRevoke(t, id, now) => s.(keys := Revoke(s.keys, t, id, now).0)
    case DoRotate(t, id, h) => Born(s, h, id).(keys := Rotate(s.keys, t, id, h).0)
    case DoAuthenticate(h, now) => s.(keys := Authenticate(s.keys, h, now).0)
    case DoTouch(id, now) => s.(keys := Touch(s.keys, id, now))
    case DoLandTouch(id, now) => s.(keys := LandTouch(s.keys, id, now))
    case DoRestart => s.(keys := s.keys.(cache := Reload(s.keys.table)))
    case ElsewhereCreates(id, row) =>
      Born(s, row.keyHash, id).(keys := s.keys.(table := s.keys.table[id := row]))
    case ElsewhereRotates(id, h) =>
      Born(s, h, id).(keys := s.keys.(table := RotateRow(s.keys.table, id, h)))
    case ElsewhereRevokes(id, now) => s.(keys := s.keys.(table := RevokeRow(s.keys.table, id, now)))
  }

  ghost predicate Leads(s: Server, steps: seq<Step>, t: Server)
    decreases |steps|
  {
    if steps == [] then s == t
    else Enabled(s, steps[0]) && Leads(Next(s, steps[0]), steps[1..], t)
  }

  // ---- The invariant ------------------------------------------------------------------

  /** A key id, and a generation below which none of its hashes is usable any more. */
  datatype Mark = Mark(id: string, floor: nat)

  predicate HashOk(births: map<string, Birth>, hash: string, id: string, mark: Mark) {
    hash in births && births[hash].id == id && (id == mark.id ==> births[hash].generation >= mark.floor)
  }

  predicate RowOk(births: map<string, Birth>, id: string, row: KeyRow, mark: Mark) {
    HashOk(births, row.keyHash, id, mark) && (row.revokedAt.Some? ==> row.revokedAt.value >= 0)
  }

  /** A cached record sits under its own hash and is never younger than its row. */
  predicate EntryOk(births: map<string, Birth>, h: string, r: KeyRecord, row: KeyRow, mark: Mark) {
    && r.keyHash == h && HashOk(births, h, r.id, mark)
    && row.keyHash in births && births[h].generation <= births[row.keyHash].generation
  }

  ghost predicate RowsOk(s: Server, mark: Mark) {
    forall id :: id in s.keys.table ==> RowOk(s.births, id, s.keys.table[id], mark)
  }

  ghost predicate EntriesOk(s: Server, mark: Mark) {
    forall h :: h in s.keys.cache ==>
      s.keys.cache[h].id in s.keys.table
      && EntryOk(s.births, h, s.keys.cache[h], s.keys.table[s.keys.cache[h].id], mark)
  }

  /** The cache holds at most one hash per key id. */
  ghost predicate OneHashPerId(cache: KeyCache) {
    forall h, k :: h in cache && k in cache && cache[h].id == cache[k].id ==> h == k
  }

  ghost predicate BirthsOk(s: Server) {
    && (forall h :: h in s.births ==> s.births[h].generation < s.generated)
    && (forall h, k :: h in s.births && k in s.births && s.births[h].generation == s.births[k].generation ==> h == k)
  }

  ghost predicate MarkedInv(s: Server, mark: Mark) {
    RowsOk(s, mark) && EntriesOk(s, mark) && OneHashPerId(s.keys.cache) && BirthsOk(s) && mark.floor <= s.generated
  }

  /** The invariant of every run; a mark with floor 0 asks nothing more. */
  ghost predicate Inv(s: Server) { MarkedInv(s, Mark("", 0)) }

  /** A server on a new database satisfies it. */
  lemma EmptyIsGood()
    ensures Inv(Server(KeyState(map[], map[]), map[], 0))
  {
  }

  /** In every such state each cached record sits under its own hash, one hash per key id. */
  lemma CacheIsIndexedByHash(s: Server, h: string, k: string)
    requires Inv(s) && h in s.keys.cache
    ensures s.keys.cache[h].keyHash == h
    ensures k in s.keys.cache && s.keys.cache[k].id == s.keys.cache[h].id ==> k == h
  {
    assert EntryOk(s.births, h, s.keys.cache[h], s.keys.table[s.keys.cache[h].id], Mark("", 0));
  }

  lemma TableHashesUnique(s: Server, mark: Mark)
    requires RowsOk(s, mark)
    ensures UniqueHashes(s.keys.table)
  {
    forall i, j | i in s.keys.table && j in s.keys.table && s.keys.table[i].keyHash == s.keys.table[j].keyHash
      ensures i == j
    {
      assert RowOk(s.births, i, s.keys.table[i], mark) && RowOk(s.births, j, s.keys.table[j], mark);
    }
  }

  // ---- Building blocks -------------------------------------------------------------------

  lemma BornKeepsInv(s: Server, hash: string, id: string, mark: Mark)
    requires MarkedInv(s, mark) && hash !in s.births
    ensures MarkedInv(Born(s, hash, id), mark) && HashOk(Born(s, hash, id).births, hash, id, mark)
  {
    var t := Born(s, hash, id);
    forall i | i in t.keys.table
      ensures RowOk(t.births, i, t.keys.table[i], mark)
    {
      assert RowOk(s.births, i, s.keys.table[i], mark);
    }
    forall h | h in t.keys.cache
      ensures EntryOk(t.births, h, t.keys.cache[h], t.keys.table[t.keys.cache[h].id], mark)
    {
      var r := s.keys.cache[h];
      assert EntryOk(s.births, h, r, s.keys.table[r.id], mark);
    }
  }

  /** Writing one row. */
  lemma PutRow(s: Server, id: string, row: KeyRow, mark: Mark)
    requires MarkedInv(s, mark) && RowOk(s.births, id, row, mark)
    requires forall h :: h in s.keys.cache && s.keys.cache[h].id == id ==> EntryOk(s.births, h, s.keys.cache[h], row, mark)
    ensures MarkedInv(s.(keys := s.keys.(table := s.keys.table[id := row])), mark)
  {
    hide RowOk, EntryOk;
  }

  /** Caching one record in place of whatever its id had cached. */
  lemma PutRecord(s: Server, h: string, r: KeyRecord, mark: Mark)
    requires MarkedInv(s, mark) && r.id in s.keys.table && EntryOk(s.births, h, r, s.keys.table[r.id], mark)
    requires h in s.keys.cache ==> s.keys.cache[h].id == r.id
    ensures MarkedInv(s.(keys := s.keys.(cache := WithoutId(s.keys.cache, r.id)[h := r])), mark)
  {
    hide RowOk, EntryOk;
  }

  /** Moving a cached record to a new hash, or to itself, and rewriting its row. */
  lemma Swap(s: Server, h: string, r: KeyRecord, row: KeyRow, mark: Mark)
    requires MarkedInv(s, mark) && h in s.keys.cache && r.id == s.keys.cache[h].id
    requires RowOk(s.births, r.id, row, mark) && EntryOk(s.births, r.keyHash, r, row, mark)
    requires r.keyHash in s.keys.cache ==> r.keyHash == h
    ensures MarkedInv(s.(keys := KeyState(s.keys.table[r.id := row], (s.keys.cache - {h})[r.keyHash := r])), mark)
  {
    hide RowOk, EntryOk;
    var t := s.(keys := KeyState(s.keys.table[r.id := row], (s.keys.cache - {h})[r.keyHash := r]));
    forall k | k in t.keys.cache && k != r.keyHash
      ensures t.keys.cache[k] == s.keys.cache[k] && s.keys.cache[k].id != r.id
    {
    }
  }

  lemma PutBack(cache: KeyCache, h: string, r: KeyRecord)
    requires h in cache
    ensures (cache - {h})[h := r] == cache[h := r]
    ensures cache[h := cache[h]] == cache
  {
  }

  lemma CachedHashIsOwned(s: Server, h: string, id: string, mark: Mark)
    requires MarkedInv(s, mark) && HashOk(s.births, h, id, mark) && h in s.keys.cache
    ensures s.keys.cache[h].id == id
  {
    assert EntryOk(s.births, h, s.keys.cache[h], s.keys.table[s.keys.cache[h].id], mark);
  }

  /** The newest hash of all outranks every cached one. */
  lemma NewestOutranks(s: Server, h: string, r: KeyRecord, row: KeyRow, hash: string, mark: Mark)
    requires BirthsOk(s) && EntryOk(s.births, h, r, row, mark)
    requires hash in s.births && s.births[hash].generation == s.generated - 1
    ensures EntryOk(s.births, h, r, row.(keyHash := hash, lastUsedAt := None), mark)
  {
  }

  // ---- Steps --------------------------------------------------------------------------------

  lemma CreateKeepsInv(s: Server, record: KeyRecord, mark: Mark)
    requires MarkedInv(s, mark) && Enabled(s, DoCreate(record))
    ensures MarkedInv(Next(s, DoCreate(record)), mark)
  {
    hide BirthsOk, OneHashPerId, RowsOk;
    var (h, id) := (record.keyHash, record.id);
    BornKeepsInv(s, h, id, mark);
    var b := Born(s, h, id);
    PutRow(b, id, BindKey(record), mark);
    var t := b.(keys := b.keys.(table := b.keys.table[id := BindKey(record)]));
    if h in t.keys.cache {
      CachedHashIsOwned(t, h, id, mark);
    }
    PutRecord(t, h, record, mark);
    assert WithoutId(t.keys.cache, id) == t.keys.cache;
  }

  lemma RevokeKeepsInv(s: Server, tenantId: string, id: string, now: Clock, mark: Mark)
    requires MarkedInv(s, mark)
    ensures MarkedInv(Next(s, DoRevoke(tenantId, id, now)), mark)
  {
    match FindOwned(s.keys.cache, tenantId, id) {
      case None =>
        assert Next(s, DoRevoke(tenantId, id, now)) == s;
      case Some(h) =>
        var (r, row) := (s.keys.cache[h], s.keys.table[id]);
        assert EntryOk(s.births, h, r, row, mark) && RowOk(s.births, id, row, mark);
        var r' := if r.revokedAt.None? then r.(revokedAt := Some(now)) else r;
        var row' := if row.revokedAt.None? then row.(revokedAt := Some(now)) else row;
        assert EntryOk(s.births, h, r', row', mark);
        assert RowOk(s.births, id, row', mark);
        hide EntryOk, RowOk, MarkedInv;
        Swap(s, h, r', row', mark);
        PutBack(s.keys.cache, h, r');
        assert s.keys.table[id := row] == s.keys.table;
    }
  }

  lemma CachedAreBorn(s: Server, mark: Mark)
    requires EntriesOk(s, mark)
    ensures forall h :: h in s.keys.cache ==> h in s.births
  {
    forall h | h in s.keys.cache
      ensures h in s.births
    {
      assert EntryOk(s.births, h, s.keys.cache[h], s.keys.table[s.keys.cache[h].id], mark);
    }
  }

  lemma RotateKeepsInv(s: Server, tenantId: string, id: string, newHash: string, mark: Mark)
    requires MarkedInv(s, mark) && newHash !in s.births
    ensures MarkedInv(Next(s, DoRotate(tenantId, id, newHash)), mark)
  {
    BornKeepsInv(s, newHash, id, mark);
    var b := Born(s, newHash, id);
    match FindOwned(s.keys.cache, tenantId, id) {
      case None =>
        assert Next(s, DoRotate(tenantId, id, newHash)) == b;
      case Some(h) =>
        var (r, row) := (b.keys.cache[h], b.keys.table[id]);
        assert EntryOk(b.births, h, r, row, mark) && RowOk(b.births, id, row, mark);
        var r' := r.(keyHash := newHash, lastUsedAt := None);
        var row' := row.(keyHash := newHash, lastUsedAt := None);
        NewestOutranks(b, h, r, row, newHash, mark);
        assert RowOk(b.births, id, row', mark) && EntryOk(b.births, newHash, r', row', mark);
        CachedAreBorn(s, mark);
        hide EntryOk, RowOk, MarkedInv;
        Swap(b, h, r', row', mark);
    }
  }

  lemma AuthenticateKeepsInv(s: Server, hash: string, now: Clock, mark: Mark)
    requires MarkedInv(s, mark)
    ensures MarkedInv(Next(s, DoAuthenticate(hash, now)), mark)
  {
    var keys := Authenticate(s.keys, hash, now).0;
    if keys != s.keys {
      var id := IdByHash(s.keys.table, hash);
      var (row, r) := (s.keys.table[id], ReadKey(id, s.keys.table[id]));
      assert RowOk(s.births, id, row, mark);
      assert EntryOk(s.births, hash, r, row, mark);
      if hash in s.keys.cache {
        CachedHashIsOwned(s, hash, id, mark);
      }
      hide EntryOk, RowOk;
      PutRecord(s, hash, r, mark);
    }
  }

  lemma TouchKeepsInv(s: Server, id: string, now: Clock, mark: Mark)
    requires MarkedInv(s, mark)
    ensures MarkedInv(Next(s, DoTouch(id, now)), mark)
  {
    match FindId(s.keys.cache, id) {
      case None =>
      case Some(h) =>
        var (r, row) := (s.keys.cache[h].(lastUsedAt := Some(now)), s.keys.table[id]);
        assert EntryOk(s.births, h, s.keys.cache[h], row, mark) && RowOk(s.births, id, row, mark);
        hide MarkedInv;
        Swap(s, h, r, row, mark);
        PutBack(s.keys.cache, h, r);
        assert s.keys.table[id := row] == s.keys.table;
    }
  }

  lemma LandTouchKeepsInv(s: Server, id: string, now: Clock, mark: Mark)
    requires MarkedInv(s, mark)
    ensures MarkedInv(Next(s, DoLandTouch(id, now)), mark)
  {
    if id in s.keys.table {
      var row := s.keys.table[id];
      assert RowOk(s.births, id, row, mark);
      PutRow(s, id, row.(lastUsedAt := Some(now)), mark);
    }
  }

  lemma RestartKeepsInv(s: Server, mark: Mark)
    requires MarkedInv(s, mark)
    ensures MarkedInv(Next(s, DoRestart), mark)
  {
    TableHashesUnique(s, mark);
    var cache := Reload(s.keys.table);
    forall h | h in cache
      ensures cache[h].id in s.keys.table && s.keys.table[cache[h].id].keyHash == h
      ensures EntryOk(s.births, h, cache[h], s.keys.table[cache[h].id], mark)
    {
      var id :| id in s.keys.table && s.keys.table[id].keyHash == h;
      assert HasHash(s.keys.table, h) && IdByHash(s.keys.table, h) == id;
      assert RowOk(s.births, id, s.keys.table[id], mark);
    }
    hide EntryOk, RowOk;
  }

  lemma ElsewhereRotatesKeepsInv(s: Server, id: string, newHash: string, mark: Mark)
    requires MarkedInv(s, mark) && id in s.keys.table && newHash !in s.births
    ensures MarkedInv(Next(s, ElsewhereRotates(id, newHash)), mark)
  {
    BornKeepsInv(s, newHash, id, mark);
    var b := Born(s, newHash, id);
    var row := b.keys.table[id];
    assert RowOk(b.births, id, row, mark);
    var row' := row.(keyHash := newHash, lastUsedAt := None);
    forall h | h in b.keys.cache && b.keys.cache[h].id == id
      ensures EntryOk(b.births, h, b.keys.cache[h], row', mark)
    {
      NewestOutranks(b, h, b.keys.cache[h], row, newHash, mark);
    }
    PutRow(b, id, row', mark);
  }

  lemma ElsewhereRevokesKeepsInv(s: Server, id: string, now: Clock, mark: Mark)
    requires MarkedInv(s, mark) && id in s.keys.table
    ensures MarkedInv(Next(s, ElsewhereRevokes(id, now)), mark)
  {
    var row := s.keys.table[id];
    assert RowOk(s.births, id, row, mark);
    if row.revokedAt.None? {
      PutRow(s, id, row.(revokedAt := Some(now)), mark);
    }
  }

  lemma StepKeepsInv(s: Server, step: Step, mark: Mark)
    requires MarkedInv(s, mark) && Enabled(s, step)
    ensures MarkedInv(Next(s, step), mark)
    ensures forall h :: h in s.births ==> h in Next(s, step).births && Next(s, step).births[h] == s.births[h]
  {
    match step {
      case DoCreate(r) => CreateKeepsInv(s, r, mark);
      case DoRevoke(t, id, now) => RevokeKeepsInv(s, t, id, now, mark);
      case DoRotate(t, id, h) => RotateKeepsInv(s, t, id, h, mark);
      case DoAuthenticate(h, now) => AuthenticateKeepsInv(s, h, now, mark);
      case DoTouch(id, now) => TouchKeepsInv(s, id, now, mark);
      case DoLandTouch(id, now) => LandTouchKeepsInv(s, id, now, mark);
      case DoRestart => RestartKeepsInv(s, mark);
      case ElsewhereCreates(id, row) =>
        BornKeepsInv(s, row.keyHash, id, mark);
        PutRow(Born(s, row.keyHash, id), id, row, mark);
      case ElsewhereRotates(id, h) => ElsewhereRotatesKeepsInv(s, id, h, mark);
      case ElsewhereRevokes(id, now) => ElsewhereRevokesKeepsInv(s, id, now, mark);
    }
    hide MarkedInv;
  }

  lemma {:induction false} RunsKeepInv(s: Server, steps: seq<Step>, t: Server, mark: Mark)
    requires MarkedInv(s, mark) && Leads(s, steps, t)
    ensures MarkedInv(t, mark)
    ensures forall h :: h in s.births ==> h in t.births && t.births[h] == s.births[h]
    decreases |steps|
  {
    hide MarkedInv, Next;
    if steps != [] {
      StepKeepsInv(s, steps[0], mark);
      RunsKeepInv(Next(s, steps[0]), steps[1..], t, mark);
    }
  }

  lemma MarkedImpliesInv(s: Server, mark: Mark)
    requires MarkedInv(s, mark)
    ensures Inv(s)
  {
    forall id | id in s.keys.table
      ensures RowOk(s.births, id, s.keys.table[id], Mark("", 0))
    {
      assert RowOk(s.births, id, s.keys.table[id], mark);
    }
    forall h | h in s.keys.cache
      ensures EntryOk(s.births, h, s.keys.cache[h], s.keys.table[s.keys.cache[h].id], Mark("", 0))
    {
      assert EntryOk(s.births, h, s.keys.cache[h], s.keys.table[s.keys.cache[h].id], mark);
    }
  }

  // ---- Revoked for good -------------------------------------------------------------------

  /** The row is revoked, and so is whatever the cache holds for the key. */
  predicate Revoked(s: Server, id: string) {
    && id in s.keys.table && s.keys.table[id].revokedAt.Some?
    && forall h :: h in s.keys.cache && s.keys.cache[h].id == id ==> s.keys.cache[h].revokedAt.Some?
  }

  lemma RevokeTakes(s: Server, tenantId: string, id: string, now: Clock)
    requires Inv(s) && Revoke(s.keys, tenantId, id, now).1
    ensures Revoked(Next(s, DoRevoke(tenantId, id, now)), id)
  {
    hide HashOk, RowOk, EntryOk, BirthsOk;
  }

  lemma RevokedRowReads(s: Server, id: string)
    requires Inv(s) && Revoked(s, id)
    ensures ReadKey(id, s.keys.table[id]).revokedAt.Some?
  {
    assert RowOk(s.births, id, s.keys.table[id], Mark("", 0));
  }

  lemma RestartKeepsRevoked(s: Server, id: string)
    requires Inv(s) && id in s.keys.table && s.keys.table[id].revokedAt.Some?
    ensures Revoked(Next(s, DoRestart), id)
  {
    TableHashesUnique(s, Mark("", 0));
    assert RowOk(s.births, id, s.keys.table[id], Mark("", 0));
    forall h | h in Reload(s.keys.table)
      ensures Reload(s.keys.table)[h] == ReadKey(Reload(s.keys.table)[h].id, s.keys.table[Reload(s.keys.table)[h].id])
    {
      var i :| i in s.keys.table && s.keys.table[i].keyHash == h;
      assert HasHash(s.keys.table, h) && IdByHash(s.keys.table, h) == i;
    }
    hide EntryOk, BirthsOk, RowOk, HashOk;
  }

  lemma StepKeepsRevoked(s: Server, step: Step, id: string)
    requires Inv(s) && Enabled(s, step) && Revoked(s, id)
    ensures Revoked(Next(s, step), id)
  {
    hide Inv;
    match step {
      case DoRestart => RestartKeepsRevoked(s, id);
      case DoAuthenticate(_, _) => RevokedRowReads(s, id);
      case _ =>
    }
    hide Reload, ReadKey;
  }

  lemma {:induction false} RunsKeepRevoked(s: Server, steps: seq<Step>, t: Server, id: string)
    requires Inv(s) && Leads(s, steps, t) && Revoked(s, id)
    ensures Revoked(t, id)
    decreases |steps|
  {
    if steps != [] {
      StepKeepsRevoked(s, steps[0], id);
      StepKeepsInv(s, steps[0], Mark("", 0));
      hide MarkedInv, Next, Revoked;
      RunsKeepRevoked(Next(s, steps[0]), steps[1..], t, id);
    }
  }

  lemma RevokedDoesNotAuthenticate(s: Server, id: string, hash: string, now: Clock)
    requires Inv(s) && Revoked(s, id)
    ensures var r := Authenticate(s.keys, hash, now).1; r.None? || r.value.id != id
  {
    hide Inv;
    RevokedRowReads(s, id);
  }

  /** Once `revoke_key` has succeeded, no hash ever authenticates as that key again: not after
      rotations here or in another process, nor after a restart. */
  lemma RevokedForever(s: Server, tenantId: string, id: string, now: Clock, steps: seq<Step>, t: Server,
                       hash: string, later: Clock)
    requires Inv(s) && Revoke(s.keys, tenantId, id, now).1
    requires Leads(Next(s, DoRevoke(tenantId, id, now)), steps, t)
    ensures var r := Authenticate(t.keys, hash, later).1; r.None? || r.value.id != id
  {
    var s' := Next(s, DoRevoke(tenantId, id, now));
    RevokeTakes(s, tenantId, id, now);
    StepKeepsInv(s, DoRevoke(tenantId, id, now), Mark("", 0));
    hide MarkedInv, Next, Revoked, Authenticate;
    RunsKeepRevoked(s', steps, t, id);
    RunsKeepInv(s', steps, t, Mark("", 0));
    RevokedDoesNotAuthenticate(t, id, hash, later);
  }

  /** A revocation by another process is noticed only by keys this server has to look up: a hash still
      authenticates as that key exactly when it is cached for it and was active before. After a
      restart none ever does. */
  lemma RevokedElsewhere(s: Server, id: string, now: Clock, hash: string, later: Clock, steps: seq<Step>, t: Server)
    requires Inv(s) && id in s.keys.table
    ensures var r := Authenticate(Next(s, ElsewhereRevokes(id, now)).keys, hash, later).1;
            r.Some? && r.value.id == id <==>
              hash in s.keys.cache && s.keys.cache[hash].id == id && s.keys.cache[hash].IsActive(later)
    ensures Leads(Next(Next(s, ElsewhereRevokes(id, now)), DoRestart), steps, t) ==>
              var r := Authenticate(t.keys, hash, later).1; r.None? || r.value.id != id
  {
    var s1 := Next(s, ElsewhereRevokes(id, now));
    ElsewhereRevokesKeepsInv(s, id, now, Mark("", 0));
    RevokedLookup(s1, id, hash, later);
    var s2 := Next(s1, DoRestart);
    RestartKeepsInv(s1, Mark("", 0));
    RestartKeepsRevoked(s1, id);
    hide MarkedInv, Next, Revoked, Authenticate;
    if Leads(s2, steps, t) {
      RunsKeepRevoked(s2, steps, t, id);
      RunsKeepInv(s2, steps, t, Mark("", 0));
      RevokedDoesNotAuthenticate(t, id, hash, later);
    }
  }

  /** A lookup in the table never finds a revoked key. */
  lemma RevokedLookup(s: Server, id: string, hash: string, now: Clock)
    requires Inv(s) && id in s.keys.table && s.keys.table[id].revokedAt.Some?
    ensures var r := Authenticate(s.keys, hash, now).1;
            r.Some? && r.value.id == id <==>
              hash in s.keys.cache && s.keys.cache[hash].id == id && s.keys.cache[hash].IsActive(now)
  {
    assert RowOk(s.births, id, s.keys.table[id], Mark("", 0));
    hide MarkedInv, RowOk;
  }

  /** After a rotation by another process the new value authenticates if its row is active, and any
      other hash does so as that key exactly when it is cached for it and active: the old value works
      on until the new one has been used (`NoWayBack`) or the server restarts. */
  lemma RotatedElsewhere(s: Server, id: string, newHash: string, hash: string, now: Clock)
    requires Inv(s) && Enabled(s, ElsewhereRotates(id, newHash)) && hash != newHash
    ensures var r := Authenticate(Next(s, ElsewhereRotates(id, newHash)).keys, hash, now).1;
            r.Some? && r.value.id == id <==>
              hash in s.keys.cache && s.keys.cache[hash].id == id && s.keys.cache[hash].IsActive(now)
    ensures var r := Authenticate(Next(s, ElsewhereRotates(id, newHash)).keys, newHash, now).1;
            r.Some? && r.value.id == id <==> ReadKey(id, s.keys.table[id]).IsActive(now)
    ensures var r := Authenticate(Next(Next(s, ElsewhereRotates(id, newHash)), DoRestart).keys, hash, now).1;
            r.None? || r.value.id != id
  {
    hide ReadKey, BirthsOk, OneHashPerId, Authenticate, Reload;
    var t := Next(s, ElsewhereRotates(id, newHash));
    CachedAreBorn(s, Mark("", 0));
    RotatedLookup(t.keys, id, hash, now);
    ElsewhereRotatesKeepsInv(s, id, newHash, Mark("", 0));
    TableHashesUnique(t, Mark("", 0));
    NewLookup(t.keys, id, now);
    SameActivity(id, s.keys.table[id], newHash, now);
    RestartedLookup(t.keys, id, hash, now);
  }

  lemma NewLookup(s: KeyState, id: string, now: Clock)
    requires id in s.table && s.table[id].keyHash !in s.cache && UniqueHashes(s.table)
    ensures var r := Authenticate(s, s.table[id].keyHash, now).1;
            r.Some? && r.value.id == id <==> ReadKey(id, s.table[id]).IsActive(now)
  {
    assert HasHash(s.table, s.table[id].keyHash) && IdByHash(s.table, s.table[id].keyHash) == id;
  }

  lemma SameActivity(id: string, row: KeyRow, hash: string, now: Clock)
    ensures ReadKey(id, row.(keyHash := hash, lastUsedAt := None)).IsActive(now) <==> ReadKey(id, row).IsActive(now)
  {
  }

  /** A hash that is not the row's own finds the key in the cache or not at all. */
  lemma RotatedLookup(s: KeyState, id: string, hash: string, now: Clock)
    requires id in s.table && s.table[id].keyHash != hash
    ensures var r := Authenticate(s, hash, now).1;
            r.Some? && r.value.id == id <==> hash in s.cache && s.cache[hash].id == id && s.cache[hash].IsActive(now)
  {
  }

  lemma RestartedLookup(s: KeyState, id: string, hash: string, now: Clock)
    requires id in s.table && s.table[id].keyHash != hash && UniqueHashes(s.table)
    ensures var r := Authenticate(KeyState(s.table, Reload(s.table)), hash, now).1; r.None? || r.value.id != id
  {
    RotatedLookup(KeyState(s.table, Reload(s.table)), id, hash, now);
    if hash in Reload(s.table) {
      ReloadedHash(s.table, hash);
      ReloadedRow(s.table, IdByHash(s.table, hash));
    }
    hide Authenticate, Reload;
  }

  // ---- Expiry ----------------------------------------------------------------------------------

  /** The row says the key expires at `e`, and so does whatever the cache holds for it. */
  predicate ExpiresAt(s: Server, id: string, e: Clock) {
    && id in s.keys.table && s.keys.table[id].expiresAt == Some(e)
    && forall h :: h in s.keys.cache && s.keys.cache[h].id == id ==> s.keys.cache[h].expiresAt == Some(e)
  }

  lemma CreateSetsExpiry(s: Server, record: KeyRecord, e: Clock)
    requires Inv(s) && Enabled(s, DoCreate(record)) && record.expiresAt == Some(e)
    ensures ExpiresAt(Next(s, DoCreate(record)), record.id, e)
  {
    forall h | h in s.keys.cache
      ensures s.keys.cache[h].id in s.keys.table
    {
      assert EntryOk(s.births, h, s.keys.cache[h], s.keys.table[s.keys.cache[h].id], Mark("", 0));
    }
    hide MarkedInv;
  }

  lemma RestartKeepsExpiry(s: Server, id: string, e: Clock)
    requires Inv(s) && ExpiresAt(s, id, e)
    ensures ExpiresAt(Next(s, DoRestart), id, e)
  {
    TableHashesUnique(s, Mark("", 0));
    forall h | h in Reload(s.keys.table)
      ensures Reload(s.keys.table)[h] == ReadKey(Reload(s.keys.table)[h].id, s.keys.table[Reload(s.keys.table)[h].id])
    {
      var i :| i in s.keys.table && s.keys.table[i].keyHash == h;
      assert HasHash(s.keys.table, h) && IdByHash(s.keys.table, h) == i;
    }
    hide EntryOk, BirthsOk, RowOk, HashOk;
  }

  lemma StepKeepsExpiry(s: Server, step: Step, id: string, e: Clock)
    requires Inv(s) && Enabled(s, step) && ExpiresAt(s, id, e)
    ensures ExpiresAt(Next(s, step), id, e)
  {
    hide Inv;
    if step == DoRestart {
      RestartKeepsExpiry(s, id, e);
    }
    hide Reload;
  }

  lemma {:induction false} RunsKeepExpiry(s: Server, steps: seq<Step>, t: Server, id: string, e: Clock)
    requires Inv(s) && Leads(s, steps, t) && ExpiresAt(s, id, e)
    ensures ExpiresAt(t, id, e)
    decreases |steps|
  {
    if steps != [] {
      StepKeepsExpiry(s, steps[0], id, e);
      StepKeepsInv(s, steps[0], Mark("", 0));
      hide MarkedInv, Next, ExpiresAt;
      RunsKeepExpiry(Next(s, steps[0]), steps[1..], t, id, e);
    }
  }

  lemma ExpiredDoesNotAuthenticate(s: Server, id: string, e: Clock, hash: string, now: Clock)
    requires ExpiresAt(s, id, e)
    ensures var r := Authenticate(s.keys, hash, now).1;
            r.Some? && r.value.id == id ==> now < e && r.value.expiresAt == Some(e)
  {
  }

  /** A key created to expire at `e` authenticates under no hash from `e` on: not after rotations here or
      elsewhere, nor after a restart. Before `e` whatever authenticates as it still says so. */
  lemma ExpiredForever(s: Server, record: KeyRecord, e: Clock, steps: seq<Step>, t: Server, hash: string, later: Clock)
    requires Inv(s) && Enabled(s, DoCreate(record)) && record.expiresAt == Some(e)
    requires Leads(Next(s, DoCreate(record)), steps, t)
    ensures var r := Authenticate(t.keys, hash, later).1;
            r.Some? && r.value.id == record.id ==> later < e && r.value.expiresAt == Some(e)
  {
    CreateSetsExpiry(s, record, e);
    StepKeepsInv(s, DoCreate(record), Mark("", 0));
    hide MarkedInv, Next, ExpiresAt, Authenticate;
    RunsKeepExpiry(Next(s, DoCreate(record)), steps, t, record.id, e);
    ExpiredDoesNotAuthenticate(t, record.id, e, hash, later);
  }

  // ---- No way back to an old value -----------------------------------------------------------

  lemma AuthenticatedIsCached(s: Server, hash: string, now: Clock, r: KeyRecord)
    requires Authenticate(s.keys, hash, now).1 == Some(r)
    ensures var t := Next(s, DoAuthenticate(hash, now));
            hash in t.keys.cache && t.keys.cache[hash] == r && t.births == s.births && t.generated == s.generated
  {
  }

  /** A cached hash marks its key: nothing older is usable in this state. */
  lemma CachedSetsMark(s: Server, hash: string)
    requires Inv(s) && hash in s.keys.cache
    ensures hash in s.births && s.births[hash].id == s.keys.cache[hash].id
    ensures MarkedInv(s, Mark(s.keys.cache[hash].id, s.births[hash].generation))
  {
    var r := s.keys.cache[hash];
    var none := Mark("", 0);
    assert EntryOk(s.births, hash, r, s.keys.table[r.id], none);
    var mark := Mark(r.id, s.births[hash].generation);
    forall id | id in s.keys.table
      ensures RowOk(s.births, id, s.keys.table[id], mark)
    {
      assert RowOk(s.births, id, s.keys.table[id], none);
    }
    forall h | h in s.keys.cache
      ensures EntryOk(s.births, h, s.keys.cache[h], s.keys.table[s.keys.cache[h].id], mark)
    {
      assert EntryOk(s.births, h, s.keys.cache[h], s.keys.table[s.keys.cache[h].id], none);
    }
  }

  /** A hash that can authenticate is not below the mark of its key. */
  lemma AuthenticatedAboveMark(s: Server, hash: string, now: Clock, r: KeyRecord, mark: Mark)
    requires MarkedInv(s, mark) && Authenticate(s.keys, hash, now).1 == Some(r)
    ensures HashOk(s.births, hash, r.id, mark)
  {
    if hash in s.keys.cache && s.keys.cache[hash].IsActive(now) {
      assert EntryOk(s.births, hash, r, s.keys.table[r.id], mark);
    } else {
      var id := IdByHash(s.keys.table, hash);
      assert RowOk(s.births, id, s.keys.table[id], mark);
    }
  }

  lemma DistinctGenerations(s: Server, h: string, k: string)
    requires BirthsOk(s) && h in s.births && k in s.births && h != k
    ensures s.births[h].generation != s.births[k].generation
  {
  }

  /** Along any run, the hashes that authenticate as one key only get younger. */
  lemma LaterHashIsYounger(s: Server, h1: string, now1: Clock, r1: KeyRecord, steps: seq<Step>, t: Server,
                           h2: string, now2: Clock, r2: KeyRecord)
    requires Inv(s) && Authenticate(s.keys, h1, now1).1 == Some(r1)
    requires Leads(Next(s, DoAuthenticate(h1, now1)), steps, t)
    requires Authenticate(t.keys, h2, now2).1 == Some(r2) && (r2.id == r1.id || h2 == h1)
    ensures Inv(t) && h1 in t.births && h2 in t.births && t.births[h1].id == r1.id
    ensures t.births[h1].generation <= t.births[h2].generation
    ensures h1 != h2 ==> t.births[h1].generation != t.births[h2].generation
  {
    var s' := Next(s, DoAuthenticate(h1, now1));
    AuthenticatedIsCached(s, h1, now1, r1);
    StepKeepsInv(s, DoAuthenticate(h1, now1), Mark("", 0));
    CachedSetsMark(s', h1);
    var mark := Mark(r1.id, s'.births[h1].generation);
    hide Next, Authenticate;
    RunsKeepInv(s', steps, t, mark);
    MarkedImpliesInv(t, mark);
    AuthenticatedAboveMark(t, h2, now2, r2, mark);
    if h1 != h2 {
      DistinctGenerations(t, h1, h2);
    }
  }

  /** Once a rotated value of a key has authenticated, a value that authenticated before it never
      authenticates again, whatever this or another process does in between. */
  lemma NoWayBack(s: Server, oldHash: string, now: Clock, r: KeyRecord, steps: seq<Step>, t: Server,
                  newHash: string, now': Clock, r': KeyRecord, steps': seq<Step>, u: Server, now'': Clock)
    requires Inv(s) && Authenticate(s.keys, oldHash, now).1 == Some(r)
    requires Leads(Next(s, DoAuthenticate(oldHash, now)), steps, t)
    requires Authenticate(t.keys, newHash, now').1 == Some(r') && r'.id == r.id && newHash != oldHash
    requires Leads(Next(t, DoAuthenticate(newHash, now')), steps', u)
    ensures Authenticate(u.keys, oldHash, now'').1 == None
  {
    LaterHashIsYounger(s, oldHash, now, r, steps, t, newHash, now', r');
    var t' := Next(t, DoAuthenticate(newHash, now'));
    AuthenticatedIsCached(t, newHash, now', r');
    StepKeepsInv(t, DoAuthenticate(newHash, now'), Mark("", 0));
    CachedSetsMark(t', newHash);
    var mark := Mark(r'.id, t'.births[newHash].generation);
    hide Next, Authenticate, MarkedInv, Leads;
    RunsKeepInv(t', steps', u, mark);
    var last := Authenticate(u.keys, oldHash, now'').1;
    if last.Some? {
      AuthenticatedAboveMark(u, oldHash, now'', last.value, mark);
    }
  }

  // ---- The other process ---------------------------------------------------------------------

  lemma ReloadedIds(table: KeyTable)
    requires UniqueHashes(table)
    ensures forall h :: h in Reload(table) ==> Reload(table)[h].id in table
  {
    forall h | h in Reload(table)
      ensures Reload(table)[h].id in table
    {
      var i :| i in table && table[i].keyHash == h;
      assert HasHash(table, h) && IdByHash(table, h) == i;
    }
  }

  /** The CLI opens its own store on the table and resets the bootstrap key there: on the table
      that is one of the two `Elsewhere` steps, or nothing. */
  lemma ResetElsewhere(s: Server, now: Clock, newId: string, newHash: string)
    requires Inv(s) && newId !in s.keys.table && newHash !in s.births
    ensures var table := ResetBootstrap(KeyState(s.keys.table, Reload(s.keys.table)), now, newId, newHash).0.table;
            || table == s.keys.table
            || exists step: Step :: (step.ElsewhereCreates? || step.ElsewhereRotates?) && Enabled(s, step)
                              && Next(s, step).keys == s.keys.(table := table)
  {
    hide Reload, EntriesOk, OneHashPerId, BirthsOk, ReadKey, IsBootstrap;
    TableHashesUnique(s, Mark("", 0));
    ReloadedIds(s.keys.table);
    hide RowsOk, UniqueHashes;
    var own := KeyState(s.keys.table, Reload(s.keys.table));
    var found := Bootstraps(own.cache, now);
    var table := ResetBootstrap(own, now, newId, newHash).0.table;
    if |found| == 0 {
      var record := NewRecord(newId, None, "bootstrap", Platform, newHash, now, None);
      var step := ElsewhereCreates(newId, BindKey(record));
      assert Enabled(s, step) && Next(s, step).keys == s.keys.(table := table);
    } else if |found| == 1 {
      var h :| h in found;
      Singleton(found, h);
      var step := ElsewhereRotates(own.cache[h].id, newHash);
      assert Enabled(s, step) && Next(s, step).keys == s.keys.(table := table);
    }
  }
}
