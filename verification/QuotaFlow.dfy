/** Quota counting under concurrency (`src/store.rs`, `try_consume_quota`, `update_tenant`,
    `set_suspended`), at the grain of its locks: a critical section is one step, and the database
    write it leaves behind lands in a step of its own, in any order, or is lost. */
module QuotaFlow {
  import opened Prelude
  import opened StoreRows
  import T = TenantStore
  import MapSums

  /** A database write on its way. */
  datatype Write = CountWrite(id: string, count: nat) | SnapshotWrite(id: string, snapshot: TenantInfo)

  datatype State = State(cache: T.TenantCache, table: T.TenantTable, pending: seq<Write>)

  datatype Step =
    | Consume(id: string)
    | Update(id: string, patch: T.Patch)
    | Land(i: nat)
    | Lose(i: nat)
    | SuspendRow(id: string, at: Option<U64>)
    | SuspendCached(id: string, at: Option<U64>)
    | Create(info: TenantInfo)

  function Target(w: Write): string { w.id }

  function WrittenCount(w: Write): nat {
    match w case CountWrite(_, n) => n case SnapshotWrite(_, t) => t.requestCount
  }

  function Apply(table: T.TenantTable, w: Write): T.TenantTable {
    match w
    case CountWrite(id, n) => T.WriteCount(table, id, n)
    case SnapshotWrite(id, t) => T.WriteSnapshot(table, id, t)
  }

  /** A step that has nothing to act on leaves the state alone. New tenants start from zero under
      an id never used before. */
  function Next(s: State, step: Step): State {
    match step
    case Consume(id) =>
      var (cache, ok) := T.TryConsume(s.cache, id);
      if ok then State(cache, s.table, s.pending + [CountWrite(id, cache[id].requestCount)]) else s
    case Update(id, p) =>
      if id !in s.cache then s
      else
        var cache := T.PatchCache(s.cache, id, p);
        State(cache, s.table, s.pending + [SnapshotWrite(id, cache[id])])
    case Land(i) =>
      if i < |s.pending| then State(s.cache, Apply(s.table, s.pending[i]), MapSums.Without(s.pending, i)) else s
    case Lose(i) => if i < |s.pending| then s.(pending := MapSums.Without(s.pending, i)) else s
    case SuspendRow(id, at) =>
      if id in s.table then s.(table := s.table[id := s.table[id].(suspendedAt := BindTime(at))]) else s
    case SuspendCached(id, at) =>
      if id in s.cache then s.(cache := s.cache[id := s.cache[id].(suspendedAt := at)]) else s
    case Create(info) =>
      if info.id in s.cache || info.id in s.table || info.requestCount != 0
         || exists w :: w in s.pending && Target(w) == info.id then s
      else State(s.cache[info.id := info], s.table[info.id := BindTenant(info)], s.pending)
  }

  function Run(s: State, steps: seq<Step>): State
    decreases |steps|
  {
    if steps == [] then s else Run(Next(s, steps[0]), steps[1..])
  }

  lemma RunCons(s: State, step: Step, steps: seq<Step>)
    ensures Run(s, [step] + steps) == Run(Next(s, step), steps)
  {
    hide Next;
    assert ([step] + steps)[1..] == steps;
  }

  // ---- How many calls are admitted ---------------------------------------------------------

  function Calls(steps: seq<Step>, id: string): nat {
    if steps == [] then 0 else (if steps[0] == Consume(id) then 1 else 0) + Calls(steps[1..], id)
  }

  /** The calls for `id` that returned true along a run. */
  function Admitted(s: State, steps: seq<Step>, id: string): nat
    decreases |steps|
  {
    if steps == [] then 0
    else (if steps[0] == Consume(id) && T.TryConsume(s.cache, id).1 then 1 else 0) + Admitted(Next(s, steps[0]), steps[1..], id)
  }

  /** No `update_tenant` along the run changes the tenant's limit or count. */
  predicate Unpatched(steps: seq<Step>, id: string) {
    forall i :: 0 <= i < |steps| && steps[i].Update? && steps[i].id == id ==>
      steps[i].patch.quotaLimit.None? && steps[i].patch.requestCount.None?
  }

  function Min(a: int, b: int): int { if a < b then a else b }
  function Max(a: int, b: int): int { if a > b then a else b }

  /** However the calls, writes and other steps interleave, `n` calls admit exactly what the limit
      has left, all of them when there is no limit, and each admission counts once. */
  lemma {:induction false} AdmitsExactly(s: State, steps: seq<Step>, id: string)
    requires id in s.cache && Unpatched(steps, id)
    ensures var t := s.cache[id];
            var n := Calls(steps, id);
            && Admitted(s, steps, id) ==
               (if t.quotaLimit == 0 then n else Min(n, Max(0, t.quotaLimit - t.requestCount)))
            && var end := Run(s, steps);
               id in end.cache && end.cache[id].quotaLimit == t.quotaLimit
               && end.cache[id].requestCount == t.requestCount + Admitted(s, steps, id)
    decreases |steps|
  {
    if steps != [] {
      StepCounts(s, steps[0], id);
      AdmitsExactly(Next(s, steps[0]), steps[1..], id);
      hide Next, Unpatched;
    }
  }

  lemma StepCounts(s: State, step: Step, id: string)
    requires id in s.cache
    requires step.Update? && step.id == id ==> step.patch.quotaLimit.None? && step.patch.requestCount.None?
    ensures var t := Next(s, step);
            && id in t.cache && t.cache[id].quotaLimit == s.cache[id].quotaLimit
            && t.cache[id].requestCount ==
               s.cache[id].requestCount + if step == Consume(id) && T.TryConsume(s.cache, id).1 then 1 else 0
  {
  }

  // ---- The persisted count never runs ahead ------------------------------------------------------

  /** No `update_tenant` along the run sets the tenant's request count. */
  predicate CountUnpatched(steps: seq<Step>, id: string) {
    forall i :: 0 <= i < |steps| && steps[i].Update? && steps[i].id == id ==> steps[i].patch.requestCount.None?
  }

  /** What is stored for the tenant, and what is on its way, is at most what is in memory. */
  ghost predicate Behind(s: State, id: string) {
    && (id in s.table ==> id in s.cache && s.table[id].requestCount <= s.cache[id].requestCount)
    && (forall w :: w in s.pending && Target(w) == id ==> id in s.cache && WrittenCount(w) <= s.cache[id].requestCount)
  }

  /** A count in memory only grows. */
  lemma CountGrows(s: State, step: Step, id: string)
    requires step.Update? && step.id == id ==> step.patch.requestCount.None?
    ensures id in s.cache ==> id in Next(s, step).cache && s.cache[id].requestCount <= Next(s, step).cache[id].requestCount
  {
  }

  lemma LandStaysBehind(s: State, i: nat, id: string)
    requires Behind(s, id) && i < |s.pending|
    ensures Behind(Next(s, Land(i)), id)
  {
    assert s.pending[i] in s.pending;
    assert forall w :: w in MapSums.Without(s.pending, i) ==> w in s.pending;
  }

  lemma StepStaysBehind(s: State, step: Step, id: string)
    requires Behind(s, id) && (step.Update? && step.id == id ==> step.patch.requestCount.None?)
    ensures Behind(Next(s, step), id)
  {
    hide Apply;
    CountGrows(s, step, id);
    match step {
      case Land(i) =>
        if i < |s.pending| {
          LandStaysBehind(s, i, id);
        }
      case _ =>
    }
  }

  predicate NotAhead(s: State, id: string) {
    id in s.table ==> id in s.cache && s.table[id].requestCount <= s.cache[id].requestCount
  }

  /** Without count patches, the persisted count never exceeds the one in memory, in whatever order
      the writes land or are lost: a crash undercounts, it never overcounts. */
  lemma {:induction false} PersistedNeverAhead(s: State, steps: seq<Step>, id: string)
    requires Behind(s, id) && CountUnpatched(steps, id)
    ensures NotAhead(Run(s, steps), id)
    decreases |steps|
  {
    if steps != [] {
      StepStaysBehind(s, steps[0], id);
      assert forall i :: 0 <= i < |steps[1..]| ==> steps[1..][i] == steps[i + 1];
      hide Next, Behind;
      PersistedNeverAhead(Next(s, steps[0]), steps[1..], id);
    }
  }

  /** What can be checked before a count patch: the row and every write on its way carry at most the
      new count. */
  predicate SafeCount(s: State, id: string, count: nat) {
    && (id in s.table ==> s.table[id].requestCount <= count)
    && (forall i :: 0 <= i < |s.pending| && Target(s.pending[i]) == id ==> WrittenCount(s.pending[i]) <= count)
  }

  lemma SafePatchStaysBehind(s: State, id: string, p: T.Patch)
    requires id in s.cache && p.requestCount.Some?
    ensures Behind(Next(s, Update(id, p)), id) <==> SafeCount(s, id, p.requestCount.value)
  {
    var t := Next(s, Update(id, p));
    assert forall i :: 0 <= i < |s.pending| ==> t.pending[i] == s.pending[i] && t.pending[i] in t.pending;
    assert t.pending == s.pending + [SnapshotWrite(id, t.cache[id])];
  }

  /** Landing an unsafe write at once puts the stored count ahead. */
  lemma UnsafeWriteLands(s: State, id: string, p: T.Patch, i: nat)
    requires id in s.cache && id in s.table && p.requestCount.Some?
    requires i < |s.pending| && Target(s.pending[i]) == id && WrittenCount(s.pending[i]) > p.requestCount.value
    ensures !NotAhead(Run(Next(s, Update(id, p)), [Land(i)]), id)
  {
    var t := Next(s, Update(id, p));
    assert t.pending[i] == s.pending[i];
    assert [Land(i)] == [Land(i)] + [];
    RunCons(t, Land(i), []);
  }

  /** A count patch is safe exactly when the row and every pending write carry at most the new count:
      then, and only then, no later run without count patches, in whatever order its writes land or
      are lost, ever stores more than is in memory. */
  lemma CountPatchIsSafe(s: State, id: string, p: T.Patch)
    requires id in s.cache && id in s.table && p.requestCount.Some?
    ensures (forall steps :: CountUnpatched(steps, id) ==> NotAhead(Run(Next(s, Update(id, p)), steps), id))
            <==> SafeCount(s, id, p.requestCount.value)
  {
    hide NotAhead, Behind, SafeCount, Next, Run, CountUnpatched;
    var t := Next(s, Update(id, p));
    SafePatchStaysBehind(s, id, p);
    if SafeCount(s, id, p.requestCount.value) {
      forall steps | CountUnpatched(steps, id) {
        PersistedNeverAhead(t, steps, id);
      }
    } else {
      var steps := UnsafeRun(s, id, p);
      assert CountUnpatched(steps, id) && !NotAhead(Run(t, steps), id);
    }
  }

  /** A run that shows an unsafe patch: nothing more, or one write landing. */
  lemma UnsafeRun(s: State, id: string, p: T.Patch) returns (steps: seq<Step>)
    requires id in s.cache && id in s.table && p.requestCount.Some? && !SafeCount(s, id, p.requestCount.value)
    ensures CountUnpatched(steps, id) && !NotAhead(Run(Next(s, Update(id, p)), steps), id)
  {
    if i :| 0 <= i < |s.pending| && Target(s.pending[i]) == id && WrittenCount(s.pending[i]) > p.requestCount.value {
      UnsafeWriteLands(s, id, p, i);
      steps := [Land(i)];
    } else {
      steps := [];
    }
  }

  /** With a count patch it can: a count write from before a reset lands after it. */
  lemma ResetCanBeOvertaken(info: TenantInfo, noPatch: T.Patch)
    requires info.requestCount == 0 && info.quotaLimit == 0 && noPatch == T.Patch(None, None, None, None, None, None)
    ensures var s := State(map[info.id := info], map[info.id := BindTenant(info)], []);
            var end := Run(s, [Consume(info.id), Update(info.id, noPatch.(requestCount := Some(0))), Land(1), Land(0)]);
            && Behind(s, info.id) && end.pending == [] && info.id in end.table && info.id in end.cache
            && end.table[info.id].requestCount == 1 && end.cache[info.id].requestCount == 0
  {
    var id := info.id;
    var s := State(map[id := info], map[id := BindTenant(info)], []);
    var reset := noPatch.(requestCount := Some(0));
    var steps := [Consume(id), Update(id, reset), Land(1), Land(0)];
    var s1 := Next(s, steps[0]);
    var s2 := Next(s1, steps[1]);
    var s3 := Next(s2, steps[2]);
    assert s2.pending == [CountWrite(id, 1), SnapshotWrite(id, s2.cache[id])];
    assert s3.pending == [CountWrite(id, 1)];
    assert steps == [steps[0]] + ([steps[1]] + ([Land(1)] + ([Land(0)] + [])));
    RunCons(s, steps[0], [steps[1]] + ([Land(1)] + ([Land(0)] + [])));
    RunCons(s1, steps[1], [Land(1)] + ([Land(0)] + []));
    RunCons(s2, Land(1), [Land(0)] + []);
    RunCons(s3, Land(0), []);
  }

  // ---- In order, nothing is lost ------------------------------------------------------------------

  predicate InOrder(steps: seq<Step>) {
    forall i :: 0 <= i < |steps| ==> !steps[i].Lose? && (steps[i].Land? ==> steps[i].i == 0)
  }

  /** The count the table will hold for `id` once every pending write has landed in order. */
  function Settled(table: T.TenantTable, pending: seq<Write>, id: string): nat
    requires id in table
  {
    if pending == [] then table[id].requestCount
    else if Target(pending[|pending| - 1]) == id then WrittenCount(pending[|pending| - 1])
    else Settled(table, pending[..|pending| - 1], id)
  }

  ghost predicate WillAgree(s: State) {
    && s.table.Keys == s.cache.Keys
    && forall id :: id in s.cache ==> Settled(s.table, s.pending, id) == s.cache[id].requestCount
  }

  lemma {:induction false} SettledByTable(a: T.TenantTable, b: T.TenantTable, pending: seq<Write>, id: string)
    requires id in a && id in b && a[id].requestCount == b[id].requestCount
    ensures Settled(a, pending, id) == Settled(b, pending, id)
  {
    if pending != [] {
      SettledByTable(a, b, pending[..|pending| - 1], id);
    }
  }

  lemma {:induction false} SettledAfterLand(table: T.TenantTable, pending: seq<Write>, id: string)
    requires pending != [] && id in table
    ensures id in Apply(table, pending[0])
    ensures Settled(Apply(table, pending[0]), pending[1..], id) == Settled(table, pending, id)
    decreases |pending|
  {
    var last := |pending| - 1;
    if last > 0 {
      assert pending[1..][..last - 1] == pending[..last][1..];
      assert pending[1..][last - 1] == pending[last];
      SettledAfterLand(table, pending[..last], id);
    } else {
      assert pending[..0] == [] && Settled(table, [], id) == table[id].requestCount;
    }
  }

  lemma SettledAfterPush(table: T.TenantTable, pending: seq<Write>, w: Write, id: string)
    requires id in table
    ensures Settled(table, pending + [w], id) == if Target(w) == id then WrittenCount(w) else Settled(table, pending, id)
  {
    assert (pending + [w])[..|pending|] == pending;
  }

  lemma {:induction false} SettledUntouched(table: T.TenantTable, pending: seq<Write>, id: string)
    requires id in table && forall w :: w in pending ==> Target(w) != id
    ensures Settled(table, pending, id) == table[id].requestCount
  {
    if pending != [] {
      SettledUntouched(table, pending[..|pending| - 1], id);
    }
  }

  lemma LandWillAgree(s: State)
    requires WillAgree(s) && s.pending != []
    ensures WillAgree(Next(s, Land(0)))
  {
    hide Settled;
    assert MapSums.Without(s.pending, 0) == s.pending[1..];
    forall id | id in s.cache {
      SettledAfterLand(s.table, s.pending, id);
    }
  }

  /** A critical section changes the count of one tenant and issues a write that carries it. */
  lemma IssueWillAgree(s: State, cache: T.TenantCache, w: Write)
    requires WillAgree(s) && Target(w) in s.cache && cache.Keys == s.cache.Keys
    requires cache[Target(w)].requestCount == WrittenCount(w)
    requires forall id :: id in cache && id != Target(w) ==> cache[id] == s.cache[id]
    ensures WillAgree(State(cache, s.table, s.pending + [w]))
  {
    hide Settled;
    forall id | id in s.cache {
      SettledAfterPush(s.table, s.pending, w, id);
    }
  }

  lemma StepWillAgree(s: State, step: Step)
    requires WillAgree(s) && !step.Lose? && (step.Land? ==> step.i == 0)
    ensures WillAgree(Next(s, step))
  {
    hide Settled;
    var t := Next(s, step);
    match step {
      case Land(_) =>
        if s.pending != [] {
          LandWillAgree(s);
        }
      case Consume(id) =>
        if T.TryConsume(s.cache, id).1 {
          IssueWillAgree(s, t.cache, CountWrite(id, t.cache[id].requestCount));
        }
      case Update(id, _) =>
        if id in s.cache {
          IssueWillAgree(s, t.cache, SnapshotWrite(id, t.cache[id]));
        }
      case SuspendRow(_, _) =>
        forall id | id in t.cache {
          SettledByTable(s.table, t.table, s.pending, id);
        }
      case SuspendCached(_, _) =>
      case Create(info) =>
        forall id | id in s.cache {
          SettledByTable(s.table, t.table, s.pending, id);
        }
        if t != s {
          SettledUntouched(t.table, t.pending, info.id);
        }
    }
  }

  /** When the writes land in the order they were issued and none is lost, then once all have
      landed the table holds the counts in memory, count patches or not. */
  lemma {:induction false} InOrderAgrees(s: State, steps: seq<Step>, id: string)
    requires WillAgree(s) && InOrder(steps) && Run(s, steps).pending == [] && id in Run(s, steps).cache
    ensures id in Run(s, steps).table && Run(s, steps).table[id].requestCount == Run(s, steps).cache[id].requestCount
    decreases |steps|
  {
    if steps != [] {
      StepWillAgree(s, steps[0]);
      assert forall i :: 0 <= i < |steps[1..]| ==> steps[1..][i] == steps[i + 1];
      hide Next, WillAgree;
      InOrderAgrees(Next(s, steps[0]), steps[1..], id);
    }
  }

  // ---- Suspension is not touched by counts and patches ---------------------------------------------

  /** The suspension that the last of the run's writes to the tenant's row left there. */
  function RowSuspension(steps: seq<Step>, id: string, at: Option<I64>): Option<I64>
    decreases |steps|
  {
    if steps == [] then at
    else
      RowSuspension(steps[1..], id,
                    if steps[0].SuspendRow? && steps[0].id == id then BindTime(steps[0].at) else at)
  }

  function CachedSuspension(steps: seq<Step>, id: string, at: Option<U64>): Option<U64>
    decreases |steps|
  {
    if steps == [] then at
    else
      CachedSuspension(steps[1..], id, if steps[0].SuspendCached? && steps[0].id == id then steps[0].at else at)
  }

  lemma StepKeepsSuspension(s: State, step: Step, id: string)
    ensures id in s.table ==>
              && id in Next(s, step).table
              && Next(s, step).table[id].suspendedAt ==
                 if step.SuspendRow? && step.id == id then BindTime(step.at) else s.table[id].suspendedAt
    ensures id in s.cache ==>
              && id in Next(s, step).cache
              && Next(s, step).cache[id].suspendedAt ==
                 if step.SuspendCached? && step.id == id then step.at else s.cache[id].suspendedAt
  {
    hide BindTenant, BindTime;
  }

  /** Whatever patches, consumptions and late writes come in between, a tenant is suspended in its row and
      in memory as the last suspension or reactivation of it said there: a snapshot taken before a
      suspension and written after it does not undo it. */
  lemma {:induction false} SuspensionIsKept(s: State, steps: seq<Step>, id: string)
    ensures id in s.table ==>
              && id in Run(s, steps).table
              && Run(s, steps).table[id].suspendedAt == RowSuspension(steps, id, s.table[id].suspendedAt)
    ensures id in s.cache ==>
              && id in Run(s, steps).cache
              && Run(s, steps).cache[id].suspendedAt == CachedSuspension(steps, id, s.cache[id].suspendedAt)
    decreases |steps|
  {
    hide Next, BindTime;
    if steps != [] {
      StepKeepsSuspension(s, steps[0], id);
      SuspensionIsKept(Next(s, steps[0]), steps[1..], id);
    }
  }

  /** `update_tenant` as one store operation is its critical section and its write together. */
  lemma UpdateIsAtomicUpdate(s: State, id: string, p: T.Patch)
    requires s.pending == []
    ensures var (u, _) := T.UpdateTenant(T.TenantState(s.table, s.cache), id, p);
            Run(s, [Update(id, p), Land(0)]) == State(u.cache, u.table, [])
  {
    assert [Update(id, p), Land(0)] == [Update(id, p)] + ([Land(0)] + []);
    RunCons(s, Update(id, p), [Land(0)] + []);
    RunCons(Next(s, Update(id, p)), Land(0), []);
  }
}
