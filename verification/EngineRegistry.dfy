/** The cache of spelling engines (`src/engine.rs`, `EngineRegistry`) as a lock protocol. Any
    number of tasks run `get_or_load` and `load`; each of their accesses to the shared map or the
    load lock is one step. Downloading and parsing may fail. An engine is known by its number:
    two `Arc`s are the same engine exactly when the numbers are equal. */
module EngineRegistry {
  import opened Prelude

  type Engine = nat
  type TaskId = nat
  type Engines = map<string, Engine>

  datatype Call = GetOrLoad(language: string, url: Option<string>) | Load(language: string, url: Option<string>)

  /** Only a call without a source URL may be answered from the cache. */
  predicate UsesCache(c: Call) { c.GetOrLoad? && c.url.None? }

  /** Where a task stands. From `Holding` to `Inserted` it holds the load lock. */
  datatype Task =
    | Started(call: Call)
    | Waiting(call: Call)
    | Holding(call: Call)
    | Loading(call: Call)
    | Loaded(call: Call, engine: Engine)
    | Inserted(call: Call, engine: Engine)
    | Finished(call: Call, result: Option<Engine>)

  predicate Holds(t: Task) { t.Holding? || t.Loading? || t.Loaded? || t.Inserted? }

  datatype LoadEvent = LoadEvent(language: string, engine: Engine)

  /** `loads` records every successful load; `unused` numbers the next engine. */
  datatype State = State(
    engines: Engines, lock: Option<TaskId>, tasks: map<TaskId, Task>, unused: Engine, loads: seq<LoadEvent>)

  datatype Step =
    | Begin(t: TaskId, call: Call)
    | Check(t: TaskId)
    | Acquire(t: TaskId)
    | Recheck(t: TaskId)
    | FailLoad(t: TaskId)
    | FinishLoad(t: TaskId)
    | Insert(t: TaskId)
    | Return(t: TaskId)
    | Cancel(t: TaskId)
    | Replace(language: string)

  function Initial(defaultLanguage: string): State { State(map[defaultLanguage := 0], None, map[], 1, []) }

  /** A task is cancelled only where it awaits: for the lock, or for the dictionary. */
  predicate Enabled(s: State, step: Step) {
    match step
    case Begin(t, _) => t !in s.tasks
    case Check(t) => t in s.tasks && s.tasks[t].Started?
    case Acquire(t) => t in s.tasks && s.tasks[t].Waiting? && s.lock.None?
    case Recheck(t) => t in s.tasks && s.tasks[t].Holding?
    case FailLoad(t) => t in s.tasks && s.tasks[t].Loading?
    case FinishLoad(t) => t in s.tasks && s.tasks[t].Loading?
    case Insert(t) => t in s.tasks && s.tasks[t].Loaded?
    case Return(t) => t in s.tasks && s.tasks[t].Inserted?
    case Cancel(t) => t in s.tasks && (s.tasks[t].Waiting? || s.tasks[t].Loading?)
    case Replace(_) => true
  }

  function Next(s: State, step: Step): State
    requires Enabled(s, step)
  {
    match step
    case Begin(t, call) => s.(tasks := s.tasks[t := Started(call)])
    case Check(t) =>
      var c := s.tasks[t].call;
      var hit := UsesCache(c) && c.language in s.engines;
      s.(tasks := s.tasks[t := if hit then Finished(c, Some(s.engines[c.language])) else Waiting(c)])
    case Acquire(t) => s.(lock := Some(t), tasks := s.tasks[t := Holding(s.tasks[t].call)])
    case Recheck(t) =>
      var c := s.tasks[t].call;
      if UsesCache(c) && c.language in s.engines then
        s.(lock := None, tasks := s.tasks[t := Finished(c, Some(s.engines[c.language]))])
      else s.(tasks := s.tasks[t := Loading(c)])
    case FailLoad(t) => s.(lock := None, tasks := s.tasks[t := Finished(s.tasks[t].call, None)])
    case FinishLoad(t) =>
      var c := s.tasks[t].call;
      s.(tasks := s.tasks[t := Loaded(c, s.unused)], unused := s.unused + 1,
         loads := s.loads + [LoadEvent(c.language, s.unused)])
    case Insert(t) =>
      var (c, e) := (s.tasks[t].call, s.tasks[t].engine);
      s.(engines := s.engines[c.language := e], tasks := s.tasks[t := Inserted(c, e)])
    case Return(t) => s.(lock := None, tasks := s.tasks[t := Finished(s.tasks[t].call, Some(s.tasks[t].engine))])
    case Cancel(t) => s.(lock := if s.tasks[t].Loading? then None else s.lock, tasks := s.tasks - {t})
    case Replace(language) => s.(engines := s.engines[language := s.unused], unused := s.unused + 1)
  }

  ghost predicate Leads(s: State, steps: seq<Step>, t: State)
    decreases |steps|
  {
    if steps == [] then s == t else Enabled(s, steps[0]) && Leads(Next(s, steps[0]), steps[1..], t)
  }

  // ---- In every run -------------------------------------------------------------------

  /** The lock is held by the one task that stands between acquiring and releasing it. */
  ghost predicate Exclusive(s: State) {
    forall t :: t in s.tasks && Holds(s.tasks[t]) <==> s.lock == Some(t)
  }

  lemma StepExclusive(s: State, step: Step)
    requires Exclusive(s) && Enabled(s, step)
    ensures Exclusive(Next(s, step))
    ensures s.engines.Keys <= Next(s, step).engines.Keys
    ensures !step.Insert? && !step.Replace? ==> Next(s, step).engines == s.engines
  {
  }

  /** Whatever is loaded, replaced, cancelled or fails: at most one task holds the lock, and a
      language once cached stays cached, the default one from the start. */
  lemma {:induction false} RunsAreExclusive(s: State, steps: seq<Step>, t: State)
    requires Exclusive(s) && Leads(s, steps, t)
    ensures Exclusive(t) && s.engines.Keys <= t.engines.Keys
    decreases |steps|
  {
    hide Exclusive, Next;
    if steps != [] {
      StepExclusive(s, steps[0]);
      RunsAreExclusive(Next(s, steps[0]), steps[1..], t);
    }
  }

  lemma DefaultAlwaysPresent(language: string, steps: seq<Step>, t: State)
    requires Leads(Initial(language), steps, t)
    ensures language in t.engines
    ensures forall a, b :: a in t.tasks && b in t.tasks && Holds(t.tasks[a]) && Holds(t.tasks[b]) ==> a == b
  {
    RunsAreExclusive(Initial(language), steps, t);
  }

  function TaskOf(step: Step): Option<TaskId> {
    match step
    case Begin(t, _) => Some(t)
    case Check(t) => Some(t)
    case Acquire(t) => Some(t)
    case Recheck(t) => Some(t)
    case FailLoad(t) => Some(t)
    case FinishLoad(t) => Some(t)
    case Insert(t) => Some(t)
    case Return(t) => Some(t)
    case Cancel(t) => Some(t)
    case Replace(_) => None
  }

  /** No deadlock: while a task is unfinished, some task can move without being cancelled. */
  lemma SomeoneCanMove(s: State, t: TaskId)
    requires Exclusive(s) && t in s.tasks && !s.tasks[t].Finished?
    ensures exists step: Step :: Enabled(s, step) && !step.Begin? && !step.Cancel? && !step.Replace?
  {
    var u := if s.tasks[t].Waiting? && s.lock.Some? then s.lock.value else t;
    match s.tasks[u] {
      case Started(_) => assert Enabled(s, Check(u));
      case Waiting(_) => assert Enabled(s, Acquire(u));
      case Holding(_) => assert Enabled(s, Recheck(u));
      case Loading(_) => assert Enabled(s, FailLoad(u));
      case Loaded(_, _) => assert Enabled(s, Insert(u));
      case Inserted(_, _) => assert Enabled(s, Return(u));
      case Finished(_, _) => assert false;
    }
  }

  /** How many moves a task has left at most. */
  function Left(t: Task): nat {
    match t
    case Started(_) => 6
    case Waiting(_) => 5
    case Holding(_) => 4
    case Loading(_) => 3
    case Loaded(_, _) => 2
    case Inserted(_, _) => 1
    case Finished(_, _) => 0
  }

  /** No livelock: every move brings its own task nearer to the end and leaves the others. */
  lemma MovesFinish(s: State, step: Step, t: TaskId)
    requires Enabled(s, step) && !step.Begin? && !step.Cancel? && t in s.tasks
    ensures t in Next(s, step).tasks
    ensures TaskOf(step) == Some(t) ==> Left(Next(s, step).tasks[t]) < Left(s.tasks[t])
    ensures TaskOf(step) != Some(t) ==> Next(s, step).tasks[t] == s.tasks[t]
  {
  }

  // ---- Double-checked loading ------------------------------------------------------------

  /** A step of a run in which every call is `get_or_load(language, None)`. */
  predicate Plain(step: Step) { (step.Begin? ==> UsesCache(step.call)) && !step.Replace? }

  /** Each successful load is in the map or in the hands of its loader; finished calls
      returned what the map holds; a task that loads found nothing under the lock. */
  ghost predicate Agrees(s: State, t: Task) {
    && UsesCache(t.call)
    && (t.Loading? ==> t.call.language !in s.engines)
    && (t.Loading? ==> forall i :: 0 <= i < |s.loads| ==> s.loads[i].language != t.call.language)
    && (t.Loaded? ==> t.call.language !in s.engines && |s.loads| > 0)
    && (t.Loaded? ==> s.loads[|s.loads| - 1] == LoadEvent(t.call.language, t.engine))
    && (t.Inserted? ==> t.call.language in s.engines && s.engines[t.call.language] == t.engine)
    && (t.Finished? && t.result.Some? ==> t.call.language in s.engines && s.engines[t.call.language] == t.result.value)
  }

  predicate InMap(s: State, l: LoadEvent) { l.language in s.engines && s.engines[l.language] == l.engine }

  predicate HolderHasLoaded(s: State) { s.lock.Some? && s.lock.value in s.tasks && s.tasks[s.lock.value].Loaded? }

  ghost predicate LoadsAgree(start: Engines, s: State) {
    && (forall i, j :: 0 <= i < j < |s.loads| ==> s.loads[i].language != s.loads[j].language)
    && (forall i :: 0 <= i < |s.loads| ==> s.loads[i].language !in start)
    && (forall i :: 0 <= i < |s.loads| - 1 ==> InMap(s, s.loads[i]))
    && (|s.loads| > 0 && !InMap(s, s.loads[|s.loads| - 1]) ==> HolderHasLoaded(s))
  }

  ghost predicate PlainInv(start: Engines, s: State) {
    && Exclusive(s) && LoadsAgree(start, s)
    && start.Keys <= s.engines.Keys && (forall k :: k in start ==> s.engines[k] == start[k])
    && (forall t :: t in s.tasks ==> Agrees(s, s.tasks[t]))
  }

  lemma InsertKeepsLoads(start: Engines, s: State, t: TaskId)
    requires PlainInv(start, s) && t in s.tasks && s.tasks[t].Loaded?
    ensures LoadsAgree(start, Next(s, Insert(t)))
  {
    assert Agrees(s, s.tasks[t]);
    hide Agrees;
  }

  lemma StepKeepsLoads(start: Engines, s: State, step: Step)
    requires PlainInv(start, s) && Enabled(s, step) && Plain(step)
    ensures LoadsAgree(start, Next(s, step))
  {
    var s' := Next(s, step);
    match step {
      case FinishLoad(t) =>
        assert Agrees(s, s.tasks[t]);
      case Insert(t) =>
        InsertKeepsLoads(start, s, t);
      case Replace(_) =>
        assert false;
      case _ =>
        assert s'.loads == s.loads && s'.engines == s.engines;
        assert HolderHasLoaded(s) ==> HolderHasLoaded(s');
    }
  }

  /** While a task holds the lock before loading, every load so far has reached the map. */
  lemma UncachedIsNew(start: Engines, s: State, t: TaskId)
    requires PlainInv(start, s) && t in s.tasks && s.tasks[t].Holding?
    ensures forall i :: 0 <= i < |s.loads| ==> InMap(s, s.loads[i])
  {
    hide Agrees;
    assert s.lock == Some(t);
  }

  lemma StepKeepsTasks(start: Engines, s: State, step: Step)
    requires PlainInv(start, s) && Enabled(s, step) && Plain(step)
    ensures forall t :: t in Next(s, step).tasks ==> Agrees(Next(s, step), Next(s, step).tasks[t])
  {
    hide LoadsAgree;
    var s' := Next(s, step);
    forall t | t in s'.tasks
      ensures Agrees(s', s'.tasks[t])
    {
      if t in s.tasks {
        assert Agrees(s, s.tasks[t]);
      }
      if s.lock.Some? && s.lock.value in s.tasks {
        assert Agrees(s, s.tasks[s.lock.value]);
      }
      if step == Recheck(t) {
        UncachedIsNew(start, s, t);
      }
    }
  }

  /** A language about to be inserted is new to the map. */
  lemma InsertIsNew(start: Engines, s: State, step: Step)
    requires PlainInv(start, s) && Enabled(s, step) && step.Insert?
    ensures s.tasks[step.t].call.language !in s.engines
  {
    hide LoadsAgree;
    assert Agrees(s, s.tasks[step.t]);
  }

  lemma StepKeepsPlain(start: Engines, s: State, step: Step)
    requires PlainInv(start, s) && Enabled(s, step) && Plain(step)
    ensures PlainInv(start, Next(s, step))
  {
    hide Agrees, LoadsAgree;
    StepExclusive(s, step);
    StepKeepsLoads(start, s, step);
    StepKeepsTasks(start, s, step);
    if step.Insert? {
      InsertIsNew(start, s, step);
    }
  }

  lemma {:induction false} PlainRuns(start: Engines, s: State, steps: seq<Step>, t: State)
    requires PlainInv(start, s) && Leads(s, steps, t) && forall i :: 0 <= i < |steps| ==> Plain(steps[i])
    ensures PlainInv(start, t)
    decreases |steps|
  {
    hide PlainInv, Next, Plain;
    if steps != [] {
      StepKeepsPlain(start, s, steps[0]);
      PlainRuns(start, Next(s, steps[0]), steps[1..], t);
    }
  }

  /** However the calls interleave, fail or are cancelled: no language is successfully loaded twice,
      one cached at the start never is, and all calls that succeeded for a language have the one
      engine the map holds. */
  lemma LoadedAtMostOnce(defaultLanguage: string, steps: seq<Step>, t: State)
    requires Leads(Initial(defaultLanguage), steps, t) && forall i :: 0 <= i < |steps| ==> Plain(steps[i])
    ensures forall i, j :: 0 <= i < j < |t.loads| ==> t.loads[i].language != t.loads[j].language
    ensures forall i :: 0 <= i < |t.loads| ==> t.loads[i].language != defaultLanguage
    ensures forall a :: a in t.tasks && t.tasks[a].Finished? && t.tasks[a].result.Some? ==>
              t.tasks[a].call.language in t.engines && t.engines[t.tasks[a].call.language] == t.tasks[a].result.value
  {
    PlainRuns(Initial(defaultLanguage).engines, Initial(defaultLanguage), steps, t);
  }

  // ---- Forced loading ------------------------------------------------------------------------

  /** What a task that may not use the cache has in hand was loaded for its language, under a number not
      below `low`. */
  ghost predicate LoadedAnew(s: State, t: TaskId, low: Engine) {
    && low <= s.unused
    && (t in s.tasks && (s.tasks[t].call.Load? || s.tasks[t].call.url.Some?) ==>
          match s.tasks[t]
          case Loaded(c, e) => low <= e && LoadEvent(c.language, e) in s.loads
          case Inserted(c, e) => low <= e && LoadEvent(c.language, e) in s.loads
          case Finished(c, Some(e)) => low <= e && LoadEvent(c.language, e) in s.loads
          case _ => true)
  }

  lemma StepKeepsAnew(s: State, step: Step, t: TaskId, low: Engine)
    requires Enabled(s, step) && LoadedAnew(s, t, low)
    ensures LoadedAnew(Next(s, step), t, low)
  {
  }

  lemma {:induction false} RunsKeepAnew(s: State, steps: seq<Step>, end: State, t: TaskId, low: Engine)
    requires LoadedAnew(s, t, low) && Leads(s, steps, end)
    ensures LoadedAnew(end, t, low)
    decreases |steps|
  {
    hide LoadedAnew, Next, Enabled;
    if steps != [] {
      StepKeepsAnew(s, steps[0], t, low);
      RunsKeepAnew(Next(s, steps[0]), steps[1..], end, t, low);
    }
  }

  /** A call of `load`, or one with a source URL, never answers with an engine that was there when it
      began: what it returns was loaded for its language since. */
  lemma ForcedCallsLoadAnew(s: State, t: TaskId, call: Call, steps: seq<Step>, end: State, e: Engine)
    requires Enabled(s, Begin(t, call)) && Leads(Next(s, Begin(t, call)), steps, end)
    requires call.Load? || call.url.Some?
    requires t in end.tasks && end.tasks[t] == Finished(call, Some(e))
    ensures LoadEvent(call.language, e) in end.loads && e >= s.unused
  {
    assert LoadedAnew(Next(s, Begin(t, call)), t, s.unused);
    hide Leads, Next;
    RunsKeepAnew(Next(s, Begin(t, call)), steps, end, t, s.unused);
  }

  // ---- Engines are told apart ---------------------------------------------------------------------

  /** Every engine there is has a number of its own below `unused`. */
  ghost predicate Numbered(s: State) {
    && (forall l :: l in s.engines ==> s.engines[l] < s.unused)
    && (forall i :: 0 <= i < |s.loads| ==> s.loads[i].engine < s.unused)
    && (forall i, j :: 0 <= i < j < |s.loads| ==> s.loads[i].engine < s.loads[j].engine)
    && (forall t :: t in s.tasks && s.tasks[t].Loaded? ==> s.tasks[t].engine < s.unused)
  }

  lemma {:induction false} RunsKeepNumbered(s: State, steps: seq<Step>, end: State)
    requires Numbered(s) && Leads(s, steps, end)
    ensures Numbered(end)
    decreases |steps|
  {
    hide Numbered, Next, Enabled;
    if steps != [] {
      StepKeepsNumbered(s, steps[0]);
      RunsKeepNumbered(Next(s, steps[0]), steps[1..], end);
    }
  }

  lemma StepKeepsNumbered(s: State, step: Step)
    requires Numbered(s) && Enabled(s, step)
    ensures Numbered(Next(s, step))
  {
  }

  /** In every run no two loads give the same engine, and a replacement puts an engine in place that was
      neither in the map nor loaded before, for that language alone. */
  lemma EnginesAreNew(defaultLanguage: string, steps: seq<Step>, s: State, language: string)
    requires Leads(Initial(defaultLanguage), steps, s)
    ensures forall i, j :: 0 <= i < j < |s.loads| ==> s.loads[i].engine != s.loads[j].engine
    ensures var t := Next(s, Replace(language));
            && language in t.engines && t.engines - {language} == s.engines - {language}
            && (forall l :: l in s.engines ==> s.engines[l] != t.engines[language])
            && (forall i :: 0 <= i < |s.loads| ==> s.loads[i].engine != t.engines[language])
  {
    hide Leads;
    assert Numbered(Initial(defaultLanguage));
    RunsKeepNumbered(Initial(defaultLanguage), steps, s);
  }

  // ---- One call alone ----------------------------------------------------------------------

  /** The map and the answer of one call that finds `engines` once it has the lock; `loaded` is
      what downloading and parsing would give. */
  function Solo(engines: Engines, call: Call, loaded: Option<Engine>): (Engines, Option<Engine>) {
    if UsesCache(call) && call.language in engines then (engines, Some(engines[call.language]))
    else
      match loaded
      case None => (engines, None)
      case Some(e) => (engines[call.language := e], Some(e))
  }

  class EngineRegistry {
    const defaultLanguage: string
    var engines: Engines

    ghost predicate Valid()
      reads this
    {
      defaultLanguage in engines
    }

    constructor (defaultLanguage: string, engine: Engine)
      ensures Valid() && this.defaultLanguage == defaultLanguage && engines == map[defaultLanguage := engine]
    {
      this.defaultLanguage := defaultLanguage;
      engines := map[defaultLanguage := engine];
    }

    method DefaultEngine() returns (engine: Engine)
      requires Valid()
      ensures engine == engines[defaultLanguage]
    {
      engine := engines[defaultLanguage];
    }

    /** `meanwhile` is what other tasks insert while this one waits for the load lock. */
    method GetOrLoad(language: string, url: Option<string>, meanwhile: Engines, loaded: Option<Engine>)
      returns (r: Option<Engine>)
      requires Valid()
      modifies this
      ensures Valid()
      ensures var call := Call.GetOrLoad(language, url);
              (engines, r) == if UsesCache(call) && language in old(engines) then (old(engines), Some(old(engines)[language]))
                              else Solo(old(engines) + meanwhile, call, loaded)
      ensures url.None? && language in old(engines) ==> r == Some(old(engines)[language]) && engines == old(engines)
      ensures url.None? && language !in old(engines) && language in meanwhile ==>
                r == Some(meanwhile[language]) && engines == old(engines) + meanwhile
      ensures url.Some? || (language !in old(engines) && language !in meanwhile) ==>
                r == loaded && engines == if loaded.Some? then (old(engines) + meanwhile)[language := loaded.value]
                                          else old(engines) + meanwhile
    {
      if url.None? {
        if language in engines {
          return Some(engines[language]);
        }
      }
      engines := engines + meanwhile;
      if url.None? {
        if language in engines {
          return Some(engines[language]);
        }
      }
      if loaded.None? {
        return None;
      }
      engines := engines[language := loaded.value];
      return loaded;
    }

    method Load(language: string, url: Option<string>, meanwhile: Engines, loaded: Option<Engine>)
      returns (r: Option<Engine>)
      requires Valid()
      modifies this
      ensures Valid() && (engines, r) == Solo(old(engines) + meanwhile, Call.Load(language, url), loaded)
      ensures r == loaded && engines == if loaded.Some? then (old(engines) + meanwhile)[language := loaded.value]
                                        else old(engines) + meanwhile
    {
      engines := engines + meanwhile;
      if loaded.None? {
        return None;
      }
      engines := engines[language := loaded.value];
      return loaded;
    }

    method Replace(language: string, engine: Engine)
      requires Valid()
      modifies this
      ensures Valid() && engines == old(engines)[language := engine]
    {
      engines := engines[language := engine];
    }
  }

  /** The protocol of one task, from an idle registry. */
  function SoloSteps(engines: Engines, call: Call, t: TaskId, succeeds: bool): seq<Step> {
    if UsesCache(call) && call.language in engines then [Check(t)] + []
    else [Check(t)] + ([Acquire(t)] + ([Recheck(t)] + LoadSteps(t, succeeds)))
  }

  function LoadSteps(t: TaskId, succeeds: bool): seq<Step> {
    if succeeds then [FinishLoad(t)] + ([Insert(t)] + ([Return(t)] + [])) else [FailLoad(t)] + []
  }

  ghost predicate EndsWith(s: State, steps: seq<Step>, t: TaskId, call: Call, engines: Engines, r: Option<Engine>) {
    exists end :: Leads(s, steps, end) && end.engines == engines && end.lock.None?
                  && t in end.tasks && end.tasks[t] == Finished(call, r)
  }

  lemma EndsCons(s: State, step: Step, steps: seq<Step>, t: TaskId, call: Call, engines: Engines, r: Option<Engine>)
    requires Enabled(s, step) && EndsWith(Next(s, step), steps, t, call, engines, r)
    ensures EndsWith(s, [step] + steps, t, call, engines, r)
  {
    hide Next, Enabled;
    var end :| Leads(Next(s, step), steps, end) && end.engines == engines && end.lock.None?
               && t in end.tasks && end.tasks[t] == Finished(call, r);
    assert ([step] + steps)[1..] == steps;
    assert Leads(s, [step] + steps, end);
  }

  lemma LoadIsRun(s: State, call: Call, t: TaskId, succeeds: bool)
    requires t in s.tasks && s.tasks[t] == Loading(call)
    ensures EndsWith(s, LoadSteps(t, succeeds), t, call,
                     if succeeds then s.engines[call.language := s.unused] else s.engines,
                     if succeeds then Some(s.unused) else None)
  {
    var (engines, r) := if succeeds then (s.engines[call.language := s.unused], Some(s.unused)) else (s.engines, None);
    if succeeds {
      var s1 := Next(s, FinishLoad(t));
      var s2 := Next(s1, Insert(t));
      var s3 := Next(s2, Return(t));
      assert Leads(s3, [], s3);
      EndsCons(s2, Return(t), [], t, call, engines, r);
      EndsCons(s1, Insert(t), [Return(t)] + [], t, call, engines, r);
      EndsCons(s, FinishLoad(t), [Insert(t)] + ([Return(t)] + []), t, call, engines, r);
    } else {
      var s1 := Next(s, FailLoad(t));
      assert Leads(s1, [], s1);
      EndsCons(s, FailLoad(t), [], t, call, engines, r);
    }
  }

  /** The protocol, run by one task alone, is that sequential call. */
  lemma SoloIsRun(s: State, call: Call, t: TaskId, succeeds: bool)
    requires s.lock.None? && t in s.tasks && s.tasks[t] == Started(call)
    ensures var (engines, r) := Solo(s.engines, call, if succeeds then Some(s.unused) else None);
            EndsWith(s, SoloSteps(s.engines, call, t, succeeds), t, call, engines, r)
  {
    var (engines, r) := Solo(s.engines, call, if succeeds then Some(s.unused) else None);
    var s1 := Next(s, Check(t));
    if UsesCache(call) && call.language in s.engines {
      assert Leads(s1, [], s1);
      EndsCons(s, Check(t), [], t, call, engines, r);
    } else {
      hide EndsWith;
      var s2 := Next(s1, Acquire(t));
      var s3 := Next(s2, Recheck(t));
      LoadIsRun(s3, call, t, succeeds);
      EndsCons(s2, Recheck(t), LoadSteps(t, succeeds), t, call, engines, r);
      EndsCons(s1, Acquire(t), [Recheck(t)] + LoadSteps(t, succeeds), t, call, engines, r);
      EndsCons(s, Check(t), [Acquire(t)] + ([Recheck(t)] + LoadSteps(t, succeeds)), t, call, engines, r);
    }
  }
}
