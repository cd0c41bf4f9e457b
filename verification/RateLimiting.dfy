/** The limiter on failed authentications (`src/auth.rs`, `RateLimiter`). Instants and durations
    are naturals; the clock is read under the lock, so a failure comes with its time. */
module RateLimiting {
  import opened Prelude
  import opened Cidr

  datatype Config = Config(maxFailures: nat, window: nat, cooldown: nat)

  datatype FailureWindow = FailureWindow(failures: seq<nat>, cooldownUntil: Option<nat>)

  type Windows = map<IpAddr, FailureWindow>

  /** `Instant::duration_since`, which saturates at zero. */
  function DurationSince(now: nat, t: nat): nat { if now >= t then now - t else 0 }

  /** `failures.retain(|t| now.duration_since(*t) < window)`. */
  function Retain(failures: seq<nat>, window: nat, now: nat): seq<nat> {
    if failures == [] then []
    else
      var last := failures[|failures| - 1];
      Retain(failures[..|failures| - 1], window, now) + if DurationSince(now, last) < window then [last] else []
  }

  function Fail(c: Config, w: FailureWindow, now: nat): FailureWindow {
    var failures := Retain(w.failures, c.window, now) + [now];
    if |failures| >= c.maxFailures then FailureWindow([], Some(now + c.cooldown)) else w.(failures := failures)
  }

  const FRESH := FailureWindow([], None)

  function WindowOf(windows: Windows, ip: IpAddr): FailureWindow { if ip in windows then windows[ip] else FRESH }

  /** What is left of the cooldown, if there is one. */
  function Remaining(w: FailureWindow, now: nat): Option<nat> {
    match w.cooldownUntil
    case Some(until) => if now < until then Some(until - now) else None
    case None => None
  }

  class RateLimiter {
    const config: Config
    var windows: Windows

    constructor (config: Config)
      ensures windows == map[] && this.config == config
    {
      this.config := config;
      windows := map[];
    }

    /** `Some(remaining)` is the source's `Err(remaining)`. */
    method Check(ip: IpAddr, now: nat) returns (r: Option<nat>)
      ensures r == Remaining(WindowOf(windows, ip), now)
      ensures r.Some? <==> ip in windows && windows[ip].cooldownUntil.Some? && now < windows[ip].cooldownUntil.value
      ensures r.Some? ==> now + r.value == windows[ip].cooldownUntil.value
    {
      if ip in windows {
        var w := windows[ip];
        if w.cooldownUntil.Some? {
          var until := w.cooldownUntil.value;
          if now < until {
            return Some(until - now);
          }
        }
      }
      return None;
    }

    method RecordFailure(ip: IpAddr, now: nat)
      modifies this
      ensures windows == old(windows)[ip := Fail(config, WindowOf(old(windows), ip), now)]
      ensures windows - {ip} == old(windows) - {ip} && ip in windows
      ensures windows[ip].failures == [] ==> windows[ip].cooldownUntil == Some(now + config.cooldown)
      ensures windows[ip].failures != [] ==>
                && windows[ip].cooldownUntil == (if ip in old(windows) then old(windows)[ip].cooldownUntil else None)
                && forall t: nat :: t <= now ==>
                     (t in windows[ip].failures <==>
                      t == now || (ip in old(windows) && t in old(windows)[ip].failures && now - t < config.window))
    {
      forall t: nat | t <= now && ip in windows
        ensures t in Retain(windows[ip].failures, config.window, now) <==>
                t in windows[ip].failures && now - t < config.window
      {
        RetainMembers(windows[ip].failures, config.window, now, t);
      }
      var entry := if ip in windows then windows[ip] else FRESH;
      entry := entry.(failures := Retain(entry.failures, config.window, now));
      entry := entry.(failures := entry.failures + [now]);
      if |entry.failures| >= config.maxFailures {
        entry := entry.(cooldownUntil := Some(now + config.cooldown));
        entry := entry.(failures := []);
      }
      windows := windows[ip := entry];
    }
  }

  // ---- The limiter that forgets nothing ------------------------------------------------------

  /** Failures less than the window before `now`. */
  function Recent(times: seq<nat>, window: nat, now: nat): nat {
    if times == [] then 0
    else Recent(times[..|times| - 1], window, now) + if now - times[|times| - 1] < window then 1 else 0
  }

  /** How many of the failures in `history` came up to and including the last cooldown start. */
  function Spent(c: Config, history: seq<nat>): (n: nat)
    ensures n <= |history|
    decreases |history|, 1
  {
    if history == [] then 0 else if Triggers(c, history) then |history| else Spent(c, history[..|history| - 1])
  }

  /** The last failure starts a cooldown: counting it, the failures since the last start that lie
      within the window reach the maximum. */
  predicate Triggers(c: Config, history: seq<nat>)
    requires history != []
    decreases |history|, 0
  {
    var past := history[..|history| - 1];
    Recent(past[Spent(c, past)..], c.window, history[|history| - 1]) + 1 >= c.maxFailures
  }

  /** The end of the latest cooldown a history started. */
  function Cooldown(c: Config, history: seq<nat>): Option<nat> {
    if history == [] then None
    else if Triggers(c, history) then Some(history[|history| - 1] + c.cooldown)
    else Cooldown(c, history[..|history| - 1])
  }

  predicate Ascending(history: seq<nat>) { forall i, j :: 0 <= i <= j < |history| ==> history[i] <= history[j] }

  // ---- Refinement -------------------------------------------------------------------------------

  function Failures(c: Config, history: seq<nat>): FailureWindow {
    if history == [] then FRESH else Fail(c, Failures(c, history[..|history| - 1]), history[|history| - 1])
  }

  /** Retaining at an earlier time first makes no difference at a later one. */
  lemma {:induction false} RetainMembers(times: seq<nat>, window: nat, now: nat, t: nat)
    requires t <= now
    ensures t in Retain(times, window, now) <==> t in times && now - t < window
    decreases |times|
  {
    if times != [] {
      RetainMembers(times[..|times| - 1], window, now, t);
      assert times == times[..|times| - 1] + [times[|times| - 1]];
    }
  }

  lemma {:induction false} RetainTwice(times: seq<nat>, window: nat, then': nat, now: nat)
    requires then' <= now
    ensures Retain(Retain(times, window, then'), window, now) == Retain(times, window, now)
    decreases |times|
  {
    if times != [] {
      var (init, last) := (times[..|times| - 1], times[|times| - 1]);
      RetainTwice(init, window, then', now);
      var kept := Retain(init, window, then');
      if DurationSince(then', last) < window {
        assert (kept + [last])[..|kept + [last]| - 1] == kept;
      } else {
        assert kept + [] == kept;
      }
    }
  }

  lemma {:induction false} RetainCounts(times: seq<nat>, window: nat, now: nat)
    requires forall i :: 0 <= i < |times| ==> times[i] <= now
    ensures |Retain(times, window, now)| == Recent(times, window, now)
    decreases |times|
  {
    if times != [] {
      RetainCounts(times[..|times| - 1], window, now);
    }
  }

  /** The failures that count at `now`, by their places in the history. */
  function CountingPlaces(history: seq<nat>, start: nat, window: nat, now: nat): set<nat> {
    set i: nat | start <= i < |history| && now - history[i] < window
  }

  lemma PlacesSnoc(init: seq<nat>, last: nat, start: nat, window: nat, now: nat)
    requires start <= |init|
    ensures |CountingPlaces(init + [last], start, window, now)| ==
            |CountingPlaces(init, start, window, now)| + if now - last < window then 1 else 0
  {
    var (all, some) := (CountingPlaces(init + [last], start, window, now), CountingPlaces(init, start, window, now));
    assert all == if now - last < window then some + {|init|} else some;
  }

  lemma {:induction false} RecentIsSize(history: seq<nat>, start: nat, window: nat, now: nat)
    requires start <= |history|
    ensures Recent(history[start..], window, now) == |CountingPlaces(history, start, window, now)|
    decreases |history|
  {
    if start == |history| {
      assert CountingPlaces(history, start, window, now) == {};
    } else {
      var n := |history| - 1;
      var init := history[..n];
      RecentIsSize(init, start, window, now);
      assert history[start..][..n - start] == init[start..];
      PlacesSnoc(init, history[n], start, window, now);
      assert history == init + [history[n]];
      hide CountingPlaces;
    }
  }

  /** The last cooldown start of a history is the longest of its beginnings that started one. */
  lemma {:induction false} SpentIsLastStart(c: Config, history: seq<nat>)
    ensures var n := Spent(c, history);
            && (n > 0 ==> Triggers(c, history[..n]))
            && forall m :: n < m <= |history| ==> !Triggers(c, history[..m])
    decreases |history|
  {
    hide Triggers;
    if history != [] {
      var past := history[..|history| - 1];
      assert history[..|history|] == history;
      SpentIsLastStart(c, past);
      assert forall m :: 0 <= m <= |past| ==> past[..m] == history[..m];
    }
  }

  /** When a failure starts a cooldown, on the times alone: itself and the failures after the last start
      `start` that happened less than the window before it are at least the maximum. */
  lemma TriggersExactly(c: Config, history: seq<nat>, start: nat)
    requires history != [] && start < |history|
    requires start > 0 ==> Triggers(c, history[..start])
    requires forall m :: start < m < |history| ==> !Triggers(c, history[..m])
    ensures var last := |history| - 1;
            Triggers(c, history) <==>
            |set i: nat | start <= i < last && history[last] - history[i] < c.window| + 1 >= c.maxFailures
  {
    hide Recent;
    var last := |history| - 1;
    var past := history[..last];
    assert start == Spent(c, past) by {
      SpentIsLastStart(c, past);
      assert forall m :: 0 <= m <= last ==> past[..m] == history[..m];
    }
    RecentIsSize(past, start, c.window, history[last]);
    assert CountingPlaces(past, start, c.window, history[last])
           == set i: nat | start <= i < last && history[last] - history[i] < c.window;
  }

  lemma RetainPush(times: seq<nat>, t: nat, window: nat, now: nat)
    ensures Retain(times + [t], window, now) == Retain(times, window, now) + if DurationSince(now, t) < window then [t] else []
  {
    assert (times + [t])[..|times + [t]| - 1] == times;
  }

  /** The pruned list holds, at any later time, what the whole history would. */
  ghost predicate Refines(c: Config, w: FailureWindow, history: seq<nat>) {
    && w.cooldownUntil == Cooldown(c, history)
    && |w.failures| < (if c.maxFailures > 1 then c.maxFailures else 1)
    && forall now: nat :: (forall i :: 0 <= i < |history| ==> history[i] <= now) ==>
         Retain(w.failures, c.window, now) == Retain(history[Spent(c, history)..], c.window, now)
  }

  lemma OneMoreFailure(c: Config, history: seq<nat>, t: nat)
    ensures Triggers(c, history + [t]) <==> Recent(history[Spent(c, history)..], c.window, t) + 1 >= c.maxFailures
    ensures Spent(c, history + [t]) == if Triggers(c, history + [t]) then |history| + 1 else Spent(c, history)
    ensures Cooldown(c, history + [t]) == if Triggers(c, history + [t]) then Some(t + c.cooldown) else Cooldown(c, history)
  {
    hide Recent;
    var full := history + [t];
    assert full[..|full| - 1] == history && full[|full| - 1] == t;
  }

  lemma PushRefines(kept: seq<nat>, since: seq<nat>, window: nat, t: nat, now: nat)
    requires t <= now && Retain(kept, window, t) == Retain(since, window, t)
    ensures Retain(Retain(kept, window, t) + [t], window, now) == Retain(since + [t], window, now)
  {
    RetainTwice(since, window, t, now);
    RetainPush(Retain(since, window, t), t, window, now);
    RetainPush(since, t, window, now);
    hide Retain;
  }

  lemma FailRefines(c: Config, w: FailureWindow, history: seq<nat>, t: nat)
    requires Refines(c, w, history) && forall i :: 0 <= i < |history| ==> history[i] <= t
    ensures Refines(c, Fail(c, w, t), history + [t])
  {
    hide Retain, Recent, Triggers, Spent, Cooldown;
    var full := history + [t];
    var w' := Fail(c, w, t);
    var since := history[Spent(c, history)..];
    OneMoreFailure(c, history, t);
    RetainCounts(since, c.window, t);
    assert Retain(w.failures, c.window, t) == Retain(since, c.window, t);
    forall now: nat | forall i :: 0 <= i < |full| ==> full[i] <= now
      ensures Retain(w'.failures, c.window, now) == Retain(full[Spent(c, full)..], c.window, now)
    {
      assert full[|history|] == t && t <= now;
      if Triggers(c, full) {
        assert full[Spent(c, full)..] == w'.failures;
      } else {
        PushRefines(w.failures, since, c.window, t, now);
        assert full[Spent(c, full)..] == since + [t];
      }
    }
  }

  /** Under a clock that does not run backwards, the pruned list starts a cooldown exactly when the
      full history does, and stays shorter than the maximum. */
  lemma {:induction false} PrunedRefinesHistory(c: Config, history: seq<nat>)
    requires Ascending(history)
    ensures Refines(c, Failures(c, history), history)
    decreases |history|
  {
    if history != [] {
      var past := history[..|history| - 1];
      PrunedRefinesHistory(c, past);
      FailRefines(c, Failures(c, past), past, history[|history| - 1]);
      assert history == past + [history[|history| - 1]];
    }
  }

  /** One more failure never shortens a cooldown. */
  lemma {:induction false} CooldownBound(c: Config, history: seq<nat>)
    requires Ascending(history) && Cooldown(c, history).Some?
    ensures history != [] && Cooldown(c, history).value <= history[|history| - 1] + c.cooldown
    decreases |history|
  {
    if !Triggers(c, history) {
      CooldownBound(c, history[..|history| - 1]);
    }
  }

  lemma CooldownNeverDecreases(c: Config, history: seq<nat>, t: nat)
    requires Ascending(history + [t]) && Cooldown(c, history).Some?
    ensures Cooldown(c, history + [t]).Some? && Cooldown(c, history).value <= Cooldown(c, history + [t]).value
  {
    var full := history + [t];
    assert full[..|full| - 1] == history;
    assert Ascending(history) by {
      assert forall i :: 0 <= i < |history| ==> history[i] == full[i];
    }
    CooldownBound(c, history);
    assert full[|history| - 1] <= full[|history|];
  }

  /** Some failure of the history started a cooldown that has not ended. */
  ghost predicate Cooling(c: Config, history: seq<nat>, now: nat) {
    exists n :: 0 < n <= |history| && Triggers(c, history[..n]) && now < history[n - 1] + c.cooldown
  }

  lemma {:induction false} CooldownIsCooling(c: Config, history: seq<nat>, now: nat)
    requires Ascending(history)
    ensures Cooling(c, history, now) <==> Cooldown(c, history).Some? && now < Cooldown(c, history).value
    decreases |history|
  {
    hide Triggers;
    if history != [] {
      var last := |history| - 1;
      var past := history[..last];
      CooldownIsCooling(c, past, now);
      assert history[..last + 1] == history;
      assert forall n :: 0 < n <= last ==> past[..n] == history[..n];
      if Triggers(c, history) {
        assert forall i :: 0 <= i < |history| ==> history[i] <= history[last];
      } else {
        if Cooling(c, past, now) {
          var n :| 0 < n <= last && Triggers(c, past[..n]) && now < past[n - 1] + c.cooldown;
          assert Triggers(c, history[..n]);
        }
        if Cooling(c, history, now) {
          var n :| 0 < n <= |history| && Triggers(c, history[..n]) && now < history[n - 1] + c.cooldown;
          assert Triggers(c, past[..n]);
        }
      }
    }
  }

  // ---- Many addresses ------------------------------------------------------------------------------

  datatype Failure = Failure(ip: IpAddr, time: nat)

  /** The limiter's map after a run of failures. */
  function After(c: Config, run: seq<Failure>): Windows {
    if run == [] then map[]
    else
      var before := After(c, run[..|run| - 1]);
      var f := run[|run| - 1];
      before[f.ip := Fail(c, WindowOf(before, f.ip), f.time)]
  }

  /** The times of one address's failures. */
  function TimesOf(run: seq<Failure>, ip: IpAddr): seq<nat> {
    if run == [] then []
    else TimesOf(run[..|run| - 1], ip) + if run[|run| - 1].ip == ip then [run[|run| - 1].time] else []
  }

  predicate Monotone(run: seq<Failure>) { forall i, j :: 0 <= i <= j < |run| ==> run[i].time <= run[j].time }

  /** Each address is limited by its own failures alone. */
  lemma {:induction false} AddressesAreSeparate(c: Config, run: seq<Failure>, ip: IpAddr)
    ensures WindowOf(After(c, run), ip) == Failures(c, TimesOf(run, ip))
    decreases |run|
  {
    hide Fail;
    if run != [] {
      AddressesAreSeparate(c, run[..|run| - 1], ip);
      var before := TimesOf(run[..|run| - 1], ip);
      if run[|run| - 1].ip == ip {
        assert (before + [run[|run| - 1].time])[..|before + [run[|run| - 1].time]| - 1] == before;
      } else {
        assert TimesOf(run, ip) == before;
      }
    }
  }

  lemma {:induction false} TimesAscend(run: seq<Failure>, ip: IpAddr)
    requires Monotone(run)
    ensures Ascending(TimesOf(run, ip))
    ensures run != [] ==> forall i :: 0 <= i < |TimesOf(run, ip)| ==> TimesOf(run, ip)[i] <= run[|run| - 1].time
    decreases |run|
  {
    if run != [] {
      var before := TimesOf(run[..|run| - 1], ip);
      TimesAscend(run[..|run| - 1], ip);
      if |run| > 1 {
        assert run[|run| - 2].time <= run[|run| - 1].time;
      }
      assert forall i :: 0 <= i < |before| ==> before[i] <= run[|run| - 1].time;
    }
  }

  /** The limiter turns an address away exactly while a cooldown that its full history of failures
      started is running, and reports the time left of the latest one. */
  lemma ChecksAgainstFullHistory(c: Config, run: seq<Failure>, ip: IpAddr, now: nat)
    requires Monotone(run)
    ensures var w := WindowOf(After(c, run), ip);
            var history := TimesOf(run, ip);
            && (Remaining(w, now).Some? <==> Cooling(c, history, now))
            && (Remaining(w, now).Some? ==> Cooldown(c, history) == Some(now + Remaining(w, now).value))
            && |w.failures| < (if c.maxFailures > 1 then c.maxFailures else 1)
  {
    hide After, TimesOf, Failures, Cooldown, Cooling;
    TimesAscend(run, ip);
    AddressesAreSeparate(c, run, ip);
    PrunedRefinesHistory(c, TimesOf(run, ip));
    CooldownIsCooling(c, TimesOf(run, ip), now);
  }
}
