/** The daily purge of old usage rows, on the days the rows stand for (`spawn_usage_tasks` in
    `src/main.rs`, `retention_cutoff_day` in `src/usage.rs`, `purge_usage_before` in `src/store.rs`). */
module UsageRetention {
  import opened Prelude
  import opened DayText
  import opened UsageRecorder
  import F = UsageFlow
  import W = UsageWindow

  /** Some accepted pair of query ends, the later of them `today` or after, selects the day text. */
  ghost predicate InAcceptedWindow(day: string, today: int) {
    exists start, end | ParseDay(start).Some? && ParseDay(end).Some? && today <= ParseDay(end).value ::
      var r := W.ResolveWindow(Some(start), Some(end), None, today);
      r.Resolved? && W.InRange(day, r.window.start, r.window.end)
  }

  /** Whether a row of day `d` is still there after a purge on day `today`. */
  ghost predicate Survives(d: int, today: int, stays: bool) {
    && (today - 90 <= LAST_DAY ==> (stays <==> d >= today - 90))
    && (stays <==> !TextBefore(d, today - 90))
    && (InAcceptedWindow(FormatDay(d), today) ==> stays)
  }

  lemma CutoffSurvives(d: int, today: int)
    requires FourDigits(d)
    ensures Survives(d, today, !LexLess(FormatDay(d), W.RetentionCutoffDay(today)))
  {
    hide FormatDay, LexLess, TextBefore, ParseDay;
    FormatDayOrderAny(d, today - 90);
    if today - 90 <= LAST_DAY {
      W.PurgeIsDayOrder(d, today);
    }
    if InAcceptedWindow(FormatDay(d), today) {
      var start, end :| ParseDay(start).Some? && ParseDay(end).Some? && today <= ParseDay(end).value
                        && var r := W.ResolveWindow(Some(start), Some(end), None, today);
                           r.Resolved? && W.InRange(FormatDay(d), r.window.start, r.window.end);
      W.PurgeSparesWindow(start, end, None, today, today, d);
    }
  }

  /** One tick of the purge task. */
  method PurgeTick(tables: Tables, today: int) returns (removed: nat)
    modifies tables
    ensures forall k: DailyKey, d: int :: FourDigits(d) && k.day == FormatDay(d) ==>
              if k in old(tables.daily) then Survives(d, today, k in tables.daily) else k !in tables.daily
    ensures forall k :: k in tables.daily ==> k in old(tables.daily) && tables.daily[k] == old(tables.daily)[k]
    ensures forall k: LatencyKey, d: int :: FourDigits(d) && k.day == FormatDay(d) ==>
              if k in old(tables.latency) then Survives(d, today, k in tables.latency) else k !in tables.latency
    ensures forall k :: k in tables.latency ==> k in old(tables.latency) && tables.latency[k] == old(tables.latency)[k]
  {
    hide FormatDay, LexLess, FourDigits, Survives;
    forall d | FourDigits(d)
      ensures Survives(d, today, !LexLess(FormatDay(d), W.RetentionCutoffDay(today)))
    {
      CutoffSurvives(d, today);
    }
    removed := tables.PurgeUsageBefore(W.RetentionCutoffDay(today));
  }

  /** The purge step of the flow. */
  lemma PurgeStep(s: F.State, today: int, d: int, k: DailyKey, l: LatencyKey)
    requires FourDigits(d) && k.day == l.day == FormatDay(d)
    ensures var t := F.Next(s, F.Purge(W.RetentionCutoffDay(today)));
            && (if k in s.dailyTable then Survives(d, today, k in t.dailyTable) else k !in t.dailyTable)
            && (k in t.dailyTable ==> t.dailyTable[k] == s.dailyTable[k])
            && (if l in s.latencyTable then Survives(d, today, l in t.latencyTable) else l !in t.latencyTable)
            && (l in t.latencyTable ==> t.latencyTable[l] == s.latencyTable[l])
  {
    CutoffSurvives(d, today);
    hide FormatDay, LexLess, FourDigits, Survives;
  }
}
