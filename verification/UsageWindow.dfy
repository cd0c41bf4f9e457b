/** Query windows and retention (`resolve_window`, `retention_cutoff_day` in `src/usage.rs`). */
module UsageWindow {
  import opened Prelude
  import opened CivilDate
  import opened DayText

  const RETENTION_DAYS := 90
  const DEFAULT_WINDOW_DAYS := 30
  const SECONDS_PER_DAY := 86400

  /** An inclusive range of day texts. */
  datatype Window = Window(start: string, end: string, dated: bool)

  datatype RangeError = InvalidStart | InvalidEnd | Inverted | TooWide | HalfOpen

  datatype Resolved = Resolved(window: Window) | InvalidDateRange(error: RangeError)

  /** The day of a time in seconds; a time from 2^63 on is taken for a negative one. */
  function DayOf(ts: U64): int { TruncDiv(AsI64(ts), SECONDS_PER_DAY) }

  /** `period` is the tenant's billing period in Unix seconds; `today` comes from the clock. */
  function ResolveWindow(start: Option<string>, end: Option<string>, period: Option<(U64, U64)>, today: int): Resolved {
    match (start, end)
    case (Some(startText), Some(endText)) =>
      (match ParseDay(startText)
       case None => InvalidDateRange(InvalidStart)
       case Some(startDay) =>
         match ParseDay(endText)
         case None => InvalidDateRange(InvalidEnd)
         case Some(endDay) =>
           if startDay > endDay then InvalidDateRange(Inverted)
           else if endDay - startDay >= RETENTION_DAYS then InvalidDateRange(TooWide)
           else Resolved(Window(FormatDay(startDay), FormatDay(endDay), true)))
    case (None, None) =>
      (match period
       case Some((startTs, endTs)) =>
         Resolved(Window(FormatDay(DayOf(startTs)), FormatDay(DayOf(endTs)), false))
       case None =>
         Resolved(Window(FormatDay(today - DEFAULT_WINDOW_DAYS + 1), FormatDay(today), false)))
    case _ => InvalidDateRange(HalfOpen)
  }

  function RetentionCutoffDay(today: int): string { FormatDay(today - RETENTION_DAYS) }

  /** The `day >= start AND day <= end` of the usage queries, on text. */
  predicate InRange(day: string, start: string, end: string) { LexAtMost(start, day) && LexAtMost(day, end) }

  /** In years 0..9999 the text range selects exactly the days between its ends. */
  lemma InRangeIsDayRange(d: int, startDay: int, endDay: int)
    requires FourDigits(d) && FourDigits(startDay) && FourDigits(endDay)
    ensures InRange(FormatDay(d), FormatDay(startDay), FormatDay(endDay)) <==> startDay <= d <= endDay
  {
    hide FormatDay, FourDigits;
    FormatDayOrder(d, startDay);
    FormatDayOrder(endDay, d);
  }

  /** The selected days of years 0 to 9999, whatever days the window runs from and to. */
  predicate Selects(startDay: int, endDay: int, d: int) {
    (d == startDay || !TextBefore(d, startDay)) && (d == endDay || TextBefore(d, endDay))
  }

  lemma InRangeExactly(d: int, startDay: int, endDay: int)
    requires FourDigits(d)
    ensures InRange(FormatDay(d), FormatDay(startDay), FormatDay(endDay)) <==> Selects(startDay, endDay, d)
  {
    hide FormatDay, TextBefore, LexLess;
    FormatDayOrderAny(d, startDay);
    FormatDayOrderAny(d, endDay);
  }

  /** What an accepted explicit window is: two real dates in order, fewer than 90 days apart. It holds
      their canonical texts, which are the given ones exactly when those are canonical. */
  lemma ExplicitWindow(startText: string, endText: string, period: Option<(U64, U64)>, today: int)
    ensures var r := ResolveWindow(Some(startText), Some(endText), period, today);
            r.Resolved? <==>
            && ParseDay(startText).Some? && ParseDay(endText).Some?
            && 0 <= ParseDay(endText).value - ParseDay(startText).value < 90
    ensures var r := ResolveWindow(Some(startText), Some(endText), period, today);
            r.Resolved? ==>
              && r.window.dated
              && ParseDay(r.window.start) == ParseDay(startText) && ParseDay(r.window.end) == ParseDay(endText)
              && Canonical(r.window.start) && Canonical(r.window.end)
              && (r.window.start == startText <==> Canonical(startText))
              && (r.window.end == endText <==> Canonical(endText))
  {
    hide ParseDay, FormatDay, Canonical, FourPlaces, DateOfDay;
    if ParseDay(startText).Some? && ParseDay(endText).Some? {
      CanonicalWindowText(startText);
      CanonicalWindowText(endText);
    }
  }

  lemma CanonicalWindowText(s: string)
    requires ParseDay(s).Some?
    ensures var t := FormatDay(ParseDay(s).value);
            ParseDay(t) == ParseDay(s) && Canonical(t) && (t == s <==> Canonical(s))
  {
    hide ParseDay, FormatDay, Canonical, FourPlaces, DateOfDay;
    ParsedYearFits(s);
    ParseFormatDay(ParseDay(s).value);
    FormatParseDay(s);
    FormatParseDay(FormatDay(ParseDay(s).value));
  }

  /** Without parameters or billing period the window is the last thirty days. */
  lemma DefaultWindow(today: int, d: int)
    requires FourDigits(today) && FourDigits(today - 29) && FourDigits(d)
    ensures var r := ResolveWindow(None, None, None, today);
            && r.Resolved? && !r.window.dated
            && (InRange(FormatDay(d), r.window.start, r.window.end) <==> today - 30 < d <= today)
  {
    hide FormatDay, FourDigits, InRange;
    InRangeIsDayRange(d, today - 29, today);
  }

  /** Which days of years 0 to 9999 a billing period selects, for every pair of times. */
  lemma PeriodWindowSelects(startTs: U64, endTs: U64, today: int, d: int)
    requires FourDigits(d)
    ensures var r := ResolveWindow(None, None, Some((startTs, endTs)), today);
            && r.Resolved? && !r.window.dated
            && (InRange(FormatDay(d), r.window.start, r.window.end) <==> Selects(DayOf(startTs), DayOf(endTs), d))
  {
    hide FormatDay, InRange, Selects;
    InRangeExactly(d, DayOf(startTs), DayOf(endTs));
  }

  /** The window of a billing period holds the day of a moment in the period exactly when the period
      ends by the year 9999, or the moment's year is at most the first four digits of the end's. */
  lemma PeriodWindowCoversPeriod(startTs: U64, endTs: U64, ts: U64, today: int)
    requires startTs <= ts <= endTs < TWO_63 && FourDigits(DayOf(ts))
    ensures var r := ResolveWindow(None, None, Some((startTs, endTs)), today);
            && r.Resolved?
            && (InRange(FormatDay(DayOf(ts)), r.window.start, r.window.end) <==>
                DateOfDay(DayOf(endTs)).year <= 9999
                || DateOfDay(DayOf(ts)).year <= FirstFour(DateOfDay(DayOf(endTs)).year))
  {
    hide FormatDay, InRange, DateOfDay, FirstFour;
    var (first, d, last) := (DayOf(startTs), DayOf(ts), DayOf(endTs));
    assert 0 <= first <= d <= last;
    PeriodWindowSelects(startTs, endTs, today, d);
    FourDigitsMeansYear(d);
    FourDigitsMeansYear(first);
    FourDigitsMeansYear(last);
    DateOfDayOrder(last, d);
  }

  /** A billing period that ends in the year 10000 selects nothing later than the year 1000. */
  lemma LongPeriodSelectsNothingRecent(startTs: U64, endTs: U64, today: int, d: int)
    requires FourDigits(d) && DateOfDay(DayOf(endTs)).year == 10000 && DateOfDay(d).year > 1000
    ensures var r := ResolveWindow(None, None, Some((startTs, endTs)), today);
            r.Resolved? && !InRange(FormatDay(d), r.window.start, r.window.end)
  {
    hide FormatDay, InRange, DateOfDay;
    assert FirstFour(10000) == 1000;
    PeriodWindowSelects(startTs, endTs, today, d);
    FourDigitsMeansYear(d);
  }

  /** A purge run on or before day T never removes a day of years 0 to 9999 inside an accepted explicit
      window that ends on T or later. */
  lemma PurgeSparesWindow(startText: string, endText: string, period: Option<(U64, U64)>, today: int,
                          purgeDay: int, d: int)
    requires var r := ResolveWindow(Some(startText), Some(endText), period, today);
             r.Resolved? && InRange(FormatDay(d), r.window.start, r.window.end)
    requires purgeDay <= ParseDay(endText).value && FourDigits(d)
    ensures !LexLess(FormatDay(d), RetentionCutoffDay(purgeDay))
  {
    hide ParseDay, FormatDay, LexLess, DateOfDay;
    var (startDay, endDay) := (ParseDay(startText).value, ParseDay(endText).value);
    ParsedYearFits(startText);
    ParsedYearFits(endText);
    InRangeExactly(d, startDay, endDay);
    FormatDayOrderAny(d, purgeDay - RETENTION_DAYS);
    FourDigitsMeansYear(d);
    FourDigitsMeansYear(startDay);
    FourDigitsMeansYear(endDay);
    FourDigitsMeansYear(purgeDay - RETENTION_DAYS);
  }

  /** The purge removes, of the days of years 0 to 9999, exactly those more than 90 days before the day
      it runs, for every day up to 90 days past 9999-12-31. */
  lemma PurgeIsDayOrder(d: int, purgeDay: int)
    requires FourDigits(d) && purgeDay - 90 <= LAST_DAY
    ensures LexLess(FormatDay(d), RetentionCutoffDay(purgeDay)) <==> d < purgeDay - 90
  {
    hide FormatDay, LexLess, DateOfDay;
    FormatDayOrderAny(d, purgeDay - 90);
    FourDigitsMeansYear(d);
    FourDigitsMeansYear(purgeDay - 90);
  }

  /** The day of a time below 2^63 is the one its second lies in; a later time counts as negative
      and is rounded toward day 0. */
  lemma DayOfMeaning(ts: U64)
    ensures ts < 0x8000_0000_0000_0000 ==> 86400 * DayOf(ts) <= ts < 86400 * (DayOf(ts) + 1)
    ensures ts >= 0x8000_0000_0000_0000 ==>
              var t := ts - 0x1_0000_0000_0000_0000;
              t <= 86400 * DayOf(ts) < t + 86400 && DayOf(ts) <= 0
  {
  }

  /** Which error is reported: an end left out before anything is parsed, then a start or an end that
      is no date, then the order, then the width. */
  lemma WindowErrors(start: Option<string>, end: Option<string>, period: Option<(U64, U64)>, today: int)
    ensures var r := ResolveWindow(start, end, period, today);
            && (r == InvalidDateRange(HalfOpen) <==> start.Some? != end.Some?)
            && (r == InvalidDateRange(InvalidStart) <==> start.Some? && end.Some? && ParseDay(start.value).None?)
            && (r == InvalidDateRange(InvalidEnd) <==>
                start.Some? && end.Some? && ParseDay(start.value).Some? && ParseDay(end.value).None?)
            && (r == InvalidDateRange(Inverted) <==>
                && start.Some? && end.Some? && ParseDay(start.value).Some? && ParseDay(end.value).Some?
                && ParseDay(start.value).value > ParseDay(end.value).value)
            && (r == InvalidDateRange(TooWide) <==>
                && start.Some? && end.Some? && ParseDay(start.value).Some? && ParseDay(end.value).Some?
                && ParseDay(end.value).value >= ParseDay(start.value).value + 90)
  {
    hide ParseDay, FormatDay;
  }

  /** For one: the day after 9999-12-31 sorts before it. */
  lemma FiveDigitYearSortsFirst()
    ensures var d := DayOfDate(Date(9999, 12, 31)); LexLess(FormatDay(d + 1), FormatDay(d))
  {
    hide DateOfDay, DayOfDate, FormatDay, LexLess;
    var last := Date(9999, 12, 31);
    DateOfDayOfDate(last);
    DateOfNextDay(DayOfDate(last));
    assert NextDate(last) == Date(10000, 1, 1);
    assert FirstFour(10000) == 1000;
    FourDigitsMeansYear(DayOfDate(last));
    FormatDayOrderAny(DayOfDate(last), DayOfDate(last) + 1);
  }
}
