/** Day numbers and the proleptic Gregorian calendar (`src/usage.rs`, "Civil date helpers").

    The closed forms are written with Rust's truncating division, as in the source. The
    reference is a calendar that only knows month lengths and leap years (RFC 3339,
    section 5.7 and Appendix C) and counts one day at a time from 1970-01-01. */
module CivilDate {
  import opened Prelude

  datatype Date = Date(year: int, month: int, day: int)

  const DAYS_PER_ERA := 146097
  const EPOCH_OFFSET := 719468

  // ---- The source's conversions ----------------------------------------

  predicate IsLeap(year: int) {
    (TruncRem(year, 4) == 0 && TruncRem(year, 100) != 0) || TruncRem(year, 400) == 0
  }

  function DaysInMonth(year: int, month: int): int {
    match month
    case 1 | 3 | 5 | 7 | 8 | 10 | 12 => 31
    case 4 | 6 | 9 | 11 => 30
    case 2 => if IsLeap(year) then 29 else 28
    case _ => 0
  }

  /** The arithmetic of `format_day`, before the text is produced. */
  function DateOfDay(epochDay: int): Date {
    var z := epochDay + EPOCH_OFFSET;
    var era := EraOf(z);
    var doe := z - era * DAYS_PER_ERA;
    var yoe := YearOfEra(doe);
    var doy := DayOfYear(doe, yoe);
    var mp := MonthOfDay(doy);
    FromMarch(yoe + era * 400, mp, DayOfMonth(doy, mp))
  }

  function EraOf(z: int): int {
    TruncDiv(if z >= 0 then z else z - 146096, DAYS_PER_ERA)
  }

  function YearOfEra(doe: int): int {
    TruncDiv(doe - TruncDiv(doe, 1460) + TruncDiv(doe, 36524) - TruncDiv(doe, 146096), 365)
  }

  function DayOfYear(doe: int, yoe: int): int {
    doe - (365 * yoe + TruncDiv(yoe, 4) - TruncDiv(yoe, 100))
  }

  function MonthOfDay(doy: int): int { TruncDiv(5 * doy + 2, 153) }

  function DayOfMonth(doy: int, mp: int): int { doy - TruncDiv(153 * mp + 2, 5) + 1 }

  /** The calendar date in a year that starts in March (`mp` 0 is March). */
  function FromMarch(y: int, mp: int, day: int): Date {
    var m := if mp < 10 then mp + 3 else mp - 9;
    Date(y + if m <= 2 then 1 else 0, m, day)
  }

  /** The arithmetic of `parse_day`, after the fields are validated. */
  function DayOfDate(date: Date): int {
    var y := date.year - if date.month <= 2 then 1 else 0;
    var era := TruncDiv(if y >= 0 then y else y - 399, 400);
    var yoe := y - era * 400;
    var mp := if date.month > 2 then date.month - 3 else date.month + 9;
    var doy := TruncDiv(153 * mp + 2, 5) + date.day - 1;
    var doe := yoe * 365 + TruncDiv(yoe, 4) - TruncDiv(yoe, 100) + doy;
    era * DAYS_PER_ERA + doe - EPOCH_OFFSET
  }

  // ---- The step-by-step calendar ----------------------------------------

  predicate IsValid(date: Date) {
    1 <= date.month <= 12 && 1 <= date.day <= DaysInMonth(date.year, date.month)
  }

  function NextDate(date: Date): Date {
    if date.day < DaysInMonth(date.year, date.month) then date.(day := date.day + 1)
    else if date.month < 12 then Date(date.year, date.month + 1, 1)
    else Date(date.year + 1, 1, 1)
  }

  function PreviousDate(date: Date): Date {
    if date.day > 1 then date.(day := date.day - 1)
    else if date.month > 1 then Date(date.year, date.month - 1, DaysInMonth(date.year, date.month - 1))
    else Date(date.year - 1, 12, 31)
  }

  /** The date reached by counting `n` days forward (or back) from 1970-01-01. */
  function CountedDate(n: int): Date
    decreases if n < 0 then -n else n
  {
    if n == 0 then Date(1970, 1, 1)
    else if n > 0 then NextDate(CountedDate(n - 1))
    else PreviousDate(CountedDate(n + 1))
  }

  predicate Before(a: Date, b: Date) {
    a.year < b.year
    || (a.year == b.year && (a.month < b.month || (a.month == b.month && a.day < b.day)))
  }

  // ---- March-based years -------------------------------------------------

  /** Days from 0000-03-01 to March 1st of `year`. */
  function MarchFirst(year: int): int {
    365 * year + year / 4 - year / 100 + year / 400
  }

  /** Days from March 1st to the first day of the `mp`-th month after March. */
  function MonthStart(mp: int): int {
    (153 * mp + 2) / 5
  }

  function MarchYear(date: Date): int { date.year - if date.month <= 2 then 1 else 0 }
  function MarchMonth(date: Date): int { if date.month > 2 then date.month - 3 else date.month + 9 }

  /** First day of year `yoe` of an era; `EraYearStart(400)` is the last day but one past it. */
  function EraYearStart(yoe: int): int {
    365 * yoe + yoe / 4 - yoe / 100
  }

  lemma EraIsFloor(y: int)
    ensures TruncDiv(if y >= 0 then y else y - 399, 400) == y / 400
    ensures TruncDiv(if y >= 0 then y else y - 146096, DAYS_PER_ERA) == y / DAYS_PER_ERA
  {
  }

  lemma MarchFirstInEra(era: int, yoe: int)
    requires 0 <= yoe < 400
    ensures MarchFirst(era * 400 + yoe) == era * DAYS_PER_ERA + EraYearStart(yoe)
  {
    var y := era * 400 + yoe;
    assert y / 4 == era * 100 + yoe / 4;
    assert y / 100 == era * 4 + yoe / 100;
    assert y / 400 == era;
  }

  /** The truncating divisions of `parse_day` are floors: the year splits into era and year of era. */
  lemma EraSplit(date: Date)
    requires 1 <= date.month <= 12
    ensures var (y, yoe) := (MarchYear(date), MarchYear(date) % 400);
            DayOfDate(date) + EPOCH_OFFSET ==
            y / 400 * DAYS_PER_ERA + EraYearStart(yoe) + MonthStart(MarchMonth(date)) + date.day - 1
  {
    hide IsLeap;
    EraIsFloor(MarchYear(date));
  }

  lemma DayOfDateIsOffset(date: Date)
    requires IsValid(date)
    ensures DayOfDate(date) + EPOCH_OFFSET ==
            MarchFirst(MarchYear(date)) + MonthStart(MarchMonth(date)) + date.day - 1
  {
    hide DayOfDate, MarchFirst, MonthStart, IsLeap;
    EraSplit(date);
    MarchFirstInEra(MarchYear(date) / 400, MarchYear(date) % 400);
  }

  // ---- The year of an era ------------------------------------------------

  /** Day of era with the leap days squeezed out: 365 steps a year. */
  function Squeezed(doe: int): int {
    doe - doe / 1460 + doe / 36524 - doe / 146096
  }

  lemma SqueezedIsMonotone(a: int, b: int)
    requires 0 <= a <= b < DAYS_PER_ERA
    ensures Squeezed(a) <= Squeezed(b)
  {
    assert b / 1460 - a / 1460 <= b - a;
    assert b / 146096 - a / 146096 <= b / 36524 - a / 36524;
  }

  lemma EraYearStartParts(yoe: int)
    requires 0 <= yoe < 400
    ensures EraYearStart(yoe) / 1460 == yoe / 4
    ensures EraYearStart(yoe) / 36524 == yoe / 100
    ensures 0 <= EraYearStart(yoe) < 146096
  {
    var q, s, c := yoe / 4, yoe % 4, yoe / 100;
    assert EraYearStart(yoe) == 1460 * q + (365 * s + q - c);
    assert 0 <= 365 * s + q - c < 1460;
    var t := yoe % 100;
    assert yoe / 4 == 25 * c + t / 4;
    assert EraYearStart(yoe) == 36524 * c + (365 * t + t / 4);
    assert 0 <= 365 * t + t / 4 < 36524;
  }

  lemma SqueezedAtYearStart(yoe: int)
    requires 0 <= yoe < 400
    ensures Squeezed(EraYearStart(yoe)) == 365 * yoe
    ensures yoe > 0 ==> Squeezed(EraYearStart(yoe) - 1) < 365 * yoe
  {
    EraYearStartParts(yoe);
    if yoe > 0 {
      var q, s, c := yoe / 4, yoe % 4, yoe / 100;
      var e := EraYearStart(yoe) - 1;
      assert e == 1460 * q + (365 * s + q - c - 1);
      assert 0 <= 365 * s + q - c - 1 < 1460;
      assert e / 1460 == q;
      assert e / 36524 <= c;
    }
  }

  lemma YearOfEraBracket(doe: int)
    requires 0 <= doe < DAYS_PER_ERA
    ensures 0 <= Squeezed(doe) / 365 <= 399
    ensures EraYearStart(Squeezed(doe) / 365) <= doe
    ensures Squeezed(doe) / 365 < 399 ==> doe < EraYearStart(Squeezed(doe) / 365 + 1)
  {
    SqueezedIsMonotone(0, doe);
    SqueezedIsMonotone(doe, DAYS_PER_ERA - 1);
    var yoe := Squeezed(doe) / 365;
    EraYearStartParts(yoe);
    if EraYearStart(yoe) > doe {
      SqueezedAtYearStart(yoe);
      SqueezedIsMonotone(doe, EraYearStart(yoe) - 1);
    }
    if yoe < 399 && EraYearStart(yoe + 1) <= doe {
      EraYearStartParts(yoe + 1);
      SqueezedAtYearStart(yoe + 1);
      SqueezedIsMonotone(EraYearStart(yoe + 1), doe);
    }
  }

  // ---- From a day number to its date --------------------------------------

  lemma MonthBracket(doy: int)
    requires 0 <= doy <= 365
    ensures var mp := (5 * doy + 2) / 153;
            0 <= mp <= 11 && MonthStart(mp) <= doy < MonthStart(mp + 1)
  {
  }

  /** The stages of `DateOfDay` with floor division throughout. */
  lemma StagesByFloor(z: int, doe: int, yoe: int, doy: int, mp: int)
    ensures EraOf(z) == z / DAYS_PER_ERA
    ensures 0 <= doe < DAYS_PER_ERA ==> YearOfEra(doe) == Squeezed(doe) / 365
    ensures 0 <= yoe ==> DayOfYear(doe, yoe) == doe - EraYearStart(yoe)
    ensures 0 <= doy ==> MonthOfDay(doy) == (5 * doy + 2) / 153
    ensures 0 <= mp ==> DayOfMonth(doy, mp) == doy - MonthStart(mp) + 1
  {
    EraIsFloor(z);
    if 0 <= doe < DAYS_PER_ERA {
      SqueezedIsMonotone(0, doe);
    }
  }

  lemma DayOfYearBracket(doe: int)
    requires 0 <= doe < DAYS_PER_ERA
    ensures var yoe := Squeezed(doe) / 365;
            0 <= yoe <= 399 && 0 <= doe - EraYearStart(yoe) <= 365
  {
    YearOfEraBracket(doe);
    var yoe := Squeezed(doe) / 365;
    if yoe < 399 {
      assert EraYearStart(yoe + 1) <= EraYearStart(yoe) + 366;
    }
  }

  lemma EraDayInYear(era: int, doe: int)
    requires 0 <= doe < DAYS_PER_ERA
    ensures var yoe := Squeezed(doe) / 365;
            var z, y := era * DAYS_PER_ERA + doe, yoe + era * 400;
            && z == MarchFirst(y) + (doe - EraYearStart(yoe))
            && z < MarchFirst(y + 1)
  {
    YearOfEraBracket(doe);
    var yoe := Squeezed(doe) / 365;
    MarchFirstInEra(era, yoe);
    if yoe < 399 {
      MarchFirstInEra(era, yoe + 1);
    } else {
      MarchFirstInEra(era + 1, 0);
    }
  }

  /** `DateOfDay`, put together from its stages. */
  lemma DateOfDayByFloor(epochDay: int, era: int, doe: int, yoe: int, doy: int, mp: int)
    requires era == (epochDay + EPOCH_OFFSET) / DAYS_PER_ERA && doe == (epochDay + EPOCH_OFFSET) % DAYS_PER_ERA
    requires yoe == Squeezed(doe) / 365 && 0 <= yoe
    requires doy == doe - EraYearStart(yoe) && 0 <= doy
    requires mp == (5 * doy + 2) / 153
    ensures DateOfDay(epochDay) == FromMarch(yoe + era * 400, mp, doy - MonthStart(mp) + 1)
  {
    StagesByFloor(epochDay + EPOCH_OFFSET, doe, yoe, doy, mp);
    hide EraOf, YearOfEra, DayOfYear, MonthOfDay, DayOfMonth, FromMarch, Squeezed, EraYearStart, MonthStart;
  }

  /** `DateOfDay` lands in the March-based year and month that contain the day. */
  lemma DateOfDayBracket(epochDay: int)
    ensures var date := DateOfDay(epochDay);
            var z := epochDay + EPOCH_OFFSET;
            && 1 <= date.month <= 12 && 1 <= date.day
            && z == MarchFirst(MarchYear(date)) + MonthStart(MarchMonth(date)) + date.day - 1
            && z < MarchFirst(MarchYear(date) + 1)
            && MonthStart(MarchMonth(date)) + date.day - 1 < MonthStart(MarchMonth(date) + 1)
  {
    hide DateOfDay, FromMarch, MarchFirst, MonthStart, MarchYear, MarchMonth, Squeezed, EraYearStart;
    var z := epochDay + EPOCH_OFFSET;
    var era, doe := z / DAYS_PER_ERA, z % DAYS_PER_ERA;
    DayOfYearBracket(doe);
    EraDayInYear(era, doe);
    var yoe := Squeezed(doe) / 365;
    var doy := doe - EraYearStart(yoe);
    MonthBracket(doy);
    var mp := (5 * doy + 2) / 153;
    DateOfDayByFloor(epochDay, era, doe, yoe, doy, mp);
    FromMarchParts(yoe + era * 400, mp, doy - MonthStart(mp) + 1);
  }

  lemma FromMarchParts(y: int, mp: int, day: int)
    requires 0 <= mp <= 11
    ensures MarchYear(FromMarch(y, mp, day)) == y && MarchMonth(FromMarch(y, mp, day)) == mp
    ensures 1 <= FromMarch(y, mp, day).month <= 12 && FromMarch(y, mp, day).day == day
  {
  }

  lemma LeapByFloor(year: int)
    ensures IsLeap(year) <==> (year % 4 == 0 && year % 100 != 0) || year % 400 == 0
  {
    hide TruncRem;
    RemByFloor4(year);
    RemByFloor100(year);
    RemByFloor400(year);
  }

  lemma RemByFloor4(n: int)
    ensures TruncRem(n, 4) == 0 <==> n % 4 == 0
  {
  }

  lemma RemByFloor100(n: int)
    ensures TruncRem(n, 100) == 0 <==> n % 100 == 0
  {
  }

  lemma RemByFloor400(n: int)
    ensures TruncRem(n, 400) == 0 <==> n % 400 == 0
  {
  }

  lemma NextQuotients(n: int)
    ensures (n + 1) / 4 - n / 4 == if (n + 1) % 4 == 0 then 1 else 0
    ensures (n + 1) / 100 - n / 100 == if (n + 1) % 100 == 0 then 1 else 0
    ensures (n + 1) / 400 - n / 400 == if (n + 1) % 400 == 0 then 1 else 0
  {
  }

  lemma MarchYearLength(year: int)
    ensures MarchFirst(year + 1) - MarchFirst(year) == if IsLeap(year + 1) then 366 else 365
  {
    hide IsLeap;
    NextQuotients(year);
    LeapByFloor(year + 1);
  }

  lemma DateOfDayIsValid(epochDay: int)
    ensures IsValid(DateOfDay(epochDay))
  {
    hide DateOfDay, MarchFirst, IsLeap;
    DateOfDayBracket(epochDay);
    var date := DateOfDay(epochDay);
    if date.month == 2 {
      MarchYearLength(MarchYear(date));
    }
  }

  /** `parse_day`'s arithmetic undoes `format_day`'s, for every integer day. */
  lemma DayOfDateOfDay(epochDay: int)
    ensures DayOfDate(DateOfDay(epochDay)) == epochDay
  {
    DateOfDayBracket(epochDay);
    DateOfDayIsValid(epochDay);
    DayOfDateIsOffset(DateOfDay(epochDay));
  }

  // ---- Order ---------------------------------------------------------------

  lemma MarchFirstIsMonotone(a: int, b: int)
    requires a <= b
    ensures MarchFirst(a) + 365 * (b - a) <= MarchFirst(b)
    decreases b - a
  {
    if a < b {
      MarchFirstIsMonotone(a, b - 1);
      MarchYearLength(b - 1);
    }
  }

  /** The month and day fit inside the March-based year. */
  lemma DayInMarchYear(date: Date)
    requires IsValid(date)
    ensures MonthStart(MarchMonth(date)) + date.day - 1 < MonthStart(MarchMonth(date) + 1)
    ensures 0 <= MonthStart(MarchMonth(date)) + date.day - 1
            < MarchFirst(MarchYear(date) + 1) - MarchFirst(MarchYear(date))
  {
    hide MarchFirst, IsLeap;
    MarchYearLength(MarchYear(date));
  }

  /** Chronological order of valid dates is the order of their day numbers. */
  lemma DayOfDateKeepsOrder(a: Date, b: Date)
    requires IsValid(a) && IsValid(b) && Before(a, b)
    ensures DayOfDate(a) < DayOfDate(b)
  {
    DayOfDateIsOffset(a);
    DayOfDateIsOffset(b);
    DayInMarchYear(a);
    DayInMarchYear(b);
    hide DayOfDate;
    if MarchYear(a) < MarchYear(b) {
      MarchFirstIsMonotone(MarchYear(a) + 1, MarchYear(b));
    } else {
      assert MarchYear(a) == MarchYear(b);
    }
  }

  lemma DayOfDateOrder(a: Date, b: Date)
    requires IsValid(a) && IsValid(b)
    ensures Before(a, b) <==> DayOfDate(a) < DayOfDate(b)
    ensures a == b <==> DayOfDate(a) == DayOfDate(b)
  {
    if Before(a, b) {
      DayOfDateKeepsOrder(a, b);
    } else if a != b {
      assert Before(b, a);
      DayOfDateKeepsOrder(b, a);
    }
  }

  /** `format_day`'s arithmetic undoes `parse_day`'s, for every valid date. */
  lemma DateOfDayOfDate(date: Date)
    requires IsValid(date)
    ensures DateOfDay(DayOfDate(date)) == date
  {
    DayOfDateOfDay(DayOfDate(date));
    DateOfDayIsValid(DayOfDate(date));
    DayOfDateOrder(DateOfDay(DayOfDate(date)), date);
  }

  // ---- The closed form is the calendar --------------------------------------

  /** The last day of a month is followed by the first of the next. */
  lemma MonthEnd(date: Date)
    requires IsValid(date) && date.day == DaysInMonth(date.year, date.month)
    ensures var next := NextDate(date);
            MarchFirst(MarchYear(next)) + MonthStart(MarchMonth(next)) ==
            MarchFirst(MarchYear(date)) + MonthStart(MarchMonth(date)) + date.day
  {
    var next := NextDate(date);
    if date.month == 2 {
      MarchYearLength(MarchYear(date));
      assert MarchYear(next) == MarchYear(date) + 1 && MarchMonth(next) == 0;
    } else {
      assert MarchYear(next) == MarchYear(date) && MarchMonth(next) == MarchMonth(date) + 1;
    }
    hide MarchFirst;
  }

  lemma NextDateIsValid(date: Date)
    requires IsValid(date)
    ensures IsValid(NextDate(date))
  {
  }

  lemma NextDateIsNextDay(date: Date)
    requires IsValid(date)
    ensures IsValid(NextDate(date))
    ensures DayOfDate(NextDate(date)) == DayOfDate(date) + 1
  {
    hide DayOfDate, MarchFirst, MonthStart, IsLeap;
    NextDateIsValid(date);
    DayOfDateIsOffset(date);
    DayOfDateIsOffset(NextDate(date));
    if date.day == DaysInMonth(date.year, date.month) {
      MonthEnd(date);
    }
  }

  /** Day d+1 is the calendar successor of day d, before and after the epoch. */
  lemma DateOfNextDay(epochDay: int)
    ensures DateOfDay(epochDay + 1) == NextDate(DateOfDay(epochDay))
  {
    hide DateOfDay, DayOfDate, NextDate, IsValid;
    var date := DateOfDay(epochDay);
    DateOfDayIsValid(epochDay);
    DayOfDateOfDay(epochDay);
    NextDateIsNextDay(date);
    DateOfDayOfDate(NextDate(date));
  }

  lemma EpochDate()
    ensures DateOfDay(0) == Date(1970, 1, 1)
  {
  }

  /** The closed form agrees with counting days one at a time from 1970-01-01. */
  lemma {:induction false} DateOfDayCountsDays(epochDay: int)
    ensures DateOfDay(epochDay) == CountedDate(epochDay)
    decreases if epochDay < 0 then -epochDay else epochDay
  {
    DateOfDayIsValid(epochDay);
    hide DateOfDay, NextDate, PreviousDate, IsValid;
    if epochDay == 0 {
      EpochDate();
    } else if epochDay > 0 {
      DateOfDayCountsDays(epochDay - 1);
      DateOfNextDay(epochDay - 1);
    } else if epochDay < 0 {
      DateOfDayCountsDays(epochDay + 1);
      DateOfNextDay(epochDay);
      PreviousOfNext(DateOfDay(epochDay));
    }
  }

  lemma PreviousOfNext(date: Date)
    requires IsValid(date)
    ensures PreviousDate(NextDate(date)) == date
  {
  }

  /** The two conversions keep order both ways, so day arithmetic is date arithmetic. */
  lemma DateOfDayOrder(a: int, b: int)
    ensures a < b <==> Before(DateOfDay(a), DateOfDay(b))
  {
    DayOfDateOfDay(a);
    DayOfDateOfDay(b);
    DateOfDayIsValid(a);
    DateOfDayIsValid(b);
    DayOfDateOrder(DateOfDay(a), DateOfDay(b));
  }
}
