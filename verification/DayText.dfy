/** `YYYY-MM-DD` text: `format_day`, `parse_day` and the string comparison the store relies on
    (`src/usage.rs`, `src/store.rs`). A string stands for its UTF-8 bytes, one `char` a byte:
    the source slices bytes, and every byte that is not ASCII fails the digit test. */
module DayText {
  import opened Prelude
  import opened CivilDate

  // ---- Decimal text ------------------------------------------------------

  predicate IsDigit(c: char) { '0' <= c <= '9' }

  predicate AllDigits(s: string) { forall i :: 0 <= i < |s| ==> IsDigit(s[i]) }

  function DigitChar(n: nat): char
    requires n < 10
  {
    '0' + n as char
  }

  function DigitValue(c: char): nat
    requires IsDigit(c)
  {
    (c - '0') as nat
  }

  /** Decimal digits of `n`, padded with zeros to at least `width`. */
  function Digits(n: nat, width: nat): string
    decreases n, width
  {
    if n < 10 && width <= 1 then [DigitChar(n)]
    else Digits(n / 10, if width > 0 then width - 1 else 0) + [DigitChar(n % 10)]
  }

  /** Rust's `{:0width}` on an integer: the sign takes one of the padded places. */
  function PadInt(n: int, width: nat): string {
    if n >= 0 then Digits(n, width) else "-" + Digits(-n, if width > 0 then width - 1 else 0)
  }

  function Value(s: string): nat
    requires AllDigits(s)
  {
    if s == "" then 0 else Value(s[..|s| - 1]) * 10 + DigitValue(s[|s| - 1])
  }

  function ParseNat(s: string): Option<int> {
    if s == "" || !AllDigits(s) then None else Some(Value(s))
  }

  /** Rust's `str::parse::<i64>`: an optional sign, then at least one digit. */
  function ParseInt(s: string): Option<int> {
    if s == "" then None
    else if s[0] == '-' then
      match ParseNat(s[1..]) { case Some(n) => Some(-n) case None => None }
    else ParseNat(if s[0] == '+' then s[1..] else s)
  }

  // ---- The source's text conversions -------------------------------------

  function DateText(date: Date): string
    requires 0 <= date.month && 0 <= date.day
  {
    PadInt(date.year, 4) + "-" + PadInt(date.month, 2) + "-" + PadInt(date.day, 2)
  }

  function FormatDay(epochDay: int): string {
    DateOfDayIsValid(epochDay);
    DateText(DateOfDay(epochDay))
  }

  function ParseDate(s: string): Option<Date> {
    if |s| != 10 || s[4] != '-' || s[7] != '-' then None
    else
      match (ParseInt(s[0..4]), ParseInt(s[5..7]), ParseInt(s[8..10]))
      case (Some(year), Some(month), Some(day)) =>
        if !(1 <= month <= 12) || !(1 <= day <= 31) then None
        else if day > DaysInMonth(year, month) then None
        else Some(Date(year, month, day))
      case _ => None
  }

  function ParseDay(s: string): Option<int> {
    match ParseDate(s)
    case Some(date) => Some(DayOfDate(date))
    case None => None
  }

  // ---- Digits --------------------------------------------------------------

  function Pow10(n: nat): nat { if n == 0 then 1 else 10 * Pow10(n - 1) }

  lemma {:induction false} DigitsValue(n: nat, width: nat)
    ensures AllDigits(Digits(n, width)) && Value(Digits(n, width)) == n
    ensures |Digits(n, width)| >= 1
    decreases n, width
  {
    if !(n < 10 && width <= 1) {
      var w := if width > 0 then width - 1 else 0;
      DigitsValue(n / 10, w);
      assert Digits(n, width)[..|Digits(n, width)| - 1] == Digits(n / 10, w);
    } else {
      assert Value([DigitChar(n)]) == Value([]) * 10 + n;
    }
  }

  lemma {:induction false} DigitsLength(n: nat, width: nat)
    requires width >= 1
    ensures |Digits(n, width)| == width <==> n < Pow10(width)
    ensures |Digits(n, width)| >= width
    decreases n, width
  {
    if width > 1 {
      DigitsLength(n / 10, width - 1);
    } else if n >= 10 {
      DigitsValue(n / 10, 0);
    }
  }

  lemma LastDigit(n: nat, d: nat)
    requires d < 10
    ensures (n * 10 + d) / 10 == n && (n * 10 + d) % 10 == d
  {
  }

  lemma {:induction false} ValueDigits(s: string)
    requires AllDigits(s) && s != ""
    ensures Digits(Value(s), |s|) == s
    ensures Value(s) < Pow10(|s|)
    decreases |s|
  {
    var init := s[..|s| - 1];
    var d := DigitValue(s[|s| - 1]);
    assert DigitChar(d) == s[|s| - 1];
    hide DigitValue, DigitChar, IsDigit;
    assert s == init + [s[|s| - 1]];
    if init == "" {
      assert Value(s) == d;
      assert Pow10(1) == 10;
    } else {
      ValueDigits(init);
      LastDigit(Value(init), d);
    }
  }

  // ---- Lexicographic order -------------------------------------------------

  /** Byte-wise text order, as SQL compares the `day` column. */
  predicate LexLess(a: string, b: string) {
    if b == "" then false
    else if a == "" then true
    else a[0] < b[0] || (a[0] == b[0] && LexLess(a[1..], b[1..]))
  }

  predicate LexAtMost(a: string, b: string) { !LexLess(b, a) }

  lemma {:induction false} LexLessConcat(a: string, b: string, c: string, d: string)
    requires |a| == |b|
    ensures LexLess(a + c, b + d) <==> LexLess(a, b) || (a == b && LexLess(c, d))
  {
    if a == "" {
      assert a + c == c && b + d == d;
    } else {
      LexLessConcat(a[1..], b[1..], c, d);
      assert (a + c)[1..] == a[1..] + c && (b + d)[1..] == b[1..] + d;
      assert a == [a[0]] + a[1..] && b == [b[0]] + b[1..];
    }
  }

  lemma LastDigitOrder(a: string, b: string, m: nat, n: nat)
    requires |a| == |b| && m < 10 && n < 10
    ensures LexLess(a + [DigitChar(m)], b + [DigitChar(n)]) <==> LexLess(a, b) || (a == b && m < n)
  {
    LexLessConcat(a, b, [DigitChar(m)], [DigitChar(n)]);
    assert LexLess([DigitChar(m)], [DigitChar(n)]) <==> m < n;
  }

  lemma DigitsInjective(m: nat, n: nat, width: nat)
    ensures Digits(m, width) == Digits(n, width) <==> m == n
  {
    DigitsValue(m, width);
    DigitsValue(n, width);
  }

  lemma {:induction false} DigitsOrder(m: nat, n: nat, width: nat)
    requires width >= 1 && m < Pow10(width) && n < Pow10(width)
    ensures LexLess(Digits(m, width), Digits(n, width)) <==> m < n
    decreases width
  {
    if width == 1 {
      assert Pow10(1) == 10;
      LastDigitOrder("", "", m, n);
      assert "" + [DigitChar(m)] == [DigitChar(m)] && "" + [DigitChar(n)] == [DigitChar(n)];
    } else {
      DigitsOrder(m / 10, n / 10, width - 1);
      DigitsLength(m / 10, width - 1);
      DigitsLength(n / 10, width - 1);
      DigitsInjective(m / 10, n / 10, width - 1);
      LastDigitOrder(Digits(m / 10, width - 1), Digits(n / 10, width - 1), m % 10, n % 10);
      hide LexLess, DigitChar;
    }
  }

  lemma Pow10Values()
    ensures Pow10(2) == 100 && Pow10(3) == 1000 && Pow10(4) == 10000
  {
    assert Pow10(1) == 10;
    assert Pow10(2) == 100;
  }

  // ---- Round trips -----------------------------------------------------------

  predicate FourPlaces(year: int) { -999 <= year <= 9999 }

  lemma ParsePadInt(n: int, width: nat)
    ensures ParseInt(PadInt(n, width)) == Some(n)
  {
    if n >= 0 {
      DigitsValue(n, width);
      var text := Digits(n, width);
      hide Digits, Value;
      assert IsDigit(text[0]);
    } else {
      var w := if width > 0 then width - 1 else 0;
      DigitsValue(-n, w);
      hide Digits, Value;
      assert PadInt(n, width)[1..] == Digits(-n, w);
    }
  }

  lemma PadIntLength(n: int)
    ensures |PadInt(n, 4)| >= 4
    ensures |PadInt(n, 4)| == 4 <==> FourPlaces(n)
    ensures 0 <= n < 100 ==> |PadInt(n, 2)| == 2
  {
    Pow10Values();
    if n >= 0 {
      DigitsLength(n, 4);
      DigitsLength(n, 2);
    } else {
      DigitsLength(-n, 3);
    }
  }

  lemma ParseDateText(date: Date)
    requires IsValid(date)
    ensures ParseDate(DateText(date)) == if FourPlaces(date.year) then Some(date) else None
  {
    PadIntLength(date.year);
    PadIntLength(date.month);
    PadIntLength(date.day);
    ParsePadInt(date.year, 4);
    ParsePadInt(date.month, 2);
    ParsePadInt(date.day, 2);
    hide PadInt, ParseInt;
    if FourPlaces(date.year) {
      FieldsOfText(PadInt(date.year, 4), PadInt(date.month, 2), PadInt(date.day, 2));
    }
  }

  lemma FieldsOfText(y: string, m: string, d: string)
    requires |y| == 4 && |m| == 2 && |d| == 2
    ensures var s := y + "-" + m + "-" + d;
            && |s| == 10 && s[4] == '-' && s[7] == '-'
            && s[0..4] == y && s[5..7] == m && s[8..10] == d
  {
  }

  /** `parse_day(format_day(d)) == Some(d)` exactly when the year fits in four places. */
  lemma ParseFormatDay(epochDay: int)
    ensures ParseDay(FormatDay(epochDay)) ==
            if FourPlaces(DateOfDay(epochDay).year) then Some(epochDay) else None
  {
    DateOfDayIsValid(epochDay);
    DayOfDateOfDay(epochDay);
    ParseDateText(DateOfDay(epochDay));
    hide DateOfDay, DayOfDate, DateText, ParseDate;
  }

  /** No explicit plus sign and no negative zero year. */
  predicate Canonical(s: string)
    requires |s| == 10
  {
    s[0] != '+' && s[5] != '+' && s[8] != '+' && s[0..4] != "-000"
  }

  lemma DigitsStart(n: nat, width: nat)
    ensures |Digits(n, width)| >= 1 && IsDigit(Digits(n, width)[0])
  {
    DigitsValue(n, width);
  }

  lemma PadParsedInt(s: string, n: int)
    requires |s| >= 2 && ParseInt(s) == Some(n)
    ensures PadInt(n, |s|) == s <==> s[0] != '+' && !(s[0] == '-' && n == 0)
  {
    var digits := if s[0] == '-' || s[0] == '+' then s[1..] else s;
    assert AllDigits(digits) && digits != "" && (if s[0] == '-' then -n else n) == Value(digits);
    hide ParseInt, ParseNat;
    ValueDigits(digits);
    DigitsStart(Value(digits), |s|);
    hide Digits, Value, AllDigits;
    if s[0] == '-' {
      assert s == "-" + digits;
    }
  }

  lemma DateTextParse(s: string)
    requires ParseDate(s).Some?
    ensures IsValid(ParseDate(s).value)
    ensures DateText(ParseDate(s).value) == s <==> Canonical(s)
  {
    var date := ParseDate(s).value;
    var (sy, sm, sd) := (s[0..4], s[5..7], s[8..10]);
    assert ParseInt(sy) == Some(date.year) && ParseInt(sm) == Some(date.month) && ParseInt(sd) == Some(date.day);
    assert IsValid(date);
    assert s == sy + "-" + sm + "-" + sd;
    hide ParseDate, ParseInt, DaysInMonth;
    PadParsedInt(sy, date.year);
    PadParsedInt(sm, date.month);
    PadParsedInt(sd, date.day);
    NegativeZero(sy, date.year);
    YearFits(sy, date.year);
    PadIntLength(date.year);
    PadIntLength(date.month);
    PadIntLength(date.day);
    hide PadInt;
    ThreeFieldsEqual(PadInt(date.year, 4), PadInt(date.month, 2), PadInt(date.day, 2), sy, sm, sd);
  }

  lemma ThreeFieldsEqual(y: string, m: string, d: string, y': string, m': string, d': string)
    requires |y| == |y'| == 4 && |m| == |m'| == 2 && |d| == |d'| == 2
    ensures y + "-" + m + "-" + d == y' + "-" + m' + "-" + d' <==> y == y' && m == m' && d == d'
  {
    FieldsOfText(y, m, d);
    FieldsOfText(y', m', d');
  }

  lemma ThreeZeros()
    ensures AllDigits("000") && Value("000") == 0 && Digits(0, 3) == "000"
  {
    assert Digits(0, 2) == Digits(0, 1) + "0" && Digits(0, 3) == Digits(0, 2) + "0";
    ValueDigits("000");
    DigitsValue(0, 3);
  }

  lemma NegativeZero(s: string, n: int)
    requires |s| == 4 && ParseInt(s) == Some(n)
    ensures (s[0] == '-' && n == 0) <==> s == "-000"
  {
    ThreeZeros();
    hide Digits, Value;
    if s[0] == '-' {
      ValueDigits(s[1..]);
      assert s == "-" + s[1..];
      assert "-000"[1..] == "000";
    }
  }

  lemma YearFits(s: string, n: int)
    requires |s| == 4 && ParseInt(s) == Some(n)
    ensures FourPlaces(n)
  {
    Pow10Values();
    ValueDigits(if s[0] == '-' || s[0] == '+' then s[1..] else s);
  }

  /** `format_day(parse_day(s)) == s` exactly for text without a plus sign or a negative zero. */
  lemma FormatParseDay(s: string)
    requires ParseDay(s).Some?
    ensures FormatDay(ParseDay(s).value) == s <==> Canonical(s)
  {
    DateTextParse(s);
    DateOfDayOfDate(ParseDate(s).value);
    hide DateOfDay, DayOfDate, DateText, ParseDate;
  }

  /** A plus sign is accepted and then lost, so formatting does not restore every accepted text. */
  lemma PlusSignIsLost()
    ensures ParseDay("1970-+1-01") == Some(0)
    ensures FormatDay(0) != "1970-+1-01"
  {
    var s := "1970-+1-01";
    assert s[0..4] == "1970" && s[5..7] == "+1" && s[8..10] == "01";
    ParseSmallInts();
    assert ParseDate(s) == Some(Date(1970, 1, 1)) by { hide ParseInt; }
    EpochDate();
    DayOfDateOfDay(0);
    FormatParseDay(s);
    assert s[5] == '+';
    hide DateOfDay, DayOfDate, ParseDate, DateText;
  }

  lemma ValueOfAppend(s: string, c: char)
    requires AllDigits(s) && IsDigit(c)
    ensures AllDigits(s + [c]) && Value(s + [c]) == Value(s) * 10 + DigitValue(c)
  {
    assert (s + [c])[..|s|] == s;
  }

  lemma ParseSmallInts()
    ensures ParseInt("1970") == Some(1970) && ParseInt("+1") == Some(1) && ParseInt("01") == Some(1)
  {
    ValueOfAppend("", '0');
    ValueOfAppend("", '1');
    ValueOfAppend("0", '1');
    ValueOfAppend("1", '9');
    ValueOfAppend("19", '7');
    ValueOfAppend("197", '0');
    assert "" + ['0'] == "0" && "" + ['1'] == "1" && "0" + ['1'] == "01";
    assert "1" + ['9'] == "19" && "19" + ['7'] == "197" && "197" + ['0'] == "1970";
    assert "+1"[1..] == "1";
    hide Value;
  }

  // ---- Text order is day order -------------------------------------------------

  /** 0000-01-01 and 9999-12-31. */
  const FIRST_DAY := -719_528
  const LAST_DAY := 2_932_896

  predicate FourDigits(epochDay: int) { FIRST_DAY <= epochDay <= LAST_DAY }

  /** These are the days of the years 0 to 9999. */
  lemma FourDigitsMeansYear(epochDay: int)
    ensures FourDigits(epochDay) <==> 0 <= DateOfDay(epochDay).year <= 9999
    ensures epochDay < FIRST_DAY <==> DateOfDay(epochDay).year < 0
  {
    var (first, last) := (Date(0, 1, 1), Date(9999, 12, 31));
    assert DayOfDate(first) == FIRST_DAY && DayOfDate(last) == LAST_DAY;
    hide DateOfDay, DayOfDate;
    DateOfDayOfDate(first);
    DateOfDayOfDate(last);
    DateOfDayIsValid(epochDay);
    DateOfDayOrder(epochDay, FIRST_DAY);
    DateOfDayOrder(LAST_DAY, epochDay);
  }

  lemma DateTextOrder(a: Date, b: Date)
    requires IsValid(a) && IsValid(b)
    requires 0 <= a.year <= 9999 && 0 <= b.year <= 9999
    ensures LexLess(DateText(a), DateText(b)) <==> Before(a, b)
  {
    Pow10Values();
    DigitsOrder(a.year, b.year, 4);
    DigitsOrder(a.month, b.month, 2);
    DigitsOrder(a.day, b.day, 2);
    DigitsLength(a.year, 4);
    DigitsLength(b.year, 4);
    DigitsLength(a.month, 2);
    DigitsLength(b.month, 2);
    DigitsInjective(a.year, b.year, 4);
    DigitsInjective(a.month, b.month, 2);
    hide Digits, LexLess;
    ThreeFieldsOrder(Digits(a.year, 4), Digits(a.month, 2), Digits(a.day, 2),
                     Digits(b.year, 4), Digits(b.month, 2), Digits(b.day, 2));
  }

  lemma ThreeFieldsOrder(y: string, m: string, d: string, y': string, m': string, d': string)
    requires |y| == |y'| && |m| == |m'|
    ensures LexLess(y + "-" + m + "-" + d, y' + "-" + m' + "-" + d') <==>
            LexLess(y, y') || (y == y' && (LexLess(m, m') || (m == m' && LexLess(d, d'))))
  {
    assert y + "-" + m + "-" + d == (y + "-") + ((m + "-") + d);
    assert y' + "-" + m' + "-" + d' == (y' + "-") + ((m' + "-") + d');
    LexLessConcat(y + "-", y' + "-", (m + "-") + d, (m' + "-") + d');
    LexLessConcat(m + "-", m' + "-", d, d');
    DashedOrder(y, y');
    DashedOrder(m, m');
  }

  lemma DashedOrder(a: string, b: string)
    requires |a| == |b|
    ensures LexLess(a + "-", b + "-") <==> LexLess(a, b)
    ensures a + "-" == b + "-" <==> a == b
  {
    LexLessConcat(a, b, "-", "-");
    assert (a + "-")[..|a|] == a && (b + "-")[..|b|] == b;
  }

  /** In years 0..9999 comparing the texts compares the days. */
  lemma FormatDayOrder(a: int, b: int)
    requires FourDigits(a) && FourDigits(b)
    ensures LexLess(FormatDay(a), FormatDay(b)) <==> a < b
    ensures FormatDay(a) == FormatDay(b) <==> a == b
  {
    hide DateOfDay, DateText, ParseDay;
    FourDigitsMeansYear(a);
    FourDigitsMeansYear(b);
    DateOfDayIsValid(a);
    DateOfDayIsValid(b);
    DateOfDayOrder(a, b);
    DateTextOrder(DateOfDay(a), DateOfDay(b));
    ParseFormatDay(a);
    ParseFormatDay(b);
  }

  // ---- Years of more than four digits, and negative ones ----------------------------------

  /** The number formed by the first four digits. */
  function FirstFour(n: nat): nat { if n < 10000 then n else FirstFour(n / 10) }

  lemma {:induction false} DigitsUnpadded(n: nat, width: nat)
    requires width >= 1 && n >= Pow10(width - 1)
    ensures Digits(n, width) == Digits(n, 0)
    decreases width
  {
    if width > 1 {
      DigitsUnpadded(n / 10, width - 1);
    }
  }

  lemma {:induction false} LeadingFour(n: nat)
    requires n >= 1000
    ensures var s := Digits(n, 0);
            && |s| >= 4 && s[..4] == Digits(FirstFour(n), 4) && 1000 <= FirstFour(n) < 10000
            && (|s| == 4 <==> n < 10000) && (n >= 10000 ==> IsDigit(s[4]))
  {
    Pow10Values();
    if n < 10000 {
      DigitsUnpadded(n, 4);
      DigitsLength(n, 4);
    } else {
      LeadingFour(n / 10);
      var t := Digits(n / 10, 0);
      assert Digits(n, 0) == t + [DigitChar(n % 10)];
    }
  }

  lemma LongYearText(date: Date)
    requires IsValid(date) && date.year >= 10000
    ensures var s := DateText(date);
            |s| > 4 && s[..4] == Digits(FirstFour(date.year), 4) && IsDigit(s[4]) && FirstFour(date.year) < 10000
  {
    Pow10Values();
    DigitsUnpadded(date.year, 4);
    LeadingFour(date.year);
    hide Digits, FirstFour;
    var y := Digits(date.year, 4);
    assert DateText(date)[..|y|] == y;
    assert DateText(date)[..4] == y[..4] && DateText(date)[4] == y[4];
  }

  lemma ShortYearText(date: Date)
    requires IsValid(date) && 0 <= date.year <= 9999
    ensures var s := DateText(date); |s| > 4 && s[..4] == Digits(date.year, 4) && s[4] == '-'
  {
    Pow10Values();
    DigitsLength(date.year, 4);
    hide Digits;
  }

  /** Against a longer year only its first four digits count, and a tie goes to the shorter one. */
  lemma LongYearOrder(a: Date, b: Date)
    requires IsValid(a) && IsValid(b) && 0 <= a.year <= 9999 && b.year >= 10000
    ensures LexLess(DateText(a), DateText(b)) <==> a.year <= FirstFour(b.year)
    ensures LexLess(DateText(b), DateText(a)) <==> FirstFour(b.year) < a.year
  {
    ShortYearText(a);
    LongYearText(b);
    Pow10Values();
    DigitsOrder(a.year, FirstFour(b.year), 4);
    DigitsOrder(FirstFour(b.year), a.year, 4);
    DigitsInjective(a.year, FirstFour(b.year), 4);
    hide DateText, Digits, FirstFour;
    var (s, t) := (DateText(a), DateText(b));
    assert s == s[..4] + s[4..] && t == t[..4] + t[4..];
    LexLessConcat(s[..4], t[..4], s[4..], t[4..]);
    LexLessConcat(t[..4], s[..4], t[4..], s[4..]);
    assert s[4..][0] == '-' && IsDigit(t[4..][0]);
  }

  /** A minus sign sorts before every digit. */
  lemma NegativeYearOrder(a: Date, b: Date)
    requires IsValid(a) && IsValid(b) && 0 <= a.year && b.year < 0
    ensures LexLess(DateText(b), DateText(a)) && !LexLess(DateText(a), DateText(b))
  {
    DigitsStart(a.year, 4);
    hide Digits;
    assert DateText(b)[0] == '-' && IsDigit(DateText(a)[0]);
  }

  /** When the text of a day of years 0 to 9999 sorts before that of any other day. */
  predicate TextBefore(a: int, b: int) {
    var year := DateOfDay(b).year;
    if year < 0 then false
    else if year <= 9999 then a < b
    else DateOfDay(a).year <= FirstFour(year)
  }

  /** Comparing the texts of a day of years 0 to 9999 and of any day at all. */
  lemma FormatDayOrderAny(a: int, b: int)
    requires FourDigits(a)
    ensures LexLess(FormatDay(a), FormatDay(b)) <==> TextBefore(a, b)
    ensures LexLess(FormatDay(b), FormatDay(a)) <==> a != b && !TextBefore(a, b)
  {
    hide DateOfDay, DateText, FirstFour, LexLess;
    FourDigitsMeansYear(a);
    FourDigitsMeansYear(b);
    DateOfDayIsValid(a);
    DateOfDayIsValid(b);
    if DateOfDay(b).year < 0 {
      NegativeYearOrder(DateOfDay(a), DateOfDay(b));
    } else if DateOfDay(b).year > 9999 {
      LongYearOrder(DateOfDay(a), DateOfDay(b));
    } else {
      hide FormatDay;
      FormatDayOrder(a, b);
      FormatDayOrder(b, a);
    }
  }

  /** Text order is day order exactly when the other year has at most four digits, or its first four
      digits are not below this one. */
  lemma TextOrderIsDayOrder(a: int, b: int)
    requires FourDigits(a)
    ensures (LexLess(FormatDay(a), FormatDay(b)) <==> a < b) <==>
            DateOfDay(b).year <= 9999 || DateOfDay(a).year <= FirstFour(DateOfDay(b).year)
  {
    hide FormatDay, DateOfDay, FirstFour, LexLess;
    FormatDayOrderAny(a, b);
    FourDigitsMeansYear(a);
    DateOfDayOrder(a, b);
    DateOfDayOrder(b, a);
  }

  /** The year of an accepted text fits in four places. */
  lemma ParsedYearFits(s: string)
    requires ParseDay(s).Some?
    ensures FourPlaces(DateOfDay(ParseDay(s).value).year)
  {
    var date := ParseDate(s).value;
    DateTextParse(s);
    assert ParseInt(s[0..4]) == Some(date.year);
    hide ParseDate, ParseInt, DateOfDay, DayOfDate;
    YearFits(s[0..4], date.year);
    DateOfDayOfDate(date);
  }
}
