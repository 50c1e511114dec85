/** The proleptic Gregorian calendar as JavaScript's Date object computes
    it, and the `year-MM-DD` key the calendar page gives every selectable day. */
module Dates {
  import opened Strings

  /** A calendar date as the Date getters report it: the full year, the
      month index from 0 (January) to 11, and the day of the month from 1. */
  datatype Date = Date(year: int, month: int, day: int)

  predicate IsLeapYear(y: int) {
    y % 4 == 0 && (y % 100 != 0 || y % 400 == 0)
  }

  function DaysInYear(y: int): int {
    if IsLeapYear(y) then 366 else 365
  }

  function DaysInMonth(y: int, m: int): (n: int)
    requires 0 <= m < 12
    ensures 28 <= n <= 31
    ensures n == 29 <==> m == 1 && IsLeapYear(y)
  {
    if m == 1 then (if IsLeapYear(y) then 29 else 28)
    else if m == 3 || m == 5 || m == 8 || m == 10 then 30
    else 31
  }

  predicate ValidDate(d: Date) {
    0 <= d.month < 12 && 1 <= d.day <= DaysInMonth(d.year, d.month)
  }

  /** `new Date(y, m, d)` reads a year from 0 to 99 as 1900 + y. */
  function JsYear(y: int): int {
    if 0 <= y <= 99 then 1900 + y else y
  }

  /** Leap years in [0, y) for y >= 0; for y < 0, minus the leap years in [y, 0). */
  function LeapYearsBefore(y: int): int {
    (y + 3) / 4 - (y + 99) / 100 + (y + 399) / 400
  }

  /** Days from 1 January of year 0 to 1 January of year y. */
  function DaysBeforeYear(y: int): int {
    365 * y + LeapYearsBefore(y)
  }

  /** Days from 1 January of year y to the first of month m (m == 12: the whole year). */
  function DaysBeforeMonth(y: int, m: int): (n: int)
    requires 0 <= m <= 12
    ensures m == 12 ==> n == DaysInYear(y)
  {
    (if m == 0 then 0 else if m == 1 then 31 else if m == 2 then 59
     else if m == 3 then 90 else if m == 4 then 120 else if m == 5 then 151
     else if m == 6 then 181 else if m == 7 then 212 else if m == 8 then 243
     else if m == 9 then 273 else if m == 10 then 304 else if m == 11 then 334
     else 365)
    + (if m >= 2 && IsLeapYear(y) then 1 else 0)
  }

  /** Days from 1 January of year 0 to the given day: the day part of a Date time value. */
  function DayNumber(y: int, m: int, d: int): int
    requires 0 <= m < 12
  {
    DaysBeforeYear(y) + DaysBeforeMonth(y, m) + d - 1
  }

  /** Day number of 1 January 1970, the origin of Date time values. */
  const Epoch: int := 719528

  /** `getDay()`: 0 for Sunday to 6 for Saturday. Counted, as ECMAScript's
      WeekDay(t) = (Day(t) + 4) mod 7 is, from 1 January 1970, a Thursday. */
  function Weekday(y: int, m: int, d: int): (w: int)
    requires 0 <= m < 12
    ensures 0 <= w < 7
    ensures w == (DayNumber(y, m, d) - DayNumber(1970, 0, 1) + 4) % 7
  {
    assert DayNumber(1970, 0, 1) == Epoch;
    EpochShift(DayNumber(y, m, d));
    (DayNumber(y, m, d) + 6) % 7
  }

  /** Counting weekdays from year 0 or from 1970 agrees: the two counts differ
      by a whole number of weeks. */
  lemma EpochShift(n: int)
    ensures (n + 6) % 7 == (n - Epoch + 4) % 7
  {
    var k := n - Epoch + 4;
    assert n + 6 == k + 7 * 102790;
    ModShift(k, 7 * 102790);
    ModShift(7 * 102790, k % 7);
  }

  /** 1 January 1970, the origin of time values, was a Thursday. */
  lemma EpochIsThursday()
    ensures Weekday(1970, 0, 1) == 4
  {
    assert DayNumber(1970, 0, 1) == Epoch;
  }

  /** 1 January 2024 was a Monday. */
  lemma NewYear2024IsMonday()
    ensures Weekday(2024, 0, 1) == 1
  {
    assert LeapYearsBefore(2024) == 491;
    assert DayNumber(2024, 0, 1) == 739251;
  }

  /** 1 March 2025 was a Saturday: that month's grid starts in the last column. */
  lemma March2025StartsOnSaturday()
    ensures Weekday(2025, 2, 1) == 6
  {
    assert LeapYearsBefore(2025) == 492;
    assert DayNumber(2025, 2, 1) == 739676;
  }

  /** Lexicographic order of calendar dates. */
  predicate Before(a: Date, b: Date) {
    a.year < b.year
    || (a.year == b.year && a.month < b.month)
    || (a.year == b.year && a.month == b.month && a.day < b.day)
  }

  /** The key a day cell carries: `year + '-' + pad2(month + 1) + '-' + pad2(day)`. */
  function DateKey(y: int, m: nat, d: nat): string {
    IntToString(y) + "-" + Pad2(m + 1) + "-" + Pad2(d)
  }

  /** Reads a key back: the year before the last six characters, then "-MM-DD". */
  function ParseDateKey(s: string): Option<Date> {
    if |s| >= 7 && s[|s| - 6] == '-' && s[|s| - 3] == '-'
       && AllDigits(s[|s| - 5..|s| - 3]) && AllDigits(s[|s| - 2..])
    then
      match ParseInt(s[..|s| - 6])
      case Some(y) => Some(Date(y, ParseNat(s[|s| - 5..|s| - 3]) - 1, ParseNat(s[|s| - 2..])))
      case None => None
    else None
  }

  /** `toISOString().slice(0, 10)` of a (UTC) date: a four-digit year for
      years 0 to 9999, otherwise a signed six-digit year, cut to ten characters. */
  function IsoDayKey(dt: Date): string
    requires 0 <= dt.month && 0 <= dt.day
  {
    var full := IsoYear(dt.year) + "-" + Pad2(dt.month + 1) + "-" + Pad2(dt.day);
    if |full| >= 10 then full[..10] else full
  }

  /** The year field of an ISO 8601 date-time string. */
  function IsoYear(y: int): string {
    if 0 <= y <= 9999 then PadStart(NatToString(y), 4)
    else if y < 0 then "-" + PadStart(NatToString(-y), 6)
    else "+" + PadStart(NatToString(y), 6)
  }

  lemma DaysBeforeMonthStep(y: int, m: int)
    requires 0 <= m < 12
    ensures DaysBeforeMonth(y, m) + DaysInMonth(y, m) == DaysBeforeMonth(y, m + 1)
  {
  }

  lemma LeapYearsStep(y: int)
    ensures LeapYearsBefore(y + 1) == LeapYearsBefore(y) + (if IsLeapYear(y) then 1 else 0)
  {
    QuarterStep(y);
    CenturyStep(y);
    QuadCenturyStep(y);
    if y % 400 == 0 {
      CenturyOf400(y);
    }
    if y % 100 == 0 {
      QuarterOf100(y);
    }
  }

  /** A multiple of 400 is a multiple of 100. */
  lemma CenturyOf400(y: int)
    requires y % 400 == 0
    ensures y % 100 == 0
  {
    var k := y / 400;
    assert y == 400 * k;
    assert y / 100 == 4 * k;
  }

  /** A multiple of 100 is a multiple of 4. */
  lemma QuarterOf100(y: int)
    requires y % 100 == 0
    ensures y % 4 == 0
  {
    var k := y / 100;
    assert y == 100 * k;
    assert y / 4 == 25 * k;
  }

  /** One more year passes a multiple of 4 exactly when y is one. */
  lemma QuarterStep(y: int)
    ensures (y + 4) / 4 - (y + 3) / 4 == if y % 4 == 0 then 1 else 0
  {
  }

  lemma CenturyStep(y: int)
    ensures (y + 100) / 100 - (y + 99) / 100 == if y % 100 == 0 then 1 else 0
  {
  }

  lemma QuadCenturyStep(y: int)
    ensures (y + 400) / 400 - (y + 399) / 400 == if y % 400 == 0 then 1 else 0
  {
  }

  lemma DaysBeforeNextYear(y: int)
    ensures DaysBeforeYear(y + 1) == DaysBeforeYear(y) + DaysInYear(y)
  {
    LeapYearsStep(y);
  }

  /** The first of the following month comes DaysInMonth days after the first of this one. */
  lemma FirstOfNextMonth(y: int, m: int)
    requires 0 <= m < 12
    ensures DayNumber(y, m, 1) + DaysInMonth(y, m)
            == if m < 11 then DayNumber(y, m + 1, 1) else DayNumber(y + 1, 0, 1)
  {
    DaysBeforeMonthStep(y, m);
    if m == 11 {
      DaysBeforeNextYear(y);
    }
  }

  /** So the weekday of the next month's first is this month's shifted by its length. */
  lemma WeekdayOfNextFirst(y: int, m: int)
    requires 0 <= m < 12
    ensures (if m < 11 then Weekday(y, m + 1, 1) else Weekday(y + 1, 0, 1))
            == (Weekday(y, m, 1) + DaysInMonth(y, m)) % 7
  {
    FirstOfNextMonth(y, m);
    ModShift(DayNumber(y, m, 1) + 6, DaysInMonth(y, m));
  }

  lemma ModShift(a: int, b: int)
    ensures (a + b) % 7 == (a % 7 + b) % 7
  {
    var q := a / 7;
    assert a == 7 * q + a % 7;
    assert (a + b) == 7 * q + (a % 7 + b);
  }

  lemma {:induction false} DaysBeforeYearGrows(a: int, b: int)
    requires a <= b
    ensures DaysBeforeYear(a) + 365 * (b - a) <= DaysBeforeYear(b)
    decreases b - a
  {
    if a < b {
      DaysBeforeYearGrows(a, b - 1);
      DaysBeforeNextYear(b - 1);
    }
  }

  /** A valid date's day number lies inside its own year. */
  lemma DayNumberInYear(dt: Date)
    requires ValidDate(dt)
    ensures DaysBeforeYear(dt.year) <= DayNumber(dt.year, dt.month, dt.day) < DaysBeforeYear(dt.year + 1)
  {
    DaysBeforeNextYear(dt.year);
    DaysBeforeMonthStep(dt.year, dt.month);
    assert DaysBeforeMonth(dt.year, dt.month + 1) <= DaysBeforeMonth(dt.year, 12);
  }

  /** Comparing Date time values of valid dates is comparing the calendar dates. */
  lemma DayNumberOrder(a: Date, b: Date)
    requires ValidDate(a) && ValidDate(b)
    ensures DayNumber(a.year, a.month, a.day) < DayNumber(b.year, b.month, b.day) <==> Before(a, b)
  {
    if a.year != b.year {
      var (p, q) := if a.year < b.year then (a, b) else (b, a);
      DayNumberInYear(p);
      DayNumberInYear(q);
      DaysBeforeYearGrows(p.year + 1, q.year);
    } else {
      SameYearOrder(a, b);
    }
  }

  lemma SameYearOrder(a: Date, b: Date)
    requires ValidDate(a) && ValidDate(b) && a.year == b.year
    ensures DayNumber(a.year, a.month, a.day) < DayNumber(b.year, b.month, b.day) <==> Before(a, b)
  {
    var y := a.year;
    if a.month < b.month {
      DaysBeforeMonthStep(y, a.month);
      assert DaysBeforeMonth(y, a.month + 1) <= DaysBeforeMonth(y, b.month);
    } else if b.month < a.month {
      DaysBeforeMonthStep(y, b.month);
      assert DaysBeforeMonth(y, b.month + 1) <= DaysBeforeMonth(y, a.month);
    }
  }

  /** Where the three fields of a key sit, counted from its end. */
  lemma {:induction false} KeySlices(a: string, b: string, c: string)
    requires |a| >= 1 && |b| == 2 && |c| == 2
    ensures var s := a + "-" + b + "-" + c;
      && |s| >= 7 && s[|s| - 6] == '-' && s[|s| - 3] == '-'
      && s[..|s| - 6] == a && s[|s| - 5..|s| - 3] == b && s[|s| - 2..] == c
  {
    var s := a + "-" + b + "-" + c;
    var n := |a|;
    assert |s| == n + 6;
    assert s[n] == '-' && s[n + 3] == '-';
    assert s[..n] == a;
    assert s[n + 1..n + 3] == b;
    assert s[n + 4..] == c;
  }

  /** The reader splits a key at its last two dashes. */
  lemma {:induction false} ParseDateKeySplit(a: string, b: string, c: string, y: int)
    requires |a| >= 1 && |b| == 2 && |c| == 2 && AllDigits(b) && AllDigits(c)
    requires ParseInt(a) == Some(y)
    ensures ParseDateKey(a + "-" + b + "-" + c) == Some(Date(y, ParseNat(b) - 1, ParseNat(c)))
  {
    KeySlices(a, b, c);
  }

  /** Every date key reads back as the date it was made from. */
  lemma {:induction false} ParseDateKeyOfDateKey(y: int, m: nat, d: nat)
    requires m < 99 && d < 100
    ensures ParseDateKey(DateKey(y, m, d)) == Some(Date(y, m, d))
  {
    Pad2Digits(m + 1);
    Pad2Digits(d);
    ParseIntOfIntToString(y);
    ParseDateKeySplit(IntToString(y), Pad2(m + 1), Pad2(d), y);
  }

  /** Distinct days give distinct keys. */
  lemma {:induction false} DateKeyInjective(y1: int, m1: nat, d1: nat, y2: int, m2: nat, d2: nat)
    requires m1 < 99 && d1 < 100 && m2 < 99 && d2 < 100
    requires DateKey(y1, m1, d1) == DateKey(y2, m2, d2)
    ensures y1 == y2 && m1 == m2 && d1 == d2
  {
    ParseDateKeyOfDateKey(y1, m1, d1);
    ParseDateKeyOfDateKey(y2, m2, d2);
  }

  /** Where the three fields of a four-digit-year key sit. */
  lemma {:induction false} KeyFields(a: string, b: string, c: string)
    requires |a| == 4 && |b| == 2 && |c| == 2
    ensures var k := a + "-" + b + "-" + c;
      |k| == 10 && k[4] == '-' && k[7] == '-' && k[..4] == a && k[5..7] == b && k[8..] == c
      && k[..10] == k
  {
  }

  /** For four-digit years the key is the RFC 3339 full-date `YYYY-MM-DD`. */
  lemma {:induction false} DateKeyIsFullDate(dt: Date)
    requires 1000 <= dt.year <= 9999 && ValidDate(dt)
    ensures var k := DateKey(dt.year, dt.month, dt.day);
      && |k| == 10 && k[4] == '-' && k[7] == '-'
      && AllDigits(k[..4]) && AllDigits(k[5..7]) && AllDigits(k[8..])
      && ParseNat(k[..4]) == dt.year
      && ParseNat(k[5..7]) == dt.month + 1 && ParseNat(k[8..]) == dt.day
  {
    NatToStringLength(dt.year);
    ParseNatOfNatToString(dt.year);
    Pad2Digits(dt.month + 1);
    Pad2Digits(dt.day);
    KeyFields(NatToString(dt.year), Pad2(dt.month + 1), Pad2(dt.day));
  }

  lemma {:induction false} FourDigitYear(y: int)
    requires 1000 <= y <= 9999
    ensures |NatToString(y)| == 4 && IsoYear(y) == NatToString(y) && IntToString(y) == NatToString(y)
  {
    NatToStringLength(y);
  }

  /** ... and the same string `toISOString().slice(0, 10)` gives for that day. */
  lemma {:induction false} IsoDayKeyIsDateKey(dt: Date)
    requires 1000 <= dt.year <= 9999 && ValidDate(dt)
    ensures IsoDayKey(dt) == DateKey(dt.year, dt.month, dt.day)
  {
    FourDigitYear(dt.year);
    Pad2Length(dt.month + 1);
    Pad2Length(dt.day);
    IsoDayKeyFields(dt, NatToString(dt.year));
  }

  /** With a four-character year field, `toISOString().slice(0, 10)` keeps
      the whole `YYYY-MM-DD` prefix. */
  lemma {:induction false} IsoDayKeyFields(dt: Date, a: string)
    requires 0 <= dt.month && 0 <= dt.day && 0 <= dt.year <= 9999
    requires IsoYear(dt.year) == a && |a| == 4
    requires |Pad2(dt.month + 1)| == 2 && |Pad2(dt.day)| == 2
    ensures IsoDayKey(dt) == a + "-" + Pad2(dt.month + 1) + "-" + Pad2(dt.day)
  {
    var b, c := Pad2(dt.month + 1), Pad2(dt.day);
    var k := a + "-" + b + "-" + c;
    KeyFields(a, b, c);
    assert IsoYear(dt.year) + "-" + b + "-" + c == k;
  }
}
