/** Moving the calendar one month back or forward. */
module Navigation {
  import opened Dates

  /** The month on show: a year and a month index from 0 (January) to 11. */
  datatype YearMonth = YearMonth(year: int, month: int)

  predicate ValidMonth(ym: YearMonth) {
    0 <= ym.month < 12
  }

  /** Months counted from January of year 0: consecutive months differ by one. */
  function MonthIndex(ym: YearMonth): int {
    12 * ym.year + ym.month
  }

  /** The previous month, wrapping from January back to December of the year before. */
  function Prev(ym: YearMonth): (r: YearMonth)
    requires ValidMonth(ym)
    ensures ValidMonth(r) && MonthIndex(r) == MonthIndex(ym) - 1
  {
    if ym.month == 0 then YearMonth(ym.year - 1, 11) else YearMonth(ym.year, ym.month - 1)
  }

  /** The next month, wrapping from December on to January of the year after. */
  function Next(ym: YearMonth): (r: YearMonth)
    requires ValidMonth(ym)
    ensures ValidMonth(r) && MonthIndex(r) == MonthIndex(ym) + 1
  {
    if ym.month == 11 then YearMonth(ym.year + 1, 0) else YearMonth(ym.year, ym.month + 1)
  }

  /** A valid month is determined by its index. */
  lemma MonthIndexInjective(a: YearMonth, b: YearMonth)
    requires ValidMonth(a) && ValidMonth(b) && MonthIndex(a) == MonthIndex(b)
    ensures a == b
  {
  }

  /** Prev from January lands in December of the year before, Next from
      December in January of the year after; otherwise only the month moves, by one. */
  lemma Rollover(ym: YearMonth)
    requires ValidMonth(ym)
    ensures ym.month == 0 ==> Prev(ym) == YearMonth(ym.year - 1, 11)
    ensures ym.month > 0 ==> Prev(ym) == YearMonth(ym.year, ym.month - 1)
    ensures ym.month == 11 ==> Next(ym) == YearMonth(ym.year + 1, 0)
    ensures ym.month < 11 ==> Next(ym) == YearMonth(ym.year, ym.month + 1)
  {
  }

  /** Going back and then forward, or forward and then back, returns to the same month. */
  lemma PrevNextInverse(ym: YearMonth)
    requires ValidMonth(ym)
    ensures Next(Prev(ym)) == ym && Prev(Next(ym)) == ym
  {
    MonthIndexInjective(Next(Prev(ym)), ym);
    MonthIndexInjective(Prev(Next(ym)), ym);
  }

  /** `date.setMonth(target)` as the page calls it on its current date: the
      year and month are moved to the target month index (any integer, counted
      from the date's year), the day of the month is kept, and a day past the
      end of the target month runs on into the month after. */
  function SetMonth(dt: Date, target: int): (r: Date)
    requires ValidDate(dt)
    ensures ValidDate(r)
    ensures DayNumber(r.year, r.month, r.day)
         == DayNumber(dt.year + target / 12, target % 12, 1) + dt.day - 1
  {
    var y, m := dt.year + target / 12, target % 12;
    var n := DaysInMonth(y, m);
    if dt.day <= n then Date(y, m, dt.day)
    else
      var nx := Next(YearMonth(y, m));
      FirstOfNextMonth(y, m);
      Rollover(YearMonth(y, m));
      Date(nx.year, nx.month, dt.day - n)
  }

  /** setMonth lands in the target month exactly when the kept day exists there. */
  lemma SetMonthLandsIff(dt: Date, target: int)
    requires ValidDate(dt)
    ensures var r := SetMonth(dt, target);
      (r.year == dt.year + target / 12 && r.month == target % 12) <==> dt.day <= DaysInMonth(dt.year + target / 12, target % 12)
  {
    var y, m := dt.year + target / 12, target % 12;
    if dt.day > DaysInMonth(y, m) {
      Rollover(YearMonth(y, m));
    }
  }

  /** The month the prev button shows, as written: on 31 March 2025 it
      shows March again, because "31 February" runs on to 3 March. */
  lemma PrevFromMarch31StaysInMarch()
    ensures SetMonth(Date(2025, 2, 31), 2 - 1) == Date(2025, 2, 3)
  {
    assert !IsLeapYear(2025);
    assert DaysInMonth(2025, 1) == 28;
  }

  /** The month the next button shows, as written: on 31 January 2025 it
      skips February and shows March. */
  lemma NextFromJanuary31SkipsFebruary()
    ensures SetMonth(Date(2025, 0, 31), 0 + 1) == Date(2025, 2, 3)
  {
    assert !IsLeapYear(2025);
    assert DaysInMonth(2025, 1) == 28;
  }

  /** On a day that every month has, setMonth moves exactly as Prev and Next do. */
  lemma SetMonthAgreesWithPrevNext(dt: Date)
    requires ValidDate(dt) && dt.day <= 28
    ensures var p := SetMonth(dt, dt.month - 1);
      YearMonth(p.year, p.month) == Prev(YearMonth(dt.year, dt.month)) && p.day == dt.day
    ensures var n := SetMonth(dt, dt.month + 1);
      YearMonth(n.year, n.month) == Next(YearMonth(dt.year, dt.month)) && n.day == dt.day
  {
    var ym := YearMonth(dt.year, dt.month);
    Rollover(ym);
    if dt.month == 0 {
      assert (dt.month - 1) / 12 == -1 && (dt.month - 1) % 12 == 11;
    } else {
      assert (dt.month - 1) / 12 == 0 && (dt.month - 1) % 12 == dt.month - 1;
    }
    if dt.month == 11 {
      assert (dt.month + 1) / 12 == 1 && (dt.month + 1) % 12 == 0;
    } else {
      assert (dt.month + 1) / 12 == 0 && (dt.month + 1) % 12 == dt.month + 1;
    }
  }
}
