/** The month grid of the calendar page: which cell each slot of the table
    holds, and the loops of `generateCalendar` that write them. */
module Grid {
  import opened Dates
  import opened Layout

  /** What one rendering depends on: the year and month index shown, the
      calendar date of the local clock (`new Date()`), and the `today` key. */
  datatype View = View(year: int, month: int, now: Date, todayKey: string)

  predicate ValidView(v: View) {
    0 <= v.month < 12 && ValidDate(v.now)
  }

  /** `new Date(year, month, 1).getDay()`. */
  function FirstDay(v: View): (fd: int)
    requires ValidView(v)
    ensures 0 <= fd < 7
  {
    Weekday(JsYear(v.year), v.month, 1)
  }

  /** `new Date(year, month + 1, 0).getDate()`: the last day of the month. */
  function MonthLength(v: View): (n: int)
    requires ValidView(v)
    ensures 28 <= n <= 31
  {
    DaysInMonth(JsYear(v.year), v.month)
  }

  /** `new Date(year, month, d) > new Date()`: midnight of day d is after the
      current instant exactly when day d comes after the clock's date.
      FutureIsLaterTimeValue shows this is the order of the two time values. */
  predicate IsFuture(v: View, d: int) {
    Before(v.now, Date(JsYear(v.year), v.month, d))
  }

  /** The cell for day d: muted when it is in the future, otherwise clickable
      with its date key, and highlighted when that key is today's. */
  function DayCell(v: View, d: nat): Cell
    requires ValidView(v)
  {
    if IsFuture(v, d) then Future(d)
    else
      var key := DateKey(v.year, v.month, d);
      Day(d, key, key == v.todayKey)
  }

  /** The cells of days 1 to MonthLength, in order. */
  function MonthDays(v: View): (r: seq<Cell>)
    requires ValidView(v)
    ensures |r| == MonthLength(v)
  {
    seq(MonthLength(v), j requires 0 <= j => DayCell(v, j + 1))
  }

  /** The slots of the month on show, in order. */
  function Slots(v: View): seq<Cell>
    requires ValidView(v)
  {
    Pad(FirstDay(v), MonthDays(v))
  }

  /** Slot i of the month holds a blank or the cell of day i - FirstDay + 1. */
  lemma SlotsAt(v: View, i: int)
    requires ValidView(v) && 0 <= i < |Slots(v)|
    ensures Slots(v)[i]
      == if FirstDay(v) <= i < FirstDay(v) + MonthLength(v) then DayCell(v, i - FirstDay(v) + 1) else Blank
  {
    var fd, n := FirstDay(v), MonthLength(v);
    PadAt(fd, MonthDays(v), i);
    if fd <= i < fd + n {
      MonthDaysAt(v, i - fd);
    }
  }

  lemma MonthDaysAt(v: View, j: int)
    requires ValidView(v) && 0 <= j < MonthLength(v)
    ensures MonthDays(v)[j] == DayCell(v, j + 1)
  {
  }

  /** `generateCalendar`: blanks before the 1st, the days with a row break
      whenever the slot counter reaches a new week, then blanks until the
      slot counter is a multiple of 7. One counter `i` runs through all
      three loops; the second and third are EmitDays and EmitTrailingBlanks. */
  method GenerateCalendar(v: View) returns (tokens: seq<Token>)
    requires ValidView(v)
    ensures tokens == Lay(Slots(v))
  {
    var firstDay := FirstDay(v);
    ghost var days := MonthDays(v);
    tokens := [];
    var i := 0;
    while i < firstDay
      invariant 0 <= i <= firstDay
      invariant tokens == LayPrefix(Pad(firstDay, days), i)
    {
      BlankStep(firstDay, days, i, tokens);
      tokens := tokens + [Put(Blank)];
      i := i + 1;
    }
    tokens, i := EmitDays(v, days, tokens, i);
    tokens, i := EmitTrailingBlanks(firstDay, days, tokens, i);
  }

  /** The day loop of `generateCalendar`, continuing the slot counter i from
      the leading blanks, which end at the 1st's weekday i0: one cell per
      day, a row break first when the day opens a new week. */
  method EmitDays(v: View, ghost days: seq<Cell>, tokens0: seq<Token>, i0: nat) returns (tokens: seq<Token>, i: nat)
    requires ValidView(v) && days == MonthDays(v) && i0 < 7
    requires tokens0 == LayPrefix(Pad(i0, days), i0)
    ensures i == i0 + |days| && tokens == LayPrefix(Pad(i0, days), i)
  {
    var daysInMonth := MonthLength(v);
    tokens, i := tokens0, i0;
    var day := 1;
    while day <= daysInMonth
      invariant 1 <= day <= daysInMonth + 1
      invariant i == i0 + day - 1
      invariant tokens == LayPrefix(Pad(i0, days), i)
    {
      tokens := EmitDay(v, days, i0, tokens, i, day);
      i := i + 1;
      day := day + 1;
    }
  }

  /** One pass of the day loop of `generateCalendar` at slot i: a row break
      when the slot opens a week and the day is not the 1st, then the cell. */
  method EmitDay(v: View, ghost days: seq<Cell>, ghost fd: nat, tokens0: seq<Token>, i: nat, day: nat)
    returns (tokens: seq<Token>)
    requires ValidView(v) && days == MonthDays(v) && fd < 7
    requires 1 <= day <= |days| && i == fd + day - 1
    requires tokens0 == LayPrefix(Pad(fd, days), i)
    ensures tokens == LayPrefix(Pad(fd, days), i + 1)
  {
    tokens := tokens0;
    if i % 7 == 0 && day != 1 {
      tokens := tokens + [NewRow];
    }
    var cell := EmitDayCell(v, day);
    MonthDaysAt(v, day - 1);
    DayStep(fd, days, i, day, tokens0, tokens, cell);
    tokens := tokens + [Put(cell)];
  }

  /** The body of the day loop of `generateCalendar`: the date key of the day,
      then a muted cell for a future day, a highlighted cell for today's key,
      a plain clickable cell otherwise. The branches are those of the
      specification function DayCell, whose meaning DayCellKinds states. */
  method EmitDayCell(v: View, day: nat) returns (cell: Cell)
    requires ValidView(v)
    ensures cell == DayCell(v, day)
  {
    var dayString := DateKey(v.year, v.month, day);
    if IsFuture(v, day) {
      cell := Future(day);
    } else if dayString == v.todayKey {
      cell := Day(day, dayString, true);
    } else {
      cell := Day(day, dayString, false);
    }
  }

  /** In the written table, day d directly follows the slots before it,
      preceded by a row break exactly when its slot FirstDay + d - 1 is a
      multiple of 7 and d is not the 1st. */
  lemma RowBreakBeforeDay(v: View, d: int)
    requires ValidView(v) && 1 <= d <= MonthLength(v)
    ensures var i := FirstDay(v) + d - 1;
      LayPrefix(Slots(v), i + 1)
      == LayPrefix(Slots(v), i) + (if i % 7 == 0 && d != 1 then [NewRow] else []) + [Put(DayCell(v, d))]
  {
    var i, fd, days := FirstDay(v) + d - 1, FirstDay(v), MonthDays(v);
    var pre := LayPrefix(Pad(fd, days), i);
    MonthDaysAt(v, d - 1);
    DayStep(fd, days, i, d, pre, pre + (if i % 7 == 0 && d != 1 then [NewRow] else []), DayCell(v, d));
  }

  /** The grid is whole weeks: it holds the leading blanks and every day of
      the month, with less than a week of padding after the last day. */
  lemma GridShape(v: View)
    requires ValidView(v)
    ensures var k, n := FirstDay(v) + MonthLength(v), |Slots(v)|;
      n % 7 == 0 && k <= n < k + 7 && 28 <= n <= 42
  {
    RoundUp7Bounds(FirstDay(v) + MonthLength(v));
  }

  /** The table as the page shows it: |Slots| / 7 rows of exactly seven
      cells, row r holding slots 7r to 7r + 6, and no cell lost or added. */
  lemma CalendarRows(v: View)
    requires ValidView(v)
    ensures var cs := Slots(v); var rs := Rows(Lay(cs));
      && |rs| == |cs| / 7
      && (forall r :: 0 <= r < |rs| ==> |rs[r]| == 7 && rs[r] == cs[7 * r .. 7 * r + 7])
      && CellsOf(Lay(cs)) == cs
  {
    GridShape(v);
    WholeWeeks(Slots(v));
  }

  /** Slot i holds a day exactly when it lies within the month's run of
      slots, and then it holds day i - FirstDay + 1; every other slot is blank. */
  lemma SlotContents(v: View, i: int)
    requires ValidView(v) && 0 <= i < |Slots(v)|
    ensures var fd, c := FirstDay(v), Slots(v)[i];
      && (IsDayCell(c) <==> fd <= i < fd + MonthLength(v))
      && (IsDayCell(c) ==> c.day == i - fd + 1 && c == DayCell(v, c.day))
      && (!IsDayCell(c) ==> c == Blank)
  {
    SlotsAt(v, i);
  }

  /** Each day of the month appears in exactly one slot. */
  lemma DayAppearsOnce(v: View, d: int, i: int)
    requires ValidView(v) && 1 <= d <= MonthLength(v) && 0 <= i < |Slots(v)|
    ensures IsDayCell(Slots(v)[i]) && Slots(v)[i].day == d <==> i == FirstDay(v) + d - 1
  {
    GridShape(v);
    SlotContents(v, i);
    SlotContents(v, FirstDay(v) + d - 1);
  }

  /** At most one cell is highlighted: a highlighted cell carries today's
      key, and different days of a month have different keys. */
  lemma AtMostOneSelected(v: View, i: int, j: int)
    requires ValidView(v) && 0 <= i < |Slots(v)| && 0 <= j < |Slots(v)|
    requires IsSelected(Slots(v)[i]) && IsSelected(Slots(v)[j])
    ensures i == j
  {
    SlotContents(v, i);
    SlotContents(v, j);
    var di, dj := Slots(v)[i].day, Slots(v)[j].day;
    assert DateKey(v.year, v.month, di) == v.todayKey == DateKey(v.year, v.month, dj);
    DateKeyInjective(v.year, v.month, di, v.year, v.month, dj);
  }

  /** A day of the month counts as future exactly when its time value (in
      whole days) is greater than the clock's. */
  lemma FutureIsLaterTimeValue(v: View, d: int)
    requires ValidView(v) && 1 <= d <= MonthLength(v)
    ensures IsFuture(v, d)
        <==> DayNumber(JsYear(v.year), v.month, d) > DayNumber(v.now.year, v.now.month, v.now.day)
  {
    DayNumberOrder(v.now, Date(JsYear(v.year), v.month, d));
  }

  /** The cell of day d: it carries d; it is muted exactly when its time value
      is past the clock's; otherwise it carries the day's key and is highlighted
      exactly when that key is today's. */
  lemma DayCellKinds(v: View, d: int)
    requires ValidView(v) && 1 <= d <= MonthLength(v)
    ensures var c := DayCell(v, d);
      && c.day == d
      && (c.Future? <==> DayNumber(JsYear(v.year), v.month, d) > DayNumber(v.now.year, v.now.month, v.now.day))
      && (c.Day? ==> c.date == DateKey(v.year, v.month, d) && (c.selected <==> c.date == v.todayKey))
  {
    FutureIsLaterTimeValue(v, d);
  }

  /** Muted days are the tail of the month: a day after a future day is future too. */
  lemma FutureDaysAreSuffix(v: View, d: int, e: int)
    requires d <= e && IsFuture(v, d)
    ensures IsFuture(v, e)
  {
  }

  /** When today's key is the ISO date of the clock's own date, the cell of
      that day is highlighted if its month is on show, and no other cell
      ever is. */
  lemma TodayHighlighted(v: View, i: int)
    requires ValidView(v) && 0 <= i < |Slots(v)|
    requires 1000 <= v.now.year <= 9999 && v.todayKey == IsoDayKey(v.now)
    requires JsYear(v.year) == v.year
    ensures IsSelected(Slots(v)[i])
        <==> v.year == v.now.year && v.month == v.now.month && i == FirstDay(v) + v.now.day - 1
  {
    var now := v.now;
    IsoDayKeyIsDateKey(now);
    SlotContents(v, i);
    var c := Slots(v)[i];
    if IsSelected(c) {
      assert DateKey(v.year, v.month, c.day) == DateKey(now.year, now.month, now.day);
      DateKeyInjective(v.year, v.month, c.day, now.year, now.month, now.day);
    }
    if v.year == now.year && v.month == now.month && i == FirstDay(v) + now.day - 1 {
      assert c == DayCell(v, now.day);
    }
  }
}
