/** The calendar page's state and its event handlers: the first load, a
    click on a day, the save button, and the prev/next month buttons. */
module Page {
  import opened Strings
  import opened Dates
  import opened Layout
  import opened Grid
  import opened Entry
  import opened Navigation

  /** No two cells are highlighted. */
  predicate SingleSelection(cs: seq<Cell>) {
    forall i, j :: 0 <= i < |cs| && 0 <= j < |cs| && IsSelected(cs[i]) && IsSelected(cs[j]) ==> i == j
  }

  /** A cell with its highlight removed: what `removeClass('selected-date')` leaves. */
  function Unselect(c: Cell): (r: Cell)
    ensures !IsSelected(r)
  {
    if c.Day? then c.(selected := false) else c
  }

  /** The cells after a click on cell k: every `.date` cell loses its
      highlight and cell k gains it. */
  function SelectOnly(cs: seq<Cell>, k: int): (r: seq<Cell>)
    ensures |r| == |cs|
  {
    seq(|cs|, i requires 0 <= i < |cs| => if cs[i].Day? then cs[i].(selected := i == k) else cs[i])
  }

  /** After a click on a date cell, that cell and no other is highlighted. */
  lemma SelectOnlySelects(cs: seq<Cell>, k: int, i: int)
    requires 0 <= k < |cs| && cs[k].Day? && 0 <= i < |cs|
    ensures IsSelected(SelectOnly(cs, k)[i]) <==> i == k
  {
  }

  /** A click changes no cell but for its highlight. */
  lemma SelectOnlyKeepsCells(cs: seq<Cell>, k: int, i: int)
    requires 0 <= i < |cs|
    ensures Unselect(SelectOnly(cs, k)[i]) == Unselect(cs[i])
  {
  }

  /** A rendered month highlights at most one cell. */
  lemma RenderedSingleSelection(v: View)
    requires ValidView(v)
    ensures SingleSelection(Slots(v))
  {
    forall i, j | 0 <= i < |Slots(v)| && 0 <= j < |Slots(v)| && IsSelected(Slots(v)[i]) && IsSelected(Slots(v)[j])
      ensures i == j
    {
      AtMostOneSelected(v, i, j);
    }
  }

  /** The view `generateCalendar(year, month)` renders at the given clock. */
  function ViewAt(ym: YearMonth, clock: Date, todayKey: string): View {
    View(ym.year, ym.month, clock, todayKey)
  }

  class CalendarPage {
    /** The year and month of `currentDate`, the month on show. */
    var shown: YearMonth
    /** `today`: the ISO date of the moment the page loaded. */
    const todayKey: string
    /** The cells of the calendar table, in slot order. */
    var cells: array<Cell>
    /** The text of `#selected-date`. */
    var selectedDate: string
    /** Whether `#bp-error` is shown. */
    var bpErrorVisible: bool
    /** The requests the page has sent, oldest first. */
    var requests: seq<Request>

    predicate Valid()
      reads this, cells
    {
      ValidMonth(shown) && SingleSelection(cells[..])
    }

    /** Page load: the month of the local clock is rendered, today's date is
        shown as selected and its entries are requested. */
    constructor (localNow: Date, utcNow: Date)
      requires ValidDate(localNow) && ValidDate(utcNow)
      ensures shown == YearMonth(localNow.year, localNow.month)
      ensures todayKey == IsoDayKey(utcNow)
      ensures cells[..] == Slots(ViewAt(shown, localNow, todayKey))
      ensures selectedDate == todayKey
      ensures !bpErrorVisible
      ensures requests == [LoadRequest(todayKey)]
      ensures Valid()
    {
      shown := YearMonth(localNow.year, localNow.month);
      todayKey := IsoDayKey(utcNow);
      cells := new Cell[0];
      selectedDate := "";
      bpErrorVisible := false;
      requests := [];
      new;
      Render(localNow);
      selectedDate := todayKey;
      requests := [LoadRequest(todayKey)];
    }

    /** `generateCalendar` for the month on show, replacing the table. */
    method Render(clock: Date)
      requires ValidMonth(shown) && ValidDate(clock)
      modifies this
      ensures shown == old(shown) && selectedDate == old(selectedDate)
      ensures fresh(cells) && cells[..] == Slots(ViewAt(shown, clock, todayKey))
      ensures bpErrorVisible == old(bpErrorVisible) && requests == old(requests)
      ensures Valid()
    {
      var v := ViewAt(shown, clock, todayKey);
      var tokens := GenerateCalendar(v);
      CellsOfLay(Slots(v));
      var cs := CellsOf(tokens);
      cells := new Cell[|cs|](i requires 0 <= i < |cs| => cs[i]);
      assert cells[..] == cs;
      RenderedSingleSelection(v);
    }

    /** A click on a date cell: its date becomes the selected date, its
        entries are requested, and the highlight moves to it. */
    method Click(k: int)
      requires Valid() && 0 <= k < cells.Length && cells[k].Day?
      modifies this, cells
      ensures cells == old(cells) && cells[..] == SelectOnly(old(cells[..]), k)
      ensures selectedDate == old(cells[k].date)
      ensures requests == old(requests) + [LoadRequest(old(cells[k].date))]
      ensures shown == old(shown) && bpErrorVisible == old(bpErrorVisible)
      ensures Valid()
    {
      var date := cells[k].date;
      selectedDate := date;
      requests := requests + [LoadRequest(date)];
      var a := cells;
      var i := 0;
      while i < a.Length
        modifies a
        invariant 0 <= i <= a.Length
        invariant forall j :: 0 <= j < i ==> a[j] == Unselect(old(a[j]))
        invariant forall j :: i <= j < a.Length ==> a[j] == old(a[j])
      {
        if a[i].Day? {
          a[i] := a[i].(selected := false);
        }
        i := i + 1;
      }
      a[k] := a[k].(selected := true);
      assert a[..] == SelectOnly(old(a[..]), k);
      forall i, j | 0 <= i < cells.Length && 0 <= j < cells.Length && IsSelected(cells[i]) && IsSelected(cells[j])
        ensures i == j
      {
        SelectOnlySelects(old(cells[..]), k, i);
        SelectOnlySelects(old(cells[..]), k, j);
      }
    }

    /** The save button, with the two fields as entered: an invalid
        blood pressure shows the error and sends nothing; a valid one hides
        the error and posts the entry for the selected date. */
    method Save(bloodPressure: string, glucoseLevel: string)
      requires Valid()
      modifies this
      ensures var o := SaveEntry(old(selectedDate), bloodPressure, glucoseLevel);
        match o
        case ShowError => bpErrorVisible && requests == old(requests)
        case Submit(r) => !bpErrorVisible && requests == old(requests) + [r]
      ensures shown == old(shown) && cells == old(cells) && selectedDate == old(selectedDate)
      ensures Valid()
    {
      if !ValidBloodPressure(bloodPressure) {
        bpErrorVisible := true;
        return;
      } else {
        bpErrorVisible := false;
      }
      var form := Form(bloodPressure, glucoseLevel);
      requests := requests + [Request(Post, SaveUrl(selectedDate), Some(form))];
    }

    /** The prev button: the month before is rendered. */
    method PrevMonth(clock: Date)
      requires Valid() && ValidDate(clock)
      modifies this
      ensures shown == Prev(old(shown))
      ensures fresh(cells) && cells[..] == Slots(ViewAt(shown, clock, todayKey))
      ensures selectedDate == old(selectedDate) && requests == old(requests)
      ensures bpErrorVisible == old(bpErrorVisible)
      ensures Valid()
    {
      shown := Prev(shown);
      Render(clock);
    }

    /** The next button: the month after is rendered. */
    method NextMonth(clock: Date)
      requires Valid() && ValidDate(clock)
      modifies this
      ensures shown == Next(old(shown))
      ensures fresh(cells) && cells[..] == Slots(ViewAt(shown, clock, todayKey))
      ensures selectedDate == old(selectedDate) && requests == old(requests)
      ensures bpErrorVisible == old(bpErrorVisible)
      ensures Valid()
    {
      shown := Next(shown);
      Render(clock);
    }
  }
}
