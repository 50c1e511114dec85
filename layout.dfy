/** The shape of the month table, independent of dates: a month's day
    cells padded into whole weeks, written out with a row break between
    weeks, and read back as cells and as rows. */
module Layout {

  /** One table cell of the month grid. */
  datatype Cell =
    | Blank                                        // padding before the 1st or after the last day
    | Future(day: nat)                             // a day after today: muted, not clickable, no date
    | Day(day: nat, date: string, selected: bool)  // a clickable `.date` cell and its `data-date`

  /** The table as it is written: cells in slot order, and a row break
      (closing one table row and opening the next) between weeks. */
  datatype Token = Put(cell: Cell) | NewRow

  predicate IsDayCell(c: Cell) {
    c.Future? || c.Day?
  }

  predicate IsSelected(c: Cell) {
    c.Day? && c.selected
  }

  function Min(a: int, b: int): int {
    if a < b then a else b
  }

  /** The least multiple of 7 that is at least k. */
  function RoundUp7(k: nat): nat {
    (k + 6) / 7 * 7
  }

  lemma RoundUp7Bounds(k: nat)
    ensures RoundUp7(k) % 7 == 0 && k <= RoundUp7(k) < k + 7
  {
  }

  lemma RoundUp7Below(k: nat, i: nat)
    requires k <= i <= RoundUp7(k) && i % 7 != 0
    ensures i < RoundUp7(k)
  {
  }

  lemma RoundUp7Least(k: nat, j: nat)
    requires k <= j && j % 7 == 0
    ensures RoundUp7(k) <= j
  {
  }

  /** n padding cells. */
  function Blanks(n: nat): seq<Cell> {
    seq(n, _ => Blank)
  }

  /** The slots of a month whose 1st falls on weekday fd: fd blanks, the
      day cells, then blanks to the end of the last week. */
  function Pad(fd: nat, days: seq<Cell>): seq<Cell> {
    Blanks(fd) + days + Blanks(RoundUp7(fd + |days|) - fd - |days|)
  }

  /** Slot i holds day cell i - fd within the run of days, a blank elsewhere. */
  lemma PadAt(fd: nat, days: seq<Cell>, i: int)
    requires 0 <= i < RoundUp7(fd + |days|)
    ensures |Pad(fd, days)| == RoundUp7(fd + |days|)
    ensures Pad(fd, days)[i] == if fd <= i < fd + |days| then days[i - fd] else Blank
  {
    RoundUp7Bounds(fd + |days|);
  }

  /** A row break goes before slot i exactly when i starts a week other than the first. */
  function Sep(i: nat): seq<Token> {
    if i % 7 == 0 && i > 0 then [NewRow] else []
  }

  /** The first n cells written out in order, with a row break before every seventh. */
  function LayPrefix(cs: seq<Cell>, n: nat): seq<Token>
    requires n <= |cs|
  {
    if n == 0 then [] else LayPrefix(cs, n - 1) + Sep(n - 1) + [Put(cs[n - 1])]
  }

  /** All the cells written out. */
  function Lay(cs: seq<Cell>): seq<Token> {
    LayPrefix(cs, |cs|)
  }

  /** The cells of a token stream, row breaks dropped. */
  function CellsOf(ts: seq<Token>): seq<Cell> {
    if ts == [] then []
    else
      CellsOf(ts[..|ts| - 1])
      + match ts[|ts| - 1]
        case Put(c) => [c]
        case NewRow => []
  }

  /** The table rows of a token stream: the cells between consecutive row breaks. */
  function Rows(ts: seq<Token>): (rs: seq<seq<Cell>>)
    ensures |rs| >= 1
  {
    if ts == [] then [[]]
    else
      var rs := Rows(ts[..|ts| - 1]);
      match ts[|ts| - 1]
      case NewRow => rs + [[]]
      case Put(c) => rs[..|rs| - 1] + [rs[|rs| - 1] + [c]]
  }

  lemma TakeStep<T>(s: seq<T>, k: nat)
    requires k < |s|
    ensures s[..k] + [s[k]] == s[..k + 1]
  {
  }

  lemma TakeAll<T>(s: seq<T>, i: int)
    requires i == |s|
    ensures s[..i] == s
  {
  }

  /** A padding slot, before the 1st or after the last day, is written as a
      blank cell in the current row. */
  lemma BlankStep(fd: nat, days: seq<Cell>, i: nat, pre: seq<Token>)
    requires i < fd || fd + |days| <= i < RoundUp7(fd + |days|)
    requires i % 7 != 0 || i == 0
    requires pre == LayPrefix(Pad(fd, days), i)
    ensures pre + [Put(Blank)] == LayPrefix(Pad(fd, days), i + 1)
  {
    RoundUp7Bounds(fd + |days|);
    PadAt(fd, days, i);
  }

  /** Short of a multiple of 7, the slot after the last day is still a padding slot. */
  lemma TrailingBlankStep(fd: nat, days: seq<Cell>, i: nat, pre: seq<Token>)
    requires fd + |days| <= i <= RoundUp7(fd + |days|) && i % 7 != 0
    requires pre == LayPrefix(Pad(fd, days), i)
    ensures i < RoundUp7(fd + |days|) && pre + [Put(Blank)] == LayPrefix(Pad(fd, days), i + 1)
  {
    RoundUp7Below(fd + |days|, i);
    PadAt(fd, days, i);
  }

  /** One step of the day loop at slot i = fd + d - 1: the tokens written so
      far, a row break when i is a multiple of 7 and d is not the 1st, and
      the day's cell make the layout of one more slot. */
  lemma DayStep(fd: nat, days: seq<Cell>, i: nat, d: int, pre: seq<Token>, mid: seq<Token>, c: Cell)
    requires fd < 7 && 1 <= d <= |days| && i == fd + d - 1
    requires pre == LayPrefix(Pad(fd, days), i)
    requires mid == if i % 7 == 0 && d != 1 then pre + [NewRow] else pre
    requires c == days[d - 1]
    ensures mid + [Put(c)] == LayPrefix(Pad(fd, days), i + 1)
  {
    RoundUp7Bounds(fd + |days|);
    PadAt(fd, days, i);
    assert Sep(i) == if i % 7 == 0 && d != 1 then [NewRow] else [];
    assert mid == pre + Sep(i);
  }

  /** The last loop of `generateCalendar`: blanks until the slot counter
      reaches a multiple of 7, which closes the last week. */
  method EmitTrailingBlanks(ghost fd: nat, ghost days: seq<Cell>, tokens0: seq<Token>, i0: nat)
    returns (tokens: seq<Token>, i: nat)
    requires i0 == fd + |days| && tokens0 == LayPrefix(Pad(fd, days), i0)
    ensures i == |Pad(fd, days)| && tokens == Lay(Pad(fd, days))
  {
    ghost var total := RoundUp7(fd + |days|);
    tokens, i := tokens0, i0;
    while i % 7 != 0
      invariant fd + |days| <= i <= total
      invariant tokens == LayPrefix(Pad(fd, days), i)
      decreases total - i
    {
      TrailingBlankStep(fd, days, i, tokens);
      tokens := tokens + [Put(Blank)];
      i := i + 1;
    }
    RoundUp7Least(fd + |days|, i);
  }

  lemma {:induction false} CellsOfAppend(ts: seq<Token>, t: Token)
    ensures CellsOf(ts + [t]) == CellsOf(ts) + (if t.Put? then [t.cell] else [])
  {
    assert (ts + [t])[..|ts|] == ts;
  }

  lemma {:induction false} RowsOfAppend(ts: seq<Token>, t: Token)
    ensures var rs := Rows(ts);
      Rows(ts + [t]) == if t.Put? then rs[..|rs| - 1] + [rs[|rs| - 1] + [t.cell]] else rs + [[]]
  {
    assert (ts + [t])[..|ts|] == ts;
  }

  /** Writing a cell, after its row break if any, adds just that cell to the cells. */
  lemma CellsOfStep(ts: seq<Token>, k: nat, c: Cell)
    ensures CellsOf(ts + Sep(k) + [Put(c)]) == CellsOf(ts) + [c]
  {
    CellsOfAppend(ts + Sep(k), Put(c));
    if Sep(k) != [] {
      CellsOfAppend(ts, NewRow);
    } else {
      assert ts + Sep(k) == ts;
    }
  }

  /** Dropping the row breaks from the first n cells written out gives back those cells. */
  lemma {:induction false} CellsOfLayPrefix(cs: seq<Cell>, n: nat)
    requires n <= |cs|
    ensures CellsOf(LayPrefix(cs, n)) == cs[..n]
  {
    if n > 0 {
      var k := n - 1;
      CellsOfLayPrefix(cs, k);
      CellsOfStep(LayPrefix(cs, k), k, cs[k]);
      TakeStep(cs, k);
    }
  }

  /** Dropping the row breaks from the written grid gives back its cells. */
  lemma CellsOfLay(cs: seq<Cell>)
    ensures CellsOf(Lay(cs)) == cs
  {
    CellsOfLayPrefix(cs, |cs|);
    TakeAll(cs, |cs|);
  }

  /** rs are the rows of cs cut into weeks: row r holds slots 7r to 7r + 6. */
  predicate RowsMatch(rs: seq<seq<Cell>>, cs: seq<Cell>) {
    && |rs| == (if cs == [] then 1 else (|cs| + 6) / 7)
    && forall r :: 0 <= r < |rs| ==> rs[r] == cs[7 * r .. Min(7 * r + 7, |cs|)]
  }
  /** A cell written after a row break opens a new row. */
  lemma {:induction false} RowsNewWeek(rs: seq<seq<Cell>>, pre: seq<Cell>, c: Cell)
    requires RowsMatch(rs, pre) && |pre| % 7 == 0 && |pre| > 0
    ensures RowsMatch(rs + [[c]], pre + [c])
  {
    var cs, k := pre + [c], |pre|;
    assert |rs| * 7 == k;
    forall r | 0 <= r < |rs| + 1
      ensures (rs + [[c]])[r] == cs[7 * r .. Min(7 * r + 7, |cs|)]
    {
      if r < |rs| {
        assert rs[r] == pre[7 * r .. 7 * r + 7];
        assert pre[7 * r .. 7 * r + 7] == cs[7 * r .. 7 * r + 7];
      } else {
        assert cs[k .. k + 1] == [c];
      }
    }
  }

  /** Any other cell extends the last row. */
  lemma {:induction false} RowsSameWeek(rs: seq<seq<Cell>>, pre: seq<Cell>, c: Cell)
    requires RowsMatch(rs, pre) && (|pre| % 7 != 0 || pre == [])
    ensures RowsMatch(rs[..|rs| - 1] + [rs[|rs| - 1] + [c]], pre + [c])
  {
    var cs, k, last := pre + [c], |pre|, |rs| - 1;
    assert 7 * last <= k <= 7 * last + 6;
    assert |cs| == k + 1 && (k + 7) / 7 == |rs|;
    forall r | 0 <= r < |rs|
      ensures (rs[..last] + [rs[last] + [c]])[r] == cs[7 * r .. Min(7 * r + 7, |cs|)]
    {
      if r < last {
        assert rs[r] == pre[7 * r .. 7 * r + 7];
        assert pre[7 * r .. 7 * r + 7] == cs[7 * r .. 7 * r + 7];
      } else {
        assert rs[last] == pre[7 * last .. k];
        assert pre[7 * last .. k] + [c] == cs[7 * last .. k + 1];
      }
    }
  }

  /** The rows after one more cell: a new row when the cell opens a week
      other than the first, otherwise the last row grows by the cell. */
  lemma {:induction false} LayPrefixRows(cs: seq<Cell>, k: nat)
    requires k < |cs|
    ensures var rs := Rows(LayPrefix(cs, k));
      Rows(LayPrefix(cs, k + 1))
      == if k % 7 == 0 && k > 0 then rs + [[cs[k]]] else rs[..|rs| - 1] + [rs[|rs| - 1] + [cs[k]]]
  {
    var ts, c := LayPrefix(cs, k), cs[k];
    var rs := Rows(ts);
    if k % 7 == 0 && k > 0 {
      var t1 := ts + [NewRow];
      assert LayPrefix(cs, k + 1) == t1 + [Put(c)];
      RowsOfAppend(ts, NewRow);
      RowsOfAppend(t1, Put(c));
      var r1 := rs + [[]];
      assert r1[..|r1| - 1] == rs && r1[|r1| - 1] + [c] == [c];
    } else {
      assert LayPrefix(cs, k + 1) == ts + [Put(c)];
      RowsOfAppend(ts, Put(c));
    }
  }

  /** Row r of the first n cells written out holds exactly slots 7r to 7r + 6 of them. */
  lemma {:induction false} RowsOfLayPrefix(cs: seq<Cell>, n: nat)
    requires n <= |cs|
    ensures RowsMatch(Rows(LayPrefix(cs, n)), cs[..n])
  {
    if n > 0 {
      var k := n - 1;
      var pre, c := cs[..k], cs[k];
      TakeStep(cs, k);
      RowsOfLayPrefix(cs, k);
      var rs := Rows(LayPrefix(cs, k));
      LayPrefixRows(cs, k);
      if k % 7 == 0 && k > 0 {
        RowsNewWeek(rs, pre, c);
      } else {
        RowsSameWeek(rs, pre, c);
      }
    }
  }

  /** Whole weeks written out: one row of seven cells per week, row r
      holding cells 7r to 7r + 6, and no cell lost or added. */
  lemma WholeWeeks(cs: seq<Cell>)
    requires |cs| % 7 == 0 && |cs| > 0
    ensures var rs := Rows(Lay(cs));
      && |rs| == |cs| / 7
      && (forall r :: 0 <= r < |rs| ==> |rs[r]| == 7 && rs[r] == cs[7 * r .. 7 * r + 7])
      && CellsOf(Lay(cs)) == cs
  {
    var rs := Rows(Lay(cs));
    RowsOfLayPrefix(cs, |cs|);
    TakeAll(cs, |cs|);
    CellsOfLay(cs);
    WeekCount(|cs|);
    forall r | 0 <= r < |rs|
      ensures |rs[r]| == 7 && rs[r] == cs[7 * r .. 7 * r + 7]
    {
      WeekRow(rs, cs, r);
    }
  }

  lemma WeekCount(n: nat)
    requires n % 7 == 0
    ensures (n + 6) / 7 == n / 7
  {
  }

  lemma WeekRow(rs: seq<seq<Cell>>, cs: seq<Cell>, r: int)
    requires |cs| % 7 == 0 && RowsMatch(rs, cs) && cs != [] && 0 <= r < |rs|
    ensures |rs[r]| == 7 && rs[r] == cs[7 * r .. 7 * r + 7]
  {
    WeekCount(|cs|);
    assert 7 * r + 7 <= |cs|;
    assert rs[r] == cs[7 * r .. Min(7 * r + 7, |cs|)];
  }
}
