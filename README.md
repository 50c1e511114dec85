# GlucoGuide calendar page, modelled in Dafny

GlucoGuide's daily-entry page shows a month calendar. The user picks a
day, the page loads that day's blood-pressure and glucose readings, and a
save button validates the blood pressure and posts the entry. The model
covers the page's script, `main/static/js/calender.js`:

- **Month grid** (`generateCalendar`). One slot counter `i` runs through
  three loops: leading blanks, the days of the month, and trailing blanks.
  The days loop starts a new table row whenever the counter reaches a new
  week. Each day is one of three cells:
  - muted and unclickable when it lies after the current instant;
  - highlighted when its `year-MM-DD` key is today's;
  - a plain clickable `.date` cell otherwise.

  The table is modelled as a token stream of cells and row breaks (module
  `Layout`). The month comes from the proleptic Gregorian calendar as
  JavaScript's `Date` computes it (module `Dates`), including the rule
  that `new Date(y, m, d)` reads years 0 to 99 as 1900 + y.
- **Date keys** (line 36). `year + '-' + pad2(month + 1) + '-' + pad2(day)`
  is modelled as `Dates.DateKey`, over the string functions of module
  `Strings`. Keys read back and are injective. For four-digit years they are
  the `full-date` of section 5.6 of RFC 3339, the same string as
  `toISOString().slice(0, 10)` (line 4).
- **Entry form** (module `Entry`). It covers:
  - the blood-pressure pattern `^\d{2,3}\/\d{2,3}$`;
  - the GET issued for a date's entries;
  - the save decision: an error with no request, or exactly one POST.
- **Navigation** (module `Navigation`). The previous/next month buttons,
  and the `Date.setMonth` call they make (see Findings).
- **Page state** (module `Page`). A class holding the month on show, the
  rendered cells (an array), the selected date, the error flag and the
  requests sent. Its methods are the page load, a click on a day, save,
  and the previous/next buttons.

Two behaviours of the code worth knowing when reading the model:

- A render highlights the cell whose key equals `today`, the date at page
  load (lines 45-46), not the day last clicked. A month re-rendered after
  navigation therefore highlights today's cell, or no cell, and drops the
  highlight of the clicked day.
- `var i` counts slots through all three loops of `generateCalendar`: it
  starts at the leading blanks and steps once per day (line 51) into the
  trailing loop. Row breaks therefore fall every seven slots.
  `Grid.RowBreakBeforeDay` and `Grid.CalendarRows` prove it.

## Model

| member | source | states |
|---|---|---|
| Strings.NatToString | main/static/js/calender.js:36 | `toString()` of a non-negative number is a non-empty run of digits with no leading zero |
| Strings.IntToString | main/static/js/calender.js:36 | the year's `toString()` starts with '-' exactly when the year is negative |
| Strings.PadStart | main/static/js/calender.js:36 | `padStart(width, '0')` is at least `width` long, ends with the original text and is '0' before it |
| Strings.ParseNatOfNatToString | main/static/js/calender.js:36 | reading back the digits of a number gives the number |
| Strings.ParseIntOfIntToString | main/static/js/calender.js:36 | reading back a year's text, sign included, gives the year |
| Strings.NatToStringLength | main/static/js/calender.js:36 | numbers below 10, 100, 1000 and 10000 are written with 1, 2, 3 and 4 digits |
| Strings.Pad2Length | main/static/js/calender.js:36 | a month number or a day below 100 padded to width 2 is exactly two characters |
| Strings.Pad2Digits | main/static/js/calender.js:36 | a padded month or day is two digits that read back as the number |
| Dates.DaysInMonth | main/static/js/calender.js:20 | `new Date(year, month + 1, 0).getDate()` is 28 to 31, and 29 exactly for February of a leap year |
| Dates.Weekday | main/static/js/calender.js:19 | `getDay()` is between 0 (Sunday) and 6 and is ECMAScript's WeekDay(t): days since 1 January 1970, plus 4, mod 7 |
| Dates.EpochIsThursday | main/static/js/calender.js:19 | 1 January 1970 is a Thursday (4) |
| Dates.NewYear2024IsMonday | main/static/js/calender.js:19 | 1 January 2024 is a Monday (1) |
| Dates.March2025StartsOnSaturday | main/static/js/calender.js:19 | 1 March 2025 is a Saturday (6), so that month's grid has six leading blanks |
| Dates.JsYear | main/static/js/calender.js:19-20 | `new Date(y, m, d)` reads a year from 0 to 99 as 1900 + y and every other year as given; `Grid.FirstDay`, `Grid.MonthLength` and `Grid.IsFuture` go through it |
| Dates.LeapYearsStep | main/static/js/calender.js:19-20 | the leap-year count grows by one exactly across a Gregorian leap year |
| Dates.DaysBeforeNextYear | main/static/js/calender.js:19-20 | consecutive years start 365 or 366 days apart, as the leap-year rule says |
| Dates.FirstOfNextMonth | main/static/js/calender.js:20 | the 1st of the next month comes DaysInMonth days after the 1st of this one, so day 0 of the next month is this month's last day |
| Dates.WeekdayOfNextFirst | main/static/js/calender.js:19 | the next month's 1st falls DaysInMonth weekdays after this month's 1st |
| Dates.DayNumberOrder | main/static/js/calender.js:41 | on valid dates, comparing time values in whole days is the same as comparing dates year, then month, then day |
| Dates.SameYearOrder | main/static/js/calender.js:41 | the same within one year |
| Dates.DateKey | main/static/js/calender.js:36 | the key `year + '-' + pad2(month + 1) + '-' + pad2(day)`; `Dates.ParseDateKeyOfDateKey` reads it back and `Dates.DateKeyInjective` makes it unique per day |
| Dates.IsoYear | main/static/js/calender.js:4 | the year field of `toISOString()`: four digits for years 0 to 9999, otherwise a sign and at least six digits |
| Dates.IsoDayKey | main/static/js/calender.js:4 | `toISOString().slice(0, 10)`; `Dates.IsoDayKeyIsDateKey` proves it equals the day's key for four-digit years |
| Dates.ParseDateKeyOfDateKey | main/static/js/calender.js:36 | a date key reads back as the year, month index and day it was built from |
| Dates.DateKeyInjective | main/static/js/calender.js:36 | two days with equal keys are the same day |
| Dates.DateKeyIsFullDate | main/static/js/calender.js:36 | for years 1000 to 9999 a key is `YYYY-MM-DD`: ten characters, dashes at 4 and 7, digit fields holding year, month + 1 and day |
| Dates.IsoDayKeyIsDateKey | main/static/js/calender.js:4 | for years 1000 to 9999, `toISOString().slice(0, 10)` of a date is that date's key |
| Layout.RoundUp7Bounds | main/static/js/calender.js:55-58 | the padded slot count is a multiple of 7, at least the slots used and less than a week more |
| Layout.Pad | main/static/js/calender.js:26-58 | the slots of the grid: firstDay blanks, the day cells, then blanks up to a multiple of 7; `Layout.PadAt` and `Layout.RoundUp7Bounds` state each slot and the count |
| Layout.Lay | main/static/js/calender.js:26-58 | the written table: each slot's cell, with a row break before every slot that starts a week other than the first; `Layout.CellsOfLay` and `Layout.RowsOfLayPrefix` recover the cells and the rows |
| Layout.PadAt | main/static/js/calender.js:26-58 | slot i holds day cell i - firstDay inside the run of days and a blank everywhere else |
| Layout.BlankStep | main/static/js/calender.js:26-28 | a padding slot adds one blank cell to the current row, with no row break |
| Layout.TrailingBlankStep | main/static/js/calender.js:55-58 | while the counter is not a multiple of 7 it is still inside the padded grid, and the next slot is a blank |
| Layout.DayStep | main/static/js/calender.js:31-51 | the day loop's optional row break followed by the day's cell extends the layout by exactly one slot |
| Layout.EmitTrailingBlanks | main/static/js/calender.js:55-58 | the trailing loop stops at the padded slot count and has then written the whole grid |
| Layout.CellsOfLayPrefix | main/static/js/calender.js:26-58 | the cells of the first n slots written out, row breaks dropped, are those n slots |
| Layout.CellsOfLay | main/static/js/calender.js:21-60 | dropping the row breaks from the written table gives back every slot in order |
| Layout.LayPrefixRows | main/static/js/calender.js:32-34 | one more slot opens a new row exactly when it starts a week other than the first, and otherwise grows the last row |
| Layout.RowsOfLayPrefix | main/static/js/calender.js:32-34 | row r of the written table holds slots 7r to 7r + 6 |
| Layout.WholeWeeks | main/static/js/calender.js:31-58 | a whole number of weeks is written as that many rows of exactly seven cells |
| Grid.FirstDay | main/static/js/calender.js:19 | the weekday of the 1st is between 0 and 6 |
| Grid.MonthLength | main/static/js/calender.js:20 | the month has 28 to 31 days |
| Grid.IsFuture | main/static/js/calender.js:37-41 | `dateObj > todayDateObj`: midnight of the day is later than the clock exactly when the day comes after the clock's date; `Grid.FutureIsLaterTimeValue` ties it to time values |
| Grid.DayCell | main/static/js/calender.js:36-49 | the cell the day loop writes for day d; `Grid.DayCellKinds` states when it is muted, highlighted or plain |
| Grid.Slots | main/static/js/calender.js:26-58 | the month's slots; `Grid.SlotContents`, `Grid.DayAppearsOnce` and `Grid.GridShape` state what each slot holds and how many there are |
| Grid.SlotsAt | main/static/js/calender.js:26-58 | slot i holds the cell of day i - firstDay + 1 within the month's run and a blank elsewhere |
| Grid.GenerateCalendar | main/static/js/calender.js:18-62 | the three loops write exactly the month's slots, with a row break before every week but the first |
| Grid.EmitDays | main/static/js/calender.js:31-52 | the day loop continues the slot counter from the leading blanks and writes every day of the month |
| Grid.EmitDay | main/static/js/calender.js:32-51 | one pass of the day loop writes one more slot of the layout |
| Grid.EmitDayCell | main/static/js/calender.js:36-50 | the muted / highlighted / plain choice is exactly DayCell |
| Grid.DayCellKinds | main/static/js/calender.js:36-49 | a day's cell carries its day. It is muted exactly when its time value is after the clock's. Otherwise it carries the day's key and is highlighted exactly when that key is today's |
| Grid.FutureIsLaterTimeValue | main/static/js/calender.js:37-41 | `dateObj > todayDateObj` holds exactly when the day's number is past the clock's |
| Grid.FutureDaysAreSuffix | main/static/js/calender.js:41 | a day after a muted day is muted too |
| Grid.RowBreakBeforeDay | main/static/js/calender.js:32-34 | day d is written right after the earlier slots, with a row break exactly when firstDay + d - 1 is a multiple of 7 and d is not 1 |
| Grid.GridShape | main/static/js/calender.js:55-58 | the slot count is the least multiple of 7 that is at least firstDay + daysInMonth, between 28 and 42 |
| Grid.CalendarRows | main/static/js/calender.js:23-60 | the table has slots / 7 rows of exactly seven cells, row r holds slots 7r to 7r + 6, and no cell is lost or added |
| Grid.SlotContents | main/static/js/calender.js:26-52 | exactly the firstDay leading slots and the trailing slots are blank; slot firstDay + d - 1 holds day d |
| Grid.DayAppearsOnce | main/static/js/calender.js:31-52 | each day of the month sits in exactly one slot, firstDay + d - 1 |
| Grid.AtMostOneSelected | main/static/js/calender.js:45-48 | no two slots of a render are highlighted |
| Grid.TodayHighlighted | main/static/js/calender.js:45-48 | when `today` is the clock's date, a slot is highlighted exactly when it holds that date in the month on show, so no slot is when the month does not contain today |
| Entry.ValidBloodPressure | main/static/js/calender.js:91-94 | `validateBloodPressure`: the pattern tested on the whole field; `Entry.ValidBloodPressureIff` proves it accepts exactly the readings |
| Entry.DigitRun | main/static/js/calender.js:92 | the greedy run of `\d` starting at a position is all digits and stops at a non-digit or the end |
| Entry.DigitRunStops | main/static/js/calender.js:92 | a run of digits that stops at a non-digit or the end is the one DigitRun finds |
| Entry.ValidBloodPressureIff | main/static/js/calender.js:91-94 | the pattern accepts a string exactly when it is 2 or 3 digits, '/', then 2 or 3 digits and nothing more |
| Entry.AcceptsEveryReading | main/static/js/calender.js:91-94 | every two- or three-digit pair around a slash is accepted |
| Entry.AcceptsExample | main/static/js/calender.js:92 | "120/80" is accepted |
| Entry.RejectsExamples | main/static/js/calender.js:91-94 | "1200/80", "120-80" and "5/5" are rejected |
| Entry.UrlDate | main/static/js/calender.js:67 | a date read from a URL is what sits between the prefix and the final '/' |
| Entry.EntriesUrl | main/static/js/calender.js:67 | `'/entries/' + date + '/'`; `Entry.ParseEntriesUrlOfEntriesUrl` recovers the date from it |
| Entry.SaveUrl | main/static/js/calender.js:114 | `'/save-entry/' + date + '/'`; `Entry.ParseSaveUrlOfSaveUrl` recovers the date from it |
| Entry.ParseEntriesUrlOfEntriesUrl | main/static/js/calender.js:67 | `'/entries/' + date + '/'` names exactly that date, whatever its text |
| Entry.ParseSaveUrlOfSaveUrl | main/static/js/calender.js:114 | `'/save-entry/' + date + '/'` names exactly that date |
| Entry.LoadRequest | main/static/js/calender.js:65-77 | loading a date's entries sends one GET, with no body, for that date |
| Entry.SaveEntry | main/static/js/calender.js:96-124 | an invalid reading yields only the error. A valid one yields one POST for the selected date that carries both fields as entered |
| Navigation.Prev | main/static/js/calender.js:127-131 | the previous month is a valid month one index earlier |
| Navigation.Next | main/static/js/calender.js:133-137 | the next month is a valid month one index later |
| Navigation.Rollover | main/static/js/calender.js:127-137 | Prev from January gives December of the year before, Next from December gives January of the year after, and otherwise only the month moves, by one |
| Navigation.PrevNextInverse | main/static/js/calender.js:127-137 | Prev then Next, or Next then Prev, returns to the same month |
| Navigation.SetMonth | main/static/js/calender.js:128 | `setMonth` keeps the day of the month and counts it from the 1st of the target month, running past its end into the next month |
| Navigation.SetMonthLandsIff | main/static/js/calender.js:128 | `setMonth` lands in the target month exactly when the kept day exists there |
| Navigation.PrevFromMarch31StaysInMarch | main/static/js/calender.js:128 | as written, prev on 31 March 2025 shows March again |
| Navigation.NextFromJanuary31SkipsFebruary | main/static/js/calender.js:134 | as written, next on 31 January 2025 shows March |
| Navigation.SetMonthAgreesWithPrevNext | main/static/js/calender.js:127-137 | on days 1 to 28 the buttons as written move exactly as Prev and Next, and keep the day |
| Page.Unselect | main/static/js/calender.js:86 | `removeClass('selected-date')` leaves a cell unhighlighted |
| Page.SelectOnly | main/static/js/calender.js:86-87 | clearing every highlight and highlighting the clicked cell keeps the number of cells |
| Page.SelectOnlySelects | main/static/js/calender.js:86-87 | after a click on a date cell, that cell and no other is highlighted |
| Page.SelectOnlyKeepsCells | main/static/js/calender.js:86-87 | a click changes nothing in any cell but its highlight |
| Page.RenderedSingleSelection | main/static/js/calender.js:45-48 | a rendered month highlights at most one cell |
| Page.CalendarPage.constructor | main/static/js/calender.js:3-16 | page load shows the local clock's month and sets `today` to the UTC ISO date. It also makes that date the selected date and sends its GET (lines 140-141), with the error hidden |
| Page.CalendarPage.Render | main/static/js/calender.js:60-61 | the table is replaced by the slots of the month on show, and at most one cell is highlighted |
| Page.CalendarPage.Click | main/static/js/calender.js:80-88 | the clicked cell's date becomes the selected date and its GET is sent. The cells become SelectOnly of the old ones, so the clicked cell alone is highlighted |
| Page.CalendarPage.Save | main/static/js/calender.js:96-124 | an invalid reading shows the error and sends nothing. A valid one hides it and sends exactly the POST SaveEntry builds. Selection and cells are unchanged |
| Page.CalendarPage.PrevMonth | main/static/js/calender.js:127-131 | the month before is shown and rendered; selection and requests are unchanged |
| Page.CalendarPage.NextMonth | main/static/js/calender.js:133-137 | the month after is shown and rendered; selection and requests are unchanged |

## Left out

- The HTML markup, the table header row and jQuery's DOM updates (lines 21-23 and 60-61). The table is modelled as cells and row breaks, and the `#calendar` contents as the `cells` array.
- The month/year header (lines 7-11, 14, 130, 136): `toLocaleDateString` is a locale library call.
- The AJAX responses: filling the two fields from the GET's reply (lines 69-72) and the `alert` popups (lines 74, 118, 121). Only the requests sent are modelled. The ordering of late replies to concurrent GETs is asynchronous behaviour and is not modelled.
- Entry.SaveEntry: the `csrfmiddlewaretoken` field (line 110) is a template literal that a static file sends as is. The form models only the two readings.
- Time zones. `today` (line 4) is the UTC date. The calendar and the future test (lines 3, 37-38) use the local clock. Both are inputs: `todayKey` and the clock date.
- Page.CalendarPage.Render: one clock reading serves the whole render, whereas line 38 reads `new Date()` again for every day. A render that spans midnight is not modelled.
- Grid.TodayHighlighted: proved only when `today` is the ISO date of the clock's own date, the year has four digits, and the year shown is not in 0 to 99, since `new Date` reads those as 1900 + y.
- Page.CalendarPage.PrevMonth: steps the month as Navigation.Prev does, not as the `setMonth` call on a full date does. The difference is shown under Findings.
- Page.CalendarPage.NextMonth: steps the month as Navigation.Next does, not as `setMonth` does. The difference is shown under Findings.
- Page.CalendarPage.constructor: `#bp-error` is taken as hidden at load; its initial visibility is set by the page template, which is not part of this model.
- Years and other numbers are unbounded integers. JavaScript's `Date` holds only 100,000,000 days either side of 1 January 1970, about years -271821 to 275760. Past that, `setMonth` yields an Invalid Date and `generateCalendar(NaN, NaN)` writes an empty table. `toString()` writes numbers from 1e21 up in exponent form. Neither limit is modelled: no date the page can reach by clicking prev or next from today comes near them. So `Navigation.Prev`, `Navigation.Next`, `Navigation.PrevNextInverse`, `Navigation.SetMonth`, `Page.CalendarPage.PrevMonth`, `Page.CalendarPage.NextMonth` and `Strings.NatToString` are stated for every integer.
- Clicks on a cell are only on `.date` cells. Muted future cells and blanks have no handler, which is why Click requires a date cell.

## Findings

| source | as written | input that shows it | evidently intended | confidence | as-written member | corrected member |
|---|---|---|---|---|---|---|
| main/static/js/calender.js:128 | `currentDate.setMonth(currentDate.getMonth() - 1)` keeps the day of the month; a day the previous month lacks runs on into the month after it | current date 31 March 2025: "31 February" becomes 3 March, and prev shows March again | show the previous month (February 2025) | high (not executed) | Navigation.PrevFromMarch31StaysInMarch | Navigation.Prev |
| main/static/js/calender.js:134 | `currentDate.setMonth(currentDate.getMonth() + 1)` keeps the day of the month in the same way | current date 31 January 2025: "31 February" becomes 3 March, and next skips February | show the next month (February 2025) | high (not executed) | Navigation.NextFromJanuary31SkipsFebruary | Navigation.Next |
