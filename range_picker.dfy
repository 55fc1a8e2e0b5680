/** The range picker: an input showing the selected range, and a two-month calendar in which
    two clicks choose the `from` and `to` dates. Dates in the selection and on the calendar
    cells are timestamps (`int`); the month being shown is a calendar `Date`. */
module RangePicker {
  import opened Common
  import opened Calendar

  /** The highlight classes a calendar cell can carry. */
  datatype Mark = SelectedFrom | SelectedTo | SelectedBetween

  /** The class the loop of `renderHighlight` gives one cell: `from` first, then `to`, then
      the days between them, or nothing. */
  function LoopMark(cell: int, from: Option<int>, to: Option<int>): (m: Option<Mark>)
    ensures m == Some(SelectedFrom) <==> from == Some(cell)
    ensures m == Some(SelectedTo) <==> to == Some(cell) && from != Some(cell)
    ensures m == Some(SelectedBetween) <==>
      from != Some(cell) && to != Some(cell) && from.Some? && to.Some? && from.value <= cell <= to.value
  {
    if from == Some(cell) then Some(SelectedFrom)
    else if to == Some(cell) then Some(SelectedTo)
    else if from.Some? && to.Some? && from.value <= cell <= to.value then Some(SelectedBetween)
    else None
  }

  /** The first cell holding `value`, which `querySelector` finds. */
  function FirstIndex(cells: seq<int>, value: int): (k: Option<nat>)
    ensures k.Some? ==> k.value < |cells| && cells[k.value] == value
    ensures k.Some? ==> forall j :: 0 <= j < k.value ==> cells[j] != value
    ensures k.None? ==> value !in cells
  {
    if cells == [] then None
    else if cells[0] == value then Some(0)
    else match FirstIndex(cells[1..], value)
      case Some(k) => Some(k + 1)
      case None => None
  }

  function MarkSet(m: Option<Mark>): set<Mark> {
    match m
    case Some(x) => {x}
    case None => {}
  }

  /** After the loop, the first cell with the `from` date gets the from class again and the
      first cell with the `to` date gets the to class, even when it also has the from class. */
  function Highlight(cells: seq<int>, from: Option<int>, to: Option<int>): (marks: seq<set<Mark>>)
    ensures |marks| == |cells|
  {
    seq(|cells|, i requires 0 <= i < |cells| =>
      MarkSet(LoopMark(cells[i], from, to)) +
      (if from.Some? && FirstIndex(cells, from.value) == Some(i) then {SelectedFrom} else {}) +
      (if to.Some? && FirstIndex(cells, to.value) == Some(i) then {SelectedTo} else {}))
  }

  /** What each cell ends up with: the from class exactly on the `from` date, the to class on
      the `to` date unless that cell is a later copy of the `from` date, and the between class
      strictly inside the range. */
  lemma HighlightClasses(cells: seq<int>, from: Option<int>, to: Option<int>, i: nat)
    requires i < |cells|
    ensures SelectedFrom in Highlight(cells, from, to)[i] <==> from == Some(cells[i])
    ensures SelectedTo in Highlight(cells, from, to)[i] <==>
      to == Some(cells[i]) && (from != Some(cells[i]) || FirstIndex(cells, cells[i]) == Some(i))
    ensures SelectedBetween in Highlight(cells, from, to)[i] <==>
      from.Some? && to.Some? && from.value <= cells[i] <= to.value && from != Some(cells[i]) && to != Some(cells[i])
  {
    if from.Some? && FirstIndex(cells, from.value) == Some(i) {
      assert cells[i] == from.value;
    }
  }

  /** With different `from` and `to` dates every cell carries at most one class; with the
      same date, the first cell of that date carries both the from and the to class. */
  lemma HighlightExclusive(cells: seq<int>, from: Option<int>, to: Option<int>, i: nat)
    requires i < |cells|
    ensures from != to ==> |Highlight(cells, from, to)[i]| <= 1
    ensures from == to && from.Some? && FirstIndex(cells, from.value) == Some(i) ==>
      Highlight(cells, from, to)[i] == {SelectedFrom, SelectedTo}
  {
    HighlightClasses(cells, from, to, i);
    var s := Highlight(cells, from, to)[i];
    if from != to {
      if SelectedFrom in s {
        assert s == {SelectedFrom};
      } else if SelectedTo in s {
        assert s == {SelectedTo};
      } else if SelectedBetween in s {
        assert s == {SelectedBetween};
      } else {
        assert s == {};
      }
    }
  }

  /** `renderHighlight()`: every cell's classes are cleared and set again by the loop, then
      the from and to classes are added to the first cells with those dates. */
  method RenderHighlight(cells: seq<int>, from: Option<int>, to: Option<int>) returns (marks: seq<set<Mark>>)
    ensures marks == Highlight(cells, from, to)
  {
    marks := [];
    var i := 0;
    while i < |cells|
      invariant 0 <= i <= |cells| && |marks| == i
      invariant forall j :: 0 <= j < i ==> marks[j] == MarkSet(LoopMark(cells[j], from, to))
    {
      marks := marks + [MarkSet(LoopMark(cells[i], from, to))];
      i := i + 1;
    }
    ghost var base := marks;
    var fromAt: Option<nat> := None;
    if from.Some? {
      fromAt := FirstIndex(cells, from.value);
      if fromAt.Some? {
        marks := marks[fromAt.value := marks[fromAt.value] + {SelectedFrom}];
      }
    }
    var toAt: Option<nat> := None;
    if to.Some? {
      toAt := FirstIndex(cells, to.value);
      if toAt.Some? {
        marks := marks[toAt.value := marks[toAt.value] + {SelectedTo}];
      }
    }
    forall i | 0 <= i < |cells| ensures marks[i] == Highlight(cells, from, to)[i] {
      assert marks[i] == base[i] + (if fromAt == Some(i) then {SelectedFrom} else {}) +
        (if toAt == Some(i) then {SelectedTo} else {});
    }
  }

  /** `getDayOfWeek(day)`: the grid column of a weekday, Monday first, so Sunday (0) goes to
      the seventh column and the other days keep their number. */
  function GetDayOfWeek(day: int): (column: int)
    ensures 0 <= day < 7 ==> 1 <= column <= 7
    ensures day == 0 ==> column == 7
    ensures day != 0 ==> column == day
  {
    var result := if day == 0 then 6 else day - 1;
    result + 1
  }

  /** The next day goes to the next column, and Sunday is followed by Monday in column 1. */
  lemma NextDayNextColumn(day: int)
    requires 0 <= day < 7
    ensures GetDayOfWeek((day + 1) % 7) == GetDayOfWeek(day) % 7 + 1
  {
  }

  /** A button of the month grid: its date and its column. */
  datatype DayCell = DayCell(date: Date, column: int)

  /** `lastDay` as `getDaysOfMonth` computes it: the month is moved on by one with the day of
      the month kept, then the day is set to 0. */
  function LastDayAsWritten(showDate: Date): Date
    requires Valid(showDate)
  {
    SetDate(SetMonth(showDate, showDate.month + 1), 0)
  }

  /** From the 31st of January 2023 the next month would be the 31st of February, which runs
      on to the 3rd of March; the day before that is the 28th of February, so the January grid
      stops at 28. */
  lemma LastDayAsWrittenCutsJanuary()
    ensures Valid(Date(2023, 0, 31))
    ensures LastDayAsWritten(Date(2023, 0, 31)) == Date(2023, 1, 28)
    ensures DaysIn(2023, 0) == 31
  {
  }

  /** `lastDay` as intended: the day is set to 1 before the month is moved on. */
  function LastDay(showDate: Date): Date
    requires Valid(showDate)
  {
    SetDate(SetMonth(SetDate(showDate, 1), showDate.month + 1), 0)
  }

  lemma MonthIndexInjective(a: Date, b: Date)
    requires 0 <= a.month < 12 && 0 <= b.month < 12 && MonthIndex(a) == MonthIndex(b)
    ensures a.year == b.year && a.month == b.month
  {
  }

  /** For every date, the corrected `lastDay` is the last day of the date's own month. */
  lemma LastDayIsMonthEnd(showDate: Date)
    requires Valid(showDate)
    ensures LastDay(showDate) == Date(showDate.year, showDate.month, DaysIn(showDate.year, showDate.month))
  {
    var first := SetDate(showDate, 1);
    assert first == showDate.(day := 1);
    var next := SetMonth(first, showDate.month + 1);
    assert next.day == 1;
    assert MonthIndex(next) == MonthIndex(showDate) + 1;
    var last := SetDate(next, 0);
    assert MonthIndex(last) == MonthIndex(showDate);
    MonthIndexInjective(last, showDate);
  }

  /** The grid of a whole month: a button for every day from the 1st to the last, in order,
      each in its Monday-first weekday column. `getDaysOfMonth` emits a prefix of it. */
  function MonthGrid(year: int, month: int): (grid: seq<DayCell>)
    requires 0 <= month < 12
    ensures |grid| == DaysIn(year, month)
  {
    seq(DaysIn(year, month), i requires 0 <= i < DaysIn(year, month) =>
      DayCell(Date(year, month, i + 1), GetDayOfWeek(Weekday(Date(year, month, i + 1)))))
  }

  /** Setting a day the month has stays in the month. */
  lemma SetDateWithinMonth(d: Date, day: int)
    requires Valid(d) && 1 <= day <= DaysIn(d.year, d.month)
    ensures SetDate(d, day) == d.(day := day)
  {
  }

  /** Whether `setMonth(getMonth() + delta)` on `showDate` runs past the end of the target
      month, because that month is shorter than `showDate`'s day. */
  predicate Overflows(showDate: Date, delta: int) {
    var m := showDate.month + delta;
    showDate.day > DaysIn(showDate.year + m / 12, m % 12)
  }

  /** The as-written `lastDay` is the shown month's last day unless the next month is shorter
      than the shown day; then it is the next month's last day, which is earlier in the month
      than the shown day. */
  lemma LastDayAsWrittenDay(showDate: Date)
    requires Valid(showDate)
    ensures !Overflows(showDate, 1) ==>
      LastDayAsWritten(showDate) == Date(showDate.year, showDate.month, DaysIn(showDate.year, showDate.month))
    ensures Overflows(showDate, 1) ==> 1 <= LastDayAsWritten(showDate).day < showDate.day
    ensures showDate.day <= 28 ==> !Overflows(showDate, 1)
  {
    var next := SetMonth(showDate, showDate.month + 1);
    var last := SetDate(next, 0);
    assert last == LastOfPrevMonth(next);
    if !Overflows(showDate, 1) {
      assert MonthIndex(next) == MonthIndex(showDate) + 1;
      MonthIndexInjective(last, showDate);
    } else {
      assert MonthIndex(next) == MonthIndex(showDate) + 2;
      var m := showDate.month + 1;
      MonthIndexInjective(last, Date(showDate.year + m / 12, m % 12, 1));
    }
  }

  /** The buttons `getDaysOfMonth` emits: the month's grid up to the as-written `lastDay`.
      It is the whole month exactly when the next month has the shown day; otherwise it stops
      short of the month's end. */
  function GridAsWritten(showDate: Date): (cells: seq<DayCell>)
    requires Valid(showDate)
    ensures !Overflows(showDate, 1) ==> cells == MonthGrid(showDate.year, showDate.month)
    ensures Overflows(showDate, 1) ==> |cells| < DaysIn(showDate.year, showDate.month)
    ensures cells == MonthGrid(showDate.year, showDate.month)[..|cells|]
  {
    LastDayAsWrittenDay(showDate);
    MonthGrid(showDate.year, showDate.month)[..LastDayAsWritten(showDate).day]
  }

  /** The as-written `lastDay` falls within the shown month's days, and the grid stops there. */
  lemma LastDayAsWrittenBounds(showDate: Date)
    requires Valid(showDate)
    ensures 1 <= LastDayAsWritten(showDate).day <= DaysIn(showDate.year, showDate.month)
    ensures GridAsWritten(showDate) == MonthGrid(showDate.year, showDate.month)[..LastDayAsWritten(showDate).day]
  {
    LastDayAsWrittenDay(showDate);
  }

  /** `getDaysOfMonth(showDate)`: `date` starts on the first of the month, `lastDay` is
      computed as written, and the loop emits the buttons up to it. */
  method GetDaysOfMonth(showDate: Date) returns (cells: seq<DayCell>)
    requires Valid(showDate)
    ensures cells == GridAsWritten(showDate)
  {
    var date := SetDate(showDate, 1);
    var lastDay := LastDayAsWritten(showDate);
    LastDayAsWrittenBounds(showDate);
    SetDateWithinMonth(showDate, 1);
    cells := EmitDays(date, lastDay.day);
  }

  /** The loop of `getDaysOfMonth`: from `date`, the first of its month, a button per day,
      until the day `lastDay` has had its button. */
  method EmitDays(date: Date, lastDay: int) returns (cells: seq<DayCell>)
    requires Valid(date) && date.day == 1 && 1 <= lastDay <= DaysIn(date.year, date.month)
    ensures cells == MonthGrid(date.year, date.month)[..lastDay]
  {
    var d := date;
    ghost var grid := MonthGrid(date.year, date.month);
    cells := [];
    while d.day <= lastDay
      invariant d == Date(date.year, date.month, |cells| + 1)
      invariant |cells| <= lastDay <= |grid|
      invariant cells == grid[..|cells|]
      decreases lastDay - d.day
    {
      cells := cells + [DayCell(d, GetDayOfWeek(Weekday(d)))];
      if d.day == lastDay {
        break;
      }
      SetDateWithinMonth(d, d.day + 1);
      d := SetDate(d, d.day + 1);
    }
    assert |cells| == lastDay;
  }

  /** Neighbouring buttons of the grid sit in neighbouring columns, wrapping from 7 to 1. */
  lemma GridColumnsAdvance(showDate: Date, day: int)
    requires Valid(showDate) && 1 <= day < DaysIn(showDate.year, showDate.month)
    ensures var d := Date(showDate.year, showDate.month, day);
      GetDayOfWeek(Weekday(d.(day := day + 1))) == GetDayOfWeek(Weekday(d)) % 7 + 1
  {
    var d := Date(showDate.year, showDate.month, day);
    WeekdayNextDay(d);
    NextDayNextColumn(Weekday(d));
  }

  /** `prev` and `next` as written: `setMonth` on the shown date keeps its day of the month. */
  function ShiftMonthAsWritten(showDate: Date, delta: int): Date
    requires Valid(showDate)
  {
    SetMonth(showDate, showDate.month + delta)
  }

  /** The as-written shift moves `delta` months, and one more when the target month is
      shorter than the shown day; up to the 28th it always moves exactly `delta` months. */
  lemma ShiftMonthAsWrittenMoves(showDate: Date, delta: int)
    requires Valid(showDate)
    ensures Valid(ShiftMonthAsWritten(showDate, delta))
    ensures MonthIndex(ShiftMonthAsWritten(showDate, delta)) ==
      MonthIndex(showDate) + delta + (if Overflows(showDate, delta) then 1 else 0)
    ensures showDate.day <= 28 ==> !Overflows(showDate, delta)
  {
  }

  /** From the 31st of January, `next` lands on the 3rd of March and February is skipped;
      from the 31st of March, `prev` lands on the 3rd of March and the calendar does not move. */
  lemma ShiftMonthAsWrittenSkips()
    ensures Valid(Date(2023, 0, 31)) && Valid(Date(2023, 2, 31))
    ensures ShiftMonthAsWritten(Date(2023, 0, 31), 1) == Date(2023, 2, 3)
    ensures ShiftMonthAsWritten(Date(2023, 2, 31), -1) == Date(2023, 2, 3)
  {
  }

  /** `setMonth` after moving to the first of the month. */
  function ShiftMonth(showDate: Date, delta: int): Date
    requires Valid(showDate)
  {
    SetMonth(SetDate(showDate, 1), showDate.month + delta)
  }

  /** The corrected shift moves exactly `delta` months, whatever the day of the month. */
  lemma ShiftMonthExact(showDate: Date, delta: int)
    requires Valid(showDate)
    ensures Valid(ShiftMonth(showDate, delta))
    ensures MonthIndex(ShiftMonth(showDate, delta)) == MonthIndex(showDate) + delta
  {
    assert SetDate(showDate, 1) == showDate.(day := 1);
  }

  /** The two dates `renderCalendar` shows the months of, as written: the shown date, and a
      copy of it moved on with `setMonth`, which keeps the day of the month. */
  function ShownMonthsAsWritten(showDateFrom: Date): (months: (Date, Date))
    requires Valid(showDateFrom)
  {
    (showDateFrom, ShiftMonthAsWritten(showDateFrom, 1))
  }

  /** As written, the second calendar shows the month after the first one, except when that
      month is shorter than the shown day: then it shows the month after that. */
  lemma ShownMonthsAsWrittenGap(showDateFrom: Date)
    requires Valid(showDateFrom)
    ensures var (first, second) := ShownMonthsAsWritten(showDateFrom);
      MonthIndex(second) == MonthIndex(first) + (if Overflows(showDateFrom, 1) then 2 else 1)
  {
    ShiftMonthAsWrittenMoves(showDateFrom, 1);
  }

  /** From the 31st of January 2023 the picker shows January, cut at the 28th, and March. */
  lemma ShownMonthsAsWrittenSkipsFebruary()
    ensures Valid(Date(2023, 0, 31))
    ensures ShownMonthsAsWritten(Date(2023, 0, 31)) == (Date(2023, 0, 31), Date(2023, 2, 3))
    ensures LastDayAsWritten(Date(2023, 0, 31)).day == 28
  {
  }

  /** The two months `renderCalendar` is meant to show: the shown month and the one after. */
  function ShownMonths(showDateFrom: Date): (months: (Date, Date))
    requires Valid(showDateFrom)
  {
    (showDateFrom, ShiftMonth(showDateFrom, 1))
  }

  /** With the corrected shift the calendar always shows two consecutive months. */
  lemma ShownMonthsConsecutive(showDateFrom: Date)
    requires Valid(showDateFrom)
    ensures MonthIndex(ShownMonths(showDateFrom).1) == MonthIndex(ShownMonths(showDateFrom).0) + 1
  {
    ShiftMonthExact(showDateFrom, 1);
  }

  /** The second click: the later date becomes `to` and the earlier or equal one `from`. */
  function SecondClick(from: int, clicked: int): (range: (int, int))
    ensures range.0 <= range.1
    ensures (range.0 == from && range.1 == clicked) || (range.0 == clicked && range.1 == from)
  {
    if clicked > from then (from, clicked) else (clicked, from)
  }

  /** The range a `date-select` event carries. */
  datatype Selection = Selection(from: Option<int>, to: Option<int>)

  /** The calendar date a timestamp falls on in the local time zone, which `new Date(t)`
      gives; time zones are not modelled, so the caller supplies it. */
  type LocalDate = int -> Date

  class RangePicker {
    var selectingFrom: bool
    var from: Option<int>
    var to: Option<int>
    /** Whether the element has the `rangepicker_open` class. */
    var isOpen: bool
    /** Whether the element exists (it is dropped by `destroy`). */
    var hasElement: bool
    var showDateFrom: Date
    /** The `date-select` events dispatched so far. */
    var events: seq<Selection>

    /** `from` is always set, and while `to` is being chosen, `to` is not. */
    ghost predicate Valid()
      reads this
    {
      Calendar.Valid(showDateFrom) && from.Some? && (!selectingFrom ==> to.None?)
    }

    /** The constructor: an absent `from` or `to` is the current time `now`, and the calendar
        opens on the date of `from`. */
    constructor(from: Option<int>, to: Option<int>, now: int, dateOf: LocalDate)
      requires Calendar.Valid(dateOf(OrElse(from, now)))
      ensures Valid() && selectingFrom && this.from == Some(OrElse(from, now)) && this.to == Some(OrElse(to, now))
      ensures showDateFrom == dateOf(this.from.value)
      ensures !isOpen && hasElement && events == []
    {
      selectingFrom := true;
      this.from := Some(OrElse(from, now));
      this.to := Some(OrElse(to, now));
      isOpen := false;
      hasElement := true;
      showDateFrom := dateOf(OrElse(from, now));
      events := [];
    }

    /** `renderCalendar()`: the grids of the two months shown, each from `getDaysOfMonth`.
        The second month is the shown date moved on by `setMonth` (`ShownMonthsAsWritten`);
        up to the 28th it is the next month and the first grid is the whole month. */
    method RenderCalendar() returns (first: seq<DayCell>, second: seq<DayCell>, secondDate: Date)
      requires Valid() && hasElement
      ensures secondDate == ShownMonthsAsWritten(showDateFrom).1 && Calendar.Valid(secondDate)
      ensures first == GridAsWritten(showDateFrom) && second == GridAsWritten(secondDate)
      ensures showDateFrom.day <= 28 ==>
        first == MonthGrid(showDateFrom.year, showDateFrom.month) &&
        MonthIndex(secondDate) == MonthIndex(showDateFrom) + 1
    {
      secondDate := ShownMonthsAsWritten(showDateFrom).1;
      ShiftMonthAsWrittenMoves(showDateFrom, 1);
      first := GetDaysOfMonth(showDateFrom);
      second := GetDaysOfMonth(secondDate);
      LastDayAsWrittenDay(showDateFrom);
    }

    /** `onRangePickerCellClick(target)` for a cell whose `data-value` is `value`. The first
        click starts a new range at the clicked date; the second completes it in order,
        dispatches `date-select` and closes the picker. */
    method CellClick(value: Option<int>)
      requires Valid() && hasElement
      modifies this
      ensures Valid() && hasElement && showDateFrom == old(showDateFrom)
      ensures value.None? ==>
        selectingFrom == old(selectingFrom) && from == old(from) && to == old(to) &&
        isOpen == old(isOpen) && events == old(events)
      ensures value.Some? && old(selectingFrom) ==>
        from == value && to.None? && !selectingFrom && isOpen == old(isOpen) && events == old(events)
      ensures value.Some? && !old(selectingFrom) ==>
        var range := SecondClick(old(from).value, value.value);
        selectingFrom && from == Some(range.0) && to == Some(range.1) && from.value <= to.value &&
        !isOpen && events == old(events) + [Selection(from, to)]
    {
      if value.None? {
        return;
      }
      var dateValue := value.value;
      if selectingFrom {
        from, to := Some(dateValue), None;
        selectingFrom := false;
      } else {
        if dateValue > from.value {
          to := Some(dateValue);
        } else {
          to := from;
          from := Some(dateValue);
        }
        selectingFrom := true;
      }
      if from.Some? && to.Some? {
        events := events + [Selection(from, to)];
        isOpen := false;
      }
    }

    /** `documentClickHandler`: a click outside the open picker closes it. */
    method DocumentClick(insidePicker: bool)
      requires Valid() && hasElement
      modifies this
      ensures Valid() && isOpen == (old(isOpen) && insidePicker)
      ensures selectingFrom == old(selectingFrom) && from == old(from) && to == old(to)
      ensures hasElement && showDateFrom == old(showDateFrom) && events == old(events)
    {
      if isOpen && !insidePicker {
        isOpen := false;
      }
    }

    /** `inputClickHandler`: a click on the input toggles the picker. */
    method InputClick()
      requires Valid() && hasElement
      modifies this
      ensures Valid() && isOpen == !old(isOpen)
      ensures selectingFrom == old(selectingFrom) && from == old(from) && to == old(to)
      ensures hasElement && showDateFrom == old(showDateFrom) && events == old(events)
    {
      isOpen := !isOpen;
    }

    /** `prev`: `setMonth` moves the shown date back a month, keeping its day, so from a day
        the previous month lacks the calendar stays on the same month. */
    method Prev()
      requires Valid() && hasElement
      modifies this
      ensures Valid() && showDateFrom == ShiftMonthAsWritten(old(showDateFrom), -1)
      ensures MonthIndex(showDateFrom) ==
        MonthIndex(old(showDateFrom)) - 1 + (if Overflows(old(showDateFrom), -1) then 1 else 0)
      ensures old(showDateFrom).day <= 28 ==> MonthIndex(showDateFrom) == MonthIndex(old(showDateFrom)) - 1
      ensures selectingFrom == old(selectingFrom) && from == old(from) && to == old(to)
      ensures hasElement && isOpen == old(isOpen) && events == old(events)
    {
      ShiftMonthAsWrittenMoves(showDateFrom, -1);
      showDateFrom := ShiftMonthAsWritten(showDateFrom, -1);
    }

    /** `next`: `setMonth` moves the shown date on a month, keeping its day, so from a day the
        next month lacks the calendar skips that month. */
    method Next()
      requires Valid() && hasElement
      modifies this
      ensures Valid() && showDateFrom == ShiftMonthAsWritten(old(showDateFrom), 1)
      ensures MonthIndex(showDateFrom) ==
        MonthIndex(old(showDateFrom)) + 1 + (if Overflows(old(showDateFrom), 1) then 1 else 0)
      ensures old(showDateFrom).day <= 28 ==> MonthIndex(showDateFrom) == MonthIndex(old(showDateFrom)) + 1
      ensures selectingFrom == old(selectingFrom) && from == old(from) && to == old(to)
      ensures hasElement && isOpen == old(isOpen) && events == old(events)
    {
      ShiftMonthAsWrittenMoves(showDateFrom, 1);
      showDateFrom := ShiftMonthAsWritten(showDateFrom, 1);
    }

    /** `destroy()`: the element is removed and dropped, and the selection starts over with
        `from` and `to` both at `now`. Once the element is gone, `remove()` reads it from
        null and throws a TypeError before anything changes. */
    method Destroy(now: int) returns (thrown: Option<JsError>)
      requires Valid()
      modifies this
      ensures thrown == (if old(hasElement) then None else Some(TypeError))
      ensures old(hasElement) ==>
        Valid() && !hasElement && !isOpen && selectingFrom && from == Some(now) && to == Some(now) &&
        showDateFrom == old(showDateFrom) && events == old(events)
      ensures !old(hasElement) ==>
        hasElement == old(hasElement) && isOpen == old(isOpen) && selectingFrom == old(selectingFrom) &&
        from == old(from) && to == old(to) && showDateFrom == old(showDateFrom) && events == old(events)
    {
      if !hasElement {
        return Some(TypeError);
      }
      hasElement := false;
      isOpen := false;
      selectingFrom := true;
      from, to := Some(now), Some(now);
      thrown := None;
    }
  }
}
