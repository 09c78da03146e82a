/**
  One month page of a scrolling calendar list (`CalendarListItem`): the filter that keeps
  the markings of the page's month, the previous/next month steps behind the arrow
  buttons, and the choice between a placeholder label and the full month grid.

  The page's date-string formatter and the key parser it relies on are external; they are
  parameters here (`format`, `parse`). A key the parser cannot read yields `None`, the
  model of an invalid XDate whose time value is NaN.
*/
module CalendarListItem {
  import opened Wrappers
  import opened CalendarDate

  function Min(a: int, b: int): int
  {
    if a <= b then a else b
  }

  predicate SameMonth(a: Date, b: Date)
  {
    a.year == b.year && a.month == b.month
  }

  function LastDayOfMonth(d: Day): int
  {
    DaysInMonth(d.year, d.month)
  }

  function DaysInPreviousMonth(d: Day): int
  {
    var (y, m) := PreviousYearMonth(d.year, d.month);
    DaysInMonth(y, m)
  }

  function DaysInNextMonth(d: Day): int
  {
    var (y, m) := NextYearMonth(d.year, d.month);
    DaysInMonth(y, m)
  }

  // ---------------------------------------------------------------------------------
  // Month-window filter

  /** `item.clone().setDate(1).clearTime()` */
  function MonthStart(item: Day): Day
  {
    SetDate(item, 1)
  }

  /** `monthStart.clone().addMonths(1).addDays(-1)` */
  function MonthEnd(item: Day): Day
  {
    AddDays(AddMonths(MonthStart(item), 1), -1)
  }

  /** The window runs from the first to the last day of the anchor's month. */
  lemma MonthWindowBounds(item: Day)
    ensures MonthStart(item) == Date(item.year, item.month, 1)
    ensures MonthEnd(item) == Date(item.year, item.month, LastDayOfMonth(item))
  {
    NormalizeInRange(item.year, item.month, 1);
    var (ny, nm) := NextYearMonth(item.year, item.month);
    CountOfValidMonth(ny, nm);
    assert MonthCount(item.year, item.month + 1) == MonthCount(ny, nm);
    NormalizeInRange(ny, nm, 1);
    NormalizeDayZero(ny, nm);
    assert PreviousYearMonth(ny, nm) == (item.year, item.month);
  }

  /**
    `dateObj >= monthStart && dateObj <= monthEnd`. The comparisons are on time values;
    an invalid date (an unreadable key) has time value NaN and both comparisons are false.
  */
  predicate InMonthWindow(item: Day, parsed: Option<Day>)
  {
    match parsed
    case None => false
    case Some(d) => DayNumber(d) >= DayNumber(MonthStart(item)) && DayNumber(d) <= DayNumber(MonthEnd(item))
  }

  /** A readable key is inside the window exactly when its day is in the anchor's month. */
  lemma InMonthWindowIff(item: Day, d: Day)
    ensures InMonthWindow(item, Some(d)) <==> SameMonth(d, item)
  {
    MonthWindowBounds(item);
    DayNumberOrder(d, MonthStart(item));
    DayNumberOrder(d, MonthEnd(item));
  }

  /** The first and last day of the month are inside the window, the days next to it are not. */
  lemma MonthWindowBoundaries(item: Day)
    ensures InMonthWindow(item, Some(Date(item.year, item.month, 1)))
    ensures InMonthWindow(item, Some(Date(item.year, item.month, LastDayOfMonth(item))))
    ensures !InMonthWindow(item, Some(AddDays(MonthStart(item), -1)))
    ensures !InMonthWindow(item, Some(AddDays(MonthEnd(item), 1)))
  {
    MonthWindowBounds(item);
    InMonthWindowIff(item, Date(item.year, item.month, 1));
    InMonthWindowIff(item, Date(item.year, item.month, LastDayOfMonth(item)));
    NormalizeDayZero(item.year, item.month);
    InMonthWindowIff(item, AddDays(MonthStart(item), -1));
    var (ny, nm) := NextYearMonth(item.year, item.month);
    assert PreviousYearMonth(ny, nm) == (item.year, item.month);
    NormalizeOverflow(item.year, item.month, LastDayOfMonth(item) + 1);
    InMonthWindowIff(item, AddDays(MonthEnd(item), 1));
  }

  /** `monthMarkedDates`: the entries of `markedDates` whose key falls in the anchor's month. */
  function MonthMarkedDates<M>(item: Day, markedDates: Option<map<string, M>>, parse: string -> Option<Day>)
    : (dates: map<string, M>)
    ensures markedDates.None? ==> dates == map[]
    ensures markedDates.Some? ==> dates.Keys <= markedDates.value.Keys
    ensures forall key :: key in dates ==> markedDates.Some? && dates[key] == markedDates.value[key]
    ensures forall key :: key in dates ==> parse(key).Some?
  {
    match markedDates
    case None => map[]
    case Some(marked) => map key | key in marked && InMonthWindow(item, parse(key)) :: marked[key]
  }

  /** The loop of `monthMarkedDates`, filling the result dictionary key by key. */
  method FilterMarkedDates<M>(item: Day, markedDates: Option<map<string, M>>, parse: string -> Option<Day>)
    returns (dates: map<string, M>)
    ensures dates == MonthMarkedDates(item, markedDates, parse)
  {
    if markedDates.None? {
      return map[];
    }
    var marked := markedDates.value;
    dates := map[];
    var monthStart := SetDate(item, 1);
    var monthEnd := AddDays(AddMonths(monthStart, 1), -1);
    var pending := marked.Keys;
    while pending != {}
      invariant pending <= marked.Keys
      invariant dates.Keys == set key | key in marked && key !in pending && InMonthWindow(item, parse(key))
      invariant forall key :: key in dates ==> dates[key] == marked[key]
      decreases pending
    {
      var key :| key in pending;
      var dateObj := parse(key);
      assert InMonthWindow(item, dateObj)
        <==> dateObj.Some? && DayNumber(dateObj.value) >= DayNumber(monthStart) && DayNumber(dateObj.value) <= DayNumber(monthEnd);
      if dateObj.Some? && DayNumber(dateObj.value) >= DayNumber(monthStart) && DayNumber(dateObj.value) <= DayNumber(monthEnd) {
        dates := dates[key := marked[key]];
      }
      pending := pending - {key};
    }
    assert dates.Keys == MonthMarkedDates(item, markedDates, parse).Keys;
  }

  /** Every kept entry comes unchanged from `markedDates` and its key reads as a day of the anchor's month. */
  lemma FilterSound<M>(item: Day, markedDates: Option<map<string, M>>, parse: string -> Option<Day>, key: string)
    requires key in MonthMarkedDates(item, markedDates, parse)
    ensures markedDates.Some? && key in markedDates.value
    ensures MonthMarkedDates(item, markedDates, parse)[key] == markedDates.value[key]
    ensures parse(key).Some? && SameMonth(parse(key).value, item)
    ensures 1 <= parse(key).value.day <= LastDayOfMonth(item)
  {
    InMonthWindowIff(item, parse(key).value);
  }

  /** Every entry of `markedDates` whose key reads as a day of the anchor's month is kept. */
  lemma FilterComplete<M>(item: Day, marked: map<string, M>, parse: string -> Option<Day>, key: string)
    requires key in marked && parse(key).Some? && SameMonth(parse(key).value, item)
    ensures key in MonthMarkedDates(item, Some(marked), parse)
    ensures MonthMarkedDates(item, Some(marked), parse)[key] == marked[key]
  {
    InMonthWindowIff(item, parse(key).value);
  }

  /** Missing markings give an empty map; an unreadable key is dropped; kept keys are input keys. */
  lemma FilterDegradation<M>(item: Day, markedDates: Option<map<string, M>>, parse: string -> Option<Day>, key: string)
    ensures markedDates.None? ==> MonthMarkedDates(item, markedDates, parse) == map[]
    ensures parse(key).None? ==> key !in MonthMarkedDates(item, markedDates, parse)
    ensures markedDates.Some? ==> MonthMarkedDates(item, markedDates, parse).Keys <= markedDates.value.Keys
  {
  }

  // ---------------------------------------------------------------------------------
  // Month stepping

  /** The same day in the month before, or that month's last day when it is shorter. */
  function PreviousMonth(d: Day): (r: Day)
    ensures MonthCount(r.year, r.month) == MonthCount(d.year, d.month) - 1
    ensures r.day == Min(d.day, DaysInMonth(r.year, r.month))
  {
    var (y, m) := PreviousYearMonth(d.year, d.month);
    Date(y, m, Min(d.day, DaysInMonth(y, m)))
  }

  /**
    `addMonths(-1)` without overflow protection: the same day of the previous month when
    it exists, otherwise a day 1 to 3 of the original month.
  */
  lemma SubtractOneMonth(d: Day)
    ensures d.day <= DaysInPreviousMonth(d) ==> AddMonths(d, -1) == PreviousMonth(d)
    ensures d.day > DaysInPreviousMonth(d) ==>
      AddMonths(d, -1) == Date(d.year, d.month, d.day - DaysInPreviousMonth(d)) && d.day - DaysInPreviousMonth(d) <= 3
  {
    var (py, pm) := PreviousYearMonth(d.year, d.month);
    CountOfValidMonth(py, pm);
    assert MonthCount(d.year, d.month - 1) == MonthCount(py, pm);
    assert NextYearMonth(py, pm) == (d.year, d.month);
    if d.day <= DaysInMonth(py, pm) {
      NormalizeInRange(py, pm, d.day);
    } else {
      NormalizeOverflow(py, pm, d.day);
    }
  }

  /**
    The left step when the page owns navigation: subtract a month, then walk back day by day
    while still in the original month. `corrections` counts the passes of that loop.
  */
  method StepBack(month: Day) returns (r: Day, ghost corrections: nat)
    ensures r == PreviousMonth(month)
    ensures corrections <= 3
    ensures corrections == 0 <==> month.day <= DaysInMonth(r.year, r.month)
  {
    var currentMonth := month.month;
    var monthClone := AddMonths(month, -1);
    var (py, pm) := PreviousYearMonth(month.year, month.month);
    var shortfall := if month.day <= DaysInMonth(py, pm) then 0 else month.day - DaysInMonth(py, pm);
    SubtractOneMonth(month);
    corrections := 0;
    while monthClone.month == currentMonth
      invariant corrections <= shortfall <= 3
      invariant monthClone.month == currentMonth ==>
        monthClone == Date(month.year, month.month, shortfall - corrections) && corrections < shortfall
      invariant monthClone.month != currentMonth ==> monthClone == PreviousMonth(month) && corrections == shortfall
      decreases shortfall - corrections
    {
      if monthClone.day == 1 {
        NormalizeDayZero(month.year, month.month);
      } else {
        NormalizeInRange(month.year, month.month, monthClone.day - 1);
      }
      monthClone := SetDate(monthClone, monthClone.day - 1);
      corrections := corrections + 1;
    }
    r := monthClone;
  }

  /**
    The right step, `addMonths(1)` with no correction: the same day of the next month when it
    exists there, otherwise the overflow carries it into the month after.
  */
  lemma AddOneMonth(d: Day)
    ensures d.day <= DaysInNextMonth(d) ==>
      AddMonths(d, 1) == Date(NextYearMonth(d.year, d.month).0, NextYearMonth(d.year, d.month).1, d.day)
    ensures d.day > DaysInNextMonth(d) ==>
      MonthCount(AddMonths(d, 1).year, AddMonths(d, 1).month) == MonthCount(d.year, d.month) + 2
      && AddMonths(d, 1).day == d.day - DaysInNextMonth(d) && AddMonths(d, 1).day <= 3
  {
    var (ny, nm) := NextYearMonth(d.year, d.month);
    CountOfValidMonth(ny, nm);
    assert MonthCount(d.year, d.month + 1) == MonthCount(ny, nm);
    if d.day <= DaysInMonth(ny, nm) {
      NormalizeInRange(ny, nm, d.day);
    } else {
      NormalizeOverflow(ny, nm, d.day);
    }
  }

  // ---------------------------------------------------------------------------------
  // Arrow dispatch

  /** A call the page makes on a press: to an override prop, or to the list's `scrollToMonth`. */
  datatype Call<H, A> =
    | OverrideCalled(handler: H, trigger: A, month: Day)
    | ScrollToMonthCalled(month: Day)

  /** `_onPressArrowLeft(method, month)`, returning the calls it makes, in order. */
  method PressArrowLeft<H, A>(onPressArrowLeft: Option<H>, hasScrollToMonth: bool, trigger: A, month: Option<Day>)
    returns (calls: seq<Call<H, A>>)
    ensures month.None? ==> calls == []
    ensures month.Some? && onPressArrowLeft.Some? ==> calls == [OverrideCalled(onPressArrowLeft.value, trigger, month.value)]
    ensures month.Some? && onPressArrowLeft.None? && hasScrollToMonth ==> calls == [ScrollToMonthCalled(PreviousMonth(month.value))]
    ensures month.Some? && onPressArrowLeft.None? && !hasScrollToMonth ==> calls == []
  {
    calls := [];
    if month.Some? {
      var monthClone := month.value;
      if onPressArrowLeft.Some? {
        calls := [OverrideCalled(onPressArrowLeft.value, trigger, monthClone)];
      } else if hasScrollToMonth {
        var stepped, _ := StepBack(monthClone);
        calls := [ScrollToMonthCalled(stepped)];
      }
    }
  }

  /** `_onPressArrowRight(method, month)`, returning the calls it makes, in order. */
  method PressArrowRight<H, A>(onPressArrowRight: Option<H>, hasScrollToMonth: bool, trigger: A, month: Option<Day>)
    returns (calls: seq<Call<H, A>>)
    ensures month.None? ==> calls == []
    ensures month.Some? && onPressArrowRight.Some? ==> calls == [OverrideCalled(onPressArrowRight.value, trigger, month.value)]
    ensures month.Some? && onPressArrowRight.None? && hasScrollToMonth ==> calls == [ScrollToMonthCalled(AddMonths(month.value, 1))]
    ensures month.Some? && onPressArrowRight.None? && !hasScrollToMonth ==> calls == []
  {
    calls := [];
    if month.Some? {
      var monthClone := month.value;
      if onPressArrowRight.Some? {
        calls := [OverrideCalled(onPressArrowRight.value, trigger, monthClone)];
      } else if hasScrollToMonth {
        monthClone := AddMonths(monthClone, 1);
        calls := [ScrollToMonthCalled(monthClone)];
      }
    }
  }

  // ---------------------------------------------------------------------------------
  // Visibility gate

  /** The props of the page; the two arrow overrides are of the opaque handler type `H`. */
  datatype ItemProps<M, S, H> = ItemProps(
    item: Day,
    markedDates: Option<map<string, M>>,
    calendarWidth: real,
    calendarHeight: real,
    horizontal: bool,
    hasScrollToMonth: bool,
    style: Option<S>,
    headerStyle: Option<S>,
    onPressArrowLeft: Option<H>,
    onPressArrowRight: Option<H>,
    visible: bool,
    testID: Option<string>)

  /** `[{width: calendarWidth, minHeight: calendarHeight}, propsStyle]` */
  datatype CalendarStyle<S> = CalendarStyle(width: real, minHeight: real, extra: Option<S>)

  /** What an arrow callback prop of the grid is bound to. */
  datatype ArrowProp<H> = WrappedArrowLeft | WrappedArrowRight | Forwarded(handler: Option<H>)

  datatype GridProps<M, S, H> = GridProps(
    current: string,
    style: CalendarStyle<S>,
    headerStyle: Option<S>,
    hideArrows: bool,
    hideExtraDays: bool,
    disableMonthChange: bool,
    markedDates: map<string, M>,
    onPressArrowLeft: ArrowProp<H>,
    onPressArrowRight: ArrowProp<H>,
    testID: Option<string>)

  datatype View<M, S, H> =
    | Placeholder(style: CalendarStyle<S>, text: string)
    | Grid(props: GridProps<M, S, H>)

  function PageStyle<M, S, H>(p: ItemProps<M, S, H>): CalendarStyle<S>
  {
    CalendarStyle(p.calendarWidth, p.calendarHeight, p.style)
  }

  /** The page's render: a sized label when not visible, otherwise the month grid. */
  function Render<M, S, H>(p: ItemProps<M, S, H>, parse: string -> Option<Day>, format: Day -> string)
    : (v: View<M, S, H>)
    ensures v.Placeholder? <==> !p.visible
  {
    var dateString := format(p.item);
    if !p.visible then
      Placeholder(PageStyle(p), dateString)
    else
      Grid(GridProps(
        dateString,
        PageStyle(p),
        if p.horizontal then p.headerStyle else None,
        true,
        true,
        true,
        MonthMarkedDates(p.item, p.markedDates, parse),
        if p.horizontal then WrappedArrowLeft else Forwarded(p.onPressArrowLeft),
        if p.horizontal then WrappedArrowRight else Forwarded(p.onPressArrowRight),
        p.testID))
  }

  /**
    The placeholder has the footprint the grid would have, both sized by the page's width and
    height, and it shows the anchor's date string, as the grid's `current` does.
  */
  lemma PlaceholderFootprint<M, S, H>(p: ItemProps<M, S, H>, parse: string -> Option<Day>, format: Day -> string)
    ensures var hidden := Render(p.(visible := false), parse, format);
      var shown := Render(p.(visible := true), parse, format);
      hidden.Placeholder? && shown.Grid?
      && hidden.style == shown.props.style
      && hidden.style.width == p.calendarWidth && hidden.style.minHeight == p.calendarHeight
      && hidden.text == shown.props.current == format(p.item)
  {
  }

  /**
    A visible page hands the grid only markings of its own month, unchanged, and all of them;
    the grid's own arrows, extra days and month changes are switched off.
  */
  lemma GridGetsMonthMarkings<M, S, H>(p: ItemProps<M, S, H>, parse: string -> Option<Day>, format: Day -> string, key: string)
    requires p.visible
    ensures var g := Render(p, parse, format).props;
      g.hideArrows && g.hideExtraDays && g.disableMonthChange
      && (key in g.markedDates ==>
            p.markedDates.Some? && key in p.markedDates.value && g.markedDates[key] == p.markedDates.value[key]
            && parse(key).Some? && SameMonth(parse(key).value, p.item))
      && (p.markedDates.Some? && key in p.markedDates.value && parse(key).Some? && SameMonth(parse(key).value, p.item) ==>
            key in g.markedDates)
  {
    var g := Render(p, parse, format).props;
    if key in g.markedDates {
      FilterSound(p.item, p.markedDates, parse, key);
    }
    if p.markedDates.Some? && key in p.markedDates.value && parse(key).Some? && SameMonth(parse(key).value, p.item) {
      FilterComplete(p.item, p.markedDates.value, parse, key);
    }
  }

  /** The wrapped arrow handlers reach the grid only on a horizontal list; otherwise the overrides pass through. */
  lemma ArrowWiring<M, S, H>(p: ItemProps<M, S, H>, parse: string -> Option<Day>, format: Day -> string)
    requires p.visible
    ensures var g := Render(p, parse, format).props;
      (g.onPressArrowLeft.WrappedArrowLeft? <==> p.horizontal)
      && (g.onPressArrowRight.WrappedArrowRight? <==> p.horizontal)
      && (!p.horizontal ==>
            g.onPressArrowLeft == Forwarded(p.onPressArrowLeft)
            && g.onPressArrowRight == Forwarded(p.onPressArrowRight)
            && g.headerStyle == None)
      && (p.horizontal ==> g.headerStyle == p.headerStyle)
      && g.testID == p.testID
  {
  }

  // ---------------------------------------------------------------------------------
  // Worked cases

  /** 31 March 2024 steps back to 29 February 2024; 1 January 2024 to 1 December 2023. */
  lemma StepBackExamples()
    ensures PreviousMonth(Date(2024, 3, 31)) == Date(2024, 2, 29)
    ensures PreviousMonth(Date(2023, 3, 31)) == Date(2023, 2, 28)
    ensures PreviousMonth(Date(2024, 1, 1)) == Date(2023, 12, 1)
  {
  }

  /** 31 January 2024 steps forward to 2 March 2024: `addMonths(1)` overflows past February. */
  lemma StepForwardOverflowExample()
    ensures AddMonths(Date(2024, 1, 31), 1) == Date(2024, 3, 2)
  {
    var r := AddMonths(Date(2024, 1, 31), 1);
    AddOneMonth(Date(2024, 1, 31));
    assert DaysInNextMonth(Date(2024, 1, 31)) == 29;
    assert MonthCount(r.year, r.month) == MonthCount(2024, 3);
    CountOfValidMonth(r.year, r.month);
    CountOfValidMonth(2024, 3);
  }
}
