# CalendarListItem: a Dafny model

This project models the date logic of `CalendarListItem`, one month "page" of the
react-native-calendars month list (`src/calendar-list/item.tsx`). The page does three
things, and the model covers each:

- **Month-window filter** (`monthMarkedDates`). The page has an anchor date `item`. The
  filter keeps the entries of the `markedDates` map whose date-string key falls between the
  first and the last day of that month, both included. The last day is computed as
  "first day + 1 month − 1 day". A key that does not parse is an invalid date. Both
  comparisons fail on it, so it is dropped.
- **Month stepping and arrow dispatch** (`_onPressArrowLeft`, `_onPressArrowRight`). The left
  step subtracts one month with XDate's `addMonths(-1)`, which can overflow: 31 March becomes
  "31 February", that is 2 or 3 March. A loop then walks back one day at a time while the
  month is still the original one. The right step is a plain `addMonths(1)`. An override
  handler, when present, receives the un-stepped month. Otherwise `scrollToMonth`, when
  present, receives the stepped one.
- **Visibility gate**. A page that is not visible renders a label holding the date string,
  sized like the grid. A visible page renders the grid with arrows, extra days and month
  changes switched off, and with the filtered map. The wrapped arrow handlers go to the grid
  only on a horizontal list.

Modules:

- `Wrappers` (`wrappers.dfy`): `Option`.
- `CalendarDate` (`calendar_date.dfy`): XDate with the time of day cleared. A day is
  (year, month 1–12, day) in the proleptic Gregorian calendar, and the subset type `Day`
  holds exactly the in-range ones. `Normalize` is JavaScript's rule for out-of-range fields
  (month 13, day 0, 31 February). `SetDate`, `AddMonths` and `AddDays` are built on it.
  `DayNumber` is a serial day count. XDate compares time values, and `DayNumberOrder` proves
  that on day-truncated dates this is calendar order.
- `CalendarListItem` (`calendar_list_item.dfy`): the filter, as a function
  (`MonthMarkedDates`) and as the loop that fills the result dictionary
  (`FilterMarkedDates`). Also the steps, the dispatch, and `Render`.

Two consequences of the code are worth stating on their own:

- The right step has no day correction: 31 January 2024 steps forward to 2 March 2024,
  because `addMonths(1)` overflows past February (`AddOneMonth`,
  `StepForwardOverflowExample`).
- The left step's correction loop runs at most 3 times, because `addMonths(-1)` overshoots
  into the original month by at most 31 − 28 days (`StepBack`).

## Model

| member | source | states |
|---|---|---|
| `CalendarDate.DayNumberOrder` | src/calendar-list/item.tsx:35 | Comparing two day-truncated dates by time value agrees with calendar order (year, then month, then day), and equal time values mean equal days. |
| `CalendarListItem.MonthWindowBounds` | src/calendar-list/item.tsx:30-31 | `setDate(1)` gives day 1 of the anchor's month, and `addMonths(1).addDays(-1)` from there gives the last day of the same month, in every month including December and leap Februaries. |
| `CalendarListItem.InMonthWindowIff` | src/calendar-list/item.tsx:34-35 | A parsed key passes both window comparisons if and only if its day is in the anchor's year and month. |
| `CalendarListItem.MonthWindowBoundaries` | src/calendar-list/item.tsx:30-35 | The first and last day of the month are inside the window. The day before the first day and the day after the last day are outside it. |
| `CalendarListItem.MonthMarkedDates` | src/calendar-list/item.tsx:26-41 | The filtered map that the grid receives: empty when the markings are absent; otherwise its keys are keys of `markedDates`, each keeping its original value, and an unparseable key is never among them. |
| `CalendarListItem.FilterMarkedDates` | src/calendar-list/item.tsx:27-40 | The key-by-key loop builds exactly the map of `MonthMarkedDates`: empty when the markings are absent, otherwise the input entries whose key is in the window. |
| `CalendarListItem.FilterSound` | src/calendar-list/item.tsx:30-37 | Every kept key is a key of `markedDates` with the same value, and it parses to a day between 1 and the last day of the anchor's month. |
| `CalendarListItem.FilterComplete` | src/calendar-list/item.tsx:33-37 | Every key of `markedDates` that parses to a day of the anchor's month is kept, with its value. |
| `CalendarListItem.FilterDegradation` | src/calendar-list/item.tsx:27-36 | Absent markings give an empty map. An unparseable key is never kept. The kept keys are a subset of the input keys. |
| `CalendarListItem.PreviousMonth` | src/calendar-list/item.tsx:59-64 | The target of the left step is exactly one calendar month earlier (January goes to December of the year before), on day min(original day, length of that month). |
| `CalendarListItem.SubtractOneMonth` | src/calendar-list/item.tsx:60 | `addMonths(-1)` gives the same day of the previous month when it exists. Otherwise it overflows to day 1, 2 or 3 of the original month. |
| `CalendarListItem.StepBack` | src/calendar-list/item.tsx:59-64 | The subtract-then-walk-back loop ends on `PreviousMonth` of its input. It makes at most 3 corrections, and none exactly when the original day exists in the previous month. |
| `CalendarListItem.AddOneMonth` | src/calendar-list/item.tsx:76 | `addMonths(1)` gives the same day of the next month when it exists there. Otherwise it lands two calendar months later, on day (original day − length of the next month), which is at most 3. |
| `CalendarListItem.PressArrowLeft` | src/calendar-list/item.tsx:53-68 | No month gives no call. An override gets exactly one call, with the un-stepped month, and `scrollToMonth` is not called. Otherwise `scrollToMonth` is called once with `PreviousMonth` of the month. With neither, nothing is called. |
| `CalendarListItem.PressArrowRight` | src/calendar-list/item.tsx:70-80 | No month gives no call. An override gets exactly one call, with the un-stepped month. Otherwise `scrollToMonth` is called once with `addMonths(1)` of the month. With neither, nothing is called. |
| `CalendarListItem.Render` | src/calendar-list/item.tsx:82-102 | The page renders the placeholder exactly when it is not visible, and the grid exactly when it is. |
| `CalendarListItem.PlaceholderFootprint` | src/calendar-list/item.tsx:43-92 | The placeholder and the grid get the same style, sized by `calendarWidth` and `calendarHeight`. The placeholder shows the anchor's date string, which is also the grid's `current`. |
| `CalendarListItem.GridGetsMonthMarkings` | src/calendar-list/item.tsx:94-97 | A visible grid gets arrows and extra days hidden and month changes disabled. Its marking map holds all of the page month's entries and only those, each with its original value. |
| `CalendarListItem.ArrowWiring` | src/calendar-list/item.tsx:93-100 | The wrapped arrow handlers reach the grid exactly when the list is horizontal, and so does `headerStyle`. Otherwise the override props pass through unchanged and no header style is passed. `testID` always passes through. |
| `CalendarListItem.StepBackExamples` | src/calendar-list/item.tsx:59-64 | 2024-03-31 steps back to 2024-02-29, 2023-03-31 to 2023-02-28, and 2024-01-01 to 2023-12-01. |
| `CalendarListItem.StepForwardOverflowExample` | src/calendar-list/item.tsx:76 | 2024-01-31 steps forward to 2024-03-02. |

## Left out

- React mechanics: `React.memo`, the `useMemo`/`useCallback` caches and their dependency lists. The derived values are plain functions of their inputs.
- XDate objects are mutable, and the handlers clone the reported month and then mutate the clone. The model treats dates as values: a clone is a copy, and the stepped clone is a local variable. The caller's month therefore cannot change, which is what the clone ensures in the source.
- Time of day, time zones and millisecond time values. Dates are day-truncated, and comparisons use the serial day number, which orders days as their midnight time values do.
- `toMarkingFormat` and XDate's string parser are not part of this model. They are the parameters `format` and `parse`, and a parse that fails (an invalid date) is `None`. Keys that parse to a time later than midnight on the window's last day would be excluded by the source; the model's parse yields whole days only.
- The `Calendar` grid component is not part of this model. The model records only the props the page sets explicitly; the spread of all other props (`{...props}`) is not modelled.
- `scrollToMonth` and the two override handlers are external callbacks. A press returns the list of calls it makes instead of making them. `scrollToMonth` is modelled by its presence alone.
- Style values other than width and minimum height, theme, and `testID` are opaque values passed through. Width and height are JavaScript numbers, modelled as `real`.
- The "rendered" notification hook described for the list is not in this file and is not modelled.
