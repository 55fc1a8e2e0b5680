# Browser widget exercises, modelled in Dafny

This project models the logic of a set of small browser components and helpers from a
JavaScript course repository:

- three data helpers: `trimSymbols`, `createGetter` and `sortStrings`;
- three generations of a sortable table: client sorting, header clicks, then paged loading;
- a notification message, a column chart and a double slider;
- a date-range picker and a drag-and-drop sortable list.

Each source file is one Dafny module. Shared pieces have modules of their own:

- `Common` holds optional values, JavaScript results and errors, and number-to-text.
- `SortEngine` holds `Array.prototype.sort` as a stable insertion sort whose comparator may
  throw, plus the in-place `reverse`.
- `Calendar` holds proleptic Gregorian dates, with the overflow rules of `Date.setMonth`
  and `Date.setDate`.

Pure code is written as functions with lemmas. Components whose fields change are classes
with `modifies` clauses: the getter, the tables, the picker, the list, the slider, the
notification and the chart. Loops that update state are methods with invariants, each
proved against a function that specifies it.

The page is not modelled; each class keeps only what its handlers read and write. For
example, the sortable list is a sequence of item and placeholder nodes. The notification's
page is a set of attached notifications, a shared slot and a map of pending timers.

Pointer geometry, `localeCompare`, the current date and fetched pages are parameters.

## Model

| member | source | states |
|---|---|---|
| SortEngine.InsertionSortPermutes | 02-javascript-data-types/1-sort-strings/index.js:9-18 | a sort that completes returns a permutation of its input |
| SortEngine.SortedElementsFromInput | 02-javascript-data-types/1-sort-strings/index.js:9-18 | every element of a sorted result comes from the input |
| SortEngine.InsertionSortSucceeds | 02-javascript-data-types/1-sort-strings/index.js:9-18 | when no comparison between two elements throws, the sort completes |
| SortEngine.InsertionSortOrdered | 02-javascript-data-types/1-sort-strings/index.js:9-18 | with a comparator that never throws and is antisymmetric, no adjacent pair of the result is out of order |
| SortEngine.InsertionSortAllEqual | 05-dom-document-loading/2-sortable-table-v1/index.js:106-115 | a comparator that calls every pair equal leaves the array as it was (the sort is stable) |
| SortEngine.InsertionSortAlwaysThrows | 05-dom-document-loading/2-sortable-table-v1/index.js:112-113 | a comparator that always throws throws out of the sort once there are two elements, and never on fewer |
| SortEngine.InsertionSortThrowsIffMixed | 02-javascript-data-types/1-sort-strings/index.js:10 | when the comparator throws exactly between elements of different classes, the sort throws exactly when both classes occur |
| SortEngine.PrefixFailure | 02-javascript-data-types/1-sort-strings/index.js:9-18 | once sorting a prefix throws, the whole sort throws the same error |
| SortEngine.SortInPlace | 02-javascript-data-types/1-sort-strings/index.js:9-18 | the in-place sort leaves the sorted array, or reports the error the sort throws |
| SortEngine.InsertAt | 02-javascript-data-types/1-sort-strings/index.js:9-18 | one insertion step sorts `a[i]` into the sorted prefix and leaves the rest of the array alone |
| SortEngine.ReversedTwice | 02-javascript-data-types/1-sort-strings/index.js:19 | reversing twice gives the original order |
| SortEngine.ReversedPermutes | 02-javascript-data-types/1-sort-strings/index.js:19 | reversing keeps the same elements |
| SortEngine.ReverseInPlace | 02-javascript-data-types/1-sort-strings/index.js:19 | `reverse()` in place leaves the mirrored array |
| TrimSymbols.RunLength | 03-objects-arrays-intro-to-testing/3-trim-symbols/index.js:15-27 | the `length` counter at position i is at least 1 and at most i + 1 |
| TrimSymbols.TrimSymbols | 03-objects-arrays-intro-to-testing/3-trim-symbols/index.js:7-30 | the loop computes the specified trimming; a size of 0 or less gives the empty string and an absent size gives the input back |
| TrimSymbols.TrimmedSelectsKept | 03-objects-arrays-intro-to-testing/3-trim-symbols/index.js:12-29 | the output is the input with some characters dropped, so it is never longer |
| TrimSymbols.TrimmedLastRun | 03-objects-arrays-intro-to-testing/3-trim-symbols/index.js:15-27 | the output ends with the input's last character, repeated min(last run, size) times |
| TrimSymbols.TrimmedCapsEveryRun | 03-objects-arrays-intro-to-testing/3-trim-symbols/index.js:15-27 | each maximal run of n equal characters becomes a run of min(n, size), runs kept in order |
| TrimSymbols.TrimmedRunsBounded | 03-objects-arrays-intro-to-testing/3-trim-symbols/index.js:15-27 | no character repeats more than `size` times in a row in the output |
| TrimSymbols.TrimmedUnchanged | 03-objects-arrays-intro-to-testing/3-trim-symbols/index.js:16-26 | an input with no run longer than `size` is returned unchanged |
| TrimSymbols.TrimSymbolsIdempotent | 03-objects-arrays-intro-to-testing/3-trim-symbols/index.js:15-29 | trimming twice with the same size is trimming once |
| CreateGetter.Get | 03-objects-arrays-intro-to-testing/1-create-getter/index.js:11-12 | reading a property throws on undefined and null; an object gives its own property or undefined; a string gives its length for `length` and the one-character string for an index; other primitives give undefined |
| CreateGetter.KeyIndex | 03-objects-arrays-intro-to-testing/1-create-getter/index.js:10-12 | a key names a string index exactly when it is the decimal text of a number below the length |
| CreateGetter.HasOwn | 03-objects-arrays-intro-to-testing/1-create-getter/index.js:10 | `hasOwnProperty` throws on undefined and null; it is true exactly for an object's own keys and for a string's `length` and indices, and false on numbers and booleans |
| CreateGetter.Split | 03-objects-arrays-intro-to-testing/1-create-getter/index.js:7 | `split('.')` gives at least one segment and no segment contains a dot |
| CreateGetter.JoinSplit | 03-objects-arrays-intro-to-testing/1-create-getter/index.js:7 | joining the segments with dots gives the path back |
| CreateGetter.SplitJoin | 03-objects-arrays-intro-to-testing/1-create-getter/index.js:7 | splitting dot-free segments joined with dots gives the segments back |
| CreateGetter.Walk | 03-objects-arrays-intro-to-testing/1-create-getter/index.js:9-13 | a call leaves a suffix of the segments it was given, and a call that returns a value consumes at least one |
| CreateGetter.WalkFollowsPath | 03-objects-arrays-intro-to-testing/1-create-getter/index.js:9-13 | when the path up to its last segment leads through own properties of objects and strings, the getter reads the last segment there and consumes the whole path |
| CreateGetter.WalkStopsAtMissingKey | 03-objects-arrays-intro-to-testing/1-create-getter/index.js:10-12 | at a missing key the getter returns undefined and leaves the segments after it unconsumed |
| CreateGetter.WalkThrowsThroughNullish | 03-objects-arrays-intro-to-testing/1-create-getter/index.js:10-11 | descending into an own property that is undefined or null throws a TypeError |
| CreateGetter.WalkStringLength | 03-objects-arrays-intro-to-testing/1-create-getter/index.js:9-13 | `'a.length'` on `{a: "abc"}` gives 3, and `'a.length.x'` gives undefined with the whole list consumed |
| CreateGetter.WalkStringIndex | 03-objects-arrays-intro-to-testing/1-create-getter/index.js:9-13 | `'a.0'` on `{a: "xyz"}` gives `"x"` |
| CreateGetter.SingleSegment | 03-objects-arrays-intro-to-testing/1-create-getter/index.js:10-12 | a path without dots reads that one property |
| CreateGetter.SecondCallReadsUndefined | 03-objects-arrays-intro-to-testing/1-create-getter/index.js:11-12 | once a call has consumed the path, the next call reads the property named "undefined" |
| CreateGetter.Getter.constructor | 03-objects-arrays-intro-to-testing/1-create-getter/index.js:7 | the getter starts with the path's segments |
| CreateGetter.Getter.GetValue | 03-objects-arrays-intro-to-testing/1-create-getter/index.js:9-13 | each call returns what the walk over the remaining segments gives and keeps what it leaves |
| SortStrings.Lower | 02-javascript-data-types/1-sort-strings/index.js:10 | `toLowerCase` changes exactly the upper-case letters, moving them up, and keeps ASCII within ASCII |
| SortStrings.CompareStrings | 02-javascript-data-types/1-sort-strings/index.js:9-18 | the comparator throws a TypeError exactly when one string is empty and the other not, and two empty strings go to `localeCompare` |
| SortStrings.SortStrings | 02-javascript-data-types/1-sort-strings/index.js:7-20 | the copy is sorted and, for `desc`, reversed as specified, or the comparator's error is reported; the input is untouched |
| SortStrings.SortStringsPermutes | 02-javascript-data-types/1-sort-strings/index.js:8-20 | the result has exactly the input's strings |
| SortStrings.DescReversesAsc | 02-javascript-data-types/1-sort-strings/index.js:19 | `desc` succeeds exactly when `asc` does and is its reverse; any other parameter means `asc` |
| SortStrings.SortStringsThrowsIffEmptyMixed | 02-javascript-data-types/1-sort-strings/index.js:10 | the sort throws exactly when the array holds both an empty and a non-empty string |
| SortStrings.UpperCaseFirst | 02-javascript-data-types/1-sort-strings/index.js:10-14 | of two strings whose first letters differ only in case, the upper-case one comes first |
| SortStrings.HighCodeBeforeAscii | 02-javascript-data-types/1-sort-strings/index.js:15-16 | a string starting above code 128 comes before one starting in ASCII |
| SortStrings.DefersToLocale | 02-javascript-data-types/1-sort-strings/index.js:17 | outside those two rules the comparator is `localeCompare` |
| SortStrings.SortStringsOrdered | 02-javascript-data-types/1-sort-strings/index.js:9-19 | with an antisymmetric `localeCompare` and no empty string mixed in, `asc` is ordered by the comparator and `desc` in the opposite order |
| SortableTableV1.FindColumn | 05-dom-document-loading/2-sortable-table-v1/index.js:101 | `find` gives the first column with the field's id, or none when no column has it |
| SortableTableV1.OrderSign | 05-dom-document-loading/2-sortable-table-v1/index.js:103-104 | `asc` means 1, `desc` means -1 and anything else has no sign |
| SortableTableV1.CompareCells | 05-dom-document-loading/2-sortable-table-v1/index.js:106-115 | the comparator throws "Unknown sorting type" for a type other than number and string, a TypeError on a non-text string cell, and compares as equal without an order |
| SortableTableV1.SortRows | 05-dom-document-loading/2-sortable-table-v1/index.js:99-116 | `sortData` gives the specified sorted copy of the rows or the error it throws |
| SortableTableV1.SortDataPermutes | 05-dom-document-loading/2-sortable-table-v1/index.js:99-116 | sorting keeps the same rows |
| SortableTableV1.SortDataUnknownColumn | 05-dom-document-loading/2-sortable-table-v1/index.js:101-102 | a field no column has throws a TypeError |
| SortableTableV1.SortDataUnknownType | 05-dom-document-loading/2-sortable-table-v1/index.js:112-113 | an unknown sort type throws once two rows are compared and never for fewer rows |
| SortableTableV1.SortDataUnknownOrderKeeps | 05-dom-document-loading/2-sortable-table-v1/index.js:103-111 | an order other than `asc` and `desc` leaves the rows as they were |
| SortableTableV1.SortDataNumbersOrdered | 05-dom-document-loading/2-sortable-table-v1/index.js:108-109 | a number column comes out non-decreasing for `asc` and non-increasing for `desc` |
| SortableTableV1.SortDataStringsOrdered | 05-dom-document-loading/2-sortable-table-v1/index.js:110-111 | a string column comes out in `localeCompare` order, reversed for `desc` |
| SortableTableV1.ArrowsMarkSortedColumn | 05-dom-document-loading/2-sortable-table-v1/index.js:118-127 | the sorted column's marker is the order and every other column's marker is empty |
| SortableTableV1.RowCells | 05-dom-document-loading/2-sortable-table-v1/index.js:35-43 | a row has one cell per column in column order, through the column's template when it has one |
| SortableTableV1.BodyRows | 05-dom-document-loading/2-sortable-table-v1/index.js:45-55 | the body has one row per data item, in order |
| SortableTableV1.SortableTable.constructor | 05-dom-document-loading/2-sortable-table-v1/index.js:5-10 | the table keeps its columns and data, with no order markers |
| SortableTableV1.SortableTable.SetArrow | 05-dom-document-loading/2-sortable-table-v1/index.js:118-127 | the loop clears every marker and marks the sorted column, or throws a TypeError after clearing when no column has the field |
| SortableTableV1.SortableTable.Sort | 05-dom-document-loading/2-sortable-table-v1/index.js:93-97 | the data become the sorted rows and the markers are set, or nothing changes and the error is reported |
| SortableTableV2.NextOrder | 06-events-practice/1-sortable-table-v2/index.js:117-123 | the next order is `asc`, `desc` or empty, and empty exactly for an unknown current order |
| SortableTableV2.GetOrderValue | 06-events-practice/1-sortable-table-v2/index.js:114-125 | another column gets the empty order and the clicked column gets the next order |
| SortableTableV2.NextOrderAlternates | 06-events-practice/1-sortable-table-v2/index.js:118-121 | `asc` and `desc` alternate, and a fresh column goes to `desc` and then `asc` |
| SortableTableV2.ClickMarkers | 06-events-practice/1-sortable-table-v2/index.js:106-108 | only the clicked column carries the new order; every other marker is empty |
| SortableTableV2.SortableTable.constructor | 06-events-practice/1-sortable-table-v2/index.js:5-24 | the table keeps its columns, data and sort, and the sorted column is marked with its order |
| SortableTableV2.SortableTable.Render | 06-events-practice/1-sortable-table-v2/index.js:83-90 | with a sorted column the data are sorted by it (default order `asc`), or the error is reported |
| SortableTableV2.SortableTable.Sort | 06-events-practice/1-sortable-table-v2/index.js:141-177 | sorting on the client replaces the data with the sorted rows or reports the error |
| SortableTableV2.SortableTable.HandleClick | 06-events-practice/1-sortable-table-v2/index.js:98-112 | a non-sortable column changes nothing; otherwise the markers, the sort state and the data follow the next order |
| SortableTableV3.FirstSortable | 07-async-code-fetch-api-part-1/2-sortable-table-v3/index.js:13 | `find` gives the first sortable column, or none |
| SortableTableV3.DefaultField | 07-async-code-fetch-api-part-1/2-sortable-table-v3/index.js:12-15 | the sort field is the given id, else the first sortable column's id; without either the constructor throws |
| SortableTableV3.SortableTable.constructor | 07-async-code-fetch-api-part-1/2-sortable-table-v3/index.js:10-44 | defaults of step 30, no local sorting and order `asc`; the first page window is 0 to step; the first load is pending |
| SortableTableV3.SortableTable.StartLoad | 07-async-code-fetch-api-part-1/2-sortable-table-v3/index.js:141-150 | a load with the current search parameters becomes pending and the table is loading |
| SortableTableV3.SortableTable.Resolve | 07-async-code-fetch-api-part-1/2-sortable-table-v3/index.js:130-157 | a finished load stops loading: a scroll load appends its page, a server sort replaces the data, the first load replaces them (sorted on the client when asked) |
| SortableTableV3.SortableTable.Reject | 07-async-code-fetch-api-part-1/2-sortable-table-v3/index.js:151 | a failed fetch drops its load and leaves the table loading and the data as they were |
| SortableTableV3.SortableTable.HandleScroll | 07-async-code-fetch-api-part-1/2-sortable-table-v3/index.js:196-209 | near the bottom and not loading, the window moves by one step and a page is requested for appending; otherwise nothing changes |
| SortableTableV3.SortableTable.HandleClick | 07-async-code-fetch-api-part-1/2-sortable-table-v3/index.js:164-194 | on a sortable column, only it carries the next order, the window resets, and the data are sorted on the client or reloaded from the server |
| Calendar.DaysIn | 08-forms-fetch-api-part-2/2-range-picker/index.js:202-203 | a month has between 28 and 31 days |
| Calendar.FirstOfNextMonth | 08-forms-fetch-api-part-2/2-range-picker/index.js:202 | the first of the next month is a valid date one month on |
| Calendar.LastOfPrevMonth | 08-forms-fetch-api-part-2/2-range-picker/index.js:203 | `setDate(0)` gives the last day of the previous month |
| Calendar.SetMonth | 08-forms-fetch-api-part-2/2-range-picker/index.js:112 | `setMonth` keeps the day when the target month has it; otherwise the date overflows into the month after |
| Calendar.Weekday | 08-forms-fetch-api-part-2/2-range-picker/index.js:215 | `getDay()` is between 0 and 6 |
| Calendar.WeekdayNextDay | 08-forms-fetch-api-part-2/2-range-picker/index.js:224 | the next day of the month is the next weekday |
| RangePicker.LoopMark | 08-forms-fetch-api-part-2/2-range-picker/index.js:153-159 | the loop marks a cell `from` when it is the start, `to` when it is the end and not the start, and `between` when it lies strictly inside the range |
| RangePicker.FirstIndex | 08-forms-fetch-api-part-2/2-range-picker/index.js:163 | `querySelector` finds the first cell with the value, or none |
| RangePicker.HighlightClasses | 08-forms-fetch-api-part-2/2-range-picker/index.js:141-175 | after the loop and the two extra marks, a cell has each class exactly in the cases stated |
| RangePicker.HighlightExclusive | 08-forms-fetch-api-part-2/2-range-picker/index.js:153-174 | with distinct ends a cell has at most one class; a one-day range marks its first cell both `from` and `to` |
| RangePicker.RenderHighlight | 08-forms-fetch-api-part-2/2-range-picker/index.js:141-175 | the loop over the cells gives the specified classes |
| RangePicker.GetDayOfWeek | 08-forms-fetch-api-part-2/2-range-picker/index.js:205-208 | Sunday goes to column 7 and every other day keeps its number |
| RangePicker.NextDayNextColumn | 08-forms-fetch-api-part-2/2-range-picker/index.js:205-208 | the next weekday is in the next column, and Sunday wraps to Monday |
| RangePicker.MonthGrid | 08-forms-fetch-api-part-2/2-range-picker/index.js:195-228 | the whole month's grid, which the loop is meant to build: one button per day of the month |
| RangePicker.SetDateWithinMonth | 08-forms-fetch-api-part-2/2-range-picker/index.js:224 | `setDate` within the month moves only the day |
| RangePicker.GridAsWritten | 08-forms-fetch-api-part-2/2-range-picker/index.js:198-225 | the grid built is the whole month exactly when the next month has the shown day; otherwise it stops before the month's end |
| RangePicker.LastDayAsWrittenDay | 08-forms-fetch-api-part-2/2-range-picker/index.js:198-203 | as written, `lastDay` is the month's last day unless the next month is shorter than the shown day; then it is a day before the shown one. Up to the 28th it is always the month's last day |
| RangePicker.LastDayAsWrittenBounds | 08-forms-fetch-api-part-2/2-range-picker/index.js:198-203 | the as-written `lastDay` is a day of the shown month, and the grid stops there |
| RangePicker.GetDaysOfMonth | 08-forms-fetch-api-part-2/2-range-picker/index.js:195-228 | the method builds the as-written grid: `date` on the first of the month and `lastDay` found with `setMonth(+1)` and `setDate(0)` on the shown date |
| RangePicker.EmitDays | 08-forms-fetch-api-part-2/2-range-picker/index.js:210-225 | the loop emits the month's buttons in order, from the first up to and including `lastDay`, each in its weekday column |
| RangePicker.GridColumnsAdvance | 08-forms-fetch-api-part-2/2-range-picker/index.js:210-225 | consecutive buttons sit in consecutive weekday columns |
| RangePicker.LastDayAsWrittenCutsJanuary | 08-forms-fetch-api-part-2/2-range-picker/index.js:198-203 | as written, for 31 January 2023 the "last day" is 28 February, so January's grid stops at 28 |
| RangePicker.LastDayIsMonthEnd | 08-forms-fetch-api-part-2/2-range-picker/index.js:198-203 | corrected half of the Findings row: taken from the first of the month, the last day is the end of the shown month |
| RangePicker.ShiftMonthAsWrittenSkips | 08-forms-fetch-api-part-2/2-range-picker/index.js:131-139 | as written, `next` from 31 January and `prev` from 31 March both land on 3 March |
| RangePicker.ShiftMonthAsWrittenMoves | 08-forms-fetch-api-part-2/2-range-picker/index.js:131-139 | as written, a shift moves `delta` months, and one more when the target month is shorter than the shown day; up to the 28th it moves exactly `delta` |
| RangePicker.ShiftMonthExact | 08-forms-fetch-api-part-2/2-range-picker/index.js:131-139 | corrected half of the Findings row: the shift from the first of the month moves exactly `delta` months |
| RangePicker.ShownMonthsAsWrittenGap | 08-forms-fetch-api-part-2/2-range-picker/index.js:107-112 | as written, the second calendar shows the next month, or the month after it when the next month is shorter than the shown day |
| RangePicker.ShownMonthsAsWrittenSkipsFebruary | 08-forms-fetch-api-part-2/2-range-picker/index.js:107-112 | as written, from 31 January 2023 the calendars show January, cut at the 28th, and March |
| RangePicker.ShownMonthsConsecutive | 08-forms-fetch-api-part-2/2-range-picker/index.js:107-112 | corrected half of the Findings row: moved on from the first of the month, the two calendars show consecutive months |
| RangePicker.SecondClick | 08-forms-fetch-api-part-2/2-range-picker/index.js:74-79 | the second click gives the two dates in order, from no later than to |
| RangePicker.RangePicker.constructor | 08-forms-fetch-api-part-2/2-range-picker/index.js:14-19 | absent `from` and `to` become the current time; the picker starts closed, selecting `from`, and the calendar opens on the date of `from` |
| RangePicker.RangePicker.RenderCalendar | 08-forms-fetch-api-part-2/2-range-picker/index.js:107-129 | the two grids are the as-written grids of the shown date and of that date moved on by `setMonth`; up to the 28th the months are consecutive and the first grid is whole |
| RangePicker.RangePicker.CellClick | 08-forms-fetch-api-part-2/2-range-picker/index.js:60-92 | a first click starts a range, a second completes it in order, closes the picker and dispatches the selection; a cell without a value changes nothing |
| RangePicker.RangePicker.DocumentClick | 08-forms-fetch-api-part-2/2-range-picker/index.js:40-47 | a click outside closes an open picker; nothing else changes |
| RangePicker.RangePicker.InputClick | 08-forms-fetch-api-part-2/2-range-picker/index.js:49-52 | a click on the input toggles the picker |
| RangePicker.RangePicker.Prev | 08-forms-fetch-api-part-2/2-range-picker/index.js:131-134 | as written: the shown date becomes `setMonth(month - 1)` of itself, one month back, or no move at all when the previous month is shorter than the shown day; exactly one month back up to the 28th |
| RangePicker.RangePicker.Next | 08-forms-fetch-api-part-2/2-range-picker/index.js:136-139 | as written: the shown date becomes `setMonth(month + 1)` of itself, one month on, or two when the next month is shorter than the shown day; exactly one month on up to the 28th |
| RangePicker.RangePicker.Destroy | 08-forms-fetch-api-part-2/2-range-picker/index.js:267-283 | the element goes, the picker selects `from` again and both ends become the current date; once the element is gone, a further `destroy` throws a TypeError and changes nothing |
| SortableList.Rendered | 09-tests-for-frontend-apps/2-sortable-list/index.js:144-150 | the list has one distinct item per given item, in order |
| SortableList.RenderedItems | 09-tests-for-frontend-apps/2-sortable-list/index.js:144-150 | the rendered list's items are 0, 1, …, n - 1 |
| SortableList.DropAfterStart | 09-tests-for-frontend-apps/2-sortable-list/index.js:66-111 | grabbing an item and dropping it without moving puts the list back as it was |
| SortableList.StartDragItems | 09-tests-for-frontend-apps/2-sortable-list/index.js:66-69 | grabbing moves the item to the front and adds exactly one placeholder |
| SortableList.DroppedNodes | 09-tests-for-frontend-apps/2-sortable-list/index.js:110-111 | dropping removes exactly the placeholder |
| SortableList.StartDragSteps | 09-tests-for-frontend-apps/2-sortable-list/index.js:66-69 | `after` then `prepend` give the grabbed list, and its nodes stay distinct |
| SortableList.StepUpSteps | 09-tests-for-frontend-apps/2-sortable-list/index.js:127-129 | `previous.before(placeholder)` swaps the placeholder with the node above it |
| SortableList.StepDownSteps | 09-tests-for-frontend-apps/2-sortable-list/index.js:131-133 | `next.after(placeholder)` swaps the placeholder with the node below it |
| SortableList.DropSteps | 09-tests-for-frontend-apps/2-sortable-list/index.js:110-111 | `after` then `remove` put the item in the placeholder's slot, and the nodes stay distinct |
| SortableList.MovedPlaceholderKeeps | 09-tests-for-frontend-apps/2-sortable-list/index.js:122-134 | moving the placeholder keeps the items in order and the nodes distinct |
| SortableList.MoveSteps | 09-tests-for-frontend-apps/2-sortable-list/index.js:122-134 | the two conditional moves in sequence give the specified placeholder move |
| SortableList.DownAfterUp | 09-tests-for-frontend-apps/2-sortable-list/index.js:127-133 | when both moves fire, the placeholder ends one place below where it started |
| SortableList.SortableList.constructor | 09-tests-for-frontend-apps/2-sortable-list/index.js:8-12 | the list renders its items in order, with nothing dragged |
| SortableList.SortableList.PointerDown | 09-tests-for-frontend-apps/2-sortable-list/index.js:34-74 | off an item nothing happens; the delete handle removes the item; the grab handle starts a drag with one placeholder in the item's place |
| SortableList.SortableList.RemoveAt | 09-tests-for-frontend-apps/2-sortable-list/index.js:45-47 | deleting removes exactly that item |
| SortableList.SortableList.BeginDrag | 09-tests-for-frontend-apps/2-sortable-list/index.js:49-73 | the grabbed item goes to the front with a placeholder after its old place |
| SortableList.SortableList.PointerMove | 09-tests-for-frontend-apps/2-sortable-list/index.js:89-98 | the placeholder moves as specified and the items keep their order |
| SortableList.SortableList.PointerUp | 09-tests-for-frontend-apps/2-sortable-list/index.js:100-115 | the item takes the placeholder's slot and the placeholder is gone |
| DoubleSlider.Round | 06-events-practice/3-double-slider/index.js:159-160 | `Math.round` is within half a unit of its argument |
| DoubleSlider.RoundMonotone | 06-events-practice/3-double-slider/index.js:159-160 | rounding keeps the order |
| DoubleSlider.UpdateOffsetsInRange | 06-events-practice/3-double-slider/index.js:142-145 | for a selection inside the range both offsets lie in 0..100, add up to at most 100, and are 0 at the ends of the range |
| DoubleSlider.GetValueEnds | 06-events-practice/3-double-slider/index.js:154-163 | a 0% offset gives exactly `min` or `max` |
| DoubleSlider.GetValueOrdered | 06-events-practice/3-double-slider/index.js:154-163 | while the offsets add up to at most 100, `from` is never above `to` |
| DoubleSlider.HundredRangeExact | 06-events-practice/3-double-slider/index.js:142-163 | in exact arithmetic, with a range of 100, reading back the offsets set by `update` gives the selection exactly |
| DoubleSlider.UpdateThenGetValue | 06-events-practice/3-double-slider/index.js:142-163 | reading back the offsets set by `update` loses less than a percent of the range plus half a unit, towards the inside |
| DoubleSlider.ClampOffset | 06-events-practice/3-double-slider/index.js:95-127 | a dragged offset never overlaps the other thumb, is never negative, and follows the pointer until it is capped |
| DoubleSlider.DoubleSlider.constructor | 06-events-practice/3-double-slider/index.js:5-34 | defaults of min 100, max 200, a `$` formatter and the whole range; the labels show the selection, and `update` gives the thumbs exactly the whole-percent offsets of the selection |
| DoubleSlider.DoubleSlider.Update | 06-events-practice/3-double-slider/index.js:142-152 | the thumbs and the progress bar get exactly the whole-percent offsets of the selection; nothing else changes |
| DoubleSlider.DoubleSlider.PointerDown | 06-events-practice/3-double-slider/index.js:69-84 | the grabbed thumb and its shift are recorded, the dragging class is added and the listeners attached; the thumbs, labels, selection and events stay |
| DoubleSlider.DoubleSlider.PointerMove | 06-events-practice/3-double-slider/index.js:86-128 | the dragged thumb and the progress bar take the clamped offset, its label shows the new value, the other thumb stays, and the thumbs stay on the track; the selection, shift, class and grab stay |
| DoubleSlider.DoubleSlider.PointerUp | 06-events-practice/3-double-slider/index.js:130-140 | the class and the listeners go, and a `range-select` event carries the values, ordered while the thumbs are on the track; everything else stays |
| DoubleSlider.DoubleSlider.Remove | 06-events-practice/3-double-slider/index.js:165-169 | the element leaves the page; nothing else changes |
| DoubleSlider.DoubleSlider.DestroyAsWritten | 06-events-practice/3-double-slider/index.js:171-175 | as written, destroying removes the element but leaves the document listeners attached; nothing else changes |
| DoubleSlider.DoubleSlider.Destroy | 06-events-practice/3-double-slider/index.js:171-175 | as intended, destroying removes the element and the listeners; nothing else changes |
| DoubleSlider.DestroyAsWrittenKeepsListening | 06-events-practice/3-double-slider/index.js:171-175 | a slider destroyed during a drag still listens to the document |
| DoubleSlider.DestroyStopsListening | 06-events-practice/3-double-slider/index.js:171-175 | with the intended `destroy`, the same drag leaves no listener |
| Notification.Document.Fire | 05-dom-document-loading/1-notification/index.js:40 | a timer firing removes its notification and keeps at most one shown |
| Notification.NotificationMessage.constructor | 05-dom-document-loading/1-notification/index.js:7-12 | defaults of an empty message, 2000 ms and type `success` |
| Notification.NotificationMessage.Remove | 05-dom-document-loading/1-notification/index.js:44-49 | the last timer is cleared and the element detached; nothing else changes |
| Notification.NotificationMessage.Show | 05-dom-document-loading/1-notification/index.js:34-42 | the active notification is removed and its timer cleared, this one is attached with a new timer set to remove it, and it takes the slot; no other timer changes, and at most one stays shown |
| Notification.NotificationMessage.DestroyAsWritten | 05-dom-document-loading/1-notification/index.js:51-55 | as written, destroying empties the shared slot whoever holds it |
| Notification.NotificationMessage.Destroy | 05-dom-document-loading/1-notification/index.js:51-55 | as intended, the slot is emptied only by its holder, and at most one notification stays shown |
| Notification.DestroyAsWrittenShowsTwo | 05-dom-document-loading/1-notification/index.js:51-55 | show one, show two, destroy one, show three: two notifications end up attached |
| Notification.DestroyShowsOne | 05-dom-document-loading/1-notification/index.js:51-55 | with the intended `destroy`, the same steps leave one shown |
| ColumnChart.MaxOf | 04-oop-basic-intro-to-dom/1-column-chart/index.js:18 | `Math.max` of the data is one of them and no smaller than any |
| ColumnChart.Columns | 04-oop-basic-intro-to-dom/1-column-chart/index.js:14-22 | there is one column per data point |
| ColumnChart.ColumnHeightsBounded | 04-oop-basic-intro-to-dom/1-column-chart/index.js:17-18 | for data that are not negative, every column is 0 to 50 high |
| ColumnChart.TallestColumnFull | 04-oop-basic-intro-to-dom/1-column-chart/index.js:17-19 | the largest point gets height 50 and tooltip `100%` |
| ColumnChart.ColumnsMonotone | 04-oop-basic-intro-to-dom/1-column-chart/index.js:17-18 | with a positive maximum, a larger point never gets a shorter column |
| ColumnChart.Header | 04-oop-basic-intro-to-dom/1-column-chart/index.js:24-38 | the header is `null` without a value, and otherwise the value, through `formatHeading` when given |
| ColumnChart.ZeroValueShowsNull | 04-oop-basic-intro-to-dom/1-column-chart/index.js:8 | a value of 0 is read as absent, so its header shows `null` |
| ColumnChart.LoadingExactlyWithoutColumns | 04-oop-basic-intro-to-dom/1-column-chart/index.js:30-41 | a chart given properties is loading exactly when it draws no column; one built without properties is always loading |
| ColumnChart.ColumnChart.constructor | 04-oop-basic-intro-to-dom/1-column-chart/index.js:3-12 | every property is read with `\|\| null`, and the element is rendered at once |
| ColumnChart.ColumnChart.Update | 04-oop-basic-intro-to-dom/1-column-chart/index.js:54-57 | the data are replaced and the element rendered again |
| ColumnChart.ColumnChart.Destroy | 04-oop-basic-intro-to-dom/1-column-chart/index.js:59-65 | the element is dropped and the data are kept |

## Left out

- Markup, CSS classes and styles are left out. Elements are described by the parts the handlers read: rows, cells, markers, nodes, offsets, labels.
- The page structure is reduced to what the handlers touch: `querySelector`, `closest`, `dataset` and listener bookkeeping.
- `localeCompare`, `toLocaleString` and month and day names are caller-supplied parameters, because locale data is not modelled.
- Pointer positions, bounding rectangles and scroll heights are given as numbers or as the booleans the handlers compute from them.
- `fetch`, `await` and timers are modelled as pending operations that the caller resolves, rejects or fires, in any order.
- Strings are sequences of characters. UTF-16 surrogates and `codePointAt` beyond one code unit are left out.
- SortStrings.Lower: `toLowerCase` covers only ASCII and the Cyrillic letters А–Я and Ё. Other scripts keep their case.
- Floating point is left out. Slider offsets and chart shares are exact reals, and `parseFloat` and the `'%'` strings carry offsets unchanged.
- JavaScript's implicit coercions are left out (a number cell compared as a string, `undefined` in arithmetic, `!size` on strings). Cells are numbers, text or undefined.
- SortEngine: `Array.prototype.sort` is a stable insertion sort. Engines may compare in another order, so which pair throws first and the order under an inconsistent comparator may differ. The "throws exactly when …" results hold for any comparison sort, but are proved here only for this one.
- Calendar: dates carry no time of day and no time zone, and `toISOString` is the date itself.
- Calendar.SetDate accepts days 0 to one past the month's end. These are the only ones the picker uses.
- SortableTableV3.SortableTable.constructor requires a sort field, either given or found as a sortable column. Without one, the source throws a TypeError in its default parameters, before any state exists. `url` and the date `range` are not modelled.
- SortableList: a second pointer-down during a drag (multi-touch) is left out. The item's style and its dragging class are left out.
- DoubleSlider.DoubleSlider.constructor: a range with `min == max` divides by zero and is excluded.
- DoubleSlider.DoubleSlider.PointerMove: a zero-width track is excluded for the same reason.
- DoubleSlider: `ondrag` is left out.
- ColumnChart: data whose largest point is 0 give `NaN` heights and are excluded.
- ColumnChart: the link markup is left out; the title is its text. `formatHeading` receives a number.
- Notification: the parent container is one page. The message markup is left out.
- Notification.NotificationMessage.Show requires an element. `append(null)` on a destroyed notification would insert the text "null".
- RangePicker: month and weekday names and the date formatting in the inputs are left out.
- RangePicker.RangePicker.Destroy takes the current date as a parameter.
- RangePicker.RangePicker.constructor takes the current time and the timestamp-to-date conversion (`LocalDate`) as parameters. A `from` or `to` of `null` makes the source throw in `formatDate`, and is not modelled.
- CreateGetter.Get: inherited properties (those of `Object.prototype` and `String.prototype`, such as `toString`) read as undefined, because the model has no prototype chain and no function values.
- CreateGetter.WalkStopsAtMissingKey: holds only for keys no prototype provides. An inherited key such as `toString` makes the source return that function instead.
- DoubleSlider.HundredRangeExact: holds in exact arithmetic only. In double precision, `29 / 100 * 100` is 28.999999999999996, so `update` writes 28 and `getValue` reads 128 back for a selection starting at 129.
- Lemmas about the comparator, such as SortStrings.SortStringsOrdered and SortableTableV1.SortDataStringsOrdered, assume an antisymmetric `localeCompare`. They are stated under that assumption only.

## Findings

| source | as written | input that shows it | evidently intended | confidence | as-written member | corrected member |
|---|---|---|---|---|---|---|
| 08-forms-fetch-api-part-2/2-range-picker/index.js:198-203 | the last day is found by `setMonth(+1)` then `setDate(0)` on the shown date itself | shown date 31 January 2023: February 31 overflows to 3 March, and `setDate(0)` gives 28 February, so January's grid stops at day 28 | take the last day from the first of the month, giving the shown month's last day | not executed | RangePicker.LastDayAsWritten, RangePicker.LastDayAsWrittenCutsJanuary | RangePicker.LastDay, RangePicker.LastDayIsMonthEnd |
| 08-forms-fetch-api-part-2/2-range-picker/index.js:131-139 | `prev` and `next` call `setMonth(±1)` on a date that keeps its day | 31 January plus one month is 3 March, and 31 March minus one month is 3 March too, so February is skipped or never left | move by whole months from the first of the month | not executed | RangePicker.ShiftMonthAsWritten, RangePicker.ShiftMonthAsWrittenSkips | RangePicker.ShiftMonth, RangePicker.ShiftMonthExact |
| 08-forms-fetch-api-part-2/2-range-picker/index.js:107-112 | `renderCalendar` finds the second month with `setMonth(+1)` on a copy of the shown date, which keeps its day | shown date 31 January 2023: the copy becomes 3 March, so the picker shows January and March | show the month after the shown one, moving on from the first of the month | not executed | RangePicker.ShownMonthsAsWritten, RangePicker.ShownMonthsAsWrittenSkipsFebruary | RangePicker.ShownMonths, RangePicker.ShownMonthsConsecutive |
| 05-dom-document-loading/1-notification/index.js:51-55 | `destroy` empties the shared active slot even when another notification holds it | show A, show B, destroy A, show C: C's `show` finds the slot empty and does not remove B, so B and C are both shown until B's own timer fires | empty the slot only when this notification holds it | not executed | Notification.NotificationMessage.DestroyAsWritten, Notification.DestroyAsWrittenShowsTwo | Notification.NotificationMessage.Destroy, Notification.DestroyShowsOne |
| 06-events-practice/3-double-slider/index.js:171-175 | `destroy` unregisters `onThumbPointerMove` and `onThumbPointerUp`, which the slider never registered | press a thumb, then destroy: the pointer-move and pointer-up handlers stay on the document | unregister `pointerMoveHandler` and `pointerUpHandler` | not executed | DoubleSlider.DoubleSlider.DestroyAsWritten, DoubleSlider.DestroyAsWrittenKeepsListening | DoubleSlider.DoubleSlider.Destroy, DoubleSlider.DestroyStopsListening |
