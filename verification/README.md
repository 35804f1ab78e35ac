# Batch history selector of the sorter dashboard, in Dafny

The analytics screen of the sorter dashboard shows the batches the device
recorded. Given the batch records and the screen's view state, it works out
four things:

- which records belong to the time window on screen, and in what order;
- which record drives the pie and quality charts;
- which years, and which months of a year, the archive picker offers;
- the percentages shown beside the chart legend.

The view state moves between three modes: the live month (`current`), the
archive date picker (`archive-menu`) and one archived month (`archive-view`).
Its buttons and the navigation reset drive it.

This project models that selector as pure functions over immutable
datatypes and proves what the screen relies on:

- the filter keeps exactly the records of the target month;
- the list is ordered by id and not by timestamp, with a stable sort;
- the active record is always drawn from the list;
- the archive lists are duplicate-free, descending and independent of record order;
- the percentage never divides by zero;
- every state the buttons can reach keeps the archive selection consistent, so an
  archived month is never empty.

Files:

- `options.dfy`: `Option`, for JavaScript's `null`/`undefined`.
- `sequences.dfy`: the stable descending sort (`Array.prototype.sort` with a
  `b - a` comparator) and de-duplication (`Array.from(new Set(...))`, its order left
  open because every caller sorts the result).
- `dates.dfy`: `parseDate`, `formatDate`, and decimal rendering with `padStart`.
- `batches.dfy`: batch records, the empty sentinel `{}`, chart values, `getPercent`.
- `selector.dfy`: `filteredBatches`, `activeBatch`, `availableYears`, `getMonthsForYear`.
- `view_state.dfy`: the `viewMode` / `archiveYear` / `archiveMonth` / `selectedBatchId` state machine.
- `scenarios.dfy`: worked examples on concrete records.

Parameters stand in for what the model does not reimplement:

- `DateReader` stands for JavaScript's `new Date(s)` together with its
  `isNaN(d.getTime())` test. It is an arbitrary partial function from strings to
  local date fields, with the month in 0..11.
- `dateLabel` stands for `toLocaleDateString`.
- The clock reading `currentDate`, taken once on mount, is the `now` parameter.
- The records on screen (`dbData`) are the `records` parameter. They are `[]`
  until the fetch started on mount resolves and the response after that;
  `ViewStates.ReachableViewsAcrossLoad` covers that one change.

Behaviours of `AnalyticsTab.jsx` the model keeps:

- "Back to Live Data" (line 240) clears the archive year and month but not
  `selectedBatchId`. Only the navigation reset (lines 54-61) clears it.
- The back arrow of the date picker (line 251) only changes `viewMode`, so
  `archiveYear` stays set. A year can therefore stay set while the live month
  is shown, and reopening the archive goes straight to that year's months.
- A year counts as chosen when `archiveYear` is truthy. A year 0 therefore
  reads as not chosen (`YearChosen`).
- The percentage is `Math.round((val / total) * 100)` with `total || 1`. A
  zero total, or the missing total of the empty record `{}`, is replaced by 1,
  so the division is always defined.

## Model

| member | source | states |
|---|---|---|
| Sequences.SortDesc | src/features/analytics/AnalyticsTab.jsx:76 | The sorted list is in non-increasing key order and is a permutation (same multiset) of the input |
| Sequences.SortDescStable | src/features/analytics/AnalyticsTab.jsx:76 | The sort is stable: for every key, the elements with that key appear in the same relative order as in the input |
| Sequences.SortDescStrict | src/features/analytics/AnalyticsTab.jsx:76 | With distinct keys in the input, the sorted list keeps them distinct and is strictly descending |
| Sequences.StrictlyDescUnique | src/features/analytics/AnalyticsTab.jsx:89 | Two strictly descending sequences with the same elements are equal, so a sorted de-duplicated list is determined by its element set |
| Sequences.Filter | src/features/analytics/AnalyticsTab.jsx:70-75 | `s.filter(p)` holds exactly the elements of `s` that satisfy `p` |
| Sequences.FilterMultiset | src/features/analytics/AnalyticsTab.jsx:70-75 | Filtering keeps every satisfying element as often as it occurs and drops every other element |
| Sequences.FilterWithKey | src/features/analytics/AnalyticsTab.jsx:70-75 | Filtering then picking one key's elements equals picking then filtering, so the filter keeps input order |
| Sequences.FilterKeepsDistinctKeys | src/features/analytics/AnalyticsTab.jsx:70-75 | Filtering a list with distinct keys leaves the keys distinct |
| Sequences.Distinct | src/features/analytics/AnalyticsTab.jsx:85-88 | `Array.from(new Set(s))` holds exactly the elements of `s`, each once |
| Sequences.DistinctDesc | src/features/analytics/AnalyticsTab.jsx:85-89 | De-duplicate then sort descending: exactly the elements of the input, strictly descending |
| Sequences.DistinctDescSameElements | src/features/analytics/AnalyticsTab.jsx:84-90 | The de-duplicated descending list depends only on which numbers occur, not on their order or repetitions |
| Dates.ReplaceFirstSpace | src/features/analytics/AnalyticsTab.jsx:13 | `replace(' ', 'T')` keeps the length and changes exactly the first space, to `T`; every other character is kept |
| Dates.ParseDate | src/features/analytics/AnalyticsTab.jsx:10-16 | A missing or empty timestamp is never a date; any other timestamp reaches the reader with its first space turned into `T` |
| Dates.ParseDateSeesIsoForm | src/features/analytics/AnalyticsTab.jsx:12-14 | A server stamp `YYYY-MM-DD HH:MM:SS` reaches the date reader as `YYYY-MM-DDTHH:MM:SS` |
| Dates.ParseDateWithoutSpace | src/features/analytics/AnalyticsTab.jsx:13-14 | A non-empty timestamp without a space reaches the reader unchanged |
| Dates.NatToString | src/features/analytics/AnalyticsTab.jsx:118 | The decimal rendering of an hour is all digits, denotes the number, and has no leading zero |
| Dates.PadStart | src/features/analytics/AnalyticsTab.jsx:118 | `padStart` yields the longer of the input and the width, ends with the input and is filled with the pad character in front |
| Dates.MinuteText | src/features/analytics/AnalyticsTab.jsx:118 | The minute renders as exactly two digits that denote the minute |
| Dates.FormatDate | src/features/analytics/AnalyticsTab.jsx:115-119 | The result is `--:--` exactly when the timestamp is unreadable; otherwise it is the date label, ` - `, the hour in one or two digits without a leading zero pad, `:` and two digits giving the minute |
| Batches.PieValues | src/features/analytics/AnalyticsTab.jsx:107-111 | The slices of a batch are its large, medium and small counts, in that order; all zero on the empty sentinel |
| Batches.QualityValues | src/features/analytics/AnalyticsTab.jsx:113 | The quality slices of a batch are its good then its bad count; both zero on the empty sentinel |
| Batches.Denominator | src/features/analytics/AnalyticsTab.jsx:122 | The denominator (`total`, or 1 when that is zero or missing) is at least 1; it is the total when positive and 1 for a zero total or the sentinel |
| Batches.RoundHalfUp | src/features/analytics/AnalyticsTab.jsx:123 | The result is the integer nearest to `n / d`, halves rounded up (`2dr <= 2n + d < 2dr + 2d`) |
| Batches.Percent | src/features/analytics/AnalyticsTab.jsx:121-124 | `getPercent(val)` is the integer nearest to `100 * val / denominator`, halves rounded up, with a denominator of at least 1 |
| Batches.PercentOfZero | src/features/analytics/AnalyticsTab.jsx:121-124 | A zero count is 0 % |
| Batches.PercentOfTotal | src/features/analytics/AnalyticsTab.jsx:121-124 | With a positive total, the total itself is exactly 100 % |
| Batches.PercentMonotone | src/features/analytics/AnalyticsTab.jsx:121-124 | A larger count never shows a smaller percentage |
| Batches.PercentAtMostHundred | src/features/analytics/AnalyticsTab.jsx:121-124 | A count no larger than the total shows at most 100 % |
| Batches.SentinelShowsZero | src/features/analytics/AnalyticsTab.jsx:107-124 | On the empty sentinel every chart value, and every percentage beside it, is 0 |
| Selector.Matching | src/features/analytics/AnalyticsTab.jsx:70-75 | The filter keeps each record of the target month with its multiplicity and drops every other record, including all unreadable ones; distinct ids stay distinct |
| Selector.FilteredBatches | src/features/analytics/AnalyticsTab.jsx:64-77 | Empty in the date picker. Otherwise a permutation of exactly the records whose timestamp reads into the target year and month: the clock's in the live view, the archive selection otherwise. Ordered by id descending, strictly when ids are unique |
| Selector.FilteredBatchesStable | src/features/analytics/AnalyticsTab.jsx:70-76 | The listed records of any one id are exactly that id's records in the window, in the order the server sent them |
| Selector.FilteredBatchesOrderFree | src/features/analytics/AnalyticsTab.jsx:64-77 | With unique ids the list depends only on which records there are, not on the order they arrived in |
| Selector.FindSelected | src/features/analytics/AnalyticsTab.jsx:81 | `find` returns the first position whose id equals the selection, or none when no position does (always none without a selection) |
| Selector.ActiveBatch | src/features/analytics/AnalyticsTab.jsx:79-82 | The sentinel exactly when the list is empty. Otherwise a member of the list: the first record with the selected id if there is one, else the head |
| Selector.DefaultActiveIsNewest | src/features/analytics/AnalyticsTab.jsx:79-82 | Without a selection inside the window, the charts show the window's record with the largest id, whatever the timestamps |
| Selector.YearsOf | src/features/analytics/AnalyticsTab.jsx:85-88 | The mapped-and-filtered year list holds exactly the years of readable records |
| Selector.AvailableYears | src/features/analytics/AnalyticsTab.jsx:84-90 | Exactly the years of readable timestamps, without duplicates, strictly descending |
| Selector.MonthsOf | src/features/analytics/AnalyticsTab.jsx:93-100 | The filtered month list holds exactly the months (0..11) of readable records in the year |
| Selector.MonthsForYear | src/features/analytics/AnalyticsTab.jsx:92-102 | Exactly the months (0..11) of readable records in the year, without duplicates, strictly descending; empty exactly when the year has no readable record |
| Selector.AvailableYearsOrderFree | src/features/analytics/AnalyticsTab.jsx:84-90 | The year list depends only on the set of records, not their order |
| Selector.MonthsForYearOrderFree | src/features/analytics/AnalyticsTab.jsx:92-102 | The month list depends only on the set of records, not their order |
| Selector.OfferedMonthIsNonEmpty | src/features/analytics/AnalyticsTab.jsx:64-102 | Viewing a month the picker offers for a year lists at least one record |
| ViewStates.Step | src/features/analytics/AnalyticsTab.jsx:54-276 | Navigation resets to the live view with year, month and selection cleared. "View Past Logs" opens the picker. "Back to Live Data" clears year and month but keeps the selection. The picker's back arrow returns to live without clearing the year. Picking a year or a month sets it, and a month opens the archived view. "Change" clears the year. A row click selects its id. A control that is not on screen changes nothing |
| ViewStates.InitInv | src/features/analytics/AnalyticsTab.jsx:34-37 | The initial state satisfies the reachability invariant |
| ViewStates.StepInv | src/features/analytics/AnalyticsTab.jsx:235-279 | Every event keeps the invariant. A set year is one the archive offers. A month is set only in the archived view, and there it is offered for the chosen year |
| ViewStates.RunInv | src/features/analytics/AnalyticsTab.jsx:235-279 | Any sequence of events keeps the invariant |
| ViewStates.ReachableViews | src/features/analytics/AnalyticsTab.jsx:248-281 | In every state reachable from entry over one set of records, an archived month lists at least one record and the date picker lists none |
| ViewStates.LoadKeepsInv | src/features/analytics/AnalyticsTab.jsx:33-49 | Replacing the initial empty records by the fetched ones keeps the invariant, whatever state the user reached meanwhile |
| ViewStates.ReachableViewsAcrossLoad | src/features/analytics/AnalyticsTab.jsx:33-49 | For any actions before the fetch resolves and any after, the reached state keeps the invariant, an archived month lists at least one record and the date picker lists none |
| ViewStates.ReopenKeepsYear | src/features/analytics/AnalyticsTab.jsx:251 | Back arrow then "View Past Logs" returns to the picker with the same year and month as before |
| ViewStates.SelectionSurvivesBackToLive | src/features/analytics/AnalyticsTab.jsx:240 | Selecting a row of an archived month and going back to live leaves that id selected, with year and month cleared |
| Scenarios.TwoInWindow | src/features/analytics/AnalyticsTab.jsx:70-76 | Two records of the shown month are listed larger id first, whatever their timestamps |
| Scenarios.ReadsServerStamp | src/features/analytics/AnalyticsTab.jsx:10-16 | A 19-character server stamp parses to whatever the reader gives its ISO 8601 form |
| Scenarios.SingleMonthArchive | src/features/analytics/AnalyticsTab.jsx:84-102 | If every readable record falls in one month of one year, and at least one does, the picker offers exactly that year and that month |
| Scenarios.Eleven | src/features/analytics/AnalyticsTab.jsx:118 | Hour 11 renders as `11` |
| Scenarios.Thirty | src/features/analytics/AnalyticsTab.jsx:118 | Minute 30 renders as `30`, without padding |
| Scenarios.LiveMonthExample | src/features/analytics/AnalyticsTab.jsx:64-82 | Two March 2024 records viewed live in March 2024 are listed as [id 2, id 1], and id 2 drives the charts |
| Scenarios.FormatExample | src/features/analytics/AnalyticsTab.jsx:115-119 | `2024-03-06 11:30:00` renders as `Mar 6 - 11:30` when the locale label of the date is `Mar 6` |
| Scenarios.IdBeatsTimestampExample | src/features/analytics/AnalyticsTab.jsx:76 | Id 6 stamped 1 January is listed before id 5 stamped 2 January |
| Scenarios.UnreadableRecordExample | src/features/analytics/AnalyticsTab.jsx:84-102 | A `not-a-date` record beside two March 2024 records leaves the years as [2024] and the months as [2] |

## Left out

- Fetching the records and logging (`useEffect` at lines 42-52): the request itself is not modelled. The records change once, from the initial `[]` (line 33) to the response (line 49), possibly after the user has already acted; `ViewStates.LoadKeepsInv` carries the invariant across that change. A failed fetch leaves `[]`, which is one more fixed set of records.
- The `requestAnimationFrame` deferral of the navigation reset and its `location.pathname` guard: the reset is one immediate `Navigate` event.
- Rendering: recharts, styling, the page title, the month-name header, the "records found" count, the empty-list message and the row label `batch_number || '?'`. These are markup, with no logic beyond what is modelled.
- JavaScript `Date` parsing, local time zones and day-overflow rollover: the `DateReader` parameter stands for them.
- `toLocaleDateString`: a locale-dependent call, the `dateLabel` parameter.
- Batches.Percent: computes the exact round-half-up of `100 * val / total` over naturals. The source computes `(val / total) * 100` in binary floating point, which can fall just below or above a `.5` boundary and round the other way.
- Batches.BatchRecord: the counts are non-negative integers that are always present. Missing or `null` fields of a real record, and non-numeric ids, are not modelled. Only the `{}` sentinel exercises the `|| 0` defaults.
- Sequences.SortDesc: the comparator `b.id - a.id` is modelled as exact integer comparison. Float subtraction of very large ids is not modelled.
- The other screens and the server (control panel, notifications, layout, routing, `backend/server.py`): polling, fire-and-forget commands and SQL, outside the selector.
