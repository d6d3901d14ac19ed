# Year calendar: layout engine and events route

This project models two parts of a year-at-a-glance calendar web app in Dafny and proves properties about them.

**The year-grid layout engine** (`components/year-calendar.tsx`). The engine works in these steps:

1. It lists the days of a year.
2. It cuts them into rows: in the months view one row per month, and in the weeks view one row per Sunday-started week.
3. It chooses the column count of the flat default grid, so that square cells fit the window.
4. It gives every day a (row, column) cell.
5. It splits each all-day event into one bar segment per row it touches.
6. It packs the segments of a row into lanes, first-fit.
7. It derives each row's height from its lane count.
8. It places every bar in pixels.

The source writes steps 4 to 7 twice, once in the row-height memo and once in the overlay memo. Here each step is defined once, and both computations call the same members.

**The events API route** (`app/api/events/route.ts`). The model covers:

- the `YYYY-MM-DD` shape test `isIsoDateOnly`, which is the `full-date` of section 5.6 of RFC 3339 without range checks;
- `addDaysIsoDateOnly`;
- the early-return validation chain of `POST`;
- the inclusive-to-exclusive end date, which follows the non-inclusive `DTEND` of section 3.6.1 of RFC 5545;
- the `calendarIds` query parameter, split, trimmed and grouped per account;
- the merge of stored and session accounts, with the token refresh and the token filter;
- the `GET` filter and mapping of calendar items to events.

Modules:

- `Dates`: proleptic Gregorian dates, day numbers and weekdays.
- `Rows`: concatenation of rows and row offsets.
- `YearDays`: day generation and the month and week grouping.
- `GridSolver`: the square-grid column search.
- `Layout`: position maps and bar segments.
- `Lanes`: the stable sort and first-fit lane packing.
- `Overlay`: row heights, row tops and bar boxes.
- `Strings`: the JavaScript string operations used, over `seq<char>`.
- `IsoDates`: `isIsoDateOnly` and `addDaysIsoDateOnly`.
- `CalendarSelection`: `calendarIds` parsing, grouping and the fetch plan.
- `Accounts`: the account merge, token refresh and token filter.
- `EventsRoute`: `POST` validation and answer, and the `GET` mapping.
- `Wrappers`: `Option`.

Code that changes state step by step is modelled with methods and loop invariants. This covers:

- day generation and the two grouping loops;
- the column search;
- the position maps and the segment builder;
- the lane packer and the height maps;
- the row-top accumulation and the bar collection;
- the `byId` map, modelled as a class `AccountMap` with an ordered key list;
- the `idsByAccount` grouping.

Each of these methods is proved against a specification function or predicate, and that function's properties are proved as lemmas.

## Model

| member | source | states |
|---|---|---|
| YearDays.GenerateYearDays | components/year-calendar.tsx:48-57 | Both ends go through JavaScript's year rule, which reads years 0..99 as 1900..1999. When either 1 January lies outside JavaScript's date range, the result is empty. Otherwise the result is the run of consecutive days from the first 1 January up to, but not including, the second. So for every year except -1 and 99, it lists every day of the mapped year once, in calendar order, from 1 January to 31 December. Year 99 gives no days, because year 100 comes before 1999. Year -1 runs on to the end of 1899. |
| YearDays.DayRunIsYear | components/year-calendar.tsx:48-57 | A run of a year's length from the year's first day holds exactly that year's days. |
| YearDays.YearDaysEnds | components/year-calendar.tsx:48-57 | A day list of a year starts on 1 January, ends on 31 December, and misses no date of that year. |
| YearDays.GroupDaysByMonth | components/year-calendar.tsx:59-82 | The groups concatenate back to the input. No group is empty. Every day of a group has that group's 0-based month. Adjacent groups have different months. |
| YearDays.MonthPartitionOfYear | components/year-calendar.tsx:59-82 | On a whole year there are exactly 12 groups, and group k has month k and as many days as month k + 1 has. |
| YearDays.MonthOfIndex | components/year-calendar.tsx:48-82 | Day i of a year's list lies in month k + 1 exactly when i lies between the day counts before months k + 1 and k + 2. |
| YearDays.GroupDaysByWeek | components/year-calendar.tsx:84-121 | Leading days are dropped: those before a 1 January that is not a Sunday and comes before every Sunday. The groups concatenate to what remains. The groups are numbered 1, 2, 3, …, none is empty, no group holds a Sunday after its first day, and every group after the first starts on a Sunday. |
| YearDays.WeeksStep | components/year-calendar.tsx:92-114 | Each of the loop's four branches keeps the loop's state description: a Sunday closing a week, a Sunday opening the first week, a 1 January opening the first week, and any other day. |
| YearDays.WeekPartitionOfYear | components/year-calendar.tsx:84-121 | On a whole year the groups concatenate to the whole year and the first starts on 1 January. Every group has at most 7 days. When a second group exists, the first has 7 − weekday(1 January) days. The last group ends on 31 December. |
| YearDays.MiddleWeekLength | components/year-calendar.tsx:92-114 | On a whole year every week group strictly between the first and the last has 7 days. |
| YearDays.FirstWeekMarkerIsFirst | components/year-calendar.tsx:101-110 | The index where the first week opens is the first Sunday or 1 January, and no earlier day is either. |
| GridSolver.ComputeSquareGridColumns | components/year-calendar.tsx:123-152 | For a non-positive width or height the result is (1, 10). Otherwise 1 ≤ cols ≤ max(1, min(totalDays, width)). If some column count fits, the result fits, its cell is the cell size of its count, no fitting count has a larger cell, and every smaller fitting count has a strictly smaller cell. If nothing fits, the result is (1, max(10, width)). |
| GridSolver.NoCellAfterBreak | components/year-calendar.tsx:133-136 | Once the cell size reaches zero, every larger column count also gives a non-positive cell, so the early `break` skips no candidate. |
| Layout.DefaultPositions | components/year-calendar.tsx:287-293 | Every day gets a cell, and every key of the map is a day. Each day sits at the cell (row, col) with row·cols + col equal to its index, using `cols` or 12 when `cols` is 0. |
| Layout.DefaultPositionOfIndex | components/year-calendar.tsx:287-293 | With distinct days, day i sits at (i div cols, i mod cols). |
| Layout.GroupPositions | components/year-calendar.tsx:294-310 | Every day of every row gets a cell, and each cell holds the day mapped to it. |
| Layout.ViewPositions | components/year-calendar.tsx:286-310 | The view picks the map: the default view places the list of days by index, and the months and weeks views place the month or week rows by cell. Every day gets a cell that holds it. The result is `PositionsOf`, the one map both memos use. |
| Layout.GroupPositionOfCell | components/year-calendar.tsx:294-310 | With distinct days, day j of row k sits at (k, j). |
| Layout.YearDaysDistinct | components/year-calendar.tsx:48-57 | The days of a year are pairwise different, so the position maps have no collisions. |
| Layout.AddEventSegments | components/year-calendar.tsx:323-342 | For each row from the start row to the end row, the method appends exactly one segment to that row's list. No other row changes. |
| Layout.AddEvent | components/year-calendar.tsx:314-343 | An event whose first day or day before its end has no cell adds nothing. Otherwise the event adds one segment per row of its span, and no other row changes. |
| Layout.BuildSegments | components/year-calendar.tsx:313-343 | Each row's list holds the segments of the events, in event order. A row is a key of the map exactly when that list is non-empty. |
| Layout.CoverRows | components/year-calendar.tsx:327-341 | The first segment starts at the start column, later ones start at 0, and the last ends after the end column. When every row the bar passes ends at its row's last cell, a cell is covered exactly when its running index lies between those of the first and last day. |
| Layout.DefaultBarsCoverEvent | components/year-calendar.tsx:334-337 | In the default view a day's cell is covered exactly when the day lies in [start, end). No segment passes column `cols`. |
| Layout.MonthsBarsCoverEvent | components/year-calendar.tsx:331-333 | In the months view a day's cell is covered exactly when the day lies in [start, end). No segment passes the end of its month row. |
| Layout.WeeksBarsCoverEvent | components/year-calendar.tsx:329-330 | In the weeks view a day's cell is covered exactly when the day lies in [start, end). This holds when the bar does not run on from a short first week. |
| Layout.WeeksFirstRowOverrun | components/year-calendar.tsx:329-330 | When 1 January is not a Sunday, a bar that starts in the first week and continues onto a later row gets end column 7 on the first row, although that row has fewer than 7 days. |
| Layout.MonthsBarsWide | components/year-calendar.tsx:327-341 | In the months view, an event that ends after it starts has a bar at least one column wide on every month row it spans. |
| Layout.WeeksBarsWide | components/year-calendar.tsx:327-341 | In the weeks view, an event that ends after it starts has a bar at least one column wide on every week row it spans. |
| Layout.DefaultBarsWide | components/year-calendar.tsx:327-341 | In the default view, an event that ends after it starts has a bar at least one column wide on every row it spans. |
| Layout.SegsInRowWide | components/year-calendar.tsx:313-343 | When every event's bars are at least one column wide, every segment the builder puts on a row starts before it ends. |
| Layout.GroupCellsInOrder | components/year-calendar.tsx:294-310 | Along rows of consecutive days, an earlier day's cell is on an earlier row, or on the same row at a column no later. |
| Lanes.ZeroWidthOpensLane | components/year-calendar.tsx:350-360 | A zero-width segment starting where a wider one is busy opens a second lane, although no column is covered twice: the lane count equals the overlap depth only for segments that are not empty. |
| Lanes.PackRow | components/year-calendar.tsx:347-360 | The method returns the segments stably sorted by start column, the first-fit lane of each, and max(1, number of lanes opened). |
| Lanes.SortSorted | components/year-calendar.tsx:348-348 | The sort yields a list sorted by start column that is a permutation of its input. |
| Lanes.SortStable | components/year-calendar.tsx:348-348 | The sort is stable: segments with equal start columns keep their relative order. |
| Lanes.FirstFree | components/year-calendar.tsx:352-355 | The chosen lane is the lowest whose recorded end is at most the segment's start column. It is the lane count when every lane is still busy. |
| Lanes.LanesDisjoint | components/year-calendar.tsx:350-359 | Two segments placed in the same lane do not overlap in columns: the earlier ends at or before the later starts. |
| Lanes.LaneCountCoversDepth | components/year-calendar.tsx:350-360 | The lane count is at least the number of segments covering any column. |
| Lanes.LaneCountIsMaxDepth | components/year-calendar.tsx:350-360 | For a non-empty row of non-empty segments, some column is covered by exactly as many segments as the lane count: first-fit in start order uses exactly the maximum overlap depth. |
| Overlay.MaxLanesPerRow | components/year-calendar.tsx:346-361 | Each row with segments maps to the lane count of its segments, and no other row appears. |
| Overlay.HeightsOf | components/year-calendar.tsx:364-368 | Each row maps to max(base, 16 + 16·lanes + 2), on the same rows. |
| Overlay.RowHeightMonotone | components/year-calendar.tsx:365-367 | The height is at least the base cell and at least 16 + 16·lanes + 2, and it does not decrease as the lane count grows. |
| Overlay.RowHeightsMap | components/year-calendar.tsx:278-371 | With no measured cell height or no events the map is empty. Otherwise it uses the view's position map and the grid built from the view, the column count and the month lengths. It holds exactly the rows with segments, each at the height its segments need. |
| Overlay.NeededHeightIsDepth | components/year-calendar.tsx:346-368 | When every event's bars are at least one column wide, a row with segments needs the height of as many lanes as bars overlap at some column: the lane count is the maximum overlap depth. |
| Overlay.TemplateRows | components/year-calendar.tsx:375-386 | There is one height per row, and it is the row's mapped height, or the base cell when the row has no height or a zero height. |
| Overlay.TemplateOfEvents | components/year-calendar.tsx:383-386 | Every template row has the height its own segments need, and the base cell when it has none. |
| Overlay.TemplateWithoutEvents | components/year-calendar.tsx:279-279 | Without events every row has the base cell height. |
| Overlay.RowPositions | components/year-calendar.tsx:850-856 | Row r's top is the sum over the rows before r of (height + 1), for every row below the row count, and there are no other keys. |
| Overlay.RowsStacked | components/year-calendar.tsx:850-856 | With non-negative heights a row ends strictly above every later row's top. |
| Overlay.BarRightEdge | components/year-calendar.tsx:873-877 | The bar's left is indexColWidth + startCol·(w+1) and its width is span·w + (span−1). So its right edge is indexColWidth + endCol·(w+1) − 1. |
| Overlay.SameLaneApart | components/year-calendar.tsx:873-877 | Two bars in one lane whose column ranges are disjoint are horizontally apart and share their top. |
| Overlay.LanesApart | components/year-calendar.tsx:875-875 | Bars in different lanes of a row do not overlap vertically: the top is rowTop + 16 + 16·lane and the bar height is 14. |
| Overlay.BarInsideRow | components/year-calendar.tsx:875-890 | A bar in a lane below the row's lane count lies below the row's label and inside the row's height. |
| Overlay.RowBars | components/year-calendar.tsx:858-877 | A row's bars are its segments in sorted order, each with its first-fit lane. |
| Overlay.SecondSortSameBars | components/year-calendar.tsx:810-859 | The overlay sorts each row's array in place before counting lanes, then sorts it again before emitting bars. The bars of the re-sorted row equal the bars of one sort, because sorting a sorted row keeps its order. |
| Overlay.RowOverlay | components/year-calendar.tsx:858-877 | The loop that packs a row and emits its bars gives exactly the row's bars. |
| Overlay.RowBarsApart | components/year-calendar.tsx:858-877 | No two bars of a row overlap: those in the same lane are horizontally apart, and those in different lanes are vertically apart. |
| Overlay.TotalRowsCoverDays | components/year-calendar.tsx:836-840 | In the default view every day's row i / c (with c = `cols` or 12) is below the row count `ceil(days / c)`. The last counted row holds a day, and no days give no rows. In the months and weeks views the row count is the group count. |
| Overlay.CollectBars | components/year-calendar.tsx:858-920 | The bars collected are exactly the bars of the rows that have segments, each row placed at its recorded top. |
| Overlay.OverlayBars | components/year-calendar.tsx:722-920 | With no measured width or height there is no overlay. Otherwise a bar is in the result exactly when it is a bar of some row with segments, placed at the top that row's height and the rows above it give. Positions, grid and row count come from the view, days, column count and groups, as in the height memo. |
| Overlay.TopsOfEvents | components/year-calendar.tsx:829-856 | The recorded top of each row with segments is the sum of the heights that the rows above it need. |
| IsoDates.IsoShape | app/api/events/route.ts:104-106 | A string matches exactly when it has length 10, '-' at positions 4 and 7, and digits everywhere else. |
| IsoDates.ShapeOnly | app/api/events/route.ts:104-106 | Month and day ranges are not checked ("2024-13-45" and "0000-00-00" pass). Short fields and trailing text fail. |
| IsoDates.Iso | app/api/events/route.ts:104-106 | The zero-padded `YYYY-MM-DD` text of a date is a matching string whose fields are the padded year, month and day. |
| IsoDates.SplitIso | app/api/events/route.ts:109-109 | `split("-")` cuts a matching string into exactly its three fields. |
| IsoDates.UtcDate | app/api/events/route.ts:110-110 | `Date.UTC` rolls the month index into neighbouring years and the day into neighbouring months, reading years 0..99 as 1900..1999. |
| IsoDates.StartDayNumber | app/api/events/route.ts:109-110 | The start date is the parsed fields, with a month or day of 00 read as 1 and years 0..99 read as 19xx. |
| IsoDates.AddDaysRoundTrip | app/api/events/route.ts:108-116 | For four-digit years before and after, adding n days to a date's text gives the text of the date n days later. Reading that text back gives a day number n larger. |
| IsoDates.NextDayIsLater | app/api/events/route.ts:108-116 | For four-digit years, except 9999-12-31, the next day's text is the text of the next date and sorts after the original text. |
| IsoDates.NextDayTextAfter | app/api/events/route.ts:108-116 | For every text of the `YYYY-MM-DD` shape, the next-day text sorts strictly after it whenever the year it prints is below 10000. A 00 month or day, a roll-over and the 19xx reading only move the date later. |
| IsoDates.NextDayAfterFields | app/api/events/route.ts:109-111 | The day after the date `Date.UTC` starts from comes after the fields it was read from; years 0..99 land in 1900 or later. |
| IsoDates.IsoOfFields | app/api/events/route.ts:104-109 | A text of the `YYYY-MM-DD` shape is the padded text of the three numbers `split` and `parseInt` read from it. |
| IsoDates.TwoDigitYear | app/api/events/route.ts:110-110 | A year field 00..99 is read as 1900..1999, so "0099-12-31" starts from 1999-12-31. |
| IsoDates.PastYear9999 | app/api/events/route.ts:112-115 | One day after "9999-12-31" is "10000-01-01". That text does not match the date-only shape and sorts before the original text. |
| IsoDates.FormatText | app/api/events/route.ts:112-115 | The output prints the year unpadded and pads month and day to two digits. |
| IsoDates.IsoOrder | app/api/events/route.ts:231-231 | For years 0..9999, string `<` on date texts is date order, and equal texts mean equal dates. |
| CalendarSelection.CalendarIdList | app/api/events/route.ts:124-128 | Every id kept is non-empty and contains no ','. |
| CalendarSelection.NonEmptyOnly | app/api/events/route.ts:128-128 | `.filter(Boolean)` on strings: a string is kept exactly when it is non-empty and in the input, and each non-empty string is kept as often as it occurs. |
| CalendarSelection.NonEmptyOnlyAppend | app/api/events/route.ts:128-128 | The filter keeps order: filtering a concatenation concatenates the filtered parts, a non-empty string is kept and an empty one dropped. |
| CalendarSelection.CalendarIdListMembers | app/api/events/route.ts:124-128 | A string is in the list exactly when it is non-empty and is the trim of some comma-separated piece of the parameter (the empty text when it is missing). |
| CalendarSelection.CalendarIdListCases | app/api/events/route.ts:124-128 | A missing or empty parameter selects nothing. A single comma-free, non-blank parameter selects exactly its trimmed text. |
| CalendarSelection.ParseComposite | app/api/events/route.ts:155-156 | An accepted composite yields two non-empty halves without '|'. |
| CalendarSelection.ParseCompositeRoundTrip | app/api/events/route.ts:155-156 | `acc + "|" + cal` parses back to (acc, cal) for non-empty, '|'-free halves. |
| CalendarSelection.ParseCompositeIgnoresRest | app/api/events/route.ts:155-156 | A third '|'-separated piece is ignored. |
| CalendarSelection.GroupByAccount | app/api/events/route.ts:152-161 | An account is a key exactly when some valid composite names it. Its list is the calendars of those composites, in the order listed. |
| CalendarSelection.CalendarsOfValid | app/api/events/route.ts:152-161 | A calendar is in an account's list exactly when the pair (account, calendar) is among the valid composites. |
| CalendarSelection.CalendarsOfCount | app/api/events/route.ts:152-161 | An account's list has one entry per valid composite naming it. |
| CalendarSelection.FetchPrimaryOnly | app/api/events/route.ts:163-168 | With no valid selection, every account reads its "primary" calendar once, in account order. |
| CalendarSelection.FetchSelected | app/api/events/route.ts:163-168 | With a selection, (account, calendar) is read exactly when the account is merged and the calendar is selected for it. |
| Accounts.AccountMap.Set | app/api/events/route.ts:47-47 | `byId.set`: the entry is replaced or added. A new key goes at the end of the iteration order. The class invariant is kept. |
| Accounts.MergeOrder | app/api/events/route.ts:46-67 | The merged map is well formed, and its iteration order is the first appearance of each id among the stored accounts, then the session accounts. So each id appears once. |
| Accounts.MergeKeys | app/api/events/route.ts:46-67 | An id is merged exactly when it belongs to a stored account or a session account. |
| Accounts.SessionStep | app/api/events/route.ts:49-66 | A session account is added when its id is absent. It replaces the existing entry exactly when it has a refresh token and the entry has none, or its expiry (missing = 0) is strictly later. No other entry changes. |
| Accounts.DbOnlyKeepsStored | app/api/events/route.ts:46-48 | An id only stored keeps its last stored entry, marked as stored. |
| Accounts.MergeEntryIsCandidate | app/api/events/route.ts:46-67 | Every merged entry is the last stored entry for its id, or some session account for it. An id that is not stored comes from the session. |
| Accounts.Refresh | app/api/events/route.ts:71-83 | A refresh is attempted exactly when the expiry is missing, zero or before now + 60 s and a refresh token exists. When none is attempted, or it fails, the entry is kept. When one succeeds, the entry takes the new token and expiry. Its old refresh token is kept unless a non-empty new one is returned, since an empty one reads as `undefined`. |
| Accounts.UsableAccounts | app/api/events/route.ts:84-92 | Entries without an access token are dropped, and every account returned has a non-empty token. |
| Accounts.UsableMembers | app/api/events/route.ts:70-93 | An account is returned exactly when it is the refreshed form of some merged entry that has an access token. |
| Accounts.UsableIdsDistinct | app/api/events/route.ts:70-93 | When the entries have distinct ids, no two kept accounts share an id, and each kept id is an entry's id. |
| Accounts.MergedAccountsDistinct | app/api/events/route.ts:46-93 | No account id is returned twice, and every id returned came from the stored or the session accounts. |
| Accounts.RefreshAndKeep | app/api/events/route.ts:70-93 | The refresh-and-filter loop returns the usable refreshed entries in map order. |
| Accounts.MergeAccountsFromDbAndSession | app/api/events/route.ts:30-95 | The method returns the merge of stored and session accounts, refreshed and filtered. The properties above are proved of that merge. |
| EventsRoute.CheckDates | app/api/events/route.ts:225-233 | The dates pass exactly when the start is date-only, the end is missing, null or date-only, and a date-only end does not sort before the start. The last day is then the end if date-only, else the start, and it does not sort before the start. |
| EventsRoute.CheckFieldsAccepts | app/api/events/route.ts:214-238 | The fields pass exactly when the trimmed title is non-empty, the composite has '|', the dates pass and both halves are non-empty. The checked form keeps the title, both halves, the start and the last day. |
| EventsRoute.CheckFieldsFirstFailure | app/api/events/route.ts:219-238 | The checks fail in source order, each with its own failure: title, '|', start date, end date, order of the dates, then the halves. |
| EventsRoute.CheckPostAccepts | app/api/events/route.ts:201-247 | Signed-out requests fail first, then bodies that are not JSON, then the field checks. The request passes exactly when the body passes and some merged account has the composite's account id. The draft holds that account. |
| EventsRoute.MessagesDistinct | app/api/events/route.ts:201-247 | Each failure has its own error text. All are 400 except Unauthorized (401) and Account not found (404). |
| EventsRoute.Find | app/api/events/route.ts:244-244 | An account is found exactly when one has the id, and the one found has it. |
| EventsRoute.ExclusiveEndAfter | app/api/events/route.ts:251-251 | For four-digit years, the exclusive end is the text of the day after the last day, and it sorts strictly after the start. |
| EventsRoute.EndAfterStart | app/api/events/route.ts:249-251 | For a checked form with four-digit dates, the stored end is the day after the last day and sorts strictly after the start date. |
| EventsRoute.StoredEndAfterStart | app/api/events/route.ts:229-251 | For every form the checks accept, real date or not, the stored end sorts strictly after the start date whenever the day after the last day has a year below 10000. |
| EventsRoute.PostFailureText | app/api/events/route.ts:270-277 | A failed create answers with the service's status and a non-empty text: the error message if present, else the description, else "Failed to create event". |
| EventsRoute.PostEventShape | app/api/events/route.ts:279-288 | A created event has calendarId `acc|cal` (which parses back to the halves) and id `acc|cal:id`. Its summary is non-empty, its startDate is the checked start, and its endDate is the exclusive end. |
| EventsRoute.ToEvent | app/api/events/route.ts:189-195 | An item maps to calendarId `acc|cal` (each side falling back to "primary") and id `acc|cal:eventId`, with a non-empty summary and start. |
| EventsRoute.EventsOfResultMembers | app/api/events/route.ts:187-195 | An event comes from a read exactly when it is the mapping of a shown item: one with a start date that is not cancelled. |
| EventsRoute.EventsMembers | app/api/events/route.ts:186-196 | An event is answered exactly when it is the mapping of a shown item of some read. |
| EventsRoute.EventsAppend | app/api/events/route.ts:186-186 | `flatMap` concatenates: the events of two batches of reads are those of the first followed by those of the second. |
| EventsRoute.SameIdScheme | app/api/events/route.ts:189-191 | An event later read back from the created event's calendar carries the same id as the `POST` answer, and its calendar id parses back to the account and calendar. |
| Strings.TrimEmpty | app/api/events/route.ts:214-219 | `trim()` is empty exactly when the text is all white space, so a title of spaces is rejected. |
| Strings.TrimIdempotent | app/api/events/route.ts:214-215 | Trimming twice changes nothing more. |
| Strings.SplitJoin | app/api/events/route.ts:155-155 | `split` is undone by joining the pieces with the separator. |
| Strings.SplitPieces | app/api/events/route.ts:155-155 | No piece of a split contains the separator. |

## Left out

- Dates are the model's own proleptic Gregorian dates, and the date key is the date itself. The source's `formatDateKey` lives in a library that is not part of this model, and the source's mix of local and UTC `Date` constructors is not modelled. JavaScript's rule that reads years 0..99 as 1900..1999 is modelled wherever a year becomes a `Date`: in YearDays.GenerateYearDays and in `addDaysIsoDateOnly`. JavaScript's date range matters only in YearDays.GenerateYearDays and is modelled there, because a four-digit date always lies inside it. Layout events carry dates that are already parsed.
- `expandEventsToDateMap` (components/year-calendar.tsx:24-46) is not modelled. The layout never reads its result.
- `hexToRgba`, `formatDisplayRange`, the popover, menu and edit-form state, all JSX rendering, resize listeners and DOM measurement are left out. The measured cell width is an integer parameter `w`; the source's float width is not modelled.
- The months and weeks `cellWidth` values are not modelled, because the layout never uses them.
- `gridTemplateRows` is modelled as the list of row heights. Writing it into the DOM is left out.
- Lanes.SortByStart: the source sorts with `Array.prototype.sort`, which ECMAScript 2019 requires to be stable. The model uses a stable insertion sort and proves stability.
- Layout.DefaultBarsCoverEvent: assumes `gridDims.cols >= 1`, which the column search always returns. With `cols` 0 the source places days in 12 columns but ends rows at column −1; that case is not covered.
- Layout.WeeksBarsCoverEvent: excludes bars that start in a short first week and continue onto a later row. Layout.WeeksFirstRowOverrun states what happens to those bars instead.
- A zero-length event (end equal to start) resolves to its previous day's cell, as in the source. No lemma states its segments.
- The two copies of the segment, lane and height code are one definition each here, so no lemma compares the copies. The overlay's second in-place sort of each row is covered by Overlay.SecondSortSameBars.
- Overlay.CollectBars: picks the rows of the segment map in no stated order, so the order of the returned bars is not modelled. The source pushes them in the Map's insertion order. The contract states the set of bars, and Overlay.RowBarsApart shows that no two of them overlap.
- `startOfYearIso` and `endOfYearIso` are not modelled, because they only feed the network query.
- Network and authentication are inputs, not modelled operations: the session, `getFreshGoogleAccountsForUser`, every `fetch` to the calendar service, and `NextResponse`.
- The token refresh is a map from account id to `Refreshed`; an id with no entry is a refresh that failed. The clock (`Date.now()`) is a parameter.
- `NotNullish` treats `undefined` and `null` alike. Any JSON value other than a string is one `JsOther`, and a non-string `id` or `summary` from the service reads as missing.
- `Promise.all` keeps the order of reads, so `Events` takes the reads in fetch order.
- A `null` entry in `items` is filtered out, as `e?.start?.date` does.
- IsoDates.IsoOrder: stated for years 0..9999, the only ones a matching text can hold.
- IsoDates.AddDaysRoundTrip: stated for four-digit years 1000..9999 before and after. Years 0..99 are read as 19xx (IsoDates.TwoDigitYear), and years 100..999 print unpadded.
- IsoDates.NextDayIsLater: the same year bound; the one exception, 9999-12-31, is IsoDates.PastYear9999.
- EventsRoute.EndAfterStart: the exact end text is stated only for real dates with four-digit years. Years 0..99 and texts that are not real dates, such as "2024-02-30", are not covered by this lemma. EventsRoute.StoredEndAfterStart states the order for them too.
- EventsRoute.StoredEndAfterStart: requires the day after the last day to have a year below 10000. That day can print a five-digit year, for a last day of "9999-12-31" or "9999-13-01". The order then can fail; for 9999-12-31 it does (IsoDates.PastYear9999).
- EventsRoute.Find: states that an account with the id is found, not that it is the first one. Merged ids are distinct (Accounts.MergedAccountsDistinct), so there is only one.
- `JSON.stringify` of the create request is not modelled; the model takes the service's reply as an input.
- app/api/calendars/route.ts and app/api/preferences/route.ts are not part of this model. The first repeats the account merge; the second is database persistence.
