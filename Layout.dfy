/**
  Where days and event bars go in the year grid.  The three views lay the
  days out in rows: the default view row by row in `cols` columns, the
  months view one row per month, the weeks view one row per week.  A
  position map sends each day to its (row, column) cell, and each all-day
  event becomes one segment per row it touches: a half-open column range
  [startCol, endCol).
 */
module Layout {
  import opened Dates
  import opened Rows
  import opened YearDays

  datatype View = Default | Months | Weeks

  /** `cols || fallback`: JavaScript replaces a zero column count by the fallback. */
  function ColsOr(cols: nat, fallback: nat): nat {
    if cols == 0 then fallback else cols
  }

  predicate Distinct<T(==)>(s: seq<T>) {
    forall i, j :: 0 <= i < j < |s| ==> s[i] != s[j]
  }

  /** The days of a year are pairwise different. */
  lemma {:induction false} YearDaysDistinct(days: seq<Date>, year: int)
    requires IsYearDays(days, year)
    ensures Distinct(days)
  {
    forall i, j | 0 <= i < j < |days|
      ensures days[i] != days[j]
    {
      assert DayNumber(days[i]) < DayNumber(days[j]);
    }
  }

  // ------------------------------------------------------------ positions

  /** Every day in `pos` sits at a cell of the default grid that holds it. */
  ghost predicate DefaultPlaced(days: seq<Date>, cols: int, pos: map<Date, Cell>)
    requires cols >= 1
  {
    forall d :: d in pos ==>
      && 0 <= pos[d].row && 0 <= pos[d].col < cols
      && pos[d].row * cols + pos[d].col < |days|
      && days[pos[d].row * cols + pos[d].col] == d
  }

  /** Every day in `pos` sits at a cell of `rows` that holds it. */
  ghost predicate GroupPlaced(rows: seq<seq<Date>>, pos: map<Date, Cell>) {
    forall d :: d in pos ==>
      && 0 <= pos[d].row < |rows| && 0 <= pos[d].col < |rows[pos[d].row]|
      && rows[pos[d].row][pos[d].col] == d
  }

  /** The default view's map as built day by day: a repeated day keeps its last cell. */
  function DefaultPosMap(days: seq<Date>, c: int): map<Date, Cell>
    requires c >= 1
  {
    if days == [] then map[]
    else
      var i := |days| - 1;
      DefaultPosMap(days[..i], c)[days[i] := Cell(i / c, i % c)]
  }

  /**
    The default view's position map: day `idx` goes to row idx / cols and
    column idx % cols, with `cols || 12` columns.
   */
  method DefaultPositions(days: seq<Date>, cols: nat) returns (pos: map<Date, Cell>)
    ensures pos == DefaultPosMap(days, ColsOr(cols, 12))
    ensures DefaultPlaced(days, ColsOr(cols, 12), pos)
    ensures forall i :: 0 <= i < |days| ==> days[i] in pos
    ensures forall d :: d in pos ==> d in days
  {
    var c := ColsOr(cols, 12);
    pos := map[];
    var i := 0;
    while i < |days|
      invariant 0 <= i <= |days|
      invariant pos == DefaultPosMap(days[..i], c)
      invariant DefaultPlaced(days[..i], c, pos)
      invariant forall j :: 0 <= j < i ==> days[j] in pos
      invariant forall d :: d in pos ==> d in days
    {
      assert days[..i + 1][..i] == days[..i];
      DefaultPlaceStep(days, c, pos, i);
      pos := pos[days[i] := Cell(i / c, i % c)];
      i := i + 1;
    }
    assert days[..i] == days;
  }

  lemma {:induction false} DefaultPlaceStep(days: seq<Date>, c: int, pos: map<Date, Cell>, i: int)
    requires c >= 1 && 0 <= i < |days| && DefaultPlaced(days[..i], c, pos)
    ensures DefaultPlaced(days[..i + 1], c, pos[days[i] := Cell(i / c, i % c)])
  {
    assert (i / c) * c + i % c == i;
  }

  /** `pos` with the days of `r` placed at (k, 0), (k, 1), ... in order. */
  function PlaceRow(pos: map<Date, Cell>, k: int, r: seq<Date>): map<Date, Cell> {
    if r == [] then pos
    else PlaceRow(pos, k, r[..|r| - 1])[r[|r| - 1] := Cell(k, |r| - 1)]
  }

  /** The months and weeks views' map as built group by group, day by day. */
  function GroupPosMap(rows: seq<seq<Date>>): map<Date, Cell> {
    if rows == [] then map[]
    else PlaceRow(GroupPosMap(rows[..|rows| - 1]), |rows| - 1, rows[|rows| - 1])
  }

  /** The months and weeks views' position map: day `idx` of group `row` goes to (row, idx). */
  method GroupPositions(rows: seq<seq<Date>>) returns (pos: map<Date, Cell>)
    ensures pos == GroupPosMap(rows)
    ensures GroupPlaced(rows, pos)
    ensures forall k, j :: 0 <= k < |rows| && 0 <= j < |rows[k]| ==> rows[k][j] in pos
  {
    pos := map[];
    var k := 0;
    while k < |rows|
      invariant 0 <= k <= |rows|
      invariant pos == GroupPosMap(rows[..k])
      invariant GroupPlaced(rows, pos)
      invariant forall k', j :: 0 <= k' < k && 0 <= j < |rows[k']| ==> rows[k'][j] in pos
    {
      assert rows[..k + 1][..k] == rows[..k];
      var j := 0;
      while j < |rows[k]|
        invariant 0 <= j <= |rows[k]|
        invariant pos == PlaceRow(GroupPosMap(rows[..k]), k, rows[k][..j])
        invariant GroupPlaced(rows, pos)
        invariant forall k', j' :: 0 <= k' < k && 0 <= j' < |rows[k']| ==> rows[k'][j'] in pos
        invariant forall j' :: 0 <= j' < j ==> rows[k][j'] in pos
      {
        assert rows[k][..j + 1][..j] == rows[k][..j];
        pos := pos[rows[k][j] := Cell(k, j)];
        j := j + 1;
      }
      assert rows[k][..j] == rows[k];
      k := k + 1;
    }
    assert rows[..k] == rows;
  }

  lemma {:induction false} MulMonotone(a: int, b: int, c: int)
    requires a <= b && c >= 0
    ensures a * c <= b * c
  {
    assert (b - a) * c >= 0;
  }

  lemma {:induction false} DivModUnique(i: int, c: int, q: int, r: int)
    requires c >= 1 && 0 <= r < c && i == q * c + r
    ensures i / c == q && i % c == r
  {
    var q', r' := i / c, i % c;
    assert (q - q') * c == r' - r;
    if q' < q {
      MulMonotone(1, q - q', c);
    } else if q < q' {
      MulMonotone(1, q' - q, c);
    }
  }

  /** With distinct days, the default view puts day i at (i / cols, i % cols). */
  lemma {:induction false} DefaultPositionOfIndex(days: seq<Date>, cols: int, pos: map<Date, Cell>, i: int)
    requires cols >= 1 && Distinct(days) && DefaultPlaced(days, cols, pos)
    requires 0 <= i < |days| && days[i] in pos
    ensures pos[days[i]] == Cell(i / cols, i % cols)
  {
    var p := pos[days[i]];
    var x := p.row * cols + p.col;
    assert days[x] == days[i];
    DivModUnique(i, cols, p.row, p.col);
  }

  /** With distinct days, the months and weeks views put day j of row k at (k, j). */
  lemma {:induction false} GroupPositionOfCell(rows: seq<seq<Date>>, pos: map<Date, Cell>, k: nat, j: nat)
    requires Distinct(Concat(rows)) && GroupPlaced(rows, pos)
    requires k < |rows| && j < |rows[k]| && rows[k][j] in pos
    ensures pos[rows[k][j]] == Cell(k, j)
  {
    var p := pos[rows[k][j]];
    ConcatAt(rows, k, j);
    ConcatAt(rows, p.row, p.col);
    LocateUnique(rows, k, j);
    LocateUnique(rows, p.row, p.col);
  }

  // ------------------------------------------------------------- segments

  /** What the segment builder knows of the grid: the view, the default view's columns, the month lengths. */
  datatype Grid = Grid(view: View, cols: int, monthLengths: seq<int>)

  /** The grid the memos hand the segment builder: the view, `gridDims.cols`, and each month group's length. */
  function GridOf(view: View, cols: nat, months: seq<MonthGroup>): Grid {
    Grid(view, cols, seq(|months|, k requires 0 <= k < |months| => |months[k].days|))
  }

  /** The position map the memos build for `view`. */
  function PositionsOf(view: View, days: seq<Date>, cols: nat, months: seq<MonthGroup>, weeks: seq<WeekGroup>)
    : map<Date, Cell>
  {
    match view
    case Default => DefaultPosMap(days, ColsOr(cols, 12))
    case Months => GroupPosMap(MonthRows(months))
    case Weeks => GroupPosMap(WeekRows(weeks))
  }

  /**
    The `if (view === ...)` choice of position map in both memos: the
    default grid in `cols || 12` columns, or one row per month or week group.
   */
  method ViewPositions(view: View, days: seq<Date>, cols: nat, months: seq<MonthGroup>, weeks: seq<WeekGroup>)
    returns (pos: map<Date, Cell>)
    ensures pos == PositionsOf(view, days, cols, months, weeks)
    ensures view == Default ==>
              && DefaultPlaced(days, ColsOr(cols, 12), pos)
              && (forall i :: 0 <= i < |days| ==> days[i] in pos)
              && (forall d :: d in pos ==> d in days)
    ensures view == Months ==>
              && GroupPlaced(MonthRows(months), pos)
              && (forall k, j :: 0 <= k < |months| && 0 <= j < |months[k].days| ==> months[k].days[j] in pos)
    ensures view == Weeks ==>
              && GroupPlaced(WeekRows(weeks), pos)
              && (forall k, j :: 0 <= k < |weeks| && 0 <= j < |weeks[k].days| ==> weeks[k].days[j] in pos)
  {
    match view
    case Default =>
      pos := DefaultPositions(days, cols);
    case Months =>
      pos := GroupPositions(MonthRows(months));
    case Weeks =>
      pos := GroupPositions(WeekRows(weeks));
  }

  /**
    The last column a bar may reach on a row it does not end on: 6 in the
    weeks view whatever the row's length, the month's last day in the
    months view (30 for a row past the last month), cols - 1 otherwise.
   */
  function LastCol(grid: Grid, row: int): int {
    match grid.view
    case Weeks => 6
    case Months => if 0 <= row < |grid.monthLengths| then grid.monthLengths[row] - 1 else 30
    case Default => grid.cols - 1
  }

  /** An all-day event: the first day and the day after the last (exclusive end). */
  datatype LayoutEvent = LayoutEvent(id: string, start: Date, end: ValidDate)

  /** A bar on one row: columns [startCol, endCol), and what it shows. */
  datatype Seg<E> = Seg(startCol: int, endCol: int, ev: E)

  /** The segment on `row` of an event that starts at cell `s` and ends (inclusive) at cell `e`. */
  function RowSeg(grid: Grid, s: Cell, e: Cell, row: int, ev: LayoutEvent): Seg<LayoutEvent> {
    var startCol := if row == s.row then s.col else 0;
    var lastCol := if row == e.row then e.col else LastCol(grid, row);
    Seg(startCol, lastCol + 1, ev)
  }

  /** The event's bar covers column `col` of `row`. */
  predicate Covers(grid: Grid, s: Cell, e: Cell, ev: LayoutEvent, row: int, col: int) {
    s.row <= row <= e.row && RowSeg(grid, s, e, row, ev).startCol <= col < RowSeg(grid, s, e, row, ev).endCol
  }

  /** A missing row reads as the empty list (`rowToSegs.get(row) ?? []`). */
  function Get(m: map<int, seq<Seg<LayoutEvent>>>, row: int): seq<Seg<LayoutEvent>> {
    if row in m then m[row] else []
  }

  /** The segment on `row` of a bar from cell `s` to cell `e`, if the row is in its span. */
  function SpanSegs(grid: Grid, s: Cell, e: Cell, ev: LayoutEvent, row: int): seq<Seg<LayoutEvent>> {
    if s.row <= row <= e.row then [RowSeg(grid, s, e, row, ev)] else []
  }

  /** The segment an event contributes to `row`: none when its first or last day has no cell, or the row is outside its span. */
  function EventRowSegs(grid: Grid, pos: map<Date, Cell>, ev: LayoutEvent, row: int): seq<Seg<LayoutEvent>> {
    var last := PrevDay(ev.end);
    if ev.start in pos && last in pos then SpanSegs(grid, pos[ev.start], pos[last], ev, row) else []
  }

  /** The segments of `row`, event by event in list order. */
  function SegsInRow(grid: Grid, pos: map<Date, Cell>, events: seq<LayoutEvent>, row: int): seq<Seg<LayoutEvent>> {
    if events == [] then []
    else SegsInRow(grid, pos, events[..|events| - 1], row) + EventRowSegs(grid, pos, events[|events| - 1], row)
  }

  /** The `while (currentRow <= endRow)` loop: one segment appended to each row from the start row to the end row. */
  method AddEventSegments(rowToSegs: map<int, seq<Seg<LayoutEvent>>>, grid: Grid, s: Cell, e: Cell, ev: LayoutEvent)
    returns (out: map<int, seq<Seg<LayoutEvent>>>)
    ensures forall row :: Get(out, row) == Get(rowToSegs, row) + SpanSegs(grid, s, e, ev, row)
    ensures forall row :: row in out <==> row in rowToSegs || s.row <= row <= e.row
  {
    out := rowToSegs;
    var currentRow := s.row;
    while currentRow <= e.row
      invariant s.row <= currentRow <= e.row + 1 || (currentRow == s.row && e.row < s.row)
      invariant forall row :: Get(out, row) ==
                  Get(rowToSegs, row) + (if s.row <= row < currentRow then [RowSeg(grid, s, e, row, ev)] else [])
      invariant forall row :: row in out <==> row in rowToSegs || s.row <= row < currentRow
      decreases e.row - currentRow
    {
      var rowEndCol := if currentRow == e.row then e.col else LastCol(grid, currentRow);
      var startCol := if currentRow == s.row then s.col else 0;
      var list := Get(out, currentRow) + [Seg(startCol, rowEndCol + 1, ev)];
      out := out[currentRow := list];
      currentRow := currentRow + 1;
    }
  }

  /** One event of the segment builder: skipped unless its first and last day both have a cell. */
  method AddEvent(rowToSegs: map<int, seq<Seg<LayoutEvent>>>, grid: Grid, pos: map<Date, Cell>, ev: LayoutEvent)
    returns (out: map<int, seq<Seg<LayoutEvent>>>)
    ensures forall row :: Get(out, row) == Get(rowToSegs, row) + EventRowSegs(grid, pos, ev, row)
    ensures forall row :: row in out <==> row in rowToSegs || EventRowSegs(grid, pos, ev, row) != []
  {
    var last := PrevDay(ev.end);
    if ev.start in pos && last in pos {
      out := AddEventSegments(rowToSegs, grid, pos[ev.start], pos[last], ev);
    } else {
      out := rowToSegs;
    }
  }

  /**
    The segment builder: for every event whose first day and last day
    (the day before its exclusive end) both have a cell, append one
    segment per row it spans.  Rows with no segment are absent.
   */
  method BuildSegments(grid: Grid, pos: map<Date, Cell>, events: seq<LayoutEvent>)
    returns (rowToSegs: map<int, seq<Seg<LayoutEvent>>>)
    ensures forall row :: Get(rowToSegs, row) == SegsInRow(grid, pos, events, row)
    ensures forall row :: row in rowToSegs <==> SegsInRow(grid, pos, events, row) != []
  {
    rowToSegs := map[];
    var i := 0;
    while i < |events|
      invariant 0 <= i <= |events|
      invariant Built(grid, pos, events[..i], rowToSegs)
    {
      var next := AddEvent(rowToSegs, grid, pos, events[i]);
      BuildStep(grid, pos, events, i, rowToSegs, next);
      rowToSegs := next;
      i := i + 1;
    }
    assert events[..|events|] == events;
  }

  /** `m` holds, row by row, the segments of `events` and only the non-empty rows. */
  ghost predicate Built(grid: Grid, pos: map<Date, Cell>, events: seq<LayoutEvent>, m: map<int, seq<Seg<LayoutEvent>>>) {
    && (forall row :: Get(m, row) == SegsInRow(grid, pos, events, row))
    && (forall row :: row in m <==> SegsInRow(grid, pos, events, row) != [])
  }

  lemma {:induction false} BuildStep(grid: Grid, pos: map<Date, Cell>, events: seq<LayoutEvent>, i: int,
                  m: map<int, seq<Seg<LayoutEvent>>>, next: map<int, seq<Seg<LayoutEvent>>>)
    requires 0 <= i < |events| && Built(grid, pos, events[..i], m)
    requires forall row :: Get(next, row) == Get(m, row) + EventRowSegs(grid, pos, events[i], row)
    requires forall row :: row in next <==> row in m || EventRowSegs(grid, pos, events[i], row) != []
    ensures Built(grid, pos, events[..i + 1], next)
  {
    assert events[..i + 1][..i] == events[..i];
    forall row
      ensures Get(next, row) == SegsInRow(grid, pos, events[..i + 1], row)
      ensures row in next <==> SegsInRow(grid, pos, events[..i + 1], row) != []
    {
      var before, added := SegsInRow(grid, pos, events[..i], row), EventRowSegs(grid, pos, events[i], row);
      assert SegsInRow(grid, pos, events[..i + 1], row) == before + added;
      assert |before + added| == |before| + |added|;
    }
  }

  // ------------------------------------------------------ what bars cover

  /**
    On any layout in rows, when every row the bar leaves before its last
    row ends at that row's last day, the bar covers exactly the cells from
    its first to its last day, never a cell past a row's days, and each of
    its segments is non-empty when the event is.
   */
  lemma {:induction false} CoverRows(rows: seq<seq<Date>>, grid: Grid, s: Cell, e: Cell, ev: LayoutEvent,
                                     row: nat, col: nat)
    requires 0 <= s.row < |rows| && 0 <= s.col < |rows[s.row]|
    requires 0 <= e.row < |rows| && 0 <= e.col < |rows[e.row]|
    requires forall r :: s.row <= r < e.row ==> LastCol(grid, r) == |rows[r]| - 1
    requires row < |rows| && col < |rows[row]|
    ensures Covers(grid, s, e, ev, row, col) <==>
              Offset(rows, s.row) + s.col <= Offset(rows, row) + col <= Offset(rows, e.row) + e.col
    ensures s.row <= row <= e.row ==> RowSeg(grid, s, e, row, ev).endCol <= |rows[row]|
    ensures s.row <= row <= e.row && Offset(rows, s.row) + s.col <= Offset(rows, e.row) + e.col ==>
              RowSeg(grid, s, e, row, ev).startCol < RowSeg(grid, s, e, row, ev).endCol
  {
    if row < s.row {
      OffsetMonotone(rows, row, s.row);
    } else if s.row < row {
      OffsetMonotone(rows, s.row, row);
    }
    if row < e.row {
      OffsetMonotone(rows, row, e.row);
    } else if e.row < row {
      OffsetMonotone(rows, e.row, row);
    }
    if s.row < e.row {
      OffsetMonotone(rows, s.row, e.row);
    } else if e.row < s.row {
      OffsetMonotone(rows, e.row, s.row);
    }
  }

  /** Day numbers run up by one along `days`, from `base`. */
  ghost predicate Consecutive(days: seq<Date>, base: int) {
    forall i :: 0 <= i < |days| ==> DayNumber(days[i]) == base + i
  }

  lemma {:induction false} YearConsecutive(days: seq<Date>, year: int)
    requires IsYearDays(days, year)
    ensures Consecutive(days, DaysBeforeYear(year))
  {
  }

  /** Along consecutive days, index i lies between the indices of `first` and `last` exactly when its day does. */
  lemma {:induction false} IndexBetween(days: seq<Date>, base: int, first: Date, last: Date, si: int, ei: int, i: int)
    requires Consecutive(days, base)
    requires 0 <= si < |days| && 0 <= ei < |days| && 0 <= i < |days|
    requires days[si] == first && days[ei] == last
    ensures si <= i <= ei <==> DayNumber(first) <= DayNumber(days[i]) <= DayNumber(last)
  {
  }

  /**
    On consecutive days laid out in rows, the bars running from the cell of
    `first` to the cell of `last` cover exactly the cells of the days between
    them, provided every row the bar leaves before its last row ends at that
    row's last day.
   */
  lemma {:induction false} RowsCoverEvent(base: int, rows: seq<seq<Date>>, grid: Grid, pos: map<Date, Cell>,
                                         first: Date, last: Date, ev: LayoutEvent, row: nat, col: nat)
    requires Consecutive(Concat(rows), base)
    requires GroupPlaced(rows, pos)
    requires first in pos && last in pos
    requires forall r :: pos[first].row <= r < pos[last].row ==> LastCol(grid, r) == |rows[r]| - 1
    requires row < |rows| && col < |rows[row]|
    ensures Covers(grid, pos[first], pos[last], ev, row, col) <==>
              DayNumber(first) <= DayNumber(rows[row][col]) <= DayNumber(last)
  {
    var s, e := pos[first], pos[last];
    CoverRows(rows, grid, s, e, ev, row, col);
    GroupCellOf(rows, pos, first);
    GroupCellOf(rows, pos, last);
    ConcatAt(rows, row, col);
    IndexBetween(Concat(rows), base, first, last, Offset(rows, s.row) + s.col, Offset(rows, e.row) + e.col,
                 Offset(rows, row) + col);
  }

  lemma {:induction false} GroupCellOf(rows: seq<seq<Date>>, pos: map<Date, Cell>, d: Date)
    requires GroupPlaced(rows, pos) && d in pos
    ensures 0 <= pos[d].row < |rows| && 0 <= pos[d].col < |rows[pos[d].row]|
    ensures Offset(rows, pos[d].row) + pos[d].col < |Concat(rows)|
    ensures Concat(rows)[Offset(rows, pos[d].row) + pos[d].col] == d
  {
    ConcatAt(rows, pos[d].row, pos[d].col);
  }

  /**
    Months view: the bars of an event cover exactly the month cells of its
    days [start, end), and never a filler cell after a month's last day.
   */
  lemma {:induction false} MonthsBarsCoverEvent(days: seq<Date>, year: int, groups: seq<MonthGroup>, grid: Grid,
                             pos: map<Date, Cell>, ev: LayoutEvent, row: nat, col: nat)
    requires IsYearDays(days, year) && IsMonthPartition(days, groups)
    requires grid.view == Months
    requires |grid.monthLengths| == |groups|
    requires forall k :: 0 <= k < |groups| ==> grid.monthLengths[k] == |groups[k].days|
    requires GroupPlaced(MonthRows(groups), pos)
    requires ev.start in pos && PrevDay(ev.end) in pos
    requires row < |groups| && col < |groups[row].days|
    ensures Covers(grid, pos[ev.start], pos[PrevDay(ev.end)], ev, row, col) <==>
              DayNumber(ev.start) <= DayNumber(groups[row].days[col]) < DayNumber(ev.end)
    ensures var s, e := pos[ev.start], pos[PrevDay(ev.end)];
            s.row <= row <= e.row ==> RowSeg(grid, s, e, row, ev).endCol <= |groups[row].days|
  {
    var rows := MonthRows(groups);
    var s, e := pos[ev.start], pos[PrevDay(ev.end)];
    YearConsecutive(days, year);
    RowsCoverEvent(DaysBeforeYear(year), rows, grid, pos, ev.start, PrevDay(ev.end), ev, row, col);
    CoverRows(rows, grid, s, e, ev, row, col);
  }

  /**
    Weeks view: when the event does not start in a short first week that
    it runs past, its bars cover exactly the cells of its days [start, end).
   */
  lemma {:induction false} WeeksBarsCoverEvent(days: seq<Date>, year: int, groups: seq<WeekGroup>, grid: Grid,
                                               pos: map<Date, Cell>, ev: LayoutEvent, row: nat, col: nat)
    requires IsYearDays(days, year) && IsWeekPartition(days, groups)
    requires grid.view == Weeks
    requires GroupPlaced(WeekRows(groups), pos)
    requires ev.start in pos && PrevDay(ev.end) in pos
    requires pos[ev.start].row > 0 || |groups[0].days| == 7 || pos[PrevDay(ev.end)].row == 0
    requires row < |groups| && col < |groups[row].days|
    ensures Covers(grid, pos[ev.start], pos[PrevDay(ev.end)], ev, row, col) <==>
              DayNumber(ev.start) <= DayNumber(groups[row].days[col]) < DayNumber(ev.end)
  {
    var rows := WeekRows(groups);
    var s, e := pos[ev.start], pos[PrevDay(ev.end)];
    WeekPartitionOfYear(days, year, groups);
    forall r | s.row <= r < e.row
      ensures LastCol(grid, r) == |rows[r]| - 1
    {
      if r > 0 {
        MiddleWeekLength(days, year, groups, r);
      }
    }
    YearConsecutive(days, year);
    RowsCoverEvent(DaysBeforeYear(year), rows, grid, pos, ev.start, PrevDay(ev.end), ev, row, col);
  }

  /**
    Weeks view, as written: when 1 January is not a Sunday, a bar that
    starts in the first week and continues into the next runs to column 7
    on the first row, past that row's last day into its filler cells.
   */
  lemma {:induction false} WeeksFirstRowOverrun(days: seq<Date>, year: int, groups: seq<WeekGroup>, grid: Grid,
                             pos: map<Date, Cell>, ev: LayoutEvent)
    requires IsYearDays(days, year) && IsWeekPartition(days, groups)
    requires grid.view == Weeks
    requires !IsSunday(MakeDate(year, 1, 1))
    requires GroupPlaced(WeekRows(groups), pos)
    requires ev.start in pos && PrevDay(ev.end) in pos
    requires pos[ev.start].row == 0 < pos[PrevDay(ev.end)].row
    ensures RowSeg(grid, pos[ev.start], pos[PrevDay(ev.end)], 0, ev).endCol == 7
    ensures |groups[0].days| < 7
  {
    WeekPartitionOfYear(days, year, groups);
  }

  lemma {:induction false} LexIndex(c: int, k: int, j: int, k2: int, j2: int)
    requires c >= 1 && 0 <= j < c && 0 <= j2 < c
    ensures k * c + j <= k2 * c + j2 <==> k < k2 || (k == k2 && j <= j2)
  {
    if k < k2 {
      assert (k + 1) * c <= k2 * c;
    } else if k2 < k {
      assert (k2 + 1) * c <= k * c;
    }
  }

  /** In the default grid, the bar covers the cell of index i exactly when i lies between its first and last index. */
  lemma {:induction false} DefaultCoverIndex(grid: Grid, s: Cell, e: Cell, ev: LayoutEvent, i: nat)
    requires grid.view == Default && grid.cols >= 1
    requires 0 <= s.col < grid.cols && 0 <= e.col < grid.cols
    ensures Covers(grid, s, e, ev, i / grid.cols, i % grid.cols) <==>
              s.row * grid.cols + s.col <= i <= e.row * grid.cols + e.col
    ensures forall row :: s.row <= row <= e.row ==> RowSeg(grid, s, e, row, ev).endCol <= grid.cols
  {
    var c := grid.cols;
    var k, j := i / c, i % c;
    assert k * c + j == i;
    LexIndex(c, s.row, s.col, k, j);
    LexIndex(c, k, j, e.row, e.col);
  }

  lemma {:induction false} DefaultCellOf(days: seq<Date>, c: int, pos: map<Date, Cell>, d: Date)
    requires c >= 1 && DefaultPlaced(days, c, pos) && d in pos
    ensures 0 <= pos[d].row * c + pos[d].col < |days| && days[pos[d].row * c + pos[d].col] == d
  {
  }

  lemma {:induction false} DefaultCover(days: seq<Date>, base: int, grid: Grid, pos: map<Date, Cell>,
                                       ev: LayoutEvent, i: nat)
    requires Consecutive(days, base)
    requires grid.view == Default && grid.cols >= 1
    requires DefaultPlaced(days, grid.cols, pos)
    requires ev.start in pos && PrevDay(ev.end) in pos
    requires i < |days|
    ensures Covers(grid, pos[ev.start], pos[PrevDay(ev.end)], ev, i / grid.cols, i % grid.cols) <==>
              DayNumber(ev.start) <= DayNumber(days[i]) < DayNumber(ev.end)
    ensures var s, e := pos[ev.start], pos[PrevDay(ev.end)];
            forall row :: s.row <= row <= e.row ==> RowSeg(grid, s, e, row, ev).endCol <= grid.cols
  {
    var c := grid.cols;
    var s, e := pos[ev.start], pos[PrevDay(ev.end)];
    var si, ei := s.row * c + s.col, e.row * c + e.col;
    DefaultCellOf(days, c, pos, ev.start);
    DefaultCellOf(days, c, pos, PrevDay(ev.end));
    DefaultCoverIndex(grid, s, e, ev, i);
    IndexBetween(days, base, ev.start, PrevDay(ev.end), si, ei, i);
  }

  /**
    Default view: the bars of an event cover exactly the cells of its days
    [start, end), and no bar reaches past the last column.
   */
  lemma {:induction false} DefaultBarsCoverEvent(days: seq<Date>, year: int, grid: Grid, pos: map<Date, Cell>,
                                                 ev: LayoutEvent, i: nat)
    requires IsYearDays(days, year)
    requires grid.view == Default && grid.cols >= 1
    requires DefaultPlaced(days, grid.cols, pos)
    requires ev.start in pos && PrevDay(ev.end) in pos
    requires i < |days|
    ensures Covers(grid, pos[ev.start], pos[PrevDay(ev.end)], ev, i / grid.cols, i % grid.cols) <==>
              DayNumber(ev.start) <= DayNumber(days[i]) < DayNumber(ev.end)
    ensures var s, e := pos[ev.start], pos[PrevDay(ev.end)];
            forall row :: s.row <= row <= e.row ==> RowSeg(grid, s, e, row, ev).endCol <= grid.cols
  {
    YearConsecutive(days, year);
    DefaultCover(days, DaysBeforeYear(year), grid, pos, ev, i);
  }

  // ------------------------------------------------- bars are never empty

  /** On every row of its span, the event's bar is at least one column wide. */
  ghost predicate WideOnSpan(grid: Grid, pos: map<Date, Cell>, ev: LayoutEvent) {
    ev.start in pos && PrevDay(ev.end) in pos ==>
      forall row :: pos[ev.start].row <= row <= pos[PrevDay(ev.end)].row ==>
        RowSeg(grid, pos[ev.start], pos[PrevDay(ev.end)], row, ev).startCol <
        RowSeg(grid, pos[ev.start], pos[PrevDay(ev.end)], row, ev).endCol
  }

  /** A bar is wide on its span when its last cell does not come before its first and every row it crosses has a column. */
  lemma {:induction false} SpanWide(grid: Grid, pos: map<Date, Cell>, ev: LayoutEvent)
    requires ev.start in pos && PrevDay(ev.end) in pos
    requires var s, e := pos[ev.start], pos[PrevDay(ev.end)];
             && s.row <= e.row && 0 <= e.col
             && (s.row == e.row ==> s.col <= e.col)
             && (s.row < e.row ==> s.col <= LastCol(grid, s.row))
             && (forall r :: s.row < r < e.row ==> 0 <= LastCol(grid, r))
    ensures WideOnSpan(grid, pos, ev)
  {
    var s, e := pos[ev.start], pos[PrevDay(ev.end)];
    forall row | s.row <= row <= e.row
      ensures RowSeg(grid, s, e, row, ev).startCol < RowSeg(grid, s, e, row, ev).endCol
    {
      if s.row < row < e.row {
        assert 0 <= LastCol(grid, row);
      }
    }
  }

  /** Along rows of consecutive days, the cell of an earlier (or the same) day is not after the cell of a later one. */
  lemma {:induction false} GroupCellsInOrder(base: int, rows: seq<seq<Date>>, pos: map<Date, Cell>, first: Date, last: Date)
    requires Consecutive(Concat(rows), base) && GroupPlaced(rows, pos)
    requires first in pos && last in pos
    requires DayNumber(first) <= DayNumber(last)
    ensures pos[first].row <= pos[last].row
    ensures pos[first].row == pos[last].row ==> pos[first].col <= pos[last].col
  {
    var s, e := pos[first], pos[last];
    GroupCellOf(rows, pos, first);
    GroupCellOf(rows, pos, last);
    var si, ei := Offset(rows, s.row) + s.col, Offset(rows, e.row) + e.col;
    assert DayNumber(Concat(rows)[si]) == base + si && DayNumber(Concat(rows)[ei]) == base + ei;
    if e.row < s.row {
      OffsetMonotone(rows, e.row, s.row);
    }
  }

  /** Months view: an event that ends after it starts has a bar at least one column wide on every month it spans. */
  lemma {:induction false} MonthsBarsWide(days: seq<Date>, year: int, groups: seq<MonthGroup>, grid: Grid,
                                          pos: map<Date, Cell>, ev: LayoutEvent)
    requires IsYearDays(days, year) && IsMonthPartition(days, groups)
    requires grid.view == Months
    requires |grid.monthLengths| == |groups|
    requires forall k :: 0 <= k < |groups| ==> grid.monthLengths[k] == |groups[k].days|
    requires GroupPlaced(MonthRows(groups), pos)
    requires DayNumber(ev.start) < DayNumber(ev.end)
    ensures WideOnSpan(grid, pos, ev)
  {
    if ev.start in pos && PrevDay(ev.end) in pos {
      var rows := MonthRows(groups);
      YearConsecutive(days, year);
      GroupCellsInOrder(DaysBeforeYear(year), rows, pos, ev.start, PrevDay(ev.end));
      forall r | 0 <= r < |groups|
        ensures 0 <= LastCol(grid, r)
      {
        assert groups[r].days != [];
      }
      SpanWide(grid, pos, ev);
    }
  }

  /** Weeks view: an event that ends after it starts has a bar at least one column wide on every week it spans. */
  lemma {:induction false} WeeksBarsWide(days: seq<Date>, year: int, groups: seq<WeekGroup>, grid: Grid,
                                         pos: map<Date, Cell>, ev: LayoutEvent)
    requires IsYearDays(days, year) && IsWeekPartition(days, groups)
    requires grid.view == Weeks
    requires GroupPlaced(WeekRows(groups), pos)
    requires DayNumber(ev.start) < DayNumber(ev.end)
    ensures WideOnSpan(grid, pos, ev)
  {
    if ev.start in pos && PrevDay(ev.end) in pos {
      WeekPartitionOfYear(days, year, groups);
      YearConsecutive(days, year);
      GroupCellsInOrder(DaysBeforeYear(year), WeekRows(groups), pos, ev.start, PrevDay(ev.end));
      SpanWide(grid, pos, ev);
    }
  }

  /** Default view: an event that ends after it starts has a bar at least one column wide on every row it spans. */
  lemma {:induction false} DefaultBarsWide(days: seq<Date>, year: int, grid: Grid, pos: map<Date, Cell>, ev: LayoutEvent)
    requires IsYearDays(days, year)
    requires grid.view == Default && grid.cols >= 1
    requires DefaultPlaced(days, grid.cols, pos)
    requires DayNumber(ev.start) < DayNumber(ev.end)
    ensures WideOnSpan(grid, pos, ev)
  {
    if ev.start in pos && PrevDay(ev.end) in pos {
      var c := grid.cols;
      var s, e := pos[ev.start], pos[PrevDay(ev.end)];
      DefaultCellOf(days, c, pos, ev.start);
      DefaultCellOf(days, c, pos, PrevDay(ev.end));
      YearConsecutive(days, year);
      var si, ei := s.row * c + s.col, e.row * c + e.col;
      assert DayNumber(days[si]) == DaysBeforeYear(year) + si && DayNumber(days[ei]) == DaysBeforeYear(year) + ei;
      LexIndex(c, s.row, s.col, e.row, e.col);
      SpanWide(grid, pos, ev);
    }
  }

  lemma EventSegsWide(grid: Grid, pos: map<Date, Cell>, ev: LayoutEvent, row: int)
    requires WideOnSpan(grid, pos, ev)
    ensures SegsWide(EventRowSegs(grid, pos, ev, row))
  {
  }

  /** Every segment of the row starts before it ends. */
  predicate SegsWide(segs: seq<Seg<LayoutEvent>>) {
    forall i :: 0 <= i < |segs| ==> segs[i].startCol < segs[i].endCol
  }

  /** When every event's bars are wide, so is every segment of a row. */
  lemma {:induction false} SegsInRowWide(grid: Grid, pos: map<Date, Cell>, events: seq<LayoutEvent>, row: int)
    requires forall k :: 0 <= k < |events| ==> WideOnSpan(grid, pos, events[k])
    ensures SegsWide(SegsInRow(grid, pos, events, row))
  {
    if events != [] {
      var n := |events| - 1;
      var init, ev := events[..n], events[n];
      assert forall k :: 0 <= k < n ==> init[k] == events[k];
      SegsInRowWide(grid, pos, init, row);
      var front, back := SegsInRow(grid, pos, init, row), EventRowSegs(grid, pos, ev, row);
      EventSegsWide(grid, pos, ev, row);
      WideJoin(front, back);
    }
  }

  lemma WideJoin(front: seq<Seg<LayoutEvent>>, back: seq<Seg<LayoutEvent>>)
    requires SegsWide(front) && SegsWide(back)
    ensures SegsWide(front + back)
  {
    var segs := front + back;
    forall i | 0 <= i < |segs|
      ensures segs[i].startCol < segs[i].endCol
    {
      if i >= |front| {
        assert segs[i] == back[i - |front|];
      }
    }
  }
}
