/**
  Row heights and the pixel overlay of event bars.  A row holding bars is
  made tall enough for a 16-pixel label and one 16-pixel lane per lane of
  the row, never shorter than a plain cell; rows are stacked with a
  1-pixel gap, and each bar is drawn in its lane as a 14-pixel strip.
 */
module Overlay {
  import opened Wrappers
  import opened Dates
  import opened Rows
  import opened Layout
  import opened Lanes
  import opened YearDays

  const LabelOffset := 16
  const LaneHeight := 16
  /** The grid's `gap-px`; the overlay's own padding is 0. */
  const Gap := 1

  // --------------------------------------------------------- row heights

  /** `max(baseCellHeight, labelOffset + maxLanes * laneHeight + 2)`. */
  function RowHeight(base: int, maxLanes: int): int {
    Max(base, LabelOffset + maxLanes * LaneHeight + 2)
  }

  /** More lanes never make a row shorter, and a row always fits its label and lanes. */
  lemma {:induction false} RowHeightMonotone(base: int, a: int, b: int)
    requires a <= b
    ensures RowHeight(base, a) <= RowHeight(base, b)
    ensures base <= RowHeight(base, a) && LabelOffset + a * LaneHeight + 2 <= RowHeight(base, a)
  {
  }

  /** The lane count of every row that has segments. */
  method MaxLanesPerRow<E>(rowToSegs: map<int, seq<Seg<E>>>) returns (maxLanes: map<int, int>)
    ensures maxLanes.Keys == rowToSegs.Keys
    ensures forall row :: row in maxLanes ==> maxLanes[row] == LaneCount(rowToSegs[row])
  {
    maxLanes := map[];
    var todo := rowToSegs.Keys;
    while todo != {}
      invariant todo <= rowToSegs.Keys
      invariant maxLanes.Keys == rowToSegs.Keys - todo
      invariant forall row :: row in maxLanes ==> maxLanes[row] == LaneCount(rowToSegs[row])
      decreases |todo|
    {
      NonEmptyHasMember(todo);
      var row :| row in todo;
      var _, _, count := PackRow(rowToSegs[row]);
      maxLanes := maxLanes[row := count];
      todo := todo - {row};
    }
  }

  /** The height of every row that has a lane count. */
  method HeightsOf(maxLanes: map<int, int>, base: int) returns (heights: map<int, int>)
    ensures heights.Keys == maxLanes.Keys
    ensures forall row :: row in heights ==> heights[row] == RowHeight(base, maxLanes[row])
  {
    heights := map[];
    var todo := maxLanes.Keys;
    while todo != {}
      invariant todo <= maxLanes.Keys
      invariant heights.Keys == maxLanes.Keys - todo
      invariant forall row :: row in heights ==> heights[row] == RowHeight(base, maxLanes[row])
      decreases |todo|
    {
      NonEmptyHasMember(todo);
      var row :| row in todo;
      var requiredHeight := LabelOffset + maxLanes[row] * LaneHeight + 2;
      heights := heights[row := Max(base, requiredHeight)];
      todo := todo - {row};
    }
  }

  /** Row heights and lane counts from the segments, for any segment map. */
  method RowHeightsOfSegments(rowToSegs: map<int, seq<Seg<LayoutEvent>>>, base: int) returns (heights: map<int, int>)
    ensures heights.Keys == rowToSegs.Keys
    ensures forall row :: row in heights ==> heights[row] == RowHeight(base, LaneCount(rowToSegs[row]))
  {
    var maxLanes := MaxLanesPerRow(rowToSegs);
    heights := HeightsOf(maxLanes, base);
  }

  /** The height a row needs for the events' bars: base cell height when the row has none. */
  ghost function NeededHeight(grid: Grid, pos: map<Date, Cell>, events: seq<LayoutEvent>, base: int, row: int): int {
    var segs := SegsInRow(grid, pos, events, row);
    if segs != [] then RowHeight(base, LaneCount(segs)) else base
  }

  /**
    When every event's bars are at least one column wide (as they are for
    events that end after they start), a row that holds segments needs the
    height of as many lanes as bars overlap at its most covered column.
   */
  lemma {:induction false} NeededHeightIsDepth(grid: Grid, pos: map<Date, Cell>, events: seq<LayoutEvent>, base: int, row: int)
    requires forall k :: 0 <= k < |events| ==> WideOnSpan(grid, pos, events[k])
    requires SegsInRow(grid, pos, events, row) != []
    ensures exists c :: NeededHeight(grid, pos, events, base, row) == RowHeight(base, Depth(SegsInRow(grid, pos, events, row), c))
  {
    var segs := SegsInRow(grid, pos, events, row);
    SegsInRowWide(grid, pos, events, row);
    LaneCountIsMaxDepth(segs);
    var c :| Depth(segs, c) == LaneCount(segs);
    assert NeededHeight(grid, pos, events, base, row) == RowHeight(base, Depth(segs, c));
  }

  /**
    The `rowHeightsMap` memo: nothing when no cell height was measured or
    there are no events; otherwise the view's position map, the segments,
    and a height for each row that holds a segment.
   */
  method RowHeightsMap(cellH: int, events: seq<LayoutEvent>, view: View, days: seq<Date>, cols: nat,
                       months: seq<MonthGroup>, weeks: seq<WeekGroup>, base: int)
    returns (heights: map<int, int>)
    ensures cellH == 0 || events == [] ==> heights == map[]
    ensures cellH != 0 && events != [] ==>
              var grid := GridOf(view, cols, months);
              var pos := PositionsOf(view, days, cols, months, weeks);
              forall row :: (row in heights <==> SegsInRow(grid, pos, events, row) != []) &&
                            (row in heights ==> heights[row] == NeededHeight(grid, pos, events, base, row))
  {
    if cellH == 0 || |events| == 0 {
      return map[];
    }
    var pos := ViewPositions(view, days, cols, months, weeks);
    var grid := GridOf(view, cols, months);
    var rowToSegs := BuildSegments(grid, pos, events);
    heights := RowHeightsOfSegments(rowToSegs, base);
  }

  // ------------------------------------------------------ template rows

  /** `rowHeightsMap.get(i) || baseCellHeight`: a missing or zero height reads as the base height. */
  function HeightOr(heights: map<int, int>, base: int, row: int): int {
    if row in heights && heights[row] != 0 then heights[row] else base
  }

  /** The heights of the grid's rows 0 .. totalRows-1 (`gridTemplateRows`). */
  function TemplateRows(heights: map<int, int>, base: int, totalRows: nat): (hs: seq<int>)
    ensures |hs| == totalRows
    ensures forall i :: 0 <= i < totalRows ==> hs[i] == HeightOr(heights, base, i)
  {
    if totalRows == 0 then [] else TemplateRows(heights, base, totalRows - 1) + [HeightOr(heights, base, totalRows - 1)]
  }

  /** Rows in the grid: `ceil(days / (cols || 12))` in the default view, one per group otherwise. */
  function TotalRows(view: View, dayCount: nat, cols: nat, monthCount: nat, weekCount: nat): nat {
    match view
    case Default => var c := ColsOr(cols, 12); (dayCount + c - 1) / c
    case Months => monthCount
    case Weeks => weekCount
  }

  /** `a * c <= b` bounds `a` by the quotient. */
  lemma {:induction false} MulLeDiv(a: int, b: int, c: int)
    requires c > 0 && a * c <= b
    ensures a <= b / c
  {
    var q := b / c;
    assert b == q * c + b % c && b % c < c;
    if q < a {
      MulMonotone(q + 1, a, c);
    }
  }

  /** Day i of n, at c per row, sits in a row below ceil(n / c). */
  lemma RowBelowCount(i: int, n: int, c: int)
    requires c > 0 && 0 <= i < n
    ensures i / c < (n + c - 1) / c
  {
    var q := i / c;
    assert q * c <= i;
    assert (q + 1) * c <= n + c - 1;
    MulLeDiv(q + 1, n + c - 1, c);
  }

  /** The last of ceil(n / c) rows of c holds a day. */
  lemma LastRowHoldsDay(n: int, c: int)
    requires c > 0 && n > 0
    ensures 0 < (n + c - 1) / c && ((n + c - 1) / c - 1) * c < n
  {
    var m := n + c - 1;
    var t := m / c;
    assert t * c <= m;
    MulLeDiv(1, m, c);
    assert (t - 1) * c == t * c - c;
  }

  /**
    The template has exactly the rows the default positions use: day i sits
    in row i / c (c = `cols || 12`), every such row is below `TotalRows`, and
    the last template row holds a day.  In the other views the row count is
    the group count, one row per group.
   */
  lemma TotalRowsCoverDays(dayCount: nat, cols: nat, monthCount: nat, weekCount: nat)
    ensures var c := ColsOr(cols, 12);
            var t := TotalRows(View.Default, dayCount, cols, monthCount, weekCount);
            && (forall i :: 0 <= i < dayCount ==> i / c < t)
            && (dayCount > 0 ==> 0 < t && (t - 1) * c < dayCount)
            && (dayCount == 0 ==> t == 0)
    ensures TotalRows(View.Months, dayCount, cols, monthCount, weekCount) == monthCount
    ensures TotalRows(View.Weeks, dayCount, cols, monthCount, weekCount) == weekCount
  {
    var c := ColsOr(cols, 12);
    forall i | 0 <= i < dayCount
      ensures i / c < (dayCount + c - 1) / c
    {
      RowBelowCount(i, dayCount, c);
    }
    if dayCount > 0 {
      LastRowHoldsDay(dayCount, c);
    }
  }

  /**
    A row with segments gets the height its lanes need, every other row
    the base cell height: the heights are never 0, so the `||` fallback
    only fills missing rows.
   */
  lemma {:induction false} TemplateOfEvents(grid: Grid, pos: map<Date, Cell>, events: seq<LayoutEvent>, base: int,
                                            heights: map<int, int>, totalRows: nat)
    requires forall row :: (row in heights <==> SegsInRow(grid, pos, events, row) != []) &&
                           (row in heights ==> heights[row] == NeededHeight(grid, pos, events, base, row))
    ensures forall i :: 0 <= i < totalRows ==>
              TemplateRows(heights, base, totalRows)[i] == NeededHeight(grid, pos, events, base, i)
  {
    forall i | 0 <= i < totalRows
      ensures TemplateRows(heights, base, totalRows)[i] == NeededHeight(grid, pos, events, base, i)
    {
      if i in heights {
        var segs := SegsInRow(grid, pos, events, i);
        assert LaneCount(segs) >= 1;
        assert heights[i] >= LabelOffset + LaneHeight + 2;
      }
    }
  }

  /** Without events or a measured cell height, every row has the base height. */
  lemma {:induction false} TemplateWithoutEvents(base: int, totalRows: nat)
    ensures forall i :: 0 <= i < totalRows ==> TemplateRows(map[], base, totalRows)[i] == base
  {
  }

  // ------------------------------------------------------------ row tops

  /** The top of row r: the heights of the rows above it, each followed by the gap. */
  function RowTop(hs: seq<int>, r: nat): int
    requires r <= |hs|
  {
    if r == 0 then 0 else RowTop(hs, r - 1) + hs[r - 1] + Gap
  }

  /** The `cumulativeTop` loop: the top of every row of the grid. */
  method RowPositions(heights: map<int, int>, base: int, totalRows: nat) returns (tops: map<int, int>)
    ensures forall r :: r in tops ==> 0 <= r < totalRows
    ensures forall r :: 0 <= r < totalRows ==> r in tops && tops[r] == RowTop(TemplateRows(heights, base, totalRows), r)
  {
    ghost var hs := TemplateRows(heights, base, totalRows);
    tops := map[];
    var cumulativeTop := 0;
    var r := 0;
    while r < totalRows
      invariant 0 <= r <= totalRows
      invariant cumulativeTop == RowTop(hs, r)
      invariant forall k :: k in tops ==> 0 <= k < r
      invariant forall k {:trigger k in tops} :: 0 <= k < r ==> k in tops && tops[k] == RowTop(hs, k)
    {
      tops := tops[r := cumulativeTop];
      var height := HeightOr(heights, base, r);
      assert RowTop(hs, r + 1) == cumulativeTop + height + Gap;
      cumulativeTop := cumulativeTop + height + Gap;
      r := r + 1;
    }
  }

  /** Rows are stacked: with non-negative heights, a row's band [top, top + height) ends above every later row's top. */
  lemma {:induction false} RowsStacked(hs: seq<int>, r: nat, q: nat)
    requires r < q <= |hs|
    requires forall k :: 0 <= k < |hs| ==> hs[k] >= 0
    ensures RowTop(hs, r) + hs[r] < RowTop(hs, q)
    decreases q - r
  {
    if r + 1 < q {
      RowsStacked(hs, r + 1, q);
    }
  }

  /** `rowPositions.get(row) || 0`. */
  function TopOr(tops: map<int, int>, row: int): int {
    if row in tops then tops[row] else 0
  }

  // ----------------------------------------------------------------- bars

  /** A bar's box in pixels. */
  datatype Box = Box(left: int, top: int, width: int, height: int)

  /** A drawn bar: its row, lane, segment and box. */
  datatype PlacedBar = PlacedBar(row: int, lane: int, seg: Seg<LayoutEvent>, box: Box)

  /** The months and weeks views have a 50-pixel index column on the left. */
  function IndexColWidth(view: View): int {
    if view != Default then 50 else 0
  }

  /** The box of a segment in a lane, for cells `w` pixels wide and a row whose top is `rowTop`. */
  function BarBox<E>(view: View, w: int, rowTop: int, seg: Seg<E>, lane: int): Box {
    var span := seg.endCol - seg.startCol;
    Box(IndexColWidth(view) + seg.startCol * (w + Gap),
        rowTop + LabelOffset + lane * LaneHeight,
        span * w + (span - 1) * Gap,
        LaneHeight - 2)
  }

  /** A bar's right edge is the last pixel of its last cell: the left edge of column endCol, less the gap. */
  lemma {:induction false} BarRightEdge<E>(view: View, w: int, rowTop: int, seg: Seg<E>, lane: int)
    ensures var b := BarBox(view, w, rowTop, seg, lane);
            b.left + b.width == IndexColWidth(view) + seg.endCol * (w + Gap) - Gap
  {
    var a, e := seg.startCol, seg.endCol;
    calc {
      a * (w + 1) + ((e - a) * w + (e - a - 1));
      a * w + a + e * w - a * w + e - a - 1;
      e * (w + 1) - 1;
    }
  }

  /** Two segments in one lane whose columns do not overlap get boxes with at least one pixel between them. */
  lemma {:induction false} SameLaneApart<E>(view: View, w: int, rowTop: int, s1: Seg<E>, s2: Seg<E>, lane: int)
    requires w >= 0 && s1.endCol <= s2.startCol
    ensures var b1, b2 := BarBox(view, w, rowTop, s1, lane), BarBox(view, w, rowTop, s2, lane);
            b1.left + b1.width < b2.left && b1.top == b2.top
  {
    BarRightEdge(view, w, rowTop, s1, lane);
    MulMonotone(s1.endCol, s2.startCol, w + Gap);
  }

  /** Bars in a lower lane sit strictly above bars in a higher lane. */
  lemma {:induction false} LanesApart<E>(view: View, w: int, rowTop: int, s1: Seg<E>, s2: Seg<E>, l1: int, l2: int)
    requires l1 < l2
    ensures var b1, b2 := BarBox(view, w, rowTop, s1, l1), BarBox(view, w, rowTop, s2, l2);
            b1.top + b1.height < b2.top
  {
  }

  /** A bar in one of its row's lanes lies inside the row: below the label, above the row's bottom. */
  lemma {:induction false} BarInsideRow<E>(view: View, w: int, rowTop: int, seg: Seg<E>, lane: int,
                                           base: int, maxLanes: int)
    requires 0 <= lane < maxLanes
    ensures var b := BarBox(view, w, rowTop, seg, lane);
            rowTop + LabelOffset <= b.top && b.top + b.height < rowTop + RowHeight(base, maxLanes)
  {
    MulMonotone(lane, maxLanes - 1, LaneHeight);
  }

  /** The bars of one row: the row sorted and packed, one box per segment. */
  function RowBars(view: View, w: int, rowTop: int, row: int, segs: seq<Seg<LayoutEvent>>): (bars: seq<PlacedBar>)
    ensures |bars| == |SortByStart(segs)|
    ensures forall i :: 0 <= i < |bars| ==>
              bars[i].row == row && bars[i].seg == SortByStart(segs)[i] && bars[i].lane == FirstFit(SortByStart(segs)).lanes[i]
  {
    var s := SortByStart(segs);
    var lanes := FirstFit(s).lanes;
    seq(|s|, i requires 0 <= i < |s| => PlacedBar(row, lanes[i], s[i], BarBox(view, w, rowTop, s[i], lanes[i])))
  }

  /**
    The overlay sorts each row's array in place before counting its lanes
    and sorts it again before emitting its bars; sorting a sorted row keeps
    its order, so the bars are those of one sort of the row as built.
   */
  lemma {:induction false} SecondSortSameBars(view: View, w: int, rowTop: int, row: int, segs: seq<Seg<LayoutEvent>>)
    ensures RowBars(view, w, rowTop, row, SortByStart(segs)) == RowBars(view, w, rowTop, row, segs)
  {
    SortSorted(segs);
    SortOfSorted(SortByStart(segs));
  }

  /** The bar loop of one row: pack the sorted row and emit each segment's box in its lane. */
  method RowOverlay(view: View, w: int, rowTop: int, row: int, segs: seq<Seg<LayoutEvent>>)
    returns (bars: seq<PlacedBar>)
    ensures bars == RowBars(view, w, rowTop, row, segs)
  {
    var sorted, lanes, _ := PackRow(segs);
    ghost var expected := RowBars(view, w, rowTop, row, segs);
    bars := [];
    var i := 0;
    while i < |sorted|
      invariant 0 <= i <= |sorted|
      invariant bars == expected[..i]
    {
      bars := bars + [PlacedBar(row, lanes[i], sorted[i], BarBox(view, w, rowTop, sorted[i], lanes[i]))];
      i := i + 1;
    }
  }

  /** In a row's bars, two bars in the same lane are horizontally apart, and bars in different lanes vertically apart. */
  lemma {:induction false} RowBarsApart(view: View, w: int, rowTop: int, row: int, segs: seq<Seg<LayoutEvent>>,
                                        i: int, j: int)
    requires w >= 0
    requires 0 <= i < j < |RowBars(view, w, rowTop, row, segs)|
    ensures var bars := RowBars(view, w, rowTop, row, segs);
            var b1, b2 := bars[i].box, bars[j].box;
            if bars[i].lane == bars[j].lane then b1.left + b1.width < b2.left
            else b1.top + b1.height < b2.top || b2.top + b2.height < b1.top
  {
    var s := SortByStart(segs);
    var lanes := FirstFit(s).lanes;
    LanesDisjoint(segs);
    assert |s| == |RowBars(view, w, rowTop, row, segs)|;
    if lanes[i] == lanes[j] {
      assert 0 <= i < j < |s|;
      assert FirstFit(s).lanes[i] == FirstFit(s).lanes[j];
      assert s[i].endCol <= s[j].startCol;
      SameLaneApart(view, w, rowTop, s[i], s[j], lanes[i]);
    } else if lanes[i] < lanes[j] {
      LanesApart(view, w, rowTop, s[i], s[j], lanes[i], lanes[j]);
    } else {
      LanesApart(view, w, rowTop, s[j], s[i], lanes[j], lanes[i]);
    }
  }

  /** The bars of the events, each row's at the top the template gives it. */
  ghost predicate IsEventBar(view: View, w: int, grid: Grid, pos: map<Date, Cell>, events: seq<LayoutEvent>,
                             base: int, totalRows: nat, b: PlacedBar) {
    exists row :: SegsInRow(grid, pos, events, row) != [] &&
      b in RowBars(view, w, ExpectedTop(grid, pos, events, base, totalRows, row), row, SegsInRow(grid, pos, events, row))
  }

  /** The top of `row` when the rows have the heights their events need (0 for a row outside the grid). */
  ghost function ExpectedTop(grid: Grid, pos: map<Date, Cell>, events: seq<LayoutEvent>, base: int,
                             totalRows: nat, row: int): int {
    var hs := seq(totalRows, i => NeededHeight(grid, pos, events, base, i));
    if 0 <= row < totalRows then RowTop(hs, row) else 0
  }

  /** `b` is one of the bars of a row of `rows`. */
  ghost predicate InRows(view: View, w: int, rowToSegs: map<int, seq<Seg<LayoutEvent>>>, tops: map<int, int>,
                         rows: set<int>, b: PlacedBar) {
    exists row :: row in rows && row in rowToSegs && b in RowBars(view, w, TopOr(tops, row), row, rowToSegs[row])
  }

  /** The bar loop over the rows of the segment map. */
  method CollectBars(view: View, w: int, rowToSegs: map<int, seq<Seg<LayoutEvent>>>, tops: map<int, int>)
    returns (bars: seq<PlacedBar>)
    ensures forall b :: b in bars <==> InRows(view, w, rowToSegs, tops, rowToSegs.Keys, b)
  {
    bars := [];
    var todo := rowToSegs.Keys;
    while todo != {}
      invariant todo <= rowToSegs.Keys
      invariant forall b :: b in bars <==> InRows(view, w, rowToSegs, tops, rowToSegs.Keys - todo, b)
      decreases |todo|
    {
      NonEmptyHasMember(todo);
      var row :| row in todo;
      var rowBars := RowOverlay(view, w, TopOr(tops, row), row, rowToSegs[row]);
      ghost var done := rowToSegs.Keys - todo;
      forall b
        ensures InRows(view, w, rowToSegs, tops, done + {row}, b) <==>
                  InRows(view, w, rowToSegs, tops, done, b) || b in rowBars
      {
        if InRows(view, w, rowToSegs, tops, done + {row}, b) {
          var r :| r in done + {row} && r in rowToSegs && b in RowBars(view, w, TopOr(tops, r), r, rowToSegs[r]);
        }
      }
      bars := bars + rowBars;
      todo := todo - {row};
      assert rowToSegs.Keys - todo == done + {row};
    }
  }

  /**
    The overlay memo: no bars until the cell size is measured; otherwise
    the segments of the events, the heights of their rows, the rows' tops,
    and every segment's box in its lane.
   */
  method OverlayBars(w: int, h: int, view: View, days: seq<Date>, cols: nat,
                     months: seq<MonthGroup>, weeks: seq<WeekGroup>, events: seq<LayoutEvent>, base: int)
    returns (result: Option<seq<PlacedBar>>)
    ensures w == 0 || h == 0 <==> result == None
    ensures result.Some? ==>
              var grid := GridOf(view, cols, months);
              var pos := PositionsOf(view, days, cols, months, weeks);
              var totalRows := TotalRows(view, |days|, cols, |months|, |weeks|);
              forall b :: b in result.value <==> IsEventBar(view, w, grid, pos, events, base, totalRows, b)
  {
    if w == 0 || h == 0 {
      return None;
    }
    var pos := ViewPositions(view, days, cols, months, weeks);
    var grid := GridOf(view, cols, months);
    var totalRows := TotalRows(view, |days|, cols, |months|, |weeks|);
    var rowToSegs := BuildSegments(grid, pos, events);
    var heights := RowHeightsOfSegments(rowToSegs, base);
    var tops := RowPositions(heights, base, totalRows);
    TopsOfEvents(grid, pos, events, base, totalRows, rowToSegs, heights, tops);
    var bars := CollectBars(view, w, rowToSegs, tops);
    EventBarsOfRows(view, w, grid, pos, events, base, totalRows, rowToSegs, tops);
    result := Some(bars);
  }

  /** The bars of the segment map's rows, at the computed tops, are the events' bars. */
  lemma {:induction false} EventBarsOfRows(view: View, w: int, grid: Grid, pos: map<Date, Cell>, events: seq<LayoutEvent>,
                                           base: int, totalRows: nat, rowToSegs: map<int, seq<Seg<LayoutEvent>>>,
                                           tops: map<int, int>)
    requires forall row :: Get(rowToSegs, row) == SegsInRow(grid, pos, events, row)
    requires forall row :: row in rowToSegs <==> SegsInRow(grid, pos, events, row) != []
    requires forall row :: row in rowToSegs ==> TopOr(tops, row) == ExpectedTop(grid, pos, events, base, totalRows, row)
    ensures forall b :: InRows(view, w, rowToSegs, tops, rowToSegs.Keys, b) <==>
              IsEventBar(view, w, grid, pos, events, base, totalRows, b)
  {
    forall b
      ensures InRows(view, w, rowToSegs, tops, rowToSegs.Keys, b) <==> IsEventBar(view, w, grid, pos, events, base, totalRows, b)
    {
      if InRows(view, w, rowToSegs, tops, rowToSegs.Keys, b) {
        var row :| row in rowToSegs.Keys && row in rowToSegs && b in RowBars(view, w, TopOr(tops, row), row, rowToSegs[row]);
        assert Get(rowToSegs, row) == rowToSegs[row];
      }
      if IsEventBar(view, w, grid, pos, events, base, totalRows, b) {
        var row :| SegsInRow(grid, pos, events, row) != [] &&
          b in RowBars(view, w, ExpectedTop(grid, pos, events, base, totalRows, row), row, SegsInRow(grid, pos, events, row));
        assert Get(rowToSegs, row) == rowToSegs[row];
      }
    }
  }

  /** The tops the overlay computes are the tops of rows with the heights their events need. */
  lemma {:induction false} TopsOfEvents(grid: Grid, pos: map<Date, Cell>, events: seq<LayoutEvent>, base: int,
                                        totalRows: nat, rowToSegs: map<int, seq<Seg<LayoutEvent>>>,
                                        heights: map<int, int>, tops: map<int, int>)
    requires forall row :: Get(rowToSegs, row) == SegsInRow(grid, pos, events, row)
    requires forall row :: row in rowToSegs <==> SegsInRow(grid, pos, events, row) != []
    requires heights.Keys == rowToSegs.Keys
    requires forall row :: row in heights ==> heights[row] == RowHeight(base, LaneCount(rowToSegs[row]))
    requires forall r :: r in tops ==> 0 <= r < totalRows
    requires forall r :: 0 <= r < totalRows ==> r in tops && tops[r] == RowTop(TemplateRows(heights, base, totalRows), r)
    ensures forall row :: row in rowToSegs ==> TopOr(tops, row) == ExpectedTop(grid, pos, events, base, totalRows, row)
  {
    var hs := seq(totalRows, i => NeededHeight(grid, pos, events, base, i));
    forall row | row in heights
      ensures heights[row] == NeededHeight(grid, pos, events, base, row)
    {
      assert Get(rowToSegs, row) == rowToSegs[row];
    }
    TemplateOfEvents(grid, pos, events, base, heights, totalRows);
    assert TemplateRows(heights, base, totalRows) == hs;
  }
}
