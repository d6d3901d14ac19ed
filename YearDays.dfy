/**
  The days of one year and the two ways the year grid cuts them into rows:
  one row per calendar month, or one row per Sunday-started week
  (components/year-calendar.tsx, generateYearDays, groupDaysByMonth,
  groupDaysByWeek).
 */
module YearDays {
  import opened Dates
  import opened Rows

  /** Entry i of `days` is the i-th day of `year`, counting from 0. */
  ghost predicate YearPrefix(days: seq<Date>, year: int) {
    forall i :: 0 <= i < |days| ==>
      Valid(days[i]) && days[i].year == year && DayNumber(days[i]) == DaysBeforeYear(year) + i
  }

  /** `days` lists every day of `year` once, in calendar order. */
  ghost predicate IsYearDays(days: seq<Date>, year: int) {
    |days| == YearLength(year) && YearPrefix(days, year)
  }

  /** A day number inside year `year`'s range belongs to a date of that year. */
  lemma InYear(d: ValidDate, year: int)
    requires DaysBeforeYear(year) <= DayNumber(d) < DaysBeforeYear(year + 1)
    ensures d.year == year
  {
    DayNumberInYear(d);
    if d.year < year {
      DaysBeforeYearMonotone(d.year + 1, year);
    } else if d.year > year {
      DaysBeforeYearMonotone(year + 1, d.year);
    }
  }

  /** Entry i of `days` is the valid date numbered `first + i`: consecutive days from `first` on. */
  ghost predicate DayRun(days: seq<Date>, first: int) {
    forall i :: 0 <= i < |days| ==> Valid(days[i]) && DayNumber(days[i]) == first + i
  }

  /** A run of a year's length from the year's first day number is that year's day list. */
  lemma DayRunIsYear(days: seq<Date>, year: int)
    requires |days| == YearLength(year) && DayRun(days, DaysBeforeYear(year))
    ensures IsYearDays(days, year)
  {
    YearStep(year);
    forall i | 0 <= i < |days|
      ensures days[i].year == year
    {
      InYear(days[i], year);
    }
  }

  /** Both Date objects of `generateYearDays(year)` are valid dates. */
  predicate BothEndsInRange(year: int) {
    JanFirstInRange(year) && JanFirstInRange(year + 1)
  }

  /**
    Walks one day at a time from `new Date(year, 0, 1)` up to
    `new Date(year + 1, 0, 1)`.  Both go through `FullYear`, so year 99 ends
    in year 100 before it starts (no days) and year -1 runs on to 1900.  An
    Invalid Date on either side makes the first comparison false (no days).
   */
  method GenerateYearDays(year: int) returns (days: seq<Date>)
    ensures !BothEndsInRange(year) ==> days == []
    ensures BothEndsInRange(year) ==>
              var first := DaysBeforeYear(FullYear(year));
              var stop := DaysBeforeYear(FullYear(year + 1));
              |days| == (if first < stop then stop - first else 0) && DayRun(days, first)
    ensures BothEndsInRange(year) && year != -1 && year != 99 ==>
              && IsYearDays(days, FullYear(year))
              && days[0] == MakeDate(FullYear(year), 1, 1)
              && days[|days| - 1] == MakeDate(FullYear(year), 12, 31)
              && forall d: ValidDate :: d.year == FullYear(year) ==> d in days
  {
    days := [];
    if !BothEndsInRange(year) {
      return;
    }
    var start: ValidDate := MakeDate(FullYear(year), 1, 1);
    var end: ValidDate := MakeDate(FullYear(year + 1), 1, 1);
    var first := DaysBeforeYear(FullYear(year));
    var d := start;
    while DayNumber(d) < DayNumber(end)
      invariant DayNumber(d) == first + |days|
      invariant |days| <= (if first < DayNumber(end) then DayNumber(end) - first else 0)
      invariant DayRun(days, first)
      decreases DayNumber(end) - DayNumber(d)
    {
      days := days + [d];
      d := NextDay(d);
    }
    if year != -1 && year != 99 {
      YearStep(FullYear(year));
      DayRunIsYear(days, FullYear(year));
      YearDaysEnds(days, FullYear(year));
    }
  }

  /** A year's day list starts on 1 January, ends on 31 December and misses no day of the year. */
  lemma YearDaysEnds(days: seq<Date>, year: int)
    requires IsYearDays(days, year)
    ensures days[0] == MakeDate(year, 1, 1) && days[|days| - 1] == MakeDate(year, 12, 31)
    ensures forall d: ValidDate :: d.year == year ==> d in days
  {
    YearLengthIsMonthTotal(year);
    var start: ValidDate := MakeDate(year, 1, 1);
    DayNumberOrder(days[0], start);
    var last: ValidDate := MakeDate(year, 12, 31);
    DayNumberOrder(days[|days| - 1], last);
    forall e: ValidDate | e.year == year
      ensures e in days
    {
      DayNumberInYear(e);
      var i := DayNumber(e) - DaysBeforeYear(year);
      DayNumberOrder(e, days[i]);
    }
  }

  /** Within a year's day list, index `i` is day `day` of month `month`. */
  lemma YearDayIndex(days: seq<Date>, year: int, i: int)
    requires IsYearDays(days, year) && 0 <= i < |days|
    ensures i == DaysBeforeMonth(year, days[i].month) + days[i].day - 1
  {
  }

  /** A day of a year's list lies in month k + 1 exactly when its index is in that month's range. */
  lemma MonthOfIndex(days: seq<Date>, year: int, i: int, k: int)
    requires IsYearDays(days, year) && 0 <= i < |days| && 0 <= k < 12
    ensures days[i].month == k + 1 <==>
              DaysBeforeMonth(year, k + 1) <= i < DaysBeforeMonth(year, k + 2)
  {
    YearDayIndex(days, year, i);
    var m := days[i].month;
    DaysBeforeMonthStep(year, m);
    DaysBeforeMonthStep(year, k + 1);
    if m < k + 1 {
      DaysBeforeMonthMonotone(year, m, k + 1);
    } else if m > k + 1 {
      DaysBeforeMonthMonotone(year, k + 1, m);
    }
  }

  // ---------------------------------------------------------------- months

  /** A month row: `month` is JavaScript's 0-based `getMonth()`. */
  datatype MonthGroup = MonthGroup(month: int, days: seq<Date>)

  function MonthIndex(d: Date): int {
    d.month - 1
  }

  function MonthRows(groups: seq<MonthGroup>): (rows: seq<seq<Date>>)
    ensures |rows| == |groups|
    ensures forall k :: 0 <= k < |groups| ==> rows[k] == groups[k].days
  {
    seq(|groups|, k requires 0 <= k < |groups| => groups[k].days)
  }

  /** `groups` cuts `days` into maximal runs of one month. */
  ghost predicate IsMonthPartition(days: seq<Date>, groups: seq<MonthGroup>) {
    && Concat(MonthRows(groups)) == days
    && (forall k :: 0 <= k < |groups| ==> groups[k].days != [])
    && (forall k, j :: 0 <= k < |groups| && 0 <= j < |groups[k].days| ==>
          MonthIndex(groups[k].days[j]) == groups[k].month)
    && (forall k :: 0 < k < |groups| ==> groups[k - 1].month != groups[k].month)
  }

  lemma MonthRowsSnoc(groups: seq<MonthGroup>, g: MonthGroup)
    ensures Concat(MonthRows(groups + [g])) == Concat(MonthRows(groups)) + g.days
  {
    assert MonthRows(groups + [g]) == MonthRows(groups) + [g.days];
    ConcatSnoc(MonthRows(groups), g.days);
  }

  /** The state of the month grouping after reading the first `i` days. */
  ghost predicate MonthsSoFar(days: seq<Date>, i: int, groups: seq<MonthGroup>,
                              currentMonth: int, currentGroup: seq<Date>)
  {
    && 0 <= i <= |days|
    && Concat(MonthRows(groups)) + currentGroup == days[..i]
    && (forall k :: 0 <= k < |groups| ==> groups[k].days != [])
    && (forall k, j :: 0 <= k < |groups| && 0 <= j < |groups[k].days| ==>
          MonthIndex(groups[k].days[j]) == groups[k].month)
    && (forall k :: 0 < k < |groups| ==> groups[k - 1].month != groups[k].month)
    && (forall j :: 0 <= j < |currentGroup| ==> MonthIndex(currentGroup[j]) == currentMonth)
    && (groups != [] ==> currentGroup != [] && groups[|groups| - 1].month != currentMonth)
  }

  lemma MonthsOpen(days: seq<Date>, i: int, currentMonth: int)
    requires MonthsSoFar(days, i, [], currentMonth, [])
    requires i < |days|
    ensures MonthsSoFar(days, i + 1, [], MonthIndex(days[i]), [days[i]])
  {
    SliceSnoc(days, 0, i);
  }

  lemma MonthsClose(days: seq<Date>, i: int, groups: seq<MonthGroup>, currentMonth: int,
                    currentGroup: seq<Date>)
    requires MonthsSoFar(days, i, groups, currentMonth, currentGroup)
    requires i < |days| && MonthIndex(days[i]) != currentMonth && currentGroup != []
    ensures MonthsSoFar(days, i + 1, groups + [MonthGroup(currentMonth, currentGroup)], MonthIndex(days[i]), [days[i]])
  {
    SliceSnoc(days, 0, i);
    MonthRowsSnoc(groups, MonthGroup(currentMonth, currentGroup));
  }

  lemma MonthsSameRow(days: seq<Date>, i: int, groups: seq<MonthGroup>, currentMonth: int,
                      currentGroup: seq<Date>)
    requires MonthsSoFar(days, i, groups, currentMonth, currentGroup)
    requires i < |days| && MonthIndex(days[i]) == currentMonth
    ensures MonthsSoFar(days, i + 1, groups, currentMonth, currentGroup + [days[i]])
  {
    SliceSnoc(days, 0, i);
  }

  lemma MonthsFinish(days: seq<Date>, groups: seq<MonthGroup>, currentMonth: int,
                     currentGroup: seq<Date>)
    requires MonthsSoFar(days, |days|, groups, currentMonth, currentGroup)
    ensures IsMonthPartition(days, if |currentGroup| > 0 then groups + [MonthGroup(currentMonth, currentGroup)] else groups)
  {
    assert days[..|days|] == days;
    if |currentGroup| > 0 {
      MonthRowsSnoc(groups, MonthGroup(currentMonth, currentGroup));
    }
  }

  /** Starts a new row whenever the month changes from the previous day's. */
  method GroupDaysByMonth(days: seq<Date>) returns (groups: seq<MonthGroup>)
    ensures IsMonthPartition(days, groups)
  {
    groups := [];
    var currentMonth := -1;
    var currentGroup: seq<Date> := [];
    for i := 0 to |days|
      invariant MonthsSoFar(days, i, groups, currentMonth, currentGroup)
    {
      var day := days[i];
      var month := MonthIndex(day);
      if month != currentMonth {
        if |currentGroup| > 0 {
          MonthsClose(days, i, groups, currentMonth, currentGroup);
          groups := groups + [MonthGroup(currentMonth, currentGroup)];
        } else {
          MonthsOpen(days, i, currentMonth);
        }
        currentMonth := month;
        currentGroup := [day];
      } else {
        MonthsSameRow(days, i, groups, currentMonth, currentGroup);
        currentGroup := currentGroup + [day];
      }
    }
    MonthsFinish(days, groups, currentMonth, currentGroup);
    if |currentGroup| > 0 {
      groups := groups + [MonthGroup(currentMonth, currentGroup)];
    }
  }

  /** Row k starts on the first day of month k + 1. */
  lemma {:induction false} MonthGroupStart(days: seq<Date>, year: int, groups: seq<MonthGroup>, k: nat)
    requires IsYearDays(days, year) && IsMonthPartition(days, groups) && k < |groups|
    ensures k < 12 && groups[k].month == k
    ensures Offset(MonthRows(groups), k) == DaysBeforeMonth(year, k + 1)
  {
    var rows := MonthRows(groups);
    if k == 0 {
      assert rows[..0] == [];
      ConcatAt(rows, 0, 0);
      MonthOfIndex(days, year, 0, 0);
    } else {
      MonthGroupStart(days, year, groups, k - 1);
      MonthGroupNext(days, year, groups, k);
    }
  }

  lemma MonthGroupNext(days: seq<Date>, year: int, groups: seq<MonthGroup>, k: nat)
    requires IsYearDays(days, year) && IsMonthPartition(days, groups) && 0 < k < |groups|
    requires k - 1 < 12 && groups[k - 1].month == k - 1
    requires Offset(MonthRows(groups), k - 1) == DaysBeforeMonth(year, k)
    ensures k < 12 && groups[k].month == k
    ensures Offset(MonthRows(groups), k) == DaysBeforeMonth(year, k + 1)
  {
    var rows := MonthRows(groups);
    var t := Offset(rows, k);
    OffsetStep(rows, k - 1);
    ConcatAt(rows, k - 1, |groups[k - 1].days| - 1);
    ConcatAt(rows, k, 0);
    MonthOfIndex(days, year, t - 1, k - 1);
    MonthOfIndex(days, year, t, k - 1);
    YearLengthIsMonthTotal(year);
    DaysBeforeMonthStep(year, k);
    assert t == DaysBeforeMonth(year, k + 1);
    DaysBeforeMonthStep(year, k + 1);
    MonthOfIndex(days, year, t, k);
  }

  /** A whole year falls into twelve month rows, row k holding all days of month k + 1. */
  lemma MonthPartitionOfYear(days: seq<Date>, year: int, groups: seq<MonthGroup>)
    requires IsYearDays(days, year) && IsMonthPartition(days, groups)
    ensures |groups| == 12
    ensures forall k :: 0 <= k < 12 ==>
              groups[k].month == k && |groups[k].days| == DaysInMonth(year, k + 1)
  {
    var rows := MonthRows(groups);
    var n := |groups|;
    assert n > 0;
    MonthGroupStart(days, year, groups, n - 1);
    OffsetStep(rows, n - 1);
    OffsetAll(rows);
    ConcatAt(rows, n - 1, |groups[n - 1].days| - 1);
    YearLengthIsMonthTotal(year);
    MonthOfIndex(days, year, |days| - 1, 11);
    assert n == 12;
    forall k | 0 <= k < 12
      ensures groups[k].month == k && |groups[k].days| == DaysInMonth(year, k + 1)
    {
      MonthGroupStart(days, year, groups, k);
      OffsetStep(rows, k);
      DaysBeforeMonthStep(year, k + 1);
      if k + 1 < 12 {
        MonthGroupStart(days, year, groups, k + 1);
      }
    }
  }

  // ----------------------------------------------------------------- weeks

  /** A week row, numbered from 1. */
  datatype WeekGroup = WeekGroup(weekNum: int, days: seq<Date>)

  function WeekRows(groups: seq<WeekGroup>): (rows: seq<seq<Date>>)
    ensures |rows| == |groups|
    ensures forall k :: 0 <= k < |groups| ==> rows[k] == groups[k].days
  {
    seq(|groups|, k requires 0 <= k < |groups| => groups[k].days)
  }

  predicate IsJanFirst(d: Date) {
    d.month == 1 && d.day == 1
  }

  /** First index holding a Sunday or a 1 January; |days| when there is none. */
  function FirstWeekMarker(days: seq<Date>): (i: nat)
    ensures i <= |days|
  {
    if days == [] then 0
    else if IsSunday(days[0]) || IsJanFirst(days[0]) then 0
    else 1 + FirstWeekMarker(days[1..])
  }

  /** The marker is the first Sunday or 1 January, and nothing before it is either. */
  lemma {:induction false} FirstWeekMarkerIsFirst(days: seq<Date>)
    ensures var i := FirstWeekMarker(days);
            && (forall j :: 0 <= j < i ==> !IsSunday(days[j]) && !IsJanFirst(days[j]))
            && (i < |days| ==> IsSunday(days[i]) || IsJanFirst(days[i]))
  {
    if days != [] && !IsSunday(days[0]) && !IsJanFirst(days[0]) {
      FirstWeekMarkerIsFirst(days[1..]);
      var i := FirstWeekMarker(days);
      forall j | 0 <= j < i
        ensures !IsSunday(days[j]) && !IsJanFirst(days[j])
      {
        if j > 0 {
          assert days[j] == days[1..][j - 1];
        }
      }
    }
  }

  /** Reading up to a Sunday or 1 January at or before the marker finds the marker. */
  lemma MarkerAt(days: seq<Date>, i: int)
    requires 0 <= i < |days| && i <= FirstWeekMarker(days)
    requires IsSunday(days[i]) || IsJanFirst(days[i])
    ensures FirstWeekMarker(days) == i
  {
    FirstWeekMarkerIsFirst(days);
  }

  /** Any other day at or before the marker is before it. */
  lemma MarkerAfter(days: seq<Date>, i: int)
    requires 0 <= i < |days| && i <= FirstWeekMarker(days)
    requires !IsSunday(days[i]) && !IsJanFirst(days[i])
    ensures i < FirstWeekMarker(days)
  {
    FirstWeekMarkerIsFirst(days);
  }

  /**
    Number of leading days the week grouping throws away: the days before a
    1 January that is not a Sunday and comes before every Sunday.
   */
  function DroppedDays(days: seq<Date>): nat {
    var i := FirstWeekMarker(days);
    if i < |days| && !IsSunday(days[i]) then i else 0
  }

  /** A week row holds no Sunday after its first day. */
  ghost predicate SundayOnlyFirst(week: seq<Date>) {
    forall j :: 0 < j < |week| ==> !IsSunday(week[j])
  }

  /** Rows numbered 1, 2, 3, ..., none empty, each after the first opening on a Sunday. */
  ghost predicate WeekRowsShape(groups: seq<WeekGroup>) {
    && (forall k :: 0 <= k < |groups| ==> groups[k].weekNum == k + 1 && groups[k].days != [])
    && (forall k :: 0 <= k < |groups| ==> SundayOnlyFirst(groups[k].days))
    && (forall k :: 0 < k < |groups| ==> IsSunday(groups[k].days[0]))
  }

  /**
    `groups` cuts what is left of `days` after the dropped days into rows
    that each run up to the next Sunday; the rows are numbered 1, 2, 3, ...
   */
  ghost predicate IsWeekPartition(days: seq<Date>, groups: seq<WeekGroup>) {
    && DroppedDays(days) <= |days|
    && Concat(WeekRows(groups)) == days[DroppedDays(days)..]
    && WeekRowsShape(groups)
  }

  lemma WeekRowsSnoc(groups: seq<WeekGroup>, g: WeekGroup)
    ensures Concat(WeekRows(groups + [g])) == Concat(WeekRows(groups)) + g.days
  {
    assert WeekRows(groups + [g]) == WeekRows(groups) + [g.days];
    ConcatSnoc(WeekRows(groups), g.days);
  }

  lemma WeekRowsShapeSnoc(groups: seq<WeekGroup>, g: WeekGroup)
    requires WeekRowsShape(groups)
    requires g.weekNum == |groups| + 1 && g.days != [] && SundayOnlyFirst(g.days)
    requires groups != [] ==> IsSunday(g.days[0])
    ensures WeekRowsShape(groups + [g])
  {
  }

  /** The row being filled: no Sunday after its first day, and it opened on a Sunday once a row has been closed. */
  ghost predicate OpenWeek(groups: seq<WeekGroup>, currentWeek: seq<Date>) {
    && SundayOnlyFirst(currentWeek)
    && (groups != [] ==> currentWeek != [] && IsSunday(currentWeek[0]))
  }

  /** The days read so far, minus the dropped ones, are the closed rows followed by the open one. */
  ghost predicate WeeksCover(days: seq<Date>, i: int, groups: seq<WeekGroup>,
                             currentWeek: seq<Date>, foundFirstWeek: bool, dropped: int)
  {
    && 0 <= dropped <= i <= |days|
    && (foundFirstWeek <==> FirstWeekMarker(days) < i)
    && (foundFirstWeek ==> dropped == DroppedDays(days))
    && (!foundFirstWeek ==> dropped == 0)
    && Concat(WeekRows(groups)) + currentWeek == days[dropped..i]
    && (!foundFirstWeek ==> groups == [])
  }

  /** The state of the week grouping after reading the first `i` days. */
  ghost predicate WeeksSoFar(days: seq<Date>, i: int, groups: seq<WeekGroup>, weekNum: int,
                             currentWeek: seq<Date>, foundFirstWeek: bool, dropped: int)
  {
    && WeeksCover(days, i, groups, currentWeek, foundFirstWeek, dropped)
    && weekNum == |groups| + 1
    && WeekRowsShape(groups)
    && OpenWeek(groups, currentWeek)
  }

  lemma CoverSundayPush(days: seq<Date>, i: int, groups: seq<WeekGroup>,
                        currentWeek: seq<Date>, foundFirstWeek: bool, dropped: int)
    requires WeeksCover(days, i, groups, currentWeek, foundFirstWeek, dropped)
    requires i < |days| && IsSunday(days[i]) && currentWeek != []
    ensures WeeksCover(days, i + 1, groups + [WeekGroup(|groups| + 1, currentWeek)], [days[i]], true, dropped)
  {
    if !foundFirstWeek {
      MarkerAt(days, i);
    }
    SliceSnoc(days, dropped, i);
    CoverClose(groups, currentWeek, days[dropped..i], days[i]);
  }

  lemma CoverSundayFirst(days: seq<Date>, i: int, groups: seq<WeekGroup>,
                         foundFirstWeek: bool, dropped: int)
    requires WeeksCover(days, i, groups, [], foundFirstWeek, dropped)
    requires i < |days| && IsSunday(days[i])
    ensures WeeksCover(days, i + 1, groups, [days[i]], true, dropped)
  {
    if !foundFirstWeek {
      MarkerAt(days, i);
    }
    SliceSnoc(days, dropped, i);
  }

  lemma CoverClose(groups: seq<WeekGroup>, currentWeek: seq<Date>, prefix: seq<Date>, day: Date)
    requires Concat(WeekRows(groups)) + currentWeek == prefix
    ensures Concat(WeekRows(groups + [WeekGroup(|groups| + 1, currentWeek)])) + [day] == prefix + [day]
  {
    WeekRowsSnoc(groups, WeekGroup(|groups| + 1, currentWeek));
  }

  lemma WeeksSundayPush(days: seq<Date>, i: int, groups: seq<WeekGroup>, weekNum: int,
                        currentWeek: seq<Date>, foundFirstWeek: bool, dropped: int)
    requires WeeksSoFar(days, i, groups, weekNum, currentWeek, foundFirstWeek, dropped)
    requires i < |days| && IsSunday(days[i]) && currentWeek != []
    ensures WeeksSoFar(days, i + 1, groups + [WeekGroup(weekNum, currentWeek)], weekNum + 1,
                       [days[i]], true, dropped)
  {
    CoverSundayPush(days, i, groups, currentWeek, foundFirstWeek, dropped);
    WeekRowsShapeSnoc(groups, WeekGroup(weekNum, currentWeek));
  }

  lemma WeeksSundayFirst(days: seq<Date>, i: int, groups: seq<WeekGroup>, weekNum: int,
                         foundFirstWeek: bool, dropped: int)
    requires WeeksSoFar(days, i, groups, weekNum, [], foundFirstWeek, dropped)
    requires i < |days| && IsSunday(days[i])
    ensures WeeksSoFar(days, i + 1, groups, weekNum, [days[i]], true, dropped)
  {
    CoverSundayFirst(days, i, groups, foundFirstWeek, dropped);
  }

  lemma WeeksJanFirst(days: seq<Date>, i: int, groups: seq<WeekGroup>, weekNum: int,
                      currentWeek: seq<Date>, dropped: int)
    requires WeeksSoFar(days, i, groups, weekNum, currentWeek, false, dropped)
    requires i < |days| && !IsSunday(days[i]) && IsJanFirst(days[i])
    ensures WeeksSoFar(days, i + 1, groups, weekNum, [days[i]], true, i)
  {
    MarkerAt(days, i);
    assert days[i..i + 1] == [days[i]];
  }

  lemma CoverOther(days: seq<Date>, i: int, groups: seq<WeekGroup>,
                   currentWeek: seq<Date>, foundFirstWeek: bool, dropped: int)
    requires WeeksCover(days, i, groups, currentWeek, foundFirstWeek, dropped)
    requires i < |days| && !IsSunday(days[i]) && (foundFirstWeek || !IsJanFirst(days[i]))
    ensures WeeksCover(days, i + 1, groups, currentWeek + [days[i]], foundFirstWeek, dropped)
  {
    if !foundFirstWeek {
      MarkerAfter(days, i);
    }
    SliceSnoc(days, dropped, i);
  }

  lemma WeeksOther(days: seq<Date>, i: int, groups: seq<WeekGroup>, weekNum: int,
                   currentWeek: seq<Date>, foundFirstWeek: bool, dropped: int)
    requires WeeksSoFar(days, i, groups, weekNum, currentWeek, foundFirstWeek, dropped)
    requires i < |days| && !IsSunday(days[i]) && (foundFirstWeek || !IsJanFirst(days[i]))
    ensures WeeksSoFar(days, i + 1, groups, weekNum, currentWeek + [days[i]], foundFirstWeek, dropped)
  {
    CoverOther(days, i, groups, currentWeek, foundFirstWeek, dropped);
    assert SundayOnlyFirst(currentWeek + [days[i]]);
  }

  lemma WeeksFinish(days: seq<Date>, groups: seq<WeekGroup>, weekNum: int,
                    currentWeek: seq<Date>, foundFirstWeek: bool, dropped: int)
    requires WeeksSoFar(days, |days|, groups, weekNum, currentWeek, foundFirstWeek, dropped)
    ensures IsWeekPartition(days, if |currentWeek| > 0 then groups + [WeekGroup(weekNum, currentWeek)] else groups)
  {
    if |currentWeek| > 0 {
      WeekRowsSnoc(groups, WeekGroup(weekNum, currentWeek));
      WeekRowsShapeSnoc(groups, WeekGroup(weekNum, currentWeek));
    }
  }

  /** One step of the week grouping keeps its state description. */
  lemma WeeksStep(days: seq<Date>, i: int, groups: seq<WeekGroup>, weekNum: int,
                  currentWeek: seq<Date>, foundFirstWeek: bool, dropped: int)
    requires WeeksSoFar(days, i, groups, weekNum, currentWeek, foundFirstWeek, dropped)
    requires i < |days|
    ensures IsSunday(days[i]) && currentWeek != [] ==>
              WeeksSoFar(days, i + 1, groups + [WeekGroup(weekNum, currentWeek)], weekNum + 1, [days[i]], true, dropped)
    ensures IsSunday(days[i]) && currentWeek == [] ==>
              WeeksSoFar(days, i + 1, groups, weekNum, [days[i]], true, dropped)
    ensures !IsSunday(days[i]) && !foundFirstWeek && IsJanFirst(days[i]) ==>
              WeeksSoFar(days, i + 1, groups, weekNum, [days[i]], true, i)
    ensures !IsSunday(days[i]) && (foundFirstWeek || !IsJanFirst(days[i])) ==>
              WeeksSoFar(days, i + 1, groups, weekNum, currentWeek + [days[i]], foundFirstWeek, dropped)
  {
    if IsSunday(days[i]) {
      if currentWeek != [] {
        WeeksSundayPush(days, i, groups, weekNum, currentWeek, foundFirstWeek, dropped);
      } else {
        WeeksSundayFirst(days, i, groups, weekNum, foundFirstWeek, dropped);
      }
    } else if !foundFirstWeek && IsJanFirst(days[i]) {
      WeeksJanFirst(days, i, groups, weekNum, currentWeek, dropped);
    } else {
      WeeksOther(days, i, groups, weekNum, currentWeek, foundFirstWeek, dropped);
    }
  }

  /**
    Starts a new row on every Sunday; a 1 January met before any Sunday also
    starts the first row, discarding whatever was collected before it.
   */
  method GroupDaysByWeek(days: seq<Date>) returns (groups: seq<WeekGroup>)
    ensures IsWeekPartition(days, groups)
  {
    groups := [];
    var weekNum := 1;
    var currentWeek: seq<Date> := [];
    var foundFirstWeek := false;
    ghost var dropped := 0;
    for i := 0 to |days|
      invariant WeeksSoFar(days, i, groups, weekNum, currentWeek, foundFirstWeek, dropped)
    {
      WeeksStep(days, i, groups, weekNum, currentWeek, foundFirstWeek, dropped);
      var day := days[i];
      if IsSunday(day) {
        if |currentWeek| > 0 {
          groups := groups + [WeekGroup(weekNum, currentWeek)];
          weekNum := weekNum + 1;
        }
        currentWeek := [day];
        foundFirstWeek := true;
      } else if !foundFirstWeek && IsJanFirst(day) {
        currentWeek := [day];
        foundFirstWeek := true;
        dropped := i;
      } else {
        currentWeek := currentWeek + [day];
      }
    }
    WeeksFinish(days, groups, weekNum, currentWeek, foundFirstWeek, dropped);
    if |currentWeek| > 0 {
      groups := groups + [WeekGroup(weekNum, currentWeek)];
    }
  }

  /** In a year's day list the weekday advances by one per index. */
  lemma WeekdayAtIndex(days: seq<Date>, year: int, i: int)
    requires IsYearDays(days, year) && 0 <= i < |days|
    ensures Weekday(days[i]) == (DaysBeforeYear(year) + 1 + i) % 7
  {
  }

  /** From any residue the next multiple of 7 is 1 to 7 steps away. */
  lemma NextSunday(c: int)
    ensures var j := if c % 7 == 0 then 7 else 7 - c % 7;
            1 <= j <= 7 && (c + j) % 7 == 0
  {
  }

  /** A row that starts with weekday w and holds no Sunday after its first day has at most 7 - w days (7 for a Sunday start). */
  lemma WeekRowLength(days: seq<Date>, year: int, rows: seq<seq<Date>>, k: nat)
    requires IsYearDays(days, year) && Concat(rows) == days && k < |rows| && rows[k] != []
    requires SundayOnlyFirst(rows[k])
    ensures |rows[k]| <= 7 - Weekday(rows[k][0]) || (IsSunday(rows[k][0]) && |rows[k]| <= 7)
  {
    var s := Offset(rows, k);
    ConcatAt(rows, k, 0);
    WeekdayAtIndex(days, year, s);
    var c := DaysBeforeYear(year) + 1 + s;
    assert Weekday(rows[k][0]) == c % 7;
    NextSunday(c);
    var j := if c % 7 == 0 then 7 else 7 - c % 7;
    if j < |rows[k]| {
      ConcatAt(rows, k, j);
      WeekdayAtIndex(days, year, s + j);
      assert IsSunday(rows[k][j]);
    }
  }

  /** A year's list starts on 1 January, so the week grouping drops nothing from it. */
  lemma YearDropsNothing(days: seq<Date>, year: int)
    requires IsYearDays(days, year)
    ensures days[0] == MakeDate(year, 1, 1) && DroppedDays(days) == 0
  {
    YearDaysEnds(days, year);
  }

  /** The first row, when another follows it, fills the rest of the week of 1 January. */
  lemma FirstWeekLength(days: seq<Date>, year: int, rows: seq<seq<Date>>)
    requires IsYearDays(days, year) && Concat(rows) == days && |rows| > 1 && rows[0] != []
    requires SundayOnlyFirst(rows[0])
    requires rows[1] != [] && IsSunday(rows[1][0])
    ensures |rows[0]| == 7 - Weekday(days[0])
  {
    WeekRowLength(days, year, rows, 0);
    assert rows[..0] == [];
    OffsetStep(rows, 0);
    ConcatAt(rows, 0, 0);
    ConcatAt(rows, 1, 0);
    WeekdayAtIndex(days, year, 0);
    WeekdayAtIndex(days, year, |rows[0]|);
    var c := DaysBeforeYear(year) + 1;
    ResidueGap(c, |rows[0]|);
  }

  /** Every row strictly between the first and the last is a full week. */
  lemma MiddleWeekLength(days: seq<Date>, year: int, groups: seq<WeekGroup>, k: nat)
    requires IsYearDays(days, year) && IsWeekPartition(days, groups)
    requires 0 < k < |groups| - 1
    ensures |groups[k].days| == 7
  {
    YearDropsNothing(days, year);
    assert days[0..] == days;
    var rows := WeekRows(groups);
    WeekRowLength(days, year, rows, k);
    var s := Offset(rows, k);
    OffsetStep(rows, k);
    ConcatAt(rows, k, 0);
    ConcatAt(rows, k + 1, 0);
    WeekdayAtIndex(days, year, s);
    WeekdayAtIndex(days, year, s + |rows[k]|);
    ResidueGap(DaysBeforeYear(year) + 1 + s, |rows[k]|);
  }

  lemma ResidueGap(c: int, n: int)
    requires 1 <= n <= 7 - c % 7 || (c % 7 == 0 && 1 <= n <= 7)
    requires (c + n) % 7 == 0
    ensures n == 7 - c % 7
  {
  }

  /**
    For a whole year: nothing is dropped, the first row starts on 1 January,
    every row has at most 7 days, the first row has 7 - weekday(1 January)
    days when another row follows, and the last row ends on 31 December.
   */
  lemma WeekPartitionOfYear(days: seq<Date>, year: int, groups: seq<WeekGroup>)
    requires IsYearDays(days, year) && IsWeekPartition(days, groups)
    ensures Concat(WeekRows(groups)) == days
    ensures |groups| > 0 && groups[0].days[0] == MakeDate(year, 1, 1)
    ensures forall k :: 0 <= k < |groups| ==> |groups[k].days| <= 7
    ensures |groups| > 1 ==> |groups[0].days| == 7 - Weekday(MakeDate(year, 1, 1))
    ensures var last := groups[|groups| - 1].days; last[|last| - 1] == MakeDate(year, 12, 31)
  {
    YearDropsNothing(days, year);
    YearDaysEnds(days, year);
    assert days[0..] == days;
    var rows := WeekRows(groups);
    assert |groups| > 0;
    ConcatAt(rows, 0, 0);
    assert rows[..0] == [];
    forall k | 0 <= k < |groups|
      ensures |groups[k].days| <= 7
    {
      WeekRowLength(days, year, rows, k);
    }
    if |groups| > 1 {
      FirstWeekLength(days, year, rows);
    }
    var n := |groups|;
    OffsetStep(rows, n - 1);
    OffsetAll(rows);
    ConcatAt(rows, n - 1, |groups[n - 1].days| - 1);
  }
}
