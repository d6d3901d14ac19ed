/**
  The lane packer of one row.  The row's segments are sorted by start
  column with a stable sort, then each segment takes the lowest lane whose
  last bar ends at or before its start column, or opens a new lane when
  every lane is still busy there.  The row needs as many lanes as were
  opened, and at least one.
 */
module Lanes {
  import opened Layout

  function Max(a: int, b: int): int { if a >= b then a else b }

  // ----------------------------------------------------------------- sort

  predicate SortedByStart<E>(s: seq<Seg<E>>) {
    forall i, j :: 0 <= i < j < |s| ==> s[i].startCol <= s[j].startCol
  }

  /** Put `x` in front of the first segment that does not start before it. */
  function Insert<E>(x: Seg<E>, t: seq<Seg<E>>): seq<Seg<E>> {
    if t == [] || x.startCol <= t[0].startCol then [x] + t
    else [t[0]] + Insert(x, t[1..])
  }

  /** `segs.sort((a, b) => a.startCol - b.startCol)`, which is stable. */
  function SortByStart<E>(s: seq<Seg<E>>): seq<Seg<E>> {
    if s == [] then [] else Insert(s[0], SortByStart(s[1..]))
  }

  /** The segments of `s` that start at column `k`, in their order in `s`. */
  function StartingAt<E>(s: seq<Seg<E>>, k: int): seq<Seg<E>> {
    if s == [] then [] else (if s[0].startCol == k then [s[0]] else []) + StartingAt(s[1..], k)
  }

  lemma {:induction false} InsertPerm<E>(x: Seg<E>, t: seq<Seg<E>>)
    ensures multiset(Insert(x, t)) == multiset{x} + multiset(t)
  {
    if t != [] && x.startCol > t[0].startCol {
      InsertPerm(x, t[1..]);
      assert t == [t[0]] + t[1..];
    }
  }

  lemma {:induction false} InsertSorted<E>(x: Seg<E>, t: seq<Seg<E>>)
    requires SortedByStart(t)
    ensures SortedByStart(Insert(x, t))
  {
    if t != [] && x.startCol > t[0].startCol {
      var rest := Insert(x, t[1..]);
      InsertSorted(x, t[1..]);
      InsertPerm(x, t[1..]);
      forall y | y in rest
        ensures t[0].startCol <= y.startCol
      {
        assert y in multiset(rest);
        assert y == x || y in t[1..];
      }
      assert Insert(x, t) == [t[0]] + rest;
    }
  }

  /** The sort orders by start column and keeps every segment, as often as it occurs. */
  lemma {:induction false} SortSorted<E>(s: seq<Seg<E>>)
    ensures SortedByStart(SortByStart(s))
    ensures multiset(SortByStart(s)) == multiset(s)
  {
    if s != [] {
      SortSorted(s[1..]);
      InsertSorted(s[0], SortByStart(s[1..]));
      InsertPerm(s[0], SortByStart(s[1..]));
      assert s == [s[0]] + s[1..];
    }
  }

  /** `[y]` when `y` starts at column `k`, else empty. */
  function Keep<E>(y: Seg<E>, k: int): seq<Seg<E>> {
    if y.startCol == k then [y] else []
  }

  lemma StartingAtCons<E>(y: Seg<E>, r: seq<Seg<E>>, k: int)
    ensures StartingAt([y] + r, k) == Keep(y, k) + StartingAt(r, k)
  {
    assert ([y] + r)[1..] == r;
  }

  lemma KeepSwap<E>(a: Seg<E>, b: Seg<E>, k: int, r: seq<Seg<E>>)
    requires a.startCol != b.startCol
    ensures Keep(a, k) + (Keep(b, k) + r) == Keep(b, k) + (Keep(a, k) + r)
  {
    if a.startCol == k {
      assert Keep(b, k) == [];
    } else {
      assert Keep(a, k) == [];
    }
  }

  lemma {:induction false} InsertStable<E>(x: Seg<E>, t: seq<Seg<E>>, k: int)
    requires SortedByStart(t)
    ensures StartingAt(Insert(x, t), k) == StartingAt([x] + t, k)
  {
    if t != [] && t[0].startCol < x.startCol {
      var t0, rest := t[0], t[1..];
      calc {
        StartingAt(Insert(x, t), k);
        StartingAt([t0] + Insert(x, rest), k);
        { StartingAtCons(t0, Insert(x, rest), k); }
        Keep(t0, k) + StartingAt(Insert(x, rest), k);
        { InsertStable(x, rest, k); StartingAtCons(x, rest, k); }
        Keep(t0, k) + (Keep(x, k) + StartingAt(rest, k));
        { KeepSwap(t0, x, k, StartingAt(rest, k)); }
        Keep(x, k) + (Keep(t0, k) + StartingAt(rest, k));
        { StartingAtCons(t0, rest, k); assert [t0] + rest == t; }
        Keep(x, k) + StartingAt(t, k);
        { StartingAtCons(x, t, k); }
        StartingAt([x] + t, k);
      }
    }
  }

  /** Stability: segments with the same start column keep their relative order. */
  lemma {:induction false} SortStable<E>(s: seq<Seg<E>>, k: int)
    ensures StartingAt(SortByStart(s), k) == StartingAt(s, k)
  {
    if s != [] {
      SortSorted(s[1..]);
      SortStable(s[1..], k);
      InsertStable(s[0], SortByStart(s[1..]), k);
      StartingAtCons(s[0], SortByStart(s[1..]), k);
    }
  }

  /** Sorting an already sorted row changes nothing, so sorting the same row twice gives the same order. */
  lemma {:induction false} SortOfSorted<E>(s: seq<Seg<E>>)
    requires SortedByStart(s)
    ensures SortByStart(s) == s
  {
    if s != [] {
      SortOfSorted(s[1..]);
      assert s == [s[0]] + s[1..];
    }
  }

  // ------------------------------------------------------------ first fit

  /** The lowest lane whose last bar ends at or before `start`; |ends| when every lane is busy there. */
  function FirstFree(ends: seq<int>, start: int): (l: nat)
    ensures l <= |ends|
    ensures forall k :: 0 <= k < l ==> start < ends[k]
    ensures l < |ends| ==> ends[l] <= start
  {
    if ends == [] || ends[0] <= start then 0 else 1 + FirstFree(ends[1..], start)
  }

  /** Lanes given so far and, per lane, the end column of its last bar (`laneEnds`). */
  datatype Packing = Packing(lanes: seq<nat>, ends: seq<int>)

  /** Place one segment: take the first free lane, or open a new one, and record the segment's end there. */
  function Place<E>(p: Packing, x: Seg<E>): Packing {
    var l := FirstFree(p.ends, x.startCol);
    Packing(p.lanes + [l], if l == |p.ends| then p.ends + [x.endCol] else p.ends[l := x.endCol])
  }

  /** First-fit over the segments in the order given. */
  function FirstFit<E>(s: seq<Seg<E>>): (p: Packing)
    ensures |p.lanes| == |s|
  {
    if s == [] then Packing([], []) else Place(FirstFit(s[..|s| - 1]), s[|s| - 1])
  }

  /** `Math.max(1, maxLanesInRow)` after packing the sorted row. */
  function LaneCount<E>(segs: seq<Seg<E>>): int {
    Max(1, |FirstFit(SortByStart(segs)).ends|)
  }

  /**
    The packing loop of one row: sort the row, then for each segment walk
    the lanes to the first free one, count it, and push or overwrite that
    lane's end.  Returns the sorted row, each segment's lane and the lane
    count.
   */
  method PackRow<E>(segs: seq<Seg<E>>) returns (sorted: seq<Seg<E>>, lanes: seq<nat>, maxLanes: int)
    ensures sorted == SortByStart(segs)
    ensures lanes == FirstFit(sorted).lanes
    ensures maxLanes == LaneCount(segs)
  {
    sorted := SortByStart(segs);
    var laneEnds: seq<int> := [];
    var maxLanesInRow := 0;
    lanes := [];
    var i := 0;
    while i < |sorted|
      invariant 0 <= i <= |sorted|
      invariant FirstFit(sorted[..i]) == Packing(lanes, laneEnds)
      invariant maxLanesInRow == |laneEnds|
    {
      var seg := sorted[i];
      var lane := 0;
      while lane < |laneEnds| && seg.startCol < laneEnds[lane]
        invariant 0 <= lane <= |laneEnds|
        invariant forall k :: 0 <= k < lane ==> seg.startCol < laneEnds[k]
      {
        lane := lane + 1;
      }
      FirstFreeUnique(laneEnds, seg.startCol, lane);
      PackStep(sorted, i, Packing(lanes, laneEnds));
      maxLanesInRow := Max(maxLanesInRow, lane + 1);
      if lane == |laneEnds| {
        laneEnds := laneEnds + [seg.endCol];
      } else {
        laneEnds := laneEnds[lane := seg.endCol];
      }
      lanes := lanes + [lane];
      i := i + 1;
    }
    assert sorted[..|sorted|] == sorted;
    maxLanes := Max(1, maxLanesInRow);
  }

  lemma PackStep<E>(s: seq<Seg<E>>, i: int, p: Packing)
    requires 0 <= i < |s| && FirstFit(s[..i]) == p
    ensures FirstFit(s[..i + 1]) == Place(p, s[i])
  {
    assert s[..i + 1][..i] == s[..i];
  }

  /** A lane that every earlier lane is busy at, and that is free or new, is the first free lane. */
  lemma {:induction false} FirstFreeUnique(ends: seq<int>, start: int, l: int)
    requires 0 <= l <= |ends|
    requires forall k :: 0 <= k < l ==> start < ends[k]
    requires l < |ends| ==> ends[l] <= start
    ensures l == FirstFree(ends, start)
  {
  }

  // --------------------------------------------------- what a packing keeps

  /** The index of the last `l` in `ls`, or -1. */
  function LastIn(ls: seq<nat>, l: int): (r: int)
    ensures -1 <= r < |ls|
    ensures r >= 0 ==> ls[r] == l
    ensures forall j :: r < j < |ls| ==> ls[j] != l
  {
    if ls == [] then -1
    else if ls[|ls| - 1] == l then |ls| - 1
    else LastIn(ls[..|ls| - 1], l)
  }

  /** Every segment has a lane below the lane count, and each lane's end is the end of its last segment. */
  ghost predicate Tracked<E>(s: seq<Seg<E>>, p: Packing) {
    && |p.lanes| == |s|
    && (forall i :: 0 <= i < |s| ==> p.lanes[i] < |p.ends|)
    && (forall l :: 0 <= l < |p.ends| ==> 0 <= LastIn(p.lanes, l) && p.ends[l] == s[LastIn(p.lanes, l)].endCol)
  }

  lemma {:induction false} FirstFitTracked<E>(s: seq<Seg<E>>)
    ensures Tracked(s, FirstFit(s))
  {
    if s != [] {
      var s', x := s[..|s| - 1], s[|s| - 1];
      FirstFitTracked(s');
      var p := FirstFit(s');
      var q := Place(p, x);
      var l := FirstFree(p.ends, x.startCol);
      assert q.lanes[..|q.lanes| - 1] == p.lanes;
      forall k | 0 <= k < |q.ends|
        ensures 0 <= LastIn(q.lanes, k) && q.ends[k] == s[LastIn(q.lanes, k)].endCol
      {
        if k != l {
          assert LastIn(q.lanes, k) == LastIn(p.lanes, k);
        }
      }
    }
  }

  /** In a sorted row, a segment ends at or before the start of every later segment in its lane. */
  lemma {:induction false} FirstFitDisjoint<E>(s: seq<Seg<E>>)
    requires SortedByStart(s)
    ensures forall i, j :: 0 <= i < j < |s| && FirstFit(s).lanes[i] == FirstFit(s).lanes[j] ==>
              s[i].endCol <= s[j].startCol
  {
    if s != [] {
      var s', x := s[..|s| - 1], s[|s| - 1];
      FirstFitDisjoint(s');
      FirstFitTracked(s');
      var p := FirstFit(s');
      var l := FirstFree(p.ends, x.startCol);
      forall i, j | 0 <= i < j < |s| && FirstFit(s).lanes[i] == FirstFit(s).lanes[j]
        ensures s[i].endCol <= s[j].startCol
      {
        if j == |s'| {
          var m := LastIn(p.lanes, l);
          assert p.lanes[i] == l;
          assert i <= m;
          if i < m {
            assert s'[i].endCol <= s'[m].startCol;
          }
        } else {
          assert s'[i].endCol <= s'[j].startCol;
        }
      }
    }
  }

  // ---------------------------------------------------------------- depth

  predicate CoversCol<E>(x: Seg<E>, c: int) {
    x.startCol <= c < x.endCol
  }

  /** How many segments of the row cover column `c`. */
  function Depth<E>(s: seq<Seg<E>>, c: int): nat {
    if s == [] then 0 else (if CoversCol(s[0], c) then 1 else 0) + Depth(s[1..], c)
  }

  /** The indices of the segments that cover column `c`. */
  ghost function CoverSet<E>(s: seq<Seg<E>>, c: int): set<int> {
    set i | 0 <= i < |s| && CoversCol(s[i], c)
  }

  /** The numbers 0 .. n-1. */
  function Range(n: int): (r: set<int>)
    ensures forall k :: k in r <==> 0 <= k < n
    ensures n >= 0 ==> |r| == n
    decreases n
  {
    if n <= 0 then {} else Range(n - 1) + {n - 1}
  }

  /** A one-to-one map from `A`, a set of indices below `m`, into `B` shows `A` is no larger than `B`. */
  lemma {:induction false} InjectionBound(A: set<int>, B: set<int>, f: int -> int, m: int)
    requires forall a :: a in A ==> 0 <= a < m
    requires forall a :: a in A ==> f(a) in B
    requires forall a, b :: a in A && b in A && f(a) == f(b) ==> a == b
    ensures |A| <= |B|
    decreases m
  {
    if m > 0 {
      var x := m - 1;
      if x in A {
        InjectionBound(A - {x}, B - {f(x)}, f, m - 1);
      } else {
        InjectionBound(A, B, f, m - 1);
      }
    } else {
      assert forall a :: a !in A;
      assert A == {};
    }
  }

  lemma {:induction false} DepthSnoc<E>(s: seq<Seg<E>>, x: Seg<E>, c: int)
    ensures Depth(s + [x], c) == Depth(s, c) + (if CoversCol(x, c) then 1 else 0)
  {
    if s != [] {
      assert (s + [x])[1..] == s[1..] + [x];
      DepthSnoc(s[1..], x, c);
    } else {
      assert s + [x] == [x];
    }
  }

  lemma {:induction false} DepthIsCoverSet<E>(s: seq<Seg<E>>, c: int)
    ensures Depth(s, c) == |CoverSet(s, c)|
  {
    if s != [] {
      var s', x := s[..|s| - 1], s[|s| - 1];
      DepthIsCoverSet(s', c);
      DepthSnoc(s', x, c);
      assert s' + [x] == s;
      if CoversCol(x, c) {
        assert CoverSet(s, c) == CoverSet(s', c) + {|s'|};
      } else {
        assert CoverSet(s, c) == CoverSet(s', c);
      }
    } else {
      assert CoverSet(s, c) == {};
    }
  }

  lemma {:induction false} DepthInsert<E>(x: Seg<E>, t: seq<Seg<E>>, c: int)
    ensures Depth(Insert(x, t), c) == Depth([x] + t, c)
  {
    if t != [] && t[0].startCol < x.startCol {
      DepthInsert(x, t[1..], c);
      assert ([t[0]] + Insert(x, t[1..]))[1..] == Insert(x, t[1..]);
      assert ([x] + t[1..])[1..] == t[1..];
      assert ([x] + t)[1..] == t;
    }
  }

  /** Sorting does not change how many segments cover a column. */
  lemma {:induction false} DepthSort<E>(s: seq<Seg<E>>, c: int)
    ensures Depth(SortByStart(s), c) == Depth(s, c)
  {
    if s != [] {
      DepthSort(s[1..], c);
      DepthInsert(s[0], SortByStart(s[1..]), c);
      assert ([s[0]] + SortByStart(s[1..]))[1..] == SortByStart(s[1..]);
    }
  }

  /** Segments over one column sit in different lanes, so no column is covered more often than there are lanes. */
  lemma {:induction false} DepthAtMostLanes<E>(s: seq<Seg<E>>, c: int)
    requires SortedByStart(s)
    ensures |CoverSet(s, c)| <= |FirstFit(s).ends|
  {
    var p := FirstFit(s);
    FirstFitTracked(s);
    FirstFitDisjoint(s);
    InjectionBound(CoverSet(s, c), Range(|p.ends|), i => if 0 <= i < |p.lanes| then p.lanes[i] else 0, |s|);
  }

  /** A lane still busy at the start column of a later segment ends with a segment that covers that column. */
  lemma {:induction false} LastCovers<E>(s: seq<Seg<E>>, x: Seg<E>, k: int)
    requires forall i :: 0 <= i < |s| ==> s[i].startCol <= x.startCol
    requires 0 <= k < |FirstFit(s).ends| && x.startCol < FirstFit(s).ends[k]
    ensures 0 <= LastIn(FirstFit(s).lanes, k) < |s|
    ensures LastIn(FirstFit(s).lanes, k) in CoverSet(s + [x], x.startCol)
  {
    FirstFitTracked(s);
    var m := LastIn(FirstFit(s).lanes, k);
    assert (s + [x])[m] == s[m];
  }

  /** The segment that vouches for lane `k` when a segment after `s` opens a new lane: the lane's last segment, or the new one. */
  ghost function Witness<E>(s: seq<Seg<E>>, k: int): int {
    if 0 <= k < |FirstFit(s).ends| then LastIn(FirstFit(s).lanes, k) else |s|
  }

  lemma {:induction false} WitnessesCover<E>(s: seq<Seg<E>>, x: Seg<E>)
    requires forall i :: 0 <= i < |s| ==> s[i].startCol <= x.startCol
    requires x.startCol < x.endCol
    requires FirstFree(FirstFit(s).ends, x.startCol) == |FirstFit(s).ends|
    ensures forall k :: k in Range(|FirstFit(s).ends| + 1) ==> Witness(s, k) in CoverSet(s + [x], x.startCol)
  {
    forall k | k in Range(|FirstFit(s).ends| + 1)
      ensures Witness(s, k) in CoverSet(s + [x], x.startCol)
    {
      if k < |FirstFit(s).ends| {
        LastCovers(s, x, k);
      } else {
        assert (s + [x])[|s|] == x;
      }
    }
  }

  lemma {:induction false} WitnessesDistinct<E>(s: seq<Seg<E>>)
    ensures forall k, l ::
              k in Range(|FirstFit(s).ends| + 1) && l in Range(|FirstFit(s).ends| + 1) && Witness(s, k) == Witness(s, l)
              ==> k == l
  {
    FirstFitTracked(s);
  }

  /** When a segment opens a new lane, every open lane's last segment and the new one cover its start column. */
  lemma {:induction false} NewLaneDepth<E>(s: seq<Seg<E>>, x: Seg<E>)
    requires forall i :: 0 <= i < |s| ==> s[i].startCol <= x.startCol
    requires x.startCol < x.endCol
    requires FirstFree(FirstFit(s).ends, x.startCol) == |FirstFit(s).ends|
    ensures |CoverSet(s + [x], x.startCol)| >= |FirstFit(s).ends| + 1
  {
    var n := |FirstFit(s).ends|;
    WitnessesCover(s, x);
    WitnessesDistinct(s);
    InjectionBound(Range(n + 1), CoverSet(s + [x], x.startCol), k => Witness(s, k), n + 1);
  }

  lemma {:induction false} CoverSetGrows<E>(s: seq<Seg<E>>, x: Seg<E>, c: int)
    ensures |CoverSet(s, c)| <= |CoverSet(s + [x], c)|
  {
    InjectionBound(CoverSet(s, c), CoverSet(s + [x], c), i => i, |s|);
  }

  /** Some column of a sorted row of non-empty segments is covered once per lane. */
  lemma {:induction false} LanesReached<E>(s: seq<Seg<E>>)
    requires SortedByStart(s)
    requires forall i :: 0 <= i < |s| ==> s[i].startCol < s[i].endCol
    ensures exists c :: |CoverSet(s, c)| >= |FirstFit(s).ends|
  {
    if s == [] {
      assert |CoverSet(s, 0)| >= 0;
    } else {
      var s', x := s[..|s| - 1], s[|s| - 1];
      assert s' + [x] == s;
      LanesReached(s');
      var p := FirstFit(s');
      if FirstFree(p.ends, x.startCol) == |p.ends| {
        assert forall i :: 0 <= i < |s'| ==> s'[i] == s[i];
        NewLaneDepth(s', x);
      } else {
        var c :| |CoverSet(s', c)| >= |p.ends|;
        CoverSetGrows(s', x, c);
      }
    }
  }

  /** Maximum overlap depth: no column of the row is covered by more segments than the lane count. */
  lemma {:induction false} LaneCountCoversDepth<E>(segs: seq<Seg<E>>, c: int)
    ensures Depth(segs, c) <= LaneCount(segs)
  {
    var s := SortByStart(segs);
    SortSorted(segs);
    DepthSort(segs, c);
    DepthIsCoverSet(s, c);
    DepthAtMostLanes(s, c);
  }

  /**
    Why the segments must not be empty: a zero-width segment covers no
    column, yet when it starts where a wider one is still busy it opens a
    lane of its own, so the row gets two lanes over columns that one bar
    at most covers.
   */
  lemma ZeroWidthOpensLane<E>(a: E, b: E)
    ensures var segs := [Seg(2, 5, a), Seg(2, 2, b)];
            LaneCount(segs) == 2 && forall c :: Depth(segs, c) <= 1
  {
    var segs := [Seg(2, 5, a), Seg(2, 2, b)];
    assert SortByStart(segs) == segs by {
      assert segs[1..] == [Seg(2, 2, b)];
      assert SortByStart([Seg(2, 2, b)]) == [Seg(2, 2, b)];
    }
    var one := FirstFit([Seg(2, 5, a)]);
    var empty: seq<Seg<E>> := [];
    assert [Seg(2, 5, a)][..0] == empty;
    assert FirstFit(empty) == Packing([], []);
    assert one == Place(Packing([], []), Seg(2, 5, a));
    assert one.ends == [5];
    assert segs[..1] == [Seg(2, 5, a)];
    assert FirstFree([5], 2) == 1;
    forall c
      ensures Depth(segs, c) <= 1
    {
      assert segs[1..] == [Seg(2, 2, b)];
      assert Depth([Seg(2, 2, b)], c) == 0;
    }
  }

  /**
    Maximum overlap depth, the other way: when the row has segments and
    none is empty, some column is covered by exactly as many segments as
    there are lanes.
   */
  lemma {:induction false} LaneCountIsMaxDepth<E>(segs: seq<Seg<E>>)
    requires segs != []
    requires forall i :: 0 <= i < |segs| ==> segs[i].startCol < segs[i].endCol
    ensures exists c :: Depth(segs, c) == LaneCount(segs)
  {
    var s := SortByStart(segs);
    SortSorted(segs);
    forall i | 0 <= i < |s|
      ensures s[i].startCol < s[i].endCol
    {
      assert s[i] in multiset(segs);
    }
    LanesReached(s);
    var c :| |CoverSet(s, c)| >= |FirstFit(s).ends|;
    assert |FirstFit(s).ends| >= 1 by {
      assert |s| >= 1 by {
        assert segs[0] in multiset(s);
      }
      FirstFitTracked(s);
      assert FirstFit(s).lanes[0] < |FirstFit(s).ends|;
    }
    DepthSort(segs, c);
    DepthIsCoverSet(s, c);
    LaneCountCoversDepth(segs, c);
  }

  /** No two segments of a row that share a lane overlap: the earlier ends at or before the later starts. */
  lemma {:induction false} LanesDisjoint<E>(segs: seq<Seg<E>>)
    ensures forall i, j ::
              0 <= i < j < |SortByStart(segs)| && FirstFit(SortByStart(segs)).lanes[i] == FirstFit(SortByStart(segs)).lanes[j]
              ==> SortByStart(segs)[i].endCol <= SortByStart(segs)[j].startCol
  {
    SortSorted(segs);
    FirstFitDisjoint(SortByStart(segs));
  }
}
