/**
  Rows of a grid: a sequence cut into consecutive rows.  `Concat` glues the
  rows back together, `Offset` is the index in the glued sequence at which a
  row starts, and `Locate` finds the (row, column) cell of an index.
 */
module Rows {

  /** A grid cell: 0-based row and column. */
  datatype Cell = Cell(row: int, col: int)

  /** Row-major order of cells. */
  predicate CellBefore(p: Cell, q: Cell) {
    p.row < q.row || (p.row == q.row && p.col < q.col)
  }

  function Concat<T>(rows: seq<seq<T>>): seq<T> {
    if rows == [] then [] else rows[0] + Concat(rows[1..])
  }

  function Offset<T>(rows: seq<seq<T>>, k: nat): nat
    requires k <= |rows|
  {
    |Concat(rows[..k])|
  }

  lemma {:induction false} ConcatSnoc<T>(rows: seq<seq<T>>, r: seq<T>)
    ensures Concat(rows + [r]) == Concat(rows) + r
  {
    if rows == [] {
      assert rows + [r] == [r];
    } else {
      assert (rows + [r])[1..] == rows[1..] + [r];
      ConcatSnoc(rows[1..], r);
    }
  }

  lemma {:induction false} ConcatSplit<T>(rows: seq<seq<T>>, k: nat)
    requires k <= |rows|
    ensures Concat(rows) == Concat(rows[..k]) + Concat(rows[k..])
  {
    if k > 0 {
      assert rows[..k][1..] == rows[1..][..k - 1];
      assert rows[k..] == rows[1..][k - 1..];
      ConcatSplit(rows[1..], k - 1);
    } else {
      assert rows[..0] == [];
      assert rows[0..] == rows;
    }
  }

  lemma OffsetStep<T>(rows: seq<seq<T>>, k: nat)
    requires k < |rows|
    ensures Offset(rows, k + 1) == Offset(rows, k) + |rows[k]|
  {
    assert rows[..k + 1] == rows[..k] + [rows[k]];
    ConcatSnoc(rows[..k], rows[k]);
  }

  lemma OffsetAll<T>(rows: seq<seq<T>>)
    ensures Offset(rows, |rows|) == |Concat(rows)|
  {
    assert rows[..|rows|] == rows;
  }

  lemma {:induction false} OffsetMonotone<T>(rows: seq<seq<T>>, k: nat, l: nat)
    requires k < l <= |rows|
    ensures Offset(rows, k) + |rows[k]| <= Offset(rows, l)
    decreases l - k
  {
    OffsetStep(rows, k);
    if k + 1 < l {
      OffsetMonotone(rows, k + 1, l);
    }
  }

  /** Element `j` of row `k` sits at index Offset(rows, k) + j of the glued sequence. */
  lemma ConcatAt<T>(rows: seq<seq<T>>, k: nat, j: nat)
    requires k < |rows| && j < |rows[k]|
    ensures Offset(rows, k) + j < |Concat(rows)|
    ensures Concat(rows)[Offset(rows, k) + j] == rows[k][j]
  {
    ConcatSplit(rows, k);
    assert Concat(rows[k..]) == rows[k] + Concat(rows[k + 1..]) by {
      assert rows[k..][1..] == rows[k + 1..];
    }
  }

  /** Offsets of the rows after the first, read off the tail. */
  lemma OffsetTail<T>(rows: seq<seq<T>>, k: nat)
    requires 0 < |rows| && k < |rows|
    ensures Offset(rows, k + 1) == |rows[0]| + Offset(rows[1..], k)
  {
    assert rows[..k + 1][1..] == rows[1..][..k];
  }

  /** Extending a slice by one element. */
  lemma SliceSnoc<T>(s: seq<T>, a: nat, b: nat)
    requires a <= b < |s|
    ensures s[a..b + 1] == s[a..b] + [s[b]]
  {
  }

  /** The cell holding index `i` of the glued sequence. */
  function Locate<T>(rows: seq<seq<T>>, i: nat): (c: Cell)
    requires i < |Concat(rows)|
    ensures 0 <= c.row < |rows| && 0 <= c.col < |rows[c.row]|
    ensures Offset(rows, c.row) + c.col == i
  {
    if i < |rows[0]| then
      assert rows[..0] == [];
      Cell(0, i)
    else
      var c := Locate(rows[1..], i - |rows[0]|);
      OffsetTail(rows, c.row);
      Cell(c.row + 1, c.col)
  }

  /** A cell whose offset is `i` is the one `Locate` finds. */
  lemma LocateUnique<T>(rows: seq<seq<T>>, r: nat, c: nat)
    requires r < |rows| && c < |rows[r]|
    ensures Offset(rows, r) + c < |Concat(rows)|
    ensures Locate(rows, Offset(rows, r) + c) == Cell(r, c)
  {
    ConcatAt(rows, r, c);
    var p := Locate(rows, Offset(rows, r) + c);
    if p.row < r {
      OffsetMonotone(rows, p.row, r);
    } else if r < p.row {
      OffsetMonotone(rows, r, p.row);
    }
  }

  /** Later indices sit in later cells, in row-major order. */
  lemma LocateOrder<T>(rows: seq<seq<T>>, i: nat, j: nat)
    requires i < j < |Concat(rows)|
    ensures CellBefore(Locate(rows, i), Locate(rows, j))
  {
    var p, q := Locate(rows, i), Locate(rows, j);
    if q.row < p.row {
      OffsetMonotone(rows, q.row, p.row);
    }
  }
}
