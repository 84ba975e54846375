/**
 * The piece object of game.py: an anchor (x, y), an occupancy pattern, a
 * colour tag and the index of its kind in the shape table. The anchor is the
 * top-left corner of the pattern in board coordinates (column, row).
 */
module Pieces {
  import opened Matrix

  /**
   * `shape_override if shape_override else self.shape`: a missing override
   * (None) and an empty list are both falsy, so the piece's own pattern is
   * used for them.
   */
  function Effective(shapeOverride: Grid, own: Grid): (m: Grid)
    ensures m == shapeOverride || m == own
    ensures |shapeOverride| > 0 ==> m == shapeOverride
    ensures |m| == 0 <==> |shapeOverride| == 0 && |own| == 0
  {
    if |shapeOverride| > 0 then shapeOverride else own
  }

  /** Number of occupied cells of a row. */
  function RowOnes(row: seq<int>): nat
  {
    if |row| == 0 then 0 else RowOnes(row[..|row| - 1]) + (if row[|row| - 1] != 0 then 1 else 0)
  }

  /** Number of occupied cells of a pattern. */
  function CountOnes(m: Grid): nat
  {
    if |m| == 0 then 0 else CountOnes(m[..|m| - 1]) + RowOnes(m[|m| - 1])
  }

  /** Number of occupied entries of column `c`, top row first. */
  function ColOnes(m: Grid, c: nat): nat
    requires forall r :: 0 <= r < |m| ==> c < |m[r]|
  {
    if |m| == 0 then 0 else (if m[0][c] != 0 then 1 else 0) + ColOnes(m[1..], c)
  }

  /** The counts of the first `k` columns, added up. */
  function ColSum(m: Grid, k: nat): nat
    requires forall r :: 0 <= r < |m| ==> k <= |m[r]|
  {
    if k == 0 then 0 else ColSum(m, k - 1) + ColOnes(m, k - 1)
  }

  lemma {:induction false} CountOnesConcat(a: Grid, b: Grid)
    ensures CountOnes(a + b) == CountOnes(a) + CountOnes(b)
  {
    if |b| == 0 {
      assert a + b == a;
    } else {
      CountOnesConcat(a, b[..|b| - 1]);
      assert (a + b)[..|a + b| - 1] == a + b[..|b| - 1];
    }
  }

  lemma {:induction false} ColSumEmpty(m: Grid, k: nat)
    requires |m| == 0
    ensures ColSum(m, k) == 0
  {
    if k > 0 {
      ColSumEmpty(m, k - 1);
    }
  }

  /** Column by column, the top row contributes its own count. */
  lemma {:induction false} ColSumSplit(m: Grid, k: nat)
    requires |m| > 0 && forall r :: 0 <= r < |m| ==> k <= |m[r]|
    ensures ColSum(m, k) == RowOnes(m[0][..k]) + ColSum(m[1..], k)
  {
    if k > 0 {
      ColSumSplit(m, k - 1);
      assert m[0][..k][..k - 1] == m[0][..k - 1];
    }
  }

  /** Counting a pattern of rows of width `w` row by row or column by column gives the same number. */
  lemma {:induction false} CountByColumns(m: Grid, w: nat)
    requires forall r :: 0 <= r < |m| ==> |m[r]| == w
    ensures CountOnes(m) == ColSum(m, w)
  {
    if |m| == 0 {
      ColSumEmpty(m, w);
    } else {
      CountByColumns(m[1..], w);
      ColSumSplit(m, w);
      assert m[0][..w] == m[0];
      CountOnesConcat([m[0]], m[1..]);
      assert [m[0]] + m[1..] == m;
      assert [m[0]][..0] == [];
    }
  }

  /** A row holding column `c` of `m` from the bottom up has the column's count. */
  lemma {:induction false} ReversedColumnOnes(m: Grid, c: nat, row: seq<int>)
    requires forall r :: 0 <= r < |m| ==> c < |m[r]|
    requires |row| == |m| && forall j :: 0 <= j < |row| ==> row[j] == m[|m| - 1 - j][c]
    ensures RowOnes(row) == ColOnes(m, c)
  {
    if |m| > 0 {
      ReversedColumnOnes(m[1..], c, row[..|row| - 1]);
    }
  }

  /** Rows whose counts are the column counts of `m` add up to the column sum. */
  lemma {:induction false} RowsAsColumns(rs: Grid, m: Grid, k: nat)
    requires k <= |rs| && forall r :: 0 <= r < |m| ==> k <= |m[r]|
    requires forall i :: 0 <= i < k ==> RowOnes(rs[i]) == ColOnes(m, i)
    ensures CountOnes(rs[..k]) == ColSum(m, k)
  {
    if k > 0 {
      RowsAsColumns(rs, m, k - 1);
      assert rs[..k][..k - 1] == rs[..k - 1];
    }
  }

  /** A clockwise rotation moves the occupied cells without adding or losing any. */
  lemma RotateKeepsOnes(m: Grid)
    requires |m| > 0 && |m[0]| > 0 && Rectangular(m)
    ensures CountOnes(Matrix.Rotate(m)) == CountOnes(m)
  {
    var w := |m[0]|;
    var rm := Matrix.Rotate(m);
    RotateRectangular(m);
    forall i | 0 <= i < w
      ensures RowOnes(rm[i]) == ColOnes(m, i)
    {
      ReversedColumnOnes(m, i, rm[i]);
    }
    RowsAsColumns(rm, m, w);
    assert rm[..w] == rm;
    CountByColumns(m, w);
  }

  /** The occupied cells of one row drawn at board row `oy`, column offset `ox`, left to right. */
  function RowCells(row: seq<int>, ox: int, oy: int): seq<(int, int)>
  {
    if |row| == 0 then []
    else RowCells(row[..|row| - 1], ox, oy) + (if row[|row| - 1] != 0 then [(ox + |row| - 1, oy)] else [])
  }

  /** The occupied cells of a pattern anchored at (ox, oy), row by row, each row left to right. */
  function CellsOf(m: Grid, ox: int, oy: int): seq<(int, int)>
  {
    if |m| == 0 then [] else CellsOf(m[..|m| - 1], ox, oy) + RowCells(m[|m| - 1], ox, oy + |m| - 1)
  }

  /** Row-major order on board cells: by row, then by column. */
  predicate Before(p: (int, int), q: (int, int))
  {
    p.1 < q.1 || (p.1 == q.1 && p.0 < q.0)
  }

  lemma {:induction false} RowCellsCount(row: seq<int>, ox: int, oy: int)
    ensures |RowCells(row, ox, oy)| == RowOnes(row)
  {
    if |row| > 0 {
      RowCellsCount(row[..|row| - 1], ox, oy);
    }
  }

  lemma {:induction false} RowCellsSound(row: seq<int>, ox: int, oy: int)
    ensures forall i :: 0 <= i < |RowCells(row, ox, oy)| ==>
      RowCells(row, ox, oy)[i].1 == oy &&
      ox <= RowCells(row, ox, oy)[i].0 < ox + |row| &&
      row[RowCells(row, ox, oy)[i].0 - ox] != 0
  {
    if |row| > 0 {
      var init := row[..|row| - 1];
      RowCellsSound(init, ox, oy);
      assert forall c :: 0 <= c < |init| ==> init[c] == row[c];
    }
  }

  lemma {:induction false} RowCellsComplete(row: seq<int>, ox: int, oy: int)
    ensures forall c :: 0 <= c < |row| && row[c] != 0 ==> (ox + c, oy) in RowCells(row, ox, oy)
  {
    if |row| > 0 {
      var init := row[..|row| - 1];
      RowCellsComplete(init, ox, oy);
      assert forall c :: 0 <= c < |init| ==> init[c] == row[c];
    }
  }

  lemma {:induction false} RowCellsIncreasing(row: seq<int>, ox: int, oy: int)
    ensures forall i, j :: 0 <= i < j < |RowCells(row, ox, oy)| ==>
      RowCells(row, ox, oy)[i].0 < RowCells(row, ox, oy)[j].0
  {
    if |row| > 0 {
      var init := row[..|row| - 1];
      RowCellsIncreasing(init, ox, oy);
      RowCellsSound(init, ox, oy);
    }
  }

  /** `get_cells` on a pattern lists as many cells as it has occupied entries. */
  lemma {:induction false} CellsCount(m: Grid, ox: int, oy: int)
    ensures |CellsOf(m, ox, oy)| == CountOnes(m)
  {
    if |m| > 0 {
      CellsCount(m[..|m| - 1], ox, oy);
      RowCellsCount(m[|m| - 1], ox, oy + |m| - 1);
    }
  }

  /** Every listed cell is an occupied entry of the pattern, moved by the anchor. */
  lemma {:induction false} CellsSound(m: Grid, ox: int, oy: int)
    ensures forall i :: 0 <= i < |CellsOf(m, ox, oy)| ==>
      oy <= CellsOf(m, ox, oy)[i].1 < oy + |m| &&
      ox <= CellsOf(m, ox, oy)[i].0 < ox + |m[CellsOf(m, ox, oy)[i].1 - oy]| &&
      m[CellsOf(m, ox, oy)[i].1 - oy][CellsOf(m, ox, oy)[i].0 - ox] != 0
  {
    if |m| > 0 {
      var init := m[..|m| - 1];
      CellsSound(init, ox, oy);
      RowCellsSound(m[|m| - 1], ox, oy + |m| - 1);
      assert forall r :: 0 <= r < |init| ==> init[r] == m[r];
    }
  }

  /** Every occupied entry of the pattern is listed. */
  lemma {:induction false} CellsComplete(m: Grid, ox: int, oy: int)
    ensures forall r, c :: 0 <= r < |m| && 0 <= c < |m[r]| && m[r][c] != 0 ==>
      (ox + c, oy + r) in CellsOf(m, ox, oy)
  {
    if |m| > 0 {
      var init := m[..|m| - 1];
      CellsComplete(init, ox, oy);
      RowCellsComplete(m[|m| - 1], ox, oy + |m| - 1);
      assert forall r :: 0 <= r < |init| ==> init[r] == m[r];
    }
  }

  /** The listing is in row-major order: by row, and left to right within a row. */
  lemma {:induction false} CellsOrdered(m: Grid, ox: int, oy: int)
    ensures forall i, j :: 0 <= i < j < |CellsOf(m, ox, oy)| ==>
      Before(CellsOf(m, ox, oy)[i], CellsOf(m, ox, oy)[j])
  {
    if |m| > 0 {
      var init := m[..|m| - 1];
      var last := m[|m| - 1];
      CellsOrdered(init, ox, oy);
      CellsSound(init, ox, oy);
      RowCellsSound(last, ox, oy + |m| - 1);
      RowCellsIncreasing(last, ox, oy + |m| - 1);
      var a, b := CellsOf(init, ox, oy), RowCells(last, ox, oy + |m| - 1);
      assert CellsOf(m, ox, oy) == a + b;
      forall i, j | 0 <= i < j < |a + b|
        ensures Before((a + b)[i], (a + b)[j])
      {
        if j < |a| {
          assert Before(a[i], a[j]);
        } else if i >= |a| {
          assert b[i - |a|].0 < b[j - |a|].0;
        } else {
          assert a[i].1 < oy + |m| - 1 == b[j - |a|].1;
        }
      }
    }
  }

  /** The `i`-th listed cell comes from an occupied entry of the pattern. */
  lemma CellAt(m: Grid, ox: int, oy: int, i: nat)
    requires i < |CellsOf(m, ox, oy)|
    ensures 0 <= CellsOf(m, ox, oy)[i].1 - oy < |m|
    ensures 0 <= CellsOf(m, ox, oy)[i].0 - ox < |m[CellsOf(m, ox, oy)[i].1 - oy]|
    ensures m[CellsOf(m, ox, oy)[i].1 - oy][CellsOf(m, ox, oy)[i].0 - ox] != 0
  {
    CellsSound(m, ox, oy);
  }

  /** Every occupied entry of the pattern is listed. */
  lemma CellListed(m: Grid, ox: int, oy: int, r: nat, c: nat)
    requires r < |m| && c < |m[r]| && m[r][c] != 0
    ensures (ox + c, oy + r) in CellsOf(m, ox, oy)
  {
    CellsComplete(m, ox, oy);
  }

  class Tetromino {
    var x: int
    var y: int
    var shape: Grid
    var color: nat
    var shapeIdx: nat

    constructor (x: int, y: int, shape: Grid, color: nat, shapeIdx: nat)
      ensures this.x == x && this.y == y && this.shape == shape
      ensures this.color == color && this.shapeIdx == shapeIdx
    {
      this.x := x;
      this.y := y;
      this.shape := shape;
      this.color := color;
      this.shapeIdx := shapeIdx;
    }

    /** Replaces the pattern by its clockwise rotation; the anchor does not move. */
    method Rotate()
      modifies this`shape
      ensures shape == Matrix.Rotate(old(shape))
    {
      shape := Matrix.Rotate(shape);
    }

    /** The absolute cells of the pattern (or of `shapeOverride` when non-empty) moved by the offset. */
    method GetCells(xOffset: int, yOffset: int, shapeOverride: Grid) returns (cells: seq<(int, int)>)
      ensures cells == CellsOf(Effective(shapeOverride, shape), x + xOffset, y + yOffset)
    {
      var s := Effective(shapeOverride, shape);
      var ox, oy := x + xOffset, y + yOffset;
      cells := [];
      var dy := 0;
      while dy < |s|
        invariant 0 <= dy <= |s|
        invariant cells == CellsOf(s[..dy], ox, oy)
      {
        var row := s[dy];
        ghost var before := cells;
        var dx := 0;
        while dx < |row|
          invariant 0 <= dx <= |row|
          invariant cells == before + RowCells(row[..dx], ox, oy + dy)
        {
          if row[dx] != 0 {
            cells := cells + [(x + dx + xOffset, y + dy + yOffset)];
          }
          assert row[..dx + 1][..dx] == row[..dx];
          dx := dx + 1;
        }
        assert row[..dx] == row;
        assert s[..dy + 1][..dy] == s[..dy];
        dy := dy + 1;
      }
      assert s[..dy] == s;
    }

    /** A new piece object with the same anchor, pattern, colour and kind. */
    method Copy() returns (t: Tetromino)
      ensures fresh(t)
      ensures t.x == x && t.y == y && t.shape == shape && t.color == color && t.shapeIdx == shapeIdx
    {
      t := new Tetromino(x, y, shape, color, shapeIdx);
    }
  }
}
