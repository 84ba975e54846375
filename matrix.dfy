/**
 * Occupancy patterns of pieces and the clockwise rotation that game.py
 * computes as `[list(row) for row in zip(*shape[::-1])]`.
 * A pattern is a list of rows of integers; a cell is occupied when it is
 * nonzero (Python truthiness of an int).
 */
module Matrix {

  type Grid = seq<seq<int>>

  /** Number of tuples `zip(*m)` yields: the length of the shortest row (0 for no rows). */
  function Width(m: Grid): (w: nat)
    ensures forall r :: 0 <= r < |m| ==> w <= |m[r]|
  {
    if |m| == 0 then 0
    else if |m| == 1 then |m[0]|
    else
      var rest := Width(m[1..]);
      assert forall r :: 1 <= r < |m| ==> m[r] == m[1..][r - 1];
      if |m[0]| <= rest then |m[0]| else rest
  }

  /** The width is the length of some row: `zip` stops exactly at the shortest one. */
  lemma {:induction false} WidthAttained(m: Grid)
    requires |m| > 0
    ensures exists r :: 0 <= r < |m| && |m[r]| == Width(m)
  {
    if |m| == 1 || |m[0]| <= Width(m[1..]) {
      assert |m[0]| == Width(m);
    } else {
      WidthAttained(m[1..]);
      var r :| 0 <= r < |m[1..]| && |m[1..][r]| == Width(m[1..]);
      assert m[r + 1] == m[1..][r];
    }
  }

  /** `m[::-1]`: the rows in reverse order. */
  function ReverseRows(m: Grid): Grid
  {
    seq(|m|, i requires 0 <= i < |m| => m[|m| - 1 - i])
  }

  /** The `i`-th tuple of `zip(*m)`: entry `i` of every row, top to bottom. */
  function Column(m: Grid, i: nat): seq<int>
    requires forall r :: 0 <= r < |m| ==> i < |m[r]|
  {
    seq(|m|, j requires 0 <= j < |m| => m[j][i])
  }

  /** `[list(t) for t in zip(*m)]`. */
  function Transpose(m: Grid): Grid
  {
    seq(Width(m), i requires 0 <= i < Width(m) => Column(m, i))
  }

  /** Reversing the rows does not change the shortest row length. */
  lemma WidthOfReversed(m: Grid)
    ensures Width(ReverseRows(m)) == Width(m)
  {
    var rm := ReverseRows(m);
    if |m| > 0 {
      WidthAttained(m);
      WidthAttained(rm);
      var r :| 0 <= r < |m| && |m[r]| == Width(m);
      assert rm[|m| - 1 - r] == m[r];
      var s :| 0 <= s < |rm| && |rm[s]| == Width(rm);
      assert rm[s] == m[|m| - 1 - s];
    }
  }

  /**
   * Clockwise rotation: a pattern `h` rows tall whose shortest row has `w`
   * cells becomes `w` rows of `h` cells, with `new[i][j] == old[h-1-j][i]`.
   */
  function Rotate(m: Grid): (r: Grid)
    ensures |r| == Width(m)
    ensures forall i :: 0 <= i < |r| ==> |r[i]| == |m|
  {
    WidthOfReversed(m);
    Transpose(ReverseRows(m))
  }

  lemma RotateEntries(m: Grid)
    ensures |Rotate(m)| == Width(m)
    ensures forall i :: 0 <= i < Width(m) ==> |Rotate(m)[i]| == |m|
    ensures forall i, j :: 0 <= i < Width(m) && 0 <= j < |m| ==> Rotate(m)[i][j] == m[|m| - 1 - j][i]
  {
    var rm := ReverseRows(m);
    WidthOfReversed(m);
    forall i, j | 0 <= i < Width(m) && 0 <= j < |m|
      ensures |Rotate(m)[i]| == |m| && Rotate(m)[i][j] == m[|m| - 1 - j][i]
    {
      assert Rotate(m)[i] == Column(rm, i);
      assert Column(rm, i)[j] == rm[j][i];
    }
  }

  /** Every row has the length of the first one. */
  predicate Rectangular(m: Grid)
  {
    forall r :: 0 <= r < |m| ==> |m[r]| == |m[0]|
  }

  /** Some cell of the pattern is occupied. */
  predicate HasOccupied(m: Grid)
  {
    exists r, c :: 0 <= r < |m| && 0 <= c < |m[r]| && m[r][c] != 0
  }

  /**
   * A pattern every piece of the game has: rectangular, at least one row and
   * one column, at least one occupied cell.
   */
  predicate WellFormed(m: Grid)
  {
    |m| > 0 && |m[0]| > 0 && Rectangular(m) && HasOccupied(m)
  }

  lemma WidthOfRectangular(m: Grid)
    requires |m| > 0 && Rectangular(m)
    ensures Width(m) == |m[0]|
  {
    WidthAttained(m);
  }

  /** The result of a rotation is always rectangular, and rotation keeps a well-formed pattern well-formed. */
  lemma RotateWellFormed(m: Grid)
    ensures Rectangular(Rotate(m))
    ensures WellFormed(m) ==> WellFormed(Rotate(m)) && |Rotate(m)| == |m[0]| && |Rotate(m)[0]| == |m|
  {
    RotateEntries(m);
    if WellFormed(m) {
      WidthOfRectangular(m);
      var r, c :| 0 <= r < |m| && 0 <= c < |m[r]| && m[r][c] != 0;
      assert Rotate(m)[c][|m| - 1 - r] == m[r][c];
    }
  }

  /** A rotated rectangular pattern, indexed by the original's coordinates. */
  lemma RotateRectangular(m: Grid)
    requires |m| > 0 && |m[0]| > 0 && Rectangular(m)
    ensures |Rotate(m)| == |m[0]| && Rectangular(Rotate(m)) && |Rotate(m)[0]| == |m|
    ensures forall i, j :: 0 <= i < |m[0]| && 0 <= j < |m| ==> Rotate(m)[i][j] == m[|m| - 1 - j][i]
  {
    WidthOfRectangular(m);
    RotateEntries(m);
    RotateWellFormed(m);
  }

  /**
   * The shape part of `RotateRectangular`, without its quantified entry
   * formula: `RotateTwice` calls it so that the solver is not handed every
   * entry of both rotations at once.
   */
  lemma RotateShape(m: Grid)
    requires |m| > 0 && |m[0]| > 0 && Rectangular(m)
    ensures |Rotate(m)| == |m[0]| && Rectangular(Rotate(m)) && |Rotate(m)[0]| == |m|
  {
    RotateRectangular(m);
  }

  /** One entry of `RotateRectangular`, for the entry-by-entry steps of `RotateTwice`. */
  lemma RotateAt(m: Grid, i: nat, j: nat)
    requires |m| > 0 && Rectangular(m) && i < |m[0]| && j < |m|
    ensures |Rotate(m)| == |m[0]| && |Rotate(m)[i]| == |m| && Rotate(m)[i][j] == m[|m| - 1 - j][i]
  {
    RotateRectangular(m);
  }

  /** A pattern turned upside down and mirrored left to right: a half turn. */
  function HalfTurn(m: Grid): (r: Grid)
    requires |m| > 0 && Rectangular(m)
    ensures |r| == |m| && forall i :: 0 <= i < |r| ==> |r[i]| == |m[0]|
  {
    seq(|m|, i requires 0 <= i < |m| =>
      seq(|m[0]|, j requires 0 <= j < |m[0]| => m[|m| - 1 - i][|m[0]| - 1 - j]))
  }

  /** Two clockwise rotations of a rectangular pattern are a half turn. */
  lemma RotateTwice(m: Grid)
    requires |m| > 0 && |m[0]| > 0 && Rectangular(m)
    ensures Rotate(Rotate(m)) == HalfTurn(m)
  {
    var h, w := |m|, |m[0]|;
    var r1 := Rotate(m);
    RotateShape(m);
    RotateShape(r1);
    var r2, ht := Rotate(r1), HalfTurn(m);
    assert |r1| == w && |r1[0]| == h && |r2| == h;
    forall i | 0 <= i < h
      ensures r2[i] == ht[i]
    {
      RotateAt(r1, i, 0);
      forall j | 0 <= j < w
        ensures r2[i][j] == ht[i][j]
      {
        RotateAt(r1, i, j);
        assert r2[i][j] == r1[w - 1 - j][i];
        RotateAt(m, w - 1 - j, i);
        assert r1[w - 1 - j][i] == m[h - 1 - i][w - 1 - j];
      }
    }
  }

  /** Two half turns give back the pattern. */
  lemma HalfTurnTwice(m: Grid)
    requires |m| > 0 && |m[0]| > 0 && Rectangular(m)
    ensures |HalfTurn(m)| > 0 && |HalfTurn(m)[0]| > 0 && Rectangular(HalfTurn(m))
    ensures HalfTurn(HalfTurn(m)) == m
  {
    var ht := HalfTurn(m);
    var h, w := |m|, |m[0]|;
    forall i | 0 <= i < h
      ensures HalfTurn(ht)[i] == m[i]
    {
      forall j | 0 <= j < w
        ensures HalfTurn(ht)[i][j] == m[i][j]
      {
        assert HalfTurn(ht)[i][j] == ht[h - 1 - i][w - 1 - j];
      }
    }
  }

  /** Four clockwise rotations of a rectangular pattern give back the pattern. */
  lemma RotateFour(m: Grid)
    requires |m| > 0 && |m[0]| > 0 && Rectangular(m)
    ensures Rotate(Rotate(Rotate(Rotate(m)))) == m
  {
    RotateTwice(m);
    HalfTurnTwice(m);
    RotateTwice(HalfTurn(m));
  }
}
