/**
 * The piece of tetromino.py: a list of precomputed orientations, the index of
 * the current one, and an anchor (x, y). Rotating steps the index modulo the
 * number of orientations; moving steps one coordinate.
 */
module OrientedPiece {
  import opened Matrix

  /** The index after one `rotate`: `(i + 1) % n`, for a positive count `n`. */
  function NextIndex(i: nat, n: nat): (j: nat)
    requires n > 0
    ensures j < n
    ensures i + 1 < n ==> j == i + 1
    ensures i + 1 == n ==> j == 0
  {
    (i + 1) % n
  }

  /** The index after `k` rotations, starting from `i`. */
  function Spin(i: nat, n: nat, k: nat): nat
    requires n > 0
  {
    if k == 0 then i else NextIndex(Spin(i, n, k - 1), n)
  }

  /** From an index below `n`, `k` rotations with `i + k < n` advance it by exactly `k`. */
  lemma {:induction false} SpinAdvances(i: nat, n: nat, k: nat)
    requires i + k < n
    ensures Spin(i, n, k) == i + k
  {
    if k > 0 {
      SpinAdvances(i, n, k - 1);
    }
  }

  /** Rotating `a` times and then `b` times is rotating `a + b` times. */
  lemma {:induction false} SpinCompose(i: nat, n: nat, a: nat, b: nat)
    requires n > 0
    ensures Spin(Spin(i, n, a), n, b) == Spin(i, n, a + b)
  {
    if b > 0 {
      SpinCompose(i, n, a, b - 1);
    }
  }

  /** Rotating as many times as there are orientations gives back the starting index. */
  lemma SpinFullTurn(i: nat, n: nat)
    requires n > 0 && i < n
    ensures Spin(i, n, n) == i
  {
    SpinAdvances(i, n, n - 1 - i);
    SpinCompose(i, n, n - 1 - i, i + 1);
    SpinCompose(n - 1, n, 1, i);
    SpinAdvances(0, n, i);
  }

  class Tetromino {
    var shape: seq<Grid>
    var rotationIndex: nat
    var x: int
    var y: int

    /** The current index names an orientation whenever there is one. */
    predicate Valid()
      reads this`shape, this`rotationIndex
    {
      |shape| > 0 ==> rotationIndex < |shape|
    }

    /** `Tetromino(shape)`: the first orientation, anchored at (0, 0). */
    constructor (shape: seq<Grid>)
      ensures Valid()
      ensures this.shape == shape && rotationIndex == 0 && x == 0 && y == 0
    {
      this.shape := shape;
      rotationIndex := 0;
      x := 0;
      y := 0;
    }

    /** `rotate`: the next orientation, wrapping to the first after the last. */
    method Rotate()
      requires |shape| > 0
      modifies this`rotationIndex
      ensures Valid()
      ensures rotationIndex == NextIndex(old(rotationIndex), |shape|)
    {
      rotationIndex := (rotationIndex + 1) % |shape|;
    }

    /** `move_left`: one column to the left; nothing else changes. */
    method MoveLeft()
      modifies this`x
      ensures x == old(x) - 1
    {
      x := x - 1;
    }

    /** `move_right`: one column to the right; nothing else changes. */
    method MoveRight()
      modifies this`x
      ensures x == old(x) + 1
    {
      x := x + 1;
    }

    /** `drop`: one row down; nothing else changes. */
    method Drop()
      modifies this`y
      ensures y == old(y) + 1
    {
      y := y + 1;
    }

    /** `get_current_shape`: the orientation the index selects, one of the piece's orientations. */
    function GetCurrentShape(): (s: Grid)
      reads this`shape, this`rotationIndex
      requires rotationIndex < |shape|
      ensures s in shape && s == shape[rotationIndex]
    {
      shape[rotationIndex]
    }
  }
}
