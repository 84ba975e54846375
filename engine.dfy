/**
 * The game state of game.py: the board, the active piece, the hold slot, the
 * queue of upcoming pieces, the score and the two flags, with the transitions
 * the frame loop calls. Random piece choice is a parameter: every method that
 * may spawn takes the kind index `random.randint` would have produced.
 */
module Engine {
  import opened Matrix
  import opened Pieces
  import opened Playfield

  /** The seven kinds: I, O, T, S, Z and the two three-wide hooks. */
  const SHAPES: seq<Grid> := [
    [[1, 1, 1, 1]],
    [[1, 1], [1, 1]],
    [[0, 1, 0], [1, 1, 1]],
    [[1, 1, 0], [0, 1, 1]],
    [[0, 1, 1], [1, 1, 0]],
    [[1, 0, 0], [1, 1, 1]],
    [[0, 0, 1], [1, 1, 1]]
  ]

  /** Number of kinds, the length of SHAPES. */
  const KINDS: nat := 7

  /** Length of the look-ahead queue filled by `reset`. */
  const QUEUE_LENGTH: nat := 5

  /** Points for each cleared row. */
  const LINE_POINTS: nat := 100

  /** Every kind is a well-formed pattern of at most two rows by four columns. */
  lemma ShapesWellFormed()
    ensures |SHAPES| == 7
    ensures forall k :: 0 <= k < |SHAPES| ==>
      WellFormed(SHAPES[k]) && |SHAPES[k]| <= 2 && |SHAPES[k][0]| <= 4
  {
    forall k | 0 <= k < |SHAPES|
      ensures HasOccupied(SHAPES[k])
    {
      assert SHAPES[k][|SHAPES[k]| - 1][1] != 0;
    }
  }

  /** Every kind has exactly four occupied cells. */
  lemma ShapesHaveFourCells()
    ensures forall k :: 0 <= k < |SHAPES| ==> CountOnes(SHAPES[k]) == 4
  {
    assert CountOnes(SHAPES[0]) == 4 by {
      assert SHAPES[0][..0] == [];
      assert RowOnes([1, 1, 1, 1]) == 4 by {
        assert [1, 1, 1, 1][..3] == [1, 1, 1];
        assert [1, 1, 1][..2] == [1, 1];
        assert [1, 1][..1] == [1];
        assert [1][..0] == [];
      }
    }
    assert RowOnes([1, 1]) == 2 by {
      assert [1, 1][..1] == [1];
      assert [1][..0] == [];
    }
    assert CountOnes(SHAPES[1]) == 4 by {
      assert SHAPES[1][..1] == [[1, 1]];
      assert SHAPES[1][..1][..0] == [];
    }
    forall k | 2 <= k < |SHAPES|
      ensures CountOnes(SHAPES[k]) == 4
    {
      var m := SHAPES[k];
      assert RowOnes(m[0]) + RowOnes(m[1]) == 4 by {
        assert forall row: seq<int> :: |row| == 3 ==> row[..2] == [row[0], row[1]] && row[..2][..1] == [row[0]] && row[..2][..1][..0] == [];
      }
      assert m[..1] == [m[0]] && m[..1][..0] == [];
    }
  }

  /** The column `random_tetromino` gives a new piece: `COLS // 2 - len(shape[0]) // 2`. */
  function SpawnColumn(m: Grid): (x: int)
    requires |m| > 0
    ensures |m[0]| <= COLS ==> 0 <= x && x + |m[0]| <= COLS
    ensures |m[0]| <= COLS ==> COLS - |m[0]| <= 2 * x <= COLS - |m[0]| + 1
  {
    COLS / 2 - |m[0]| / 2
  }

  /**
   * Entry `k` of a table of patterns, found by walking the table, and the
   * empty pattern past its end. Properties of a kind are reached through
   * `LookupIndex` and `KindWellFormed` rather than through the literal table.
   */
  function Lookup(table: seq<Grid>, k: nat): Grid
  {
    if k >= |table| then [] else if k == 0 then table[0] else Lookup(table[1..], k - 1)
  }

  lemma {:induction false} LookupIndex(table: seq<Grid>, k: nat)
    requires k < |table|
    ensures Lookup(table, k) == table[k]
  {
    if k > 0 {
      LookupIndex(table[1..], k - 1);
    }
  }

  /** The base pattern of every kind is well formed. */
  lemma KindWellFormed(k: nat)
    requires k < KINDS
    ensures WellFormed(Lookup(SHAPES, k))
  {
    ShapesWellFormed();
    LookupIndex(SHAPES, k);
  }

  /** A piece as `random_tetromino` makes it: its kind's base pattern and colour at the spawn anchor. */
  ghost predicate AtSpawn(t: Tetromino)
    reads t
  {
    t.shapeIdx < KINDS && t.shape == Lookup(SHAPES, t.shapeIdx) && |t.shape| > 0 &&
    t.color == t.shapeIdx && t.x == SpawnColumn(t.shape) && t.y == 0
  }

  /** `m` is `base` turned clockwise fewer than `n` times. */
  predicate TurnOf(base: Grid, m: Grid, n: nat)
    decreases n, 1
  {
    n > 0 && (m == base || TurnOfNext(base, m, n - 1))
  }

  /** `m` is `base` turned clockwise at least once and at most `n` times. */
  predicate TurnOfNext(base: Grid, m: Grid, n: nat)
    decreases n, 2
  {
    TurnOf(Rotate(base), m, n)
  }

  /** `m` is one of the four clockwise orientations of `base`. */
  predicate IsOrientation(base: Grid, m: Grid)
  {
    TurnOf(base, m, 4)
  }

  /** The four orientations written out. */
  lemma OrientationCases(base: Grid, m: Grid)
    ensures IsOrientation(base, m) <==>
      m == base || m == Rotate(base) || m == Rotate(Rotate(base)) || m == Rotate(Rotate(Rotate(base)))
  {
    var r1 := Rotate(base);
    var r2 := Rotate(r1);
    var r3 := Rotate(r2);
    assert TurnOf(base, m, 4) == (m == base || TurnOf(r1, m, 3));
    assert TurnOf(r1, m, 3) == (m == r1 || TurnOf(r2, m, 2));
    assert TurnOf(r2, m, 2) == (m == r2 || TurnOf(r3, m, 1));
    assert TurnOf(r3, m, 1) == (m == r3);
  }

  /**
   * A piece's pattern is an orientation of its kind's base pattern: pieces
   * start as a copy of `SHAPES[idx]`, and only `rotate` changes a pattern.
   */
  ghost predicate Oriented(t: Tetromino)
    reads t`shape, t`shapeIdx
  {
    t.shapeIdx < KINDS && IsOrientation(Lookup(SHAPES, t.shapeIdx), t.shape)
  }

  /** Turning an orientation of a well-formed pattern gives an orientation of it: four turns close the cycle. */
  lemma OrientationTurns(base: Grid, m: Grid)
    requires WellFormed(base) && IsOrientation(base, m)
    ensures IsOrientation(base, Rotate(m))
  {
    OrientationCases(base, m);
    OrientationCases(base, Rotate(m));
    RotateFour(base);
  }

  /**
   * Every orientation of a kind is well formed, has four occupied cells and
   * fits in four rows by four columns, so in particular inside the board.
   */
  lemma OrientationShape(k: nat, m: Grid)
    requires k < KINDS && IsOrientation(Lookup(SHAPES, k), m)
    ensures WellFormed(m) && CountOnes(m) == 4 && |m| <= 4 && |m[0]| <= 4
  {
    var b := Lookup(SHAPES, k);
    ShapesWellFormed();
    ShapesHaveFourCells();
    LookupIndex(SHAPES, k);
    OrientationCases(b, m);
    var r1 := Rotate(b);
    var r2 := Rotate(r1);
    var r3 := Rotate(r2);
    RotateWellFormed(b);
    RotateKeepsOnes(b);
    RotateWellFormed(r1);
    RotateKeepsOnes(r1);
    RotateWellFormed(r2);
    RotateKeepsOnes(r2);
    RotateWellFormed(r3);
  }

  /** A freshly spawned piece never collides on an empty board. */
  lemma SpawnFitsEmptyBoard(k: nat)
    requires k < |SHAPES|
    ensures !Collides(EmptyBoard(), SHAPES[k], SpawnColumn(SHAPES[k]), 0)
  {
    ShapesWellFormed();
    var m := SHAPES[k];
    forall r, c | 0 <= r < |m| && 0 <= c < |m[r]| && m[r][c] != 0
      ensures 0 <= SpawnColumn(m) + c < COLS && r < ROWS
    {
      assert |m[r]| == |m[0]|;
    }
    CollidesOnEmptyBoard(m, SpawnColumn(m), 0);
  }

  /** A piece whose pattern has an occupied cell and does not collide has its anchor above the floor. */
  lemma FreeAboveFloor(b: Board, m: Grid, px: int, py: int)
    requires WellSized(b) && HasOccupied(m) && !Collides(b, m, px, py)
    ensures py < ROWS
  {
    var r, c :| 0 <= r < |m| && 0 <= c < |m[r]| && m[r][c] != 0;
    assert !Blocked(b, px + c, py + r);
  }

  /** The board after locking a piece with pattern `m` at (px, py): its cells written, then full rows cleared. */
  function LockedBoard(b: Board, m: Grid, px: int, py: int, color: nat): Board
    requires WellSized(b)
  {
    Cleared(Stamp(b, CellsOf(m, px, py), color))
  }

  /** The points locking that piece earns: LINE_POINTS for each row it completes. */
  function LockPoints(b: Board, m: Grid, px: int, py: int, color: nat): nat
    requires WellSized(b)
  {
    LINE_POINTS * CountFull(Stamp(b, CellsOf(m, px, py), color))
  }

  class Game {
    var board: Board
    var score: int
    var gameOver: bool
    var holdTetromino: Tetromino?
    var holdUsed: bool
    var nextQueue: seq<Tetromino>
    var tetromino: Tetromino

    /** The held piece, as a set of at most one object. */
    ghost function Held(): set<Tetromino>
      reads this`holdTetromino
    {
      if holdTetromino == null then {} else {holdTetromino}
    }

    /**
     * What holds whenever a piece may be spawned: a ROWS by COLS board, a
     * non-negative score and a ready queue.
     */
    ghost predicate SpawnReady()
      reads this`board, this`score, this`nextQueue, this`holdTetromino, nextQueue, Held()`shape, Held()`shapeIdx
    {
      WellSized(board) && score >= 0 && QueueReady()
    }

    /**
     * QUEUE_LENGTH distinct queued pieces as `random_tetromino` made them, and
     * a well-formed, oriented held piece (if any) that is not queued.
     */
    ghost predicate QueueReady()
      reads this`nextQueue, this`holdTetromino, nextQueue, Held()`shape, Held()`shapeIdx
    {
      |nextQueue| == QUEUE_LENGTH &&
      (forall i :: 0 <= i < |nextQueue| ==> AtSpawn(nextQueue[i])) &&
      (forall i, j :: 0 <= i < j < |nextQueue| ==> nextQueue[i] != nextQueue[j]) &&
      (holdTetromino != null ==> holdTetromino !in nextQueue && WellFormed(holdTetromino.shape) && Oriented(holdTetromino))
    }

    /** The game invariant: spawn-ready, and an oriented active piece that is neither queued nor held. */
    ghost predicate Valid()
      reads this`board, this`score, this`nextQueue, this`holdTetromino, this`tetromino
      reads nextQueue, Held()`shape, Held()`shapeIdx, tetromino`shape, tetromino`shapeIdx
    {
      SpawnReady() && WellFormed(tetromino.shape) && Oriented(tetromino) &&
      tetromino !in nextQueue && holdTetromino != tetromino
    }

    /**
     * The pieces of a valid game are real pieces: four occupied cells, and a
     * pattern narrow enough that the spawn column keeps it inside the board,
     * which the swap of `hold` relies on.
     */
    lemma PiecesFit()
      requires Valid()
      ensures CountOnes(tetromino.shape) == 4 && |tetromino.shape[0]| <= COLS
      ensures 0 <= SpawnColumn(tetromino.shape) && SpawnColumn(tetromino.shape) + |tetromino.shape[0]| <= COLS
      ensures holdTetromino != null ==>
        CountOnes(holdTetromino.shape) == 4 && |holdTetromino.shape[0]| <= COLS &&
        0 <= SpawnColumn(holdTetromino.shape) && SpawnColumn(holdTetromino.shape) + |holdTetromino.shape[0]| <= COLS
    {
      OrientationShape(tetromino.shapeIdx, tetromino.shape);
      if holdTetromino != null {
        OrientationShape(holdTetromino.shapeIdx, holdTetromino.shape);
      }
    }

    /**
     * The effect of `spawn_tetromino(idx)` between the old and the new state:
     * the old queue head is active, the queue moved up by one and a new piece
     * of kind `idx` joined at its end, the hold flag is cleared and the game
     * is over when it already was or the new piece collides where it stands.
     */
    twostate predicate Spawned(idx: nat)
      reads this, tetromino, nextQueue
    {
      |old(nextQueue)| == QUEUE_LENGTH && |nextQueue| == QUEUE_LENGTH && WellSized(board) &&
      tetromino == old(nextQueue[0]) &&
      nextQueue[..QUEUE_LENGTH - 1] == old(nextQueue[1..]) &&
      fresh(nextQueue[QUEUE_LENGTH - 1]) && nextQueue[QUEUE_LENGTH - 1].shapeIdx == idx &&
      !holdUsed &&
      gameOver == (old(gameOver) || Collides(board, tetromino.shape, tetromino.x, tetromino.y))
    }

    /** `Game(screen)`: the constructor runs `reset`. */
    constructor (kinds: seq<nat>)
      requires |kinds| == QUEUE_LENGTH + 1 && forall i :: 0 <= i < |kinds| ==> kinds[i] < KINDS
      ensures Valid()
      ensures board == EmptyBoard() && score == 0 && !gameOver && holdTetromino == null && !holdUsed
      ensures AtSpawn(tetromino) && tetromino.shapeIdx == kinds[0]
      ensures forall i :: 0 <= i < QUEUE_LENGTH ==> nextQueue[i].shapeIdx == kinds[i + 1]
    {
      board := EmptyBoard();
      score := 0;
      gameOver := false;
      holdTetromino := null;
      holdUsed := false;
      var first := RandomTetromino(kinds[0]);
      tetromino := first;
      nextQueue := [];
      new;
      Reset(kinds);
    }

    /** `random_tetromino` with the random kind index passed in. */
    static method RandomTetromino(idx: nat) returns (t: Tetromino)
      requires idx < KINDS
      ensures fresh(t) && AtSpawn(t) && t.shapeIdx == idx
    {
      ShapesWellFormed();
      LookupIndex(SHAPES, idx);
      var shape := SHAPES[idx];
      var color := idx;
      var x := COLS / 2 - |shape[0]| / 2;
      var y := 0;
      t := new Tetromino(x, y, shape, color, idx);
    }

    /**
     * `reset`: an empty board, score 0, no held piece, both flags false, a
     * queue of QUEUE_LENGTH new pieces of kinds kinds[0..5], then a spawn
     * that draws kinds[5]. The first piece never tops out.
     */
    method Reset(kinds: seq<nat>)
      requires |kinds| == QUEUE_LENGTH + 1 && forall i :: 0 <= i < |kinds| ==> kinds[i] < KINDS
      modifies this
      ensures Valid()
      ensures board == EmptyBoard() && score == 0 && !gameOver && holdTetromino == null && !holdUsed
      ensures fresh(tetromino) && AtSpawn(tetromino) && tetromino.shapeIdx == kinds[0]
      ensures forall i :: 0 <= i < QUEUE_LENGTH ==> fresh(nextQueue[i]) && nextQueue[i].shapeIdx == kinds[i + 1]
    {
      board := EmptyBoard();
      score := 0;
      gameOver := false;
      holdTetromino := null;
      holdUsed := false;
      nextQueue := NewQueue(kinds[..QUEUE_LENGTH]);
      ghost var queue := nextQueue;
      SpawnTetromino(kinds[QUEUE_LENGTH]);
      assert forall i :: 0 <= i < QUEUE_LENGTH - 1 ==> nextQueue[i] == queue[i + 1];
      LookupIndex(SHAPES, kinds[0]);
      SpawnFitsEmptyBoard(kinds[0]);
    }

    /** `[self.random_tetromino() for _ in range(5)]`, piece i of kind kinds[i]. */
    static method NewQueue(kinds: seq<nat>) returns (q: seq<Tetromino>)
      requires |kinds| == QUEUE_LENGTH && forall i :: 0 <= i < |kinds| ==> kinds[i] < KINDS
      ensures |q| == QUEUE_LENGTH
      ensures forall j :: 0 <= j < QUEUE_LENGTH ==> fresh(q[j]) && AtSpawn(q[j]) && q[j].shapeIdx == kinds[j]
      ensures forall j, j' :: 0 <= j < j' < QUEUE_LENGTH ==> q[j] != q[j']
    {
      q := [];
      for i := 0 to QUEUE_LENGTH
        invariant |q| == i
        invariant forall j :: 0 <= j < i ==> fresh(q[j]) && AtSpawn(q[j]) && q[j].shapeIdx == kinds[j]
        invariant forall j, j' :: 0 <= j < j' < i ==> q[j] != q[j']
      {
        var t := RandomTetromino(kinds[i]);
        q := q + [t];
      }
    }

    /** `spawn_tetromino`: see `Spawned`. Board, score and hold slot are untouched. */
    method SpawnTetromino(idx: nat)
      requires idx < KINDS && SpawnReady()
      modifies this
      ensures Valid() && Spawned(idx) && AtSpawn(tetromino)
      ensures board == old(board) && score == old(score) && holdTetromino == old(holdTetromino)
    {
      TakeNext(idx);
      assert Effective([], tetromino.shape) == tetromino.shape;
      var hit := Collision(tetromino, 0, 0, []);
      if hit {
        gameOver := true;
      }
    }

    /**
     * The queue step of `spawn_tetromino`: the queue head becomes the active
     * piece, a new piece of kind `idx` joins the queue at its end and the hold
     * flag is cleared.
     */
    method TakeNext(idx: nat)
      requires idx < KINDS && SpawnReady()
      modifies this`tetromino, this`nextQueue, this`holdUsed
      ensures Valid() && AtSpawn(tetromino) && !holdUsed
      ensures tetromino == old(nextQueue[0]) && |nextQueue| == QUEUE_LENGTH
      ensures nextQueue[..QUEUE_LENGTH - 1] == old(nextQueue[1..])
      ensures fresh(nextQueue[QUEUE_LENGTH - 1]) && nextQueue[QUEUE_LENGTH - 1].shapeIdx == idx
    {
      var t := RandomTetromino(idx);
      KindWellFormed(nextQueue[0].shapeIdx);
      tetromino := nextQueue[0];
      nextQueue := nextQueue[1..] + [t];
      holdUsed := false;
    }

    /**
     * `collision`: true exactly when some occupied entry of the pattern (the
     * override when non-empty, else the piece's own), placed at the piece's
     * anchor moved by (dx, dy), is off the board sideways, at or below the
     * floor, or on an occupied board cell. Cells above the top never collide.
     */
    method Collision(t: Tetromino, dx: int, dy: int, rotatedShape: Grid) returns (hit: bool)
      requires WellSized(board)
      ensures hit == Collides(board, Effective(rotatedShape, t.shape), t.x + dx, t.y + dy)
    {
      var shape := Effective(rotatedShape, t.shape);
      var y := 0;
      while y < |shape|
        invariant 0 <= y <= |shape|
        invariant forall r, c :: 0 <= r < y && 0 <= c < |shape[r]| && shape[r][c] != 0 ==>
          !Blocked(board, t.x + c + dx, t.y + r + dy)
      {
        var row := shape[y];
        var x := 0;
        while x < |row|
          invariant 0 <= x <= |row|
          invariant forall r, c :: 0 <= r < y && 0 <= c < |shape[r]| && shape[r][c] != 0 ==>
            !Blocked(board, t.x + c + dx, t.y + r + dy)
          invariant forall c :: 0 <= c < x && row[c] != 0 ==> !Blocked(board, t.x + c + dx, t.y + y + dy)
        {
          if row[x] != 0 {
            var nx := t.x + x + dx;
            var ny := t.y + y + dy;
            if nx < 0 || nx >= COLS || ny >= ROWS {
              assert Blocked(board, t.x + x + dx, t.y + y + dy);
              return true;
            }
            if ny >= 0 && board[ny][nx] != Empty {
              assert Blocked(board, t.x + x + dx, t.y + y + dy);
              return true;
            }
          }
          x := x + 1;
        }
        y := y + 1;
      }
      return false;
    }

    /** `lock_tetromino`: write the active piece into the board, clear full rows, spawn. */
    method LockTetromino(idx: nat)
      requires Valid() && idx < KINDS
      modifies this
      ensures Valid() && Spawned(idx) && AtSpawn(tetromino)
      ensures board == LockedBoard(old(board), old(tetromino.shape), old(tetromino.x), old(tetromino.y), old(tetromino.color))
      ensures score == old(score) + LockPoints(old(board), old(tetromino.shape), old(tetromino.x), old(tetromino.y), old(tetromino.color))
      ensures holdTetromino == old(holdTetromino)
    {
      ghost var m, px, py, color := tetromino.shape, tetromino.x, tetromino.y, tetromino.color;
      assert Effective([], m) == m;
      var cells := tetromino.GetCells(0, 0, []);
      PlaceCells(cells, tetromino.color);
      ghost var stamped := board;
      assert stamped == Stamp(old(board), CellsOf(m, px, py), color);
      ClearLines();
      assert board == LockedBoard(old(board), m, px, py, color);
      assert score == old(score) + LockPoints(old(board), m, px, py, color);
      SpawnTetromino(idx);
    }

    /** The loop of `lock_tetromino`: write `color` into every listed cell that is inside the grid. */
    method PlaceCells(cells: seq<(int, int)>, color: nat)
      requires WellSized(board)
      modifies this`board
      ensures board == Stamp(old(board), cells, color)
    {
      for i := 0 to |cells|
        invariant WellSized(board)
        invariant board == Stamp(old(board), cells[..i], color)
      {
        var (x, y) := cells[i];
        if 0 <= y < ROWS && 0 <= x < COLS {
          board := board[y := board[y][x := Filled(color)]];
        }
        assert cells[..i + 1][..i] == cells[..i];
      }
      assert cells[..|cells|] == cells;
    }

    /**
     * `clear_lines`: keep the rows that have an empty cell, put one empty row
     * on top for each removed row, add LINE_POINTS per removed row.
     */
    method ClearLines()
      requires WellSized(board)
      modifies this`board, this`score
      ensures WellSized(board)
      ensures board == Cleared(old(board))
      ensures score == old(score) + LINE_POINTS * CountFull(old(board))
    {
      ClearedWellSized(board);
      var newBoard := Kept(board);
      var linesCleared := ROWS - |newBoard|;
      for k := 0 to linesCleared
        invariant newBoard == EmptyRows(k) + Kept(board)
      {
        assert [EmptyRow()] + EmptyRows(k) == EmptyRows(k + 1);
        newBoard := [EmptyRow()] + newBoard;
      }
      board := newBoard;
      score := score + linesCleared * 100;
    }

    /** `move(dx, dy)`: shift the active piece by exactly (dx, dy) when it does not collide there. */
    method Move(dx: int, dy: int) returns (moved: bool)
      requires Valid()
      modifies tetromino`x, tetromino`y
      ensures Valid()
      ensures moved == !Collides(board, tetromino.shape, old(tetromino.x) + dx, old(tetromino.y) + dy)
      ensures moved ==> tetromino.x == old(tetromino.x) + dx && tetromino.y == old(tetromino.y) + dy
      ensures !moved ==> tetromino.x == old(tetromino.x) && tetromino.y == old(tetromino.y)
    {
      var hit := Collision(tetromino, dx, dy, []);
      if !hit {
        tetromino.x := tetromino.x + dx;
        tetromino.y := tetromino.y + dy;
        return true;
      }
      return false;
    }

    /** `rotate`: take the clockwise rotation when it does not collide at the current anchor. */
    method Rotate()
      requires Valid()
      modifies tetromino`shape
      ensures Valid()
      ensures tetromino.shape ==
        if Collides(board, Matrix.Rotate(old(tetromino.shape)), tetromino.x, tetromino.y)
        then old(tetromino.shape) else Matrix.Rotate(old(tetromino.shape))
    {
      RotateWellFormed(tetromino.shape);
      KindWellFormed(tetromino.shapeIdx);
      OrientationTurns(Lookup(SHAPES, tetromino.shapeIdx), tetromino.shape);
      var rotated := Matrix.Rotate(tetromino.shape);
      var hit := Collision(tetromino, 0, 0, rotated);
      if !hit {
        tetromino.shape := rotated;
      }
    }

    /**
     * `hard_drop`: move down while that succeeds, then lock. The piece falls
     * `drop` rows, each of them free, and the row below the last is blocked.
     */
    method HardDrop(idx: nat) returns (ghost drop: nat)
      requires Valid() && idx < KINDS
      modifies this, tetromino
      ensures Valid() && Spawned(idx) && AtSpawn(tetromino)
      ensures forall row :: old(tetromino.y) < row <= old(tetromino.y) + drop ==>
        !Collides(old(board), old(tetromino.shape), old(tetromino.x), row)
      ensures Collides(old(board), old(tetromino.shape), old(tetromino.x), old(tetromino.y) + drop + 1)
      ensures board == LockedBoard(old(board), old(tetromino.shape), old(tetromino.x), old(tetromino.y) + drop, old(tetromino.color))
      ensures score == old(score) + LockPoints(old(board), old(tetromino.shape), old(tetromino.x), old(tetromino.y) + drop, old(tetromino.color))
      ensures holdTetromino == old(holdTetromino)
    {
      ghost var b, m, px, py, color := board, tetromino.shape, tetromino.x, tetromino.y, tetromino.color;
      drop := Fall();
      assert board == b && tetromino.shape == m && tetromino.x == px && tetromino.y == py + drop;
      LockTetromino(idx);
    }

    /** The loop of `hard_drop`: `while self.move(0, 1): pass`. */
    method Fall() returns (ghost drop: nat)
      requires Valid()
      modifies tetromino`x, tetromino`y
      ensures Valid()
      ensures tetromino.x == old(tetromino.x) && tetromino.y == old(tetromino.y) + drop
      ensures forall row :: old(tetromino.y) < row <= tetromino.y ==> !Collides(board, tetromino.shape, tetromino.x, row)
      ensures Collides(board, tetromino.shape, tetromino.x, tetromino.y + 1)
    {
      drop := 0;
      var moved := Move(0, 1);
      while moved
        invariant Valid()
        invariant board == old(board) && tetromino.shape == old(tetromino.shape)
        invariant tetromino.x == old(tetromino.x)
        invariant tetromino.y == old(tetromino.y) + drop + (if moved then 1 else 0)
        invariant moved ==> tetromino.y < ROWS
        invariant !moved ==> Collides(board, tetromino.shape, tetromino.x, tetromino.y + 1)
        invariant forall row :: old(tetromino.y) < row <= tetromino.y ==>
          !Collides(board, tetromino.shape, tetromino.x, row)
        decreases ROWS - tetromino.y + (if moved then 1 else 0)
      {
        drop := drop + 1;
        moved := Move(0, 1);
        if moved {
          FreeAboveFloor(board, tetromino.shape, tetromino.x, tetromino.y);
        }
      }
    }

    /**
     * `hold`: nothing when a hold was already used for this piece. With an
     * empty slot, a copy of the active piece (anchor and rotation included)
     * is held and a new piece spawns. Otherwise active and held pieces swap,
     * the new active piece is put at the spawn column on row 0 keeping its
     * rotation, and the game is over if it collides there. Either way the
     * hold flag ends up set.
     */
    method Hold(idx: nat)
      requires Valid() && idx < KINDS
      modifies this, holdTetromino
      ensures Valid()
      ensures old(holdUsed) ==> unchanged(this) && (holdTetromino != null ==> unchanged(holdTetromino))
      ensures !old(holdUsed) ==> holdUsed
      ensures !old(holdUsed) && old(holdTetromino) == null ==>
        fresh(holdTetromino) &&
        holdTetromino.x == old(tetromino.x) && holdTetromino.y == old(tetromino.y) &&
        holdTetromino.shape == old(tetromino.shape) && holdTetromino.color == old(tetromino.color) &&
        holdTetromino.shapeIdx == old(tetromino.shapeIdx) &&
        tetromino == old(nextQueue[0]) && AtSpawn(tetromino) &&
        nextQueue[..QUEUE_LENGTH - 1] == old(nextQueue[1..]) &&
        fresh(nextQueue[QUEUE_LENGTH - 1]) && nextQueue[QUEUE_LENGTH - 1].shapeIdx == idx &&
        gameOver == (old(gameOver) || Collides(board, tetromino.shape, tetromino.x, tetromino.y)) &&
        board == old(board) && score == old(score)
      ensures !old(holdUsed) && old(holdTetromino) != null ==>
        tetromino == old(holdTetromino) && holdTetromino == old(tetromino) &&
        tetromino.shape == old(holdTetromino.shape) && tetromino.color == old(holdTetromino.color) &&
        tetromino.shapeIdx == old(holdTetromino.shapeIdx) &&
        tetromino.x == SpawnColumn(tetromino.shape) && tetromino.y == 0 &&
        gameOver == (old(gameOver) || Collides(board, tetromino.shape, tetromino.x, 0)) &&
        board == old(board) && score == old(score) && nextQueue == old(nextQueue)
    {
      if holdUsed {
        return;
      }
      if holdTetromino == null {
        HoldFirst(idx);
      } else {
        SwapHeld();
      }
      holdUsed := true;
    }

    /** The empty-slot branch of `hold`: hold a copy of the active piece, then spawn. */
    method HoldFirst(idx: nat)
      requires Valid() && idx < KINDS && holdTetromino == null
      modifies this
      ensures Valid() && Spawned(idx) && AtSpawn(tetromino)
      ensures fresh(holdTetromino)
      ensures holdTetromino.x == old(tetromino.x) && holdTetromino.y == old(tetromino.y)
      ensures holdTetromino.shape == old(tetromino.shape) && holdTetromino.color == old(tetromino.color)
      ensures holdTetromino.shapeIdx == old(tetromino.shapeIdx)
      ensures board == old(board) && score == old(score)
    {
      holdTetromino := tetromino.Copy();
      SpawnTetromino(idx);
    }

    /**
     * The swap branch of `hold`: the held piece becomes active at the spawn
     * column on row 0, keeping its rotation, and the active piece is held.
     */
    method SwapHeld()
      requires Valid() && holdTetromino != null
      modifies this`tetromino, this`holdTetromino, this`gameOver, holdTetromino`x, holdTetromino`y
      ensures Valid()
      ensures tetromino == old(holdTetromino) && holdTetromino == old(tetromino)
      ensures tetromino.shape == old(holdTetromino.shape) && tetromino.color == old(holdTetromino.color)
      ensures tetromino.shapeIdx == old(holdTetromino.shapeIdx)
      ensures tetromino.x == SpawnColumn(tetromino.shape) && tetromino.y == 0
      ensures gameOver == (old(gameOver) || Collides(board, tetromino.shape, tetromino.x, 0))
    {
      tetromino, holdTetromino := holdTetromino, tetromino;
      tetromino.x := COLS / 2 - |tetromino.shape[0]| / 2;
      tetromino.y := 0;
      assert Effective([], tetromino.shape) == tetromino.shape;
      var hit := Collision(tetromino, 0, 0, []);
      if hit {
        gameOver := true;
      }
    }

    /** `update`, the gravity tick: move down one row, or lock when that is blocked. */
    method Update(idx: nat)
      requires Valid() && idx < KINDS
      modifies this, tetromino`x, tetromino`y
      ensures Valid()
      ensures !Collides(old(board), old(tetromino.shape), old(tetromino.x), old(tetromino.y) + 1) ==>
        tetromino == old(tetromino) && tetromino.y == old(tetromino.y) + 1 && tetromino.x == old(tetromino.x) &&
        tetromino.shape == old(tetromino.shape) && tetromino.color == old(tetromino.color) &&
        tetromino.shapeIdx == old(tetromino.shapeIdx) && holdTetromino == old(holdTetromino) &&
        board == old(board) && score == old(score) && nextQueue == old(nextQueue) &&
        gameOver == old(gameOver) && holdUsed == old(holdUsed)
      ensures Collides(old(board), old(tetromino.shape), old(tetromino.x), old(tetromino.y) + 1) ==>
        Spawned(idx) && AtSpawn(tetromino) && holdTetromino == old(holdTetromino) &&
        board == LockedBoard(old(board), old(tetromino.shape), old(tetromino.x), old(tetromino.y), old(tetromino.color)) &&
        score == old(score) + LockPoints(old(board), old(tetromino.shape), old(tetromino.x), old(tetromino.y), old(tetromino.color))
    {
      var moved := Move(0, 1);
      if !moved {
        LockTetromino(idx);
      }
    }
  }
}
