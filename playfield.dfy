/**
 * The board of game.py: ROWS lists of COLS cells, each empty (None) or
 * holding the colour of the piece locked there, with the collision test,
 * the writing of a locked piece and the clearing of full rows.
 */
module Playfield {
  import opened Matrix
  import opened Pieces

  const COLS: int := 10
  const ROWS: int := 20

  /** A board cell: None, or the colour tag of the piece locked there. */
  datatype Cell = Empty | Filled(color: nat)

  type Board = seq<seq<Cell>>

  /** ROWS rows of COLS cells. */
  predicate WellSized(b: Board)
  {
    |b| == ROWS && forall r :: 0 <= r < |b| ==> |b[r]| == COLS
  }

  function EmptyRow(): seq<Cell>
  {
    seq(COLS, _ => Empty)
  }

  function EmptyRows(n: nat): seq<seq<Cell>>
  {
    seq(n, _ => EmptyRow())
  }

  function EmptyBoard(): (b: Board)
    ensures WellSized(b)
    ensures forall r, c :: 0 <= r < ROWS && 0 <= c < COLS ==> b[r][c] == Empty
  {
    EmptyRows(ROWS)
  }

  /**
   * A single cell blocks a piece when its column is off the board, its row
   * is at or below the floor, or its row is on the board and the cell there
   * is occupied. A cell above the top row (negative row) in range never blocks.
   */
  predicate Blocked(b: Board, cx: int, cy: int)
    requires WellSized(b)
  {
    cx < 0 || cx >= COLS || cy >= ROWS || (cy >= 0 && b[cy][cx] != Empty)
  }

  /** Some occupied entry of `m`, anchored at (px, py), lands on a blocking cell. */
  predicate Collides(b: Board, m: Grid, px: int, py: int)
    requires WellSized(b)
  {
    exists r, c :: 0 <= r < |m| && 0 <= c < |m[r]| && m[r][c] != 0 && Blocked(b, px + c, py + r)
  }

  /** Some listed cell blocks. */
  predicate SomeCellBlocked(b: Board, cs: seq<(int, int)>)
    requires WellSized(b)
  {
    exists i :: 0 <= i < |cs| && Blocked(b, cs[i].0, cs[i].1)
  }

  /** The collision test agrees with testing the cells that `get_cells` lists. */
  lemma CollidesByCells(b: Board, m: Grid, px: int, py: int)
    requires WellSized(b)
    ensures Collides(b, m, px, py) <==> SomeCellBlocked(b, CellsOf(m, px, py))
  {
    var cs := CellsOf(m, px, py);
    if Collides(b, m, px, py) {
      var r, c :| 0 <= r < |m| && 0 <= c < |m[r]| && m[r][c] != 0 && Blocked(b, px + c, py + r);
      CellListed(m, px, py, r, c);
      var i :| 0 <= i < |cs| && cs[i] == (px + c, py + r);
      assert Blocked(b, cs[i].0, cs[i].1);
    }
    if SomeCellBlocked(b, cs) {
      var i :| 0 <= i < |cs| && Blocked(b, cs[i].0, cs[i].1);
      CellAt(m, px, py, i);
      var r, c := cs[i].1 - py, cs[i].0 - px;
      assert 0 <= r < |m| && 0 <= c < |m[r]| && m[r][c] != 0;
      assert Blocked(b, px + c, py + r);
    }
  }

  /** On an empty board only the walls and the floor block. */
  lemma CollidesOnEmptyBoard(m: Grid, px: int, py: int)
    ensures Collides(EmptyBoard(), m, px, py) <==>
      exists r, c :: 0 <= r < |m| && 0 <= c < |m[r]| && m[r][c] != 0 &&
        (px + c < 0 || px + c >= COLS || py + r >= ROWS)
  {
    var b := EmptyBoard();
    if Collides(b, m, px, py) {
      var r, c :| 0 <= r < |m| && 0 <= c < |m[r]| && m[r][c] != 0 && Blocked(b, px + c, py + r);
      assert px + c < 0 || px + c >= COLS || py + r >= ROWS;
    }
  }

  /** Writes `color` into one cell when it is inside the grid, as `lock_tetromino` does. */
  function Put(b: Board, p: (int, int), color: nat): (b': Board)
    requires WellSized(b)
    ensures WellSized(b')
  {
    if 0 <= p.1 < ROWS && 0 <= p.0 < COLS then b[p.1 := b[p.1][p.0 := Filled(color)]] else b
  }

  /** Writes `color` into every in-grid cell of `cells`, first to last. */
  function Stamp(b: Board, cells: seq<(int, int)>, color: nat): (b': Board)
    requires WellSized(b)
    ensures WellSized(b')
  {
    if |cells| == 0 then b else Put(Stamp(b, cells[..|cells| - 1], color), cells[|cells| - 1], color)
  }

  /** After stamping, a cell holds `color` exactly when it is one of `cells`; every other cell is unchanged. */
  lemma {:induction false} StampSpec(b: Board, cells: seq<(int, int)>, color: nat)
    requires WellSized(b)
    ensures forall r, c :: 0 <= r < ROWS && 0 <= c < COLS ==>
      Stamp(b, cells, color)[r][c] == if (c, r) in cells then Filled(color) else b[r][c]
  {
    if |cells| > 0 {
      var init := cells[..|cells| - 1];
      StampSpec(b, init, color);
      assert cells == init + [cells[|cells| - 1]];
    }
  }

  /** No cell of the row is None. */
  predicate IsFull(row: seq<Cell>)
  {
    forall c :: 0 <= c < |row| ==> row[c] != Empty
  }

  /** Number of full rows. */
  function CountFull(b: Board): nat
  {
    if |b| == 0 then 0 else (if IsFull(b[0]) then 1 else 0) + CountFull(b[1..])
  }

  /** The rows that have some None cell, in their order: `[row for row in board if any(cell is None ...)]`. */
  function Kept(b: Board): (k: seq<seq<Cell>>)
    ensures |k| + CountFull(b) == |b|
  {
    if |b| == 0 then [] else (if IsFull(b[0]) then [] else [b[0]]) + Kept(b[1..])
  }

  /** The board after `clear_lines`: as many empty rows as were removed, above the kept rows. */
  function Cleared(b: Board): Board
    requires WellSized(b)
  {
    EmptyRows(ROWS - |Kept(b)|) + Kept(b)
  }

  /** Filtering distributes over concatenation. */
  lemma {:induction false} KeptConcat(a: Board, b: Board)
    ensures Kept(a + b) == Kept(a) + Kept(b)
  {
    if |a| == 0 {
      assert a + b == b;
    } else {
      var head := if IsFull(a[0]) then [] else [a[0]];
      KeptConcat(a[1..], b);
      assert (a + b)[0] == a[0];
      assert (a + b)[1..] == a[1..] + b;
      assert Kept(a + b) == head + Kept(a[1..] + b);
      assert Kept(a) == head + Kept(a[1..]);
      assert head + (Kept(a[1..]) + Kept(b)) == (head + Kept(a[1..])) + Kept(b);
    }
  }

  /** Every kept row is a row of the board that is not full. */
  lemma {:induction false} KeptRows(b: Board)
    ensures forall i :: 0 <= i < |Kept(b)| ==> !IsFull(Kept(b)[i]) && Kept(b)[i] in b
  {
    if |b| > 0 {
      KeptRows(b[1..]);
      assert forall row :: row in b[1..] ==> row in b;
    }
  }

  /** A board without full rows is kept whole. */
  lemma {:induction false} KeptNoFull(b: Board)
    requires forall i :: 0 <= i < |b| ==> !IsFull(b[i])
    ensures Kept(b) == b
  {
    if |b| > 0 {
      KeptNoFull(b[1..]);
    }
  }

  /** Clearing keeps the board ROWS by COLS. */
  lemma ClearedWellSized(b: Board)
    requires WellSized(b)
    ensures WellSized(Cleared(b))
  {
    KeptRows(b);
    var k := ROWS - |Kept(b)|;
    forall i | 0 <= i < ROWS
      ensures |Cleared(b)[i]| == COLS
    {
      if i >= k {
        assert Cleared(b)[i] == Kept(b)[i - k];
      }
    }
  }

  /**
   * `clear_lines` keeps the board ROWS by COLS, puts k empty rows on top,
   * where k is the number of rows full before the call, and below them the
   * rows that were not full, in their original order; no full row remains.
   */
  lemma ClearedSpec(b: Board)
    requires WellSized(b)
    ensures WellSized(Cleared(b))
    ensures ROWS - |Kept(b)| == CountFull(b)
    ensures forall i :: 0 <= i < CountFull(b) ==> Cleared(b)[i] == EmptyRow()
    ensures Cleared(b)[CountFull(b)..] == Kept(b)
    ensures forall i :: 0 <= i < ROWS ==> !IsFull(Cleared(b)[i])
  {
    var k := CountFull(b);
    var cb := Cleared(b);
    KeptRows(b);
    assert cb[k..] == Kept(b);
    forall i | 0 <= i < ROWS
      ensures |cb[i]| == COLS && !IsFull(cb[i])
    {
      if i < k {
        assert cb[i][0] == Empty;
      } else {
        assert cb[i] == Kept(b)[i - k];
        assert cb[i] in b;
      }
    }
  }

  /** Clearing a second time changes nothing. */
  lemma ClearedIdempotent(b: Board)
    requires WellSized(b)
    ensures WellSized(Cleared(b)) && Cleared(Cleared(b)) == Cleared(b)
  {
    ClearedSpec(b);
    KeptNoFull(Cleared(b));
  }

  /**
   * When row i is the only full row, clearing removes exactly that row,
   * moves the rows above it down by one and adds one empty row on top.
   */
  lemma ClearOneRow(b: Board, i: nat)
    requires WellSized(b) && i < ROWS && IsFull(b[i])
    requires forall j :: 0 <= j < ROWS && j != i ==> !IsFull(b[j])
    ensures Cleared(b) == [EmptyRow()] + b[..i] + b[i + 1..]
  {
    assert b == b[..i] + [b[i]] + b[i + 1..];
    KeptConcat(b[..i] + [b[i]], b[i + 1..]);
    KeptConcat(b[..i], [b[i]]);
    KeptNoFull(b[..i]);
    KeptNoFull(b[i + 1..]);
    assert Kept([b[i]]) == [] + Kept([]);
  }
}
