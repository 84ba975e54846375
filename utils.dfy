/**
 * The helpers of utils.py: the top-row game-over test on a 0/1 board and the
 * catalogue of seven patterns a random piece is drawn from.
 */
module Utils {
  import opened Matrix
  import opened Pieces
  import Engine

  /** `any(row)`: some entry is nonzero. */
  function Any(row: seq<int>): bool
  {
    |row| > 0 && (row[0] != 0 || Any(row[1..]))
  }

  lemma {:induction false} AnySpec(row: seq<int>)
    ensures Any(row) <==> exists c :: 0 <= c < |row| && row[c] != 0
  {
    if |row| > 0 {
      AnySpec(row[1..]);
      if exists c :: 0 <= c < |row| && row[c] != 0 {
        var c :| 0 <= c < |row| && row[c] != 0;
        if c > 0 {
          assert row[1..][c - 1] == row[c];
        }
      }
      if Any(row[1..]) {
        var c :| 0 <= c < |row[1..]| && row[1..][c] != 0;
        assert row[c + 1] == row[1..][c];
      }
    }
  }

  /** `check_game_over(board)`: the top row has a filled cell. An empty board has no row 0 to look at. */
  function CheckGameOver(board: seq<seq<int>>): (over: bool)
    requires |board| > 0
    ensures over <==> exists c :: 0 <= c < |board[0]| && board[0][c] != 0
  {
    AnySpec(board[0]);
    Any(board[0])
  }

  /** An all-zero board is never over. */
  lemma NotOverWhenEmpty(board: seq<seq<int>>)
    requires |board| > 0
    requires forall r, c :: 0 <= r < |board| && 0 <= c < |board[r]| ==> board[r][c] == 0
    ensures !CheckGameOver(board)
  {
  }

  /** Only row 0 matters: boards that agree on row 0 agree on the verdict. */
  lemma OnlyTopRowMatters(a: seq<seq<int>>, b: seq<seq<int>>)
    requires |a| > 0 && |b| > 0 && a[0] == b[0]
    ensures CheckGameOver(a) == CheckGameOver(b)
  {
  }

  /** The `shapes` list of `generate_random_tetromino`. */
  const CATALOGUE: seq<Grid> := [
    [[1, 1, 1, 1]],
    [[1, 1], [1, 1]],
    [[0, 1, 0], [1, 1, 1]],
    [[1, 1, 0], [0, 1, 1]],
    [[0, 1, 1], [1, 1, 0]],
    [[1, 0, 0], [1, 1, 1]],
    [[0, 0, 1], [1, 1, 1]]
  ]

  /** The catalogue holds the same seven patterns as the kind table of the game, in the same order. */
  lemma CatalogueIsShapes()
    ensures CATALOGUE == Engine.SHAPES
  {
  }

  /** Seven patterns, each with exactly four occupied cells. */
  lemma CatalogueHasFourCellPieces()
    ensures |CATALOGUE| == 7
    ensures forall k :: 0 <= k < |CATALOGUE| ==> CountOnes(CATALOGUE[k]) == 4
  {
    CatalogueIsShapes();
    Engine.ShapesHaveFourCells();
  }

  /** `generate_random_tetromino`: some pattern of the catalogue; which one is left open. */
  method GenerateRandomTetromino() returns (shape: Grid)
    ensures shape in CATALOGUE
    ensures CountOnes(shape) == 4
  {
    CatalogueHasFourCellPieces();
    assert CATALOGUE[0] in CATALOGUE;
    shape :| shape in CATALOGUE;
  }
}
