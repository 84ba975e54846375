/**
 * The board of board.py: `height` rows of `width` integers, where a nonzero
 * entry is filled. Pieces are lists of (x, y) offsets from a position.
 * Python list indexing wraps a negative index once (`row[-1]` is the last
 * entry), so the model resolves an index in [-n, n) as `Wrap` does and
 * leaves the IndexError beyond that range to the preconditions.
 */
module BinaryBoard {

  type Rows = seq<seq<int>>

  /** `[0 for _ in range(width)]`. */
  function ZeroRow(width: nat): seq<int>
  {
    seq(width, _ => 0)
  }

  /** `n` fresh rows of `width` zeros. */
  function ZeroRows(n: nat, width: nat): Rows
  {
    seq(n, _ => ZeroRow(width))
  }

  /** `height` rows, each of `width` entries. */
  predicate Shaped(b: Rows, width: nat, height: nat)
  {
    |b| == height && forall r :: 0 <= r < |b| ==> |b[r]| == width
  }

  /** The position Python's `xs[i]` refers to in a list of length `n`. */
  function Wrap(i: int, n: nat): (k: nat)
    requires 0 <= i + n && i < n
    ensures k < n
  {
    if i < 0 then i + n else i
  }

  /** `all(row)`: every entry nonzero (an empty row counts as full). */
  predicate AllSet(row: seq<int>)
  {
    forall c :: 0 <= c < |row| ==> row[c] != 0
  }

  /** `[i for i in range(n) if all(b[i])]`. */
  function FullIndices(b: Rows, n: nat): (lines: seq<int>)
    requires n <= |b|
    ensures |lines| <= n && IndicesBelow(lines, n)
  {
    if n == 0 then [] else FullIndices(b, n - 1) + (if AllSet(b[n - 1]) then [n - 1] else [])
  }

  /** The rows that are not full, in their order. */
  function NonFull(s: Rows): Rows
  {
    if |s| == 0 then [] else NonFull(s[..|s| - 1]) + (if AllSet(s[|s| - 1]) then [] else [s[|s| - 1]])
  }

  /** The index list is increasing, below `n`, names only full rows and names every full row below `n`. */
  lemma {:induction false} FullIndicesSpec(b: Rows, n: nat)
    requires n <= |b|
    ensures forall t :: 0 <= t < |FullIndices(b, n)| ==>
      0 <= FullIndices(b, n)[t] < n && AllSet(b[FullIndices(b, n)[t]])
    ensures forall t, u :: 0 <= t < u < |FullIndices(b, n)| ==> FullIndices(b, n)[t] < FullIndices(b, n)[u]
    ensures forall r :: 0 <= r < n && AllSet(b[r]) ==> r in FullIndices(b, n)
  {
    if n > 0 {
      FullIndicesSpec(b, n - 1);
    }
  }

  /** Each row of a prefix is either full (and counted) or kept. */
  lemma {:induction false} CountSplit(s: Rows, p: nat)
    requires p <= |s|
    ensures |NonFull(s[..p])| + |FullIndices(s, p)| == p
  {
    if p > 0 {
      CountSplit(s, p - 1);
      assert s[..p][..p - 1] == s[..p - 1];
    }
  }

  /** Extending a prefix by rows that are not full keeps them all. */
  lemma {:induction false} NonFullExtend(s: Rows, p: nat, q: nat)
    requires p <= q <= |s|
    requires forall r :: p <= r < q ==> !AllSet(s[r])
    ensures NonFull(s[..q]) == NonFull(s[..p]) + s[p..q]
  {
    if q > p {
      NonFullExtend(s, p, q - 1);
      assert s[..q][..q - 1] == s[..q - 1];
      assert s[p..q] == s[p..q - 1] + [s[q - 1]];
    }
  }

  /** Extending a prefix by a full row changes nothing. */
  lemma NonFullSkip(s: Rows, p: nat)
    requires p < |s| && AllSet(s[p])
    ensures NonFull(s[..p + 1]) == NonFull(s[..p])
  {
    assert s[..p + 1][..p] == s[..p];
  }

  /** Every kept row is a row of the input that is not full. */
  lemma {:induction false} NonFullRows(s: Rows)
    ensures forall i :: 0 <= i < |NonFull(s)| ==> !AllSet(NonFull(s)[i]) && NonFull(s)[i] in s
  {
    if |s| > 0 {
      NonFullRows(s[..|s| - 1]);
    }
  }

  /** The rows that `clear_lines` leaves: one zero row per full row, above the other rows in their order. */
  function Cleared(b: Rows, width: nat): Rows
  {
    ZeroRows(|FullIndices(b, |b|)|, width) + NonFull(b)
  }

  /**
   * Clearing keeps `height` rows of `width` entries, removes exactly the rows
   * that were full, and leaves none that is full when rows are not empty.
   */
  lemma ClearedSpec(b: Rows, width: nat, height: nat)
    requires Shaped(b, width, height)
    ensures Shaped(Cleared(b, width), width, height)
    ensures |FullIndices(b, height)| + |NonFull(b)| == height
    ensures width > 0 ==> forall r :: 0 <= r < height ==> !AllSet(Cleared(b, width)[r])
  {
    CountSplit(b, height);
    assert b[..height] == b;
    NonFullRows(b);
    var k := |FullIndices(b, height)|;
    var cb := Cleared(b, width);
    forall r | 0 <= r < height
      ensures |cb[r]| == width && (width > 0 ==> !AllSet(cb[r]))
    {
      if r < k {
        assert cb[r] == ZeroRow(width);
        if width > 0 {
          assert cb[r][0] == 0;
        }
      } else {
        assert cb[r] == NonFull(b)[r - k];
        assert cb[r] in b;
      }
    }
  }

  /** `del rows[i]` followed by inserting a zero row at the top. */
  function DropRow(cur: Rows, i: nat, width: nat): (r: Rows)
    requires i < |cur|
    ensures |r| == |cur|
  {
    [ZeroRow(width)] + (cur[..i] + cur[i + 1..])
  }

  /** Every index of the list names a row of `b`. */
  predicate IndicesBelow(lines: seq<int>, n: nat)
  {
    forall t :: 0 <= t < |lines| ==> 0 <= lines[t] < n
  }

  /** The rows after the loop of `clear_lines` has dropped the first `j` listed indices, in list order. */
  function Replay(b: Rows, width: nat, lines: seq<int>, j: nat): (r: Rows)
    requires j <= |lines| && IndicesBelow(lines, |b|)
    ensures |r| == |b|
  {
    if j == 0 then b else DropRow(Replay(b, width, lines, j - 1), lines[j - 1], width)
  }

  /** How many rows of the input the loop of `clear_lines` has passed after `j` steps. */
  function Passed(lines: seq<int>, j: nat): int
    requires j <= |lines|
  {
    if j == 0 then 0 else lines[j - 1] + 1
  }

  /**
   * The state of `clear_lines` after deleting the first `j` listed rows: the
   * passed rows of the input, their full rows replaced by zero rows on top,
   * then every row not passed yet, still in place.
   */
  ghost predicate Cleaning(b: Rows, width: nat, lines: seq<int>, j: nat, cur: Rows)
  {
    j <= |lines| && 0 <= Passed(lines, j) <= |b| &&
    |NonFull(b[..Passed(lines, j)])| == Passed(lines, j) - j &&
    cur == ZeroRows(j, width) + NonFull(b[..Passed(lines, j)]) + b[Passed(lines, j)..]
  }

  /** Rows from the passed ones on, up to the next listed one, are not full. */
  lemma GapNotFull(b: Rows, height: nat, lines: seq<int>, j: nat, r: int)
    requires height == |b| && lines == FullIndices(b, height) && j <= |lines|
    requires 0 <= Passed(lines, j) <= r < height && (j < |lines| ==> r < lines[j])
    ensures !AllSet(b[r])
  {
    FullIndicesSpec(b, height);
  }

  /** The `t`-th listed row is a full row below `n`, after the one listed before it. */
  lemma FullIndexAt(b: Rows, n: nat, t: nat)
    requires n <= |b| && t < |FullIndices(b, n)|
    ensures 0 <= FullIndices(b, n)[t] < n && AllSet(b[FullIndices(b, n)[t]])
    ensures t > 0 ==> FullIndices(b, n)[t - 1] < FullIndices(b, n)[t]
  {
    FullIndicesSpec(b, n);
  }

  /**
   * Rows `z + n0 + (gap + [row] + rest)`: deleting `row`, which sits at
   * `i == |z| + |n0 + gap|`, and inserting `zr` on top.
   */
  lemma StepRows(cur: Rows, i: nat, z: Rows, zr: seq<int>, n0: Rows, n1: Rows, gap: Rows, row: seq<int>, rest: Rows)
    requires cur == z + n0 + (gap + [row] + rest) && n1 == n0 + gap && i == |z| + |n1|
    ensures i < |cur| && [zr] + (cur[..i] + cur[i + 1..]) == [zr] + z + n1 + rest
  {
    assert cur == (z + n1) + [row] + rest;
    assert cur[..i] == z + n1;
    assert cur[i + 1..] == rest;
  }

  /** Passing the rows up to and including the `j`-th listed one keeps exactly the rows before it that were passed over. */
  lemma PassNext(b: Rows, height: nat, lines: seq<int>, j: nat)
    requires height == |b| && lines == FullIndices(b, height) && 0 < j <= |lines|
    ensures 0 <= Passed(lines, j - 1) <= lines[j - 1] < height
    ensures Passed(lines, j) == lines[j - 1] + 1
    ensures NonFull(b[..lines[j - 1] + 1]) == NonFull(b[..Passed(lines, j - 1)]) + b[Passed(lines, j - 1)..lines[j - 1]]
  {
    var done, i := Passed(lines, j - 1), lines[j - 1];
    FullIndexAt(b, height, j - 1);
    if j > 1 {
      FullIndexAt(b, height, j - 2);
    }
    forall r | done <= r < i
      ensures !AllSet(b[r])
    {
      GapNotFull(b, height, lines, j - 1, r);
    }
    NonFullExtend(b, done, i);
    NonFullSkip(b, i);
  }

  /** Step `j` of the loop of `clear_lines`: deleting the `j`-th listed row and inserting a zero row on top. */
  lemma ClearStep(b: Rows, width: nat, height: nat, lines: seq<int>, j: nat, cur: Rows)
    requires height == |b| && lines == FullIndices(b, height)
    requires 0 < j <= |lines| && |cur| == height && Cleaning(b, width, lines, j - 1, cur)
    ensures Cleaning(b, width, lines, j, DropRow(cur, lines[j - 1], width))
  {
    PassNext(b, height, lines, j);
    var done, i := Passed(lines, j - 1), lines[j - 1];
    var z := ZeroRows(j - 1, width);
    assert cur == z + NonFull(b[..done]) + (b[done..i] + [b[i]] + b[i + 1..]) by {
      assert b[done..] == b[done..i] + [b[i]] + b[i + 1..];
    }
    assert ZeroRows(j, width) == [ZeroRow(width)] + z;
    StepRows(cur, i, z, ZeroRow(width), NonFull(b[..done]), NonFull(b[..i + 1]), b[done..i], b[i], b[i + 1..]);
  }

  /** Where the loop of `clear_lines` stands after `j` steps. */
  lemma {:induction false} ReplayCleaning(b: Rows, width: nat, height: nat, lines: seq<int>, j: nat)
    requires height == |b| && lines == FullIndices(b, height) && j <= |lines|
    ensures Cleaning(b, width, lines, j, Replay(b, width, lines, j))
  {
    if j == 0 {
      assert b[..0] == [] && b[0..] == b && ZeroRows(0, width) == [];
    } else {
      ReplayCleaning(b, width, height, lines, j - 1);
      ClearStep(b, width, height, lines, j, Replay(b, width, lines, j - 1));
    }
  }

  /** Running the loop of `clear_lines` over every full row gives `Cleared`. */
  lemma ReplayCleared(b: Rows, width: nat, height: nat)
    requires height == |b|
    ensures Replay(b, width, FullIndices(b, height), |FullIndices(b, height)|) == Cleared(b, width)
  {
    var lines := FullIndices(b, height);
    var done := Passed(lines, |lines|);
    ReplayCleaning(b, width, height, lines, |lines|);
    forall r | done <= r < height
      ensures !AllSet(b[r])
    {
      GapNotFull(b, height, lines, |lines|, r);
    }
    NonFullExtend(b, done, height);
    assert b[..height] == b;
    assert b[done..] == b[done..height];
  }

  /** Offsets, moved by `position`, that Python can index without IndexError. */
  predicate InReach(shape: seq<(int, int)>, position: (int, int), width: nat, height: nat)
  {
    forall i :: 0 <= i < |shape| ==>
      0 <= shape[i].0 + position.0 + width && shape[i].0 + position.0 < width &&
      0 <= shape[i].1 + position.1 + height && shape[i].1 + position.1 < height
  }

  /** Sets the cell a single offset refers to. */
  function Mark(b: Rows, p: (int, int), position: (int, int), width: nat, height: nat): (b': Rows)
    requires Shaped(b, width, height)
    requires 0 <= p.0 + position.0 + width && p.0 + position.0 < width
    requires 0 <= p.1 + position.1 + height && p.1 + position.1 < height
    ensures Shaped(b', width, height)
  {
    var r, c := Wrap(p.1 + position.1, height), Wrap(p.0 + position.0, width);
    b[r := b[r][c := 1]]
  }

  /** The rows after `add_tetromino`: every offset's cell set to 1, first offset to last. */
  function Marked(b: Rows, shape: seq<(int, int)>, position: (int, int), width: nat, height: nat): (b': Rows)
    requires Shaped(b, width, height) && InReach(shape, position, width, height)
    ensures Shaped(b', width, height)
  {
    if |shape| == 0 then b
    else Mark(Marked(b, shape[..|shape| - 1], position, width, height), shape[|shape| - 1], position, width, height)
  }

  /** Some offset of the piece refers to cell (r, c). */
  predicate Covers(shape: seq<(int, int)>, position: (int, int), width: nat, height: nat, r: int, c: int)
    requires InReach(shape, position, width, height)
  {
    exists i :: 0 <= i < |shape| &&
      Wrap(shape[i].1 + position.1, height) == r && Wrap(shape[i].0 + position.0, width) == c
  }

  /** After `add_tetromino` a covered cell is 1 and every other cell is unchanged. */
  lemma {:induction false} MarkedSpec(b: Rows, shape: seq<(int, int)>, position: (int, int), width: nat, height: nat,
                                      r: nat, c: nat)
    requires Shaped(b, width, height) && InReach(shape, position, width, height)
    requires r < height && c < width
    ensures Marked(b, shape, position, width, height)[r][c] ==
      if Covers(shape, position, width, height, r, c) then 1 else b[r][c]
  {
    if |shape| > 0 {
      var init, last := shape[..|shape| - 1], shape[|shape| - 1];
      MarkedSpec(b, init, position, width, height, r, c);
      MarkAt(Marked(b, init, position, width, height), last, position, width, height, r, c);
      CoversLast(shape, position, width, height, r, c);
    }
  }

  /** Setting one offset's cell changes that cell to 1 and no other. */
  lemma MarkAt(b: Rows, p: (int, int), position: (int, int), width: nat, height: nat, r: nat, c: nat)
    requires Shaped(b, width, height)
    requires 0 <= p.0 + position.0 + width && p.0 + position.0 < width
    requires 0 <= p.1 + position.1 + height && p.1 + position.1 < height
    requires r < height && c < width
    ensures Mark(b, p, position, width, height)[r][c] ==
      if Wrap(p.1 + position.1, height) == r && Wrap(p.0 + position.0, width) == c then 1 else b[r][c]
  {
  }

  /** A cell is covered by a piece when it is covered by all offsets but the last, or by the last. */
  lemma CoversLast(shape: seq<(int, int)>, position: (int, int), width: nat, height: nat, r: nat, c: nat)
    requires |shape| > 0 && InReach(shape, position, width, height)
    ensures InReach(shape[..|shape| - 1], position, width, height)
    ensures var init, last := shape[..|shape| - 1], shape[|shape| - 1];
      Covers(shape, position, width, height, r, c) <==>
        Covers(init, position, width, height, r, c) ||
        (Wrap(last.1 + position.1, height) == r && Wrap(last.0 + position.0, width) == c)
  {
    var init := shape[..|shape| - 1];
    assert forall i :: 0 <= i < |init| ==> init[i] == shape[i];
    if Covers(shape, position, width, height, r, c) {
      var i :| 0 <= i < |shape| &&
        Wrap(shape[i].1 + position.1, height) == r && Wrap(shape[i].0 + position.0, width) == c;
      if i < |init| {
        assert Covers(init, position, width, height, r, c);
      }
    }
  }

  /**
   * One offset blocks when its column is off the board, its row is at or
   * below the bottom, or the (wrapped) cell it refers to is nonzero.
   */
  predicate Blocks(b: Rows, width: nat, height: nat, cx: int, cy: int)
    requires Shaped(b, width, height)
    requires 0 <= cx < width && cy < height ==> 0 <= cy + height
  {
    cx < 0 || cx >= width || cy >= height || b[Wrap(cy, height)][cx] != 0
  }

  /** Rows of the offsets that reach the indexing step of `check_collision` are in Python's range. */
  predicate RowsInReach(shape: seq<(int, int)>, position: (int, int), width: nat, height: nat)
  {
    forall i :: 0 <= i < |shape| && 0 <= shape[i].0 + position.0 < width && shape[i].1 + position.1 < height ==>
      0 <= shape[i].1 + position.1 + height
  }

  /** Some offset of the piece, moved by `position`, blocks. */
  predicate Hits(b: Rows, width: nat, height: nat, shape: seq<(int, int)>, position: (int, int))
    requires Shaped(b, width, height) && RowsInReach(shape, position, width, height)
  {
    exists i :: 0 <= i < |shape| && Blocks(b, width, height, shape[i].0 + position.0, shape[i].1 + position.1)
  }

  class Board {
    var width: nat
    var height: nat
    var board: Rows

    /** `height` rows, each of `width` entries. */
    predicate Valid()
      reads this
    {
      Shaped(board, width, height)
    }

    /** `Board(width, height)`: every cell 0. */
    constructor (width: nat, height: nat)
      ensures Valid()
      ensures this.width == width && this.height == height
      ensures forall r, c :: 0 <= r < height && 0 <= c < width ==> board[r][c] == 0
    {
      this.width := width;
      this.height := height;
      board := ZeroRows(height, width);
    }

    /** `add_tetromino`: set the cell of every offset, moved by `position`, to 1. */
    method AddTetromino(shape: seq<(int, int)>, position: (int, int))
      requires Valid() && InReach(shape, position, width, height)
      modifies this`board
      ensures Valid()
      ensures board == Marked(old(board), shape, position, width, height)
    {
      for i := 0 to |shape|
        invariant Shaped(board, width, height)
        invariant board == Marked(old(board), shape[..i], position, width, height)
      {
        var (x, y) := shape[i];
        var r, c := y + position.1, x + position.0;
        var row := Wrap(r, height);
        board := board[row := board[row][Wrap(c, width) := 1]];
        assert shape[..i + 1][..i] == shape[..i];
      }
      assert shape[..|shape|] == shape;
    }

    /**
     * `clear_lines`: for each row full on entry, from the top, delete it and
     * insert a zero row on top; return how many were deleted.
     */
    method ClearLines() returns (count: nat)
      requires Valid()
      modifies this`board
      ensures Valid()
      ensures count == |FullIndices(old(board), height)|
      ensures board == Cleared(old(board), width)
    {
      ghost var b := board;
      var linesToClear := FullIndices(board, height);
      for j := 0 to |linesToClear|
        invariant board == Replay(b, width, linesToClear, j)
      {
        var i := linesToClear[j];
        board := board[..i] + board[i + 1..];
        board := [ZeroRow(width)] + board;
      }
      ReplayCleared(b, width, height);
      ClearedSpec(b, width, height);
      count := |linesToClear|;
    }

    /** `check_collision`: some offset, moved by `position`, is off the board sideways, below it, or on a filled cell. */
    method CheckCollision(shape: seq<(int, int)>, position: (int, int)) returns (hit: bool)
      requires Valid() && RowsInReach(shape, position, width, height)
      ensures hit == Hits(board, width, height, shape, position)
    {
      for i := 0 to |shape|
        invariant forall t :: 0 <= t < i ==>
          !Blocks(board, width, height, shape[t].0 + position.0, shape[t].1 + position.1)
      {
        var (x, y) := shape[i];
        if x + position.0 < 0 || x + position.0 >= width || y + position.1 >= height ||
          board[Wrap(y + position.1, height)][x + position.0] != 0
        {
          assert Blocks(board, width, height, shape[i].0 + position.0, shape[i].1 + position.1);
          return true;
        }
      }
      return false;
    }

    /** `reset`: every cell 0; the dimensions stay. */
    method Reset()
      requires Valid()
      modifies this`board
      ensures Valid()
      ensures forall r, c :: 0 <= r < height && 0 <= c < width ==> board[r][c] == 0
    {
      board := ZeroRows(height, width);
    }
  }
}
