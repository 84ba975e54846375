# Falling-block puzzle core, modelled in Dafny

The game keeps a 10-column, 20-row board. One piece is active at a time,
with a hold slot and a queue of five upcoming pieces. A piece is one of
seven patterns of four cells, and it can move, rotate, drop and lock. A
locked piece is written into the board; full rows are cleared at 100
points each; then the next queued piece spawns. When a new piece collides
where it spawns, the game is over.

The project models the game engine of `game.py` and three smaller modules:
- `board.py`, a 0/1 board with its own line clearing and collision test;
- `tetromino.py`, a piece kept as a list of orientations and an index;
- `utils.py`, the top-row game-over test and the random pattern generator.

Modules:

- `Matrix` (`matrix.dfy`): the rotation `[list(r) for r in zip(*m[::-1])]`.
  It is total: for ragged input, `zip` stops at the shortest row.
- `Pieces` (`pieces.dfy`): the piece class of `game.py` and the cell list
  that `get_cells` produces.
- `Playfield` (`playfield.dfy`): the board of `game.py` and its
  specification functions:
  - `Collides`, the collision test;
  - `Stamp`, writing a locked piece;
  - `Kept` and `Cleared`, row clearing.
- `Engine` (`engine.dfy`): the `Game` class. It has the invariant `Valid`
  and the two-state predicate `Spawned`, which describes what
  `spawn_tetromino` does. `Valid` includes `Oriented` for the active and the
  held piece: the pattern is one of the four clockwise orientations of its
  kind's base pattern, because pieces start as a copy of `SHAPES[idx]`
  (game.py:71-75) and only `rotate` changes a pattern.
- `BinaryBoard` (`board.dfy`): the `Board` class of `board.py`.
- `OrientedPiece` (`tetromino.py` → `tetromino.dfy`): the `Tetromino` class
  of `tetromino.py`.
- `Utils` (`utils.dfy`): `check_game_over` and `generate_random_tetromino`.

Methods that mutate objects are Dafny methods on classes. Each method's
`ensures` ties the new state to a specification function of the old state,
and lemmas prove the properties the game depends on.

`game.py` and `board.py` disagree about rows above the top. `board.py`'s `check_collision` indexes `board[y]` for a negative `y`, which
in Python reads a row counted from the bottom. `game.py` instead treats rows
above the top as free. The model keeps both behaviours as written:
`BinaryBoard.Blocks` versus `Playfield.Blocked`.

## Model

| member | source | states |
|---|---|---|
| Matrix.Rotate | game.py:41 | `zip(*m[::-1])` gives one row per column `zip` reaches, each as long as the pattern is tall (the same comprehension is game.py:120) |
| Matrix.Width | game.py:41 | the number of rows `zip(*m)` yields is at most every row's length |
| Matrix.WidthAttained | game.py:41 | that number is the length of some row (zip stops at the shortest row) |
| Matrix.WidthOfReversed | game.py:41 | reversing the rows (`[::-1]`) does not change the shortest-row length |
| Matrix.RotateEntries | game.py:41 | a pattern of h rows whose shortest row has w cells rotates to w rows of h cells, with `new[i][j] == old[h-1-j][i]` |
| Matrix.RotateWellFormed | game.py:41 | a rotation is always rectangular; a rectangular pattern with an occupied cell rotates to one whose dimensions are swapped |
| Matrix.RotateRectangular | game.py:41 | for a rectangular pattern: swapped dimensions and the entry formula, indexed by the original's width |
| Matrix.HalfTurn | game.py:41 | reference definition of a half turn; it keeps the dimensions |
| Matrix.RotateTwice | game.py:41 | two clockwise rotations of a rectangular pattern equal the half turn |
| Matrix.HalfTurnTwice | game.py:41 | a half turn applied twice gives back the pattern |
| Matrix.RotateFour | game.py:41 | four clockwise rotations give back the original pattern |
| Pieces.Effective | game.py:44 | `shape_override if shape_override else own`: the override wins whenever it is non-empty, and the result is empty only when both are (the same test is game.py:85) |
| Pieces.RowCellsCount | game.py:47-49 | one row contributes as many cells as it has nonzero entries |
| Pieces.RowCellsSound | game.py:47-49 | every cell listed for a row lies on that row, inside it, on a nonzero entry |
| Pieces.RowCellsComplete | game.py:47-49 | every nonzero entry of the row is listed |
| Pieces.RowCellsIncreasing | game.py:47-49 | a row's cells are listed left to right |
| Pieces.CellsCount | game.py:43-50 | `get_cells` lists exactly as many cells as the pattern has occupied entries |
| Pieces.CellsSound | game.py:43-50 | every listed cell is an occupied entry moved by the anchor and the offset |
| Pieces.CellsComplete | game.py:43-50 | every occupied entry is listed, at anchor plus (column, row) |
| Pieces.CellsOrdered | game.py:43-50 | the listing is row-major: by row, then by column |
| Pieces.CellAt | game.py:43-50 | the i-th listed cell comes from an occupied entry |
| Pieces.CellListed | game.py:43-50 | a given occupied entry is listed |
| Pieces.CountByColumns | game.py:41 | counting the occupied entries row by row or column by column gives the same number, the count `zip` rearranges |
| Pieces.RotateKeepsOnes | game.py:41 | a clockwise rotation of a rectangular pattern has exactly as many occupied cells as the pattern |
| Pieces.Tetromino.constructor | game.py:33-38 | a piece stores anchor, pattern, colour and kind as given |
| Pieces.Tetromino.Rotate | game.py:40-41 | the pattern becomes its clockwise rotation; nothing else changes |
| Pieces.Tetromino.GetCells | game.py:43-50 | the result is the row-major cell list of the pattern (or of a non-empty override) at anchor plus offset |
| Pieces.Tetromino.Copy | game.py:52-53 | a fresh piece with equal anchor, pattern, colour and kind |
| Playfield.EmptyBoard | game.py:61 | ROWS rows of COLS cells, every one empty |
| Playfield.CollidesByCells | game.py:84-95 | colliding is equivalent to some listed cell being blocked (both directions) |
| Playfield.CollidesOnEmptyBoard | game.py:91-94 | on an empty board only the walls and the floor block |
| Playfield.Put | game.py:99-100 | writing one cell keeps the board ROWS by COLS |
| Playfield.Stamp | game.py:98-100 | writing a cell list keeps the board ROWS by COLS |
| Playfield.StampSpec | game.py:98-100 | after writing, a cell holds the piece's colour exactly when it is listed; every other cell is unchanged |
| Playfield.Kept | game.py:105-106 | the number of kept rows plus the number of full rows is the number of rows |
| Playfield.KeptConcat | game.py:105 | the row filter distributes over concatenation |
| Playfield.KeptRows | game.py:105 | every kept row is a row of the board and is not full |
| Playfield.KeptNoFull | game.py:105 | a board with no full row is kept whole |
| Playfield.ClearedWellSized | game.py:104-109 | clearing keeps the board ROWS by COLS |
| Playfield.ClearedSpec | game.py:104-109 | k = number of full rows: k empty rows on top, the non-full rows below in their order, no full row left |
| Playfield.ClearedIdempotent | game.py:104-109 | clearing twice is clearing once |
| Playfield.ClearOneRow | game.py:104-109 | a single full row i is removed, the rows above shift down one, an empty row appears on top |
| Engine.SpawnColumn | game.py:73 | `COLS // 2 - len(shape[0]) // 2` puts a pattern no wider than the board inside it, centred up to one column (also game.py:137) |
| Engine.ShapesWellFormed | game.py:12-20 | seven kinds, each rectangular with an occupied cell, at most 2 rows by 4 columns |
| Engine.ShapesHaveFourCells | game.py:12-20 | every kind has exactly four occupied cells |
| Engine.LookupIndex | game.py:71 | walking the kind table gives entry k (helper used to reach a kind's pattern) |
| Engine.KindWellFormed | game.py:71 | the base pattern of every kind is well formed |
| Engine.OrientationCases | game.py:120-122 | a pattern is an orientation of a base exactly when it is the base or its one, two or three clockwise rotations |
| Engine.OrientationTurns | game.py:120-122 | rotating an orientation of a well-formed base gives an orientation of it again, since four turns return to the base |
| Engine.OrientationShape | game.py:12-20 | every orientation of every kind is well formed, has exactly four occupied cells and fits in four rows by four columns, so within the board's width |
| Engine.SpawnFitsEmptyBoard | game.py:73-74 | a piece at the spawn column on row 0 never collides on an empty board |
| Engine.FreeAboveFloor | game.py:91 | a non-colliding piece has its anchor above the floor (this bounds the hard-drop loop) |
| Engine.Game.PiecesFit | game.py:131-138 | in a valid game the active and the held piece have four occupied cells, and the spawn column `COLS // 2 - len(shape[0]) // 2` keeps either inside the board |
| Engine.Game.constructor | game.py:56-58 | construction runs reset: empty board, score 0, flags false, no hold, the first piece spawned |
| Engine.Game.RandomTetromino | game.py:69-75 | a fresh piece of the given kind with that kind's pattern and colour, at column `COLS // 2 - len(shape[0]) // 2`, row 0 |
| Engine.Game.Reset | game.py:60-67 | empty board, score 0, both flags false, no hold, five fresh queued pieces of the given kinds, the first spawned; the game state invariant holds |
| Engine.Game.NewQueue | game.py:66 | five distinct fresh pieces of the given kinds, each as `random_tetromino` makes it |
| Engine.Game.SpawnTetromino | game.py:77-82 | the queue head becomes active; the queue moves up and gets a new piece at its end, so its length stays 5; hold_used is cleared; game_over is set exactly when the new piece collides and is never cleared; board, score and hold are unchanged |
| Engine.Game.TakeNext | game.py:78-80 | the queue step of spawning: pop the head, append a fresh piece, clear hold_used |
| Engine.Game.Collision | game.py:84-95 | the result is true exactly when some occupied entry is off the sides, at or below the floor, or on a filled cell; rows above the top never count |
| Engine.Game.LockTetromino | game.py:97-102 | the new board is the old one with the piece's in-grid cells written and full rows cleared; score gains 100 per cleared row; then a spawn |
| Engine.Game.PlaceCells | game.py:98-100 | the board becomes the old board with every in-grid listed cell set to the colour |
| Engine.Game.ClearLines | game.py:104-110 | the board becomes `Cleared(old board)` and the score grows by 100 times the number of full rows |
| Engine.Game.Move | game.py:112-117 | the result is true exactly when the shifted piece does not collide; the shift happens exactly then, and otherwise the anchor is unchanged |
| Engine.Game.Rotate | game.py:119-122 | the pattern becomes its clockwise rotation when that does not collide at the anchor, and stays otherwise |
| Engine.Game.HardDrop | game.py:124-127 | the piece falls `drop` rows, each of them free; the row below is blocked; it is then locked at the lowest free row and the next piece spawns |
| Engine.Game.Fall | game.py:125-126 | the loop ends with every passed row free and the next row blocked; the column is unchanged |
| Engine.Game.Hold | game.py:129-141 | no change when hold was already used; an empty slot holds a copy (anchor and rotation included) and spawns; otherwise the pieces swap, the new active piece is re-anchored at spawn and game_over is set when it collides there; hold_used ends true |
| Engine.Game.HoldFirst | game.py:132-134 | the held copy equals the active piece field by field; a spawn follows |
| Engine.Game.SwapHeld | game.py:136-140 | the active and held pieces are exchanged; only the new active piece's x and y change; game_over is or-ed with its collision |
| Engine.Game.Update | game.py:143-145 | the piece falls one row when it is free below, and nothing else changes; otherwise the piece is locked and the next one spawned |
| BinaryBoard.FullIndices | board.py:12 | `lines_to_clear` has at most `n` entries, each naming a row below `n` |
| BinaryBoard.Wrap | board.py:9 | a Python index in [-n, n) names a position below n |
| BinaryBoard.FullIndicesSpec | board.py:12 | `lines_to_clear` is increasing, names only full rows, and names every full row |
| BinaryBoard.CountSplit | board.py:12-16 | the rows of a prefix are either listed as full or kept |
| BinaryBoard.NonFullRows | board.py:13-15 | every surviving row is a row of the input that is not full |
| BinaryBoard.ClearedSpec | board.py:11-16 | clearing keeps height rows of width cells; the number of full rows plus the number of survivors is the height; with width > 0 no full row remains |
| BinaryBoard.DropRow | board.py:14-15 | a `del` followed by an insert at the top keeps the number of rows |
| BinaryBoard.Replay | board.py:13-15 | the loop, replayed over the listed indices, keeps the number of rows |
| BinaryBoard.ReplayCleaning | board.py:13-15 | after j steps: j zero rows, then the survivors among the rows passed, then the untouched rest |
| BinaryBoard.ReplayCleared | board.py:13-16 | deleting the listed rows in ascending order and inserting on top gives k zero rows above the non-full rows in their order |
| BinaryBoard.Mark | board.py:9 | setting one cell keeps the board's dimensions |
| BinaryBoard.Marked | board.py:8-9 | setting every offset's cell keeps the board's dimensions |
| BinaryBoard.MarkedSpec | board.py:7-9 | after `add_tetromino` a covered cell is 1 and every other cell is unchanged |
| BinaryBoard.Board.constructor | board.py:2-5 | width and height as given; height rows of width zeros |
| BinaryBoard.Board.AddTetromino | board.py:7-9 | the new board is `Marked(old board)`; the dimensions stay the same |
| BinaryBoard.Board.ClearLines | board.py:11-16 | the new board is `Cleared(old board)`; the result is the number of rows that were full |
| BinaryBoard.Board.CheckCollision | board.py:18-24 | the result is true exactly when some offset is outside the columns, at or below the height, or on a nonzero cell |
| BinaryBoard.Board.Reset | board.py:26-27 | every cell is 0; width and height are kept |
| OrientedPiece.NextIndex | tetromino.py:8-9 | the next index is below the count: i+1, or 0 after the last orientation |
| OrientedPiece.SpinAdvances | tetromino.py:8-9 | k rotations that do not pass the last orientation advance the index by k |
| OrientedPiece.SpinCompose | tetromino.py:8-9 | a rotations then b rotations are a+b rotations |
| OrientedPiece.SpinFullTurn | tetromino.py:8-9 | as many rotations as there are orientations return to the start |
| OrientedPiece.Tetromino.constructor | tetromino.py:2-6 | rotation index 0, anchor (0, 0), orientations as given |
| OrientedPiece.Tetromino.Rotate | tetromino.py:8-9 | the index steps by one modulo the count and stays in range |
| OrientedPiece.Tetromino.MoveLeft | tetromino.py:11-12 | x decreases by one; nothing else changes |
| OrientedPiece.Tetromino.MoveRight | tetromino.py:14-15 | x increases by one; nothing else changes |
| OrientedPiece.Tetromino.Drop | tetromino.py:17-18 | y increases by one; nothing else changes |
| OrientedPiece.Tetromino.GetCurrentShape | tetromino.py:20-21 | the piece's orientation at the current index, read without changing anything |
| Utils.CheckGameOver | utils.py:14-15 | `any(board[0])`: true exactly when row 0 has a nonzero cell |
| Utils.AnySpec | utils.py:15 | `any(row)` holds exactly when some entry is nonzero |
| Utils.NotOverWhenEmpty | utils.py:14-15 | an all-zero board is not over |
| Utils.OnlyTopRowMatters | utils.py:14-15 | boards that agree on row 0 get the same verdict |
| Utils.CatalogueIsShapes | utils.py:3-11 | the generator's catalogue is the game's kind table, entry by entry |
| Utils.CatalogueHasFourCellPieces | utils.py:3-11 | seven patterns, each with exactly four occupied cells |
| Utils.GenerateRandomTetromino | utils.py:1-12 | the result is one of the catalogue's patterns, with four occupied cells |

## Left out

- Rendering is not modelled: `draw_board`, `draw_tetromino`, `draw_shadow`, `draw_next`, `draw_hold`, the pygame screen, `draw_score` and the layout constants, and all of `main.py`, which only opens the window and calls `run`. They are I/O and do not change the game state.
- `Game.run` (game.py:207-275), the frame loop, is not modelled: it polls pygame events and the clock. It does change the game state, through the methods modelled here. Arrow keys call `move` and `rotate`, space `hard_drop`, C `hold` and R `reset`. QUIT and ESC set `game_over` (game.py:222, 238). Once more than 500 ms have passed, `update` runs, but only while the game is not over (game.py:242). After a game over, R calls `reset` and clears `game_over` (game.py:270-272). The model provides each of these as a method but not the order in which events and timer ticks call them.
- Randomness is a parameter. Every `Game` method that may spawn takes the kind index that `random.randint` would return. `generate_random_tetromino` picks a catalogue entry by nondeterministic choice.
- Colours are tags. A piece's colour is its kind index, and a board cell holds that tag instead of an RGB triple.
- `Game.__init__`'s `screen` argument is dropped. Dafny needs every field set before `reset` can run, so the constructor first makes a provisional piece; `reset` replaces it.
- Default arguments (`x_offset=0`, `shape_override=None`, `width=10`) are passed explicitly. A missing override is the empty pattern; Python treats both it and `None` as false.
- Engine.Game.TakeNext, Engine.Game.NewQueue, Engine.Game.PlaceCells, Engine.Game.Fall, Engine.Game.HoldFirst and Engine.Game.SwapHeld are pieces of the source methods they are cited against. They are split out so each proof stays small.
- Engine.Game.TakeNext creates the new queue piece before popping the head, while the source pops first. Nothing can observe the difference.
- Engine.Game.HardDrop and Engine.Game.Fall return the number of rows fallen as a ghost value. The source only runs the loop.
- BinaryBoard.Board.AddTetromino requires every offset to be within Python's index range, [-width, width) for columns and [-height, height) for rows. Python raises IndexError outside it.
- BinaryBoard.Board.CheckCollision requires the row range for every offset whose column is in range, not only for the offsets Python reaches before an earlier one returns True. Python raises IndexError only at a row it actually indexes. So an out-of-range row after a colliding offset is excluded here although the source returns True.
- BinaryBoard.Board.constructor takes width and height as natural numbers. A negative argument in Python gives empty rows, and that case is not modelled.
- BinaryBoard.ClearedSpec states "no full row remains" only for width > 0. `all([])` is true, so rows of a zero-width board always count as full.
- OrientedPiece.Tetromino.Rotate requires at least one orientation. Python's `% 0` raises ZeroDivisionError.
- OrientedPiece.Tetromino.GetCurrentShape is a function and requires the index to be in range. It reads state and changes none.
- Utils.CheckGameOver requires at least one row. `board[0]` raises IndexError on an empty board.
- The board of `game.py` is always ROWS by COLS. Engine.Game.Collision requires that (`WellSized`), because nothing in the game produces another size.
