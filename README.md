# Falling-block game core in Dafny

This project models the simulation core of a small falling-block puzzle game
(`pytrgame1020.py`) and proves properties of it.

- The board is a grid of `ROWS x COLUMNS` cells: 20 x 10, derived from a
  300 x 600 window and 30-pixel cells. Cell value 0 is empty. Any other value
  is a colour tag: a palette index plus one.
- A falling piece has a shape matrix, a colour tag and an anchor `(x, y)`.
  The anchor is the grid position of the shape's top-left entry.
- The player moves the piece left, right or down, or rotates it clockwise.
  Any of these is undone if the result collides.
- On a gravity tick the piece falls one row. If it cannot fall, it is frozen
  into the board, full rows are cleared, a new piece is spawned, and the game
  is over if the new piece collides at once.

Modules:

- `Config` (`config.dfy`): the dimensions, palette size and fall interval.
- `Pieces` (`pieces.dfy`): shape matrices and the quarter turn
  `zip(*shape[::-1])`, written out as `Zip(Reverse(m))`. Also the seven-shape
  catalog and the `Piece` class, whose fields are changed in place.
- `Boards` (`board.dfy`): the collision test, with a reference predicate
  `Collides` and a method `CheckCollision` that scans like the source. Also
  freezing (`Frozen` and `Board.Freeze`) and row clearing (`Cleared` and
  `Board.ClearRows`). `Board` holds the grid as a `seq<seq<int>>` field that
  its methods reassign.
- `Tetris` (`game.dfy`): the `Game` class, made from the local state of `main`
  together with the global `fall_time`. It has one method per step of the main
  loop.

Notes on fidelity:

- clear_rows (lines 91-98) deletes row `y`, then inserts an empty row at index
  0. Every row below `y` keeps its index, so the single scan looks at each
  original row exactly once and removes every full row. Only rows above the
  scan position move, and they have already been inspected, so no full row is
  missed in one pass. `Board.ClearRows` is proved equal to `Cleared`: one empty
  row per full row, above the non-full rows in their original order.
  `ClearedIdempotent` shows that a second pass would change nothing.
- The fall time grows by the frame's elapsed time before the game-over test
  (line 110 is outside `if not game_over`). So after game over `fall_time`
  keeps growing, though it has no effect. `Game.Frame` models this.
- A piece's row starts at 0 and only grows, so it is never negative.
  `Collides` and `CheckCollision` require `y >= 0`, and the game invariant
  keeps it.
- The float test `fall_time / 1000 > 0.5` is the integer test
  `fall_time > 500` on whole milliseconds (`GravityDue`).

## Model

| member | source | states |
|---|---|---|
| Pieces.Reverse | pytrgame1020.py:57 | `shape[::-1]` has the same length and entry `i` is input entry `len-1-i` |
| Pieces.MinLen | pytrgame1020.py:57 | the number of tuples `zip(*rows)` yields is at most every row's length and equals some row's length (0 for no rows) |
| Pieces.Zip | pytrgame1020.py:57 | `zip(*rows)` yields as many tuples as the shortest row is long, each with one entry per row |
| Pieces.ZipTwice | pytrgame1020.py:57 | on a rectangular matrix `zip(*...)` is a transpose: doing it twice gives the matrix back |
| Pieces.Rotated | pytrgame1020.py:56-57 | a quarter turn maps an R x C matrix to a C x R matrix whose entry (i, j) is the input's (R-1-j, i) |
| Pieces.RotatedFourTimes | pytrgame1020.py:131-136 | four quarter turns give back the original shape, so the three extra turns after a blocked rotation restore it exactly |
| Pieces.RotatedCells | pytrgame1020.py:57 | the occupied cells after a turn are exactly the images (j, R-1-i) of the occupied cells (i, j) |
| Pieces.RotatedKeepsCellCount | pytrgame1020.py:57 | rotation is a bijection on cells: the number of blocks is unchanged |
| Pieces.SHAPES | pytrgame1020.py:26-34 | the seven catalog shapes I, O, T, J, L, S and Z, entry for entry as in the source table |
| Pieces.CatalogShapesFit | pytrgame1020.py:26-34 | each of the seven catalog shapes is a rectangular matrix of exactly four blocks that fits on the board |
| Pieces.SpawnColumn | pytrgame1020.py:53 | the spawn column `COLUMNS // 2 - width // 2`, the board's midpoint less half the shape's width |
| Pieces.SpawnCentered | pytrgame1020.py:53 | the spawn column `COLUMNS // 2 - width // 2` keeps a shape inside the walls, and its left and right margins differ by at most one |
| Pieces.Piece.constructor | pytrgame1020.py:50-54 | a new piece keeps its shape and colour and is anchored at row 0 and the spawn column |
| Pieces.Piece.Rotate | pytrgame1020.py:56-57 | the shape becomes its quarter turn; colour and anchor are unchanged |
| Boards.Collides | pytrgame1020.py:73-81 | reference definition of the collision test: some occupied cell of the shape is below the floor, outside a wall, or on a nonzero cell, the bounds read before the grid |
| Boards.CollidesIffNotOnEmptyCells | pytrgame1020.py:73-81 | a shape collides exactly when not every occupied cell lies on the board on an empty cell |
| Boards.CheckCollision | pytrgame1020.py:73-81 | the scan with early return is true iff some occupied cell is below the floor, outside a wall, or on a settled block; bounds are tested before the grid is read |
| Boards.FitsOnEmptyCells | pytrgame1020.py:73-81 | a piece that does not collide lies wholly on the board, on empty cells only |
| Boards.EmptyBoardNoCollision | pytrgame1020.py:73-81 | a shape inside the board never collides with an empty board |
| Boards.Frozen | pytrgame1020.py:84-88 | reference definition of the grid after freezing: each cell under an occupied piece cell takes the colour, all others keep theirs |
| Boards.FrozenAt | pytrgame1020.py:84-88 | freezing keeps the grid at ROWS x COLUMNS, gives each cell under an occupied piece cell the colour, and leaves each other cell as it was |
| Boards.FrozenAddsPieceCells | pytrgame1020.py:84-88 | freezing a piece that does not collide writes only empty cells, and the occupied cells become the old ones plus the piece's cells, so their number grows by the piece's block count |
| Boards.Board.constructor | pytrgame1020.py:103 | the board starts with ROWS x COLUMNS empty cells |
| Boards.Board.Freeze | pytrgame1020.py:84-88 | the grid becomes `Frozen` of the old grid and the piece; the piece must lie on the board |
| Boards.Survivors | pytrgame1020.py:94-96 | the kept rows are non-full rows of the input, and their number plus the number of full rows is the number of rows |
| Boards.SurvivorsAreNonFullRows | pytrgame1020.py:94-96 | the kept rows are exactly the non-full rows of the input: each non-full row occurs as often as in the input, full rows not at all |
| Boards.FullCount | pytrgame1020.py:92-97 | the `full_rows` counter never exceeds the number of rows |
| Boards.FullCountZero | pytrgame1020.py:92-97 | the counter stays 0 exactly when no row is full |
| Boards.FullCountIsFullRows | pytrgame1020.py:92-98 | the count returned is the number of row indices whose row has no 0 |
| Boards.Cleared | pytrgame1020.py:91-98 | reference definition of the grid after clearing: one empty row per full row, on top of the non-full rows in their input order |
| Boards.ClearStep | pytrgame1020.py:93-97 | at scan step y the row at index y is still original row y, and deleting it and inserting an empty row on top (when it is full) extends the cleared prefix |
| Boards.Board.ClearRows | pytrgame1020.py:91-98 | the grid becomes `Cleared` of the old grid and the result is the number of full input rows |
| Boards.ClearedIsGrid | pytrgame1020.py:93-96 | clearing keeps the grid at exactly ROWS x COLUMNS |
| Boards.ClearedHasNoFullRow | pytrgame1020.py:93-96 | after clearing no row is full |
| Boards.ClearedIdempotent | pytrgame1020.py:91-98 | clearing an already cleared grid changes nothing |
| Boards.ClearedKeepsRowsBelow | pytrgame1020.py:95-96 | rows below the lowest full row keep their index and contents |
| Tetris.Target | pytrgame1020.py:119-134 | where an intent tries to put the piece: a translation moves it by exactly one cell (never upward) with the same shape; a rotation keeps the anchor and a well-formed shape |
| Tetris.Step | pytrgame1020.py:119-136 | one intent leaves the piece as it was or at its target; when the target differs it is taken exactly when it does not collide; a free piece stays free |
| Tetris.Steps | pytrgame1020.py:115-136 | the intents of a frame never move the piece up |
| Tetris.StepTranslatesByOne | pytrgame1020.py:119-130 | left, right and down move the piece by exactly one cell in their direction or leave it unchanged, and never change the shape |
| Tetris.StepKeepsPieceFree | pytrgame1020.py:119-136 | after any intent a piece that did not collide still does not, and keeps a well-formed shape with the same number of blocks |
| Tetris.StepsKeepPieceFree | pytrgame1020.py:115-136 | the same holds for a whole frame's sequence of intents |
| Tetris.SpawnInBounds | pytrgame1020.py:53-54 | every catalog shape spawned at its anchor lies on the board |
| Tetris.IPieceFallsToFloor | pytrgame1020.py:139-142 | on an empty board the I piece spawns at column 3, can sit at every row 0..19, and collides one row lower |
| Tetris.GravityDue | pytrgame1020.py:139 | the integer test `fall_time > 500` agrees with `fall_time / 1000 > 0.5` on whole milliseconds |
| Tetris.Game.constructor | pytrgame1020.py:103-105 | a new game has an empty board, a first piece at its spawn anchor that does not collide, no game over and zero fall time |
| Tetris.Game.ApplyIntent | pytrgame1020.py:113-136 | unless the game is over, the piece takes the intent's target pose iff that does not collide (a blocked rotation is undone by three more turns); grid, colour, flag and fall time are unchanged |
| Tetris.Game.Gravity | pytrgame1020.py:139-148 | the tick fires only when over 500 ms are due and the game runs, and then resets the fall time; the piece falls one row if free, otherwise it lands |
| Tetris.Game.Tick | pytrgame1020.py:140-148 | a due tick moves the piece down one row if that is free and leaves the grid; otherwise it lands the piece at its old row; either way the fall time becomes 0 |
| Tetris.Game.Settle | pytrgame1020.py:142-147 | the landed piece is frozen at its last free row, rows are cleared, the new piece is spawned, and game over is set iff the new piece collides |
| Tetris.Game.Frame | pytrgame1020.py:108-148 | elapsed time always accumulates; after game over nothing else changes; without a due tick the piece ends at the pose the frame's intents give and the grid is untouched |

## Left out

- Drawing and window set-up (lines 5, 37-41, 60-70, 150-161, 163-165) are calls into a graphics library that is not part of this model.
- The clock and event polling (lines 44, 110-111, 115-118) are platform input. Elapsed time is a millisecond argument of `Tetris.Game.Frame`, and a frame's key presses are a sequence of `Intent` values. Keys other than the four arrows, and the window-close event that stops the loop, are not modelled.
- `random.choice` (lines 104, 145) becomes a shape index and a palette index passed in by the caller. The colour tag is the palette index plus one.
- The RGB values of the palette (lines 15-23) are presentation data. Only "nonzero means occupied" matters, so colour tags are the integers 1..7.
- The float `fall_speed = 0.5` (line 46) is replaced by the equivalent integer test `fall_time > 500`.
- No restart exists in the source, so none is modelled. No configuration validation exists either: the dimensions are constants.
- Python's negative list indexing is not modelled, because a piece's row is never negative.
- Rotation produces rows that are lists in the model and tuples in the source. Only the entries matter, so the model does not distinguish them.
- Tetris.Game.Frame: when gravity is due in a frame, its contract states only the game invariant and the reset fall time. The landing itself is stated by Tetris.Game.Gravity and Tetris.Game.Settle.
