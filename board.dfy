/** The board: a ROWS x COLUMNS grid of cells, 0 for empty and a positive colour
    tag for a settled block; collision test, freezing a piece and row clearing. */
module Boards {
  import opened Config
  import opened Pieces

  type Grid = seq<seq<int>>

  /** The grid has its configured dimensions. */
  predicate IsGrid(g: Grid) {
    |g| == ROWS && forall r :: 0 <= r < |g| ==> |g[r]| == COLUMNS
  }

  /** One empty row, `[0 for _ in range(COLUMNS)]`. */
  function EmptyRow(): seq<int> {
    seq(COLUMNS, _ => 0)
  }

  /** `n` empty rows. */
  function EmptyRows(n: nat): Grid {
    seq(n, _ => EmptyRow())
  }

  /** The occupied cells of the grid. */
  function GridCells(g: Grid): set<Cell> {
    set r, c | 0 <= r < |g| && 0 <= c < |g[r]| && g[r][c] != 0 :: (r, c)
  }

  // ---------------------------------------------------------------- collision

  /** An occupied piece cell at (row, col) is blocked: below the floor, outside
      a wall, or on a settled block. The bounds are tested before the grid is
      read, so the read is always in range. Rows above the top are not possible
      here: a piece's row never becomes negative. */
  predicate Blocked(g: Grid, row: int, col: int)
    requires IsGrid(g) && row >= 0
  {
    row >= ROWS || col < 0 || col >= COLUMNS || g[row][col] != 0
  }

  /** Every occupied cell of the shape anchored at (px, py) lies on the board,
      on an empty cell. */
  predicate OnEmptyCells(g: Grid, shape: Matrix, px: int, py: int)
    requires IsGrid(g)
  {
    forall i, j :: 0 <= i < |shape| && 0 <= j < |shape[i]| && shape[i][j] != 0 ==>
      0 <= py + i < ROWS && 0 <= px + j < COLUMNS && g[py + i][px + j] == 0
  }

  /** The shape anchored at (px, py) collides: some occupied cell is blocked. */
  predicate Collides(g: Grid, shape: Matrix, px: int, py: int)
    requires IsGrid(g) && py >= 0
  {
    exists i, j :: 0 <= i < |shape| && 0 <= j < |shape[i]| && shape[i][j] != 0 &&
      Blocked(g, py + i, px + j)
  }

  /** Every occupied cell of the shape anchored at (px, py) lies on the board. */
  predicate InBounds(shape: Matrix, px: int, py: int) {
    forall i, j :: 0 <= i < |shape| && 0 <= j < |shape[i]| && shape[i][j] != 0 ==>
      0 <= py + i < ROWS && 0 <= px + j < COLUMNS
  }

  /** A shape collides exactly when some occupied cell is off the board or on a
      settled block. */
  lemma CollidesIffNotOnEmptyCells(g: Grid, shape: Matrix, px: int, py: int)
    requires IsGrid(g) && py >= 0
    ensures Collides(g, shape, px, py) <==> !OnEmptyCells(g, shape, px, py)
  {
  }

  /** The collision test, scanning the shape row by row and returning at the
      first blocked cell. */
  method CheckCollision(grid: Grid, piece: Piece) returns (hit: bool)
    requires IsGrid(grid) && piece.y >= 0
    ensures hit == Collides(grid, piece.shape, piece.x, piece.y)
  {
    var shape := piece.shape;
    var y := 0;
    while y < |shape|
      invariant 0 <= y <= |shape|
      invariant forall i, j :: 0 <= i < y && 0 <= j < |shape[i]| && shape[i][j] != 0 ==>
        !Blocked(grid, piece.y + i, piece.x + j)
    {
      var x := 0;
      while x < |shape[y]|
        invariant 0 <= x <= |shape[y]|
        invariant forall j :: 0 <= j < x && shape[y][j] != 0 ==>
          !Blocked(grid, piece.y + y, piece.x + j)
      {
        if shape[y][x] != 0 {
          if piece.y + y >= ROWS || piece.x + x < 0 || piece.x + x >= COLUMNS {
            assert Blocked(grid, piece.y + y, piece.x + x);
            return true;
          }
          if grid[piece.y + y][piece.x + x] != 0 {
            assert Blocked(grid, piece.y + y, piece.x + x);
            return true;
          }
        }
        x := x + 1;
      }
      y := y + 1;
    }
    return false;
  }

  /** A shape that does not collide lies on the board, on empty cells only. */
  lemma FitsOnEmptyCells(g: Grid, shape: Matrix, px: int, py: int)
    requires IsGrid(g) && py >= 0 && !Collides(g, shape, px, py)
    ensures InBounds(shape, px, py)
    ensures forall i, j :: 0 <= i < |shape| && 0 <= j < |shape[i]| && shape[i][j] != 0 ==>
      g[py + i][px + j] == 0
  {
  }

  /** A shape that fits inside the board never collides with an empty board. */
  lemma EmptyBoardNoCollision(shape: Matrix, px: int, py: int)
    requires py >= 0 && InBounds(shape, px, py)
    ensures !Collides(EmptyRows(ROWS), shape, px, py)
  {
  }

  // ------------------------------------------------------------------ freezing

  /** Grid cell (r, c) lies under an occupied cell of the shape anchored at (px, py). */
  predicate Covers(shape: Matrix, px: int, py: int, r: int, c: int) {
    0 <= r - py < |shape| && 0 <= c - px < |shape[r - py]| && shape[r - py][c - px] != 0
  }

  /** The grid after freezing: covered cells take the colour, all others keep theirs. */
  function Frozen(g: Grid, shape: Matrix, px: int, py: int, color: int): Grid {
    seq(|g|, r requires 0 <= r < |g| =>
      seq(|g[r]|, c requires 0 <= c < |g[r]| =>
        if Covers(shape, px, py, r, c) then color else g[r][c]))
  }

  /** The cells a shape anchored at (px, py) occupies on the grid. */
  function Placed(shape: Matrix, px: int, py: int): set<Cell> {
    Image(Cells(shape), Shift(px, py))
  }

  /** Translation of a shape-relative cell to the grid, by the anchor (px, py). */
  function Shift(px: int, py: int): Cell -> Cell {
    (p: Cell) => (py + p.0, px + p.1)
  }

  /** Each placed cell of a shape that does not collide is an empty board cell
      under an occupied cell of the shape. */
  lemma PlacedOnEmptyCells(g: Grid, shape: Matrix, px: int, py: int)
    requires IsGrid(g) && py >= 0 && !Collides(g, shape, px, py)
    ensures forall q :: q in Placed(shape, px, py) ==>
      0 <= q.0 < ROWS && 0 <= q.1 < COLUMNS && Covers(shape, px, py, q.0, q.1) && g[q.0][q.1] == 0
  {
  }

  /** A shape that does not collide is placed only on cells that were empty. */
  lemma PlacedDisjoint(g: Grid, shape: Matrix, px: int, py: int)
    requires IsGrid(g) && py >= 0 && !Collides(g, shape, px, py)
    ensures GridCells(g) * Placed(shape, px, py) == {}
  {
    PlacedOnEmptyCells(g, shape, px, py);
    forall q | q in Placed(shape, px, py) ensures q !in GridCells(g) {
    }
  }

  /** Every grid cell under an occupied cell of the shape is a placed cell. */
  lemma CoveredIsPlaced(shape: Matrix, px: int, py: int, r: int, c: int)
    requires Covers(shape, px, py, r, c)
    ensures (r, c) in Placed(shape, px, py)
  {
    var shift := Shift(px, py);
    var p := (r - py, c - px);
    assert p in Cells(shape) && shift(p) == (r, c);
  }

  /** Freezing keeps the dimensions and changes exactly the covered cells. */
  lemma FrozenAt(g: Grid, shape: Matrix, px: int, py: int, color: int)
    requires IsGrid(g)
    ensures IsGrid(Frozen(g, shape, px, py, color))
    ensures forall r, c :: 0 <= r < ROWS && 0 <= c < COLUMNS ==>
      Frozen(g, shape, px, py, color)[r][c] == if Covers(shape, px, py, r, c) then color else g[r][c]
  {
  }

  /** The occupied cells after freezing are the old ones and the placed ones. */
  lemma FrozenCellsUnion(g: Grid, shape: Matrix, px: int, py: int, color: int)
    requires IsGrid(g) && py >= 0 && !Collides(g, shape, px, py) && color != 0
    ensures GridCells(Frozen(g, shape, px, py, color)) == GridCells(g) + Placed(shape, px, py)
  {
    var f := Frozen(g, shape, px, py, color);
    var placed := Placed(shape, px, py);
    FrozenAt(g, shape, px, py, color);
    PlacedOnEmptyCells(g, shape, px, py);
    forall q | q in GridCells(f) ensures q in GridCells(g) + placed {
      if Covers(shape, px, py, q.0, q.1) {
        CoveredIsPlaced(shape, px, py, q.0, q.1);
      }
    }
    forall q | q in GridCells(g) + placed ensures q in GridCells(f) {
      assert f[q.0][q.1] != 0;
    }
  }

  /** Freezing a piece that does not collide keeps the dimensions, lands only on
      empty cells, and adds exactly the piece's blocks to the board. */
  lemma FrozenAddsPieceCells(g: Grid, shape: Matrix, px: int, py: int, color: int)
    requires IsGrid(g) && py >= 0 && !Collides(g, shape, px, py) && color != 0
    ensures IsGrid(Frozen(g, shape, px, py, color))
    ensures GridCells(g) * Placed(shape, px, py) == {}
    ensures GridCells(Frozen(g, shape, px, py, color)) == GridCells(g) + Placed(shape, px, py)
    ensures |GridCells(Frozen(g, shape, px, py, color))| == |GridCells(g)| + |Cells(shape)|
  {
    FrozenAt(g, shape, px, py, color);
    PlacedDisjoint(g, shape, px, py);
    FrozenCellsUnion(g, shape, px, py, color);
    InjectiveImageSize(Cells(shape), Shift(px, py));
  }

  // -------------------------------------------------------------- row clearing

  /** A full row has no empty cell: `0 not in row`. */
  predicate IsFull(row: seq<int>) {
    0 !in row
  }

  /** The number of full rows, at most the number of rows. */
  function FullCount(g: Grid): (n: nat)
    ensures n <= |g|
  {
    if g == [] then 0
    else FullCount(g[..|g| - 1]) + (if IsFull(g[|g| - 1]) then 1 else 0)
  }

  /** The rows that are not full, in their original order. */
  function Survivors(g: Grid): (s: Grid)
    ensures |s| + FullCount(g) == |g|
    ensures forall k :: 0 <= k < |s| ==> !IsFull(s[k]) && s[k] in g
  {
    if g == [] then []
    else
      var front := Survivors(g[..|g| - 1]);
      assert forall k :: 0 <= k < |front| ==> front[k] in g;
      front + (if IsFull(g[|g| - 1]) then [] else [g[|g| - 1]])
  }

  /** The grid after row clearing: one empty row for every full row, on top of the
      rows that were not full, in their original order. */
  function Cleared(g: Grid): Grid {
    EmptyRows(FullCount(g)) + Survivors(g)
  }

  /** The survivors are exactly the non-full rows of the input, each as often as
      it occurs there, and every non-full row of the input is one of them. */
  lemma {:induction false} SurvivorsAreNonFullRows(g: Grid)
    ensures forall row :: multiset(Survivors(g))[row] == if IsFull(row) then 0 else multiset(g)[row]
    ensures forall k :: 0 <= k < |g| && !IsFull(g[k]) ==> g[k] in Survivors(g)
  {
    if g != [] {
      var front := g[..|g| - 1];
      var last := g[|g| - 1];
      SurvivorsAreNonFullRows(front);
      assert g == front + [last];
      assert multiset(g) == multiset(front) + multiset{last};
      var tail := if IsFull(last) then [] else [last];
      assert Survivors(g) == Survivors(front) + tail;
      assert multiset(Survivors(g)) == multiset(Survivors(front)) + multiset(tail);
      forall k | 0 <= k < |g| && !IsFull(g[k]) ensures g[k] in Survivors(g) {
        assert multiset(g)[g[k]] > 0;
      }
    }
  }

  /** The count of full rows agrees with the number of full row indices. */
  lemma {:induction false} FullCountIsFullRows(g: Grid)
    ensures FullCount(g) == |set r | 0 <= r < |g| && IsFull(g[r])|
  {
    if g != [] {
      var n := |g| - 1;
      var front := g[..n];
      FullCountIsFullRows(front);
      var before := set r | 0 <= r < |front| && IsFull(front[r]);
      var all := set r | 0 <= r < |g| && IsFull(g[r]);
      if IsFull(g[n]) {
        assert all == before + {n};
      } else {
        assert all == before;
      }
    }
  }

  /** No row is counted exactly when no row is full. */
  lemma {:induction false} FullCountZero(g: Grid)
    ensures FullCount(g) == 0 <==> forall r :: 0 <= r < |g| ==> !IsFull(g[r])
  {
    if g != [] {
      var front := g[..|g| - 1];
      FullCountZero(front);
      assert forall r :: 0 <= r < |front| ==> front[r] == g[r];
    }
  }

  /** Clearing keeps the grid at ROWS x COLUMNS. */
  lemma ClearedIsGrid(g: Grid)
    requires IsGrid(g)
    ensures IsGrid(Cleared(g))
  {
  }

  /** After clearing, no row is full. */
  lemma ClearedHasNoFullRow(g: Grid)
    requires IsGrid(g)
    ensures forall r :: 0 <= r < |Cleared(g)| ==> !IsFull(Cleared(g)[r])
  {
    var c := Cleared(g);
    var k := FullCount(g);
    forall r | 0 <= r < |c| ensures !IsFull(c[r]) {
      if r < k {
        assert c[r] == EmptyRow() && c[r][0] == 0;
      } else {
        assert c[r] == Survivors(g)[r - k];
      }
    }
  }

  /** A grid without full rows is left as it is. */
  lemma {:induction false} NoFullRowSurvives(g: Grid)
    requires forall r :: 0 <= r < |g| ==> !IsFull(g[r])
    ensures FullCount(g) == 0 && Survivors(g) == g
  {
    if g != [] {
      NoFullRowSurvives(g[..|g| - 1]);
      assert g[..|g| - 1] + [g[|g| - 1]] == g;
    }
  }

  /** Clearing twice clears nothing more. */
  lemma ClearedIdempotent(g: Grid)
    requires IsGrid(g)
    ensures Cleared(Cleared(g)) == Cleared(g)
  {
    ClearedHasNoFullRow(g);
    NoFullRowSurvives(Cleared(g));
  }

  /** If no row from index k on is full, the grid has as many full rows as its
      first k rows, and its survivors are those of the first k rows followed
      by rows k onward unchanged. */
  lemma {:induction false} TailWithoutFullRows(g: Grid, k: nat)
    requires k <= |g|
    requires forall r :: k <= r < |g| ==> !IsFull(g[r])
    ensures FullCount(g) == FullCount(g[..k])
    ensures Survivors(g) == Survivors(g[..k]) + g[k..]
    decreases |g|
  {
    if |g| > k {
      var n := |g| - 1;
      TailWithoutFullRows(g[..n], k);
      assert g[..n][..k] == g[..k];
      assert g[..n][k..] + [g[n]] == g[k..];
    } else {
      assert g[..k] == g;
    }
  }

  /** Rows below the lowest full row keep their index and their contents. */
  lemma ClearedKeepsRowsBelow(g: Grid, k: nat)
    requires IsGrid(g) && k <= |g|
    requires forall r :: k <= r < |g| ==> !IsFull(g[r])
    ensures forall r :: k <= r < |g| ==> Cleared(g)[r] == g[r]
  {
    TailWithoutFullRows(g, k);
    var front := g[..k];
    assert |EmptyRows(FullCount(front)) + Survivors(front)| == k;
    assert Cleared(g) == (EmptyRows(FullCount(front)) + Survivors(front)) + g[k..];
  }

  /** One step of the row scan: row y is still at index y, and deleting it and
      inserting an empty row on top (when it is full) extends the scanned prefix. */
  lemma ClearStep(g0: Grid, y: nat, grid: Grid, n: nat)
    requires y < |g0| && n == FullCount(g0[..y])
    requires grid == EmptyRows(n) + Survivors(g0[..y]) + g0[y..]
    ensures y < |grid| && grid[y] == g0[y]
    ensures IsFull(g0[y]) ==> (n + 1 == FullCount(g0[..y + 1]) &&
      [EmptyRow()] + grid[..y] + grid[y + 1..] == EmptyRows(n + 1) + Survivors(g0[..y + 1]) + g0[y + 1..])
    ensures !IsFull(g0[y]) ==> (n == FullCount(g0[..y + 1]) &&
      grid == EmptyRows(n) + Survivors(g0[..y + 1]) + g0[y + 1..])
  {
    var front := g0[..y + 1];
    assert front[..y] == g0[..y] && front[y] == g0[y];
    var pre := EmptyRows(n) + Survivors(g0[..y]);
    assert |pre| == y;
    assert g0[y..] == [g0[y]] + g0[y + 1..];
    assert grid == pre + [g0[y]] + g0[y + 1..];
    assert grid[..y] == pre;
    assert grid[y + 1..] == g0[y + 1..];
    if IsFull(g0[y]) {
      assert Survivors(front) == Survivors(g0[..y]);
      assert [EmptyRow()] + EmptyRows(n) == EmptyRows(n + 1);
    } else {
      assert Survivors(front) == Survivors(g0[..y]) + [g0[y]];
    }
  }

  // --------------------------------------------------------------------- board

  /** The grid, owned by the board and changed only by freezing and clearing. */
  class Board {
    var grid: Grid

    ghost predicate Valid()
      reads this
    {
      IsGrid(grid)
    }

    /** An empty board. */
    constructor ()
      ensures Valid() && grid == EmptyRows(ROWS)
      ensures GridCells(grid) == {}
    {
      var g := EmptyRows(ROWS);
      assert forall r :: 0 <= r < ROWS ==> g[r] == EmptyRow();
      grid := g;
    }

    /** Writes the piece's colour into every grid cell under an occupied piece
        cell. The piece must lie on the board; freezing does not check for
        settled blocks and overwrites them. */
    method Freeze(piece: Piece)
      requires Valid() && InBounds(piece.shape, piece.x, piece.y)
      modifies this
      ensures Valid()
      ensures grid == Frozen(old(grid), piece.shape, piece.x, piece.y, piece.color)
    {
      ghost var g0 := grid;
      var shape, px, py, color := piece.shape, piece.x, piece.y, piece.color;
      var y := 0;
      while y < |shape|
        invariant 0 <= y <= |shape|
        invariant IsGrid(grid)
        invariant forall r, c :: 0 <= r < ROWS && 0 <= c < COLUMNS ==>
          grid[r][c] == if Covers(shape, px, py, r, c) && r - py < y then color else g0[r][c]
      {
        var x := 0;
        while x < |shape[y]|
          invariant 0 <= x <= |shape[y]|
          invariant IsGrid(grid)
          invariant forall r, c :: 0 <= r < ROWS && 0 <= c < COLUMNS ==>
            grid[r][c] ==
              if Covers(shape, px, py, r, c) && (r - py < y || (r - py == y && c - px < x))
              then color else g0[r][c]
        {
          if shape[y][x] != 0 {
            grid := grid[py + y := grid[py + y][px + x := color]];
          }
          x := x + 1;
        }
        y := y + 1;
      }
      var f := Frozen(g0, shape, px, py, color);
      forall r | 0 <= r < ROWS ensures grid[r] == f[r] {
      }
    }

    /** Scans the rows top to bottom; each full row is deleted and an empty row
        is inserted at the top. Rows below the scan position keep their index,
        so every original row is inspected exactly once and every full row is
        removed. Returns the number of rows removed. */
    method ClearRows() returns (fullRows: nat)
      requires Valid()
      modifies this
      ensures Valid()
      ensures grid == Cleared(old(grid))
      ensures fullRows == FullCount(old(grid))
    {
      ghost var g0 := grid;
      fullRows := 0;
      var y := 0;
      while y < ROWS
        invariant 0 <= y <= ROWS
        invariant fullRows == FullCount(g0[..y])
        invariant grid == EmptyRows(fullRows) + Survivors(g0[..y]) + g0[y..]
      {
        ClearStep(g0, y, grid, fullRows);
        if IsFull(grid[y]) {
          grid := [EmptyRow()] + grid[..y] + grid[y + 1..];
          fullRows := fullRows + 1;
        }
        y := y + 1;
      }
      assert g0[..ROWS] == g0;
      ClearedIsGrid(g0);
    }
  }
}
