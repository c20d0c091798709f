/** Piece geometry: shape matrices, clockwise rotation, the shape catalog and
    the falling piece itself. */
module Pieces {
  import opened Config

  /** A shape matrix: a list of rows of 0/1 entries. */
  type Matrix = seq<seq<int>>

  /** A cell position `(row, column)`. */
  type Cell = (int, int)

  /** A well-formed shape: at least one row and one column, every row equally wide. */
  predicate IsMatrix(m: Matrix) {
    |m| >= 1 && |m[0]| >= 1 && forall i :: 0 <= i < |m| ==> |m[i]| == |m[0]|
  }

  /** The occupied cells of a shape: the positions whose entry is nonzero. */
  function Cells(m: Matrix): set<Cell> {
    set i, j | 0 <= i < |m| && 0 <= j < |m[i]| && m[i][j] != 0 :: (i, j)
  }

  /** The list reversed, as the slice `s[::-1]`. */
  function Reverse<T>(s: seq<T>): (r: seq<T>)
    ensures |r| == |s|
    ensures forall i :: 0 <= i < |s| ==> r[i] == s[|s| - 1 - i]
  {
    if s == [] then [] else Reverse(s[1..]) + [s[0]]
  }

  /** The length of the shortest row, which is how many tuples `zip(*rows)`
      yields; `zip()` with no rows yields none. */
  function MinLen(rows: Matrix): (n: nat)
    ensures |rows| == 0 ==> n == 0
    ensures forall j :: 0 <= j < |rows| ==> n <= |rows[j]|
    ensures |rows| > 0 ==> exists j :: 0 <= j < |rows| && n == |rows[j]|
  {
    if |rows| == 0 then 0
    else if |rows| == 1 then |rows[0]|
    else
      var t := MinLen(rows[1..]);
      assert exists j :: 1 <= j < |rows| && t == |rows[j]| by {
        var k :| 0 <= k < |rows[1..]| && t == |rows[1..][k]|;
        assert t == |rows[k + 1]|;
      }
      if |rows[0]| <= t then |rows[0]| else t
  }

  /** `zip(*rows)`: tuple i collects entry i of every row, in row order. */
  function Zip(rows: Matrix): (z: Matrix)
    ensures |z| == MinLen(rows)
    ensures forall i :: 0 <= i < |z| ==> |z[i]| == |rows|
  {
    seq(MinLen(rows), i requires 0 <= i < MinLen(rows) =>
      seq(|rows|, j requires 0 <= j < |rows| => rows[j][i]))
  }

  /** On a well-formed matrix `zip(*...)` is a transpose, so doing it twice
      gives the matrix back. */
  lemma ZipTwice(m: Matrix)
    requires IsMatrix(m)
    ensures Zip(Zip(m)) == m
  {
    var z := Zip(m);
    assert forall i :: 0 <= i < |z| ==> |z[i]| == |m|;
    assert MinLen(z) == |m|;
    var zz := Zip(z);
    forall i | 0 <= i < |m| ensures zz[i] == m[i] {
      forall j | 0 <= j < |m[i]| ensures zz[i][j] == m[i][j] {
        assert zz[i][j] == z[j][i];
      }
    }
  }

  /** Clockwise quarter turn, `zip(*shape[::-1])`: an R x C matrix becomes a
      C x R matrix whose entry (i, j) is the input's entry (R-1-j, i). */
  function Rotated(m: Matrix): (r: Matrix)
    ensures IsMatrix(m) ==> IsMatrix(r) && |r| == |m[0]| && |r[0]| == |m|
    ensures IsMatrix(m) ==>
      forall i, j :: 0 <= i < |r| && 0 <= j < |r[i]| ==> r[i][j] == m[|m| - 1 - j][i]
  {
    var rev := Reverse(m);
    assert IsMatrix(m) ==> MinLen(rev) == |m[0]| by {
      if IsMatrix(m) {
        assert forall j :: 0 <= j < |rev| ==> |rev[j]| == |m[0]|;
      }
    }
    Zip(rev)
  }

  /** Two quarter turns: a half turn, entry (i, j) comes from (R-1-i, C-1-j). */
  lemma RotatedTwice(m: Matrix)
    requires IsMatrix(m)
    ensures IsMatrix(Rotated(Rotated(m)))
    ensures |Rotated(Rotated(m))| == |m| && |Rotated(Rotated(m))[0]| == |m[0]|
    ensures forall i, j :: 0 <= i < |m| && 0 <= j < |m[0]| ==>
      Rotated(Rotated(m))[i][j] == m[|m| - 1 - i][|m[0]| - 1 - j]
  {
  }

  /** Four quarter turns give back the original shape, so the three extra turns
      that undo a blocked rotation restore the shape exactly. */
  lemma RotatedFourTimes(m: Matrix)
    requires IsMatrix(m)
    ensures Rotated(Rotated(Rotated(Rotated(m)))) == m
  {
    var r2 := Rotated(Rotated(m));
    var r4 := Rotated(Rotated(r2));
    RotatedTwice(m);
    RotatedTwice(r2);
    forall i | 0 <= i < |m| ensures r4[i] == m[i] {
      forall j | 0 <= j < |m[i]| ensures r4[i][j] == m[i][j] {
        assert r4[i][j] == r2[|m| - 1 - i][|m[0]| - 1 - j];
      }
    }
  }

  /** The image of a set of cells under a cell map. */
  function Image(s: set<Cell>, f: Cell -> Cell): set<Cell> {
    set p | p in s :: f(p)
  }

  /** A map that is one-to-one on a finite set keeps its size. */
  lemma {:induction false} InjectiveImageSize(s: set<Cell>, f: Cell -> Cell)
    requires forall p, q :: p in s && q in s && f(p) == f(q) ==> p == q
    ensures |Image(s, f)| == |s|
    decreases |s|
  {
    if s != {} {
      var x :| x in s;
      var rest := s - {x};
      InjectiveImageSize(rest, f);
      assert Image(s, f) == Image(rest, f) + {f(x)};
      assert f(x) !in Image(rest, f);
    }
  }

  /** Rotation moves the occupied cell (i, j) to (j, R-1-i) and creates no other. */
  lemma RotatedCells(m: Matrix)
    requires IsMatrix(m)
    ensures Cells(Rotated(m)) == Image(Cells(m), (p: Cell) => (p.1, |m| - 1 - p.0))
  {
    var r := Rotated(m);
    var f: Cell -> Cell := (p: Cell) => (p.1, |m| - 1 - p.0);
    forall q | q in Cells(r) ensures q in Image(Cells(m), f) {
      var (i, j) := q;
      assert (|m| - 1 - j, i) in Cells(m);
      assert f((|m| - 1 - j, i)) == q;
    }
    forall q | q in Image(Cells(m), f) ensures q in Cells(r) {
      var p :| p in Cells(m) && f(p) == q;
      var (a, b) := p;
      assert r[b][|m| - 1 - a] == m[a][b];
    }
  }

  /** Rotation is a bijection on cells: a piece keeps its number of blocks. */
  lemma RotatedKeepsCellCount(m: Matrix)
    requires IsMatrix(m)
    ensures |Cells(Rotated(m))| == |Cells(m)|
  {
    var f: Cell -> Cell := (p: Cell) => (p.1, |m| - 1 - p.0);
    RotatedCells(m);
    InjectiveImageSize(Cells(m), f);
  }

  /** The seven tetromino shapes: I, O, T, J, L, S and Z. */
  const SHAPES: seq<Matrix> := [
    [[1, 1, 1, 1]],
    [[1, 1], [1, 1]],
    [[0, 1, 0], [1, 1, 1]],
    [[1, 0, 0], [1, 1, 1]],
    [[0, 0, 1], [1, 1, 1]],
    [[1, 1, 0], [0, 1, 1]],
    [[0, 1, 1], [1, 1, 0]]
  ]

  /** Every catalog shape is a well-formed matrix of four blocks that fits on the board. */
  lemma CatalogShapesFit(k: nat)
    requires k < |SHAPES|
    ensures IsMatrix(SHAPES[k])
    ensures |SHAPES[k]| <= ROWS && |SHAPES[k][0]| <= COLUMNS
    ensures |Cells(SHAPES[k])| == 4
  {
    var s := SHAPES[k];
    if k == 0 { assert Cells(s) == {(0, 0), (0, 1), (0, 2), (0, 3)}; }
    else if k == 1 { assert Cells(s) == {(0, 0), (0, 1), (1, 0), (1, 1)}; }
    else if k == 2 { assert Cells(s) == {(0, 1), (1, 0), (1, 1), (1, 2)}; }
    else if k == 3 { assert Cells(s) == {(0, 0), (1, 0), (1, 1), (1, 2)}; }
    else if k == 4 { assert Cells(s) == {(0, 2), (1, 0), (1, 1), (1, 2)}; }
    else if k == 5 { assert Cells(s) == {(0, 0), (0, 1), (1, 1), (1, 2)}; }
    else { assert Cells(s) == {(0, 1), (0, 2), (1, 0), (1, 1)}; }
  }

  /** Column of a new piece's anchor: the board's midpoint less half the shape's width. */
  function SpawnColumn(shape: Matrix): int
    requires |shape| >= 1
  {
    COLUMNS / 2 - |shape[0]| / 2
  }

  /** A spawned shape that is no wider than the board lies within the walls, and
      its left and right margins differ by at most one column. */
  lemma SpawnCentered(shape: Matrix)
    requires |shape| >= 1 && |shape[0]| <= COLUMNS
    ensures 0 <= SpawnColumn(shape) && SpawnColumn(shape) + |shape[0]| <= COLUMNS
    ensures -1 <= (COLUMNS - SpawnColumn(shape) - |shape[0]|) - SpawnColumn(shape) <= 1
  {
  }

  /** The falling piece: its current shape, colour tag and anchor, the grid
      position of the shape's top-left entry. */
  class Piece {
    var shape: Matrix
    var color: int
    var x: int
    var y: int

    /** A new piece, anchored at the top row and centred horizontally. */
    constructor (shape: Matrix, color: int)
      requires |shape| >= 1
      ensures this.shape == shape && this.color == color
      ensures x == SpawnColumn(shape) && y == 0
    {
      this.shape := shape;
      this.color := color;
      x := COLUMNS / 2 - |shape[0]| / 2;
      y := 0;
    }

    /** Replaces the shape by its clockwise quarter turn; the anchor stays. */
    method Rotate()
      modifies this
      ensures shape == Rotated(old(shape))
      ensures color == old(color) && x == old(x) && y == old(y)
    {
      shape := Rotated(shape);
    }
  }
}
