/** The game step of the main loop: key-press intents, the gravity tick with
    freezing, row clearing, spawning and game-over detection, and the
    accumulated fall time. */
module Tetris {
  import opened Config
  import opened Pieces
  import opened Boards

  /** The key presses the game reacts to: left, right, down and up arrows. */
  datatype Intent = MoveLeft | MoveRight | SoftDrop | Rotate

  /** The part of a piece that intents change: its shape and its anchor. */
  datatype Pose = Pose(shape: Matrix, x: int, y: int)

  /** Where an intent tries to put the piece, before the collision test. */
  function Target(p: Pose, intent: Intent): (t: Pose)
    ensures t.y >= p.y
    ensures intent != Rotate ==>
      t.shape == p.shape && (t.x - p.x) * (t.x - p.x) + (t.y - p.y) * (t.y - p.y) == 1
    ensures intent == Rotate ==>
      t.x == p.x && t.y == p.y && (IsMatrix(p.shape) ==> IsMatrix(t.shape))
  {
    match intent
    case MoveLeft => p.(x := p.x - 1)
    case MoveRight => p.(x := p.x + 1)
    case SoftDrop => p.(y := p.y + 1)
    case Rotate => p.(shape := Rotated(p.shape))
  }

  /** The effect of one intent: the target pose if it does not collide,
      otherwise the pose is left as it was. */
  function Step(g: Grid, p: Pose, intent: Intent): (q: Pose)
    requires IsGrid(g) && p.y >= 0
    ensures q == p || q == Target(p, intent)
    ensures q.y >= 0
    ensures Target(p, intent) != p ==>
      (q == Target(p, intent) <==>
        !Collides(g, Target(p, intent).shape, Target(p, intent).x, Target(p, intent).y))
    ensures !Collides(g, p.shape, p.x, p.y) ==> !Collides(g, q.shape, q.x, q.y)
  {
    var t := Target(p, intent);
    if Collides(g, t.shape, t.x, t.y) then p else t
  }

  /** The effect of the intents of one frame, applied in order. */
  function Steps(g: Grid, p: Pose, intents: seq<Intent>): (q: Pose)
    requires IsGrid(g) && p.y >= 0
    ensures q.y >= p.y
    decreases intents
  {
    if intents == [] then p
    else Steps(g, Step(g, p, intents[0]), intents[1..])
  }

  /** A translation moves the piece by exactly one cell in its direction or
      leaves it where it is; the shape never changes. */
  lemma StepTranslatesByOne(g: Grid, p: Pose, intent: Intent)
    requires IsGrid(g) && p.y >= 0 && intent != Rotate
    ensures var q := Step(g, p, intent);
      q.shape == p.shape &&
      (q == p || (intent == MoveLeft && q.x == p.x - 1 && q.y == p.y)
              || (intent == MoveRight && q.x == p.x + 1 && q.y == p.y)
              || (intent == SoftDrop && q.x == p.x && q.y == p.y + 1))
  {
  }

  /** A piece that does not collide still does not after any intent; the shape
      stays well formed and the same number of blocks. */
  lemma StepKeepsPieceFree(g: Grid, p: Pose, intent: Intent)
    requires IsGrid(g) && p.y >= 0 && IsMatrix(p.shape)
    requires !Collides(g, p.shape, p.x, p.y)
    ensures var q := Step(g, p, intent);
      q.y >= 0 && IsMatrix(q.shape) && !Collides(g, q.shape, q.x, q.y) &&
      |Cells(q.shape)| == |Cells(p.shape)|
  {
    if intent == Rotate {
      RotatedKeepsCellCount(p.shape);
    }
  }

  /** A frame's intents keep a free piece free and keep its number of blocks. */
  lemma {:induction false} StepsKeepPieceFree(g: Grid, p: Pose, intents: seq<Intent>)
    requires IsGrid(g) && p.y >= 0 && IsMatrix(p.shape)
    requires !Collides(g, p.shape, p.x, p.y)
    ensures var q := Steps(g, p, intents);
      IsMatrix(q.shape) && !Collides(g, q.shape, q.x, q.y) &&
      |Cells(q.shape)| == |Cells(p.shape)|
    decreases intents
  {
    if intents != [] {
      StepKeepsPieceFree(g, p, intents[0]);
      StepsKeepPieceFree(g, Step(g, p, intents[0]), intents[1..]);
    }
  }

  /** Gravity is due once more than FALL_INTERVAL_MS milliseconds have
      accumulated: the integer form of `fall_time / 1000 > 0.5`. */
  predicate GravityDue(fallTime: int)
    ensures GravityDue(fallTime) <==> (fallTime as real) / 1000.0 > 0.5
  {
    fallTime > FALL_INTERVAL_MS
  }

  /** A catalog shape spawned at its anchor lies on the board. */
  lemma SpawnInBounds(k: nat)
    requires k < |SHAPES|
    ensures InBounds(SHAPES[k], SpawnColumn(SHAPES[k]), 0)
  {
  }

  /** On an empty board the I piece spawns at column 3 and can fall through
      every row down to the last one; one row lower it hits the floor. */
  lemma IPieceFallsToFloor()
    ensures SpawnColumn(SHAPES[0]) == 3
    ensures forall y :: 0 <= y < ROWS ==> !Collides(EmptyRows(ROWS), SHAPES[0], 3, y)
    ensures Collides(EmptyRows(ROWS), SHAPES[0], 3, ROWS)
  {
    forall y | 0 <= y < ROWS ensures !Collides(EmptyRows(ROWS), SHAPES[0], 3, y) {
      EmptyBoardNoCollision(SHAPES[0], 3, y);
    }
    assert SHAPES[0][0][0] != 0 && Blocked(EmptyRows(ROWS), ROWS + 0, 3 + 0);
  }

  /** The game state held by the main loop: the board, the falling piece, the
      game-over flag and the accumulated fall time in milliseconds. */
  class Game {
    var board: Board
    var piece: Piece
    var gameOver: bool
    var fallTime: nat

    /** While the game is running, the falling piece never collides. */
    ghost predicate Valid()
      reads this, board, piece
    {
      board.Valid() && IsMatrix(piece.shape) && piece.y >= 0 &&
      1 <= piece.color <= PALETTE_SIZE &&
      (!gameOver ==> !Collides(board.grid, piece.shape, piece.x, piece.y))
    }

    /** The pose of the falling piece. */
    ghost function PieceAt(): Pose
      reads this, piece
    {
      Pose(piece.shape, piece.x, piece.y)
    }

    /** A new game: an empty board and a first piece of the given catalog shape
        and palette entry, which never collides. */
    constructor (shapeIndex: nat, colorIndex: nat)
      requires shapeIndex < |SHAPES| && colorIndex < PALETTE_SIZE
      ensures Valid() && fresh(board) && fresh(piece)
      ensures board.grid == EmptyRows(ROWS)
      ensures piece.shape == SHAPES[shapeIndex] && piece.color == colorIndex + 1
      ensures piece.x == SpawnColumn(SHAPES[shapeIndex]) && piece.y == 0
      ensures !gameOver && fallTime == 0
    {
      var b := new Board();
      CatalogShapesFit(shapeIndex);
      var p := new Piece(SHAPES[shapeIndex], colorIndex + 1);
      SpawnInBounds(shapeIndex);
      EmptyBoardNoCollision(p.shape, p.x, p.y);
      board := b;
      piece := p;
      gameOver := false;
      fallTime := 0;
    }

    /** One key press. Unless the game is over, the piece is moved or rotated
        and the move is undone if the result collides (a blocked rotation is
        undone by three more quarter turns). */
    method ApplyIntent(intent: Intent)
      requires Valid()
      modifies piece
      ensures Valid()
      ensures board.grid == old(board.grid) && piece.color == old(piece.color)
      ensures gameOver == old(gameOver) && fallTime == old(fallTime)
      ensures old(gameOver) ==> PieceAt() == old(PieceAt())
      ensures !old(gameOver) ==> PieceAt() == Step(old(board.grid), old(PieceAt()), intent)
    {
      if !gameOver {
        ghost var before := PieceAt();
        var hit: bool;
        match intent
        case MoveLeft =>
          piece.x := piece.x - 1;
          hit := CheckCollision(board.grid, piece);
          if hit { piece.x := piece.x + 1; }
        case MoveRight =>
          piece.x := piece.x + 1;
          hit := CheckCollision(board.grid, piece);
          if hit { piece.x := piece.x - 1; }
        case SoftDrop =>
          piece.y := piece.y + 1;
          hit := CheckCollision(board.grid, piece);
          if hit { piece.y := piece.y - 1; }
        case Rotate =>
          piece.Rotate();
          hit := CheckCollision(board.grid, piece);
          if hit {
            piece.Rotate();
            piece.Rotate();
            piece.Rotate();
            RotatedFourTimes(before.shape);
          }
        StepKeepsPieceFree(board.grid, before, intent);
      }
    }

    /** The gravity tick. Once the fall time is due it is reset to zero and the
        piece falls one row; if that collides the piece stays, is frozen into
        the board, full rows are cleared, a piece of the given catalog shape and
        palette entry is spawned, and the game is over exactly when the new
        piece collides. */
    method Gravity(shapeIndex: nat, colorIndex: nat)
      requires Valid() && shapeIndex < |SHAPES| && colorIndex < PALETTE_SIZE
      modifies this, board, piece
      ensures Valid() && board == old(board)
      ensures old(gameOver) || !GravityDue(old(fallTime)) ==>
        piece == old(piece) && PieceAt() == old(PieceAt()) && piece.color == old(piece.color) &&
        board.grid == old(board.grid) && gameOver == old(gameOver) && fallTime == old(fallTime)
      ensures !old(gameOver) && GravityDue(old(fallTime)) ==> fallTime == 0
      ensures (!old(gameOver) && GravityDue(old(fallTime)) &&
        !Collides(old(board.grid), old(piece.shape), old(piece.x), old(piece.y) + 1)) ==>
        piece == old(piece) && PieceAt() == old(PieceAt()).(y := old(piece.y) + 1) &&
        piece.color == old(piece.color) && board.grid == old(board.grid) && !gameOver
      ensures (!old(gameOver) && GravityDue(old(fallTime)) &&
        Collides(old(board.grid), old(piece.shape), old(piece.x), old(piece.y) + 1)) ==>
        fresh(piece) &&
        board.grid == Cleared(Frozen(old(board.grid), old(piece.shape), old(piece.x), old(piece.y), old(piece.color))) &&
        piece.shape == SHAPES[shapeIndex] && piece.color == colorIndex + 1 &&
        piece.x == SpawnColumn(SHAPES[shapeIndex]) && piece.y == 0 &&
        gameOver == Collides(board.grid, piece.shape, piece.x, piece.y)
    {
      if !gameOver && fallTime > FALL_INTERVAL_MS {
        Tick(shapeIndex, colorIndex);
      }
    }

    /** The body of a due gravity tick: the piece tries to fall one row; if
        that collides it is put back and lands; the fall time is reset. */
    method Tick(shapeIndex: nat, colorIndex: nat)
      requires Valid() && !gameOver && shapeIndex < |SHAPES| && colorIndex < PALETTE_SIZE
      modifies this, board, piece
      ensures Valid() && board == old(board) && fallTime == 0
      ensures !Collides(old(board.grid), old(piece.shape), old(piece.x), old(piece.y) + 1) ==>
        piece == old(piece) && PieceAt() == old(PieceAt()).(y := old(piece.y) + 1) &&
        piece.color == old(piece.color) && board.grid == old(board.grid) && !gameOver
      ensures Collides(old(board.grid), old(piece.shape), old(piece.x), old(piece.y) + 1) ==>
        fresh(piece) &&
        board.grid == Cleared(Frozen(old(board.grid), old(piece.shape), old(piece.x), old(piece.y), old(piece.color))) &&
        piece.shape == SHAPES[shapeIndex] && piece.color == colorIndex + 1 &&
        piece.x == SpawnColumn(SHAPES[shapeIndex]) && piece.y == 0 &&
        gameOver == Collides(board.grid, piece.shape, piece.x, piece.y)
    {
      piece.y := piece.y + 1;
      var hit := CheckCollision(board.grid, piece);
      if hit {
        piece.y := piece.y - 1;
        Settle(shapeIndex, colorIndex);
      }
      fallTime := 0;
    }

    /** The landing half of the gravity tick: the piece is frozen into the
        board where it stands, full rows are cleared, a piece of the given
        catalog shape and palette entry is spawned, and the game is over exactly
        when the new piece collides. */
    method Settle(shapeIndex: nat, colorIndex: nat)
      requires Valid() && !gameOver && shapeIndex < |SHAPES| && colorIndex < PALETTE_SIZE
      modifies this, board
      ensures Valid() && board == old(board) && fresh(piece) && fallTime == old(fallTime)
      ensures board.grid == Cleared(Frozen(old(board.grid), old(piece.shape), old(piece.x), old(piece.y), old(piece.color)))
      ensures piece.shape == SHAPES[shapeIndex] && piece.color == colorIndex + 1
      ensures piece.x == SpawnColumn(SHAPES[shapeIndex]) && piece.y == 0
      ensures gameOver == Collides(board.grid, piece.shape, piece.x, piece.y)
    {
      FitsOnEmptyCells(board.grid, piece.shape, piece.x, piece.y);
      board.Freeze(piece);
      var cleared := board.ClearRows();
      CatalogShapesFit(shapeIndex);
      piece := new Piece(SHAPES[shapeIndex], colorIndex + 1);
      var over := CheckCollision(board.grid, piece);
      if over {
        gameOver := true;
      }
    }

    /** One pass of the main loop: the elapsed milliseconds are added to the
        fall time, then, unless the game is over, the frame's key presses are
        applied in order and gravity gets its chance (with the catalog shape and
        palette entry a spawn in this frame would use). */
    method Frame(elapsed: nat, intents: seq<Intent>, shapeIndex: nat, colorIndex: nat)
      requires Valid() && shapeIndex < |SHAPES| && colorIndex < PALETTE_SIZE
      modifies this, board, piece
      ensures Valid() && board == old(board)
      ensures old(gameOver) ==>
        gameOver && piece == old(piece) && PieceAt() == old(PieceAt()) &&
        piece.color == old(piece.color) && board.grid == old(board.grid) &&
        fallTime == old(fallTime) + elapsed
      ensures !old(gameOver) && !GravityDue(old(fallTime) + elapsed) ==>
        !gameOver && piece == old(piece) && piece.color == old(piece.color) &&
        PieceAt() == Steps(old(board.grid), old(PieceAt()), intents) &&
        board.grid == old(board.grid) && fallTime == old(fallTime) + elapsed
      ensures !old(gameOver) && GravityDue(old(fallTime) + elapsed) ==> fallTime == 0
    {
      fallTime := fallTime + elapsed;
      if !gameOver {
        ghost var start := PieceAt();
        var k := 0;
        while k < |intents|
          invariant 0 <= k <= |intents|
          invariant Valid() && !gameOver
          invariant board == old(board) && piece == old(piece)
          invariant board.grid == old(board.grid) && piece.color == old(piece.color)
          invariant fallTime == old(fallTime) + elapsed
          invariant start.y >= 0
          invariant Steps(board.grid, start, intents) == Steps(board.grid, PieceAt(), intents[k..])
          modifies piece
        {
          ApplyIntent(intents[k]);
          assert intents[k..][1..] == intents[k + 1..];
          k := k + 1;
        }
        Gravity(shapeIndex, colorIndex);
      }
    }
  }
}
