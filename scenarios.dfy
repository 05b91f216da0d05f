/** Worked examples of the engine on concrete boards. */
module Scenarios {
  import opened Cells
  import opened Pieces
  import opened Board
  import opened Engine

  /** The square piece falls from the spawn row to row 18 of an empty board and
      is blocked one row further down. */
  lemma SquareFallsToFloor()
    ensures forall y :: 0 <= y <= 18 ==> Fits(CreateGrid(), Tetrominos()[4], Pos(4, y))
    ensures !Fits(CreateGrid(), Tetrominos()[4], Pos(4, 19))
  {
    var o := Tetrominos()[4];
    forall y | 0 <= y <= 18
      ensures Fits(CreateGrid(), o, Pos(4, y))
    {
      FitsOnEmptyGrid(o, Pos(4, y));
    }
    assert o[1][0] != 0 && !CellFree(CreateGrid(), 19 + 1, 4 + 0);
  }

  /** The square drawn at row 18, column 4 of the empty board. */
  lemma SquareStampedAtBottom(r: int, c: int)
    requires 0 <= r < ROWS && 0 <= c < COLS
    ensures InBounds(CreateGrid(), Tetrominos()[4], Pos(4, 18))
    ensures Stamp(CreateGrid(), Tetrominos()[4], Pos(4, 18))[r][c] == if 18 <= r && 4 <= c <= 5 then 1 else 0
  {
    var o := Tetrominos()[4];
    assert o == [[1, 1], [1, 1]];
    StampAt(CreateGrid(), o, Pos(4, 18), r, c);
    if 18 <= r && 4 <= c <= 5 {
      assert Covers(o, Pos(4, 18), r, c);
    } else {
      assert !Covers(o, Pos(4, 18), r, c);
    }
  }

  /** The square locked at row 18 of the empty board leaves exactly rows
      18-19, columns 4-5 occupied; no row is full, so nothing is cleared. */
  lemma SquareLocksAtBottom()
    ensures InBounds(CreateGrid(), Tetrominos()[4], Pos(4, 18))
    ensures var merged := Stamp(CreateGrid(), Tetrominos()[4], Pos(4, 18));
      |NonFullRows(merged)| <= ROWS &&
      var board := RemoveFullRows(merged);
      IsGrid(board) &&
      forall r, c :: 0 <= r < ROWS && 0 <= c < COLS ==>
        board[r][c] == if 18 <= r && 4 <= c <= 5 then 1 else 0
  {
    SquareStampedAtBottom(0, 0);
    var merged := Stamp(CreateGrid(), Tetrominos()[4], Pos(4, 18));
    forall r | 0 <= r < ROWS
      ensures !IsFull(merged[r])
    {
      SquareStampedAtBottom(r, 0);
    }
    RemoveFullRowsNoneFull(merged);
    forall r, c | 0 <= r < ROWS && 0 <= c < COLS
      ensures merged[r][c] == if 18 <= r && 4 <= c <= 5 then 1 else 0
    {
      SquareStampedAtBottom(r, c);
    }
  }

  /** Drives a game: the square piece is dropped on the empty board until it
      locks; the board then holds exactly rows 18-19, columns 4-5. */
  method DropSquare() returns (board: Matrix)
    ensures IsGrid(board)
    ensures forall r, c :: 0 <= r < ROWS && 0 <= c < COLS ==>
      board[r][c] == if 18 <= r && 4 <= c <= 5 then 1 else 0
  {
    SquareFallsToFloor();
    SquareLocksAtBottom();
    var game := new Game(4);
    var steps := 0;
    while steps < 18
      invariant 0 <= steps <= 18
      invariant game.Valid()
      invariant game.grid == CreateGrid() && game.shape == Tetrominos()[4] && game.pos == Pos(4, steps)
    {
      game.MoveDown(0);
      steps := steps + 1;
    }
    game.MoveDown(0);
    board := game.grid;
  }

  /** The I piece lying flat at the left wall cannot move further left. */
  lemma BarBlockedByLeftWall()
    ensures Fits(CreateGrid(), Tetrominos()[0], Pos(0, 0))
    ensures !Fits(CreateGrid(), Tetrominos()[0], Pos(-1, 0))
  {
    FitsOnEmptyGrid(Tetrominos()[0], Pos(0, 0));
    assert Tetrominos()[0][0][0] != 0 && !CellFree(CreateGrid(), 0, -1);
  }

  /** Four quarter turns of the T piece give back the T piece. */
  lemma TFourTurns()
    ensures Rotated(Rotated(Rotated(Rotated(Tetrominos()[1])))) == Tetrominos()[1]
  {
    RotatedFourTimes(Tetrominos()[1]);
  }

  /** The bottom row full except its first cell. */
  function AlmostFullBottom(): (g: Matrix)
    ensures IsGrid(g)
  {
    CreateGrid()[ROWS - 1 := seq(COLS, c => if c == 0 then 0 else 1)]
  }

  /** The bar turned upright is one column of four cells. */
  lemma UprightBar()
    ensures Rotated(Tetrominos()[0]) == [[1], [1], [1], [1]]
  {
    var bar := Rotated(Tetrominos()[0]);
    assert |bar| == 4;
    forall i | 0 <= i < 4
      ensures bar[i] == [1]
    {
      assert |bar[i]| == 1 && bar[i][0] == 1;
    }
  }

  /** The upright bar rests on the full part of the bottom row, in its gap. */
  lemma UprightBarRestsInGap()
    ensures Fits(AlmostFullBottom(), [[1], [1], [1], [1]], Pos(0, 16))
    ensures !Fits(AlmostFullBottom(), [[1], [1], [1], [1]], Pos(0, 17))
  {
    var g := AlmostFullBottom();
    var bar: Matrix := [[1], [1], [1], [1]];
    forall oy, ox | 0 <= oy < |bar| && 0 <= ox < |bar[oy]| && bar[oy][ox] != 0
      ensures CellFree(g, 16 + oy, 0 + ox)
    {
      assert ox == 0 && g[16 + oy][0] == EMPTY_CELL;
    }
    assert bar[3][0] != 0 && !CellFree(g, 17 + 3, 0 + 0);
  }

  /** Drawing the upright bar into the gap completes the bottom row only. */
  lemma UprightBarCompletesBottomRow()
    ensures InBounds(AlmostFullBottom(), [[1], [1], [1], [1]], Pos(0, 16))
    ensures var merged := Stamp(AlmostFullBottom(), [[1], [1], [1], [1]], Pos(0, 16));
      IsGrid(merged) && IsFull(merged[ROWS - 1]) &&
      forall r :: 0 <= r < ROWS - 1 ==> !IsFull(merged[r])
  {
    var g, bar, p := AlmostFullBottom(), [[1], [1], [1], [1]], Pos(0, 16);
    UprightBarRestsInGap();
    var merged := Stamp(g, bar, p);
    var bottom := merged[ROWS - 1];
    forall c | 0 <= c < COLS
      ensures bottom[c] != EMPTY_CELL
    {
      StampAt(g, bar, p, ROWS - 1, c);
    }
    assert IsFull(bottom);
    forall r | 0 <= r < ROWS - 1
      ensures !IsFull(merged[r])
    {
      StampAt(g, bar, p, r, 1);
      assert merged[r][1] == EMPTY_CELL;
    }
  }

  /** Dropping the upright I piece into the gap of an almost full bottom row
      completes that row; clearing removes it, moves the rows above down by
      one and adds an empty row at the top. */
  lemma FillingTheGapClearsTheRow()
    ensures var bar := Rotated(Tetrominos()[0]);
      var g := AlmostFullBottom();
      Fits(g, bar, Pos(0, 16)) &&
      !Fits(g, bar, Pos(0, 17)) &&
      |NonFullRows(Stamp(g, bar, Pos(0, 16)))| <= ROWS &&
      RemoveFullRows(Stamp(g, bar, Pos(0, 16))) == EmptyRows(1) + Stamp(g, bar, Pos(0, 16))[..ROWS - 1]
  {
    UprightBar();
    UprightBarRestsInGap();
    UprightBarCompletesBottomRow();
    var merged := Stamp(AlmostFullBottom(), [[1], [1], [1], [1]], Pos(0, 16));
    RemoveSingleFullRow(merged, ROWS - 1);
    assert merged[ROWS..] == [];
  }

  // ---------------------------------------------------------------------
  // The piece painted into the stored board, as the effect at
  // src/App.js:148-152 does after every move

  /** A shape painted into the board at p blocks its own step down whenever
      column j is occupied in both of its first two rows: the moved cell
      (0, j) lands on the painted cell (1, j). */
  lemma PaintedPieceBlocksItself(g: Matrix, s: Matrix, p: Pos, j: nat)
    requires InBounds(g, s, p)
    requires |s| > 1 && j < |s[0]| && j < |s[1]| && s[0][j] != 0 && s[1][j] != 0
    ensures !Fits(Stamp(g, s, p), s, Pos(p.x, p.y + 1))
  {
    StampWritesShape(g, s, p, 1, j);
    assert !CellFree(Stamp(g, s, p), p.y + 1 + 0, p.x + j);
  }

  /** With the falling piece painted into the empty board at the spawn
      position, every shape taller than one row is blocked one row lower, so
      the first gravity step locks it at the spawn position. */
  lemma PaintedPiecesLockAtSpawn()
    ensures forall k :: 1 <= k < |Tetrominos()| ==>
      InBounds(CreateGrid(), Tetrominos()[k], SPAWN) &&
      !Fits(Stamp(CreateGrid(), Tetrominos()[k], SPAWN), Tetrominos()[k], Pos(4, 1))
  {
    forall k | 1 <= k < |Tetrominos()|
      ensures InBounds(CreateGrid(), Tetrominos()[k], SPAWN)
      ensures !Fits(Stamp(CreateGrid(), Tetrominos()[k], SPAWN), Tetrominos()[k], Pos(4, 1))
    {
      var g := CreateGrid();
      SpawnInBounds(g, k);
      if k == 1 { PaintedPieceBlocksItself(g, Tetrominos()[1], SPAWN, 1); }
      else if k == 2 { PaintedPieceBlocksItself(g, Tetrominos()[2], SPAWN, 0); }
      else if k == 3 { PaintedPieceBlocksItself(g, Tetrominos()[3], SPAWN, 2); }
      else if k == 4 { PaintedPieceBlocksItself(g, Tetrominos()[4], SPAWN, 0); }
      else if k == 5 { PaintedPieceBlocksItself(g, Tetrominos()[5], SPAWN, 1); }
      else { PaintedPieceBlocksItself(g, Tetrominos()[6], SPAWN, 0); }
    }
  }

  /** A shape painted into the board at p blocks its own shift by dx columns
      when cells j and j - dx of its first row are both occupied: the moved
      cell (0, j - dx) lands on the painted cell (0, j). */
  lemma PaintedRowBlocksSlide(g: Matrix, s: Matrix, p: Pos, j: nat, dx: int)
    requires InBounds(g, s, p) && |s| > 0
    requires j < |s[0]| && 0 <= j - dx < |s[0]| && s[0][j] != 0 && s[0][j - dx] != 0
    ensures !Fits(Stamp(g, s, p), s, Pos(p.x + dx, p.y))
  {
    StampWritesShape(g, s, p, 0, j);
    assert !CellFree(Stamp(g, s, p), p.y + 0, p.x + dx + (j - dx));
  }

  /** With the flat bar painted into the empty board at the spawn position,
      it cannot move one column left or right. */
  lemma PaintedBarCannotSlide()
    ensures InBounds(CreateGrid(), Tetrominos()[0], SPAWN)
    ensures !Fits(Stamp(CreateGrid(), Tetrominos()[0], SPAWN), Tetrominos()[0], Pos(3, 0))
    ensures !Fits(Stamp(CreateGrid(), Tetrominos()[0], SPAWN), Tetrominos()[0], Pos(5, 0))
  {
    SpawnInBounds(CreateGrid(), 0);
    PaintedRowBlocksSlide(CreateGrid(), Tetrominos()[0], SPAWN, 0, -1);
    PaintedRowBlocksSlide(CreateGrid(), Tetrominos()[0], SPAWN, 3, 1);
  }
}
