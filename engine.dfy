/** The piece controller: the committed board, the falling piece's shape and
    its position, and the moves that change them. */
module Engine {
  import opened Cells
  import opened Pieces
  import opened Board

  /** Where every new piece appears. */
  const SPAWN: Pos := Pos(4, 0)

  /** Every shape constant lies on any board at the spawn position. */
  lemma SpawnInBounds(g: Matrix, k: nat)
    requires IsGrid(g) && k < |Tetrominos()|
    ensures InBounds(g, Tetrominos()[k], SPAWN)
  {
    var s := Tetrominos()[k];
    assert |s| <= 3 && |s[0]| <= 4 && (|s| > 1 ==> |s[0]| <= 3);
  }

  /** Every shape constant fits at the spawn position of the initial board. */
  lemma SpawnFitsOnEmptyGrid(k: nat)
    requires k < |Tetrominos()|
    ensures Fits(CreateGrid(), Tetrominos()[k], SPAWN)
  {
    SpawnInBounds(CreateGrid(), k);
    FitsOnEmptyGrid(Tetrominos()[k], SPAWN);
  }

  /** Locking a 0/1 piece that lies on a 0/1 board gives a 0/1 board on which
      every shape constant lies at the spawn position; when the piece fitted,
      the board gains its cells and loses COLS cells per cleared row. */
  lemma LockKeepsInvariant(g: Matrix, s: Matrix, p: Pos, k: nat)
    requires IsGrid(g) && IsBinary(g) && IsBinary(s) && InBounds(g, s, p)
    requires k < |Tetrominos()|
    ensures IsGrid(Stamp(g, s, p)) && |NonFullRows(Stamp(g, s, p))| <= ROWS
    ensures var next := RemoveFullRows(Stamp(g, s, p));
      IsGrid(next) && IsBinary(next) &&
      IsShape(Tetrominos()[k]) && IsBinary(Tetrominos()[k]) && Count(Tetrominos()[k]) == 4 &&
      InBounds(next, Tetrominos()[k], SPAWN) &&
      (Fits(g, s, p) ==> Count(next) == Count(g) + Count(s) - COLS * FullCount(Stamp(g, s, p)))
  {
    var merged := Stamp(g, s, p);
    StampBinary(g, s, p);
    RemoveFullRowsShape(merged);
    RemoveFullRowsBinary(merged);
    RemoveFullRowsCount(merged);
    if Fits(g, s, p) {
      StampCount(g, s, p);
    }
    SpawnInBounds(RemoveFullRows(merged), k);
  }

  /** The game state. The falling piece is kept apart from the committed
      board until it locks. */
  class Game {
    var grid: Matrix
    var shape: Matrix
    var pos: Pos

    /** The board is ROWS x COLS of 0/1 cells and the piece is a 0/1 shape of
        four cells that lies on the board (it may overlap occupied cells only
        right after a spawn, which the game never checks). */
    ghost predicate Valid()
      reads this
    {
      IsGrid(grid) && IsBinary(grid) &&
      IsShape(shape) && IsBinary(shape) && Count(shape) == 4 &&
      InBounds(grid, shape, pos)
    }

    /** A new game: the empty board and shape firstIdx at the spawn position. */
    constructor (firstIdx: nat)
      requires firstIdx < |Tetrominos()|
      ensures Valid()
      ensures grid == CreateGrid() && shape == Tetrominos()[firstIdx] && pos == SPAWN
      ensures Fits(grid, shape, pos)
    {
      grid := CreateGrid();
      shape := Tetrominos()[firstIdx];
      pos := SPAWN;
      SpawnFitsOnEmptyGrid(firstIdx);
    }

    /** Shifts the piece dx columns if it fits there; otherwise nothing changes. */
    method Move(dx: int)
      requires Valid()
      modifies this
      ensures Valid()
      ensures grid == old(grid) && shape == old(shape)
      ensures var target := Pos(old(pos).x + dx, old(pos).y);
        pos == if Fits(grid, shape, target) then target else old(pos)
      ensures pos != old(pos) ==> Fits(grid, shape, pos)
    {
      var newPosition := Pos(pos.x + dx, pos.y);
      var ok := IsValidMove(grid, shape, newPosition);
      if ok {
        pos := newPosition;
      }
    }

    /** One gravity step. If the piece fits one row lower it moves there.
        Otherwise it locks: it is drawn into the board at its current
        position, full rows are cleared, and shape nextIdx appears at the
        spawn position. */
    method MoveDown(nextIdx: nat)
      requires Valid() && nextIdx < |Tetrominos()|
      modifies this
      ensures Valid()
      ensures var below := Pos(old(pos).x, old(pos).y + 1);
        if Fits(old(grid), old(shape), below) then
          grid == old(grid) && shape == old(shape) && pos == below
        else
          InBounds(old(grid), old(shape), old(pos)) &&
          |NonFullRows(Stamp(old(grid), old(shape), old(pos)))| <= ROWS &&
          grid == RemoveFullRows(Stamp(old(grid), old(shape), old(pos))) &&
          shape == Tetrominos()[nextIdx] && pos == SPAWN
      ensures !Fits(old(grid), old(shape), Pos(old(pos).x, old(pos).y + 1)) &&
              Fits(old(grid), old(shape), old(pos)) ==>
        Count(grid) == Count(old(grid)) + 4 - COLS * FullCount(Stamp(old(grid), old(shape), old(pos)))
    {
      var newPosition := Pos(pos.x, pos.y + 1);
      var ok := IsValidMove(grid, shape, newPosition);
      if ok {
        pos := newPosition;
      } else {
        var merged := DrawTetromino(grid, shape, pos);
        LockKeepsInvariant(grid, shape, pos, nextIdx);
        grid := RemoveFullRows(merged);
        shape := Tetrominos()[nextIdx];
        pos := SPAWN;
      }
    }

    /** Turns the piece a quarter turn clockwise if the turned shape fits at
        the current position; otherwise nothing changes. */
    method Rotate()
      requires Valid()
      modifies this
      ensures Valid()
      ensures grid == old(grid) && pos == old(pos)
      ensures shape == if Fits(grid, Rotated(old(shape)), pos) then Rotated(old(shape)) else old(shape)
      ensures shape != old(shape) ==> Fits(grid, shape, pos)
    {
      var rotated := Rotated(shape);
      var ok := IsValidMove(grid, rotated, pos);
      if ok {
        RotatedBinary(shape);
        RotatedCount(shape);
        shape := rotated;
      }
    }

    /** Key dispatch: left arrow (37), right arrow (39), down arrow (40) and
        space (32); every other key does nothing. */
    method HandleKeyDown(keyCode: int, nextIdx: nat)
      requires Valid() && nextIdx < |Tetrominos()|
      modifies this
      ensures Valid()
      ensures keyCode !in {37, 39, 40, 32} ==>
        grid == old(grid) && shape == old(shape) && pos == old(pos)
      ensures keyCode == 37 || keyCode == 39 ==>
        var target := Pos(old(pos).x + (if keyCode == 37 then -1 else 1), old(pos).y);
        grid == old(grid) && shape == old(shape) &&
        pos == if Fits(grid, shape, target) then target else old(pos)
      ensures keyCode == 40 ==>
        var below := Pos(old(pos).x, old(pos).y + 1);
        if Fits(old(grid), old(shape), below) then
          grid == old(grid) && shape == old(shape) && pos == below
        else
          InBounds(old(grid), old(shape), old(pos)) &&
          |NonFullRows(Stamp(old(grid), old(shape), old(pos)))| <= ROWS &&
          grid == RemoveFullRows(Stamp(old(grid), old(shape), old(pos))) &&
          shape == Tetrominos()[nextIdx] && pos == SPAWN
      ensures keyCode == 32 ==>
        grid == old(grid) && pos == old(pos) &&
        shape == if Fits(grid, Rotated(old(shape)), pos) then Rotated(old(shape)) else old(shape)
    {
      match keyCode {
        case 37 => Move(-1);
        case 39 => Move(1);
        case 40 => MoveDown(nextIdx);
        case 32 => Rotate();
        case _ =>
      }
    }
  }
}
