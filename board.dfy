/** The grid store: the committed ROWS x COLS board, the collision test,
    stamping a piece into a copy of the board and clearing full rows. */
module Board {
  import opened Cells

  const ROWS: nat := 20
  const COLS: nat := 10

  /** A grid coordinate: x is the column, y the row, (0, 0) the top left. */
  datatype Pos = Pos(x: int, y: int)

  /** ROWS rows of COLS cells each. */
  predicate IsGrid(g: Matrix)
  {
    |g| == ROWS && forall r :: 0 <= r < |g| ==> |g[r]| == COLS
  }

  /** n fresh rows of COLS empty cells. */
  function EmptyRows(n: nat): (m: Matrix)
    ensures |m| == n
    ensures forall r :: 0 <= r < n ==> |m[r]| == COLS && !IsFull(m[r])
    ensures forall r, c :: 0 <= r < n && 0 <= c < |m[r]| ==> m[r][c] == EMPTY_CELL
  {
    var m := seq(n, _ => seq(COLS, _ => 0));
    assert forall r :: 0 <= r < n ==> m[r][0] == EMPTY_CELL;
    m
  }

  /** The board at the start of a game. */
  function CreateGrid(): (g: Matrix)
    ensures IsGrid(g) && Count(g) == 0
    ensures forall r, c :: 0 <= r < ROWS && 0 <= c < COLS ==> g[r][c] == EMPTY_CELL
  {
    var g := EmptyRows(ROWS);
    forall r | 0 <= r < ROWS ensures RowCount(g[r]) == 0 {
      RowCountZeros(g[r]);
    }
    NoCellsCount(g);
    g
  }

  // ---------------------------------------------------------------------
  // Collision test

  /** Cell (r, c) exists on the board and is empty; a row or column out of
      range is never free. */
  predicate CellFree(g: Matrix, r: int, c: int)
  {
    0 <= r < |g| && 0 <= c < |g[r]| && g[r][c] == EMPTY_CELL
  }

  /** Every occupied offset of the shape, translated by p, lands on a free
      cell; so a shape that fits lies on the board. */
  predicate Fits(g: Matrix, s: Matrix, p: Pos): (ok: bool)
    ensures ok ==> InBounds(g, s, p)
  {
    forall oy, ox :: 0 <= oy < |s| && 0 <= ox < |s[oy]| && s[oy][ox] != 0 ==>
      CellFree(g, p.y + oy, p.x + ox)
  }

  /** Every occupied offset of the shape, translated by p, lies on the board. */
  predicate InBounds(g: Matrix, s: Matrix, p: Pos)
  {
    forall oy, ox :: 0 <= oy < |s| && 0 <= ox < |s[oy]| && s[oy][ox] != 0 ==>
      0 <= p.y + oy < |g| && 0 <= p.x + ox < |g[p.y + oy]|
  }

  /** The collision test: scans the shape row by row and stops at the first
      occupied offset that is off the board or on an occupied cell. */
  method IsValidMove(grid: Matrix, shape: Matrix, pos: Pos) returns (ok: bool)
    ensures ok <==> Fits(grid, shape, pos)
    ensures ok ==> InBounds(grid, shape, pos)
  {
    var y := 0;
    while y < |shape|
      invariant 0 <= y <= |shape|
      invariant forall oy, ox :: 0 <= oy < y && 0 <= ox < |shape[oy]| && shape[oy][ox] != 0 ==>
        CellFree(grid, pos.y + oy, pos.x + ox)
    {
      var x := 0;
      while x < |shape[y]|
        invariant 0 <= x <= |shape[y]|
        invariant forall ox :: 0 <= ox < x && shape[y][ox] != 0 ==> CellFree(grid, pos.y + y, pos.x + ox)
      {
        if shape[y][x] != 0 && !CellFree(grid, pos.y + y, pos.x + x) {
          return false;
        }
        x := x + 1;
      }
      y := y + 1;
    }
    return true;
  }

  /** On an empty board a shape fits exactly where it lies on the board. */
  lemma FitsOnEmptyGrid(s: Matrix, p: Pos)
    ensures Fits(CreateGrid(), s, p) <==> InBounds(CreateGrid(), s, p)
  {
  }

  // ---------------------------------------------------------------------
  // Stamping a piece

  /** Cell (r, c) of the board is under an occupied offset of the shape at p. */
  predicate Covers(s: Matrix, p: Pos, r: int, c: int)
  {
    0 <= r - p.y < |s| && 0 <= c - p.x < |s[r - p.y]| && s[r - p.y][c - p.x] != 0
  }

  /** The board with the shape drawn at p: covered cells take the shape's own
      cell value, every other cell keeps the board's. */
  function Stamp(g: Matrix, s: Matrix, p: Pos): (m: Matrix)
    requires InBounds(g, s, p)
    ensures |m| == |g| && forall r :: 0 <= r < |g| ==> |m[r]| == |g[r]|
  {
    seq(|g|, r requires 0 <= r < |g| =>
      seq(|g[r]|, c requires 0 <= c < |g[r]| =>
        if Covers(s, p, r, c) then s[r - p.y][c - p.x] else g[r][c]))
  }

  /** Each occupied offset of the shape lands at its place on the board with
      its own value. */
  lemma StampWritesShape(g: Matrix, s: Matrix, p: Pos, oy: nat, ox: nat)
    requires InBounds(g, s, p)
    requires oy < |s| && ox < |s[oy]| && s[oy][ox] != 0
    ensures 0 <= p.y + oy < |g| && 0 <= p.x + ox < |g[p.y + oy]|
    ensures Stamp(g, s, p)[p.y + oy][p.x + ox] == s[oy][ox]
  {
  }

  lemma StampAt(g: Matrix, s: Matrix, p: Pos, r: int, c: int)
    requires InBounds(g, s, p) && 0 <= r < |g| && 0 <= c < |g[r]|
    ensures Stamp(g, s, p)[r][c] == if Covers(s, p, r, c) then s[r - p.y][c - p.x] else g[r][c]
  {
  }

  /** Covered by the shape among the offsets (oy, ox) that come before (y, x)
      in row-major order. */
  predicate CoversBefore(s: Matrix, p: Pos, r: int, c: int, y: int, x: int)
  {
    Covers(s, p, r, c) && (r - p.y < y || (r - p.y == y && c - p.x < x))
  }

  /** Draws the shape into a copy of the board, writing each occupied offset's
      own value; the board passed in is a value and stays as it was. */
  method DrawTetromino(grid: Matrix, shape: Matrix, pos: Pos) returns (newGrid: Matrix)
    requires InBounds(grid, shape, pos)
    ensures |newGrid| == |grid| && forall r :: 0 <= r < |grid| ==> |newGrid[r]| == |grid[r]|
    ensures forall r, c :: 0 <= r < |grid| && 0 <= c < |grid[r]| ==>
      newGrid[r][c] == if Covers(shape, pos, r, c) then shape[r - pos.y][c - pos.x] else grid[r][c]
    ensures newGrid == Stamp(grid, shape, pos)
  {
    newGrid := grid;
    var y := 0;
    while y < |shape|
      invariant 0 <= y <= |shape|
      invariant |newGrid| == |grid| && forall r :: 0 <= r < |grid| ==> |newGrid[r]| == |grid[r]|
      invariant forall r, c :: 0 <= r < |grid| && 0 <= c < |grid[r]| ==>
        newGrid[r][c] == if CoversBefore(shape, pos, r, c, y, 0) then shape[r - pos.y][c - pos.x] else grid[r][c]
    {
      var x := 0;
      while x < |shape[y]|
        invariant 0 <= x <= |shape[y]|
        invariant |newGrid| == |grid| && forall r :: 0 <= r < |grid| ==> |newGrid[r]| == |grid[r]|
        invariant forall r, c :: 0 <= r < |grid| && 0 <= c < |grid[r]| ==>
          newGrid[r][c] == if CoversBefore(shape, pos, r, c, y, x) then shape[r - pos.y][c - pos.x] else grid[r][c]
      {
        if shape[y][x] != 0 {
          var row, col := pos.y + y, pos.x + x;
          newGrid := newGrid[row := newGrid[row][col := shape[y][x]]];
        }
        x := x + 1;
      }
      y := y + 1;
    }
    ghost var m := Stamp(grid, shape, pos);
    assert forall r :: 0 <= r < |grid| ==> newGrid[r] == m[r];
  }

  /** Drawing a 0/1 shape on a 0/1 board leaves a 0/1 board. */
  lemma StampBinary(g: Matrix, s: Matrix, p: Pos)
    requires InBounds(g, s, p) && IsBinary(g) && IsBinary(s)
    ensures IsBinary(Stamp(g, s, p))
  {
  }

  /** A shape that fits only writes over empty cells: every cell occupied
      before stays as it was, and every covered cell becomes occupied. */
  lemma FitsStampFillsEmpty(g: Matrix, s: Matrix, p: Pos)
    requires Fits(g, s, p)
    ensures InBounds(g, s, p)
    ensures forall r, c :: 0 <= r < |g| && 0 <= c < |g[r]| ==>
      (g[r][c] != EMPTY_CELL ==> Stamp(g, s, p)[r][c] == g[r][c]) &&
      (Covers(s, p, r, c) ==> g[r][c] == EMPTY_CELL && Stamp(g, s, p)[r][c] != EMPTY_CELL)
  {
  }

  /** Row r of the stamped board: the board's row plus the shape's row that
      lands on it, when the shape fits. */
  lemma StampRowCount(g: Matrix, s: Matrix, p: Pos, r: nat)
    requires Fits(g, s, p) && r < |g|
    ensures InBounds(g, s, p)
    ensures RowCount(Stamp(g, s, p)[r]) ==
      RowCount(g[r]) + if 0 <= r - p.y < |s| then RowCount(s[r - p.y]) else 0
  {
    var row := Stamp(g, s, p)[r];
    var piece: seq<int> := if 0 <= r - p.y < |s| then s[r - p.y] else [];
    var n := |g[r]|;
    var shifted := Shifted(Bits(piece), p.x, n);
    forall c | 0 <= c < n
      ensures Bits(row)[c] == Bits(g[r])[c] + shifted[c]
    {
      if Covers(s, p, r, c) {
        assert CellFree(g, p.y + (r - p.y), p.x + (c - p.x));
      }
    }
    SumPointwise(Bits(row), Bits(g[r]), shifted);
    forall i | 0 <= i < |piece| && Bits(piece)[i] != 0
      ensures 0 <= p.x + i < n
    {
      assert CellFree(g, p.y + (r - p.y), p.x + i);
    }
    SumShifted(Bits(piece), p.x, n);
    RowCountIsSum(row);
    RowCountIsSum(g[r]);
    RowCountIsSum(piece);
  }

  /** Drawing a shape that fits adds exactly the shape's occupied cells: none
      lands on an occupied cell and none falls off the board. */
  lemma StampCount(g: Matrix, s: Matrix, p: Pos)
    requires Fits(g, s, p)
    ensures InBounds(g, s, p)
    ensures Count(Stamp(g, s, p)) == Count(g) + Count(s)
  {
    var m := Stamp(g, s, p);
    var shifted := Shifted(RowCounts(s), p.y, |g|);
    forall r | 0 <= r < |g|
      ensures RowCounts(m)[r] == RowCounts(g)[r] + shifted[r]
    {
      StampRowCount(g, s, p, r);
    }
    SumPointwise(RowCounts(m), RowCounts(g), shifted);
    forall i | 0 <= i < |s| && RowCounts(s)[i] != 0
      ensures 0 <= p.y + i < |g|
    {
      if forall j :: 0 <= j < |s[i]| ==> s[i][j] == EMPTY_CELL {
        RowCountZeros(s[i]);
      }
      var j :| 0 <= j < |s[i]| && s[i][j] != EMPTY_CELL;
      assert CellFree(g, p.y + i, p.x + j);
    }
    SumShifted(RowCounts(s), p.y, |g|);
    CountIsSum(m);
    CountIsSum(g);
    CountIsSum(s);
  }

  // ---------------------------------------------------------------------
  // Clearing full rows

  /** The rows that are not full, in their original order. */
  function NonFullRows(g: Matrix): (kept: Matrix)
    ensures |kept| <= |g|
    ensures forall i :: 0 <= i < |kept| ==> !IsFull(kept[i]) && kept[i] in g
  {
    if g == [] then []
    else (if IsFull(g[0]) then [] else [g[0]]) + NonFullRows(g[1..])
  }

  /** The number of full rows. */
  function FullCount(g: Matrix): nat
  {
    if g == [] then 0 else (if IsFull(g[0]) then 1 else 0) + FullCount(g[1..])
  }

  /** Drops every full row at once and pads the top with as many empty rows as
      were dropped; more than ROWS rows left over is an error in the source. */
  function RemoveFullRows(g: Matrix): (r: Matrix)
    requires |NonFullRows(g)| <= ROWS
    ensures |r| == ROWS
  {
    EmptyRows(ROWS - |NonFullRows(g)|) + NonFullRows(g)
  }

  lemma {:induction false} NonFullRowsLength(g: Matrix)
    ensures |NonFullRows(g)| + FullCount(g) == |g|
  {
    if g != [] {
      NonFullRowsLength(g[1..]);
    }
  }

  /** Filtering distributes over concatenation, so the kept rows keep their order. */
  lemma {:induction false} NonFullRowsAppend(a: Matrix, b: Matrix)
    ensures NonFullRows(a + b) == NonFullRows(a) + NonFullRows(b)
  {
    if a == [] {
      assert a + b == b;
    } else {
      assert (a + b)[0] == a[0] && (a + b)[1..] == a[1..] + b;
      NonFullRowsAppend(a[1..], b);
    }
  }

  /** Every row that is not full is kept as often as it occurs; no full row is kept. */
  lemma {:induction false} NonFullRowsMultiset(g: Matrix)
    ensures forall row :: multiset(NonFullRows(g))[row] == if IsFull(row) then 0 else multiset(g)[row]
  {
    if g != [] {
      NonFullRowsMultiset(g[1..]);
      assert g == [g[0]] + g[1..];
    }
  }

  /** With no full row, filtering keeps everything. */
  lemma {:induction false} NonFullRowsNoneFull(g: Matrix)
    requires forall i :: 0 <= i < |g| ==> !IsFull(g[i])
    ensures NonFullRows(g) == g
  {
    if g != [] {
      NonFullRowsNoneFull(g[1..]);
    }
  }

  /** A ROWS x COLS board stays ROWS x COLS, no row of the result is full, and
      the result is FullCount(g) empty rows above the non-full rows of g. */
  lemma RemoveFullRowsShape(g: Matrix)
    requires IsGrid(g)
    ensures |NonFullRows(g)| <= ROWS
    ensures var r := RemoveFullRows(g);
      IsGrid(r) &&
      (forall i :: 0 <= i < |r| ==> !IsFull(r[i])) &&
      r == EmptyRows(FullCount(g)) + NonFullRows(g)
  {
    NonFullRowsLength(g);
  }

  /** A board with no full row is returned unchanged. */
  lemma RemoveFullRowsNoneFull(g: Matrix)
    requires IsGrid(g)
    requires forall i :: 0 <= i < |g| ==> !IsFull(g[i])
    ensures RemoveFullRows(g) == g
  {
    NonFullRowsNoneFull(g);
    assert EmptyRows(0) + g == g;
  }

  /** Clearing is idempotent. */
  lemma RemoveFullRowsIdempotent(g: Matrix)
    requires IsGrid(g)
    ensures |NonFullRows(g)| <= ROWS
    ensures RemoveFullRows(RemoveFullRows(g)) == RemoveFullRows(g)
  {
    RemoveFullRowsShape(g);
    RemoveFullRowsNoneFull(RemoveFullRows(g));
  }

  lemma NonFullRowsSkipFull(row: seq<int>, rest: Matrix)
    requires IsFull(row)
    ensures NonFullRows([row] + rest) == NonFullRows(rest)
  {
    assert ([row] + rest)[1..] == rest;
  }

  /** Dropping one full row k from the input leaves the same kept rows. */
  lemma NonFullRowsDropFull(g: Matrix, k: nat)
    requires k < |g| && IsFull(g[k])
    ensures NonFullRows(g) == NonFullRows(g[..k]) + NonFullRows(g[k + 1..])
  {
    var above, below := g[..k], g[k + 1..];
    assert g == above + ([g[k]] + below);
    NonFullRowsAppend(above, [g[k]] + below);
    NonFullRowsSkipFull(g[k], below);
  }

  lemma NonFullRowsSingle(g: Matrix, k: nat)
    requires k < |g| && IsFull(g[k])
    requires forall i :: 0 <= i < |g| && i != k ==> !IsFull(g[i])
    ensures NonFullRows(g) == g[..k] + g[k + 1..]
  {
    var above, below := g[..k], g[k + 1..];
    forall i | 0 <= i < |above| ensures !IsFull(above[i]) {
      assert above[i] == g[i];
    }
    forall i | 0 <= i < |below| ensures !IsFull(below[i]) {
      assert below[i] == g[k + 1 + i];
    }
    NonFullRowsDropFull(g, k);
    NonFullRowsNoneFull(above);
    NonFullRowsNoneFull(below);
  }

  /** With exactly one full row k, that row is removed, the rows above it move
      down by one and an empty row appears at the top. */
  lemma RemoveSingleFullRow(g: Matrix, k: nat)
    requires IsGrid(g) && k < |g|
    requires IsFull(g[k])
    requires forall i :: 0 <= i < |g| && i != k ==> !IsFull(g[i])
    ensures |NonFullRows(g)| <= ROWS
    ensures RemoveFullRows(g) == EmptyRows(1) + g[..k] + g[k + 1..]
  {
    NonFullRowsSingle(g, k);
  }

  /** Clearing keeps 0/1 boards 0/1. */
  lemma RemoveFullRowsBinary(g: Matrix)
    requires IsGrid(g) && IsBinary(g)
    ensures |NonFullRows(g)| <= ROWS
    ensures IsBinary(RemoveFullRows(g))
  {
    RemoveFullRowsShape(g);
    var r := RemoveFullRows(g);
    var n := ROWS - |NonFullRows(g)|;
    forall i, c | 0 <= i < |r| && 0 <= c < |r[i]|
      ensures r[i][c] == 0 || r[i][c] == 1
    {
      if i >= n {
        var row := NonFullRows(g)[i - n];
        assert r[i] == row;
        var j :| 0 <= j < |g| && g[j] == row;
      }
    }
  }

  lemma {:induction false} NonFullRowsCount(g: Matrix)
    requires forall i :: 0 <= i < |g| ==> |g[i]| == COLS
    ensures Count(NonFullRows(g)) + COLS * FullCount(g) == Count(g)
  {
    if g != [] {
      NonFullRowsCount(g[1..]);
      var head: Matrix := if IsFull(g[0]) then [] else [g[0]];
      CountAppend(head, NonFullRows(g[1..]));
    }
  }

  /** Clearing removes exactly COLS occupied cells per full row. */
  lemma RemoveFullRowsCount(g: Matrix)
    requires IsGrid(g)
    ensures |NonFullRows(g)| <= ROWS
    ensures Count(RemoveFullRows(g)) == Count(g) - COLS * FullCount(g)
  {
    NonFullRowsLength(g);
    var pad := EmptyRows(ROWS - |NonFullRows(g)|);
    forall i | 0 <= i < |pad| ensures RowCount(pad[i]) == 0 {
      RowCountZeros(pad[i]);
    }
    NoCellsCount(pad);
    CountAppend(pad, NonFullRows(g));
    NonFullRowsCount(g);
  }
}
