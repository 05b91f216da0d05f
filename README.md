# Falling-block engine of a React Tetris game, in Dafny

This project models the game engine inside `src/App.js` of a small React
Tetris game, and proves properties of that model. The engine has two parts:

- **The grid store.** The committed 20 x 10 board of integer cells, where 0
  means empty. Its operations are the collision test (`isValidMove`),
  drawing a piece into a copy of the board (`drawTetromino`) and dropping
  full rows (`removeFullRows`).
- **The piece controller.** The falling piece's shape and position, and the
  moves that change them: `move(dx)`, `moveDown` and `rotate`, plus the
  key dispatch `handleKeyDown`.

Files, one module each:

- `cells.dfy` (`Cells`): matrices of cell tags, full rows, 0/1 matrices, and
  counting occupied cells.
- `pieces.dfy` (`Pieces`): `Tetrominos()`, the seven shapes of the source's
  `TETROMINOS` constant, and the clockwise rotation.
- `board.dfy` (`Board`): `CreateGrid`, the collision test (`Fits` and the
  loop `IsValidMove`), drawing a piece (`Stamp` and the loop
  `DrawTetromino`), and `RemoveFullRows`.
- `engine.dfy` (`Engine`): the `Game` class, whose fields are `grid`, `shape`
  and `pos`, with `Move`, `MoveDown`, `Rotate` and `HandleKeyDown`.
- `scenarios.dfy` (`Scenarios`): worked examples, proved. A square piece falls and
  locks. A bar is stopped by the wall. A T piece is turned four times. An
  upright bar completes the bottom row.

Design points:

- A board is a value (`seq<seq<int>>`). So the copy that `drawTetromino`
  makes before writing is built in: the caller's board cannot change.
- The falling piece is kept apart from the committed board, and joins it
  only when it locks.
- `drawTetromino` writes the shape's own cell value, which is always 1. It
  does not write a per-piece colour tag, and the model does the same.
- When a piece locks, `MoveDown` draws it at its current position, clears
  full rows, and spawns piece `nextIdx` at (4, 0).
- The object invariant `Game.Valid()` says:
  - the board is 20 x 10 with 0/1 cells;
  - the piece is a 0/1 rectangle with four occupied cells;
  - every occupied cell of the piece lies on the board.

  It does *not* say that the piece is clear of occupied cells. The game
  spawns onto the board without checking, so that would be false.

- On the committed empty board, `moveDown` and `isValidMove` let the square
  make 18 steps down from (4, 0). It is blocked at y = 19 and comes to rest
  on rows 18-19 (`Scenarios.SquareFallsToFloor`). This is the behaviour of
  the step functions on the committed board. The source as written behaves
  differently, because of the effect described under "## Findings".

## Model

| member | source | states |
|---|---|---|
| `Cells.RowCount` | src/App.js:66 | A row's occupied-cell count is at most its length. It equals the length exactly when every cell is non-zero, which is the test `row.every(cell => cell !== 0)` uses. |
| `Cells.IsFull` | src/App.js:66 | A row is full exactly when the empty tag 0 does not occur in it, the test `row.every(cell => cell !== 0)`. An empty row counts as full. |
| `Pieces.Tetrominos` | src/App.js:9-39 | The seven shapes, cell for cell as in the source. There are seven of them, and each is a non-empty rectangle of 0/1 cells with exactly four occupied cells. |
| `Pieces.Reverse` | src/App.js:129 | The reversed row has the same length, and element i is element n-1-i of the input. |
| `Pieces.Rotated` | src/App.js:128-130 | An h x w shape turns into a w x h shape with `r[i][j] == s[h-1-j][i]`. |
| `Pieces.RotatedBinary` | src/App.js:128-130 | Rotating a 0/1 shape gives a 0/1 shape. |
| `Pieces.RotatedTwice` | src/App.js:128-130 | Two rotations are the half turn: same dimensions, cell (i, j) is cell (h-1-i, w-1-j) of the original. |
| `Pieces.RotatedFourTimes` | src/App.js:128-130 | Four rotations give back the original shape. |
| `Pieces.RotatedCount` | src/App.js:128-130 | Rotation keeps the number of occupied cells. |
| `Pieces.ColumnsCount` | src/App.js:128-129 | Counting a rectangle's cells column by column gives the same total as counting row by row. |
| `Board.EmptyRows` | src/App.js:67-69 | n rows of COLS cells, all empty; none of them is full. |
| `Board.CreateGrid` | src/App.js:44 | The initial board is ROWS x COLS with every cell empty and no occupied cell. |
| `Board.Fits` | src/App.js:89-93 | The collision test as a predicate: every occupied offset of the shape, moved by the position, lands on an existing empty cell. A shape that fits lies on the board. |
| `Board.IsValidMove` | src/App.js:86-99 | Returns true exactly when every non-zero offset of the shape, moved by the position, lands on an existing empty cell. Rows and columns off the board block. A true result means the footprint is on the board. |
| `Board.FitsOnEmptyGrid` | src/App.js:89-93 | On the empty board a shape passes the collision test exactly when its footprint lies on the board. |
| `Board.Stamp` | src/App.js:53-63 | The board with the shape drawn at the position, as a function. It needs the footprint on the board and keeps the board's dimensions. By definition each covered cell takes the shape's cell value, and every other cell keeps the board's. |
| `Board.StampWritesShape` | src/App.js:56-58 | Each occupied offset of the shape lands on the board, at the position plus the offset, holding the shape's own value. |
| `Board.DrawTetromino` | src/App.js:53-63 | Needs the footprint on the board. Returns a board of the same dimensions. Each covered cell holds the shape's own cell value, and every other cell keeps the input's value. |
| `Board.StampBinary` | src/App.js:58 | Drawing a 0/1 shape on a 0/1 board leaves a 0/1 board. |
| `Board.FitsStampFillsEmpty` | src/App.js:53-63 | For a shape that passes the collision test, drawing keeps every occupied cell as it was. Every cell it covers was empty before and is occupied after. |
| `Board.StampCount` | src/App.js:53-63 | Drawing a shape that passes the collision test adds exactly the shape's occupied cells to the board's count. |
| `Board.StampRowCount` | src/App.js:55-61 | Per row: the drawn row's count is the board row's count plus the count of the shape row that lands on it. |
| `Board.NonFullRows` | src/App.js:66 | The kept rows number at most the input's rows. Each kept row is non-full and is a row of the input. |
| `Board.RemoveFullRows` | src/App.js:65-71 | Needs at most ROWS non-full rows (otherwise the source's `Array(ROWS - n)` throws). Always returns ROWS rows. |
| `Board.NonFullRowsLength` | src/App.js:66-67 | Kept rows plus full rows equal all rows, so the padding is exactly one empty row per full row. |
| `Board.NonFullRowsAppend` | src/App.js:66 | Filtering distributes over concatenation, so kept rows stay in their original order. |
| `Board.NonFullRowsMultiset` | src/App.js:66 | Every non-full row is kept exactly as often as it occurs, and no full row is kept. |
| `Board.RemoveFullRowsShape` | src/App.js:65-71 | A ROWS x COLS board stays ROWS x COLS, and no row of the result is full. The result is one empty row per full row, above the non-full rows in their original order. |
| `Board.RemoveFullRowsNoneFull` | src/App.js:65-71 | A board with no full row comes back unchanged. |
| `Board.RemoveFullRowsIdempotent` | src/App.js:65-71 | Clearing twice is the same as clearing once. |
| `Board.RemoveSingleFullRow` | src/App.js:65-71 | If row k is the only full row, it is removed, the rows above it move down one, and one empty row appears at the top. |
| `Board.RemoveFullRowsBinary` | src/App.js:65-71 | Clearing keeps a 0/1 board 0/1. |
| `Board.RemoveFullRowsCount` | src/App.js:65-71 | Clearing removes exactly COLS occupied cells per full row. |
| `Engine.SpawnInBounds` | src/App.js:82 | At the spawn position (4, 0), every shape constant lies on any ROWS x COLS board. |
| `Engine.SpawnFitsOnEmptyGrid` | src/App.js:47-49 | At the spawn position, every shape constant passes the collision test on the initial board. |
| `Engine.LockKeepsInvariant` | src/App.js:78-82 | Locking a piece, clearing rows and spawning gives a ROWS x COLS 0/1 board on which the new piece lies. If the locked piece fitted, the board gains its cells and loses COLS cells per cleared row. |
| `Engine.Game.constructor` | src/App.js:47-49 | A new game has the empty board and the chosen shape at (4, 0), where that shape fits. |
| `Engine.Game.Move` | src/App.js:120-125 | The position becomes (x+dx, y) exactly when the shape fits there; otherwise it stays. The board and shape never change. |
| `Engine.Game.MoveDown` | src/App.js:73-84 | If the shape fits one row lower, only y grows by one. Otherwise the board becomes the row-cleared board with the shape drawn at the current position, the shape becomes `TETROMINOS[nextIdx]` and the position (4, 0). A lock of a fitting piece adds 4 cells, minus COLS per cleared row. |
| `Engine.Game.Rotate` | src/App.js:127-134 | The shape becomes its rotation exactly when the rotation fits at the current position; otherwise it stays. The board and position never change. |
| `Engine.Game.HandleKeyDown` | src/App.js:101-118 | Key 37 moves left, 39 moves right, 40 steps down, 32 rotates, each with the result of that move. Every other key changes nothing. |
| `Scenarios.SquareFallsToFloor` | src/App.js:73-84 | On the empty board the square fits at (4, y) for y from 0 to 18, and is blocked at y = 19. |
| `Scenarios.SquareStampedAtBottom` | src/App.js:53-63 | The square drawn at (4, 18) on the empty board occupies exactly rows 18-19, columns 4-5. |
| `Scenarios.SquareLocksAtBottom` | src/App.js:78-80 | Locking the square at (4, 18) clears nothing, and leaves exactly rows 18-19, columns 4-5 occupied. |
| `Scenarios.DropSquare` | src/App.js:73-84 | A game that starts with the square and ticks 19 times ends with exactly rows 18-19, columns 4-5 occupied. |
| `Scenarios.BarBlockedByLeftWall` | src/App.js:120-125 | The flat bar fits at (0, 0) on the empty board but not at (-1, 0). |
| `Scenarios.TFourTurns` | src/App.js:127-134 | Four rotations of the T piece give back the T piece. |
| `Scenarios.UprightBar` | src/App.js:128-130 | Rotating the flat bar gives a single column of four occupied cells. |
| `Scenarios.UprightBarRestsInGap` | src/App.js:86-99 | On that board the upright bar fits at (0, 16) and is blocked at (0, 17), where it would leave the board. |
| `Scenarios.UprightBarCompletesBottomRow` | src/App.js:53-63 | Drawing the upright bar at (0, 16) fills the bottom row and leaves every other row non-full. |
| `Board.NonFullRowsSingle` | src/App.js:66 | If row k is the only full row, the kept rows are the input without row k. |
| `Scenarios.FillingTheGapClearsTheRow` | src/App.js:65-71 | On that board the upright bar comes to rest at (0, 16), and drawing it fills the bottom row. Clearing then shifts the other rows down by one under a new empty top row. |
| `Scenarios.PaintedPieceBlocksItself` | src/App.js:148-152 | Once a shape is painted into the board at p, it cannot step one row down if some column is occupied in both of its first two rows. |
| `Scenarios.PaintedPiecesLockAtSpawn` | src/App.js:148-152 | With the falling piece painted into the empty board at (4, 0), each of the six shapes taller than one row fails the collision test at (4, 1). So the first gravity step locks it at the spawn position. |
| `Scenarios.PaintedRowBlocksSlide` | src/App.js:148-152 | Once a shape is painted into the board at p, it cannot shift by dx columns if cells j and j - dx of its first row are both occupied. |
| `Scenarios.PaintedBarCannotSlide` | src/App.js:148-152 | With the flat bar painted into the empty board at (4, 0), it cannot move to (3, 0) or (5, 0). |

## Left out

- React rendering, hooks and styling (src/App.js:158-173, `useState`,
  `useRef`, the `moveDownRef` indirection at src/App.js:136-138, App.css):
  these are interface plumbing.
- The `COLORS` palette (src/App.js:7): display only. Cells only ever hold 0
  or 1, and `Game.Valid()` keeps that fact.
- The one-second `setInterval` timer and its cleanup (src/App.js:140-146):
  platform timing. One tick is one call to `Game.MoveDown`.
- `Math.random` in `randomTetromino` (src/App.js:41-42): a nondeterministic
  foreign call. The piece index is a parameter `nextIdx < 7` of `MoveDown`,
  `HandleKeyDown` and the constructor.
- The effect at src/App.js:148-152 is not a step of `Game`. After every
  change of piece or position, it paints the falling piece into the stored
  grid. As written, the collision test then hits the piece's own cells, so
  every piece taller than one row locks at the spawn position on its first
  tick (see "## Findings"). It also leaves a trail of painted cells. The
  model deliberately gives the behaviour the step functions intend: the
  falling piece is kept apart from the committed board, which changes only
  when a piece locks.
- The clearing effect at src/App.js:154-156 runs after every grid change.
  The model clears once, right after the merge in `MoveDown`. The board
  changes only there, and `Board.RemoveFullRowsIdempotent` shows that
  clearing again would change nothing.
- Game over: the code has none, and a spawn onto occupied cells is not
  detected. The model invents no rule for it.
- Board.IsValidMove: in the source it reads the component's `grid` state.
  Here the committed board is a parameter.
- Board.RemoveFullRows: requires at most ROWS non-full rows. With more, the
  source's `Array(ROWS - n)` throws a RangeError, and the model excludes
  that case. The engine never reaches it, because the board always has
  exactly ROWS rows (`Board.RemoveFullRowsShape`).
- Board.DrawTetromino: requires the whole footprint to lie on the board. In
  the source only an off-board row throws. An off-board column silently
  lengthens the row or sets a non-index property, and this is not modelled.
  Every call in the engine satisfies the requirement, because
  `Game.Valid()` keeps the footprint on the board.
- Pieces.Rotated: requires a non-empty rectangular shape. The source reads
  `undefined` cells for ragged shapes and throws on an empty one. Pieces
  here are always rectangles.
- Numbers: the source uses JavaScript numbers. The model uses unbounded
  integers, which agree with them at the small coordinates the game reaches.

## Findings

| source | as written | input that shows it | evidently intended | confidence | as-written member | corrected member |
|---|---|---|---|---|---|---|
| src/App.js:148-152 | After every move the effect paints the falling piece into `grid`. The collision test at src/App.js:86-99 reads that same `grid`, so the piece collides with its own painted cells. | The square at (4, 0) on the empty board: after painting, `isValidMove(O, {x: 4, y: 1})` reads `grid[1][4]`, the square's own cell, and the first tick locks the square at the spawn position. The same holds for all six pieces taller than one row, and the flat bar cannot move sideways. | The piece falls until it rests on committed cells or the floor. The collision test runs against the board without the falling piece. | high, not executed | `Scenarios.PaintedPiecesLockAtSpawn` | `Scenarios.DropSquare` |
