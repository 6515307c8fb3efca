# A verified model of the Tetris engine

This project models the game engine of a single-file Tetris game (`tetris.py`).
The engine is the `Tetris` class together with the board size, the seven
tetromino matrices and their colour table. It holds:

- a 20-row by 10-column grid of settled cells (0 for empty, a colour for settled);
- one active piece (an occupancy matrix, an anchor column `x` and row `y`, a colour);
- a score;
- a game-over flag.

Its commands are move, rotate, and the freeze / clear-lines / new-piece sequence that a
blocked downward move sets off. The hard drop that the key loop performs by
repeating `move(0, 1)` is modelled as well.

Modules, one per concern of the engine:

- `Board` (board.dfy): grid dimensions, full rows, and the reference definition
  of line clearing (`Cleared` = empty rows on top of the surviving rows, in
  their old order).
- `Matrices` (matrices.dfy): occupancy matrices and the transpose-and-reverse
  quarter turn.
- `Tetrominoes` (shapes.dfy): the seven shapes and the colour table; colours
  are the tokens 1 to 7.
- `Pieces` (pieces.dfy): the piece record, collision, freezing, spawning.
- `LineClear` (line_clear.dfy): the bottom-up clearing scan as a loop method,
  proved equal to `Board.Cleared`, and the score table.
- `Engine` (engine.dfy): the game state, new piece, move, rotate, settling,
  hard drop, and the engine invariant `Valid` that every command keeps.
- `FreezeFinding` (finding.dfy): the freeze exactly as the program writes it,
  including its negative-index behaviour (see Findings).
- `Scenarios` (scenarios.dfy): worked drops of the O piece, proved end to end.

`Engine.Valid` is the class invariant:
- the grid is 20 by 10 with no full row;
- the piece's shape is rectangular, at most 4 by 4, with an occupied cell, and its
  colour is non-empty;
- the piece's cells are within the columns and above the floor.

`Engine.Init` establishes it and every command keeps it. The commands take it as their
precondition, so they are stated for every reachable state.

`Engine.Holdable` strengthens `Valid`: the piece is one of the seven shapes
(`Tetrominoes.Tetromino`), in one of its four orientations, with that shape's
colour. A new game starts holdable, and moving and rotating keep it so; separate
lemmas prove this.

The random choice of the next shape is a parameter (`k` or `next`, an index
below 7). The program looks the colour up with `SHAPES.index(shape)`; this is
modelled literally (`Tetrominoes.IndexOf`) and proved to give back the chosen
index, because the seven shapes are distinct.

Two facts about the code shape what the model claims:

- Game over is not final: `move` and `rotate` never read the flag
  (tetris.py:81-104), so the model proves only that the flag, once raised, is
  never lowered.
- A move followed by the opposite move restores the state only when the start
  position is collision-free (`Engine.MoveThenBack`). A spawn that collided
  (game over) is the exception.

## Model

| member | source | states |
|---|---|---|
| Board.Cleared | tetris.py:113-123 | the reference result of line clearing keeps the board's 20 by 10 shape and leaves no full row |
| Board.ClearedNoFull | tetris.py:116-123 | a board without full rows comes through line clearing unchanged, with nothing counted |
| Board.ClearedSingleRow | tetris.py:117-121 | when exactly row R is full, clearing removes it, moves every row above it down by one and puts an empty row on top |
| Matrices.RotateTwice | tetris.py:98-101 | two quarter turns are the half turn: cell (i, j) comes from (h-1-i, w-1-j), with the dimensions restored |
| Matrices.RotateFourTimes | tetris.py:98-101 | four quarter turns give back the original matrix |
| Matrices.RotateCells | tetris.py:98-101 | the occupied cells of the turned matrix are exactly the turned images of the original's occupied cells |
| Matrices.RotateKeepsCellCount | tetris.py:98-101 | a quarter turn keeps the number of occupied cells |
| Matrices.RotateKeepsShapeWf | tetris.py:98-101 | a turned tetromino is still rectangular, at most 4 by 4, with an occupied cell |
| Tetrominoes.ShapesDistinct | tetris.py:33-44 | seven shapes and seven colours, no two shapes equal |
| Tetrominoes.IndexOfShape | tetris.py:56-59 | looking the chosen shape up by value finds the index it was chosen at, so the colour is the one paired with it |
| Tetrominoes.ShapeIsTetromino | tetris.py:33-44 | each of the seven shapes with its own colour is a holdable piece (orientation 0) |
| Tetrominoes.RotateTetromino | tetris.py:98-101 | a quarter turn of one of the seven shapes in any orientation is again one of its four orientations, with the same colour; the fourth turn returns to the shape in the table |
| Tetrominoes.ShapesWf | tetris.py:33-44 | every shape is rectangular, at most 4 by 4, with an occupied cell, and its colour is non-empty |
| Pieces.Collides | tetris.py:68-79 | the nested scan reports a collision iff some occupied cell lies left or right of the board, at or below the floor, or on a settled cell in a row at or below the top; rows above the top are never looked up |
| Pieces.FreeFits | tetris.py:68-79 | a collision-free piece lies within the board's columns and above its floor |
| Pieces.Freeze | tetris.py:106-111 | every board cell the piece covers takes its colour and every other cell keeps its content (cells above the top are skipped; see Findings) |
| Pieces.FreezeKeepsOtherRows | tetris.py:106-111 | rows the piece's matrix does not span are unchanged by freezing |
| Pieces.FreezeFillsFewRows | tetris.py:106-126 | freezing onto a board without full rows makes at most as many rows full as the piece is tall, so the score table lookup stays in range |
| Pieces.Spawn | tetris.py:54-62 | the spawned piece has shape k and colour k, sits on row 0 at column `Width / 2 - width / 2` (integer division), so twice its anchor plus its width is 10 or 11 (centred, rounding left), and fits within the columns |
| Pieces.SpawnFreeOnEmptyGrid | tetris.py:47-62 | on the empty board none of the seven spawns collides |
| LineClear.ShiftDown | tetris.py:119-121 | the bottom-up copy loop removes row y: rows above it move down by one and row 0 becomes empty |
| LineClear.LineScoreGrows | tetris.py:125-126 | the table pays 100 for one row and 1000 for four, and clearing more rows at once always pays more |
| LineClear.ClearLines | tetris.py:113-126 | the scan terminates with the empty rows on top of the surviving rows in their old order (the reference `Board.Cleared`); no row is full; the grid is still 20 by 10; the score rises by the table entry for the number of rows that were full |
| Engine.NewPiece | tetris.py:54-66 | the new piece replaces the active one; the game is over iff it was over already or the new piece collides where it appears |
| Engine.Init | tetris.py:47-52 | a new game has the empty board, score 0, the first piece on row 0, and is not over |
| Engine.Settle | tetris.py:87-90 | a blocked downward step freezes the piece where it stood, clears lines, adds the table score for the rows cleared (at most 4) and spawns the next piece |
| Engine.Move | tetris.py:81-92 | the move is taken and reported iff the target is collision-free; a blocked sideways or upward move changes nothing; a blocked downward move settles the piece; the score never falls and game over is never cleared; the engine invariant is kept |
| Engine.RotatePiece | tetris.py:94-104 | a collision-free turn replaces the shape by its quarter turn; a colliding one leaves the state exactly as it was; position, colour, grid, score and flag never change |
| Engine.RotateFourTimesIsIdentity | tetris.py:94-104 | four rotations whose turned positions are all free give back the state |
| Engine.MoveThenBack | tetris.py:81-92 | a successful move followed by the opposite move restores the state when the starting position was collision-free |
| Engine.InitHoldable | tetris.py:47-62 | a new game's piece is one of the seven shapes with its own colour |
| Engine.MoveKeepsHoldable | tetris.py:81-92 | after any move, successful or settling, the active piece is still one of the seven shapes in one of its orientations with that shape's colour |
| Engine.RotateKeepsHoldable | tetris.py:94-104 | after a rotation the active piece is still one of the seven shapes in one of its orientations with that shape's colour |
| Engine.HardDrop | tetris.py:168-170 | repeating the downward move until it fails stops at a depth where every step on the way was free and the next is blocked, and then settles the piece there |
| FreezeFinding.ListIndex | tetris.py:111 | a list index resolves as the program's lists resolve it: negative indices down to minus the length count back from the end, anything else outside is an error |
| FreezeFinding.FreezeAgreesBelowTop | tetris.py:106-111 | for a piece within the columns and not above the top, the program's freeze writes the same grid as the corrected one |
| FreezeFinding.FreezeAsWrittenWrapsToBottom | tetris.py:106-111 | an O piece one row above the top writes its upper cells into the bottom row, which the corrected freeze leaves alone |
| FreezeFinding.WrapIsReachable | tetris.py:81-92 | from a fresh O spawn over one settled cell, an upward and a sideways move succeed and the next downward move is blocked and settles the piece with its top row above the board |
| Scenarios.OPieceFreeAbove | tetris.py:68-79 | the O piece in columns 4 and 5 is free exactly while both its rows are above the first settled cell or the floor |
| Scenarios.DropDepthUnique | tetris.py:168-170 | a hard drop can stop at only one depth |
| Scenarios.ODropsOntoEmptyBoard | tetris.py:81-126 | an O piece spawned on the empty board falls 18 rows and settles on the floor; only rows 18 and 19, columns 4 and 5, are filled and nothing is scored |
| Scenarios.OFillsGap | tetris.py:81-126 | an O piece dropped into the two-cell gap of the bottom row completes it; the row is removed, the rows above move down and the score rises by 100 |

## Left out

- Drawing, the window, fonts and the event loop (tetris.py:1-30, 128-201): rendering and I/O, not game logic.
- Gravity timing (tetris.py:148-179): the tick counter and fall speeds only decide when `move(0, 1)` is called.
- The random shape choice (tetris.py:56): it becomes the shape-index parameter.
- RGB colour values (tetris.py:8-16): they become the non-zero tokens 1 to 7.
- Engine.Settle: freezes with the corrected `Pieces.Freeze`. A piece with a row above the top therefore leaves the bottom rows alone, where the program's freeze writes those cells into them (see Findings).
- Engine.Move: does not model the state after an exception. If a piece that reaches more than a board height above the top were frozen, the program would raise an index error part-way. The engine uses the corrected freeze. The as-written freeze, with its error case, is `FreezeFinding.FreezeAsWritten`.
- LineClear.ClearLines: requires at most four full rows, where the program's table lookup would raise an index error for more. `Pieces.FreezeFillsFewRows` proves that the engine never reaches that case.
- Engine.MoveThenBack: requires the starting position to be collision-free, which the undo property needs (see above).
- Engine.RotateFourTimesIsIdentity: requires all four turned positions to be free. Otherwise a blocked turn keeps the old shape and the cycle is broken.
- The mutable, in-place updates of the class are modelled as pure functions from state to state. Only the line-clearing scan and the hard drop are loops.

## Findings

| source | as written | input that shows it | evidently intended | confidence | as-written member | corrected member |
|---|---|---|---|---|---|---|
| tetris.py:106-111 | the freeze writes to `grid[y + i]` without checking the row; for a cell above the top (`y + i < 0`) the negative index counts back from the end of the list, so the cell is written into a bottom row | O piece at column 6, row -1, then `move(0, 1)`. The piece gets there from a fresh spawn by calling the class's `move(0, -1)` then `move(2, 0)` over a board whose only settled cell is row 1, column 6. The game's key loop (tetris.py:159-178) only issues `move(-1, 0)`, `move(1, 0)` and `move(0, 1)`, so ordinary play never moves a piece above row 0. Reaching the case takes a direct upward `move` call on the class | cells above the top of the board are not written, since `check_collision` treats those rows as empty space outside the grid | medium; not executed | FreezeFinding.FreezeAsWrittenWrapsToBottom | Pieces.Freeze |
