# Falling-block game engine, modelled in Dafny

This project models the game-state engine of a browser falling-block puzzle. The engine comes in two variants: the newer `Game` in `scripts/tetris.js` and the older one in `tetris.js`. Both sit on the cell store `Grid` of `grid.js`.

The model covers these parts of the engine:

- the 20 x 10 cell grid, with its copy, fill and render operations;
- the seven shapes and their rotation table;
- moving, rotating and letting a piece fall against the cells already on the grid;
- the spawn of a new piece;
- the lock of a piece that cannot fall, the row-clearing loop and its scoring table;
- the tick-gated update loop and game over.

The newer variant adds:

- garbage rows at start;
- a five-entry piece queue;
- a wall kick that pushes a rotated piece back inside the side walls;
- a `lines` counter next to the score;
- a backward rotation (the `x` key);
- a hard drop on a downward swipe.

## Modules

- `GridStore` (grid.dfy) holds the cell values and the `Grid` class. `Undefined` stands for a JavaScript `undefined` slot. It is neither EMPTY nor DROPPED, so every check treats it as occupied, and reading off the grid yields it.
- `Geometry` (geometry.dfy) holds the shapes, both rotation-counter steps, the rotation table as offsets from the pivot, and the wall-kick `reduce`.
- `Engine` (engine.dfy) holds what both variants do on a working copy:
  - clear the piece's cells, check the candidates, paint them (`Relocate`);
  - the spawn check-and-write;
  - the random draws;
  - the invariant that the coloured cells are exactly the falling piece.
- `LineClear` (rows.dfy) holds the in-place row loop of `clearRows`. It is proved equal to a two-phase definition: find the full rows, then drop them and put EMPTY cells on top. The scoring table is here too.
- `Play` (play.dfy) holds the 20 x 10 dimensions, the invariant of a falling piece, the spawn (`Spawn`) and the lock (`Lock`) as functions, and the lemmas that these keep the game playable.
- `Tetris` (tetris.dfy) is the newer `Game`. `LegacyTetris` (legacy_tetris.dfy) is the older one. Each is a class whose methods update its fields in place. It holds the grid as `const grid: Grid`, the object it inherits from.

Randomness and time are not computed inside the model. Each `Math.random()` value is passed in as a `Random` real in [0, 1): two per drawn piece (`Roll`), and one per garbage cell (`noise[x][y]`). `performance.now()` is passed in as `now`, and the `height` URL parameter as an integer.

## Model

| member | source | states |
|---|---|---|
| GridStore.Paint | scripts/tetris.js:197 | writing a value into a list of cells: the listed cells read that value, every other cell keeps its old value, and the shape is kept |
| GridStore.Filled | grid.js:67-70 | every cell of the store holds the fill value and the dimensions are kept |
| GridStore.Grid.constructor | grid.js:7-12 | `columns` arrays of `rows` slots, none of them written yet |
| GridStore.Grid.DisplayStateCopy | grid.js:62-65 | the JSON copy keeps the dimensions, turns an unwritten slot into EMPTY, keeps every written one, and so equals the state once every slot is written |
| GridStore.Grid.Fill | grid.js:67-70 | the loop writes the value into every cell: the result is `Filled` |
| GridStore.Grid.Render | grid.js:45-60 | the new state is installed; the cells whose display is rewritten are exactly those whose old and new values differ |
| Geometry.Turn | scripts/tetris.js:209-216 | from one of 0/90/180/270 and a direction of +1 or -1, the counter stays in the four values and moves a quarter turn modulo 360 |
| Geometry.LegacyTurn | tetris.js:179-182 | with direction +1 the older step stays in the four values and equals (rotation + 90) mod 360 |
| Geometry.TurnCycles | scripts/tetris.js:209-216 | four quarter turns either way restore the counter, and a turn back undoes a turn |
| Geometry.LegacyTurnNeedsForward | tetris.js:179-182 | from 0, a step with direction -1 leaves the four values (0 becomes -90) |
| Geometry.Offsets | scripts/tetris.js:220-422 | for every shape and counter value the table has four distinct cells, the pivot first, each within -1..2 of it on both axes |
| Geometry.Shape | scripts/tetris.js:218-423 | a shape laid out around a pivot has four distinct cells, the pivot first, all within -1..2 of the pivot on both axes |
| Geometry.ShapeSymmetry | scripts/tetris.js:220-422 | O ignores the counter; S, Z and I have two distinct layouts (counter mod 180); T, L and J have four |
| Geometry.ShapeTranslates | scripts/tetris.js:218-230 | moving the pivot moves every cell of the shape by the same amount |
| Geometry.ShiftedDistinct | scripts/tetris.js:430-432 | shifting distinct cells by one offset keeps them distinct |
| Geometry.OffsetLeft | scripts/tetris.js:159-171 | with no cell right of the grid, the `reduce` yields the most negative x below its start value, or the start value |
| Geometry.OffsetRight | scripts/tetris.js:159-171 | with no cell left of the grid, the `reduce` yields the largest overrun past `columns - 1`, or the start value |
| Geometry.Overrun | scripts/tetris.js:159-171 | one step of the `reduce`: a cell between the walls leaves the accumulator as it is, and the result is 0 exactly when the accumulator was 0 and the cell lies between the walls |
| Geometry.OffsetFrom | scripts/tetris.js:159-171 | the `reduce` over all cells: with every cell between the walls it returns its start value, and it ends at 0 exactly when it started at 0 and no cell is past a wall |
| Geometry.EdgeOffset | scripts/tetris.js:159-171 | the offset, the `reduce` started at 0, is 0 exactly when every cell lies between the walls |
| Geometry.Corrected | scripts/tetris.js:173-177 | every cell moves sideways by minus the offset and keeps its row; the cells move at all exactly when some cell is past a wall; distinct cells stay distinct |
| Geometry.CorrectionFits | scripts/tetris.js:157-177 | for cells spanning at most four columns, the wall kick puts every x inside the grid, keeps every y, and moves nothing already inside |
| Engine.Draw | scripts/tetris.js:466-470 | the shape index is floor(7r) and the colour floor(6r) + 1: each shape and each colour owns an equal interval of the random value |
| Engine.Coin | scripts/tetris.js:43 | a garbage cell is DROPPED exactly when the random value exceeds 0.5, and EMPTY otherwise |
| Engine.Relocate | scripts/tetris.js:426-463 | if every candidate cell is EMPTY once the piece's cells are cleared, the candidates take the piece's colour, the vacated cells become EMPTY, nothing else changes and the piece takes the candidates; otherwise grid and piece are unchanged |
| Engine.OffGridRejected | scripts/tetris.js:442-445 | a candidate off the grid (past a wall or the floor) means the move is rejected and nothing changes |
| Engine.RelocateUndo | scripts/tetris.js:426-463 | a successful move is undone by moving back to the old cells, which restores grid and piece |
| Engine.RelocateKeepsColors | scripts/tetris.js:426-463 | whether or not it commits, a move keeps "the coloured cells are exactly the piece's four cells", keeps every slot written and leaves what the piece lies on unchanged |
| Engine.PaintKeepsDefined | scripts/tetris.js:197 | writing a defined value keeps every slot written |
| Engine.RepaintLocked | tetris.js:565-573 | clearing the piece's cells and then painting them DROPPED is the same as painting them DROPPED |
| Engine.LockLeavesNoColors | scripts/tetris.js:632 | painting a falling piece's cells DROPPED leaves no coloured cell |
| Engine.TryRelocate | scripts/tetris.js:434-456 | the clear-check-paint on the working copy: `ok` holds exactly when the candidates are EMPTY once the piece is cleared, and then the copy is `Relocate`'s grid |
| Engine.PaintCells | scripts/tetris.js:435 | the `forEach` write loop computes `Paint` |
| Engine.CheckVacant | scripts/tetris.js:183-192 | the validity loop accepts exactly when every candidate cell reads EMPTY |
| Engine.Place | scripts/tetris.js:502-516 | the spawn loop writes the colour into all four cells whatever they held, and `cantPlace` holds exactly when some cell was not EMPTY beforehand |
| Engine.SpawnPoint | scripts/tetris.js:481-484 | a new piece's pivot is in the top row and in the middle column, floor(columns / 2) |
| Engine.SpawnCells | scripts/tetris.js:481-500 | a new piece's cells are the shape at counter 0 (one step on from 270) around (floor(columns / 2), 0): four distinct cells, the pivot first |
| Engine.SpawnFits | scripts/tetris.js:481-500 | on a grid of at least 5 columns and 2 rows every spawn cell is on the grid, in the top two rows |
| Engine.SpawnOnEmptyGrid | tetris.js:36-40 | on a grid where every cell is EMPTY, no shape's spawn is blocked |
| Engine.SpawnStartsColors | scripts/tetris.js:506-523 | a spawn that succeeds on a grid without colours makes the new piece's cells the only coloured ones, and lies on the old grid |
| LineClear.Points | scripts/tetris.js:560-576 | 1 to 4 rows score 100, 300, 500 and 800; anything else scores 0; each extra row cleared at once adds more than 100 points |
| LineClear.RowIsFull | scripts/tetris.js:536-545 | the inner loop reports `clear` exactly when no cell of the row is EMPTY |
| LineClear.DropRow | scripts/tetris.js:551-554 | `splice` then `unshift` in every column removes row y and puts an EMPTY cell on top |
| LineClear.Cleared | scripts/tetris.js:530-556 | the two-phase reading of `clearRows` keeps every column's length, and a grid without a full row comes back unchanged |
| LineClear.RemoveFullRows | scripts/tetris.js:530-556 | the in-place top-down loop removes exactly the rows that were full before it started, each once, and counts them |
| LineClear.ClearedRows | scripts/tetris.js:530-556 | after clearing, the top `count` rows are EMPTY, and below them the rows that were not full follow, whole and in their old order |
| LineClear.KeptRows | scripts/tetris.js:530-556 | the rows that survive a clear are rows that were not full, as many as there were, listed in strictly increasing row order, so they keep their old order |
| LineClear.KeptRowsComplete | scripts/tetris.js:530-556 | every row that was not full survives the clear |
| LineClear.ClearedHasNoFullRow | scripts/tetris.js:530-556 | after clearing, no row is full |
| LineClear.ClearedIdempotent | scripts/tetris.js:530-556 | clearing again removes nothing |
| LineClear.ClearedKeepsKinds | scripts/tetris.js:550-554 | clearing brings in no colour and no unwritten slot |
| LineClear.LockedFullRowHoldsPiece | scripts/tetris.js:628-635 | a row that becomes full when the piece locks holds one of the piece's cells |
| LineClear.LockClearsAtMostFour | scripts/tetris.js:560-576 | a lock on a grid with no full row completes at most four rows, so the `default` case of the table is never reached |
| Play.RelocateKeepsFalling | scripts/tetris.js:426-463 | move, rotate and fall keep a falling piece falling, keep every slot written and keep what the piece lies on |
| Play.TurnKeepsFalling | scripts/tetris.js:207-216 | a new counter value among the four keeps the piece falling |
| Play.Spawn | scripts/tetris.js:479-524 | `createPiece` on a copy keeps the grid's shape; a piece it returns is the entry's shape and colour at the spawn cells with counter 0 |
| Play.SpawnIsPlayable | scripts/tetris.js:502-523 | on a written grid with no colour and no full row, a spawn installs a piece exactly when the spawn cells were EMPTY, and that piece is falling; only the spawn cells change, and they take the colour either way |
| Play.FirstSpawnIsFalling | tetris.js:36-40 | the first spawn on the EMPTY grid always succeeds and starts a falling piece |
| Play.LockLeavesClearGrid | scripts/tetris.js:628-635 | locking a falling piece and clearing rows removes at most four rows and leaves a written grid with no colour and no full row |
| Play.Lock | scripts/tetris.js:628-648 | the lock keeps the grid's shape, and a next piece, if any, is the entry at the spawn cells with counter 0 |
| Play.LockIsPlayable | scripts/tetris.js:628-648 | after a lock, at most four rows were removed; the next piece exists exactly when its spawn cells were EMPTY, and is then falling; the grid is the cleared grid with the spawn cells coloured |
| Tetris.Drawn | scripts/tetris.js:465-474 | one queue entry per roll, in roll order |
| Tetris.GarbageCells | scripts/tetris.js:39-46 | a cell in the bottom `height` rows, outside the last column, is a coin flip; every other cell is kept |
| Tetris.Garbage | scripts/tetris.js:39-46 | the garbage fill keeps the grid's shape, the last column, and every row above the bottom `height`; a `height` of 0 or less changes nothing |
| Tetris.SeedGarbage | scripts/tetris.js:39-46 | the bottom-up garbage loop computes `Garbage`, skipping row indices below 0 |
| Tetris.GarbageIsOpen | scripts/tetris.js:39-46 | on the EMPTY grid, garbage holds only DROPPED and EMPTY, and no row is full because the last column stays EMPTY |
| Tetris.GarbageLeavesSpawnFree | scripts/tetris.js:39-46 | garbage at most `rows - 2` high leaves every shape's spawn cells EMPTY |
| Tetris.StartGridIsOpen | scripts/tetris.js:32-46 | the start grid has every slot written, no colour and no full row, and room for any spawn when the garbage is at most `rows - 2` high |
| Tetris.DrawnShift | scripts/tetris.js:487-490 | taking the head of five queued rolls and queueing one more leaves the entries of the last five rolls |
| Tetris.NewGame | scripts/tetris.js:32-56 | the opening grid is 20 x 10 and the queue holds five entries |
| Tetris.NewGameIsPlayable | scripts/tetris.js:32-56 | the opening is playable; it has a piece whenever the garbage is at most `rows - 2` high; the piece exists exactly when the spawn cells were EMPTY, and is then the first roll's entry |
| Tetris.ShiftedDown | scripts/tetris.js:586-588 | falling k rows and then one more is falling k + 1 rows |
| Tetris.Game.constructor | scripts/tetris.js:26-73 | the new game is the `NewGame` opening and satisfies the invariant; score and lines are 0; the loop runs from `now` at the default speed |
| Tetris.Game.Opening | scripts/tetris.js:32-54 | the constructor's work on the state copy yields `NewGame` and is playable |
| Tetris.Game.FillPieceQueue | scripts/tetris.js:465-474 | entries are appended, in roll order, until five wait; a full queue is left alone; what was queued stays first |
| Tetris.Game.CreatePiece | scripts/tetris.js:479-524 | the queue loses its head and gains the drawn entry; grid and piece are `Spawn` of the head |
| Tetris.Game.StartCells | scripts/tetris.js:32-46 | copy, fill with EMPTY and the garbage loop give `Garbage` of the EMPTY grid |
| Tetris.Game.CalcRotate | scripts/tetris.js:207-423 | the counter takes one `Turn` step (and the piece stays falling); the result is the table's shape around the pivot at the new counter |
| Tetris.Game.Rotate | scripts/tetris.js:151-204 | the piece relocates to the wall-kicked shape at the new counter, or stays where it is with the new counter kept; without a piece nothing changes; the invariant holds |
| Tetris.Game.PushInside | scripts/tetris.js:157-177 | the `reduce` and the shift give `Corrected`, four distinct cells |
| Tetris.Game.Move | scripts/tetris.js:426-463 | the piece relocates one column over, or nothing changes; without a piece nothing changes; the invariant holds |
| Tetris.Game.Fall | scripts/tetris.js:582-617 | `fell` holds exactly when the cells one row down are on the grid and EMPTY once the piece is cleared, and the piece then moves there; what it lies on is unchanged |
| Tetris.Game.TryPosition | scripts/tetris.js:434-462 | the state becomes `Relocate`'s; `ok` says whether it committed; the piece stays falling on the same background |
| Tetris.Game.HardDrop | scripts/tetris.js:145-148 | `while (this.fall()) {}` terminates with the piece a whole number of rows lower, on the same background, and unable to fall further |
| Tetris.Game.SpeedUp | scripts/tetris.js:95-98 | the soft-drop key sets the interval to 50 ms |
| Tetris.Game.SlowDown | scripts/tetris.js:112-118 | releasing it restores 500 ms |
| Tetris.Game.GameOver | scripts/tetris.js:652-663 | the update loop stops |
| Tetris.Game.Update | scripts/tetris.js:619-650 | nothing changes before the interval has elapsed; then the step time is taken, and without a piece nothing else changes; otherwise the piece falls, or is locked as `Lock` says, with lines and score raised by the rows cleared and their points, the queue advanced, and the game over exactly when the spawn was blocked; the invariant holds |
| Tetris.Game.LockPiece | scripts/tetris.js:628-648 | the state becomes `Lock`'s result, with queue, lines, score and running updated accordingly |
| Tetris.Game.Commit | scripts/tetris.js:638-648 | the lock result is installed and rendered, the counters are raised, and the loop stops exactly when there is no piece |
| Tetris.Game.LockStep | scripts/tetris.js:629-638 | the copy-lock-clear-spawn sequence computes `Lock` and its successor queue; at most four rows are removed and the result is playable |
| LegacyTetris.Game.constructor | tetris.js:30-58 | the new game is `Spawn` of a drawn entry on the EMPTY grid, which always yields a piece; score 0; the loop runs from `now` at 500 ms; the invariant holds |
| LegacyTetris.Game.Opening | tetris.js:36-40 | fill with EMPTY, then spawn: the result is `Spawn` on the EMPTY grid, has a piece and is playable |
| LegacyTetris.Game.CreatePiece | tetris.js:447-492 | the entry is drawn from the roll, and grid and piece are `Spawn` of it |
| LegacyTetris.Game.CalcRotate | tetris.js:176-389 | the counter takes one `LegacyTurn` step forward (and the piece stays falling); the result is the table's shape at the new counter |
| LegacyTetris.Game.Rotate | tetris.js:137-173 | the piece relocates to the table's shape at the new counter, with no wall kick, or stays with the new counter kept; without a piece nothing changes; the invariant holds |
| LegacyTetris.Game.Move | tetris.js:392-429 | the piece relocates one column over, or nothing changes; without a piece nothing changes; the invariant holds |
| LegacyTetris.Game.TryPosition | tetris.js:400-428 | the state becomes `Relocate`'s and `ok` says whether it committed |
| LegacyTetris.Game.SpeedUp | tetris.js:72-76 | the soft-drop key sets the interval to 75 ms |
| LegacyTetris.Game.SlowDown | tetris.js:90-97 | releasing it restores 500 ms |
| LegacyTetris.Game.GameOver | tetris.js:602-605 | the update loop stops |
| LegacyTetris.Game.Update | tetris.js:548-600 | nothing changes before the interval has elapsed; then the step time is taken and the piece moves down one row, or is locked as `Lock` says, with the score raised by the points for the rows cleared, and the game over exactly when the spawn was blocked; the invariant holds |
| LegacyTetris.Game.Descend | tetris.js:557-599 | the piece moves one row down exactly when those cells are on the grid and EMPTY once it is cleared |
| LegacyTetris.Game.LockPiece | tetris.js:571-589 | the state becomes `Lock`'s result, with score and running updated accordingly |
| LegacyTetris.Game.Commit | tetris.js:576-586 | the lock result is installed and rendered, the score is raised, and the loop stops exactly when there is no piece |
| LegacyTetris.Game.LockStep | tetris.js:571-579 | the older copy-clear-drop-clear-spawn sequence computes `Lock`; at most four rows are removed and the result is playable |
| LegacyTetris.Game.DropPiece | tetris.js:565-573 | clearing the piece's cells and then writing 0 into them leaves them DROPPED |

## Notes on the behaviour modelled

- The row loop of `clearRows` removes a full row and shifts the cells above it while the scan goes on downwards. Only rows above the scan position move, so every row is still the original one when it is scanned. `LineClear.RemoveFullRows` proves that the loop removes exactly the rows that were full beforehand. No row is skipped or handled twice, not even for adjacent full rows.
- A blocked spawn writes the new colour into all four spawn cells, overwriting the occupied ones as well as the empty ones. Only the piece is withheld. `Play.Spawn` follows the code in this.
- A rejected rotation keeps the advanced counter, as the code does. The next rotation then starts from that counter.
- The older variant wraps the counter only at 360, and its callers all turn forward: `rotate` passes on the direction of the up-arrow and tap handlers, both 1, and `createPiece` passes 1. `LegacyTurnNeedsForward` shows that a backward turn from 0 leaves the four values (0 becomes -90).
- The garbage loop skips the last column, so no garbage row starts full.
- The newer constructor does not call `gameOver` when the first spawn is blocked: the update loop keeps running without a piece. Its next step throws. The model keeps the loop flag set and ends the step after taking the step time.

## Left out

- DOM work is not modelled: the grid element, the `gridRef` nodes, `cssClassMap`, and the score, lines and game-over text. `Render` returns the set of cells whose display class would be rewritten instead.
- Event wiring is not modelled: the key and touch handlers, and the lookup of a method by key name. The handlers' effects are the methods `Move`, `Rotate`, `HardDrop`, `SpeedUp` and `SlowDown`. Both `onTouchEnd` handlers are left out. The older one reads an undefined `e`.
- `setInterval`/`clearInterval` are not modelled: the `running` flag stands for the installed interval.
- `performance.now()`, `Math.random()` and the `height` URL parameter are not read inside the model. Their values are passed in as parameters.
- `randomPoint` (grid.js) is left out: it is never called by the game.
- `dumpState` and the space-key handler of the older variant are left out: they only log and read fields that do not exist. `console.log` calls are left out too.
- JavaScript `TypeError`s on a missing piece are modelled as "nothing happens" for move, rotate and fall. `Update` keeps its step time.
- The temporary `movingPiece` of `createPiece` is not modelled. It is only there to feed `calcRotate` and is always overwritten. The spawn cells are computed directly with the counter step from 270.
- Engine.Draw: takes `Math.random()` as an exact real, while the source rounds the double product before `Math.floor`. Near the boundaries k/7 and k/6 a given double can therefore pick a neighbouring shape or colour. Likewise `performance.now()` returns fractional milliseconds, and the model takes it as an integer.
- `parseInt` of a missing or malformed `height` (NaN) is not modelled: `height` is an integer, and any value below 1 adds no garbage.
- A `height` above the row count is not modelled as written: the source writes to row index -1 and below, which names no cell. The model writes nothing there.
- The JSON deep copy of `displayStateCopy` is modelled as a value copy that maps an unwritten slot to EMPTY. Copies never alias the state.
- LegacyTetris.Game.Rotate: requires `direction == 1`, the only value its callers pass. With -1 from 0 the older counter drifts below 0 (see `Geometry.LegacyTurnNeedsForward`). For T, `calcRotate` then returns nothing and `rotate` throws. The other shapes still return a layout: O its only one, S, Z and I the one for a counter not a multiple of 180, and L and J the one for 270.
- Tetris.Game.Commit: applies the `lines` and `score` updates of `clearRows` together with the piece. The source applies them inside `clearRows`, before `createPiece`. Nothing reads them in between, so the final state is the same.
- The rotation table is kept as offsets from the pivot (`Geometry.Offsets`) and shifted by the pivot. This gives the same cells as the source's literal table.
