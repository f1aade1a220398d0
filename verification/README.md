# Tetris engine model

A Dafny model of the game engine in `script.js` of the browser Tetris game
tetrisGameByContinue. The engine keeps a 10-column, 20-row field of cells,
where 0 is empty and 1..7 is a piece type. It also keeps the active piece and
the next piece, the score, cleared lines, level, fall interval, drop counter,
and the paused and game-over flags. The model turns each engine operation into
a pure function from one `Engine.Game` value to the next:

- the matrix helpers `createMatrix` and `rotate`;
- `createPiece`, with the piece type passed in;
- `checkCollision` and `merge`;
- `rotatePiece` with its horizontal kick search;
- `movePiece`;
- `dropPiece` with its lock sequence, `resetPiece` and `clearRows`;
- `hardDrop`;
- `pauseGame` and the state reset of `startGame`;
- the ghost projection of `drawGrid`;
- the drop counter of `update`.

Modules follow the source's structure:

- `Matrix`: matrices, `createMatrix`, `rotate`.
- `Field`: constants, collision, merge.
- `Pieces`: templates, `createPiece`.
- `Rows`: the row scan of `clearRows`, and a direct description of its result.
- `Scoring`: points, level and speed.
- `Engine`: the game record and every operation on it.
- `Scenarios`: two concrete games.

Three operations have a partner definition, connected to them by a lemma:

- The row scan is proved to compute `Rows.Compacted`. That is: the full rows
  are dropped, the others keep their order, and empty rows are put on top.
- The kick loop is proved to pick the first fitting column among
  `Engine.KickShifts`, or to revert when none fits.
- The hard-drop loop and the ghost projection are proved to stop at the one
  row described by `Engine.LandsAt`.

The other operations are tied to `Engine.Valid`, which holds in every
reachable state: each operation is proved to keep it. As part of that, the
four-row limit of the points table is proved rather than assumed. Pausing is
also proved to undo itself (`Engine.PauseTwice`), and rotation to be undone
by the opposite turn (`Matrix.RotateRoundTrip`).

Three behaviours of the code are easy to miss; the model follows the code:

- `startGame` on a paused game that is not over only resumes it. So does
  `restartGame`, which just calls `startGame`. It does not start a new game.
- The game-over test of `resetPiece` looks at the merged field before
  `clearRows` removes full rows. A game can therefore go on with its new
  active piece on a locked cell. `Scenarios.SpawnOverlapsAfterClear` shows
  this from a small `Valid` state. Its lone locked block on row 0 could not
  arise in play, so the scenario shows the behaviour from a valid state,
  not from a sequence of moves after a start.
- The kick loop gives up before testing the last column it moves to
  (`Engine.FinalKickUntested`).

## Model

| member | source | states |
|---|---|---|
| Matrix.CreateMatrix | script.js:118-124 | a height by width matrix, every cell 0, no occupied cell |
| Matrix.Reverse | script.js:194-198 | element k of the result is element n-1-k of the input, length kept |
| Matrix.Swap | script.js:189 | cells (i, j) and (j, i) trade places and every other cell keeps its value |
| Matrix.SwapRow | script.js:188-190 | the inner loop over x < y swaps each pair (y, x), (x, y) from column x on, and moves no other cell |
| Matrix.SwapLoop | script.js:187-191 | the outer loop from row y on leaves every cell in a row or column at or after y holding its mirror across the diagonal, and the block before y untouched |
| Matrix.Transpose | script.js:187-191 | the whole swap loop leaves cell (y, x) holding the old cell (x, y), square size kept |
| Matrix.QuarterTurnsCancel | script.js:185-201 | a clockwise quarter-turn cell mapping followed by a counter-clockwise one gives back the matrix |
| Matrix.Rotate | script.js:185-201 | on an n by n matrix, dir > 0 gives r[y][x] = m[n-1-x][y] and dir <= 0 gives r[y][x] = m[x][n-1-y]; the size is kept |
| Matrix.RotateRoundTrip | script.js:185-201 | a clockwise turn followed by a counter-clockwise one gives back the matrix, and the other way round |
| Matrix.RotateFourTimes | script.js:185-201 | four clockwise turns give back the matrix |
| Matrix.RotateKeepsRange | script.js:185-201 | rotation only moves cells, so a value range of all cells survives it |
| Matrix.RotateKeepsBlock | script.js:185-201 | the rotated matrix has an occupied cell exactly when the original has |
| Field.EmptyField | script.js:78 | the field at game start is ROWS by COLS with every cell 0 |
| Field.Collides | script.js:149-162 | true exactly when some occupied piece cell lies on a missing row or column or on a non-zero cell; false implies every occupied cell is on the field |
| Field.ScanRows | script.js:151-161 | the outer loop finds a blocked cell in matrix rows i.. exactly when one exists |
| Field.ScanCells | script.js:152-159 | the inner loop finds a blocked cell in row i from column j exactly when one exists |
| Field.CollidesOnField | script.js:153-156 | on a 20 by 10 field the undefined checks are the bounds checks 0..ROWS-1 and 0..COLS-1 |
| Field.MergeRows | script.js:170-176 | the outer `forEach` from matrix row i on writes every occupied cell of rows i.. to the field and changes no other cell, shape kept |
| Field.MergeCells | script.js:171-175 | the inner `forEach` from column j on writes the occupied cells j.. of one matrix row and changes no other cell, shape kept |
| Field.Merge | script.js:169-177 | each occupied piece cell is written to the field cell under it, every other cell and the field shape are unchanged |
| Field.MergeKeepsField | script.js:169-177 | merging keeps a 20 by 10 field, and keeps cell values in 0..hi when the piece's are |
| Pieces.ShapesWellFormed | script.js:22-66 | every template is a square of 2 to 4 rows with an occupied cell, and its occupied cells carry its own type |
| Pieces.SpawnFits | script.js:137 | a piece of at most 4 rows at the spawn column, row 0, collides with nothing when the top four rows are empty |
| Pieces.SpawnX | script.js:137 | the spawn column centres the matrix on the field, half a cell to the right when the width is odd, and is the only column that does |
| Pieces.CreatePiece | script.js:130-140 | a valid piece of the given type with that type's template, at row 0, centred and rounding right (column 4 for widths 2 and 3, column 3 for width 4), free on an empty field |
| Rows.Splice | script.js:310-311 | row y is taken out and an empty row is put on top: the rows above y move down by one, the rows below y stay, the row count is kept |
| Rows.ClearScan | script.js:302-314 | the scan keeps the row count and width, never touches the rows below its start row, and never lowers the count |
| Rows.ClearScanCompacts | script.js:302-314 | the scan from row y upward turns rows 0..y into their compacted form, leaves the rows below y alone, and counts the full rows among 0..y |
| Rows.ClearRows | script.js:299-314 | the scan's field is the compacted field and its count is the number of full rows |
| Rows.CompactedShape | script.js:302-314 | compaction keeps the row count and width and leaves no full row; the top N rows are empty and below them come the non-full rows in order; cell values are kept; a field with no full row is unchanged |
| Rows.FullCountInRange | script.js:302-314 | if every full row lies in rows lo..hi-1, at most that many rows are removed |
| Rows.FullCountZero | script.js:317 | no row is removed exactly when no row is full |
| Scoring.LevelFor | script.js:326 | the level is one more than the number of whole tens of cleared rows: 10(level-1) <= lines < 10 level |
| Scoring.IntervalFor | script.js:329 | the interval is the larger of 1000 - 100(level-1) and 100 ms |
| Scoring.StartStats | script.js:480-486 | score 0, lines 0, and level and interval agreeing with them |
| Scoring.ApplyClear | script.js:316-330 | for N in 1..4, lines grow by N and score by POINTS[N] times the old level, and level and interval are recomputed from the lines; for N = 0 nothing changes |
| Scoring.ScoreTable | script.js:321-323 | clearing 1, 2, 3 or 4 rows at level L awards 100L, 300L, 500L or 800L, and the level never falls |
| Scoring.SpeedMonotone | script.js:326-329 | more lines never lower the level or raise the interval; the interval is at least 100 ms and is 100 from level 10 on |
| Scoring.ScoreUsesOldLevel | script.js:323-326 | the row that reaches level 2 still scores at level 1 |
| Engine.CheckCollision | script.js:149-162 | with the offset added to the piece position, true exactly when some occupied cell is off the field or on an occupied cell; false implies the piece lies on the field |
| Engine.NewGame | script.js:479-491 | a valid running game: empty field, start statistics, counter 0, the two pieces `createPiece` makes for the given types, the active piece free |
| Engine.StartGame | script.js:469-491 | a paused game that is not over only resumes; any other state starts a new game; the result is running |
| Engine.PauseGame | script.js:507-510 | paused flips unless the game is over, and nothing else changes |
| Engine.PauseTwice | script.js:507-510 | pausing twice gives back the same state |
| Engine.MovePiece | script.js:236-245 | with the game over or paused nothing changes; otherwise only the column changes, and it moves by dir exactly when the shifted piece does not collide |
| Engine.KickSearch | script.js:215-227 | the loop ends, and a placement it returns does not collide |
| Engine.KickStep | script.js:218-222 | each failed test moves the piece to the next of 0, +1, -1, +2, ..., and the offset passes the width exactly after KickTries tests |
| Engine.KickSearchFirstFit | script.js:215-227 | from any test on, the loop places the piece at the first fitting column among the remaining shifts, or reverts when none fits |
| Engine.KickOutcome | script.js:215-227 | the loop places the piece exactly when some tested column fits, and then at the first one |
| Engine.FinalKickUntested | script.js:218-222 | the column the piece last moves to before the revert is not one of the tested columns |
| Engine.RotatePiece | script.js:207-230 | with the game over or paused nothing changes; otherwise the rotated piece is placed at the first fitting kick column, or the matrix and position are restored when none fits; the row, type and field never change; validity is kept |
| Engine.LockClearsAtMostFour | script.js:302-323 | merging a piece of at most four rows into a field with no full row makes at most four full rows, so the points table is never indexed past its end |
| Engine.LockedField | script.js:255-259 | merging then clearing a valid field gives a valid field with no full row, of the merged field's shape |
| Engine.Lock | script.js:255-259 | the field becomes the merged field compacted; next becomes current; a new next piece is made; the game is over iff the new piece collides with the merged field before clearing; the statistics get the clear of the full rows of the merged field |
| Engine.LockWithoutClearFits | script.js:284-294 | when a lock clears no row, a game that goes on has its new piece on free cells, and the statistics are unchanged |
| Engine.DropPiece | script.js:250-264 | with the game over or paused nothing changes; if the row below is free only the row grows by one; otherwise the piece locks; the counter is 0 afterwards |
| Engine.LandingUnique | script.js:396-398 | a straight drop has only one resting row |
| Engine.GhostY | script.js:390-398 | the ghost row is the row at which the piece rests when dropped straight down |
| Engine.Descend | script.js:272-275 | the hard-drop loop stops at the resting row, changes only the row, and adds one point per row fallen |
| Engine.Landed | script.js:269-276 | the state after the hard-drop loop: the piece at the ghost row, resting on something, the score up by the rows fallen, validity kept |
| Engine.HardDrop | script.js:269-279 | with the game over or paused nothing changes; otherwise the landed state is locked and the counter restarts |
| Engine.DropResetsCounter | script.js:250-264 | a drop resets the counter and does not depend on its old value |
| Engine.Tick | script.js:426-430 | while running the counter grows by the elapsed time, and once it exceeds the interval exactly one drop happens and the counter is 0 |
| Engine.GameOverAbsorbs | script.js:208 | once the game is over, rotate (guard at line 208), move (237), drop (251), hard drop (270), tick (426) and pause (508) change nothing, and only a start leaves the game-over state |
| Scenarios.HardDropOnEmptyField | script.js:269-279 | a hard drop of the first O piece of a new game falls 18 rows for 18 points, fills rows 18 and 19 in columns 4 and 5 only, clears nothing and does not end the game |
| Scenarios.SpawnOverlapsAfterClear | script.js:284-294 | a drop that completes a row can leave a running, valid game whose new active piece sits on a locked cell |

## Left out

- Drawing: the canvas, colours, block size, `drawMatrix`, `drawNextPiece` and `draw`. Only the ghost loop of `drawGrid` is modelled, as `Engine.GhostY`.
- The DOM: button wiring, button state, and the text written by `updateScore`. These are user-interface side effects.
- Frame scheduling. `requestAnimationFrame` and the `lastTime` bookkeeping are host I/O. `Engine.Tick` takes the elapsed time as a whole number of milliseconds, whereas the browser gives fractional timestamps. Each resume or start schedules one more frame loop; that is not modelled.
- `handleKeyPress`, the key binding. It ignores every key once the game is over, and `Engine.GameOverAbsorbs` states that the engine operations do the same.
- `Math.random` in `createPiece`. The piece type is a parameter of every operation that creates a piece.
- Shared templates. `createPiece` hands out the template array itself, and `rotate` turns it in place. A rotation therefore also turns the template for later pieces, and any other live piece of that type. The model uses immutable templates and value semantics instead. Each piece owns its matrix, so a rotation affects only the active piece.
- The state before the first start is not modelled. At load time `currentPiece` and `nextPiece` are null with `paused` false (script.js:69-83), yet the key handler is bound already (script.js:110). Left, Right, Up, Down and Space then throw a TypeError on the null piece (script.js:239, 210, 253, and 150 via `hardDrop` at 272). Pressing P and then Start takes the resume branch of `startGame` (script.js:470-477), and the next gravity drop throws at script.js:253. Every `Engine.Game` holds two pieces, so the resume clause of `Engine.StartGame` covers only games that have been started. For the same reason the `nextPiece || createPiece()` fallback is not modelled: `Engine.NewGame` always creates both pieces, and `Engine.Lock` takes the existing next piece.
- Scoring.ApplyClear: requires N <= 4. More than four rows would index past the points table and give NaN. `Engine.LockClearsAtMostFour` proves that a lock never clears more than four.
- Field.Merge: requires every occupied cell of the piece to land on the field. The JavaScript throws on a missing row and writes an extra property on a missing column. Every caller in the engine merges a piece that lies on the field (the `Fits` clause of `Engine.Valid`). After a new piece spawns onto a cell that clearing moved down, that piece can overlap a locked cell, and the merge overwrites it, as script.js:173 does.
- Engine.RotatePiece: requires a square matrix, which every template and every rotation of one is. `Engine.Valid` guarantees it for the active piece.
