# Tetris engine model

A Dafny model of the game-state engine of a browser Tetris written in
JavaScript (`script.js`). The engine holds its state in module globals:

- the 20 x 10 board of colour ids, where 0 is empty;
- the current and the next piece;
- score, level, cleared-line total, gravity interval and gravity accumulator;
- the running and paused flags.

Every engine function reads or updates those globals.

The project has three layers:

- **Values** (`Grid`, `Pieces`, `Engine`, `Scoring`):
  - the board and the specification of the row clear;
  - the piece catalog and the clockwise rotation;
  - the collision test, locking, the four-candidate wall kick and the drop distance;
  - the session counters and their level/speed progression.
- **Rules** (`Rules`): the globals as one `GameState` value.
  - One function per engine operation gives the state it leaves behind.
  - Lemmas prove each operation keeps the engine invariant `Valid` and state what it promises.
  - The invariant says: well-formed board and pieces, no full row, the current piece of a running game does not overlap the stack, and level and interval follow the line total.
  - `Run` folds a sequence of events (start, pause, key, frame) and ensures every reachable state is valid.
- **The class** (`Tetris.Game`): one field per global.
  - Each engine function that updates the globals is a method of the class that changes its fields in place. The loops of `placePiece`, the `clearLines` scan with its `y++` re-check, and the `hardDrop` loop are `while` loops there.
  - `collide` and `rotatePiece` change no global; they are module-level methods of `Engine` (`Engine.Collide` with its nested loops, `Engine.RotatePiece` with its cascade of tests).
  - The constructor and `StartGame`, `PauseGame`, `GameOver`, `SpawnPiece`, `Settle`, `HardDrop`, `Tick` and `HandleKeyAction` are proved to leave exactly the state their `Rules` function computes from the state before the call.
  - The other methods are proved against the module-level definitions of what they compute: `MovePiece` field by field against `Rules.MoveOutcome` and `Engine.Shifted`; `PlacePiece` against `Engine.Placed`, and `PlaceRow` against `Engine.PartlyPlaced`; `RemoveFullRows` against `Grid.ClearedBoard` and `Grid.FullRowCount`; `ClearLines` against `Grid.ClearedBoard` and `Scoring.AfterClear`; `DropToFloor` against `Engine.DropDistance` and `Engine.Shifted`.

Random piece choices are parameters (`first`, `second`, `pick`: a type
index in [0, 7)). The frame time is a parameter `deltaTime` of `Tick`.

## Notes on the code

- **Fourth wall-kick candidate.** The candidate is one row straight up: `script.js:213-214` steps back to the original column before `y -= 1`, so `KICKS = [(0,0), (-1,0), (1,0), (0,-1)]`.
- **Spawn.** `startGame` sets `nextPiece` before it calls `spawnPiece`, so the `createPiece(getRandomPiece())` fallback of `spawnPiece` never runs in practice. The model keeps it, as the `fallback` parameter.
- **Current piece on restart.** `startGame` does not reset `currentPiece`; the spawn replaces it.

## Model

| member | source | states |
|---|---|---|
| Grid.EmptyRow | script.js:248 | `Array(COLS).fill(0)`: a row of COLS cells, all 0 |
| Grid.InitBoard | script.js:145-147 | the new board is ROWS x COLS and every cell is 0 |
| Grid.EmptyRowNotFull | script.js:246-248 | an empty row is not full, so the re-check after a clear terminates on the inserted rows |
| Grid.Full | script.js:246 | `every(cell => cell !== 0)`: no cell of the row is 0; its properties are in Grid.EmptyRowNotFull and Grid.ClearedBoardShape |
| Grid.ClearedBoard | script.js:245-252 | the specification of the row scan: one empty row for every full row, then the non-full rows in their order; its properties are in Grid.ClearedBoardShape, Grid.ClearedNoFullIsIdentity and Grid.ClearedBoardIdempotent |
| Grid.KeptRowsLength | script.js:245-252 | every row is either kept or counted as cleared, so the board keeps ROWS rows |
| Grid.KeptRowsFromInput | script.js:245-252 | every kept row comes from the input and is not full |
| Grid.SplitRows | script.js:245-252 | counting and filtering full rows distribute over concatenation |
| Grid.KeptRowsOfNoFull | script.js:245-252 | rows none of which is full are kept as they are, and none is counted |
| Grid.ClearedBoardShape | script.js:245-252 | the cleared board is ROWS x COLS, its top `count` rows are 0, below them the non-full rows in their original order, and no full row remains |
| Grid.ClearedNoFullIsIdentity | script.js:245-252 | clearing a board without a full row changes nothing and clears 0 rows |
| Grid.ClearedBoardIdempotent | script.js:245-252 | clearing twice is clearing once; the second clear finds no full row |
| Grid.ClearOneFullRow | script.js:245-252 | with exactly one full row, the clear removes it, inserts one empty row on top and shifts the rows above down by one |
| Grid.ScanningRows | script.js:245-252 | the rows of the board part-way through the bottom-up scan: the inserted empty rows, then the unexamined rows in place |
| Grid.ScanRemovesFull | script.js:246-250 | `splice` plus `unshift` at a full row gives the next scan state, with one more row counted |
| Grid.ScanKeeps | script.js:245-251 | passing a row that is not full leaves the board unchanged and the count as it was |
| Grid.ScanDone | script.js:245-252 | when the scan ends, the board is the empty rows followed by the kept rows |
| Grid.ScanStart | script.js:244-245 | the scan starts at the bottom row of the unchanged board with nothing counted |
| Grid.ScanFull | script.js:246-250 | at a full row, `splice` plus `unshift` and re-examining the same index keeps the scan state, with one row fewer unexamined and one more counted |
| Grid.ScanNotFull | script.js:245-251 | at a row that is not full, moving up one index keeps the scan state with the board and count unchanged |
| Grid.ScanEnd | script.js:245-252 | when the index passes the top row, the board is the cleared board and the count is the number of full rows of the input |
| Grid.RemoveOneFullRow | script.js:245-252 | one full row between rows that are not full: the clear keeps exactly the other rows, in order, and counts one row |
| Grid.ConsRow | script.js:245-252 | a row put in front of others is kept or counted according to whether it is full |
| Grid.FullRowsWithin | script.js:245-252 | if every full row lies in [lo, hi), there are at most that many |
| Pieces.CatalogWellFormed | script.js:17-60 | every catalog shape is square with at least one occupied cell |
| Pieces.CreatePiece | script.js:151-158 | the new piece has catalog shape t and colour id t + 1; it starts at row 0, centred (x + width/2 == COLS/2), and lies within the columns |
| Pieces.ReverseSeq | script.js:192 | the reversed row has the same length and element k is element n-1-k of the input |
| Pieces.Column | script.js:192 | `shape.map(row => row[i])` is column i, top to bottom |
| Pieces.RotateShape | script.js:191-193 | the rotated shape is N x N with rotated[i][j] == shape[N-1-j][i] |
| Pieces.HalfTurn | script.js:191-193 | two quarter turns map cell (i, j) to (N-1-i, N-1-j) |
| Pieces.HalfTurnsCancel | script.js:191-193 | two half turns give back the shape |
| Pieces.RotateFourTimes | script.js:191-193 | four rotations give back the original shape |
| Pieces.RotatedCells | script.js:191-193 | the occupied cells of the rotated shape are exactly the turned occupied cells |
| Pieces.TurnedCardinality | script.js:191-193 | turning cells is injective, so a set of cells keeps its size |
| Pieces.RotatePreservesCells | script.js:191-193 | rotation keeps the number of occupied cells, so a well-formed shape stays well formed |
| Engine.Collides | script.js:175-181 | the reference test: some occupied cell of the shape, displaced, is left of column 0, right of the last column, below the last row, or on a filled cell at a row >= 0; Engine.Collide is proved equal to it |
| Engine.Collide | script.js:167-186 | the nested scan returns true exactly when some occupied cell, displaced, is left of column 0, right of the last column, below the last row, or on a filled cell at a row >= 0 |
| Engine.Shifted | script.js:277-278 | the piece with x and y increased by dx and dy; Engine.ShiftedCollides relates the collision test to it |
| Engine.ShiftedCollides | script.js:167-186 | testing a displacement equals testing the displaced piece in place |
| Engine.AboveFloor | script.js:167-186 | a piece that can move down lies above the last row |
| Engine.Placed | script.js:226-239 | the locked board is well formed; a cell under an occupied piece cell at a row >= 0 holds the piece's colour id, every other cell is unchanged |
| Engine.FitsOnBoard | script.js:226-239 | every occupied cell of a piece that does not collide is on the board unless it is above the top row |
| Engine.PlacedFits | script.js:226-239 | locking a piece that does not collide writes only onto empty cells in bounds, and each of those cells gets the colour id |
| Engine.PlacedFullRows | script.js:226-239 | on a board with no full row, locking an N x N piece leaves at most N full rows, so the score table index stays within 0..4 |
| Engine.PartlyPlaced | script.js:228-237 | the board part-way through the nested scan is still ROWS x COLS |
| Engine.PartlyPlacedStart | script.js:226-239 | before the scan nothing has been written |
| Engine.PartlyPlacedWrite | script.js:230-234 | writing an occupied cell at a row >= 0 writes in bounds and adds exactly that cell to the written part |
| Engine.PartlyPlacedSkip | script.js:229-233 | an empty shape cell, or one above the top row, adds nothing |
| Engine.PartlyPlacedRow | script.js:228-237 | the end of a shape row is the start of the next one |
| Engine.PartlyPlacedDone | script.js:226-239 | after the last shape row the board is the locked board |
| Engine.SpawnFitsEmptyBoard | script.js:151-158 | a newly created piece does not collide with the empty board |
| Engine.FirstFree | script.js:201-222 | the first fitting displacement in kick order: every earlier candidate collides, and the chosen one does not |
| Engine.Rotated | script.js:195-198 | the turned piece keeps its position and colour |
| Engine.RotateWithKick | script.js:195-222 | the result is the rotated piece at the first fitting kick, which does not collide, or else the original piece; the colour id is kept and a piece that fitted still fits |
| Engine.RotatePiece | script.js:191-222 | the cascade of collision tests returns exactly the kick policy's result |
| Engine.DropDistance | script.js:288-291 | the number of one-row falls before the next is blocked, by recursion on the rows left below the piece; its properties are in Engine.DropLands, Engine.DropPath and Engine.DropStep |
| Engine.DropLands | script.js:288-291 | after the drop distance the move one row further down is blocked, and a piece that fitted where it started still fits there |
| Engine.DropPath | script.js:288-291 | every one-row move before the drop distance is free |
| Engine.DropStep | script.js:288-291 | a piece that can fall one row has exactly one row less to fall from there; a piece that cannot has none |
| Engine.DropAdvance | script.js:288-290 | one more successful one-row move leaves one row less to fall, so the loop terminates |
| Engine.DropStop | script.js:288-291 | the loop stops at the first blocked row after exactly the drop distance |
| Engine.Landed | script.js:288-291 | the landed piece has the same shape, colour and column, is lower by the drop distance, cannot move one more row down, and fits if the piece fitted |
| Scoring.IntervalFor | script.js:265 | the gravity interval is at least 100 ms, and at most 1000 ms from level 1 on |
| Scoring.StartSession | script.js:452-455 | the reset counters satisfy the progression, at level 1 with a 1000 ms interval |
| Scoring.AfterClear | script.js:254-266 | clearing 0 rows changes nothing; otherwise lines grow by n, score by the table entry times the old level, level becomes max(old, lines/10 + 1), never falls, and the interval stays in [100, 1000] and never grows |
| Scoring.LevelAfterLines | script.js:259-265 | after 10k lines the level is k + 1 and the interval is max(100, 1000 - 50k) |
| Rules.Initial | script.js:62-73 | the initial globals: no board, no pieces, reset counters, not running, and valid |
| Rules.Over | script.js:492-494 | game over clears both flags and changes nothing else |
| Rules.OverValid | script.js:492-494 | game over keeps the invariant |
| Rules.Spawned | script.js:304-310 | the old next piece (or a fallback) becomes current and a new piece is next; the game stops exactly when the new current piece collides; board and counters are not modified |
| Rules.Started | script.js:450-462 | `startGame`: empty board, reset counters and accumulator, running and unpaused, the first drawn piece as next, then a spawn; its properties are in Rules.StartedFresh |
| Rules.StartedFresh | script.js:450-462 | from any state, a start gives a valid, running, unpaused game with an empty board, reset counters, the first drawn piece current and the second next |
| Rules.Paused | script.js:472-475 | a running game toggles its paused flag; otherwise nothing changes |
| Rules.PauseResume | script.js:472-475 | pausing twice gives back the same state |
| Rules.PausedValid | script.js:472-475 | pausing keeps the invariant |
| Rules.MoveOutcome | script.js:273-282 | `undefined` (None) exactly without a piece, when not running or when paused; otherwise true iff the displaced piece does not collide |
| Rules.Moved | script.js:273-282 | a move keeps the board well formed and the piece square, and keeps a sound state sound |
| Rules.MovedValid | script.js:273-282 | a move keeps the invariant |
| Rules.MoveBack | script.js:273-282 | after a successful move the opposite move succeeds and restores the state |
| Rules.Turned | script.js:579-580 | the current piece replaced by its kicked rotation, nothing else changed; its properties are in Rules.TurnedValid and Engine.RotateWithKick |
| Rules.TurnedValid | script.js:579-580 | replacing the piece by its kicked rotation keeps the invariant |
| Rules.Locked | script.js:226-239 | locking changes only the board, to the locked board, and keeps the state sound |
| Rules.Cleared | script.js:242-267 | the board becomes the cleared board, in which no row is full; the counters are updated for the rows removed; nothing else changes and the state stays sound |
| Rules.Settled | script.js:297-300 | `placePiece(); clearLines(); spawnPiece();` as lock, clear and spawn of the state; its properties are in Rules.SettledFacts |
| Rules.SettledFacts | script.js:297-300 | lock, clear and spawn keep the invariant; at most as many rows as the piece is tall are cleared; lines and score grow by the clear's amounts; the old next piece is current; the game continues iff it fits; the accumulator is kept |
| Rules.Dropped | script.js:285-295 | before the lock the piece rests where one more row down is blocked, in the same column, and the score has grown by exactly two points per row fallen |
| Rules.HardDropped | script.js:285-301 | `hardDrop`: unchanged without a piece, when not running or when paused; otherwise the dropped state, then lock, clear and spawn; its properties are in Rules.HardDropFacts |
| Rules.HardDropFacts | script.js:285-301 | a hard drop locks the piece where one more row is blocked, scores at least two points per row fallen, keeps the invariant and makes the old next piece current |
| Rules.Ticked | script.js:425-443 | one frame of `gameLoop`: nothing unless running; the elapsed time is added; past the interval, a one-row fall or else lock, clear and spawn, and the accumulator restarts at 0; its properties are in Rules.TickFacts |
| Rules.TickFacts | script.js:425-443 | a frame keeps the invariant; up to the interval it only accumulates time; past it, it makes exactly one one-row fall or one lock-clear-spawn, and resets the accumulator to 0 |
| Rules.KeyHandled | script.js:563-587 | `handleKeyAction`: nothing unless running and unpaused; left, right and down move the piece, a successful down adds one point, up rotates, the space bar hard-drops; its properties are in Rules.KeyFacts |
| Rules.KeyFacts | script.js:563-587 | a key keeps the invariant; it is ignored when not running or when paused; a soft drop that moves adds exactly 1 to the score, one that is blocked changes nothing |
| Rules.Step | script.js:425-587 | every event keeps the invariant |
| Rules.Run | script.js:425-587 | every state reachable from a valid state by events is valid |
| Tetris.Game.constructor | script.js:62-73 | the fields start as the module globals do, which is a valid state |
| Tetris.Game.StartGame | script.js:450-462 | the fields become the started state, which is valid |
| Tetris.Game.PauseGame | script.js:472-475 | the fields become the paused state |
| Tetris.Game.GameOver | script.js:492-494 | only the two flags change, both to false |
| Tetris.Game.MovePiece | script.js:273-282 | returns None, true or false as the guard and the collision test decide, and moves the piece exactly when it returns true |
| Tetris.Game.PlacePiece | script.js:226-239 | the nested loops leave the board equal to the locked board |
| Tetris.Game.PlaceRow | script.js:229-237 | the inner loop writes exactly the cells of one shape row |
| Tetris.Game.RemoveFullRows | script.js:243-252 | the scan leaves the cleared board and returns the number of full rows of the input |
| Tetris.Game.ClearLines | script.js:242-267 | the board becomes the cleared board and the counters become the session update for that many rows |
| Tetris.Game.SpawnPiece | script.js:304-310 | the fields become the spawned state |
| Tetris.Game.Settle | script.js:297-300 | `placePiece(); clearLines(); spawnPiece();` leaves the settled state |
| Tetris.Game.DropToFloor | script.js:288-291 | the loop returns the drop distance and leaves the piece landed |
| Tetris.Game.HardDrop | script.js:285-301 | the fields become the hard-dropped state, which is valid |
| Tetris.Game.Tick | script.js:425-443 | the fields become the state after one frame, which is valid |
| Tetris.Game.HandleKeyAction | script.js:563-587 | the fields become the state after the key, which is valid |

## Left out

- Canvas drawing (`drawBlock`, `drawBoard`, `drawNextPiece`, `draw`), `resizeCanvas`, `updateUI` and the overlay and button texts: these only write to the DOM and the canvas.
- `requestAnimationFrame`, `cancelAnimationFrame`, `performance.now` and `lastTime`: host timing. `Tick` takes the elapsed time `deltaTime` as a parameter.
- Tick: `deltaTime` is an `int`, not a `nat`. After a resume, `gameLoop()` runs with time 0 while `lastTime` holds `performance.now()`, so the source can see a negative delta.
- Tick: `deltaTime` is a whole number of milliseconds, while `requestAnimationFrame` timestamps are fractional. No trigger is lost, because the interval is whole: the ceilings of the partial sums since the last reset are an integer run that passes the interval on the same frames.
- Tick: a frame is modelled in any state, with the source's meaning. The source can deliver a frame while paused. A game over inside a frame (`script.js:440`, then `309`, then `495`) cancels only the frame that is already running, and `script.js:446` then schedules one more. A start in that window (`script.js:520-529` or `705-707`, then `468`) adds a second `requestAnimationFrame` chain. `pauseGame` cancels only the newest frame id (`script.js:478`), so the old chain keeps calling `gameLoop`, which checks only `gameRunning` (`script.js:426`). Once the counter passes the interval, `movePiece` returns `undefined` (`script.js:274`) and the piece locks while paused (`script.js:434-440`). The model has one frame per `Frame` event and does not track the chains themselves.
- `Math.random` in `getRandomPiece`: each choice is a type index in [0, 7), passed as a parameter.
- Key repeat, `handleKeyDown`/`handleKeyUp` and the touch and button listeners: the timers and the event plumbing are not modelled. `HandleKeyAction` takes the key as one of the five intents. Note that `handleKeyDown` passes `event.code`, so the space bar arrives as `'Space'`, which `handleKeyAction` does not match.
- Tetris.Game.Settle is not a function of the source. It names the sequence `placePiece(); clearLines(); spawnPiece();` that `hardDrop` and `gameLoop` run.
- Tetris.Game.PlaceRow, Tetris.Game.RemoveFullRows and Tetris.Game.DropToFloor are the inner loop of `placePiece`, the scan of `clearLines` and the loop of `hardDrop`, each written as its own method.
- Pieces are values. `movePiece` updates `currentPiece.x/y` in place, but no other reference to that object is ever used, so updating in place and replacing the value are the same.
- Integers are unbounded. Scores and line totals in the source are JavaScript numbers, and they stay exact far beyond any reachable game.
