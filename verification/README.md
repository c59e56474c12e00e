# SwiftTetris game logic in Dafny

This project models the game-logic engine inside the SpriteKit scene of
SwiftTetris (`SwiftTetris/GameScene.swift`) and proves properties of it.
It covers:

- the seven tetromino kinds with their literal rotation tables;
- the column-major 10 x 20 board, with row 0 as the floor;
- placement, movement, rotation with six wall kicks, and hard drop;
- locking a piece, line-clear scoring, levels and spawning;
- the 31-bit linear congruential generator that picks the next kind;
- the menu / playing / paused / game-over guards.

The modules follow the Swift file's structure:

- `Tiles` — board size, `TileColor`, `Point`, and Swift's truncating `%`.
- `Pieces` — `Tetromino`, the rotation tables and the rotation-index arithmetic.
- `Board` — `isEmpty`, `set`, `clearLine` and `findFullLines`. Each is a pure
  function over `seq<seq<TileColor>>`. The two loops (`ClearLineInPlace`,
  `FindFullLines`) are also written as methods and proved equal to the
  functions.
- `LineClear` — clearing several rows in sequence, ascending as the scene
  does it and descending as intended, with a row-by-row view of the board.
- `Random` — `nextRandom` and `pickKind`.
- `Game` — the scene state (`Scene`) and its transitions. `Inv` is the
  invariant every transition keeps:
  - the piece comes from the factory;
  - score and lines are non-negative;
  - the level is `lines / 10 + 1`;
  - the seed is a 31-bit value;
  - a piece in play always sits on free cells inside the board.

Facts about the code that shape the model:

- The level starts at 1 (`SwiftTetris/GameScene.swift:363`), and the line
  points are multiplied by the level itself (`:467-470`).
- `canPlace` rejects any block at row 20 or above (`:415`).
- `spawnRow` is 19 (`:9`), and a spawn that does not fit ends the game at
  once (`:396-406`).
- `lockCurrent` writes only the blocks that lie on the board and has no
  top-out test (`:426-432`).
- Several full rows are cleared one after another in ascending index order
  (`:479-481`).

## Model

| member | source | states |
|---|---|---|
| Tiles.Rem | SwiftTetris/GameScene.swift:52-53 | Swift's `%` truncates toward zero: for a non-negative dividend it is the mathematical remainder; for a negative one it lies in (-b, 0] and is 0 when b divides a and the mathematical remainder minus b otherwise |
| Pieces.Rotations | SwiftTetris/GameScene.swift:57-134 | every kind has four rotation states, each with four distinct offsets inside a 4 x 4 box; O's four states are the same |
| Pieces.MakeTetromino | SwiftTetris/GameScene.swift:57-70 | a new piece carries its kind's own table, is in rotation 0, and has its origin at column 4 of the top row 19 |
| Pieces.Blocks | SwiftTetris/GameScene.swift:48-50 | the current state of a well-formed piece has four distinct offsets in the box |
| Pieces.RotateClockwise | SwiftTetris/GameScene.swift:52 | the index stays in range and wraps from the last state to 0; kind, table and position are untouched |
| Pieces.RotateCounter | SwiftTetris/GameScene.swift:53 | the index stays in range and wraps from 0 to the last state; kind, table and position are untouched |
| Pieces.RotationsUndoEachOther | SwiftTetris/GameScene.swift:52-53 | a clockwise turn followed by a counter-clockwise turn gives back the same piece, and so does the reverse order |
| Pieces.FourTurnsIdentity | SwiftTetris/GameScene.swift:52 | four clockwise turns give back the same piece |
| Pieces.RotationKeepsValid | SwiftTetris/GameScene.swift:52-53 | rotating keeps a piece's table and range valid, and the O piece covers the same offsets after any turn |
| Board.Empty | SwiftTetris/GameScene.swift:139-141 | the initial grid is 10 columns of 20 rows, every cell empty |
| Board.IsEmpty | SwiftTetris/GameScene.swift:143-146 | false for any coordinate off the board; on the board, true exactly when the cell holds no colour |
| Board.Set | SwiftTetris/GameScene.swift:148-151 | off the board the grid is unchanged; on the board exactly cell (x, y) takes the colour and every other cell keeps its own |
| Board.ClearLine | SwiftTetris/GameScene.swift:153-165 | rows below y are unchanged; each row from y to 18 becomes the old row above it; the top row becomes empty; the shape is kept |
| Board.ClearLineInPlace | SwiftTetris/GameScene.swift:153-165 | the three loops of `clearLine` produce exactly the grid `ClearLine` describes |
| Board.FullRowsBelowSpec | SwiftTetris/GameScene.swift:167-177 | the full rows found below row n are strictly ascending and below n, and a row is listed iff every column of it is filled |
| Board.FullRowsInRange | SwiftTetris/GameScene.swift:167-177 | the full rows below n are between 0 and n, and there are at most n of them |
| Board.ScanRow | SwiftTetris/GameScene.swift:170-173 | the inner loop with its early break reports a row full iff no cell in it is empty |
| Board.FindFullLines | SwiftTetris/GameScene.swift:167-177 | the scan returns the strictly ascending list of rows in [0, 20) that are completely filled, and no other row |
| Board.FullLines | SwiftTetris/GameScene.swift:167-177 | the full-line scan lists at most 20 rows, each in [0, 20); `Board.FullRowsBelowSpec` gives its order and contents |
| Board.NoFullLinesOnEmpty | SwiftTetris/GameScene.swift:139-141 | an empty board has no full line |
| LineClear.ClearLineRows | SwiftTetris/GameScene.swift:153-165 | seen as a list of rows, clearing row y deletes that row and appends an empty row on top |
| LineClear.FullRowsBelowAgree | SwiftTetris/GameScene.swift:167-177 | the full rows below n depend only on the rows below n |
| LineClear.ClearRowsInOrder | SwiftTetris/GameScene.swift:479-481 | the scene's clear loop keeps the 10 x 20 shape and leaves the board unchanged for an empty list, and a single row is one `ClearLine`; `LineClear.AscendingClearLeavesFullRow` shows what it does to two full rows |
| LineClear.ClearRowsDescending | SwiftTetris/GameScene.swift:479-481 | the same loop run from the highest row down keeps the shape, changes nothing for an empty list and is one `ClearLine` for a single row; `LineClear.DescendingClearLeavesNoFullRow` proves it removes every full row |
| LineClear.DescendingClearCompactsBelow | SwiftTetris/GameScene.swift:477-481 | clearing the full rows below n from the highest down keeps the other rows below n in order, leaves the rows above n in place, and adds one empty row per cleared row |
| LineClear.DescendingClearAll | SwiftTetris/GameScene.swift:477-481 | over the whole board, clearing the full rows from the highest down keeps the other rows in their order and adds one empty row on top per cleared row |
| LineClear.DescendingClearLeavesNoFullRow | SwiftTetris/GameScene.swift:477-481 | after the full rows are cleared from the highest down, the board has no full row |
| LineClear.AscendingClearLeavesFullRow | SwiftTetris/GameScene.swift:479-481 | on a board whose rows 0 and 1 are full, clearing them in ascending order leaves row 0 full |
| Random.Wrap64 | SwiftTetris/GameScene.swift:377 | the `&*` and `&+` wrap: the result is a signed 64-bit value congruent to its input modulo 2^64 and equal to it when it already fits |
| Random.Low31 | SwiftTetris/GameScene.swift:377 | the `& 0x7fffffff` mask: a value in [0, 2^31) congruent to the input modulo 2^31 |
| Random.NextRandom | SwiftTetris/GameScene.swift:376-379 | the new seed is in [0, 2^31) |
| Random.NextRandomIsLcg | SwiftTetris/GameScene.swift:376-379 | the wrapped and masked step equals (1103515245 * seed + 12345) mod 2^31 |
| Random.KindFor | SwiftTetris/GameScene.swift:383-391 | values 0 to 6 map to I, J, L, O, S, T, Z in that order, every other value to Z, and never to an empty tile |
| Random.PickKind | SwiftTetris/GameScene.swift:381-392 | the kind is entry `(new seed) mod 7` of I, J, L, O, S, T, Z, never empty, and the seed advances by one step |
| Random.FirstDraws | SwiftTetris/GameScene.swift:376-392 | from the initial seed 0xC0FFEE the first three draws are S, O and I |
| Game.InitialScene | SwiftTetris/GameScene.swift:184-217 | the scene starts in the menu with score 0, level 1, no lines, an empty board, next kind I, the seed 0xC0FFEE and the lock flag clear, and satisfies the invariant |
| Game.BlocksFit | SwiftTetris/GameScene.swift:411-419 | the early-exit loop succeeds iff every block lands on an empty cell on the board |
| Game.CanPlace | SwiftTetris/GameScene.swift:411-419 | a piece can be placed iff every block lies in [0,10) x [0,20) on an empty cell |
| Game.AttemptMove | SwiftTetris/GameScene.swift:757-786 | when not playing, nothing changes and the result is false; otherwise the move succeeds iff the shifted piece can be placed, and then it is committed; on failure the piece stays; only the piece and the lock flag change, with a vertical success disarming the flag and a failed downward move arming it |
| Game.MoveThenBack | SwiftTetris/GameScene.swift:757-786 | a successful move can be undone by the opposite move |
| Game.FirstKick | SwiftTetris/GameScene.swift:803-813 | the search returns the first kick from index i on at which the rotated piece fits, or reports that none fits |
| Game.AttemptRotate | SwiftTetris/GameScene.swift:788-817 | when not playing, nothing changes; on success the piece is rotated once clockwise and placed at the first of the six kicks where it fits, with all earlier kicks failing; if all six fail, nothing changes |
| Game.WriteCells | SwiftTetris/GameScene.swift:426-432 | every on-board cell a block covers takes the piece's colour; every other cell keeps its colour; blocks off the board are skipped |
| Game.Stamp | SwiftTetris/GameScene.swift:426-432 | a board cell a block of the piece covers takes the piece's kind, every other cell keeps its colour, and the shape is kept |
| Game.LinePoints | SwiftTetris/GameScene.swift:466-472 | the base points are non-negative, at most 1200, and positive exactly for 1 to 4 rows |
| Game.HandleLineClears | SwiftTetris/GameScene.swift:460-486 | the count is the number of full rows; with no full rows nothing changes; otherwise the lines grow by the count, the score grows by level times 40/100/300/1200, the board is the ascending clear of exactly the full rows, and only board, score and lines change |
| Game.UpdateLevel | SwiftTetris/GameScene.swift:451-458 | only the level changes, and it becomes lines / 10 + 1 |
| Game.LevelProgression | SwiftTetris/GameScene.swift:451-454 | the level is at least 1, never drops as lines grow, rises by one every ten lines, and is 1 below ten lines |
| Game.Spawn | SwiftTetris/GameScene.swift:396-409 | the next kind becomes the current piece at the spawn position, a new next kind is drawn, the lock flag is cleared, the game ends iff the new piece does not fit, and board and counters are unchanged |
| Game.Settle | SwiftTetris/GameScene.swift:426-441 | the piece is painted in, the full rows of the painted board are scored and cleared, and the level is recomputed only when rows were cleared |
| Game.LockCurrent | SwiftTetris/GameScene.swift:421-449 | when not playing nothing changes; otherwise the next piece becomes current, the game continues iff it fits, board and counters are the settled ones, the next kind and seed are the generator's next draw, and the lock flag is cleared |
| Game.LandedInv | SwiftTetris/GameScene.swift:819-831 | landing a piece on a row where it fits keeps the invariant |
| Game.Landed | SwiftTetris/GameScene.swift:822-829 | the piece is d rows lower with the same kind, table and rotation, the score gains exactly 2d, the lock flag is armed, and nothing else changes |
| Game.DropSteps | SwiftTetris/GameScene.swift:823-825 | the loop stops after d steps where every step 1..d fit and step d+1 does not; the piece is d rows lower and the lock flag is armed |
| Game.HardDrop | SwiftTetris/GameScene.swift:819-831 | when not playing nothing changes; otherwise the piece falls until one more row would not fit, the score gains two points per row, then the piece locks; the invariant is kept |
| Game.StartGame | SwiftTetris/GameScene.swift:354-372 | counters reset to score 0, level 1, no lines; the board is left as it is; the first draw becomes the current piece at the spawn position and the second draw the next kind, the lock flag is cleared, and the game is playing exactly when that piece fits on the board, otherwise over; the invariant holds |
| Game.RestartGame | SwiftTetris/GameScene.swift:585-599 | the board is emptied and a new game starts with reset counters: the first draw is the current piece, the second draw the next kind, the lock flag is cleared, and the game is playing exactly when the piece fits on the empty board, otherwise over; the invariant holds |
| Game.ClearBoard | SwiftTetris/GameScene.swift:592-596 | the nested loops of the restart set every cell to empty |
| Game.MovePreservesInv | SwiftTetris/GameScene.swift:757-786 | a move attempt keeps the invariant |
| Game.RotatePreservesInv | SwiftTetris/GameScene.swift:788-817 | a rotation attempt keeps the invariant |
| Game.SettleKeepsCounters | SwiftTetris/GameScene.swift:434-447 | after scoring, the counters are still consistent and the score has not dropped |
| Game.SpawnKeepsInv | SwiftTetris/GameScene.swift:396-409 | a spawn keeps the invariant: the new piece either fits and play goes on, or the game is over |
| Game.LockPreservesInv | SwiftTetris/GameScene.swift:421-449 | locking keeps the invariant |
| Game.PauseResumePreserveInv | SwiftTetris/GameScene.swift:601-628 | pausing a live game and resuming a paused one keep the invariant, and resuming undoes pausing |
| Game.SpawnBlockedAtTop | SwiftTetris/GameScene.swift:396-406 | on any board, a new L, O, S, T or Z piece cannot be placed at the spawn row |
| Game.SpawnFitsAtTop | SwiftTetris/GameScene.swift:396-406 | a new I or J piece fits at the spawn row on an empty board |
| Game.FirstGameEndsAtOnce | SwiftTetris/GameScene.swift:354-372 | the first game from the initial seed draws S and is over at once |
| Game.FittedSpawn | SwiftTetris/GameScene.swift:57-70 | a piece made one row lower is valid, in rotation 0, at column 4 of row 18 |
| Game.FittedSpawnFits | SwiftTetris/GameScene.swift:57-134 | made one row lower, every kind fits on an empty board, while L, O, S, T and Z do not fit at row 19 |

## Findings

| source | as written | input that shows it | evidently intended | confidence | as-written member | corrected member |
|---|---|---|---|---|---|---|
| SwiftTetris/GameScene.swift:479-481 | several full rows are cleared one after another in ascending index order, and each `clearLine` shifts the rows above it down | a board whose rows 0 and 1 are full: clearing row 0 moves the old row 1 to row 0, and the second call then clears the wrong row, so row 0 stays full | remove every full row, as a highest-index-first order does | high; not executed | LineClear.AscendingClearLeavesFullRow | LineClear.DescendingClearLeavesNoFullRow |
| SwiftTetris/GameScene.swift:9 | pieces spawn with their origin on row 19, and `canPlace` rejects any block at row 20 or above | any board, even an empty one: a new L, O, S, T or Z piece has a block at row 20, so the spawn ends the game; from the initial seed the first draw is S, so the first game ends at once | spawn low enough that every kind fits on an empty board, i.e. row 18 | high; not executed | Game.SpawnBlockedAtTop | Game.FittedSpawnFits |

The corrected definitions are `LineClear.ClearRowsDescending` and
`Game.FittedSpawn`. The engine in `Game` keeps the code's behaviour:
`Game.HandleLineClears` clears rows with `LineClear.ClearRowsInOrder`, and
`Game.Spawn` uses `Pieces.MakeTetromino` at row 19. This way each
transition matches the scene it models. The two findings sit beside the
engine.

## Left out

- Rendering, the menu and game-over labels, the next-piece preview, and
  `addTetrisEffect` are SpriteKit drawing with no effect on the game state.
- Sound: every `run(...Action)` call and the background music player.
- Touch input and gesture decoding use CGPoint and `sqrt` geometry, which is
  outside the logic.
- The frame loop, gravity and the lock delay are wall-clock timing. The
  `gravityInterval` formula is floating point. The lock timer is kept only as
  the flag `lockArmed`: a failed downward move arms it, and a successful
  vertical move or a spawn clears it.
- The clear animation and its `asyncAfter` deferral are asynchronous. The
  scene removes the rows half a second later, after the next piece has
  spawned. The model removes them in one step, right after scoring and before
  the spawn.
- `full.sorted()` is the identity here, because `FullLines` is already
  ascending.
- `holdPiece` and `canHold` are written but never read by any game logic.
- The optional `current` is nil before the first start. `Game.InitialScene`
  puts an unused I piece in its place.
- Swift traps on `Int` overflow of the score and line counters. The model's
  integers are unbounded, and those counters stay far below 2^63 in play.
- Random.Low31: the mask `& 0x7fffffff` is stated as the remainder modulo
  2^31. On two's-complement values these agree, but the model does not
  derive that from bit operations.
- `makeTetromino`'s `spawnX` parameter is only ever used with its default,
  so `Pieces.MakeTetromino` fixes it to column 4. The `.none` branch traps,
  so it is excluded by the requirement `kind != None`.
- `GameViewController.swift` only presents the scene and is not part of
  this model.
