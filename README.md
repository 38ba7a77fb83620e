# Tetrixa game engine, modelled in Dafny

This project models the simulation core of the Tetrixa falling-block game:

- the piece catalog: four pieces (I, O, T and L), each an int matrix with a colour, and clockwise rotation;
- the engine that owns the board: collision, locking, line clearing, scoring and levels, spawning, the move, rotate and drop commands, the ghost row, the RUNNING / PAUSED / GAME_OVER transitions and the fall delay;
- the settings layer that clamps grid width, grid height and game speed when they are read or written, and maps speed to a base delay.

Layout:

- `optional.dfy` holds `Option`, which stands for Kotlin's nullable values.
- `pieces.dfy` (module `Pieces`) models `Tetromino.kt`.
- `board.dfy` (module `Board`) gives value-level definitions of the grid operations of `TetrisGame.kt`: collision, the locked grid, the recorded full rows, one row shift, the landing row. The engine's proofs are stated against these, and the lemmas are proved about them.
- `engine.dfy` (module `Engine`) holds the class `TetrisGame`. Its grid is an `array2<int>` written in place by the same nested loops as the source. Its other fields are `currentTetromino`, `currentX`, `currentY`, `score`, `level`, `gameState` and `initialFallDelayMs`. The grid dimensions are `const` fields.
- `settings.dfy` (module `Settings`) holds the class `SettingsManager`. Its preference store is a `map<string, int>` field.

The object invariant `TetrisGame.Valid()` holds after every command. It says four things. The grid keeps its fixed dimensions. The score is at least 0. The level is always `score / 1000 + 1`, so it is at least 1. Outside GAME_OVER there is a piece, the piece is well formed, and it does not collide where it stands.

Each command's postcondition gives the new state as a function of the old one:

- `MovedDown` describes a gravity step.
- `LockedAndRespawned` describes the lock sequence: lock, then clear and score, then spawn.
- `JustSpawned` describes a freshly spawned piece.

The random piece choice is an index `pick` (0 to 3) passed to every command that may spawn a piece.

Behaviours of the code that the model keeps as they are:

- `clearLines` records the full rows once, bottom first. It then runs one shift per recorded row and never re-indexes the rows still to do. With two full rows `a < b` (rows 2 and 5 of a 10-row grid, say), the shift for `b` moves the old row `a` to `a + 1`. The shift for `a` then deletes the old row `a - 1` instead. So a full row survives and a non-full row is lost, yet both rows are scored. `Board.ClearedTwoRowsKeepsFullRow` proves this for every such grid. The model keeps this behaviour and proves only the per-shift property and the one-row case, not general compaction.
- The spawn column is `(gridWidth - width) / 2` (`Engine.SpawnX`) under Kotlin's truncating division. It is modelled with `Engine.TruncDiv`. This differs from a floor only when the piece is wider than the grid by an odd number of columns. Then the extra overhanging column is on the right, where a floor would put it on the left.
- `startNewGame` calls `startGameLoop` even when the first piece collides. The timer is not modelled, and its callback does nothing outside RUNNING.
- Locking drops cells outside the grid on all four sides, not only above the top.
- The engine does not validate its dimensions. The constructor takes naturals. In Kotlin a negative height throws at allocation, and so does a negative width when the height is positive; a negative width with height 0 allocates an empty grid. The application passes clamped settings.

## Model

| member | source | states |
|---|---|---|
| `Pieces.Height` | app/src/main/java/com/tetrixa/Tetromino.kt:14 | the height is the number of rows: 0 only for the empty matrix, and positive for every well-formed shape |
| `Pieces.Width` | app/src/main/java/com/tetrixa/Tetromino.kt:13 | the width is the length of row 0, which every row of a rectangular shape shares |
| `Pieces.Rotated` | app/src/main/java/com/tetrixa/Tetromino.kt:19-31 | an R x C shape turns into a rectangular C x R shape with `rotated[j][R-1-i] == shape[i][j]` |
| `Pieces.Rotate` | app/src/main/java/com/tetrixa/Tetromino.kt:19-31 | filling a fresh cols x rows buffer cell by cell gives exactly `Rotated(shape)`, with the colour kept; the original piece is an unchanged value |
| `Pieces.RotatedWellFormed` | app/src/main/java/com/tetrixa/Tetromino.kt:19-31 | rotating a non-empty rectangle with an occupied cell gives another one, so the engine's loops keep a shape with an occupied cell |
| `Pieces.RotatedDimensions` | app/src/main/java/com/tetrixa/Tetromino.kt:13-31 | rotation swaps the dimensions: `getHeight` of the rotated piece is the old `getWidth` and the reverse |
| `Pieces.FourRotations` | app/src/main/java/com/tetrixa/Tetromino.kt:16-31 | four clockwise rotations give back the original matrix |
| `Pieces.RotatedCellCount` | app/src/main/java/com/tetrixa/Tetromino.kt:24-28 | rotation keeps the number of nonzero cells |
| `Pieces.Rgb` | app/src/main/java/com/tetrixa/Tetromino.kt:44 | `Color.rgb` with an opaque alpha is a negative 32-bit Int, so a piece colour is never 0 (empty) |
| `Pieces.RgbChannels` | app/src/main/java/com/tetrixa/Tetromino.kt:44 | read as an unsigned 32-bit value, the packed colour unpacks to alpha 0xFF and the three given channels |
| `Pieces.CreateAll` | app/src/main/java/com/tetrixa/Tetromino.kt:37-71 | exactly four pieces, I 1x4, O 2x2, T 2x3 and L 2x3, each rectangular with an occupied cell and a nonzero colour |
| `Pieces.CatalogCells` | app/src/main/java/com/tetrixa/Tetromino.kt:37-71 | every catalog piece has only 0/1 cells and exactly four 1 cells |
| `Pieces.GetRandom` | app/src/main/java/com/tetrixa/Tetromino.kt:76-79 | the piece at index `pick` is an element of the catalog, well formed and with a nonzero colour |
| `Board.EmptyGrid` | app/src/main/java/com/tetrixa/TetrisGame.kt:72 | the fresh grid has `gridHeight` rows of `gridWidth` cells, all 0 |
| `Board.FitsAboveFloor` | app/src/main/java/com/tetrixa/TetrisGame.kt:125-127 | a shape with an occupied cell that does not collide at row y has y below the grid height, which bounds the drop loops |
| `Board.LandingY` | app/src/main/java/com/tetrixa/TetrisGame.kt:131-137 | the landing row g is at least the start row, the shape collides at g + 1, and no row strictly between the start and g + 1 collides |
| `Board.LandingYUnique` | app/src/main/java/com/tetrixa/TetrisGame.kt:131-137 | any row with those three properties is the landing row |
| `Board.Locked` | app/src/main/java/com/tetrixa/TetrisGame.kt:169-183 | every occupied shape cell whose target is inside the grid gets the colour; every grid cell not under an occupied shape cell keeps its value |
| `Board.LockFillsEmptyCells` | app/src/main/java/com/tetrixa/TetrisGame.kt:147-183 | locking where the piece does not collide overwrites no nonzero cell, and every occupied shape cell lies inside the side walls and above the floor |
| `Board.FullRowsFrom` | app/src/main/java/com/tetrixa/TetrisGame.kt:192-203 | the rows recorded while scanning from the bottom row up to row `lo` lie in rows `lo` to `|g| - 1`, that is at or below row `lo` |
| `Board.FullRowsFromSpec` | app/src/main/java/com/tetrixa/TetrisGame.kt:192-203 | a row is recorded if and only if every column of it is nonzero, and the record is strictly descending |
| `Board.FullRowsSpec` | app/src/main/java/com/tetrixa/TetrisGame.kt:192-206 | the recorded rows are exactly the full rows, bottom first, so `sortedDescending` leaves them as they are |
| `Board.ShiftDown` | app/src/main/java/com/tetrixa/TetrisGame.kt:207-214 | after one shift for row R, rows below R are unchanged, row r takes the old row r - 1 for 1 <= r <= R, and row 0 is all zero |
| `Board.ApplyShifts` | app/src/main/java/com/tetrixa/TetrisGame.kt:206-215 | running the shift once per recorded row, with no re-indexing, keeps the grid's dimensions |
| `Board.TwoShifts` | app/src/main/java/com/tetrixa/TetrisGame.kt:206-215 | the loop over the record [b, a] is the shift for b followed by the shift for a |
| `Board.ShiftTwice` | app/src/main/java/com/tetrixa/TetrisGame.kt:207-214 | after the shift for b and then for a < b, the old row a sits at row a + 1; rows 0 and 1 are empty; rows 2 to a hold the old rows 0 to a - 2 |
| `Board.ClearedNoFullRows` | app/src/main/java/com/tetrixa/TetrisGame.kt:189-223 | without a full row nothing is recorded and the grid is unchanged |
| `Board.ClearedOneFullRow` | app/src/main/java/com/tetrixa/TetrisGame.kt:189-215 | with exactly one full row, the result is that row deleted and an empty row added on top |
| `Board.ClearedTwoRowsKeepsFullRow` | app/src/main/java/com/tetrixa/TetrisGame.kt:192-218 | with exactly two full rows a < b, both are recorded, yet the old row a is still full at row a + 1 and the old row a - 1 is gone |
| `Engine.TruncDiv` | app/src/main/java/com/tetrixa/TetrisGame.kt:228 | Kotlin's Int division truncates toward zero: the remainder `a - q * b` lies in [0, b) for a >= 0 and in (-b, 0] for a < 0 |
| `Engine.SpawnX` | app/src/main/java/com/tetrixa/TetrisGame.kt:228 | the spawn column `(gridWidth - getWidth()) / 2`: a piece no wider than the grid starts wholly between the walls |
| `Engine.SpawnCentred` | app/src/main/java/com/tetrixa/TetrisGame.kt:228 | the spawn column `SpawnX` centres the piece: when it fits, x >= 0 and the right margin is the left one or one more; when it is wider than the grid, x <= 0 and the overhang on the right is the left one or one more, so an odd overhanging column sticks out on the right |
| `Engine.Wrap32` | app/src/main/java/com/tetrixa/TetrisGame.kt:217-219 | 32-bit Int arithmetic: the result is in [-2^31, 2^31), congruent to the exact value modulo 2^32, and equal to it when it is in range |
| `Engine.AwardedScore32` | app/src/main/java/com/tetrixa/TetrisGame.kt:217-219 | the score after a clear with 32-bit `Int` arithmetic: always in the `Int` range, and equal to `score + lines x 100 x level` when the score, both products and the sum are in range |
| `Engine.ScoreWrapsNegative` | app/src/main/java/com/tetrixa/TetrisGame.kt:217-220 | with 32-bit fields, one single-line clear from score 2147300800 at level 2147301 leaves score -1932936396 and level -1932935 |
| `Engine.FallDelay` | app/src/main/java/com/tetrixa/TetrisGame.kt:272-281 | the delay is `max(100, base - (level - 1) * 30)`: at least 100 ms and at least the level-reduced base |
| `Engine.FallDelayNonIncreasing` | app/src/main/java/com/tetrixa/TetrisGame.kt:272-281 | the delay never grows as the level rises |
| `Engine.LockedPiece` | app/src/main/java/com/tetrixa/TetrisGame.kt:170-183 | locking keeps the grid dimensions; an absent piece writes nothing |
| `Engine.SpawnOnEmptyGrid` | app/src/main/java/com/tetrixa/TetrisGame.kt:225-236 | on an empty grid at least 4 wide and 2 high, every catalog piece spawns at `((w - width) / 2, 0)` without collision |
| `Engine.TetrisGame.constructor` | app/src/main/java/com/tetrixa/TetrisGame.kt:10-32 | an all-zero grid of the given size, no piece, score 0, level 1, GAME_OVER, the given base delay, and the invariant established |
| `Engine.TetrisGame.UpdateInitialFallDelay` | app/src/main/java/com/tetrixa/TetrisGame.kt:44-45 | only the base delay changes, to the new value |
| `Engine.TetrisGame.CheckCollision` | app/src/main/java/com/tetrixa/TetrisGame.kt:147-167 | the early-exit scan answers true exactly when the shape is absent or some occupied cell is beyond a side wall, below the floor, or on a nonzero cell at a row >= 0 |
| `Engine.TetrisGame.WritePiece` | app/src/main/java/com/tetrixa/TetrisGame.kt:169-183 | the nested write loops leave exactly `Locked(old grid, piece, x, y, colour)`, or the grid unchanged when there is no piece |
| `Engine.TetrisGame.PaintShape` | app/src/main/java/com/tetrixa/TetrisGame.kt:170-183 | the outer lock loop: exactly the cells under occupied shape cells take the colour, every other cell keeps its value |
| `Engine.TetrisGame.PaintRow` | app/src/main/java/com/tetrixa/TetrisGame.kt:173-181 | the inner lock loop for shape row i: exactly the in-grid cells under the occupied cells of that row take the colour |
| `Engine.TetrisGame.FindFullRows` | app/src/main/java/com/tetrixa/TetrisGame.kt:190-203 | the scan with its early `break` records exactly `FullRows(grid)` |
| `Engine.TetrisGame.ShiftRowsDown` | app/src/main/java/com/tetrixa/TetrisGame.kt:207-214 | the in-place copy loops leave exactly `ShiftDown(old grid, row)` |
| `Engine.TetrisGame.CopyRow` | app/src/main/java/com/tetrixa/TetrisGame.kt:208-210 | row r takes the old values of row r - 1; every other row is unchanged |
| `Engine.TetrisGame.ClearTopRow` | app/src/main/java/com/tetrixa/TetrisGame.kt:212-214 | row 0 becomes all zero; every other row is unchanged |
| `Engine.TetrisGame.ShiftAll` | app/src/main/java/com/tetrixa/TetrisGame.kt:206-215 | one shift per recorded row, in the recorded order, gives exactly `ApplyShifts(old grid, rows)` |
| `Engine.TetrisGame.AwardLines` | app/src/main/java/com/tetrixa/TetrisGame.kt:217-220 | the score grows by exactly lines x 100 x the old level, and the level becomes score / 1000 + 1 |
| `Engine.ScoreNeverFalls` | app/src/main/java/com/tetrixa/TetrisGame.kt:217-220 | with unbounded integers, the score after a clear is at least the old score, and the recomputed level is at least the old level and at least 1 |
| `Engine.TetrisGame.ClearLines` | app/src/main/java/com/tetrixa/TetrisGame.kt:189-223 | the grid becomes the recorded rows' shifts applied in turn; with k recorded rows the score rises by exactly k * 100 * (old level) and the level becomes score / 1000 + 1; with k = 0 both are unchanged |
| `Engine.TetrisGame.SpawnNewTetromino` | app/src/main/java/com/tetrixa/TetrisGame.kt:225-236 | the piece `pick` becomes current at `((gridWidth - width) / 2, 0)` with truncating division; the state becomes GAME_OVER if it collides there and is otherwise unchanged |
| `Engine.TetrisGame.LockTetromino` | app/src/main/java/com/tetrixa/TetrisGame.kt:169-187 | lock at the current position, clear and score, spawn; the invariant holds afterwards |
| `Engine.TetrisGame.MoveDown` | app/src/main/java/com/tetrixa/TetrisGame.kt:139-145 | if the next row is free, only `currentY` grows by 1; otherwise the lock sequence runs at the current row |
| `Engine.TetrisGame.Tick` | app/src/main/java/com/tetrixa/TetrisGame.kt:240-246 | the gravity callback moves down while RUNNING and changes nothing otherwise |
| `Engine.TetrisGame.SoftDrop` | app/src/main/java/com/tetrixa/TetrisGame.kt:118-121 | a gravity step while RUNNING; nothing changes otherwise |
| `Engine.TetrisGame.MoveLeft` | app/src/main/java/com/tetrixa/TetrisGame.kt:98-102 | only `currentX` can change: it drops by 1 exactly when RUNNING and the piece does not collide one column left |
| `Engine.TetrisGame.MoveRight` | app/src/main/java/com/tetrixa/TetrisGame.kt:104-108 | only `currentX` can change: it grows by 1 exactly when RUNNING and the piece does not collide one column right |
| `Engine.TetrisGame.Rotate` | app/src/main/java/com/tetrixa/TetrisGame.kt:110-116 | only the piece can change: it becomes its clockwise rotation, same colour, exactly when RUNNING and the rotation fits at the same (x, y); there is no wall kick |
| `Engine.TetrisGame.CalculateGhostY` | app/src/main/java/com/tetrixa/TetrisGame.kt:131-137 | nothing changes; the result g is at least `currentY`, the piece collides at g + 1 and nowhere in `(currentY, g]` (nor at `currentY` outside GAME_OVER), and g is the landing row |
| `Engine.TetrisGame.DropToLanding` | app/src/main/java/com/tetrixa/TetrisGame.kt:125-127 | the descent loop stops with `currentY` at the landing row from the old `currentY` |
| `Engine.TetrisGame.HardDrop` | app/src/main/java/com/tetrixa/TetrisGame.kt:123-129 | while RUNNING the piece is locked at exactly the landing row, the row `CalculateGhostY` returns, and then clearing and spawning follow; nothing changes otherwise |
| `Engine.TetrisGame.StartNewGame` | app/src/main/java/com/tetrixa/TetrisGame.kt:71-80 | a fresh all-zero grid, score 0, level 1, a spawned piece, and RUNNING unless that piece collides (then GAME_OVER) |
| `Engine.TetrisGame.ResetGrid` | app/src/main/java/com/tetrixa/TetrisGame.kt:72 | a freshly allocated all-zero grid of the fixed dimensions |
| `Engine.TetrisGame.Pause` | app/src/main/java/com/tetrixa/TetrisGame.kt:82-88 | RUNNING becomes PAUSED; any other state stays, and nothing else changes |
| `Engine.TetrisGame.Resume` | app/src/main/java/com/tetrixa/TetrisGame.kt:90-96 | PAUSED becomes RUNNING; any other state stays, and nothing else changes |
| `Settings.CoerceIn` | app/src/main/java/com/example/tetrixa/SettingsManager.kt:42 | the result lies in [lo, hi]: the value itself when in range, else the nearer bound |
| `Settings.CoerceInIdempotent` | app/src/main/java/com/example/tetrixa/SettingsManager.kt:41-45 | clamping an already clamped value changes nothing |
| `Settings.DelayForSpeed` | app/src/main/java/com/example/tetrixa/SettingsManager.kt:77-86 | speeds 1..5 map to 1500, 1000, 700, 450 and 300 ms, any other speed maps to 1000, and every result is in [300, 1500] |
| `Settings.DelayStrictlyDecreasing` | app/src/main/java/com/example/tetrixa/SettingsManager.kt:77-86 | a faster speed setting gives a strictly shorter delay |
| `Settings.SettingsManager.constructor` | app/src/main/java/com/example/tetrixa/SettingsManager.kt:10-14 | the manager starts from the given stored preferences |
| `Settings.Lookup` | app/src/main/java/com/example/tetrixa/SettingsManager.kt:41 | `prefs.getInt(key, default)`: the stored value when the key is present, the default otherwise; its put/get laws are `Settings.LookupPut` |
| `Settings.LookupPut` | app/src/main/java/com/example/tetrixa/SettingsManager.kt:40-45 | the store's put/get round trip: a key reads back the value last put under it, a put leaves every other key's reading unchanged, and a key never put reads as the default |
| `Settings.SettingsManager.GridWidth` | app/src/main/java/com/example/tetrixa/SettingsManager.kt:40-42 | always in [8, 12] whatever is stored; 10 with no stored key; a stored in-range value is returned as is |
| `Settings.SettingsManager.GridHeight` | app/src/main/java/com/example/tetrixa/SettingsManager.kt:47-49 | always in [16, 24] whatever is stored; 20 with no stored key; a stored in-range value is returned as is |
| `Settings.SettingsManager.GameSpeed` | app/src/main/java/com/example/tetrixa/SettingsManager.kt:54-56 | always in [1, 5] whatever is stored; 2 with no stored key; a stored in-range value is returned as is |
| `Settings.SettingsManager.SetGridWidth` | app/src/main/java/com/example/tetrixa/SettingsManager.kt:43-45 | stores the clamped value under the width key only, so the width getter returns it and the other getters are unchanged |
| `Settings.SettingsManager.SetGridHeight` | app/src/main/java/com/example/tetrixa/SettingsManager.kt:50-52 | stores the clamped value under the height key only, so the height getter returns it and the other getters are unchanged |
| `Settings.SettingsManager.SetGameSpeed` | app/src/main/java/com/example/tetrixa/SettingsManager.kt:57-59 | stores the clamped value under the speed key only, so the speed getter returns it and the other getters are unchanged |
| `Settings.SettingsManager.GetInitialFallDelay` | app/src/main/java/com/example/tetrixa/SettingsManager.kt:77-86 | the table entry for the clamped speed, so always in [300, 1500]; the fallback branch is never taken |

## Left out

- The gravity timer is not modelled. That covers `Handler`/`Looper`, `startGameLoop`, `stopGameLoop` and the reschedule inside `updateInitialFallDelay`, all platform scheduling. A timer tick is `Tick`, which is `moveDown` guarded by RUNNING. The delay it would wait is `FallDelay(initialFallDelayMs, level)`.
- The constructor's default arguments (width 10, height 20, delay 500 ms) are not modelled. `Engine.TetrisGame.constructor` takes all three as parameters, and the application's only call site passes all three.
- The `onGameStateChanged` and `onScoreChanged` callbacks are not modelled. They are one-way notifications to code outside the engine.
- The random choice in `getRandom` is replaced by the index `pick`.
- `SharedPreferences` storage and its asynchronous `apply()` are replaced by the map field `prefs`. `KEY_INITIAL_FALL_DELAY` and `DEFAULT_INITIAL_FALL_DELAY` are declared in the source but never used.
- `setGameMode` and `GameMode` are not modelled. The mode is stored but never read.
- The engine's one-line getters (`getScore`, `getLevel`, `getGrid` and the rest) and `isGameOver` are not separate members. They read fields that the model exposes directly.
- Kotlin's 32-bit `Int` and 64-bit `Long` wrap-around is not modelled in the engine's state. Positions, score and delays are unbounded integers there. The score does overflow in the source: each line scores 100 x level, and the level rises with the score. The 159th single-line clear from a new game wraps it negative, and about 45 four-line clears do the same (see "## Findings"). The invariant `score >= 0 && level == score / 1000 + 1`, which `Valid()` proves, therefore holds only for the unbounded score.
- `Color.rgb` is Android code and is not part of this model. `Pieces.Rgb` follows its documented packing instead.
- `Board.ApplyShifts`: this states no general multi-row compaction property. The source does not compact several full rows correctly (see above), so only the per-shift property and the zero- and one-row cases are proved.
- `Pieces.Rotate` requires the shape to have a row 0, and row 0 to be no longer than any other row. An empty row 0 is accepted, as in the source. On any other input the source throws.
- Every engine command requires the object invariant `Valid()`. The constructor establishes it and every command keeps it. The helpers need less: `Sized()` or `Shaped()`.
- `Board.LandingY` requires the shape to have an occupied cell. On a shape with none, the `while` loops of `hardDrop` and `calculateGhostY` never end, because such a shape never collides. No catalog piece is empty, and rotation keeps a piece non-empty.
- `TetrisBoard.kt` (gesture decoding and drawing), `MainActivity.kt`, `SettingsScreen.kt`, `JuicyButton.kt`, `RGBButton.kt`, `NeonTheme.kt`, `NeonThemeUtils.kt` and `ui/theme/Color.kt` are not part of this model. They are Compose UI, graphics, animation and constants.

## Findings

| source | as written | input that shows it | evidently intended | confidence | as-written member | corrected member |
|---|---|---|---|---|---|---|
| app/src/main/java/com/tetrixa/TetrisGame.kt:217-220 | `score` and `level` are 32-bit `Int`. The score gain `linesCleared * 100 * level` and `score += scoreGain` wrap around, as `Engine.AwardedScore32` computes. | score 2147300800 at level 2147301 (158 single-line clears from a new game), then one more single-line clear: the score becomes -1932936396 and the level -1932935 | the score only grows and the level stays at least 1, as for the unbounded score of `Engine.TetrisGame.AwardLines` | not executed; the arithmetic is proved in Dafny | `Engine.ScoreWrapsNegative` | `Engine.ScoreNeverFalls` |
