# Falling-block engine of Tetris 2.0, modelled in Dafny

The game view `GameView` of the Android app keeps a 20 x 10 board of ints
(0 is an empty cell, anything else the colour of a locked block), the active
piece `current`, its anchor `curRow`/`curCol` and its `rotation` index. The
player's commands `moveLeft`, `moveRight` and `rotate` move the piece when the
target position is free. `drop` lets it fall as far as it can and then runs one
gravity step `tick`. A gravity step either moves the piece one row down or locks
it: `placePiece` writes its colour into the board, `clearLines` removes the
full rows, and `spawnPiece` brings the next piece in at row 0, column 4. If the
next piece collides there, the game is over and the board is wiped. Every
command is guarded by one test, `canMove`. The seven kinds of piece, their
rotation states and their colours live in the enum `Tetromino`.

The project has three modules:

- `Tetromino` (tetromino.dfy) is the piece table:
  - the kinds;
  - the rotation states copied offset by offset;
  - the colours, as the signed 32-bit values Android gives them;
  - the rotation index arithmetic.
- `Grid` (grid.dfy) is the board as a value. These functions are the
  specifications the engine is proved against:
  - `Fits`, the placement test;
  - `Placed`, the board after a piece is written;
  - `Keep` and `Cleared`, the line clearing;
  - `LandingRow`, where a falling piece stops.
- `Engine` (game_view.dfy) is the class `GameView`. It holds the five fields
  and one method per source function, with the same loops. `Valid()` is the
  invariant of every reachable state: the board is 20 x 10, and the active
  piece lies on it in bounds and overlaps no block. Every command keeps it.

## Model

| member | source | states |
|---|---|---|
| Tetromino.Shapes | app/src/main/java/com/example/tetrisv2/GameView.kt:159-206 | Every kind has between one and four rotation states. Each state has exactly four distinct offsets with dx and dy in 0..3. |
| Tetromino.StateCounts | app/src/main/java/com/example/tetrisv2/GameView.kt:160-206 | The kinds have these numbers of rotation states: I 2, J 4, L 4, O 1, S 2, T 4, Z 2. |
| Tetromino.Rgb | app/src/main/java/com/example/tetrisv2/GameView.kt:180 | An opaque colour (alpha 0xFF), read as a signed 32-bit Int, lies in [-2^24, 0), so it is never the empty value 0. |
| Tetromino.Color | app/src/main/java/com/example/tetrisv2/GameView.kt:159-205 | The colour of each kind is non-zero. |
| Tetromino.Entry | app/src/main/java/com/example/tetrisv2/GameView.kt:159-206 | Every entry of the table has the kind it is asked for. It satisfies everything the engine relies on: 1..4 valid states and a non-zero colour. |
| Tetromino.NextRotation | app/src/main/java/com/example/tetrisv2/GameView.kt:49 | `(rot + 1) % shapes.size` is a valid index. It is rot + 1, except that it wraps from the last state to 0. |
| Tetromino.RotatedWithinOneTurn | app/src/main/java/com/example/tetrisv2/GameView.kt:48-54 | After m <= size accepted rotations the index is rot + m, taken modulo the number of states. |
| Tetromino.RotationCycle | app/src/main/java/com/example/tetrisv2/GameView.kt:48-54 | As many accepted rotations as the kind has states bring the piece back to its starting rotation. |
| Grid.FitsCells | app/src/main/java/com/example/tetrisv2/GameView.kt:113-121 | A state fits at (r, c) exactly when every one of its cells (c + dx, r + dy) is inside [0, cols) x [0, rows) and holds 0. |
| Grid.FitsRowBound | app/src/main/java/com/example/tetrisv2/GameView.kt:113-121 | A piece that fits has its anchor row in -3..19, so the fall loop is bounded. |
| Grid.FitsBlank | app/src/main/java/com/example/tetrisv2/GameView.kt:113-121 | On an empty board every state fits wherever its 4 x 4 box lies on the board. |
| Grid.PlacedChanges | app/src/main/java/com/example/tetrisv2/GameView.kt:123-130 | Placing a piece that fits changes a cell exactly when the piece covers it, and every covered cell goes from 0 to the piece's colour. |
| Grid.Keep | app/src/main/java/com/example/tetrisv2/GameView.kt:134-139 | The kept rows plus the full rows account for every row. No kept row is full, and every kept row is a row of the input. |
| Grid.KeepAppend | app/src/main/java/com/example/tetrisv2/GameView.kt:134-139 | Filtering out full rows distributes over concatenation. |
| Grid.KeepStep | app/src/main/java/com/example/tetrisv2/GameView.kt:134-139 | One step of the bottom-up copy: a non-full row r goes into the lowest free slot, above the rows already kept. |
| Grid.Cleared | app/src/main/java/com/example/tetrisv2/GameView.kt:132-145 | After clearing, the board is still 20 x 10. The top k rows are empty, where k is the number of full rows before, and no row is full. |
| Grid.ClearedShift | app/src/main/java/com/example/tetrisv2/GameView.kt:132-145 | A row that is not full moves down by exactly the number of full rows below it. Its new index is at least the number k of full rows, so it lands below the k empty rows on top: the kept rows end bottom-aligned. |
| Grid.ClearedKeepsOrder | app/src/main/java/com/example/tetrisv2/GameView.kt:134-139 | The rows that stay keep their relative order: the new index of ClearedShift grows strictly from a higher row to a lower non-full row. |
| Grid.ClearedNoFull | app/src/main/java/com/example/tetrisv2/GameView.kt:132-145 | A board with no full row is left unchanged. |
| Grid.ClearedIdempotent | app/src/main/java/com/example/tetrisv2/GameView.kt:132-145 | Clearing twice is the same as clearing once. |
| Grid.LandingRow | app/src/main/java/com/example/tetrisv2/GameView.kt:56-59 | A piece that fits at row r comes to rest on a row h with r <= h < rows. It fits on h and not on h + 1. |
| Grid.LandingRowUnique | app/src/main/java/com/example/tetrisv2/GameView.kt:56-59 | Any h such that the piece fits on every row from r down to h, and not on h + 1, is the landing row. |
| Engine.LockedBoard | app/src/main/java/com/example/tetrisv2/GameView.kt:103-107 | The board after place, clear and spawn is still 20 x 10. |
| Engine.LockedBoardFits | app/src/main/java/com/example/tetrisv2/GameView.kt:147-156 | After any lock the next piece fits at the spawn point: either the cleared board leaves room, or the board is wiped. |
| Engine.SpawnOnEmpty | app/src/main/java/com/example/tetrisv2/GameView.kt:21-28 | Every kind of the table fits at the spawn point (row 0, column 4) of an empty board. |
| Engine.DropOOnEmpty | app/src/main/java/com/example/tetrisv2/GameView.kt:56-59 | An O piece dropped from the spawn point of an empty board lands on row 18. |
| Engine.LockOOnEmpty | app/src/main/java/com/example/tetrisv2/GameView.kt:123-130 | Placed there, the O piece fills exactly rows 18-19 in columns 5-6, because its offsets start at dx = 1. |
| Engine.LockOOnEmptyKeepsPlaced | app/src/main/java/com/example/tetrisv2/GameView.kt:103-107 | The whole lock of that O piece leaves exactly the placed board, whatever piece comes next: no row is full, so nothing is cleared, and the next piece fits at the spawn point, so nothing is wiped. |
| Engine.GameView.constructor | app/src/main/java/com/example/tetrisv2/GameView.kt:21-28 | The game starts with an empty board and the first piece at row 0, column 4, rotation 0. The invariant holds. |
| Engine.GameView.CanMove | app/src/main/java/com/example/tetrisv2/GameView.kt:113-121 | The early-return loop answers exactly `Fits` of the given rotation at (r, c). |
| Engine.GameView.MoveLeft | app/src/main/java/com/example/tetrisv2/GameView.kt:34-39 | Only `curCol` may change. It drops by one exactly when the piece fits one column to the left; otherwise nothing changes. The invariant is kept. |
| Engine.GameView.MoveRight | app/src/main/java/com/example/tetrisv2/GameView.kt:41-46 | Only `curCol` may change. It grows by one exactly when the piece fits one column to the right; otherwise nothing changes. The invariant is kept. |
| Engine.GameView.Rotate | app/src/main/java/com/example/tetrisv2/GameView.kt:48-54 | Only `rotation` may change. It becomes `NextRotation` exactly when that state fits in place; otherwise nothing changes. The invariant is kept. |
| Engine.GameView.Drop | app/src/main/java/com/example/tetrisv2/GameView.kt:56-61 | The fall loop stops at the landing row, fewer than `rows` rows below the start. The gravity step that follows locks the piece there, and the next piece spawns. The invariant is kept. |
| Engine.GameView.Tick | app/src/main/java/com/example/tetrisv2/GameView.kt:101-111 | If the row below is free, the piece moves down one row and nothing else changes. Otherwise the board becomes place, then clear, then the spawn wipe if needed, and the next piece is at the spawn point. The invariant is kept. |
| Engine.GameView.PlacePiece | app/src/main/java/com/example/tetrisv2/GameView.kt:123-130 | The board becomes `Placed`: the colour is written into every covered cell on the board, and every other cell is left as it was. |
| Engine.GameView.ClearLines | app/src/main/java/com/example/tetrisv2/GameView.kt:132-145 | The three loops (copy the non-full rows bottom up, blank the top, copy back) leave the board equal to `Cleared` of the old board. |
| Engine.GameView.SpawnPiece | app/src/main/java/com/example/tetrisv2/GameView.kt:147-156 | The fields are set to the next piece at row 0, column 4, rotation 0. The board is kept if that piece fits there and is wiped to all zeros otherwise. The invariant holds afterwards. |

## Left out

- Rendering is not modelled. This covers `onDraw`, `drawBoard`, `drawCurrent` and `cellSize` (`GameView.kt:18-19`, `:63-99`), which draw on the canvas using float pixel geometry, and `MainActivity.kt`, which only wires the buttons.
- Timers and redraws are not modelled. `postDelayed` and `invalidate()` (`:31`, `:110`) are Android event-loop plumbing, so `Tick` is a plain method call.
  - One consequence is not captured: `drop` calls `tick`, which re-arms its own timer, so every drop in the source starts one more timer chain.
- `Tetromino.random()` (`:209-212`) uses a library random number generator. The kind that spawns next is a parameter instead (`first` of the constructor, `next` of `Tick`, `Drop` and `SpawnPiece`).
  - The engine accepts any `Piece` satisfying `ValidPiece`, and `Entry` proves that every table entry does.
- Kotlin's 32-bit `Int` is modelled by unbounded integers. Every value the engine computes stays far inside the 32-bit range: indices below 20, offsets 0..3, colours given as their signed 32-bit values. So no wrap-around can occur.
- Row aliasing in `clearLines` is not modelled. The source moves row arrays by reference (`newBoard[newRow] = board[r]`), and the model copies rows as values. No row object ends up in two slots, so the contents agree.
- The landing row of a hard drop is returned as a ghost out-parameter of the model's `Drop`, so that its contract can name it. The source's `drop` returns nothing.
- RotationCycle: "as many rotations as states give the start back" holds for rotations that are accepted. A rejected `rotate` leaves `rotation` unchanged, as `Rotate` states, so a sequence with rejections can end elsewhere.
- The O piece in its spawn column 4 covers columns 5-6, not 4-5 as a centred spawn would suggest. The model follows the offsets as written (`:184`, `:150`), as `LockOOnEmpty` shows.
