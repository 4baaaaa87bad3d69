# Minesweeper game logic in Dafny

This project models the game logic of a terminal Minesweeper. The game exists twice:

- **src/main.rs** is the working Rust program.
- **cppcode.cpp** is a partial port of it to C++.

Both programs keep a board of characters and a list of bomb positions, and handle one key press at a time:

- The arrow keys move the cursor, wrapping around the edges.
- `f` toggles a flag on an unopened cell.
- Space reveals the cell under the cursor. The first Space lays the mines with a seed-step generator, keeping the 3×3 square around the cursor clear.
- A reveal on a bomb shows every bomb, and the player is dead. Otherwise a breadth-first flood fill opens the cell, and every cell reached through cells whose mine count is zero.
- The next key after death resets the game.

## Modules

| file | module | what it holds |
|---|---|---|
| `board.dfy` | `Board` | Positions, cell characters and the clamped 3×3 window. The mine count (`get_mines_around`) as a function and as the loop method. The game state, `reset_game`, flag toggling, the loss branch of `explore`, and the counting facts about the cells of a board. |
| `rng.dfy` | `Rng` | `regen_random`: the 64-bit arithmetic step by step, proved equal to an unbounded formula. |
| `mines.dfy` | `Mines` | `generate_mines`. It is shared by both programs; the bomb count is a parameter (50 in Rust, 30 in C++). |
| `fill.dfy` | `Fill` | What a successful reveal opens, stated without a queue, and the facts the breadth-first loop keeps. |
| `rust_sweeper.dfy` | `RustSweeper` | `explore` of src/main.rs with its seeding loops, and one pass of the key loop of `main`. |
| `cpp_sweeper.dfy` | `CppSweeper` | `explore` of cppcode.cpp on its 8×8 board, its count that leaves out the centre, the key switch of its `main`, and how its reveal compares with the Rust one. |

### The board and its values

- The board is a `seq<seq<char>>`. Operations take it by value and return the new board. In the sources the board is exclusively borrowed (`&mut`) or passed by reference, with no aliasing, so nothing is lost.
- `Pos(row, col)` is the source's `[y, x]` pair.
- The locals of `main` that a key changes form the datatype `Game`. `Step` returns `Next(game)`, `Quit` (Esc), or `Unfinished` (see "Left out").

### What a reveal opens

`Fill.InFill(q, seeds, …)` says that `q` belongs to every set that:

- contains the seeds, and
- with any in-bounds cell of count zero, contains that cell's whole window.

In other words, `InFill` is membership of the least such set. `explore` must open exactly these cells:

- src/main.rs seeds the fill with the cursor followed by the zero-count cells of the cursor's window (src/main.rs:158-174).
- cppcode.cpp seeds it with the cursor alone (cppcode.cpp:159-161).

Both `Explore` methods are proved against this definition:

- on a safe cell, `Fill.Revealed` holds: each fill cell shows its count, and every other cell is unchanged;
- no bomb cell is written;
- `processed` never holds a position twice;
- the loop ends, because each pop either shortens the queue or adds a new board cell to `processed`.

### Where the code departs from the usual rules

The model follows the code in each case.

- **A numbered first cell.** The usual Minesweeper rule is that revealing a cell with a positive count opens that one cell.
  - src/main.rs also queues the zero-count cells around the cursor, so it can open more. `RustSweeper.NumberedCursorOpensNeighbour` exhibits this.
  - The C++ port keeps the usual rule: seeded with the cursor alone, its fill is exactly the cursor whenever the cursor's count is positive (`CppSweeper.NumberedCursorStops`, for every board and every bomb list). `CppSweeper.PortStopsAtNumber` applies this to one position.
  - `RustSweeper.NumberedCursorAlone` gives the condition under which src/main.rs opens the cursor alone.
- **What the count includes.** The usual count is of the eight neighbours, so it lies in 0..8.
  - src/main.rs and the vector `get_mines_around` of cppcode.cpp count the whole clamped window, the cell itself included (0..9).
  - On a cell that is not a bomb this is at most 8 (`Board.MinesAroundBounds`). Every cell whose count `explore` writes to the board is such a cell, so the digit table is never indexed past its end. The seeding loop of src/main.rs (src/main.rs:168-170) also counts the window cells around the cursor, bombs included, but it only compares each count with zero.
  - The fixed-array count that the C++ `explore` calls leaves the centre out. `CppSweeper.CountsAgree` proves the two counts agree on every cell that is not a bomb, when no bomb is listed twice. The port's scan counts every matching entry, so a neighbour listed twice counts twice (`CppSweeper.BombListedAgain`); `generate_mines` never lists a bomb twice.
- **The C++ cursor wrap.** Up and Left use `(c + 15) % d`. This is one step back for every cursor exactly when `d` divides 16 (`CppSweeper.PlusFifteen`). That holds for the 16×16 board of the C++ `main` and for the 8×8 board of its `explore`.

## Model

| member | source | states |
|---|---|---|
| Board.TooClose | src/main.rs:128-133 | The safe-zone test (also cppcode.cpp:103-108) holds exactly when the rows differ by at most one and the columns differ by at most one. |
| Board.TooCloseSymmetric | src/main.rs:128-133 | The test is symmetric in its two positions, and true of a position and itself. |
| Board.WindowMembers | src/main.rs:212-217 | Around an in-bounds cell, the clamped window is exactly the set of in-bounds cells too close to it. It contains the cell and has at most nine cells. |
| Board.WindowInBounds | src/main.rs:211-215 | The clamping keeps every window cell on the board. |
| Board.CountInBounds | src/main.rs:217-223 | The number of listed cells found in `bombs` is at most the number of cells. It is zero exactly when no cell is a bomb, and smaller than the number of cells when some cell is not a bomb. |
| Board.MinesAroundBounds | src/main.rs:207-226 | The count is at most the window size, which is at most 9. Around a cell that is not a bomb it is at most 8, so `NUMS[mines_nearby - 1]` (src/main.rs:193) is in range. |
| Board.MinesAroundZero | src/main.rs:207-226 | The count is zero exactly when no in-bounds cell too close to the position is a bomb. |
| Board.GetMinesAround | src/main.rs:207-226 | The two nested range loops return the number of window cells, the centre included, that occur in `bombs`; the vector overload of the port (cppcode.cpp:207-223) is the same. |
| Board.CountRow | src/main.rs:218-222 | The inner loop counts the cells of one window row that occur in `bombs`. |
| Board.EnqueueWindow | src/main.rs:196-200 | An empty cell pushes its whole clamped window, itself included, in row-major order, behind what was queued. |
| Board.ResetGame | src/main.rs:228-233 | `reset_game` gives a board of the same size with every cell `UNOPENED`, no bombs, the game not started and the player alive. The cursor is kept. The port (cppcode.cpp:225-230) does the same with its own `UNOPENED`. |
| Board.ResetGameValid | src/main.rs:29-33 | The reset after death keeps the game state valid, and a second reset changes nothing. |
| Board.StepBack | src/main.rs:35-43 | `(c + n - 1) % n` is one step back, wrapping from 0 to n - 1. |
| Board.StepForward | src/main.rs:38-46 | `(c + 1) % n` is one step forward, wrapping from n - 1 to 0; Down and Right of the port (cppcode.cpp:66-74) are the same. |
| Board.RevealMines | src/main.rs:144-151 | On a loss every bomb's cell becomes MINE and every other cell is unchanged, in both programs (cppcode.cpp:142-150). |
| Board.ToggleFlag | src/main.rs:58-64 | `f` turns an unopened cell into a flag and a flag into an unopened cell. It leaves any other value, and every other cell, alone. The port (cppcode.cpp:85-91) does the same. |
| Board.ToggleFlagTwice | src/main.rs:58-64 | Pressing `f` twice on a cell restores the board. |
| Board.Filled | src/main.rs:229 | The fresh board has the given size and holds the fill character in every cell. |
| Board.FullListCoversBoard | cppcode.cpp:154-169 | A duplicate-free list of in-bounds positions with as many entries as the board has cells holds every cell. So 64 distinct processed cells are the whole 8×8 board. |
| Rng.RegenRandom | src/main.rs:134-141 | Each 64-bit step is written with its wrap-around. The square never wraps, so the new seed equals `(r*r / 100000 % 10^10) mod 2^32`, and it fits in 32 bits. The port (cppcode.cpp:110-116) performs the same arithmetic. |
| Rng.ProductFitsU64 | src/main.rs:136 | The product of two values below 2^32 is below 2^64. |
| Rng.ZeroIsFixed | src/main.rs:134-141 | Seed 0 maps to 0. |
| Rng.SeedAfterBounded | src/main.rs:116-120 | However many passes the draw loop makes, each stepping the generator twice, a seed below 2^32 stays below 2^32. |
| Rng.ZeroSeedStays | src/main.rs:116-120 | From seed 0 the seed never moves, however many passes are made, so every draw is (0, 0). |
| Mines.GenerateMines | src/main.rs:113-127 | The old bombs stay a prefix of the new list. Every added bomb is on the board, not too close to the cursor, and different from all earlier bombs. The list never exceeds the requested count when it starts within it. `done` holds exactly when the count is reached. The board is not an output. The final seed is the starting seed after exactly `drawn` passes of the loop, each stepping the generator twice (`Rng.SeedAfter`), with `drawn` at most `fuel` and equal to it when the count was not reached. Rust drops that seed, and the port (cppcode.cpp:28-40) writes it back to `ticks`. |
| Fill.FillAvoidsBombs | src/main.rs:176-203 | When the seeds are in-bounds non-bombs, every cell of the fill is an in-bounds non-bomb, so a successful reveal never writes a bomb cell. |
| Fill.SeedShown | src/main.rs:158 | After a successful reveal every seed on the board shows its count. |
| Fill.MoreSeedsMoreFill | src/main.rs:158-174 | A fill from more seeds opens at least what a fill from fewer seeds opens. |
| Fill.SeedsInFill | src/main.rs:158-174 | At the start of the loop the queued seeds lie inside the fill, and no cell the fill must reach is lost. |
| Fill.FillStep | src/main.rs:194-200 | The window of a fill cell with count zero lies inside the fill. |
| Fill.PopProcessed | src/main.rs:177-181 | Skipping a position that is already processed keeps the loop's facts. |
| Fill.VisitKeepsInvariant | src/main.rs:183-202 | Processing a new position keeps the loop's facts. `processed` stays inside the fill and never holds a position twice. |
| Fill.VisitShrinks | src/main.rs:202 | Adding a new board cell to `processed` shrinks the set of unprocessed cells: the loop's termination measure. |
| Fill.ShowsVisit | src/main.rs:192-195 | Writing `NUMS[count - 1]` or EMPTY for the popped cell extends what the board shows by that cell. |
| Fill.FillIsProcessed | src/main.rs:176 | Once nothing is queued, the processed cells are exactly the fill. |
| Fill.ShowsFill | src/main.rs:176-205 | When the processed cells are the fill, the board is the reveal's outcome, and no bomb cell has changed. |
| RustSweeper.ZeroRowMembers | src/main.rs:169-173 | One pass of the inner seeding loop adds a cell of its row exactly when the cell's count is zero. |
| RustSweeper.ZeroBlockMembers | src/main.rs:168-174 | The two seeding loops add a cell of their rectangle exactly when the cell's count is zero. |
| RustSweeper.NeighbourZerosMembers | src/main.rs:164-174 | The cells queued behind the cursor are exactly the zero-count cells of the cursor's window. |
| RustSweeper.ZeroNeighbours | src/main.rs:164-174 | The seeding loops push the zero-count cells of the cursor's window in row-major order. |
| RustSweeper.ZeroRowCells | src/main.rs:169-173 | The inner seeding loop pushes the zero-count cells of one row, left to right. |
| RustSweeper.SeedsSafe | src/main.rs:158-174 | When the cursor is not a bomb, every queued seed is an in-bounds cell that is not a bomb. |
| RustSweeper.NumberedCursorAlone | src/main.rs:158-174 | When no cell of the cursor's window has count zero, the reveal opens exactly the cursor. |
| RustSweeper.NumberedCursorOpensNeighbour | src/main.rs:161-174 | On any board of at least 3×3 with one bomb at (0, 0), revealing (1, 1) shows a positive count yet also opens (2, 2). |
| RustSweeper.Explore | src/main.rs:143-206 | Returns false exactly when the cursor is a bomb, and then every bomb shows MINE and nothing else changes. Otherwise the board shows exactly the fill of the cursor and its zero-count neighbours, each cell with its count (EMPTY or `NUMS[count - 1]`, flags overwritten), every other cell unchanged, and no bomb cell written. |
| RustSweeper.FirstRevealSafe | src/main.rs:51-56 | When no bomb is too close to the cursor, the cursor is not a bomb and its count is zero. |
| RustSweeper.Step | src/main.rs:26-72 | One key press after `ticks += 1`. After death any key resets. Esc quits. The arrows move the cursor one step with wrap-around. `f` toggles a flag. Any other key, or Space on an opened cell, changes nothing. Space on an unopened cell reveals, with the fill above. A first reveal lays exactly 50 bombs, none near the cursor, leaves the player alive and shows the cursor EMPTY. Only Esc quits. The state stays valid and the board keeps its size. |
| CppSweeper.RemoveMembers | cppcode.cpp:122-126 | Skipping the centre `(i, j) == (0, 0)` drops exactly that cell from the window. |
| CppSweeper.CountInRemove | cppcode.cpp:122-126 | Skipping a centre that is not a bomb leaves the bomb count unchanged. |
| CppSweeper.CountInRemoveBomb | cppcode.cpp:122-126 | Skipping a centre that is a bomb, in a window without repeats, lowers the count by one. |
| CppSweeper.MatchesAreBombs | cppcode.cpp:130-134 | With no bomb listed twice, the number of matching entries found by the scan equals the number of cells that are bombs. |
| CppSweeper.NeighbourMinesZero | cppcode.cpp:118-139 | The port's fixed-array count (`NeighbourMines`) scans the in-bounds cells next to the cell, the centre left out, and counts each matching entry. It is zero exactly when no in-bounds neighbour other than the cell itself is listed as a bomb. |
| CppSweeper.BombListedAgain | cppcode.cpp:130-134 | Listing a neighbour of the cell once more raises the port's count by one, whether or not it was listed already: the scan counts entries, not distinct bombs. |
| CppSweeper.CountsAgree | cppcode.cpp:118-139 | With no bomb listed twice, the count the port's `explore` uses, plus one when the centre is a bomb, equals the count of src/main.rs. It is at most 8, so `NUMS[mines_nearby - 1]` is in range. |
| CppSweeper.EnqueueNeighbourhood | cppcode.cpp:189-199 | The offset loops of an empty cell queue its whole in-bounds 3×3 square, itself included, in row-major order. |
| CppSweeper.EnqueueOffsetRow | cppcode.cpp:190-198 | One pass of the `j` loop queues the in-bounds cells of row `y + i`, or nothing when that row is off the board. |
| CppSweeper.Visit | cppcode.cpp:182-200 | Visiting a popped cell that is not yet processed writes its face (`NUMS[count - 1]`, or EMPTY for a zero count) and, on a zero count, queues its in-bounds neighbourhood. Afterwards the loop's facts hold with the cell processed: everything queued or processed lies in the fill and is no bomb, `processed` has no repeats, the board shows each processed cell's count and nothing else has changed, and no cell of the fill is lost. |
| CppSweeper.Explore | cppcode.cpp:141-206 | Returns false exactly when the cursor is a bomb, and then every bomb shows MINE and nothing else changes. Otherwise the board shows exactly the fill of the cursor alone, each cell with its count, every other cell unchanged, and no bomb cell written. The break after 64 processed cells loses nothing. |
| CppSweeper.EveryCellProcessed | cppcode.cpp:167-169 | When `processed_count` reaches 64, every cell of the 8×8 board is processed, so nothing is left to reach. |
| CppSweeper.PortRevealsNoMore | cppcode.cpp:159-161 | Every cell the port opens, src/main.rs opens too from the same cursor and bombs. |
| CppSweeper.PortRevealsLess | cppcode.cpp:159-161 | With one bomb at (0, 0) on the 8×8 board, revealing (1, 1) opens (2, 2) in src/main.rs but not in the port. |
| CppSweeper.PortStopsAtNumber | cppcode.cpp:185-186 | In that position the port's fill is closed at the numbered cursor and does not reach (2, 2). |
| CppSweeper.NumberedCursorStops | cppcode.cpp:159-161 | On any board and bomb list, when the cursor's count is positive, the port's fill seeded with the cursor alone holds the cursor and no other cell. |
| CppSweeper.PlusFifteen | cppcode.cpp:63-71 | `(c + 15) % d` is one step back with wrap-around exactly when `d` divides 16. |
| CppSweeper.Reveal | cppcode.cpp:75-84 | Space with the player alive. On an opened cell nothing changes and `ticks` is kept. On an unopened cell the reveal is the fill seeded with the cursor alone; a first reveal lays exactly 30 bombs, none near the cursor, leaves the player alive and shows the cursor EMPTY, and `ticks` becomes the old `ticks` after the passes the draw loop made. It never quits. |
| CppSweeper.Step | cppcode.cpp:53-98 | One key press after `++ticks`, on the 8×8 board. After death any key resets. Esc quits. Up/Left step back through `+ 15`; Down/Right step forward. `f` toggles a flag. Space on an opened cell is skipped. Space on an unopened cell reveals from the cursor alone. A first reveal lays exactly 30 bombs, none near the cursor, leaves the player alive, shows the cursor EMPTY and writes the advanced seed back to `ticks`: the old `ticks` after the passes the draw loop made (`Rng.SeedAfter`). Otherwise `ticks` is unchanged. Only Esc quits. |

## Left out

- Rendering is not modelled: `update_board`, `styled` and the ANSI clear sequence only print.
- The event loop is not modelled. `read()`, the endless loop and the process exit on Esc are I/O. One pass of the loop is `Step`, and Esc is its `Quit` result.
- The wrap-around of the `u32` `ticks += 1` (src/main.rs:27, cppcode.cpp:54) is not modelled. `Step` takes the incremented value, which must be below 2^32.
- Mines.GenerateMines: termination is not proved. The draw loop can run forever (seed 0 is a fixed point). `fuel` bounds the number of draws, and `done` is false when it runs out.
- RustSweeper.Step: the first-reveal promises hold only when the draws finish within `fuel`. Otherwise the result is `Unfinished`, where the program would still be drawing.
- CppSweeper.Step: the same limitation as `RustSweeper.Step` for `fuel`.
- CppSweeper.Step: the port's game is modelled on the 8×8 board its `explore` takes (`char board[][8]`), not on the 16×16 board of its `main`, which `explore` could not accept. The `+ 15` wrap is proved for both sizes.
- CppSweeper.Explore: requires the bombs on the board and no bomb listed twice. With a duplicate the count could exceed 8, and `NUMS[mines_nearby - 1]` would read past the array. `generate_mines` never produces a duplicate.
- CppSweeper.NeighbourMinesZero: the scan length `sizeof(bombs) / sizeof(bombs[0])` of the fixed-array `get_mines_around` (cppcode.cpp:130) is not modelled as written. The parameter `int bombs[][2]` has decayed to a pointer `int (*)[2]`, so on a 64-bit build the quotient is 8 / 8 = 1 and the code as written checks only `bombs[0]` (on a 32-bit build it is 4 / 8 = 0, and nothing is checked). The model deliberately scans all `|bombs|` entries, as the loop is evidently meant to.
- The 64-slot `queue` of the C++ `explore` is an unbounded sequence. Writes past its capacity (cppcode.cpp:194-196) are undefined behaviour, which the model does not capture.
- The type and signature mismatches that stop cppcode.cpp compiling are not modelled. The model follows the intended algorithm: `int[2]` against `std::array`, `int bombs[][2]` against `std::vector`, and `uint32_t *` against `unsigned int &` for the seed.
- Linear searches are written as sequence membership: `contains`, `std::find`, and the scan of `processed`.
- Position arithmetic is on unbounded integers. The `usize` and `i32` arithmetic of the sources cannot overflow for any board the programs build.
