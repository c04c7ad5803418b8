# Minesweeper engine in Dafny

This project models the game-state engine of a terminal Minesweeper in three layers.

- **Cell encoding** (`Bitmask`, `GridTable`, `Cells`). The grid store is a width x height table of 32-bit cells, stored row by row and addressed `[row][column]`. Each cell packs four fields:
  - the adjacent-mine count in bits 0-3;
  - the flag in bit 4;
  - the uncovered mark in bit 5;
  - the mine in bit 6.
  
  Cells are read and written through the `BIT`/`BITMASK_*` macros.
- **Engine** (`Cells`, `Flood`, `Seeding`, `Engine`). It covers:
  - the per-cell queries and mutators;
  - the recursive flood fill `uncover_blank_cell`;
  - mine seeding by rejection sampling with neighbour-count increments;
  - the configuration, and the mine count each difficulty selects.
- **Session logic of the console front end** (`ConsoleGui`). It covers:
  - the game status machine;
  - the two counters `num_flags` and `found_num_mines`;
  - the cursor;
  - the Enter actions of flag mode and check mode;
  - the settings;
  - the win test of `end_of_game`.

The process-wide statics become values. A `Table` holds the dimensions and the storage, or no storage. An `Engine.Game` holds the configuration, the table and the mine count. A `ConsoleGui.Session` holds the front end's statics together with the engine.

Every operation takes the state and returns the new one. Key presses and answers to prompts are parameters. `rand()` is an oracle: the sequence of draws it returns is a parameter (`Seeding.Draw`).

Integer widths are explicit:
- cells are `bv32`, so the whole-cell `+1` of the seeding loop wraps as in C;
- `size_t` arithmetic is modulo 2^64 (the mine count product, the counters, the cursor conversions);
- the cursor coordinates are `int`.

The main invariant is `ConsoleGui.Inv`, kept by every key of every mode. It says:
- the table has an accepted size and the cursor is on it;
- `nMines` is the number of mined cells;
- `num_flags` is the number of flagged cells;
- `found_num_mines` is the number of mined cells not yet flagged.

The flood fill is a pair of mutually recursive functions. Their termination measure is the number of covered cells. The module `Sets` holds the cardinality facts used to count cells.

## Model

| member | source | states |
|---|---|---|
| Bitmask.BitIsSingle | bitmask.h:15 | `BIT(x)` for x below 32 is a mask with exactly one bit set |
| Bitmask.SetSpec | bitmask.h:17 | after `BITMASK_SET` every bit of the mask is set and every bit outside it is as before |
| Bitmask.ClearSpec | bitmask.h:18 | after `BITMASK_CLEAR` no bit of the mask is set and every bit outside it is as before |
| Bitmask.FlipSpec | bitmask.h:19 | `BITMASK_FLIP` inverts exactly the bits of the mask |
| Bitmask.FlipTwice | bitmask.h:19 | flipping twice with the same mask restores the value |
| Bitmask.CheckIsAllBits | bitmask.h:20 | `BITMASK_CHECK(x, m)` holds iff every single bit of `m` is set in `x` |
| Bitmask.CheckNotMerelySome | bitmask.h:20 | an example: 0x10 shares a bit with the mask 0x30 but fails `BITMASK_CHECK` against it |
| GridTable.InitTable | grid_table.c:30-47 | reports success; the table exists with the given width and height and every cell is 0 |
| GridTable.InitTableForgetsPrevious | grid_table.c:30-36 | the result of `init_table` does not depend on the table that existed before |
| GridTable.FreeTable | grid_table.c:54-65 | reports true iff a table existed; afterwards none exists and the dimensions are kept |
| GridTable.FreeTwiceReportsFalse | grid_table.c:54-65 | a second release reports false |
| GridTable.DimensionsPersist | grid_table.c:67-73 | `table_width`/`table_height` report the dimensions last given to `init_table`, after cell writes and after release |
| GridTable.SetCell | grid_table.c:79-85 | the written value is read back at the cell, every other cell is unchanged, and the shape is kept |
| GridTable.SetThenGet | grid_table.c:79-97 | `get_cell` after `set_cell` yields the value at the written cell and the old value elsewhere |
| GridTable.InBoundsIsStorageAddress | grid_table.c:95-97 | an address is within `column < width`, `row < height` iff `[row][column]` addresses stored storage |
| GridTable.SetCellMaskSpec | grid_table.c:99-101 | `set_cell_mask` turns on the mask bits of the addressed cell, keeps its other bits, and leaves the other cells alone |
| GridTable.ClearCellMaskSpec | grid_table.c:103-105 | `clear_cell_mask` turns off exactly the mask bits of the addressed cell and leaves the other cells alone |
| GridTable.CheckCellMaskIsAllBits | grid_table.c:108-110 | `check_cell_mask` is the all-bits test on the addressed cell |
| GridTable.GetMaskSpec | grid_table.c:112-114 | `get_mask` keeps the cell's bits inside the mask and clears every bit outside it |
| GridTable.WithinBoundAsWrittenAdmitsOutside | grid_table.c:75-77 | the bounds helper as written accepts column 7 of a 5-wide, 10-high table, which lies outside the storage |
| Cells.MasksAreBits | minesweeper.c:22-27 | the flag, uncovered and mine masks are `BIT(4)`, `BIT(5)` and `BIT(6)` |
| Cells.MasksDisjoint | minesweeper.c:22-29 | the three one-bit masks and the count mask `0x0f` share no bit |
| Cells.QueriesReadBits | minesweeper.c:38-69 | `has_mine`, `is_uncovered` and `is_flagged` hold iff bit 6, bit 5 and bit 4 of the cell are one, and `num_mines` is the cell's value modulo 16, its low four bits |
| Cells.BlankCellBits | minesweeper.c:71-75 | a cell is blank iff its count, uncovered and mine bits are all zero, whatever its flag |
| Cells.PutMineSpec | minesweeper.c:42-44 | `put_mine` sets the mine field and changes no other field of the cell and no other cell |
| Cells.PutMineMines | minesweeper.c:42-44 | after `put_mine` a cell holds a mine iff it did before or it is the mined cell |
| Cells.UncoverCellSpec | minesweeper.c:50-53 | `uncover_cell` sets the uncovered field and changes nothing else |
| Cells.SetFlagSpec | minesweeper.c:59-61 | `set_flag` makes the cell flagged and changes nothing else |
| Cells.UnsetFlagSpec | minesweeper.c:63-65 | `unset_flag` makes the cell unflagged and changes nothing else |
| Cells.FlagIdempotent | minesweeper.c:59-65 | setting or clearing a flag twice is the same as doing it once |
| Cells.NeighbourhoodIsComplete | minesweeper.c:95-111 | the eight offsets are exactly the adjacent positions, each at one index of the visiting order |
| Cells.NeighbourhoodIsSymmetric | minesweeper.c:95-111 | if p is the k-th neighbour of q then q is the (7-k)-th neighbour of p |
| Flood.UncoverBlankCell | minesweeper.c:90-125 | only uncovered marks change, and only from covered to uncovered; the start cell ends up uncovered; no other mined cell is uncovered; every blank cell uncovered has all its neighbours off the table, mined or uncovered; every other cell uncovered has a neighbour that is the start or a mine-free cell with count 0 uncovered by the same call, so the fill stops at numbered cells; terminates on the number of covered cells |
| Flood.VisitNeighbours | minesweeper.c:113-122 | the neighbour loop from index k only uncovers cells without a mine, leaves neighbours k..7 settled, never adds covered cells, and every cell it uncovers has a neighbour that is the visited cell or a mine-free cell with count 0 it uncovered |
| Flood.UncoverShrinksCovered | minesweeper.c:93 | uncovering one cell removes exactly that cell from the covered cells |
| Seeding.BumpNeighbours | minesweeper.c:204-210 | the whole value of every in-bounds, mine-free cell adjacent to the new mine is incremented, and nothing else changes |
| Seeding.PlaceKeepsSeeded | minesweeper.c:182-210 | a placing round on a free cell keeps every mine-free cell equal to its number of mined neighbours, unflagged and covered, and adds exactly that cell to the mines |
| Seeding.IncrementStaysInCount | minesweeper.c:208 | incrementing a whole cell that holds a count below 8 gives the next count, with no carry into the flag bit |
| Seeding.SetMine | minesweeper.c:170-216 | records n as the mine count; the mines become the old ones plus the cells the consumed draws picked; n mines are placed unless the draws run out, and always when they pick at least n free cells; the table stays seeded |
| Seeding.ZeroTableIsSeeded | grid_table.c:40-45 | the zeroed table is seeded and holds no mine |
| Seeding.SeededCell | minesweeper.c:204-210 | on a seeded table a mine-free cell's count is the number of its mined neighbours, at most 8; it is unflagged and covered |
| Seeding.MineCountIsAdjacentMines | minesweeper.c:204-210 | the stored count is the size of the set of mined cells adjacent to the cell |
| Seeding.MinesBounded | minesweeper.c:175-216 | no table holds more mines than cells, so more mines than cells can never all be placed |
| Engine.MinesFor | minesweeper.c:144-155 | the mine count is the `size_t` cell count divided by 10, 7 or 5, rounded down; it never exceeds the cell count |
| Engine.MineCountExamples | minesweeper.c:144-155 | 10 x 10 Easy has 10 mines, 40 x 40 Expert 320, 5 x 5 Easy 2, 7 x 7 Hard 7 |
| Engine.Effective | minesweeper.c:139-140 | an unconfigured game plays 10 x 10 Easy; a configured one plays its configuration |
| Engine.SetConfiguration | minesweeper.c:129-136 | the next game plays the given size and difficulty; the table and mine count are untouched |
| Engine.NewGame | minesweeper.c:138-158 | a seeded table of the configured size; the recorded count is the difficulty's; the mines lie at drawn cells and number exactly the recorded count iff the draws sufficed, which they do when they pick enough distinct cells |
| Engine.EndGame | minesweeper.c:160-164 | the configuration and the table are released, so the next game plays 10 x 10 Easy |
| ConsoleGui.Init | console_gui.c:82-92 | cursor at (0, 0), both counters at the engine's mine count and no flags, status MENU |
| ConsoleGui.Restart | console_gui.c:97-100 | a new game followed by `init` establishes the session invariant and leads to the menu when the draws suffice |
| ConsoleGui.MenuKey | console_gui.c:151-184 | s, f, c, n, q in either case select SETTING, FLAG, CHECK, NEW_GAME, GAME_OVER; any other key keeps the status |
| ConsoleGui.CursorWraps | console_gui.c:193-206 | on a side of at most 40 cells, back moves from 0 to the last place and otherwise down one; forward moves from the last place to 0 and otherwise up one; the two undo each other |
| ConsoleGui.MoveCursorStays | console_gui.c:193-206 | a cursor key moves the cursor to another place on the table and changes nothing else |
| ConsoleGui.MoveCursorKeepsInv | console_gui.c:245-258 | the cursor keys of check mode, which are those of flag mode, keep the session invariant |
| ConsoleGui.FlagEnterToggles | console_gui.c:213-226 | Enter in flag mode toggles the flag of a covered cell and changes nothing else on the table; on an uncovered cell it changes nothing |
| ConsoleGui.ToggleFlagTracked | console_gui.c:213-226 | after a toggle `num_flags` still counts the flagged cells and `found_num_mines` the unflagged mines; neither wraps |
| ConsoleGui.FlagEnterKeepsInv | console_gui.c:211-231 | Enter in flag mode keeps the session invariant |
| ConsoleGui.FlagEnterEndsExactly | console_gui.c:228-230 | flag mode ends the game exactly when the flagged cells are the mined cells |
| ConsoleGui.FlagKeyKeepsInv | console_gui.c:186-235 | every key of flag mode keeps the session invariant |
| ConsoleGui.CheckEnterReveals | console_gui.c:263-272 | the game ends iff the cell holds a mine, and then the table is unchanged; otherwise the cell ends up uncovered; no mined cell is uncovered; only uncovered marks change; an uncovered cell changes nothing; a covered numbered cell is uncovered alone; a blank one is flooded, its neighbours settled and every opened cell fed by a blank one; the counters stay |
| ConsoleGui.CheckEnterKeepsInv | console_gui.c:263-272 | Enter in check mode keeps the session invariant |
| ConsoleGui.CheckKeyKeepsInv | console_gui.c:237-276 | every key of check mode keeps the session invariant |
| ConsoleGui.MenuKeyKeepsInv | console_gui.c:151-184 | every key of the menu keeps the session invariant |
| ConsoleGui.EndKey | console_gui.c:289-302 | y or Y exits, n or N starts a new game, any other answer keeps the status; nothing else changes |
| ConsoleGui.EndKeyKeepsInv | console_gui.c:289-302 | the answer to the exit question keeps the session invariant |
| ConsoleGui.FirstAccepted | console_gui.c:127-141 | the re-prompt loop stops at the first answer in range, and every earlier answer was out of range |
| ConsoleGui.SettingStep | console_gui.c:124-148 | either nothing changes or a configuration within 5..40 x 5..40 is set and a new game follows; the table is not touched |
| ConsoleGui.SettingStepAccepts | console_gui.c:124-148 | with an accepted answer at every prompt, the first accepted width, height and difficulty are set and the status is NEW_GAME |
| ConsoleGui.SettingStepWaits | console_gui.c:124-148 | while some prompt has no accepted answer, nothing changes |
| ConsoleGui.SettingKeepsInv | console_gui.c:124-148 | the settings keep the session invariant |
| ConsoleGui.FoundWithinCount | console_gui.c:213-226 | `found_num_mines` is the number of mined cells without a flag, so it never exceeds the mine count |
| ConsoleGui.WonIsExact | console_gui.c:228-230 | under the invariant the counters meet the win condition iff the flagged cells are exactly the mined cells |
| ConsoleGui.HitMineNeverWins | console_gui.c:266-267 | revealing a mine ends the game, and the corrected win test then reports a loss |
| ConsoleGui.WonAsWrittenAfterMine | console_gui.c:284-287 | the win test as written reports a win after a mine is revealed whenever every mine carries a flag |
| ConsoleGui.BoomExampleCells | minesweeper.c:144-155 | the example has two mines, the count a 5 x 5 Easy game gets, both flagged, and one more flag on a mine-free cell |
| ConsoleGui.BoomExampleWinsAsWritten | console_gui.c:284-287 | the example satisfies the session invariant; revealing its flagged mine reports a win as written but not under the corrected test |

## Left out

- Rendering: `print_table`, `draw_cell`, `overwrite_cell`, `clear_screen`, the ANSI colour strings, the output buffer and the `dirty` flag (console_gui.c:19-37, 79, 306 on). This is terminal output with nothing to state.
- Input: `getch` and `scanf`. A key or a sequence of typed numbers is a parameter. A `scanf` that reads no number is not modelled.
- The `start_menu` driver loop (console_gui.c:94-122). Each of its steps is modelled (`Restart`, `SettingStep`, `MenuKey`, `FlagKey`, `CheckKey`, `EndKey`) and the invariant lemmas cover every step. The loop itself is not.
- Randomness: `srand(time(NULL))` and `rand()`. The draws are a parameter.
- Seeding.SetMine: the source retries forever when fewer free cells remain than mines to place. The model stops when the draws run out and reports how many mines it placed.
- Seeding.SetMine: it requires a seeded table: nothing flagged or uncovered, and every mine-free cell holding its count. `new_game`, its only caller, passes the freshly zeroed table, which satisfies this (`Seeding.ZeroTableIsSeeded`).
- Memory: `malloc` and `free` always succeed. The `sizeof` mismatches at grid_table.c:38 and 42 are not modelled. A table is a value with storage or without it.
- The accessors require `column < width` and `row < height`. The source never checks them, and out-of-range access is undefined behaviour in C.
- The `int` loop counters of `init_table` and `set_mine` are compared with `size_t` values. They are not modelled, because every accepted table has at most 1600 cells.
- `table_width`, `table_height` and `get_num_mines` have no contract of their own. `GridTable.DimensionsPersist` and `Engine.NewGame` state what they return.
- ConsoleGui.CursorWraps: it is stated for sides of at most 40 cells, the largest the settings accept, not for every `size_t` side.
- The headers `grid_table.h` and `minesweeper.h` hold only declarations. The `Difficulty` and `GameConfiguration` types are taken from them.
- Flood.UncoverBlankCell: the C recursion depth and the stack are not modelled.
- Flood.UncoverBlankCell: the bound on what the fill opens is local: each opened cell other than the start has a feeding neighbour. A region of blank cells feeding one another but cut off from the start is not excluded by the contract, although the recursion never reaches one.

Two places where the code's own tests differ:
- Flag mode ends the game when `num_flags == nMines` and `found_num_mines == 0` (console_gui.c:228). `end_of_game` tests only `found_num_mines == 0` (console_gui.c:284). The model has both; see Findings.
- The settings check the height against `MAX_WIDTH` (console_gui.c:135). Both limits are 40, so `ConsoleGui.SettingStep` uses the width limit as written and `ConsoleGui.SettingStepAccepts` states the height range.

## Findings

| source | as written | input that shows it | evidently intended | confidence | as-written member | corrected member |
|---|---|---|---|---|---|---|
| console_gui.c:284-287 | `end_of_game` reports a win whenever `found_num_mines == 0` | 5 x 5 Easy game, two mines, at (0, 0) and (1, 0). In flag mode flag (0, 1), (0, 0), then (1, 0): three flags, found 0, and since 3 != 2 the game goes on. In check mode reveal (0, 0): GAME_OVER and "you won" | a win only when `num_flags == nMines` and `found_num_mines == 0`, i.e. exactly the mined cells are flagged | not executed | ConsoleGui.WonAsWritten (shown by ConsoleGui.BoomExampleWinsAsWritten and ConsoleGui.WonAsWrittenAfterMine) | ConsoleGui.Won (ConsoleGui.WonIsExact, ConsoleGui.HitMineNeverWins) |
| grid_table.c:75-77 | `is_within_bound` compares the column with the height and the row with the width | 5 wide, 10 high: (column 7, row 0) passes, though row 0 has only 5 cells | column below the width, row below the height | not executed | GridTable.IsWithinBoundAsWritten (shown by GridTable.WithinBoundAsWrittenAdmitsOutside) | GridTable.InBounds (GridTable.InBoundsIsStorageAddress) |
