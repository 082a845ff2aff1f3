# Maze game core in Dafny

`maze.c` is a small terminal maze game:

- **Startup.** It reads a text map in which each character is one cell: `0` empty, `1` wall, `2` visited start, `3` finish, `4` player. It sizes its grid from the map, allocates it and loads the map into it.
- **Play.** Two threads then run side by side:
  - One reads keystrokes. `w`, `a`, `s`, `d` move the player; `q` quits. Every key except `q` is followed by a win check.
  - The other redraws the grid about 24 times a second until the game ends, then prints an epilogue.

This project models the sequential core of that program:

- the size scan (`get_maze_size`);
- the buffer allocation and the map loader (`alloc_maze_buffer`, `load_maze_to_buffer`);
- the movement routine (`move`);
- the win check (`check_win`);
- the key-reading loop of `capture`, over a given sequence of keys;
- the renderer (`print`), as a function producing the text it writes.

The model has four modules, plus the scenario module `MazeScenarios`:

- `MazeSpec` (maze_spec.dfy) holds the game state as a value `Game`, and one move, the win check and the key loop as functions on it. Lemmas state what the game promises:
  - a refused move changes nothing;
  - an accepted move moves one cell and writes exactly two cells;
  - exactly one cell holds the player;
  - the start stays marked once left;
  - `won` is monotone and decided by coordinates;
  - the key loop stops at `q` or at the first win.
- `MapText` (map_text.dfy) holds the map text as rows joined by newlines, and a reference scan for the last `4` and the last `3` in reading order.
- `Picture` (picture.dfy) holds the text the renderer draws, with its exact layout and length.
- `MazeGame` (maze.dfy) holds the program's own state, the class `Maze`:
  - a heap grid `array2<int>` (`Length0` is `SIZE_Y`, `Length1` is `SIZE_X`);
  - the player, start and finish coordinates;
  - the `won` flag (`WINSTATE`) and the `quit` flag (`QUIT`).

  Its methods follow the C routines loop for loop. `Move`, `CheckWin`, `Dispatch` and `Capture` are proved to produce `State() == F(old(State()))` for the corresponding value-level function `F`. `Load`, `LoadChar`, `Step` and `Store` state their new grid directly, through `Put`, `Digit` and the last-occurrence definitions of `MapText`. A ghost field `cells` mirrors the grid as rows of values.

`MazeScenarios` (scenarios.dfy) proves three short games from these contracts:

- on the map `403`, two presses of `d` reach the finish and win;
- on the 1×1 map `4`, every move is refused;
- on the map `403`, `q` before any move quits without a win.

## Model

| member | source | states |
|---|---|---|
| MazeSpec.Target | maze.c:89-142 | the edge tests: a target exists only for a direction code and is the player shifted by that direction's offset; for a player on the grid, one exists exactly when the shifted cell is on the grid |
| MazeSpec.Move | maze.c:88-143 | one call of the movement routine keeps the grid shape and start, finish and flags; it changes only cells and player, and a call that leaves the player in place changes nothing |
| MazeSpec.MoveBlocked | maze.c:88-143 | a move that is not a direction, leaves the grid or targets a wall (stated on signed offsets, independently of the edge tests) returns the state unchanged: grid, player and flags |
| MazeSpec.MoveAccepted | maze.c:88-143 | an unblocked move shifts the player by exactly the direction's offset, keeps start, finish and flags, and changes only two cells: the new player cell holds PLAYER, the vacated one VISITED if it is the start and EMPTY otherwise |
| MazeSpec.MoveMovesIff | maze.c:88-143 | the player moves if and only if the step is not blocked |
| MazeSpec.MovePreservesInv | maze.c:88-143 | every move keeps exactly one PLAYER cell at the player, the start cell VISITED once the player has left it, and all cells in 0..4 |
| MazeSpec.SinglePlayerCount | maze.c:93-100 | the single-player invariant means the grid holds the value PLAYER exactly once |
| MazeSpec.CheckWin | maze.c:229-234 | sets won exactly when the player's coordinates equal the finish's, never clears it, changes nothing else |
| MazeSpec.CheckWinIgnoresCells | maze.c:229-234 | the win check reads coordinates only: its verdict does not depend on the grid |
| MazeSpec.CheckWinPreservesInv | maze.c:229-234 | the win check keeps the invariants of play |
| MazeSpec.KeyStep | maze.c:242-257 | one non-quit key (move if w/a/s/d, then the win check) keeps the grid shape and the player on the grid; afterwards won holds exactly when it held before or the player is on the finish; w, a, s, d perform MazeSpec.Move UP, LEFT, DOWN, RIGHT, and any other key changes nothing but won |
| MazeSpec.Capture | maze.c:240-263 | the key loop over a sequence of keys keeps the grid shape, start and finish, and the player on the grid |
| MazeSpec.CaptureStops | maze.c:241-263 | the loop reads at most all keys; it stops only on a q or a win, is stopped by the first q it reads, and sets quit exactly when it stops; without stopping it has read every key and quit is unchanged |
| MazeSpec.CaptureChecksWin | maze.c:257-260 | the win check runs after every key read: a loop still waiting after one or more keys has not won and has the player off the finish |
| MazeSpec.QuitKeyStops | maze.c:241 | a q anywhere in the keys stops the loop, sets quit and ends reading at or before it |
| MazeSpec.QuitKeyOnlyQuits | maze.c:241 | the q that stops the loop makes no move and runs no win check: the result is the state after the keys before it with quit set, and exactly the keys up to the q are read |
| MazeSpec.CaptureIgnoresRest | maze.c:241-261 | keys after the one that stopped the loop have no effect |
| MazeSpec.CaptureWin | maze.c:257-260 | won never reverts; if the loop sets it, the loop stopped with the player on the finish; the finish never moves |
| MazeSpec.CapturePreservesInv | maze.c:241-261 | the whole key loop keeps the invariants of play |
| MazeSpec.Epilogue | maze.c:276-282 | the congratulation message is chosen exactly when won holds, the interrupt message otherwise |
| MapText.Digit | maze.c:190 | the stored value is ch - '0' truncated to an unsigned byte: always in 0..255, and the digit's value for '0'..'4' |
| MapText.RowAt | maze.c:172-191 | in the text of a uniform map, cell x of row y sits x characters after the text of the rows above, and row y's newline w characters after it |
| MapText.LinesAt | maze.c:172-191 | cell (x, y) of a map of width w is character y(w+1)+x of its text, the newline ending row y character y(w+1)+w |
| MapText.MapShape | maze.c:69-79 | for a uniform map, the characters before the first newline number the width and the newlines number the rows |
| MapText.LastInRow | maze.c:181-188 | the last of the first x cells of a row holding the character, if any: it lies in that row, before column x, and holds it |
| MapText.LastAbove | maze.c:181-188 | the last cell holding the character in the rows above row y, if any: it lies above y and holds it |
| MapText.LastSeen | maze.c:181-188 | the last cell holding the character among those the loader has read before (x, y), if any: it comes before (x, y) and holds it |
| MapText.LastInRowIsLast | maze.c:176-191 | the row scan finds nothing exactly when no earlier cell holds the character, and otherwise the last one |
| MapText.LastAboveIsLast | maze.c:176-191 | the scan of the rows above finds nothing exactly when those rows lack the character, otherwise its last cell in reading order |
| MapText.LastSeenIsLast | maze.c:181-188 | after the whole map, the scan has a result exactly when the character occurs, and it is the last occurrence in reading order |
| MapText.RowLinesRoundTrip | maze.c:190 | a grid of digit values written as map text is uniform and loads back as the same values |
| MapText.LoadedInv | maze.c:181-185 | a map of digits 0..4 with a single '4', loaded with player and start on it, satisfies the invariants of play |
| Picture.Sprite | maze.c:196-200 | a cell value 0..5 picks a glyph that is never a newline and is a blank exactly for EMPTY |
| Picture.SpriteInjective | maze.c:196-200 | distinct cell values are drawn as distinct glyphs |
| Picture.DrawInjective | maze.c:195-210 | two grids of the same shape drawn as the same text hold the same cells: the picture determines the grid |
| Picture.RowTextLength | maze.c:199-204 | a row of w cells is drawn as 2w - 1 characters |
| Picture.RowTextAt | maze.c:199-204 | the glyph of cell x is at offset 2x of its row, followed by a space unless it is the last cell |
| Picture.DrawLength | maze.c:198-208 | h rows of w cells are drawn as h(2w-1) + (h-1) characters |
| Picture.RowOffsetIs | maze.c:198-208 | row y of the picture starts at offset 2wy |
| Picture.DrawLayout | maze.c:198-208 | cell (x, y) is drawn at offset RowOffset(w, y) + 2x; a space follows inside a row, and a newline follows the last cell of every row but the last |
| Picture.DrawConcat | maze.c:205-207 | two pictures stacked are joined by exactly one newline |
| MazeGame.GetMazeSize | maze.c:65-79 | the width is the count of characters before the first newline (which sits at that offset if present), and the height the number of newlines |
| MazeGame.Maze.constructor | maze.c:153-163 | allocates a fresh grid of SIZE_Y rows of SIZE_X cells, mirrored by cells, every cell EMPTY, the coordinates at (0, 0) and both flags clear |
| MazeGame.Maze.Load | maze.c:165-193 | every cell holds the byte ch - '0' of its map character; player and start are the last '4' (player on start), finish the last '3'; without such a character the coordinates are unchanged |
| MazeGame.Maze.LoadChar | maze.c:176-191 | one character: a newline goes to column 0 of the next row; any other is stored at (x, y) and advances x, a '4' setting player and start and a '3' the finish; no other cell changes |
| MazeGame.Maze.Move | maze.c:88-143 | the heap state after the call is MazeSpec.Move of the state before it |
| MazeGame.Maze.Probe | maze.c:89-142 | the edge and wall tests accept exactly when the target is on the grid and not a wall, and return that target |
| MazeGame.Maze.Store | maze.c:95-100 | one cell write, with the grid and its mirror agreeing afterwards: the cells are the old ones with p replaced by v (also used for the load's write at maze.c:190) |
| MazeGame.Maze.Step | maze.c:93-100 | the vacated cell gets VISITED on the start and EMPTY elsewhere, the player moves to q and q gets PLAYER; nothing else changes |
| MazeGame.Maze.CheckWin | maze.c:229-234 | the heap state after the call is MazeSpec.CheckWin of the state before it |
| MazeGame.Maze.Capture | maze.c:240-263 | the state after the loop, the count of keys read and whether it stopped are MazeSpec.Capture of the state before it |
| MazeGame.Maze.Dispatch | maze.c:242-255 | w, a, s, d perform MazeSpec.Move UP, LEFT, DOWN, RIGHT; every other key leaves the state unchanged |
| MazeGame.Maze.Render | maze.c:195-210 | the text written is Picture.Draw of the grid's cells |
| MazeGame.Maze.RenderRow | maze.c:199-204 | the text written for row y is Picture.RowText of that row |
| MazeGame.Open | maze.c:311-316 | size scan, allocation and load give a fresh grid of the map's shape holding its digits, player and start on the last '4', finish on the last '3', (0, 0) for a character the map lacks, flags clear |

## Left out

- Threads: the two threads and their unsynchronised sharing of the state are not modelled. The key loop and the renderer are separate sequential routines, so a torn frame cannot be expressed.
- The render loop: its 41667 µs sleep, and its polling of `QUIT`, are not modelled. Only one frame (`print`) is modelled.
- The epilogue: `Epilogue` chooses the message, but printing it and `clear` are not modelled.
- Terminal handling: raw mode (`set_term_raw`, `set_term_def`, `atexit`), the terminal size query and `term_too_small_handler` are outside the game logic and not modelled.
- Cursor escape sequences: the save, restore and zero macros are not modelled. `Render` returns only the characters `putchar` writes.
- File I/O: `fopen` failures with their message and exit, and reading the file twice, are not modelled. The file's contents are a `string` parameter, one `char` per byte of the file, given to both passes.
- The argument count check in `main` is not modelled.
- `free_map` is not modelled: there is no deallocation in Dafny.
- Buffer contents: `malloc` leaves the grid uninitialised. `MazeGame.Maze.constructor` fills it with EMPTY; every cell of a uniform map is overwritten by the load anyway.
- MazeGame.Maze.Load: requires a uniform map, meaning every row has `SIZE_X` characters and ends in a newline. A longer row, or a last row without a newline, writes outside the C buffer, which Dafny cannot express.
- MazeGame.Maze.Load: does not model reading into a C `char`. Where `char` is signed, a byte 0xFF equals `EOF` and ends the loop early. Where it is unsigned, `cur` never equals `EOF` and the loop never ends. The model reads exactly the characters of the text.
- MazeGame.GetMazeSize: does not model reading into a C `char` either. The same comparison with `EOF` at maze.c:69 stops early on a 0xFF byte where `char` is signed and never stops where it is unsigned. The model scans exactly the characters of the text.
- MazeGame.Maze.Load: a map without a `4` or a `3` leaves the C coordinates uninitialised. The model keeps their previous values, which the constructor sets to (0, 0).
- MazeGame.Maze.Capture: when the keys run out before a `q` or a win, the C loop is still blocked in `getchar`. The model then returns with `stopped` false and `quit` unchanged.
- MazeGame.Maze.Render: requires every cell to be in 0..5. `sprites` is a 6-byte array, so the value 5 prints its terminating NUL, and 6..255 index outside it in C. The invariants of play keep every cell in 0..4.
- `size_t` arithmetic is not modelled. The C tests `SIZE_Y - 1` and `SIZE_X - 1` wrap around for an empty grid. The model's moves require the player on the grid, so neither dimension is zero there.
- The win check runs after every key except `q`, including keys that request no move, as at maze.c:257. The model does the same.
