# 2048 board engine in Dafny

A model of the board-transition engine of a tkinter 2048 game
(`2048game.py`): a 4x4 board of integers, 0 meaning an empty cell, moved in
one of four directions by compressing the tiles of each row to the left,
merging equal neighbours left to right, and compressing again.  Right, Up and
Down are that left move seen through `reverse` (each row read backwards) and
`transpose`.  After a move that changed the board a tile of 2 or 4 is
spawned into an empty cell.  The new board is then checked for a 2048 tile
first and for the end of the game second.

The project has four modules:

- `Rows` (`rows.dfy`) covers one row as a value: `CompressRow`, the in-place
  merge scan `MergeFrom`/`MergeRow`, a reference merge with an explicit skip
  (`MergePairs`), `MoveLeftRow` and `Rev`, with the lemmas about them.
- `Boards` (`boards.dfy`) covers the 4x4 board as a value: `Reverse`,
  `Transpose`, the four moves, `HasWon`, `NoMoves`, the row-major list of
  empty cells, `Spawn` and one `Turn`, with the lemmas about them.
- `Engine` (`engine.dfy`) holds the moves as the game runs them, on
  `array2<int>`.
  - `Compress` fills a fresh array with a position counter in nested loops.
  - `Merge` rewrites its argument in place.
  - `Reverse` and `Transpose` build fresh arrays.
  - The `Move*` methods compose them.
  - Each method is proved against the matching `Boards` function.
  - No move method has a `modifies` clause, so the verifier checks that none
    of them writes the board it is given. `Merge` only ever writes the array
    that `Compress` has just allocated.
- `Game` (`game.dfy`) holds the class `Game2048` with the `board` field.
  - `AddNewTile` writes one cell of the current board.
  - `CheckWin` and `IsGameOver` read it. `IsGameOver` uses nested loops with
    early returns.
  - `HandleKey` replaces the board with the move's result when that result
    differs, then spawns and classifies.

The random choices of `add_new_tile` are parameters. `choice` is the index
into the row-major list of empty cells. `lowRoll` stands for
`random.random() < 0.9` and selects 2, otherwise 4.

## Model

| member | source | states |
|---|---|---|
| `Rows.CompressPacksStably` | 2048game.py:58-67 | compress leaves no tile right of an empty cell, and its tiles are exactly the input's tiles in their original order |
| `Rows.CompressUnique` | 2048game.py:58-67 | any packed row of the same length with the same tiles in the same order is compress's result (compress is the stable left pack, not some other arrangement) |
| `Rows.CompressIdempotent` | 2048game.py:58-67 | compressing twice is compressing once |
| `Rows.PackedIsCompressed` | 2048game.py:58-67 | a row already packed to the left is left unchanged by compress |
| `Rows.CompressSum` | 2048game.py:58-67 | compress conserves the row total |
| `Rows.MergeFromIsPairs` | 2048game.py:72-75 | the scan from column c leaves the first c cells alone and treats the rest like the explicit-skip reference, whatever earlier steps wrote |
| `Rows.MergeRowIsPairs` | 2048game.py:69-76 | merge equals the reference that skips past both cells of each merged pair, so a tile made by a merge is never compared again |
| `Rows.MergeOncePerTile` | 2048game.py:69-76 | each cell after merge holds its old value, or double it (its equal right neighbour then emptied), or is empty because its equal left neighbour absorbed it; no cell holds four times a tile |
| `Rows.MergeSum` | 2048game.py:73-75 | merge conserves the row total |
| `Rows.MergeCountTiles` | 2048game.py:73-75 | merge removes exactly one tile per merged pair |
| `Rows.MergeCountZero` | 2048game.py:73 | merge merges nothing exactly when no tile equals its right neighbour |
| `Rows.MoveLeftRowSum` | 2048game.py:86-87 | move_left conserves the row total |
| `Rows.MoveLeftRowCount` | 2048game.py:86-87 | move_left's tile count is the input's minus the number of merges, hence never larger |
| `Rows.MoveLeftRowFixed` | 2048game.py:86-87 | move_left leaves a row unchanged exactly when the row is packed left and has no equal neighbouring tiles (both directions) |
| `Rows.MergeRowExamples` | 2048game.py:69-76 | `[2,2,2,2]` merges to `[4,0,4,0]`, two tiles and not one; `[2,2,4,0]` merges to `[4,0,4,0]`, the new 4 is not merged with the existing 4 in the same move |
| `Rows.MoveLeftRowExamples` | 2048game.py:86-87 | `[2,2,2,2]` and `[2,2,4,0]` both move left to `[4,4,0,0]`, not `[8,0,0,0]` |
| `Rows.RevSum` | 2048game.py:78-80 | reading a row backwards keeps its total |
| `Rows.RevCount` | 2048game.py:78-80 | reading a row backwards keeps its tile count |
| `Boards.ReverseInvolution` | 2048game.py:78-80 | reverse applied twice gives back the board |
| `Boards.TransposeInvolution` | 2048game.py:82-84 | transpose applied twice gives back the board |
| `Boards.ReverseTotal` | 2048game.py:78-80 | reverse keeps the board total and tile count |
| `Boards.TransposeTotal` | 2048game.py:82-84 | transpose keeps the board total and tile count |
| `Boards.MoveLeftByRows` | 2048game.py:86-87 | the board-level compress/merge/compress moves each row independently by the row move |
| `Boards.MoveRightByRows` | 2048game.py:89-90 | move_right moves each row as the mirror image of a left move |
| `Boards.MoveUpByColumns` | 2048game.py:92-93 | move_up moves each column independently towards row 0 by the row move |
| `Boards.MoveDownByColumns` | 2048game.py:95-96 | move_down moves each column as the mirror image of an up move, towards row 3 |
| `Boards.MoveConservesTotal` | 2048game.py:86-96 | every one of the four moves conserves the board total |
| `Boards.MoveLeftTiles` | 2048game.py:86-87 | move_left loses exactly one tile per merge performed |
| `Boards.MoveNeverAddsTiles` | 2048game.py:86-96 | no move increases the number of tiles |
| `Boards.MoveFixedIff` | 2048game.py:86-96 | each move leaves the board unchanged exactly when move_left leaves unchanged every row of the board as seen from that direction |
| `Boards.RowsFixedIff` | 2048game.py:86-87 | move_left leaves every row unchanged exactly when each row is packed and has no mergeable pair |
| `Boards.GameOverFixesMoves` | 2048game.py:102-114 | when is_game_over holds, all four moves return a board equal to the input |
| `Boards.StuckIffGameOver` | 2048game.py:102-114 | no move changes the board exactly when is_game_over holds or the board is empty |
| `Boards.CheckerboardIsGameOver` | 2048game.py:102-114 | a full board of alternating 2s and 4s is game over |
| `Boards.EmptyCellsRowMajor` | 2048game.py:45 | the empty-cell list holds exactly the empty cells, in strictly increasing row-major order |
| `Boards.Spawn` | 2048game.py:43-48 | a board with an empty cell gets the chosen cell (previously empty) set to 2 or 4 and every other cell kept; a board with no empty cell is unchanged |
| `Boards.SpawnOnFullBoard` | 2048game.py:46 | on a board with no empty cell the list is empty and nothing changes |
| `Boards.SpawnAddsOneTile` | 2048game.py:43-48 | a spawn on a board with an empty cell adds exactly one tile |
| `Boards.StartSpawnsTwoTiles` | 2048game.py:37-40 | the two spawns of start_game on the empty board give exactly two tiles |
| `Boards.Verdict` | 2048game.py:130-133 | after a changing move the message is a win exactly when 2048 is on the board, and game over exactly when it is not but no move is left |
| `Boards.WinBeatsGameOver` | 2048game.py:130-133 | a board that holds 2048 and has no move left reports a win |
| `Boards.TurnGating` | 2048game.py:124-133 | a move that changes nothing leaves the board unchanged and shows nothing; otherwise the moved board has an empty cell and the turn's board is its spawn, with exactly one tile more than the moved board |
| `Boards.ChangedMoveHasRoom` | 2048game.py:86-96 | every move that changes the board leaves at least one empty cell, so the spawn after it always finds one |
| `Rows.MoveLeftRowLeavesRoom` | 2048game.py:86-87 | a move_left that changes a row leaves an empty cell in it |
| `Engine.Compress` | 2048game.py:58-67 | returns a fresh array holding compress of the input board; the input is not written |
| `Engine.Merge` | 2048game.py:69-76 | rewrites its argument in place into merge of its old contents |
| `Engine.Reverse` | 2048game.py:78-80 | returns a fresh array holding the reversed board |
| `Engine.Transpose` | 2048game.py:82-84 | returns a fresh array holding the transposed board |
| `Engine.MoveLeft` | 2048game.py:86-87 | returns a fresh array holding move_left of the input board; the input is unchanged |
| `Engine.MoveRight` | 2048game.py:89-90 | returns a fresh array holding move_right of the input board; the input is unchanged |
| `Engine.MoveUp` | 2048game.py:92-93 | returns a fresh array holding move_up of the input board; the input is unchanged |
| `Engine.MoveDown` | 2048game.py:95-96 | returns a fresh array holding move_down of the input board; the input is unchanged |
| `Engine.Move` | 2048game.py:118-125 | dispatches a direction to its move; the input is unchanged |
| `Game.Game2048.constructor` | 2048game.py:15-17 | a new game is the all-empty 4x4 board followed by start_game's two spawns |
| `Game.Game2048.StartGame` | 2048game.py:37-40 | the board becomes two successive spawns of the old board |
| `Game.Game2048.AddNewTile` | 2048game.py:43-48 | the current board becomes its spawn for the given choices |
| `Game.Game2048.CheckWin` | 2048game.py:98-100 | true exactly when some cell of the current board is 2048 |
| `Game.Game2048.IsGameOver` | 2048game.py:102-114 | true exactly when no cell is empty and no horizontally or vertically adjacent cells are equal |
| `Game.Game2048.HandleKey` | 2048game.py:116-133 | the board and message become those of one turn; a move that changes nothing keeps the same board object, a changing one installs a fresh board; the replaced board is never written |
| `Game.Game2048.SpawnAndReport` | 2048game.py:128-133 | spawns into the current board, then reports a win before game over |

## Left out

- The tkinter user interface is not modelled: window creation and `mainloop`, `setup_ui`, `update_ui`, `show_message` and the colour table (2048game.py:5-35, 50-56, 135-142). It is presentation only. `HandleKey` returns the message that would be shown.
- The probability distribution of the spawn is not modelled. `random.choice` and `random.random() < 0.9` become the parameters `choice` and `lowRoll`. The only requirement is the one `random.choice` guarantees: the index is in range when the list is non-empty. `Turn` and `HandleKey` ask for it only when the move changes the board, because an unchanged move draws nothing. The constructor takes the choices of start_game's two spawns.
- Key-event decoding is not modelled. The `event.keysym` strings become the `Direction` datatype. A key outside the map, which the source ignores, is not representable.
- Aliasing of rows is not modelled. Python boards are lists of row lists, and here a board is one `array2<int>`. Rows are never shared between boards in the source, because `compress`, `reverse` and `transpose` always build new rows.
- Integers are Dafny's unbounded `int`, like Python's. No power-of-two invariant is assumed, since the source does not enforce one.
- `add_new_tile` returns nothing, so no success flag is modelled.
- No malformed board is rejected, since the code never checks one.
- The changed test is the inline comparison `new_board != self.board` in `handle_key`.
- After a win or game-over message, keys are still handled as before, since the code keeps no end-of-game state.
- `Game.Game2048.SpawnAndReport` has no counterpart of its own in the source. It is the tail of `handle_key` (2048game.py:128-133), split out to keep the proof of `HandleKey` small.
