# 2048 engine: a Dafny model

This project models the tile-grid engine of the browser 2048 game, the `Game2048` class
in `script.js`. The engine holds a 4x4 board of numbers, where 0 is an empty cell and
every other cell is a power of two of at least 2. It also holds the score, the best score and three flags:
`gameOver`, `isPaused` and `lastMoveChanged`.

A move in one of four directions hands every row or column, front first, to `mergeRow`.
`mergeRow` drops the empty cells, merges equal neighbours in one left-to-right pass, adding
each merged value to the score, and pads the line back to four entries with zeros. A move
that changed some line spawns a 2 or a 4 in a random empty cell, raises the best score to
the score when the score passed it, and runs the terminal test `checkGameOver`. The test
ends the game when no cell is empty and no two horizontal or vertical neighbours are equal.
`newGame`, `exitGame`, `pauseGame` and `resumeGame` reset or toggle the score and the flags.

The project has three files:

- `line.dfy`, module `Line`: `mergeRow` as value functions on one line:
  - `Compact` is the zero filter;
  - `Combine` and `CombineGain` are the single merge pass and its points;
  - `Pad` pads the line with zeros;
  - `MergedRow` and `RowGain` put these together.
  
  The module's lemmas prove what a merge promises:
  - the merged line has the right length and is packed;
  - the tile total is kept;
  - powers of two stay powers of two;
  - merging is a single pass;
  - a line is unchanged exactly when it is settled;
  - a scoring line always changes.
- `board.dfy`, module `Board`: the board as a value:
  - the four moves (`Slide`) and the points a move earns (`Gain`);
  - the list of empty cells and the spawn of `addRandomTile` (`EmptyCells`, `Spawn`);
  - the terminal condition of `checkGameOver` (`Stuck`);
  - the list `saveGridState` returns (`TilesOf`);

  with the lemmas that relate them.
- `engine.dfy`, module `Engine`: the class `Game2048`. Its fields are the engine's state, and
  its methods follow the source's loops:
  - rows are replaced whole, as `moveLeft` and `moveRight` do;
  - columns are read out and written back cell by cell, as `moveUp` and `moveDown` do;
  - `mergeRow` increments the score field as it merges.

  Each method is proved against the value functions of `Line` and `Board`.

Randomness is a parameter. `choice: nat` picks the empty cell: the spawn uses entry
`choice % n` of the row-major list of the n empty cells. `four: bool` says the new tile is a
4 rather than a 2. `Board.SpawnReachesEveryEmptyCell` shows that every empty cell is picked
by some `choice`. The best score read from browser storage is the constructor's parameter
`storedBest`.

## Model

| member | source | states |
|---|---|---|
| Line.Compact | script.js:294 | the zero filter: the line's non-zero entries in order; the result is no longer than the line and has no empty cell |
| Line.Combine | script.js:297-303 | the single merge pass on a line without empty cells; the result has between half and all of the line's entries, and no empty cell |
| Line.CombineGain | script.js:297-303 | the points the merge pass awards; they are non-zero only when the pass shortened the line, and never negative on positive tiles |
| Line.Pad | script.js:309-311 | the line followed by zeros up to gridSize entries; a line already that long is kept |
| Line.MergedRow | script.js:292-314 | the line mergeRow returns: the merge pass of the line's tiles, padded with zeros; it has gridSize entries |
| Line.RowGain | script.js:297-303 | the points mergeRow adds to the score for a line; never negative on a line of tiles |
| Line.CompactKeepsNonZeroLine | script.js:294 | the zero filter changes a line exactly when the line has an empty cell |
| Line.CompactKeepsTiles | script.js:294 | the zero filter keeps the tile total, and on a line of tiles it leaves only positive powers of two |
| Line.PackedSplit | script.js:306-311 | a packed line is its tiles followed by zeros |
| Line.CombineConserves | script.js:297-303 | the merge pass keeps the tile total: a merge doubles one tile and consumes its neighbour |
| Line.CombineKeepsPowers | script.js:297-303 | merging positive powers of two yields positive powers of two |
| Line.CombineFixedIff | script.js:297-303 | the pass changes a line exactly when two neighbours are equal, and exactly then shortens it |
| Line.CombineGainBounds | script.js:297-303 | the pass scores only when it merges; its points lie between 0 and the tile total, and are 0 exactly when no neighbours are equal |
| Line.CombineFirstMerge | script.js:297-303 | the single-pass rule: on a line p, x, x, r with no equal neighbours in p followed by x, the tiles of p are kept, the pair becomes one tile 2x that scores 2x, and the pass restarts on r, so the new tile is never compared again |
| Line.PassMergeStep | script.js:298-301 | one loop step on two equal tiles doubles the first, empties the second and scores the doubled value, which agrees with the merge pass |
| Line.PassSkipStep | script.js:297-298 | one loop step at an emptied cell changes nothing the merge pass sees |
| Line.PassKeepStep | script.js:297-298 | one loop step at a tile unequal to its neighbour changes nothing the merge pass sees |
| Line.PassLast | script.js:297 | the loop stops with at most one entry left, and that entry needs no merge |
| Line.PassFromCombines | script.js:297-303 | the loop from any index i leaves the zero-free prefix, then the single merge pass of the rest, and scores that pass's points |
| Line.PassIsCombine | script.js:297-306 | the whole in-place loop, after its empty cells are dropped, is the single merge pass, and it scores that pass's points |
| Line.MergedRowShape | script.js:292-314 | the merged line has exactly gridSize entries, its tiles come before its zeros, and its tiles are the merge pass of the input's tiles |
| Line.MergedRowConserves | script.js:292-314 | mergeRow keeps the tile total of the line |
| Line.MergedRowKeepsTiles | script.js:292-314 | if every entry is 0 or a power of two of at least 2, so is every merged entry |
| Line.MergedRowSinglePass | script.js:297-303 | one call of mergeRow removes at most half of the line's tiles |
| Line.SinglePassFourEqual | script.js:297-303 | [2,2,2,2] gives [4,4,0,0] and 8 points |
| Line.SinglePassNoChain | script.js:297-303 | [2,2,4,0] gives [4,4,0,0] and 4 points: a new 4 does not merge with the old 4 |
| Line.SinglePassAcrossGaps | script.js:292-314 | [0,4,0,4] gives [8,0,0,0] and 8 points: equal tiles merge across empty cells |
| Line.MergedRowFixedIff | script.js:292-314 | mergeRow leaves a line unchanged exactly when the line is packed and has no equal neighbouring tiles |
| Line.ChangedRowHasGap | script.js:292-314 | a line that mergeRow changes comes out with an empty cell |
| Line.ScoringRowChanges | script.js:292-314 | a line that earns points is changed |
| Line.RowGainBounds | script.js:292-314 | on a line of tiles the points lie between 0 and the tile total, and are 0 exactly when no tile merged |
| Board.SlideLeft | script.js:232-242 | the board moveLeft leaves: every row replaced by its merged row; a square board of the same size |
| Board.SlideRight | script.js:244-254 | the board moveRight leaves: every row reversed, merged and reversed back; a square board of the same size |
| Board.SlideUp | script.js:256-272 | the board moveUp leaves: cell (i, j) is entry i of merged column j; a square board of the same size |
| Board.SlideDown | script.js:274-290 | the board moveDown leaves: cell (i, j) is entry i of column j reversed, merged and reversed back; a square board of the same size |
| Board.Slide | script.js:209-222 | the board a move in the given direction leaves; a square board of the same size |
| Board.LineGains | script.js:232-290 | the points mergeRow awards each line of a move, in the order the lines are merged; one entry per line |
| Board.Gain | script.js:232-290 | what a move adds to the score: the sum of its lines' points |
| Board.SlideRightMirrorsLeft | script.js:244-254 | moveRight is moveLeft on the mirrored board, mirrored back, and it scores the same |
| Board.SlideUpTransposesLeft | script.js:256-272 | moveUp is moveLeft on the transposed board, transposed back, and it scores the same |
| Board.SlideDownTransposesRight | script.js:274-290 | moveDown is moveRight on the transposed board, transposed back, and it scores the same |
| Board.SlideLine | script.js:232-290 | each line of the moved board is the merge of the same line of the old board and depends on nothing else |
| Board.LinesDetermineGrid | script.js:256-290 | a board is determined by its lines in any one direction |
| Board.SlideFixedIff | script.js:232-290 | a move leaves the board as it is exactly when every line it merges is settled |
| Board.SlideChangesIff | script.js:232-290 | a move changes the board exactly when the merge changes one of its lines, which is what `lastMoveChanged` records |
| Board.ScoringSlideIsEffective | script.js:224-229 | a move that earns points changes the board, so it is always followed by a spawn |
| Board.GainNonNegative | script.js:292-314 | on a board of tiles no move loses points |
| Board.SlideKeepsTiles | script.js:232-314 | a move keeps every cell 0 or a power of two of at least 2 |
| Board.EffectiveSlideLeavesEmpty | script.js:224-225 | a move that changed the board leaves an empty cell, so the spawn after it always places a tile |
| Board.StuckBoardCannotMove | script.js:335-363 | on a board the terminal test accepts, no direction changes anything |
| Board.MovableUnlessStuck | script.js:335-363 | on a board with a tile that the terminal test rejects, some direction changes the board |
| Board.EmptyCells | script.js:42-49 | the list addRandomTile collects; every entry is an empty cell of the board |
| Board.Spawn | script.js:41-55 | the board addRandomTile leaves: the cell SpawnCell picks from the empty-cell list gets a 2 or a 4, and a full board stays as it is; a square board of the same size |
| Board.Stuck | script.js:335-363 | the condition under which checkGameOver ends the game: no empty cell, and no cell equal to its lower or right neighbour |
| Board.TilesOf | script.js:58-69 | the list saveGridState returns; every entry is a non-empty cell with its value |
| Board.EmptyCellsExact | script.js:42-49 | the collected list holds exactly the empty cells, and it is non-empty exactly when the board has an empty cell |
| Board.SpawnFillsOneEmptyCell | script.js:41-55 | on a full board nothing changes; otherwise exactly one empty cell becomes a 2 or a 4 and every other cell is kept |
| Board.SpawnReachesEveryEmptyCell | script.js:51-53 | every empty cell is the spawn cell for some random choice |
| Board.SpawnKeepsTiles | script.js:41-55 | a spawn keeps every cell 0 or a power of two of at least 2 |
| Board.TwoPlacements | script.js:31-32 | two placements of a 2 or a 4 on an empty board leave exactly two tiles, each a 2 or a 4 |
| Board.SeedingPlacesTwoTiles | script.js:20-32 | two spawns on a zeroed board leave exactly two non-zero cells, each a 2 or a 4 |
| Board.TilesOfExact | script.js:58-69 | the saved list holds exactly the non-empty cells, each with its value |
| Board.TilesComplementEmptyCells | script.js:41-69 | a cell is saved as a tile exactly when `addRandomTile` would not list it as empty |
| Engine.ArraysEqual | script.js:316-322 | true exactly when the two lines are equal |
| Engine.Game2048.constructor | script.js:2-14 | score 0, all three flags false, empty board, best score the stored value raised to at least 0 by `updateScores` |
| Engine.Game2048.StartGame | script.js:16-18 | the board becomes two spawns on a zeroed 4x4 board, with exactly two start tiles, and the engine is valid |
| Engine.Game2048.BuildEmptyGrid | script.js:22-28 | the board becomes gridSize rows of gridSize zeros |
| Engine.Game2048.InitializeGrid | script.js:20-39 | the board becomes two spawns on a zeroed board: exactly two tiles, each a 2 or a 4 |
| Engine.Game2048.AddRandomTile | script.js:41-55 | the board becomes the spawn on the old board for the given choices |
| Engine.Game2048.MergeRow | script.js:292-314 | returns the merged line and adds exactly that line's points to the score |
| Engine.Game2048.MergePass | script.js:294-306 | the in-place loop yields the single merge pass once zeros are dropped, and adds its points to the score |
| Engine.Game2048.PadWithZeros | script.js:309-311 | the line padded with zeros to gridSize entries |
| Engine.Game2048.ReadColumn | script.js:258-261 | returns column j of the board |
| Engine.Game2048.StoreColumn | script.js:265-270 | column j of the board becomes the new column, and the flag is set exactly when some cell of it changed |
| Engine.Game2048.StoreRow | script.js:237-240 | row i becomes the new row, and the flag is set exactly when the row changed |
| Engine.Game2048.MoveRow | script.js:233-241 | row i becomes row i of the moved board; the score gains that row's points; the flag records whether it changed |
| Engine.Game2048.MoveColumn | script.js:257-271 | column j becomes column j of the moved board; the score gains that column's points; the flag records whether it changed |
| Engine.Game2048.MoveLeft | script.js:232-242 | the board becomes the left move of the old board, the score gains its points, and the flag is set if the board changed |
| Engine.Game2048.MoveRight | script.js:244-254 | the board becomes the right move of the old board, the score gains its points, and the flag is set if the board changed |
| Engine.Game2048.MoveUp | script.js:256-272 | the board becomes the up move of the old board, the score gains its points, and the flag is set if the board changed |
| Engine.Game2048.MoveDown | script.js:274-290 | the board becomes the down move of the old board, the score gains its points, and the flag is set if the board changed |
| Engine.Game2048.MoveDone | script.js:232-290 | the points and change flags gathered line by line add up to the move's points and to "the board changed" |
| Engine.Game2048.SaveGridState | script.js:58-69 | returns the non-empty cells with their values in row-major order |
| Engine.Game2048.UpdateScores | script.js:324-333 | the best score becomes the larger of itself and the score |
| Engine.Game2048.CheckGameOver | script.js:335-363 | returns true exactly when no cell is empty and no neighbours are equal; `gameOver` is set then and untouched otherwise |
| Engine.Game2048.Move | script.js:204-230 | over or paused: nothing changes. Otherwise the flag says whether the move changed the board, and the score gains the move's points. A change spawns one tile, updates the best score and runs the terminal test; no change keeps everything. Scores never decrease and validity is kept |
| Engine.Game2048.NewGame | script.js:402-408 | score 0, `gameOver` and `isPaused` cleared (`lastMoveChanged` is kept, as in the source), best score kept, and a freshly seeded board with exactly two start tiles |
| Engine.Game2048.ExitGame | script.js:410-417 | score 0, `gameOver` and `isPaused` cleared (`lastMoveChanged` is kept, as in the source); the board and the best score are kept |
| Engine.Game2048.PauseGame | script.js:392-396 | pauses exactly a game that is not over |
| Engine.Game2048.ResumeGame | script.js:398-400 | the game is no longer paused |

## Left out

- Rendering and animation (`renderGrid`, `animateTilesMovement`, `createTileTrail`, the overlay show and hide calls): these only draw. The model keeps the one piece of state they touch: the `isPaused` flag set by the pause menu.
- Persistence: the stored best score is the constructor's parameter `storedBest`. The write of the best score to storage in `updateScores` is I/O and is not modelled. A stored value that does not parse as a number (NaN in the source) is not modelled.
- The random distribution of `addRandomTile` (a 4 one time in ten) is not modelled. The cell and the value are arbitrary parameters.
- Input handling (`bindEvents`, `handleSwipe`), the canvas animation (`MatrixRain`), the theme and language managers and the loading screen are outside the engine.
- Engine.Game2048.MoveLeft: the moves, `Move`, `AddRandomTile`, `CheckGameOver` and `SaveGridState` require a built 4x4 board. In the source the board is the empty list until the start button builds it. A key press before that makes `move` throw a TypeError, and exceptions are not modelled.
- Engine.Game2048.Move: requires the engine to be valid (a built board of tiles, 0 <= score <= best score). The constructor followed by `StartGame` or `NewGame` establishes this. `Move`, `StartGame`, `NewGame`, `ExitGame`, `PauseGame` and `ResumeGame` keep it. The move helpers (`MergeRow`, `MergePass`, `MoveRow`, `MoveColumn`, `MoveLeft`, `MoveRight`, `MoveUp`, `MoveDown`) are like the source's: they leave the score above the best score until `updateScores` runs.
- Engine.Game2048.NewGame: requires a best score of at least 0. The constructor guarantees this, and no method lowers the best score.
- Engine.Game2048.ExitGame: requires a best score of at least 0, for the same reason as `NewGame`.
- Engine.Game2048.StartGame: requires 0 <= score <= best score. The constructor guarantees this, and so does every public operation that ends its work (`Move`, `NewGame`, `ExitGame`, `PauseGame`, `ResumeGame`).
- Numbers are unbounded integers. The source's numbers are IEEE doubles, exact for every tile value a game can reach.
- The board is a sequence of rows that the methods reassign. Two names for one row array, which the source's arrays would allow, are not modelled.
- Board.MovableUnlessStuck: the terminal test holding exactly when no move is possible is stated for boards that hold a tile. `Valid()` does not record that the engine's board always holds one (seeding places two tiles and each line's merge keeps its tile total, but no engine invariant is proved from these), so the equivalence is not carried over to the engine's states.
- The constructor does not build a board: as in the source, the board is empty until `startGame`.
