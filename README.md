# 2405 board engine and points ledger

This project models two parts of the "2405" game, a 2048-style tile-merging
puzzle with a points backend. Both are modelled in Dafny with their
properties proved.

**The board engine.** It is the same in `components/Game2048.js` and
`client/src/components/Game2048.js`. The board is a 4 x 4 grid of integers,
where 0 is an empty cell. The engine has these parts:

- `moveLeft` slides and merges every row to the left.
- `rotateGrid` turns the board a quarter turn clockwise.
- The other three directions are `moveLeft` wrapped in quarter turns.
- `addRandomTile` writes a 2 or a 4 into one empty cell, in place.
- `isGameOver` recognises a board with no empty cell and no equal neighbours.
- `move` and `resetGame` update the game state: `grid`, `score`, `gameOver`
  and `won`.

**The points endpoint.** `pages/api/points.js` answers GET with a player's
points and high score. On POST it adds points and may raise the high score.
Both are behind a token check.

Files:

- `wrappers.dfy`: the `Option` type.
- `board.dfy`, module `Board`: the reference definitions as functions, and
  the lemmas about them. These cover:
  - the row slide `Compact` (filter, merge, pad) and the quarter turn `Rotate`;
  - the direction table `Transform` and the terminal predicate `Terminal`;
  - the empty-cell list `EmptyCells` and the spawn `Spawned`;
  - the tile invariant `TilesValid`.
- `engine.dfy`, module `Engine`: the source's loops as methods, each proved
  to compute its reference function. It holds:
  - `addRandomTile` on an `array2<int>` changed in place;
  - the `Game` class, whose fields are the component's four state cells.
- `points.dfy`, module `Points`: the user collection as a class
  `PointsStore` holding a `map<string, UserRecord>`. Its method `Handle` is
  the request handler.

Randomness becomes explicit parameters.

- `cellDraw` in [0, 1) stands for the first `Math.random()`. The chosen index
  is `Floor(cellDraw * n)`, as in `Math.floor(Math.random() * emptyCells.length)`.
- `valueDraw` stands for the second call. The tile is 2 when `valueDraw < 0.9`
  and 4 otherwise.

The direction labels are reproduced as the code writes them:

- `'up'` applies one quarter turn, `moveLeft`, then three turns. This packs
  every column toward row 3, the bottom row on screen.
- `'down'` applies three turns, `moveLeft`, then one turn. This packs every
  column toward row 0.

## Model

| member | source | states |
|---|---|---|
| Board.CompactLaws | components/Game2048.js:38-60 | a slid row has 4 cells, the same sum, no more tiles than before, and every tile before every zero |
| Board.CompactMergesLeftmostPair | components/Game2048.js:43-50 | [2,2,2,0] slides to [4,2,0,0]: the leftmost pair merges first |
| Board.CompactMergesEachTileOnce | client/src/components/Game2048.js:44-51 | [4,4,4,4] slides to [8,8,0,0]: a merged tile does not merge again in the same move |
| Board.CompactSlidesOverGaps | components/Game2048.js:40-46 | zeros between equal tiles do not stop them merging: [0,0,2,2] and [2,0,2,0] give [4,0,0,0] |
| Board.MergeKeepingLength | client/src/components/Game2048.js:44-51 | a merge pass that keeps the length merged nothing and returns its input |
| Board.MergeWithoutPairs | components/Game2048.js:43-50 | with no equal adjacent tiles the merge pass is the identity |
| Board.CompactFixesBlockedRow | components/Game2048.js:38-60 | a full row with no equal neighbours does not change when slid |
| Board.ChangedRowEndsEmpty | client/src/components/Game2048.js:39-61 | a row that the slide changes ends in an empty cell |
| Board.NonZero | components/Game2048.js:40 | the filter step: keeps only non-zero values, as many as the row has tiles, each taken from the row, with the same sum |
| Board.Merge | components/Game2048.js:43-50 | the merge loop as a recursive definition: a value equal to its right neighbour becomes their double and the neighbour is skipped. Its contract: no longer than its input, the same sum, and no zero produced from zero-free input |
| Board.Compact | components/Game2048.js:39-57 | one row of moveLeft: filter, merge, then pad with zeros; a row of at most 4 cells becomes exactly 4 cells |
| Board.CompactGrid | client/src/components/Game2048.js:39-61 | moveLeft on the whole board, row by row; a 4 x 4 board stays 4 x 4 |
| Board.Turn | components/Game2048.js:63-71 | k successive rotateGrid calls; a 4 x 4 board stays 4 x 4 |
| Board.TurnsBefore | components/Game2048.js:104-116 | the rotateGrid calls each direction makes before moveLeft (left 0, right 2, up 1, down 3); with the calls after, they add up to whole turns, so the board ends in its own orientation |
| Board.Transform | client/src/components/Game2048.js:80-95 | the board the switch produces before the spawn: moveLeft between the direction's turns, a 4 x 4 board |
| Board.Terminal | components/Game2048.js:74-96 | the isGameOver condition: no empty cell, and no equal neighbours in any row or column; a terminal board has no empty cell |
| Board.EmptyCells | components/Game2048.js:22-29 | the emptyCells list, row by row; every listed cell is on the board and holds 0 |
| Board.Spawned | client/src/components/Game2048.js:22-36 | addRandomTile as a function of the two draws: the board itself when full, otherwise the picked empty cell set to the drawn 2 or 4; a 4 x 4 board |
| Board.InitialGrid | components/Game2048.js:13-18 | initializeGrid: two spawns on the all-zero board, a 4 x 4 board |
| Engine.SpawnOnCopy | components/Game2048.js:124-125 | addRandomTile run on an array holding the slid board gives the spawned board |
| Points.Truthy | pages/api/points.js:47 | the test on score: it fails exactly for an absent score and for 0 |
| Points.ValidPoints | pages/api/points.js:36 | the test on points: it fails exactly for a value that is not a number and for a negative number |
| Engine.MergePass | components/Game2048.js:41-50 | the merge loop with its skip computes the reference merge |
| Engine.MoveLeftRow | client/src/components/Game2048.js:40-57 | filter, merge loop and padding loop compute the reference row slide |
| Engine.MoveLeft | components/Game2048.js:38-60 | every row of the board is slid independently |
| Board.Rotate | components/Game2048.js:63-71 | the quarter turn places cell (i, j) at (j, 3 - i) and yields a 4 x 4 board |
| Board.RotateFourTimes | client/src/components/Game2048.js:64-72 | four quarter turns give back the board |
| Board.RotatePermutes | components/Game2048.js:63-71 | a quarter turn keeps the multiset of cell values |
| Board.RotateKeepsSum | client/src/components/Game2048.js:64-72 | a quarter turn keeps the board sum |
| Board.ParseDirection | components/Game2048.js:104-119 | exactly the names left, right, up and down select a direction; any other is unknown |
| Board.TransformNesting | components/Game2048.js:104-116 | each direction is moveLeft wrapped in the quarter turns the switch applies |
| Engine.Slide | client/src/components/Game2048.js:80-92 | the switch's composition of rotateGrid and moveLeft computes the direction's transform |
| Board.LeftCompactsRows | components/Game2048.js:105-107 | left slides every row toward column 0, tiles before zeros |
| Board.RightCompactsRows | components/Game2048.js:108-110 | right slides every row toward column 3: the slide of the reversed row, reversed back |
| Board.UpCompactsColumnsDownward | components/Game2048.js:111-113 | up, as written, slides every column toward row 3 |
| Board.DownCompactsColumnsUpward | client/src/components/Game2048.js:90-92 | down, as written, slides every column toward row 0 |
| Board.TransformKeepsSum | components/Game2048.js:104-119 | every direction keeps the board sum |
| Board.NeighboursDifferEverywhere | components/Game2048.js:83-93 | no equal right or lower neighbour anywhere is the same as each cell differing from its right and lower neighbour |
| Engine.IsGameOver | components/Game2048.js:74-96 | the answer is true exactly when no cell is empty and no horizontal or vertical neighbours are equal |
| Board.TerminalBlocksEveryMove | client/src/components/Game2048.js:125-147 | on a board where isGameOver holds, no direction changes anything |
| Board.CompactGridFixesTerminal | components/Game2048.js:74-96 | on a board where isGameOver holds, moveLeft leaves every row as it is |
| Board.ChangedMoveLeavesEmptyCell | components/Game2048.js:122-125 | a move that changes the board leaves an empty cell, so the spawn that follows always places a tile |
| Board.EmptyCellsExact | components/Game2048.js:22-29 | the empty-cell list holds exactly the cells that are 0, and is empty exactly when the board is full |
| Engine.CollectEmptyCells | client/src/components/Game2048.js:23-30 | the nested loops list the empty cells row by row |
| Board.Spawn | components/Game2048.js:31-34 | the chosen cell was empty and now holds the value, and every other cell is unchanged |
| Board.Pick | components/Game2048.js:32 | the chosen index is within the empty-cell list |
| Board.TileValue | client/src/components/Game2048.js:34 | the new tile is 2 or 4 |
| Board.SpawnAddsOneTile | components/Game2048.js:31-34 | a spawn raises the board sum by the new value and the tile count by one |
| Board.SpawnedChangesOneEmptyCell | components/Game2048.js:21-35 | on a full board addRandomTile changes nothing; otherwise exactly one empty cell becomes the new tile and the sum grows by it |
| Engine.AddRandomTile | client/src/components/Game2048.js:22-36 | the board in the array becomes the spawned board |
| Board.InitialGridHasTwoTiles | components/Game2048.js:13-18 | a new board has exactly two tiles, its sum is the two new values, and all its cells are tiles |
| Engine.InitializeGrid | client/src/components/Game2048.js:14-19 | an empty array with two tiles added is the reference initial board |
| Board.MergeKeepsTiles | components/Game2048.js:44-46 | merging tiles that are 0 or powers of two no smaller than 2 gives such tiles |
| Board.TransformKeepsTiles | client/src/components/Game2048.js:80-95 | every direction keeps every cell 0 or a power of two no smaller than 2 |
| Board.SpawnedKeepsTiles | components/Game2048.js:33 | a spawn keeps every cell 0 or a power of two no smaller than 2 |
| Board.WinningNeeds4096 | components/Game2048.js:132 | on such a board, a cell reaches 2405 exactly when some cell is at least 4096 |
| Board.ChangedMoveOutcome | components/Game2048.js:122-135 | after a changing move and its spawn, the tile count is one more than the slid board's, and the sum is the old board sum plus the new tile |
| Engine.Tally | components/Game2048.js:129-137 | the scoring loop computes the board sum and whether some cell is at least 2405 |
| Engine.SpawnAndScore | client/src/components/Game2048.js:100-120 | after a changing move the new board holds only tiles and one more tile. The new score is the old board sum plus the new tile. The win and game-over answers hold for the new board |
| Engine.Game.constructor | components/Game2048.js:180-185 | the first state is a board of two tiles, score 0, both flags cleared |
| Engine.Game.ResetGame | client/src/components/Game2048.js:189-197 | a positive score is reported when there is a listener; then a new two-tile board, score 0, both flags cleared |
| Engine.Game.Move | components/Game2048.js:99-146 | a game that is over, an unknown direction or an unchanged board leaves all four fields as they were. Otherwise the grid is the slid board plus one spawned tile. The score is the new board sum, the old sum plus the new tile. won is raised by a cell of at least 2405 and never cleared. gameOver holds exactly when the new board is terminal. Every cell stays a tile |
| Points.Wallet | pages/api/points.js:8-14 | a wallet exists exactly when there is a decoded token with a non-empty address, and it is that address |
| Points.Credit | pages/api/points.js:46-50 | points grow by exactly p. A truthy score sets the high score to the larger of the two; otherwise it stays. The high score never falls. lastPlayed is the time of the request |
| Points.CreditKeepsRecordValid | pages/api/points.js:46-49 | a credited record keeps points and high score non-negative; a truthy score is at most the new high score |
| Points.ReplayTotals | pages/api/points.js:46-49 | after any series of POSTs the points are the start plus every credited amount. The high score is at least the start and every truthy score sent, and equals one of them |
| Points.PointsStore.Handle | pages/api/points.js:8-64 | no wallet gives 401. GET answers the stored balance or 404. POST gives 400 for bad points before the lookup, then 404 for an unknown wallet, else it credits only that record and answers the new balance. Any other method gives 405 with Allow GET, POST. Only a successful POST changes the store, points and high scores never fall, and the wallets stay the same |

## Left out

- React machinery is not modelled: `useState`, `useEffect`, `useCallback`,
  the keydown listener, JSX and the tile colours. State setters are field
  assignments in the order the code calls them.
- The component's first render, with the empty grid of `useState([])`
  before the effect at components/Game2048.js:180-185 runs, is not modelled.
  The `Game` constructor stands for the state after that effect.
- The 0.9 / 0.1 split is not modelled as a probability distribution. Only the
  branch on the draw is kept.
- JSON.stringify comparison of grids is modelled as sequence equality.
- Terminal boards: the model proves that `isGameOver` implies no direction
  changes the board. The converse fails for the all-zero board, which no
  direction changes and which is not terminal. For boards with at least one
  tile the converse holds, but it is not proved here.
- Points.PointsStore.Handle: JavaScript numbers are unbounded integers here. NaN and
  Infinity pass the type test at pages/api/points.js:36 but are not
  modelled. A score of another JavaScript type is not modelled either: the
  score is an optional integer, and truthiness is "present and not 0".
- Points.PointsStore.Handle: database failures (the 500 answers at
  pages/api/points.js:28-31 and 57-60) and the connection step are not
  modelled. The race between `findOne` and `save` is not modelled either.
  The store is a map, and one request is one atomic step.
- Points.Wallet: the decoded token is an input. The JWT check of
  `authenticateToken` and user creation in the auth endpoint are not part of
  this model. The store is given to the constructor.
- Console logging is not modelled.
- The game's integer cells are unbounded. JavaScript doubles only lose
  precision far beyond any reachable tile.
