# Minesweeper engine in Dafny

This project models the game engine of a browser Minesweeper, the class
`MinesweeperGame` of `js/game.js`, and proves what it promises. A game has
a square board of `size` × `size` cells. `minesCount` mines are placed on
distinct cells, and every safe cell gets its count of neighbouring mines.
The player reveals cells: revealing a mine loses and shows every mine,
revealing a 0 opens its surroundings by flood fill, and revealing the last
safe cell wins. The player can also put flags down and lift them.

Two modules:

- `Grid` (`grid.dfy`) holds coordinates, neighbourhoods, neighbour counts,
  the set of safe cells and the counting facts behind the win check. It
  also states the flood fill's outcome over sets.
- `Game` (`game.dfy`) holds the engine itself as the class
  `MinesweeperGame` over an `array2<Cell>`:
  - `minePositions` is a `seq<Pos>` in placement order.
  - `revealedCells` and `flaggedCells` are `set<Pos>`.
  - `gameOver`, `gameWon` and `moveCount` are fields.

  Each JavaScript method that changes state or loops is a Dafny method with
  the source's loops, guards and recursion, and its `ensures` state the
  result and the new state. The three pure reads (`isValidPosition`,
  `getFlagCount`, `getRemainingMines`) are functions.

`Valid()` is the class invariant, and every public operation keeps it. It
says the following:

- There are exactly `minesCount` listed mines, all on the board.
- Every cell of the board agrees with the sets (`Render`):
  - a cell is a mine exactly when it is listed;
  - a safe cell shows its neighbour count;
  - a cell is revealed when it is in `revealedCells` or, after a loss, when it is a mine;
  - a cell is flagged exactly when it is in `flaggedCells`.
- While no mine has been hit, no revealed cell is a mine or flagged.
- The status fits the count: a running game has fewer than
  `size² − minesCount` revealed cells, a won game exactly that many.

The flood fill is specified by two set predicates of `Grid`:

- `ZerosSettled`: every 0 it opened has no closed, unflagged safe neighbour left.
- `Supported`: every other cell it opened touches the start cell or a 0 it opened.

Termination of the mutual recursion between `RevealAdjacentCells` and
`OpenNeighbour` is proved by the number of unrevealed cells. That number
drops before every recursive call.

## Model

| member | source | states |
|---|---|---|
| `Game.MinesweeperGame.constructor` | js/game.js:2-18 | A new game is valid. It has exactly `minesCount` distinct mine positions, and a cell is a mine exactly when listed. Every safe cell shows its neighbour count and every mine shows 0. Nothing is revealed or flagged, the game is neither over nor won, and `moveCount` is 0. |
| `Game.MinesweeperGame.NewGameValid` | js/game.js:2-18 | A board with the listed mines, numbered safe cells and nothing opened or flagged satisfies the game invariant. |
| `Game.MinesweeperGame.InitializeBoard` | js/game.js:20-33 | A fresh `size` × `size` board results, with every cell a non-mine showing 0, closed and unflagged. |
| `Game.MinesweeperGame.PlaceMines` | js/game.js:35-49 | `minesCount` on-board positions are listed in placement order, with none repeated and none already mined. Each listed cell becomes a mine and nothing else about the board changes. |
| `Game.MinesweeperGame.FreeSquareExists` | js/game.js:39-43 | While fewer than `size²` cells are mined, some cell is still free, so the random draw can succeed. |
| `Game.MinesweeperGame.CalculateNumbers` | js/game.js:51-59 | Every non-mine cell ends with the number of its neighbouring mines. Mine cells and all other fields of every cell are unchanged. |
| `Game.MinesweeperGame.CountAdjacentMines` | js/game.js:61-76 | The result is the number of in-board neighbours of (x, y), excluding (x, y), that are mines, and it is at most 8. |
| `Game.MinesweeperGame.IsValidPosition` | js/game.js:78-80 | True exactly when (x, y) is a cell of the board. |
| `Game.MinesweeperGame.RevealCell` | js/game.js:82-113 | Returns `Rejected` exactly when the game is over or won, (x, y) is off the board, or the cell is revealed or flagged, and then changes nothing. Otherwise `moveCount` rises by exactly 1 and (x, y) is revealed. A mine sets `gameOver`, leaves `gameWon` false and shows every mine. A safe cell keeps every revealed cell safe and unflagged, and opens only (x, y) unless it shows 0. It fills as `ZerosSettled` and `Supported` say, and wins exactly when `size² − minesCount` cells are revealed, which is when all safe cells are. The invariant is kept in every case. |
| `Game.MinesweeperGame.FinishSafeReveal` | js/game.js:101-112 | After a safe cell is opened, the flood fill runs when the cell shows 0, then the win check. The result is `Win`, with `gameOver` and `gameWon` set, exactly when the revealed count is `size² − minesCount`; otherwise the result is `Safe` and the game goes on. |
| `Game.MinesweeperGame.RevealAdjacentCells` | js/game.js:115-137 | Only safe, unflagged cells are opened, and the board and the revealed set change together. Afterwards no neighbour of (x, y) is left closed unless flagged or a mine. Every 0 it opened is settled the same way, and every cell it opened touches (x, y) or a 0 it opened. |
| `Game.MinesweeperGame.OpenNeighbour` | js/game.js:123-134 | When the neighbour is off the board, already revealed, flagged or a mine, nothing changes. Otherwise it is opened. If it shows a number, it is the only cell opened; if it shows 0, the fill continues from it. Afterwards that neighbour, if on the board, is revealed, flagged or a mine. |
| `Game.MinesweeperGame.LiveIsValid` | js/game.js:105-112 | A state without a mine hit whose status matches its revealed count satisfies the invariant. |
| `Game.MinesweeperGame.CellOpened` | js/game.js:92-93 | Opening one safe, unflagged cell on the board and in `revealedCells` together keeps the board in step with the sets. |
| `Game.MinesweeperGame.MineHit` | js/game.js:95-98 | Hitting a mine, then showing all mines, gives a lost game that keeps the invariant. |
| `Game.MinesweeperGame.RevealAllMines` | js/game.js:157-161 | Every listed mine becomes revealed, and nothing else on the board changes. |
| `Game.MinesweeperGame.CheckWinCondition` | js/game.js:163-170 | `gameWon` becomes true when the revealed count equals `size² − minesCount`; otherwise it stays as it was. |
| `Game.MinesweeperGame.WonRevealsAllSafe` | js/game.js:163-170 | In a won game, the revealed cells are exactly the safe cells of the board. |
| `Game.MinesweeperGame.ToggleFlag` | js/game.js:139-155 | Returns `NotToggled` exactly when the game is over or won, (x, y) is off the board, or the cell is revealed, and then changes nothing. Otherwise (x, y) joins the flags (`Added`) or leaves them (`Removed`). Only that cell's flag bit changes on the board, and the remaining-mine count moves by one in the opposite direction. The invariant is kept. |
| `Game.MinesweeperGame.FlagToggled` | js/game.js:146-153 | Flipping an unrevealed cell's flag in the set and on the board together keeps the invariant. |
| `Game.MinesweeperGame.GetFlagCount` | js/game.js:172-174 | The result is the number of flagged cells, at most `size²`. |
| `Game.MinesweeperGame.GetRemainingMines` | js/game.js:176-178 | The result is `minesCount` minus the flag count, and lies between `minesCount − size²` and `minesCount`. |
| `Game.ToggleFlagTwice` | js/game.js:139-155 | Toggling the same cell twice is rejected both times or accepted both times, an add is undone by a remove, and the flags and the board end as they started. |
| `Game.RenderFlag` | js/game.js:146-153 | Changing the flag set at one cell changes the expected contents of that cell alone, and only its flag. |
| `Game.RenderReveal` | js/game.js:92-93 | Adding one cell to the revealed set changes the expected contents of that cell alone, and only its revealed bit. |
| `Grid.NeighboursMember` | js/game.js:63-70 | A cell is a neighbour of `c` exactly when it is on the board and differs from `c` by at most one in each coordinate, but is not `c`. |
| `Grid.MineCountBound` | js/game.js:61-76 | A cell's number is at most its count of neighbours, which is at most 8. |
| `Grid.ZeroCountNoMine` | js/game.js:131-132 | A cell showing 0 has no mine among its neighbours. |
| `Grid.ScanStep` | js/game.js:63-73 | Visiting offset (dx, dy) adds one to the count exactly when that offset is not (0, 0) and names an on-board mine. |
| `Grid.ScanRowEnd` | js/game.js:63-64 | Finishing a row of offsets starts the next with the same count. |
| `Grid.ScanEnd` | js/game.js:61-76 | After all nine offsets, the count is the number of neighbouring mines. |
| `Grid.CellsCard` | js/game.js:164 | A `size` × `size` board has `size²` cells. |
| `Grid.OnBoardCard` | js/game.js:123-132 | A set of on-board cells has at most `size²` members, which bounds the fill's recursion. |
| `Grid.SafeCellsCard` | js/game.js:164-165 | With its mines on the board, a board has `size² − |mines|` safe cells. |
| `Grid.WinIffAllSafeRevealed` | js/game.js:163-170 | When every revealed cell is a safe cell of the board, at most `size² − |mines|` are revealed. Exactly that many are revealed if and only if all safe cells are. |
| `Grid.FreeCellExists` | js/game.js:39-43 | Fewer than `size²` taken cells leave some cell of the board free. |
| `Grid.DistinctIffCard` | js/game.js:43-46 | No position repeats in a list exactly when it has as many distinct members as entries. |
| `Grid.ScanDoneStep` | js/game.js:116-134 | Visiting offset (dx, dy) of the fill settles the neighbour at that offset, if there is one. |
| `Grid.ScanDoneRowEnd` | js/game.js:116-136 | After the last row of offsets, every neighbour of the centre cell is revealed, flagged or a mine. |
| `Grid.ScanDoneGrows` | js/game.js:123-133 | Neighbours already settled stay settled as more cells are revealed. |
| `Grid.SettledGrows` | js/game.js:123-133 | A settled cell stays settled as more cells are revealed. |
| `Grid.SupportedAdd` | js/game.js:123-129 | Opening a neighbour of the fill's start keeps every opened cell supported. |
| `Grid.SupportedJoin` | js/game.js:131-133 | Continuing the fill from an opened 0 keeps the outer fill supported. |
| `Grid.SupportedTrans` | js/game.js:116-136 | Two supported stretches of one fill, one after the other, make a supported whole. |
| `Grid.SupportedFromStart` | js/game.js:101-103 | A fill started just after its start cell was opened is supported, counted from before that opening. |
| `Grid.ZerosSettledAdd` | js/game.js:128-131 | Opening a cell that shows a non-zero number keeps every opened 0 settled. |
| `Grid.ZerosSettledTrans` | js/game.js:116-136 | Two stretches of a fill that each settle their 0s settle them together. |
| `Grid.ZerosSettledJoin` | js/game.js:131-133 | Opening a 0 and filling from it until it is settled keeps every opened 0 settled. |
| `Grid.CornerOfThreeByThree` | js/game.js:61-76 | On a 3 × 3 board whose only mine is in the centre, a corner shows 1. |
| `Grid.TwoByTwo` | js/game.js:61-76 | On a 2 × 2 board with a mine at (0, 0), every other cell shows 1. |
| `Game.ThreeByThreeGame` | js/game.js:82-113 | On a new 3 × 3 game whose one mine is in the centre, revealing a corner is `Safe` and opens that corner alone. Revealing the centre next is `Mine`, and the game is then lost. |
| `Game.TwoByTwoGame` | js/game.js:82-113 | On a new 2 × 2 game with its mine at (0, 0), revealing (0, 1), (1, 0) and (1, 1) in turn gives `Safe`, `Safe`, `Win`. The game is then won with every safe cell revealed. |

## Left out

- js/ui.js is not part of this model. Its input checks (js/ui.js:39-52) stand behind the constructor's `requires`: a non-empty player name and `0 < minesCount < size²`.
- Game.MinesweeperGame.constructor: JavaScript numbers are modelled as `nat`, so the `requires` is stricter than the form checks. Those checks compare `parseInt` results (js/ui.js:36-37), and some inputs get past them that the model excludes:
  - A blank or non-numeric mine count (NaN) fails both comparisons, so the game is built with no mines (js/game.js:39) and can never be won (js/game.js:167).
  - A negative size with a positive mine count also gets through, and js/game.js:43 then throws.

  Neither case is modelled.
- js/database.js and js/main.js are not part of this model. They hold storage I/O over IndexedDB and start-up wiring, with no game logic. Move history and replay are not part of this model either.
- `Math.random` in `placeMines` is modelled as a nondeterministic choice of an unmined cell.
  - The source's rejection loop only ends with probability 1.
  - The model's loop places one mine per iteration, so it always ends.
- `startTime`, set on the first reveal from the clock, is left out. No game logic reads it.
- Cell keys are modelled as `Pos` values, not the strings `"x,y"`.
  - The two agree because each on-board cell has exactly one key.
- JavaScript's `false` result and its strings are modelled as datatypes.
  - `RevealCell` returns `Rejected` for `false`, and `Mine`, `Win` or `Safe` for `'mine'`, `'win'` or `'safe'`.
  - `ToggleFlag` returns `NotToggled` for `false`, and `Added` or `Removed` for `'add'` or `'remove'`.
- The board's cells are values. Each update writes a whole new cell, where the source sets one property of a shared object. No cell object is shared in the source, so there is no aliasing to capture.
- The array of arrays is modelled as an `array2`.
- `revealCell` is split into `RevealCell` and `FinishSafeReveal`, which holds lines 101-112.
- The body of the flood-fill loop (lines 123-134) is the method `OpenNeighbour`. It is called from `RevealAdjacentCells` and calls it back.
- `moveCount` is set to 0 after the board is built, not before. Nothing in between reads it.
- RevealAdjacentCells: the opened set is proved closed and locally supported:
  - closed: no opened 0 has a closed, unflagged safe neighbour;
  - locally supported: every opened cell touches the start cell or an opened 0.

  This is weaker than "exactly the cells reachable from the start through 0s", because a support chain is not required to lead back to the start.
- RevealCell: its flood-fill clause is the same closure-and-support statement, and is weaker for the same reason.
- FinishSafeReveal: its `FilledFrom` clause is the same closure-and-support statement, and is weaker for the same reason.
- OpenNeighbour: its `ZerosSettled` and `Supported` clauses are the same closure-and-support statement, and are weaker for the same reason.
- JavaScript's call-stack depth for the recursive flood fill is not modelled.
