# Minesweeper rule engine in Dafny

This project models the rule engine of `minesweeper.js`, a Minesweeper game for a square
field of N by N cells, and proves properties of that model.

The engine has two parts.

- A **cell** (`Cells.Cell`) holds a bomb flag and a five-state visibility machine:
  `Closed`, `Opened`, `MarkedAsBomb`, `Defused` and `Detonated`. It can be opened, which
  detonates or defuses a bomb; its bomb mark can be toggled; and it can be reset. Every
  transition reports whether the state changed.
- A **board** (`Game.Minesweeper`) owns an `array2` of cells and the game phase
  `Initiated -> Ready -> Running -> Win | Loss`. It provides:
  - bomb placement: a loop of random draws with a budget of N * N failed draws;
  - the clipped 8-neighbourhood of a cell, and the count of bombs in it;
  - the recursive cascade that opens every neighbour of a cell with no bomb around it;
  - the loss, which uncovers everything and detonates every bomb;
  - the win check, which defuses every bomb once every cell is open or rightly marked.

## Modules

- `cell.dfy`, module `Cells`. The state machine as pure functions (`Uncovered`, `Toggled`)
  and the mutable `Cell` class whose methods are proved against them.
- `field.dfy`, module `Field`. Pure notions over positions:
  - the neighbourhood in the order the source visits it (`AdjacentCells`);
  - bomb counting (`AdjacentBombs`);
  - the placement rule (`Surrounded`, `BombAdmissible`, `WellPlaced`) and the placement
    loop run over a sequence of draws (`Placement`, `PlacementRun`);
  - the cascade (`ZeroPath`, `ReachedFrom`, `ZeroClosed`, `Cascade`) with the lemmas the
    flood fill needs.
- `minesweeper.dfy`, module `Game`. The `Minesweeper` class.
  - `Bombs()` and `Hidden()` abstract the field into the set of bomb positions and the set
    of positions still to be uncovered.
  - `Consistent()` is the object invariant: the bombs are well placed, and every cell's
    state fits the phase.
  - `Settled()` says a running game is not already won.

The recursive `_openCell` becomes four mutually recursive methods:
- `OpenAt`: open one cell;
- `SpreadFrom`: count the neighbouring bombs of an opened cell;
- `OpenAdjacentCells`: loop over the neighbours;
- `OpenNeighbour`: one recursive call.

They end because each round opens a cell. The measure is the set of hidden positions, then
a rank.

The placement rule is the one the code applies. A draw is rejected:
- on a bomb;
- on a cell whose neighbours all hold bombs;
- on a cell whose bomb would leave a neighbouring bomb with only bombs around it.

Bombs may therefore be neighbours (`Field.NeighbouringBombsAreAdmissible`). A stricter
rule, that no two bombs are adjacent, is common in Minesweeper; this code does not apply
it. What the model proves instead is `WellPlaced`: every bomb has a neighbour without a
bomb.

The random draws of the placement loop are left open. `Field.Placement` runs the loop's
rule over any sequence of draws, and `Field.PlacementRun` says that a sequence is a whole
run of the loop. The placement methods return the positions they drew as a ghost result,
and state that the bombs on the field are those of `Placement` over that run.

## Model

| member | source | states |
|---|---|---|
| Cells.UncoveredSpec | minesweeper.js:100-107 | opening changes a cell exactly when it is Closed or MarkedAsBomb; a hidden bomb takes the given final state, a hidden safe cell becomes Opened; the result is never hidden and opening again changes nothing |
| Cells.ToggledSpec | minesweeper.js:70-84 | toggling changes a cell exactly when it is hidden, keeps it hidden or not hidden, and toggling twice gives back the original state |
| Cells.Cell.constructor | minesweeper.js:24-27 | a new cell is Closed and holds no bomb |
| Cells.Cell.OpenOrDoOtherIfBomb | minesweeper.js:100-107 | only a hidden cell changes: to the given state (Defused or Detonated) if it holds a bomb, to Opened otherwise; the bomb flag is untouched; the result is true exactly when the state changed |
| Cells.Cell.OpenOrDetonate | minesweeper.js:51-53 | the same transition with Detonated as the bomb's state |
| Cells.Cell.OpenOrDefuse | minesweeper.js:60-62 | the same transition with Defused as the bomb's state |
| Cells.Cell.ToggleBombMark | minesweeper.js:70-84 | Closed and MarkedAsBomb swap, every other state stays; the bomb flag is untouched; the result is true exactly when the state changed |
| Cells.Cell.Reset | minesweeper.js:91-98 | afterwards the cell is Closed with no bomb; the result is true exactly when it was not Closed before |
| Field.AdjacentIsSymmetric | minesweeper.js:292-307 | q is a neighbour of p exactly when p is a neighbour of q |
| Field.AdjacentCells | minesweeper.js:292-307 | the neighbours in the order the double loop visits them, row by row and column by column within the clipped 3 by 3 block, skipping the cell itself; the order is strictly increasing |
| Field.AdjacentCellsSpec | minesweeper.js:292-307 | the neighbourhood the loops visit contains exactly the in-field cells at distance at most 1 in each coordinate other than the cell itself, and has at most 8 entries |
| Field.AdjacentCellsDistinct | minesweeper.js:297-305 | no neighbour is visited twice, because the visiting order is strictly increasing row by row |
| Field.CountInSpec | minesweeper.js:385-390 | the count over a visiting order is at most its length, and 0 exactly when none of the visited positions is a bomb |
| Field.CountInIsCardinality | minesweeper.js:385-390 | counting the bombs along a visiting order without repeats gives the size of the set of bombs visited |
| Field.AdjacentBombsSpec | minesweeper.js:380-393 | the adjacent-bomb count is between 0 and 8, and 0 exactly when no neighbour is a bomb |
| Field.AdjacentBombsIsCardinality | minesweeper.js:380-393 | the adjacent-bomb count equals the number of bomb positions neighbouring the cell |
| Field.PlacementKeepsWellPlaced | minesweeper.js:199-230 | adding a bomb that passes the placement test to well-placed bombs leaves every bomb with a neighbour without a bomb |
| Field.SingleCellFieldRejectsEveryBomb | minesweeper.js:203-207 | on a 1 by 1 field the cell has no neighbours, so "all neighbours are bombs" holds and every draw is rejected |
| Field.SingleCellFieldHasNoBombs | minesweeper.js:239-252 | on a 1 by 1 field no well-placed set of bombs is non-empty |
| Field.PlacementExtend | minesweeper.js:194-233 | a draw made while the loop runs keeps the run well formed; it adds a bomb when the placement test admits it and uses up one failure otherwise |
| Field.PlacementSpec | minesweeper.js:194-234 | draws on the field only place well-placed bombs, never more than bombNumber, and never raise the failure budget above N * N |
| Field.PlacementCountsDraws | minesweeper.js:192-234 | while the loop runs, each draw adds a bomb or uses up a failure, so the number of draws is the bombs placed plus the failures used |
| Field.PlacementRunSpec | minesweeper.js:192-236 | a whole run ends with exactly bombNumber bombs (none when it is negative) or with no failure left, places well-placed bombs, and draws at most bombNumber + N * N times |
| Field.FirstDrawIsAdmitted | minesweeper.js:199-230 | on a field of at least 2 by 2 the first draw places a bomb when one is wanted |
| Field.SingleCellPlacementIsEmpty | minesweeper.js:203-207 | on a 1 by 1 field every run of the loop places no bomb |
| Field.NeighbouringBombsAreAdmissible | minesweeper.js:199-226 | the test admits a bomb next to an existing bomb (on a 3 by 3 field), so bombs may be neighbours |
| Field.ZeroPathPrepend | minesweeper.js:269-273 | a zero-count cell can start a cascade path to any path from one of its neighbours |
| Field.CascadeStart | minesweeper.js:256-269 | the region opened first is the cell itself; it reaches that cell, and when it has adjacent bombs, the cascade is that cell alone |
| Field.CascadeStep | minesweeper.js:270-272 | one recursive opening of a neighbour of a zero-count cell keeps every opened cell reachable and every zero-count opened cell's neighbours uncovered |
| Field.CascadeStepReaches | minesweeper.js:270-272 | whatever the recursive call opened is reachable from the zero-count cell through the neighbour |
| Field.ReachesWiden | minesweeper.js:270-272 | reachability holds in a larger region |
| Field.ReachesPrepend | minesweeper.js:270-272 | reachability from a neighbour extends to a zero-count cell next to it |
| Field.ZeroPathEndsIn | minesweeper.js:269-273 | a path through zero-count cells that starts in a completed cascade stays in it |
| Field.CascadeWithin | minesweeper.js:254-278 | a cascade from a cell is contained in any other cascade from that cell out of the same hidden cells |
| Field.CascadeIsUnique | minesweeper.js:254-278 | opening a cell has a single possible outcome: two cascades from the same cell out of the same hidden cells leave the same cells hidden |
| Field.CascadeFinish | minesweeper.js:268-274 | once every neighbour of the zero-count cell is uncovered, the opened region is a full cascade from it |
| Game.AdvancesIsAnOrder | minesweeper.js:357-369 | the phase order is reflexive, transitive and antisymmetric, and Win and Loss are final |
| Game.Minesweeper.constructor | minesweeper.js:115-124 | a fieldSize by fieldSize field of distinct cells (the set `cells` is exactly the field's cells), the bomb number kept, the game Initiated |
| Game.Minesweeper.SetGameState | minesweeper.js:357-360 | the phase becomes the given state |
| Game.Minesweeper.AllAdjacentCellsAreBombs | minesweeper.js:239-252 | the result is true exactly when every neighbour holds a bomb, so also when there is no neighbour |
| Game.Minesweeper.NumberAdjacentBombs | minesweeper.js:380-393 | the result is the number of bombs among the neighbours and at most 8 |
| Game.Minesweeper.GetCellData | minesweeper.js:374-378 | the cell's state, with a bomb count present exactly when the cell is Opened; that count is the adjacent-bomb count, at most 8 |
| Game.Minesweeper.StartGame | minesweeper.js:159-161 | the game is Ready with every cell Closed; the bombs are those of a whole run of the placement loop over the positions drawn: well placed, at most bombNumber of them, and fewer only when the failure budget ran out |
| Game.Minesweeper.ResetGameField | minesweeper.js:166-237 | every cell Closed, the bombs those of a whole run of the placement loop over the positions drawn (at most bombNumber, fewer only when the failure budget ran out, at most bombNumber + N * N draws), the game Ready |
| Game.Minesweeper.ResetCells | minesweeper.js:168-180 | every cell Closed and without a bomb |
| Game.Minesweeper.PlaceBombs | minesweeper.js:183-234 | the positions drawn are a whole run of the loop and the bombs on the field are `Placement` over them; the cells stay Closed, and there are exactly bombNumber bombs unless the failure budget is spent |
| Game.Minesweeper.TryPutBomb | minesweeper.js:196-233 | a bomb is put at the drawn position exactly when the placement test admits it; no cell state changes and the bombs stay well placed |
| Game.Minesweeper.SetBomb | minesweeper.js:228-229 | the drawn cell's bomb flag is set or cleared; no state and no other cell changes |
| Game.Minesweeper.BombCanBePutHere | minesweeper.js:199-226 | the result is the placement test on the current bombs, and the trial bomb is gone afterwards |
| Game.Minesweeper.SomeAdjacentBombIsSurrounded | minesweeper.js:212-221 | the result is true exactly when some neighbour holds a bomb whose neighbours are all bombs |
| Game.Minesweeper.StartGameIfNeeded | minesweeper.js:362-369 | a Ready game becomes Running, other phases stay; the result is whether the game is Running |
| Game.Minesweeper.UncoverEveryCell | minesweeper.js:333-352 | the uncover-all loops of the win (lines 333-339, with Defused) and of the loss (lines 347-352, with Detonated): every cell is uncovered, with the given state for hidden bombs; no bomb moves |
| Game.Minesweeper.SetLoss | minesweeper.js:345-355 | every hidden cell is uncovered and every hidden bomb Detonated; the game is Loss |
| Game.Minesweeper.IsWon | minesweeper.js:318-330 | the result is true exactly when no cell is Closed and every MarkedAsBomb cell holds a bomb |
| Game.Minesweeper.SetWinIfNeeded | minesweeper.js:313-343 | a Running game that meets the win condition becomes Win with every hidden bomb Defused; otherwise nothing changes |
| Game.Minesweeper.OpenAt | minesweeper.js:254-278 | opening an uncovered cell changes nothing; opening a hidden bomb is a Loss with every bomb Detonated; opening a hidden safe cell opens exactly a cascade from it: every opened cell is reachable through zero-count cells, and every zero-count opened cell has no hidden neighbour |
| Game.Minesweeper.SpreadFrom | minesweeper.js:266-275 | after a safe cell is opened, what gets opened is a cascade from that cell |
| Game.Minesweeper.OpenAdjacentCells | minesweeper.js:269-274 | opening every neighbour of a zero-count cell leaves none of them hidden and gives a cascade from the cell |
| Game.Minesweeper.OpenNeighbour | minesweeper.js:271-272 | one recursive opening keeps the opened region reachable, uncovers that neighbour and keeps the neighbours visited before it uncovered |
| Game.Minesweeper.OpenCell | minesweeper.js:131-138 | outside Ready and Running nothing changes. Otherwise a hidden bomb loses. A hidden safe cell is Opened and the game is Running or Win. If Running, the cells opened are exactly a cascade from it and no other cell changes. If Win, the cascade from it is the one that leaves only the rightly marked bombs hidden, which is exactly when the win check fires (by Field.CascadeIsUnique the two outcomes cannot both fit). An uncovered cell changes nothing. The phase only moves forward |
| Game.Minesweeper.OpenAndCheckWin | minesweeper.js:136-137 | in a running game: a hidden bomb loses with every bomb Detonated. A hidden safe cell is Opened. If the game still runs, the cells opened are exactly a cascade from it. If it is won, the cascade leaves exactly the rightly marked bombs hidden. An uncovered cell changes nothing and the game runs on |
| Game.Minesweeper.ToggleCellBombMark | minesweeper.js:145-157 | outside Ready and Running nothing changes. Otherwise the game is won exactly when the field with the mark toggled meets the win condition; then every hidden bomb is Defused. Otherwise only the toggled cell changes |
| Game.SingleCellGame | minesweeper.js:131-138 | on a 1 by 1 field, whatever the bomb number, no bomb is placed and opening the only cell wins |

## Left out

- The change notifications `onCellStateChanged` and `onGameStateChanged` (minesweeper.js:395-403) are external observers and are not modelled. The `changed` results of the cell methods that drive them are modelled.
- `Math.random` (minesweeper.js:196-197) is a nondeterministic choice of an in-field position. Every property holds whichever positions are drawn; the positions drawn are a ghost result of the placement methods.
- Out-of-range coordinates make the source fail. An out-of-range x reads a cell of an undefined row (`this._gameField[x][y]`, minesweeper.js:136 and :150). An out-of-range y gives an undefined cell. The failure comes after `_startGameIfNeeded()` (minesweeper.js:133 and :147), so a Ready game has already moved to Running when the source fails. The model requires in-field coordinates instead.
- The source creates its cells in the first `startGame`. The model's constructor allocates closed cells without bombs, which a first reset leaves unchanged.
- `Object.defineProperty` accessors and the `_position` object are plain fields. The position is a ghost field that only serves to tell the cells apart.
- `_forEachCell` and `_forEachAdjacentCell` take callbacks with early exit. The model writes each use as a loop over the field or over `AdjacentCells`, with `break` or `return` where a callback stops the walk.
- fieldSize is a natural number. In the source it must be a whole number of at least 0, or `new Array(this._fieldSize)` (minesweeper.js:119 and :122) throws. bombNumber is an integer in the model. The source accepts any JavaScript number for it, since it is only compared in `numberPutBombs < this._bombNumber`. A fractional bombNumber such as 2.5 makes the loop `numberPutBombs < this._bombNumber` place 3 bombs, which the model does not cover. The budget test relies on numeric truthiness, which the model writes as a comparison with 0.
- Game.Minesweeper.OpenAt: requires a Running game. Every caller in the source calls `_openCell` only while the game is Running.
- Game.Minesweeper.OpenCell: requires `Consistent()` and `Settled()`. These invariants hold from construction on and every public operation keeps them.
- Game.Minesweeper.ToggleCellBombMark: requires `Consistent()` and `Settled()`, for the same reason as OpenCell.
- "No two bombs are adjacent" is not a property of this code (see Field.NeighbouringBombsAreAdmissible), so it is not stated. The property proved instead is that every bomb has a neighbour without a bomb.
