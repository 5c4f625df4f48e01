# Battleship ship placement, modelled in Dafny

This project models the ship-placement engine of the Battleship game model
(`BattleshipModel`). The engine owns a 10 x 10 ship grid, indexed by row Y
and then column X, in which each cell is empty (`null` in Java, `None`
here) or holds the ship variant lying on it. Starting a game clears the
grid and then places the five ships one at a time, in the fixed order
aircraft carrier, battleship, submarine, destroyer, patrol boat. For each
ship, random candidates (start X, start Y, horizontal or vertical) are
drawn until `canPlaceShip` accepts one. A candidate is accepted when its
run fits in the grid and none of its cells is occupied. `placeShip` then
writes the ship into the run. `getShipGrid` hands out a copy of the grid.

The project has four modules:

- `Ships` (`ships.dfy`) holds the five ship variants, the grid size, the
  fleet in placing order, and the admissible length tables.
- `Board` (`board.dfy`) treats the grid as a value. It defines a
  placement (ship, start, direction), the run of cells it covers, when a
  run fits and is free (`Accepts`), and the grid after a ship is written
  (`Place`). Lemmas describe what writing a ship changes.
- `Layouts` (`layout.dfy`) covers whole games as values:
  - `Layout` is the grid produced by a sequence of placements.
  - `Legal` holds when every placement was accepted on the grid left by
    the ones before it.
  - `Deal` is the greedy retry loop, as a function of the candidates
    drawn.
  - Lemmas show that a legal placement of the whole fleet gives each ship
    exactly its length in cells, on one straight in-bounds run, that no
    two ships share a cell, and that the grid keeps at least one empty cell.
- `Battleship` (`battleship_model.dfy`) is the class `BattleshipModel`:
  - The grid is an `array2` that the methods update in place, like the
    Java source.
  - A ghost field `Cells` holds the grid's value, and `Valid()` ties the
    two together cell by cell.
  - Each method is proved against the value functions above.
  - The inner retry loop of `startGame` (one ship, candidates tried until
    one is accepted) is its own method, `PlaceFirstFit`, which `StartGame`
    calls once per ship.

Randomness becomes a parameter. `StartGame` receives the candidates that
`nextInt`, `nextInt` and `nextBoolean` would have produced, as a sequence
of `Draw`s with both coordinates in 0..9. Java keeps drawing until every
ship is placed. The model stops when the sequence runs out and then reports
`done == false`; the grid holds the ships placed so far.

Ship lengths belong to `ShipType`, which is not part of this model.
Conventional tables disagree: 5,4,3,2,2 in one and 5,4,3,3,2 in another.
The code reads each length from `ShipType.getSize()`, so the model does not
fix a table. The constructor takes a length table `size`, and every proof
holds for any table whose lengths all lie in 1..10.

## Model

| member | source | states |
|---|---|---|
| Ships.FleetIndex | src/battleship/BattleshipModel.java:31 | every ship variant occurs in the fleet that `startGame` places, and at exactly one position |
| Ships.FleetDistinct | src/battleship/BattleshipModel.java:31 | no ship variant is placed twice in one game |
| Board.Empty | src/battleship/BattleshipModel.java:54-60 | the cleared grid is 10 x 10 with every cell empty |
| Board.RunCellsAreRun | src/battleship/BattleshipModel.java:93-99 | the cells `placeShip` writes are (y, x+i) when horizontal or (y+i, x) when vertical, for 0 <= i < length, and no others |
| Board.RunCellsSize | src/battleship/BattleshipModel.java:93-99 | a run of length n consists of n distinct cells |
| Board.InBoundsRunInGrid | src/battleship/BattleshipModel.java:71-80 | a run whose start lies in the grid and whose end passes the `GRID_SIZE` check never leaves the grid |
| Board.RunFreeCells | src/battleship/BattleshipModel.java:70-83 | a run that `canPlaceShip` accepts consists of in-grid cells that are all empty |
| Board.PlaceKeepsOccupied | src/battleship/BattleshipModel.java:42-43 | writing a ship on an accepted run leaves every occupied cell as it was, so no ship is overwritten |
| Board.PlaceChangesExactlyRun | src/battleship/BattleshipModel.java:92-100 | writing a ship on an accepted run changes exactly the cells of the run (as a set, of size equal to the length), each to that ship |
| Layouts.DealStep | src/battleship/BattleshipModel.java:37-46 | an unfolding step of `Deal` at position k: one round of the retry loop, in which the candidate is either taken by the waiting ship (when accepted) or dropped |
| Layouts.DealSkip | src/battleship/BattleshipModel.java:37-46 | rejected candidates are dropped without any effect on the outcome |
| Layouts.DealTake | src/battleship/BattleshipModel.java:37-46 | the first accepted candidate is the one the waiting ship takes, and the grid becomes the old grid with that run written |
| Layouts.LegalExtend | src/battleship/BattleshipModel.java:42-43 | an unfolding step of `Legal`: placing a ship only after `canPlaceShip` accepted it keeps the game's placements legal |
| Layouts.LegalPrefix | src/battleship/BattleshipModel.java:34-47 | every earlier stage of a legal game is legal |
| Layouts.LegalAt | src/battleship/BattleshipModel.java:34-47 | each placement of a legal game was accepted on the grid of the placements before it |
| Layouts.LayoutKeepsRuns | src/battleship/BattleshipModel.java:34-47 | after legal placements every ship still holds every cell of its run, all inside the grid |
| Layouts.LayoutOwners | src/battleship/BattleshipModel.java:34-47 | every occupied cell lies in the run of a placement of the ship found there |
| Layouts.LegalRunsDisjoint | src/battleship/BattleshipModel.java:34-47 | the runs of two different ships of a legal game share no cell |
| Layouts.ShipCells | src/battleship/BattleshipModel.java:34-47 | with pairwise different ships, the cells holding a ship are exactly its run, so it fills exactly its length in cells |
| Layouts.CompletedFleet | src/test/BattleshipModelTest.java:43-67 | a legal placement of the whole fleet gives every ship variant exactly `getSize()` cells, as one straight, in-bounds run, and no two runs overlap |
| Layouts.DealLegal | src/battleship/BattleshipModel.java:34-47 | the retry loop only ever appends placements that were accepted on the grid at that moment |
| Layouts.DealExtends | src/battleship/BattleshipModel.java:34-47 | the retry loop keeps the placements already made, adds at most one placement per waiting ship, and places the ships in fleet order |
| Layouts.DealtFleet | src/battleship/BattleshipModel.java:27-49 | the placements of a game are legal and at most five; once all five ships are placed, the grid holds the whole fleet |
| Layouts.OccupiedAndEmptyExist | src/test/BattleshipModelTest.java:105-131 | once the whole fleet is placed, the grid has an occupied cell and an empty cell, so the searches at lines 105-112 and 124-131 of the test always find one |
| Battleship.BattleshipModel.constructor | src/battleship/BattleshipModel.java:22-24 | a new model has a fresh 10 x 10 grid with every cell empty |
| Battleship.BattleshipModel.ClearGrid | src/battleship/BattleshipModel.java:54-60 | after clearing, every cell of the grid is empty |
| Battleship.BattleshipModel.CanPlaceShip | src/battleship/BattleshipModel.java:70-83 | the answer is true exactly when the run fits in the grid and all of its cells are empty |
| Battleship.BattleshipModel.PlaceShip | src/battleship/BattleshipModel.java:92-100 | the new grid is the old one with the run of the ship written, and nothing else changed |
| Battleship.BattleshipModel.PlaceFirstFit | src/battleship/BattleshipModel.java:37-46 | the candidates are tried in order: all skipped ones are rejected, the one taken is accepted and written; when none is accepted, the grid is unchanged |
| Battleship.BattleshipModel.StartGame | src/battleship/BattleshipModel.java:27-49 | the grid afterwards is the grid of the placements the greedy retry process makes from the candidates; when all five ships are placed, each variant fills exactly its length in cells on one straight, in-bounds run in fleet order |
| Battleship.BattleshipModel.GetShipGrid | src/battleship/BattleshipModel.java:133-142 | the result is a fresh 10 x 10 array equal to the ship grid cell by cell, so writing to it cannot change the model |

## Left out

- `main` (src/battleship/BattleshipModel.java:144-160) only prints the grid to the console.
- `makeGuess`, `isGameOver`, `areAllShipsSunk`, `getGuessCount`, `getMaxGuesses` and `getCellGrid` (src/battleship/BattleshipModel.java:102-130) are stubs that return constants. No guess or game-over behaviour exists in this file to model.
- `java.util.Random` is not part of this model. Its draws are a parameter of `StartGame`.
- StartGame: with finitely many candidates it can stop before the fleet is placed and then returns `done == false`. Java keeps drawing forever. Whether the loop terminates (with probability 1) is not modelled.
- `ShipType`, `IBattleshipModel` and `CellState` are not part of this model. Ship lengths are a constructor parameter, each in 1..10.
- The Java grid is an array of row arrays that could in principle alias each other. The model uses one two-dimensional array.
- CanPlaceShip: requires the start cell to lie in the grid. `startGame` guarantees this through `nextInt(GRID_SIZE)`. Other starts are not modelled. In Java, an out-of-grid start that fails the bound check (startX + length > 10 when horizontal, startY + length > 10 when vertical) returns false before any cell is read. One that passes it (a negative coordinate, or the other coordinate at 10 or more) throws `ArrayIndexOutOfBoundsException`.
- PlaceShip: requires the run to fit in the grid. Its only caller writes a run only after `canPlaceShip` accepted it. For other runs Java would throw `ArrayIndexOutOfBoundsException` part-way through, and that partial write is not modelled.
- StartGame: the accepted placements are returned as a ghost out-parameter. Java does not record them; they exist to state the result.
