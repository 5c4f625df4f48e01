/**
 * The ship-placement engine of the Battleship game model: a 10 x 10 ship
 * grid that is updated in place by clearing it, checking a candidate run,
 * writing a ship's run, and placing the whole fleet from random candidates.
 */
module Battleship {
  import opened Ships
  import opened Board
  import opened Layouts

  class BattleshipModel {
    /** Length of each ship variant, as the ship types report it. */
    const size: ShipType -> int
    /** Where the ships are, indexed [row Y, column X]; `None` is an empty cell. */
    const grid: array2<Option<ShipType>>

    /** The ship grid as a value, row by row. */
    ghost var Cells: Grid

    /** The array has 10 x 10 cells and `Cells` shows what each of them holds. */
    ghost predicate Valid()
      reads this, grid
    {
      grid.Length0 == GridSize && grid.Length1 == GridSize && ValidSizes(size) &&
      WellFormed(Cells) &&
      forall r, c :: InGrid(r, c) ==> Cells[r][c] == grid[r, c]
    }

    /** A model with an empty 10 x 10 ship grid. */
    constructor (size: ShipType -> int)
      requires ValidSizes(size)
      ensures Valid() && fresh(grid) && this.size == size
      ensures Cells == Empty()
    {
      this.size := size;
      grid := new Option<ShipType>[GridSize, GridSize]((r, c) => None);
      Cells := Empty();
    }

    /** Empties every cell of the ship grid. */
    method ClearGrid()
      requires Valid()
      modifies this, grid
      ensures Valid() && Cells == Empty()
    {
      for i := 0 to GridSize
        invariant forall r, c :: 0 <= r < i && 0 <= c < GridSize ==> grid[r, c] == None
      {
        for j := 0 to GridSize
          invariant forall r, c :: 0 <= r < i && 0 <= c < GridSize ==> grid[r, c] == None
          invariant forall c :: 0 <= c < j ==> grid[i, c] == None
        {
          grid[i, j] := None;
        }
      }
      Cells := Empty();
    }

    /**
     * Whether `ship` can start at (startX, startY) in the given direction: the
     * run must not leave the grid, which is checked before any cell is read,
     * and every cell of it must be empty.
     */
    method CanPlaceShip(startX: int, startY: int, horizontal: bool, ship: ShipType) returns (ok: bool)
      requires Valid()
      requires InGrid(startY, startX)
      ensures ok == Accepts(Cells, Placement(ship, startX, startY, horizontal), size(ship))
    {
      var n := size(ship);
      ghost var p := Placement(ship, startX, startY, horizontal);
      if horizontal {
        if startX + n > GridSize {
          return false;
        }
        for i := 0 to n
          invariant RunFree(Cells, p, i)
        {
          if grid[startY, startX + i] != None {
            assert RunCell(p, i) == (startY, startX + i);
            return false;
          }
        }
      } else {
        if startY + n > GridSize {
          return false;
        }
        for i := 0 to n
          invariant RunFree(Cells, p, i)
        {
          if grid[startY + i, startX] != None {
            assert RunCell(p, i) == (startY + i, startX);
            return false;
          }
        }
      }
      return true;
    }

    /** Writes `ship` into every cell of its run; no other cell changes. */
    method PlaceShip(startX: int, startY: int, horizontal: bool, ship: ShipType)
      requires Valid()
      requires InBounds(Placement(ship, startX, startY, horizontal), size(ship))
      modifies this, grid
      ensures Valid() && Cells == Place(old(Cells), Placement(ship, startX, startY, horizontal), size(ship))
    {
      ghost var p := Placement(ship, startX, startY, horizontal);
      ghost var before := Cells;
      for i := 0 to size(ship)
        invariant forall r, c :: InGrid(r, c) ==>
          grid[r, c] == if InRun(p, i, r, c) then Some(ship) else before[r][c]
      {
        if horizontal {
          grid[startY, startX + i] := Some(ship);
        } else {
          grid[startY + i, startX] := Some(ship);
        }
      }
      Cells := Place(before, p, size(ship));
    }

    /**
     * The retry loop for one ship: candidates from `draws[from..]` are tried
     * in order until CanPlaceShip accepts one, which PlaceShip then writes.
     * `next` is the position after the last candidate tried. When every
     * candidate is rejected, `placed` is false and the grid is unchanged.
     */
    method PlaceFirstFit(ship: ShipType, draws: seq<Draw>, from: int) returns (placed: bool, next: int)
      requires Valid() && 0 <= from <= |draws|
      requires forall k :: 0 <= k < |draws| ==> InGrid(draws[k].y, draws[k].x)
      modifies this, grid
      ensures Valid() && from <= next <= |draws|
      ensures placed ==>
        from < next &&
        (forall k :: from <= k < next - 1 ==> !Accepts(old(Cells), Candidate(ship, draws[k]), size(ship))) &&
        Accepts(old(Cells), Candidate(ship, draws[next - 1]), size(ship)) &&
        Cells == Place(old(Cells), Candidate(ship, draws[next - 1]), size(ship))
      ensures !placed ==>
        next == |draws| && Cells == old(Cells) &&
        forall k :: from <= k < next ==> !Accepts(old(Cells), Candidate(ship, draws[k]), size(ship))
    {
      placed := false;
      next := from;
      while !placed
        invariant Valid() && from <= next <= |draws|
        invariant !placed ==> Cells == old(Cells)
        invariant forall k :: from <= k < (if placed then next - 1 else next) ==>
          !Accepts(old(Cells), Candidate(ship, draws[k]), size(ship))
        invariant placed ==>
          from < next &&
          Accepts(old(Cells), Candidate(ship, draws[next - 1]), size(ship)) &&
          Cells == Place(old(Cells), Candidate(ship, draws[next - 1]), size(ship))
        decreases |draws| - next
      {
        if next == |draws| {
          return;
        }
        var d := draws[next];
        next := next + 1;
        var canPlace := CanPlaceShip(d.x, d.y, d.horizontal, ship);
        if canPlace {
          PlaceShip(d.x, d.y, d.horizontal, ship);
          placed := true;
        }
      }
    }

    /**
     * Starts a game: clears the grid, then places the fleet ship by ship,
     * each ship taking the first candidate of `draws` (after those already
     * used) that CanPlaceShip accepts. `done` is false when the candidates run
     * out first; the grid then holds the ships placed so far.
     */
    method StartGame(draws: seq<Draw>) returns (done: bool, ghost placements: seq<Placement>)
      requires Valid()
      requires forall k :: 0 <= k < |draws| ==> InGrid(draws[k].y, draws[k].x)
      modifies this, grid
      ensures Valid()
      ensures placements == Deal([], Fleet, draws, size)
      ensures Cells == Layout(placements, size)
      ensures done <==> |placements| == |Fleet|
      ensures done ==> FleetPlaced(Cells, placements, size)
    {
      ghost var outcome := Deal([], Fleet, draws, size);
      ClearGrid();
      placements := [];
      var used := 0;
      for s := 0 to |Fleet|
        invariant used <= |draws| && |placements| == s
        invariant Deal(placements, Fleet[s..], draws[used..], size) == outcome
        invariant Valid() && Cells == Layout(placements, size)
      {
        ghost var before := Cells;
        ghost var rest := Fleet[s..];
        assert rest[0] == Fleet[s] && rest[1..] == Fleet[s + 1..];
        var shipPlaced, next := PlaceFirstFit(Fleet[s], draws, used);
        if !shipPlaced {
          DealSkip(placements, before, rest, draws, used, next, size);
          assert draws[next..] == [];
          done := false;
          return;
        }
        var p := Candidate(Fleet[s], draws[next - 1]);
        DealTake(placements, before, rest, draws, used, next, p, size);
        placements := placements + [p];
        used := next;
      }
      assert Fleet[|Fleet|..] == [];
      DealtFleet(draws, size);
      done := true;
    }

    /**
     * A fresh 10 x 10 copy of the ship grid, equal to it cell by cell; writing
     * to the copy cannot change the model.
     */
    method GetShipGrid() returns (copy: array2<Option<ShipType>>)
      requires Valid()
      ensures fresh(copy) && copy.Length0 == GridSize && copy.Length1 == GridSize
      ensures forall r, c :: InGrid(r, c) ==> copy[r, c] == grid[r, c] == Cells[r][c]
    {
      copy := new Option<ShipType>[GridSize, GridSize]((r, c) => None);
      for i := 0 to GridSize
        invariant forall r, c :: 0 <= r < i && 0 <= c < GridSize ==> copy[r, c] == grid[r, c]
      {
        for j := 0 to GridSize
          invariant forall r, c :: 0 <= r < i && 0 <= c < GridSize ==> copy[r, c] == grid[r, c]
          invariant forall c :: 0 <= c < j ==> copy[i, c] == grid[i, c]
        {
          copy[i, j] := grid[i, j];
        }
      }
    }
  }
}
