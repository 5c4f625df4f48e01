/**
 * The ship grid as a value: which cells a straight run of a ship covers,
 * whether a run fits, and what placing a ship does to the grid.
 */
module Board {
  import opened Ships

  /** A cell as (row, column): the row is the Y coordinate, the column the X coordinate. */
  type Cell = (int, int)

  /** A ship grid, row by row; `None` is an empty cell. */
  type Grid = seq<seq<Option<ShipType>>>

  predicate InGrid(r: int, c: int) {
    0 <= r < GridSize && 0 <= c < GridSize
  }

  predicate WellFormed(g: Grid) {
    |g| == GridSize && forall r :: 0 <= r < GridSize ==> |g[r]| == GridSize
  }

  /** The grid with every cell empty. */
  function Empty(): (g: Grid)
    ensures WellFormed(g)
    ensures forall r, c :: InGrid(r, c) ==> g[r][c] == None
  {
    seq(GridSize, _ => seq(GridSize, _ => None))
  }

  /** A ship with the start cell (x, y) of its run and the run's direction. */
  datatype Placement = Placement(ship: ShipType, x: int, y: int, horizontal: bool)

  /** The i-th cell of the run of `p`: a horizontal run advances X, a vertical run advances Y. */
  function RunCell(p: Placement, i: int): Cell {
    if p.horizontal then (p.y, p.x + i) else (p.y + i, p.x)
  }

  /** Cell (r, c) is one of the first n cells of the run of `p`. */
  predicate InRun(p: Placement, n: int, r: int, c: int) {
    if p.horizontal then r == p.y && p.x <= c < p.x + n
    else c == p.x && p.y <= r < p.y + n
  }

  /** The start cell lies in the grid and a run of n cells does not leave it. */
  predicate InBounds(p: Placement, n: int) {
    InGrid(p.y, p.x) && if p.horizontal then p.x + n <= GridSize else p.y + n <= GridSize
  }

  /** Every cell of the run of n cells of `p` is empty in `g`. */
  predicate RunFree(g: Grid, p: Placement, n: int)
    requires WellFormed(g) && InBounds(p, n)
  {
    forall i :: 0 <= i < n ==> g[RunCell(p, i).0][RunCell(p, i).1] == None
  }

  /** The run of n cells of `p` fits in the grid and every cell of it is empty in `g`. */
  predicate Accepts(g: Grid, p: Placement, n: int)
    requires WellFormed(g)
  {
    InBounds(p, n) && RunFree(g, p, n)
  }

  /** The grid after the run of n cells of `p` is written with `p.ship`. */
  function Place(g: Grid, p: Placement, n: int): (g': Grid)
    requires WellFormed(g)
    ensures WellFormed(g')
  {
    seq(GridSize, r requires 0 <= r < GridSize =>
      seq(GridSize, c requires 0 <= c < GridSize =>
        if InRun(p, n, r, c) then Some(p.ship) else g[r][c]))
  }

  /** The cells of the run of n cells of `p`, as a set. */
  function RunCells(p: Placement, n: nat): set<Cell>
  {
    if n == 0 then {} else RunCells(p, n - 1) + {RunCell(p, n - 1)}
  }

  /** The cells of `g` that hold ship `s`. */
  function CellsOf(g: Grid, s: ShipType): set<Cell>
    requires WellFormed(g)
  {
    set r, c | 0 <= r < GridSize && 0 <= c < GridSize && g[r][c] == Some(s) :: (r, c)
  }

  /** The cells in which two grids differ. */
  function Changed(g: Grid, h: Grid): set<Cell>
    requires WellFormed(g) && WellFormed(h)
  {
    set r, c | 0 <= r < GridSize && 0 <= c < GridSize && g[r][c] != h[r][c] :: (r, c)
  }

  /** A cell lies in a run exactly when it is one of the run's indexed cells. */
  lemma {:induction false} InRunIsRunCell(p: Placement, n: int, r: int, c: int)
    ensures InRun(p, n, r, c) <==>
      exists i :: 0 <= i < n && RunCell(p, i) == (r, c)
  {
    if InRun(p, n, r, c) {
      var i := if p.horizontal then c - p.x else r - p.y;
      assert RunCell(p, i) == (r, c);
    }
  }

  /** The set of a run's cells holds exactly the cells InRun describes. */
  lemma {:induction false} RunCellsAreRun(p: Placement, n: nat)
    ensures forall r, c :: (r, c) in RunCells(p, n) <==> InRun(p, n, r, c)
  {
    if n > 0 {
      RunCellsAreRun(p, n - 1);
      forall r, c ensures (r, c) in RunCells(p, n) <==> InRun(p, n, r, c) {
        assert InRun(p, n, r, c) <==> InRun(p, n - 1, r, c) || RunCell(p, n - 1) == (r, c);
      }
    }
  }

  /** A run of n cells covers n distinct cells. */
  lemma {:induction false} RunCellsSize(p: Placement, n: nat)
    ensures |RunCells(p, n)| == n
  {
    if n > 0 {
      RunCellsSize(p, n - 1);
      RunCellsAreRun(p, n - 1);
      assert !InRun(p, n - 1, RunCell(p, n - 1).0, RunCell(p, n - 1).1);
    }
  }

  /** An in-bounds run lies entirely inside the grid. */
  lemma {:induction false} InBoundsRunInGrid(p: Placement, n: int)
    requires InBounds(p, n)
    ensures forall r, c :: InRun(p, n, r, c) ==> InGrid(r, c)
  {
  }

  /**
   * Placing a ship on a free run never overwrites an occupied cell: every
   * ship already on the grid keeps all of its cells.
   */
  lemma {:induction false} PlaceKeepsOccupied(g: Grid, p: Placement, n: int)
    requires WellFormed(g) && InBounds(p, n) && RunFree(g, p, n)
    ensures forall r, c :: InGrid(r, c) && g[r][c] != None ==> Place(g, p, n)[r][c] == g[r][c]
  {
    forall r, c | InGrid(r, c) && g[r][c] != None
      ensures Place(g, p, n)[r][c] == g[r][c]
    {
      InRunIsRunCell(p, n, r, c);
    }
  }

  /** Every cell of a free run is empty, whichever way the cell is named. */
  lemma {:induction false} RunFreeCells(g: Grid, p: Placement, n: int)
    requires WellFormed(g) && InBounds(p, n) && RunFree(g, p, n)
    ensures forall r, c :: InRun(p, n, r, c) ==> InGrid(r, c) && g[r][c] == None
  {
    forall r, c | InRun(p, n, r, c) ensures InGrid(r, c) && g[r][c] == None {
      InRunIsRunCell(p, n, r, c);
    }
  }

  /**
   * Placing a ship on a free run changes exactly the n cells of the run,
   * each to the ship, and no other cell.
   */
  lemma {:induction false} PlaceChangesExactlyRun(g: Grid, p: Placement, n: nat)
    requires WellFormed(g) && InBounds(p, n) && RunFree(g, p, n)
    ensures Changed(g, Place(g, p, n)) == RunCells(p, n)
    ensures |Changed(g, Place(g, p, n))| == n
    ensures forall r, c :: InRun(p, n, r, c) ==> Place(g, p, n)[r][c] == Some(p.ship)
  {
    var h := Place(g, p, n);
    RunCellsAreRun(p, n);
    RunCellsSize(p, n);
    RunFreeCells(g, p, n);
    assert forall r, c :: InGrid(r, c) ==> (g[r][c] != h[r][c] <==> InRun(p, n, r, c));
    forall cell | cell in Changed(g, h)
      ensures cell in RunCells(p, n)
    {
      var (r, c) := cell;
      assert InGrid(r, c) && g[r][c] != h[r][c];
    }
    forall cell | cell in RunCells(p, n)
      ensures cell in Changed(g, h)
    {
      var (r, c) := cell;
      assert InRun(p, n, r, c);
    }
  }
}
