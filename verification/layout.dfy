/**
 * A whole game's placements: the grid they produce, when a sequence of
 * placements is legal (each one accepted against the ships before it), the
 * greedy retry that turns random draws into placements, and what a legal
 * placement of the full fleet guarantees about the grid.
 */
module Layouts {
  import opened Ships
  import opened Board

  /** The grid produced by placing `ps` one after another on an empty grid. */
  function Layout(ps: seq<Placement>, size: ShipType -> int): (g: Grid)
    ensures WellFormed(g)
    decreases |ps|
  {
    if ps == [] then Empty()
    else
      var p := ps[|ps| - 1];
      Place(Layout(ps[..|ps| - 1], size), p, size(p.ship))
  }

  /** Each placement fits in the grid and its run is free on the grid left by the ones before it. */
  predicate Legal(ps: seq<Placement>, size: ShipType -> int)
    decreases |ps|
  {
    ps == [] ||
    (Legal(ps[..|ps| - 1], size) &&
     Accepts(Layout(ps[..|ps| - 1], size), ps[|ps| - 1], size(ps[|ps| - 1].ship)))
  }

  /** Placement `i` of `ps` covers cell (r, c). */
  predicate Covers(ps: seq<Placement>, size: ShipType -> int, i: int, r: int, c: int)
    requires 0 <= i < |ps|
  {
    InRun(ps[i], size(ps[i].ship), r, c)
  }

  /** One candidate as the random source yields it: start X, start Y, horizontal or not. */
  datatype Draw = Draw(x: int, y: int, horizontal: bool)

  /** The placement of `ship` that draw `d` proposes. */
  function Candidate(ship: ShipType, d: Draw): Placement
  {
    Placement(ship, d.x, d.y, d.horizontal)
  }

  /**
   * The placements made by the retry loop: `placed` are already on the grid,
   * `ships` still wait, and `draws` are the candidates still to come. The
   * first ship waiting takes the first candidate whose run fits and is free;
   * a rejected candidate is dropped. When the candidates run out before the
   * ships do, the placements so far are the result.
   */
  function Deal(placed: seq<Placement>, ships: seq<ShipType>, draws: seq<Draw>, size: ShipType -> int): seq<Placement>
    decreases |draws|
  {
    if ships == [] || draws == [] then placed
    else
      var p := Candidate(ships[0], draws[0]);
      var n := size(ships[0]);
      if Accepts(Layout(placed, size), p, n) then
        Deal(placed + [p], ships[1..], draws[1..], size)
      else
        Deal(placed, ships, draws[1..], size)
  }

  /** One round of the retry loop: the candidate at position k is accepted or dropped. */
  lemma {:induction false} DealStep(placed: seq<Placement>, ships: seq<ShipType>, draws: seq<Draw>, k: int, size: ShipType -> int)
    requires ships != [] && 0 <= k < |draws|
    ensures var p := Candidate(ships[0], draws[k]);
      Deal(placed, ships, draws[k..], size) ==
        if Accepts(Layout(placed, size), p, size(ships[0])) then Deal(placed + [p], ships[1..], draws[k + 1..], size)
        else Deal(placed, ships, draws[k + 1..], size)
  {
    assert draws[k..][1..] == draws[k + 1..];
  }

  /**
   * Candidates that grid `g` (the grid of `placed`) rejects for the first
   * waiting ship are dropped without effect.
   */
  lemma {:induction false} DealSkip(placed: seq<Placement>, g: Grid, ships: seq<ShipType>, draws: seq<Draw>, from: int, until: int, size: ShipType -> int)
    requires g == Layout(placed, size)
    requires ships != [] && 0 <= from <= until <= |draws|
    requires forall k :: from <= k < until ==> !Accepts(g, Candidate(ships[0], draws[k]), size(ships[0]))
    ensures Deal(placed, ships, draws[from..], size) == Deal(placed, ships, draws[until..], size)
    decreases until - from
  {
    if from < until {
      DealStep(placed, ships, draws, from, size);
      DealSkip(placed, g, ships, draws, from + 1, until, size);
    }
  }

  /**
   * The first candidate that grid `g` (the grid of `placed`) accepts for the
   * first waiting ship is the one that ship takes: `p` is appended, the ship
   * leaves the queue, and so does every candidate before position `next`.
   */
  lemma {:induction false} DealTake(placed: seq<Placement>, g: Grid, ships: seq<ShipType>, draws: seq<Draw>, from: int, next: int, p: Placement, size: ShipType -> int)
    requires g == Layout(placed, size)
    requires ships != [] && 0 <= from < next <= |draws|
    requires forall k :: from <= k < next - 1 ==> !Accepts(g, Candidate(ships[0], draws[k]), size(ships[0]))
    requires p == Candidate(ships[0], draws[next - 1])
    requires Accepts(g, p, size(ships[0]))
    ensures Deal(placed, ships, draws[from..], size) == Deal(placed + [p], ships[1..], draws[next..], size)
    ensures Layout(placed + [p], size) == Place(g, p, size(ships[0]))
  {
    DealSkip(placed, g, ships, draws, from, next - 1, size);
    DealStep(placed, ships, draws, next - 1, size);
    assert draws[next - 1 + 1..] == draws[next..];
    LayoutAppend(placed, p, size);
  }

  /** Appending a placement that fits on a free run keeps a legal sequence legal. */
  lemma {:induction false} LegalExtend(ps: seq<Placement>, p: Placement, size: ShipType -> int)
    requires Legal(ps, size)
    requires Accepts(Layout(ps, size), p, size(p.ship))
    ensures Legal(ps + [p], size)
  {
    assert (ps + [p])[..|ps|] == ps;
  }

  /** Every prefix of a legal sequence is legal. */
  lemma {:induction false} LegalPrefix(ps: seq<Placement>, k: int, size: ShipType -> int)
    requires Legal(ps, size) && 0 <= k <= |ps|
    ensures Legal(ps[..k], size)
    decreases |ps|
  {
    if k < |ps| {
      var qs := ps[..|ps| - 1];
      LegalPrefix(qs, k, size);
      assert qs[..k] == ps[..k];
    } else {
      assert ps[..k] == ps;
    }
  }

  /** Placement `i` of a legal sequence was accepted on the grid of the placements before it. */
  lemma {:induction false} LegalAt(ps: seq<Placement>, i: int, size: ShipType -> int)
    requires Legal(ps, size) && 0 <= i < |ps|
    ensures Legal(ps[..i], size)
    ensures Accepts(Layout(ps[..i], size), ps[i], size(ps[i].ship))
  {
    LegalPrefix(ps, i + 1, size);
    var qs := ps[..i + 1];
    assert qs[..i] == ps[..i];
  }

  /** Appending a placement puts it on the grid of the placements before it. */
  lemma {:induction false} LayoutAppend(ps: seq<Placement>, p: Placement, size: ShipType -> int)
    ensures Layout(ps + [p], size) == Place(Layout(ps, size), p, size(p.ship))
  {
    assert (ps + [p])[..|ps|] == ps;
  }

  /** The grid of a non-empty sequence is its last placement put on the grid of the others. */
  lemma {:induction false} LayoutLast(ps: seq<Placement>, size: ShipType -> int)
    requires ps != []
    ensures Layout(ps, size) ==
      Place(Layout(ps[..|ps| - 1], size), ps[|ps| - 1], size(ps[|ps| - 1].ship))
  {
  }

  /**
   * In the grid of a legal sequence, every ship still holds every cell of its
   * run: no later ship overwrote it.
   */
  lemma {:induction false} LayoutKeepsRuns(ps: seq<Placement>, size: ShipType -> int)
    requires Legal(ps, size)
    ensures forall i, r, c :: 0 <= i < |ps| && Covers(ps, size, i, r, c) ==>
      InGrid(r, c) && Layout(ps, size)[r][c] == Some(ps[i].ship)
    decreases |ps|
  {
    if ps != [] {
      var k := |ps| - 1;
      var qs := ps[..k];
      var p := ps[k];
      var n := size(p.ship);
      var g := Layout(qs, size);
      var h := Place(g, p, n);
      LayoutKeepsRuns(qs, size);
      LayoutLast(ps, size);
      PlaceKeepsOccupied(g, p, n);
      InBoundsRunInGrid(p, n);
      forall i, r, c | 0 <= i < |ps| && Covers(ps, size, i, r, c)
        ensures InGrid(r, c) && h[r][c] == Some(ps[i].ship)
      {
        if i < k {
          assert qs[i] == ps[i];
          assert Covers(qs, size, i, r, c);
          assert g[r][c] == Some(ps[i].ship);
        }
      }
    }
  }

  /** In the grid of any sequence, an occupied cell lies in the run of a placement of the ship found there. */
  lemma {:induction false} LayoutOwners(ps: seq<Placement>, size: ShipType -> int)
    ensures forall r, c :: InGrid(r, c) && Layout(ps, size)[r][c] != None ==>
      exists i :: 0 <= i < |ps| && Covers(ps, size, i, r, c) && Layout(ps, size)[r][c] == Some(ps[i].ship)
    decreases |ps|
  {
    if ps != [] {
      var k := |ps| - 1;
      var qs := ps[..k];
      var p := ps[k];
      var n := size(p.ship);
      var g := Layout(qs, size);
      LayoutOwners(qs, size);
      LayoutLast(ps, size);
      forall r, c | InGrid(r, c) && Layout(ps, size)[r][c] != None
        ensures exists i :: 0 <= i < |ps| && Covers(ps, size, i, r, c) && Layout(ps, size)[r][c] == Some(ps[i].ship)
      {
        if InRun(p, n, r, c) {
          assert Covers(ps, size, k, r, c);
        } else {
          assert g[r][c] != None;
          var i :| 0 <= i < |qs| && Covers(qs, size, i, r, c) && g[r][c] == Some(qs[i].ship);
          assert Covers(ps, size, i, r, c);
        }
      }
    }
  }

  /** The runs of two different placements of a legal sequence share no cell. */
  lemma {:induction false} LegalRunsDisjoint(ps: seq<Placement>, size: ShipType -> int)
    requires Legal(ps, size)
    ensures forall i, j, r, c :: 0 <= i < j < |ps| && Covers(ps, size, i, r, c) ==> !Covers(ps, size, j, r, c)
  {
    forall i, j, r, c | 0 <= i < j < |ps| && Covers(ps, size, i, r, c)
      ensures !Covers(ps, size, j, r, c)
    {
      var qs := ps[..j];
      LegalAt(ps, j, size);
      LayoutKeepsRuns(qs, size);
      assert Covers(qs, size, i, r, c);
      var p := ps[j];
      RunFreeCells(Layout(qs, size), p, size(p.ship));
    }
  }

  /**
   * When the ships of a legal sequence are pairwise different, the cells
   * holding the ship of placement `i` are exactly the cells of its run, so
   * that ship fills exactly its length in cells.
   */
  lemma {:induction false} ShipCells(ps: seq<Placement>, size: ShipType -> int, i: int)
    requires Legal(ps, size) && 0 <= i < |ps|
    requires forall j, k :: 0 <= j < k < |ps| ==> ps[j].ship != ps[k].ship
    requires size(ps[i].ship) >= 0
    ensures CellsOf(Layout(ps, size), ps[i].ship) == RunCells(ps[i], size(ps[i].ship))
    ensures |CellsOf(Layout(ps, size), ps[i].ship)| == size(ps[i].ship)
  {
    var g := Layout(ps, size);
    var p := ps[i];
    var n: nat := size(p.ship);
    LayoutKeepsRuns(ps, size);
    LayoutOwners(ps, size);
    RunCellsAreRun(p, n);
    RunCellsSize(p, n);
    forall cell | cell in CellsOf(g, p.ship)
      ensures cell in RunCells(p, n)
    {
      var (r, c) := cell;
      assert InGrid(r, c) && g[r][c] == Some(p.ship);
      var j :| 0 <= j < |ps| && Covers(ps, size, j, r, c) && g[r][c] == Some(ps[j].ship);
      assert j == i;
    }
    forall cell | cell in RunCells(p, n)
      ensures cell in CellsOf(g, p.ship)
    {
      var (r, c) := cell;
      assert Covers(ps, size, i, r, c);
    }
  }

  /**
   * Grid `g` holds the whole fleet as placed by `ps`, one placement per ship
   * in fleet order: each placement's run fits in the grid, the cells holding
   * a ship are exactly the run of its placement, and every ship type fills
   * exactly its length in cells.
   */
  predicate FleetPlaced(g: Grid, ps: seq<Placement>, size: ShipType -> int)
    requires WellFormed(g)
  {
    |ps| == |Fleet| &&
    (forall s: ShipType :: |CellsOf(g, s)| == size(s)) &&
    forall i :: 0 <= i < |Fleet| ==>
      ps[i].ship == Fleet[i] &&
      InBounds(ps[i], size(Fleet[i])) &&
      CellsOf(g, Fleet[i]) == RunCells(ps[i], size(Fleet[i]))
  }

  /**
   * A legal placement of the whole fleet, one placement per ship in fleet
   * order, places the fleet (one straight, contiguous, in-bounds run per
   * ship, each filling exactly its length in cells), and no two runs share a
   * cell.
   */
  lemma {:induction false} CompletedFleet(ps: seq<Placement>, size: ShipType -> int)
    requires ValidSizes(size) && Legal(ps, size)
    requires |ps| == |Fleet| && forall i :: 0 <= i < |ps| ==> ps[i].ship == Fleet[i]
    ensures FleetPlaced(Layout(ps, size), ps, size)
    ensures forall i, j, r, c :: 0 <= i < j < |ps| && Covers(ps, size, i, r, c) ==> !Covers(ps, size, j, r, c)
  {
    var g := Layout(ps, size);
    FleetDistinct();
    LegalRunsDisjoint(ps, size);
    assert forall j, k :: 0 <= j < k < |ps| ==> ps[j].ship != ps[k].ship;
    forall i | 0 <= i < |ps|
      ensures InBounds(ps[i], size(Fleet[i]))
      ensures CellsOf(g, Fleet[i]) == RunCells(ps[i], size(Fleet[i]))
      ensures |CellsOf(g, Fleet[i])| == size(Fleet[i])
    {
      LegalAt(ps, i, size);
      ShipCells(ps, size, i);
    }
    forall s: ShipType
      ensures |CellsOf(g, s)| == size(s)
    {
      var i := FleetIndex(s);
      assert |CellsOf(g, Fleet[i])| == size(Fleet[i]);
    }
  }

  /** The retry loop only ever appends legal placements to a legal sequence. */
  lemma {:induction false} DealLegal(placed: seq<Placement>, ships: seq<ShipType>, draws: seq<Draw>, size: ShipType -> int)
    requires Legal(placed, size)
    ensures Legal(Deal(placed, ships, draws, size), size)
    decreases |draws|
  {
    if ships != [] && draws != [] {
      var p := Candidate(ships[0], draws[0]);
      if Accepts(Layout(placed, size), p, size(ships[0])) {
        LegalExtend(placed, p, size);
        DealLegal(placed + [p], ships[1..], draws[1..], size);
      } else {
        DealLegal(placed, ships, draws[1..], size);
      }
    }
  }

  /**
   * The retry loop only ever extends the placements it started with, by one
   * placement per waiting ship at most, and places the waiting ships in
   * their order.
   */
  lemma {:induction false} DealExtends(placed: seq<Placement>, ships: seq<ShipType>, draws: seq<Draw>, size: ShipType -> int)
    ensures |placed| <= |Deal(placed, ships, draws, size)| <= |placed| + |ships|
    ensures Deal(placed, ships, draws, size)[..|placed|] == placed
    ensures forall k :: |placed| <= k < |Deal(placed, ships, draws, size)| ==>
      Deal(placed, ships, draws, size)[k].ship == ships[k - |placed|]
    decreases |draws|
  {
    var d := Deal(placed, ships, draws, size);
    if ships != [] && draws != [] {
      var p := Candidate(ships[0], draws[0]);
      if Accepts(Layout(placed, size), p, size(ships[0])) {
        assert d == Deal(placed + [p], ships[1..], draws[1..], size);
        DealExtends(placed + [p], ships[1..], draws[1..], size);
        assert d[..|placed| + 1] == placed + [p];
        assert d[..|placed|] == d[..|placed| + 1][..|placed|];
        forall k | |placed| <= k < |d|
          ensures d[k].ship == ships[k - |placed|]
        {
          if k == |placed| {
            assert d[k] == d[..|placed| + 1][k];
          } else {
            assert d[k].ship == ships[1..][k - (|placed| + 1)];
          }
        }
      } else {
        assert d == Deal(placed, ships, draws[1..], size);
        DealExtends(placed, ships, draws[1..], size);
      }
    }
  }



  /**
   * A game set up from any candidates: the placements made are legal, and
   * when every ship of the fleet was placed the grid holds the whole fleet.
   */
  lemma {:induction false} DealtFleet(draws: seq<Draw>, size: ShipType -> int)
    requires ValidSizes(size)
    ensures Legal(Deal([], Fleet, draws, size), size)
    ensures |Deal([], Fleet, draws, size)| <= |Fleet|
    ensures |Deal([], Fleet, draws, size)| == |Fleet| ==>
      FleetPlaced(Layout(Deal([], Fleet, draws, size), size), Deal([], Fleet, draws, size), size)
  {
    var ps := Deal([], Fleet, draws, size);
    DealLegal([], Fleet, draws, size);
    DealExtends([], Fleet, draws, size);
    if |ps| == |Fleet| {
      CompletedFleet(ps, size);
    }
  }

  /** `xs` with every occurrence of `v` removed. */
  function Without(xs: seq<int>, v: int): (ys: seq<int>)
    ensures forall x :: x in xs && x != v ==> x in ys
    ensures v !in ys
    ensures |ys| <= |xs| && (v in xs ==> |ys| < |xs|)
  {
    if xs == [] then []
    else if xs[0] == v then Without(xs[1..], v)
    else [xs[0]] + Without(xs[1..], v)
  }

  /** Fewer than n values cannot cover all of 0..n-1. */
  lemma {:induction false} MissingValue(xs: seq<int>, n: nat)
    requires |xs| < n
    ensures exists v :: 0 <= v < n && v !in xs
    decreases n
  {
    if n - 1 in xs {
      var ys := Without(xs, n - 1);
      MissingValue(ys, n - 1);
      var v :| 0 <= v < n - 1 && v !in ys;
      assert v !in xs;
    }
  }

  /**
   * Once the whole fleet is placed, some cell holds a ship and some cell is
   * empty: five straight runs leave a row free of horizontal runs and a
   * column free of vertical runs, and the cell where they cross is empty.
   */
  lemma {:induction false} OccupiedAndEmptyExist(g: Grid, ps: seq<Placement>, size: ShipType -> int)
    requires ValidSizes(size) && WellFormed(g) && FleetPlaced(g, ps, size)
    ensures exists r, c :: InGrid(r, c) && g[r][c] != None
    ensures exists r, c :: InGrid(r, c) && g[r][c] == None
  {
    assert |CellsOf(g, AircraftCarrier)| == size(AircraftCarrier) >= 1;
    var cell :| cell in CellsOf(g, AircraftCarrier);
    assert InGrid(cell.0, cell.1) && g[cell.0][cell.1] != None;

    var rows := seq(|Fleet|, i requires 0 <= i < |Fleet| => if ps[i].horizontal then ps[i].y else -1);
    var cols := seq(|Fleet|, i requires 0 <= i < |Fleet| => if ps[i].horizontal then -1 else ps[i].x);
    MissingValue(rows, GridSize);
    MissingValue(cols, GridSize);
    var r :| 0 <= r < GridSize && r !in rows;
    var c :| 0 <= c < GridSize && c !in cols;
    forall s: ShipType
      ensures (r, c) !in CellsOf(g, s)
    {
      var i := FleetIndex(s);
      RunCellsAreRun(ps[i], size(Fleet[i]));
      if ps[i].horizontal {
        assert rows[i] != r;
      } else {
        assert cols[i] != c;
      }
    }
    assert g[r][c] != None ==> (r, c) in CellsOf(g, g[r][c].value);
  }
}
