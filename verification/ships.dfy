/** Ship variants, the board size and the fleet placed by every game. */
module Ships {

  /** The value of an empty cell (`null` in a ship grid) or of an occupied one. */
  datatype Option<T> = None | Some(value: T)

  /** The five ship variants. */
  datatype ShipType = AircraftCarrier | Battleship | Submarine | Destroyer | PatrolBoat

  /** Side length of the square ship grid. */
  const GridSize: int := 10

  /** The ships of one game, in the order in which they are placed. */
  const Fleet: seq<ShipType> := [AircraftCarrier, Battleship, Submarine, Destroyer, PatrolBoat]

  /**
   * A table of ship lengths, one per variant. The lengths belong to ShipType,
   * which this model does not fix: any table whose lengths all lie in
   * 1..GridSize is admitted.
   */
  ghost predicate ValidSizes(size: ShipType -> int) {
    forall s: ShipType :: 1 <= size(s) <= GridSize
  }

  /** The position of a variant in the fleet: every variant is placed, and exactly once. */
  function FleetIndex(s: ShipType): (i: int)
    ensures 0 <= i < |Fleet| && Fleet[i] == s
    ensures forall j :: 0 <= j < |Fleet| && Fleet[j] == s ==> j == i
  {
    match s
    case AircraftCarrier => 0
    case Battleship => 1
    case Submarine => 2
    case Destroyer => 3
    case PatrolBoat => 4
  }

  /** No variant occurs twice in the fleet. */
  lemma {:induction false} FleetDistinct()
    ensures forall i, j :: 0 <= i < j < |Fleet| ==> Fleet[i] != Fleet[j]
  {
    forall i, j | 0 <= i < j < |Fleet| ensures Fleet[i] != Fleet[j] {
      assert FleetIndex(Fleet[i]) == i;
    }
  }
}
