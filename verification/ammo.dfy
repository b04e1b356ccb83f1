/** The constants of the firing-solution calculator and the three
    ammunition classes, each with its distance bracket, its range-table
    row origin and its muzzle velocity. */
module Ammo {

  // Distance brackets (metres), half-open: [Min, Max).
  const NearMin: real := 50.0
  const NearMax: real := 500.0
  const MediumMin: real := NearMax
  const MediumMax: real := 2000.0
  const FarMin: real := MediumMax
  const FarMax: real := 4050.0

  // Range-table grid: rows every 50 m of distance, columns every 5 m of
  // relative elevation over [-200, 200].
  const TableDistanceStep: real := 50.0
  const TableElevationStep: real := 5.0
  const TableElevationMin: real := -200.0
  const TableElevationMax: real := 200.0

  // Muzzle velocities (m/s).
  const NearMuzzleVelocity: real := 70.0
  const MediumMuzzleVelocity: real := 140.0
  const FarMuzzleVelocity: real := 200.0

  datatype AmmoClass = Near | Medium | Far {

    /** The label the calculator reports for this class: its entry in the
        label list, which never collides with a failure label. */
    function Label(): (s: string)
      ensures s == ["NEAR", "MEDIUM", "FAR"][Rank()]
      ensures s != "None" && s != "NONE"
    {
      match this
      case Near => "NEAR"
      case Medium => "MEDIUM"
      case Far => "FAR"
    }

    /** Lower bound of the class's distance bracket: the brackets are
        contiguous, each starting where the one before it ends. */
    function Min(): (m: real)
      ensures this == Near ==> m == NearMin
      ensures this == Medium ==> m == NearMax
      ensures this == Far ==> m == MediumMax
    {
      match this
      case Near => NearMin
      case Medium => MediumMin
      case Far => FarMin
    }

    /** Exclusive upper bound of the class's distance bracket. */
    function Max(): (m: real)
      ensures Min() < m
    {
      match this
      case Near => NearMax
      case Medium => MediumMax
      case Far => FarMax
    }

    /** Muzzle velocity: the class's entry in the velocity list. */
    function MuzzleVelocity(): (v: real)
      ensures v == [NearMuzzleVelocity, MediumMuzzleVelocity, FarMuzzleVelocity][Rank()]
      ensures 0.0 < v
    {
      match this
      case Near => NearMuzzleVelocity
      case Medium => MediumMuzzleVelocity
      case Far => FarMuzzleVelocity
    }

    predicate InBracket(distance: real) {
      Min() <= distance < Max()
    }

    /** Position of the class in the declared order `AmmoOrder`. */
    function Rank(): (n: nat)
      ensures n < |AmmoOrder| && AmmoOrder[n] == this
    {
      match this
      case Near => 0
      case Medium => 1
      case Far => 2
    }
  }

  /** The order in which the classes are declared and tried. */
  const AmmoOrder: seq<AmmoClass> := [Near, Medium, Far]
}
