/**
 * A satellite agent: an orbit together with an id and a coverage radius.
 * Stepping, position and the tile query are delegated to the orbit and to
 * the grid.
 */
module Satellite {
  import opened Geometry
  import opened OrbitSim
  import opened CoverageGrid

  class SatelliteAgent {
    const id: int
    const coverageRadius: real
    const orbit: OrbitSim.Satellite

    constructor (satId: int, altitudeKm: real, angularSpeedDeg: real, phaseDeg: real, coverageRadiusKm: real)
      ensures id == satId && coverageRadius == coverageRadiusKm
      ensures fresh(orbit) && orbit.Valid()
      ensures orbit.altitude == altitudeKm && orbit.speed == angularSpeedDeg && orbit.phase == phaseDeg
      ensures orbit.angle == ModDeg(phaseDeg) && orbit.steps == 0
    {
      id := satId;
      coverageRadius := coverageRadiusKm;
      orbit := new OrbitSim.Satellite(altitudeKm, angularSpeedDeg, phaseDeg);
    }

    /** Advance the orbit by exactly one step; id and coverage radius are constants. */
    method Step()
      requires orbit.Valid()
      modifies orbit
      ensures orbit.Valid()
      ensures orbit.angle == ModDeg(old(orbit.angle) + orbit.speed)
      ensures orbit.steps == old(orbit.steps) + 1
    {
      orbit.Step();
    }

    /** The current position: that of the orbit. */
    function Position(trig: Trig): (p: Point)
      reads orbit`angle
      ensures p == orbit.Position(trig)
      ensures Unit(trig) ==> Sq(p.x) + Sq(p.y) == Sq(orbit.altitude)
    {
      orbit.Position(trig)
    }

    /** The sensor disc: current position and coverage radius. */
    function Disc(trig: Trig): (d: (Point, real))
      reads orbit`angle
      ensures d == (Position(trig), coverageRadius)
    {
      (Position(trig), coverageRadius)
    }

    /**
     * The tiles of `grid` within the coverage radius of the current
     * position; the orbit is not advanced.
     */
    method CoveredTiles(earthGrid: EarthGrid, trig: Trig) returns (covered: seq<(int, int)>)
      requires earthGrid.Valid()
      ensures covered == earthGrid.CoveredRows(Position(trig), coverageRadius, earthGrid.height)
      ensures forall row, col :: (row, col) in covered <==>
                0 <= row < earthGrid.height && 0 <= col < earthGrid.width &&
                Within(earthGrid.tiles[row][col], Position(trig), coverageRadius)
    {
      var pos := Position(trig);
      covered := earthGrid.CoveredTiles(pos, coverageRadius);
    }
  }

  /** Every satellite of the fleet has taken `count` steps and its angle is the one those steps give. */
  ghost predicate Advanced(agents: seq<SatelliteAgent>, count: nat)
    reads set a | a in agents :: a.orbit
  {
    forall i :: 0 <= i < |agents| ==> agents[i].orbit.steps == count && agents[i].orbit.Valid()
  }

  /** The sensor discs of a fleet, in fleet order. */
  function Discs(agents: seq<SatelliteAgent>, trig: Trig): (ds: seq<(Point, real)>)
    reads (set a | a in agents :: a.orbit)`angle
    ensures |ds| == |agents|
    ensures forall i :: 0 <= i < |agents| ==> ds[i] == agents[i].Disc(trig)
  {
    if agents == [] then [] else [agents[0].Disc(trig)] + Discs(agents[1..], trig)
  }
}
