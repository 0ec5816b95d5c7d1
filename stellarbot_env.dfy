/**
 * The simulation environment: a grid and an evenly phased fleet. Each step
 * advances every satellite, unions the tiles they cover and appends the
 * coverage percentage to an append-only log.
 */
module StellarbotEnv {
  import opened Geometry
  import opened OrbitSim
  import opened CoverageGrid
  import opened Satellite

  /** The parameters every satellite of the fleet is built with. */
  const AltitudeKm: real := 7000.0
  const SpeedDegPerStep: real := 15.0
  const CoverageRadiusKm: real := 2500.0

  /** The phase of satellite i of n: `(360 / n) * i`. */
  function Phase(i: nat, n: nat): real
    requires n > 0
  {
    (360.0 / (n as real)) * (i as real)
  }

  /** Evenly spaced phases lie in [0, 360), so they are already normalised angles. */
  lemma PhaseInRange(i: nat, n: nat)
    requires i < n
    ensures 0.0 <= Phase(i, n) < 360.0
    ensures ModDeg(Phase(i, n)) == Phase(i, n)
  {
    var q := 360.0 / (n as real);
    assert q > 0.0;
    assert (n as real) * q == 360.0;
    MulMono(i as real, (n - 1) as real, q);
    MulMono(0.0, i as real, q);
    assert ((n - 1) as real) * q == 360.0 - q;
    assert Phase(i, n) == (i as real) * q;
    ModDegInRange(Phase(i, n));
  }

  /** `100 * tiles / cells`. */
  function CoveragePercent(tiles: nat, cells: nat): (pct: real)
    requires cells > 0
    ensures tiles <= cells ==> 0.0 <= pct <= 100.0
    ensures pct == 0.0 <==> tiles == 0
  {
    var pct := 100.0 * (tiles as real) / (cells as real);
    assert tiles <= cells ==> pct <= 100.0 by {
      if tiles <= cells {
        MulMono(tiles as real, cells as real, 100.0 / (cells as real));
        assert pct == (tiles as real) * (100.0 / (cells as real));
      }
    }
    pct
  }

  /** The result of one step: the `step`, `coverage_tiles` and `coverage_percent` entries. */
  datatype StepInfo = StepInfo(step: nat, coverageTiles: nat, coveragePercent: real)

  /** A step either reports its statistics or fails dividing by a grid of zero tiles. */
  datatype StepResult = Stats(info: StepInfo) | ZeroDivisionError

  /** No two satellites share an orbit object. */
  predicate DistinctOrbits(sats: seq<SatelliteAgent>)
  {
    forall i, j :: 0 <= i < j < |sats| ==> sats[i].orbit != sats[j].orbit
  }

  /**
   * The fleet `_init_satellites` builds: satellite i has id i, phase
   * 360·i/n, altitude 7000, speed 15 and coverage radius 2500, each with its
   * own orbit. (These are all constants of the objects.)
   */
  ghost predicate FleetShape(sats: seq<SatelliteAgent>)
  {
    DistinctOrbits(sats) &&
    forall i :: 0 <= i < |sats| ==>
      sats[i].id == i && sats[i].coverageRadius == CoverageRadiusKm &&
      sats[i].orbit.altitude == AltitudeKm && sats[i].orbit.speed == SpeedDegPerStep &&
      sats[i].orbit.phase == Phase(i, |sats|)
  }

  /** The positions of a fleet, in fleet order. */
  function Positions(agents: seq<SatelliteAgent>, trig: Trig): (ps: seq<Point>)
    reads (set a | a in agents :: a.orbit)`angle
    ensures |ps| == |agents|
    ensures forall i :: 0 <= i < |agents| ==> ps[i] == agents[i].Position(trig)
  {
    if agents == [] then [] else [agents[0].Position(trig)] + Positions(agents[1..], trig)
  }

  /**
   * `_init_satellites`: `num_sats` fresh satellites, evenly phased; a
   * non-positive count gives an empty fleet and divides by nothing.
   */
  method InitSatellites(numSats: int) returns (sats: seq<SatelliteAgent>)
    ensures |sats| == if numSats > 0 then numSats else 0
    ensures FleetShape(sats)
    ensures forall i :: 0 <= i < |sats| ==> sats[i].orbit.steps == 0 && sats[i].orbit.Valid()
    ensures forall i :: 0 <= i < |sats| ==> fresh(sats[i].orbit)
  {
    var n: nat := if numSats > 0 then numSats else 0;
    sats := [];
    var i := 0;
    while i < numSats
      invariant i <= n
      invariant |sats| == i
      invariant DistinctOrbits(sats)
      invariant forall j :: 0 <= j < i ==> fresh(sats[j].orbit)
      invariant forall j :: 0 <= j < i ==>
        sats[j].id == j && sats[j].coverageRadius == CoverageRadiusKm &&
        sats[j].orbit.altitude == AltitudeKm && sats[j].orbit.speed == SpeedDegPerStep &&
        sats[j].orbit.phase == Phase(j, n) && sats[j].orbit.steps == 0 && sats[j].orbit.Valid()
    {
      var phase := (360.0 / (numSats as real)) * (i as real);
      var sat := new SatelliteAgent(i, AltitudeKm, SpeedDegPerStep, phase, CoverageRadiusKm);
      sats := sats + [sat];
      i := i + 1;
    }
  }

  /**
   * How Python binds keyword arguments to a signature that has neither
   * default values nor `**kwargs` (as `SatelliteAgent.__init__`): the first
   * keyword the signature does not declare raises a TypeError, and otherwise
   * the first parameter no keyword supplies is reported missing. (A parameter
   * with a default value would never be missing; no such signature is bound here.)
   */
  datatype Binding = Bound | UnexpectedKeyword(name: string) | MissingArgument(name: string)

  /** The index of the first element of `xs` that is not in `ys`, or |xs| when there is none. */
  function FirstOutside(xs: seq<string>, ys: seq<string>): (i: nat)
    ensures i <= |xs|
    ensures forall k :: 0 <= k < i ==> xs[k] in ys
    ensures i < |xs| ==> xs[i] !in ys
  {
    if xs == [] || xs[0] !in ys then 0 else 1 + FirstOutside(xs[1..], ys)
  }

  function BindKeywords(passed: seq<string>, params: seq<string>): (b: Binding)
    ensures b.UnexpectedKeyword? <==> exists k :: k in passed && k !in params
    ensures b.UnexpectedKeyword? ==> b.name in passed && b.name !in params
    ensures b.MissingArgument? ==> b.name in params && b.name !in passed
    ensures b.Bound? <==> (forall k :: k in passed ==> k in params) && (forall p :: p in params ==> p in passed)
  {
    var i := FirstOutside(passed, params);
    if i < |passed| then UnexpectedKeyword(passed[i])
    else
      var j := FirstOutside(params, passed);
      if j < |params| then MissingArgument(params[j]) else Bound
  }

  /** The parameters `SatelliteAgent.__init__` declares. */
  const AgentParameters: seq<string> :=
    ["sat_id", "altitude_km", "angular_speed_deg", "phase_deg", "coverage_radius_km"]

  /** The keywords `_init_satellites` passes to `SatelliteAgent`, in call order, as written. */
  const InitCallKeywords: seq<string> :=
    ["sat_id", "altitude_km", "angular_speed_deg_per_sec", "phase_deg", "coverage_radius_km", "start_time"]

  /** The keywords the call evidently means: the speed under its declared name and no start time. */
  const IntendedCallKeywords: seq<string> :=
    ["sat_id", "altitude_km", "angular_speed_deg", "phase_deg", "coverage_radius_km"]

  /**
   * `_init_satellites` as written: the loop body runs only for a positive
   * count, and its first agent construction is where binding happens.
   */
  function InitSatellitesAsWritten(numSats: int): (b: Binding)
    ensures numSats <= 0 ==> b.Bound?
  {
    if numSats <= 0 then Bound else BindKeywords(InitCallKeywords, AgentParameters)
  }

  /**
   * As written, every positive fleet size (the default 3 included) raises a
   * TypeError for the keyword `angular_speed_deg_per_sec`.
   */
  lemma InitSatellitesAsWrittenRaises(numSats: int)
    requires numSats > 0
    ensures InitSatellitesAsWritten(numSats) == UnexpectedKeyword("angular_speed_deg_per_sec")
  {
    assert InitCallKeywords[0] in AgentParameters && InitCallKeywords[1] in AgentParameters;
    assert FirstOutside(InitCallKeywords, AgentParameters) == 2;
  }

  /** The intended call binds every parameter of the agent constructor, which `InitSatellites` then builds with. */
  lemma IntendedCallBinds()
    ensures BindKeywords(IntendedCallKeywords, AgentParameters) == Bound
  {
    assert forall k :: k in IntendedCallKeywords ==> k in AgentParameters;
    assert forall p :: p in AgentParameters ==> p in IntendedCallKeywords;
  }

  class StellarBotEnv {
    const grid: EarthGrid
    var satellites: seq<SatelliteAgent>
    var stepCount: nat
    var coverageLog: seq<real>

    /** `grid.height * grid.width`, the denominator of the coverage percentage. */
    function TotalCells(): nat
    {
      grid.height * grid.width
    }

    /** The orbit objects of the fleet (and possibly more): what a step may change. */
    ghost var Repr: set<OrbitSim.Satellite>

    /**
     * The fleet half of the environment invariant: the fleet is the one
     * `_init_satellites` builds, every satellite advanced `count` times.
     */
    ghost predicate FleetValid(count: nat)
      reads this`satellites, this`Repr, Repr
    {
      (forall i :: 0 <= i < |satellites| ==> satellites[i].orbit in Repr) &&
      grid.Valid() && FleetShape(satellites) && Advanced(satellites, count)
    }

    /** The log half: one percentage in [0, 100] per completed step (none on a grid of zero tiles). */
    ghost predicate LogValid()
      reads this`coverageLog, this`stepCount
    {
      |coverageLog| == (if TotalCells() > 0 then stepCount else 0) &&
      forall k :: 0 <= k < |coverageLog| ==> 0.0 <= coverageLog[k] <= 100.0
    }

    /** The environment invariant. */
    ghost predicate Valid()
      reads this, Repr
    {
      FleetValid(stepCount) && LogValid()
    }

    constructor (numSats: int := 3, gridWidth: nat := 36, gridHeight: nat := 18)
      ensures Valid() && fresh(Repr)
      ensures grid.width == gridWidth && grid.height == gridHeight && grid.radius == EarthRadiusKm
      ensures |satellites| == if numSats > 0 then numSats else 0
      ensures stepCount == 0 && coverageLog == []
    {
      grid := new EarthGrid(gridWidth, gridHeight);
      var sats := InitSatellites(numSats);
      satellites := sats;
      Repr := set s | s in sats :: s.orbit;
      stepCount := 0;
      coverageLog := [];
    }

    /**
     * `step`: count the step, advance every satellite once, and record the
     * percentage of tiles covered by at least one satellite at its new
     * position.
     */
    method Step(trig: Trig) returns (r: StepResult)
      requires Valid()
      modifies this, Repr
      ensures Valid() && Repr == old(Repr)
      ensures satellites == old(satellites) && stepCount == old(stepCount) + 1
      ensures forall i :: 0 <= i < |satellites| ==>
                satellites[i].orbit.angle == ModDeg(old(satellites[i].orbit.angle) + SpeedDegPerStep)
      ensures r.Stats? <==> TotalCells() > 0
      ensures r.Stats? ==>
                r.info.step == stepCount &&
                r.info.coverageTiles == |grid.CoveredBy(Discs(satellites, trig))| &&
                r.info.coveragePercent == CoveragePercent(r.info.coverageTiles, TotalCells()) &&
                0.0 <= r.info.coveragePercent <= 100.0 &&
                coverageLog == old(coverageLog) + [r.info.coveragePercent]
      ensures r.ZeroDivisionError? ==> coverageLog == old(coverageLog)
    {
      AdvanceFleet(stepCount);
      var allCovered := CoveredUnion(trig);
      r := RecordCoverage(allCovered, trig);
    }

    /**
     * The counting and logging part of `step`: the step counter goes up and
     * the percentage of the grid's tiles that `covered` holds goes on the log
     * and into the result; a grid of zero tiles fails with a division by zero
     * before anything is logged.
     */
    method RecordCoverage(covered: set<(int, int)>, ghost trig: Trig) returns (r: StepResult)
      requires FleetValid(stepCount + 1) && LogValid() && |covered| <= TotalCells()
      modifies this`stepCount, this`coverageLog
      ensures Valid() && stepCount == old(stepCount) + 1
      ensures Discs(satellites, trig) == old(Discs(satellites, trig))
      ensures r.Stats? <==> TotalCells() > 0
      ensures r.Stats? ==>
                r.info.step == stepCount && r.info.coverageTiles == |covered| &&
                r.info.coveragePercent == CoveragePercent(|covered|, TotalCells()) &&
                0.0 <= r.info.coveragePercent <= 100.0 &&
                coverageLog == old(coverageLog) + [r.info.coveragePercent]
      ensures r.ZeroDivisionError? ==> coverageLog == old(coverageLog)
    {
      stepCount := stepCount + 1;
      var cells := TotalCells();
      if cells == 0 {
        r := ZeroDivisionError;
      } else {
        var pct := CoveragePercent(|covered|, cells);
        coverageLog := coverageLog + [pct];
        r := Stats(StepInfo(stepCount, |covered|, pct));
      }
    }

    /** The stepping half of the `step` loop: every satellite of the fleet advances once. */
    method AdvanceFleet(ghost count: nat)
      requires FleetValid(count)
      modifies Repr
      ensures FleetValid(count + 1)
      ensures forall j :: 0 <= j < |satellites| ==>
                satellites[j].orbit.angle == ModDeg(old(satellites[j].orbit.angle) + SpeedDegPerStep)
    {
      var i := 0;
      while i < |satellites|
        invariant 0 <= i <= |satellites|
        invariant forall j :: 0 <= j < |satellites| ==> satellites[j].orbit.Valid()
        invariant forall j :: 0 <= j < i ==> satellites[j].orbit.steps == count + 1
        invariant forall j :: i <= j < |satellites| ==> satellites[j].orbit.steps == count
        invariant forall j :: 0 <= j < i ==>
                    satellites[j].orbit.angle == ModDeg(old(satellites[j].orbit.angle) + SpeedDegPerStep)
        invariant forall j :: i <= j < |satellites| ==>
                    satellites[j].orbit.angle == old(satellites[j].orbit.angle)
      {
        var sat := satellites[i];
        assert forall j :: 0 <= j < |satellites| && j != i ==> satellites[j].orbit != sat.orbit;
        sat.Step();
        i := i + 1;
      }
    }

    /**
     * The coverage half of the `step` loop: the union of every satellite's
     * tile query is the set of tiles within some satellite's disc.
     */
    method CoveredUnion(trig: Trig) returns (covered: set<(int, int)>)
      requires grid.Valid()
      ensures covered == grid.CoveredBy(Discs(satellites, trig))
      ensures |covered| <= TotalCells()
    {
      covered := {};
      ghost var discs: seq<(Point, real)> := [];
      for i := 0 to |satellites|
        invariant |discs| == i
        invariant forall j :: 0 <= j < i ==> discs[j] == satellites[j].Disc(trig)
        invariant covered == grid.CoveredBy(discs)
      {
        var sat := satellites[i];
        var tiles := sat.CoveredTiles(grid, trig);
        CoveredByAppend(grid, discs, sat.Disc(trig), tiles);
        covered := covered + (set t | t in tiles);
        discs := discs + [sat.Disc(trig)];
      }
      assert discs == Discs(satellites, trig);
      CoveredByBound(grid, discs);
    }

    /** `reset`: a freshly built fleet of the same size, step counter 0, empty log; the grid stays. */
    method Reset()
      requires Valid()
      modifies this
      ensures Valid() && fresh(Repr)
      ensures |satellites| == old(|satellites|)
      ensures stepCount == 0 && coverageLog == []
      ensures forall i :: 0 <= i < |satellites| ==> fresh(satellites[i].orbit)
    {
      var sats := InitSatellites(|satellites|);
      satellites := sats;
      Repr := set s | s in sats :: s.orbit;
      stepCount := 0;
      coverageLog := [];
    }

    /** `get_satellite_positions`: one position per satellite, in fleet order. */
    function GetSatellitePositions(trig: Trig): (ps: seq<Point>)
      reads this, Repr
      requires Valid()
      ensures |ps| == |satellites|
      ensures forall i :: 0 <= i < |satellites| ==> ps[i] == satellites[i].Position(trig)
      ensures Unit(trig) ==> forall i :: 0 <= i < |ps| ==> Sq(ps[i].x) + Sq(ps[i].y) == Sq(AltitudeKm)
    {
      Positions(satellites, trig)
    }
  }

  /**
   * Adding one disc adds exactly the tiles that disc's query returns: the
   * union the step loop builds is the set of tiles within some disc.
   */
  lemma CoveredByAppend(grid: EarthGrid, discs: seq<(Point, real)>, d: (Point, real), tiles: seq<(int, int)>)
    requires grid.Valid()
    requires forall row, col :: (row, col) in tiles <==>
               0 <= row < grid.height && 0 <= col < grid.width && Within(grid.tiles[row][col], d.0, d.1)
    ensures grid.CoveredBy(discs + [d]) == grid.CoveredBy(discs) + (set t | t in tiles)
  {
    var ds := discs + [d];
    forall t | t in grid.CoveredBy(ds) ensures t in grid.CoveredBy(discs) + (set t | t in tiles) {
      var k :| 0 <= k < |ds| && Within(grid.tiles[t.0][t.1], ds[k].0, ds[k].1);
      if k < |discs| {
        assert ds[k] == discs[k];
      } else {
        assert (t.0, t.1) in tiles;
      }
    }
    forall t | t in grid.CoveredBy(discs) ensures t in grid.CoveredBy(ds) {
      var k :| 0 <= k < |discs| && Within(grid.tiles[t.0][t.1], discs[k].0, discs[k].1);
      assert ds[k] == discs[k];
    }
    forall t | t in tiles ensures t in grid.CoveredBy(ds) {
      assert (t.0, t.1) in tiles;
      assert 0 <= t.0 < grid.height && 0 <= t.1 < grid.width;
      assert Within(grid.tiles[t.0][t.1], ds[|discs|].0, ds[|discs|].1);
    }
  }

  /**
   * Every satellite of a valid environment is where `stepCount` steps of 15
   * degrees take it from its phase: ((360 / n)·i + 15·stepCount) mod 360.
   */
  lemma FleetAngles(env: StellarBotEnv)
    requires env.Valid()
    ensures forall i :: 0 <= i < |env.satellites| ==>
              env.satellites[i].orbit.angle ==
              ModDeg(Phase(i, |env.satellites|) + (env.stepCount as real) * SpeedDegPerStep)
  {
    forall i | 0 <= i < |env.satellites|
      ensures env.satellites[i].orbit.angle ==
              ModDeg(Phase(i, |env.satellites|) + (env.stepCount as real) * SpeedDegPerStep)
    {
      var o := env.satellites[i].orbit;
      AngleAfterClosedForm(o.phase, o.speed, env.stepCount);
    }
  }

  /** Before any step (after construction or `reset`) satellite i of n sits exactly at 360·i/n. */
  lemma FleetAtPhases(env: StellarBotEnv)
    requires env.Valid() && env.stepCount == 0
    ensures forall i :: 0 <= i < |env.satellites| ==> env.satellites[i].orbit.angle == Phase(i, |env.satellites|)
  {
    forall i | 0 <= i < |env.satellites|
      ensures env.satellites[i].orbit.angle == Phase(i, |env.satellites|)
    {
      PhaseInRange(i, |env.satellites|);
    }
  }
}
