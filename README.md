# StellarBot simulation core in Dafny

This project models the simulation engine of StellarBot, a small satellite-coverage simulator. The model has four pieces:

- **`EarthGrid`** (`coverage_grid.dfy`). A fixed `height × width` lattice of tile centres. It is sampled with `linspace` over `[-radius, radius]` on both axes. It answers a brute-force, boundary-inclusive disc query: which `(row, col)` tile centres lie within a coverage radius of a point.
- **`Satellite`** (`orbit_sim.dfy`). A circular-orbit state machine with one mutable field, the angle in degrees.
  - Construction normalises the phase into `[0, 360)`.
  - Every step adds the angular speed modulo 360.
  - The position is `(altitude·cos θ, altitude·sin θ)`.
- **`SatelliteAgent`** (`satellite.dfy`). An orbit with an id and a coverage radius. It delegates stepping, position and the tile query.
- **`StellarBotEnv`** (`stellarbot_env.dfy`). A grid plus a fleet of evenly phased satellites. Each step:
  - increments the step counter;
  - advances every satellite;
  - unions the tiles the satellites cover;
  - appends `100·|covered| / (height·width)` to an append-only coverage log.

  `reset` rebuilds the fleet and clears the counter and the log.

## Numbers and geometry

Numbers are exact `real`s.

- Python's `x % 360` on a float (floored remainder) is `x - 360·⌊x/360⌋`. `ModDeg` therefore lies in `[0, 360)` for negative inputs as well.
- The test `sqrt(dx² + dy²) <= r` becomes `r >= 0 && dx² + dy² <= r²` (`Geometry.Within`). The two are equivalent on the reals, so a negative radius covers nothing.
- `np.linspace(a, b, n)` is `a + k·(b - a)/(n - 1)` for `n >= 2`, `[a]` for `n = 1` and `[]` for `n = 0`.

Cosine and sine are a parameter `trig: Trig`, a pair of functions taking an angle in degrees. Positions are therefore functions of altitude and angle only. Every result about the length of a position vector is stated under `Unit(trig)`, the identity cos² + sin² = 1.

Each orbit carries ghost bookkeeping:

- `phase`, the phase it was built with;
- `steps`, the number of steps taken.

Its invariant `Valid()` says that the angle is the one `steps` steps of `speed` reach from `phase`. The environment's `Valid()` adds the following facts:

- the fleet is the one `_init_satellites` builds: satellite `i` has id `i`, phase `360·i/n`, altitude 7000, speed 15 and coverage radius 2500, each with its own orbit;
- every orbit has taken exactly `stepCount` steps;
- the log holds one percentage in `[0, 100]` per completed step.

## Model

| member | source | states |
|---|---|---|
| Geometry.WithinIsDistance | simulation/coverage_grid.py:35-38 | `Within` is the boundary-inclusive test `sqrt(dx² + dy²) <= r` stated as `r >= 0 && dx² + dy² <= r²`. For the non-negative square root d of dx² + dy², a tile is within the radius exactly when d <= r, so a negative radius contains nothing |
| OrbitSim.ModDeg | simulation/orbit_sim.py:13 | `x % 360` always lies in [0, 360), for any real x including negatives |
| OrbitSim.ModDegUnique | simulation/orbit_sim.py:13 | `x % 360` is the unique value in [0, 360) that differs from x by a whole number of turns |
| OrbitSim.ModDegPeriodic | simulation/orbit_sim.py:20 | adding any whole number of turns does not change the normalised angle |
| OrbitSim.ModDegAdd | simulation/orbit_sim.py:20 | `((a % 360) + s) % 360 == (a + s) % 360` |
| OrbitSim.ModDegInRange | simulation/orbit_sim.py:13 | an angle already in [0, 360) is left as it is by normalisation |
| OrbitSim.StepByTurnsFixes | simulation/orbit_sim.py:20 | a step whose speed is zero or any integer multiple of 360 leaves a normalised angle unchanged |
| OrbitSim.AngleAfter | simulation/orbit_sim.py:13-20 | the angle reached after n steps lies in [0, 360), for any phase and any speed, zero and negative included |
| OrbitSim.AngleAfterClosedForm | simulation/orbit_sim.py:13-20 | after n steps from construction, the angle is `(phase + n·speed) % 360` |
| OrbitSim.PositionOnCircle | simulation/orbit_sim.py:22-29 | under cos² + sin² = 1 the position lies on the circle whose radius is the altitude |
| OrbitSim.Satellite.constructor | simulation/orbit_sim.py:4-14 | the phase defaults to 0; stores altitude and speed; the angle is `phase % 360`, lies in [0, 360), and the orbit is valid with zero steps |
| OrbitSim.Satellite.Step | simulation/orbit_sim.py:16-20 | only the angle changes; it becomes `(angle + speed) % 360`, lies in [0, 360), and the invariant is kept with one more step |
| OrbitSim.Satellite.Position | simulation/orbit_sim.py:22-29 | the position is `(altitude·cos θ, altitude·sin θ)`, reads only the angle, and lies on the orbit circle under cos² + sin² = 1 |
| CoverageGrid.Linspace | simulation/coverage_grid.py:22-23 | `linspace` gives exactly num samples; the first is `start` and, for num >= 2, the last is `stop` |
| CoverageGrid.GapSpan | simulation/coverage_grid.py:22-23 | num - 1 gaps of `(stop - start)/(num - 1)` span the interval exactly; the gap is non-negative for a non-empty interval |
| CoverageGrid.LinspaceGap | simulation/coverage_grid.py:22-23 | consecutive samples are exactly the constant gap `(stop - start)/(num - 1)` apart |
| CoverageGrid.LinspaceWithin | simulation/coverage_grid.py:22-23 | for start <= stop every sample lies in [start, stop] and the samples never decrease |
| CoverageGrid.GenerateGrid | simulation/coverage_grid.py:17-25 | the lattice has exactly `height` rows of `width` columns, and tile (row, col) is `(xs[col], ys[row])` |
| CoverageGrid.TilesInsideSquare | simulation/coverage_grid.py:22-24 | for a non-negative radius every tile centre lies in the square [-radius, radius]² |
| CoverageGrid.EarthGrid.constructor | simulation/coverage_grid.py:4-15 | the radius defaults to 6371 km; stores width, height and radius, and builds the lattice from them |
| CoverageGrid.EarthGrid.CoveredInRowFacts | simulation/coverage_grid.py:33-39 | the inner loop over one row yields at most `cols` entries, all in that row, in ascending column order, and exactly the columns within the disc |
| CoverageGrid.EarthGrid.CoveredRowsLength | simulation/coverage_grid.py:31-40 | the first `rows` rows yield at most rows·width entries |
| CoverageGrid.EarthGrid.CoveredRowsInRange | simulation/coverage_grid.py:31-39 | every entry from the first `rows` rows has 0 <= row < rows and 0 <= col < width |
| CoverageGrid.EarthGrid.CoveredRowsSorted | simulation/coverage_grid.py:31-39 | the entries are in strictly ascending row-major order, hence free of duplicates |
| CoverageGrid.EarthGrid.CoveredRowsMembership | simulation/coverage_grid.py:31-39 | (row, col) is collected iff it lies in the first `rows` rows and its centre is within the disc |
| CoverageGrid.EarthGrid.CoveredRowsAll | simulation/coverage_grid.py:27-40 | the full scan: membership iff within the disc (boundary included), indices in bounds, sorted, at most width·height entries, empty for a negative radius |
| CoverageGrid.EarthGrid.CoveredTiles | simulation/coverage_grid.py:27-40 | the nested loops return exactly the scan above, with all its properties; the grid is not modified |
| CoverageGrid.EarthGrid.AllTilePositions | simulation/coverage_grid.py:42-46 | returns the stored lattice unchanged: `height` rows of `width` columns as generated |
| CoverageGrid.EarthGrid.GridShape | simulation/coverage_grid.py:48-49 | returns (height, width), which is the stored lattice's row count and the length of every row |
| CoverageGrid.EarthGrid.CoveredBy | simulation/stellarbot_env.py:32-37 | the tiles covered by some disc of a fleet are tile indices of the lattice |
| CoverageGrid.CoveredByBound | simulation/stellarbot_env.py:39 | any number of discs covers at most height·width tiles, so the percentage cannot exceed 100 |
| Satellite.SatelliteAgent.constructor | simulation/satellite.py:5-17 | stores id and coverage radius verbatim and builds a fresh orbit from (altitude, speed, phase) |
| Satellite.SatelliteAgent.Step | simulation/satellite.py:19-23 | performs exactly one orbit step; id and coverage radius are constants |
| Satellite.SatelliteAgent.Position | simulation/satellite.py:25-29 | the agent's position is its orbit's position |
| Satellite.SatelliteAgent.CoveredTiles | simulation/satellite.py:31-36 | the result is the grid's query at the current position with the agent's radius: the tiles within that disc; the orbit is not advanced |
| StellarbotEnv.PhaseInRange | simulation/stellarbot_env.py:16 | the phase `(360/n)·i` of satellite i < n lies in [0, 360), so normalisation keeps it |
| StellarbotEnv.CoveragePercent | simulation/stellarbot_env.py:39 | `100·tiles/cells` lies in [0, 100] when tiles <= cells, and is 0 exactly when no tile is covered |
| StellarbotEnv.InitSatellites | simulation/stellarbot_env.py:12-25 | `num_sats` fresh satellites (none for a non-positive count, with no division); satellite i has id i, phase 360·i/n, altitude 7000, speed 15, radius 2500 and its own orbit |
| StellarbotEnv.FirstOutside | simulation/stellarbot_env.py:17-24 | the index of the first keyword not declared by the signature; every earlier one is declared |
| StellarbotEnv.BindKeywords | simulation/stellarbot_env.py:17-24 | a keyword call binds iff every keyword is a parameter and every parameter is supplied; an undeclared keyword raises TypeError |
| StellarbotEnv.InitSatellitesAsWritten | simulation/stellarbot_env.py:12-25 | `_init_satellites` as written binds its agent call only when the loop does not run |
| StellarbotEnv.InitSatellitesAsWrittenRaises | simulation/stellarbot_env.py:17-24 | as written, every positive fleet size raises TypeError on `angular_speed_deg_per_sec` |
| StellarbotEnv.IntendedCallBinds | simulation/satellite.py:5 | the intended keywords bind every parameter of the agent constructor |
| StellarbotEnv.StellarBotEnv.constructor | simulation/stellarbot_env.py:6-10 | the defaults are 3 satellites on a 36 × 18 grid; the grid has the given width and height and the default radius; the fleet has `num_sats` satellites (none if non-positive); step count is 0 and the log is empty; the invariant holds |
| StellarbotEnv.StellarBotEnv.Step | simulation/stellarbot_env.py:27-46 | the step count goes up by exactly 1; every satellite advances once, by 15 degrees mod 360, and the fleet is unchanged. The tile count is the size of the union of the tiles within each satellite's disc at its new position. The percentage is 100·tiles/(h·w), lies in [0, 100] and is appended as the only new log entry, with earlier entries untouched. A grid of zero tiles fails with division by zero and no log entry. The invariant is kept: the log length equals the step count on a grid with at least one tile, and stays 0 otherwise |
| StellarbotEnv.StellarBotEnv.RecordCoverage | simulation/stellarbot_env.py:31-46 | counts the step, and for a non-empty grid appends `100·|covered|/(h·w)` in [0, 100] and reports (step, tiles, percent); for a zero-tile grid reports division by zero with the log unchanged |
| StellarbotEnv.StellarBotEnv.AdvanceFleet | simulation/stellarbot_env.py:34-35 | every satellite takes exactly one step, its angle becoming `(angle + 15) % 360` |
| StellarbotEnv.StellarBotEnv.CoveredUnion | simulation/stellarbot_env.py:32-37 | the union of the satellites' tile queries is exactly the set of tiles within some satellite's disc, at most h·w of them |
| StellarbotEnv.StellarBotEnv.Reset | simulation/stellarbot_env.py:48-54 | a freshly built fleet of the same size, evenly re-phased from 0; step count 0 and empty log; the grid is a constant and stays |
| StellarbotEnv.StellarBotEnv.GetSatellitePositions | simulation/stellarbot_env.py:56-60 | one position per satellite in fleet order, each on the 7000 km circle under cos² + sin² = 1 |
| StellarbotEnv.CoveredByAppend | simulation/stellarbot_env.py:36-37 | adding one satellite's query result to the union adds exactly the tiles within that satellite's disc |
| StellarbotEnv.FleetAngles | simulation/stellarbot_env.py:16-35 | in every reachable state, satellite i of n is at `((360/n)·i + 15·step_count) % 360` |
| StellarbotEnv.FleetAtPhases | simulation/stellarbot_env.py:48-54 | before any step (after construction or reset) satellite i of n sits exactly at `(360/n)·i` |

## Left out

- Trigonometry and floating point are not modelled: `np.radians`, `np.cos`, `np.sin`, `np.sqrt`, and the rounding of `%`, `linspace` and the percentage division. Cosine and sine are the parameter `trig`, and all arithmetic is on exact reals.
- `time.perf_counter()` (simulation/stellarbot_env.py:14) is a clock read whose only use is the `start_time` keyword. The orbit has no epoch or continuous-time state.
- The keyword mismatch at simulation/stellarbot_env.py:17-24 is modelled twice:
  - as written, it raises a TypeError (see Findings);
  - the rest of the model builds the fleet as the call evidently intends (speed 15 degrees per step, no start time).
- Grid width and height are natural numbers. `np.linspace` raises ValueError for a negative count, and that path is not modelled.
- A negative `num_sats` yields an empty fleet, as `range` does. The division `360 / num_sats` is modelled only where the loop evaluates it.
- The `__repr__` string formatting of `Satellite` and `SatelliteAgent` is not modelled.
- The pygame and matplotlib front end under `visualize/` is not modelled, including its heatmap decay state. It also treats the fleet as a dictionary (`.values()`), which comes from another revision. The fleet here is a sequence, as in the simulation code.
- StellarbotEnv.StellarBotEnv.Step: the source steps satellite i and then queries it, inside one loop. The model runs two loops: it advances the whole fleet (`AdvanceFleet`), then takes the union of the queries (`CoveredUnion`). The result and the state are the same, because each query reads only its own satellite's orbit and the grid. The model also increments the counter after the satellites move rather than before, and nothing observes the difference.
- StellarbotEnv.StellarBotEnv.Step: the source returns a dictionary with keys `step`, `coverage_tiles` and `coverage_percent`; the model returns the record `StepInfo`. A zero-tile grid raises ZeroDivisionError in the source; the model returns the `ZeroDivisionError` result instead.
- The source stores the tile lattice as a numpy array of shape `(height, width, 2)`. The model uses a sequence of rows of points, and indexes it in the same `[row][col]` order.

## Findings

| source | as written | input that shows it | evidently intended | confidence | as-written member | corrected member |
|---|---|---|---|---|---|---|
| simulation/stellarbot_env.py:17-24 | calls `SatelliteAgent(...)` with the keywords `angular_speed_deg_per_sec=15` and `start_time=shared_start`. The constructor at simulation/satellite.py:5 declares `angular_speed_deg` and no `start_time`, so Python raises TypeError | `StellarBotEnv()` with the default `num_sats=3`: the first agent construction fails on `angular_speed_deg_per_sec` | pass the speed as `angular_speed_deg=15` (degrees per step) and no start time | not executed | StellarbotEnv.InitSatellitesAsWritten | StellarbotEnv.InitSatellites |
