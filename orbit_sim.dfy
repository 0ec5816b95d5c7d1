/**
 * The circular-orbit state machine of one satellite: an angle in degrees,
 * normalised into [0, 360) at construction and advanced by a fixed speed
 * (modulo 360) on every step.
 */
module OrbitSim {
  import opened Geometry

  /** Python's `x % 360` on a float: the remainder of floored division. */
  function ModDeg(x: real): (r: real)
    ensures 0.0 <= r < 360.0
  {
    x - 360.0 * ((x / 360.0).Floor as real)
  }

  /** `Floor` is the unique integer k with k <= q < k + 1. */
  lemma FloorUnique(q: real, k: int)
    requires k as real <= q < k as real + 1.0
    ensures q.Floor == k
  {
  }

  /**
   * ModDeg characterised without Floor: the only value in [0, 360) that
   * differs from x by a whole number of turns.
   */
  lemma ModDegUnique(x: real, y: real, k: int)
    requires 0.0 <= y < 360.0
    requires x == y + 360.0 * (k as real)
    ensures ModDeg(x) == y
  {
    assert x / 360.0 == y / 360.0 + k as real;
    FloorUnique(x / 360.0, k);
  }

  /** ModDeg(x) differs from x by a whole number of turns. */
  lemma ModDegTurns(x: real)
    ensures x == ModDeg(x) + 360.0 * ((x / 360.0).Floor as real)
  {
  }

  /** Adding whole turns does not change the normalised angle. */
  lemma ModDegPeriodic(x: real, k: int)
    ensures ModDeg(x + 360.0 * (k as real)) == ModDeg(x)
  {
    var m := (x / 360.0).Floor;
    ModDegTurns(x);
    ModDegUnique(x + 360.0 * (k as real), ModDeg(x), m + k);
  }

  /** Normalising first and then adding is the same as adding and then normalising. */
  lemma ModDegAdd(a: real, s: real)
    ensures ModDeg(ModDeg(a) + s) == ModDeg(a + s)
  {
    var m := (a / 360.0).Floor;
    ModDegTurns(a);
    ModDegPeriodic(ModDeg(a) + s, m);
    assert ModDeg(a) + s + 360.0 * (m as real) == a + s;
  }

  /** If a is y normalised and b is a stepped by s, then b is y + s normalised. */
  lemma StepChain(a: real, b: real, y: real, z: real, s: real)
    requires a == ModDeg(y)
    requires b == ModDeg(a + s)
    requires z == y + s
    ensures b == ModDeg(z)
  {
    ModDegAdd(y, s);
  }

  lemma Distribute(phase: real, speed: real, k: real, k': real)
    requires k' == k + 1.0
    ensures phase + k * speed + speed == phase + k' * speed
  {
  }

  /** An angle already in [0, 360) is its own normal form. */
  lemma ModDegInRange(a: real)
    requires 0.0 <= a < 360.0
    ensures ModDeg(a) == a
  {
    ModDegUnique(a, a, 0);
  }

  /**
   * A step whose speed is a whole number of turns (zero included) leaves a
   * normalised angle where it was.
   */
  lemma StepByTurnsFixes(angle: real, k: int)
    requires 0.0 <= angle < 360.0
    ensures ModDeg(angle + 360.0 * (k as real)) == angle
  {
    ModDegUnique(angle + 360.0 * (k as real), angle, k);
  }

  /** The angle reached from `phase` after `n` steps of `speed`, step by step. */
  function AngleAfter(phase: real, speed: real, n: nat): (a: real)
    ensures 0.0 <= a < 360.0
  {
    if n == 0 then ModDeg(phase) else ModDeg(AngleAfter(phase, speed, n - 1) + speed)
  }

  /** n steps of `speed` land on (phase + n·speed) mod 360. */
  lemma {:induction false} AngleAfterClosedForm(phase: real, speed: real, n: nat)
    ensures AngleAfter(phase, speed, n) == ModDeg(phase + (n as real) * speed)
  {
    if n > 0 {
      var m := n - 1;
      AngleAfterClosedForm(phase, speed, m);
      Distribute(phase, speed, m as real, n as real);
      StepChain(AngleAfter(phase, speed, m), AngleAfter(phase, speed, n),
                phase + (m as real) * speed, phase + (n as real) * speed, speed);
    } else {
      assert phase + (n as real) * speed == phase;
    }
  }

  /** (altitude·cos θ, altitude·sin θ): where an orbit of this altitude is at angle θ. */
  function PositionAt(altitude: real, angle: real, trig: Trig): Point
  {
    Point(altitude * trig.cosDeg(angle), altitude * trig.sinDeg(angle))
  }

  /** Under the Pythagorean identity the position lies on the circle of the orbit. */
  lemma PositionOnCircle(altitude: real, angle: real, trig: Trig)
    ensures Unit(trig) ==>
      Sq(PositionAt(altitude, angle, trig).x) + Sq(PositionAt(altitude, angle, trig).y) == Sq(altitude)
  {
    if Unit(trig) {
      var c, s := trig.cosDeg(angle), trig.sinDeg(angle);
      assert Sq(c) + Sq(s) == 1.0;
      calc {
        Sq(altitude * c) + Sq(altitude * s);
        Sq(altitude) * (Sq(c) + Sq(s));
        Sq(altitude);
      }
    }
  }

  /** One satellite in a circular 2D orbit. */
  class Satellite {
    const altitude: real
    const speed: real
    var angle: real

    /** The phase it was built with and the number of steps taken since. */
    ghost const phase: real
    ghost var steps: nat

    ghost predicate Valid()
      reads this`angle, this`steps
    {
      angle == AngleAfter(phase, speed, steps)
    }

    constructor (altitudeKm: real, angularSpeedDeg: real, phaseDeg: real := 0.0)
      ensures Valid()
      ensures altitude == altitudeKm && speed == angularSpeedDeg && phase == phaseDeg
      ensures angle == ModDeg(phaseDeg) && 0.0 <= angle < 360.0 && steps == 0
    {
      altitude := altitudeKm;
      angle := ModDeg(phaseDeg);
      speed := angularSpeedDeg;
      phase := phaseDeg;
      steps := 0;
    }

    /** Advance by one timestep: only the angle (and the ghost step count) changes. */
    method Step()
      requires Valid()
      modifies this
      ensures Valid()
      ensures angle == ModDeg(old(angle) + speed) && 0.0 <= angle < 360.0
      ensures steps == old(steps) + 1
    {
      angle := ModDeg(angle + speed);
      steps := steps + 1;
    }

    /** The current (x, y) position: a function of altitude and angle only. */
    function Position(trig: Trig): (p: Point)
      reads this`angle
      ensures Unit(trig) ==> Sq(p.x) + Sq(p.y) == Sq(altitude)
      ensures p == PositionAt(altitude, angle, trig)
    {
      PositionOnCircle(altitude, angle, trig);
      PositionAt(altitude, angle, trig)
    }
  }
}
