/** The pure computations of `PhysicsEngine`: the two forces, one
    semi-implicit Euler step, the energy-based orbit classification, the
    speeds the manoeuvres aim for, and the impulsive burn along the velocity.
    Earth's centre is the origin. Arithmetic is over the reals, not IEEE
    doubles, and square roots come from the host's `sqrt` (see `IsSqrt`). */
module OrbitalMechanics {
  import opened Vectors

  // The engine's constants (`this.earthRadius`, `this.earthMass`, `this.G`,
  // `this.airDensity`, `this.dragCoefficient`, `this.satelliteArea`,
  // `this.mass`), as decimal reals.
  const EarthRadius: real := 6371000.0
  const EarthMass: real := 5972000000000000000000000.0
  const G: real := 0.0000000000667430
  const AirDensity: real := 0.000000000001
  const DragCoefficient: real := 0.47
  /** The double nearest to pi, as `Math.PI` holds it (to 16 digits). */
  const Pi: real := 3.141592653589793
  /** `Math.PI * Math.pow(2, 2)`: a disc of radius 2 m. */
  const SatelliteArea: real := Pi * 4.0
  const SatelliteMass: real := 500.0
  /** The standard gravitational parameter `mu = G * M`. */
  const Mu: real := G * EarthMass

  /** Orbits whose specific energy lies strictly within this distance of
      zero are reported as parabolic. */
  const ParabolicBand: real := 1000.0

  /** How close (in metres) the radius must come to the transfer target for
      the deferred circularization burn to fire. */
  const ArrivalTolerance: real := 1000.0

  // ---------------------------------------------------------------------------
  // Forces
  // ---------------------------------------------------------------------------

  /** Scaling a unit vector `n` parallel to `v` by `c` gives a vector
      parallel to `v` of length `|c|`. */
  lemma ScaledUnit(n: Vec3, v: Vec3, c: real, sqrt: real -> real)
    requires IsSqrt(sqrt)
    requires LengthSq(n) == 1.0 && Cross(n, v) == Zero
    ensures Cross(Scale(n, c), v) == Zero
    ensures Dot(Scale(n, c), v) == c * Dot(n, v)
    ensures Length(Scale(n, c), sqrt) == Abs(c)
  {
    LengthSqScale(n, c);
    SqrtUnique(sqrt, LengthSq(Scale(n, c)), Abs(c));
    CrossScale(n, v, c);
    DotScale(n, v, c);
  }

  /** `computeGravity`: the pull of a point mass at the origin on the
      satellite. The engine never asks for it at the centre itself, where the
      source divides by zero. */
  function Gravity(position: Vec3, sqrt: real -> real): Vec3
    requires IsSqrt(sqrt)
    requires position != Zero
  {
    var rVec := Sub(Zero, position);
    LengthSqNegate(position);
    LengthSqPositive(position);
    var forceMag := G * EarthMass * SatelliteMass / LengthSq(rVec);
    Scale(Normalize(rVec, sqrt), forceMag)
  }

  /** Gravity lies on the line through the centre, points towards the centre
      and follows the inverse-square law `|F| r^2 == G M m`. */
  lemma GravityTowardsCentre(position: Vec3, sqrt: real -> real)
    requires IsSqrt(sqrt)
    requires position != Zero
    ensures Cross(Gravity(position, sqrt), position) == Zero
    ensures Dot(Gravity(position, sqrt), position) < 0.0
    ensures Length(Gravity(position, sqrt), sqrt) * LengthSq(position) == G * EarthMass * SatelliteMass
  {
    var rVec := Sub(Zero, position);
    LengthSqNegate(position);
    LengthSqPositive(position);
    var forceMag := G * EarthMass * SatelliteMass / LengthSq(rVec);
    DivPositive(G * EarthMass * SatelliteMass, LengthSq(rVec));
    assert rVec != Zero;
    NormalizeUnit(rVec, sqrt);
    TowardsCentre(position, Normalize(rVec, sqrt), forceMag, sqrt);
    assert Gravity(position, sqrt) == Scale(Normalize(rVec, sqrt), forceMag);
  }

  /** A positive multiple of a unit vector pointing from `position` towards
      the centre points towards the centre, along the line through it. */
  lemma TowardsCentre(position: Vec3, n: Vec3, c: real, sqrt: real -> real)
    requires IsSqrt(sqrt)
    requires LengthSq(n) == 1.0 && Cross(n, Sub(Zero, position)) == Zero
    requires 0.0 < Dot(n, Sub(Zero, position)) && 0.0 < c
    ensures Cross(Scale(n, c), position) == Zero && Dot(Scale(n, c), position) < 0.0
    ensures Length(Scale(n, c), sqrt) == c
  {
    var rVec := Sub(Zero, position);
    var f := Scale(n, c);
    ScaledUnit(n, rVec, c, sqrt);
    NegateRight(f, position);
    calc {
      Dot(f, position);
      -Dot(f, rVec);
      -(c * Dot(n, rVec));
    < { MulPositive(c, Dot(n, rVec)); }
      0.0;
    }
  }

  /** `computeDrag`: quadratic air drag `rho v^2 Cd A / 2` opposing the
      velocity; zero when the satellite is at rest, since `normalize` leaves
      the zero vector as it is. */
  function Drag(velocity: Vec3, sqrt: real -> real): Vec3
    requires IsSqrt(sqrt)
  {
    var speed := Length(velocity, sqrt);
    var dragMag := 0.5 * AirDensity * speed * speed * DragCoefficient * SatelliteArea;
    Scale(Normalize(velocity, sqrt), -dragMag)
  }

  /** A satellite at rest feels no drag: `normalize` leaves the zero vector
      as it is. */
  lemma DragAtRest(sqrt: real -> real)
    requires IsSqrt(sqrt)
    ensures Drag(Zero, sqrt) == Zero
  {
    var speed := Length(Zero, sqrt);
    var dragMag := 0.5 * AirDensity * speed * speed * DragCoefficient * SatelliteArea;
    NormalizeZero(sqrt);
    ZeroScaled(Normalize(Zero, sqrt), -dragMag);
  }

  /** For a moving satellite the drag points straight against the motion,
      with magnitude `rho v^2 Cd A / 2`. */
  lemma DragOpposesMotion(velocity: Vec3, sqrt: real -> real)
    requires IsSqrt(sqrt)
    requires velocity != Zero
    ensures Cross(Drag(velocity, sqrt), velocity) == Zero
    ensures Dot(Drag(velocity, sqrt), velocity) < 0.0
    ensures Length(Drag(velocity, sqrt), sqrt)
         == 0.5 * AirDensity * LengthSq(velocity) * DragCoefficient * SatelliteArea
  {
    var speed := Length(velocity, sqrt);
    var dragMag := 0.5 * AirDensity * speed * speed * DragCoefficient * SatelliteArea;
    LengthSqPositive(velocity);
    DragMagnitude(speed, LengthSq(velocity));
    assert dragMag == 0.5 * AirDensity * LengthSq(velocity) * DragCoefficient * SatelliteArea;
    NormalizeUnit(velocity, sqrt);
    AgainstMotion(velocity, Normalize(velocity, sqrt), dragMag, sqrt);
    assert Drag(velocity, sqrt) == Scale(Normalize(velocity, sqrt), -dragMag);
  }

  lemma DragMagnitude(speed: real, speedSq: real)
    requires speed * speed == speedSq && 0.0 < speedSq
    ensures 0.5 * AirDensity * speed * speed * DragCoefficient * SatelliteArea
         == 0.5 * AirDensity * speedSq * DragCoefficient * SatelliteArea
    ensures 0.0 < 0.5 * AirDensity * speedSq * DragCoefficient * SatelliteArea
  {
  }

  /** A negative multiple of a unit vector along `v` opposes `v`. */
  lemma AgainstMotion(v: Vec3, n: Vec3, c: real, sqrt: real -> real)
    requires IsSqrt(sqrt)
    requires LengthSq(n) == 1.0 && Cross(n, v) == Zero && 0.0 < Dot(n, v)
    requires 0.0 < c
    ensures Cross(Scale(n, -c), v) == Zero && Dot(Scale(n, -c), v) < 0.0
    ensures Length(Scale(n, -c), sqrt) == c
  {
    ScaledUnit(n, v, -c, sqrt);
    calc {
      Dot(Scale(n, -c), v);
      -c * Dot(n, v);
      -(c * Dot(n, v));
    < { MulPositive(c, Dot(n, v)); }
      0.0;
    }
  }

  // ---------------------------------------------------------------------------
  // One tick of the integrator
  // ---------------------------------------------------------------------------

  /** The satellite's kinematic state. */
  datatype Kinematics = Kinematics(position: Vec3, velocity: Vec3)

  function NetForce(k: Kinematics, sqrt: real -> real): Vec3
    requires IsSqrt(sqrt)
    requires k.position != Zero
  {
    Add(Gravity(k.position, sqrt), Drag(k.velocity, sqrt))
  }

  function Acceleration(k: Kinematics, sqrt: real -> real): Vec3
    requires IsSqrt(sqrt)
    requires k.position != Zero
  {
    Scale(NetForce(k, sqrt), 1.0 / SatelliteMass)
  }

  /** The semi-implicit Euler step of `update`: both forces are evaluated
      at the current state, the velocity is kicked by the acceleration, and
      the position then drifts with the NEW velocity. */
  function EulerStep(k: Kinematics, dt: real, sqrt: real -> real): Kinematics
    requires IsSqrt(sqrt)
    requires k.position != Zero
  {
    var acceleration := Acceleration(k, sqrt);
    var velocity := Add(k.velocity, Scale(acceleration, dt));
    var position := Add(k.position, Scale(velocity, dt));
    Kinematics(position, velocity)
  }

  /** Newton's second law over one step (`m * dv == F * dt`), and the drift
      with the kicked velocity, which adds the `a * dt^2` term an explicit
      Euler step would not have. */
  lemma EulerStepKinematics(k: Kinematics, dt: real, sqrt: real -> real)
    requires IsSqrt(sqrt)
    requires k.position != Zero
    ensures var next := EulerStep(k, dt, sqrt);
      && Scale(Sub(next.velocity, k.velocity), SatelliteMass) == Scale(NetForce(k, sqrt), dt)
      && Sub(next.position, k.position) == Scale(next.velocity, dt)
      && next.position
         == Add(Add(k.position, Scale(k.velocity, dt)), Scale(Acceleration(k, sqrt), dt * dt))
  {
    KickDriftFacts(k, NetForce(k, sqrt), dt);
  }

  /** The kinematic identities of one kick-drift step under a force `f`. */
  lemma KickDriftFacts(k: Kinematics, f: Vec3, dt: real)
    ensures var a := Scale(f, 1.0 / SatelliteMass);
      var velocity := Add(k.velocity, Scale(a, dt));
      var position := Add(k.position, Scale(velocity, dt));
      && Scale(Sub(velocity, k.velocity), SatelliteMass) == Scale(f, dt)
      && Sub(position, k.position) == Scale(velocity, dt)
      && position == Add(Add(k.position, Scale(k.velocity, dt)), Scale(a, dt * dt))
  {
    KickDrift(k.position, k.velocity, Scale(f, 1.0 / SatelliteMass), dt);
  }

  // ---------------------------------------------------------------------------
  // Orbit classification
  // ---------------------------------------------------------------------------

  datatype OrbitType = Elliptical | Parabolic | Hyperbolic

  /** Specific orbital energy `v^2 / 2 - mu / r`. */
  function SpecificEnergy(speed: real, r: real): real
    requires 0.0 < r
  {
    0.5 * speed * speed - Mu / r
  }

  /** The classification rule of `update`, checked in priority order: an
      energy within the band around zero is parabolic; beyond it, positive
      energy is hyperbolic and negative energy elliptical. Exactly one class
      results, and each is an interval of energies. */
  function Classify(energy: real): (t: OrbitType)
    ensures t == Parabolic <==> -ParabolicBand < energy < ParabolicBand
    ensures t == Hyperbolic <==> ParabolicBand <= energy
    ensures t == Elliptical <==> energy <= -ParabolicBand
  {
    if Abs(energy) < ParabolicBand then Parabolic
    else if energy > 0.0 then Hyperbolic
    else Elliptical
  }

  /** The orbit type `update` reports for a state. At the centre, `mu / r` is
      +Infinity in IEEE arithmetic, the energy -Infinity, and the rule falls
      through to elliptical; the model spells that case out. */
  function OrbitTypeOf(position: Vec3, velocity: Vec3, sqrt: real -> real): OrbitType
    requires IsSqrt(sqrt)
  {
    var r := Length(position, sqrt);
    var v := Length(velocity, sqrt);
    if r == 0.0 then Elliptical else Classify(SpecificEnergy(v, r))
  }

  /** Classes are ordered by energy: more energy never gives a more bound
      class. */
  function Rank(t: OrbitType): nat
  {
    match t
    case Elliptical => 0
    case Parabolic => 1
    case Hyperbolic => 2
  }

  lemma ClassifyMonotone(e1: real, e2: real)
    requires e1 <= e2
    ensures Rank(Classify(e1)) <= Rank(Classify(e2))
  {
  }

  // ---------------------------------------------------------------------------
  // Characteristic speeds
  // ---------------------------------------------------------------------------

  /** If two non-negative speeds at the same radius are ordered by energy,
      they are ordered the same way. */
  lemma SpeedOrderFromEnergy(v: real, w: real, r: real)
    requires 0.0 <= v && 0.0 <= w && 0.0 < r
    ensures SpecificEnergy(v, r) < SpecificEnergy(w, r) <==> v < w
  {
    SquareMonotone(v, w);
  }

  /** The speed of a circular orbit of radius `r`, `sqrt(mu / r)`, as the
      constructor and `circularize` compute it. */
  function CircularSpeed(r: real, sqrt: real -> real): (v: real)
    requires IsSqrt(sqrt)
    requires 0.0 < r
    ensures 0.0 < v
  {
    var x := Mu / r;
    assert 0.0 < x;
    var v := sqrt(x);
    assert v * v == x;
    RootPositive(v);
    v
  }

  /** An orbit with circular speed at radius `r` has energy `-mu / 2r`. */
  lemma CircularSpeedEnergy(r: real, sqrt: real -> real)
    requires IsSqrt(sqrt)
    requires 0.0 < r
    ensures SpecificEnergy(CircularSpeed(r, sqrt), r) == -Mu / (2.0 * r)
  {
    var x := Mu / r;
    var v := CircularSpeed(r, sqrt);
    assert v * v == x;
    assert Mu / (2.0 * r) == 0.5 * x;
  }

  /** The escape speed `sqrt(2 mu / r)` of `applyThrust`. */
  function EscapeSpeed(r: real, sqrt: real -> real): (v: real)
    requires IsSqrt(sqrt)
    requires 0.0 < r
    ensures 0.0 < v
  {
    var x := 2.0 * Mu / r;
    assert 0.0 < x;
    var v := sqrt(x);
    assert v * v == x;
    RootPositive(v);
    v
  }

  /** The escape speed is exactly the speed at which the specific energy
      reaches zero. */
  lemma EscapeSpeedEnergy(r: real, sqrt: real -> real)
    requires IsSqrt(sqrt)
    requires 0.0 < r
    ensures SpecificEnergy(EscapeSpeed(r, sqrt), r) == 0.0
  {
    var x := 2.0 * Mu / r;
    var v := EscapeSpeed(r, sqrt);
    assert v * v == x;
    assert Mu / r == 0.5 * x;
  }

  /** The first burn of a Hohmann transfer from radius `r1` to radius `r2`:
      the vis-viva speed `sqrt(mu (2 / r1 - 1 / a))` at `r1` on the ellipse
      with semi-major axis `a = (r1 + r2) / 2`. */
  function TransferSpeed(r1: real, r2: real, sqrt: real -> real): (v: real)
    requires IsSqrt(sqrt)
    requires 0.0 < r1 && 0.0 < r2
    ensures 0.0 < v
  {
    var a := 0.5 * (r1 + r2);
    var x := Mu * (2.0 / r1 - 1.0 / a);
    assert 1.0 / a == 2.0 / (r1 + r2);
    assert 2.0 / r1 - 2.0 / (r1 + r2) == 2.0 * r2 / (r1 * (r1 + r2)) by {
      MulPositive(r1, r1 + r2);
    }
    MulPositive(r1, r1 + r2);
    assert 0.0 < 2.0 * r2 / (r1 * (r1 + r2));
    assert 0.0 < x;
    var v := sqrt(x);
    assert v * v == x;
    RootPositive(v);
    v
  }

  /** The transfer orbit's energy is `-mu / 2a`: this is how vis-viva ties
      the speed at `r1` to the size of the ellipse. */
  lemma TransferSpeedEnergy(r1: real, r2: real, sqrt: real -> real)
    requires IsSqrt(sqrt)
    requires 0.0 < r1 && 0.0 < r2
    ensures SpecificEnergy(TransferSpeed(r1, r2, sqrt), r1) == -Mu / (r1 + r2)
  {
    var a := 0.5 * (r1 + r2);
    var x := Mu * (2.0 / r1 - 1.0 / a);
    var v := TransferSpeed(r1, r2, sqrt);
    assert v * v == x;
    assert 1.0 / a == 2.0 / (r1 + r2);
  }

  /** A "transfer" to the radius the satellite is already at is the circular
      orbit there. */
  lemma TransferToSameRadiusIsCircular(r: real, sqrt: real -> real)
    requires IsSqrt(sqrt)
    requires 0.0 < r
    ensures TransferSpeed(r, r, sqrt) == CircularSpeed(r, sqrt)
  {
    assert Mu * (2.0 / r - 1.0 / (0.5 * (r + r))) == Mu / r;
  }

  /** Raising the orbit is a prograde burn above circular speed, and every
      transfer orbit stays below escape speed. */
  lemma TransferSpeedBounds(r1: real, r2: real, sqrt: real -> real)
    requires IsSqrt(sqrt)
    requires 0.0 < r1 && 0.0 < r2
    ensures r1 < r2 ==> CircularSpeed(r1, sqrt) < TransferSpeed(r1, r2, sqrt)
    ensures r2 < r1 ==> TransferSpeed(r1, r2, sqrt) < CircularSpeed(r1, sqrt)
    ensures TransferSpeed(r1, r2, sqrt) < EscapeSpeed(r1, sqrt)
  {
    var c := CircularSpeed(r1, sqrt);
    var t := TransferSpeed(r1, r2, sqrt);
    var e := EscapeSpeed(r1, sqrt);
    CircularSpeedEnergy(r1, sqrt);
    TransferSpeedEnergy(r1, r2, sqrt);
    EscapeSpeedEnergy(r1, sqrt);
    SpeedOrderFromEnergy(c, t, r1);
    SpeedOrderFromEnergy(t, c, r1);
    SpeedOrderFromEnergy(t, e, r1);
    if r1 < r2 {
      assert Mu / (r1 + r2) < Mu / (2.0 * r1);
    }
    if r2 < r1 {
      assert Mu / (2.0 * r1) < Mu / (r1 + r2);
    }
    assert 0.0 < Mu / (r1 + r2);
  }

  /** A circular orbit below `mu / 2000` metres (about 2e11 m) is classified
      elliptical: its energy `-mu / 2r` is below the parabolic band. */
  lemma CircularOrbitIsElliptical(r: real, sqrt: real -> real)
    requires IsSqrt(sqrt)
    requires 0.0 < r <= Mu / (2.0 * ParabolicBand)
    ensures Classify(SpecificEnergy(CircularSpeed(r, sqrt), r)) == Elliptical
  {
    CircularSpeedEnergy(r, sqrt);
    assert 2.0 * ParabolicBand * r <= Mu;
    assert ParabolicBand <= Mu / (2.0 * r);
  }

  // ---------------------------------------------------------------------------
  // The initial orbit
  // ---------------------------------------------------------------------------

  /** The constructor's velocity: circular speed for the spawn radius, along
      the horizontal tangent `normalize(r x up)`. */
  function InitialVelocity(position: Vec3, sqrt: real -> real): Vec3
    requires IsSqrt(sqrt)
    requires position != Zero
  {
    LengthPositive(position, sqrt);
    var speed := CircularSpeed(Length(position, sqrt), sqrt);
    var tangent := Normalize(Cross(position, Up), sqrt);
    Scale(tangent, speed)
  }

  /** Away from the polar axis the initial velocity is horizontal,
      perpendicular to the radius, and of circular speed: the satellite starts
      on a circular orbit. */
  lemma InitialOrbitIsCircular(position: Vec3, sqrt: real -> real)
    requires IsSqrt(sqrt)
    requires position != Zero
    requires position.x != 0.0 || position.z != 0.0
    ensures 0.0 < Length(position, sqrt)
    ensures var v := InitialVelocity(position, sqrt);
      && v.y == 0.0
      && Dot(v, position) == 0.0
      && Length(v, sqrt) == CircularSpeed(Length(position, sqrt), sqrt)
  {
    LengthPositive(position, sqrt);
    var speed := CircularSpeed(Length(position, sqrt), sqrt);
    var t := Cross(position, Up);
    assert t == Vec3(-position.z, 0.0, position.x);
    assert t != Zero;
    NormalizeUnit(t, sqrt);
    var k := 1.0 / Length(t, sqrt);
    ScaleScale(t, k, speed);
    assert InitialVelocity(position, sqrt) == Scale(t, k * speed);
    CrossPerpendicular(position, Up);
    DotScale(t, position, k * speed);
    ScaledUnit(Normalize(t, sqrt), t, speed, sqrt);
  }

  /** On the polar axis the tangent `r x up` vanishes and the satellite
      starts at rest. */
  lemma InitialVelocityOnAxis(position: Vec3, sqrt: real -> real)
    requires IsSqrt(sqrt)
    requires position != Zero
    requires position.x == 0.0 && position.z == 0.0
    ensures InitialVelocity(position, sqrt) == Zero
  {
    LengthPositive(position, sqrt);
    var speed := CircularSpeed(Length(position, sqrt), sqrt);
    assert Cross(position, Up) == Zero;
    NormalizeZero(sqrt);
    ZeroScaled(Normalize(Cross(position, Up), sqrt), speed);
  }

  // ---------------------------------------------------------------------------
  // Impulsive burns
  // ---------------------------------------------------------------------------

  /** The velocity after `applyThrust(deltaV)`: `deltaV` added along the
      current direction of motion. */
  function Thrusted(velocity: Vec3, deltaV: real, sqrt: real -> real): Vec3
    requires IsSqrt(sqrt)
  {
    Add(velocity, Scale(Normalize(velocity, sqrt), deltaV))
  }

  /** A burn of zero does nothing. */
  lemma ThrustNothing(velocity: Vec3, sqrt: real -> real)
    requires IsSqrt(sqrt)
    ensures Thrusted(velocity, 0.0, sqrt) == velocity
  {
  }

  /** A satellite at rest has no direction of motion, and `applyThrust`
      leaves it at rest whatever `deltaV` is. */
  lemma ThrustAtRest(deltaV: real, sqrt: real -> real)
    requires IsSqrt(sqrt)
    ensures Thrusted(Zero, deltaV, sqrt) == Zero
  {
    NormalizeZero(sqrt);
    ZeroScaled(Normalize(Zero, sqrt), deltaV);
  }

  /** For a moving satellite a burn rescales the velocity by the ratio of
      the new speed to the old. */
  lemma ThrustRescales(velocity: Vec3, deltaV: real, sqrt: real -> real)
    requires IsSqrt(sqrt)
    requires velocity != Zero
    ensures 0.0 < Length(velocity, sqrt)
    ensures Thrusted(velocity, deltaV, sqrt)
         == Scale(velocity, (Length(velocity, sqrt) + deltaV) / Length(velocity, sqrt))
  {
    LengthPositive(velocity, sqrt);
    var l := Length(velocity, sqrt);
    NormalizeDivides(velocity, sqrt);
    Rescale(velocity, Normalize(velocity, sqrt), l, deltaV);
  }

  lemma Rescale(v: Vec3, n: Vec3, l: real, d: real)
    requires 0.0 < l
    requires n == Scale(v, 1.0 / l)
    ensures Add(v, Scale(n, d)) == Scale(v, (l + d) / l)
  {
    RescaleComponent(v.x, l, d);
    RescaleComponent(v.y, l, d);
    RescaleComponent(v.z, l, d);
  }

  lemma RescaleComponent(a: real, l: real, d: real)
    requires 0.0 < l
    ensures a + a * (1.0 / l) * d == a * ((l + d) / l)
  {
    RatioIdentity(l, d);
  }

  lemma RatioIdentity(l: real, d: real)
    requires 0.0 < l
    ensures 1.0 + 1.0 / l * d == (l + d) / l
  {
  }

  lemma AbsRatio(l: real, a: real)
    requires 0.0 < l
    ensures Abs(a / l) * l == Abs(a)
    ensures 0.0 < a ==> 0.0 < a / l
  {
    var c := a / l;
    assert c * l == a;
    if 0.0 <= c {
      MulNonNegative(c, l);
    } else {
      MulPositive(-c, l);
    }
  }

  /** A burn on a moving satellite changes the speed by exactly `deltaV` (a
      retrograde burn larger than the speed reverses the motion, so the new
      speed is the absolute value), and keeps the direction while the new
      speed is positive. */
  lemma ThrustAlongVelocity(velocity: Vec3, deltaV: real, sqrt: real -> real)
    requires IsSqrt(sqrt)
    requires velocity != Zero
    ensures Length(Thrusted(velocity, deltaV, sqrt), sqrt) == Abs(Length(velocity, sqrt) + deltaV)
    ensures 0.0 < Length(velocity, sqrt) + deltaV ==>
      Normalize(Thrusted(velocity, deltaV, sqrt), sqrt) == Normalize(velocity, sqrt)
  {
    ThrustRescales(velocity, deltaV, sqrt);
    var l := Length(velocity, sqrt);
    var c := (l + deltaV) / l;
    LengthScale(velocity, c, sqrt);
    AbsRatio(l, l + deltaV);
    if 0.0 < l + deltaV {
      NormalizeScale(velocity, c, sqrt);
    }
  }

  /** The burns of `performOrbitalTransfer` and `circularize` thrust by
      `target - |v|`: for a moving satellite that sets the speed to `target`
      and keeps the direction. */
  lemma ThrustToSpeed(velocity: Vec3, target: real, sqrt: real -> real)
    requires IsSqrt(sqrt)
    requires 0.0 < target
    requires velocity != Zero
    ensures var w := Thrusted(velocity, target - Length(velocity, sqrt), sqrt);
      Length(w, sqrt) == target && Normalize(w, sqrt) == Normalize(velocity, sqrt)
  {
    ThrustAlongVelocity(velocity, target - Length(velocity, sqrt), sqrt);
  }

  /** The condition under which `applyThrust` warns about escape. At the
      centre `2 mu / r` is +Infinity and the comparison is false. */
  predicate AtEscapeSpeed(position: Vec3, velocity: Vec3, sqrt: real -> real)
    requires IsSqrt(sqrt)
  {
    var r := Length(position, sqrt);
    r != 0.0 && Length(velocity, sqrt) >= EscapeSpeed(r, sqrt)
  }

  /** The arrival test of `update`: the radius is within `ArrivalTolerance`
      of the transfer target. */
  predicate Arrived(position: Vec3, target: real, sqrt: real -> real)
    requires IsSqrt(sqrt)
  {
    Abs(Length(position, sqrt) - target) < ArrivalTolerance
  }

  /** The escape warning fires exactly when the orbit is unbound (energy at
      least zero); so a warned-about orbit is never classified elliptical. */
  lemma EscapeWarningMeansUnbound(position: Vec3, velocity: Vec3, sqrt: real -> real)
    requires IsSqrt(sqrt)
    ensures AtEscapeSpeed(position, velocity, sqrt) <==>
      0.0 < Length(position, sqrt) && 0.0 <= SpecificEnergy(Length(velocity, sqrt), Length(position, sqrt))
    ensures AtEscapeSpeed(position, velocity, sqrt) ==>
      OrbitTypeOf(position, velocity, sqrt) != Elliptical
  {
    var r := Length(position, sqrt);
    if r != 0.0 {
      var v := Length(velocity, sqrt);
      EscapeSpeedEnergy(r, sqrt);
      SpeedOrderFromEnergy(v, EscapeSpeed(r, sqrt), r);
    }
  }

  /** The first transfer burn of a moving satellite reaches the transfer
      speed and never triggers the escape warning. */
  lemma TransferBurn(position: Vec3, velocity: Vec3, r2: real, sqrt: real -> real)
    requires IsSqrt(sqrt)
    requires position != Zero && velocity != Zero && 0.0 < r2
    ensures 0.0 < Length(position, sqrt)
    ensures var target := TransferSpeed(Length(position, sqrt), r2, sqrt);
      var w := Thrusted(velocity, target - Length(velocity, sqrt), sqrt);
      Length(w, sqrt) == target && !AtEscapeSpeed(position, w, sqrt)
  {
    LengthPositive(position, sqrt);
    var r1 := Length(position, sqrt);
    TransferSpeedBounds(r1, r2, sqrt);
    ThrustToSpeed(velocity, TransferSpeed(r1, r2, sqrt), sqrt);
  }

  /** A satellite at rest stays at rest, so it never triggers the warning. */
  lemma AtRestNeverWarns(position: Vec3, deltaV: real, sqrt: real -> real)
    requires IsSqrt(sqrt)
    ensures !AtEscapeSpeed(position, Thrusted(Zero, deltaV, sqrt), sqrt)
  {
    ThrustAtRest(deltaV, sqrt);
    LengthZero(sqrt);
  }
}
