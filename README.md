# Satellite-Movement physics engine in Dafny

This project models `PhysicsEngine`, the simulation core of the
Satellite-Movement visualiser. It follows a single satellite around the
Earth. Each `update(dt)`:

- evaluates gravity and quadratic air drag;
- advances the satellite by one semi-implicit Euler step;
- classifies the orbit by its specific energy as Elliptical, Parabolic or
  Hyperbolic;
- appends the position to a trail capped at 2000 points;
- fires the second burn of a pending Hohmann transfer once the radius is
  within 1000 m of the target.

Three manoeuvres change the velocity:

- `applyThrust` is a burn along the direction of motion. It warns when the
  satellite reaches escape speed.
- `performOrbitalTransfer` is the first transfer burn, to the vis-viva
  transfer speed. It arms the deferred circularization.
- `circularize` is the second burn, to the circular speed of the target
  radius.

The project has four modules:

- `Vectors` (vectors.dfy): three-dimensional vectors over the reals, the
  `normalize` rule of three.js, and the square root. The square root is a
  parameter `sqrt` constrained by `IsSqrt`: it is non-negative and squares
  back to its argument.
- `OrbitalMechanics` (orbital_mechanics.dfy): the engine's constants and
  its pure computations. These are the forces, the Euler step, specific
  energy and classification, the circular, escape and transfer speeds, the
  velocity after a burn, and the lemmas relating them.
- `Trail` (trail.dfy): the first-in first-out trail `pathPoints`.
- `Simulator` (engine.dfy): the `PhysicsEngine` class.
  - Its fields are the satellite's position and velocity, the trail, the
    pending flag and the transfer target `r2`.
  - Each method updates these fields in place. It is specified against the
    functions of `OrbitalMechanics` and `Trail`.
  - The class invariant `Valid` says four things:
    - `sqrt` is a square root (`IsSqrt`);
    - the trail is always the newest `min(n, 2000)` of the `n` positions
      recorded so far;
    - a pending circularization always has a target;
    - the target is never below the surface.

The Earth sits at the origin.

Three details of the code are easy to misread; the model follows the code:

- `circularize` aims at the speed of a circular orbit of the *target* radius
  `this.r2` (src/Physics/PhysicsEngine.js:126). It does not use the current
  radius.
- Neither `circularize` nor anything else in the engine clears the trail.
- An energy of exactly +1000 J/kg is classified Hyperbolic. The test
  `Math.abs(energy) < 1e3` fails at 1000, and then `energy > 0` holds
  (src/Physics/PhysicsEngine.js:67-68).

## Model

| member | source | states |
|---|---|---|
| Simulator.PhysicsEngine.constructor | src/Physics/PhysicsEngine.js:19-32 | The satellite starts at its spawn point with the circular-orbit velocity `InitialVelocity`, an empty trail, no pending circularization and no target radius; the class invariant holds. |
| Simulator.PhysicsEngine.ApplyThrust | src/Physics/PhysicsEngine.js:89-101 | The new velocity is the old one plus `deltaV` along its normalized direction; the warning flag is true exactly when the new speed is at least the escape speed of the current radius; nothing else changes. |
| Simulator.PhysicsEngine.PerformOrbitalTransfer | src/Physics/PhysicsEngine.js:103-122 | A target below the surface (negative altitude) is rejected and nothing changes. Otherwise the velocity is thrust by the vis-viva transfer speed minus the current speed, the circularization is armed and `r2` is the target radius. |
| Simulator.PhysicsEngine.Circularize | src/Physics/PhysicsEngine.js:124-131 | The velocity is thrust by the circular speed of the target radius `r2` minus the current speed, keeping the invariant. |
| Simulator.PhysicsEngine.Integrate | src/Physics/PhysicsEngine.js:52-68 | The new position and velocity are exactly one `EulerStep` of the old state under gravity plus drag, and the reported orbit type is the classification of the new state. |
| Simulator.PhysicsEngine.RecordPosition | src/Physics/PhysicsEngine.js:77-78 | The trail becomes `Trail.Push` of the old trail and the current position, the position is added to the recorded history, and the trail remains the window over that history. |
| Simulator.PhysicsEngine.CheckArrival | src/Physics/PhysicsEngine.js:83-86 | If a circularization is pending and the radius is within 1000 m of the target, the second burn is applied and the flag cleared; otherwise velocity and flag are unchanged. |
| Simulator.PhysicsEngine.Update | src/Physics/PhysicsEngine.js:51-87 | One tick: the position is the Euler step of the old state, the returned type classifies the stepped state, the stepped position is pushed onto the trail (window invariant kept), the target is unchanged, and the second burn fires exactly when a transfer is pending and the new radius is within 1000 m of the target. |
| OrbitalMechanics.GravityTowardsCentre | src/Physics/PhysicsEngine.js:38-43 | Gravity lies on the line through the Earth's centre, points towards it (negative dot product with the position) and its magnitude times r² is `G * M * m`: the inverse-square law. |
| OrbitalMechanics.TowardsCentre | src/Physics/PhysicsEngine.js:42 | A positive multiple of a unit vector aimed at the centre is parallel to the position, points inwards and has that multiple as its length. |
| OrbitalMechanics.ScaledUnit | src/Physics/PhysicsEngine.js:42 | Scaling a unit vector parallel to `v` stays parallel, scales the dot product and has the absolute factor as its length. |
| OrbitalMechanics.DragAtRest | src/Physics/PhysicsEngine.js:45-49 | A satellite at rest feels no drag, since normalizing the zero vector leaves it zero. |
| OrbitalMechanics.DragOpposesMotion | src/Physics/PhysicsEngine.js:45-49 | For a moving satellite drag is parallel to the velocity, points against it and has magnitude `rho v² Cd A / 2`. |
| OrbitalMechanics.AgainstMotion | src/Physics/PhysicsEngine.js:48 | A negative multiple of a unit vector along `v` is parallel to `v`, opposes it and has the absolute factor as its length. |
| OrbitalMechanics.EulerStepKinematics | src/Physics/PhysicsEngine.js:54-58 | One step satisfies `m * (v' - v) == F * dt` (with F the net force of the old state), `x' - x == v' * dt` (semi-implicit: the drift uses the new velocity), and `x' == x + v dt + a dt²`. |
| OrbitalMechanics.KickDriftFacts | src/Physics/PhysicsEngine.js:56-58 | The same kick-then-drift identities for an arbitrary force. |
| OrbitalMechanics.Classify | src/Physics/PhysicsEngine.js:65-68 | Parabolic exactly when `abs(energy) < 1000`, Hyperbolic exactly when `energy >= 1000`, Elliptical exactly when `energy <= -1000` (each an if-and-only-if). |
| OrbitalMechanics.ClassifyMonotone | src/Physics/PhysicsEngine.js:65-68 | More energy never gives a more bound class (Elliptical < Parabolic < Hyperbolic). |
| OrbitalMechanics.SpeedOrderFromEnergy | src/Physics/PhysicsEngine.js:65 | At a fixed radius the specific energy orders non-negative speeds: lower energy exactly when lower speed. |
| OrbitalMechanics.CircularSpeed | src/Physics/PhysicsEngine.js:23 | The circular speed `sqrt(mu / r)` is positive. |
| OrbitalMechanics.CircularSpeedEnergy | src/Physics/PhysicsEngine.js:126 | An orbit at circular speed has specific energy `-mu / 2r`. |
| OrbitalMechanics.EscapeSpeed | src/Physics/PhysicsEngine.js:97 | The escape speed `sqrt(2 mu / r)` is positive. |
| OrbitalMechanics.EscapeSpeedEnergy | src/Physics/PhysicsEngine.js:97 | At escape speed the specific energy is exactly zero. |
| OrbitalMechanics.TransferSpeed | src/Physics/PhysicsEngine.js:113-114 | The vis-viva transfer speed is positive. |
| OrbitalMechanics.TransferSpeedEnergy | src/Physics/PhysicsEngine.js:113-114 | The transfer orbit's energy at r1 is `-mu / (r1 + r2)`, i.e. `-mu / 2a` with semi-major axis `a = (r1 + r2) / 2`. |
| OrbitalMechanics.TransferToSameRadiusIsCircular | src/Physics/PhysicsEngine.js:113-114 | A transfer to the current radius is the circular speed. |
| OrbitalMechanics.TransferSpeedBounds | src/Physics/PhysicsEngine.js:113-117 | Raising the orbit needs more than circular speed, lowering it less, and every transfer speed is below escape speed. |
| OrbitalMechanics.CircularOrbitIsElliptical | src/Physics/PhysicsEngine.js:65-68 | A circular orbit of radius at most `mu / 2000` is classified Elliptical. |
| OrbitalMechanics.InitialOrbitIsCircular | src/Physics/PhysicsEngine.js:21-25 | Away from the polar axis the initial velocity is horizontal (zero y component), perpendicular to the radius, and has exactly the circular speed of the spawn radius. |
| OrbitalMechanics.InitialVelocityOnAxis | src/Physics/PhysicsEngine.js:24-25 | On the polar axis `r x up` vanishes and the initial velocity is zero. |
| OrbitalMechanics.ThrustNothing | src/Physics/PhysicsEngine.js:89-91 | A burn of zero leaves the velocity unchanged. |
| OrbitalMechanics.ThrustAtRest | src/Physics/PhysicsEngine.js:89-91 | A satellite at rest stays at rest whatever the burn. |
| OrbitalMechanics.ThrustRescales | src/Physics/PhysicsEngine.js:89-91 | For a moving satellite a burn scales the velocity by `(speed + deltaV) / speed`. |
| OrbitalMechanics.Rescale | src/Physics/PhysicsEngine.js:91 | Adding `d` times `v / l` to `v` is `v` scaled by `(l + d) / l`. |
| OrbitalMechanics.ThrustAlongVelocity | src/Physics/PhysicsEngine.js:89-91 | A burn on a moving satellite changes the speed to `abs(speed + deltaV)` and keeps the direction whenever `speed + deltaV` is positive. |
| OrbitalMechanics.ThrustToSpeed | src/Physics/PhysicsEngine.js:116-117 | Thrusting by `target - speed` on a moving satellite gives exactly the positive target speed, in the same direction. |
| OrbitalMechanics.EscapeWarningMeansUnbound | src/Physics/PhysicsEngine.js:94-100 | The escape warning fires exactly when the radius is positive and the specific energy is non-negative; a warned-about orbit is never classified Elliptical. |
| OrbitalMechanics.TransferBurn | src/Physics/PhysicsEngine.js:113-117 | The first transfer burn of a moving satellite reaches exactly the transfer speed and never triggers the escape warning. |
| OrbitalMechanics.AtRestNeverWarns | src/Physics/PhysicsEngine.js:89-100 | A satellite at rest never triggers the escape warning, whatever the burn. |
| Trail.Push | src/Physics/PhysicsEngine.js:77-78 | Pushing grows the trail by one until 2000 points and then keeps the length; the new point is last and the kept points are the newest of the old trail, in order. |
| Trail.Window | src/Physics/PhysicsEngine.js:77-78 | The window over the recorded positions never holds more than 2000 points. |
| Trail.ReplayWindow | src/Physics/PhysicsEngine.js:77-78 | Pushing `n` points one by one onto an empty trail leaves exactly the newest `min(n, 2000)` of them, oldest first. |
| Trail.ReplaySnoc | src/Physics/PhysicsEngine.js:77-78 | Replaying one more point is one more push. |
| Trail.ReplayBounded | src/Physics/PhysicsEngine.js:77-78 | The replayed trail never holds more than 2000 points. |
| Trail.WindowSnoc | src/Physics/PhysicsEngine.js:77-78 | Pushing a point onto the window is the window of the history extended by that point: the invariant `update` keeps. |
| Vectors.NormalizeZero | src/Physics/PhysicsEngine.js:90 | Normalizing the zero vector gives the zero vector (three.js divides by `length() || 1`). |
| Vectors.NormalizeUnit | src/Physics/PhysicsEngine.js:42 | Any other vector normalizes to a vector of length one, parallel to it and pointing the same way. |
| Vectors.NormalizeScale | src/Physics/PhysicsEngine.js:90 | Scaling by a positive factor does not change the normalized direction. |
| Vectors.CrossPerpendicular | src/Physics/PhysicsEngine.js:24 | The cross product is perpendicular to both factors. |
| Vectors.Length | src/Physics/PhysicsEngine.js:22 | `length()` is non-negative and squares to `lengthSq()`. |
| Vectors.LengthScale | src/Physics/PhysicsEngine.js:25 | Scaling a vector scales its length by the absolute factor. |

## Left out

- Rendering is not modelled: the satellite mesh copy, the info box text, the trail geometry added to the scene, and the console logging and warnings. The escape warning of `applyThrust` is returned by `ApplyThrust` as a boolean. The orbit type shown in the info box is returned by `Update`.
- IEEE-754 double arithmetic is not modelled. The model computes over exact reals, and the constants are the decimal values the source writes. `Math.PI` is its 16-digit decimal value.
- `Math.sqrt` and `Vector3.length()` are an arbitrary exact square root passed as a parameter and constrained by `IsSqrt`, not a rounded one.
- The Earth is fixed at the origin. The source reads the Earth's position from the scene, and main.js and the model classes are not part of this model.
- `mass` is the constant `SatelliteMass` (500 kg): nothing in the engine changes it.
- At the exact centre of the Earth the source computes NaN or Infinity. A position at the centre is excluded by requires:
  - on the constructor;
  - on `Update`;
  - on accepted transfers.

  The two cases where the source's Infinity still gives a definite answer are modelled explicitly:
  - the orbit type there is Elliptical;
  - there is no escape warning.
- `performOrbitalTransfer` takes a number. An argument that is not a number (NaN or undefined) is not modelled.
- Simulator.PhysicsEngine.Circularize: called before any accepted transfer (`r2` null) the source divides by zero (src/Physics/PhysicsEngine.js:126); this is excluded by `requires r2.Some?`, which every call in the engine meets (the arrival check runs only while a transfer is pending, and `Valid` ties a pending transfer to a target).
- Simulator.PhysicsEngine.Circularize: its ensures states the new velocity as a `Thrusted` burn, not the reached speed. `OrbitalMechanics.ThrustToSpeed` proves that a moving satellite reaches exactly the circular speed of `r2`.
- Simulator.PhysicsEngine.PerformOrbitalTransfer: its ensures states the new velocity as a `Thrusted` burn. That the speed reached is the transfer speed, and that no escape warning fires, is proved separately by `OrbitalMechanics.TransferBurn`.
- OrbitalMechanics.DragOpposesMotion: the statement requires a moving satellite. The at-rest case is `DragAtRest`.
- OrbitalMechanics.ThrustAlongVelocity: the statement requires a moving satellite. The at-rest case is `ThrustAtRest`.
- OrbitalMechanics.TransferBurn: the statement requires a moving satellite. The at-rest case is `AtRestNeverWarns`.
- PhysicsEngine.js defines no crash detection, low-altitude warning or trail reset. main.js calls `changeOrbitType` and `createInclinedOrbit` (src/main.js:86-94, 108-116), but the engine does not define them, so nothing is modelled for them.
