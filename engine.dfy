/** The `PhysicsEngine` object: the satellite's state, advanced in place by
    `update` and changed by the manoeuvre methods. Rendering, the info box
    and console messages are not modelled; the escape warning of
    `applyThrust` is returned as a boolean instead of printed. */
module Simulator {
  import opened Vectors
  import opened OrbitalMechanics
  import Trail

  datatype Option<T> = None | Some(value: T)

  class PhysicsEngine {
    /** The host's square root, used wherever the source calls `Math.sqrt`
        or `length()`. */
    const sqrt: real -> real

    var position: Vec3
    var velocity: Vec3
    /** The rendered trail: the newest positions, oldest first. */
    var pathPoints: seq<Vec3>
    /** Every position `update` has pushed onto the trail. */
    ghost var history: seq<Vec3>
    var circularizationPending: bool
    /** The target radius of the last accepted transfer (`null` before). */
    var r2: Option<real>

    ghost predicate Valid()
      reads this
    {
      && IsSqrt(sqrt)
      && TrailValid()
      && (circularizationPending ==> r2.Some?)
      && (r2.Some? ==> EarthRadius <= r2.value)
    }

    /** The trail is the window `Trail.Push` leaves over every recorded
        position. */
    ghost predicate TrailValid()
      reads this`pathPoints, this`history
    {
      pathPoints == Trail.Window(history)
    }

    /** The constructor: the satellite starts at `spawn` on the circular orbit
        `InitialVelocity` describes, with an empty trail and no manoeuvre
        pending. (At the centre the source computes NaN; that spawn point is
        excluded.) */
    constructor (spawn: Vec3, sqrt: real -> real)
      requires IsSqrt(sqrt)
      requires spawn != Zero
      ensures Valid()
      ensures position == spawn && velocity == InitialVelocity(spawn, sqrt)
      ensures pathPoints == [] && history == []
      ensures !circularizationPending && r2 == None
    {
      this.sqrt := sqrt;
      position := spawn;
      LengthPositive(spawn, sqrt);
      var r := Length(spawn, sqrt);
      var speed := sqrt(G * EarthMass / r);
      var tangent := Normalize(Cross(spawn, Up), sqrt);
      velocity := Scale(tangent, speed);
      pathPoints := [];
      history := [];
      circularizationPending := false;
      r2 := None;
    }

    /** `applyThrust`: adds `deltaV` along the current direction of motion
        and reports whether the new speed reaches the escape speed for the
        current radius. */
    method ApplyThrust(deltaV: real) returns (escaping: bool)
      requires Valid()
      modifies this`velocity
      ensures Valid()
      ensures velocity == Thrusted(old(velocity), deltaV, sqrt)
      ensures escaping == AtEscapeSpeed(position, velocity, sqrt)
    {
      var direction := Normalize(velocity, sqrt);
      velocity := Add(velocity, Scale(direction, deltaV));
      var r := Length(position, sqrt);
      var v := Length(velocity, sqrt);
      if r == 0.0 {
        // `2 * mu / 0` is +Infinity, and no finite speed reaches it.
        escaping := false;
      } else {
        var escapeVelocity := EscapeSpeed(r, sqrt);
        escaping := v >= escapeVelocity;
      }
    }

    /** `performOrbitalTransfer`: rejects a target below the surface and
        changes nothing; otherwise performs the first Hohmann burn to the
        vis-viva transfer speed and arms the circularization at the target
        radius. */
    method PerformOrbitalTransfer(newAltitude: real) returns (accepted: bool)
      requires Valid()
      requires 0.0 <= newAltitude ==> position != Zero
      modifies this`velocity, this`circularizationPending, this`r2
      ensures Valid()
      ensures accepted <==> 0.0 <= newAltitude
      ensures !accepted ==>
        && velocity == old(velocity)
        && circularizationPending == old(circularizationPending)
        && r2 == old(r2)
      ensures accepted ==>
        && 0.0 < Length(position, sqrt)
        && velocity == Thrusted(old(velocity),
             TransferSpeed(Length(position, sqrt), EarthRadius + newAltitude, sqrt) - Length(old(velocity), sqrt),
             sqrt)
        && circularizationPending
        && r2 == Some(EarthRadius + newAltitude)
    {
      var r1 := Length(position, sqrt);
      var targetRadius := EarthRadius + newAltitude;
      if targetRadius < EarthRadius {
        return false;
      }
      LengthPositive(position, sqrt);
      var vTransfer := TransferSpeed(r1, targetRadius, sqrt);
      var vCurrent := Length(velocity, sqrt);
      var deltaV1 := vTransfer - vCurrent;
      ghost var before := velocity;
      assert deltaV1 == TransferSpeed(Length(position, sqrt), EarthRadius + newAltitude, sqrt) - Length(before, sqrt);
      var _ := ApplyThrust(deltaV1);
      circularizationPending := true;
      r2 := Some(targetRadius);
      accepted := true;
    }

    /** `circularize`: the second burn, to the circular speed of the target
        radius `r2` (not of the radius the satellite is at when it fires). */
    method Circularize()
      requires Valid()
      requires r2.Some?
      modifies this`velocity
      ensures Valid()
      ensures velocity
           == Thrusted(old(velocity), CircularSpeed(r2.value, sqrt) - Length(old(velocity), sqrt), sqrt)
    {
      var vCirc := CircularSpeed(r2.value, sqrt);
      var vCurrent := Length(velocity, sqrt);
      var deltaV2 := vCirc - vCurrent;
      var _ := ApplyThrust(deltaV2);
    }

    /** The trail step of `update`: push the current position, dropping the
        oldest point once the trail is over `Trail.MaxPoints`. */
    method RecordPosition()
      requires TrailValid()
      modifies this`pathPoints, this`history
      ensures TrailValid()
      ensures pathPoints == Trail.Push(old(pathPoints), position)
      ensures history == old(history) + [position]
    {
      Trail.WindowSnoc(history, position);
      pathPoints := pathPoints + [position];
      if |pathPoints| > Trail.MaxPoints {
        pathPoints := pathPoints[1..];
      }
      history := history + [position];
    }

    /** The integration step of `update`: gravity and drag at the current
        state, the velocity kicked first and the position drifted with the new
        velocity, then the orbit type of the new state. */
    method Integrate(dt: real) returns (orbit: OrbitType)
      requires IsSqrt(sqrt)
      requires position != Zero
      modifies this`position, this`velocity
      ensures Kinematics(position, velocity) == EulerStep(Kinematics(old(position), old(velocity)), dt, sqrt)
      ensures orbit == OrbitTypeOf(position, velocity, sqrt)
    {
      var fg := Gravity(position, sqrt);
      var fd := Drag(velocity, sqrt);
      var fnet := Add(fg, fd);
      var acc := Scale(fnet, 1.0 / SatelliteMass);
      velocity := Add(velocity, Scale(acc, dt));
      position := Add(position, Scale(velocity, dt));

      var r := Length(position, sqrt);
      var v := Length(velocity, sqrt);
      if r == 0.0 {
        // `mu / 0` is +Infinity: the energy is -Infinity.
        orbit := Elliptical;
      } else {
        var energy := SpecificEnergy(v, r);
        orbit := Elliptical;
        if Abs(energy) < ParabolicBand {
          orbit := Parabolic;
        } else if energy > 0.0 {
          orbit := Hyperbolic;
        }
      }
    }

    /** The arrival check of `update`: once a transfer is pending and the
        radius is within `ArrivalTolerance` of the target, fire the second
        burn and clear the flag. */
    method CheckArrival()
      requires Valid()
      modifies this`velocity, this`circularizationPending
      ensures Valid()
      ensures if old(circularizationPending) && Arrived(position, r2.value, sqrt)
        then
          && !circularizationPending
          && velocity == Thrusted(old(velocity),
               CircularSpeed(r2.value, sqrt) - Length(old(velocity), sqrt), sqrt)
        else
          && circularizationPending == old(circularizationPending)
          && velocity == old(velocity)
    {
      if circularizationPending && Arrived(position, r2.value, sqrt) {
        Circularize();
        circularizationPending := false;
      }
    }

    /** `update(dt)`: one semi-implicit Euler step under gravity and drag,
        the orbit classification of the new state, one point onto the trail,
        and the deferred circularization burn once the satellite is within
        `ArrivalTolerance` of the target radius. (At the centre the source
        divides by zero; that state is excluded.) */
    method Update(dt: real) returns (orbit: OrbitType)
      requires Valid()
      requires position != Zero
      modifies this`position, this`velocity, this`pathPoints, this`history, this`circularizationPending
      ensures Valid()
      ensures r2 == old(r2)
      ensures var next := EulerStep(Kinematics(old(position), old(velocity)), dt, sqrt);
        && position == next.position
        && orbit == OrbitTypeOf(next.position, next.velocity, sqrt)
        && history == old(history) + [next.position]
        && pathPoints == Trail.Push(old(pathPoints), next.position)
        && if old(circularizationPending) && Arrived(next.position, r2.value, sqrt)
           then
             && !circularizationPending
             && velocity == Thrusted(next.velocity,
                  CircularSpeed(r2.value, sqrt) - Length(next.velocity, sqrt), sqrt)
           else
             && circularizationPending == old(circularizationPending)
             && velocity == next.velocity
    {
      orbit := Integrate(dt);
      RecordPosition();
      CheckArrival();
    }
  }
}
