/** Three-dimensional vectors over the reals: the part of three.js `Vector3`
    that the physics engine uses (add, sub, multiplyScalar, divideScalar,
    cross, lengthSq, length, normalize). Vectors are values; the in-place
    mutation of three.js is modelled by reassigning fields of the engine. */
module Vectors {

  datatype Vec3 = Vec3(x: real, y: real, z: real)

  const Zero := Vec3(0.0, 0.0, 0.0)

  /** The axis `new THREE.Vector3(0, 1, 0)` the engine crosses with. */
  const Up := Vec3(0.0, 1.0, 0.0)

  function Abs(a: real): (r: real)
    ensures 0.0 <= r && (r == a || r == -a)
  {
    if a < 0.0 then -a else a
  }

  // ---------------------------------------------------------------------------
  // The host's square root
  // ---------------------------------------------------------------------------

  /** `sqrt` behaves as `Math.sqrt` does on the reals: for every non-negative
      argument it gives the non-negative number whose square is that argument.
      The engine never computes a square root itself; the host supplies one. */
  ghost predicate IsSqrt(sqrt: real -> real)
  {
    forall x :: 0.0 <= x ==> 0.0 <= sqrt(x) && sqrt(x) * sqrt(x) == x
  }

  /** The square root is determined by its square: any non-negative `a` with
      `a * a == x` is `sqrt(x)`. */
  lemma SqrtUnique(sqrt: real -> real, x: real, a: real)
    requires IsSqrt(sqrt)
    requires 0.0 <= a && a * a == x
    ensures sqrt(x) == a
  {
    var s := sqrt(x);
    assert 0.0 <= s && s * s == x;
    SquareMonotone(s, a);
    SquareMonotone(a, s);
  }

  /** A square is never negative, and positive away from zero. */
  lemma SquarePositive(a: real)
    ensures 0.0 <= a * a
    ensures a != 0.0 ==> 0.0 < a * a
  {
  }

  lemma MulPositive(a: real, b: real)
    requires 0.0 < a && 0.0 < b
    ensures 0.0 < a * b
  {
  }

  lemma MulNonNegative(a: real, b: real)
    requires 0.0 <= a && 0.0 <= b
    ensures 0.0 <= a * b
  {
    if a > 0.0 && b > 0.0 { MulPositive(a, b); }
  }

  lemma DivPositive(a: real, b: real)
    requires 0.0 < a && 0.0 < b
    ensures 0.0 < a / b
  {
  }

  /** For non-negative numbers, comparing squares is comparing the numbers. */
  lemma SquareMonotone(a: real, b: real)
    requires 0.0 <= a && 0.0 <= b
    ensures a < b <==> a * a < b * b
  {
    assert b * b - a * a == (b - a) * (b + a);
    if a < b {
      MulPositive(b - a, b + a);
    } else {
      MulNonNegative(a - b, b + a);
      assert a * a - b * b == (a - b) * (b + a);
    }
  }

  lemma SumOfSquaresPositive(a: real, b: real, c: real)
    requires a != 0.0 || b != 0.0 || c != 0.0
    ensures 0.0 < a * a + b * b + c * c
  {
    SquarePositive(a);
    SquarePositive(b);
    SquarePositive(c);
    if a != 0.0 {
    } else if b != 0.0 {
      assert 0.0 < b * b;
    } else {
      assert 0.0 < c * c;
    }
  }

  // ---------------------------------------------------------------------------
  // Vector arithmetic
  // ---------------------------------------------------------------------------

  function Add(a: Vec3, b: Vec3): Vec3
  {
    Vec3(a.x + b.x, a.y + b.y, a.z + b.z)
  }

  function Sub(a: Vec3, b: Vec3): Vec3
  {
    Vec3(a.x - b.x, a.y - b.y, a.z - b.z)
  }

  /** `multiplyScalar`; three.js `divideScalar(s)` is `Scale(v, 1.0 / s)`. */
  function Scale(a: Vec3, s: real): Vec3
  {
    Vec3(a.x * s, a.y * s, a.z * s)
  }

  function Dot(a: Vec3, b: Vec3): real
  {
    a.x * b.x + a.y * b.y + a.z * b.z
  }

  /** `crossVectors(a, b)`. */
  function Cross(a: Vec3, b: Vec3): Vec3
  {
    Vec3(a.y * b.z - a.z * b.y, a.z * b.x - a.x * b.z, a.x * b.y - a.y * b.x)
  }

  /** The cross product is perpendicular to both of its arguments. */
  lemma CrossPerpendicular(a: Vec3, b: Vec3)
    ensures Dot(Cross(a, b), a) == 0.0 && Dot(Cross(a, b), b) == 0.0
  {
  }

  /** `lengthSq`: never negative. */
  function LengthSq(v: Vec3): (s: real)
    ensures 0.0 <= s
  {
    SquarePositive(v.x);
    SquarePositive(v.y);
    SquarePositive(v.z);
    v.x * v.x + v.y * v.y + v.z * v.z
  }

  /** Only the zero vector has a zero squared length. */
  lemma LengthSqPositive(v: Vec3)
    requires v != Zero
    ensures 0.0 < LengthSq(v)
  {
    assert v.x != 0.0 || v.y != 0.0 || v.z != 0.0;
    calc {
      LengthSq(v);
      v.x * v.x + v.y * v.y + v.z * v.z;
    > { SumOfSquaresPositive(v.x, v.y, v.z); }
      0.0;
    }
  }

  /** `length`: the Euclidean norm, the non-negative root of `lengthSq`. */
  function Length(v: Vec3, sqrt: real -> real): (l: real)
    requires IsSqrt(sqrt)
    ensures 0.0 <= l && l * l == LengthSq(v)
  {
    sqrt(LengthSq(v))
  }

  lemma LengthZero(sqrt: real -> real)
    requires IsSqrt(sqrt)
    ensures Length(Zero, sqrt) == 0.0
  {
    SqrtUnique(sqrt, 0.0, 0.0);
  }

  /** The length is zero exactly for the zero vector. */
  lemma LengthPositive(v: Vec3, sqrt: real -> real)
    requires IsSqrt(sqrt)
    ensures v == Zero ==> Length(v, sqrt) == 0.0
    ensures v != Zero ==> 0.0 < Length(v, sqrt)
  {
    if v == Zero {
      SqrtUnique(sqrt, 0.0, 0.0);
    } else {
      LengthSqPositive(v);
    }
  }

  lemma LengthSqScale(v: Vec3, s: real)
    ensures LengthSq(Scale(v, s)) == s * s * LengthSq(v)
  {
  }

  /** Scaling a vector scales its length by the absolute value of the factor. */
  lemma LengthScale(v: Vec3, s: real, sqrt: real -> real)
    requires IsSqrt(sqrt)
    ensures Length(Scale(v, s), sqrt) == Abs(s) * Length(v, sqrt)
  {
    var l := Length(v, sqrt);
    var a := Abs(s);
    LengthSqScale(v, s);
    MulNonNegative(a, l);
    assert (a * l) * (a * l) == (a * a) * (l * l);
    assert a * a == s * s;
    SqrtUnique(sqrt, LengthSq(Scale(v, s)), a * l);
  }

  /** A multiple of `v` is parallel to `v` (zero cross product). */
  lemma ScaleParallel(v: Vec3, s: real)
    ensures Cross(Scale(v, s), v) == Zero
    ensures Dot(Scale(v, s), v) == s * LengthSq(v)
  {
    var c := Cross(Scale(v, s), v);
    assert c.x == 0.0 by { SwapFactors(v.y, v.z, s); }
    assert c.y == 0.0 by { SwapFactors(v.z, v.x, s); }
    assert c.z == 0.0 by { SwapFactors(v.x, v.y, s); }
  }

  lemma SwapFactors(p: real, q: real, s: real)
    ensures (p * s) * q - (q * s) * p == 0.0
  {
  }

  lemma CrossScale(a: Vec3, b: Vec3, s: real)
    ensures Cross(Scale(a, s), b) == Scale(Cross(a, b), s)
  {
    var lhs := Cross(Scale(a, s), b);
    var rhs := Scale(Cross(a, b), s);
    assert lhs.x == rhs.x by { ScaledDifference(a.y, b.z, a.z, b.y, s); }
    assert lhs.y == rhs.y by { ScaledDifference(a.z, b.x, a.x, b.z, s); }
    assert lhs.z == rhs.z by { ScaledDifference(a.x, b.y, a.y, b.x, s); }
  }

  lemma ScaledDifference(p: real, q: real, r: real, t: real, s: real)
    ensures (p * s) * q - (r * s) * t == (p * q - r * t) * s
  {
  }

  lemma DotScale(a: Vec3, b: Vec3, s: real)
    ensures Dot(Scale(a, s), b) == s * Dot(a, b)
  {
  }

  lemma ZeroScaled(a: Vec3, s: real)
    requires a == Zero
    ensures Scale(a, s) == Zero
  {
  }

  /** Crossing or dotting with the reversed vector flips the sign. */
  lemma NegateRight(a: Vec3, b: Vec3)
    ensures Cross(a, Sub(Zero, b)) == Scale(Cross(a, b), -1.0)
    ensures Dot(a, Sub(Zero, b)) == -Dot(a, b)
  {
  }

  lemma LengthSqNegate(a: Vec3)
    ensures LengthSq(Sub(Zero, a)) == LengthSq(a)
  {
  }

  /** Drifting with a kicked velocity: `p + (v + a t) t == p + v t + a t^2`. */
  lemma KickDrift(p: Vec3, v: Vec3, a: Vec3, t: real)
    ensures Add(p, Scale(Add(v, Scale(a, t)), t)) == Add(Add(p, Scale(v, t)), Scale(a, t * t))
  {
  }

  /** A non-negative number whose square is positive is positive. */
  lemma RootPositive(a: real)
    requires 0.0 <= a && 0.0 < a * a
    ensures 0.0 < a
  {
  }

  lemma ScaleScale(v: Vec3, s: real, t: real)
    ensures Scale(Scale(v, s), t) == Scale(v, s * t)
  {
  }

  /** `normalize`: three.js divides by `length() || 1`, so the zero vector is
      left as it is instead of becoming NaN (this rule of three.js is taken as
      given; the library itself is not part of this model). */
  function Normalize(v: Vec3, sqrt: real -> real): Vec3
    requires IsSqrt(sqrt)
  {
    var l := Length(v, sqrt);
    Scale(v, 1.0 / (if l == 0.0 then 1.0 else l))
  }

  lemma NormalizeZero(sqrt: real -> real)
    requires IsSqrt(sqrt)
    ensures Normalize(Zero, sqrt) == Zero
  {
    LengthPositive(Zero, sqrt);
  }

  /** Any other vector becomes the unit vector pointing the same way: a
      positive multiple of `v` whose squared length is 1. */
  lemma NormalizeUnit(v: Vec3, sqrt: real -> real)
    requires IsSqrt(sqrt)
    requires v != Zero
    ensures 0.0 < Length(v, sqrt)
    ensures Normalize(v, sqrt) == Scale(v, 1.0 / Length(v, sqrt))
    ensures var u := Normalize(v, sqrt);
      LengthSq(u) == 1.0 && Cross(u, v) == Zero && 0.0 < Dot(u, v)
  {
    var l := Length(v, sqrt);
    LengthPositive(v, sqrt);
    var k := 1.0 / l;
    assert 0.0 < k && k * l == 1.0;
    var u := Scale(v, k);
    LengthSqScale(v, k);
    assert LengthSq(u) == (k * l) * (k * l);
    ScaleParallel(v, k);
    LengthSqPositive(v);
    MulPositive(k, LengthSq(v));
  }

  /** Scaling by a positive factor does not change the direction. */
  lemma NormalizeScale(v: Vec3, k: real, sqrt: real -> real)
    requires IsSqrt(sqrt)
    requires 0.0 < k
    ensures Normalize(Scale(v, k), sqrt) == Normalize(v, sqrt)
  {
    if v == Zero {
      ZeroScaled(v, k);
    } else {
      NormalizeScaleNonZero(v, k, sqrt);
    }
  }

  lemma NormalizeScaleNonZero(v: Vec3, k: real, sqrt: real -> real)
    requires IsSqrt(sqrt)
    requires 0.0 < k && v != Zero
    ensures Normalize(Scale(v, k), sqrt) == Normalize(v, sqrt)
  {
    LengthPositive(v, sqrt);
    var l := Length(v, sqrt);
    var w := Scale(v, k);
    LengthScale(v, k, sqrt);
    MulPositive(k, l);
    var m := Length(w, sqrt);
    assert m == k * l;
    NormalizeDivides(w, sqrt);
    NormalizeDivides(v, sqrt);
    ScaleScale(v, k, 1.0 / m);
    CancelFactor(k, l);
  }

  /** Away from zero, `normalize` divides by the length. */
  lemma NormalizeDivides(v: Vec3, sqrt: real -> real)
    requires IsSqrt(sqrt)
    requires 0.0 < Length(v, sqrt)
    ensures Normalize(v, sqrt) == Scale(v, 1.0 / Length(v, sqrt))
  {
  }

  lemma CancelFactor(k: real, l: real)
    requires 0.0 < k && 0.0 < l
    ensures k * (1.0 / (k * l)) == 1.0 / l
  {
    MulPositive(k, l);
    assert (k * l) * (1.0 / (k * l)) == 1.0;
  }
}
