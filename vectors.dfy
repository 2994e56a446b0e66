/**
 * Three-component vectors over the reals and their algebra (src/vec3.rs).
 *
 * Floating point is modelled by `real`.  The square root is not a Dafny
 * primitive over `real`, so every member that needs it takes the square-root
 * primitive as a parameter `sqrt` and requires `IsSqrt(sqrt)`: for every
 * non-negative x, `sqrt(x)` is non-negative and squares back to x.
 *
 * Squares are written with `Sq` throughout, so that facts about the sign of a
 * sum of squares are stated once, in the lemmas below, and reused linearly.
 */
module Vectors {

  /** The square of a real number. */
  function Sq(a: real): real
  {
    a * a
  }

  /** The defining property of the non-negative square root. */
  ghost predicate IsSqrt(sqrt: real -> real)
  {
    forall x :: 0.0 <= x ==> 0.0 <= sqrt(x) && Sq(sqrt(x)) == x
  }

  lemma MulZero(a: real, b: real)
    requires a * b == 0.0
    ensures a == 0.0 || b == 0.0
  {
  }

  lemma MulPositive(a: real, b: real)
    requires 0.0 < a && 0.0 < b
    ensures 0.0 < a * b
  {
  }

  lemma MulNonNegative(a: real, b: real)
    requires 0.0 <= a && 0.0 <= b
    ensures 0.0 <= a * b
  {
  }

  lemma MulOnes(a: real, b: real)
    requires a == 1.0 && b == 1.0
    ensures a * b == 1.0
  {
  }

  /** The square of a product is the product of the squares. */
  lemma SqMul(a: real, b: real)
    ensures Sq(a * b) == Sq(a) * Sq(b)
  {
  }

  /** Scaling a non-negative number by a factor in [0, 1] keeps it in [0, itself]. */
  lemma MulAtMost(a: real, b: real)
    requires 0.0 <= a && 0.0 <= b <= 1.0
    ensures 0.0 <= a * b <= a
  {
    MulNonNegative(a, b);
    MulNonNegative(a, 1.0 - b);
    assert a * (1.0 - b) == a - a * b;
  }

  /** A square is never negative, and it is zero only for zero. */
  lemma SqSign(a: real)
    ensures 0.0 <= Sq(a)
    ensures Sq(a) == 0.0 <==> a == 0.0
  {
    if Sq(a) == 0.0 {
      MulZero(a, a);
    }
  }

  /** Squaring is strictly monotone on the non-negative reals. */
  lemma SqStrict(a: real, b: real)
    requires 0.0 <= b
    ensures b < a ==> Sq(b) < Sq(a)
  {
    if b < a {
      var p, q, r := b * b, b * a, a * a;
      assert p <= q;
      assert q < r;
    }
  }

  /** The non-negative square root is unique. */
  lemma SqrtUnique(sqrt: real -> real, x: real, s: real)
    requires IsSqrt(sqrt) && 0.0 <= s && Sq(s) == x
    ensures sqrt(x) == s
  {
    var r := sqrt(x);
    var rr, ss := r * r, s * s;
    assert rr == ss;
    var d := (r - s) * (r + s);
    assert d == rr - ss;
    MulZero(r - s, r + s);
  }

  /** A number and its negation have the same square. */
  lemma SqNeg(a: real)
    ensures Sq(-a) == Sq(a)
  {
  }

  /** A number whose square is at most one lies in [-1, 1]. */
  lemma SqBound(a: real)
    requires Sq(a) <= 1.0
    ensures -1.0 <= a <= 1.0
  {
    SqStrict(a, 1.0);
    SqStrict(-a, 1.0);
    SqNeg(a);
  }

  /** For a non-negative number, exceeding one and having a square exceeding one coincide. */
  lemma SqAboveOne(a: real)
    requires 0.0 <= a
    ensures 1.0 < a <==> 1.0 < Sq(a)
  {
    SqStrict(a, 1.0);
    SqStrict(1.0, a);
  }

  /** The square root is monotone. */
  lemma SqrtMonotone(sqrt: real -> real, x: real, y: real)
    requires IsSqrt(sqrt) && 0.0 <= x <= y
    ensures sqrt(x) <= sqrt(y)
  {
    SqStrict(sqrt(x), sqrt(y));
  }

  /** The square root is zero exactly at zero. */
  lemma SqrtZero(sqrt: real -> real, x: real)
    requires IsSqrt(sqrt) && 0.0 <= x
    ensures sqrt(x) == 0.0 <==> x == 0.0
  {
    SqSign(sqrt(x));
    if x == 0.0 {
      SqrtUnique(sqrt, x, 0.0);
    }
  }

  /** The square root of one is one. */
  lemma SqrtOne(sqrt: real -> real)
    requires IsSqrt(sqrt)
    ensures sqrt(1.0) == 1.0
  {
    SqrtUnique(sqrt, 1.0, 1.0);
  }

  /** The threshold below which `near_zero` treats a component as zero. */
  const NearZeroBound: real := 0.00000001

  function Abs(r: real): real
  {
    if r < 0.0 then -r else r
  }

  /** A 3D vector. */
  datatype Vec3 = Vec3(x: real, y: real, z: real) {

    /** The squared length; it is the dot product with itself and vanishes only at zero. */
    function LengthSquared(): (r: real)
      ensures 0.0 <= r
      ensures r == Dot(this)
      ensures r == 0.0 <==> this == Zero
    {
      SqSign(x);
      SqSign(y);
      SqSign(z);
      Sq(x) + Sq(y) + Sq(z)
    }

    /** The length: the non-negative number whose square is the squared length. */
    function Length(sqrt: real -> real): (r: real)
      requires IsSqrt(sqrt)
      ensures 0.0 <= r && Sq(r) == LengthSquared()
      ensures r == 0.0 <==> this == Zero
    {
      SqrtZero(sqrt, LengthSquared());
      sqrt(LengthSquared())
    }

    /**
     * The unit vector along the direction: it has length one and scales back
     * to the vector by its length.  Undefined for the zero vector.
     */
    function Unit(sqrt: real -> real): (r: Vec3)
      requires IsSqrt(sqrt) && this != Zero
      ensures r.LengthSquared() == 1.0
      ensures r.MulScalar(Length(sqrt)) == this
    {
      var len := Length(sqrt);
      var r := Div(len);
      ScaleLengthSquared(this, 1.0 / len);
      SqInverse(len);
      r
    }

    /** Every component's absolute value is below `NearZeroBound`. */
    predicate NearZero()
    {
      Abs(x) < NearZeroBound && Abs(y) < NearZeroBound && Abs(z) < NearZeroBound
    }

    function Dot(other: Vec3): real
    {
      x * other.x + y * other.y + z * other.z
    }

    /** The cross product; it is orthogonal to both operands. */
    function Cross(other: Vec3): (r: Vec3)
      ensures Dot(r) == 0.0 && other.Dot(r) == 0.0
    {
      Vec3(y * other.z - z * other.y,
           z * other.x - x * other.z,
           x * other.y - y * other.x)
    }

    function Neg(): Vec3
    {
      Vec3(-x, -y, -z)
    }

    /** Access by index; the source panics for an index beyond 2. */
    function Index(i: nat): (r: real)
      requires i < 3
      ensures i == 0 ==> r == x
      ensures i == 1 ==> r == y
      ensures i == 2 ==> r == z
    {
      match i
      case 0 => x
      case 1 => y
      case 2 => z
    }

    function Add(rhs: Vec3): Vec3
    {
      Vec3(x + rhs.x, y + rhs.y, z + rhs.z)
    }

    /** Subtraction is addition of the negation; it is component-wise. */
    function Sub(rhs: Vec3): (r: Vec3)
      ensures r == Vec3(x - rhs.x, y - rhs.y, z - rhs.z)
      ensures r.Add(rhs) == this
    {
      Add(rhs.Neg())
    }

    /** Component-wise product. */
    function Mul(rhs: Vec3): Vec3
    {
      Vec3(x * rhs.x, y * rhs.y, z * rhs.z)
    }

    /** `Vec3 * f64`. */
    function MulScalar(s: real): Vec3
    {
      Vec3(x * s, y * s, z * s)
    }

    /** `Vec3 / f64`, computed as a multiplication by the reciprocal; it is component-wise division. */
    function Div(s: real): (r: Vec3)
      requires s != 0.0
      ensures r == Vec3(x / s, y / s, z / s)
      ensures r.MulScalar(s) == this
    {
      ScalarMul(1.0 / s, this)
    }
  }

  const Zero: Vec3 := Vec3(0.0, 0.0, 0.0)

  /** `f64 * Vec3`, delegating to `Vec3 * f64`: scaling commutes. */
  function ScalarMul(s: real, v: Vec3): (r: Vec3)
    ensures r == Vec3(s * v.x, s * v.y, s * v.z)
  {
    v.MulScalar(s)
  }

  lemma SqInverse(d: real)
    requires d != 0.0
    ensures Sq(1.0 / d) * Sq(d) == 1.0
  {
  }

  lemma ScaleLengthSquared(v: Vec3, s: real)
    ensures v.MulScalar(s).LengthSquared() == Sq(s) * v.LengthSquared()
  {
  }

  /** The dot product is symmetric. */
  lemma DotSymmetric(a: Vec3, b: Vec3)
    ensures a.Dot(b) == b.Dot(a)
  {
  }

  /** Negation is an involution. */
  lemma NegInvolution(v: Vec3)
    ensures v.Neg().Neg() == v
  {
  }

  /** Negating one operand negates the dot product. */
  lemma NegDot(a: Vec3, b: Vec3)
    ensures a.Dot(b.Neg()) == -a.Dot(b)
  {
  }

  /** Negation keeps the squared length. */
  lemma NegLengthSquared(v: Vec3)
    ensures v.Neg().LengthSquared() == v.LengthSquared()
  {
  }

  /** A vector minus itself is the zero vector. */
  lemma SubSelf(v: Vec3)
    ensures v.Sub(v) == Zero
  {
  }

  /** The dot product is linear in its second operand. */
  lemma DotLinear(a: Vec3, b: Vec3, c: Vec3, s: real)
    ensures a.Dot(b.Add(c)) == a.Dot(b) + a.Dot(c)
    ensures a.Dot(b.Sub(c)) == a.Dot(b) - a.Dot(c)
    ensures a.Dot(ScalarMul(s, b)) == s * a.Dot(b)
  {
  }

  /** Scaling by a positive factor keeps the sign of a dot product. */
  lemma ScaledDotSign(u: Vec3, k: real, n: Vec3)
    requires 0.0 < k
    ensures u.MulScalar(k).Dot(n) < 0.0 <==> u.Dot(n) < 0.0
  {
    var p := u.Dot(n);
    assert u.MulScalar(k).Dot(n) == k * p;
    if p < 0.0 {
      MulPositive(k, -p);
    } else {
      MulNonNegative(k, p);
    }
  }

  /** A unit vector points into the same half-space as the vector it normalises. */
  lemma UnitDotSign(v: Vec3, n: Vec3, sqrt: real -> real)
    requires IsSqrt(sqrt) && v != Zero
    ensures v.Unit(sqrt).Dot(n) < 0.0 <==> v.Dot(n) < 0.0
  {
    ScaledDotSign(v.Unit(sqrt), v.Length(sqrt), n);
  }

  /** Lagrange's identity: |a × b|² == |a|²·|b|² − (a·b)². */
  lemma Lagrange(a: Vec3, b: Vec3)
    ensures a.Cross(b).LengthSquared() == a.LengthSquared() * b.LengthSquared() - Sq(a.Dot(b))
  {
  }

  /**
   * A vector variable that the compound assignment operators `+=`, `*=` and
   * `/=` update in place.
   */
  class MutVec3 {
    var x: real
    var y: real
    var z: real

    constructor (v: Vec3)
      ensures Value() == v
    {
      x, y, z := v.x, v.y, v.z;
    }

    function Value(): Vec3
      reads this
    {
      Vec3(x, y, z)
    }

    /** `+=` leaves the variable equal to the sum. */
    method AddAssign(rhs: Vec3)
      modifies this
      ensures Value() == old(Value()).Add(rhs)
    {
      x := x + rhs.x;
      y := y + rhs.y;
      z := z + rhs.z;
    }

    /** `*=` leaves the variable equal to the scaled vector. */
    method MulAssign(s: real)
      modifies this
      ensures Value() == old(Value()).MulScalar(s)
    {
      x := x * s;
      y := y * s;
      z := z * s;
    }

    /** `/=` multiplies by the reciprocal, leaving the variable equal to the quotient. */
    method DivAssign(s: real)
      requires s != 0.0
      modifies this
      ensures Value() == old(Value()).Div(s)
    {
      MulAssign(1.0 / s);
    }
  }
}
