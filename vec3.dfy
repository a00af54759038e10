/** Three-component vectors (src/vec3.rs): points, directions and colours.
    The source's f32 components are modelled as exact reals. */
module Vectors {
  import opened Reals

  datatype Vec3 = Vec3(x: real, y: real, z: real)

  /** All three components equal to `v` (Vec3::fromf). */
  function FromF(v: real): Vec3 { Vec3(v, v, v) }

  function Zero(): Vec3 { Vec3(0.0, 0.0, 0.0) }

  function One(): Vec3 { Vec3(1.0, 1.0, 1.0) }

  /** Colour channel accessors. */
  function R(v: Vec3): real { v.x }
  function G(v: Vec3): real { v.y }
  function B(v: Vec3): real { v.z }

  function SquaredLength(v: Vec3): real { v.x * v.x + v.y * v.y + v.z * v.z }

  function Dot(a: Vec3, b: Vec3): real { a.x * b.x + a.y * b.y + a.z * b.z }

  function Cross(a: Vec3, b: Vec3): Vec3 {
    Vec3(a.y * b.z - a.z * b.y, -(a.x * b.z - a.z * b.x), a.x * b.y - a.y * b.x)
  }

  function Add(a: Vec3, b: Vec3): Vec3 { Vec3(a.x + b.x, a.y + b.y, a.z + b.z) }
  /** `Vec3 + f32` */
  function AddScalar(a: Vec3, k: real): Vec3 { Vec3(a.x + k, a.y + k, a.z + k) }
  /** `f32 + Vec3` */
  function ScalarAdd(k: real, a: Vec3): Vec3 { Vec3(k + a.x, k + a.y, k + a.z) }

  function Sub(a: Vec3, b: Vec3): Vec3 { Vec3(a.x - b.x, a.y - b.y, a.z - b.z) }
  /** `Vec3 - f32` */
  function SubScalar(a: Vec3, k: real): Vec3 { Vec3(a.x - k, a.y - k, a.z - k) }
  /** `f32 - Vec3` */
  function ScalarSub(k: real, a: Vec3): Vec3 { Vec3(k - a.x, k - a.y, k - a.z) }

  /** Componentwise product (colour attenuation). */
  function Mul(a: Vec3, b: Vec3): Vec3 { Vec3(a.x * b.x, a.y * b.y, a.z * b.z) }
  /** `Vec3 * f32` */
  function Scale(a: Vec3, k: real): Vec3 { Vec3(a.x * k, a.y * k, a.z * k) }
  /** `f32 * Vec3` */
  function ScalarMul(k: real, a: Vec3): Vec3 { Vec3(k * a.x, k * a.y, k * a.z) }

  /** Divisions need non-zero divisors: exact reals have no IEEE infinities. */
  predicate NonZeroComponents(v: Vec3) { v.x != 0.0 && v.y != 0.0 && v.z != 0.0 }

  function Div(a: Vec3, b: Vec3): Vec3
    requires NonZeroComponents(b)
  {
    Vec3(a.x / b.x, a.y / b.y, a.z / b.z)
  }
  /** `Vec3 / f32` */
  function DivScalar(a: Vec3, k: real): Vec3
    requires k != 0.0
  {
    Vec3(a.x / k, a.y / k, a.z / k)
  }
  /** `f32 / Vec3` */
  function ScalarDiv(k: real, a: Vec3): Vec3
    requires NonZeroComponents(a)
  {
    Vec3(k / a.x, k / a.y, k / a.z)
  }

  function Neg(a: Vec3): Vec3 { Vec3(-a.x, -a.y, -a.z) }

  /** PartialEq: componentwise comparison. */
  function Eq(a: Vec3, b: Vec3): bool { a.x == b.x && a.y == b.y && a.z == b.z }

  /** `v[i]`; the source panics for an index above 2, modelled as a precondition. */
  function Index(v: Vec3, i: nat): real
    requires i <= 2
  {
    if i == 0 then v.x else if i == 1 then v.y else v.z
  }

  /** The floating-point square root is a parameter of every computation that
      uses it; IsSqrt says what the lemmas may assume about it. */
  ghost predicate IsSqrt(sqrt: real -> real) {
    forall x: real :: 0.0 <= x ==> 0.0 <= sqrt(x) && sqrt(x) * sqrt(x) == x
  }

  function Length(v: Vec3, sqrt: real -> real): real { sqrt(SquaredLength(v)) }

  /** `v / (l, l, l)` with l the length; undefined (NaN) for a zero length. */
  function UnitVector(v: Vec3, sqrt: real -> real): Vec3
    requires Length(v, sqrt) != 0.0
  {
    var l := Length(v, sqrt);
    Div(v, Vec3(l, l, l))
  }

  /** `&mut Vec3`: the one place the source updates a vector in place. */
  class Vec3Cell {
    var x: real
    var y: real
    var z: real

    function Value(): Vec3
      reads this
    {
      Vec3(x, y, z)
    }

    constructor (v: Vec3)
      ensures Value() == v
    {
      x, y, z := v.x, v.y, v.z;
    }

    /** `*= k`, component by component. */
    method MulAssign(k: real)
      modifies this
      ensures Value() == Scale(old(Value()), k)
    {
      x := x * k;
      y := y * k;
      z := z * k;
    }
  }

  // ---------------------------------------------------------------------
  // Properties of the vector algebra

  lemma IndexComponents(v: Vec3)
    ensures Index(v, 0) == v.x && Index(v, 1) == v.y && Index(v, 2) == v.z
  {
  }

  lemma ConstantVectors(v: real)
    ensures FromF(v).x == v && FromF(v).y == v && FromF(v).z == v
    ensures Zero() == FromF(0.0) && One() == FromF(1.0)
  {
  }

  lemma ChannelsAreComponents(v: Vec3)
    ensures R(v) == v.x && G(v) == v.y && B(v) == v.z
  {
  }

  lemma DotSymmetric(a: Vec3, b: Vec3)
    ensures Dot(a, b) == Dot(b, a)
    ensures SquaredLength(a) == Dot(a, a)
  {
  }

  lemma CrossOrthogonal(a: Vec3, b: Vec3)
    ensures Dot(Cross(a, b), a) == 0.0 && Dot(Cross(a, b), b) == 0.0
  {
  }

  lemma AddSubCancel(a: Vec3, b: Vec3)
    ensures Sub(Add(a, b), b) == a
    ensures Add(Sub(a, b), b) == a
  {
  }

  lemma NegInvolutive(a: Vec3)
    ensures Neg(Neg(a)) == a
    ensures Add(a, Neg(a)) == Zero()
  {
  }

  lemma EqIsEquality(a: Vec3, b: Vec3)
    ensures Eq(a, b) <==> a == b
  {
  }

  lemma SquaredLengthNonNegative(v: Vec3)
    ensures SquaredLength(v) >= 0.0
  {
    SumSquaresNonNegative(v.x, v.y, v.z);
  }

  /** Lagrange's identity behind the Cauchy-Schwarz inequality. */
  lemma CauchySchwarz(a: Vec3, b: Vec3)
    ensures Dot(a, b) * Dot(a, b) <= Dot(a, a) * Dot(b, b)
  {
    var c := Cross(a, b);
    assert Dot(a, a) * Dot(b, b) - Dot(a, b) * Dot(a, b) == SquaredLength(c);
    SquaredLengthNonNegative(c);
  }

  lemma ScaleDistributes(a: Vec3, b: Vec3, k: real)
    ensures Scale(Add(a, b), k) == Add(Scale(a, k), Scale(b, k))
  {
  }
}
