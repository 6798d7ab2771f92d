/** Three-component vector arithmetic (src/vector.rs). An `f32` is modelled as a
    `real`: there is no rounding, no NaN and no infinity. */
module Vector {

  import opened RealArith

  datatype Vec3 = Vec3(x: real, y: real, z: real)

  /** `Vector3::default()`. */
  const Zero: Vec3 := Vec3(0.0, 0.0, 0.0)

  /** `f32::sqrt`. It is left unspecified: every property below that needs the
      square root to be exact says so in its own precondition. */
  const Sqrt: real -> real

  /** The square root is exact (and non-negative) at `x`. */
  predicate ExactSqrtAt(x: real) {
    0.0 <= Sqrt(x) && Square(Sqrt(x)) == x
  }

  /** Floating-point division. IEEE-754 gives an infinity or NaN for a zero
      divisor; the model gives 0.0 there. */
  function Divide(a: real, b: real): real {
    if b == 0.0 then 0.0 else a / b
  }

  // Component-wise operators (`Add`, `Sub`, `Mul`, `Div`, `Neg` for Vector3).

  function Add(a: Vec3, b: Vec3): Vec3 {
    Vec3(a.x + b.x, a.y + b.y, a.z + b.z)
  }

  function Sub(a: Vec3, b: Vec3): Vec3 {
    Vec3(a.x - b.x, a.y - b.y, a.z - b.z)
  }

  function Mul(a: Vec3, b: Vec3): Vec3 {
    Vec3(a.x * b.x, a.y * b.y, a.z * b.z)
  }

  function Div(a: Vec3, b: Vec3): Vec3 {
    Vec3(Divide(a.x, b.x), Divide(a.y, b.y), Divide(a.z, b.z))
  }

  function Neg(v: Vec3): Vec3 {
    Vec3(-v.x, -v.y, -v.z)
  }

  /** `Vector3 * f32`; also `f32 * Vector3`, which is the same over the reals. */
  function Scale(v: Vec3, s: real): Vec3 {
    Vec3(v.x * s, v.y * s, v.z * s)
  }

  /** `Vector3 / f32`. */
  function DivScalar(v: Vec3, s: real): Vec3 {
    Vec3(Divide(v.x, s), Divide(v.y, s), Divide(v.z, s))
  }

  /** `f32 / Vector3`. */
  function ScalarDiv(s: real, v: Vec3): Vec3 {
    Vec3(Divide(s, v.x), Divide(s, v.y), Divide(s, v.z))
  }

  /** `v[a]` for an axis 0, 1 or 2. */
  function Component(v: Vec3, a: int): real
    requires 0 <= a < 3
  {
    if a == 0 then v.x else if a == 1 then v.y else v.z
  }

  /** `squared_length`: `powi(2)` is a multiplication. */
  function SquaredLength(v: Vec3): real {
    v.x * v.x + v.y * v.y + v.z * v.z
  }

  function Length(v: Vec3): real {
    Sqrt(SquaredLength(v))
  }

  function Normalize(v: Vec3): Vec3 {
    DivScalar(v, Length(v))
  }

  function Dot(a: Vec3, b: Vec3): real {
    a.x * b.x + a.y * b.y + a.z * b.z
  }

  /** `cross` exactly as written: the second product of each component is
      written `- a.z - b.y` (and so on) instead of `- a.z * b.y`. */
  function Cross(a: Vec3, b: Vec3): Vec3 {
    Vec3(a.y * b.z - a.z - b.y,
         -(a.z * b.x - a.x - b.z),
         a.x * b.y - a.y - b.x)
  }

  /** `self + percentage * (other - self)`. */
  function Lerp(a: Vec3, b: Vec3, percentage: real): Vec3 {
    Add(a, Scale(Sub(b, a), percentage))
  }

  /** `self - other * self.dot(other) * 2.0`. */
  function Reflect(v: Vec3, n: Vec3): Vec3 {
    Sub(v, Scale(Scale(n, Dot(v, n)), 2.0))
  }

  /** The total-internal-reflection discriminant of `refract`. */
  function RefractDiscriminant(v: Vec3, n: Vec3, eta: real): real {
    var ni := Dot(n, v);
    1.0 - eta * eta * (1.0 - ni * ni)
  }

  /** `refract`: `(false, zero)` when the discriminant is negative, otherwise
      the refracted direction. */
  function Refract(v: Vec3, n: Vec3, eta: real): (r: (bool, Vec3))
    ensures !r.0 <==> RefractDiscriminant(v, n, eta) < 0.0
    ensures !r.0 ==> r.1 == Zero
  {
    var k := RefractDiscriminant(v, n, eta);
    if k < 0.0 then (false, Zero)
    else (true, Sub(Scale(v, eta), Scale(n, eta * Dot(n, v) + Sqrt(k))))
  }

  lemma DotCommutes(a: Vec3, b: Vec3)
    ensures Dot(a, b) == Dot(b, a)
  {
  }

  lemma SquaredLengthIsSelfDot(v: Vec3)
    ensures SquaredLength(v) == Dot(v, v)
  {
  }

  lemma LerpEndpoints(a: Vec3, b: Vec3)
    ensures Lerp(a, b, 0.0) == a
    ensures Lerp(a, b, 1.0) == b
  {
  }

  /** Subtraction is undone by addition, component by component. */
  lemma SubAddCancel(a: Vec3, b: Vec3)
    ensures Add(Sub(a, b), b) == a
  {
  }

  /** Reflection about a unit normal negates the normal component and is an
      involution. */
  lemma ReflectAboutUnitNormal(v: Vec3, n: Vec3)
    requires Dot(n, n) == 1.0
    ensures Dot(Reflect(v, n), n) == -Dot(v, n)
    ensures Reflect(Reflect(v, n), n) == v
  {
    var d := Dot(v, n);
    var r := Reflect(v, n);
    ReflectSubtractsNormal(v, n);
    DotAfterSubtractingNormal(v, n, 2.0 * d);
    assert Dot(r, n) == -d;
    ReflectSubtractsNormal(r, n);
    SubtractionsCancel(v, n, 2.0 * d);
  }

  lemma ReflectSubtractsNormal(v: Vec3, n: Vec3)
    ensures Reflect(v, n) == Sub(v, Scale(n, 2.0 * Dot(v, n)))
  {
  }

  lemma SubtractionsCancel(v: Vec3, n: Vec3, c: real)
    ensures Sub(Sub(v, Scale(n, c)), Scale(n, -c)) == v
  {
  }

  /** The dot product is linear in its first argument. */
  lemma DotAfterSubtractingNormal(v: Vec3, n: Vec3, c: real)
    ensures Dot(Sub(v, Scale(n, c)), n) == Dot(v, n) - c * Dot(n, n)
  {
  }

  /** With a relative index of at most one and a cosine of at most one in
      magnitude there is no total internal reflection. */
  lemma RefractSucceedsWithoutDenserMedium(v: Vec3, n: Vec3, eta: real)
    requires eta * eta <= 1.0
    requires Dot(n, v) * Dot(n, v) <= 1.0
    ensures Refract(v, n, eta).0
  {
    var ni := Dot(n, v);
    assert 0.0 <= 1.0 - ni * ni;
    assert eta * eta * (1.0 - ni * ni) <= 1.0 - ni * ni by {
      ScaleDownLeq(eta * eta, 1.0 - ni * ni);
    }
  }

  /** With an exact square root, normalising a nonzero vector gives unit length. */
  lemma NormalizeIsUnit(v: Vec3)
    requires v != Zero
    requires ExactSqrtAt(SquaredLength(v))
    ensures SquaredLength(Normalize(v)) == 1.0
  {
    var s := SquaredLength(v);
    var l := Length(v);
    PositiveSquaredLength(v);
    assert l * l == s;
    assert l != 0.0;
    var u := Normalize(v);
    assert u == Vec3(v.x / l, v.y / l, v.z / l);
    DivSquare(v.x, l);
    DivSquare(v.y, l);
    DivSquare(v.z, l);
    assert SquaredLength(u) * (l * l) == s;
    assert (SquaredLength(u) - 1.0) * (l * l) == 0.0;
    ZeroProduct(SquaredLength(u) - 1.0, l * l);
  }
  /** At an index ratio of one an entering ray (one facing against the normal)
      passes straight through, when the square root is exact. */
  lemma RefractMatchedIndex(v: Vec3, n: Vec3)
    requires Dot(n, v) <= 0.0
    requires ExactSqrtAt(Dot(n, v) * Dot(n, v))
    ensures Refract(v, n, 1.0) == (true, v)
  {
    assert RefractDiscriminant(v, n, 1.0) == Dot(n, v) * Dot(n, v);
    NonNegativeRootOfSquare(Dot(n, v), Sqrt(Dot(n, v) * Dot(n, v)));
    assert Sqrt(RefractDiscriminant(v, n, 1.0)) == -Dot(n, v);
    assert Scale(n, 1.0 * Dot(n, v) + Sqrt(RefractDiscriminant(v, n, 1.0))) == Zero;
    assert Scale(v, 1.0) == v;
  }

  /** The written `cross` is not a cross product: a vector along the x axis
      crossed with itself gives a nonzero vector whenever its length is
      nonzero, where a cross product gives zero. */
  lemma CrossOfSelfAlongX(v: Vec3)
    requires v.y == 0.0 && v.z == 0.0
    ensures Cross(v, v) == Vec3(0.0, v.x, -v.x)
  {
  }

  /** Dividing a vector by `r` divides its squared length by `r * r`. */
  lemma SquaredLengthDivScalar(v: Vec3, r: real)
    requires r != 0.0
    ensures SquaredLength(DivScalar(v, r)) * Square(r) == SquaredLength(v)
  {
    DivSquare(v.x, r);
    DivSquare(v.y, r);
    DivSquare(v.z, r);
  }

  /** Dividing a vector by a number whose square is its squared length
      gives a unit vector. */
  lemma DivideByOwnLength(v: Vec3, r: real)
    requires r != 0.0 && SquaredLength(v) == Square(r)
    ensures SquaredLength(DivScalar(v, r)) == 1.0
  {
    SquaredLengthDivScalar(v, r);
    SquarePositive(r);
    assert (SquaredLength(DivScalar(v, r)) - 1.0) * Square(r) == 0.0;
    ZeroProduct(SquaredLength(DivScalar(v, r)) - 1.0, Square(r));
  }

  /** The component of `v / r` along `v` is the squared length of `v` over `r`. */
  lemma DotDivScalar(v: Vec3, r: real)
    requires r != 0.0
    ensures Dot(DivScalar(v, r), v) == SquaredLength(v) / r
  {
  }

  /** A nonzero vector has a positive squared length. */
  lemma PositiveSquaredLength(v: Vec3)
    requires v != Zero
    ensures 0.0 < SquaredLength(v)
  {
    SquareNonNegative(v.x);
    SquareNonNegative(v.y);
    SquareNonNegative(v.z);
    if SquaredLength(v) == 0.0 {
      SquareZero(v.x);
      SquareZero(v.y);
      SquareZero(v.z);
      assert false;
    }
  }

  /** A vector in place: the compound assignments `+=`, `-=`, `*=`, `/=` of
      src/vector.rs update `x`, `y` and `z` of the receiver. */
  class MutableVector {
    var x: real
    var y: real
    var z: real

    function Value(): Vec3
      reads this
    {
      Vec3(x, y, z)
    }

    constructor (v: Vec3)
      ensures Value() == v
    {
      x, y, z := v.x, v.y, v.z;
    }

    method AddAssign(other: Vec3)
      modifies this
      ensures Value() == Add(old(Value()), other)
    {
      x := x + other.x;
      y := y + other.y;
      z := z + other.z;
    }

    method SubAssign(other: Vec3)
      modifies this
      ensures Value() == Sub(old(Value()), other)
    {
      x := x - other.x;
      y := y - other.y;
      z := z - other.z;
    }

    method MulAssign(other: Vec3)
      modifies this
      ensures Value() == Mul(old(Value()), other)
    {
      x := x * other.x;
      y := y * other.y;
      z := z * other.z;
    }

    method DivAssign(other: Vec3)
      modifies this
      ensures Value() == Div(old(Value()), other)
    {
      x := Divide(x, other.x);
      y := Divide(y, other.y);
      z := Divide(z, other.z);
    }

    method MulAssignScalar(t: real)
      modifies this
      ensures Value() == Scale(old(Value()), t)
    {
      x := x * t;
      y := y * t;
      z := z * t;
    }

    method DivAssignScalar(t: real)
      modifies this
      ensures Value() == DivScalar(old(Value()), t)
    {
      x := Divide(x, t);
      y := Divide(y, t);
      z := Divide(z, t);
    }
  }
}
