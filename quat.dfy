/**
  The algebraic part of the viewer's quaternion type, over exact reals.
  The float/double template parameter collapses to `real`. The
  trigonometric and square-root parts are kept out; anything that needs them
  takes the missing value as a parameter.
 */
module Quaternions {

  /** The four components, in the order the source stores them: x, y, z, then w. */
  datatype Quat = Quat(x: real, y: real, z: real, w: real)

  /** The value `clear()` leaves in a quaternion: the identity rotation. */
  function Identity(): (r: Quat)
    ensures NormSq(r) == 1.0
  {
    Quat(0.0, 0.0, 0.0, 1.0)
  }

  /** Hamilton product. */
  function Multiply(a: Quat, b: Quat): Quat
  {
    Quat(a.y * b.z - b.y * a.z + a.w * b.x + b.w * a.x,
         a.z * b.x - b.z * a.x + a.w * b.y + b.w * a.y,
         a.x * b.y - b.x * a.y + a.w * b.z + b.w * a.z,
         a.w * b.w - a.x * b.x - a.y * b.y - a.z * b.z)
  }

  /** Four-component dot product; a quaternion's dot product with itself is its squared norm. */
  function Dot(a: Quat, b: Quat): (r: real)
    ensures a == b ==> r == NormSq(a)
  {
    a.x * b.x + a.y * b.y + a.z * b.z + a.w * b.w
  }

  /** The squared norm `normalize` compares with zero. */
  function NormSq(a: Quat): (r: real)
    ensures r >= 0.0
  {
    SquareNonNegative(a.x);
    SquareNonNegative(a.y);
    SquareNonNegative(a.z);
    SquareNonNegative(a.w);
    a.x * a.x + a.y * a.y + a.z * a.z + a.w * a.w
  }

  /** Conjugate: the vector part negated, w kept. It has the same norm. */
  function Conjugate(a: Quat): (r: Quat)
    ensures NormSq(r) == NormSq(a)
  {
    Quat(-a.x, -a.y, -a.z, a.w)
  }

  /** Unary minus, which this library defines as the conjugate, not as componentwise negation. */
  function Minus(a: Quat): (r: Quat)
    ensures r == Conjugate(a)
    ensures a.w != 0.0 ==> r != Scale(a, -1.0)
  {
    Conjugate(a)
  }

  /** `operator*` with a scalar. */
  function Scale(a: Quat, s: real): Quat
  {
    Quat(a.x * s, a.y * s, a.z * s, a.w * s)
  }

  /**
    `normalize`. A zero quaternion yields the identity. Otherwise each
    component is divided by the square root of the squared norm. That root
    is floating-point code outside this model, so the caller passes it as
    `root`; scaling the result by `root` gives back the input.
   */
  function Normalize(a: Quat, root: real): (r: Quat)
    requires NormSq(a) != 0.0 ==> root > 0.0 && root * root == NormSq(a)
    ensures NormSq(a) == 0.0 ==> r == Identity()
    ensures NormSq(a) != 0.0 ==> Scale(r, root) == a
    ensures NormSq(r) == 1.0
  {
    if NormSq(a) == 0.0 then Identity()
    else
      DivThenMul(a.x, root);
      DivThenMul(a.y, root);
      DivThenMul(a.z, root);
      DivThenMul(a.w, root);
      var r := Quat(a.x / root, a.y / root, a.z / root, a.w / root);
      UnitAfterDivision(a, r, root);
      r
  }

  /** Componentwise linear interpolation; the result is not renormalised. */
  function Lerp(a: Quat, b: Quat, amt: real): (r: Quat)
    ensures amt == 0.0 ==> r == a
    ensures amt == 1.0 ==> r == b
    ensures r == Add4(Scale(a, 1.0 - amt), Scale(b, amt))
  {
    Quat(LerpScalar(a.x, b.x, amt), LerpScalar(a.y, b.y, amt), LerpScalar(a.z, b.z, amt), LerpScalar(a.w, b.w, amt))
  }

  /** One component of `lerp`: u + (v - u) * amt, the affine combination of u and v. */
  function LerpScalar(u: real, v: real, amt: real): (r: real)
    ensures r == u * (1.0 - amt) + v * amt
    ensures amt == 0.0 ==> r == u
    ensures amt == 1.0 ==> r == v
  {
    u + (v - u) * amt
  }

  /** `nlerp`: `Lerp` followed by `Normalize`; `root` is the square root of the interpolant's squared norm. */
  function Nlerp(a: Quat, b: Quat, amt: real, root: real): (r: Quat)
    requires NormSq(Lerp(a, b, amt)) != 0.0 ==> root > 0.0 && root * root == NormSq(Lerp(a, b, amt))
    ensures Lerp(a, b, amt) == Quat(0.0, 0.0, 0.0, 0.0) ==> r == Identity()
    ensures NormSq(Lerp(a, b, amt)) != 0.0 ==> Scale(r, root) == Lerp(a, b, amt)
    ensures NormSq(r) == 1.0
  {
    Normalize(Lerp(a, b, amt), root)
  }

  /** `abs`: a quaternion with negative w has all four components negated, so the result has w >= 0. */
  function Abs(a: Quat): (r: Quat)
    ensures r.w >= 0.0
    ensures a.w >= 0.0 ==> r == a
    ensures a.w < 0.0 ==> r == Scale(a, -1.0)
  {
    if a.w < 0.0 then Quat(-1.0 * a.x, -1.0 * a.y, -1.0 * a.z, -1.0 * a.w) else a
  }

  /** Plain componentwise sum (no `Abs`), the reference `Plus` is compared with. */
  function Add4(a: Quat, b: Quat): Quat
  {
    Quat(a.x + b.x, a.y + b.y, a.z + b.z, a.w + b.w)
  }

  /** `operator+`: both operands are first brought to w >= 0 by `Abs`, then added. */
  function Plus(a: Quat, b: Quat): (r: Quat)
    ensures r == Add4(Abs(a), Abs(b))
    ensures r.w >= 0.0
  {
    var a' := Abs(a);
    var b' := Abs(b);
    Quat(a'.x + b'.x, a'.y + b'.y, a'.z + b'.z, a'.w + b'.w)
  }

  // ---------------------------------------------------------------------
  // Helper facts for the contracts above

  lemma SquareNonNegative(v: real)
    ensures v * v >= 0.0
  {
    if v < 0.0 {
      assert (-v) * (-v) > 0.0;
    } else if v > 0.0 {
      assert v * v > 0.0;
    }
  }

  lemma DivThenMul(v: real, root: real)
    requires root != 0.0
    ensures (v / root) * root == v
  {
  }

  /** Dividing a by the root of its squared norm leaves a unit quaternion. */
  lemma UnitAfterDivision(a: Quat, r: Quat, root: real)
    requires NormSq(a) != 0.0 && root * root == NormSq(a)
    requires Scale(r, root) == a
    ensures NormSq(r) == 1.0
  {
    ScaledNorm(r, root);
    CancelNonZero(root * root, NormSq(r), NormSq(Scale(r, root)));
  }

  /** m * n == m with m != 0 forces n == 1 (the product arrives as s, so it is not expanded). */
  lemma CancelNonZero(m: real, n: real, s: real)
    requires m != 0.0 && s == m * n && s == m
    ensures n == 1.0
  {
  }

  // ---------------------------------------------------------------------
  // Properties of the algebra

  /** `conjugate` is an involution. */
  lemma ConjugateInvolution(q: Quat)
    ensures Conjugate(Conjugate(q)) == q
  {
  }

  /** The identity is neutral for `Multiply` on both sides. */
  lemma IdentityNeutral(q: Quat)
    ensures Multiply(Identity(), q) == q && Multiply(q, Identity()) == q
  {
  }

  /** For a unit quaternion the conjugate is the two-sided inverse. */
  lemma ConjugateInverse(q: Quat)
    requires NormSq(q) == 1.0
    ensures Multiply(q, Conjugate(q)) == Identity() && Multiply(Conjugate(q), q) == Identity()
  {
    ProductWithConjugate(q);
  }

  /** The conjugate of a product is the product of the conjugates in reverse order. */
  lemma ConjugateOfProduct(a: Quat, b: Quat)
    ensures Conjugate(Multiply(a, b)) == Multiply(Conjugate(b), Conjugate(a))
  {
    var l := Conjugate(Multiply(a, b));
    var r := Multiply(Conjugate(b), Conjugate(a));
    assert l.x == r.x && l.y == r.y;
    assert l.z == r.z && l.w == r.w;
  }

  /** A quaternion times its conjugate is the real quaternion of its squared norm. */
  lemma ProductWithConjugate(q: Quat)
    ensures Multiply(q, Conjugate(q)) == Quat(0.0, 0.0, 0.0, Dot(q, q))
    ensures Multiply(Conjugate(q), q) == Quat(0.0, 0.0, 0.0, Dot(q, q))
  {
  }

  /** `dot` is symmetric and non-negative on equal arguments. */
  lemma DotProperties(a: Quat, b: Quat)
    ensures Dot(a, b) == Dot(b, a)
    ensures Dot(a, a) == NormSq(a) && Dot(a, a) >= 0.0
  {
  }

  /** Scaling by k multiplies the squared norm by k squared. */
  lemma ScaledNorm(a: Quat, k: real)
    ensures NormSq(Scale(a, k)) == (k * k) * NormSq(a)
  {
  }

  /** Scaling by k and then by 1/k gives back the quaternion. */
  lemma ScaleInverse(a: Quat, k: real)
    requires k != 0.0
    ensures Scale(Scale(a, k), 1.0 / k) == a
  {
    DivThenMul(a.x * k, k);
    assert a.x * k * (1.0 / k) == a.x;
    assert a.y * k * (1.0 / k) == a.y;
    assert a.z * k * (1.0 / k) == a.z;
    assert a.w * k * (1.0 / k) == a.w;
  }

  /** The Hamilton product is not commutative: i times j is k, but j times i is -k. */
  lemma MultiplyNotCommutative()
    ensures Multiply(Quat(1.0, 0.0, 0.0, 0.0), Quat(0.0, 1.0, 0.0, 0.0)) == Quat(0.0, 0.0, 1.0, 0.0)
    ensures Multiply(Quat(0.0, 1.0, 0.0, 0.0), Quat(1.0, 0.0, 0.0, 0.0)) == Quat(0.0, 0.0, -1.0, 0.0)
  {
    var i := Quat(1.0, 0.0, 0.0, 0.0);
    var j := Quat(0.0, 1.0, 0.0, 0.0);
    var ij := Multiply(i, j);
    var ji := Multiply(j, i);
    assert ij.x == 0.0 && ij.y == 0.0 && ij.z == 1.0 && ij.w == 0.0;
    assert ji.x == 0.0 && ji.y == 0.0 && ji.z == -1.0 && ji.w == 0.0;
  }

  /** `abs` is idempotent. */
  lemma AbsIdempotent(q: Quat)
    ensures Abs(Abs(q)) == Abs(q)
  {
  }

  /** `operator+` is commutative. */
  lemma PlusCommutative(a: Quat, b: Quat)
    ensures Plus(a, b) == Plus(b, a)
  {
  }

  /** `operator+` does not tell a quaternion from its negation, the other representation of the same rotation. */
  lemma PlusIgnoresSign(a: Quat, b: Quat)
    ensures Plus(Scale(a, -1.0), b) == Plus(a, b) || a.w == 0.0
  {
  }

  // ---------------------------------------------------------------------
  // ideal_slerp: the start point it hands to slerp

  /**
    The quaternion `ideal_slerp` passes to `slerp` as its first argument. As
    the code is written, a negative dot product makes it use the conjugate
    of `a`.
   */
  function IdealSlerpStart(a: Quat, b: Quat): (r: Quat)
    // the start keeps the norm of `a`
    ensures NormSq(r) == NormSq(a)
    // it is the sign-flipped start exactly when no flip is due or the flip and the conjugate agree
    ensures r == ShortestArcStart(a, b) <==> Dot(a, b) >= 0.0 || a.w == 0.0
    // with a flip due, a real part and a vector part, it is neither a nor -a: another rotation
    ensures Dot(a, b) < 0.0 && a.w != 0.0 && (a.x, a.y, a.z) != (0.0, 0.0, 0.0) ==>
              r != a && r != Scale(a, -1.0)
  {
    if Dot(a, b) < 0.0 then Conjugate(a) else a
  }

  /** `ideal_slerp` as written; `slerp` itself is trigonometric and is a parameter here. */
  function IdealSlerp(a: Quat, b: Quat, amt: real, slerp: (Quat, Quat, real) -> Quat): (r: Quat)
    ensures Dot(a, b) >= 0.0 || a.w == 0.0 ==> r == slerp(ShortestArcStart(a, b), b, amt)
  {
    slerp(IdealSlerpStart(a, b), b, amt)
  }

  /**
    As written, `ideal_slerp` does not always take the shorter arc. The
    identity and its negation are the same rotation and their dot product
    is -1; the conjugate of the identity is the identity, so the start
    handed to `slerp` still has a negative dot product with the end.
   */
  lemma IdealSlerpMissesShortArc()
    ensures Dot(IdealSlerpStart(Identity(), Quat(0.0, 0.0, 0.0, -1.0)), Quat(0.0, 0.0, 0.0, -1.0)) < 0.0
  {
    assert Dot(Identity(), Quat(0.0, 0.0, 0.0, -1.0)) == -1.0;
    assert Conjugate(Identity()) == Identity();
  }

  /**
    As written, the start `ideal_slerp` hands to `slerp` need not be the
    rotation `a` at all: for a quarter turn about z (unnormalised here) and
    its negation, it is the opposite quarter turn, neither `a` nor `-a`.
   */
  lemma IdealSlerpChangesRotation()
    ensures IdealSlerpStart(Quat(0.0, 0.0, 1.0, 1.0), Quat(0.0, 0.0, -1.0, -1.0)) == Quat(0.0, 0.0, -1.0, 1.0)
    ensures Quat(0.0, 0.0, -1.0, 1.0) != Quat(0.0, 0.0, 1.0, 1.0)
    ensures Quat(0.0, 0.0, -1.0, 1.0) != Scale(Quat(0.0, 0.0, 1.0, 1.0), -1.0)
  {
    var a := Quat(0.0, 0.0, 1.0, 1.0);
    assert Dot(a, Quat(0.0, 0.0, -1.0, -1.0)) == -2.0;
    assert Conjugate(a) == Quat(0.0, 0.0, -1.0, 1.0);
  }

  /**
    The start the source's comment describes: flip the sign of `a` when the
    dot product is negative. The result is the same rotation as `a`, and its
    dot product with `b` is never negative.
   */
  function ShortestArcStart(a: Quat, b: Quat): (r: Quat)
    ensures r == a || r == Scale(a, -1.0)
    ensures Dot(r, b) >= 0.0
    ensures Dot(r, b) == if Dot(a, b) < 0.0 then -Dot(a, b) else Dot(a, b)
  {
    if Dot(a, b) < 0.0 then Scale(a, -1.0) else a
  }

  /** Shortest-arc interpolation: `slerp` from `ShortestArcStart(a, b)` to `b`. */
  function ShortestArcSlerp(a: Quat, b: Quat, amt: real, slerp: (Quat, Quat, real) -> Quat): (r: Quat)
    ensures r == slerp(ShortestArcStart(a, b), b, amt)
    // a and -a are the same rotation, and either one gives the same interpolation
    ensures Dot(a, b) != 0.0 ==> r == slerp(ShortestArcStart(Scale(a, -1.0), b), b, amt)
  {
    slerp(ShortestArcStart(a, b), b, amt)
  }
}
