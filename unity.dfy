/**
 * The host-library value types and numeric helpers that the waypoint code calls:
 * UnityEngine.Vector3, Unity.Mathematics.float3 / float4 / float4x4, and the
 * Mathf / math / System.Math helpers it uses. Single-precision floats are
 * modelled as mathematical reals.
 */
module Unity {

  /** UnityEngine.Vector3 */
  datatype Vector3 = Vector3(x: real, y: real, z: real)

  /** Unity.Mathematics.float3 */
  datatype Float3 = Float3(x: real, y: real, z: real)

  /** Unity.Mathematics.float4 */
  datatype Float4 = Float4(x: real, y: real, z: real, w: real)

  /** Unity.Mathematics.float4x4, stored column by column as the library does. */
  datatype Float4x4 = Float4x4(c0: Float4, c1: Float4, c2: Float4, c3: Float4)

  const ZeroVector: Vector3 := Vector3(0.0, 0.0, 0.0)
  const ZeroFloat3: Float3 := Float3(0.0, 0.0, 0.0)

  datatype Option<T> = None | Some(value: T)

  function Abs(v: real): (r: real)
    ensures r >= 0.0 && (r == v || r == -v)
  {
    if v < 0.0 then -v else v
  }

  /** Mathf.Max(a, b) */
  function Max(a: real, b: real): (r: real)
    ensures r >= a && r >= b && (r == a || r == b)
  {
    if a > b then a else b
  }

  /** Mathf.Clamp(value, min, max): below min gives min, above max gives max. */
  function Clamp(value: real, min: real, max: real): (r: real)
    requires min <= max
    ensures min <= r <= max
    ensures min <= value <= max ==> r == value
    ensures value < min ==> r == min
    ensures value > max ==> r == max
  {
    if value < min then min else if value > max then max else value
  }

  /** Mathf.Clamp01(value) */
  function Clamp01(value: real): (r: real)
    ensures 0.0 <= r <= 1.0
    ensures 0.0 <= value <= 1.0 ==> r == value
  {
    Clamp(value, 0.0, 1.0)
  }

  /**
   * math.round, which is System.Math.Round with its default midpoint rule:
   * the nearest integer, and on an exact .5 the even neighbour.
   */
  function RoundHalfToEven(q: real): (k: int)
    ensures Abs(k as real - q) <= 0.5
    ensures Abs(k as real - q) == 0.5 ==> k % 2 == 0
  {
    var f := q.Floor;
    var frac := q - f as real;
    if frac < 0.5 then f
    else if frac > 0.5 then f + 1
    else if f % 2 == 0 then f else f + 1
  }

  /** math.distancesq on float3 */
  function DistSq(a: Float3, b: Float3): (r: real)
    ensures r >= 0.0
  {
    (a.x - b.x) * (a.x - b.x) + (a.y - b.y) * (a.y - b.y) + (a.z - b.z) * (a.z - b.z)
  }

  /** The squared Euclidean distance of two Vector3 values. */
  function DistSqV(a: Vector3, b: Vector3): (r: real)
    ensures r >= 0.0
  {
    (a.x - b.x) * (a.x - b.x) + (a.y - b.y) * (a.y - b.y) + (a.z - b.z) * (a.z - b.z)
  }

  /** Vector3.Distance, supplied by the host. */
  type Distance = (Vector3, Vector3) -> real

  /** math.distance on float3, supplied by the host. */
  type DistanceF = (Float3, Float3) -> real

  /**
   * Vector3.Distance has no closed form without a square root, so the model
   * takes it as a parameter; this predicate says that the parameter is the
   * Euclidean distance: never negative, and its square is the squared distance.
   */
  ghost predicate IsEuclidean(dist: Distance) {
    forall a, b :: dist(a, b) >= 0.0 && dist(a, b) * dist(a, b) == DistSqV(a, b)
  }

  /** The same for math.distance on float3. */
  ghost predicate IsEuclideanF(dist: DistanceF) {
    forall a, b :: dist(a, b) >= 0.0 && dist(a, b) * dist(a, b) == DistSq(a, b)
  }

  /** Two non-negative reals with the same square are equal. */
  lemma SquareRootUnique(d1: real, d2: real)
    requires d1 >= 0.0 && d2 >= 0.0 && d1 * d1 == d2 * d2
    ensures d1 == d2
  {
    assert (d1 - d2) * (d1 + d2) == d1 * d1 - d2 * d2;
    if d1 + d2 == 0.0 {
    } else {
      assert d1 - d2 == 0.0;
    }
  }

  /** The Euclidean distance is a metric on its first two axioms: zero on equal points, symmetric. */
  lemma EuclideanIsSymmetric(dist: Distance, a: Vector3, b: Vector3)
    requires IsEuclidean(dist)
    ensures dist(a, a) == 0.0
    ensures dist(a, b) == dist(b, a)
  {
    assert dist(a, a) * dist(a, a) == DistSqV(a, a) == 0.0;
    SquareRootUnique(dist(a, a), 0.0);
    assert DistSqV(a, b) == DistSqV(b, a);
    SquareRootUnique(dist(a, b), dist(b, a));
  }

  /** A square s = d * d is never negative, and positive unless d is zero. */
  lemma SquareSign(d: real, s: real)
    requires s == d * d
    ensures s >= 0.0
    ensures d != 0.0 ==> s > 0.0
  {
    if d < 0.0 {
      assert s == (-d) * (-d);
      PositiveProduct(-d, -d, s);
    } else if d > 0.0 {
      PositiveProduct(d, d, s);
    }
  }

  /** The product p = a * b of two positive numbers is positive. */
  lemma PositiveProduct(a: real, b: real, p: real)
    requires a > 0.0 && b > 0.0 && p == a * b
    ensures p > 0.0
  {
  }

  /** A sum of three squares, not all of zero numbers, is positive. */
  lemma PositiveSumOfSquares(dx: real, dy: real, dz: real, s: real)
    requires s == dx * dx + dy * dy + dz * dz
    requires dx != 0.0 || dy != 0.0 || dz != 0.0
    ensures s > 0.0
  {
    var sx, sy, sz := dx * dx, dy * dy, dz * dz;
    SquareSign(dx, sx);
    SquareSign(dy, sy);
    SquareSign(dz, sz);
  }

  /** Under a Euclidean distance, two different points are a positive distance apart. */
  lemma EuclideanSeparates(dist: Distance, a: Vector3, b: Vector3)
    requires IsEuclidean(dist) && a != b
    ensures dist(a, b) > 0.0
  {
    PositiveSumOfSquares(a.x - b.x, a.y - b.y, a.z - b.z, DistSqV(a, b));
    var d := dist(a, b);
    assert d >= 0.0 && d * d == DistSqV(a, b);
  }

  /** Vector3.LerpUnclamped: a + (b - a) * t, coordinate by coordinate. */
  function LerpUnclamped(a: Vector3, b: Vector3, t: real): Vector3 {
    Vector3(a.x + (b.x - a.x) * t, a.y + (b.y - a.y) * t, a.z + (b.z - a.z) * t)
  }

  /** Vector3.Lerp: the parameter is clamped to [0, 1] first. */
  function LerpClamped(a: Vector3, b: Vector3, t: real): (r: Vector3)
    ensures t <= 0.0 ==> r == a
    ensures t >= 1.0 ==> r == b
    ensures 0.0 <= t <= 1.0 ==> r == LerpUnclamped(a, b, t)
  {
    LerpUnclamped(a, b, Clamp01(t))
  }

  /** math.lerp on float3: unclamped, x + s * (y - x). */
  function Lerp(x: Float3, y: Float3, s: real): (r: Float3)
    ensures s == 0.0 ==> r == x
    ensures s == 1.0 ==> r == y
  {
    Float3(x.x + s * (y.x - x.x), x.y + s * (y.y - x.y), x.z + s * (y.z - x.z))
  }

  /** The dot product of a matrix row (r0, r1, r2, r3) with a column vector. */
  function Dot(r0: real, r1: real, r2: real, r3: real, v: Float4): real {
    r0 * v.x + r1 * v.y + r2 * v.z + r3 * v.w
  }

  /** float4 + float4 */
  function Add4(u: Float4, v: Float4): Float4 {
    Float4(u.x + v.x, u.y + v.y, u.z + v.z, u.w + v.w)
  }

  /** float4 * float */
  function Scale4(v: Float4, s: real): Float4 {
    Float4(v.x * s, v.y * s, v.z * s, v.w * s)
  }

  /** math.mul(float4x4, float4), one row of m at a time. */
  function MulVector(m: Float4x4, v: Float4): Float4 {
    Float4(Dot(m.c0.x, m.c1.x, m.c2.x, m.c3.x, v), Dot(m.c0.y, m.c1.y, m.c2.y, m.c3.y, v),
           Dot(m.c0.z, m.c1.z, m.c2.z, m.c3.z, v), Dot(m.c0.w, m.c1.w, m.c2.w, m.c3.w, v))
  }

  /** The columns of m weighted by the coordinates of v: m.c0 * v.x + m.c1 * v.y + m.c2 * v.z + m.c3 * v.w. */
  function ColumnCombination(m: Float4x4, v: Float4): Float4 {
    Add4(Add4(Add4(Scale4(m.c0, v.x), Scale4(m.c1, v.y)), Scale4(m.c2, v.z)), Scale4(m.c3, v.w))
  }

  /** math.mul(float4x4, float4x4): column i of the product is a times column i of b. */
  function Mul(a: Float4x4, b: Float4x4): Float4x4 {
    Float4x4(MulVector(a, b.c0), MulVector(a, b.c1), MulVector(a, b.c2), MulVector(a, b.c3))
  }

  lemma DotAdd(r0: real, r1: real, r2: real, r3: real, u: Float4, v: Float4)
    ensures Dot(r0, r1, r2, r3, Add4(u, v)) == Dot(r0, r1, r2, r3, u) + Dot(r0, r1, r2, r3, v)
  {
  }

  lemma DotScale(r0: real, r1: real, r2: real, r3: real, u: Float4, s: real)
    ensures Dot(r0, r1, r2, r3, Scale4(u, s)) == Dot(r0, r1, r2, r3, u) * s
  {
  }

  /** Multiplying by a matrix distributes over a sum of vectors. */
  lemma MulVectorAdd(m: Float4x4, u: Float4, v: Float4)
    ensures MulVector(m, Add4(u, v)) == Add4(MulVector(m, u), MulVector(m, v))
  {
    DotAdd(m.c0.x, m.c1.x, m.c2.x, m.c3.x, u, v);
    DotAdd(m.c0.y, m.c1.y, m.c2.y, m.c3.y, u, v);
    DotAdd(m.c0.z, m.c1.z, m.c2.z, m.c3.z, u, v);
    DotAdd(m.c0.w, m.c1.w, m.c2.w, m.c3.w, u, v);
  }

  lemma MulVectorScaleX(m: Float4x4, u: Float4, s: real)
    ensures MulVector(m, Scale4(u, s)).x == Scale4(MulVector(m, u), s).x
  {
    DotScale(m.c0.x, m.c1.x, m.c2.x, m.c3.x, u, s);
  }

  lemma MulVectorScaleY(m: Float4x4, u: Float4, s: real)
    ensures MulVector(m, Scale4(u, s)).y == Scale4(MulVector(m, u), s).y
  {
    DotScale(m.c0.y, m.c1.y, m.c2.y, m.c3.y, u, s);
  }

  lemma MulVectorScaleZ(m: Float4x4, u: Float4, s: real)
    ensures MulVector(m, Scale4(u, s)).z == Scale4(MulVector(m, u), s).z
  {
    DotScale(m.c0.z, m.c1.z, m.c2.z, m.c3.z, u, s);
  }

  lemma MulVectorScaleW(m: Float4x4, u: Float4, s: real)
    ensures MulVector(m, Scale4(u, s)).w == Scale4(MulVector(m, u), s).w
  {
    DotScale(m.c0.w, m.c1.w, m.c2.w, m.c3.w, u, s);
  }

  /** Multiplying by a matrix commutes with scaling the vector. */
  lemma MulVectorScale(m: Float4x4, u: Float4, s: real)
    ensures MulVector(m, Scale4(u, s)) == Scale4(MulVector(m, u), s)
  {
    MulVectorScaleX(m, u, s);
    MulVectorScaleY(m, u, s);
    MulVectorScaleZ(m, u, s);
    MulVectorScaleW(m, u, s);
  }

  lemma ColumnCombinationX(m: Float4x4, v: Float4)
    ensures MulVector(m, v).x == ColumnCombination(m, v).x
  {
  }

  lemma ColumnCombinationY(m: Float4x4, v: Float4)
    ensures MulVector(m, v).y == ColumnCombination(m, v).y
  {
  }

  lemma ColumnCombinationZ(m: Float4x4, v: Float4)
    ensures MulVector(m, v).z == ColumnCombination(m, v).z
  {
  }

  lemma ColumnCombinationW(m: Float4x4, v: Float4)
    ensures MulVector(m, v).w == ColumnCombination(m, v).w
  {
  }

  /** The row-by-row product is the column combination math.mul computes. */
  lemma MulVectorIsColumnCombination(m: Float4x4, v: Float4)
    ensures MulVector(m, v) == ColumnCombination(m, v)
  {
    ColumnCombinationX(m, v);
    ColumnCombinationY(m, v);
    ColumnCombinationZ(m, v);
    ColumnCombinationW(m, v);
  }

  /** Matrix products associate with the matrix-vector product: a (b v) == (a b) v. */
  lemma MulVectorCompose(a: Float4x4, b: Float4x4, v: Float4)
    ensures MulVector(a, MulVector(b, v)) == MulVector(Mul(a, b), v)
  {
    var s0, s1, s2, s3 := Scale4(b.c0, v.x), Scale4(b.c1, v.y), Scale4(b.c2, v.z), Scale4(b.c3, v.w);
    MulVectorIsColumnCombination(b, v);
    MulVectorIsColumnCombination(Mul(a, b), v);
    MulVectorAdd(a, Add4(Add4(s0, s1), s2), s3);
    MulVectorAdd(a, Add4(s0, s1), s2);
    MulVectorAdd(a, s0, s1);
    MulVectorScale(a, b.c0, v.x);
    MulVectorScale(a, b.c1, v.y);
    MulVectorScale(a, b.c2, v.z);
    MulVectorScale(a, b.c3, v.w);
  }

  /** float4x4.identity */
  const Identity: Float4x4 :=
    Float4x4(Float4(1.0, 0.0, 0.0, 0.0), Float4(0.0, 1.0, 0.0, 0.0),
             Float4(0.0, 0.0, 1.0, 0.0), Float4(0.0, 0.0, 0.0, 1.0))

  /** The bottom row is (0, 0, 0, 1): the matrix is an affine map of 3D points. */
  predicate IsAffine(m: Float4x4) {
    m.c0.w == 0.0 && m.c1.w == 0.0 && m.c2.w == 0.0 && m.c3.w == 1.0
  }

  /** The first three columns are those of the identity: m only moves points by its last column. */
  predicate IsTranslation(m: Float4x4) {
    m.c0 == Float4(1.0, 0.0, 0.0, 0.0) && m.c1 == Float4(0.0, 1.0, 0.0, 0.0)
    && m.c2 == Float4(0.0, 0.0, 1.0, 0.0)
  }

  /**
   * math.transform(float4x4, float3): multiplies the point (x, y, z, 1) and keeps
   * x, y and z, with no division by w. The identity leaves every point in place,
   * the origin lands on the translation column, and a pure translation moves
   * every point by that column.
   */
  function Transform(m: Float4x4, p: Float3): (r: Float3)
    ensures m == Identity ==> r == p
    ensures p == ZeroFloat3 ==> r == Float3(m.c3.x, m.c3.y, m.c3.z)
    ensures IsTranslation(m) ==> r == Float3(p.x + m.c3.x, p.y + m.c3.y, p.z + m.c3.z)
  {
    var v := MulVector(m, Float4(p.x, p.y, p.z, 1.0));
    Float3(v.x, v.y, v.z)
  }
}
