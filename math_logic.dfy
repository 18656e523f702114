/**
 * The stateless coordinate logic of the waypoint editor: local/world transforms,
 * grid snapping, approximate equality and interpolation of float3 points.
 */
module MathLogic {
  import opened Unity

  /** Grid sizes at or below this leave a point unsnapped. */
  const SnapThreshold: real := 0.001
  /** Squared distance below which two points count as equal. */
  const Epsilon: real := 0.000001

  /**
   * Local space to world space through the local-to-world matrix: the identity
   * leaves the point in place, the local origin goes to the matrix's translation
   * column, and a pure translation moves every point by that column.
   */
  function TransformToWorldCoordinates(localPosition: Float3, localToWorldMatrix: Float4x4): (worldPosition: Float3)
    ensures localToWorldMatrix == Identity ==> worldPosition == localPosition
    ensures localPosition == ZeroFloat3 ==> worldPosition == Translation(localToWorldMatrix)
    ensures IsTranslation(localToWorldMatrix) ==> worldPosition == Offset(localPosition, Translation(localToWorldMatrix))
  {
    Transform(localToWorldMatrix, localPosition)
  }

  /** World space to local space through the world-to-local matrix, with the same three properties. */
  function TransformToLocalCoordinates(worldPosition: Float3, worldToLocalMatrix: Float4x4): (localPosition: Float3)
    ensures worldToLocalMatrix == Identity ==> localPosition == worldPosition
    ensures worldPosition == ZeroFloat3 ==> localPosition == Translation(worldToLocalMatrix)
    ensures IsTranslation(worldToLocalMatrix) ==> localPosition == Offset(worldPosition, Translation(worldToLocalMatrix))
  {
    Transform(worldToLocalMatrix, worldPosition)
  }

  /** The translation column of a matrix, as a point. */
  function Translation(m: Float4x4): Float3 {
    Float3(m.c3.x, m.c3.y, m.c3.z)
  }

  /** p moved by the offset d. */
  function Offset(p: Float3, d: Float3): Float3 {
    Float3(p.x + d.x, p.y + d.y, p.z + d.z)
  }

  /** Transforming by b and then by a is transforming by their product, when b is affine. */
  lemma TransformCompose(a: Float4x4, b: Float4x4, p: Float3)
    requires IsAffine(b)
    ensures Transform(a, Transform(b, p)) == Transform(Mul(a, b), p)
  {
    var p4 := Float4(p.x, p.y, p.z, 1.0);
    var q := MulVector(b, p4);
    assert q.w == 1.0;
    assert Float4(q.x, q.y, q.z, 1.0) == q;
    MulVectorCompose(a, b, p4);
  }

  lemma TransformIdentity(p: Float3)
    ensures Transform(Identity, p) == p
  {
  }

  /**
   * Round trip of the editor tool: a local point taken to world space and back
   * with the inverse matrix is the point it started from.
   */
  lemma WorldLocalRoundTrip(localToWorld: Float4x4, worldToLocal: Float4x4, p: Float3)
    requires IsAffine(localToWorld)
    requires Mul(worldToLocal, localToWorld) == Identity
    ensures TransformToLocalCoordinates(TransformToWorldCoordinates(p, localToWorld), worldToLocal) == p
  {
    TransformCompose(worldToLocal, localToWorld, p);
    TransformIdentity(p);
  }

  /** One coordinate rounded to the nearest multiple of the grid size. */
  function SnapCoordinate(c: real, gridSize: real): real
    requires gridSize > 0.0
  {
    RoundHalfToEven(c / gridSize) as real * gridSize
  }

  /** v is an integer multiple of g. */
  predicate IsMultipleOf(v: real, g: real)
    requires g > 0.0
  {
    (v / g).Floor as real == v / g
  }

  /** Every coordinate of p is an integer multiple of g. */
  predicate OnGrid(p: Float3, g: real)
    requires g > 0.0
  {
    IsMultipleOf(p.x, g) && IsMultipleOf(p.y, g) && IsMultipleOf(p.z, g)
  }

  lemma AbsScale(a: real, g: real)
    requires g > 0.0
    ensures Abs(a * g) == Abs(a) * g
  {
    if a < 0.0 {
      assert a * g < 0.0;
      assert Abs(a * g) == -(a * g) == (-a) * g;
    } else {
      assert a * g >= 0.0;
    }
  }

  lemma MulMonotone(a: real, b: real, g: real)
    requires a <= b && g > 0.0
    ensures a * g <= b * g
  {
    assert (b - a) * g >= 0.0;
  }

  lemma DivMul(a: real, g: real)
    requires g > 0.0
    ensures (a * g) / g == a
    ensures (a / g) * g == a
  {
  }

  /** The snapped coordinate minus the input is the rounding error scaled by the grid size. */
  lemma SnapError(c: real, g: real)
    requires g > 0.0
    ensures SnapCoordinate(c, g) - c == (RoundHalfToEven(c / g) as real - c / g) * g
    ensures SnapCoordinate(c, g) / g == RoundHalfToEven(c / g) as real
  {
    var q := c / g;
    var k := RoundHalfToEven(q) as real;
    DivMul(c, g);
    DivMul(k, g);
    assert (k - q) * g == k * g - q * g;
  }

  lemma SnapCoordinateFacts(c: real, g: real)
    requires g > 0.0
    ensures IsMultipleOf(SnapCoordinate(c, g), g)
    ensures Abs(SnapCoordinate(c, g) - c) <= g / 2.0
  {
    var q := c / g;
    var k := RoundHalfToEven(q);
    SnapError(c, g);
    assert (SnapCoordinate(c, g) / g).Floor == k;
    ScaledErrorBound(SnapCoordinate(c, g) - c, k as real - q, 0.5, g);
  }

  /** An error of e grid cells, |e| <= bound, is at most bound * g in length. */
  lemma ScaledErrorBound(err: real, e: real, bound: real, g: real)
    requires g > 0.0 && err == e * g && Abs(e) <= bound
    ensures Abs(err) <= bound * g
  {
    AbsScale(e, g);
    MulMonotone(Abs(e), bound, g);
  }

  /**
   * If the grid size is at or below the threshold the point is returned
   * unchanged; otherwise every coordinate becomes a multiple of the grid size
   * at most half a cell away from where it was.
   */
  function CalculateSnappedPosition(inputPosition: Float3, gridSize: real): (r: Float3)
    ensures gridSize <= SnapThreshold ==> r == inputPosition
    ensures gridSize > SnapThreshold ==> OnGrid(r, gridSize)
    ensures gridSize > SnapThreshold ==>
      Abs(r.x - inputPosition.x) <= gridSize / 2.0 &&
      Abs(r.y - inputPosition.y) <= gridSize / 2.0 &&
      Abs(r.z - inputPosition.z) <= gridSize / 2.0
  {
    if gridSize <= SnapThreshold then
      inputPosition
    else
      SnapCoordinateFacts(inputPosition.x, gridSize);
      SnapCoordinateFacts(inputPosition.y, gridSize);
      SnapCoordinateFacts(inputPosition.z, gridSize);
      Float3(SnapCoordinate(inputPosition.x, gridSize),
             SnapCoordinate(inputPosition.y, gridSize),
             SnapCoordinate(inputPosition.z, gridSize))
  }

  /** Rounding picks an integer at least as close as any other integer. */
  lemma {:induction false} RoundIsNearest(q: real, m: int)
    ensures Abs(RoundHalfToEven(q) as real - q) <= Abs(m as real - q)
  {
    var f := q.Floor;
    var k := RoundHalfToEven(q);
    assert f as real <= q < f as real + 1.0;
    if k == f {
      assert q - f as real <= 0.5;
    } else {
      assert k == f + 1 && q - f as real >= 0.5;
    }
    if m <= f {
      assert Abs(m as real - q) >= q - f as real;
    } else {
      assert Abs(m as real - q) >= f as real + 1.0 - q;
    }
  }

  lemma NonNegativeProduct(x: real, g: real)
    requires x >= 0.0 && g > 0.0
    ensures x * g >= 0.0
  {
  }

  /**
   * With c = q * g, the multiple s = k * g is at least as near to c as the
   * multiple t = m * g when k is at least as near to q as m.
   */
  lemma NearerInCellsIsNearer(c: real, g: real, q: real, k: real, m: real, s: real, t: real)
    requires g > 0.0 && q * g == c && Abs(k - q) <= Abs(m - q)
    requires s == k * g && t == m * g
    ensures Abs(s - c) <= Abs(t - c)
  {
    assert s - c == (k - q) * g;
    assert t - c == (m - q) * g;
    if m >= q {
      // -(m - q) <= k - q <= m - q, scaled by g
      assert m - k >= 0.0 && k + m - 2.0 * q >= 0.0;
      NonNegativeProduct(m - k, g);
      NonNegativeProduct(k + m - 2.0 * q, g);
    } else {
      // -(q - m) <= k - q <= q - m, scaled by g
      assert k - m >= 0.0 && 2.0 * q - k - m >= 0.0;
      NonNegativeProduct(k - m, g);
      NonNegativeProduct(2.0 * q - k - m, g);
    }
  }

  lemma SnapCoordinateIsNearest(c: real, g: real, m: int)
    requires g > 0.0
    ensures Abs(SnapCoordinate(c, g) - c) <= Abs(m as real * g - c)
  {
    RoundIsNearest(c / g, m);
    DivMul(c, g);
    NearerInCellsIsNearer(c, g, c / g, RoundHalfToEven(c / g) as real, m as real, SnapCoordinate(c, g), m as real * g);
  }

  /**
   * A snapped coordinate is the nearest multiple of the grid size: for any
   * integers mx, my, mz, no multiple mx * gridSize (and so on) is closer.
   */
  lemma SnapIsNearestMultiple(p: Float3, gridSize: real, mx: int, my: int, mz: int)
    requires gridSize > SnapThreshold
    ensures Abs(CalculateSnappedPosition(p, gridSize).x - p.x) <= Abs(mx as real * gridSize - p.x)
    ensures Abs(CalculateSnappedPosition(p, gridSize).y - p.y) <= Abs(my as real * gridSize - p.y)
    ensures Abs(CalculateSnappedPosition(p, gridSize).z - p.z) <= Abs(mz as real * gridSize - p.z)
  {
    SnapCoordinateIsNearest(p.x, gridSize, mx);
    SnapCoordinateIsNearest(p.y, gridSize, my);
    SnapCoordinateIsNearest(p.z, gridSize, mz);
  }

  /** Each output coordinate depends on its own input coordinate and the grid size only. */
  lemma SnapIsPerCoordinate(p: Float3, p': Float3, gridSize: real)
    ensures p.x == p'.x ==> CalculateSnappedPosition(p, gridSize).x == CalculateSnappedPosition(p', gridSize).x
    ensures p.y == p'.y ==> CalculateSnappedPosition(p, gridSize).y == CalculateSnappedPosition(p', gridSize).y
    ensures p.z == p'.z ==> CalculateSnappedPosition(p, gridSize).z == CalculateSnappedPosition(p', gridSize).z
  {
  }

  lemma SnapCoordinateOfMultiple(c: real, g: real)
    requires g > 0.0 && IsMultipleOf(c, g)
    ensures SnapCoordinate(c, g) == c
  {
    var k := (c / g).Floor;
    assert c / g == k as real;
    assert RoundHalfToEven(k as real) == k;
    DivMul(c, g);
  }

  /** Snapping an already snapped point gives it back. */
  lemma SnapIsIdempotent(p: Float3, gridSize: real)
    ensures CalculateSnappedPosition(CalculateSnappedPosition(p, gridSize), gridSize)
            == CalculateSnappedPosition(p, gridSize)
  {
    if gridSize > SnapThreshold {
      var s := CalculateSnappedPosition(p, gridSize);
      SnapCoordinateOfMultiple(s.x, gridSize);
      SnapCoordinateOfMultiple(s.y, gridSize);
      SnapCoordinateOfMultiple(s.z, gridSize);
    }
  }

  /** Two points are approximately equal when their squared distance is below Epsilon. */
  function IsApproximatelyEqual(positionA: Float3, positionB: Float3): (areEqual: bool)
    ensures positionA == positionB ==> areEqual
  {
    DistSq(positionA, positionB) < Epsilon
  }

  lemma ApproximatelyEqualIsSymmetric(a: Float3, b: Float3)
    ensures IsApproximatelyEqual(a, b) == IsApproximatelyEqual(b, a)
  {
    assert DistSq(a, b) == DistSq(b, a);
  }

  lemma SquareBelow(d: real, bound: real)
    requires bound > 0.0 && d * d < bound * bound
    ensures Abs(d) < bound
  {
  }

  lemma SquareNonNegative(d: real)
    ensures d * d >= 0.0
  {
    if d < 0.0 {
      assert d * d == (-d) * (-d);
    }
  }

  /**
   * Approximately equal points differ by less than a thousandth in each
   * coordinate, and points that differ by that much in one coordinate are not equal.
   */
  lemma ApproximatelyEqualIsClose(a: Float3, b: Float3)
    requires IsApproximatelyEqual(a, b)
    ensures Abs(a.x - b.x) < 0.001 && Abs(a.y - b.y) < 0.001 && Abs(a.z - b.z) < 0.001
  {
    var dx, dy, dz := a.x - b.x, a.y - b.y, a.z - b.z;
    assert DistSq(a, b) == dx * dx + dy * dy + dz * dz;
    SquareNonNegative(dx);
    SquareNonNegative(dy);
    SquareNonNegative(dz);
    assert Epsilon == 0.001 * 0.001;
    SquareBelow(dx, 0.001);
    SquareBelow(dy, 0.001);
    SquareBelow(dz, 0.001);
  }

  /** Unclamped linear interpolation: t = 0 gives start, t = 1 gives end, t = 1/2 the midpoint. */
  function InterpolatePosition(start: Float3, end: Float3, t: real): (result: Float3)
    ensures t == 0.0 ==> result == start
    ensures t == 1.0 ==> result == end
    ensures t == 0.5 ==> result == Float3((start.x + end.x) / 2.0, (start.y + end.y) / 2.0, (start.z + end.z) / 2.0)
  {
    Lerp(start, end, t)
  }
}
