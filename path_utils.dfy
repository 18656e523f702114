/**
 * Utility operations on waypoint paths: polyline length, the point at a given
 * fraction of that length, and conversion between Vector3 and float3.
 */
module PathUtils {
  import opened Unity

  /** float3 to Vector3, coordinate by coordinate. */
  function ToVector3(f: Float3): (v: Vector3)
    ensures v.x == f.x && v.y == f.y && v.z == f.z
  {
    Vector3(f.x, f.y, f.z)
  }

  /** Vector3 to float3; converting back gives the original vector. */
  function ToFloat3(v: Vector3): (f: Float3)
    ensures ToVector3(f) == v
  {
    Float3(v.x, v.y, v.z)
  }

  lemma Float3RoundTrip(f: Float3)
    ensures ToFloat3(ToVector3(f)) == f
  {
  }

  function ToVector3s(fs: seq<Float3>): (vs: seq<Vector3>)
    ensures |vs| == |fs|
    ensures forall i :: 0 <= i < |fs| ==> vs[i] == ToVector3(fs[i])
  {
    seq(|fs|, i requires 0 <= i < |fs| => ToVector3(fs[i]))
  }

  /** The sum of dist(w[i], w[i + 1]) over all consecutive pairs of w. */
  function PathLength<P>(w: seq<P>, dist: (P, P) -> real): real
  {
    if |w| < 2 then 0.0 else PathLength(w[..|w| - 1], dist) + dist(w[|w| - 2], w[|w| - 1])
  }

  /** The length of segment i, from w[i] to w[i + 1]. */
  function Segment<P>(w: seq<P>, dist: (P, P) -> real, i: int): real
    requires 0 <= i < |w| - 1
  {
    dist(w[i], w[i + 1])
  }

  /** Every segment of w has a non-negative length. */
  ghost predicate SegmentsNonNegative<P>(w: seq<P>, dist: (P, P) -> real) {
    forall i :: 0 <= i < |w| - 1 ==> Segment(w, dist, i) >= 0.0
  }

  /** Every segment of w has a positive length: no two consecutive points coincide. */
  ghost predicate NoZeroSegments<P>(w: seq<P>, dist: (P, P) -> real) {
    forall i :: 0 <= i < |w| - 1 ==> Segment(w, dist, i) > 0.0
  }

  lemma SegmentPositive<P>(w: seq<P>, dist: (P, P) -> real, i: int)
    requires NoZeroSegments(w, dist) && 0 <= i < |w| - 1
    ensures dist(w[i], w[i + 1]) > 0.0
  {
    assert Segment(w, dist, i) > 0.0;
  }

  /** Appending a point adds exactly the length of the new last segment. */
  lemma PathLengthAppend<P>(w: seq<P>, p: P, dist: (P, P) -> real)
    requires |w| >= 1
    ensures PathLength(w + [p], dist) == PathLength(w, dist) + dist(w[|w| - 1], p)
  {
    var v := w + [p];
    assert v[..|v| - 1] == w;
    assert v[|v| - 2] == w[|w| - 1] && v[|v| - 1] == p;
  }

  /** With non-negative segment lengths the path length is non-negative. */
  lemma {:induction false} PathLengthNonNegative<P>(w: seq<P>, dist: (P, P) -> real)
    requires SegmentsNonNegative(w, dist)
    ensures PathLength(w, dist) >= 0.0
  {
    if |w| >= 2 {
      var v := w[..|w| - 1];
      forall i | 0 <= i < |v| - 1
        ensures Segment(v, dist, i) >= 0.0
      {
        assert v[i] == w[i] && v[i + 1] == w[i + 1];
        assert Segment(v, dist, i) == Segment(w, dist, i);
      }
      PathLengthNonNegative(v, dist);
      assert Segment(w, dist, |w| - 2) >= 0.0;
    }
  }

  /** A path whose consecutive points are one unit apart has length n - 1. */
  lemma {:induction false} UnitSpacedPathLength<P>(w: seq<P>, dist: (P, P) -> real)
    requires |w| >= 1
    requires forall i :: 0 <= i < |w| - 1 ==> Segment(w, dist, i) == 1.0
    ensures PathLength(w, dist) == (|w| - 1) as real
  {
    if |w| >= 2 {
      var v := w[..|w| - 1];
      forall i | 0 <= i < |v| - 1
        ensures Segment(v, dist, i) == 1.0
      {
        assert v[i] == w[i] && v[i + 1] == w[i + 1];
        assert Segment(v, dist, i) == Segment(w, dist, i);
      }
      UnitSpacedPathLength(v, dist);
      assert Segment(w, dist, |w| - 2) == 1.0;
    }
  }

  /**
   * The Vector3 and the float3 path lengths agree on corresponding inputs when
   * both distances are Euclidean.
   */
  lemma {:induction false} PathLengthOverloadsAgree(fs: seq<Float3>, distF: DistanceF, dist: Distance)
    requires IsEuclideanF(distF) && IsEuclidean(dist)
    ensures PathLength(ToVector3s(fs), dist) == PathLength(fs, distF)
  {
    var vs := ToVector3s(fs);
    if |fs| >= 2 {
      var n := |fs|;
      PathLengthOverloadsAgree(fs[..n - 1], distF, dist);
      assert ToVector3s(fs[..n - 1]) == vs[..n - 1];
      var a, b := fs[n - 2], fs[n - 1];
      assert DistSq(a, b) == DistSqV(ToVector3(a), ToVector3(b));
      SquareRootUnique(distF(a, b), dist(ToVector3(a), ToVector3(b)));
    }
  }

  /**
   * Vector3[] overload: 0 for null or fewer than two points, otherwise the sum
   * of the consecutive segment lengths.
   */
  method CalculatePathDistance(waypoints: Option<seq<Vector3>>, dist: Distance) returns (totalDistance: real)
    ensures waypoints.None? || |waypoints.value| < 2 ==> totalDistance == 0.0
    ensures waypoints.Some? ==> totalDistance == PathLength(waypoints.value, dist)
  {
    if waypoints.None? || |waypoints.value| < 2 {
      return 0.0;
    }
    var w := waypoints.value;
    totalDistance := 0.0;
    var i := 0;
    while i < |w| - 1
      invariant 0 <= i <= |w| - 1
      invariant totalDistance == PathLength(w[..i + 1], dist)
    {
      assert w[..i + 2][..i + 1] == w[..i + 1];
      totalDistance := totalDistance + dist(w[i], w[i + 1]);
      i := i + 1;
    }
    assert w[..|w|] == w;
  }

  /** float3[] overload, the same computation with math.distance. */
  method CalculatePathDistanceF(waypoints: Option<seq<Float3>>, dist: DistanceF) returns (totalDistance: real)
    ensures waypoints.None? || |waypoints.value| < 2 ==> totalDistance == 0.0
    ensures waypoints.Some? ==> totalDistance == PathLength(waypoints.value, dist)
  {
    if waypoints.None? || |waypoints.value| < 2 {
      return 0.0;
    }
    var w := waypoints.value;
    totalDistance := 0.0;
    var i := 0;
    while i < |w| - 1
      invariant 0 <= i <= |w| - 1
      invariant totalDistance == PathLength(w[..i + 1], dist)
    {
      assert w[..i + 2][..i + 1] == w[..i + 1];
      totalDistance := totalDistance + dist(w[i], w[i + 1]);
      i := i + 1;
    }
    assert w[..|w|] == w;
  }

  /** The length of the first i segments of w. */
  function Prefix(w: seq<Vector3>, dist: Distance, i: nat): real
    requires i < |w|
  {
    PathLength(w[..i + 1], dist)
  }

  lemma PrefixStep(w: seq<Vector3>, dist: Distance, i: nat)
    requires i + 1 < |w|
    ensures Prefix(w, dist, i + 1) == Prefix(w, dist, i) + dist(w[i], w[i + 1])
  {
    assert w[..i + 2][..i + 1] == w[..i + 1];
  }

  /** No segment lies before the first point. */
  lemma PrefixZero(w: seq<Vector3>, dist: Distance)
    requires |w| >= 1
    ensures Prefix(w, dist, 0) == 0.0
  {
    assert w[..1][..0] == [];
  }

  /** With positive segments, the prefix lengths strictly increase. */
  lemma {:induction false} PrefixIncreasing(w: seq<Vector3>, dist: Distance, i: nat, j: nat)
    requires i < j < |w| && NoZeroSegments(w, dist)
    ensures Prefix(w, dist, i) < Prefix(w, dist, j)
    decreases j - i
  {
    PrefixStep(w, dist, j - 1);
    SegmentPositive(w, dist, j - 1);
    if i < j - 1 {
      PrefixIncreasing(w, dist, i, j - 1);
    }
  }

  /**
   * The segment walk of GetPositionAtPercentage from segment i, with the length
   * of the segments before it accumulated in accumulated. A zero-length segment
   * is divided by only when the walk stops on it, which needs accumulated >= target.
   */
  function WalkSegments(w: seq<Vector3>, dist: Distance, target: real, i: nat, accumulated: real): Vector3
    requires |w| >= 2 && i <= |w| - 1
    requires i < |w| - 1 && Segment(w, dist, i) == 0.0 ==> accumulated < target
    decreases |w| - i
  {
    if i == |w| - 1 then
      w[|w| - 1]
    else
      var segment := dist(w[i], w[i + 1]);
      if accumulated + segment >= target then
        LerpClamped(w[i], w[i + 1], (target - accumulated) / segment)
      else
        WalkSegments(w, dist, target, i + 1, accumulated + segment)
  }

  /** The distance along the path at which the point lies: the total length times the clamped fraction. */
  function TargetDistance(total: real, percentage: real): real {
    total * Clamp01(percentage)
  }

  /**
   * The walk never divides by zero. Every segment after the first is reached
   * with accumulated < target, so a zero-length one is passed over; only a
   * zero-length first segment with a target distance of at most 0 is divided by.
   */
  predicate WalkDefined(waypoints: Option<seq<Vector3>>, percentage: real, dist: Distance) {
    match waypoints
    case None => true
    case Some(w) =>
      |w| < 2 || Segment(w, dist, 0) != 0.0 || TargetDistance(PathLength(w, dist), percentage) > 0.0
  }

  /** The point reached after the fraction Clamp01(percentage) of the path length. */
  function PositionAtPercentage(waypoints: Option<seq<Vector3>>, percentage: real, dist: Distance): Vector3
    requires WalkDefined(waypoints, percentage, dist)
  {
    match waypoints
    case None => ZeroVector
    case Some(w) =>
      if |w| == 0 then ZeroVector
      else if |w| == 1 then w[0]
      else WalkSegments(w, dist, TargetDistance(PathLength(w, dist), percentage), 0, 0.0)
  }

  /**
   * The point at a fraction of the path length: zero for null or empty input,
   * the only point of a one-point path, otherwise found by walking the segments.
   */
  method GetPositionAtPercentage(waypoints: Option<seq<Vector3>>, percentage: real, dist: Distance)
    returns (position: Vector3)
    requires WalkDefined(waypoints, percentage, dist)
    ensures waypoints.None? || |waypoints.value| == 0 ==> position == ZeroVector
    ensures waypoints.Some? && |waypoints.value| == 1 ==> position == waypoints.value[0]
    ensures position == PositionAtPercentage(waypoints, percentage, dist)
  {
    if waypoints.None? || |waypoints.value| == 0 {
      return ZeroVector;
    }
    var w := waypoints.value;
    if |w| == 1 {
      return w[0];
    }
    var totalDistance := CalculatePathDistance(waypoints, dist);
    var targetDistance := TargetDistance(totalDistance, percentage);
    ghost var spec := PositionAtPercentage(waypoints, percentage, dist);
    var accumulatedDistance := 0.0;
    var i := 0;
    while i < |w| - 1
      invariant 0 <= i <= |w| - 1
      invariant i == 0 ==> accumulatedDistance == 0.0
      invariant i > 0 ==> accumulatedDistance < targetDistance
      invariant WalkSegments(w, dist, targetDistance, i, accumulatedDistance) == spec
    {
      var segmentDistance := dist(w[i], w[i + 1]);
      if accumulatedDistance + segmentDistance >= targetDistance {
        assert Segment(w, dist, i) == segmentDistance;
        var t := (targetDistance - accumulatedDistance) / segmentDistance;
        return LerpClamped(w[i], w[i + 1], t);
      }
      accumulatedDistance := accumulatedDistance + segmentDistance;
      i := i + 1;
    }
    return w[|w| - 1];
  }

  lemma ScaleByFraction(total: real, p: real)
    requires total >= 0.0 && 0.0 <= p <= 1.0
    ensures 0.0 <= total * p <= total
  {
    assert total * (1.0 - p) >= 0.0;
  }

  /** The target distance lies between the start and the end of the path. */
  lemma TargetWithinPath(total: real, percentage: real)
    requires total >= 0.0
    ensures 0.0 <= TargetDistance(total, percentage) <= total
  {
    ScaleByFraction(total, Clamp01(percentage));
  }

  /** Positive segments are in particular non-negative. */
  lemma PositiveSegmentsNonNegative<P>(w: seq<P>, dist: (P, P) -> real)
    requires NoZeroSegments(w, dist)
    ensures SegmentsNonNegative(w, dist)
  {
  }

  lemma DivideBySelf(s: real)
    requires s > 0.0
    ensures s / s == 1.0
  {
  }

  lemma FractionInUnit(a: real, s: real)
    requires 0.0 <= a <= s && s > 0.0
    ensures 0.0 <= a / s <= 1.0
  {
  }

  /** A walk that has not reached the target at the end of segment i goes on to segment i + 1. */
  lemma WalkContinues(w: seq<Vector3>, dist: Distance, target: real, i: nat, accumulated: real)
    requires |w| >= 2 && i < |w| - 1 && NoZeroSegments(w, dist)
    requires accumulated == Prefix(w, dist, i)
    requires accumulated + dist(w[i], w[i + 1]) < target <= PathLength(w, dist)
    ensures i + 1 < |w| - 1
    ensures accumulated + dist(w[i], w[i + 1]) == Prefix(w, dist, i + 1)
    ensures WalkSegments(w, dist, target, i, accumulated)
         == WalkSegments(w, dist, target, i + 1, accumulated + dist(w[i], w[i + 1]))
  {
    PrefixStep(w, dist, i);
    assert w[..|w|] == w;
  }

  /**
   * The walk from segment i, with the length accumulated so far equal to the
   * prefix length up to i, stops at the first segment whose end reaches the target.
   */
  lemma {:induction false} WalkFindsSegment(w: seq<Vector3>, dist: Distance, target: real, i: nat, accumulated: real)
    returns (k: nat)
    requires |w| >= 2 && i < |w| - 1 && NoZeroSegments(w, dist)
    requires accumulated == Prefix(w, dist, i)
    requires accumulated <= target <= PathLength(w, dist)
    ensures i <= k < |w| - 1
    ensures Prefix(w, dist, k) <= target <= Prefix(w, dist, k + 1)
    ensures forall j :: i < j <= k ==> Prefix(w, dist, j) < target
    ensures WalkSegments(w, dist, target, i, accumulated) == WalkSegments(w, dist, target, k, Prefix(w, dist, k))
    decreases |w| - i
  {
    if accumulated + dist(w[i], w[i + 1]) >= target {
      PrefixStep(w, dist, i);
      k := i;
    } else {
      WalkContinues(w, dist, target, i, accumulated);
      k := WalkFindsSegment(w, dist, target, i + 1, accumulated + dist(w[i], w[i + 1]));
    }
  }

  /**
   * A walk from the start towards a target inside the path stops on the first
   * segment k whose end reaches the target, at the fraction t of that segment.
   */
  lemma WalkLandsOnSegment(w: seq<Vector3>, dist: Distance, target: real) returns (k: nat, t: real)
    requires |w| >= 2 && NoZeroSegments(w, dist)
    requires 0.0 <= target <= PathLength(w, dist)
    ensures k < |w| - 1 && 0.0 <= t <= 1.0
    ensures Prefix(w, dist, k) <= target <= Prefix(w, dist, k + 1)
    ensures forall j :: 0 < j <= k ==> Prefix(w, dist, j) < target
    ensures dist(w[k], w[k + 1]) > 0.0
    ensures t == (target - Prefix(w, dist, k)) / dist(w[k], w[k + 1])
    ensures WalkSegments(w, dist, target, 0, 0.0) == LerpClamped(w[k], w[k + 1], t)
  {
    PrefixZero(w, dist);
    k := WalkFindsSegment(w, dist, target, 0, 0.0);
    PrefixStep(w, dist, k);
    SegmentPositive(w, dist, k);
    t := (target - Prefix(w, dist, k)) / dist(w[k], w[k + 1]);
    FractionInUnit(target - Prefix(w, dist, k), dist(w[k], w[k + 1]));
  }

  /**
   * With no zero-length segments, the point at a percentage lies on the first
   * segment k whose cumulative end reaches total * p (p the clamped percentage),
   * at the fraction t of that segment, with 0 <= t <= 1.
   */
  lemma PositionOnFirstReachingSegment(w: seq<Vector3>, percentage: real, dist: Distance)
    returns (k: nat, t: real)
    requires |w| >= 2 && NoZeroSegments(w, dist)
    ensures k < |w| - 1 && 0.0 <= t <= 1.0
    ensures Prefix(w, dist, k + 1) >= TargetDistance(PathLength(w, dist), percentage)
    ensures forall j :: 0 < j <= k ==> Prefix(w, dist, j) < TargetDistance(PathLength(w, dist), percentage)
    ensures dist(w[k], w[k + 1]) > 0.0
    ensures t == (TargetDistance(PathLength(w, dist), percentage) - Prefix(w, dist, k)) / dist(w[k], w[k + 1])
    ensures PositionAtPercentage(Some(w), percentage, dist) == LerpUnclamped(w[k], w[k + 1], t)
  {
    var total := PathLength(w, dist);
    PositiveSegmentsNonNegative(w, dist);
    PathLengthNonNegative(w, dist);
    TargetWithinPath(total, percentage);
    k, t := WalkLandsOnSegment(w, dist, TargetDistance(total, percentage));
  }

  /**
   * p <= 0 gives the first point, whenever the first segment has a positive
   * length; later segments may have length zero.
   */
  lemma PercentageAtMostZeroIsFirst(w: seq<Vector3>, percentage: real, dist: Distance)
    requires |w| >= 2 && SegmentsNonNegative(w, dist) && Segment(w, dist, 0) != 0.0 && percentage <= 0.0
    ensures PositionAtPercentage(Some(w), percentage, dist) == w[0]
  {
    assert TargetDistance(PathLength(w, dist), percentage) == 0.0;
    assert Segment(w, dist, 0) > 0.0;
  }

  /**
   * A repeated point is passed over: on [a, a, b] the first segment has length
   * zero, and halfway along the path is halfway from a to b.
   */
  lemma RepeatedPointIsSkipped(a: Vector3, b: Vector3, dist: Distance)
    requires IsEuclidean(dist) && a != b
    ensures !NoZeroSegments([a, a, b], dist)
    ensures WalkDefined(Some([a, a, b]), 0.5, dist)
    ensures PositionAtPercentage(Some([a, a, b]), 0.5, dist) == LerpUnclamped(a, b, 0.5)
  {
    var w := [a, a, b];
    EuclideanIsSymmetric(dist, a, b);
    EuclideanSeparates(dist, a, b);
    var d := dist(a, b);
    assert Segment(w, dist, 0) == 0.0;
    assert w[..2] == [a, a] && [a, a][..1] == [a];
    assert PathLength([a, a], dist) == PathLength([a], dist) + dist(a, a) == 0.0;
    assert PathLength(w, dist) == PathLength([a, a], dist) + dist(a, b) == d;
    assert WalkSegments(w, dist, d * 0.5, 0, 0.0) == WalkSegments(w, dist, d * 0.5, 1, 0.0);
    assert TargetDistance(d, 0.5) == d * 0.5;
    HalfOfPositive(d);
  }

  lemma HalfOfPositive(d: real)
    requires d > 0.0
    ensures 0.0 < d * 0.5 <= d && (d * 0.5 - 0.0) / d == 0.5
  {
  }

  /** The only segment whose end reaches the whole path length is the last one. */
  lemma OnlyLastSegmentReachesEnd(w: seq<Vector3>, dist: Distance, k: nat)
    requires |w| >= 2 && NoZeroSegments(w, dist) && k < |w| - 1
    requires Prefix(w, dist, k + 1) >= PathLength(w, dist)
    ensures k == |w| - 2
  {
    assert w[..|w|] == w;
    if k < |w| - 2 {
      PrefixIncreasing(w, dist, k + 1, |w| - 1);
      assert false;
    }
  }

  /** The remaining length at the start of the last segment is that segment's length. */
  lemma LastSegmentFraction(w: seq<Vector3>, dist: Distance)
    requires |w| >= 2 && NoZeroSegments(w, dist)
    ensures dist(w[|w| - 2], w[|w| - 1]) > 0.0
    ensures (PathLength(w, dist) - Prefix(w, dist, |w| - 2)) / dist(w[|w| - 2], w[|w| - 1]) == 1.0
  {
    var n := |w|;
    assert w[..n] == w;
    PrefixStep(w, dist, n - 2);
    SegmentPositive(w, dist, n - 2);
    assert w[(n - 2) + 1] == w[n - 1];
    DivideBySelf(dist(w[n - 2], w[n - 1]));
  }

  /** p >= 1 gives the last point. */
  lemma PercentageAtLeastOneIsLast(w: seq<Vector3>, percentage: real, dist: Distance)
    requires |w| >= 2 && NoZeroSegments(w, dist) && percentage >= 1.0
    ensures PositionAtPercentage(Some(w), percentage, dist) == w[|w| - 1]
  {
    PositiveSegmentsNonNegative(w, dist);
    PathLengthNonNegative(w, dist);
    assert TargetDistance(PathLength(w, dist), percentage) == PathLength(w, dist);
    var k, t := WalkLandsOnSegment(w, dist, PathLength(w, dist));
    OnlyLastSegmentReachesEnd(w, dist, k);
    LastSegmentFraction(w, dist);
    assert t == 1.0;
  }
}
