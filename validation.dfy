/**
 * Validation of waypoint arrays: the warnings reported for a null or empty
 * array, for consecutive points that are very close or very far apart, and for
 * points that repeat an earlier position.
 */
module Validation {
  import opened Unity
  import opened PathUtils

  const MinDistanceWarning: real := 0.01
  const MaxReasonableDistance: real := 1000.0

  /** What a warning is about; the formatted message text is not modelled. */
  datatype WarningKind =
    | ArrayIsNull
    | ArrayIsEmpty
    | VeryClose(first: nat)
    | VeryFarApart(first: nat)
    | DuplicatePosition(index: nat, position: Vector3)

  /** A warning, prefixed as in the source by the name of the validated field. */
  datatype Warning = Warning(fieldName: string, kind: WarningKind)

  /** Consecutive points closer than MinDistanceWarning. */
  function AreWaypointsTooClose(a: Vector3, b: Vector3, dist: Distance): (tooClose: bool)
    ensures tooClose ==> !IsDistanceUnreasonable(a, b, dist)
  {
    dist(a, b) < MinDistanceWarning
  }

  /** Consecutive points farther apart than MaxReasonableDistance; such a pair is never too close. */
  function IsDistanceUnreasonable(a: Vector3, b: Vector3, dist: Distance): (unreasonable: bool)
    ensures unreasonable ==> dist(a, b) >= MinDistanceWarning
  {
    dist(a, b) > MaxReasonableDistance
  }

  /**
   * Every coordinate is below MaxReasonableDistance in magnitude: the origin is
   * reasonable, and a reasonable point lies less than sqrt(3) times
   * MaxReasonableDistance from it.
   */
  function IsPositionReasonable(position: Vector3): (reasonable: bool)
    ensures position == ZeroVector ==> reasonable
    ensures reasonable ==> DistSqV(position, ZeroVector) < 3.0 * MaxReasonableDistance * MaxReasonableDistance
  {
    var x, y, z := position.x, position.y, position.z;
    if Abs(x) < MaxReasonableDistance && Abs(y) < MaxReasonableDistance && Abs(z) < MaxReasonableDistance then
      SquareBelowReasonable(x, x * x);
      SquareBelowReasonable(y, y * y);
      SquareBelowReasonable(z, z * z);
      true
    else
      false
  }

  // ---------------------------------------------------------------------------
  // The warnings list, as a function of the input
  // ---------------------------------------------------------------------------

  /** The distance warnings for the pair (i, i + 1): too close first, then too far. */
  function PairWarnings(a: Vector3, b: Vector3, fieldName: string, i: nat, dist: Distance): seq<Warning> {
    (if AreWaypointsTooClose(a, b, dist) then [Warning(fieldName, VeryClose(i))] else [])
      + (if IsDistanceUnreasonable(a, b, dist) then [Warning(fieldName, VeryFarApart(i))] else [])
  }

  /** The distance warnings of the first k consecutive pairs, in pair order. */
  function AdjacencyWarnings(w: seq<Vector3>, fieldName: string, dist: Distance, k: nat): seq<Warning>
    requires k < |w|
  {
    if k == 0 then []
    else AdjacencyWarnings(w, fieldName, dist, k - 1) + PairWarnings(w[k - 1], w[k], fieldName, k - 1, dist)
  }

  /** The duplicate warnings for the first k points: a point already seen before is flagged. */
  function DuplicateWarnings(w: seq<Vector3>, fieldName: string, k: nat): seq<Warning>
    requires k <= |w|
  {
    if k == 0 then []
    else
      DuplicateWarnings(w, fieldName, k - 1)
        + (if w[k - 1] in w[..k - 1] then [Warning(fieldName, DuplicatePosition(k - 1, w[k - 1]))] else [])
  }

  /** The whole warnings list for an array (None is null). */
  function ValidationWarnings(waypoints: Option<seq<Vector3>>, fieldName: string, dist: Distance): seq<Warning> {
    match waypoints
    case None => [Warning(fieldName, ArrayIsNull)]
    case Some(w) =>
      if |w| == 0 then [Warning(fieldName, ArrayIsEmpty)]
      else AdjacencyWarnings(w, fieldName, dist, |w| - 1) + DuplicateWarnings(w, fieldName, |w|)
  }

  lemma AdjacencyWarningsStep(w: seq<Vector3>, fieldName: string, dist: Distance, i: nat)
    requires i + 1 < |w|
    ensures AdjacencyWarnings(w, fieldName, dist, i + 1)
         == AdjacencyWarnings(w, fieldName, dist, i) + PairWarnings(w[i], w[i + 1], fieldName, i, dist)
  {
  }

  lemma DuplicateWarningsStep(w: seq<Vector3>, fieldName: string, i: nat)
    requires i < |w|
    ensures DuplicateWarnings(w, fieldName, i + 1) == DuplicateWarnings(w, fieldName, i)
         + (if w[i] in w[..i] then [Warning(fieldName, DuplicatePosition(i, w[i]))] else [])
  {
  }

  // ---------------------------------------------------------------------------
  // The two overloads of ValidateWaypointArray
  // ---------------------------------------------------------------------------

  /**
   * Vector3[] overload: one warning for a null or an empty array; otherwise the
   * distance warnings pair by pair, then the duplicate warnings point by point.
   */
  method ValidateWaypointArray(waypoints: array?<Vector3>, fieldName: string, dist: Distance)
    returns (warnings: seq<Warning>)
    ensures waypoints == null ==> warnings == [Warning(fieldName, ArrayIsNull)]
    ensures waypoints != null && waypoints.Length == 0 ==> warnings == [Warning(fieldName, ArrayIsEmpty)]
    ensures waypoints != null ==> warnings == ValidationWarnings(Some(waypoints[..]), fieldName, dist)
  {
    warnings := [];
    if waypoints == null {
      warnings := warnings + [Warning(fieldName, ArrayIsNull)];
      return;
    }
    if waypoints.Length == 0 {
      warnings := warnings + [Warning(fieldName, ArrayIsEmpty)];
      return;
    }
    ghost var w := waypoints[..];
    var i := 0;
    while i < waypoints.Length - 1
      invariant 0 <= i <= waypoints.Length - 1
      invariant warnings == AdjacencyWarnings(w, fieldName, dist, i)
    {
      AdjacencyWarningsStep(w, fieldName, dist, i);
      if AreWaypointsTooClose(waypoints[i], waypoints[i + 1], dist) {
        warnings := warnings + [Warning(fieldName, VeryClose(i))];
      }
      if IsDistanceUnreasonable(waypoints[i], waypoints[i + 1], dist) {
        warnings := warnings + [Warning(fieldName, VeryFarApart(i))];
      }
      i := i + 1;
    }
    ghost var adjacency := warnings;
    var uniquePositions: set<Vector3> := {};
    i := 0;
    while i < waypoints.Length
      invariant 0 <= i <= waypoints.Length
      invariant forall p :: p in uniquePositions <==> p in w[..i]
      invariant warnings == adjacency + DuplicateWarnings(w, fieldName, i)
    {
      assert w[..i + 1] == w[..i] + [w[i]];
      DuplicateWarningsStep(w, fieldName, i);
      if waypoints[i] in uniquePositions {
        warnings := warnings + [Warning(fieldName, DuplicatePosition(i, waypoints[i]))];
      } else {
        uniquePositions := uniquePositions + {waypoints[i]};
      }
      i := i + 1;
    }
  }

  /**
   * float3[] overload: the null warning for null; otherwise the points are
   * copied into a Vector3 array and validated by the Vector3 overload.
   */
  method ValidateFloat3WaypointArray(waypoints: array?<Float3>, fieldName: string, dist: Distance)
    returns (warnings: seq<Warning>)
    ensures waypoints == null ==> warnings == [Warning(fieldName, ArrayIsNull)]
    ensures waypoints != null ==> warnings == ValidationWarnings(Some(ToVector3s(waypoints[..])), fieldName, dist)
  {
    if waypoints == null {
      return [Warning(fieldName, ArrayIsNull)];
    }
    var converted := new Vector3[waypoints.Length];
    var i := 0;
    while i < waypoints.Length
      invariant 0 <= i <= waypoints.Length
      invariant forall j :: 0 <= j < i ==> converted[j] == ToVector3(waypoints[j])
    {
      converted[i] := Vector3(waypoints[i].x, waypoints[i].y, waypoints[i].z);
      i := i + 1;
    }
    assert converted[..] == ToVector3s(waypoints[..]);
    warnings := ValidateWaypointArray(converted, fieldName, dist);
  }

  // ---------------------------------------------------------------------------
  // Which warnings appear
  // ---------------------------------------------------------------------------

  /** Too close and too far are exclusive, so a pair gets at most one distance warning. */
  lemma PairHasAtMostOneWarning(a: Vector3, b: Vector3, fieldName: string, i: nat, dist: Distance)
    ensures |PairWarnings(a, b, fieldName, i, dist)| <= 1
    ensures !(AreWaypointsTooClose(a, b, dist) && IsDistanceUnreasonable(a, b, dist))
  {
  }

  /** x is a distance warning of one of the first k pairs. */
  ghost predicate IsAdjacencyWarning(w: seq<Vector3>, fieldName: string, dist: Distance, k: nat, x: Warning)
    requires k < |w|
  {
    x.fieldName == fieldName &&
    match x.kind
    case VeryClose(i) => i < k && dist(w[i], w[i + 1]) < MinDistanceWarning
    case VeryFarApart(i) => i < k && dist(w[i], w[i + 1]) > MaxReasonableDistance
    case _ => false
  }

  /** The warnings of one pair are the ones its distance calls for. */
  lemma PairMembership(a: Vector3, b: Vector3, fieldName: string, i: nat, dist: Distance, x: Warning)
    ensures x in PairWarnings(a, b, fieldName, i, dist)
        <==> x.fieldName == fieldName
             && ((x.kind == VeryClose(i) && dist(a, b) < MinDistanceWarning)
                 || (x.kind == VeryFarApart(i) && dist(a, b) > MaxReasonableDistance))
  {
  }

  /** Extending the first k - 1 pairs by pair k - 1 adds exactly that pair's warnings. */
  lemma AdjacencyWarningStep(w: seq<Vector3>, fieldName: string, dist: Distance, k: nat, x: Warning)
    requires 0 < k < |w|
    ensures IsAdjacencyWarning(w, fieldName, dist, k, x)
        <==> IsAdjacencyWarning(w, fieldName, dist, k - 1, x) || x in PairWarnings(w[k - 1], w[k], fieldName, k - 1, dist)
  {
    PairMembership(w[k - 1], w[k], fieldName, k - 1, dist, x);
    match x.kind
    case VeryClose(i) =>
      if i == k - 1 {
        assert w[i + 1] == w[k];
      }
    case VeryFarApart(i) =>
      if i == k - 1 {
        assert w[i + 1] == w[k];
      }
    case _ =>
  }

  lemma {:induction false} AdjacencyMembership(w: seq<Vector3>, fieldName: string, dist: Distance, k: nat, x: Warning)
    requires k < |w|
    ensures x in AdjacencyWarnings(w, fieldName, dist, k) <==> IsAdjacencyWarning(w, fieldName, dist, k, x)
  {
    if k > 0 {
      AdjacencyMembership(w, fieldName, dist, k - 1, x);
      AdjacencyWarningStep(w, fieldName, dist, k, x);
    }
  }

  /** x reports a point among the first k that repeats an earlier one. */
  ghost predicate IsDuplicateWarning(w: seq<Vector3>, fieldName: string, k: nat, x: Warning)
    requires k <= |w|
  {
    x.fieldName == fieldName &&
    match x.kind
    case DuplicatePosition(i, p) => i < k && p == w[i] && w[i] in w[..i]
    case _ => false
  }

  lemma {:induction false} DuplicateMembership(w: seq<Vector3>, fieldName: string, k: nat, x: Warning)
    requires k <= |w|
    ensures x in DuplicateWarnings(w, fieldName, k) <==> IsDuplicateWarning(w, fieldName, k, x)
  {
    if k > 0 {
      DuplicateMembership(w, fieldName, k - 1, x);
    }
  }

  /** For a non-empty array, the warnings are exactly the distance warnings and the duplicate warnings. */
  lemma ValidationMembership(w: seq<Vector3>, fieldName: string, dist: Distance, x: Warning)
    requires |w| >= 1
    ensures x in ValidationWarnings(Some(w), fieldName, dist)
        <==> IsAdjacencyWarning(w, fieldName, dist, |w| - 1, x) || IsDuplicateWarning(w, fieldName, |w|, x)
  {
    var adjacency := AdjacencyWarnings(w, fieldName, dist, |w| - 1);
    var duplicates := DuplicateWarnings(w, fieldName, |w|);
    assert ValidationWarnings(Some(w), fieldName, dist) == adjacency + duplicates;
    AdjacencyMembership(w, fieldName, dist, |w| - 1, x);
    DuplicateMembership(w, fieldName, |w|, x);
  }

  /** A null array yields exactly the null warning, an empty one exactly the empty warning. */
  lemma NullOrEmptyYieldsOneWarning(fieldName: string, dist: Distance, x: Warning)
    ensures ValidationWarnings(None, fieldName, dist) == [Warning(fieldName, ArrayIsNull)]
    ensures ValidationWarnings(Some([]), fieldName, dist) == [Warning(fieldName, ArrayIsEmpty)]
    ensures forall w :: Warning(fieldName, ArrayIsNull) in ValidationWarnings(Some(w), fieldName, dist) ==> false
  {
    forall w | Warning(fieldName, ArrayIsNull) in ValidationWarnings(Some(w), fieldName, dist)
      ensures false
    {
      if |w| > 0 {
        ValidationMembership(w, fieldName, dist, Warning(fieldName, ArrayIsNull));
      }
    }
  }

  /** Pair (i, i + 1) is reported very close iff its distance is below MinDistanceWarning. */
  lemma VeryCloseIff(w: seq<Vector3>, fieldName: string, dist: Distance, i: nat)
    requires |w| >= 1
    ensures Warning(fieldName, VeryClose(i)) in ValidationWarnings(Some(w), fieldName, dist)
        <==> i + 1 < |w| && dist(w[i], w[i + 1]) < MinDistanceWarning
  {
    ValidationMembership(w, fieldName, dist, Warning(fieldName, VeryClose(i)));
  }

  /** Pair (i, i + 1) is reported very far apart iff its distance exceeds MaxReasonableDistance. */
  lemma VeryFarApartIff(w: seq<Vector3>, fieldName: string, dist: Distance, i: nat)
    requires |w| >= 1
    ensures Warning(fieldName, VeryFarApart(i)) in ValidationWarnings(Some(w), fieldName, dist)
        <==> i + 1 < |w| && dist(w[i], w[i + 1]) > MaxReasonableDistance
  {
    ValidationMembership(w, fieldName, dist, Warning(fieldName, VeryFarApart(i)));
  }

  /**
   * Point i is reported as a duplicate, with its own position, iff some earlier
   * point has exactly the same position; point 0 is therefore never reported.
   */
  lemma DuplicateIff(w: seq<Vector3>, fieldName: string, dist: Distance, i: nat, p: Vector3)
    requires |w| >= 1
    ensures Warning(fieldName, DuplicatePosition(i, p)) in ValidationWarnings(Some(w), fieldName, dist)
        <==> i < |w| && p == w[i] && exists j :: 0 <= j < i && w[j] == w[i]
  {
    ValidationMembership(w, fieldName, dist, Warning(fieldName, DuplicatePosition(i, p)));
    if i < |w| && w[i] in w[..i] {
      var j :| 0 <= j < i && w[..i][j] == w[i];
      assert w[j] == w[i];
    }
    if i < |w| && exists j :: 0 <= j < i && w[j] == w[i] {
      var j :| 0 <= j < i && w[j] == w[i];
      assert w[..i][j] == w[i];
    }
  }

  /** Every warning names the validated field. */
  lemma AllWarningsNameTheField(waypoints: Option<seq<Vector3>>, fieldName: string, dist: Distance)
    ensures forall x :: x in ValidationWarnings(waypoints, fieldName, dist) ==> x.fieldName == fieldName
  {
    if waypoints.Some? && |waypoints.value| > 0 {
      var w := waypoints.value;
      forall x | x in ValidationWarnings(waypoints, fieldName, dist)
        ensures x.fieldName == fieldName
      {
        ValidationMembership(w, fieldName, dist, x);
      }
    }
  }

  /** A single point yields no warning at all. */
  lemma SinglePointHasNoWarnings(p: Vector3, fieldName: string, dist: Distance)
    ensures ValidationWarnings(Some([p]), fieldName, dist) == []
  {
    assert [p][..0] == [];
    assert AdjacencyWarnings([p], fieldName, dist, 0) == [];
    assert DuplicateWarnings([p], fieldName, 0) == [];
    assert DuplicateWarnings([p], fieldName, 1) == [];
  }

  // ---------------------------------------------------------------------------
  // Order and count of the warnings
  // ---------------------------------------------------------------------------

  /** The group of a warning: null/empty, then distance warnings, then duplicates. */
  function Group(k: WarningKind): nat {
    match k
    case ArrayIsNull => 0
    case ArrayIsEmpty => 0
    case VeryClose(_) => 1
    case VeryFarApart(_) => 1
    case DuplicatePosition(_, _) => 2
  }

  /** The index a warning reports (the first point of a pair, or the duplicated point). */
  function Index(k: WarningKind): nat {
    match k
    case ArrayIsNull => 0
    case ArrayIsEmpty => 0
    case VeryClose(i) => i
    case VeryFarApart(i) => i
    case DuplicatePosition(i, _) => i
  }

  /** a comes before b: an earlier group, or the same group and a smaller index. */
  predicate Precedes(a: Warning, b: Warning) {
    Group(a.kind) < Group(b.kind) || (Group(a.kind) == Group(b.kind) && Index(a.kind) < Index(b.kind))
  }

  predicate InReportOrder(ws: seq<Warning>) {
    forall i, j :: 0 <= i < j < |ws| ==> Precedes(ws[i], ws[j])
  }

  lemma ConcatInReportOrder(a: seq<Warning>, b: seq<Warning>)
    requires InReportOrder(a) && InReportOrder(b)
    requires forall x, y :: x in a && y in b ==> Precedes(x, y)
    ensures InReportOrder(a + b)
  {
    var c := a + b;
    forall i, j | 0 <= i < j < |c|
      ensures Precedes(c[i], c[j])
    {
      if j < |a| {
        assert c[i] == a[i] && c[j] == a[j];
      } else if i >= |a| {
        assert c[i] == b[i - |a|] && c[j] == b[j - |a|];
      } else {
        assert c[i] in a && c[j] in b;
      }
    }
  }

  /** The distance warnings of the first k pairs are in group 1 and report a pair before k. */
  lemma AdjacencyKinds(w: seq<Vector3>, fieldName: string, dist: Distance, k: nat)
    requires k < |w|
    ensures forall x :: x in AdjacencyWarnings(w, fieldName, dist, k) ==> Group(x.kind) == 1 && Index(x.kind) < k
  {
    forall x | x in AdjacencyWarnings(w, fieldName, dist, k)
      ensures Group(x.kind) == 1 && Index(x.kind) < k
    {
      AdjacencyMembership(w, fieldName, dist, k, x);
    }
  }

  lemma {:induction false} AdjacencyCount(w: seq<Vector3>, fieldName: string, dist: Distance, k: nat)
    requires k < |w|
    ensures |AdjacencyWarnings(w, fieldName, dist, k)| <= k
  {
    if k > 0 {
      AdjacencyCount(w, fieldName, dist, k - 1);
      PairHasAtMostOneWarning(w[k - 1], w[k], fieldName, k - 1, dist);
    }
  }

  /** Every warning of the first k - 1 pairs precedes every warning of pair k - 1. */
  lemma PairComesLast(w: seq<Vector3>, fieldName: string, dist: Distance, k: nat)
    requires 0 < k < |w|
    ensures forall x, y ::
      (x in AdjacencyWarnings(w, fieldName, dist, k - 1) && y in PairWarnings(w[k - 1], w[k], fieldName, k - 1, dist))
      ==> Precedes(x, y)
  {
    var before := AdjacencyWarnings(w, fieldName, dist, k - 1);
    var pair := PairWarnings(w[k - 1], w[k], fieldName, k - 1, dist);
    forall x, y | x in before && y in pair
      ensures Precedes(x, y)
    {
      AdjacencyMembership(w, fieldName, dist, k - 1, x);
      PairMembership(w[k - 1], w[k], fieldName, k - 1, dist, y);
    }
  }

  lemma {:induction false} AdjacencyOrdered(w: seq<Vector3>, fieldName: string, dist: Distance, k: nat)
    requires k < |w|
    ensures InReportOrder(AdjacencyWarnings(w, fieldName, dist, k))
  {
    if k > 0 {
      AdjacencyOrdered(w, fieldName, dist, k - 1);
      PairHasAtMostOneWarning(w[k - 1], w[k], fieldName, k - 1, dist);
      PairComesLast(w, fieldName, dist, k);
      ConcatInReportOrder(AdjacencyWarnings(w, fieldName, dist, k - 1), PairWarnings(w[k - 1], w[k], fieldName, k - 1, dist));
    }
  }

  lemma {:induction false} DuplicatesOrdered(w: seq<Vector3>, fieldName: string, k: nat)
    requires 1 <= k <= |w|
    ensures InReportOrder(DuplicateWarnings(w, fieldName, k))
    ensures forall x :: x in DuplicateWarnings(w, fieldName, k) ==> Group(x.kind) == 2 && Index(x.kind) < k
    ensures |DuplicateWarnings(w, fieldName, k)| <= k - 1
  {
    if k == 1 {
      assert w[..0] == [];
    } else {
      DuplicatesOrdered(w, fieldName, k - 1);
      DuplicateWarningsStep(w, fieldName, k - 1);
      var last := if w[k - 1] in w[..k - 1] then [Warning(fieldName, DuplicatePosition(k - 1, w[k - 1]))] else [];
      ConcatInReportOrder(DuplicateWarnings(w, fieldName, k - 1), last);
    }
  }

  /** Group-1 warnings in order followed by group-2 warnings in order are in report order. */
  lemma GroupsInReportOrder(a: seq<Warning>, b: seq<Warning>)
    requires InReportOrder(a) && InReportOrder(b)
    requires forall x :: x in a ==> Group(x.kind) == 1
    requires forall y :: y in b ==> Group(y.kind) == 2
    ensures InReportOrder(a + b)
  {
    forall x, y | x in a && y in b
      ensures Precedes(x, y)
    {
    }
    ConcatInReportOrder(a, b);
  }

  /**
   * For a non-empty array every distance warning comes before every duplicate
   * warning, each group in increasing index order, and there are at most
   * 2 * (n - 1) warnings.
   */
  lemma WarningsOrderedAndBounded(w: seq<Vector3>, fieldName: string, dist: Distance)
    requires |w| >= 1
    ensures InReportOrder(ValidationWarnings(Some(w), fieldName, dist))
    ensures |ValidationWarnings(Some(w), fieldName, dist)| <= 2 * (|w| - 1)
  {
    var adjacency := AdjacencyWarnings(w, fieldName, dist, |w| - 1);
    var duplicates := DuplicateWarnings(w, fieldName, |w|);
    assert ValidationWarnings(Some(w), fieldName, dist) == adjacency + duplicates;
    AdjacencyOrdered(w, fieldName, dist, |w| - 1);
    AdjacencyKinds(w, fieldName, dist, |w| - 1);
    AdjacencyCount(w, fieldName, dist, |w| - 1);
    DuplicatesOrdered(w, fieldName, |w|);
    GroupsInReportOrder(adjacency, duplicates);
  }

  // ---------------------------------------------------------------------------
  // Reasonable positions
  // ---------------------------------------------------------------------------

  /** Squaring is strictly increasing on the non-negative reals. */
  lemma SquareIncreasing(u: real, v: real)
    requires 0.0 <= u < v
    ensures u * u < v * v
  {
    assert v * v - u * u == (v - u) * (v + u);
    PositiveProduct(v - u, v + u);
  }

  /** A coordinate below MaxReasonableDistance in magnitude has its square s below the bound's square. */
  lemma SquareBelowReasonable(a: real, s: real)
    requires s == a * a && Abs(a) < MaxReasonableDistance
    ensures s < MaxReasonableDistance * MaxReasonableDistance
  {
    var b := Abs(a);
    assert s == b * b;
    SquareIncreasing(b, MaxReasonableDistance);
  }

  /** Both distance tests give the same answer for a pair in either order under a Euclidean distance. */
  lemma DistanceTestsAreSymmetric(a: Vector3, b: Vector3, dist: Distance)
    requires IsEuclidean(dist)
    ensures AreWaypointsTooClose(a, b, dist) == AreWaypointsTooClose(b, a, dist)
    ensures IsDistanceUnreasonable(a, b, dist) == IsDistanceUnreasonable(b, a, dist)
  {
    EuclideanIsSymmetric(dist, a, b);
  }

  lemma PositiveProduct(a: real, b: real)
    requires a > 0.0 && b > 0.0
    ensures a * b > 0.0
  {
  }

  lemma SquareBelowBound(a: real, d: real, m: real)
    requires d >= 0.0 && m > 0.0 && d < m && a * a <= d * d
    ensures Abs(a) < m
  {
    var b := Abs(a);
    assert b * b == a * a;
    SquareIncreasing(d, m);
    if b >= m {
      if b > m {
        SquareIncreasing(m, b);
      }
      assert false;
    }
  }

  /**
   * A point whose Euclidean distance from the origin is below
   * MaxReasonableDistance is a reasonable position; the converse fails on the
   * corners of the bounding cube.
   */
  lemma CloseToOriginIsReasonable(position: Vector3, dist: Distance)
    requires IsEuclidean(dist)
    requires dist(position, ZeroVector) < MaxReasonableDistance
    ensures IsPositionReasonable(position)
  {
    var d := dist(position, ZeroVector);
    assert d >= 0.0 && d * d == DistSqV(position, ZeroVector);
    var x, y, z := position.x, position.y, position.z;
    assert DistSqV(position, ZeroVector) == x * x + y * y + z * z;
    assert y * y >= 0.0 && z * z >= 0.0 && x * x >= 0.0;
    SquareBelowBound(x, d, MaxReasonableDistance);
    SquareBelowBound(y, d, MaxReasonableDistance);
    SquareBelowBound(z, d, MaxReasonableDistance);
  }

  /** The converse fails: a corner of the cube is reasonable but far from the origin. */
  lemma ReasonableIsNotWithinDistance(dist: Distance)
    requires IsEuclidean(dist)
    ensures IsPositionReasonable(Vector3(900.0, 900.0, 900.0))
    ensures dist(Vector3(900.0, 900.0, 900.0), ZeroVector) > MaxReasonableDistance
  {
    var p := Vector3(900.0, 900.0, 900.0);
    var d := dist(p, ZeroVector);
    assert d * d == 2430000.0;
    if d <= MaxReasonableDistance {
      if d < MaxReasonableDistance {
        SquareIncreasing(d, MaxReasonableDistance);
      }
      assert false;
    }
  }
}
