/**
 * The patrol-path sample component: a spawn point, an exit point, a list of
 * alternative exits and a patrol route, with helpers that count the
 * waypoints, step along the route, pick the closest exit and check the
 * configuration.
 */
module Patrol {
  import opened Unity

  /** int.MaxValue; the route index is a 32-bit int. */
  const IntMaxValue: int := 2147483647

  /** float.MaxValue, the starting value of the closest distance found so far. */
  const FloatMaxValue: real := 340282346638528859811704183484516925440.0

  const RouteEmptyError: string := "Patrol route has no waypoints defined."
  const NoExitPointsError: string := "No exit points configured."

  /** The length of an array or list, with null counted as empty. */
  function LengthOrZero(points: Option<seq<Vector3>>): (n: nat)
    ensures points.None? ==> n == 0
    ensures points.Some? ==> n == |points.value|
  {
    if points.None? then 0 else |points.value|
  }

  /** The points of an array or list, with null read as no points. */
  function PointsOrEmpty(points: Option<seq<Vector3>>): seq<Vector3> {
    if points.None? then [] else points.value
  }

  /**
   * The index after currentIndex on a route of count points, wrapping from
   * the last point back to the first. For currentIndex >= -1 the C#
   * remainder, which truncates, agrees with Dafny's.
   */
  function NextIndex(currentIndex: int, count: int): (next: int)
    requires count > 0 && currentIndex >= -1
    ensures 0 <= next < count
    ensures currentIndex + 1 < count ==> next == currentIndex + 1
    ensures currentIndex == count - 1 ==> next == 0
  {
    (currentIndex + 1) % count
  }

  /** The index reached by starting before the route (index -1) and stepping `steps` times. */
  function IndexAfterSteps(count: int, steps: nat): (index: int)
    requires count > 0
    ensures -1 <= index < count
  {
    if steps == 0 then -1 else NextIndex(IndexAfterSteps(count, steps - 1), count)
  }

  /** The first count steps go through the route in order: step k + 1 reaches index k. */
  lemma {:induction false} FirstRoundVisitsInOrder(count: int, k: nat)
    requires 0 <= k < count
    ensures IndexAfterSteps(count, k + 1) == k
  {
    if k > 0 {
      FirstRoundVisitsInOrder(count, k - 1);
    }
  }

  /** After the first step, stepping count more times comes back to the same index. */
  lemma {:induction false} StepsArePeriodic(count: int, steps: nat)
    requires count > 0 && steps >= 1
    ensures IndexAfterSteps(count, steps + count) == IndexAfterSteps(count, steps)
  {
    if steps == 1 {
      FirstRoundVisitsInOrder(count, count - 1);
    } else {
      StepsArePeriodic(count, steps - 1);
    }
  }

  /** With the earliest-index tie rule, k is the closest point to fromPosition. */
  ghost predicate IsClosestIndex(points: seq<Vector3>, fromPosition: Vector3, dist: Distance, k: int) {
    0 <= k < |points|
    && (forall j :: 0 <= j < |points| ==> dist(fromPosition, points[k]) <= dist(fromPosition, points[j]))
    && (forall j :: 0 <= j < k ==> dist(fromPosition, points[j]) > dist(fromPosition, points[k]))
  }

  /** The tie rule makes the closest index unique. */
  lemma ClosestIndexIsUnique(points: seq<Vector3>, fromPosition: Vector3, dist: Distance, k1: int, k2: int)
    requires IsClosestIndex(points, fromPosition, dist, k1)
    requires IsClosestIndex(points, fromPosition, dist, k2)
    ensures k1 == k2
  {
    var d1, d2 := dist(fromPosition, points[k1]), dist(fromPosition, points[k2]);
    assert d1 <= d2 && d2 <= d1;
    if k1 < k2 {
      assert false;
    }
    if k2 < k1 {
      assert false;
    }
  }

  class PatrolPath {
    var spawnPoint: Vector3
    var exitPoint: Vector3
    /** Vector3[]; None is null. */
    var exitPoints: Option<seq<Vector3>>
    /** List<Vector3>; None is null. */
    var patrolRoute: Option<seq<Vector3>>
    var showConnections: bool
    var handleSize: real

    /** The field initialisers: origin, ten units forward, empty exits, empty route. */
    constructor ()
      ensures spawnPoint == ZeroVector && exitPoint == Vector3(0.0, 0.0, 10.0)
      ensures exitPoints == Some([]) && patrolRoute == Some([])
      ensures showConnections && handleSize == 1.0
    {
      spawnPoint := ZeroVector;
      exitPoint := Vector3(0.0, 0.0, 10.0);
      exitPoints := Some([]);
      patrolRoute := Some([]);
      showConnections := true;
      handleSize := 1.0;
    }

    /** Every waypoint the component holds: spawn, exit, the exits array, then the route. */
    function AllWaypoints(): seq<Vector3>
      reads this
    {
      [spawnPoint, exitPoint] + PointsOrEmpty(exitPoints) + PointsOrEmpty(patrolRoute)
    }

    /** Two single points plus the lengths of the array and the list, null counting as 0. */
    function TotalWaypointCount(): (count: int)
      reads this
      ensures count >= 2
      ensures count == |AllWaypoints()|
    {
      var singles := 2;
      var withExits := singles + (if exitPoints.Some? then |exitPoints.value| else 0);
      withExits + (if patrolRoute.Some? then |patrolRoute.value| else 0)
    }

    /**
     * False and the zero vector for a null or empty route; otherwise true and
     * the point after currentIndex, wrapping around at the end of the route.
     */
    method TryGetNextWaypoint(currentIndex: int) returns (found: bool, nextWaypoint: Vector3)
      requires -1 <= currentIndex < IntMaxValue
      ensures found <==> LengthOrZero(patrolRoute) > 0
      ensures !found ==> nextWaypoint == ZeroVector
      ensures found ==> nextWaypoint == patrolRoute.value[NextIndex(currentIndex, |patrolRoute.value|)]
      ensures found && currentIndex == |patrolRoute.value| - 1 ==> nextWaypoint == patrolRoute.value[0]
      ensures found && currentIndex + 1 < |patrolRoute.value| ==> nextWaypoint == patrolRoute.value[currentIndex + 1]
    {
      if patrolRoute.None? || |patrolRoute.value| == 0 {
        return false, ZeroVector;
      }
      var nextIndex := (currentIndex + 1) % |patrolRoute.value|;
      return true, patrolRoute.value[nextIndex];
    }

    /**
     * False and the zero vector when there are no exits; otherwise true and
     * the first exit at the smallest distance from fromPosition. The search
     * starts from float.MaxValue, so when every distance reaches it the first
     * exit is returned.
     */
    method TryGetClosestExitPoint(fromPosition: Vector3, dist: Distance) returns (found: bool, closestExit: Vector3)
      ensures found <==> LengthOrZero(exitPoints) > 0
      ensures !found ==> closestExit == ZeroVector
      ensures found && (exists j :: 0 <= j < |exitPoints.value| && dist(fromPosition, exitPoints.value[j]) < FloatMaxValue)
        ==> exists k :: IsClosestIndex(exitPoints.value, fromPosition, dist, k) && closestExit == exitPoints.value[k]
      ensures found && (forall j :: 0 <= j < |exitPoints.value| ==> dist(fromPosition, exitPoints.value[j]) >= FloatMaxValue)
        ==> closestExit == exitPoints.value[0]
    {
      closestExit := ZeroVector;
      if exitPoints.None? || |exitPoints.value| == 0 {
        return false, closestExit;
      }
      var points := exitPoints.value;
      var closestDistance := FloatMaxValue;
      var closestIndex := 0;
      var index := 0;
      while index < |points|
        invariant 0 <= index <= |points| && 0 <= closestIndex < |points|
        invariant closestDistance <= FloatMaxValue
        invariant forall j :: 0 <= j < index ==> dist(fromPosition, points[j]) >= closestDistance
        invariant closestDistance == FloatMaxValue ==> closestIndex == 0
        invariant closestDistance < FloatMaxValue ==>
          closestIndex < index && closestDistance == dist(fromPosition, points[closestIndex])
          && forall j :: 0 <= j < closestIndex ==> dist(fromPosition, points[j]) > closestDistance
      {
        var distance := dist(fromPosition, points[index]);
        if distance < closestDistance {
          closestDistance := distance;
          closestIndex := index;
        }
        index := index + 1;
      }
      if closestDistance < FloatMaxValue {
        assert IsClosestIndex(points, fromPosition, dist, closestIndex);
      }
      return true, points[closestIndex];
    }

    /**
     * The route is checked first: an empty or null route is reported even when
     * the exits are missing too; the exits error comes only with a route.
     */
    method ValidateWaypoints() returns (valid: bool, errorMessage: string)
      ensures valid <==> LengthOrZero(patrolRoute) > 0 && LengthOrZero(exitPoints) > 0
      ensures valid ==> errorMessage == ""
      ensures LengthOrZero(patrolRoute) == 0 ==> errorMessage == RouteEmptyError
      ensures LengthOrZero(patrolRoute) > 0 && LengthOrZero(exitPoints) == 0 ==> errorMessage == NoExitPointsError
      ensures errorMessage == NoExitPointsError ==> LengthOrZero(patrolRoute) > 0
    {
      errorMessage := "";
      if patrolRoute.None? || |patrolRoute.value| == 0 {
        errorMessage := RouteEmptyError;
        return false, errorMessage;
      }
      if exitPoints.None? || |exitPoints.value| == 0 {
        errorMessage := NoExitPointsError;
        return false, errorMessage;
      }
      return true, errorMessage;
    }
  }

  /** The component as first created is not valid: its route and exits are empty. */
  method NewPathIsNotValid() returns (valid: bool, errorMessage: string)
    ensures !valid && errorMessage == RouteEmptyError
  {
    var path := new PatrolPath();
    assert path.TotalWaypointCount() == 2;
    valid, errorMessage := path.ValidateWaypoints();
  }
}
