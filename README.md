# AV.Waypoints core logic in Dafny

A Dafny model of the logic under the AV.Waypoints Unity editor package. The package lets
designers place and edit `[Waypoint]`-marked `Vector3`/`float3` fields in the Scene view.
Below the editor glue are seven small pieces of code, and this project models each one and
proves what it promises:

- `MathLogic` (`math_logic.dfy`): the stateless point math of the editor tool. It covers
  local/world transforms, snapping to a grid with a no-op threshold, approximate equality
  and interpolation.
- `Validation` (`validation.dfy`): the warnings list built for a waypoint array. It has one
  warning for a null or an empty array, distance warnings for consecutive points that are
  very close or very far apart, and duplicate warnings for points that repeat an earlier
  position. Both the `Vector3[]` and the `float3[]` overload are imperative methods over
  Dafny arrays. Each is proved equal to a warnings function, and the lemmas are about that
  function.
- `PathUtils` (`path_utils.dfy`): the polyline length, computed by accumulation in both
  overloads, and the point at a percentage of that length, found by walking the segments.
- `Patrol` (`patrol.dfy`): the sample `PatrolPath` component. It covers the waypoint count,
  the wrap-around next waypoint, the closest exit (earliest index on ties) and the
  configuration check with its error precedence.
- `FieldCache` (`field_cache.dfy`): the static memo table from a type to the names of its
  `[Waypoint]` fields. It is filled on a miss and never invalidated.
- `Serialization` (`serialization.dfy`): reading and writing a point through a
  `SerializedProperty`, which is either a Vector3 property or a generic `float3` property
  with `x`/`y`/`z` children.
- `Preferences` (`preferences.dfy`): the five editor preferences over the host key-value
  store. Each getter reads with a default, and the three float setters clamp.

`Unity` (`unity.dfy`) holds the host-library values and helpers that this code calls:
`Vector3`, `float3`, `float4x4`, `Mathf.Clamp`/`Max`/`Clamp01`, `math.round`,
`Vector3.Lerp`, `math.lerp`, `math.transform`, `math.distancesq`. Single-precision floats
are mathematical reals. `null` is `None` of an `Option`. `Vector3.Distance` and
`math.distance` have no closed form without a square root, so they are a function
parameter `dist`. Where a property depends on it being the Euclidean distance, the
predicate `IsEuclidean(dist)` requires `dist >= 0` and `dist * dist` equal to the squared
distance.

## Model

| member | source | states |
|---|---|---|
| Unity.RoundHalfToEven | Editor/Core/WaypointMathLogic.cs:49-51 | `math.round`: the result is within 1/2 of its argument, and an exact tie goes to the even integer |
| Unity.Clamp | Editor/Settings/WaypointEditorPreferences.cs:41 | `Mathf.Clamp`: the result is in [min, max], equals the value inside the range and equals the violated bound outside it |
| Unity.Max | Editor/Settings/WaypointEditorPreferences.cs:29 | `Mathf.Max`: the result is one of the two arguments and at least both |
| Unity.Clamp01 | Editor/Utils/WaypointExtensions.cs:46 | `Mathf.Clamp01`: the result is in [0, 1] and leaves values already inside unchanged |
| Unity.LerpClamped | Editor/Utils/WaypointExtensions.cs:58 | `Vector3.Lerp` clamps its parameter: t <= 0 gives a, t >= 1 gives b, and inside [0, 1] it is the unclamped lerp |
| Unity.Lerp | Editor/Core/WaypointMathLogic.cs:71 | `math.lerp`: s = 0 gives x and s = 1 gives y |
| Unity.MulVectorIsColumnCombination | Editor/Core/WaypointMathLogic.cs:24 | the row-by-row matrix-vector product equals the column combination that `math.mul` computes on the column-stored `float4x4` |
| Unity.MulVectorCompose | Editor/Core/WaypointMathLogic.cs:22-34 | a (b v) == (a b) v: applying two matrices in turn is applying their product |
| Unity.Transform | Editor/Core/WaypointMathLogic.cs:24 | `math.transform`: the identity leaves a point in place, the origin goes to the translation column, and a matrix whose first three columns are the identity's adds that column |
| Unity.EuclideanSeparates | Editor/Utils/WaypointExtensions.cs:53 | a Euclidean `Vector3.Distance` between two different points is positive |
| Unity.EuclideanIsSymmetric | Editor/Validation/WaypointValidator.cs:21 | a Euclidean `Vector3.Distance` is zero from a point to itself and symmetric |
| MathLogic.TransformToWorldCoordinates | Editor/Core/WaypointMathLogic.cs:22-25 | the identity leaves a local point in place, the local origin goes to the matrix's translation, and a pure translation moves every point by it |
| MathLogic.TransformToLocalCoordinates | Editor/Core/WaypointMathLogic.cs:31-34 | the same three properties for the world-to-local matrix |
| MathLogic.TransformCompose | Editor/Core/WaypointMathLogic.cs:22-34 | transforming a point by an affine b and then by a equals transforming it by a·b |
| MathLogic.TransformIdentity | Editor/Core/WaypointMathLogic.cs:22-25 | the identity matrix leaves every point where it is |
| MathLogic.WorldLocalRoundTrip | Editor/Core/WaypointMathLogic.cs:22-34 | a local point taken to world space by an affine matrix and back by its inverse is the original point |
| MathLogic.CalculateSnappedPosition | Editor/Core/WaypointMathLogic.cs:40-54 | a grid size at or below 0.001 returns the input unchanged; above it, every coordinate is an integer multiple of the grid size and at most half a cell from the input |
| MathLogic.SnapCoordinateFacts | Editor/Core/WaypointMathLogic.cs:49-51 | one snapped coordinate is a multiple of the grid size and within half a cell of its input |
| MathLogic.RoundIsNearest | Editor/Core/WaypointMathLogic.cs:49-51 | the rounded integer is at least as close to the quotient as any other integer |
| MathLogic.SnapIsNearestMultiple | Editor/Core/WaypointMathLogic.cs:49-51 | no integer multiple of the grid size is closer to an input coordinate than its snapped value |
| MathLogic.SnapIsPerCoordinate | Editor/Core/WaypointMathLogic.cs:49-51 | each output coordinate depends only on the same input coordinate and the grid size |
| MathLogic.SnapIsIdempotent | Editor/Core/WaypointMathLogic.cs:40-54 | snapping an already snapped point returns it unchanged |
| MathLogic.IsApproximatelyEqual | Editor/Core/WaypointMathLogic.cs:60-63 | equality below squared distance 1e-6 is reflexive |
| MathLogic.ApproximatelyEqualIsSymmetric | Editor/Core/WaypointMathLogic.cs:60-63 | approximate equality is symmetric |
| MathLogic.ApproximatelyEqualIsClose | Editor/Core/WaypointMathLogic.cs:60-63 | approximately equal points differ by less than 0.001 in every coordinate |
| MathLogic.InterpolatePosition | Editor/Core/WaypointMathLogic.cs:69-72 | t = 0 gives start, t = 1 gives end and t = 1/2 the midpoint, with t not clamped |
| Validation.AreWaypointsTooClose | Editor/Validation/WaypointValidator.cs:13-32 | a pair that is too close is never also unreasonably far apart |
| Validation.IsDistanceUnreasonable | Editor/Validation/WaypointValidator.cs:28-32 | an unreasonably far pair is at least `MIN_DISTANCE_WARNING` apart, so it is never also too close |
| Validation.DistanceTestsAreSymmetric | Editor/Validation/WaypointValidator.cs:19-32 | with a Euclidean distance, both tests give the same answer for a pair in either order |
| Validation.IsPositionReasonable | Editor/Validation/WaypointValidator.cs:87-92 | the origin is reasonable, and a reasonable point has squared distance below 3·1000² from the origin |
| Validation.ValidateWaypointArray | Editor/Validation/WaypointValidator.cs:37-68 | null gives exactly the null warning and empty exactly the empty warning; otherwise the loops' list equals `ValidationWarnings`, i.e. the distance warnings pair by pair and then the duplicates |
| Validation.ValidateFloat3WaypointArray | Editor/Validation/WaypointValidator.cs:73-82 | null gives the single null warning; otherwise the result is the Vector3 overload's warnings for the converted array |
| Validation.PairHasAtMostOneWarning | Editor/Validation/WaypointValidator.cs:53-60 | each consecutive pair gets at most one distance warning, because too close and too far exclude each other |
| Validation.AdjacencyMembership | Editor/Validation/WaypointValidator.cs:53-60 | a warning is among the distance warnings of the first k pairs iff it names the field and its pair's distance calls for it |
| Validation.DuplicateMembership | Editor/Validation/WaypointValidator.cs:62-65 | a warning is among the duplicate warnings of the first k points iff it reports a point with its own position that occurs earlier |
| Validation.ValidationMembership | Editor/Validation/WaypointValidator.cs:53-65 | for a non-empty array, the warnings are exactly the distance warnings and the duplicate warnings |
| Validation.NullOrEmptyYieldsOneWarning | Editor/Validation/WaypointValidator.cs:41-51 | null yields exactly one null warning, empty exactly one empty warning, and no non-null array ever has the null warning |
| Validation.VeryCloseIff | Editor/Validation/WaypointValidator.cs:55-56 | pair (i, i + 1) is reported very close iff it exists and its distance is below 0.01 |
| Validation.VeryFarApartIff | Editor/Validation/WaypointValidator.cs:58-59 | pair (i, i + 1) is reported very far apart iff it exists and its distance exceeds 1000 |
| Validation.DuplicateIff | Editor/Validation/WaypointValidator.cs:62-65 | point i is reported as a duplicate iff some earlier point has the same position, so point 0 never is |
| Validation.AllWarningsNameTheField | Editor/Validation/WaypointValidator.cs:41-65 | every warning carries the validated field's name |
| Validation.SinglePointHasNoWarnings | Editor/Validation/WaypointValidator.cs:53-65 | a one-element array yields no warnings |
| Validation.AdjacencyOrdered | Editor/Validation/WaypointValidator.cs:53-60 | the distance warnings come in increasing pair order |
| Validation.DuplicatesOrdered | Editor/Validation/WaypointValidator.cs:62-65 | the duplicate warnings come in increasing index order, and there are at most n - 1 of them |
| Validation.AdjacencyCount | Editor/Validation/WaypointValidator.cs:53-60 | the first k pairs yield at most k distance warnings |
| Validation.WarningsOrderedAndBounded | Editor/Validation/WaypointValidator.cs:53-65 | for n >= 1 points, all distance warnings precede all duplicate warnings, each group is in index order, and there are at most 2·(n − 1) warnings |
| Validation.CloseToOriginIsReasonable | Editor/Validation/WaypointValidator.cs:87-92 | a point within Euclidean distance 1000 of the origin has every coordinate below 1000 in magnitude |
| Validation.ReasonableIsNotWithinDistance | Editor/Validation/WaypointValidator.cs:87-92 | the converse fails: (900, 900, 900) is reasonable although it lies over 1000 from the origin |
| PathUtils.ToVector3 | Editor/Utils/WaypointExtensions.cs:78-81 | each coordinate of the Vector3 is the same coordinate of the float3 |
| PathUtils.ToFloat3 | Editor/Utils/WaypointExtensions.cs:70-81 | converting a Vector3 to float3 and back gives the original vector |
| PathUtils.Float3RoundTrip | Editor/Utils/WaypointExtensions.cs:70-81 | converting a float3 to Vector3 and back gives the original float3 |
| PathUtils.CalculatePathDistance | Editor/Utils/WaypointExtensions.cs:15-23 | null or fewer than two points give 0; otherwise the accumulated total is the sum of the consecutive segment lengths |
| PathUtils.CalculatePathDistanceF | Editor/Utils/WaypointExtensions.cs:28-36 | the same for the float3 overload |
| PathUtils.PathLengthAppend | Editor/Utils/WaypointExtensions.cs:20-21 | appending a point adds exactly the distance from the old last point to it |
| PathUtils.PathLengthNonNegative | Editor/Utils/WaypointExtensions.cs:19-22 | with non-negative segment lengths the path length is non-negative |
| PathUtils.UnitSpacedPathLength | Editor/Utils/WaypointExtensions.cs:19-22 | n points one unit apart give a path of length n − 1 |
| PathUtils.PathLengthOverloadsAgree | Editor/Utils/WaypointExtensions.cs:15-36 | with Euclidean distances, the Vector3 and float3 overloads give the same length on corresponding points |
| PathUtils.PrefixIncreasing | Editor/Utils/WaypointExtensions.cs:50-61 | with no zero-length segment, the accumulated distance strictly increases along the path |
| PathUtils.GetPositionAtPercentage | Editor/Utils/WaypointExtensions.cs:41-65 | null or empty gives the zero vector and one point gives that point; otherwise the loop's result equals `PositionAtPercentage`, for every path and percentage except a zero-length first segment with a target distance of at most 0 |
| PathUtils.TargetWithinPath | Editor/Utils/WaypointExtensions.cs:46-48 | the clamped target distance lies between 0 and the path length |
| PathUtils.WalkFindsSegment | Editor/Utils/WaypointExtensions.cs:51-62 | the walk stops at the first segment whose cumulative end reaches the target |
| PathUtils.WalkLandsOnSegment | Editor/Utils/WaypointExtensions.cs:50-64 | the walk returns the lerp inside the first segment reaching the target, at a parameter t in [0, 1] |
| PathUtils.PositionOnFirstReachingSegment | Editor/Utils/WaypointExtensions.cs:46-64 | the point lies on segment k, the first one whose cumulative end reaches total·p, at fraction (target − start of k) / length of k |
| PathUtils.PercentageAtMostZeroIsFirst | Editor/Utils/WaypointExtensions.cs:46-58 | p <= 0 gives the first point when the first segment has a positive length, whatever the later segments are |
| PathUtils.RepeatedPointIsSkipped | Editor/Utils/WaypointExtensions.cs:50-62 | a repeated point is passed over: on [a, a, b] with a != b the walk is defined and p = 1/2 gives the midpoint of a and b |
| PathUtils.PercentageAtLeastOneIsLast | Editor/Utils/WaypointExtensions.cs:46-64 | p >= 1 gives the last point |
| Patrol.NextIndex | Samples/Scripts/Runtime/PatrolPath.cs:70 | for currentIndex >= -1, the next index is in range, is currentIndex + 1 before the end, and wraps from Count − 1 to 0 |
| Patrol.FirstRoundVisitsInOrder | Samples/Scripts/Runtime/PatrolPath.cs:70 | starting at -1, the first Count steps visit the route in order |
| Patrol.StepsArePeriodic | Samples/Scripts/Runtime/PatrolPath.cs:70 | after the first step, stepping Count more times returns to the same index |
| Patrol.ClosestIndexIsUnique | Samples/Scripts/Runtime/PatrolPath.cs:93-97 | with the earliest-index tie rule, the closest exit is unique |
| Patrol.PatrolPath.constructor | Samples/Scripts/Runtime/PatrolPath.cs:18-41 | the field initialisers: spawn at the origin, exit ten units forward, empty exits and route |
| Patrol.PatrolPath.TotalWaypointCount | Samples/Scripts/Runtime/PatrolPath.cs:48-57 | 2 + exits + route, with null counted as 0, so at least 2 |
| Patrol.PatrolPath.TryGetNextWaypoint | Samples/Scripts/Runtime/PatrolPath.cs:62-73 | false and zero for a null or empty route; otherwise true and the point after currentIndex, wrapping to the first |
| Patrol.PatrolPath.TryGetClosestExitPoint | Samples/Scripts/Runtime/PatrolPath.cs:78-102 | false and zero with no exits; otherwise true and the earliest exit at the smallest distance, or the first exit when every distance reaches float.MaxValue |
| Patrol.PatrolPath.ValidateWaypoints | Samples/Scripts/Runtime/PatrolPath.cs:107-124 | valid with an empty message iff route and exits are both non-empty; the route error is reported first, and the exits error only with a route |
| Patrol.NewPathIsNotValid | Samples/Scripts/Runtime/PatrolPath.cs:107-124 | a freshly created component fails validation with the route error |
| FieldCache.MarkedFieldNamesMembership | Editor/Infrastructure/WaypointFieldCache.cs:31-37 | a name is collected iff some field with the attribute has it |
| FieldCache.MarkedFieldNamesInFieldOrder | Editor/Infrastructure/WaypointFieldCache.cs:28-37 | the collected names are exactly the marked fields, in field order |
| FieldCache.MarkedFieldNamesBounds | Editor/Infrastructure/WaypointFieldCache.cs:28-37 | at most one name per field, and a type with no marked field gives the empty list |
| FieldCache.WaypointFieldCache.constructor | Editor/Infrastructure/WaypointFieldCache.cs:15 | the table starts empty |
| FieldCache.WaypointFieldCache.GetFieldNamesWithAttribute | Editor/Infrastructure/WaypointFieldCache.cs:21-41 | a hit returns the stored list and leaves the table unchanged; a miss stores and returns the marked names; the type then maps to the result, other entries stay and none is removed |
| FieldCache.LookupIsMemoised | Editor/Infrastructure/WaypointFieldCache.cs:21-41 | two lookups of the same type give the same list, namely the type's marked field names |
| Serialization.ExtractPositionFromProperty | Editor/Infrastructure/WaypointSerializationAdapter.cs:18-41 | the stored vector for a Vector3 property, (x, y, z) for a generic property with all three children, zero otherwise |
| Serialization.ApplyPositionToProperty | Editor/Infrastructure/WaypointSerializationAdapter.cs:47-68 | writes the Vector3 value or exactly the x/y/z children and leaves the rest alone; an unsupported property is unchanged; extracting afterwards returns the written point; writing back the point just read changes nothing |
| Preferences.GetBool | Editor/Settings/WaypointEditorPreferences.cs:20-36 | a missing key reads as the default, and a stored flag reads as itself |
| Preferences.GetFloat | Editor/Settings/WaypointEditorPreferences.cs:26-48 | a missing key reads as the default, and a stored number reads as itself |
| Preferences.ClampSnapSize | Editor/Settings/WaypointEditorPreferences.cs:29 | the stored snap size is at least 0.01 and equals the value when it already is |
| Preferences.ClampHandleSize | Editor/Settings/WaypointEditorPreferences.cs:41 | the stored handle size is in [0.1, 3.0] and equals the value when it already is |
| Preferences.ClampLineThickness | Editor/Settings/WaypointEditorPreferences.cs:47 | the stored line thickness is in [1.0, 10.0] and equals the value when it already is |
| Preferences.ClampsAreIdempotent | Editor/Settings/WaypointEditorPreferences.cs:29-47 | clamping a clamped value changes nothing |
| Preferences.WaypointEditorPreferences.constructor | Editor/Settings/WaypointEditorPreferences.cs:20-48 | an empty store reads the defaults: snapping off, snap size 0.5, labels on, handle size 1.0, line thickness 4.0 |
| Preferences.WaypointEditorPreferences.SnapSize | Editor/Settings/WaypointEditorPreferences.cs:26-30 | unset reads 0.5; a store written only by the setters reads at least 0.01 |
| Preferences.WaypointEditorPreferences.HandleSize | Editor/Settings/WaypointEditorPreferences.cs:38-42 | unset reads 1.0; a store written only by the setters reads in [0.1, 3.0] |
| Preferences.WaypointEditorPreferences.LineThickness | Editor/Settings/WaypointEditorPreferences.cs:44-48 | unset reads 4.0; a store written only by the setters reads in [1.0, 10.0] |
| Preferences.WaypointEditorPreferences.SnapEnabled | Editor/Settings/WaypointEditorPreferences.cs:20-24 | unset reads false |
| Preferences.WaypointEditorPreferences.ShowLabels | Editor/Settings/WaypointEditorPreferences.cs:32-36 | unset reads true |
| Preferences.WaypointEditorPreferences.SetSnapEnabled | Editor/Settings/WaypointEditorPreferences.cs:20-24 | writes only its own key; the flag reads back and the other four settings read as before |
| Preferences.WaypointEditorPreferences.SetSnapSize | Editor/Settings/WaypointEditorPreferences.cs:26-30 | stores max(0.01, v) under its own key only, keeps the range invariant, and writing back the value just read leaves the store unchanged |
| Preferences.WaypointEditorPreferences.SetShowLabels | Editor/Settings/WaypointEditorPreferences.cs:32-36 | writes only its own key; the flag reads back and the other four settings read as before |
| Preferences.WaypointEditorPreferences.SetHandleSize | Editor/Settings/WaypointEditorPreferences.cs:38-42 | stores clamp(v, 0.1, 3.0) under its own key only, keeps the range invariant, and writing back the value just read leaves the store unchanged |
| Preferences.WaypointEditorPreferences.SetLineThickness | Editor/Settings/WaypointEditorPreferences.cs:44-48 | stores clamp(v, 1.0, 10.0) under its own key only, keeps the range invariant, and writing back the value just read leaves the store unchanged |

## Left out

- The editor tool (Editor/Tools/WaypointEditorTool.cs): handles, Undo, label drawing and camera culling are host GUI. Its snap decision (`SnapEnabled != ctrlHeld`) and its line chaining are not part of this model either.
- Gizmo drawing, the attribute property drawer, the menu items and the preferences provider GUI (Editor/Settings/WaypointEditorPreferences.cs:54 onward) are rendering, inspector UI and asset-database calls.
- `PatrolPath.OnDrawGizmos` and its context-menu debug methods (Samples/Scripts/Runtime/PatrolPath.cs:130-223) are drawing and console output. `showConnections` and `handleSize` are kept as fields that nothing reads.
- `WaypointAttribute` only holds data. A field's attribute is the flag `hasWaypointAttribute`.
- Floating point: coordinates and distances are reals, so float rounding, overflow to infinity and NaN are not modelled. `math.round` is round-half-to-even on reals.
- `Vector3.Distance` and `math.distance` are the parameter `dist`, since there is no square root to compute them.
- Warning text: a warning records its field name, its kind and its indices. The formatted message, including the distances printed with `F4`/`F2` and the `Vector3.ToString` of a duplicate, is not modelled.
- The `out float distance` of `AreWaypointsTooClose`/`IsDistanceUnreasonable`: the model does not return it, since it is only used in the message text.
- Reflection: a type is given as its field sequence in the order `GetFields` returns it. That order is unspecified in .NET and is taken as given.
- Unity matrices: the local-to-world and world-to-local matrices come from a `Transform` in the host. They are inputs here. The round trip assumes the world-to-local matrix is the inverse of an affine one, which is how the tool obtains them.
- Patrol.PatrolPath.TryGetNextWaypoint: requires `-1 <= currentIndex < int.MaxValue`. Below -1 the C# remainder is negative unless `currentIndex + 1` is a multiple of `Count`, and a negative index throws. At `int.MaxValue` the 32-bit addition wraps around.
- PathUtils.GetPositionAtPercentage: requires `WalkDefined`, which excludes one case only: a first segment of length zero when the target distance is at most 0 (a percentage of at most 0, or a total length of 0). The walk then stops on that segment and the source computes 0 / 0, which is NaN in floats. Every later segment is reached with the accumulated distance below the target, so a zero-length one is passed over without a division.
- Preferences.GetFloat: a key that holds a value of the other type reads as the default. The model has one store for both kinds, while EditorPrefs keeps them apart, and the model does not capture that separation.
- Serialization: the child properties found by `FindPropertyRelative` are a map from name to float. A missing name is a null child. The property's object identity and the `SerializedObject` apply/undo cycle are not modelled.
- FieldCache: the cached `List<string>` is returned by reference in the source, so a caller could mutate the cached list. The model returns a value, so it does not capture that aliasing.
- Patrol: `TryGetClosestExitPoint` starts its search from `float.MaxValue`, modelled as that constant on reals. On reals a distance can exceed it, whereas a float distance cannot be above it without being infinite.
