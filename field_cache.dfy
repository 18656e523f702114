/**
 * The memo table from a type to the names of its fields that carry the
 * waypoint attribute. A type is given as the sequence of fields reflection
 * returns for it; the table is filled on a miss and never invalidated.
 */
module FieldCache {

  /** A field as reflection reports it: its name and whether it is marked [Waypoint]. */
  datatype FieldInfo = FieldInfo(name: string, hasWaypointAttribute: bool)

  /** A type, identified by its full name, with its instance fields in reflection order. */
  datatype ReflectedType = ReflectedType(fullName: string, fields: seq<FieldInfo>)

  /** The names of the marked fields, in field order. */
  function MarkedFieldNames(fields: seq<FieldInfo>): seq<string> {
    if |fields| == 0 then []
    else
      var last := fields[|fields| - 1];
      MarkedFieldNames(fields[..|fields| - 1]) + (if last.hasWaypointAttribute then [last.name] else [])
  }

  /** A name is listed iff some marked field has it. */
  lemma {:induction false} MarkedFieldNamesMembership(fields: seq<FieldInfo>, name: string)
    ensures name in MarkedFieldNames(fields)
        <==> exists i :: 0 <= i < |fields| && fields[i].hasWaypointAttribute && fields[i].name == name
  {
    if |fields| > 0 {
      var init := fields[..|fields| - 1];
      MarkedFieldNamesMembership(init, name);
      if exists i :: 0 <= i < |init| && init[i].hasWaypointAttribute && init[i].name == name {
        var i :| 0 <= i < |init| && init[i].hasWaypointAttribute && init[i].name == name;
        assert fields[i] == init[i];
      }
      if exists i :: 0 <= i < |fields| && fields[i].hasWaypointAttribute && fields[i].name == name {
        var i :| 0 <= i < |fields| && fields[i].hasWaypointAttribute && fields[i].name == name;
        if i < |init| {
          assert init[i] == fields[i];
        }
      }
    }
  }

  /** positions[p] is a marked field whose name is names[p]. */
  ghost predicate NamedBy(fields: seq<FieldInfo>, names: seq<string>, positions: seq<nat>) {
    |positions| == |names|
    && forall p :: 0 <= p < |positions| ==>
      (positions[p] < |fields| && fields[positions[p]].hasWaypointAttribute && fields[positions[p]].name == names[p])
  }

  ghost predicate StrictlyIncreasing(positions: seq<nat>) {
    forall p, q :: 0 <= p < q < |positions| ==> positions[p] < positions[q]
  }

  ghost predicate CoversMarked(fields: seq<FieldInfo>, positions: seq<nat>) {
    forall i :: 0 <= i < |fields| && fields[i].hasWaypointAttribute ==> i in positions
  }

  /** The positions for fields, given those for all fields but the last. */
  function ExtendPositions(fields: seq<FieldInfo>, before: seq<nat>): seq<nat>
    requires |fields| > 0
  {
    if fields[|fields| - 1].hasWaypointAttribute then before + [|fields| - 1] else before
  }

  lemma ExtendNamedBy(fields: seq<FieldInfo>, before: seq<nat>)
    requires |fields| > 0
    requires NamedBy(fields[..|fields| - 1], MarkedFieldNames(fields[..|fields| - 1]), before)
    ensures NamedBy(fields, MarkedFieldNames(fields), ExtendPositions(fields, before))
  {
    var n := |fields|;
    var init := fields[..n - 1];
    var names, initNames := MarkedFieldNames(fields), MarkedFieldNames(init);
    var positions := ExtendPositions(fields, before);
    forall p | 0 <= p < |positions|
      ensures positions[p] < n && fields[positions[p]].hasWaypointAttribute
      ensures fields[positions[p]].name == names[p]
    {
      if p < |before| {
        assert positions[p] == before[p] && names[p] == initNames[p];
        assert init[before[p]] == fields[before[p]];
      }
    }
  }

  lemma ExtendStrictlyIncreasing(fields: seq<FieldInfo>, before: seq<nat>)
    requires |fields| > 0 && StrictlyIncreasing(before)
    requires forall p :: 0 <= p < |before| ==> before[p] < |fields| - 1
    ensures StrictlyIncreasing(ExtendPositions(fields, before))
  {
  }

  lemma ExtendCoversMarked(fields: seq<FieldInfo>, before: seq<nat>)
    requires |fields| > 0 && CoversMarked(fields[..|fields| - 1], before)
    ensures CoversMarked(fields, ExtendPositions(fields, before))
  {
    var init := fields[..|fields| - 1];
    forall i | 0 <= i < |fields| && fields[i].hasWaypointAttribute
      ensures i in ExtendPositions(fields, before)
    {
      if i < |fields| - 1 {
        assert init[i] == fields[i];
      }
    }
  }

  /**
   * The result is the marked fields in their order: positions[p] is the field
   * behind the p-th name, the positions strictly increase, and every marked
   * field has a position.
   */
  lemma {:induction false} MarkedFieldNamesInFieldOrder(fields: seq<FieldInfo>) returns (positions: seq<nat>)
    ensures |positions| == |MarkedFieldNames(fields)|
    ensures forall p :: 0 <= p < |positions| ==>
      (positions[p] < |fields| && fields[positions[p]].hasWaypointAttribute
       && fields[positions[p]].name == MarkedFieldNames(fields)[p])
    ensures forall p, q :: 0 <= p < q < |positions| ==> positions[p] < positions[q]
    ensures forall i :: 0 <= i < |fields| && fields[i].hasWaypointAttribute ==> i in positions
  {
    if |fields| == 0 {
      positions := [];
    } else {
      var before := MarkedFieldNamesInFieldOrder(fields[..|fields| - 1]);
      ExtendNamedBy(fields, before);
      ExtendStrictlyIncreasing(fields, before);
      ExtendCoversMarked(fields, before);
      positions := ExtendPositions(fields, before);
    }
  }

  /** At most one name per field; no marked field gives the empty list. */
  lemma {:induction false} MarkedFieldNamesBounds(fields: seq<FieldInfo>)
    ensures |MarkedFieldNames(fields)| <= |fields|
    ensures (forall i :: 0 <= i < |fields| ==> !fields[i].hasWaypointAttribute) ==> MarkedFieldNames(fields) == []
  {
    if |fields| > 0 {
      var init := fields[..|fields| - 1];
      MarkedFieldNamesBounds(init);
      if forall i :: 0 <= i < |fields| ==> !fields[i].hasWaypointAttribute {
        assert forall i :: 0 <= i < |init| ==> !init[i].hasWaypointAttribute by {
          forall i | 0 <= i < |init|
            ensures !init[i].hasWaypointAttribute
          {
            assert init[i] == fields[i];
          }
        }
      }
    }
  }

  /** The static dictionary from type to marked field names. */
  class WaypointFieldCache {
    var waypointFieldsByType: map<ReflectedType, seq<string>>

    /** Every entry holds the marked field names of its type. */
    ghost predicate Valid()
      reads this
    {
      forall t :: t in waypointFieldsByType ==> waypointFieldsByType[t] == MarkedFieldNames(t.fields)
    }

    constructor ()
      ensures waypointFieldsByType == map[]
      ensures Valid()
    {
      waypointFieldsByType := map[];
    }

    /**
     * A hit returns the stored list and leaves the table as it was; a miss
     * collects the marked field names in field order and stores them for the
     * type. Either way the type then has an entry equal to the result, the
     * other entries are untouched, and no entry is removed.
     */
    method GetFieldNamesWithAttribute(typeToInspect: ReflectedType) returns (paths: seq<string>)
      modifies this
      ensures typeToInspect in old(waypointFieldsByType) ==>
        paths == old(waypointFieldsByType)[typeToInspect] && waypointFieldsByType == old(waypointFieldsByType)
      ensures typeToInspect !in old(waypointFieldsByType) ==>
        paths == MarkedFieldNames(typeToInspect.fields)
        && waypointFieldsByType == old(waypointFieldsByType)[typeToInspect := paths]
      ensures typeToInspect in waypointFieldsByType && waypointFieldsByType[typeToInspect] == paths
      ensures old(waypointFieldsByType).Keys <= waypointFieldsByType.Keys
      ensures forall t :: t in old(waypointFieldsByType) && t != typeToInspect ==>
        t in waypointFieldsByType && waypointFieldsByType[t] == old(waypointFieldsByType)[t]
      ensures old(Valid()) ==> Valid() && paths == MarkedFieldNames(typeToInspect.fields)
    {
      if typeToInspect in waypointFieldsByType {
        return waypointFieldsByType[typeToInspect];
      }
      var newPaths: seq<string> := [];
      var fields := typeToInspect.fields;
      var i := 0;
      while i < |fields|
        invariant 0 <= i <= |fields|
        invariant newPaths == MarkedFieldNames(fields[..i])
      {
        assert fields[..i + 1][..i] == fields[..i];
        if fields[i].hasWaypointAttribute {
          newPaths := newPaths + [fields[i].name];
        }
        i := i + 1;
      }
      assert fields[..|fields|] == fields;
      waypointFieldsByType := waypointFieldsByType[typeToInspect := newPaths];
      return newPaths;
    }
  }

  /** Asking twice for the same type gives the same list: the first answer is memoised. */
  method LookupIsMemoised(cache: WaypointFieldCache, typeToInspect: ReflectedType)
    returns (first: seq<string>, second: seq<string>)
    modifies cache
    ensures first == second
    ensures old(cache.Valid()) ==> first == MarkedFieldNames(typeToInspect.fields)
  {
    first := cache.GetFieldNamesWithAttribute(typeToInspect);
    second := cache.GetFieldNamesWithAttribute(typeToInspect);
  }
}
