/**
 * Reading and writing a point through an editor serialized property, which
 * is either a Vector3 property or a generic (float3) property whose x, y and
 * z children hold the coordinates.
 */
module Serialization {
  import opened Unity

  /** SerializedPropertyType, reduced to the two kinds the adapter handles and the rest. */
  datatype PropertyType = Vector3Property | GenericProperty | OtherProperty

  /**
   * A serialized property: its kind, its Vector3 value, and the float values
   * of its relative children by name (a missing name is a null child).
   */
  class SerializedProperty {
    var propertyType: PropertyType
    var vector3Value: Vector3
    var children: map<string, real>

    constructor (propertyType: PropertyType, vector3Value: Vector3, children: map<string, real>)
      ensures this.propertyType == propertyType && this.vector3Value == vector3Value && this.children == children
    {
      this.propertyType := propertyType;
      this.vector3Value := vector3Value;
      this.children := children;
    }
  }

  /** The generic property has all three coordinate children. */
  predicate HasCoordinateChildren(children: map<string, real>) {
    "x" in children && "y" in children && "z" in children
  }

  /** The adapter can store a point in the property. */
  predicate HoldsPosition(property: SerializedProperty)
    reads property
  {
    property.propertyType == Vector3Property
    || (property.propertyType == GenericProperty && HasCoordinateChildren(property.children))
  }

  /**
   * The stored Vector3 for a Vector3 property; the x, y and z children for a
   * generic property that has all three; the zero point otherwise.
   */
  function ExtractPositionFromProperty(property: SerializedProperty): (position: Float3)
    reads property
    ensures property.propertyType == Vector3Property ==>
      position == Float3(property.vector3Value.x, property.vector3Value.y, property.vector3Value.z)
    ensures property.propertyType == GenericProperty && HasCoordinateChildren(property.children) ==>
      position == Float3(property.children["x"], property.children["y"], property.children["z"])
    ensures !HoldsPosition(property) ==> position == ZeroFloat3
  {
    if property.propertyType == Vector3Property then
      var vectorValue := property.vector3Value;
      Float3(vectorValue.x, vectorValue.y, vectorValue.z)
    else if property.propertyType == GenericProperty && HasCoordinateChildren(property.children) then
      Float3(property.children["x"], property.children["y"], property.children["z"])
    else
      ZeroFloat3
  }

  /**
   * Writes the point into the property: the Vector3 value of a Vector3
   * property, the three coordinate children of a complete generic property,
   * and nothing for any other property. Extracting afterwards gives the point
   * back, and writing back the point just read changes nothing.
   */
  method ApplyPositionToProperty(property: SerializedProperty, newPosition: Float3)
    modifies property
    ensures property.propertyType == old(property.propertyType)
    ensures old(property.propertyType) == Vector3Property ==>
      property.vector3Value == Vector3(newPosition.x, newPosition.y, newPosition.z)
      && property.children == old(property.children)
    ensures old(property.propertyType) == GenericProperty && HasCoordinateChildren(old(property.children)) ==>
      property.children == old(property.children)["x" := newPosition.x]["y" := newPosition.y]["z" := newPosition.z]
      && property.vector3Value == old(property.vector3Value)
    ensures !old(HoldsPosition(property)) ==> unchanged(property)
    ensures HoldsPosition(property) == old(HoldsPosition(property))
    ensures HoldsPosition(property) ==> ExtractPositionFromProperty(property) == newPosition
    ensures newPosition == old(ExtractPositionFromProperty(property)) && old(HoldsPosition(property)) ==>
      property.vector3Value == old(property.vector3Value) && property.children == old(property.children)
  {
    if property.propertyType == Vector3Property {
      property.vector3Value := Vector3(newPosition.x, newPosition.y, newPosition.z);
      return;
    }
    if property.propertyType == GenericProperty {
      if HasCoordinateChildren(property.children) {
        property.children := property.children["x" := newPosition.x];
        property.children := property.children["y" := newPosition.y];
        property.children := property.children["z" := newPosition.z];
      }
    }
  }
}
