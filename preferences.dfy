/**
 * The editor preferences of the waypoint tool: five settings kept in the
 * host's key-value preference store, each read with a default, and the three
 * float settings clamped when written.
 */
module Preferences {
  import opened Unity

  /** A value in the host preference store. */
  datatype PrefValue = BoolValue(boolValue: bool) | FloatValue(floatValue: real)

  const SnapEnabledKey: string := "AVWaypoints_SnapEnabled"
  const SnapSizeKey: string := "AVWaypoints_SnapSize"
  const ShowLabelsKey: string := "AVWaypoints_ShowLabels"
  const HandleSizeKey: string := "AVWaypoints_HandleSize"
  const LineThicknessKey: string := "AVWaypoints_LineThickness"

  const DefaultSnapEnabled: bool := false
  const DefaultSnapSize: real := 0.5
  const DefaultShowLabels: bool := true
  const DefaultHandleSize: real := 1.0
  const DefaultLineThickness: real := 4.0

  const MinSnapSize: real := 0.01
  const MinHandleSize: real := 0.1
  const MaxHandleSize: real := 3.0
  const MinLineThickness: real := 1.0
  const MaxLineThickness: real := 10.0

  /** EditorPrefs.GetBool: the stored flag, or the default when the key holds none. */
  function GetBool(store: map<string, PrefValue>, key: string, defaultValue: bool): (value: bool)
    ensures key !in store ==> value == defaultValue
    ensures key in store && store[key].BoolValue? ==> value == store[key].boolValue
  {
    if key in store && store[key].BoolValue? then store[key].boolValue else defaultValue
  }

  /** EditorPrefs.GetFloat: the stored number, or the default when the key holds none. */
  function GetFloat(store: map<string, PrefValue>, key: string, defaultValue: real): (value: real)
    ensures key !in store ==> value == defaultValue
    ensures key in store && store[key].FloatValue? ==> value == store[key].floatValue
  {
    if key in store && store[key].FloatValue? then store[key].floatValue else defaultValue
  }

  /** The value the snap size setter stores: at least MinSnapSize. */
  function ClampSnapSize(value: real): (stored: real)
    ensures stored >= MinSnapSize
    ensures value >= MinSnapSize ==> stored == value
    ensures value < MinSnapSize ==> stored == MinSnapSize
  {
    Max(MinSnapSize, value)
  }

  /** The value the handle size setter stores: within [MinHandleSize, MaxHandleSize]. */
  function ClampHandleSize(value: real): (stored: real)
    ensures MinHandleSize <= stored <= MaxHandleSize
    ensures MinHandleSize <= value <= MaxHandleSize ==> stored == value
  {
    Clamp(value, MinHandleSize, MaxHandleSize)
  }

  /** The value the line thickness setter stores: within [MinLineThickness, MaxLineThickness]. */
  function ClampLineThickness(value: real): (stored: real)
    ensures MinLineThickness <= stored <= MaxLineThickness
    ensures MinLineThickness <= value <= MaxLineThickness ==> stored == value
  {
    Clamp(value, MinLineThickness, MaxLineThickness)
  }

  /** Clamping a clamped value changes nothing. */
  lemma ClampsAreIdempotent(value: real)
    ensures ClampSnapSize(ClampSnapSize(value)) == ClampSnapSize(value)
    ensures ClampHandleSize(ClampHandleSize(value)) == ClampHandleSize(value)
    ensures ClampLineThickness(ClampLineThickness(value)) == ClampLineThickness(value)
  {
  }

  /** The key holds a number. */
  predicate StoresFloat(store: map<string, PrefValue>, key: string) {
    key in store && store[key].FloatValue?
  }

  /** A float entry, when it holds a number, holds one in [low, high]. */
  ghost predicate FloatEntryWithin(store: map<string, PrefValue>, key: string, low: real, high: real) {
    key in store && store[key].FloatValue? ==> low <= store[key].floatValue <= high
  }

  /** The editor-preference settings over the host store. */
  class WaypointEditorPreferences {
    var store: map<string, PrefValue>

    /**
     * The float entries are as the setters leave them: the snap size at
     * least MinSnapSize, the other two within their ranges.
     */
    ghost predicate Valid()
      reads this
    {
      (SnapSizeKey in store && store[SnapSizeKey].FloatValue? ==> store[SnapSizeKey].floatValue >= MinSnapSize)
      && FloatEntryWithin(store, HandleSizeKey, MinHandleSize, MaxHandleSize)
      && FloatEntryWithin(store, LineThicknessKey, MinLineThickness, MaxLineThickness)
    }

    /** A store with no entry yet: every setting reads its default. */
    constructor ()
      ensures store == map[]
      ensures Valid()
      ensures !SnapEnabled() && SnapSize() == DefaultSnapSize && ShowLabels()
      ensures HandleSize() == DefaultHandleSize && LineThickness() == DefaultLineThickness
    {
      store := map[];
    }

    function SnapEnabled(): (enabled: bool)
      reads this
      ensures SnapEnabledKey !in store ==> enabled == DefaultSnapEnabled
    {
      GetBool(store, SnapEnabledKey, DefaultSnapEnabled)
    }

    function SnapSize(): (size: real)
      reads this
      ensures SnapSizeKey !in store ==> size == DefaultSnapSize
      ensures Valid() ==> size >= MinSnapSize
    {
      GetFloat(store, SnapSizeKey, DefaultSnapSize)
    }

    function ShowLabels(): (show: bool)
      reads this
      ensures ShowLabelsKey !in store ==> show == DefaultShowLabels
    {
      GetBool(store, ShowLabelsKey, DefaultShowLabels)
    }

    function HandleSize(): (size: real)
      reads this
      ensures HandleSizeKey !in store ==> size == DefaultHandleSize
      ensures Valid() ==> MinHandleSize <= size <= MaxHandleSize
    {
      GetFloat(store, HandleSizeKey, DefaultHandleSize)
    }

    function LineThickness(): (thickness: real)
      reads this
      ensures LineThicknessKey !in store ==> thickness == DefaultLineThickness
      ensures Valid() ==> MinLineThickness <= thickness <= MaxLineThickness
    {
      GetFloat(store, LineThicknessKey, DefaultLineThickness)
    }

    method SetSnapEnabled(value: bool)
      modifies this
      ensures store == old(store)[SnapEnabledKey := BoolValue(value)]
      ensures SnapEnabled() == value
      ensures SnapSize() == old(SnapSize()) && ShowLabels() == old(ShowLabels())
      ensures HandleSize() == old(HandleSize()) && LineThickness() == old(LineThickness())
      ensures old(Valid()) ==> Valid()
    {
      store := store[SnapEnabledKey := BoolValue(value)];
    }

    method SetSnapSize(value: real)
      modifies this
      ensures store == old(store)[SnapSizeKey := FloatValue(ClampSnapSize(value))]
      ensures SnapSize() == Max(MinSnapSize, value) && SnapSize() >= MinSnapSize
      ensures SnapEnabled() == old(SnapEnabled()) && ShowLabels() == old(ShowLabels())
      ensures HandleSize() == old(HandleSize()) && LineThickness() == old(LineThickness())
      ensures old(Valid()) ==> Valid()
      ensures old(Valid()) && old(StoresFloat(store, SnapSizeKey)) && value == old(SnapSize()) ==> store == old(store)
    {
      store := store[SnapSizeKey := FloatValue(Max(MinSnapSize, value))];
    }

    method SetShowLabels(value: bool)
      modifies this
      ensures store == old(store)[ShowLabelsKey := BoolValue(value)]
      ensures ShowLabels() == value
      ensures SnapEnabled() == old(SnapEnabled()) && SnapSize() == old(SnapSize())
      ensures HandleSize() == old(HandleSize()) && LineThickness() == old(LineThickness())
      ensures old(Valid()) ==> Valid()
    {
      store := store[ShowLabelsKey := BoolValue(value)];
    }

    method SetHandleSize(value: real)
      modifies this
      ensures store == old(store)[HandleSizeKey := FloatValue(ClampHandleSize(value))]
      ensures HandleSize() == Clamp(value, MinHandleSize, MaxHandleSize)
      ensures SnapEnabled() == old(SnapEnabled()) && SnapSize() == old(SnapSize())
      ensures ShowLabels() == old(ShowLabels()) && LineThickness() == old(LineThickness())
      ensures old(Valid()) ==> Valid()
      ensures old(Valid()) && old(StoresFloat(store, HandleSizeKey)) && value == old(HandleSize()) ==> store == old(store)
    {
      store := store[HandleSizeKey := FloatValue(Clamp(value, MinHandleSize, MaxHandleSize))];
    }

    method SetLineThickness(value: real)
      modifies this
      ensures store == old(store)[LineThicknessKey := FloatValue(ClampLineThickness(value))]
      ensures LineThickness() == Clamp(value, MinLineThickness, MaxLineThickness)
      ensures SnapEnabled() == old(SnapEnabled()) && SnapSize() == old(SnapSize())
      ensures ShowLabels() == old(ShowLabels()) && HandleSize() == old(HandleSize())
      ensures old(Valid()) ==> Valid()
      ensures old(Valid()) && old(StoresFloat(store, LineThicknessKey)) && value == old(LineThickness()) ==> store == old(store)
    {
      store := store[LineThicknessKey := FloatValue(Clamp(value, MinLineThickness, MaxLineThickness))];
    }
  }
}
