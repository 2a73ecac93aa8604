/** The versioned, schema-validated codec of the index-based state: the selected wheel is saved
    by its position, and hydration draws fresh ids and clears every transient flag. */
module IndexCodec {
  import opened Wrappers
  import opened Collections
  import opened Text
  import opened Wheels
  import opened Json
  import opened SavedForm
  import opened IndexReducer

  /** `mapToSavedState`. */
  function Encode(st: State): Saved {
    Saved(SchemaVersion, st.selectedWheelIndex, SaveWheels(st.wheels))
  }

  /** The JSON value `serializeWheelState` compresses. */
  function Serialize(st: State): Json {
    SavedJson(Encode(st))
  }

  /** `mapFromSavedState`: `i || 0` leaves every integer as it is, since `0 || 0` is `0`. */
  function Hydrate(saved: Saved, ids: nat -> Id): State {
    State(FreshWheels(saved.w, ids, 0), saved.i, None, false)
  }

  /** `deserializeWheelState`, given what decompression and `JSON.parse` produced (`None` when either
      threw): `null` unless the value passes the schema and holds at least one wheel. */
  function Deserialize(parsed: Option<Json>, ids: nat -> Id): Option<State> {
    match parsed
    case None => None
    case Some(value) =>
      if !Conforms(SavedSchema, value) then None
      else
        var saved := SavedFromJson(value);
        if |saved.w| == 0 then None else Some(Hydrate(saved, ids))
  }

  /** The condition under which a written state loads again. */
  predicate Loadable(st: State) {
    |st.wheels| > 0 && Int32Min <= st.selectedWheelIndex <= Int32Max
  }

  /** A written state loads again exactly when it has a wheel and its position fits in 32 bits;
      what loads is the hydration of what was written. */
  lemma DeserializeWritten(st: State, ids: nat -> Id)
    ensures Deserialize(Some(Serialize(st)), ids).Some? <==> Loadable(st)
    ensures Loadable(st) ==> Deserialize(Some(Serialize(st)), ids) == Some(Hydrate(Encode(st), ids))
  {
    SavedJsonConforms(Encode(st));
    if Int32Min <= st.selectedWheelIndex <= Int32Max {
      SavedJsonRoundTrip(Encode(st));
    }
  }

  /** Loading a written state keeps the wheel labels, the selected position and every non-blank
      segment label, trimmed and in order; all flags come back cleared. */
  lemma RoundTrip(st: State, ids: nat -> Id)
    requires Loadable(st)
    ensures var r := Deserialize(Some(Serialize(st)), ids);
      r.Some? && r.value.selectedWheelIndex == st.selectedWheelIndex &&
      r.value.prevSelectedWheelIndex == None && !r.value.showDataUrl &&
      |r.value.wheels| == |st.wheels| &&
      forall k :: 0 <= k < |st.wheels| ==>
        r.value.wheels[k].name == st.wheels[k].name && !r.value.wheels[k].isSpinning &&
        SegmentNames(r.value.wheels[k].segments) == KeptLabels(SegmentNames(st.wheels[k].segments)) &&
        forall j :: 0 <= j < |r.value.wheels[k].segments| ==>
          !r.value.wheels[k].segments[j].selected && !r.value.wheels[k].segments[j].removed
  {
    DeserializeWritten(st, ids);
    FreshWheelsShape(Encode(st).w, ids, 0);
  }

  /** When every segment label is already trimmed and non-blank, the labels come back unchanged. */
  lemma RoundTripCleanLabels(st: State, ids: nat -> Id)
    requires Loadable(st)
    requires forall k, j :: 0 <= k < |st.wheels| && 0 <= j < |st.wheels[k].segments| ==> Clean(st.wheels[k].segments[j].name)
    ensures var r := Deserialize(Some(Serialize(st)), ids);
      r.Some? && forall k :: 0 <= k < |st.wheels| ==> SegmentNames(r.value.wheels[k].segments) == SegmentNames(st.wheels[k].segments)
  {
    RoundTrip(st, ids);
    forall k | 0 <= k < |st.wheels| ensures KeptLabels(SegmentNames(st.wheels[k].segments)) == SegmentNames(st.wheels[k].segments) {
      KeptLabelsOfClean(SegmentNames(st.wheels[k].segments));
    }
  }

  /** Saving what was loaded writes the same record: serialization is stable after one round. */
  lemma SerializeStable(st: State, ids: nat -> Id)
    requires Loadable(st)
    ensures Deserialize(Some(Serialize(st)), ids).Some? &&
      Serialize(Deserialize(Some(Serialize(st)), ids).value) == Serialize(st)
  {
    DeserializeWritten(st, ids);
    SaveFreshWheels(st.wheels, ids, 0);
  }

  /** With an injective id supply, a loaded state has distinct wheel ids and distinct segment ids. */
  lemma DeserializeFreshIds(parsed: Option<Json>, ids: nat -> Id)
    requires Injective(ids)
    ensures var r := Deserialize(parsed, ids);
      r.Some? ==> UniqueWheelIds(r.value.wheels) && forall k :: 0 <= k < |r.value.wheels| ==> UniqueIds(r.value.wheels[k].segments)
  {
    if Deserialize(parsed, ids).Some? {
      FreshIdsDistinct(SavedFromJson(parsed.value).w, ids, 0);
    }
  }

  /** A record whose `i` is not a 32-bit integer (fractional or out of range) is refused; the
      version text is not checked. */
  lemma DeserializeRejects(value: Json, ids: nat -> Id)
    requires value.JObject? && "i" in value.members && value.members["i"].JNumber? && !IsInt32(value.members["i"].n)
    ensures Deserialize(Some(value), ids) == None
  {
    SavedSchemaIff(value);
  }

  /** The position is not checked against the wheels: a record selecting its third wheel while
      holding one loads, and the loaded state selects no wheel. */
  lemma DeserializeKeepsOutOfRangePosition(ids: nat -> Id)
    ensures var r := Deserialize(Some(Serialize(State([Wheel("w", "Wheel 1", [], false)], 2, None, false))), ids);
      r.Some? && !ValidSelection(r.value)
  {
    var st := State([Wheel("w", "Wheel 1", [], false)], 2, None, false);
    DeserializeWritten(st, ids);
  }

  /** The id supply of the codec's tests: `uuid-1`, `uuid-2`, and so on. */
  function TestIds(k: nat): Id {
    "uuid-" + NatToString(k + 1)
  }

  const FirstSaved: Saved := Saved("1", 0, [SavedWheel("First wheel", ["First segment,:", "Second segment,"])])

  lemma HydrateExample()
    ensures Hydrate(FirstSaved, TestIds).wheels == [Wheel("uuid-1", "First wheel",
      [Segment("uuid-2", "First segment,:", false, false), Segment("uuid-3", "Second segment,", false, false)], false)]
  {
    assert TestIds(0) == "uuid-1" by { assert NatToString(1) == "1"; }
    assert TestIds(1) == "uuid-2" by { assert NatToString(2) == "2"; }
    assert TestIds(2) == "uuid-3" by { assert NatToString(3) == "3"; }
    var w := FreshWheel(FirstSaved.w[0], TestIds, 0);
    assert FreshWheels(FirstSaved.w, TestIds, 0) == [w];
    assert w.segments == [Segment("uuid-2", "First segment,:", false, false), Segment("uuid-3", "Second segment,", false, false)];
  }

  /** The record the codec's tests write for a one-wheel state loads back with the ids drawn
      wheel first, then its segments. */
  lemma DeserializeExample()
    ensures Deserialize(Some(SavedJson(FirstSaved)), TestIds) ==
      Some(State([Wheel("uuid-1", "First wheel",
        [Segment("uuid-2", "First segment,:", false, false), Segment("uuid-3", "Second segment,", false, false)], false)],
        0, None, false))
  {
    SavedJsonRoundTrip(FirstSaved);
    HydrateExample();
  }
}
