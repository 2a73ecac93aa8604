/** The versioned, schema-validated codec of the id-based client state. The selected wheel is
    saved by its position; loading names the wheel at that position, and a position with no
    wheel makes the load fail. */
module ClientCodec {
  import opened Wrappers
  import opened Collections
  import opened Wheels
  import opened Json
  import opened SavedForm
  import opened IdReducer

  /** `wheels.findIndex(({ id }) => id === selectedWheelId)`; an absent selection matches no wheel. */
  function SelectedPosition(st: IdState): (k: int)
    ensures -1 <= k < |st.wheels|
    ensures k == -1 <==> !ValidSelection(st)
    ensures 0 <= k ==> (IsSelected(st.wheels[k], st.selectedWheelId) &&
      forall j :: 0 <= j < k ==> !IsSelected(st.wheels[j], st.selectedWheelId))
  {
    match st.selectedWheelId
    case None => -1
    case Some(id) => WheelIndex(st.wheels, id)
  }

  /** `mapToSavedState`. */
  function Encode(st: IdState): Saved {
    Saved(SchemaVersion, SelectedPosition(st), SaveWheels(st.wheels))
  }

  /** The JSON value `serializeWheelState` compresses and URI-encodes. */
  function Serialize(st: IdState): Json {
    SavedJson(Encode(st))
  }

  /** `mapFromSavedState`: `wheels[selectedWheelIndex || 0].id` reads a property of `undefined`
      when the position holds no wheel. */
  function Hydrate(saved: Saved, ids: nat -> Id): Result<IdState> {
    var wheels := FreshWheels(saved.w, ids, 0);
    if 0 <= saved.i < |wheels| then Ok(IdState(wheels, Some(wheels[saved.i].id), false))
    else Err(UndefinedAccess)
  }

  /** `deserializeWheelState`, given what decompression, `decodeURI` and `JSON.parse` produced
      (`None` when any of them threw): every failure is caught and gives `null`. `decodeURI` runs
      on the JSON text, so for a label holding '%' that value is not the one that was written. */
  function Deserialize(parsed: Option<Json>, ids: nat -> Id): Option<IdState> {
    match parsed
    case None => None
    case Some(value) =>
      if !Conforms(SavedSchema, value) then None
      else
        var saved := SavedFromJson(value);
        if |saved.w| == 0 then None
        else match Hydrate(saved, ids)
          case Ok(st) => Some(st)
          case Err(_) => None
  }

  /** The condition under which a written state loads again. */
  predicate Loadable(st: IdState) {
    0 <= SelectedPosition(st) <= Int32Max
  }

  /** Read back as the JSON value it wrote, a state loads again exactly when its selection names a
      wheel (at a position that fits in 32 bits); what loads is the hydration of what was written.
      A state without a selected wheel writes a link that does not load. */
  lemma DeserializeWritten(st: IdState, ids: nat -> Id)
    ensures Deserialize(Some(Serialize(st)), ids).Some? <==> Loadable(st)
    ensures Loadable(st) ==> (Hydrate(Encode(st), ids).Ok? &&
      Deserialize(Some(Serialize(st)), ids) == Some(Hydrate(Encode(st), ids).value))
  {
    var saved := Encode(st);
    var i := SelectedPosition(st);
    SavedJsonConforms(saved);
    if Int32Min <= i <= Int32Max {
      SavedJsonRoundTrip(saved);
      assert SavedFromJson(Serialize(st)) == saved;
      if 0 <= i {
        assert |saved.w| > 0 && Hydrate(saved, ids).Ok?;
      } else {
        assert Hydrate(saved, ids).Err?;
      }
    }
  }

  /** Every state that loads selects one of its own wheels. */
  lemma DeserializeSelects(parsed: Option<Json>, ids: nat -> Id)
    ensures var r := Deserialize(parsed, ids);
      r.Some? ==> ValidSelection(r.value) && !r.value.isSpinning
  {
  }

  /** Hydrating a written state selects the wheel at the saved position and keeps the wheel labels
      and every non-blank segment label, trimmed and in order; all flags come back cleared. */
  lemma HydrateEncoded(st: IdState, ids: nat -> Id)
    requires ValidSelection(st)
    ensures var r := Hydrate(Encode(st), ids);
      r.Ok? && |r.value.wheels| == |st.wheels| && !r.value.isSpinning &&
      IsSelected(r.value.wheels[SelectedPosition(st)], r.value.selectedWheelId) &&
      forall k :: 0 <= k < |st.wheels| ==>
        r.value.wheels[k].name == st.wheels[k].name && !r.value.wheels[k].isSpinning &&
        SegmentNames(r.value.wheels[k].segments) == KeptLabels(SegmentNames(st.wheels[k].segments)) &&
        forall j :: 0 <= j < |r.value.wheels[k].segments| ==>
          !r.value.wheels[k].segments[j].selected && !r.value.wheels[k].segments[j].removed
  {
    var saved := Encode(st);
    var i := SelectedPosition(st);
    var wheels := FreshWheels(saved.w, ids, 0);
    assert Hydrate(saved, ids) == Ok(IdState(wheels, Some(wheels[i].id), false));
    FreshWheelsOfSaved(st.wheels, ids, 0);
  }

  /** Writing the wheels of a hydrated state gives back the saved wheels. */
  lemma HydratedWheelsSaveAlike(st: IdState, ids: nat -> Id)
    requires ValidSelection(st)
    ensures Hydrate(Encode(st), ids).Ok? && SaveWheels(Hydrate(Encode(st), ids).value.wheels) == SaveWheels(st.wheels)
  {
    HydrateEncoded(st, ids);
    var back := Hydrate(Encode(st), ids).value;
    forall k | 0 <= k < |st.wheels| ensures SaveWheel(back.wheels[k]) == SaveWheel(st.wheels[k]) {
      KeptLabelsIdempotent(SegmentNames(st.wheels[k].segments));
    }
  }

  /** With an injective id supply, a hydrated state selects the wheel at the saved position. */
  lemma HydratedSelectionAtSavedPosition(st: IdState, ids: nat -> Id)
    requires ValidSelection(st) && Injective(ids)
    ensures Hydrate(Encode(st), ids).Ok? && SelectedPosition(Hydrate(Encode(st), ids).value) == SelectedPosition(st)
  {
    HydrateEncoded(st, ids);
    var back := Hydrate(Encode(st), ids).value;
    var i := SelectedPosition(st);
    assert back.wheels == FreshWheels(Encode(st).w, ids, 0);
    FreshIdsDistinct(Encode(st).w, ids, 0);
    assert back.selectedWheelId == Some(back.wheels[i].id);
    WheelIndexOfUnique(back.wheels, i);
  }

  /** With an injective id supply, writing a hydrated state gives back the record it came from. */
  lemma HydrateStable(st: IdState, ids: nat -> Id)
    requires ValidSelection(st) && Injective(ids)
    ensures Hydrate(Encode(st), ids).Ok? && Encode(Hydrate(Encode(st), ids).value) == Encode(st)
  {
    HydratedWheelsSaveAlike(st, ids);
    HydratedSelectionAtSavedPosition(st, ids);
  }

  /** Loading the JSON value a state wrote gives its hydration, which selects the wheel at the saved
      position. */
  lemma RoundTrip(st: IdState, ids: nat -> Id)
    requires Loadable(st)
    ensures var r := Deserialize(Some(Serialize(st)), ids);
      r.Some? && |r.value.wheels| == |st.wheels| &&
      IsSelected(r.value.wheels[SelectedPosition(st)], r.value.selectedWheelId) &&
      forall k :: 0 <= k < |st.wheels| ==>
        r.value.wheels[k].name == st.wheels[k].name &&
        SegmentNames(r.value.wheels[k].segments) == KeptLabels(SegmentNames(st.wheels[k].segments))
  {
    DeserializeWritten(st, ids);
    HydrateEncoded(st, ids);
  }

  /** With an injective id supply, saving what was loaded from a written JSON value writes the same
      record. */
  lemma SerializeStable(st: IdState, ids: nat -> Id)
    requires Loadable(st) && Injective(ids)
    ensures Deserialize(Some(Serialize(st)), ids).Some? &&
      Serialize(Deserialize(Some(Serialize(st)), ids).value) == Serialize(st)
  {
    DeserializeWritten(st, ids);
    HydrateStable(st, ids);
  }

  /** With an injective id supply, a loaded state has distinct wheel ids and distinct segment ids. */
  lemma DeserializeFreshIds(parsed: Option<Json>, ids: nat -> Id)
    requires Injective(ids)
    ensures var r := Deserialize(parsed, ids);
      r.Some? ==> UniqueWheelIds(r.value.wheels) && forall k :: 0 <= k < |r.value.wheels| ==> UniqueIds(r.value.wheels[k].segments)
  {
    if Deserialize(parsed, ids).Some? {
      FreshIdsDistinct(SavedFromJson(parsed.value).w, ids, 0);
    }
  }
}
