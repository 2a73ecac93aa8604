/** The first codec of the id-based client state: the compact record `{i, w}` has no version and
    no schema, and loading does not catch what it throws. */
module EarliestCodec {
  import opened Wrappers
  import opened Wheels
  import opened SavedForm
  import opened IdReducer
  import ClientCodec

  /** The unversioned compact record: selected wheel position `i`, wheels `w`. */
  datatype SavedV0 = SavedV0(i: int, w: seq<SavedWheel>)

  /** `mapToSavedState`. */
  function Encode(st: IdState): SavedV0 {
    SavedV0(ClientCodec.SelectedPosition(st), SaveWheels(st.wheels))
  }

  /** `mapFromSavedState`, which reads the record exactly as the versioned client codec does. */
  function Hydrate(saved: SavedV0, ids: nat -> Id): Result<IdState> {
    ClientCodec.Hydrate(Saved(SchemaVersion, saved.i, saved.w), ids)
  }

  /** `deserializeWheelState`, given the record decompression and `JSON.parse` produced (`None`
      when either threw). Nothing is caught: a failure reaches the caller. */
  function Deserialize(parsed: Option<SavedV0>, ids: nat -> Id): Result<IdState> {
    match parsed
    case None => Err(ParseFailure)
    case Some(saved) => Hydrate(saved, ids)
  }

  /** A record loads exactly when its position holds a wheel; an empty record throws. */
  lemma DeserializeFailsIff(saved: SavedV0, ids: nat -> Id)
    ensures Deserialize(Some(saved), ids).Err? <==> !(0 <= saved.i < |saved.w|)
    ensures Deserialize(Some(saved), ids).Err? ==> Deserialize(Some(saved), ids).fault == UndefinedAccess
  {
  }

  /** A written state loads again exactly when its selection names a wheel. */
  lemma DeserializeWritten(st: IdState, ids: nat -> Id)
    ensures Deserialize(Some(Encode(st)), ids).Ok? <==> ValidSelection(st)
  {
  }

  /** The unversioned record carries the same position and wheels as the versioned one. */
  lemma DeserializeIsClientHydrate(st: IdState, ids: nat -> Id)
    ensures Deserialize(Some(Encode(st)), ids) == ClientCodec.Hydrate(ClientCodec.Encode(st), ids)
  {
  }

  /** Loading a written state selects the wheel at the saved position and keeps the wheel labels
      and every non-blank segment label, trimmed and in order. */
  lemma RoundTrip(st: IdState, ids: nat -> Id)
    requires ValidSelection(st)
    ensures var r := Deserialize(Some(Encode(st)), ids);
      r.Ok? && |r.value.wheels| == |st.wheels| &&
      IsSelected(r.value.wheels[ClientCodec.SelectedPosition(st)], r.value.selectedWheelId) &&
      forall k :: 0 <= k < |st.wheels| ==>
        r.value.wheels[k].name == st.wheels[k].name &&
        SegmentNames(r.value.wheels[k].segments) == KeptLabels(SegmentNames(st.wheels[k].segments))
  {
    ClientCodec.HydrateEncoded(st, ids);
  }

  /** With an injective id supply, saving what was loaded writes the same record. */
  lemma SerializeStable(st: IdState, ids: nat -> Id)
    requires ValidSelection(st) && Injective(ids)
    ensures Deserialize(Some(Encode(st)), ids).Ok? &&
      Encode(Deserialize(Some(Encode(st)), ids).value) == Encode(st)
  {
    ClientCodec.HydrateStable(st, ids);
  }
}
