/** The Redux slice of src/service/wheel-reducer.ts, in which the selected wheel is named by its
    id. The selection is optional (`selectedWheelId?: string`); an absent one matches no wheel. */
module IdReducer {
  import opened Wrappers
  import opened Collections
  import opened Wheels
  import opened Merge

  /** `WheelManagerState` of the id-based revisions. The top-level `isSpinning` is carried along
      unchanged by every case. */
  datatype IdState = IdState(wheels: seq<Wheel>, selectedWheelId: Option<Id>, isSpinning: bool)

  /** The selection names an existing wheel. */
  predicate ValidSelection(st: IdState) {
    st.selectedWheelId.Some? && HasWheel(st.wheels, st.selectedWheelId.value)
  }

  /** A wheel whose id equals the (possibly absent) selected id. */
  predicate IsSelected(w: Wheel, selected: Option<Id>) {
    selected == Some(w.id)
  }

  /** `updateItemInArray(wheels, selectedWheelId, update)`, where an absent id matches nothing. */
  function UpdateSelected(wheels: seq<Wheel>, selected: Option<Id>, update: Wheel -> Wheel): (r: seq<Wheel>)
    ensures |r| == |wheels|
    ensures forall k :: 0 <= k < |wheels| ==>
      r[k] == if IsSelected(wheels[k], selected) then update(wheels[k]) else wheels[k]
  {
    match selected
    case None => wheels
    case Some(id) => UpdateWheel(wheels, id, update)
  }

  /** The wheel update of `endSpin`: a spinning wheel stops, any other is returned as it is. */
  function StopSpinning(w: Wheel): (r: Wheel)
    ensures !r.isSpinning && r.id == w.id && r.name == w.name && r.segments == w.segments
  {
    if w.isSpinning then w.(isSpinning := false) else w
  }

  /** `updateSegments`: the segments of every wheel with the given id are reconciled with the drafts. */
  function UpdateSegments(st: IdState, id: Id, drafts: seq<Draft>): (r: IdState)
    ensures r.selectedWheelId == st.selectedWheelId && r.isSpinning == st.isSpinning && |r.wheels| == |st.wheels|
    ensures forall k :: 0 <= k < |st.wheels| && st.wheels[k].id != id ==> r.wheels[k] == st.wheels[k]
    ensures forall k :: 0 <= k < |st.wheels| && st.wheels[k].id == id ==>
      r.wheels[k] == st.wheels[k].(segments := MergeSegments(st.wheels[k].segments, drafts))
  {
    st.(wheels := UpdateWheel(st.wheels, id, (w: Wheel) => w.(segments := MergeSegments(w.segments, drafts))))
  }

  /** After `updateSegments` the target wheel lists exactly the desired labels, in order; every
      segment is an existing one relabelled or a fresh one with clear flags. */
  lemma UpdateSegmentsLabels(st: IdState, id: Id, drafts: seq<Draft>, k: nat)
    requires k < |st.wheels| && st.wheels[k].id == id
    ensures var w := UpdateSegments(st, id, drafts).wheels[k];
      w.id == id && w.name == st.wheels[k].name && |w.segments| == |drafts| &&
      forall i :: 0 <= i < |drafts| ==> (w.segments[i].name == drafts[i].name &&
        ((exists j :: 0 <= j < |st.wheels[k].segments| && w.segments[i] == st.wheels[k].segments[j].(name := drafts[i].name)) ||
         w.segments[i] == FreshSegment(drafts[i])))
  {
    var old_segments := st.wheels[k].segments;
    MergeLabels(old_segments, drafts);
    forall i | 0 <= i < |drafts|
      ensures var w := UpdateSegments(st, id, drafts).wheels[k];
        (exists j :: 0 <= j < |old_segments| && w.segments[i] == old_segments[j].(name := drafts[i].name)) ||
        w.segments[i] == FreshSegment(drafts[i])
    {
      MergeProvenance(old_segments, drafts, i);
      var o := MergeOrigins(old_segments, drafts);
      if o[i].Some? {
        var j :| 0 <= j < |old_segments| && old_segments[j] == o[i].value;
      }
    }
  }

  /** `startSpin`: every wheel with the given id spins towards `winner`. */
  function StartSpin(st: IdState, id: Id, winner: Id): (r: IdState)
    ensures r.selectedWheelId == st.selectedWheelId && r.isSpinning == st.isSpinning && |r.wheels| == |st.wheels|
    ensures forall k :: 0 <= k < |st.wheels| ==>
      r.wheels[k] == if st.wheels[k].id == id then StartSpinWheel(st.wheels[k], winner) else st.wheels[k]
  {
    st.(wheels := UpdateWheel(st.wheels, id, (w: Wheel) => StartSpinWheel(w, winner)))
  }

  /** `endSpin`: only the selected wheel is touched, and only its spinning flag, which ends false. */
  function EndSpin(st: IdState): (r: IdState)
    ensures r.selectedWheelId == st.selectedWheelId && r.isSpinning == st.isSpinning && |r.wheels| == |st.wheels|
    ensures forall k :: 0 <= k < |st.wheels| && !IsSelected(st.wheels[k], st.selectedWheelId) ==> r.wheels[k] == st.wheels[k]
    ensures forall k :: 0 <= k < |st.wheels| && IsSelected(st.wheels[k], st.selectedWheelId) ==>
      r.wheels[k] == st.wheels[k].(isSpinning := false)
  {
    st.(wheels := UpdateSelected(st.wheels, st.selectedWheelId, StopSpinning))
  }

  /** The wheel update of `resetWheel`: all segments eligible again, spinning stopped. */
  function ResetWholeWheel(w: Wheel): (r: Wheel)
    ensures r.id == w.id && r.name == w.name && !r.isSpinning && |r.segments| == |w.segments|
    ensures forall i :: 0 <= i < |w.segments| ==>
      r.segments[i].id == w.segments[i].id && r.segments[i].name == w.segments[i].name && Eligible(r.segments[i])
  {
    w.(segments := ResetSegments(w.segments), isSpinning := false)
  }

  /** `resetWheel`: only the wheels with the given id are reset. */
  function ResetWheel(st: IdState, id: Id): (r: IdState)
    ensures r.selectedWheelId == st.selectedWheelId && r.isSpinning == st.isSpinning && |r.wheels| == |st.wheels|
    ensures forall k :: 0 <= k < |st.wheels| ==>
      r.wheels[k] == if st.wheels[k].id == id then ResetWholeWheel(st.wheels[k]) else st.wheels[k]
  {
    st.(wheels := UpdateWheel(st.wheels, id, ResetWholeWheel))
  }

  /** `createWheel`: append an empty wheel labelled after the new wheel count and select it. */
  function CreateWheel(st: IdState, id: Id): (r: IdState)
    ensures r.wheels == st.wheels + [Wheel(id, DefaultWheelName(|st.wheels| + 1), [], false)]
    ensures r.selectedWheelId == Some(id) && ValidSelection(r) && r.isSpinning == st.isSpinning
  {
    var r := st.(wheels := st.wheels + [Wheel(id, DefaultWheelName(|st.wheels| + 1), [], false)], selectedWheelId := Some(id));
    assert r.wheels[|st.wheels|].id == id;
    r
  }

  /** `updateWheel`: only the label of the wheels with the given id changes. */
  function UpdateWheelName(st: IdState, id: Id, name: string): (r: IdState)
    ensures r.selectedWheelId == st.selectedWheelId && r.isSpinning == st.isSpinning && |r.wheels| == |st.wheels|
    ensures forall k :: 0 <= k < |st.wheels| ==>
      r.wheels[k] == if st.wheels[k].id == id then st.wheels[k].(name := name) else st.wheels[k]
  {
    st.(wheels := UpdateWheel(st.wheels, id, (w: Wheel) => w.(name := name)))
  }

  /** `deleteWheel`: refuse to delete the last wheel and throw for an unknown id; when the selected
      wheel goes, select the wheel now at its position, or the new last one. The source falls back
      to `undefined` for a negative position, which cannot occur: the deleted position is found
      and at least one wheel remains. */
  function DeleteWheel(st: IdState, id: Id): (r: Result<IdState>)
    ensures |st.wheels| <= 1 ==> r == Err(LastWheelCannotBeDeleted)
    ensures |st.wheels| > 1 && !HasWheel(st.wheels, id) ==> r == Err(ItemNotFound)
    ensures |st.wheels| > 1 && HasWheel(st.wheels, id) ==> r.Ok?
    ensures r.Ok? ==> r.value.wheels == RemoveAt(st.wheels, WheelIndex(st.wheels, id)) && r.value.isSpinning == st.isSpinning
    ensures r.Ok? && st.selectedWheelId != Some(id) ==> r.value.selectedWheelId == st.selectedWheelId
    ensures r.Ok? && st.selectedWheelId == Some(id) ==>
      var next := r.value.wheels;
      r.value.selectedWheelId == Some(next[Min(WheelIndex(st.wheels, id), |next| - 1)].id)
  {
    if |st.wheels| <= 1 then Err(LastWheelCannotBeDeleted)
    else
      match DeleteFirst(st.wheels, (w: Wheel) => w.id == id)
      case Err(f) => Err(f)
      case Ok(next) =>
        var selected :=
          if st.selectedWheelId == Some(id) then
            var index := Min(WheelIndex(st.wheels, id), |next| - 1);
            if index >= 0 then Some(next[index].id) else None
          else st.selectedWheelId;
        Ok(st.(wheels := next, selectedWheelId := selected))
  }

  /** Deleting keeps a valid selection valid: either the selected wheel survives or its neighbour
      takes over. */
  lemma DeleteWheelKeepsSelectionValid(st: IdState, id: Id)
    requires ValidSelection(st) && DeleteWheel(st, id).Ok?
    ensures ValidSelection(DeleteWheel(st, id).value)
  {
    var r := DeleteWheel(st, id).value;
    var k := WheelIndex(st.wheels, id);
    if st.selectedWheelId != Some(id) {
      var j :| 0 <= j < |st.wheels| && st.wheels[j].id == st.selectedWheelId.value;
      if j < k {
        assert r.wheels[j] == st.wheels[j];
      } else {
        assert r.wheels[j - 1] == st.wheels[j];
      }
    } else {
      var index := Min(k, |r.wheels| - 1);
      assert r.wheels[index].id == r.selectedWheelId.value;
    }
  }

  /** `selectWheel`: the previously selected wheel stops spinning and the given id becomes the
      selection, whether or not a wheel carries it. */
  function SelectWheel(st: IdState, id: Id): (r: IdState)
    ensures r.selectedWheelId == Some(id) && r.isSpinning == st.isSpinning && |r.wheels| == |st.wheels|
    ensures forall k :: 0 <= k < |st.wheels| ==>
      r.wheels[k] == if IsSelected(st.wheels[k], st.selectedWheelId) then st.wheels[k].(isSpinning := false) else st.wheels[k]
  {
    st.(wheels := UpdateSelected(st.wheels, st.selectedWheelId, (w: Wheel) => w.(isSpinning := false)),
        selectedWheelId := Some(id))
  }

  /** Selecting keeps the selection valid exactly when the target exists. */
  lemma SelectWheelValidIff(st: IdState, id: Id)
    ensures ValidSelection(SelectWheel(st, id)) <==> HasWheel(st.wheels, id)
  {
    var r := SelectWheel(st, id);
    if HasWheel(st.wheels, id) {
      var k :| 0 <= k < |st.wheels| && st.wheels[k].id == id;
      assert r.wheels[k].id == id;
    }
    if ValidSelection(r) {
      var k :| 0 <= k < |r.wheels| && r.wheels[k].id == id;
      assert st.wheels[k].id == id;
    }
  }

  /** `replaceState`: the payload becomes the state. */
  function ReplaceState(st: IdState, next: IdState): (r: IdState)
    ensures r == next
  {
    next
  }

  /** The same wheels, by id and position. */
  predicate SameWheelIds(a: seq<Wheel>, b: seq<Wheel>) {
    |a| == |b| && forall k :: 0 <= k < |a| ==> a[k].id == b[k].id
  }

  /** Keeping the wheel ids and the selected id keeps the ids unique and the selection valid. */
  lemma SameWheelIdsKeepInvariants(st: IdState, r: IdState)
    requires SameWheelIds(st.wheels, r.wheels) && r.selectedWheelId == st.selectedWheelId
    requires ValidSelection(st) && UniqueWheelIds(st.wheels)
    ensures ValidSelection(r) && UniqueWheelIds(r.wheels)
  {
    var k :| 0 <= k < |st.wheels| && st.wheels[k].id == st.selectedWheelId.value;
    assert r.wheels[k].id == r.selectedWheelId.value;
  }

  /** The operations that neither add nor remove wheels keep every wheel's id and position. */
  lemma {:induction false} UpdatesKeepWheelIds(st: IdState, id: Id, drafts: seq<Draft>, winner: Id, name: string, target: Id)
    ensures SameWheelIds(st.wheels, UpdateSegments(st, id, drafts).wheels)
    ensures SameWheelIds(st.wheels, StartSpin(st, id, winner).wheels)
    ensures SameWheelIds(st.wheels, EndSpin(st).wheels)
    ensures SameWheelIds(st.wheels, ResetWheel(st, id).wheels)
    ensures SameWheelIds(st.wheels, UpdateWheelName(st, id, name).wheels)
    ensures SameWheelIds(st.wheels, SelectWheel(st, target).wheels)
  {
  }

  /** A wheel created with an id not yet in use keeps the ids unique; deleting keeps them unique. */
  lemma CreateAndDeleteKeepIdsUnique(st: IdState, id: Id)
    requires UniqueWheelIds(st.wheels)
    ensures !HasWheel(st.wheels, id) ==> UniqueWheelIds(CreateWheel(st, id).wheels)
    ensures DeleteWheel(st, id).Ok? ==> UniqueWheelIds(DeleteWheel(st, id).value.wheels)
  {
  }
}
