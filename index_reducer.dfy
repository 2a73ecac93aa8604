/** The Redux slice of src/services/wheel-reducer.ts, in which the selected wheel is a position in
    the wheel list. Each case reducer is a function from the state (and its payload) to the next
    state, or to a fault where the source throws. */
module IndexReducer {
  import opened Wrappers
  import opened Collections
  import opened Wheels
  import opened Merge

  /** `WheelManagerState`: `prevSelectedWheelIndex` is optional (`undefined` at start-up). */
  datatype State = State(wheels: seq<Wheel>, selectedWheelIndex: int, prevSelectedWheelIndex: Option<int>, showDataUrl: bool)

  /** The selection points at an existing wheel. */
  predicate ValidSelection(st: State) {
    0 <= st.selectedWheelIndex < |st.wheels|
  }

  /** `updateSegments.prepare`: one draft per label, the k-th drawing the k-th fresh id. */
  function Prepare(labels: seq<string>, ids: nat -> Id): (r: seq<Draft>)
    ensures |r| == |labels|
    ensures forall k :: 0 <= k < |r| ==> r[k].name == labels[k] && r[k].id == ids(k)
  {
    seq(|labels|, k requires 0 <= k < |labels| => Draft(ids(k), labels[k]))
  }

  /** `updateSegments`: the segments of every wheel with the given id are reconciled with the
      drafts; nothing else changes. */
  function UpdateSegments(st: State, id: Id, drafts: seq<Draft>): (r: State)
    ensures r.selectedWheelIndex == st.selectedWheelIndex && r.prevSelectedWheelIndex == st.prevSelectedWheelIndex
    ensures r.showDataUrl == st.showDataUrl && |r.wheels| == |st.wheels|
    ensures forall k :: 0 <= k < |st.wheels| && st.wheels[k].id != id ==> r.wheels[k] == st.wheels[k]
    ensures forall k :: 0 <= k < |st.wheels| && st.wheels[k].id == id ==>
      r.wheels[k] == st.wheels[k].(segments := MergeSegments(st.wheels[k].segments, drafts))
  {
    st.(wheels := UpdateWheel(st.wheels, id, (w: Wheel) => w.(segments := MergeSegments(w.segments, drafts))))
  }

  /** After `updateSegments` the target wheel lists exactly the desired labels, in order, and keeps
      its id, label and spinning flag. */
  lemma UpdateSegmentsLabels(st: State, id: Id, labels: seq<string>, ids: nat -> Id, k: nat)
    requires k < |st.wheels| && st.wheels[k].id == id
    ensures var w := UpdateSegments(st, id, Prepare(labels, ids)).wheels[k];
      w.id == id && w.name == st.wheels[k].name && w.isSpinning == st.wheels[k].isSpinning &&
      |w.segments| == |labels| &&
      forall i :: 0 <= i < |labels| ==> w.segments[i].name == labels[i]
  {
    MergeLabels(st.wheels[k].segments, Prepare(labels, ids));
  }

  /** `startSpin`: every wheel with the given id spins towards `winner`. */
  function StartSpin(st: State, id: Id, winner: Id): (r: State)
    ensures r.selectedWheelIndex == st.selectedWheelIndex && r.prevSelectedWheelIndex == st.prevSelectedWheelIndex
    ensures r.showDataUrl == st.showDataUrl && |r.wheels| == |st.wheels|
    ensures forall k :: 0 <= k < |st.wheels| && st.wheels[k].id != id ==> r.wheels[k] == st.wheels[k]
    ensures forall k :: 0 <= k < |st.wheels| && st.wheels[k].id == id ==>
      r.wheels[k] == StartSpinWheel(st.wheels[k], winner)
  {
    st.(wheels := UpdateWheel(st.wheels, id, (w: Wheel) => StartSpinWheel(w, winner)))
  }

  /** `endSpin`: the wheels sharing the selected wheel's id stop spinning. Reading the id of a
      wheel at an index outside the list throws a TypeError. */
  function EndSpin(st: State): (r: Result<State>)
    ensures r.Err? <==> !ValidSelection(st)
    ensures r.Err? ==> r.fault == UndefinedAccess
    ensures r.Ok? ==> (r.value.selectedWheelIndex == st.selectedWheelIndex &&
      r.value.prevSelectedWheelIndex == st.prevSelectedWheelIndex &&
      r.value.showDataUrl == st.showDataUrl && |r.value.wheels| == |st.wheels|)
    ensures r.Ok? ==> forall k :: 0 <= k < |st.wheels| ==>
      r.value.wheels[k] == if st.wheels[k].id == st.wheels[st.selectedWheelIndex].id
        then st.wheels[k].(isSpinning := false) else st.wheels[k]
  {
    if !(0 <= st.selectedWheelIndex < |st.wheels|) then Err(UndefinedAccess)
    else
      var id := st.wheels[st.selectedWheelIndex].id;
      Ok(st.(wheels := UpdateWheel(st.wheels, id, (w: Wheel) => if w.isSpinning then w.(isSpinning := false) else w)))
  }

  /** `resetWheel`: the target wheel's segments all become eligible again and it stops spinning. */
  function ResetWheel(st: State, id: Id): (r: State)
    ensures r.selectedWheelIndex == st.selectedWheelIndex && r.prevSelectedWheelIndex == st.prevSelectedWheelIndex
    ensures r.showDataUrl == st.showDataUrl && |r.wheels| == |st.wheels|
    ensures forall k :: 0 <= k < |st.wheels| && st.wheels[k].id != id ==> r.wheels[k] == st.wheels[k]
    ensures forall k :: 0 <= k < |st.wheels| && st.wheels[k].id == id ==>
      var (was, now) := (st.wheels[k], r.wheels[k]);
      now.id == was.id && now.name == was.name && !now.isSpinning && |now.segments| == |was.segments| &&
      forall i :: 0 <= i < |was.segments| ==>
        now.segments[i].id == was.segments[i].id && now.segments[i].name == was.segments[i].name &&
        !now.segments[i].selected && !now.segments[i].removed
  {
    st.(wheels := UpdateWheel(st.wheels, id, (w: Wheel) => w.(segments := ResetSegments(w.segments), isSpinning := false)))
  }

  /** `createWheel`: append an empty wheel labelled after the new wheel count and select it,
      remembering the previous selection. */
  function CreateWheel(st: State, id: Id): (r: State)
    ensures |r.wheels| == |st.wheels| + 1 && r.wheels[..|st.wheels|] == st.wheels
    ensures r.wheels[|st.wheels|] == Wheel(id, DefaultWheelName(|st.wheels| + 1), [], false)
    ensures ValidSelection(r) && r.wheels[r.selectedWheelIndex].id == id
    ensures r.prevSelectedWheelIndex == Some(st.selectedWheelIndex) && r.showDataUrl == st.showDataUrl
  {
    st.(wheels := st.wheels + [Wheel(id, DefaultWheelName(|st.wheels| + 1), [], false)],
        prevSelectedWheelIndex := Some(st.selectedWheelIndex),
        selectedWheelIndex := |st.wheels|)
  }

  /** `updateWheel`: relabel the wheels with the given id. */
  function UpdateWheelName(st: State, id: Id, name: string): (r: State)
    ensures r.selectedWheelIndex == st.selectedWheelIndex && r.prevSelectedWheelIndex == st.prevSelectedWheelIndex
    ensures r.showDataUrl == st.showDataUrl && |r.wheels| == |st.wheels|
    ensures forall k :: 0 <= k < |st.wheels| ==>
      r.wheels[k] == if st.wheels[k].id == id then st.wheels[k].(name := name) else st.wheels[k]
  {
    st.(wheels := UpdateWheel(st.wheels, id, (w: Wheel) => w.(name := name)))
  }

  /** `deleteWheel`: refuse to delete the last wheel, throw for an unknown id, and otherwise clamp
      the selected position to the shorter list. */
  function DeleteWheel(st: State, id: Id): (r: Result<State>)
    ensures |st.wheels| <= 1 ==> r == Err(LastWheelCannotBeDeleted)
    ensures |st.wheels| > 1 && !HasWheel(st.wheels, id) ==> r == Err(ItemNotFound)
    ensures |st.wheels| > 1 && HasWheel(st.wheels, id) ==> r.Ok?
    ensures r.Ok? ==> var k := WheelIndex(st.wheels, id);
      0 <= k && r.value.wheels == RemoveAt(st.wheels, k) &&
      r.value.selectedWheelIndex == Min(st.selectedWheelIndex, |st.wheels| - 2) &&
      r.value.prevSelectedWheelIndex == Some(st.selectedWheelIndex) && r.value.showDataUrl == st.showDataUrl
  {
    if |st.wheels| <= 1 then Err(LastWheelCannotBeDeleted)
    else
      match DeleteFirst(st.wheels, (w: Wheel) => w.id == id)
      case Err(f) => Err(f)
      case Ok(next) =>
        Ok(st.(wheels := next,
               prevSelectedWheelIndex := Some(st.selectedWheelIndex),
               selectedWheelIndex := Min(st.selectedWheelIndex, |next| - 1)))
  }

  /** Deleting keeps a valid selection valid. */
  lemma DeleteWheelKeepsSelectionValid(st: State, id: Id)
    requires ValidSelection(st) && DeleteWheel(st, id).Ok?
    ensures ValidSelection(DeleteWheel(st, id).value)
  {
  }

  /** `selectWheel`: stop the previously selected wheel spinning and point at the first wheel with
      the given id, or at -1 when there is none. Reading the id of the previous selection throws
      when it is outside the list. */
  function SelectWheel(st: State, id: Id): (r: Result<State>)
    ensures r.Err? <==> !ValidSelection(st)
    ensures r.Err? ==> r.fault == UndefinedAccess
    ensures r.Ok? ==> (r.value.selectedWheelIndex == WheelIndex(st.wheels, id) &&
      r.value.prevSelectedWheelIndex == Some(st.selectedWheelIndex) &&
      r.value.showDataUrl == st.showDataUrl && |r.value.wheels| == |st.wheels|)
    ensures r.Ok? ==> forall k :: 0 <= k < |st.wheels| ==>
      r.value.wheels[k] == if st.wheels[k].id == st.wheels[st.selectedWheelIndex].id
        then st.wheels[k].(isSpinning := false) else st.wheels[k]
  {
    if !(0 <= st.selectedWheelIndex < |st.wheels|) then Err(UndefinedAccess)
    else
      var previous := st.wheels[st.selectedWheelIndex].id;
      Ok(st.(wheels := UpdateWheel(st.wheels, previous, (w: Wheel) => w.(isSpinning := false)),
             prevSelectedWheelIndex := Some(st.selectedWheelIndex),
             selectedWheelIndex := WheelIndex(st.wheels, id)))
  }

  /** Selecting keeps the selection valid exactly when the target exists; otherwise the index
      becomes -1. */
  lemma SelectWheelValidIff(st: State, id: Id)
    requires ValidSelection(st)
    ensures ValidSelection(SelectWheel(st, id).value) <==> HasWheel(st.wheels, id)
    ensures !HasWheel(st.wheels, id) ==> SelectWheel(st, id).value.selectedWheelIndex == -1
  {
  }

  /** `replaceState`: the payload becomes the state. */
  function ReplaceState(st: State, next: State): (r: State)
    ensures r == next
  {
    next
  }

  /** `setShowDataUrl`: only the sharing flag changes. */
  function SetShowDataUrl(st: State, show: bool): (r: State)
    ensures r.showDataUrl == show && r.wheels == st.wheels
    ensures r.selectedWheelIndex == st.selectedWheelIndex && r.prevSelectedWheelIndex == st.prevSelectedWheelIndex
  {
    st.(showDataUrl := show)
  }

  /** The same wheels, by id and position. */
  predicate SameWheelIds(a: seq<Wheel>, b: seq<Wheel>) {
    |a| == |b| && forall k :: 0 <= k < |a| ==> a[k].id == b[k].id
  }

  /** The operations that neither add nor remove wheels keep every wheel's id and position, and
      the selection. */
  lemma {:induction false} UpdatesKeepWheelIds(st: State, id: Id, drafts: seq<Draft>, winner: Id, name: string, show: bool)
    ensures SameWheelIds(st.wheels, UpdateSegments(st, id, drafts).wheels)
    ensures SameWheelIds(st.wheels, StartSpin(st, id, winner).wheels)
    ensures SameWheelIds(st.wheels, ResetWheel(st, id).wheels)
    ensures SameWheelIds(st.wheels, UpdateWheelName(st, id, name).wheels)
    ensures SameWheelIds(st.wheels, SetShowDataUrl(st, show).wheels)
    ensures EndSpin(st).Ok? ==> SameWheelIds(st.wheels, EndSpin(st).value.wheels)
  {
  }

  /** Keeping the wheel ids and the selected position keeps the ids unique and the selection valid. */
  lemma SameWheelIdsKeepInvariants(st: State, r: State)
    requires SameWheelIds(st.wheels, r.wheels) && r.selectedWheelIndex == st.selectedWheelIndex
    requires ValidSelection(st) && UniqueWheelIds(st.wheels)
    ensures ValidSelection(r) && UniqueWheelIds(r.wheels)
  {
  }

  /** A wheel created with an id not yet in use keeps the ids unique. */
  lemma CreateWheelKeepsIdsUnique(st: State, id: Id)
    requires UniqueWheelIds(st.wheels) && !HasWheel(st.wheels, id)
    ensures UniqueWheelIds(CreateWheel(st, id).wheels)
  {
  }

  /** Deleting a wheel keeps the ids unique. */
  lemma DeleteWheelKeepsIdsUnique(st: State, id: Id)
    requires UniqueWheelIds(st.wheels) && DeleteWheel(st, id).Ok?
    ensures UniqueWheelIds(DeleteWheel(st, id).value.wheels)
  {
  }

  /** Deleting a wheel listed before the selected one moves the selection to a different wheel:
      with wheels A, B, C and B selected, deleting A leaves C selected. */
  lemma DeleteBeforeSelectedMovesSelection()
    ensures var st := State([Wheel("A", "a", [], false), Wheel("B", "b", [], false), Wheel("C", "c", [], false)], 1, None, false);
      var r := DeleteWheel(st, "A");
      r.Ok? && r.value.wheels[r.value.selectedWheelIndex].id == "C"
  {
    var st := State([Wheel("A", "a", [], false), Wheel("B", "b", [], false), Wheel("C", "c", [], false)], 1, None, false);
    assert st.wheels[0].id == "A";
    var r := DeleteWheel(st, "A");
    assert r.value.wheels == [st.wheels[1], st.wheels[2]];
  }

  /** `deleteWheel` as evidently intended: the selected wheel stays selected when another wheel is
      deleted (its position shifts down when the deleted wheel came before it), and only when the
      selected wheel itself goes does the selection fall to the wheel now at its position, or the
      last one. */
  function DeleteWheelKeepingSelection(st: State, id: Id): (r: Result<State>)
    ensures |st.wheels| <= 1 ==> r == Err(LastWheelCannotBeDeleted)
    ensures |st.wheels| > 1 && !HasWheel(st.wheels, id) ==> r == Err(ItemNotFound)
    ensures |st.wheels| > 1 && HasWheel(st.wheels, id) ==> r.Ok?
    ensures r.Ok? ==> (r.value.wheels == RemoveAt(st.wheels, WheelIndex(st.wheels, id)) &&
      r.value.prevSelectedWheelIndex == Some(st.selectedWheelIndex) && r.value.showDataUrl == st.showDataUrl)
  {
    if |st.wheels| <= 1 then Err(LastWheelCannotBeDeleted)
    else
      var k := WheelIndex(st.wheels, id);
      if k == -1 then Err(ItemNotFound)
      else
        var next := RemoveAt(st.wheels, k);
        var index := if k < st.selectedWheelIndex then st.selectedWheelIndex - 1 else Min(st.selectedWheelIndex, |next| - 1);
        Ok(st.(wheels := next, prevSelectedWheelIndex := Some(st.selectedWheelIndex), selectedWheelIndex := index))
  }

  /** The corrected deletion keeps a valid selection valid, and keeps the selected wheel whenever
      another one is deleted. */
  lemma DeleteWheelKeepingSelectionSelects(st: State, id: Id)
    requires ValidSelection(st) && DeleteWheelKeepingSelection(st, id).Ok?
    ensures var r := DeleteWheelKeepingSelection(st, id).value;
      ValidSelection(r) &&
      (st.wheels[st.selectedWheelIndex].id != id ==> r.wheels[r.selectedWheelIndex] == st.wheels[st.selectedWheelIndex])
  {
  }
}
