/** The `reducer` switch of client/src/components/use-wheels.ts: segment-level actions, spins on
    the selected wheel, and the wheel-level actions of the id-based slice. Each action that needs
    a `uuid()` receives it as `freshId`. */
module ClientReducer {
  import opened Wrappers
  import opened Collections
  import opened Wheels
  import IdReducer

  type IdState = IdReducer.IdState

  /** The actions of the switch; `Unknown` stands for any other `type`. */
  datatype Action =
    | CreateSegmentAction(wheelId: Id, name: string)
    | UpdateSegmentAction(wheelId: Id, id: Id, name: string)
    | DeleteSegmentAction(wheelId: Id, id: Id)
    | StartSpinAction(nextSelectedSegmentId: Id)
    | EndSpinAction
    | ResetWheelAction(id: Id)
    | CreateWheelAction(name: string)
    | UpdateWheelAction(id: Id, name: string)
    | DeleteWheelAction(id: Id)
    | SelectWheelAction(id: Id)
    | Unknown(actionType: string)

  /** CREATE_SEGMENT: each wheel with the given id gains one fresh, eligible segment at its end. */
  function CreateSegmentIn(st: IdState, wheelId: Id, name: string, freshId: Id): (r: IdState)
    ensures r.selectedWheelId == st.selectedWheelId && r.isSpinning == st.isSpinning && |r.wheels| == |st.wheels|
    ensures forall k :: 0 <= k < |st.wheels| && st.wheels[k].id != wheelId ==> r.wheels[k] == st.wheels[k]
    ensures forall k :: 0 <= k < |st.wheels| && st.wheels[k].id == wheelId ==>
      r.wheels[k].segments == st.wheels[k].segments + [Segment(freshId, name, false, false)] &&
      r.wheels[k] == st.wheels[k].(segments := r.wheels[k].segments)
  {
    st.(wheels := UpdateWheel(st.wheels, wheelId,
      (w: Wheel) => w.(segments := w.segments + [Segment(freshId, name, false, false)])))
  }

  /** UPDATE_SEGMENT: in the wheels with `wheelId`, the segments with `id` take the new label and
      are no longer removed; `selected` and every other segment are kept. */
  function UpdateSegmentIn(st: IdState, wheelId: Id, id: Id, name: string): (r: IdState)
    ensures r.selectedWheelId == st.selectedWheelId && r.isSpinning == st.isSpinning && |r.wheels| == |st.wheels|
    ensures forall k :: 0 <= k < |st.wheels| && st.wheels[k].id != wheelId ==> r.wheels[k] == st.wheels[k]
    ensures forall k :: 0 <= k < |st.wheels| && st.wheels[k].id == wheelId ==>
      var (was, now) := (st.wheels[k], r.wheels[k]);
      now == was.(segments := now.segments) && |now.segments| == |was.segments| &&
      forall i :: 0 <= i < |was.segments| ==>
        now.segments[i] == if was.segments[i].id == id then was.segments[i].(name := name, removed := false) else was.segments[i]
  {
    st.(wheels := UpdateWheel(st.wheels, wheelId,
      (w: Wheel) => w.(segments := UpdateSegment(w.segments, id, (s: Segment) => s.(name := name, removed := false)))))
  }

  predicate HasSegment(segments: seq<Segment>, id: Id) {
    exists i :: 0 <= i < |segments| && segments[i].id == id
  }

  /** `i` is the first position holding a segment with `id`. */
  predicate FirstWithId(segments: seq<Segment>, id: Id, i: int) {
    0 <= i < |segments| && segments[i].id == id && forall j :: 0 <= j < i ==> segments[j].id != id
  }

  /** `deleteItemFromArray(wheel.segments, id)`: the first segment with `id` leaves the wheel;
      "Item not found" when the wheel has no such segment. */
  function DeleteSegmentFrom(w: Wheel, id: Id): (r: Result<Wheel>)
    ensures r.Err? <==> !HasSegment(w.segments, id)
    ensures r.Err? ==> r.fault == ItemNotFound
    ensures r.Ok? ==> exists i :: FirstWithId(w.segments, id, i) && r.value == w.(segments := RemoveAt(w.segments, i))
  {
    var matches := (s: Segment) => s.id == id;
    var i := FindIndex(w.segments, matches);
    if i == -1 then
      assert forall j :: 0 <= j < |w.segments| ==> !matches(w.segments[j]);
      Err(ItemNotFound)
    else
      assert matches(w.segments[i]) && forall j :: 0 <= j < i ==> !matches(w.segments[j]);
      assert FirstWithId(w.segments, id, i);
      Ok(w.(segments := RemoveAt(w.segments, i)))
  }

  /** `w` is a wheel the delete targets that has no segment with `id`. */
  predicate LacksSegment(w: Wheel, wheelId: Id, id: Id) {
    w.id == wheelId && !HasSegment(w.segments, id)
  }

  /** `now` is `was` after the delete: untouched unless targeted, else without its first segment with `id`. */
  predicate DeletedIn(was: Wheel, now: Wheel, wheelId: Id, id: Id) {
    (was.id != wheelId ==> now == was) && (was.id == wheelId ==> DeleteSegmentFrom(was, id) == Ok(now))
  }

  /** The same delete inside `updateItemInArray`: applied to every wheel with `wheelId`, the map
      throws at the first such wheel that lacks the segment. */
  function DeleteSegmentInWheels(wheels: seq<Wheel>, wheelId: Id, id: Id): (r: Result<seq<Wheel>>)
    ensures r.Err? <==> exists k :: 0 <= k < |wheels| && LacksSegment(wheels[k], wheelId, id)
    ensures r.Err? ==> r.fault == ItemNotFound
    ensures r.Ok? ==> |r.value| == |wheels| && forall k :: 0 <= k < |wheels| ==> DeletedIn(wheels[k], r.value[k], wheelId, id)
  {
    if |wheels| == 0 then Ok([])
    else
      var first := if wheels[0].id != wheelId then Ok(wheels[0]) else DeleteSegmentFrom(wheels[0], id);
      if first.Err? then Err(first.fault)
      else
        var rest := DeleteSegmentInWheels(wheels[1..], wheelId, id);
        if rest.Err? then rest
        else
          assert forall k :: 1 <= k < |wheels| ==> wheels[1..][k - 1] == wheels[k];
          Ok([first.value] + rest.value)
  }

  /** DELETE_SEGMENT. */
  function DeleteSegmentIn(st: IdState, wheelId: Id, id: Id): (r: Result<IdState>)
    ensures r.Err? <==> exists k :: 0 <= k < |st.wheels| && LacksSegment(st.wheels[k], wheelId, id)
    ensures r.Ok? ==> (r.value.selectedWheelId == st.selectedWheelId && r.value.isSpinning == st.isSpinning &&
      |r.value.wheels| == |st.wheels| &&
      forall k :: 0 <= k < |st.wheels| ==> DeletedIn(st.wheels[k], r.value.wheels[k], wheelId, id))
  {
    match DeleteSegmentInWheels(st.wheels, wheelId, id)
    case Err(f) => Err(f)
    case Ok(wheels) => Ok(st.(wheels := wheels))
  }

  /** Deleting a segment removes exactly one segment from each targeted wheel and keeps the order
      of the others. */
  lemma DeleteSegmentRemovesOne(st: IdState, wheelId: Id, id: Id, k: nat)
    requires DeleteSegmentIn(st, wheelId, id).Ok? && k < |st.wheels| && st.wheels[k].id == wheelId
    ensures var was := st.wheels[k].segments;
      var now := DeleteSegmentIn(st, wheelId, id).value.wheels[k].segments;
      |now| == |was| - 1 &&
      exists i :: 0 <= i < |was| && was[i].id == id && now == was[..i] + was[i + 1..]
  {
  }

  /** START_SPIN: the selected wheel (by id) spins towards the given segment. */
  function StartSpinSelected(st: IdState, winner: Id): (r: IdState)
    ensures r.selectedWheelId == st.selectedWheelId && r.isSpinning == st.isSpinning && |r.wheels| == |st.wheels|
    ensures forall k :: 0 <= k < |st.wheels| ==>
      r.wheels[k] == if IdReducer.IsSelected(st.wheels[k], st.selectedWheelId) then StartSpinWheel(st.wheels[k], winner) else st.wheels[k]
  {
    st.(wheels := IdReducer.UpdateSelected(st.wheels, st.selectedWheelId, (w: Wheel) => StartSpinWheel(w, winner)))
  }

  /** CREATE_WHEEL: append an empty wheel with the given label, or `Wheel n+1` when the label is
      empty, and select it. */
  function CreateNamedWheel(st: IdState, name: string, freshId: Id): (r: IdState)
    ensures |r.wheels| == |st.wheels| + 1 && r.wheels[..|st.wheels|] == st.wheels
    ensures var w := r.wheels[|st.wheels|];
      w.id == freshId && w.segments == [] && !w.isSpinning &&
      w.name == (if name == "" then DefaultWheelName(|st.wheels| + 1) else name)
    ensures r.selectedWheelId == Some(freshId) && IdReducer.ValidSelection(r) && r.isSpinning == st.isSpinning
  {
    var wheelName := if name == "" then DefaultWheelName(|st.wheels| + 1) else name;
    var r := st.(wheels := st.wheels + [Wheel(freshId, wheelName, [], false)], selectedWheelId := Some(freshId));
    assert r.wheels[|st.wheels|].id == freshId;
    r
  }

  /** The reducer. An unknown action type throws. */
  function Reduce(st: IdState, action: Action, freshId: Id): (r: Result<IdState>)
    ensures action.Unknown? ==> r == Err(UnknownAction)
    ensures r.Err? ==> action.DeleteSegmentAction? || action.DeleteWheelAction? || action.Unknown?
  {
    match action
    case CreateSegmentAction(wheelId, name) => Ok(CreateSegmentIn(st, wheelId, name, freshId))
    case UpdateSegmentAction(wheelId, id, name) => Ok(UpdateSegmentIn(st, wheelId, id, name))
    case DeleteSegmentAction(wheelId, id) => DeleteSegmentIn(st, wheelId, id)
    case StartSpinAction(winner) => Ok(StartSpinSelected(st, winner))
    case EndSpinAction => Ok(IdReducer.EndSpin(st))
    case ResetWheelAction(id) => Ok(IdReducer.ResetWheel(st, id))
    case CreateWheelAction(name) => Ok(CreateNamedWheel(st, name, freshId))
    case UpdateWheelAction(id, name) => Ok(IdReducer.UpdateWheelName(st, id, name))
    case DeleteWheelAction(id) => IdReducer.DeleteWheel(st, id)
    case SelectWheelAction(id) => Ok(IdReducer.SelectWheel(st, id))
    case Unknown(_) => Err(UnknownAction)
  }

  /** Every action keeps a valid selection valid, except selecting an id no wheel carries; a fresh
      id keeps the wheel ids unique. */
  lemma {:induction false} ReduceKeepsInvariants(st: IdState, action: Action, freshId: Id)
    requires IdReducer.ValidSelection(st) && UniqueWheelIds(st.wheels)
    requires !HasWheel(st.wheels, freshId)
    requires action.SelectWheelAction? ==> HasWheel(st.wheels, action.id)
    requires Reduce(st, action, freshId).Ok?
    ensures IdReducer.ValidSelection(Reduce(st, action, freshId).value)
    ensures UniqueWheelIds(Reduce(st, action, freshId).value.wheels)
  {
    if action.DeleteWheelAction? || action.SelectWheelAction? || action.CreateWheelAction? {
      WheelActionKeepsInvariants(st, action, freshId);
    } else {
      SegmentActionKeepsInvariants(st, action, freshId);
    }
  }

  lemma {:induction false} WheelActionKeepsInvariants(st: IdState, action: Action, freshId: Id)
    requires IdReducer.ValidSelection(st) && UniqueWheelIds(st.wheels)
    requires !HasWheel(st.wheels, freshId)
    requires action.SelectWheelAction? ==> HasWheel(st.wheels, action.id)
    requires Reduce(st, action, freshId).Ok?
    requires action.DeleteWheelAction? || action.SelectWheelAction? || action.CreateWheelAction?
    ensures IdReducer.ValidSelection(Reduce(st, action, freshId).value)
    ensures UniqueWheelIds(Reduce(st, action, freshId).value.wheels)
  {
    match action
    case DeleteWheelAction(id) =>
      assert Reduce(st, action, freshId) == IdReducer.DeleteWheel(st, id);
      IdReducer.DeleteWheelKeepsSelectionValid(st, id);
      IdReducer.CreateAndDeleteKeepIdsUnique(st, id);
    case SelectWheelAction(id) =>
      SelectKeepsInvariants(st, id);
      assert Reduce(st, action, freshId) == Ok(IdReducer.SelectWheel(st, id));
    case CreateWheelAction(name) =>
      CreateWheelKeepsInvariants(st, name, freshId);
      assert Reduce(st, action, freshId) == Ok(CreateNamedWheel(st, name, freshId));
    case _ =>
  }

  lemma {:induction false} SegmentActionKeepsInvariants(st: IdState, action: Action, freshId: Id)
    requires IdReducer.ValidSelection(st) && UniqueWheelIds(st.wheels)
    requires Reduce(st, action, freshId).Ok?
    requires !(action.DeleteWheelAction? || action.SelectWheelAction? || action.CreateWheelAction?)
    ensures IdReducer.ValidSelection(Reduce(st, action, freshId).value)
    ensures UniqueWheelIds(Reduce(st, action, freshId).value.wheels)
  {
    match action
    case CreateSegmentAction(wheelId, name) =>
      KeepsInvariants(st, CreateSegmentIn(st, wheelId, name, freshId));
      assert Reduce(st, action, freshId) == Ok(CreateSegmentIn(st, wheelId, name, freshId));
    case UpdateSegmentAction(wheelId, id, name) =>
      KeepsInvariants(st, UpdateSegmentIn(st, wheelId, id, name));
      assert Reduce(st, action, freshId) == Ok(UpdateSegmentIn(st, wheelId, id, name));
    case DeleteSegmentAction(wheelId, id) =>
      DeleteSegmentKeepsInvariants(st, wheelId, id);
      assert Reduce(st, action, freshId) == DeleteSegmentIn(st, wheelId, id);
    case StartSpinAction(winner) =>
      KeepsInvariants(st, StartSpinSelected(st, winner));
      assert Reduce(st, action, freshId) == Ok(StartSpinSelected(st, winner));
    case EndSpinAction =>
      KeepsInvariants(st, IdReducer.EndSpin(st));
      assert Reduce(st, action, freshId) == Ok(IdReducer.EndSpin(st));
    case ResetWheelAction(id) =>
      KeepsInvariants(st, IdReducer.ResetWheel(st, id));
      assert Reduce(st, action, freshId) == Ok(IdReducer.ResetWheel(st, id));
    case UpdateWheelAction(id, name) =>
      KeepsInvariants(st, IdReducer.UpdateWheelName(st, id, name));
      assert Reduce(st, action, freshId) == Ok(IdReducer.UpdateWheelName(st, id, name));
    case _ =>
  }

  lemma SelectKeepsInvariants(st: IdState, id: Id)
    requires UniqueWheelIds(st.wheels) && HasWheel(st.wheels, id)
    ensures IdReducer.ValidSelection(IdReducer.SelectWheel(st, id))
    ensures UniqueWheelIds(IdReducer.SelectWheel(st, id).wheels)
  {
    IdReducer.SelectWheelValidIff(st, id);
    IdReducer.UpdatesKeepWheelIds(st, id, [], id, "", id);
    assert UniqueWheelIds(IdReducer.SelectWheel(st, id).wheels);
  }

  lemma CreateWheelKeepsInvariants(st: IdState, name: string, freshId: Id)
    requires UniqueWheelIds(st.wheels) && !HasWheel(st.wheels, freshId)
    ensures IdReducer.ValidSelection(CreateNamedWheel(st, name, freshId))
    ensures UniqueWheelIds(CreateNamedWheel(st, name, freshId).wheels)
  {
    var r := CreateNamedWheel(st, name, freshId);
    assert UniqueWheelIds(r.wheels) by {
      forall p, q | 0 <= p < q < |r.wheels| ensures r.wheels[p].id != r.wheels[q].id {
        if q == |st.wheels| {
          assert r.wheels[p] == st.wheels[p];
        } else {
          assert r.wheels[p] == st.wheels[p] && r.wheels[q] == st.wheels[q];
        }
      }
    }
  }

  lemma DeleteSegmentKeepsInvariants(st: IdState, wheelId: Id, id: Id)
    requires IdReducer.ValidSelection(st) && UniqueWheelIds(st.wheels)
    requires DeleteSegmentIn(st, wheelId, id).Ok?
    ensures IdReducer.ValidSelection(DeleteSegmentIn(st, wheelId, id).value)
    ensures UniqueWheelIds(DeleteSegmentIn(st, wheelId, id).value.wheels)
  {
    var r := DeleteSegmentIn(st, wheelId, id).value;
    assert forall k :: 0 <= k < |st.wheels| ==> r.wheels[k].id == st.wheels[k].id;
    KeepsInvariants(st, r);
  }

  lemma KeepsInvariants(st: IdState, r: IdState)
    requires IdReducer.ValidSelection(st) && UniqueWheelIds(st.wheels)
    requires |r.wheels| == |st.wheels| && r.selectedWheelId == st.selectedWheelId
    requires forall k :: 0 <= k < |st.wheels| ==> r.wheels[k].id == st.wheels[k].id
    ensures IdReducer.ValidSelection(r) && UniqueWheelIds(r.wheels)
  {
    IdReducer.SameWheelIdsKeepInvariants(st, r);
  }

  /** The state written to local storage: nothing spinning, no segment selected or removed. */
  function StripTransient(st: IdState): (r: IdState)
    ensures r.selectedWheelId == st.selectedWheelId && r.isSpinning == st.isSpinning && |r.wheels| == |st.wheels|
    ensures forall k :: 0 <= k < |st.wheels| ==>
      var (was, now) := (st.wheels[k], r.wheels[k]);
      now.id == was.id && now.name == was.name && !now.isSpinning && |now.segments| == |was.segments| &&
      forall i :: 0 <= i < |was.segments| ==>
        now.segments[i].id == was.segments[i].id && now.segments[i].name == was.segments[i].name &&
        !now.segments[i].selected && !now.segments[i].removed
  {
    st.(wheels := seq(|st.wheels|, k requires 0 <= k < |st.wheels| =>
      st.wheels[k].(isSpinning := false, segments := ResetSegments(st.wheels[k].segments))))
  }

  /** Stripping is idempotent: a saved state saves unchanged. */
  lemma StripTransientIdempotent(st: IdState)
    ensures StripTransient(StripTransient(st)) == StripTransient(st)
  {
    var once := StripTransient(st);
    var twice := StripTransient(once);
    forall k | 0 <= k < |st.wheels| ensures twice.wheels[k] == once.wheels[k] {
      assert twice.wheels[k].segments == once.wheels[k].segments;
    }
  }
}
