/** The earliest `reducer` switch, src/components/use-wheels.ts. It differs from the later
    revisions in that START_SPIN draws the winner itself, UPDATE_SEGMENT only relabels, RESET_WHEEL
    leaves the spinning flag alone and SELECT_WHEEL only moves the selection. The random index
    `getRandomInteger(0, n - 1)` is a parameter `r`. */
module OldestReducer {
  import opened Wrappers
  import opened Collections
  import opened Wheels
  import IdReducer
  import ClientReducer

  type IdState = IdReducer.IdState

  datatype Action =
    | CreateSegmentAction(wheelId: Id, name: string)
    | UpdateSegmentAction(wheelId: Id, id: Id, name: string)
    | DeleteSegmentAction(wheelId: Id, id: Id)
    | StartSpinAction
    | EndSpinAction
    | ResetWheelAction(id: Id)
    | CreateWheelAction(name: string)
    | UpdateWheelAction(id: Id, name: string)
    | DeleteWheelAction(id: Id)
    | SelectWheelAction(id: Id)
    | Unknown(actionType: string)

  /** The spin of one wheel with random index `r`: nothing happens without an eligible segment;
      otherwise the segment at `r` among the eligible ones wins, and an index outside them makes
      the destructuring of `undefined` throw. */
  function SpinWithIndex(w: Wheel, r: int): (res: Result<Wheel>)
    ensures !HasEligible(w.segments) ==> res == Ok(w)
    ensures HasEligible(w.segments) && !(0 <= r < |EligibleSegments(w.segments)|) ==> res == Err(UndefinedAccess)
    ensures HasEligible(w.segments) && 0 <= r < |EligibleSegments(w.segments)| ==>
      res == Ok(StartSpinWheel(w, EligibleSegments(w.segments)[r].id))
  {
    var visible := EligibleSegments(w.segments);
    EligibleSegmentsEmptyIff(w.segments);
    if |visible| == 0 then Ok(w)
    else if !(0 <= r < |visible|) then Err(UndefinedAccess)
    else Ok(StartSpinWheel(w, visible[r].id))
  }

  /** With an index in range, the winner was eligible and ends selected and not removed, the
      previous winner ends removed, and the wheel spins. */
  lemma SpinWithIndexPicksEligible(w: Wheel, r: int)
    requires UniqueIds(w.segments) && AtMostOneSelected(w.segments)
    requires HasEligible(w.segments) && 0 <= r < |EligibleSegments(w.segments)|
    ensures var after := SpinWithIndex(w, r).value;
      var winner := EligibleSegments(w.segments)[r];
      after.isSpinning && |after.segments| == |w.segments| &&
      exists k :: 0 <= k < |w.segments| && w.segments[k] == winner && Eligible(w.segments[k]) &&
        after.segments[k].selected && !after.segments[k].removed &&
        forall j :: 0 <= j < |w.segments| && j != k ==> (!after.segments[j].selected &&
          (w.segments[j].selected ==> after.segments[j].removed))
  {
    var winner := EligibleSegments(w.segments)[r];
    var k :| 0 <= k < |w.segments| && w.segments[k] == winner;
    SpinSelectsOne(w, winner.id);
  }

  /** START_SPIN: every wheel with the selected id spins with the same random index. */
  function SpinSelected(wheels: seq<Wheel>, selected: Option<Id>, r: int): (res: Result<seq<Wheel>>)
    ensures res.Err? <==> exists k :: 0 <= k < |wheels| && IdReducer.IsSelected(wheels[k], selected) && SpinWithIndex(wheels[k], r).Err?
    ensures res.Err? ==> res.fault == UndefinedAccess
    ensures res.Ok? ==> |res.value| == |wheels| && forall k :: 0 <= k < |wheels| ==>
      res.value[k] == if IdReducer.IsSelected(wheels[k], selected) then SpinWithIndex(wheels[k], r).value else wheels[k]
  {
    if |wheels| == 0 then Ok([])
    else
      var first := if IdReducer.IsSelected(wheels[0], selected) then SpinWithIndex(wheels[0], r) else Ok(wheels[0]);
      if first.Err? then Err(first.fault)
      else
        var rest := SpinSelected(wheels[1..], selected, r);
        if rest.Err? then rest
        else
          assert forall k :: 1 <= k < |wheels| ==> wheels[1..][k - 1] == wheels[k];
          Ok([first.value] + rest.value)
  }

  /** UPDATE_SEGMENT: only the label of the matching segments changes. */
  function RelabelSegment(st: IdState, wheelId: Id, id: Id, name: string): (r: IdState)
    ensures r.selectedWheelId == st.selectedWheelId && r.isSpinning == st.isSpinning && |r.wheels| == |st.wheels|
    ensures forall k :: 0 <= k < |st.wheels| && st.wheels[k].id != wheelId ==> r.wheels[k] == st.wheels[k]
    ensures forall k :: 0 <= k < |st.wheels| && st.wheels[k].id == wheelId ==>
      var (was, now) := (st.wheels[k], r.wheels[k]);
      now == was.(segments := now.segments) && |now.segments| == |was.segments| &&
      forall i :: 0 <= i < |was.segments| ==>
        now.segments[i] == if was.segments[i].id == id then was.segments[i].(name := name) else was.segments[i]
  {
    st.(wheels := UpdateWheel(st.wheels, wheelId,
      (w: Wheel) => w.(segments := UpdateSegment(w.segments, id, (s: Segment) => s.(name := name)))))
  }

  /** RESET_WHEEL: the segments become eligible again; `isSpinning` is left as it was. */
  function ResetSegmentsOnly(st: IdState, id: Id): (r: IdState)
    ensures r.selectedWheelId == st.selectedWheelId && r.isSpinning == st.isSpinning && |r.wheels| == |st.wheels|
    ensures forall k :: 0 <= k < |st.wheels| && st.wheels[k].id != id ==> r.wheels[k] == st.wheels[k]
    ensures forall k :: 0 <= k < |st.wheels| && st.wheels[k].id == id ==>
      var (was, now) := (st.wheels[k], r.wheels[k]);
      now.id == was.id && now.name == was.name && now.isSpinning == was.isSpinning &&
      |now.segments| == |was.segments| &&
      forall i :: 0 <= i < |was.segments| ==>
        now.segments[i].id == was.segments[i].id && now.segments[i].name == was.segments[i].name &&
        Eligible(now.segments[i])
  {
    st.(wheels := UpdateWheel(st.wheels, id, (w: Wheel) => w.(segments := ResetSegments(w.segments))))
  }

  /** The reducer; `r` is the random index START_SPIN draws, `freshId` the `uuid()` of the
      creating actions. An unknown action type throws. */
  function Reduce(st: IdState, action: Action, r: int, freshId: Id): (res: Result<IdState>)
    ensures action.Unknown? ==> res == Err(UnknownAction)
    ensures action.SelectWheelAction? ==> res == Ok(st.(selectedWheelId := Some(action.id)))
    ensures res.Err? ==> action.DeleteSegmentAction? || action.DeleteWheelAction? || action.StartSpinAction? || action.Unknown?
  {
    match action
    case CreateSegmentAction(wheelId, name) => Ok(ClientReducer.CreateSegmentIn(st, wheelId, name, freshId))
    case UpdateSegmentAction(wheelId, id, name) => Ok(RelabelSegment(st, wheelId, id, name))
    case DeleteSegmentAction(wheelId, id) => ClientReducer.DeleteSegmentIn(st, wheelId, id)
    case StartSpinAction =>
      (match SpinSelected(st.wheels, st.selectedWheelId, r)
       case Err(f) => Err(f)
       case Ok(wheels) => Ok(st.(wheels := wheels)))
    case EndSpinAction => Ok(IdReducer.EndSpin(st))
    case ResetWheelAction(id) => Ok(ResetSegmentsOnly(st, id))
    case CreateWheelAction(name) => Ok(ClientReducer.CreateNamedWheel(st, name, freshId))
    case UpdateWheelAction(id, name) => Ok(IdReducer.UpdateWheelName(st, id, name))
    case DeleteWheelAction(id) => IdReducer.DeleteWheel(st, id)
    case SelectWheelAction(id) => Ok(st.(selectedWheelId := Some(id)))
    case Unknown(_) => Err(UnknownAction)
  }

  /** A START_SPIN with an index in range of the selected wheel's eligible segments succeeds, and
      its winner is one of them. */
  lemma StartSpinWinnerEligible(st: IdState, r: int, k: nat)
    requires UniqueWheelIds(st.wheels) && k < |st.wheels| && st.selectedWheelId == Some(st.wheels[k].id)
    requires 0 <= r < |EligibleSegments(st.wheels[k].segments)|
    ensures Reduce(st, StartSpinAction, r, "").Ok?
    ensures Reduce(st, StartSpinAction, r, "").value.wheels[k] ==
      StartSpinWheel(st.wheels[k], EligibleSegments(st.wheels[k].segments)[r].id)
    ensures EligibleSegments(st.wheels[k].segments)[r] in st.wheels[k].segments &&
      Eligible(EligibleSegments(st.wheels[k].segments)[r])
  {
    EligibleSegmentsEmptyIff(st.wheels[k].segments);
    forall j | 0 <= j < |st.wheels| && IdReducer.IsSelected(st.wheels[j], st.selectedWheelId)
      ensures SpinWithIndex(st.wheels[j], r).Ok?
    {
      assert j == k;
    }
  }
}
