/** The scroll direction the main page of the id-based app animates with: "down" when the newly
    selected wheel lies after the old one in the list, "up" when it lies before. */
module MainPage {
  import opened Wrappers
  import opened Collections
  import opened Wheels
  import opened IdReducer
  import opened SpinPolicy

  datatype Direction = Down | Up

  /** `handleSelect`: down exactly when the target is found after the current wheel. */
  function SelectDirection(wheels: seq<Wheel>, selectedId: Id, nextId: Id): Direction {
    if WheelIndex(wheels, nextId) > WheelIndex(wheels, selectedId) then Down else Up
  }

  /** `handleDeleteWheel`: deleting the selected wheel scrolls down unless it is the last one;
      deleting another wheel keeps the direction. */
  function DeleteDirection(wheels: seq<Wheel>, selectedId: Id, id: Id, current: Direction): Direction {
    if id == selectedId then (if WheelIndex(wheels, id) < |wheels| - 1 then Down else Up)
    else current
  }

  /** `handleNextWheel`: down when it moves, otherwise the direction is kept. */
  function NextWheelDirection(wheels: seq<Wheel>, selectedId: Id, current: Direction): Direction {
    if NextWheel(wheels, selectedId).Some? then Down else current
  }

  /** `handleCreateWheel` always scrolls down. */
  const CreateDirection: Direction := Down

  /** Among distinct wheel ids, selecting scrolls down exactly when the target wheel lies after the
      selected one, and selecting then names the target. */
  lemma SelectDirectionFollowsPosition(st: IdState, k: int, m: int)
    requires UniqueWheelIds(st.wheels) && 0 <= k < |st.wheels| && 0 <= m < |st.wheels|
    requires st.selectedWheelId == Some(st.wheels[k].id)
    ensures SelectDirection(st.wheels, st.wheels[k].id, st.wheels[m].id) == Down <==> m > k
    ensures SelectWheel(st, st.wheels[m].id).selectedWheelId == Some(st.wheels[m].id)
  {
  }

  /** Deleting the selected wheel scrolls the way the selection moves: down when the wheel after it
      becomes selected, up when the wheel before it does. Deleting another wheel keeps the
      direction and the selection. */
  lemma DeleteDirectionFollowsSelection(st: IdState, id: Id, current: Direction)
    requires |st.wheels| > 1 && HasWheel(st.wheels, id) && st.selectedWheelId.Some?
    ensures var r := IdReducer.DeleteWheel(st, id);
      var k := WheelIndex(st.wheels, id);
      r.Ok? &&
      (st.selectedWheelId == Some(id) && DeleteDirection(st.wheels, id, id, current) == Down ==>
        k + 1 < |st.wheels| && r.value.selectedWheelId == Some(st.wheels[k + 1].id)) &&
      (st.selectedWheelId == Some(id) && DeleteDirection(st.wheels, id, id, current) == Up ==>
        k > 0 && r.value.selectedWheelId == Some(st.wheels[k - 1].id)) &&
      (st.selectedWheelId != Some(id) ==>
        DeleteDirection(st.wheels, st.selectedWheelId.value, id, current) == current &&
        r.value.selectedWheelId == st.selectedWheelId)
  {
  }

  /** Moving to the next wheel scrolls down, as selecting the wheel after the current one does. */
  lemma NextWheelDirectionAgrees(wheels: seq<Wheel>, selectedId: Id, current: Direction)
    requires UniqueWheelIds(wheels) && NextWheel(wheels, selectedId).Some?
    ensures NextWheelDirection(wheels, selectedId, current) == Down ==
      SelectDirection(wheels, selectedId, NextWheel(wheels, selectedId).value)
  {
    var k := WheelIndex(wheels, selectedId);
    WheelIndexOfUnique(wheels, k + 1);
  }

  /** Creating a wheel scrolls down, and the created wheel is appended after every other. */
  lemma CreateDirectionAgrees(st: IdState, id: Id)
    requires !HasWheel(st.wheels, id) && ValidSelection(st)
    ensures var r := IdReducer.CreateWheel(st, id);
      CreateDirection == Down && WheelIndex(r.wheels, id) == |st.wheels| &&
      0 <= WheelIndex(r.wheels, st.selectedWheelId.value) < |st.wheels|
  {
    var r := IdReducer.CreateWheel(st, id);
    assert r.wheels[|st.wheels|].id == id;
    var k :| 0 <= k < |st.wheels| && st.wheels[k].id == st.selectedWheelId.value;
    assert r.wheels[k].id == st.selectedWheelId.value;
  }
}
