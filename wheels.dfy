/** The entities every reducer revision shares: segments, wheels, and the segment maps that
    START_SPIN and RESET_WHEEL apply (identical text in every revision). */
module Wheels {
  import opened Collections
  import opened Text

  type Id = string

  /** One name on a wheel. `selected` marks the winner of the latest spin; `removed` marks an
      earlier winner that sits out until the wheel is reset. An absent flag reads as false. */
  datatype Segment = Segment(id: Id, name: string, selected: bool, removed: bool)

  datatype Wheel = Wheel(id: Id, name: string, segments: seq<Segment>, isSpinning: bool)

  /** A segment that can still win: neither removed nor the current winner. */
  predicate Eligible(s: Segment) {
    !s.removed && !s.selected
  }

  /** `segments.filter(({ removed, selected }) => !removed && !selected)`, called
      `visibleSegments` inside the reducers and `nextSegments` in the spin handlers. */
  function EligibleSegments(segments: seq<Segment>): seq<Segment> {
    Filter(segments, Eligible)
  }

  predicate HasEligible(segments: seq<Segment>) {
    exists k :: 0 <= k < |segments| && Eligible(segments[k])
  }

  lemma EligibleSegmentsEmptyIff(segments: seq<Segment>)
    ensures |EligibleSegments(segments)| == 0 <==> !HasEligible(segments)
  {
    if HasEligible(segments) {
      var k :| 0 <= k < |segments| && Eligible(segments[k]);
      assert segments[k] in EligibleSegments(segments);
    }
    if |EligibleSegments(segments)| > 0 {
      var e := EligibleSegments(segments)[0];
      var k :| 0 <= k < |segments| && segments[k] == e;
      assert Eligible(segments[k]);
    }
  }

  predicate UniqueIds(segments: seq<Segment>) {
    forall j, k :: 0 <= j < |segments| && 0 <= k < |segments| && segments[j].id == segments[k].id ==> j == k
  }

  predicate AtMostOneSelected(segments: seq<Segment>) {
    forall j, k :: 0 <= j < |segments| && 0 <= k < |segments| && segments[j].selected && segments[k].selected ==> j == k
  }

  /** The per-segment update of a spin: the previous winner joins the removed ones and only the
      segment with the winning id is selected. */
  function SpinSegment(s: Segment, winner: Id): Segment {
    s.(removed := s.removed || s.selected, selected := s.id == winner)
  }

  /** The wheel update of START_SPIN / `startSpin`: no change when nothing is eligible, otherwise
      every segment is updated and the wheel starts spinning. */
  function StartSpinWheel(w: Wheel, winner: Id): (r: Wheel)
    ensures r.id == w.id && r.name == w.name && |r.segments| == |w.segments|
    ensures !HasEligible(w.segments) ==> r == w
    ensures HasEligible(w.segments) ==> r.isSpinning
    ensures HasEligible(w.segments) ==> forall k :: 0 <= k < |w.segments| ==>
      var (was, now) := (w.segments[k], r.segments[k]);
      now.id == was.id && now.name == was.name &&
      now.removed == (was.removed || was.selected) && (now.selected <==> was.id == winner)
  {
    EligibleSegmentsEmptyIff(w.segments);
    if |EligibleSegments(w.segments)| == 0 then w
    else w.(segments := seq(|w.segments|, k requires 0 <= k < |w.segments| => SpinSegment(w.segments[k], winner)),
            isSpinning := true)
  }

  /** A spin never brings a removed segment back, and the previous winner is removed after it. */
  lemma SpinKeepsRemoved(w: Wheel, winner: Id, k: nat)
    requires k < |w.segments|
    ensures w.segments[k].removed || w.segments[k].selected ==>
      StartSpinWheel(w, winner).segments[k].removed || !HasEligible(w.segments)
    ensures w.segments[k].removed ==> StartSpinWheel(w, winner).segments[k].removed
  {
  }

  /** With unique ids, a spin leaves at most one segment selected, and a winner drawn from the
      eligible segments is selected and not removed. */
  lemma SpinSelectsOne(w: Wheel, winner: Id)
    requires UniqueIds(w.segments)
    requires AtMostOneSelected(w.segments)
    ensures AtMostOneSelected(StartSpinWheel(w, winner).segments)
    ensures UniqueIds(StartSpinWheel(w, winner).segments)
    ensures forall k :: 0 <= k < |w.segments| && w.segments[k].id == winner && Eligible(w.segments[k]) ==>
      StartSpinWheel(w, winner).segments[k].selected && !StartSpinWheel(w, winner).segments[k].removed
  {
  }

  /** Once a segment has won, no later spin (whatever its winner) makes it eligible again: the
      elimination round only ends with a reset. */
  function Spins(w: Wheel, winners: seq<Id>): Wheel
    decreases |winners|
  {
    if |winners| == 0 then w else Spins(StartSpinWheel(w, winners[0]), winners[1..])
  }

  lemma {:induction false} WinnersStayIneligible(w: Wheel, winners: seq<Id>, k: nat)
    requires k < |w.segments|
    requires !Eligible(w.segments[k])
    ensures |Spins(w, winners).segments| == |w.segments|
    ensures !Eligible(Spins(w, winners).segments[k])
    ensures Spins(w, winners).segments[k].id == w.segments[k].id
    decreases |winners|
  {
    if |winners| > 0 {
      var w1 := StartSpinWheel(w, winners[0]);
      assert !Eligible(w1.segments[k]);
      WinnersStayIneligible(w1, winners[1..], k);
    }
  }

  /** The segment map of a reset: both flags cleared, id and label kept. */
  function ResetSegments(segments: seq<Segment>): (r: seq<Segment>)
    ensures |r| == |segments|
    ensures forall k :: 0 <= k < |r| ==>
      r[k].id == segments[k].id && r[k].name == segments[k].name && Eligible(r[k])
  {
    seq(|segments|, k requires 0 <= k < |segments| => segments[k].(removed := false, selected := false))
  }

  /** The label `Wheel ${n}` given to the n-th wheel when it is created without one. */
  function DefaultWheelName(n: nat): (r: string)
    ensures |r| > 6 && r[..6] == "Wheel "
    ensures forall k :: 6 <= k < |r| ==> '0' <= r[k] <= '9'
    ensures ParseDigits(r[6..]) == n
  {
    var digits := NatToString(n);
    assert ("Wheel " + digits)[6..] == digits;
    "Wheel " + digits
  }

  /** Wheels are matched by id as `updateItemInArray` does. */
  function UpdateWheel(wheels: seq<Wheel>, id: Id, update: Wheel -> Wheel): (r: seq<Wheel>)
    ensures |r| == |wheels|
    ensures forall k :: 0 <= k < |wheels| ==> r[k] == if wheels[k].id == id then update(wheels[k]) else wheels[k]
  {
    UpdateWhere(wheels, (w: Wheel) => w.id == id, update)
  }

  function UpdateSegment(segments: seq<Segment>, id: Id, update: Segment -> Segment): (r: seq<Segment>)
    ensures |r| == |segments|
    ensures forall k :: 0 <= k < |segments| ==> r[k] == if segments[k].id == id then update(segments[k]) else segments[k]
  {
    UpdateWhere(segments, (s: Segment) => s.id == id, update)
  }

  function WheelIndex(wheels: seq<Wheel>, id: Id): (k: int)
    ensures -1 <= k < |wheels|
    ensures k == -1 <==> forall j :: 0 <= j < |wheels| ==> wheels[j].id != id
    ensures 0 <= k ==> wheels[k].id == id && forall j :: 0 <= j < k ==> wheels[j].id != id
  {
    FindIndex(wheels, (w: Wheel) => w.id == id)
  }

  predicate HasWheel(wheels: seq<Wheel>, id: Id) {
    exists k :: 0 <= k < |wheels| && wheels[k].id == id
  }

  predicate UniqueWheelIds(wheels: seq<Wheel>) {
    forall j, k :: 0 <= j < |wheels| && 0 <= k < |wheels| && wheels[j].id == wheels[k].id ==> j == k
  }

  /** Among distinct ids, the wheel found for an id is the one that carries it. */
  lemma WheelIndexOfUnique(wheels: seq<Wheel>, k: int)
    requires UniqueWheelIds(wheels) && 0 <= k < |wheels|
    ensures WheelIndex(wheels, wheels[k].id) == k
  {
  }
}
