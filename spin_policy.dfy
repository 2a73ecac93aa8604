/** The spin handlers and button rules the two wheel pages share: picking the winner among the
    segments that are neither removed nor already selected, avoiding the names the deployment asks
    to skip, and the reset and next-wheel buttons. */
module SpinPolicy {
  import opened Wrappers
  import opened Collections
  import opened Wheels

  /** The skip rule: the configured pattern (`""` when unset, both being falsy) and the test
      `new RegExp(pattern).test(name)`, which the model does not interpret. */
  datatype SkipRule = SkipRule(pattern: string, test: string -> bool)

  /** `shouldSkipName`: an empty name or an unset pattern is never skipped. */
  predicate ShouldSkipName(rule: SkipRule, name: string) {
    name != "" && rule.pattern != "" && rule.test(name)
  }

  predicate Skipped(rule: SkipRule, s: Segment) {
    ShouldSkipName(rule, s.name)
  }

  /** The candidates of a spin: the eligible segments, without the skipped ones unless every
      eligible segment is skipped. */
  function SpinPool(segments: seq<Segment>, rule: SkipRule): seq<Segment> {
    var pool := EligibleSegments(segments);
    if !(forall k :: 0 <= k < |pool| ==> Skipped(rule, pool[k])) then Filter(pool, s => !Skipped(rule, s))
    else pool
  }

  /** `handleSpinStart` given the random index `r` from `getRandomInteger(0, n - 1)`: no dispatch
      (`None`) while spinning or when nothing is eligible, otherwise the id of candidate `r` for the
      `startSpin` dispatch. An index outside the pool reads a property of `undefined`. */
  function SpinStart(segments: seq<Segment>, isSpinning: bool, rule: SkipRule, r: int): Result<Option<Id>> {
    if isSpinning then Ok(None)
    else
      var pool := SpinPool(segments, rule);
      if |pool| == 0 then Ok(None)
      else if 0 <= r < |pool| then Ok(Some(pool[r].id))
      else Err(UndefinedAccess)
  }

  /** Every candidate is eligible; the skip filter never empties a non-empty pool; and when some
      eligible segment is not skipped, the candidates are exactly the eligible segments not skipped. */
  lemma SpinPoolShape(segments: seq<Segment>, rule: SkipRule)
    ensures var pool := SpinPool(segments, rule);
      (forall j :: 0 <= j < |pool| ==> Eligible(pool[j]) && pool[j] in segments) &&
      (|pool| == 0 <==> !HasEligible(segments)) &&
      ((exists k :: 0 <= k < |segments| && Eligible(segments[k]) && !Skipped(rule, segments[k])) ==>
        forall s :: s in segments ==> (s in pool <==> Eligible(s) && !Skipped(rule, s)))
  {
    var eligible := EligibleSegments(segments);
    EligibleSegmentsEmptyIff(segments);
    if exists k :: 0 <= k < |segments| && Eligible(segments[k]) && !Skipped(rule, segments[k]) {
      var k :| 0 <= k < |segments| && Eligible(segments[k]) && !Skipped(rule, segments[k]);
      assert segments[k] in eligible;
      var p :| 0 <= p < |eligible| && eligible[p] == segments[k];
      assert !Skipped(rule, eligible[p]);
    } else if |eligible| > 0 {
      assert SpinPool(segments, rule) == eligible;
    }
  }

  /** A spin starts exactly when the wheel is still and some segment is eligible (given an index
      inside the pool), and the winner is an eligible segment that is not skipped unless every
      eligible segment is. */
  lemma SpinStartWinner(segments: seq<Segment>, isSpinning: bool, rule: SkipRule, r: int)
    requires 0 <= r < |SpinPool(segments, rule)| || |SpinPool(segments, rule)| == 0
    ensures var result := SpinStart(segments, isSpinning, rule, r);
      result.Ok? && (result.value.Some? <==> !isSpinning && HasEligible(segments)) &&
      (result.value.Some? ==> exists k :: (0 <= k < |segments| && segments[k].id == result.value.value &&
        Eligible(segments[k]) &&
        ((exists m :: 0 <= m < |segments| && Eligible(segments[m]) && !Skipped(rule, segments[m])) ==> !Skipped(rule, segments[k]))))
  {
    SpinPoolShape(segments, rule);
    var pool := SpinPool(segments, rule);
    if !isSpinning && |pool| > 0 {
      assert pool[r] in segments;
    }
  }

  /** Every eligible segment that is not skipped can win: some random index picks it. */
  lemma SpinStartCanPickAny(segments: seq<Segment>, rule: SkipRule, k: int)
    requires 0 <= k < |segments| && Eligible(segments[k]) && !Skipped(rule, segments[k])
    ensures exists r :: SpinStart(segments, false, rule, r) == Ok(Some(segments[k].id))
  {
    SpinPoolShape(segments, rule);
    var pool := SpinPool(segments, rule);
    assert segments[k] in pool;
    var r :| 0 <= r < |pool| && pool[r] == segments[k];
    assert SpinStart(segments, false, rule, r) == Ok(Some(segments[k].id));
  }

  /** The dispatched winner wins: applying the spin to the wheel selects it and starts the wheel. */
  lemma SpinStartThenSpin(w: Wheel, rule: SkipRule, r: int)
    requires UniqueIds(w.segments) && AtMostOneSelected(w.segments)
    requires SpinStart(w.segments, false, rule, r).Ok? && SpinStart(w.segments, false, rule, r).value.Some?
    ensures var winner := SpinStart(w.segments, false, rule, r).value.value;
      var next := StartSpinWheel(w, winner);
      next.isSpinning && AtMostOneSelected(next.segments) &&
      exists k :: 0 <= k < |w.segments| && w.segments[k].id == winner && Eligible(w.segments[k]) &&
        next.segments[k].selected && !next.segments[k].removed
  {
    var winner := SpinStart(w.segments, false, rule, r).value.value;
    SpinPoolShape(w.segments, rule);
    var pool := SpinPool(w.segments, rule);
    assert pool[r] in w.segments;
    SpinSelectsOne(w, winner);
  }

  /** `segments.filter(({ removed }) => !removed)`: the segments drawn on the wheel. */
  function VisibleSegments(segments: seq<Segment>): seq<Segment> {
    Filter(segments, (s: Segment) => !s.removed)
  }

  /** The wheel draws exactly the segments that are not removed, in their order. */
  lemma VisibleSegmentsExact(segments: seq<Segment>, more: seq<Segment>)
    ensures forall s :: s in segments ==> (s in VisibleSegments(segments) <==> !s.removed)
    ensures forall j :: 0 <= j < |VisibleSegments(segments)| ==> !VisibleSegments(segments)[j].removed
    ensures VisibleSegments(segments + more) == VisibleSegments(segments) + VisibleSegments(more)
  {
    FilterAppend(segments, more, (s: Segment) => !s.removed);
  }

  /** `segments.some(({ removed, selected }) => removed || selected)`. */
  predicate CanReset(segments: seq<Segment>) {
    exists k :: 0 <= k < |segments| && (segments[k].removed || segments[k].selected)
  }

  /** The reset button is offered exactly when resetting would change the segments. */
  lemma CanResetIff(segments: seq<Segment>)
    ensures CanReset(segments) <==> ResetSegments(segments) != segments
  {
    if CanReset(segments) {
      var k :| 0 <= k < |segments| && (segments[k].removed || segments[k].selected);
      assert ResetSegments(segments)[k] != segments[k];
    } else {
      assert forall k :: 0 <= k < |segments| ==> ResetSegments(segments)[k] == segments[k];
    }
  }

  /** `handleNextWheel`: the id of the wheel after the selected one, when there is one. */
  function NextWheel(wheels: seq<Wheel>, selectedId: Id): Option<Id> {
    var index := WheelIndex(wheels, selectedId);
    if index > -1 && index < |wheels| - 1 then Some(wheels[index + 1].id) else None
  }

  /** `hasNextWheel`. */
  predicate HasNextWheel(wheels: seq<Wheel>, selectedId: Id) {
    WheelIndex(wheels, selectedId) < |wheels| - 1
  }

  /** The next-wheel button moves exactly when the selected wheel exists and is not the last, and
      then to the wheel right after it; when the selected id names no wheel, the button is offered
      on any non-empty list but does nothing. */
  lemma NextWheelIff(wheels: seq<Wheel>, selectedId: Id)
    ensures NextWheel(wheels, selectedId).Some? <==> HasWheel(wheels, selectedId) && HasNextWheel(wheels, selectedId)
    ensures NextWheel(wheels, selectedId).Some? ==> exists k :: (0 <= k < |wheels| - 1 &&
      wheels[k].id == selectedId && NextWheel(wheels, selectedId).value == wheels[k + 1].id)
    ensures !HasWheel(wheels, selectedId) ==> (HasNextWheel(wheels, selectedId) <==> |wheels| > 0)
  {
    var index := WheelIndex(wheels, selectedId);
    if HasWheel(wheels, selectedId) {
      var k :| 0 <= k < |wheels| && wheels[k].id == selectedId;
      assert index != -1;
    }
  }
}
