/** `mergeSegments`: maps the labels typed into a wheel's name list onto its existing segments so
    that ids and the `selected`/`removed` flags survive an edit. Both reducer revisions carry the
    same function (the index-based one also copies a float `shufflePosition`, not modelled).

    The two passes are specified as functions over growing prefixes of the input, which is the
    order in which the source's `forEach` loops visit it; `MergeSegmentsInPlace` is the source's
    imperative algorithm, proved to compute `MergeSegments`. */
module Merge {
  import opened Wrappers
  import opened Collections
  import opened Wheels

  /** An entry of `nextSegments`: a desired label with the id `prepare` drew for it. */
  datatype Draft = Draft(id: Id, name: string)

  /** The outcome of the first pass: the segment bound to each position (`results`), and the
      pool of segments no label matched (`remainingSegments`). */
  datatype MatchState = MatchState(slots: seq<Option<Segment>>, remaining: seq<Segment>)

  /** The outcome of the second pass: the merged segments, where each came from (`None` for a
      fresh one), and what is left of the pool. */
  datatype FillState = FillState(segments: seq<Segment>, origins: seq<Option<Segment>>, remaining: seq<Segment>)

  function Min(a: int, b: int): int { if a <= b then a else b }
  function Max(a: int, b: int): int { if a >= b then a else b }

  /** The values present in a sequence of optional segments, in order. */
  function Somes(xs: seq<Option<Segment>>): (r: seq<Segment>)
    ensures |r| <= |xs|
  {
    if |xs| == 0 then []
    else
      var n := |xs| - 1;
      Somes(xs[..n]) + (if xs[n].Some? then [xs[n].value] else [])
  }

  function NoneCount(xs: seq<Option<Segment>>): nat {
    |xs| - |Somes(xs)|
  }

  /** The origins of the positions that the first pass left open, in position order: the pool
      segments the second pass reused. */
  function Reused(slots: seq<Option<Segment>>, origins: seq<Option<Segment>>): seq<Segment>
    requires |slots| == |origins|
  {
    if |slots| == 0 then []
    else
      var n := |slots| - 1;
      Reused(slots[..n], origins[..n]) + (if slots[n].None? && origins[n].Some? then [origins[n].value] else [])
  }

  /** `remainingSegments.findIndex((segment) => segment.label === label)`. */
  function LabelIndex(pool: seq<Segment>, name: string): (k: int)
    ensures -1 <= k < |pool|
    ensures 0 <= k ==> pool[k].name == name && forall j :: 0 <= j < k ==> pool[j].name != name
    ensures k == -1 <==> forall j :: 0 <= j < |pool| ==> pool[j].name != name
  {
    FindIndex(pool, (s: Segment) => s.name == name)
  }

  /** The first pass over the first |drafts| labels: bind each label to the first remaining
      segment carrying exactly that label, and take that segment out of the pool. */
  function MatchPass(pool: seq<Segment>, drafts: seq<Draft>): (r: MatchState)
    ensures |r.slots| == |drafts|
  {
    if |drafts| == 0 then MatchState([], pool)
    else
      var n := |drafts| - 1;
      var prev := MatchPass(pool, drafts[..n]);
      var k := LabelIndex(prev.remaining, drafts[n].name);
      if k >= 0 then MatchState(prev.slots + [Some(prev.remaining[k])], RemoveAt(prev.remaining, k))
      else MatchState(prev.slots + [None], prev.remaining)
  }

  /** A segment bound in the first pass carries exactly its position's label. */
  lemma {:induction false} MatchPassLabel(pool: seq<Segment>, drafts: seq<Draft>, i: nat)
    requires i < |drafts|
    ensures var r := MatchPass(pool, drafts);
      r.slots[i].Some? ==> r.slots[i].value.name == drafts[i].name
  {
    var n := |drafts| - 1;
    var prev := MatchPass(pool, drafts[..n]);
    if i < n {
      MatchPassLabel(pool, drafts[..n], i);
      var r := MatchPass(pool, drafts);
      assert r.slots[i] == prev.slots[i];
    }
  }

  /** The first pass neither loses nor invents segments: what it bound plus what is left is the
      original pool. */
  lemma {:induction false} MatchPassConserves(pool: seq<Segment>, drafts: seq<Draft>)
    ensures var r := MatchPass(pool, drafts);
      multiset(Somes(r.slots)) + multiset(r.remaining) == multiset(pool) &&
      |Somes(r.slots)| + |r.remaining| == |pool|
  {
    if |drafts| > 0 {
      var n := |drafts| - 1;
      var prev := MatchPass(pool, drafts[..n]);
      MatchPassConserves(pool, drafts[..n]);
      MatchPassStep(pool, drafts);
    }
  }

  /** One step of the first pass moves at most one segment from the pool to the bound ones. */
  lemma MatchPassStep(pool: seq<Segment>, drafts: seq<Draft>)
    requires |drafts| > 0
    ensures var n := |drafts| - 1;
      var prev := MatchPass(pool, drafts[..n]);
      var r := MatchPass(pool, drafts);
      multiset(Somes(r.slots)) + multiset(r.remaining) == multiset(Somes(prev.slots)) + multiset(prev.remaining) &&
      |Somes(r.slots)| + |r.remaining| == |Somes(prev.slots)| + |prev.remaining|
  {
    var n := |drafts| - 1;
    var prev := MatchPass(pool, drafts[..n]);
    var r := MatchPass(pool, drafts);
    assert r.slots[..n] == prev.slots;
    var k := LabelIndex(prev.remaining, drafts[n].name);
    if k >= 0 {
      assert Somes(r.slots) == Somes(prev.slots) + [prev.remaining[k]];
      RemoveAtMultiset(prev.remaining, k);
    } else {
      assert Somes(r.slots) == Somes(prev.slots);
    }
  }

  lemma RemoveAtMultiset(s: seq<Segment>, k: nat)
    requires k < |s|
    ensures multiset(RemoveAt(s, k)) + multiset{s[k]} == multiset(s)
  {
    assert s == s[..k] + [s[k]] + s[k + 1..];
  }

  /** The fresh segment built for an unmatched label once the pool is empty. */
  function FreshSegment(d: Draft): Segment {
    Segment(d.id, d.name, false, false)
  }

  /** The second pass over the first |drafts| positions: an open position takes the first segment
      left in the pool, renamed, or else a fresh segment. */
  function FillPass(slots: seq<Option<Segment>>, drafts: seq<Draft>, pool: seq<Segment>): (r: FillState)
    requires |slots| == |drafts|
    ensures |r.segments| == |drafts| && |r.origins| == |drafts|
  {
    if |drafts| == 0 then FillState([], [], pool)
    else
      var n := |drafts| - 1;
      var prev := FillPass(slots[..n], drafts[..n], pool);
      match slots[n]
      case Some(s) => FillState(prev.segments + [s], prev.origins + [slots[n]], prev.remaining)
      case None =>
        if |prev.remaining| > 0 then
          FillState(prev.segments + [prev.remaining[0].(name := drafts[n].name)],
                    prev.origins + [Some(prev.remaining[0])], prev.remaining[1..])
        else
          FillState(prev.segments + [FreshSegment(drafts[n])], prev.origins + [None], prev.remaining)
  }

  /** What the second pass puts at one position: the bound segment unchanged, a renamed pool
      segment, or a fresh segment. */
  lemma {:induction false} FillPassAt(slots: seq<Option<Segment>>, drafts: seq<Draft>, pool: seq<Segment>, i: nat)
    requires |slots| == |drafts| && i < |drafts|
    ensures var r := FillPass(slots, drafts, pool);
      (slots[i].Some? ==> r.segments[i] == slots[i].value && r.origins[i] == slots[i]) &&
      (slots[i].None? && r.origins[i].Some? ==> r.segments[i] == r.origins[i].value.(name := drafts[i].name)) &&
      (r.origins[i].None? ==> slots[i].None? && r.segments[i] == FreshSegment(drafts[i]))
  {
    var n := |drafts| - 1;
    if i < n {
      FillPassAt(slots[..n], drafts[..n], pool, i);
      var prev := FillPass(slots[..n], drafts[..n], pool);
      var r := FillPass(slots, drafts, pool);
      assert r.segments[i] == prev.segments[i] && r.origins[i] == prev.origins[i];
    }
  }

  /** The second pass consumes the pool from its front, one segment per open position, until
      the pool runs out. */
  lemma {:induction false} FillPassPool(slots: seq<Option<Segment>>, drafts: seq<Draft>, pool: seq<Segment>)
    requires |slots| == |drafts|
    ensures var r := FillPass(slots, drafts, pool);
      var c := Min(NoneCount(slots), |pool|);
      Reused(slots, r.origins) == pool[..c] && r.remaining == pool[c..] &&
      |Somes(r.origins)| == |Somes(slots)| + c
  {
    if |drafts| > 0 {
      var n := |drafts| - 1;
      var prev := FillPass(slots[..n], drafts[..n], pool);
      FillPassPool(slots[..n], drafts[..n], pool);
      var r := FillPass(slots, drafts, pool);
      assert r.origins[..n] == prev.origins;
      var c0 := Min(NoneCount(slots[..n]), |pool|);
      if slots[n].None? && |prev.remaining| > 0 {
        assert pool[..c0 + 1] == pool[..c0] + [pool[c0]];
      }
    }
  }

  /** With the bound positions kept, the present origins are the bound segments plus the reused ones. */
  lemma {:induction false} SomesSplit(slots: seq<Option<Segment>>, origins: seq<Option<Segment>>)
    requires |slots| == |origins|
    requires forall i :: 0 <= i < |slots| && slots[i].Some? ==> origins[i] == slots[i]
    ensures multiset(Somes(origins)) == multiset(Somes(slots)) + multiset(Reused(slots, origins))
  {
    if |slots| > 0 {
      var n := |slots| - 1;
      SomesSplit(slots[..n], origins[..n]);
    }
  }

  /** The reconciled segment list for the labels of `drafts`. */
  function MergeSegments(segments: seq<Segment>, drafts: seq<Draft>): seq<Segment> {
    var matched := MatchPass(segments, drafts);
    FillPass(matched.slots, drafts, matched.remaining).segments
  }

  /** Where each merged segment came from: `Some(s)` for an existing segment `s` (kept whole or
      renamed), `None` for a fresh one. */
  function MergeOrigins(segments: seq<Segment>, drafts: seq<Draft>): seq<Option<Segment>> {
    var matched := MatchPass(segments, drafts);
    FillPass(matched.slots, drafts, matched.remaining).origins
  }

  /** `x` is present in `xs` exactly when some position holds `Some(x)`. */
  lemma {:induction false} SomesMember(xs: seq<Option<Segment>>, x: Segment)
    requires x in Somes(xs)
    ensures exists i :: 0 <= i < |xs| && xs[i] == Some(x)
  {
    var n := |xs| - 1;
    if x in Somes(xs[..n]) {
      SomesMember(xs[..n], x);
      var i :| 0 <= i < n && xs[..n][i] == Some(x);
      assert xs[i] == Some(x);
    } else {
      assert xs[n] == Some(x);
    }
  }

  /** The first pass on a prefix of the labels binds the same segments as on all of them. */
  lemma {:induction false} MatchPassPrefix(pool: seq<Segment>, drafts: seq<Draft>, m: nat)
    requires m <= |drafts|
    ensures MatchPass(pool, drafts[..m]).slots == MatchPass(pool, drafts).slots[..m]
    decreases |drafts|
  {
    if m < |drafts| {
      var n := |drafts| - 1;
      MatchPassPrefix(pool, drafts[..n], m);
      assert drafts[..n][..m] == drafts[..m];
      assert MatchPass(pool, drafts).slots[..n] == MatchPass(pool, drafts[..n]).slots;
    } else {
      assert drafts[..m] == drafts;
    }
  }

  /** One merged segment per desired label, carrying exactly that label. */
  lemma MergeLabels(segments: seq<Segment>, drafts: seq<Draft>)
    ensures |MergeSegments(segments, drafts)| == |drafts|
    ensures forall i :: 0 <= i < |drafts| ==> MergeSegments(segments, drafts)[i].name == drafts[i].name
  {
    var matched := MatchPass(segments, drafts);
    forall i | 0 <= i < |drafts|
      ensures MergeSegments(segments, drafts)[i].name == drafts[i].name
    {
      MatchPassLabel(segments, drafts, i);
      FillPassAt(matched.slots, drafts, matched.remaining, i);
    }
  }

  /** Every merged segment is either an existing segment with only its label set to the desired
      one (so id, `selected` and `removed` are kept, and nothing changes at all when the label
      already matched), or a fresh segment with the prepared id and both flags clear. */
  lemma MergeProvenance(segments: seq<Segment>, drafts: seq<Draft>, i: nat)
    requires i < |drafts|
    ensures var (r, o) := (MergeSegments(segments, drafts), MergeOrigins(segments, drafts));
      |r| == |o| == |drafts| &&
      (o[i].Some? ==> o[i].value in segments && r[i] == o[i].value.(name := drafts[i].name)) &&
      (o[i].None? ==> r[i] == Segment(drafts[i].id, drafts[i].name, false, false))
  {
    var matched := MatchPass(segments, drafts);
    var filled := FillPass(matched.slots, drafts, matched.remaining);
    MatchPassLabel(segments, drafts, i);
    FillPassAt(matched.slots, drafts, matched.remaining, i);
    MergeUsesAtMostOnce(segments, drafts);
    if filled.origins[i].Some? {
      var x := filled.origins[i].value;
      assert x in Somes(filled.origins) by { SomesHas(filled.origins, i); }
      assert x in multiset(segments);
    }
  }

  lemma {:induction false} SomesHas(xs: seq<Option<Segment>>, i: nat)
    requires i < |xs| && xs[i].Some?
    ensures xs[i].value in Somes(xs)
  {
    var n := |xs| - 1;
    if i < n {
      SomesHas(xs[..n], i);
    }
  }

  /** The present origins are the segments bound in the first pass plus those reused in the second. */
  lemma MergeOriginsSplit(segments: seq<Segment>, drafts: seq<Draft>)
    ensures var matched := MatchPass(segments, drafts);
      var o := MergeOrigins(segments, drafts);
      multiset(Somes(o)) == multiset(Somes(matched.slots)) + multiset(Reused(matched.slots, o))
  {
    var matched := MatchPass(segments, drafts);
    var filled := FillPass(matched.slots, drafts, matched.remaining);
    forall i | 0 <= i < |drafts| && matched.slots[i].Some?
      ensures filled.origins[i] == matched.slots[i]
    {
      FillPassAt(matched.slots, drafts, matched.remaining, i);
    }
    SomesSplit(matched.slots, filled.origins);
  }

  /** No existing segment is used twice: the reused segments form a sub-multiset of the
      existing ones. */
  lemma MergeUsesAtMostOnce(segments: seq<Segment>, drafts: seq<Draft>)
    ensures multiset(Somes(MergeOrigins(segments, drafts))) <= multiset(segments)
  {
    var matched := MatchPass(segments, drafts);
    var filled := FillPass(matched.slots, drafts, matched.remaining);
    var c := Min(NoneCount(matched.slots), |matched.remaining|);
    MatchPassConserves(segments, drafts);
    FillPassPool(matched.slots, drafts, matched.remaining);
    MergeOriginsSplit(segments, drafts);
    PrefixMultiset(matched.remaining, c);
    assert multiset(Somes(filled.origins)) == multiset(Somes(matched.slots)) + multiset(matched.remaining[..c]);
  }

  lemma PrefixMultiset(s: seq<Segment>, c: nat)
    requires c <= |s|
    ensures multiset(s[..c]) <= multiset(s)
  {
    assert s == s[..c] + s[c..];
  }

  /** Exactly max(0, |labels| - |existing|) segments are created. */
  lemma MergeFreshCount(segments: seq<Segment>, drafts: seq<Draft>)
    ensures NoneCount(MergeOrigins(segments, drafts)) == Max(0, |drafts| - |segments|)
  {
    var matched := MatchPass(segments, drafts);
    MatchPassConserves(segments, drafts);
    FillPassPool(matched.slots, drafts, matched.remaining);
  }

  /** When the list does not shrink, every existing segment survives, id and flags included. */
  lemma MergeKeepsAllWhenGrowing(segments: seq<Segment>, drafts: seq<Draft>)
    requires |drafts| >= |segments|
    ensures multiset(Somes(MergeOrigins(segments, drafts))) == multiset(segments)
    ensures forall j :: 0 <= j < |segments| ==>
      (exists i :: 0 <= i < |drafts| && MergeSegments(segments, drafts)[i] == segments[j].(name := drafts[i].name))
  {
    var matched := MatchPass(segments, drafts);
    var filled := FillPass(matched.slots, drafts, matched.remaining);
    MatchPassConserves(segments, drafts);
    FillPassPool(matched.slots, drafts, matched.remaining);
    MergeOriginsSplit(segments, drafts);
    assert matched.remaining[..|matched.remaining|] == matched.remaining;
    forall j | 0 <= j < |segments|
      ensures exists i :: 0 <= i < |drafts| && MergeSegments(segments, drafts)[i] == segments[j].(name := drafts[i].name)
    {
      assert segments[j] in multiset(Somes(filled.origins));
      SomesMember(filled.origins, segments[j]);
      var i :| 0 <= i < |drafts| && filled.origins[i] == Some(segments[j]);
      MergeProvenance(segments, drafts, i);
    }
  }

  /** The segments reused under a new label are the leftovers of the first pass, taken from the
      front in their original order. */
  lemma MergeRenamesFirstLeftovers(segments: seq<Segment>, drafts: seq<Draft>)
    ensures var matched := MatchPass(segments, drafts);
      var reused := Reused(matched.slots, MergeOrigins(segments, drafts));
      |reused| == Min(NoneCount(matched.slots), |matched.remaining|) &&
      reused == matched.remaining[..|reused|]
  {
    var matched := MatchPass(segments, drafts);
    FillPassPool(matched.slots, drafts, matched.remaining);
  }

  /** How many segments carry exactly the label `name`. */
  function CountNamed(pool: seq<Segment>, name: string): (c: nat)
    ensures c <= |pool|
  {
    if |pool| == 0 then 0
    else (if pool[0].name == name then 1 else 0) + CountNamed(pool[1..], name)
  }

  /** How many desired labels are exactly `name`. */
  function CountDraftsNamed(drafts: seq<Draft>, name: string): (c: nat)
    ensures c <= |drafts|
  {
    if |drafts| == 0 then 0
    else CountDraftsNamed(drafts[..|drafts| - 1], name) + (if drafts[|drafts| - 1].name == name then 1 else 0)
  }

  lemma {:induction false} CountNamedAppend(a: seq<Segment>, b: seq<Segment>, name: string)
    ensures CountNamed(a + b, name) == CountNamed(a, name) + CountNamed(b, name)
  {
    if |a| > 0 {
      assert (a + b)[1..] == a[1..] + b;
      CountNamedAppend(a[1..], b, name);
    } else {
      assert a + b == b;
    }
  }

  /** Removing one segment lowers the count of its own label by one and leaves the others. */
  lemma {:induction false} CountNamedRemoveAt(s: seq<Segment>, k: nat, name: string)
    requires k < |s|
    ensures CountNamed(RemoveAt(s, k), name) + (if s[k].name == name then 1 else 0) == CountNamed(s, name)
  {
    assert s == s[..k] + ([s[k]] + s[k + 1..]);
    CountNamedAppend(s[..k], [s[k]] + s[k + 1..], name);
    CountNamedAppend([s[k]], s[k + 1..], name);
    CountNamedAppend(s[..k], s[k + 1..], name);
    assert [s[k]][1..] == [];
  }

  /** No segment carries `name` exactly when the count is zero. */
  lemma {:induction false} CountNamedZeroIff(s: seq<Segment>, name: string)
    ensures CountNamed(s, name) == 0 <==> forall j :: 0 <= j < |s| ==> s[j].name != name
  {
    if |s| > 0 {
      CountNamedZeroIff(s[1..], name);
      if CountNamed(s, name) == 0 {
        forall j | 0 <= j < |s|
          ensures s[j].name != name
        {
          if j > 0 {
            assert s[j] == s[1..][j - 1];
          }
        }
      } else if s[0].name != name {
        var j :| 0 <= j < |s[1..]| && s[1..][j].name == name;
        assert s[j + 1].name == name;
      }
    }
  }

  lemma {:induction false} CountDraftsZero(drafts: seq<Draft>, name: string)
    requires forall p :: 0 <= p < |drafts| ==> drafts[p].name != name
    ensures CountDraftsNamed(drafts, name) == 0
  {
    if |drafts| > 0 {
      var n := |drafts| - 1;
      assert forall p :: 0 <= p < n ==> drafts[..n][p].name != name;
      CountDraftsZero(drafts[..n], name);
    }
  }

  /** A prefix of the desired labels asks for `name` no more often than the whole. */
  lemma {:induction false} CountDraftsPrefix(drafts: seq<Draft>, m: nat, name: string)
    requires m <= |drafts|
    ensures CountDraftsNamed(drafts[..m], name) <= CountDraftsNamed(drafts, name)
    decreases |drafts|
  {
    if m < |drafts| {
      var n := |drafts| - 1;
      CountDraftsPrefix(drafts[..n], m, name);
      assert drafts[..n][..m] == drafts[..m];
    } else {
      assert drafts[..m] == drafts;
    }
  }

  /** The first pass takes one segment labelled `name` for each desired `name` while any is left,
      and no other label takes one. */
  lemma {:induction false} MatchPassCount(pool: seq<Segment>, drafts: seq<Draft>, name: string)
    ensures CountNamed(MatchPass(pool, drafts).remaining, name)
         == Max(0, CountNamed(pool, name) - CountDraftsNamed(drafts, name))
  {
    if |drafts| > 0 {
      var n := |drafts| - 1;
      var prev := MatchPass(pool, drafts[..n]);
      MatchPassCount(pool, drafts[..n], name);
      var k := LabelIndex(prev.remaining, drafts[n].name);
      var c := CountNamed(pool, name);
      var e := CountDraftsNamed(drafts, name);
      var before := CountNamed(prev.remaining, name);
      assert before == Max(0, c - CountDraftsNamed(drafts[..n], name));
      assert drafts[..n] == drafts[..|drafts| - 1];
      var here := if drafts[n].name == name then 1 else 0;
      assert e == CountDraftsNamed(drafts[..n], name) + here;
      var r := MatchPass(pool, drafts);
      if k >= 0 {
        assert r.remaining == RemoveAt(prev.remaining, k);
        CountNamedRemoveAt(prev.remaining, k, name);
        assert CountNamed(r.remaining, name) == before - here;
      } else {
        assert r.remaining == prev.remaining;
        if drafts[n].name == name {
          CountNamedZeroIff(prev.remaining, name);
          assert before == 0;
        }
      }
    }
  }

  /** Position i is bound in the first pass exactly when more existing segments carry its label
      than earlier positions ask for it. */
  lemma {:induction false} MatchSlotIff(pool: seq<Segment>, drafts: seq<Draft>, i: nat)
    requires i < |drafts|
    ensures MatchPass(pool, drafts).slots[i].Some?
        <==> CountNamed(pool, drafts[i].name) > CountDraftsNamed(drafts[..i], drafts[i].name)
  {
    var name := drafts[i].name;
    MatchPassPrefix(pool, drafts, i + 1);
    var prefix := drafts[..i + 1];
    assert prefix[..i] == drafts[..i];
    var prev := MatchPass(pool, drafts[..i]);
    MatchPassCount(pool, drafts[..i], name);
    CountNamedZeroIff(prev.remaining, name);
    assert MatchPass(pool, drafts).slots[i] == MatchPass(pool, prefix).slots[i];
  }

  /** A position left open by the first pass takes its origin, if any, from the pool it was given. */
  lemma {:induction false} FillOriginInPool(slots: seq<Option<Segment>>, drafts: seq<Draft>, pool: seq<Segment>, i: nat)
    requires |slots| == |drafts| && i < |drafts|
    ensures var r := FillPass(slots, drafts, pool);
      slots[i].None? && r.origins[i].Some? ==> r.origins[i].value in pool
  {
    var n := |drafts| - 1;
    var prev := FillPass(slots[..n], drafts[..n], pool);
    if i < n {
      FillOriginInPool(slots[..n], drafts[..n], pool, i);
      assert slots[..n][i] == slots[i];
      FillPassAt(slots, drafts, pool, i);
      FillPassAt(slots[..n], drafts[..n], pool, i);
    } else {
      FillPassPool(slots[..n], drafts[..n], pool);
      FillPassAt(slots, drafts, pool, i);
    }
  }

  /** An open position whose label is used up cannot be given a segment carrying that label. */
  lemma {:induction false} OpenSlotTakesOtherLabel(segments: seq<Segment>, drafts: seq<Draft>, i: nat)
    requires i < |drafts|
    requires CountNamed(segments, drafts[i].name) <= CountDraftsNamed(drafts[..i], drafts[i].name)
    ensures var o := MergeOrigins(segments, drafts);
      o[i].None? || o[i].value.name != drafts[i].name
  {
    var name := drafts[i].name;
    var matched := MatchPass(segments, drafts);
    MatchSlotIff(segments, drafts, i);
    FillOriginInPool(matched.slots, drafts, matched.remaining, i);
    MatchPassCount(segments, drafts, name);
    CountDraftsPrefix(drafts, i + 1, name);
    assert drafts[..i + 1][..i] == drafts[..i];
    CountNamedZeroIff(matched.remaining, name);
    var o := MergeOrigins(segments, drafts);
    if o[i].Some? {
      var j :| 0 <= j < |matched.remaining| && matched.remaining[j] == o[i].value;
    }
  }

  /** Position i reuses an existing segment carrying its own label, whole, exactly when more
      existing segments carry that label than earlier positions ask for it; otherwise its
      origin, if any, carries a different label. */
  lemma {:induction false} MergeReusesExactMatch(segments: seq<Segment>, drafts: seq<Draft>, i: nat)
    requires i < |drafts|
    ensures var name := drafts[i].name;
      var o := MergeOrigins(segments, drafts);
      CountNamed(segments, name) > CountDraftsNamed(drafts[..i], name) ==>
        o[i].Some? && o[i].value.name == name && MergeSegments(segments, drafts)[i] == o[i].value
    ensures var name := drafts[i].name;
      var o := MergeOrigins(segments, drafts);
      CountNamed(segments, name) <= CountDraftsNamed(drafts[..i], name) ==>
        MatchPass(segments, drafts).slots[i].None? && (o[i].None? || o[i].value.name != name)
  {
    var name := drafts[i].name;
    var matched := MatchPass(segments, drafts);
    MatchSlotIff(segments, drafts, i);
    if CountNamed(segments, name) > CountDraftsNamed(drafts[..i], name) {
      MatchPassLabel(segments, drafts, i);
      FillPassAt(matched.slots, drafts, matched.remaining, i);
    } else {
      OpenSlotTakesOtherLabel(segments, drafts, i);
    }
  }

  /** With distinct desired labels no earlier position asks for label i, so one existing segment
      carrying it is enough for position i to reuse an exact match. */
  lemma {:induction false} ExactMatchBound(segments: seq<Segment>, drafts: seq<Draft>, i: nat, j: nat)
    requires i < |drafts| && j < |segments|
    requires forall p, q :: 0 <= p < q < |drafts| ==> drafts[p].name != drafts[q].name
    requires segments[j].name == drafts[i].name
    ensures CountNamed(segments, drafts[i].name) > CountDraftsNamed(drafts[..i], drafts[i].name)
  {
    CountNamedZeroIff(segments, drafts[i].name);
    assert forall p :: 0 <= p < i ==> drafts[..i][p].name != drafts[i].name;
    CountDraftsZero(drafts[..i], drafts[i].name);
  }

  /** The positions the first pass left open, in increasing order (`missingIndexes`). */
  function NonePositions(xs: seq<Option<Segment>>): (r: seq<nat>)
    ensures forall t :: 0 <= t < |r| ==> r[t] < |xs| && xs[r[t]].None?
    ensures forall t, u :: 0 <= t < u < |r| ==> r[t] < r[u]
    ensures forall q :: 0 <= q < |xs| && xs[q].None? ==> q in r
  {
    if |xs| == 0 then []
    else
      var n := |xs| - 1;
      NonePositions(xs[..n]) + (if xs[n].None? then [n] else [])
  }

  function Present(segments: seq<Segment>): (r: seq<Option<Segment>>)
    ensures |r| == |segments| && forall q :: 0 <= q < |r| ==> r[q] == Some(segments[q])
  {
    seq(|segments|, q requires 0 <= q < |segments| => Some(segments[q]))
  }

  function Values(xs: seq<Option<Segment>>): (r: seq<Segment>)
    requires forall q :: 0 <= q < |xs| ==> xs[q].Some?
    ensures |r| == |xs| && forall q :: 0 <= q < |r| ==> xs[q] == Some(r[q])
  {
    seq(|xs|, q requires 0 <= q < |xs| && xs[q].Some? => xs[q].value)
  }

  /** Positions already bound in the first pass are copied through by the second. */
  lemma {:induction false} FillPassSkip(slots: seq<Option<Segment>>, drafts: seq<Draft>, pool: seq<Segment>, a: nat, b: nat)
    requires |slots| == |drafts| && a <= b <= |slots|
    requires forall q :: a <= q < b ==> slots[q].Some?
    ensures FillPass(slots[..b], drafts[..b], pool).remaining == FillPass(slots[..a], drafts[..a], pool).remaining
    ensures Present(FillPass(slots[..b], drafts[..b], pool).segments) ==
      Present(FillPass(slots[..a], drafts[..a], pool).segments) + slots[a..b]
    decreases b
  {
    if a < b {
      FillPassSkip(slots, drafts, pool, a, b - 1);
      assert slots[..b][..b - 1] == slots[..b - 1];
      assert drafts[..b][..b - 1] == drafts[..b - 1];
      assert slots[a..b] == slots[a..b - 1] + [slots[b - 1]];
    }
  }

  /** Between two consecutive open positions every position is bound. */
  lemma {:induction false} GapIsBound(slots: seq<Option<Segment>>, missing: seq<nat>, j: int, q: nat)
    requires missing == NonePositions(slots)
    requires -1 <= j < |missing|
    requires (if j == -1 then 0 else missing[j] + 1) <= q < (if j + 1 < |missing| then missing[j + 1] else |slots|)
    ensures slots[q].Some?
  {
    if slots[q].None? {
      assert q in missing;
      forall t | 0 <= t < |missing| ensures missing[t] != q {
        if j >= 0 && t <= j {
          assert missing[t] <= missing[j];
        } else if t > j + 1 {
          assert missing[j + 1] < missing[t];
        }
      }
    }
  }

  /** The second pass at a single open position. */
  lemma {:induction false} FillOpenStep(slots: seq<Option<Segment>>, drafts: seq<Draft>, pool: seq<Segment>, p: nat)
    requires |slots| == |drafts| && p < |slots| && slots[p].None?
    ensures var before := FillPass(slots[..p], drafts[..p], pool);
      var after := FillPass(slots[..p + 1], drafts[..p + 1], pool);
      var seg := if |before.remaining| > 0 then before.remaining[0].(name := drafts[p].name)
                 else FreshSegment(drafts[p]);
      after.segments == before.segments + [seg] &&
      after.remaining == (if |before.remaining| > 0 then before.remaining[1..] else before.remaining)
  {
    assert slots[..p + 1][..p] == slots[..p];
    assert drafts[..p + 1][..p] == drafts[..p];
  }

  lemma PresentSnoc(segments: seq<Segment>, s: Segment)
    ensures Present(segments + [s]) == Present(segments) + [Some(s)]
  {
  }

  /** The second pass at one open position `missing[j]`, followed by the bound positions up to the
      next open one. */
  lemma {:induction false} FillAdvance(slots: seq<Option<Segment>>, drafts: seq<Draft>, pool: seq<Segment>, missing: seq<nat>, j: nat)
    requires |slots| == |drafts| && missing == NonePositions(slots) && j < |missing|
    ensures var index := missing[j];
      var next := if j + 1 < |missing| then missing[j + 1] else |drafts|;
      var before := FillPass(slots[..index], drafts[..index], pool);
      var after := FillPass(slots[..next], drafts[..next], pool);
      var seg := if |before.remaining| > 0 then before.remaining[0].(name := drafts[index].name)
                 else FreshSegment(drafts[index]);
      index < next <= |drafts| &&
      Present(after.segments) == Present(before.segments) + [Some(seg)] + slots[index + 1..next] &&
      after.remaining == (if |before.remaining| > 0 then before.remaining[1..] else before.remaining)
  {
    var index := missing[j];
    var next := if j + 1 < |missing| then missing[j + 1] else |drafts|;
    var before := FillPass(slots[..index], drafts[..index], pool);
    var seg := if |before.remaining| > 0 then before.remaining[0].(name := drafts[index].name)
               else FreshSegment(drafts[index]);
    FillOpenStep(slots, drafts, pool, index);
    PresentSnoc(before.segments, seg);
    forall q | index + 1 <= q < next ensures slots[q].Some? {
      GapIsBound(slots, missing, j, q);
    }
    FillPassSkip(slots, drafts, pool, index + 1, next);
  }

  /** Filling open position `index` of a result list that agrees with `slots` from `index` on. */
  lemma SlotsAdvance(prefix: seq<Option<Segment>>, slots: seq<Option<Segment>>, index: nat, next: nat, v: Option<Segment>)
    requires |prefix| == index < next <= |slots|
    ensures (prefix + slots[index..])[index := v] == prefix + [v] + slots[index + 1..next] + slots[next..]
  {
  }

  /** The first pass over one more label. */
  lemma MatchPassSnoc(pool: seq<Segment>, drafts: seq<Draft>, i: nat)
    requires i < |drafts|
    ensures var prev := MatchPass(pool, drafts[..i]);
      var k := LabelIndex(prev.remaining, drafts[i].name);
      MatchPass(pool, drafts[..i + 1]) ==
        if k >= 0 then MatchState(prev.slots + [Some(prev.remaining[k])], RemoveAt(prev.remaining, k))
        else MatchState(prev.slots + [None], prev.remaining)
  {
    assert drafts[..i + 1][..i] == drafts[..i];
  }

  lemma NonePositionsSnoc(xs: seq<Option<Segment>>, x: Option<Segment>)
    ensures NonePositions(xs + [x]) == NonePositions(xs) + (if x.None? then [|xs|] else [])
  {
    assert (xs + [x])[..|xs|] == xs;
  }

  /** The first loop of the source's `mergeSegments`: bind each label to the first remaining
      segment with exactly that label, recording the open positions in `missing`. */
  method MatchExisting(segments: seq<Segment>, drafts: seq<Draft>)
    returns (results: seq<Option<Segment>>, remaining: seq<Segment>, missing: seq<nat>)
    ensures MatchPass(segments, drafts) == MatchState(results, remaining)
    ensures missing == NonePositions(results)
  {
    remaining := segments;
    results := [];
    missing := [];
    for i := 0 to |drafts|
      invariant MatchPass(segments, drafts[..i]) == MatchState(results, remaining)
      invariant missing == NonePositions(results)
    {
      MatchPassSnoc(segments, drafts, i);
      var k := LabelIndex(remaining, drafts[i].name);
      var slot;
      if k > -1 {
        slot := Some(remaining[k]);
        remaining := RemoveAt(remaining, k);
      } else {
        slot := None;
        missing := missing + [i];
      }
      NonePositionsSnoc(results, slot);
      results := results + [slot];
    }
    assert drafts[..|drafts|] == drafts;
  }

  /** The state of the second loop before it handles open position number `j`: `results` is the
      second pass over the positions before `missing[j]` followed by the first pass's slots from
      there on, and `remaining` is what the second pass has left of the pool. */
  predicate Filled(slots: seq<Option<Segment>>, drafts: seq<Draft>, pool: seq<Segment>, missing: seq<nat>, j: nat,
                   results: seq<Option<Segment>>, remaining: seq<Segment>)
    requires |slots| == |drafts| && missing == NonePositions(slots) && j <= |missing|
  {
    var p := if j < |missing| then missing[j] else |drafts|;
    var done := FillPass(slots[..p], drafts[..p], pool);
    results == Present(done.segments) + slots[p..] && remaining == done.remaining
  }

  /** The second pass over positions that are all bound copies them and leaves the pool alone. */
  lemma {:induction false} FillBoundPrefix(slots: seq<Option<Segment>>, drafts: seq<Draft>, pool: seq<Segment>, p: nat)
    requires |slots| == |drafts| && p <= |slots|
    requires forall q :: 0 <= q < p ==> slots[q].Some?
    ensures Present(FillPass(slots[..p], drafts[..p], pool).segments) == slots[..p]
    ensures FillPass(slots[..p], drafts[..p], pool).remaining == pool
  {
    FillPassSkip(slots, drafts, pool, 0, p);
    assert FillPass(slots[..0], drafts[..0], pool) == FillState([], [], pool);
    assert Present([]) == [];
    assert slots[0..p] == slots[..p];
  }

  /** The positions before the first open one are copied through. */
  lemma {:induction false} FillStart(slots: seq<Option<Segment>>, drafts: seq<Draft>, pool: seq<Segment>, missing: seq<nat>)
    requires |slots| == |drafts| && missing == NonePositions(slots)
    ensures Filled(slots, drafts, pool, missing, 0, slots, pool)
  {
    var p := if 0 < |missing| then missing[0] else |drafts|;
    forall q | 0 <= q < p ensures slots[q].Some? {
      GapIsBound(slots, missing, -1, q);
    }
    FillBoundPrefix(slots, drafts, pool, p);
    assert slots == slots[..p] + slots[p..];
  }

  /** One turn of the second loop: open position `missing[j]` takes the front of the pool, renamed,
      or a fresh segment. */
  lemma {:induction false} FillStep(slots: seq<Option<Segment>>, drafts: seq<Draft>, pool: seq<Segment>, missing: seq<nat>, j: nat,
                                    results: seq<Option<Segment>>, remaining: seq<Segment>)
    requires |slots| == |drafts| && missing == NonePositions(slots) && j < |missing|
    requires Filled(slots, drafts, pool, missing, j, results, remaining)
    ensures var index := missing[j];
      var segment := if |remaining| > 0 then remaining[0].(name := drafts[index].name) else FreshSegment(drafts[index]);
      index < |results| &&
      Filled(slots, drafts, pool, missing, j + 1, results[index := Some(segment)],
             if |remaining| > 0 then remaining[1..] else remaining)
  {
    var index := missing[j];
    var next := if j + 1 < |missing| then missing[j + 1] else |drafts|;
    var before := FillPass(slots[..index], drafts[..index], pool);
    FillAdvance(slots, drafts, pool, missing, j);
    var segment := if |remaining| > 0 then remaining[0].(name := drafts[index].name) else FreshSegment(drafts[index]);
    SlotsAdvance(Present(before.segments), slots, index, next, Some(segment));
  }

  /** After the last open position the loop holds the whole second pass. */
  lemma FillDone(slots: seq<Option<Segment>>, drafts: seq<Draft>, pool: seq<Segment>, missing: seq<nat>,
                 results: seq<Option<Segment>>, remaining: seq<Segment>)
    requires |slots| == |drafts| && missing == NonePositions(slots)
    requires Filled(slots, drafts, pool, missing, |missing|, results, remaining)
    ensures results == Present(FillPass(slots, drafts, pool).segments)
  {
    assert slots[..|drafts|] == slots && drafts[..|drafts|] == drafts;
  }

  /** The second loop of the source's `mergeSegments`: each open position takes the front of the
      pool, renamed, or a fresh segment once the pool is empty. */
  method FillMissing(slots: seq<Option<Segment>>, drafts: seq<Draft>, pool: seq<Segment>, missing: seq<nat>)
    returns (results: seq<Option<Segment>>)
    requires |slots| == |drafts| && missing == NonePositions(slots)
    ensures results == Present(FillPass(slots, drafts, pool).segments)
  {
    results := slots;
    var remaining := pool;
    FillStart(slots, drafts, pool, missing);
    for j := 0 to |missing|
      invariant Filled(slots, drafts, pool, missing, j, results, remaining)
    {
      var index := missing[j];
      FillStep(slots, drafts, pool, missing, j, results, remaining);
      var segment;
      if |remaining| > 0 {
        segment := remaining[0].(name := drafts[index].name);
        remaining := remaining[1..];
      } else {
        segment := FreshSegment(drafts[index]);
      }
      results := results[index := Some(segment)];
    }
    FillDone(slots, drafts, pool, missing, results, remaining);
  }

  /** The source's `mergeSegments`: copy the pool, bind exact matches while recording the open
      positions, then fill each open position from the front of the pool or with a fresh segment. */
  method MergeSegmentsInPlace(segments: seq<Segment>, drafts: seq<Draft>) returns (merged: seq<Segment>)
    ensures merged == MergeSegments(segments, drafts)
  {
    var results, remaining, missing := MatchExisting(segments, drafts);
    results := FillMissing(results, drafts, remaining, missing);
    merged := Values(results);
    assert Present(merged) == results;
  }

  /** The reconciliation example: existing [A "X", B "Y"] and desired ["Y", "X", "Z"] give
      [B "Y", A "X", fresh "Z"]: identity follows the label, not the position. */
  const ExampleA := Segment("A", "X", false, true)
  const ExampleB := Segment("B", "Y", true, false)
  const ExampleDrafts := [Draft("n1", "Y"), Draft("n2", "X"), Draft("n3", "Z")]

  /** The first pass binds "Y" to B, then "X" to A, and leaves "Z" open. */
  lemma {:induction false} MatchExample()
    ensures MatchPass([ExampleA, ExampleB], ExampleDrafts) == MatchState([Some(ExampleB), Some(ExampleA), None], [])
  {
    var (a, b, drafts) := (ExampleA, ExampleB, ExampleDrafts);
    MatchExampleFirst();
    assert drafts[..2][..1] == drafts[..1] && drafts[..3][..2] == drafts[..2] && drafts[..3] == drafts;
    assert LabelIndex([a], "X") == 0;
    assert MatchPass([a, b], drafts[..2]) == MatchState([Some(b), Some(a)], []);
  }

  lemma {:induction false} MatchExampleFirst()
    ensures MatchPass([ExampleA, ExampleB], ExampleDrafts[..1]) == MatchState([Some(ExampleB)], [ExampleA])
  {
    var (a, b, drafts) := (ExampleA, ExampleB, ExampleDrafts);
    assert drafts[..1][..0] == [];
    assert [a, b][0].name != "Y" by { assert "X"[0] != "Y"[0]; }
    assert [a, b][1].name == "Y";
    assert LabelIndex([a, b], "Y") == 1;
  }

  /** The second pass of the example: both bound positions are copied, the open one is fresh. */
  lemma {:induction false} FillExample()
    ensures FillPass([Some(ExampleB), Some(ExampleA), None], ExampleDrafts, []).segments ==
      [ExampleB, ExampleA, Segment("n3", "Z", false, false)]
  {
    var (a, b, drafts) := (ExampleA, ExampleB, ExampleDrafts);
    var slots := [Some(b), Some(a), None];
    assert drafts[..1][..0] == [] && drafts[..2][..1] == drafts[..1] && drafts[..3][..2] == drafts[..2] && drafts[..3] == drafts;
    assert slots[..2][..1] == slots[..1] && slots[..1][..0] == [] && slots[..3][..2] == slots[..2] && slots[..3] == slots;
    assert FillPass(slots[..1], drafts[..1], []) == FillState([b], [Some(b)], []);
    assert FillPass(slots[..2], drafts[..2], []) == FillState([b, a], [Some(b), Some(a)], []);
  }

  lemma {:induction false} MergeExample()
    ensures MergeSegments([ExampleA, ExampleB], ExampleDrafts) ==
      [ExampleB, ExampleA, Segment("n3", "Z", false, false)]
  {
    MatchExample();
    FillExample();
  }
}
