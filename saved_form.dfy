/** What the three save-format codecs share: the compact wheel record `{l, s}`, the saved-label
    rule, the hydration of saved wheels with fresh ids, and the JSON form and JTD schema of the
    versioned record `{v, i, w}`. */
module SavedForm {
  import opened Wrappers
  import opened Collections
  import opened Text
  import opened Wheels
  import opened Json

  /** One saved wheel: its label `l` and its segment labels `s`. */
  datatype SavedWheel = SavedWheel(l: string, s: seq<string>)

  /** The versioned compact record: version `v`, selected wheel position `i`, wheels `w`. */
  datatype Saved = Saved(v: string, i: int, w: seq<SavedWheel>)

  const SchemaVersion: string := "1"

  /** The JTD schema of one saved wheel. */
  const WheelSchema: Schema := Properties([("l", TypeForm(StringType)), ("s", Elements(TypeForm(StringType)))])

  /** The JTD schema of the versioned record. */
  const SavedSchema: Schema := Properties([("v", TypeForm(StringType)), ("w", Elements(WheelSchema)), ("i", TypeForm(Int32Type))])

  /** `!!label && !!label.trim()`: a label is saved when it is not blank. */
  predicate Saveable(name: string) {
    Trim(name) != ""
  }

  function TrimAll(names: seq<string>): (r: seq<string>)
    ensures |r| == |names| && forall j :: 0 <= j < |r| ==> r[j] == Trim(names[j])
  {
    Map(names, Trim)
  }

  /** `.filter(({ label }) => !!label && !!label.trim()).map(({ label }) => label.trim())`. */
  function KeptLabels(names: seq<string>): seq<string> {
    TrimAll(Filter(names, Saveable))
  }

  function SegmentNames(segments: seq<Segment>): (r: seq<string>)
    ensures |r| == |segments| && forall j :: 0 <= j < |r| ==> r[j] == segments[j].name
  {
    seq(|segments|, j requires 0 <= j < |segments| => segments[j].name)
  }

  /** The saved form of one wheel. */
  function SaveWheel(w: Wheel): SavedWheel {
    SavedWheel(w.name, KeptLabels(SegmentNames(w.segments)))
  }

  function SaveWheels(wheels: seq<Wheel>): (r: seq<SavedWheel>)
    ensures |r| == |wheels| && forall k :: 0 <= k < |r| ==> r[k] == SaveWheel(wheels[k])
  {
    seq(|wheels|, k requires 0 <= k < |wheels| => SaveWheel(wheels[k]))
  }

  /** A saved label is trimmed and not empty. */
  predicate Clean(name: string) {
    name != "" && Trim(name) == name
  }

  lemma KeptLabelsClean(names: seq<string>)
    ensures forall j :: 0 <= j < |KeptLabels(names)| ==> Clean(KeptLabels(names)[j])
  {
    var kept := Filter(names, Saveable);
    forall j | 0 <= j < |kept| ensures Clean(Trim(kept[j])) {
      TrimIdempotent(kept[j]);
    }
  }

  /** Labels that are already clean are saved as they are. */
  lemma KeptLabelsOfClean(names: seq<string>)
    requires forall j :: 0 <= j < |names| ==> Clean(names[j])
    ensures KeptLabels(names) == names
  {
    FilterAll(names, Saveable);
  }

  /** Saving labels twice is saving them once. */
  lemma KeptLabelsIdempotent(names: seq<string>)
    ensures KeptLabels(KeptLabels(names)) == KeptLabels(names)
  {
    KeptLabelsClean(names);
    KeptLabelsOfClean(KeptLabels(names));
  }

  /** The saved labels keep their order: saving a concatenation concatenates the saved parts. */
  lemma KeptLabelsAppend(a: seq<string>, b: seq<string>)
    ensures KeptLabels(a + b) == KeptLabels(a) + KeptLabels(b)
  {
    FilterAppend(a, b, Saveable);
    MapAppend(Filter(a, Saveable), Filter(b, Saveable), Trim);
  }

  /** A label is saved, trimmed, exactly when it is not blank. */
  lemma KeptLabelsSingle(name: string)
    ensures KeptLabels([name]) == if IsBlank(name) then [] else [Trim(name)]
  {
    TrimEmptyIffBlank(name);
    assert [name][1..] == [];
  }

  /** The hydrated wheel whose id is `ids(start)` and whose segments draw the next ids in order. */
  function FreshWheel(sw: SavedWheel, ids: nat -> Id, start: nat): (r: Wheel)
    ensures r.id == ids(start) && r.name == sw.l && !r.isSpinning && |r.segments| == |sw.s|
    ensures forall j :: 0 <= j < |sw.s| ==> r.segments[j] == Segment(ids(start + 1 + j), sw.s[j], false, false)
  {
    Wheel(ids(start), sw.l, seq(|sw.s|, j requires 0 <= j < |sw.s| => Segment(ids(start + 1 + j), sw.s[j], false, false)), false)
  }

  /** `savedWheels.map(...)` with `uuid()` drawn for each wheel and then for each of its segments. */
  function FreshWheels(ws: seq<SavedWheel>, ids: nat -> Id, start: nat): (r: seq<Wheel>)
    ensures |r| == |ws|
  {
    if |ws| == 0 then [] else [FreshWheel(ws[0], ids, start)] + FreshWheels(ws[1..], ids, start + 1 + |ws[0].s|)
  }

  /** The position in the id supply at which the k-th wheel draws its id. */
  function Start(ws: seq<SavedWheel>, start: nat, k: nat): nat
    requires k <= |ws|
  {
    if k == 0 then start else Start(ws[1..], start + 1 + |ws[0].s|, k - 1)
  }

  lemma {:induction false} FreshWheelsAt(ws: seq<SavedWheel>, ids: nat -> Id, start: nat, k: nat)
    requires k < |ws|
    ensures FreshWheels(ws, ids, start)[k] == FreshWheel(ws[k], ids, Start(ws, start, k))
  {
    if k > 0 {
      FreshWheelsAt(ws[1..], ids, start + 1 + |ws[0].s|, k - 1);
    }
  }

  /** Every hydrated wheel keeps its saved label and segment labels, with all flags clear. */
  lemma FreshWheelsShape(ws: seq<SavedWheel>, ids: nat -> Id, start: nat)
    ensures var r := FreshWheels(ws, ids, start);
      forall k :: 0 <= k < |ws| ==>
        r[k].name == ws[k].l && !r[k].isSpinning && SegmentNames(r[k].segments) == ws[k].s &&
        forall j :: 0 <= j < |r[k].segments| ==> !r[k].segments[j].selected && !r[k].segments[j].removed
  {
    forall k | 0 <= k < |ws| {
      FreshWheelsAt(ws, ids, start, k);
    }
  }

  /** Hydrating saved wheels keeps each wheel's label and its non-blank segment labels, trimmed
      and in order, and clears every flag. */
  lemma FreshWheelsOfSaved(wheels: seq<Wheel>, ids: nat -> Id, start: nat)
    ensures var r := FreshWheels(SaveWheels(wheels), ids, start);
      |r| == |wheels| &&
      forall k :: 0 <= k < |wheels| ==>
        r[k].name == wheels[k].name && !r[k].isSpinning &&
        SegmentNames(r[k].segments) == KeptLabels(SegmentNames(wheels[k].segments)) &&
        forall j :: 0 <= j < |r[k].segments| ==> !r[k].segments[j].selected && !r[k].segments[j].removed
  {
    FreshWheelsShape(SaveWheels(wheels), ids, start);
  }

  /** Saving the wheels hydrated from a save gives that save again: saved labels are kept as they are. */
  lemma SaveFreshWheels(wheels: seq<Wheel>, ids: nat -> Id, start: nat)
    ensures SaveWheels(FreshWheels(SaveWheels(wheels), ids, start)) == SaveWheels(wheels)
  {
    var ws := SaveWheels(wheels);
    var back := FreshWheels(ws, ids, start);
    FreshWheelsShape(ws, ids, start);
    forall k | 0 <= k < |wheels| ensures SaveWheel(back[k]) == ws[k] {
      KeptLabelsIdempotent(SegmentNames(wheels[k].segments));
    }
  }

  /** Ids are drawn in increasing positions: each wheel's block ends before the next one starts. */
  lemma {:induction false} StartIncreases(ws: seq<SavedWheel>, start: nat, k: nat, m: nat)
    requires k < m <= |ws|
    ensures Start(ws, start, k) + 1 + |ws[k].s| <= Start(ws, start, m)
  {
    if k > 0 {
      StartIncreases(ws[1..], start + 1 + |ws[0].s|, k - 1, m - 1);
    } else {
      StartAtLeast(ws[1..], start + 1 + |ws[0].s|, m - 1);
    }
  }

  lemma {:induction false} StartAtLeast(ws: seq<SavedWheel>, start: nat, k: nat)
    requires k <= |ws|
    ensures start <= Start(ws, start, k)
  {
    if k > 0 {
      StartAtLeast(ws[1..], start + 1 + |ws[0].s|, k - 1);
    }
  }

  ghost predicate Injective(ids: nat -> Id) {
    forall a: nat, b: nat :: ids(a) == ids(b) ==> a == b
  }

  /** With an injective id supply every hydrated wheel and segment gets a distinct id. */
  lemma FreshIdsDistinct(ws: seq<SavedWheel>, ids: nat -> Id, start: nat)
    requires Injective(ids)
    ensures var r := FreshWheels(ws, ids, start);
      UniqueWheelIds(r) &&
      (forall k :: 0 <= k < |r| ==> UniqueIds(r[k].segments)) &&
      (forall k, m, j :: 0 <= k < |r| && 0 <= m < |r| && 0 <= j < |r[m].segments| ==> r[k].id != r[m].segments[j].id) &&
      (forall k, m, i, j :: 0 <= k < m < |r| && 0 <= i < |r[k].segments| && 0 <= j < |r[m].segments| ==>
        r[k].segments[i].id != r[m].segments[j].id)
  {
    var r := FreshWheels(ws, ids, start);
    forall k | 0 <= k < |ws| {
      FreshWheelsAt(ws, ids, start, k);
    }
    forall k, m | 0 <= k < m < |ws| ensures Start(ws, start, k) + 1 + |ws[k].s| <= Start(ws, start, m) {
      StartIncreases(ws, start, k, m);
    }
  }

  /** The JSON text content of a saved wheel. */
  function SavedWheelJson(sw: SavedWheel): Json {
    JObject(map["l" := JString(sw.l), "s" := JArray(seq(|sw.s|, j requires 0 <= j < |sw.s| => JString(sw.s[j])))])
  }

  /** The JSON value `JSON.stringify` writes for a versioned record. */
  function SavedJson(saved: Saved): Json {
    JObject(map["v" := JString(saved.v), "i" := JNumber(saved.i as real),
                "w" := JArray(seq(|saved.w|, k requires 0 <= k < |saved.w| => SavedWheelJson(saved.w[k])))])
  }

  /** The shape the wheel schema accepts, written out member by member. */
  predicate IsSavedWheelJson(value: Json) {
    value.JObject? && value.members.Keys == {"l", "s"} &&
    value.members["l"].JString? && value.members["s"].JArray? &&
    forall j :: 0 <= j < |value.members["s"].items| ==> value.members["s"].items[j].JString?
  }

  /** The shape the record schema accepts, written out member by member. */
  predicate IsSavedJson(value: Json) {
    value.JObject? && value.members.Keys == {"v", "w", "i"} &&
    value.members["v"].JString? && value.members["i"].JNumber? && IsInt32(value.members["i"].n) &&
    value.members["w"].JArray? &&
    forall k :: 0 <= k < |value.members["w"].items| ==> IsSavedWheelJson(value.members["w"].items[k])
  }

  lemma PropertyNames2(ps: seq<(string, Schema)>, name: string)
    requires |ps| == 2
    ensures HasProperty(ps, name) <==> name == ps[0].0 || name == ps[1].0
  {
    if name == ps[0].0 {
      assert ps[0].0 == name;
    } else if name == ps[1].0 {
      assert ps[1].0 == name;
    }
  }

  lemma PropertyNames3(ps: seq<(string, Schema)>, name: string)
    requires |ps| == 3
    ensures HasProperty(ps, name) <==> name == ps[0].0 || name == ps[1].0 || name == ps[2].0
  {
    if name == ps[0].0 {
      assert ps[0].0 == name;
    } else if name == ps[1].0 {
      assert ps[1].0 == name;
    } else if name == ps[2].0 {
      assert ps[2].0 == name;
    }
  }

  /** The wheel schema accepts exactly the objects with a string `l` and an array of strings `s`. */
  lemma WheelSchemaIff(value: Json)
    ensures Conforms(WheelSchema, value) <==> IsSavedWheelJson(value)
  {
    var ps := WheelSchema.properties;
    forall name ensures HasProperty(ps, name) <==> name == "l" || name == "s" {
      PropertyNames2(ps, name);
    }
    if value.JObject? {
      if Conforms(WheelSchema, value) {
        assert ps[0].0 in value.members && ps[1].0 in value.members;
        assert Conforms(ps[1].1, value.members["s"]);
      }
      if IsSavedWheelJson(value) {
        assert "l" in value.members && "s" in value.members;
        assert Conforms(ps[1].1, value.members[ps[1].0]);
      }
    }
  }

  /** The record schema accepts exactly the objects with a string `v`, a 32-bit integer `i` and
      an array `w` of saved wheels. */
  lemma SavedSchemaIff(value: Json)
    ensures Conforms(SavedSchema, value) <==> IsSavedJson(value)
  {
    var ps := SavedSchema.properties;
    forall name ensures HasProperty(ps, name) <==> name == "v" || name == "w" || name == "i" {
      PropertyNames3(ps, name);
    }
    if value.JObject? && "w" in value.members && value.members["w"].JArray? {
      var items := value.members["w"].items;
      forall k | 0 <= k < |items| ensures Conforms(WheelSchema, items[k]) <==> IsSavedWheelJson(items[k]) {
        WheelSchemaIff(items[k]);
      }
    }
    if value.JObject? {
      if Conforms(SavedSchema, value) {
        assert ps[0].0 in value.members && ps[1].0 in value.members && ps[2].0 in value.members;
        assert Conforms(ps[1].1, value.members["w"]);
        assert Conforms(ps[2].1, value.members["i"]);
      }
      if IsSavedJson(value) {
        assert "v" in value.members && "w" in value.members && "i" in value.members;
        assert Conforms(ps[1].1, value.members[ps[1].0]);
        assert Conforms(ps[2].1, value.members[ps[2].0]);
      }
    }
  }

  function SavedWheelFromJson(value: Json): SavedWheel
    requires IsSavedWheelJson(value)
  {
    var items := value.members["s"].items;
    SavedWheel(value.members["l"].s, seq(|items|, j requires 0 <= j < |items| => items[j].s))
  }

  /** Reading a validated record back from its JSON value. */
  function SavedFromJson(value: Json): Saved
    requires Conforms(SavedSchema, value)
  {
    SavedSchemaIff(value);
    var items := value.members["w"].items;
    Saved(value.members["v"].s, value.members["i"].n.Floor,
          seq(|items|, k requires 0 <= k < |items| => SavedWheelFromJson(items[k])))
  }

  /** The schema accepts every written record whose position fits in 32 bits, and no other. */
  lemma SavedJsonConforms(saved: Saved)
    ensures Conforms(SavedSchema, SavedJson(saved)) <==> Int32Min <= saved.i <= Int32Max
  {
    var value := SavedJson(saved);
    SavedSchemaIff(value);
    assert value.members.Keys == {"v", "w", "i"};
    forall k | 0 <= k < |saved.w| ensures IsSavedWheelJson(value.members["w"].items[k]) {
      assert SavedWheelJson(saved.w[k]).members.Keys == {"l", "s"};
    }
    assert (saved.i as real).Floor == saved.i;
  }

  /** Reading back a written record gives the record. */
  lemma SavedJsonRoundTrip(saved: Saved)
    requires Int32Min <= saved.i <= Int32Max
    ensures Conforms(SavedSchema, SavedJson(saved)) && SavedFromJson(SavedJson(saved)) == saved
  {
    SavedJsonConforms(saved);
    var back := SavedFromJson(SavedJson(saved));
    assert (saved.i as real).Floor == saved.i;
    forall k | 0 <= k < |saved.w| ensures back.w[k] == saved.w[k] {
      assert back.w[k].s == saved.w[k].s;
    }
  }
}
