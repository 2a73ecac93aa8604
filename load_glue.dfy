/** The rules of the index-based app's state hook: where the startup state comes from, how the
    legacy record is translated, which way the wheel column scrolls, and when the share link is
    written to the address bar. Storage is a map from key to text, read and returned as a value. */
module LoadGlue {
  import opened Wrappers
  import opened Collections
  import opened Wheels
  import opened Json
  import opened IndexReducer
  import IndexCodec
  import SpinPolicy

  type Storage = map<string, string>

  const LocalStorageKey: string := "wheel_state"
  const LegacyKey: string := "wheels"
  const ShareLimit: nat := 1024

  /** The legacy record as `JSON.parse` reads it: the wheels and the optional selected id. */
  datatype LegacyState = LegacyState(wheels: seq<Wheel>, selectedWheelId: Option<Id>)

  /** The stored text of a key when it is truthy, that is present and not empty. */
  function Stored(storage: Storage, key: string): Option<string> {
    if key in storage && storage[key] != "" then Some(storage[key]) else None
  }

  /** The translation inside `getLegacyStateFromLocalStorage`: only a truthy selected id gives a
      state, whose position is where that id is found (`-1` when it is not). */
  function Translate(data: LegacyState): Option<State> {
    match data.selectedWheelId
    case Some(id) =>
      if id != "" then Some(State(data.wheels, WheelIndex(data.wheels, id), None, false)) else None
    case None => None
  }

  /** `getLegacyStateFromLocalStorage`, with `parse` standing for `JSON.parse` (`None` when it throws
      or the value has no wheel list); the legacy key is removed before parsing. */
  function LegacyLoad(storage: Storage, parse: string -> Option<LegacyState>): (Option<State>, Storage) {
    match Stored(storage, LegacyKey)
    case None => (None, storage)
    case Some(text) =>
      var loaded := match parse(text) case None => None case Some(data) => Translate(data);
      (loaded, storage - {LegacyKey})
  }

  /** `getStateFromLocalStorage`, with `parse` standing for decompression and `JSON.parse`. */
  function LocalLoad(storage: Storage, parse: string -> Option<Json>, ids: nat -> Id): Option<State> {
    match Stored(storage, LocalStorageKey)
    case None => None
    case Some(text) => IndexCodec.Deserialize(parse(text), ids)
  }

  /** `getStateFromQueryString`, given the `wheels` parameter when it is a single string. */
  function QueryLoad(query: Option<string>, parse: string -> Option<Json>, ids: nat -> Id): Option<State> {
    match query
    case Some(text) => if text != "" then IndexCodec.Deserialize(parse(text), ids) else None
    case None => None
  }

  /** The startup effect: the query string, else the current record, else the legacy one; the
      result (when there is one) replaces the state. Also returns the storage afterwards. */
  function InitialLoad(query: Option<string>, storage: Storage, parse: string -> Option<Json>,
                       parseLegacy: string -> Option<LegacyState>, ids: nat -> Id): (Option<State>, Storage) {
    var fromQuery := QueryLoad(query, parse, ids);
    if fromQuery.Some? then (fromQuery, storage)
    else
      var fromLocal := LocalLoad(storage, parse, ids);
      if fromLocal.Some? then (fromLocal, storage)
      else LegacyLoad(storage, parseLegacy)
  }

  /** Sources are tried in order and the first that loads wins; storage changes only when the legacy
      record is reached, and then exactly by losing its key, whether or not it parses. */
  lemma InitialLoadPriority(query: Option<string>, storage: Storage, parse: string -> Option<Json>,
                            parseLegacy: string -> Option<LegacyState>, ids: nat -> Id)
    ensures var (loaded, after) := InitialLoad(query, storage, parse, parseLegacy, ids);
      var q := QueryLoad(query, parse, ids);
      var l := LocalLoad(storage, parse, ids);
      (q.Some? ==> loaded == q && after == storage) &&
      (q.None? && l.Some? ==> loaded == l && after == storage) &&
      (q.None? && l.None? ==> (loaded == LegacyLoad(storage, parseLegacy).0 &&
        after == if Stored(storage, LegacyKey).Some? then storage - {LegacyKey} else storage)) &&
      (LocalStorageKey in after <==> LocalStorageKey in storage) &&
      (loaded.None? ==> LegacyKey !in after || storage[LegacyKey] == "")
  {
  }

  /** A translated legacy record keeps its wheels and selects the position of its selected id, which
      is a valid selection exactly when some wheel carries that id. */
  lemma TranslateSelects(data: LegacyState)
    ensures var r := Translate(data);
      (r.Some? <==> data.selectedWheelId.Some? && data.selectedWheelId.value != "") &&
      (r.Some? ==> (r.value.wheels == data.wheels && !r.value.showDataUrl && r.value.prevSelectedWheelIndex == None &&
        (ValidSelection(r.value) <==> HasWheel(data.wheels, data.selectedWheelId.value)) &&
        (ValidSelection(r.value) ==> data.wheels[r.value.selectedWheelIndex].id == data.selectedWheelId.value)))
  {
    if data.selectedWheelId.Some? && data.selectedWheelId.value != "" {
      var id := data.selectedWheelId.value;
      if HasWheel(data.wheels, id) {
        var k :| 0 <= k < |data.wheels| && data.wheels[k].id == id;
        assert WheelIndex(data.wheels, id) != -1;
      }
    }
  }

  datatype Direction = Down | Up

  /** `scrollDirection`: none when there is no previous position or it has not changed, down when
      the selection moved to a later position, up when it moved to an earlier one. */
  function ScrollDirection(prev: Option<int>, current: int): Option<Direction> {
    match prev
    case None => None
    case Some(p) => if p == current then None else if p < current then Some(Down) else Some(Up)
  }

  /** Creating a wheel from a valid selection scrolls down to it. */
  lemma CreateWheelScrollsDown(st: State, id: Id)
    requires ValidSelection(st)
    ensures var r := IndexReducer.CreateWheel(st, id);
      ScrollDirection(r.prevSelectedWheelIndex, r.selectedWheelIndex) == Some(Down)
  {
  }

  /** Deleting a wheel never scrolls down: the position stays or moves up by one when the last
      position disappears. */
  lemma DeleteWheelNeverScrollsDown(st: State, id: Id)
    requires ValidSelection(st) && IndexReducer.DeleteWheel(st, id).Ok?
    ensures var r := IndexReducer.DeleteWheel(st, id).value;
      ScrollDirection(r.prevSelectedWheelIndex, r.selectedWheelIndex) != Some(Down) &&
      (ScrollDirection(r.prevSelectedWheelIndex, r.selectedWheelIndex) == Some(Up) <==>
        st.selectedWheelIndex == |st.wheels| - 1)
  {
  }

  /** Among distinct ids, selecting a wheel scrolls down exactly when it lies after the selected one,
      up when it lies before, and not at all when it is the selected one. */
  lemma SelectWheelScrolls(st: State, k: int)
    requires ValidSelection(st) && UniqueWheelIds(st.wheels) && 0 <= k < |st.wheels|
    ensures var r := IndexReducer.SelectWheel(st, st.wheels[k].id);
      r.Ok? &&
      (ScrollDirection(r.value.prevSelectedWheelIndex, r.value.selectedWheelIndex) == Some(Down) <==> k > st.selectedWheelIndex) &&
      (ScrollDirection(r.value.prevSelectedWheelIndex, r.value.selectedWheelIndex) == Some(Up) <==> k < st.selectedWheelIndex)
  {
    WheelIndexOfUnique(st.wheels, k);
  }

  /** The wheel page's next-wheel button selects the wheel after the selected one, so the column
      scrolls down. */
  lemma NextWheelScrollsDown(st: State)
    requires ValidSelection(st) && UniqueWheelIds(st.wheels)
    requires SpinPolicy.NextWheel(st.wheels, st.wheels[st.selectedWheelIndex].id).Some?
    ensures var r := IndexReducer.SelectWheel(st, SpinPolicy.NextWheel(st.wheels, st.wheels[st.selectedWheelIndex].id).value);
      r.Ok? && ScrollDirection(r.value.prevSelectedWheelIndex, r.value.selectedWheelIndex) == Some(Down)
  {
    WheelIndexOfUnique(st.wheels, st.selectedWheelIndex);
    SelectWheelScrolls(st, st.selectedWheelIndex + 1);
  }

  /** The share link is put in the address bar only when sharing is on and the serialized text is
      non-empty and at most 1024 characters; otherwise the query string is cleared (`None`). */
  function ShareQuery(showDataUrl: bool, serialized: string): Option<string> {
    if showDataUrl && serialized != "" && |serialized| <= ShareLimit then Some(serialized) else None
  }

  /** A link is shared exactly when sharing is on and the text has 1 to 1024 characters, and what
      is shared is the serialized text itself; a text one character too long is not. */
  lemma ShareQueryBound(showDataUrl: bool, serialized: string)
    ensures ShareQuery(showDataUrl, serialized).Some? <==> showDataUrl && 1 <= |serialized| <= 1024
    ensures ShareQuery(showDataUrl, serialized).Some? ==> ShareQuery(showDataUrl, serialized).value == serialized
    ensures |serialized| == 1025 ==> ShareQuery(showDataUrl, serialized).None?
  {
  }
}
