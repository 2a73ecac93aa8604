# Wheel of choosing: the wheel state machine, its segment reconciler and its save codec

Wheel of choosing is a web app. It shows one or more wheels, and each wheel carries named segments.
A spin picks an eligible segment as the winner. The previous winner is then "removed" and sits out
until the wheel is reset. This project models the logic under the user interface, in Dafny:

- **The reducers.** One revision points at the selected wheel by position
  (`src/services/wheel-reducer.ts`, module `IndexReducer`). Three point at it by id:
  - `src/service/wheel-reducer.ts`, module `IdReducer`;
  - the `reducer` switch of `client/src/components/use-wheels.ts`, module `ClientReducer`;
  - the earliest switch, `src/components/use-wheels.ts`, module `OldestReducer`.

  The entities they share (segments, wheels, the per-segment spin and reset maps) live in `Wheels`.
  The array helpers `updateItemInArray` and `deleteItemFromArray`, and `findIndex`/`filter`, live in
  `Collections`.
- **`mergeSegments`** (module `Merge`). It maps an edited list of labels onto the existing segments.
  - The first pass binds exact label matches.
  - The second pass fills each open position with the first leftover segment, renamed, or else
    with a fresh segment.

  It is specified by two recursive functions. The source's imperative version (a copied pool that is
  spliced, a results array written by index, a list of open positions) is the method
  `MergeSegmentsInPlace`, proved equal to them.
- **The save codec.** Three revisions:
  - the index-based `src/services/serialize-wheel-state.ts` (`IndexCodec`);
  - the id-based `client/src/components/serialize-wheel-state.ts` (`ClientCodec`);
  - the earliest unversioned `client/src/components/serializeWheelState.ts` (`EarliestCodec`).

  Their shared saved shape `{v, i, w: [{l, s}]}` lives in `SavedForm`:
  - the rule for saved labels (blank labels dropped, the rest trimmed);
  - hydration with fresh ids;
  - the JSON form and its JSON Type Definition schema (RFC 8927, module `Json`).

  Text helpers (JavaScript's `trim`, `split`, `join`) are in `Text`.
- **The name-list editor** (`src/components/ListPanel/NameList.tsx`, module `NameList`). Labels are
  joined into the textarea, split on change and tidied on blur.
- **The spin policy of the wheel panel** (`src/components/WheelPanel/index.tsx` and
  `src/components/MainPage.tsx`, modules `SpinPolicy` and `MainPage`):
  - the eligible pool and the skip-name filter;
  - the next-wheel and reset buttons;
  - the scroll direction picked by the main page.
- **The load-time glue** of `src/services/use-wheels.ts` (module `LoadGlue`):
  - the priority of query string, then local record, then legacy record;
  - the legacy translation;
  - `scrollDirection`;
  - the 1024-character share rule.

Non-determinism becomes parameters:
- `uuid()` is a fresh id (`freshId`) for a reducer, and an id supply `ids: nat -> Id` for a decoder;
  the decoder draws them wheel first, then its segments;
- `Math.random` is the chosen index `r`;
- the skip pattern's `RegExp` is an abstract test carried by `SkipRule`.

A JavaScript `throw`, including a `TypeError` from reading a property of `undefined`, becomes
`Err(fault)` of a `Result`. A catch that yields `null` becomes `None`.

## Model

| member | source | states |
|---|---|---|
| Collections.FindIndex | src/services/wheel-reducer.ts:34-46 | The first position whose element passes the test, or -1 exactly when none passes (`findIndex`). |
| Collections.Filter | src/services/serialize-wheel-state.ts:59 | The result holds only elements that pass, and every passing element of the input is in it. |
| Collections.FilterAppend | src/services/serialize-wheel-state.ts:59 | Filtering distributes over concatenation, so filtering keeps the order of the input. |
| Collections.FilterAll | src/components/WheelPanel/index.tsx:75-79 | Filtering with a test every element passes changes nothing. |
| Collections.FilterNone | src/components/WheelPanel/index.tsx:75-79 | Filtering with a test no element passes leaves nothing. |
| Collections.Map | src/services/serialize-wheel-state.ts:60 | `map`: one result per element, each the function applied to the element at the same position. |
| Collections.MapAppend | src/services/serialize-wheel-state.ts:60 | Mapping distributes over concatenation. |
| Collections.RemoveAt | src/services/wheel-reducer.ts:34-46 | `splice(index, 1)`: one element shorter, earlier elements kept, later ones shifted down by one. |
| Collections.UpdateWhere | src/services/wheel-reducer.ts:24-32 | `updateItemInArray`: a matching element is replaced by its update and every other element is kept, at the same position. |
| Collections.DeleteFirst | src/services/wheel-reducer.ts:34-46 | `deleteItemFromArray`: fails with "Item not found" exactly when no element matches; otherwise removes the first matching element. |
| Text.TrimStart | src/services/serialize-wheel-state.ts:59-60 | Removes exactly a blank prefix and leaves a non-whitespace first character. |
| Text.TrimEnd | src/services/serialize-wheel-state.ts:59-60 | Removes exactly a blank suffix and leaves a non-whitespace last character. |
| Text.LeadingBlank | src/services/serialize-wheel-state.ts:59-60 | The length of the leading whitespace: every character before it is whitespace and the one at it is not. |
| Text.TrailingBlank | src/services/serialize-wheel-state.ts:59-60 | Where the trailing whitespace begins: every character from it on is whitespace and the one before it is not. |
| Text.TrimBounds | src/services/serialize-wheel-state.ts:59-60 | `trim()` keeps the slice between the leading and the trailing whitespace, both of which are blank. |
| Text.TrimShape | src/services/serialize-wheel-state.ts:59-60 | `trim()` returns a contiguous slice of the input with only whitespace cut from either end, and its ends are not whitespace. |
| Text.TrimEmptyIffBlank | src/services/serialize-wheel-state.ts:59 | `!!label.trim()` fails exactly for empty or whitespace-only text. |
| Text.TrimStartOfBlank | src/components/ListPanel/NameList.tsx:145 | Blank text trims to empty text. |
| Text.TrimOfTrimmed | src/services/serialize-wheel-state.ts:60 | Trimming text with non-whitespace ends returns it unchanged. |
| Text.TrimIdempotent | src/services/serialize-wheel-state.ts:60 | Trimming twice is trimming once. |
| Text.Split | src/components/ListPanel/NameList.tsx:145 | `split("\n")` yields at least one piece, and no piece contains the separator. |
| Text.FirstIndexOf | src/components/ListPanel/NameList.tsx:145 | The first occurrence of a character, with none before it. |
| Text.JoinSplit | src/components/ListPanel/NameList.tsx:138-145 | Joining the pieces of a split restores the text. |
| Text.SplitJoin | src/components/ListPanel/NameList.tsx:138-145 | Splitting the join of separator-free pieces restores the pieces. |
| Text.JoinBlankIff | src/components/ListPanel/NameList.tsx:138-145 | Joined with a whitespace separator, the text is blank exactly when every piece is blank. |
| Text.TrimKeepsAbsent | src/components/ListPanel/NameList.tsx:156-159 | Trimming never introduces a character that was not there. |
| Text.JoinContains | src/components/ListPanel/NameList.tsx:138 | Every character of every piece appears in the joined text. |
| Text.NatToString | src/services/wheel-reducer.ts:200 | The decimal digits of a number, which read back as that number. |
| Text.DigitChar | src/services/wheel-reducer.ts:200 | The digit character of a value below ten. |
| Text.ParseDigitsSnoc | src/services/wheel-reducer.ts:200 | Reading digits is positional: one more digit multiplies by ten and adds its value. |
| Wheels.EligibleSegmentsEmptyIff | src/services/wheel-reducer.ts:135-141 | The eligible list (neither removed nor selected) is empty exactly when no segment is eligible. |
| Wheels.StartSpinWheel | src/services/wheel-reducer.ts:135-155 | With nothing eligible the wheel is unchanged. Otherwise every segment gets `removed' = removed or selected` and `selected' = (id == winner)`, keeping id and label, and the wheel spins. |
| Wheels.SpinKeepsRemoved | src/services/wheel-reducer.ts:143-155 | A removed segment stays removed, and the previous winner becomes removed whenever the spin happens. |
| Wheels.SpinSelectsOne | src/services/wheel-reducer.ts:143-155 | With unique ids a spin keeps at most one segment selected, and an eligible winner ends selected and not removed. |
| Wheels.WinnersStayIneligible | src/services/wheel-reducer.ts:143-155 | Across any sequence of spins, a segment that has won never becomes eligible again. |
| Wheels.ResetSegments | src/services/wheel-reducer.ts:175-190 | Every segment keeps its id, label and position and becomes eligible. |
| Wheels.DefaultWheelName | src/services/wheel-reducer.ts:200 | `Wheel ${n}`: the prefix "Wheel " followed by decimal digits that read back as n. |
| Wheels.UpdateWheel | src/services/wheel-reducer.ts:24-32 | Wheels with the id get the update; all others are kept in place. |
| Wheels.UpdateSegment | client/src/components/use-wheels.ts:40-48 | Segments with the id get the update; all others are kept in place. |
| Wheels.WheelIndex | src/services/wheel-reducer.ts:259-261 | The first position holding the id, or -1 exactly when none does. |
| Wheels.WheelIndexOfUnique | src/service/wheel-reducer.ts:238-246 | Among distinct ids, the position found for a wheel's id is that wheel's position. |
| Merge.LabelIndex | src/services/wheel-reducer.ts:59-62 | The first leftover segment with exactly the label, or -1 exactly when there is none. |
| Merge.MatchPass | src/services/wheel-reducer.ts:56-69 | The first pass gives one slot per desired label. |
| Merge.MatchPassLabel | src/services/wheel-reducer.ts:59-66 | A slot bound in the first pass holds a segment with exactly that label. |
| Merge.MatchPassConserves | src/services/wheel-reducer.ts:56-69 | The first pass moves segments from the pool into slots without losing or copying any. |
| Merge.FillPass | src/services/wheel-reducer.ts:72-86 | The second pass gives one segment and one origin per desired label. |
| Merge.FillPassAt | src/services/wheel-reducer.ts:72-86 | A bound slot is kept whole. An open slot takes a leftover segment, renamed, or a fresh segment. |
| Merge.FillPassPool | src/services/wheel-reducer.ts:72-86 | The open slots consume a prefix of the leftover pool, in its original order. |
| Merge.MergeLabels | src/services/wheel-reducer.ts:53-88 | Exactly one segment per desired label, and segment i carries label i. |
| Merge.MergeProvenance | src/services/wheel-reducer.ts:53-88 | Each result is an existing segment with only its label replaced, or a fresh segment with the draft id and both flags false. |
| Merge.MergeUsesAtMostOnce | src/services/wheel-reducer.ts:56-86 | No existing segment is used twice (multiset inclusion). |
| Merge.MergeFreshCount | src/services/wheel-reducer.ts:72-86 | The number of fresh segments is max(0, labels - existing). |
| Merge.MergeKeepsAllWhenGrowing | src/services/wheel-reducer.ts:72-86 | With at least as many labels as segments, every existing segment survives (possibly renamed). |
| Merge.MergeRenamesFirstLeftovers | src/services/wheel-reducer.ts:72-77 | The reused leftovers are the first ones of the pool, in pool order. |
| Merge.MergeReusesExactMatch | src/services/wheel-reducer.ts:59-66 | When more existing segments carry label i than earlier positions ask for it, position i reuses such a segment whole (same id and flags); otherwise it is left open by the first pass and its origin, if any, carries another label. |
| Merge.ExactMatchBound | src/services/wheel-reducer.ts:59-66 | With distinct desired labels, one existing segment carrying label i meets the count condition for an exact match. |
| Merge.CountNamed | src/services/wheel-reducer.ts:59-66 | Counts the existing segments carrying a label; never more than the pool size. |
| Merge.CountNamedRemoveAt | src/services/wheel-reducer.ts:63-65 | Taking one segment out of the pool lowers the count of its own label by one and leaves every other label's count. |
| Merge.CountNamedZeroIff | src/services/wheel-reducer.ts:59-66 | A label's count is zero exactly when no segment in the pool carries it. |
| Merge.MatchPassCount | src/services/wheel-reducer.ts:56-69 | After the first pass the pool holds max(0, existing − desired) segments of each label. |
| Merge.MatchSlotIff | src/services/wheel-reducer.ts:59-66 | Position i is bound in the first pass exactly when more existing segments carry its label than earlier positions ask for it. |
| Merge.FillOriginInPool | src/services/wheel-reducer.ts:72-86 | An open position's origin, when it has one, comes from the pool left by the first pass. |
| Merge.OpenSlotTakesOtherLabel | src/services/wheel-reducer.ts:59-86 | When a label is used up, its open position is not given a segment carrying that label. |
| Merge.MatchExisting | src/services/wheel-reducer.ts:53-70 | The first loop (splice out of a copied pool, record the open positions) computes the first pass exactly. |
| Merge.FillMissing | src/services/wheel-reducer.ts:72-86 | The second loop (index writes into the results array) computes the second pass exactly. |
| Merge.FillStep | src/services/wheel-reducer.ts:72-86 | One turn of the second loop writes the next open position exactly as the second pass does. |
| Merge.FillDone | src/services/wheel-reducer.ts:72-86 | Once every open position is written, the results are the second pass. |
| Merge.MergeSegmentsInPlace | src/service/wheel-reducer.ts:50-90 | The imperative `mergeSegments` returns the specified merge. |
| Merge.MatchExample | src/services/wheel-reducer.ts:56-69 | Segments [A "X", B "Y"] matched against "Y", "X", "Z" bind B then A and leave one open slot. |
| Merge.MergeExample | src/services/wheel-reducer.ts:53-88 | The merge of that example keeps B and A whole and adds a fresh "Z". |
| Merge.FillExample | src/services/wheel-reducer.ts:72-86 | The second pass of that example copies B and A and makes a fresh "Z". |
| IndexReducer.Prepare | src/services/wheel-reducer.ts:110-121 | One draft per label, in order, with the k-th fresh id. |
| IndexReducer.UpdateSegments | src/services/wheel-reducer.ts:92-121 | Only the target wheels' segments change, to the merge of the drafts; the selection and the other wheels are kept. |
| IndexReducer.UpdateSegmentsLabels | src/services/wheel-reducer.ts:92-121 | The edited wheel lists exactly the desired labels and keeps its id, label and spinning flag. |
| IndexReducer.StartSpin | src/services/wheel-reducer.ts:123-158 | Only the target wheels spin, as the shared spin map says. |
| IndexReducer.EndSpin | src/services/wheel-reducer.ts:159-174 | Throws exactly when the selected position holds no wheel; otherwise the wheels sharing its id stop spinning and nothing else changes. |
| IndexReducer.ResetWheel | src/services/wheel-reducer.ts:175-190 | The target wheels stop spinning and all their segments become eligible, with ids, labels and order kept; other wheels are unchanged. |
| IndexReducer.CreateWheel | src/services/wheel-reducer.ts:191-216 | Appends an empty wheel labelled "Wheel n+1", selects it and remembers the previous position. |
| IndexReducer.UpdateWheelName | src/services/wheel-reducer.ts:217-230 | Only the label of the wheels with the id changes. |
| IndexReducer.DeleteWheel | src/services/wheel-reducer.ts:231-252 | Refuses the last wheel, throws for an unknown id, and otherwise removes the wheel and clamps the position to min(old, new length - 1). |
| IndexReducer.DeleteWheelKeepsSelectionValid | src/services/wheel-reducer.ts:238-244 | A valid position stays valid after a delete. |
| IndexReducer.SelectWheel | src/services/wheel-reducer.ts:253-269 | Throws when the current position holds no wheel. Otherwise the previous wheel stops spinning and the position becomes that of the first wheel with the id. |
| IndexReducer.SelectWheelValidIff | src/services/wheel-reducer.ts:253-269 | The new position is valid exactly when a wheel has the id, and is -1 otherwise. |
| IndexReducer.ReplaceState | src/services/wheel-reducer.ts:270-273 | The payload becomes the state. |
| IndexReducer.SetShowDataUrl | src/services/wheel-reducer.ts:274-279 | Only the sharing flag changes. |
| IndexReducer.UpdatesKeepWheelIds | src/services/wheel-reducer.ts:92-230 | Every case that neither adds nor removes wheels keeps each wheel's id at its position. |
| IndexReducer.SameWheelIdsKeepInvariants | src/services/wheel-reducer.ts:92-230 | Keeping ids and the position keeps the ids unique and the position valid. |
| IndexReducer.CreateWheelKeepsIdsUnique | src/services/wheel-reducer.ts:191-216 | A new wheel with an unused id keeps the wheel ids unique. |
| IndexReducer.DeleteWheelKeepsIdsUnique | src/services/wheel-reducer.ts:231-252 | Deleting keeps the wheel ids unique. |
| IndexReducer.DeleteBeforeSelectedMovesSelection | src/services/wheel-reducer.ts:238-244 | As written: with A, B, C and B selected, deleting A leaves C selected. |
| IndexReducer.DeleteWheelKeepingSelection | src/services/wheel-reducer.ts:231-252 | Corrected delete: the same failures, the same removal and the same remembered position. |
| IndexReducer.DeleteWheelKeepingSelectionSelects | src/services/wheel-reducer.ts:238-244 | Corrected delete: the position stays valid, and the selected wheel stays selected whenever another wheel is deleted. |
| IdReducer.UpdateSelected | src/service/wheel-reducer.ts:26-34 | `updateItemInArray` with an optional id: only the selected wheel is updated, and an absent selection matches nothing. |
| IdReducer.StopSpinning | src/service/wheel-reducer.ts:159-174 | The wheel ends not spinning, otherwise unchanged. |
| IdReducer.UpdateSegments | src/service/wheel-reducer.ts:93-122 | Only the target wheels' segments change, to the merge of the drafts. |
| IdReducer.UpdateSegmentsLabels | src/service/wheel-reducer.ts:50-122 | The edited wheel lists exactly the desired labels. Each segment is an existing one relabelled or a fresh one. |
| IdReducer.StartSpin | src/service/wheel-reducer.ts:123-158 | Only the target wheels spin, as the shared spin map says. |
| IdReducer.EndSpin | src/service/wheel-reducer.ts:159-174 | Only the selected wheel is touched, and it only stops spinning. |
| IdReducer.ResetWholeWheel | src/service/wheel-reducer.ts:175-190 | The wheel stops spinning and every segment becomes eligible, with ids and labels kept. |
| IdReducer.ResetWheel | src/service/wheel-reducer.ts:175-190 | Only the wheels with the id are reset. |
| IdReducer.CreateWheel | src/service/wheel-reducer.ts:191-215 | Appends `{id, "Wheel n+1", [], false}` and makes its id the selection. |
| IdReducer.UpdateWheelName | src/service/wheel-reducer.ts:216-229 | Only the label of the wheels with the id changes. |
| IdReducer.DeleteWheel | src/service/wheel-reducer.ts:230-253 | Refuses the last wheel and throws for an unknown id. Deleting another wheel keeps the selection; deleting the selected one selects the wheel at min(deleted position, new length - 1). |
| IdReducer.DeleteWheelKeepsSelectionValid | src/service/wheel-reducer.ts:238-246 | A selection naming a wheel still names one after a delete. |
| IdReducer.SelectWheel | src/service/wheel-reducer.ts:254-265 | The previously selected wheel stops spinning and the id becomes the selection, unchecked. |
| IdReducer.SelectWheelValidIff | src/service/wheel-reducer.ts:254-265 | The selection names a wheel afterwards exactly when some wheel has the id. |
| IdReducer.ReplaceState | src/service/wheel-reducer.ts:266-272 | The payload becomes the state. |
| IdReducer.SameWheelIdsKeepInvariants | src/service/wheel-reducer.ts:93-229 | Keeping ids and the selection keeps the ids unique and the selection valid. |
| IdReducer.UpdatesKeepWheelIds | src/service/wheel-reducer.ts:93-265 | Every case that neither adds nor removes wheels keeps each wheel's id at its position. |
| IdReducer.CreateAndDeleteKeepIdsUnique | src/service/wheel-reducer.ts:191-253 | Creating with an unused id, and deleting, keep the wheel ids unique. |
| ClientReducer.CreateSegmentIn | client/src/components/use-wheels.ts:66-81 | The named wheel gains exactly one eligible segment with the label and the fresh id at its end; other wheels are untouched. |
| ClientReducer.UpdateSegmentIn | client/src/components/use-wheels.ts:82-96 | The matching segment takes the label and loses its removed flag; all other segments are unchanged. |
| ClientReducer.DeleteSegmentFrom | client/src/components/use-wheels.ts:50-62 | `deleteItemFromArray` on a wheel's segments: "Item not found" exactly when no segment has the id; otherwise only the first segment with the id is removed. |
| ClientReducer.DeleteSegmentInWheels | client/src/components/use-wheels.ts:97-107 | Throws "Item not found" exactly when a wheel with the id lacks the segment; otherwise each such wheel loses that segment and every other wheel is kept. |
| ClientReducer.DeleteSegmentIn | client/src/components/use-wheels.ts:97-107 | DELETE_SEGMENT: fails exactly when the segment is absent; the selection and other wheels are kept. |
| ClientReducer.DeleteSegmentRemovesOne | client/src/components/use-wheels.ts:97-107 | Exactly the matching segment is removed and the rest keep their order. |
| ClientReducer.StartSpinSelected | client/src/components/use-wheels.ts:108-140 | START_SPIN spins the selected wheel only (a no-op when nothing is eligible). |
| ClientReducer.CreateNamedWheel | client/src/components/use-wheels.ts:173-189 | CREATE_WHEEL uses the label, or "Wheel n+1" for an empty one, and selects the new wheel. |
| ClientReducer.Reduce | client/src/components/use-wheels.ts:64-241 | An unknown action throws. Only DELETE_SEGMENT, DELETE_WHEEL and unknown actions can fail. |
| ClientReducer.ReduceKeepsInvariants | client/src/components/use-wheels.ts:64-241 | Every action keeps the wheel ids unique and the selection valid, given a fresh id and a selected id that exists. |
| ClientReducer.WheelActionKeepsInvariants | client/src/components/use-wheels.ts:173-241 | CREATE_WHEEL, DELETE_WHEEL and SELECT_WHEEL keep the ids unique and the selection valid. |
| ClientReducer.SegmentActionKeepsInvariants | client/src/components/use-wheels.ts:66-200 | The segment, spin, reset and rename actions keep the ids unique and the selection valid. |
| ClientReducer.SelectKeepsInvariants | client/src/components/use-wheels.ts:226-236 | Selecting an existing wheel gives a valid selection with unique ids. |
| ClientReducer.CreateWheelKeepsInvariants | client/src/components/use-wheels.ts:173-189 | A wheel created with an unused id keeps the ids unique and is validly selected. |
| ClientReducer.DeleteSegmentKeepsInvariants | client/src/components/use-wheels.ts:97-107 | A successful DELETE_SEGMENT keeps the ids unique and the selection valid. |
| ClientReducer.KeepsInvariants | client/src/components/use-wheels.ts:66-200 | Keeping ids and the selection keeps both invariants. |
| ClientReducer.StripTransient | client/src/components/use-wheels.ts:248-262 | The saved state has nothing spinning and no segment selected or removed, with ids and labels unchanged. |
| ClientReducer.StripTransientIdempotent | client/src/components/use-wheels.ts:248-262 | Stripping a stripped state changes nothing. |
| OldestReducer.SpinWithIndex | src/components/use-wheels.ts:106-147 | Without eligible segments nothing happens. An index outside the eligible list throws. Otherwise the eligible segment at the index wins. |
| OldestReducer.SpinWithIndexPicksEligible | src/components/use-wheels.ts:114-144 | The winner was eligible and ends selected and not removed. The previous winner is removed, no other segment is selected, and the wheel spins. |
| OldestReducer.SpinSelected | src/components/use-wheels.ts:106-147 | Only the selected wheels spin. Fails exactly when one of their indexes is out of range. |
| OldestReducer.RelabelSegment | src/components/use-wheels.ts:81-94 | UPDATE_SEGMENT changes only the label and keeps both flags. |
| OldestReducer.ResetSegmentsOnly | src/components/use-wheels.ts:164-178 | RESET_WHEEL clears the segment flags but leaves the spinning flag as it was. |
| OldestReducer.Reduce | src/components/use-wheels.ts:63-242 | An unknown action throws. SELECT_WHEEL changes only the selected id. Only deletes, START_SPIN and unknown actions can fail. |
| OldestReducer.StartSpinWinnerEligible | src/components/use-wheels.ts:114-144 | With an index in range, START_SPIN succeeds and spins the selected wheel towards an eligible segment of it. |
| Json.Conforms | src/services/serialize-wheel-state.ts:23-44 | JSON Type Definition acceptance for the type (string, int32), elements and properties forms. |
| SavedForm.TrimAll | src/services/serialize-wheel-state.ts:60 | Each label trimmed, in order. |
| SavedForm.SegmentNames | src/services/serialize-wheel-state.ts:58 | The labels of the segments, in order. |
| SavedForm.SaveWheels | src/services/serialize-wheel-state.ts:55-62 | One saved wheel per wheel, in order. |
| SavedForm.KeptLabelsClean | src/services/serialize-wheel-state.ts:58-60 | Every saved label is non-empty and already trimmed. |
| SavedForm.KeptLabelsOfClean | src/services/serialize-wheel-state.ts:58-60 | Labels that are already clean are saved unchanged. |
| SavedForm.KeptLabelsIdempotent | src/services/serialize-wheel-state.ts:58-60 | Saving saved labels changes nothing. |
| SavedForm.KeptLabelsAppend | src/services/serialize-wheel-state.ts:58-60 | The rule works label by label and keeps the original order. |
| SavedForm.KeptLabelsSingle | src/services/serialize-wheel-state.ts:59-60 | A blank label is dropped and any other label is trimmed. |
| SavedForm.FreshWheel | src/services/serialize-wheel-state.ts:68-79 | A loaded wheel takes the next id, its segments the ids after it, with the saved labels and every flag false. |
| SavedForm.FreshWheelsAt | src/services/serialize-wheel-state.test.ts:34-42 | Wheel k takes its ids after all the ids of the wheels before it. |
| SavedForm.FreshWheelsShape | src/services/serialize-wheel-state.ts:68-84 | Loaded wheels keep their saved labels and segment labels, and every transient flag is false. |
| SavedForm.FreshWheelsOfSaved | src/services/serialize-wheel-state.ts:49-86 | Loading saved wheels keeps each wheel label and its non-blank segment labels, trimmed and in order, and clears every flag. |
| SavedForm.SaveFreshWheels | src/services/serialize-wheel-state.ts:49-86 | Saving the wheels loaded from a save gives that save again. |
| SavedForm.StartIncreases | src/services/serialize-wheel-state.test.ts:34-42 | Each later wheel starts after the ids of every earlier wheel and its segments. |
| SavedForm.StartAtLeast | src/services/serialize-wheel-state.test.ts:34-42 | No wheel draws an id before the first one offered. |
| SavedForm.FreshIdsDistinct | src/services/serialize-wheel-state.ts:68-79 | From a supply that never repeats, every loaded wheel and segment id is distinct. |
| SavedForm.PropertyNames2 | src/services/serialize-wheel-state.ts:28-37 | The properties of a two-member form are exactly its two names. |
| SavedForm.PropertyNames3 | src/services/serialize-wheel-state.ts:23-44 | The properties of a three-member form are exactly its three names. |
| SavedForm.WheelSchemaIff | src/services/serialize-wheel-state.ts:27-39 | A value passes the wheel schema exactly when it is an object holding only a string `l` and an array `s` of strings. |
| SavedForm.SavedSchemaIff | src/services/serialize-wheel-state.ts:23-44 | A value passes the schema exactly when it holds only a string `v`, an int32 `i` and an array `w` of saved wheels. |
| SavedForm.SavedJsonConforms | src/services/serialize-wheel-state.ts:23-44 | What is written passes the schema exactly when `i` is int32; neither the version text nor the range of `i` within `w` is checked. |
| SavedForm.SavedJsonRoundTrip | src/services/serialize-wheel-state.ts:91-114 | Reading back what was written (with an int32 `i`) gives the saved record. |
| IndexCodec.DeserializeWritten | src/services/serialize-wheel-state.ts:98-120 | A written state loads exactly when it has a wheel and an int32 position, and loads as the hydration of its saved form. |
| IndexCodec.RoundTrip | src/services/serialize-wheel-state.test.ts:44-74 | Loading what was written keeps the wheel count, the wheel labels, the saved (trimmed, non-blank) segment labels and the position; all flags are false and sharing is off. |
| IndexCodec.RoundTripCleanLabels | src/services/serialize-wheel-state.ts:49-86 | When every label is already clean, the segment labels survive unchanged. |
| IndexCodec.SerializeStable | src/services/serialize-wheel-state.ts:49-95 | Writing a state loaded from a written JSON value writes the same JSON value again. |
| IndexCodec.DeserializeFreshIds | src/services/serialize-wheel-state.ts:66-86 | From a non-repeating id supply, loaded wheel ids and the segment ids within each wheel are distinct. |
| IndexCodec.DeserializeRejects | src/services/serialize-wheel-state.ts:106-114 | A value whose `i` is not int32 loads as `null`. |
| IndexCodec.DeserializeKeepsOutOfRangePosition | src/services/serialize-wheel-state.ts:83 | A saved position beyond the wheel list is loaded as it is and points at no wheel. |
| IndexCodec.HydrateExample | src/services/serialize-wheel-state.test.ts:34-74 | With the counter id supply, the wheel gets "uuid-1" and its segments "uuid-2" and "uuid-3". |
| IndexCodec.DeserializeExample | src/services/serialize-wheel-state.test.ts:44-74 | The full loaded state of that example. |
| ClientCodec.SelectedPosition | client/src/components/serialize-wheel-state.ts:50 | The position of the first wheel with the selected id, or -1 exactly when none has it. |
| ClientCodec.DeserializeWritten | client/src/components/serialize-wheel-state.ts:85-118 | Read back as the JSON value it wrote, a state loads exactly when its selected wheel exists; what loads is the hydration of what was written. |
| ClientCodec.DeserializeSelects | client/src/components/serialize-wheel-state.ts:61-118 | Whatever loads selects an existing wheel and is not spinning. |
| ClientCodec.HydrateEncoded | client/src/components/serialize-wheel-state.ts:44-80 | Hydrating a saved state keeps the wheel labels and the saved segment labels, clears every flag and selects the wheel at the saved position. |
| ClientCodec.HydratedWheelsSaveAlike | client/src/components/serialize-wheel-state.ts:44-80 | The hydrated wheels save to the same saved wheels. |
| ClientCodec.HydratedSelectionAtSavedPosition | client/src/components/serialize-wheel-state.ts:44-80 | The hydrated selection sits at the same position as before. |
| ClientCodec.HydrateStable | client/src/components/serialize-wheel-state.ts:44-80 | Saving the hydrated state gives the same saved record. |
| ClientCodec.RoundTrip | client/src/components/serialize-wheel-state.ts:44-118 | Loading the JSON value that was written keeps the wheel count, wheel labels and saved segment labels, and selects the wheel at the saved position. |
| ClientCodec.SerializeStable | client/src/components/serialize-wheel-state.ts:85-118 | Writing a state loaded from a written JSON value writes the same JSON value again. |
| ClientCodec.DeserializeFreshIds | client/src/components/serialize-wheel-state.ts:61-80 | From a non-repeating id supply, loaded wheel ids and the segment ids within each wheel are distinct. |
| EarliestCodec.DeserializeFailsIff | client/src/components/serializeWheelState.ts:47-68 | Decoding fails, and the failure reaches the caller, exactly when `i` is not a position in `w`. |
| EarliestCodec.DeserializeWritten | client/src/components/serializeWheelState.ts:15-68 | A written state reads back exactly when its selected wheel exists. |
| EarliestCodec.DeserializeIsClientHydrate | client/src/components/serializeWheelState.ts:15-50 | The unversioned mapping reads back exactly as the versioned one hydrates. |
| EarliestCodec.RoundTrip | client/src/components/serializeWheelState.ts:15-50 | Reading back keeps the wheel count, wheel labels and saved segment labels, and selects the wheel at the saved position. |
| EarliestCodec.SerializeStable | client/src/components/serializeWheelState.ts:15-61 | Writing a read-back state writes the same record again. |
| NameList.TrimEach | src/components/ListPanel/NameList.tsx:156-158 | Each non-empty line is trimmed, in order. |
| NameList.NamesChangedLines | src/components/ListPanel/NameList.tsx:145 | On change, blank text gives no labels; other text gives its lines, blank ones included, and joining them restores the text. |
| NameList.NamesRoundTrip | src/components/ListPanel/NameList.tsx:137-145 | With no label holding a newline, splitting the shown text gives the labels back exactly when there are none or some label is not blank. |
| NameList.BlurredIsKeptLabels | src/components/ListPanel/NameList.tsx:152-164 | On blur, the labels are those the save codec would keep from the lines. |
| NameList.TrimThenFilter | src/components/ListPanel/NameList.tsx:156-159 | Trimming then dropping empty lines is dropping blank lines then trimming. |
| NameList.BlurredClean | src/components/ListPanel/NameList.tsx:156-159 | Every label after blur is non-empty, trimmed and free of newlines. |
| NameList.BlurredOfBlank | src/components/ListPanel/NameList.tsx:156-159 | Blank text gives no labels on blur. |
| NameList.BlurredStable | src/components/ListPanel/NameList.tsx:137-159 | Blurring the text shown for blurred labels gives the same labels. |
| SpinPolicy.SpinPoolShape | src/components/WheelPanel/index.tsx:67-79 | Candidates are eligible segments. The pool is empty only when nothing is eligible. When some eligible segment is not skipped, the pool is exactly the eligible segments that are not skipped. |
| SpinPolicy.SpinStartWinner | src/components/WheelPanel/index.tsx:67-92 | With an index in range, a winner is dispatched exactly when not spinning and something is eligible. It is an eligible segment, not skipped unless every candidate is. |
| SpinPolicy.SpinStartCanPickAny | src/components/WheelPanel/index.tsx:81-89 | Every eligible, unskipped segment is the winner for some index. |
| SpinPolicy.SpinStartThenSpin | src/components/WheelPanel/index.tsx:81-89 | The dispatched spin selects exactly the chosen eligible segment and starts the wheel. |
| SpinPolicy.VisibleSegmentsExact | src/components/WheelPanel/index.tsx:62-65 | The drawn segments are exactly the non-removed ones, in order. |
| SpinPolicy.CanResetIff | src/components/WheelPanel/index.tsx:109-111 | The reset button is offered exactly when some segment is removed or selected, that is, when a reset would change something. |
| SpinPolicy.NextWheelIff | src/components/WheelPanel/index.tsx:101-114 | Next-wheel moves exactly when the selected wheel exists and is not last, and then to the wheel after it. For an unknown selected id the button shows on any non-empty list. |
| MainPage.SelectDirectionFollowsPosition | src/components/MainPage.tsx:155-165 | Among distinct ids, selecting scrolls down exactly when the target lies after the current wheel. |
| MainPage.DeleteDirectionFollowsSelection | src/components/MainPage.tsx:167-177 | Deleting the selected wheel scrolls down exactly when the next wheel becomes the selection, and up when the previous one does. Deleting another wheel keeps the direction and the selection. |
| MainPage.NextWheelDirectionAgrees | src/components/MainPage.tsx:186-195 | Next-wheel scrolls the way selecting that wheel would. |
| MainPage.CreateDirectionAgrees | src/components/MainPage.tsx:150-153 | A new wheel is appended after the selected one, so scrolling down is right. |
| LoadGlue.InitialLoadPriority | src/services/use-wheels.ts:68-78 | Query string, then local record, then legacy record. Storage changes only by losing the legacy key, when that source is reached. |
| LoadGlue.TranslateSelects | src/services/use-wheels.ts:22-44 | A legacy record translates only with a truthy selected id. The wheels are kept and the position is that of the id, valid exactly when a wheel has it. |
| LoadGlue.CreateWheelScrollsDown | src/services/use-wheels.ts:89-97 | After creating a wheel the scroll direction is down. |
| LoadGlue.DeleteWheelNeverScrollsDown | src/services/use-wheels.ts:89-97 | After deleting a wheel the direction is never down, and is up exactly when the last position was selected. |
| LoadGlue.SelectWheelScrolls | src/services/use-wheels.ts:89-97 | Selecting a later wheel scrolls down, an earlier one up. |
| LoadGlue.NextWheelScrollsDown | src/services/use-wheels.ts:89-97 | Moving to the next wheel scrolls down. |
| LoadGlue.ShareQueryBound | src/services/use-wheels.ts:107-114 | The link carries the serialized text exactly when sharing is on and the text is 1 to 1024 characters long; otherwise the query string is cleared. |

## Left out

- Compression, text and URLs: the `lzutf8` compression, the Base64 text form (RFC 4648 section 4),
  `encodeURIComponent`/`decodeURI` and `JSON.parse`/`JSON.stringify` are library calls outside
  this model.
  - The codecs stop at a JSON value.
  - A failure of parsing or decompression is the input `None`.
  - For the earliest codec, that failure is the fault `ParseFailure`, which reaches the caller.
- `uuid()`, `Math.random` and `getRandomInteger`:
  - fresh ids and the chosen index are parameters;
  - the floating-point `shufflePosition` of the reducers' `mergeSegments` is not modelled.
- The skip pattern's `RegExp` is the abstract test of `SkipRule`. Reading it from the environment
  is not modelled.
- Colours, segment geometry, spin-angle maths, animations and styling components are left out:
  they are floating point and UI.
- I/O and scheduling are left out, because they are effects outside the state logic:
  - `window.localStorage` writes, browser history, `debounce` timing and the React/Redux hooks;
  - the `console.log`/`console.error` calls.
- The module-level default states, each built with a `uuid()`, are not modelled; they are the
  `None` case of the loaders.
- The record field `label` is called `name` in the model, because `label` is a reserved word in
  Dafny.
- Optional fields are read as the source reads them (`!!label`, `|| 0`), but values of the wrong
  JavaScript type that reach unvalidated paths (the legacy record, the earliest codec) are not
  modelled: their input is already typed.
- `const selectedWheel = wheels[selectedWheelIndex]` in `src/services/use-wheels.ts` is not
  modelled. For an invalid position it is `undefined`; `IndexCodec.DeserializeKeepsOutOfRangePosition`
  and `IndexReducer.SelectWheelValidIff` show when that happens.
- `IndexReducer.State` has no top-level `isSpinning`: the field exists only in that revision's
  default state, and no case reads or writes it.
- IndexReducer.Prepare: the fresh ids of `updateSegments.prepare` come from the supply `ids`,
  indexed by position, rather than from successive `uuid()` calls.
- OldestReducer.SpinSelected: when several wheels share the selected id, they all use the one index
  `r`, although the source draws a separate random index per wheel.
- ClientCodec.DeserializeWritten: a state whose selected id names no wheel writes `i = -1`, so its
  own saved link does not load. This is stated, not corrected: the reducers only produce such a
  state when selecting an unknown id.
- ClientCodec.DeserializeWritten: the load is stated for the JSON value that was written.
  - The source applies `encodeURI` to the Base64 output (client/src/components/serialize-wheel-state.ts:86-90),
    where it changes nothing, and `decodeURI` to the decompressed JSON text (:97-101).
  - `decodeURI` leaves text without '%' unchanged, so the contract holds for the program when no
    wheel or segment label contains '%'.
  - A label such as "50% off" makes `decodeURI` throw, and the load gives `null`; a label "%41"
    loads as "A". Percent-decoding of JSON text is not modelled.
- ClientCodec.RoundTrip: holds for the written JSON value only, for the `decodeURI` reason given
  under ClientCodec.DeserializeWritten: a label containing '%' does not round-trip in the source.
- ClientCodec.SerializeStable: stable for the written JSON value only, for the same `decodeURI`
  reason: a label containing '%' breaks it in the source.
- SpinPolicy.NextWheelIff: for a selected id that names no wheel, `hasNextWheel` is true on any
  non-empty list while `handleNextWheel` does nothing. This is stated, not corrected.
- Merge.MergeSegmentsInPlace: the local results array of the source is a sequence updated by
  position. Nothing else refers to it, so no aliasing is lost.

## Findings

| source | as written | input that shows it | evidently intended | confidence | as-written member | corrected member |
|---|---|---|---|---|---|---|
| src/services/wheel-reducer.ts:238-244 | `deleteWheel` keeps the selected position (clamped to the new length), whichever wheel was deleted | wheels A, B, C with B (position 1) selected; delete A: position 1 now holds C, so C becomes selected | delete another wheel and the selected wheel stays selected (its position moves down by one when the deleted wheel came before it), as the id-based revisions do | not executed | IndexReducer.DeleteBeforeSelectedMovesSelection | IndexReducer.DeleteWheelKeepingSelection |
