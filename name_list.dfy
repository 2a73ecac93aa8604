/** The wheel's names textarea: its text is the segment labels one per line; typing replaces the
    labels with the lines as they stand, and leaving the field tidies them. */
module NameList {
  import opened Collections
  import opened Text
  import opened Wheels
  import opened SavedForm

  const Newline: char := '\n'

  /** `segments.map(({ label }) => label).join("\n")`. */
  function Names(segments: seq<Segment>): string {
    Join(SegmentNames(segments), Newline)
  }

  /** `handleNamesChanged`: blank text gives no labels, any other text its lines as they stand. */
  function NamesChanged(value: string): seq<string> {
    if |Trim(value)| == 0 then [] else Split(value, Newline)
  }

  /** `name ? name.trim() : name`. */
  function TrimIfPresent(name: string): string {
    if name != "" then Trim(name) else name
  }

  /** `.map((name) => (name ? name.trim() : name))`. */
  function TrimEach(lines: seq<string>): (r: seq<string>)
    ensures |r| == |lines| && forall j :: 0 <= j < |r| ==> r[j] == TrimIfPresent(lines[j])
  {
    if |lines| == 0 then [] else [TrimIfPresent(lines[0])] + TrimEach(lines[1..])
  }

  predicate NotEmpty(name: string) {
    name != ""
  }

  /** `handleBlur`: the lines, each trimmed, without the empty ones. */
  function Blurred(value: string): seq<string> {
    Filter(TrimEach(Split(value, Newline)), NotEmpty)
  }

  /** Typing gives no labels exactly when the text is blank; otherwise the labels are exactly the
      lines, blank ones included, and joining them restores the text. */
  lemma NamesChangedLines(value: string)
    ensures NamesChanged(value) == [] <==> IsBlank(value)
    ensures !IsBlank(value) ==> NamesChanged(value) == Split(value, Newline) && Join(NamesChanged(value), Newline) == value
  {
    TrimEmptyIffBlank(value);
    JoinSplit(value, Newline);
  }

  /** Editing the shown text without changing it gives back the labels, provided none holds a line
      break; the one exception is a non-empty list of blank labels, which typing empties. */
  lemma NamesRoundTrip(segments: seq<Segment>)
    requires forall k :: 0 <= k < |segments| ==> Newline !in segments[k].name
    ensures NamesChanged(Names(segments)) == SegmentNames(segments) <==>
      (segments == [] || exists k :: 0 <= k < |segments| && !IsBlank(segments[k].name))
  {
    var names := SegmentNames(segments);
    TrimEmptyIffBlank(Names(segments));
    if segments != [] {
      JoinBlankIff(names, Newline);
      SplitJoin(names, Newline);
      if forall k :: 0 <= k < |segments| ==> IsBlank(segments[k].name) {
        assert IsBlank(names[0]);
      }
    }
  }

  /** Tidying keeps the lines that are not blank, trimmed and in order: the rule the share
      codecs apply to segment labels. */
  lemma {:induction false} BlurredIsKeptLabels(value: string)
    ensures Blurred(value) == KeptLabels(Split(value, Newline))
  {
    TrimThenFilter(Split(value, Newline));
  }

  lemma TrimAllCons(name: string, rest: seq<string>)
    ensures TrimAll([name] + rest) == [Trim(name)] + TrimAll(rest)
  {
    MapAppend([name], rest, Trim);
    assert Map([name], Trim) == [Trim(name)];
  }

  lemma KeptLabelsCons(lines: seq<string>)
    requires |lines| > 0
    ensures Saveable(lines[0]) ==> KeptLabels(lines) == [Trim(lines[0])] + KeptLabels(lines[1..])
    ensures !Saveable(lines[0]) ==> KeptLabels(lines) == KeptLabels(lines[1..])
  {
    var rest := Filter(lines[1..], Saveable);
    if Saveable(lines[0]) {
      FilterCons(lines, Saveable);
      TrimAllCons(lines[0], rest);
    } else {
      FilterCons(lines, Saveable);
    }
  }

  lemma TidyCons(lines: seq<string>)
    requires |lines| > 0
    ensures Filter(TrimEach(lines), NotEmpty) ==
      (if Saveable(lines[0]) then [Trim(lines[0])] else []) + Filter(TrimEach(lines[1..]), NotEmpty)
  {
    assert TrimEach(lines)[1..] == TrimEach(lines[1..]);
  }

  lemma {:induction false} TrimThenFilter(lines: seq<string>)
    ensures Filter(TrimEach(lines), NotEmpty) == KeptLabels(lines)
  {
    if |lines| > 0 {
      TrimThenFilter(lines[1..]);
      TidyCons(lines);
      KeptLabelsCons(lines);
    }
  }

  /** Every label left after tidying is trimmed, non-empty and free of line breaks. */
  lemma BlurredClean(value: string)
    ensures forall k :: 0 <= k < |Blurred(value)| ==> Clean(Blurred(value)[k]) && Newline !in Blurred(value)[k]
  {
    var lines := Split(value, Newline);
    BlurredIsKeptLabels(value);
    KeptLabelsClean(lines);
    var kept := Filter(lines, Saveable);
    forall k | 0 <= k < |kept| ensures Newline !in Trim(kept[k]) {
      TrimKeepsAbsent(kept[k], Newline);
    }
  }

  /** Blank text tidies to no labels. */
  lemma BlurredOfBlank(value: string)
    requires IsBlank(value)
    ensures Blurred(value) == []
  {
    var lines := Split(value, Newline);
    JoinSplit(value, Newline);
    JoinBlankIff(lines, Newline);
    BlurredIsKeptLabels(value);
    assert Filter(lines, Saveable) == [] by {
      forall k | 0 <= k < |lines| ensures !Saveable(lines[k]) {
        TrimEmptyIffBlank(lines[k]);
      }
      FilterNone(lines, Saveable);
    }
  }

  /** Leaving the field twice tidies no more than leaving it once. */
  lemma BlurredStable(value: string)
    ensures Blurred(Join(Blurred(value), Newline)) == Blurred(value)
  {
    var labels := Blurred(value);
    BlurredClean(value);
    BlurredIsKeptLabels(Join(labels, Newline));
    if labels == [] {
      assert Split("", Newline) == [""];
      assert Filter([""], Saveable) == [];
    } else {
      SplitJoin(labels, Newline);
      KeptLabelsOfClean(labels);
    }
  }
}
