/** The tag-chip editor (frontend/src/components/TagInput.jsx). Its value is the
    comma-separated tag string owned by the enclosing form; every change goes
    back to the form through `onChange`, modelled here as an emitted value. */
module TagInput {
  import opened Options
  import opened Strings
  import opened Schemas
  import opened TagString

  /** The component's own state. */
  datatype State = State(
    input: string,
    suggestions: seq<Tag>,
    showSuggestions: bool,
    selectedIndex: int)

  /** What a handler does: the new state and, when it called `onChange`, the new value. */
  datatype Effect = Effect(state: State, emitted: Option<string>)

  datatype Key = Enter | Comma | Backspace | ArrowDown | ArrowUp | Escape | OtherKey

  function Initial(): State {
    State("", [], false, 0)
  }

  /** The selection cursor points at a suggestion whenever there is one. */
  predicate Valid(s: State) {
    |s.suggestions| > 0 ==> 0 <= s.selectedIndex < |s.suggestions|
  }

  /** The chips shown for a value: a missing or empty value has none, any other
      value is split on commas, trimmed, and blank pieces dropped. */
  function Tags(value: Option<string>): (r: seq<string>)
    ensures GoodTags(r)
    ensures value.None? || value == Some("") ==> r == []
    ensures value.Some? ==> r == ParseTags(value.value)
  {
    if value.None? then []
    else if value.value == "" then
      EmptyParsesToNothing();
      []
    else ParseTags(value.value)
  }

  lemma EmptyParsesToNothing()
    ensures ParseTags("") == []
  {
    var empty: string := [];
    assert AllSpace(empty, IsJsSpace);
    ParseSpace(empty);
  }

  /** The suggestion fetch once the server answers: a blank input shows no
      suggestions (and makes no request); otherwise the answer minus the tags
      already chosen, with the cursor reset to the first one. A failed request
      changes nothing. */
  function SuggestionsLoaded(s: State, value: Option<string>, answer: Option<seq<Tag>>): (r: State)
    requires Valid(s)
    ensures Valid(r)
    ensures AllSpace(s.input, IsJsSpace) ==> r.suggestions == []
    ensures !AllSpace(s.input, IsJsSpace) && answer.Some? ==>
      && (forall i :: 0 <= i < |r.suggestions| ==> r.suggestions[i].name !in Tags(value))
      && (forall t :: t in r.suggestions ==> t in answer.value)
      && (forall t :: t in answer.value && t.name !in Tags(value) ==> t in r.suggestions)
    ensures !AllSpace(s.input, IsJsSpace) && answer.None? ==> r == s
  {
    if |JsTrim(s.input)| < 1 then s.(suggestions := [])
    else if answer.None? then s
    else s.(suggestions := FilterChosen(answer.value, Tags(value)), selectedIndex := 0)
  }

  /** The tags of `ts` whose name is not among `chosen`, in order. */
  function FilterChosen(ts: seq<Tag>, chosen: seq<string>): (r: seq<Tag>)
    ensures |r| <= |ts|
    ensures forall i :: 0 <= i < |r| ==> r[i].name !in chosen && r[i] in ts
    ensures forall t :: t in ts && t.name !in chosen ==> t in r
  {
    if ts == [] then []
    else
      var rest := FilterChosen(ts[1..], chosen);
      assert forall t :: t in ts ==> t == ts[0] || t in ts[1..];
      if ts[0].name in chosen then rest else [ts[0]] + rest
  }

  /** The suggestion filter keeps the answer's order: an answer split in two
      filters to the kept tags of the first part followed by those of the
      second. */
  lemma {:induction false} FilterChosenAppend(a: seq<Tag>, b: seq<Tag>, chosen: seq<string>)
    ensures FilterChosen(a + b, chosen) == FilterChosen(a, chosen) + FilterChosen(b, chosen)
    decreases |a|
  {
    if a != [] {
      assert (a + b)[0] == a[0];
      assert (a + b)[1..] == a[1..] + b;
      FilterChosenAppend(a[1..], b, chosen);
    } else {
      assert a + b == b;
    }
  }

  /** A single tag is kept exactly when it is not chosen. */
  lemma FilterChosenOne(t: Tag, chosen: seq<string>)
    ensures FilterChosen([t], chosen) == if t.name in chosen then [] else [t]
  {
    assert [t][1..] == [];
  }

  /** `addTag(tag)`: the new value is the chips plus `tag` joined with ", " (no
      deduplication), and the input and suggestions are cleared. */
  function AddTag(s: State, value: Option<string>, tag: string): (r: Effect)
    ensures r.emitted == Some(JoinTags(Tags(value) + [tag]))
    ensures GoodTag(tag) ==> Tags(r.emitted) == Tags(value) + [tag]
    ensures r.state.input == "" && r.state.suggestions == [] && !r.state.showSuggestions
    ensures Valid(r.state)
  {
    var ts := Tags(value) + [tag];
    ParseJoinAppended(Tags(value), tag);
    Effect(s.(input := "", suggestions := [], showSuggestions := false), Some(JoinTags(ts)))
  }

  lemma ParseJoinAppended(ts: seq<string>, tag: string)
    requires GoodTags(ts)
    ensures GoodTag(tag) ==> ParseTags(JoinTags(ts + [tag])) == ts + [tag]
  {
    if GoodTag(tag) {
      assert GoodTags(ts + [tag]);
      ParseJoin(ts + [tag]);
    }
  }

  /** Adding a tag that is already a chip adds it a second time. */
  lemma AddTagKeepsDuplicates(s: State, value: Option<string>, tag: string)
    requires GoodTag(tag) && tag in Tags(value)
    ensures |Tags(AddTag(s, value, tag).emitted)| == |Tags(value)| + 1
    ensures multiset(Tags(AddTag(s, value, tag).emitted))[tag] == multiset(Tags(value))[tag] + 1
  {
  }

  /** `removeTag(index)`: the new value joins the chips without the one at `index`. */
  function RemoveTag(value: Option<string>, i: nat): (r: Option<string>)
    requires i < |Tags(value)|
    ensures r == Some(JoinTags(Tags(value)[..i] + Tags(value)[i + 1..]))
    ensures Tags(r) == Tags(value)[..i] + Tags(value)[i + 1..]
  {
    var rest := Tags(value)[..i] + Tags(value)[i + 1..];
    ParseJoinRemoved(Tags(value), i);
    Some(JoinTags(rest))
  }

  lemma ParseJoinRemoved(ts: seq<string>, i: nat)
    requires GoodTags(ts) && i < |ts|
    ensures ParseTags(JoinTags(ts[..i] + ts[i + 1..])) == ts[..i] + ts[i + 1..]
  {
    var rest := ts[..i] + ts[i + 1..];
    assert GoodTags(rest) by {
      forall j | 0 <= j < |rest| ensures GoodTag(rest[j]) {
        if j < i {
          assert rest[j] == ts[j];
        } else {
          assert rest[j] == ts[j + 1];
        }
      }
    }
    ParseJoin(rest);
  }

  /** Typing in the input opens the suggestion list. */
  function InputChanged(s: State, text: string): (r: State)
    requires Valid(s)
    ensures Valid(r)
    ensures r.input == text && r.showSuggestions
  {
    s.(input := text, showSuggestions := true)
  }

  /** Focusing the input reopens the suggestion list when it holds text. */
  function Focused(s: State): (r: State)
    requires Valid(s)
    ensures Valid(r)
    ensures r.showSuggestions == (s.showSuggestions || s.input != "")
  {
    if s.input != "" then s.(showSuggestions := true) else s
  }

  /** Hovering suggestion `i` selects it. */
  function Hovered(s: State, i: nat): (r: State)
    requires i < |s.suggestions|
    ensures Valid(r)
    ensures r.selectedIndex == i
  {
    s.(selectedIndex := i)
  }

  /** Enter or comma: pick the selected suggestion when the list is open and
      non-empty, otherwise add the trimmed input unless it is blank. */
  function Commit(s: State, value: Option<string>): (r: Effect)
    requires Valid(s)
    ensures Valid(r.state)
    ensures s.showSuggestions && |s.suggestions| > 0 ==> r == AddTag(s, value, s.suggestions[s.selectedIndex].name)
    ensures !(s.showSuggestions && |s.suggestions| > 0) && !AllSpace(s.input, IsJsSpace) ==>
      r == AddTag(s, value, JsTrim(s.input))
    ensures s.showSuggestions && |s.suggestions| > 0 ==>
      && r.emitted.Some? && r.state.input == ""
      && (GoodTag(s.suggestions[s.selectedIndex].name) ==>
            Tags(r.emitted) == Tags(value) + [s.suggestions[s.selectedIndex].name])
    ensures !(s.showSuggestions && |s.suggestions| > 0) ==>
      && (r.emitted.Some? <==> !AllSpace(s.input, IsJsSpace))
      && (r.emitted.Some? ==> r.state.input == "")
      && (r.emitted.Some? && ',' !in s.input ==> Tags(r.emitted) == Tags(value) + [JsTrim(s.input)])
      && (r.emitted.None? ==> r.state == s)
  {
    if s.showSuggestions && |s.suggestions| > 0 then AddTag(s, value, s.suggestions[s.selectedIndex].name)
    else if JsTrim(s.input) != "" then
      TrimmedIsGood(s.input);
      AddTag(s, value, JsTrim(s.input))
    else Effect(s, None)
  }

  /** A non-blank trimmed input without commas is a good tag; a comma in the input
      is kept by the trim and split again when the value is next parsed. */
  lemma TrimmedIsGood(x: string)
    requires JsTrim(x) != ""
    ensures ',' !in x ==> GoodTag(JsTrim(x))
  {
  }

  /** Backspace on an empty input removes the last chip. */
  function Backspaced(s: State, value: Option<string>): (r: Effect)
    requires Valid(s)
    ensures r.state == s
    ensures r.emitted.Some? <==> s.input == "" && |Tags(value)| > 0
    ensures r.emitted.Some? ==> Tags(r.emitted) == Tags(value)[..|Tags(value)| - 1]
    ensures s.input == "" && |Tags(value)| > 0 ==> r.emitted == RemoveTag(value, |Tags(value)| - 1)
  {
    var ts := Tags(value);
    if s.input == "" && |ts| > 0 then
      assert ts[..|ts| - 1] + ts[|ts|..] == ts[..|ts| - 1];
      Effect(s, RemoveTag(value, |ts| - 1))
    else Effect(s, None)
  }

  /** ArrowDown: the cursor moves to the next suggestion, from the last back to the first. */
  function MovedDown(s: State): (r: State)
    requires Valid(s) && |s.suggestions| > 0
    ensures Valid(r) && r.suggestions == s.suggestions
    ensures r.selectedIndex == if s.selectedIndex == |s.suggestions| - 1 then 0 else s.selectedIndex + 1
  {
    s.(selectedIndex := JsRem(s.selectedIndex + 1, |s.suggestions|))
  }

  /** ArrowUp: the cursor moves to the previous suggestion, from the first round to the last. */
  function MovedUp(s: State): (r: State)
    requires Valid(s) && |s.suggestions| > 0
    ensures Valid(r) && r.suggestions == s.suggestions
    ensures r.selectedIndex == if s.selectedIndex == 0 then |s.suggestions| - 1 else s.selectedIndex - 1
  {
    s.(selectedIndex := JsRem(s.selectedIndex - 1 + |s.suggestions|, |s.suggestions|))
  }

  /** `handleKeyDown`. The arrows are only meaningful with at least one
      suggestion (with none the page computes `NaN`). */
  function KeyDown(s: State, value: Option<string>, key: Key): (r: Effect)
    requires Valid(s)
    requires key == ArrowDown || key == ArrowUp ==> |s.suggestions| > 0
    ensures Valid(r.state)
    ensures key == Enter || key == Comma ==> r == Commit(s, value)
    ensures key == Backspace ==> r == Backspaced(s, value)
    ensures key == ArrowDown ==> r == Effect(MovedDown(s), None)
    ensures key == ArrowUp ==> r == Effect(MovedUp(s), None)
    ensures key == Escape ==> r == Effect(s.(showSuggestions := false), None)
    ensures key == OtherKey ==> r == Effect(s, None)
  {
    match key
    case Enter | Comma => Commit(s, value)
    case Backspace => Backspaced(s, value)
    case ArrowDown => Effect(MovedDown(s), None)
    case ArrowUp => Effect(MovedUp(s), None)
    case Escape => Effect(s.(showSuggestions := false), None)
    case OtherKey => Effect(s, None)
  }

  /** JavaScript's `%`: the remainder takes the sign of the dividend. */
  function JsRem(a: int, n: int): (r: int)
    requires n > 0
    ensures a >= 0 ==> 0 <= r < n
    ensures a <= 0 ==> -n < r <= 0
    ensures 0 <= a < n ==> r == a
    ensures n <= a < 2 * n ==> r == a - n
  {
    if a >= 0 then
      RemInRange(a, n);
      a % n
    else -((-a) % n)
  }

  lemma RemInRange(a: int, n: int)
    requires 0 <= a && n > 0
    ensures a < 2 * n ==> a % n == if a < n then a else a - n
  {
    if n <= a < 2 * n {
      assert (a - n) % n == a % n;
    }
  }

  /** Typed text that is blank after trimming is never added as a chip. */
  lemma BlankInputAddsNothing(s: State, value: Option<string>, key: Key)
    requires Valid(s)
    requires key == Enter || key == Comma
    requires !(s.showSuggestions && |s.suggestions| > 0)
    requires AllSpace(s.input, IsJsSpace)
    ensures KeyDown(s, value, key) == Effect(s, None)
  {
  }
}
