/**
 * The note text field of the minute column: its value (text and selection),
 * the `wasFocused` flag behind the select-all-on-first-focus behaviour, and
 * the note written back to the preference store on every edit.
 */
module NoteField {
  import opened Wrappers

  /** A selection or cursor, from `start` to `end`. */
  datatype TextRange = TextRange(start: int, end: int)

  datatype TextFieldValue = TextFieldValue(text: string, selection: TextRange)

  /** What the field remembers between events. */
  datatype FieldState = FieldState(value: TextFieldValue, wasFocused: bool)

  /** The two events the field reacts to. */
  datatype FieldEvent = FocusChanged(isFocused: bool) | ValueChanged(newValue: TextFieldValue)

  /**
   * One event. A focus change that enters the field while it holds text
   * selects the whole text; every focus change records the new focus. An
   * edit replaces the value and leaves the focus flag alone.
   */
  function Step(s: FieldState, e: FieldEvent): FieldState {
    match e
    case FocusChanged(isFocused) =>
      var text := s.value.text;
      var value :=
        if isFocused && !s.wasFocused && |text| > 0 then s.value.(selection := TextRange(0, |text|))
        else s.value;
      FieldState(value, isFocused)
    case ValueChanged(newValue) => s.(value := newValue)
  }

  function Replay(s: FieldState, events: seq<FieldEvent>): FieldState
    decreases |events|
  {
    if events == [] then s else Replay(Step(s, events[0]), events[1..])
  }

  predicate OnlyFocusEvents(events: seq<FieldEvent>) {
    forall i :: 0 <= i < |events| ==> events[i].FocusChanged?
  }

  /**
   * A focus change selects the whole text exactly on an unfocused-to-focused
   * transition with text present; otherwise the value is untouched. The text
   * itself never changes and the flag always becomes the event's focus.
   */
  lemma FocusChangeEffect(s: FieldState, isFocused: bool)
    ensures var t := Step(s, FocusChanged(isFocused));
      t.value.text == s.value.text && t.wasFocused == isFocused &&
      (if isFocused && !s.wasFocused && s.value.text != []
       then t.value.selection == TextRange(0, |s.value.text|)
       else t.value == s.value)
  {
  }

  /** A second focus event while already focused does nothing more: the selection is made once. */
  lemma RefocusIsNoop(s: FieldState)
    ensures Step(Step(s, FocusChanged(true)), FocusChanged(true)) == Step(s, FocusChanged(true))
  {
  }

  /** However many focus changes arrive, the text is never altered. */
  lemma {:induction false} FocusEventsKeepText(s: FieldState, events: seq<FieldEvent>)
    requires OnlyFocusEvents(events)
    ensures Replay(s, events).value.text == s.value.text
    decreases |events|
  {
    if events != [] {
      assert OnlyFocusEvents(events[1..]) by {
        forall i | 0 <= i < |events| - 1 ensures events[1..][i].FocusChanged? {
          assert events[1..][i] == events[i + 1];
        }
      }
      FocusEventsKeepText(Step(s, events[0]), events[1..]);
    }
  }

  /**
   * After a run of focus changes, the selection is either what it was or the
   * whole text, and the flag is the last event's focus.
   */
  lemma {:induction false} FocusEventsSelection(s: FieldState, events: seq<FieldEvent>)
    requires OnlyFocusEvents(events) && events != []
    ensures var t := Replay(s, events);
      (t.value.selection == s.value.selection || t.value.selection == TextRange(0, |s.value.text|)) &&
      t.wasFocused == events[|events| - 1].isFocused
    decreases |events|
  {
    var s' := Step(s, events[0]);
    if |events| > 1 {
      assert OnlyFocusEvents(events[1..]) by {
        forall i | 0 <= i < |events| - 1 ensures events[1..][i].FocusChanged? {
          assert events[1..][i] == events[i + 1];
        }
      }
      FocusEventsSelection(s', events[1..]);
      assert events[1..][|events| - 2] == events[|events| - 1];
    }
  }

  class TextField {
    var value: TextFieldValue
    var wasFocused: bool
    /** The preference slot holding the note, `None` while nothing has been stored. */
    var savedNote: Option<string>

    ghost function State(): FieldState
      reads this
    {
      FieldState(value, wasFocused)
    }

    /**
     * The field starts with the stored note, or the empty text when nothing
     * is stored, a collapsed selection at 0, and no focus.
     */
    constructor (storedNote: Option<string>)
      ensures value == TextFieldValue(if storedNote.Some? then storedNote.value else "", TextRange(0, 0))
      ensures !wasFocused && savedNote == storedNote
    {
      value := TextFieldValue(if storedNote.Some? then storedNote.value else "", TextRange(0, 0));
      wasFocused := false;
      savedNote := storedNote;
    }

    method OnFocusChanged(isFocused: bool)
      modifies this
      ensures State() == Step(old(State()), FocusChanged(isFocused))
      ensures savedNote == old(savedNote)
    {
      if isFocused && !wasFocused && |value.text| > 0 {
        var length := |value.text|;
        value := value.(selection := TextRange(0, length));
      }
      wasFocused := isFocused;
    }

    /** An edit replaces the value and writes the new text to the preference store. */
    method OnValueChange(newValue: TextFieldValue)
      modifies this
      ensures State() == Step(old(State()), ValueChanged(newValue))
      ensures savedNote == Some(newValue.text)
    {
      value := newValue;
      savedNote := Some(newValue.text);
    }
  }
}
