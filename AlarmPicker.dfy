/**
 * The picker screen's own state: the selected hour and minute labels,
 * initialised from the rounded current time, replaced when a grid cell is
 * tapped, and dispatched with the note when the alarm is set.
 */
module AlarmPicker {
  import opened Wrappers
  import opened TimeRounding
  import opened Labels
  import opened NoteText
  import opened SelectorGrid
  import opened AlarmDispatch

  /** The default selection shown on a fresh screen: the labels of the rounded time. */
  function DefaultSelection(now: WallTime): (r: (string, string))
    requires IsClockTime(now)
    ensures r.0 in HourLabels() && r.1 in MinuteLabels()
  {
    var rounded := RoundUpToFive(now);
    RoundedMinuteOnMark(now);
    HourLabelAt(rounded.hour);
    MinuteLabelAt(rounded.minute);
    (Label(rounded.hour), Label(rounded.minute))
  }

  /** Exactly one cell of the rendered grid is highlighted. */
  ghost predicate HighlightedExactlyOnce(g: seq<seq<Cell<string>>>) {
    (exists k, c :: IsHighlighted(g, k, c)) &&
    (forall k, c, k', c' :: IsHighlighted(g, k, c) && IsHighlighted(g, k', c') ==> k == k' && c == c')
  }

  /** The default selection is highlighted in exactly one cell of each grid. */
  lemma DefaultSelectionHighlightedOnce(now: WallTime)
    requires IsClockTime(now)
    ensures HighlightedExactlyOnce(RenderGrid(Paired(HourLabels()), DefaultSelection(now).0))
    ensures HighlightedExactlyOnce(RenderGrid(Paired(MinuteLabels()), DefaultSelection(now).1))
  {
    var sel := DefaultSelection(now);
    LabelListsDistinct();
    HighlightedOnce(HourLabels(), sel.0);
    HighlightedOnce(MinuteLabels(), sel.1);
  }

  lemma LabelListsDistinct()
    ensures Distinct(HourLabels()) && Distinct(MinuteLabels())
  {
    LabelListsIncreasing();
  }

  /** A listed value of a distinct list is highlighted in exactly one cell. */
  lemma HighlightedOnce(items: seq<string>, selected: string)
    requires Distinct(items) && selected in items
    ensures HighlightedExactlyOnce(RenderGrid(Paired(items), selected))
  {
    var g := RenderGrid(Paired(items), selected);
    var i :| 0 <= i < |items| && items[i] == selected;
    SelectedIsHighlighted(items, selected, i);
    assert IsHighlighted(g, i / 2, i % 2);
    forall k, c, k', c' | IsHighlighted(g, k, c) && IsHighlighted(g, k', c')
      ensures k == k' && c == c'
    {
      AtMostOneHighlighted(items, selected, k, c, k', c');
    }
  }

  class PickerScreen {
    var selectedHour: string
    var selectedMinute: string

    /** Both selections are labels of their grids. */
    ghost predicate Valid()
      reads this
    {
      selectedHour in HourLabels() && selectedMinute in MinuteLabels()
    }

    constructor (now: WallTime)
      requires IsClockTime(now)
      ensures (selectedHour, selectedMinute) == DefaultSelection(now)
      ensures Valid()
    {
      var selection := DefaultSelection(now);
      selectedHour := selection.0;
      selectedMinute := selection.1;
    }

    /** Tapping an hour cell: the hour becomes that label and nothing else changes. */
    method SelectHour(hour: string)
      modifies this
      ensures selectedHour == hour && selectedMinute == old(selectedMinute)
      ensures old(Valid()) && hour in HourLabels() ==> Valid()
    {
      selectedHour := hour;
    }

    /** Tapping a minute cell: the minute becomes that label and nothing else changes. */
    method SelectMinute(minute: string)
      modifies this
      ensures selectedMinute == minute && selectedHour == old(selectedHour)
      ensures old(Valid()) && minute in MinuteLabels() ==> Valid()
    {
      selectedMinute := minute;
    }

    /**
     * The set-alarm button: the dispatched request carries the selected hour
     * and minute as numbers, on the grids' ranges, and the normalised note.
     */
    method SetAlarm(note: string, handlerAvailable: bool) returns (r: Result<Outcome, DispatchError>)
      requires Valid()
      ensures r.Success? && (r.value.Started? <==> handlerAvailable)
      ensures var q := r.value.request;
        0 <= q.hour < 24 && Label(q.hour) == selectedHour &&
        0 <= q.minutes <= 55 && q.minutes % 5 == 0 && Label(q.minutes) == selectedMinute &&
        q.message == NormalizeNote(note) && q.skipUi
    {
      HourLabelMembership(selectedHour);
      MinuteLabelMembership(selectedMinute);
      r := ScheduleUserAlarm(selectedHour, selectedMinute, note, handlerAvailable);
    }
  }

  /** Every button of a grid carries a label of its list, so tapping one keeps the screen valid. */
  lemma GridButtonsAreListed(items: seq<string>, selected: string, k: nat, c: nat)
    requires k < |Paired(items)| && c < 2
    ensures var cell := RenderGrid(Paired(items), selected)[k][c];
      cell.Button? ==> cell.text in items
  {
    RenderedCell(items, selected, k, c);
  }
}
