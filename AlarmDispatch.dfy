/**
 * `scheduleUserAlarm`: the note is normalised, both labels are parsed with
 * `toInt()`, and an alarm-creation request is handed to whichever
 * application handles it, if there is one.
 */
module AlarmDispatch {
  import opened Wrappers
  import opened Labels
  import opened NoteText

  /** The extras of the set-alarm intent: hour, minutes, message and the skip-UI flag. */
  datatype AlarmRequest = AlarmRequest(hour: int, minutes: int, message: string, skipUi: bool)

  /** The label that `toInt()` refused; the call throws before any request is made. */
  datatype DispatchError = HourNotANumber(hourText: string) | MinuteNotANumber(minuteText: string)

  /** The request either reached the alarm application or was dropped because none is installed. */
  datatype Outcome = Started(request: AlarmRequest) | NoHandler(request: AlarmRequest)

  /**
   * The whole dispatch. `handlerAvailable` stands for the platform's answer
   * to `resolveActivity`; the hour is parsed before the minute.
   */
  function ScheduleUserAlarm(hour: string, minute: string, note: string, handlerAvailable: bool)
    : (r: Result<Outcome, DispatchError>)
    ensures r.Failure? <==> ToInt(hour).None? || ToInt(minute).None?
    ensures r.Failure? ==> r.error == if ToInt(hour).None? then HourNotANumber(hour) else MinuteNotANumber(minute)
    ensures r.Success? ==> (r.value.Started? <==> handlerAvailable)
    ensures r.Success? ==> |r.value.request.message| <= MaxNoteLength && r.value.request.skipUi
    ensures r.Success? ==>
      r.value.request == AlarmRequest(ToInt(hour).value, ToInt(minute).value, NormalizeNote(note), true)
  {
    var message := NormalizeNote(note);
    match ToInt(hour)
    case None => Failure(HourNotANumber(hour))
    case Some(h) =>
      match ToInt(minute)
      case None => Failure(MinuteNotANumber(minute))
      case Some(m) =>
        var request := AlarmRequest(h, m, message, true);
        if handlerAvailable then Success(Started(request)) else Success(NoHandler(request))
  }

  /**
   * Dispatching the labels of any two values `toInt()` can give back requests
   * an alarm at exactly those values, with the normalised note; no range is checked.
   */
  lemma DispatchSelectedTime(h: nat, m: nat, note: string, handlerAvailable: bool)
    requires h <= IntMax && m <= IntMax
    ensures var request := AlarmRequest(h, m, NormalizeNote(note), true);
      ScheduleUserAlarm(Label(h), Label(m), note, handlerAvailable) ==
        Success(if handlerAvailable then Started(request) else NoHandler(request))
  {
    LabelRoundTrip(h);
    LabelRoundTrip(m);
  }

  /** Whether a handler exists decides only whether the request is started, never what it says. */
  lemma HandlerDoesNotChangeRequest(hour: string, minute: string, note: string)
    ensures var a, b := ScheduleUserAlarm(hour, minute, note, true), ScheduleUserAlarm(hour, minute, note, false);
      a.Success? == b.Success? && (a.Success? ==> a.value.request == b.value.request)
  {
  }

  /** `"07"`, `"30"` and `"  Team meeting  "` give 7:30 with the message `"Team meeting"`. */
  lemma DispatchInstance()
    ensures ScheduleUserAlarm("07", "30", "  Team meeting  ", true) ==
      Success(Started(AlarmRequest(7, 30, "Team meeting", true)))
  {
    assert Label(7) == "07" && Label(30) == "30";
    DispatchSelectedTime(7, 30, "  Team meeting  ", true);
    NormalizePaddedInstance();
  }
}
