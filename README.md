# Alarmin picker logic in Dafny

Alarmin is a one-screen Android app. The user picks an hour and a minute on two
grids of buttons, types an optional note, and hands the alarm to the system's
alarm-clock application. Almost all of `MainActivity.kt` is Compose layout. This
project models the logic inside it:

- **TimeRounding**: the default time, which is the current time rounded up
  to the next five-minute mark. The hour carries modulo 24.
- **Labels**: how a number becomes a button label (`toString().padStart(2, '0')`),
  the hour list `0..23` and the minute list `0..55 step 5`, and Kotlin's
  `String.toInt()` that turns a label back into a number.
- **NoteText**: the note clean-up. Kotlin's `trim()`, then a 50-character cap:
  47 characters followed by `"..."`.
- **AlarmDispatch**: `scheduleUserAlarm`. The request record is
  (hour, minutes, message, skip-UI). It is started only when a handler exists.
- **SelectorGrid**: the two-per-row layout of a label list. It is a loop
  (`PairRows`) proved equal to a reference definition (`Paired`). Each button
  is highlighted when its label is the selected one.
- **NoteField**: the note text field. It holds the value (text and selection),
  the `wasFocused` flag that drives select-all on first focus, and the
  preference slot written on every edit. It is a class whose methods are
  proved against the transition function `Step`.
- **AlarmPicker**: the screen's selected hour and minute. It is a class
  initialised from the rounded time. It is updated by grid taps, and the
  selection is dispatched when the alarm is set.
- **Wrappers**: `Option` and `Result`. They stand in for Kotlin's nullable
  values and exceptions.

## Model

| member | source | states |
|---|---|---|
| TimeRounding.RoundUpToFive | app/src/main/java/me/alllex/alarmin/MainActivity.kt:81-87 | for any time 0..23 h, 0..59 min, the default time is again a valid time of day |
| TimeRounding.RoundedMinuteOnMark | app/src/main/java/me/alllex/alarmin/MainActivity.kt:81-82 | the rounded minute is a multiple of 5 in 0..55 |
| TimeRounding.RoundUpIsNextMark | app/src/main/java/me/alllex/alarmin/MainActivity.kt:81-87 | the rounded minute is the least multiple of 5 at or above the current minute, taken modulo 60; the hour becomes (h+1) mod 24 exactly when that mark is 60 |
| TimeRounding.OnMarkUnchanged | app/src/main/java/me/alllex/alarmin/MainActivity.kt:81-82 | a time whose minute is already a multiple of 5 is unchanged |
| TimeRounding.HourCarriesOnlyPastFiftyFive | app/src/main/java/me/alllex/alarmin/MainActivity.kt:84-87 | the hour changes (or the minute wraps) exactly when the minute is past 55, and the result is then ((h+1) mod 24):00 |
| TimeRounding.RoundUpDistance | app/src/main/java/me/alllex/alarmin/MainActivity.kt:81-87 | the default time is 0 to 4 minutes after the current time, counting across midnight |
| TimeRounding.RoundingInstances | app/src/main/java/me/alllex/alarmin/MainActivity.kt:81-87 | 14:42 becomes 14:45 and 23:58 becomes 00:00 |
| Labels.Decimal | app/src/main/java/me/alllex/alarmin/MainActivity.kt:90 | `toString()` of a non-negative number is a non-empty string of digits with no leading zero, one digit exactly below 10 |
| Labels.PadStart | app/src/main/java/me/alllex/alarmin/MainActivity.kt:90 | `padStart` keeps the string as its suffix and fills the rest up to the requested length with the pad character |
| Labels.ToInt | app/src/main/java/me/alllex/alarmin/MainActivity.kt:162-163 | `toInt()` succeeds only with a value in the 32-bit range |
| Labels.Progression | app/src/main/java/me/alllex/alarmin/MainActivity.kt:95 | term i of `first..last step s` is first + i*s, no term exceeds `last`, and the next term would |
| Labels.DecimalValue | app/src/main/java/me/alllex/alarmin/MainActivity.kt:90 | the digits of `toString()` denote the number |
| Labels.TwoDigitLabel | app/src/main/java/me/alllex/alarmin/MainActivity.kt:90-91 | the label of v < 100 is its tens digit followed by its units digit |
| Labels.LabelShape | app/src/main/java/me/alllex/alarmin/MainActivity.kt:90-91 | a label is all digits and at least 2 long, and exactly 2 long iff v < 100 |
| Labels.LabelRoundTrip | app/src/main/java/me/alllex/alarmin/MainActivity.kt:162-163 | `toInt()` of the label of v gives back v, for every non-negative v up to `Int.MAX_VALUE` |
| Labels.LabelInjective | app/src/main/java/me/alllex/alarmin/MainActivity.kt:90-91 | two values share a label iff they are equal |
| Labels.LabelOrder | app/src/main/java/me/alllex/alarmin/MainActivity.kt:94-95 | below 100, label a sorts before label b iff a < b |
| Labels.HourLabelsShape | app/src/main/java/me/alllex/alarmin/MainActivity.kt:94 | the hour list has 24 entries; entry i is a two-digit label that parses to i |
| Labels.MinuteLabelsShape | app/src/main/java/me/alllex/alarmin/MainActivity.kt:95 | the minute list has 12 entries; entry i is a two-digit label that parses to 5*i |
| Labels.LabelListsIncreasing | app/src/main/java/me/alllex/alarmin/MainActivity.kt:94-95 | both lists are strictly increasing in lexicographic order and pairwise distinct |
| Labels.HourLabelMembership | app/src/main/java/me/alllex/alarmin/MainActivity.kt:94 | a string is in the hour list iff it parses to some h in 0..23 and is h's label |
| Labels.MinuteLabelMembership | app/src/main/java/me/alllex/alarmin/MainActivity.kt:95 | a string is in the minute list iff it parses to a multiple of 5 in 0..55 and is that value's label |
| NoteText.TrimStart | app/src/main/java/me/alllex/alarmin/MainActivity.kt:156 | the result is a suffix of the input, what was dropped is all whitespace, and the result does not start with whitespace |
| NoteText.TrimEnd | app/src/main/java/me/alllex/alarmin/MainActivity.kt:156 | the result is a prefix of the input, what was dropped is all whitespace, and the result does not end with whitespace |
| NoteText.TrimBounds | app/src/main/java/me/alllex/alarmin/MainActivity.kt:156 | `trim()` is a slice s[i..j] with only whitespace outside it and non-whitespace at both ends when non-empty |
| NoteText.TrimmedSliceUnique | app/src/main/java/me/alllex/alarmin/MainActivity.kt:156 | all slices with that property are the same string, so the property determines `trim()` |
| NoteText.TrimFixpoint | app/src/main/java/me/alllex/alarmin/MainActivity.kt:156 | a string equals its trim iff it is empty or has no whitespace at either end |
| NoteText.TrimIdempotent | app/src/main/java/me/alllex/alarmin/MainActivity.kt:156 | trimming twice is trimming once |
| NoteText.TrimRemovesPadding | app/src/main/java/me/alllex/alarmin/MainActivity.kt:156 | for any whitespace padding around a body with no whitespace at its ends, trim returns the body |
| NoteText.NormalizeNote | app/src/main/java/me/alllex/alarmin/MainActivity.kt:156-159 | the message is never longer than 50 characters |
| NoteText.NormalizeCases | app/src/main/java/me/alllex/alarmin/MainActivity.kt:156-159 | a trimmed note of at most 50 characters is the message as is; a longer one gives exactly 50 characters: its first 47, then `"..."` |
| NoteText.NormalizedIsTrimmed | app/src/main/java/me/alllex/alarmin/MainActivity.kt:156-159 | the message never has whitespace at either end |
| NoteText.NormalizeIdempotent | app/src/main/java/me/alllex/alarmin/MainActivity.kt:156-159 | normalising twice equals normalising once |
| NoteText.NormalizeLongInstance | app/src/main/java/me/alllex/alarmin/MainActivity.kt:156-159 | 60 `a`s give 47 `a`s followed by `"..."` |
| NoteText.NormalizePaddedInstance | app/src/main/java/me/alllex/alarmin/MainActivity.kt:156 | `"  Team meeting  "` gives `"Team meeting"` |
| AlarmDispatch.ScheduleUserAlarm | app/src/main/java/me/alllex/alarmin/MainActivity.kt:154-170 | fails iff a label does not parse. The hour error comes first. On success the request is (`toInt()` of the hour, `toInt()` of the minute, normalised note, skip-UI set), the message is at most 50 long, and the alarm app is started iff a handler exists |
| AlarmDispatch.DispatchSelectedTime | app/src/main/java/me/alllex/alarmin/MainActivity.kt:161-166 | dispatching the labels of any h and m up to `Int.MAX_VALUE` requests an alarm at exactly h:m with the normalised note; there is no range check |
| AlarmDispatch.HandlerDoesNotChangeRequest | app/src/main/java/me/alllex/alarmin/MainActivity.kt:167-169 | whether a handler exists changes only whether the request is started, never the request |
| AlarmDispatch.DispatchInstance | app/src/main/java/me/alllex/alarmin/MainActivity.kt:154-166 | `"07"`, `"30"`, `"  Team meeting  "` give 7:30 with message `"Team meeting"`, skip-UI set |
| SelectorGrid.PairRows | app/src/main/java/me/alllex/alarmin/MainActivity.kt:182-198 | the step-2 row loop produces exactly the reference pairing `Paired` |
| SelectorGrid.PairedShape | app/src/main/java/me/alllex/alarmin/MainActivity.kt:182-184 | n items give ceil(n/2) rows; row k holds item 2k and item 2k+1, or a blank if there is none |
| SelectorGrid.OnlyLastRowBlank | app/src/main/java/me/alllex/alarmin/MainActivity.kt:184-195 | a row's second cell is blank iff the list is odd-length and it is the last row |
| SelectorGrid.PairedCellsInOrder | app/src/main/java/me/alllex/alarmin/MainActivity.kt:182-198 | reading the non-blank cells row by row gives back the list, in order |
| SelectorGrid.PairedCellItem | app/src/main/java/me/alllex/alarmin/MainActivity.kt:184 | cell (k, c) shows item 2k+c, and is blank exactly past the end of the list |
| SelectorGrid.RenderedCell | app/src/main/java/me/alllex/alarmin/MainActivity.kt:184-196 | cell (k, c) is the button for item 2k+c, highlighted iff that item equals the selected value; past the end it is the spacer |
| SelectorGrid.AtMostOneHighlighted | app/src/main/java/me/alllex/alarmin/MainActivity.kt:188 | with distinct labels, two highlighted cells are the same cell |
| SelectorGrid.SelectedIsHighlighted | app/src/main/java/me/alllex/alarmin/MainActivity.kt:188 | the selected value at index i is highlighted in cell (i/2, i mod 2) |
| SelectorGrid.UnlistedHighlightsNothing | app/src/main/java/me/alllex/alarmin/MainActivity.kt:244 | a selected value not in the list highlights no cell |
| NoteField.FocusChangeEffect | app/src/main/java/me/alllex/alarmin/MainActivity.kt:299-305 | a focus event selects [0, len) iff it goes from unfocused to focused with non-empty text; otherwise the value is unchanged. The text never changes, and `wasFocused` becomes the event's focus |
| NoteField.RefocusIsNoop | app/src/main/java/me/alllex/alarmin/MainActivity.kt:299-305 | a second focused event right after a focused event changes nothing |
| NoteField.FocusEventsKeepText | app/src/main/java/me/alllex/alarmin/MainActivity.kt:297-306 | any run of focus events leaves the text as it was |
| NoteField.FocusEventsSelection | app/src/main/java/me/alllex/alarmin/MainActivity.kt:297-306 | after a run of focus events the selection is the original one or [0, len), and `wasFocused` is the last event's focus |
| NoteField.TextField.constructor | app/src/main/java/me/alllex/alarmin/MainActivity.kt:223-232 | the field starts with the stored note (empty when none), a collapsed selection at 0, and `wasFocused` false |
| NoteField.TextField.OnFocusChanged | app/src/main/java/me/alllex/alarmin/MainActivity.kt:297-306 | the handler's new value and flag are `Step` of the old ones; the stored note is untouched |
| NoteField.TextField.OnValueChange | app/src/main/java/me/alllex/alarmin/MainActivity.kt:261-268 | an edit replaces the value, leaves the focus flag alone, and writes the new text to the preference slot |
| AlarmPicker.DefaultSelection | app/src/main/java/me/alllex/alarmin/MainActivity.kt:89-91 | the default labels are in the hour and minute lists |
| AlarmPicker.DefaultSelectionHighlightedOnce | app/src/main/java/me/alllex/alarmin/MainActivity.kt:89-95 | on a fresh screen exactly one cell of each grid is highlighted |
| AlarmPicker.HighlightedOnce | app/src/main/java/me/alllex/alarmin/MainActivity.kt:188 | a value in a distinct list is highlighted in exactly one cell |
| AlarmPicker.LabelListsDistinct | app/src/main/java/me/alllex/alarmin/MainActivity.kt:94-95 | neither label list repeats a label |
| AlarmPicker.GridButtonsAreListed | app/src/main/java/me/alllex/alarmin/MainActivity.kt:184-189 | every button of a grid carries a label from its list, so a tap selects a listed label |
| AlarmPicker.PickerScreen.constructor | app/src/main/java/me/alllex/alarmin/MainActivity.kt:77-91 | the selection starts as the labels of the rounded current time, both of them on their grids |
| AlarmPicker.PickerScreen.SelectHour | app/src/main/java/me/alllex/alarmin/MainActivity.kt:130 | the selected hour becomes exactly the tapped label and the minute is unchanged; a listed label keeps the screen valid |
| AlarmPicker.PickerScreen.SelectMinute | app/src/main/java/me/alllex/alarmin/MainActivity.kt:140 | the selected minute becomes exactly the tapped label and the hour is unchanged; a listed label keeps the screen valid |
| AlarmPicker.PickerScreen.SetAlarm | app/src/main/java/me/alllex/alarmin/MainActivity.kt:141-143 | from a valid screen, dispatch always succeeds. It requests the selected hour (0..23) and minute (multiple of 5, 0..55) as numbers whose labels are the selection, with the normalised note |

## Left out

- Reading the clock and time zone (`MainActivity.kt:78`): the current time is the `now` parameter of the rounding and of the screen constructor.
- Intent construction and `startActivity` (`MainActivity.kt:161-169`): the intent is the `AlarmRequest` record. The answer of `resolveActivity` is the `handlerAvailable` parameter. Starting the activity is the `Started` outcome.
- Durable storage (`MainActivity.kt:217-229`, `265-267`): the preference slot is the `savedNote` field of `TextField`. Persistence across process restarts is a platform guarantee and is not modelled.
- Compose layout, theming, sizes, scroll state, alpha values, and the focus manager and focus requester calls (`clearFocus`, `freeFocus`; `MainActivity.kt:59-71`, `97-149`, `256-368`): these are rendering or platform calls. Only the button-or-spacer choice and the highlight flag of each cell are modelled.
- Recomposition: the screen recomputes the rounded time and the label lists on every recomposition, while `remember` keeps the selection. The model builds the screen once.
- String length and characters: Dafny characters are Unicode scalar values, but Kotlin counts UTF-16 code units. So for text outside the Basic Multilingual Plane the 50/47 cut happens at a different place in the model than in the app, and `take(47)` can split a surrogate pair only in the app.
- Whitespace: `IsWhitespace` is a fixed list of code points, Kotlin's `isWhitespace` under one Unicode version. Later Unicode tables are not tracked.
- Labels.ToInt: accepts only ASCII digits. Kotlin's `toInt()` also accepts other Unicode decimal digits through `Character.digit`. Labels never contain such digits.
- A `toInt()` failure throws `NumberFormatException` in the app. Here it is a `Failure` result. `PickerScreen.SetAlarm` proves it cannot happen from the screen.
