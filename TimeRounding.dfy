/**
 * The default alarm time of the picker screen: the current wall-clock time
 * rounded up to the next five-minute mark, with the hour carried modulo 24.
 */
module TimeRounding {

  /** A wall-clock time of day. */
  datatype WallTime = WallTime(hour: int, minute: int)

  predicate IsClockTime(t: WallTime) {
    0 <= t.hour < 24 && 0 <= t.minute < 60
  }

  /**
   * The rounding block of the screen. The remainder is taken first, the
   * minute is bumped to the next multiple of five unless it already is one,
   * and a minute that reaches 60 is wrapped to 0 with the hour advanced.
   */
  function RoundUpToFive(now: WallTime): (r: WallTime)
    requires IsClockTime(now)
    ensures IsClockTime(r)
  {
    var remainder := now.minute % 5;
    var minute := if remainder == 0 then now.minute else now.minute + (5 - remainder);
    if minute >= 60 then WallTime((now.hour + 1) % 24, minute - 60)
    else WallTime(now.hour, minute)
  }

  /** `mark` is the least multiple of five not below `minute`. */
  ghost predicate IsNextMark(minute: int, mark: int) {
    mark % 5 == 0 && mark >= minute &&
    forall k :: minute <= k < mark ==> k % 5 != 0
  }

  /** The rounded minute is one of the twelve five-minute marks of an hour. */
  lemma RoundedMinuteOnMark(now: WallTime)
    requires IsClockTime(now)
    ensures var r := RoundUpToFive(now);
      r.minute % 5 == 0 && 0 <= r.minute <= 55
  {
  }

  /**
   * The rounded time is the next five-minute mark taken modulo one hour, and
   * the hour changes exactly when that mark is the full hour.
   */
  lemma RoundUpIsNextMark(now: WallTime)
    requires IsClockTime(now)
    ensures var r := RoundUpToFive(now);
      exists mark :: IsNextMark(now.minute, mark) &&
        r.minute == mark % 60 &&
        r.hour == (if mark == 60 then (now.hour + 1) % 24 else now.hour)
  {
    var remainder := now.minute % 5;
    var mark := if remainder == 0 then now.minute else now.minute + (5 - remainder);
    forall k | now.minute <= k < mark ensures k % 5 != 0 {
      assert k - now.minute < 5 - remainder;
    }
    assert IsNextMark(now.minute, mark);
  }

  /** A time already on a mark is its own default. */
  lemma OnMarkUnchanged(now: WallTime)
    requires IsClockTime(now) && now.minute % 5 == 0
    ensures RoundUpToFive(now) == now
  {
  }

  /** The hour is carried exactly when the minute lies past the last mark, 55. */
  lemma HourCarriesOnlyPastFiftyFive(now: WallTime)
    requires IsClockTime(now)
    ensures var r := RoundUpToFive(now);
      (r.hour != now.hour || r.minute < now.minute) <==> now.minute > 55
    ensures now.minute > 55 ==> RoundUpToFive(now) == WallTime((now.hour + 1) % 24, 0)
  {
  }

  /** Rounding never moves the time back and never by more than four minutes (across midnight it wraps). */
  lemma RoundUpDistance(now: WallTime)
    requires IsClockTime(now)
    ensures var r := RoundUpToFive(now);
      var delta := ((r.hour * 60 + r.minute) - (now.hour * 60 + now.minute) + 1440) % 1440;
      0 <= delta <= 4
  {
  }

  /** Two instances: 14:42 becomes 14:45 and 23:58 becomes 00:00. */
  lemma RoundingInstances()
    ensures RoundUpToFive(WallTime(14, 42)) == WallTime(14, 45)
    ensures RoundUpToFive(WallTime(23, 58)) == WallTime(0, 0)
  {
  }
}
