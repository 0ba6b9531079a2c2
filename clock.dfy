/** Times of day as `datetime.time` compares them. */
module Clock {

  /** A time of day. Microseconds are left out: every start time the schedule
      parses has zero seconds and microseconds, so they never decide a comparison. */
  datatype TimeOfDay = TimeOfDay(hour: int, minute: int, second: int)

  predicate ValidTime(t: TimeOfDay)
  {
    0 <= t.hour < 24 && 0 <= t.minute < 60 && 0 <= t.second < 60
  }

  /** A start time as `strptime(s, "%H:%M").time()` yields it: seconds are zero. */
  predicate ValidStart(t: TimeOfDay)
  {
    ValidTime(t) && t.second == 0
  }

  /** `a >= b` on `datetime.time`: lexicographic on (hour, minute, second). */
  predicate AtOrAfter(a: TimeOfDay, b: TimeOfDay)
  {
    a.hour > b.hour
    || (a.hour == b.hour && (a.minute > b.minute || (a.minute == b.minute && a.second >= b.second)))
  }

  function MinuteOfDay(t: TimeOfDay): int
  {
    t.hour * 60 + t.minute
  }

  /** Against a parsed start time only the hour and minute of `now` matter. */
  lemma AtOrAfterStartByMinutes(now: TimeOfDay, start: TimeOfDay)
    requires ValidTime(now) && ValidStart(start)
    ensures AtOrAfter(now, start) <==> MinuteOfDay(now) >= MinuteOfDay(start)
  {
    if now.hour > start.hour {
      assert MinuteOfDay(now) >= (start.hour + 1) * 60;
    } else if now.hour < start.hour {
      assert MinuteOfDay(start) >= (now.hour + 1) * 60;
    }
  }
}
