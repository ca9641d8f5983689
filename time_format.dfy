/**
 * The relative-age formatter `format_time`: an elapsed duration becomes
 * "Nd ago", "Nh ago", "Nm ago", "just now", or "unknown" when the entry has
 * no publication time.
 *
 * The elapsed time is a whole number of seconds (the clock is read by the
 * caller). The source subtracts two `datetime` values, and Python normalises
 * the difference into a `timedelta` whose `days` is the floor of the seconds
 * over 86400 and whose `seconds` lies in [0, 86400); `Normalise` states that
 * normalisation, which also holds for negative durations (a publication time
 * in the future).
 */
module TimeFormat {
  import opened Wrappers
  import opened Numerals

  const SecondsPerMinute: int := 60
  const SecondsPerHour: int := 3600
  const SecondsPerDay: int := 86400

  /** The normalised parts of a `timedelta` (microseconds are not modelled). */
  datatype Delta = Delta(days: int, seconds: int)

  /** `timedelta(seconds=total)`: `days` whole days plus `seconds` in [0, 86400). */
  function Normalise(total: int): (d: Delta)
    ensures 0 <= d.seconds < SecondsPerDay
    ensures d.days * SecondsPerDay + d.seconds == total
  {
    Delta(total / SecondsPerDay, total % SecondsPerDay)
  }

  /** The normalised form is the only one with `seconds` in [0, 86400). */
  lemma NormaliseUnique(total: int, d: Delta)
    requires 0 <= d.seconds < SecondsPerDay
    requires d.days * SecondsPerDay + d.seconds == total
    ensures d == Normalise(total)
  {
  }

  /** The bucket `format_time` chooses, with the number it shows. */
  datatype Age = DaysAgo(days: nat) | HoursAgo(hours: nat) | MinutesAgo(minutes: nat) | JustNow

  /** The seconds of the day part of an elapsed time (`diff.seconds`). */
  function DaySeconds(elapsed: int): (s: int)
    ensures 0 <= s < SecondsPerDay
  {
    Normalise(elapsed).seconds
  }

  /**
   * The branches of `format_time` for a present timestamp: whole days when
   * `diff.days > 0`, otherwise hours, minutes or "just now" from `diff.seconds`.
   * Each shown number is the elapsed time (or its day part) rounded down to
   * that unit.
   */
  function AgeOf(elapsed: int): (a: Age)
    ensures a.DaysAgo? <==> elapsed >= SecondsPerDay
    ensures a.DaysAgo? ==> a.days * SecondsPerDay <= elapsed < (a.days + 1) * SecondsPerDay
    ensures a.HoursAgo? <==> elapsed < SecondsPerDay && DaySeconds(elapsed) >= SecondsPerHour
    ensures a.HoursAgo? ==> 1 <= a.hours <= 23
    ensures a.HoursAgo? ==> a.hours * SecondsPerHour <= DaySeconds(elapsed) < (a.hours + 1) * SecondsPerHour
    ensures a.MinutesAgo? <==> elapsed < SecondsPerDay && SecondsPerMinute <= DaySeconds(elapsed) < SecondsPerHour
    ensures a.MinutesAgo? ==> 1 <= a.minutes <= 59
    ensures a.MinutesAgo? ==> a.minutes * SecondsPerMinute <= DaySeconds(elapsed) < (a.minutes + 1) * SecondsPerMinute
    ensures a.JustNow? <==> elapsed < SecondsPerDay && DaySeconds(elapsed) < SecondsPerMinute
  {
    var diff := Normalise(elapsed);
    if diff.days > 0 then DaysAgo(diff.days)
    else if diff.seconds >= SecondsPerHour then HoursAgo(diff.seconds / SecondsPerHour)
    else if diff.seconds >= SecondsPerMinute then MinutesAgo(diff.seconds / SecondsPerMinute)
    else JustNow
  }

  /**
   * The text of an age: the f-strings of `format_time`. Every age but "just
   * now" ends in " ago", and none reads as "unknown".
   */
  function Render(a: Age): (s: string)
    ensures a != JustNow ==> |s| > 5 && s[|s| - 4..] == " ago"
    ensures s != "unknown"
  {
    match a
    case DaysAgo(n) => Decimal(n) + "d ago"
    case HoursAgo(n) => Decimal(n) + "h ago"
    case MinutesAgo(n) => Decimal(n) + "m ago"
    case JustNow => "just now"
  }

  /** Different ages are shown as different texts. */
  lemma RenderInjective(a: Age, b: Age)
    requires Render(a) == Render(b)
    ensures a == b
  {
    var s := Render(a);
    if a.JustNow? || b.JustNow? {
      assert s[0] == 'j';
    } else {
      var n := match a case DaysAgo(d) => d case HoursAgo(h) => h case MinutesAgo(m) => m case JustNow => 0;
      var m := match b case DaysAgo(d) => d case HoursAgo(h) => h case MinutesAgo(m) => m case JustNow => 0;
      assert s == Decimal(n) + s[|Decimal(n)|..];
      assert s == Decimal(m) + s[|Decimal(m)|..];
      assert |Decimal(n)| == |s| - 5 == |Decimal(m)|;
      assert Decimal(n) == s[..|s| - 5] == Decimal(m);
      DecimalInjective(n, m);
    }
  }

  /** `format_time`: "unknown" exactly when the publication time is absent, otherwise the text of its age. */
  function FormatTime(elapsed: Option<int>): (s: string)
    ensures s == "unknown" <==> elapsed.None?
    ensures elapsed.Some? ==> s == Render(AgeOf(elapsed.value))
  {
    match elapsed
    case None => "unknown"
    case Some(t) => Render(AgeOf(t))
  }

  /** The four texts of a present publication time, in terms of the elapsed seconds `t`. */
  lemma FormatTimeTexts(t: int)
    ensures t >= SecondsPerDay ==> FormatTime(Some(t)) == Decimal(t / SecondsPerDay) + "d ago"
    ensures t < SecondsPerDay && t % SecondsPerDay >= SecondsPerHour ==>
              FormatTime(Some(t)) == Decimal((t % SecondsPerDay) / SecondsPerHour) + "h ago"
    ensures t < SecondsPerDay && SecondsPerMinute <= t % SecondsPerDay < SecondsPerHour ==>
              FormatTime(Some(t)) == Decimal((t % SecondsPerDay) / SecondsPerMinute) + "m ago"
    ensures t < SecondsPerDay && t % SecondsPerDay < SecondsPerMinute ==> FormatTime(Some(t)) == "just now"
  {
  }

  /** The seconds an age stands for at least (its lower bound). */
  function MinSeconds(a: Age): int {
    match a
    case DaysAgo(n) => n * SecondsPerDay
    case HoursAgo(n) => n * SecondsPerHour
    case MinutesAgo(n) => n * SecondsPerMinute
    case JustNow => 0
  }

  /** For a past publication time the age never overstates the elapsed time. */
  lemma AgeUnderstates(elapsed: int)
    requires elapsed >= 0
    ensures MinSeconds(AgeOf(elapsed)) <= elapsed
  {
  }

  /** For past publication times an older story never shows a younger age. */
  lemma AgeMonotone(e1: int, e2: int)
    requires 0 <= e1 <= e2
    ensures MinSeconds(AgeOf(e1)) <= MinSeconds(AgeOf(e2))
  {
  }

  /**
   * A publication time in the future (negative elapsed time) is never shown
   * in days; it reads as the time of day its offset normalises to.
   */
  lemma FutureReadsAsDayOffset(elapsed: int)
    requires -SecondsPerDay <= elapsed < 0
    ensures !AgeOf(elapsed).DaysAgo?
    ensures AgeOf(elapsed) == AgeOf(elapsed + SecondsPerDay)
  {
  }

  /** One second in the future shows "23h ago", older than a story published now. */
  lemma OneSecondAhead()
    ensures FormatTime(Some(-1)) == "23h ago"
    ensures FormatTime(Some(0)) == "just now"
    ensures MinSeconds(AgeOf(-1)) > MinSeconds(AgeOf(0))
  {
  }

  /** The documented examples of the formatter. */
  lemma Examples()
    ensures FormatTime(None) == "unknown"
    ensures FormatTime(Some(0)) == "just now"
    ensures FormatTime(Some(90)) == "1m ago"
    ensures FormatTime(Some(2 * SecondsPerHour)) == "2h ago"
    ensures FormatTime(Some(3 * SecondsPerDay)) == "3d ago"
  {
    FormatTimeTexts(0);
    FormatTimeTexts(90);
    FormatTimeTexts(2 * SecondsPerHour);
    FormatTimeTexts(3 * SecondsPerDay);
    assert Decimal(1) == "1" && Decimal(2) == "2" && Decimal(3) == "3";
  }
}
