/** The opening-hours gate `_in_window(open_start, open_end)` of app.py: the app
    is usable only between two "H:M" times of the server's day, and lets
    everyone in when the configured times cannot be read. The clock reading
    `datetime.now().time()` is the parameter `now`. */
module AccessGate {
  import opened Results
  import opened PyStr

  /** A naive `datetime.time`. */
  datatype Clock = Clock(hour: int, minute: int, second: int, micro: int)

  predicate ValidClock(t: Clock) {
    0 <= t.hour < 24 && 0 <= t.minute < 60 && 0 <= t.second < 60 && 0 <= t.micro < 1000000
  }

  /** `a <= b` on `datetime.time`: lexicographic on (hour, minute, second, microsecond). */
  predicate NotAfter(a: Clock, b: Clock) {
    a.hour < b.hour || (a.hour == b.hour &&
      (a.minute < b.minute || (a.minute == b.minute &&
        (a.second < b.second || (a.second == b.second && a.micro <= b.micro)))))
  }

  /** Microseconds since midnight. */
  function MicrosOfDay(t: Clock): int {
    ((t.hour * 60 + t.minute) * 60 + t.second) * 1000000 + t.micro
  }

  /** Comparing times of day field by field is comparing instants of the day. */
  lemma NotAfterIsEarlier(a: Clock, b: Clock)
    requires ValidClock(a) && ValidClock(b)
    ensures NotAfter(a, b) <==> MicrosOfDay(a) <= MicrosOfDay(b)
  {
  }

  /** `datetime.time(h, m)` accepts these and raises ValueError for the rest. */
  predicate ValidHM(h: int, m: int) {
    0 <= h < 24 && 0 <= m < 60
  }

  /** `h, m = map(int, s.split(":"))`: None when `s` does not have exactly two
      ':'-separated fields or a field is not an integer (the ValueError). */
  function ParseHM(s: string): (r: Option<(int, int)>)
    ensures r.Some? <==> (|SplitOn(s, ':')| == 2
      && ParseInt(SplitOn(s, ':')[0]).Some? && ParseInt(SplitOn(s, ':')[1]).Some?)
  {
    var parts := SplitOn(s, ':');
    if |parts| != 2 then None
    else
      match (ParseInt(parts[0]), ParseInt(parts[1]))
      case (Some(h), Some(m)) => Some((h, m))
      case _ => None
  }

  /** `_in_window(openStart, openEnd)` at time of day `now`. Both bounds are
      split and converted before anything else; then the chained comparison
      `time(sh, sm) <= now <= time(eh, em)` builds `time(sh, sm)`, compares,
      and only when that holds builds `time(eh, em)`. Every exception raised on
      the way makes the gate answer true. */
  function InWindow(openStart: string, openEnd: string, now: Clock): bool {
    match (ParseHM(openStart), ParseHM(openEnd))
    case (Some((sh, sm)), Some((eh, em))) =>
      if !ValidHM(sh, sm) then true
      else if !NotAfter(Clock(sh, sm, 0, 0), now) then false
      else if !ValidHM(eh, em) then true
      else NotAfter(now, Clock(eh, em, 0, 0))
    case _ => true
  }

  /** The first microsecond of minute h:m. */
  function MinuteStart(h: int, m: int): int {
    (h * 60 + m) * 60000000
  }

  /** The gate fails open: an unreadable bound, or a start that is not a valid
      time, lets the user in whatever the time. */
  lemma FailOpen(openStart: string, openEnd: string, now: Clock)
    requires ParseHM(openStart).None? || ParseHM(openEnd).None?
      || !ValidHM(ParseHM(openStart).value.0, ParseHM(openStart).value.1)
    ensures InWindow(openStart, openEnd, now)
  {
  }

  /** A bound holding an information separator (U+001C..U+001F) cannot be
      read by `int()`, so the gate lets the user in at any time. */
  lemma SeparatorBoundFailsOpen(now: Clock)
    ensures InWindow("\U{001C}9:00", "17:00", now)
  {
    var a := "\U{001C}9";
    assert ':' !in a && ':' !in "00";
    assert "\U{001C}9:00" == a + [':'] + "00";
    SplitPair(a, ':', "00");
    assert HasSeparator(a) by { assert IsSeparator(a[0]); }
    FailOpen("\U{001C}9:00", "17:00", now);
  }

  /** A start bound whose hour field has more digits than `int()` converts
      (4301 zeros, say) cannot be read, so the gate lets the user in at any
      time, whatever the end bound. */
  lemma LongBoundFailsOpen(digits: string, openEnd: string, now: Clock)
    requires |digits| > MaxDigits
    requires forall i :: 0 <= i < |digits| ==> IsDigit(digits[i])
    ensures InWindow(digits + ":00", openEnd, now)
  {
    assert ':' !in digits by {
      forall i | 0 <= i < |digits| ensures digits[i] != ':' {
        assert IsDigit(digits[i]);
      }
    }
    assert ':' !in "00";
    assert digits + ":00" == digits + [':'] + "00";
    SplitPair(digits, ':', "00");
    ParseIntRejectsLongRun(digits);
    FailOpen(digits + ":00", openEnd, now);
  }

  /** When both bounds are valid times the window is the closed interval from
      the first instant of the start minute to the first instant of the end
      minute, at full clock precision. */
  lemma WindowIsInterval(openStart: string, openEnd: string, sh: int, sm: int, eh: int, em: int, now: Clock)
    requires ParseHM(openStart) == Some((sh, sm)) && ValidHM(sh, sm)
    requires ParseHM(openEnd) == Some((eh, em)) && ValidHM(eh, em)
    requires ValidClock(now)
    ensures InWindow(openStart, openEnd, now)
        <==> MinuteStart(sh, sm) <= MicrosOfDay(now) <= MinuteStart(eh, em)
  {
    GateOfValidBounds(openStart, openEnd, sh, sm, eh, em, now);
    ClockInterval(sh, sm, eh, em, now);
  }

  /** Between two minute starts, at full clock precision. */
  lemma ClockInterval(sh: int, sm: int, eh: int, em: int, now: Clock)
    requires ValidHM(sh, sm) && ValidHM(eh, em) && ValidClock(now)
    ensures (NotAfter(Clock(sh, sm, 0, 0), now) && NotAfter(now, Clock(eh, em, 0, 0)))
        <==> MinuteStart(sh, sm) <= MicrosOfDay(now) <= MinuteStart(eh, em)
  {
    NotAfterIsEarlier(Clock(sh, sm, 0, 0), now);
    NotAfterIsEarlier(now, Clock(eh, em, 0, 0));
    assert MicrosOfDay(Clock(sh, sm, 0, 0)) == MinuteStart(sh, sm);
    assert MicrosOfDay(Clock(eh, em, 0, 0)) == MinuteStart(eh, em);
  }

  /** With valid bounds the gate is the chained comparison itself. */
  lemma GateOfValidBounds(openStart: string, openEnd: string, sh: int, sm: int, eh: int, em: int, now: Clock)
    requires ParseHM(openStart) == Some((sh, sm)) && ValidHM(sh, sm)
    requires ParseHM(openEnd) == Some((eh, em)) && ValidHM(eh, em)
    ensures InWindow(openStart, openEnd, now) == (NotAfter(Clock(sh, sm, 0, 0), now) && NotAfter(now, Clock(eh, em, 0, 0)))
    ensures InWindowByMinute(openStart, openEnd, now)
        == (NotAfter(Clock(sh, sm, 0, 0), now) && NotAfter(Clock(now.hour, now.minute, 0, 0), Clock(eh, em, 0, 0)))
  {
  }

  /** A start later than the end is never open: there is no wrap past midnight. */
  lemma InvertedWindowNeverOpen(openStart: string, openEnd: string, sh: int, sm: int, eh: int, em: int, now: Clock)
    requires ParseHM(openStart) == Some((sh, sm)) && ValidHM(sh, sm)
    requires ParseHM(openEnd) == Some((eh, em)) && ValidHM(eh, em)
    requires MinuteStart(eh, em) < MinuteStart(sh, sm)
    requires ValidClock(now)
    ensures !InWindow(openStart, openEnd, now)
  {
    WindowIsInterval(openStart, openEnd, sh, sm, eh, em, now);
  }

  /** Within the end minute only its first instant is inside the window. */
  lemma EndMinuteOpenOnlyAtZero(openStart: string, openEnd: string, sh: int, sm: int, eh: int, em: int, now: Clock)
    requires ParseHM(openStart) == Some((sh, sm)) && ValidHM(sh, sm)
    requires ParseHM(openEnd) == Some((eh, em)) && ValidHM(eh, em)
    requires MinuteStart(sh, sm) <= MinuteStart(eh, em)
    requires ValidClock(now) && now.hour == eh && now.minute == em
    ensures InWindow(openStart, openEnd, now) <==> now.second == 0 && now.micro == 0
  {
    WindowIsInterval(openStart, openEnd, sh, sm, eh, em, now);
  }

  /** An end bound that reads as two integers but is not a valid time is only
      looked at once `now` has passed the start: before the start the gate is
      shut, after it the ValueError opens it for the rest of the day. */
  lemma EndOutOfRange(openStart: string, openEnd: string, sh: int, sm: int, eh: int, em: int, now: Clock)
    requires ParseHM(openStart) == Some((sh, sm)) && ValidHM(sh, sm)
    requires ParseHM(openEnd) == Some((eh, em)) && !ValidHM(eh, em)
    requires ValidClock(now)
    ensures InWindow(openStart, openEnd, now) <==> MinuteStart(sh, sm) <= MicrosOfDay(now)
  {
    assert InWindow(openStart, openEnd, now) == NotAfter(Clock(sh, sm, 0, 0), now);
    NotAfterIsEarlier(Clock(sh, sm, 0, 0), now);
    assert MicrosOfDay(Clock(sh, sm, 0, 0)) == MinuteStart(sh, sm);
  }

  /** `"%02d:%02d" % (h, m)`. */
  function FormatHM(h: nat, m: nat): string
    requires h < 100 && m < 100
  {
    TwoDigits(h) + ":" + TwoDigits(m)
  }

  /** A bound with exactly two integer fields reads as that pair. */
  lemma ParseHMOfFields(s: string, a: string, b: string, h: int, m: int)
    requires SplitOn(s, ':') == [a, b]
    requires ParseInt(a) == Some(h) && ParseInt(b) == Some(m)
    ensures ParseHM(s) == Some((h, m))
  {
  }

  /** The bound reader takes back what "HH:MM" formatting writes. */
  lemma FormatHMRoundTrip(h: nat, m: nat)
    requires h < 100 && m < 100
    ensures ParseHM(FormatHM(h, m)) == Some((h, m))
  {
    var a, b := TwoDigits(h), TwoDigits(m);
    assert ':' !in a && ':' !in b;
    assert FormatHM(h, m) == a + [':'] + b;
    SplitPair(a, ':', b);
    ParseTwoDigits(h);
    ParseTwoDigits(m);
    ParseHMOfFields(FormatHM(h, m), a, b, h, m);
  }

  /** The gate as the defaults configure it, "00:00" to "23:59", is shut for
      all of the last minute of the day but its first instant. */
  lemma DefaultHoursShutInLastMinute()
    ensures InWindow("00:00", "23:59", Clock(23, 59, 0, 0))
    ensures !InWindow("00:00", "23:59", Clock(23, 59, 30, 0))
    ensures !InWindow("00:00", "23:59", Clock(23, 59, 59, 999999))
  {
    assert FormatHM(0, 0) == "00:00";
    assert FormatHM(23, 59) == "23:59";
    FormatHMRoundTrip(0, 0);
    FormatHMRoundTrip(23, 59);
    WindowIsInterval("00:00", "23:59", 0, 0, 23, 59, Clock(23, 59, 0, 0));
    WindowIsInterval("00:00", "23:59", 0, 0, 23, 59, Clock(23, 59, 30, 0));
    WindowIsInterval("00:00", "23:59", 0, 0, 23, 59, Clock(23, 59, 59, 999999));
  }

  /** The gate with the end bound read at minute precision, so that the end
      minute is inside the window as a whole. */
  function InWindowByMinute(openStart: string, openEnd: string, now: Clock): bool {
    match (ParseHM(openStart), ParseHM(openEnd))
    case (Some((sh, sm)), Some((eh, em))) =>
      if !ValidHM(sh, sm) then true
      else if !NotAfter(Clock(sh, sm, 0, 0), now) then false
      else if !ValidHM(eh, em) then true
      else NotAfter(Clock(now.hour, now.minute, 0, 0), Clock(eh, em, 0, 0))
    case _ => true
  }

  /** Read at minute precision, valid bounds open the gate exactly in the
      minutes from start to end, both included. */
  lemma ByMinuteIsMinuteInterval(openStart: string, openEnd: string, sh: int, sm: int, eh: int, em: int, now: Clock)
    requires ParseHM(openStart) == Some((sh, sm)) && ValidHM(sh, sm)
    requires ParseHM(openEnd) == Some((eh, em)) && ValidHM(eh, em)
    requires ValidClock(now)
    ensures InWindowByMinute(openStart, openEnd, now)
        <==> MinuteStart(sh, sm) <= MicrosOfDay(now) < MinuteStart(eh, em) + 60000000
  {
    GateOfValidBounds(openStart, openEnd, sh, sm, eh, em, now);
    NotAfterIsEarlier(Clock(sh, sm, 0, 0), now);
    NotAfterIsEarlier(Clock(now.hour, now.minute, 0, 0), Clock(eh, em, 0, 0));
    MinuteBound(now.hour * 60 + now.minute, eh * 60 + em, MicrosOfDay(now));
  }

  /** An instant in minute `a` is before the end of minute `b` exactly when
      `a` is not after `b`. */
  lemma MinuteBound(a: int, b: int, x: int)
    requires a * 60000000 <= x < a * 60000000 + 60000000
    ensures a <= b <==> x < b * 60000000 + 60000000
  {
  }

  /** The minute-precision gate only adds time: whenever the gate as written
      is open, so is the corrected one. */
  lemma ByMinuteWidens(openStart: string, openEnd: string, now: Clock)
    requires ValidClock(now)
    ensures InWindow(openStart, openEnd, now) ==> InWindowByMinute(openStart, openEnd, now)
  {
  }

  /** With the default bounds the minute-precision gate is open all day. */
  lemma DefaultHoursOpenAllDayByMinute(now: Clock)
    requires ValidClock(now)
    ensures InWindowByMinute("00:00", "23:59", now)
  {
    assert FormatHM(0, 0) == "00:00";
    assert FormatHM(23, 59) == "23:59";
    FormatHMRoundTrip(0, 0);
    FormatHMRoundTrip(23, 59);
    ByMinuteIsMinuteInterval("00:00", "23:59", 0, 0, 23, 59, now);
  }
}
