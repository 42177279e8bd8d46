/** The `HH:MM` command-line argument (`hhmm_type` in tty-countdown.py) and
    the counter the countdown starts from (`timeTargetToSeconds`).  The clock
    is not read here: "now" is a parameter, a reading to the microsecond. */
module TimeArg {
  import opened Wrappers
  import opened Decimal

  const SecondsPerDay: nat := 86400

  type DaySecond = s: int | 0 <= s < 86400

  /** A naive local date-time at whole-second resolution: a day number and
      the second within that day.  Naive date-times have no daylight-saving
      jumps, so every day is 86400 seconds long. */
  datatype Instant = Instant(day: int, second: DaySecond)

  /** Seconds since the start of day 0: the order and difference of instants. */
  function Seconds(t: Instant): int
  {
    t.day * SecondsPerDay + t.second
  }

  /** Microseconds past a whole second. */
  type Micros = m: int | 0 <= m < 1000000

  /** A `datetime.now()` reading: the whole second it falls in and the
      microseconds past that second. */
  datatype Reading = Reading(at: Instant, micros: Micros)

  /** The reading on the time line, in seconds since the start of day 0. */
  function ExactSeconds(now: Reading): real
  {
    Seconds(now.at) as real + now.micros as real / 1000000.0
  }

  /** An instant on a whole second is no later than a reading exactly when it
      is no later than the whole second of that reading: `hhmm_type` can
      compare its target with the reading's whole second. */
  lemma WholeSecondNoLater(t: Instant, now: Reading)
    ensures Seconds(t) as real <= ExactSeconds(now) <==> Seconds(t) <= Seconds(now.at)
  {
  }

  /** The three `ArgumentTypeError`s `hhmm_type` raises. */
  datatype TimeError = InvalidTime | HourOutOfRange(hour: nat) | MinuteOutOfRange(minute: nat)

  /** `re.match(r"^(?P<hour>[0-9]{2}):(?P<min>[0-9]{2})$", s)` succeeds.
      Without MULTILINE, `$` matches at the very end or just before a final
      newline, so one trailing "\n" is accepted. */
  predicate MatchesHhmm(s: string)
    ensures MatchesHhmm(s) ==> 5 <= |s| <= 6 && AllDigits(s[..2]) && s[2] == ':' && AllDigits(s[3..5])
  {
    (|s| == 5 || (|s| == 6 && s[5] == '\n'))
    && IsDigit(s[0]) && IsDigit(s[1]) && s[2] == ':' && IsDigit(s[3]) && IsDigit(s[4])
  }

  /** `f"{h:02d}:{m:02d}"`. */
  function ClockText(h: nat, m: nat): string
  {
    Pad2(h) + ":" + Pad2(m)
  }

  /** `t.strftime("%H:%M")`: the caption text under the countdown. */
  function HourMinute(t: Instant): (r: string)
    ensures MatchesHhmm(r)
  {
    ClockText(t.second / 3600, t.second % 3600 / 60)
  }

  /** `hhmm_type(s)` with the clock reading whose whole second is `now`: the
      next instant, today or tomorrow, whose wall-clock time is the given hour
      and minute.  By `WholeSecondNoLater` the microseconds of the reading
      cannot change the `dt <= now` test. */
  function HhmmType(s: string, now: Instant): (r: Result<Instant, TimeError>)
    ensures r.Ok? ==> Seconds(now) < Seconds(r.value) <= Seconds(now) + SecondsPerDay
    ensures r.Ok? ==> r.value.second % 60 == 0
    ensures r == Err(InvalidTime) <==> !MatchesHhmm(s)
  {
    if !MatchesHhmm(s) then Err(InvalidTime)
    else
      // two digits are never negative, so the source's `h < 0` and
      // `mnt < 0` tests never fire
      var h := Value(s[..2]);
      var mnt := Value(s[3..5]);
      if h > 23 then Err(HourOutOfRange(h))
      else if mnt > 59 then Err(MinuteOutOfRange(mnt))
      else
        var today := Instant(now.day, h * 3600 + mnt * 60);
        if Seconds(today) <= Seconds(now) then Ok(Instant(now.day + 1, today.second))
        else Ok(today)
  }

  /** `(timetarget - now).total_seconds()`: the exact time to the target. */
  function ExactSecondsUntil(target: Instant, now: Reading): real
  {
    Seconds(target) as real - ExactSeconds(now)
  }

  /** The counter the main loop starts from, in whole seconds: the exact time
      to the target rounded down.  Lowering the exact counter by one lowers
      this by one, and the display shows no more of it than this. */
  function SecondsUntil(target: Instant, now: Reading): (r: int)
    ensures r as real <= ExactSecondsUntil(target, now) < r as real + 1.0
  {
    Seconds(target) - Seconds(now.at) - if now.micros > 0 then 1 else 0
  }

  /** What the program keeps of a parsed argument: the caption text of the
      target and the counter's first value. */
  datatype Launch = Launch(ends: string, seconds: int)

  /** Start-up with the argument `s` at the clock reading `now`: the caption
      repeats the hour and minute the user typed, and the counter is the time
      to the target, which is at most one day. */
  function Start(s: string, now: Reading): (r: Result<Launch, TimeError>)
    ensures r.Ok? <==> HhmmType(s, now.at).Ok?
    ensures r.Err? ==> r.error == HhmmType(s, now.at).error
    ensures r.Ok? ==> r.value.ends == s[..5]
                      && r.value.seconds == SecondsUntil(HhmmType(s, now.at).value, now)
                      && 0 <= r.value.seconds <= SecondsPerDay
  {
    match HhmmType(s, now.at)
    case Err(e) => Err(e)
    case Ok(target) =>
      HhmmAcceptedShape(s, now.at);
      Ok(Launch(HourMinute(target), SecondsUntil(target, now)))
  }

  /** The accepted arguments are exactly the `HH:MM` texts of the hours 0..23
      and minutes 0..59, each optionally followed by one newline; the target
      has exactly that hour and minute, and its caption is the argument. */
  lemma HhmmAcceptsClockText(h: nat, m: nat, now: Instant)
    requires h < 24 && m < 60
    ensures HhmmType(ClockText(h, m), now).Ok?
    ensures HhmmType(ClockText(h, m), now) == HhmmType(ClockText(h, m) + "\n", now)
    ensures var t := HhmmType(ClockText(h, m), now).value;
            t.second == h * 3600 + m * 60 && HourMinute(t) == ClockText(h, m)
  {
    var s := ClockText(h, m);
    ValueOfPad2(h);
    ValueOfPad2(m);
    assert s[..2] == Pad2(h) && s[3..5] == Pad2(m);
    var s' := s + "\n";
    assert s'[..2] == Pad2(h) && s'[3..5] == Pad2(m);
    var t := HhmmType(s, now).value;
    assert t.second / 3600 == h && t.second % 3600 / 60 == m;
  }

  /** An accepted argument is the `HH:MM` text of its target, possibly with
      the one trailing newline `$` lets through. */
  lemma HhmmAcceptedShape(s: string, now: Instant)
    requires HhmmType(s, now).Ok?
    ensures var t := HhmmType(s, now).value;
            s == HourMinute(t) || s == HourMinute(t) + "\n"
  {
    var t := HhmmType(s, now).value;
    Pad2OfValue(s[..2]);
    Pad2OfValue(s[3..5]);
    var h, m := Value(s[..2]), Value(s[3..5]);
    assert t.second == h * 3600 + m * 60;
    assert t.second / 3600 == h && t.second % 3600 / 60 == m;
    assert s[..5] == s[..2] + ":" + s[3..5];
    if |s| == 5 {
      assert s == s[..5];
    } else {
      assert s == s[..5] + "\n";
    }
  }

  /** Well-formed `HH:MM` texts outside the clock range are rejected, the hour
      being checked before the minute. */
  lemma HhmmRejectsOutOfRange(h: nat, m: nat, now: Instant)
    requires h < 100 && m < 100 && (h > 23 || m > 59)
    ensures HhmmType(ClockText(h, m), now)
            == Err(if h > 23 then HourOutOfRange(h) else MinuteOutOfRange(m))
    ensures HhmmType(ClockText(h, m) + "\n", now) == HhmmType(ClockText(h, m), now)
  {
    var s := ClockText(h, m);
    ValueOfPad2(h);
    ValueOfPad2(m);
    assert s[..2] == Pad2(h) && s[3..5] == Pad2(m);
    var s' := s + "\n";
    assert s'[..2] == Pad2(h) && s'[3..5] == Pad2(m);
  }

  /** The target rolls over to tomorrow exactly when today's instant with that
      hour and minute is not strictly later than now. */
  lemma RolloverExactlyWhenPassed(s: string, now: Instant)
    requires HhmmType(s, now).Ok?
    ensures var t := HhmmType(s, now).value;
            (t.day == now.day || t.day == now.day + 1)
            && (t.day == now.day + 1 <==> Seconds(Instant(now.day, t.second)) <= Seconds(now))
  {
  }

  /** The time to an accepted target is positive and at most one day; the
      counter, rounded down from it, is between 0 and one day. */
  lemma CounterStartsWithinADay(s: string, now: Reading)
    requires HhmmType(s, now.at).Ok?
    ensures var target := HhmmType(s, now.at).value;
            0.0 < ExactSecondsUntil(target, now) <= SecondsPerDay as real
            && 0 <= SecondsUntil(target, now) <= SecondsPerDay
  {
  }

  /** During 23:59:59, "00:00" aims at the next midnight, at most one second
      away: the counter starts at 1 on the whole second and at 0 after it. */
  lemma MidnightFromLastSecond(day: int, micros: Micros)
    ensures HhmmType("00:00", Instant(day, 86399)) == Ok(Instant(day + 1, 0))
    ensures SecondsUntil(Instant(day + 1, 0), Reading(Instant(day, 86399), micros))
            == if micros == 0 then 1 else 0
  {
    var now := Instant(day, 86399);
    assert ClockText(0, 0) == "00:00";
    HhmmAcceptsClockText(0, 0, now);
    RolloverExactlyWhenPassed("00:00", now);
  }
}
