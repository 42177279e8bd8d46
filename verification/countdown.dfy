/** The remaining-time text (`get_times` in tty-countdown.py) and the main
    loop that draws one frame per second and lowers the counter.  The
    counter is a whole number of seconds; the wall-clock text and the
    terminal size of each frame are inputs. */
module Countdown {
  import opened Wrappers
  import opened Text
  import opened Decimal
  import opened TimeArg
  import opened Render
  import opened Centering

  /** The text shown once the target has passed. */
  const Expired := "00:00:00"

  /** Hours, minutes and seconds of a remaining time. */
  datatype Fields = Fields(hours: nat, minutes: nat, seconds: nat)

  function TotalSeconds(f: Fields): nat
  {
    f.hours * 3600 + f.minutes * 60 + f.seconds
  }

  /** The fields `get_times` derives from a positive remaining time: whole
      hours (not wrapped at 24), then whole minutes and whole seconds of what
      is left. */
  function RemainingFields(left: int): (f: Fields)
    requires left > 0
    ensures f.minutes < 60 && f.seconds < 60 && TotalSeconds(f) == left
  {
    // total_hours = left / 3600 as a real; its fractional part is rest / 3600
    var hours := left / 3600;
    var rest := left - hours * 3600;
    // (total_hours - hours) * 60 == rest / 60
    var minutes := rest / 60;
    // ((total_hours - hours) * 60 - minutes) * 60 == rest - minutes * 60
    var seconds := rest - minutes * 60;
    Fields(hours, minutes, if seconds >= 60 then 0 else seconds)
  }

  /** `f"{hours:02d}:{minutes:02d}:{seconds:02d}"`: text the renderer can draw. */
  function FormatFields(f: Fields): (r: string)
    ensures IsGlyphText(r) && |r| >= 8
  {
    Pad2(f.hours) + ":" + Pad2(f.minutes) + ":" + Pad2(f.seconds)
  }

  /** The `remaining_time` text of `get_times(left)`: the expired text when
      nothing is left, the fields otherwise.  Either way the renderer can
      draw it. */
  function RemainingTime(left: int): (r: string)
    ensures IsGlyphText(r) && |r| >= 8
  {
    if left <= 0 then Expired else FormatFields(RemainingFields(left))
  }

  /** Lines 95-104 on the exact counter the main loop carries, a real number
      of seconds: `int()` of a positive value rounds it down.  Floating-point
      rounding is not modelled. */
  function ExactRemainingTime(left: real): string
  {
    if left <= 0.0 then Expired
    else
      var totalHours := left / 3600.0;
      var hours := totalHours.Floor;
      var minutes := ((totalHours - hours as real) * 60.0).Floor;
      var seconds := (((totalHours - hours as real) * 60.0 - minutes as real) * 60.0).Floor;
      FormatFields(Fields(hours, minutes, if seconds >= 60 then 0 else seconds))
  }

  /** Whole hours of a non-negative number of seconds, and the whole
      seconds of what is left after them. */
  lemma SplitHours(x: real)
    requires x >= 0.0
    ensures var q := (x / 3600.0).Floor;
            q == x.Floor / 3600 && (x - (q * 3600) as real).Floor == x.Floor % 3600
  {
    var n, f := x.Floor, x - x.Floor as real;
    var q, r := n / 3600, n % 3600;
    assert x / 3600.0 == q as real + (r as real + f) / 3600.0;
    assert x - (q * 3600) as real == r as real + f;
  }

  /** Whole minutes of a non-negative number of seconds, and the whole
      seconds of what is left after them. */
  lemma SplitMinutes(x: real)
    requires x >= 0.0
    ensures var q := (x / 60.0).Floor;
            q == x.Floor / 60 && (x - (q * 60) as real).Floor == x.Floor % 60
  {
    var n, f := x.Floor, x - x.Floor as real;
    var q, r := n / 60, n % 60;
    assert x / 60.0 == q as real + (r as real + f) / 60.0;
    assert x - (q * 60) as real == r as real + f;
  }

  /** The fields lines 98-101 take from a positive exact counter are those of
      its whole seconds. */
  lemma ExactFields(left: real)
    requires left > 0.0
    ensures var n := left.Floor;
            var totalHours := left / 3600.0;
            var hours := totalHours.Floor;
            var minutes := ((totalHours - hours as real) * 60.0).Floor;
            var seconds := (((totalHours - hours as real) * 60.0 - minutes as real) * 60.0).Floor;
            hours == n / 3600 && minutes == n % 3600 / 60 && seconds == n % 60
  {
    var totalHours := left / 3600.0;
    var hours := totalHours.Floor;
    SplitHours(left);
    var rest := left - (hours * 3600) as real;
    assert (totalHours - hours as real) * 60.0 == rest / 60.0;
    var minutes := (rest / 60.0).Floor;
    SplitMinutes(rest);
    assert ((totalHours - hours as real) * 60.0 - minutes as real) * 60.0 == rest - (minutes * 60) as real;
    assert left.Floor % 3600 % 60 == left.Floor % 60;
  }

  /** The fields of a positive whole-second counter, as quotients and
      remainders. */
  lemma RemainingFieldsDivMod(n: int)
    requires n > 0
    ensures RemainingFields(n) == Fields(n / 3600, n % 3600 / 60, n % 60)
  {
  }

  /** The display of the exact counter is the display of its whole seconds:
      a counter strictly between 0 and 1 takes the `else` branch of line 95
      but still reads `00:00:00`. */
  lemma ExactDisplay(left: real)
    ensures ExactRemainingTime(left) == RemainingTime(left.Floor)
  {
    var n := left.Floor;
    if left > 0.0 {
      ExactFields(left);
      var f := Fields(n / 3600, n % 3600 / 60, n % 60);
      assert ExactRemainingTime(left) == FormatFields(f);
      if n == 0 {
        assert f == Fields(0, 0, 0);
        assert Expired == FormatFields(Fields(0, 0, 0));
      } else {
        RemainingFieldsDivMod(n);
        assert RemainingTime(n) == FormatFields(f);
      }
    } else {
      assert n <= 0;
    }
  }

  /** The main loop lowers the exact counter by one per frame; after `k`
      frames the display is that of the whole-second counter lowered `k`
      times. */
  lemma ExactDisplayLowered(left: real, k: nat)
    ensures ExactRemainingTime(left - k as real) == RemainingTime(left.Floor - k)
  {
    var lowered := left - k as real;
    assert lowered.Floor == left.Floor - k;
    ExactDisplay(lowered);
  }

  /** Reads an `H…H:MM:SS` text back into its fields. */
  function ParseFields(s: string): Option<Fields>
  {
    if |s| < 8 then None
    else
      var n := |s|;
      var hh, mm, ss := s[..n - 6], s[n - 5..n - 3], s[n - 2..];
      if s[n - 6] == ':' && s[n - 3] == ':' && AllDigits(hh) && AllDigits(mm) && AllDigits(ss)
      then Some(Fields(Value(hh), Value(mm), Value(ss)))
      else None
  }

  /** Formatting fields with two-digit minutes and seconds can be read back. */
  lemma ParseFormatFields(f: Fields)
    requires f.minutes < 100 && f.seconds < 100
    ensures ParseFields(FormatFields(f)) == Some(f)
  {
    var s := FormatFields(f);
    var n := |s|;
    var ph, pm, ps := Pad2(f.hours), Pad2(f.minutes), Pad2(f.seconds);
    assert s[..n - 6] == ph && s[n - 5..n - 3] == pm && s[n - 2..] == ps;
    ValueOfPad2(f.hours);
    ValueOfPad2(f.minutes);
    ValueOfPad2(f.seconds);
  }

  /** The remaining-time text always reads back as minutes and seconds below
      60 that add up to the time left, or to zero once it has run out: the
      display is never negative and never loses time. */
  lemma ReadBackRemaining(left: int)
    ensures ParseFields(RemainingTime(left)).Some?
    ensures var f := ParseFields(RemainingTime(left)).value;
            f.minutes < 60 && f.seconds < 60
            && TotalSeconds(f) == if left > 0 then left else 0
  {
    if left > 0 {
      ParseFormatFields(RemainingFields(left));
    } else {
      assert Expired == FormatFields(Fields(0, 0, 0));
      ParseFormatFields(Fields(0, 0, 0));
    }
  }

  /** The display reads `00:00:00` exactly when no time is left. */
  lemma ExpiredExactlyWhenRunOut(left: int)
    ensures RemainingTime(left) == Expired <==> left <= 0
  {
    ReadBackRemaining(left);
    if left > 0 && RemainingTime(left) == Expired {
      ReadBackRemaining(0);
    }
  }

  /** Once the display reads `00:00:00` it reads so for every lower counter. */
  lemma ExpiredStays(left: int, later: int)
    requires RemainingTime(left) == Expired && later <= left
    ensures RemainingTime(later) == Expired
  {
    ExpiredExactlyWhenRunOut(left);
    ExpiredExactlyWhenRunOut(later);
  }

  /** `now.strftime("%H:%M:%S")` for a wall clock at second `second` of its day. */
  function WallClock(second: DaySecond): (r: string)
    ensures IsGlyphText(r) && |r| == 8
  {
    FormatFields(Fields(second / 3600, second % 3600 / 60, second % 60))
  }

  /** The inputs of one frame: the wall-clock reading and the terminal size. */
  datatype Tick = Tick(clock: DaySecond, termHeight: int, termWidth: int)

  /** What one frame is drawn from: its tick and the counter `left`. */
  datatype Shot = Shot(tick: Tick, left: int)

  /** What one frame of the main loop prints:
      `center(asciiFormat(*get_times(left)))` with the wall clock and the
      terminal size of the shot's tick. */
  function Screen(font: ValidFont, ends: string, shot: Shot): string
  {
    var tick := shot.tick;
    Center(Frame(font, WallClock(tick.clock), RemainingTime(shot.left), ends), tick.termHeight, tick.termWidth)
  }

  /** What a screen shows, line by line: the vertical margin's empty lines,
      then the rows of the wall clock, two empty lines, the rows of the
      remaining time, two empty lines and the caption, every one of them
      between the horizontal margin's spaces, then the empty lines again. */
  lemma ScreenLines(font: ValidFont, ends: string, shot: Shot)
    requires SingleLineRows(font) && '\n' !in ends
    ensures var clock, remaining := WallClock(shot.tick.clock), RemainingTime(shot.left);
            var frame := Frame(font, clock, remaining, ends);
            var v := VerticalMargin(frame, shot.tick.termHeight);
            var pad := Repeat(' ', HorizontalMargin(frame, shot.tick.termWidth));
            Lines(Screen(font, ends, shot))
            == Blank(v)
               + PadEach(BlockLines(font, clock) + ["", ""] + BlockLines(font, remaining) + ["", ""] + [Caption(ends)], pad)
               + Blank(v)
  {
    var clock, remaining := WallClock(shot.tick.clock), RemainingTime(shot.left);
    FrameLines(font, clock, remaining, ends);
    CenteredLines(Frame(font, clock, remaining, ends), shot.tick.termHeight, shot.tick.termWidth);
  }

  /** One pass of the main loop's body before the counter is lowered: the
      wall-clock and remaining-time texts for counter `seconds`, drawn and
      centered (tty-countdown.py lines 130-131). */
  method DrawFrame(font: Font, ends: string, tick: Tick, seconds: int) returns (screen: string)
    requires WellFormedFont(font)
    ensures screen == Screen(font, ends, Shot(tick, seconds))
  {
    var currentTime := WallClock(tick.clock);
    var remainingTime := RemainingTime(seconds);
    var frame := AsciiFormat(font, currentTime, remainingTime, ends);
    screen := Center(frame, tick.termHeight, tick.termWidth);
  }

  /** The frames the main loop draws for `ticks` when the counter starts at
      `left`: the first with `left`, the rest with the counter one lower. */
  function Shots(ticks: seq<Tick>, left: int): (r: seq<Shot>)
    ensures |r| == |ticks|
    decreases |ticks|
  {
    if |ticks| == 0 then [] else [Shot(ticks[0], left)] + Shots(ticks[1..], left - 1)
  }

  /** Frame `k` is drawn with tick `k` and the counter lowered `k` times. */
  lemma {:induction false} ShotAt(ticks: seq<Tick>, start: int, k: nat)
    requires k < |ticks|
    ensures Shots(ticks, start)[k] == Shot(ticks[k], start - k)
    decreases k
  {
    if k > 0 {
      ShotAt(ticks[1..], start - 1, k - 1);
    }
  }

  /** `[f(x) for x in s]`. */
  function Map<A, B>(f: A -> B, s: seq<A>): (r: seq<B>)
    ensures |r| == |s|
    ensures forall i | 0 <= i < |s| :: r[i] == f(s[i])
  {
    seq(|s|, i requires 0 <= i < |s| => f(s[i]))
  }

  lemma MapCons<A, B>(f: A -> B, x: A, s: seq<A>)
    ensures Map(f, [x] + s) == [f(x)] + Map(f, s)
  {
    var all := [x] + s;
    forall i | 0 <= i < |all|
      ensures Map(f, all)[i] == ([f(x)] + Map(f, s))[i]
    {
      if i > 0 {
        assert all[i] == s[i - 1];
      }
    }
  }

  /** The screens printed for a run of frames, one per frame. */
  function Screens(font: ValidFont, ends: string, shots: seq<Shot>): seq<string>
  {
    Map(shot => Screen(font, ends, shot), shots)
  }

  /** The main loop for as many frames as `ticks` has.  It never stops on its
      own: it prints the screens of the frames for a counter starting at
      `start`, and `left` ends at `start - |ticks|`, below zero once the
      frames outlast the countdown. */
  method RunCountdown(font: Font, ends: string, start: int, ticks: seq<Tick>)
    returns (screens: seq<string>, left: int)
    requires WellFormedFont(font)
    ensures screens == Screens(font, ends, Shots(ticks, start))
    ensures left == start - |ticks|
  {
    var seconds := start;
    var pending := ticks;
    screens := [];
    while |pending| > 0
      invariant seconds == start - (|ticks| - |pending|)
      invariant screens + Screens(font, ends, Shots(pending, seconds)) == Screens(font, ends, Shots(ticks, start))
    {
      var screen := DrawFrame(font, ends, pending[0], seconds);
      ghost var later := Screens(font, ends, Shots(pending[1..], seconds - 1));
      MapCons(shot => Screen(font, ends, shot), Shot(pending[0], seconds), Shots(pending[1..], seconds - 1));
      AppendAssoc(screens, [screen], later);
      screens := screens + [screen];
      pending := pending[1..];
      seconds := seconds - 1;
    }
    left := seconds;
  }

  /** Frame `k` printed by the main loop is the screen for tick `k` with the
      counter lowered `k` times. */
  lemma FrameShown(font: Font, ends: string, ticks: seq<Tick>, start: int, k: nat)
    requires WellFormedFont(font) && k < |ticks|
    ensures |Screens(font, ends, Shots(ticks, start))| == |ticks|
    ensures Screens(font, ends, Shots(ticks, start))[k] == Screen(font, ends, Shot(ticks[k], start - k))
  {
    ShotAt(ticks, start, k);
  }

  /** The loop goes on after the countdown has run out: once a frame shows
      `00:00:00`, so does every later frame. */
  lemma ExpiredFramesStay(ticks: seq<Tick>, start: int, k: nat, j: nat)
    requires k <= j < |ticks|
    requires RemainingTime(Shots(ticks, start)[k].left) == Expired
    ensures RemainingTime(Shots(ticks, start)[j].left) == Expired
  {
    var shots := Shots(ticks, start);
    ShotAt(ticks, start, k);
    ShotAt(ticks, start, j);
    ExpiredStays(shots[k].left, shots[j].left);
  }

  /** With one second left the display shows `00:00:01`, and with no time
      left `00:00:00`. */
  lemma LastSecondShown(left: int)
    requires left <= 0
    ensures RemainingTime(1) == "00:00:01"
    ensures RemainingTime(left) == Expired
  {
    calc {
      RemainingTime(1);
      { assert RemainingFields(1) == Fields(0, 0, 1); }
      FormatFields(Fields(0, 0, 1));
      { assert Pad2(0) == "00" && Pad2(1) == "01"; }
      "00:00:01";
    }
    ExpiredExactlyWhenRunOut(left);
  }

  /** Aiming at 00:00 during 23:59:59: read on the whole second, the counter
      starts at 1, the first frame shows `00:00:01` and every later one
      `00:00:00`; read any later in that second, the counter starts at 0 and
      every frame shows `00:00:00`. */
  lemma OneSecondToMidnight(day: int, micros: Micros, ticks: seq<Tick>, k: nat)
    requires k < |ticks|
    ensures HhmmType("00:00", Instant(day, 86399)) == Ok(Instant(day + 1, 0))
    ensures var start := SecondsUntil(Instant(day + 1, 0), Reading(Instant(day, 86399), micros));
            start == (if micros == 0 then 1 else 0)
            && RemainingTime(Shots(ticks, start)[k].left)
               == if k == 0 && micros == 0 then "00:00:01" else Expired
  {
    MidnightFromLastSecond(day, micros);
    var start := SecondsUntil(Instant(day + 1, 0), Reading(Instant(day, 86399), micros));
    ShotAt(ticks, start, k);
    LastSecondShown(if k == 0 && micros == 0 then 0 else Shots(ticks, start)[k].left);
  }
}
