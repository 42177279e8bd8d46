# tty-countdown in Dafny

This project models a terminal countdown. The program:

- takes a target wall-clock time as an `HH:MM` argument;
- works out how many seconds are left until the next instant with that
  hour and minute;
- once a second, prints a frame. The frame shows the current time and the
  remaining time in large glyph digits, with a caption naming the target.
  It is centered in the terminal.

The model covers tty-countdown.py except its I/O, its timing and its
floating-point arithmetic (see "Left out"). Each part below becomes one
module:

- **`TimeArg`**: `hhmm_type`, the argument validator and day rollover, and
  the start-up lines that turn its target into a caption and a counter.
  "Now" is a parameter: a clock reading to the microsecond.
- **`Render`**: `asciiFormat`, the frame builder. It is an imperative method,
  `AsciiFormat`, which appends to a string the way the source does. It is
  proved equal to a specification function, `Frame`. The lemmas describe the
  frame's line layout. The font and the caption text are parameters.
- **`Centering`**: `center`, as a pure function of the frame and the
  terminal size. Its lemmas give the centered frame line by line, and prove
  that the frame can be recovered from it.
- **`Countdown`**: the remaining-time half of `get_times`, and the main loop.
  The source's counter is a real number of seconds, since the start time
  has a fractional part. The loop carries it rounded down, and
  `ExactDisplay` proves that the display depends only on that whole part.
  The loop is `RunCountdown`, a `while` loop over one tick per frame. Each
  tick carries that frame's wall clock and terminal size. The loop is
  proved to print exactly the screens of the specification function
  `Screens`.
- **`Text`** and **`Decimal`**: the Python primitives these parts rely on.
  These are `split("\n")`, `"\n".join`, string repetition, `{:02d}`
  formatting and `int()` of digit strings.

Three facts about the code shape the model:

- the loop never stops by itself when the countdown reaches zero. It keeps
  printing `00:00:00` until it is interrupted;
- the only accepted argument form is `HH:MM`;
- the font is the fixed table `numbers.font`. There is no font file to load
  and no option to turn centering off.

## Model

| member | source | states |
|---|---|---|
| TimeArg.HhmmType | tty-countdown.py:14-34 | The argument is refused as an invalid time exactly when it does not match the `HH:MM` pattern. An accepted target is strictly after now and at most one day later, on a whole minute. |
| TimeArg.MatchesHhmm | tty-countdown.py:15-17 | A matching argument is five characters, or six with a final newline. Its `hour` and `min` groups are two ASCII digits each, with a colon between them. |
| TimeArg.WholeSecondNoLater | tty-countdown.py:32 | An instant on a whole second is no later than a clock reading exactly when it is no later than the reading's whole second. So the target can be compared with the whole second. |
| TimeArg.SecondsUntil | tty-countdown.py:37-38 | The counter is the exact time from the reading to the target, rounded down: it is at most that time and less than one second below it. |
| TimeArg.HhmmAcceptsClockText | tty-countdown.py:14-34 | Every `HH:MM` text with hour 0..23 and minute 0..59 is accepted, with or without one trailing newline. The target has exactly that hour and minute, and its `%H:%M` caption is the text itself. |
| TimeArg.HhmmAcceptedShape | tty-countdown.py:15-16 | An accepted argument is its target's `HH:MM` text, or that text followed by the single newline `$` lets through. |
| TimeArg.HhmmRejectsOutOfRange | tty-countdown.py:21-28 | A well-formed text with hour above 23 is refused with the hour error. Otherwise a minute above 59 is refused with the minute error: the hour is checked first. The same holds with one trailing newline. |
| TimeArg.RolloverExactlyWhenPassed | tty-countdown.py:29-33 | The target falls today or tomorrow. It is tomorrow exactly when today's instant at that hour and minute is not later than now. |
| TimeArg.CounterStartsWithinADay | tty-countdown.py:37-38 | The exact time from the reading to an accepted target is more than 0 and at most 86400 seconds. The counter, rounded down from it, is between 0 and 86400. |
| TimeArg.MidnightFromLastSecond | tty-countdown.py:29-38 | During 23:59:59, `00:00` is the next day's midnight. The counter starts at 1 on the whole second and at 0 any later in that second. |
| TimeArg.HourMinute | tty-countdown.py:48 | The `%H:%M` caption text of any instant matches the `HH:MM` pattern. |
| TimeArg.Start | tty-countdown.py:46-49 | Start-up succeeds exactly when the argument is accepted, and otherwise fails with the same error. On success the caption is the typed `HH:MM`. The counter is the time from the reading to the target, between 0 and one day. |
| Decimal.Pad2 | tty-countdown.py:104 | `{:02d}` gives only digits, at least two, and exactly two below 100. |
| Decimal.ValueOfPad2 | tty-countdown.py:104 | Reading back the `{:02d}` text of a number gives the number. |
| Decimal.Pad2OfValue | tty-countdown.py:19-20 | Any two ASCII digits are the `{:02d}` text of their value, which is below 100. |
| Render.GlyphIndex | tty-countdown.py:53-54 | Each digit or colon selects one of glyphs 0..10: the colon exactly glyph 10, and each digit its own value. |
| Render.GlyphRow | tty-countdown.py:59-61 | An output row is as long as its glyph rows together plus one space between each neighbouring pair. |
| Render.BlockLines | tty-countdown.py:55 | A text's block has as many output rows as glyph 0 has rows. |
| Render.AppendRow | tty-countdown.py:59-62 | The inner loop appends output row `i`, the glyph rows joined by single spaces, then a newline. |
| Render.BlockSnoc | tty-countdown.py:58-62 | Each pass of the outer loop extends the block by one output row and its newline. |
| Render.AppendBlock | tty-countdown.py:58-62 | The outer loop appends every output row of the text, each ended by a newline, in order. |
| Render.AppendGap | tty-countdown.py:63-64 | The two-pass loop appends exactly two newlines. |
| Render.Frame | tty-countdown.py:52-73 | The frame ends with the caption: only the caption's own newline is dropped. |
| Render.AsciiFormat | tty-countdown.py:52-73 | The frame is both blocks, each followed by two newlines, then the caption, with the caption's trailing newline dropped. |
| Render.FrameLayout | tty-countdown.py:72-73 | Dropping the last character removes only the caption's newline. |
| Render.GlyphRowSingleLine | tty-countdown.py:59-61 | With newline-free glyph rows, every output row is one line. |
| Render.LinesOfBlock | tty-countdown.py:58-62 | Splitting a block, followed by anything, gives its output rows in order and then the lines of what follows. |
| Render.FrameLines | tty-countdown.py:52-73 | A frame splits into exactly the rows of the first text, two empty lines, the rows of the second text, two empty lines and the caption. That is 2 * height + 5 lines, and the frame does not end in a newline. |
| Text.Lines | tty-countdown.py:79 | `split("\n")` gives at least one piece, and no piece holds a newline. |
| Text.LinesOfJoin | tty-countdown.py:83 | Joining newline-free lines with `"\n"` and splitting again gives the same lines. |
| Text.JoinOfLines | tty-countdown.py:79 | Splitting on newlines and joining with `"\n"` gives the original string. |
| Text.LinesOfTerminated | tty-countdown.py:58-62 | Lines that each end in a newline, followed by anything, split into those lines and then the lines of what follows. |
| Centering.Widest | tty-countdown.py:80 | The frame width is at least every line's length and equal to some line's length. |
| Centering.Margin | tty-countdown.py:82 | Each side's margin is half the spare room, rounded down: the two margins leave at most one cell unused. There is no margin when there is no spare room. |
| Centering.RepeatTruncHalf | tty-countdown.py:84 | `c * int(x / 2)`, truncation toward zero with a negative count giving nothing, equals `c` repeated `Margin(x)` times. |
| Centering.PadEach | tty-countdown.py:83 | Padding keeps the number of lines. |
| Centering.Center | tty-countdown.py:76-87 | The centered frame starts and ends with the same number of newlines: the vertical margin. |
| Centering.CenteredLines | tty-countdown.py:76-87 | A centered frame splits into the vertical margin's empty lines, then every frame line with the horizontal margin's spaces on both sides, then the same empty lines. |
| Centering.CenterLines | tty-countdown.py:79-85 | The same, index by index: `v` empty lines, line `k` of the frame at position `v + k` padded equally on both sides, and `v` empty lines. |
| Centering.UncenterRoundTrip | tty-countdown.py:76-87 | Centering loses nothing. Dropping the margin lines, stripping the margin from each remaining line and joining gives back the frame. |
| Countdown.RemainingFields | tty-countdown.py:98-103 | For a positive whole-second counter, the minutes and seconds are below 60, and hours, minutes and seconds add up to the counter. So the `seconds >= 60` guard never fires. |
| Countdown.RemainingFieldsDivMod | tty-countdown.py:98-103 | The fields are the counter's whole hours, the whole minutes of the rest, and the seconds left over. |
| Countdown.FormatFields | tty-countdown.py:104 | `HH:MM:SS` text is at least eight characters, all digits and colons that the renderer can draw. |
| Countdown.SplitHours | tty-countdown.py:98-99 | The whole hours of a real number of seconds are those of its whole seconds. What is left after them has the whole seconds' remainder as its whole part. |
| Countdown.SplitMinutes | tty-countdown.py:100-101 | The same for minutes. |
| Countdown.ExactFields | tty-countdown.py:98-101 | On a positive real counter, the truncations of lines 99-101 give the whole hours, minutes and seconds of its whole part. |
| Countdown.ExactDisplay | tty-countdown.py:95-104 | The display of a real counter equals the display of its whole part. A counter strictly between 0 and 1 still reads `00:00:00`. |
| Countdown.ExactDisplayLowered | tty-countdown.py:130-132 | After `k` frames, the display of the real counter lowered `k` times equals that of its whole part lowered `k` times. |
| Countdown.RemainingTime | tty-countdown.py:95-104 | The remaining-time text is always drawable by the renderer and at least eight characters long. |
| Countdown.ParseFormatFields | tty-countdown.py:104 | The `HH:MM:SS` text of any fields with two-digit minutes and seconds reads back as those fields. |
| Countdown.ReadBackRemaining | tty-countdown.py:90-105 | The remaining-time text reads back as minutes and seconds below 60. They add up to the counter, or to zero once it is not positive. |
| Countdown.ExpiredExactlyWhenRunOut | tty-countdown.py:95-96 | The display reads `00:00:00` exactly when the counter is zero or below. |
| Countdown.ExpiredStays | tty-countdown.py:95-96 | Once the display reads `00:00:00`, it does so for every lower counter. |
| Countdown.LastSecondShown | tty-countdown.py:95-104 | One second left shows `00:00:01`. Zero or less shows `00:00:00`. |
| Countdown.WallClock | tty-countdown.py:93 | The `%H:%M:%S` text of the wall clock is eight drawable characters. |
| Countdown.ScreenLines | tty-countdown.py:130-131 | A screen splits into the vertical margin's empty lines, then the same empty lines again at the end. Between them come the wall clock's rows, two empty lines, the remaining time's rows, two empty lines and the caption, each between the horizontal margin's spaces. |
| Countdown.DrawFrame | tty-countdown.py:130-131 | One pass draws and centers the frame of the wall clock and the counter. It equals the specification `Screen`. |
| Countdown.Shots | tty-countdown.py:128-132 | The main loop draws one frame per tick. |
| Countdown.ShotAt | tty-countdown.py:128-132 | Frame `k` is drawn with tick `k` and the counter lowered `k` times. |
| Countdown.RunCountdown | tty-countdown.py:126-135 | The loop prints, in order, the screen of each tick with the counter lowered once per frame. The counter ends at its start minus the number of frames, below zero if the loop outlasts the countdown. |
| Countdown.FrameShown | tty-countdown.py:128-132 | The loop prints one screen per tick. Screen `k` is the one for tick `k` with the counter lowered `k` times. |
| Countdown.ExpiredFramesStay | tty-countdown.py:128-132 | The loop does not stop at zero. Once a frame shows `00:00:00`, so does every later frame. |
| Countdown.OneSecondToMidnight | tty-countdown.py:126-135 | Started during 23:59:59 aiming at `00:00`. On the whole second the counter starts at 1: the first frame shows `00:00:01` and every later frame shows `00:00:00`. Any later in that second the counter starts at 0 and every frame shows `00:00:00`. |

## Left out

- Argument plumbing and error printing are not modelled. The errors appear only as `TimeError` values. This covers `argparse`, its usage message and the process exit status.
- The clock is not read. A reading of "now" is a parameter, to the microsecond. `hhmm_type` and `timeTargetToSeconds` read the clock separately, but `Start` uses one reading for both.
- The wall clock of each frame is a whole second. `get_times` sets the microseconds to 500000, which neither `%H:%M:%S` nor the time left depends on.
- Countdown.ExactRemainingTime: uses exact real arithmetic, not floating point. Rounding errors in the products of lines 98-101 are not captured.
- `shutil.get_terminal_size` is not called: each tick carries the terminal size.
- Printing is not modelled. This covers the `"\033c"` clear-screen print in `center` and the loop's `print`. The model returns the strings that would be printed.
- `wait_until_next_second`, `time.sleep`, `KeyboardInterrupt` and `exit` are not modelled. The infinite loop is bounded by the number of ticks passed to `RunCountdown`.
- The font `numbers.font` comes from a module that is not part of this model. `WellFormedFont` and `SingleLineRows` state what the renderer needs of it.
- Render.AsciiFormat: requires non-empty text of ASCII digits and colons, which is all `get_times` produces. Python's `int()` would also take other Unicode digits.
- Decimal.Pad2OfValue: `int()` is modelled on ASCII digits only. That is all the `[0-9]{2}` pattern lets through.
