/** Centering a frame in the terminal (`center` in tty-countdown.py), with
    the terminal size as parameters instead of a query, and without the
    screen-clearing print. */
module Centering {
  import opened Text

  /** `int(x / 2)`: true division, then truncation toward zero. */
  function TruncHalf(x: int): int
  {
    if x >= 0 then x / 2 else -((-x) / 2)
  }

  /** `max(map(len, lines))`. */
  function Widest(lines: seq<string>): (w: nat)
    requires |lines| > 0
    ensures forall k | 0 <= k < |lines| :: |lines[k]| <= w
    ensures exists k | 0 <= k < |lines| :: |lines[k]| == w
  {
    if |lines| == 1 then |lines[0]|
    else
      var w := Widest(lines[1..]);
      if |lines[0]| >= w then |lines[0]| else w
  }

  /** `[pad + line + pad for line in lines]`. */
  function PadEach(lines: seq<string>, pad: string): (r: seq<string>)
    ensures |r| == |lines|
  {
    seq(|lines|, k requires 0 <= k < |lines| => pad + lines[k] + pad)
  }

  /** `center(frame)` on a terminal of `termHeight` lines and `termWidth`
      columns: pad every line on both sides with the same spaces and the
      whole frame above and below with the same newlines. */
  function Center(frame: string, termHeight: int, termWidth: int): (r: string)
    ensures var v := VerticalMargin(frame, termHeight);
            |r| >= 2 * v && r[..v] == Repeat('\n', v) && r[|r| - v..] == Repeat('\n', v)
  {
    var lines := Lines(frame);
    var pad := Repeat(' ', TruncHalf(termWidth - Widest(lines)));
    var body := Join(PadEach(lines, pad), "\n");
    var vpad := Repeat('\n', TruncHalf(termHeight - |lines|));
    RepeatTruncHalf('\n', termHeight - |lines|);
    vpad + body + vpad
  }

  /** The margin on each side when `room` cells are left over: half of the
      room, rounded down, and none when there is no room.  Both margins
      together leave at most one cell unused. */
  function Margin(room: int): (m: nat)
    ensures room >= 0 ==> room - 1 <= 2 * m <= room
    ensures room <= 0 ==> m == 0
  {
    if room > 0 then room / 2 else 0
  }

  /** Blank lines above (and below) a centered frame. */
  function VerticalMargin(frame: string, termHeight: int): nat
  {
    Margin(termHeight - |Lines(frame)|)
  }

  /** Spaces left (and right) of every line of a centered frame. */
  function HorizontalMargin(frame: string, termWidth: int): nat
  {
    Margin(termWidth - Widest(Lines(frame)))
  }

  /** Repeating a character `int(x / 2)` times, as Python does with a
      negative count, is repeating it `Margin(x)` times. */
  lemma RepeatTruncHalf(c: char, x: int)
    ensures Repeat(c, TruncHalf(x)) == Repeat(c, Margin(x))
  {
    if x <= 0 {
      assert TruncHalf(x) <= 0;
    }
  }

  /** Padding newline-free lines with a newline-free pad keeps them so. */
  lemma PadEachSingleLine(lines: seq<string>, pad: string)
    requires '\n' !in pad
    requires forall k | 0 <= k < |lines| :: '\n' !in lines[k]
    ensures forall k | 0 <= k < |lines| :: '\n' !in PadEach(lines, pad)[k]
  {
    forall k | 0 <= k < |lines|
      ensures '\n' !in PadEach(lines, pad)[k]
    {
      assert PadEach(lines, pad)[k] == pad + lines[k] + pad;
    }
  }

  /** A centered frame, split on newlines, is the margin's blank lines, the
      padded lines of the frame and the blank lines again. */
  lemma CenteredLines(frame: string, termHeight: int, termWidth: int)
    ensures Lines(Center(frame, termHeight, termWidth))
            == Blank(VerticalMargin(frame, termHeight))
               + PadEach(Lines(frame), Repeat(' ', HorizontalMargin(frame, termWidth)))
               + Blank(VerticalMargin(frame, termHeight))
  {
    var lines := Lines(frame);
    var v := VerticalMargin(frame, termHeight);
    var p := Repeat(' ', HorizontalMargin(frame, termWidth));
    RepeatTruncHalf(' ', termWidth - Widest(lines));
    RepeatTruncHalf('\n', termHeight - |lines|);
    var padded := PadEach(lines, p);
    var body := Join(padded, "\n");
    var vpad := Repeat('\n', v);
    assert Center(frame, termHeight, termWidth) == vpad + (body + vpad);
    PadEachSingleLine(lines, p);
    LinesOfJoin(padded);
    LinesBeforeNewlines(body, v);
    LinesAfterNewlines(v, body + vpad);
  }

  /** Split on newlines, a centered frame is `v` empty lines, every line of
      the frame between the same `p` spaces on either side, and `v` empty
      lines again, where `v` and `p` are the vertical and horizontal margins. */
  lemma CenterLines(frame: string, termHeight: int, termWidth: int)
    ensures var lines := Lines(frame);
            var out := Lines(Center(frame, termHeight, termWidth));
            var v := VerticalMargin(frame, termHeight);
            var p := Repeat(' ', HorizontalMargin(frame, termWidth));
            |out| == v + |lines| + v
            && (forall k | 0 <= k < v :: out[k] == "")
            && (forall k | v + |lines| <= k < |out| :: out[k] == "")
            && (forall k | 0 <= k < |lines| :: out[v + k] == p + lines[k] + p)
  {
    CenteredLines(frame, termHeight, termWidth);
  }

  /** The `n` lines from `v` on, each stripped of `m` characters at both ends. */
  function StripMargins(out: seq<string>, v: nat, n: nat, m: nat): (r: seq<string>)
    requires v + n <= |out|
    requires forall k | v <= k < v + n :: 2 * m <= |out[k]|
    ensures |r| == n
  {
    seq(n, k requires 0 <= k < n => out[v + k][m..|out[v + k]| - m])
  }

  /** Centering loses nothing: dropping the blank lines and the margin of
      every line, and joining again, gives back the frame. */
  lemma UncenterRoundTrip(frame: string, termHeight: int, termWidth: int)
    ensures var out := Lines(Center(frame, termHeight, termWidth));
            var v := VerticalMargin(frame, termHeight);
            var m := HorizontalMargin(frame, termWidth);
            var n := |Lines(frame)|;
            v + n <= |out|
            && (forall k | v <= k < v + n :: 2 * m <= |out[k]|)
            && Join(StripMargins(out, v, n, m), "\n") == frame
  {
    CenterLines(frame, termHeight, termWidth);
    var out := Lines(Center(frame, termHeight, termWidth));
    var m := HorizontalMargin(frame, termWidth);
    StripPadded(out, Lines(frame), VerticalMargin(frame, termHeight), m, Repeat(' ', m));
    JoinOfLines(frame);
  }

  lemma StripPadded(out: seq<string>, lines: seq<string>, v: nat, m: nat, p: string)
    requires |p| == m && v + |lines| <= |out|
    requires forall k | 0 <= k < |lines| :: out[v + k] == p + lines[k] + p
    ensures forall k | v <= k < v + |lines| :: 2 * m <= |out[k]|
    ensures StripMargins(out, v, |lines|, m) == lines
  {
    forall k | v <= k < v + |lines|
      ensures 2 * m <= |out[k]| && out[k][m..|out[k]| - m] == lines[k - v]
    {
      assert out[v + (k - v)] == p + lines[k - v] + p;
    }
  }
}
