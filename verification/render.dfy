/** The big-digit renderer (`asciiFormat` in tty-countdown.py): each
    character of two clock texts is drawn with a multi-row glyph, glyphs of
    one text side by side, the two texts one above the other, then a caption.
    The font is a parameter; its contents live in a module of the program
    that is not part of this model. */
module Render {
  import opened Text
  import opened Decimal

  /** One character's picture, top row first. */
  type Glyph = seq<string>

  /** Glyph d draws the digit d; glyph 10 draws the colon. */
  type Font = seq<Glyph>

  /** Text in front of the target time on the last line of a frame. */
  const CaptionPrefix := "              Countdown ends at "

  /** What `asciiFormat` needs of the font: glyphs 0..10 exist, and none is
      shorter than glyph 0, whose row count is the frame's glyph height. */
  predicate WellFormedFont(font: Font)
  {
    |font| >= 11 && forall g | 0 <= g < 11 :: |font[g]| >= |font[0]|
  }

  /** A font `asciiFormat` can draw with. */
  type ValidFont = font: Font | WellFormedFont(font) witness seq(11, g => [])

  function Height(font: Font): nat
    requires WellFormedFont(font)
  {
    |font[0]|
  }

  /** What `asciiFormat` can draw: non-empty text of ASCII digits and colons. */
  predicate IsGlyphText(s: string)
  {
    |s| > 0 && forall k | 0 <= k < |s| :: IsDigit(s[k]) || s[k] == ':'
  }

  /** `int(c.replace(":", "10"))`: the glyph a character is drawn with. */
  function GlyphIndex(c: char): (g: nat)
    requires IsDigit(c) || c == ':'
    ensures g < 11
    ensures g == 10 <==> c == ':'
    ensures g < 10 ==> DigitChar(g) == c
  {
    if c == ':' then 10 else DigitValue(c)
  }

  /** Row `i` of the glyph of each character of `s`, left to right. */
  function GlyphRows(font: Font, s: string, i: nat): (rows: seq<string>)
    requires WellFormedFont(font) && IsGlyphText(s) && i < Height(font)
    ensures |rows| == |s|
  {
    seq(|s|, k requires 0 <= k < |s| => font[GlyphIndex(s[k])][i])
  }

  /** Output row `i` of the block for `s`: the glyph rows joined by single
      spaces, so as long as those rows together plus one space between each
      neighbouring pair. */
  function GlyphRow(font: Font, s: string, i: nat): (r: string)
    requires WellFormedFont(font) && IsGlyphText(s) && i < Height(font)
    ensures |r| == TotalLength(GlyphRows(font, s, i)) + |s| - 1
  {
    Join(GlyphRows(font, s, i), " ")
  }

  /** The output rows for `s`, as a sequence of lines. */
  function BlockLines(font: Font, s: string): (ls: seq<string>)
    requires WellFormedFont(font) && IsGlyphText(s)
    ensures |ls| == Height(font)
  {
    seq(Height(font), i requires 0 <= i < Height(font) => GlyphRow(font, s, i))
  }

  /** The first `h` output rows for `s`, each ended by a newline. */
  function Block(font: Font, s: string, h: nat): string
    requires WellFormedFont(font) && IsGlyphText(s) && h <= Height(font)
  {
    Terminated(BlockLines(font, s)[..h])
  }

  function Caption(ends: string): string
  {
    CaptionPrefix + ends
  }

  /** The frame `asciiFormat(s1, s2)` returns when the target's caption text
      is `ends`: both blocks, two blank lines after each, the caption, and the
      caption's newline dropped again. */
  function Frame(font: Font, s1: string, s2: string, ends: string): (r: string)
    requires WellFormedFont(font) && IsGlyphText(s1) && IsGlyphText(s2)
    ensures |r| >= |Caption(ends)| && r[|r| - |Caption(ends)|..] == Caption(ends)
  {
    var h := Height(font);
    var full := Block(font, s1, h) + "\n\n" + Block(font, s2, h) + "\n\n" + Caption(ends) + "\n";
    full[..|full| - 1]
  }

  /** Appends output row `i` for `s` and its newline to `frame`: the glyph
      row of every character but the last followed by a space, then the last
      one's (tty-countdown.py lines 59-62). */
  method AppendRow(frame: string, font: Font, s: string, i: nat) returns (r: string)
    requires WellFormedFont(font) && IsGlyphText(s) && i < Height(font)
    ensures r == frame + GlyphRow(font, s, i) + "\n"
  {
    ghost var row := GlyphRows(font, s, i);
    ghost var line := Join(row, " ");
    r := frame;
    for j := 0 to |s| - 1
      invariant r + Join(row[j..], " ") == frame + line
    {
      assert row[j..] == [row[j]] + row[j + 1..];
      r := r + font[GlyphIndex(s[j])][i] + " ";
    }
    assert row[|s| - 1..] == [row[|s| - 1]];
    r := r + font[GlyphIndex(s[|s| - 1])][i];
    r := r + "\n";
  }

  /** One more output row extends a block by that row and its newline. */
  lemma BlockSnoc(font: Font, s: string, i: nat)
    requires WellFormedFont(font) && IsGlyphText(s) && i < Height(font)
    ensures Block(font, s, i + 1) == Block(font, s, i) + GlyphRow(font, s, i) + "\n"
  {
    var bl := BlockLines(font, s);
    assert bl[..i + 1][..i] == bl[..i];
  }

  /** Appends the full block for `s` to `frame`, one output row at a time
      (tty-countdown.py lines 58-62 and again 65-69). */
  method AppendBlock(frame: string, font: Font, s: string) returns (r: string)
    requires WellFormedFont(font) && IsGlyphText(s)
    ensures r == frame + Block(font, s, Height(font))
  {
    var height := |font[0]|;
    r := frame;
    for i := 0 to height
      invariant r == frame + Block(font, s, i)
    {
      BlockSnoc(font, s, i);
      r := AppendRow(r, font, s, i);
    }
  }

  /** Appends the two blank-line newlines that follow a block
      (tty-countdown.py lines 63-64 and again 70-71). */
  method AppendGap(frame: string) returns (r: string)
    ensures r == frame + "\n\n"
  {
    r := frame;
    for i := 0 to 2
      invariant r == frame + Repeat('\n', i)
    {
      assert Repeat('\n', i + 1) == Repeat('\n', i) + "\n";
      r := r + "\n";
    }
    assert Repeat('\n', 2) == "\n\n";
  }

  /** `asciiFormat(s1, s2)`, with the caption text `ends`. */
  method AsciiFormat(font: Font, s1: string, s2: string, ends: string) returns (frame: string)
    requires WellFormedFont(font) && IsGlyphText(s1) && IsGlyphText(s2)
    ensures frame == Frame(font, s1, s2, ends)
  {
    frame := "";
    frame := AppendBlock(frame, font, s1);
    frame := AppendGap(frame);
    frame := AppendBlock(frame, font, s2);
    frame := AppendGap(frame);
    frame := frame + Caption(ends) + "\n";
    ghost var h := Height(font);
    assert frame == Block(font, s1, h) + "\n\n" + Block(font, s2, h) + "\n\n" + Caption(ends) + "\n";
    frame := frame[..|frame| - 1];
  }

  /** No row of glyphs 0..10 contains a newline. */
  predicate SingleLineRows(font: Font)
    requires |font| >= 11
  {
    forall g, i | 0 <= g < 11 && 0 <= i < |font[g]| :: '\n' !in font[g][i]
  }

  /** Each output row is one line. */
  lemma GlyphRowSingleLine(font: Font, s: string, i: nat)
    requires WellFormedFont(font) && SingleLineRows(font) && IsGlyphText(s) && i < Height(font)
    ensures '\n' !in GlyphRow(font, s, i)
  {
    JoinSingleLine(GlyphRows(font, s, i), " ");
  }

  /** Every output row of a block is one line. */
  lemma BlockLinesSingleLine(font: Font, s: string)
    requires WellFormedFont(font) && SingleLineRows(font) && IsGlyphText(s)
    ensures forall k | 0 <= k < Height(font) :: '\n' !in BlockLines(font, s)[k]
  {
    forall k | 0 <= k < Height(font)
      ensures '\n' !in BlockLines(font, s)[k]
    {
      GlyphRowSingleLine(font, s, k);
    }
  }

  /** Splitting a block followed by anything yields its output rows and then
      the lines of what follows. */
  lemma LinesOfBlock(font: Font, s: string, rest: string)
    requires WellFormedFont(font) && SingleLineRows(font) && IsGlyphText(s)
    ensures Lines(Block(font, s, Height(font)) + rest) == BlockLines(font, s) + Lines(rest)
  {
    var bl := BlockLines(font, s);
    assert bl[..Height(font)] == bl;
    BlockLinesSingleLine(font, s);
    LinesOfTerminated(bl, rest);
  }

  /** A frame is the two blocks and the caption with only the caption's
      newline dropped. */
  lemma FrameLayout(font: Font, s1: string, s2: string, ends: string)
    requires WellFormedFont(font) && IsGlyphText(s1) && IsGlyphText(s2)
    ensures Frame(font, s1, s2, ends)
            == Block(font, s1, Height(font)) + ("\n" + ("\n" + (Block(font, s2, Height(font)) + ("\n" + ("\n" + Caption(ends))))))
  {
    var h := Height(font);
    var b1, b2, c := Block(font, s1, h), Block(font, s2, h), Caption(ends);
    var f := b1 + ("\n" + ("\n" + (b2 + ("\n" + ("\n" + c)))));
    var full := b1 + "\n\n" + b2 + "\n\n" + c + "\n";
    assert full == f + "\n";
    assert full[..|full| - 1] == f;
  }

  /** Regrouping the parts of a frame's lines. */
  lemma FrameParts<T>(a: seq<T>, gap: seq<T>, b: seq<T>, last: seq<T>)
    ensures a + (gap + (b + (gap + last))) == a + gap + b + gap + last
  {
  }

  /** A frame, split on newlines, is the glyph-height rows of the first text,
      two empty lines, the rows of the second text, two empty lines and the
      caption: 2 * height + 5 lines, with no newline at the end. */
  lemma FrameLines(font: Font, s1: string, s2: string, ends: string)
    requires WellFormedFont(font) && SingleLineRows(font) && IsGlyphText(s1) && IsGlyphText(s2)
    requires '\n' !in ends
    ensures var lines := Lines(Frame(font, s1, s2, ends));
            lines == BlockLines(font, s1) + ["", ""] + BlockLines(font, s2) + ["", ""] + [Caption(ends)]
            && |lines| == 2 * Height(font) + 5
    ensures var f := Frame(font, s1, s2, ends); |f| > 0 && f[|f| - 1] != '\n'
  {
    var h := Height(font);
    var c := Caption(ends);
    var b1, b2 := Block(font, s1, h), Block(font, s2, h);
    var bl1, bl2 := BlockLines(font, s1), BlockLines(font, s2);
    var t2 := "\n" + ("\n" + c);
    var t1 := "\n" + ("\n" + (b2 + t2));
    FrameLayout(font, s1, s2, ends);
    assert '\n' !in c;
    LinesOfPlain(c);
    LinesAfterTwoNewlines(c);
    LinesOfBlock(font, s2, t2);
    LinesAfterTwoNewlines(b2 + t2);
    LinesOfBlock(font, s1, t1);
    FrameParts(bl1, ["", ""], bl2, [c]);
  }
}
