/** The string primitives the countdown builds its frames from: Python's
    `sep.join(parts)`, `s.split("\n")` and `c * n`. */
module Text {

  /** `sep.join(parts)`: the parts in order, `sep` between neighbours. */
  function Join(parts: seq<string>, sep: string): (r: string)
    ensures |parts| > 0 ==> |r| == TotalLength(parts) + (|parts| - 1) * |sep|
  {
    if |parts| == 0 then ""
    else if |parts| == 1 then parts[0]
    else parts[0] + sep + Join(parts[1..], sep)
  }

  /** Sum of the lengths of the parts. */
  function TotalLength(parts: seq<string>): nat
  {
    if |parts| == 0 then 0 else |parts[0]| + TotalLength(parts[1..])
  }

  /** `s.split("\n")`: the newline-free pieces between newlines, at least one. */
  function Lines(s: string): (r: seq<string>)
    ensures |r| >= 1
    ensures forall k | 0 <= k < |r| :: '\n' !in r[k]
  {
    if |s| == 0 then [""]
    else
      var rest := Lines(s[1..]);
      if s[0] == '\n' then [""] + rest
      else [[s[0]] + rest[0]] + rest[1..]
  }

  /** `[c] * n` in Python: `n` copies of `c`, nothing when `n <= 0`. */
  function Repeat(c: char, n: int): (r: string)
    ensures |r| == if n > 0 then n else 0
    ensures forall k | 0 <= k < |r| :: r[k] == c
  {
    if n <= 0 then "" else [c] + Repeat(c, n - 1)
  }

  /** Each line followed by a newline: `"".join(line + "\n" for line in lines)`. */
  function Terminated(lines: seq<string>): string
  {
    if |lines| == 0 then "" else Terminated(lines[..|lines| - 1]) + lines[|lines| - 1] + "\n"
  }

  /** `n` empty lines. */
  function Blank(n: nat): seq<string>
  {
    seq(n, _ => "")
  }

  /** Joining newline-free parts with a newline-free separator gives one line. */
  lemma {:induction false} JoinSingleLine(parts: seq<string>, sep: string)
    requires '\n' !in sep
    requires forall k | 0 <= k < |parts| :: '\n' !in parts[k]
    ensures '\n' !in Join(parts, sep)
  {
    if |parts| > 1 {
      JoinSingleLine(parts[1..], sep);
    }
  }

  /** A string without a newline is a single line. */
  lemma {:induction false} LinesOfPlain(s: string)
    requires '\n' !in s
    ensures Lines(s) == [s]
  {
    if |s| > 0 {
      assert s[0] != '\n' && '\n' !in s[1..];
      LinesOfPlain(s[1..]);
      assert s == [s[0]] + s[1..];
    }
  }

  /** Splitting distributes over a newline: the lines of `a + "\n" + b`
      are the lines of `a` followed by the lines of `b`. */
  lemma {:induction false} LinesAppend(a: string, b: string)
    ensures Lines(a + "\n" + b) == Lines(a) + Lines(b)
  {
    if |a| == 0 {
      assert a + "\n" + b == "\n" + b;
      assert ("\n" + b)[1..] == b;
    } else {
      assert (a + "\n" + b)[1..] == a[1..] + "\n" + b;
      LinesAppend(a[1..], b);
    }
  }

  /** Joining newline-free lines with "\n" and splitting again gives them back. */
  lemma {:induction false} LinesOfJoin(parts: seq<string>)
    requires |parts| > 0
    requires forall k | 0 <= k < |parts| :: '\n' !in parts[k]
    ensures Lines(Join(parts, "\n")) == parts
  {
    LinesOfPlain(parts[0]);
    if |parts| > 1 {
      LinesOfJoin(parts[1..]);
      LinesAppend(parts[0], Join(parts[1..], "\n"));
      assert [parts[0]] + parts[1..] == parts;
    }
  }

  /** Splitting on "\n" and joining with "\n" gives the string back. */
  lemma {:induction false} JoinOfLines(s: string)
    ensures Join(Lines(s), "\n") == s
  {
    if |s| > 0 {
      var rest := Lines(s[1..]);
      JoinOfLines(s[1..]);
      if s[0] == '\n' {
        assert Lines(s)[1..] == rest;
        assert s == "\n" + s[1..];
      } else {
        var ls := Lines(s);
        assert ls[0] == [s[0]] + rest[0];
        if |rest| > 1 {
          assert ls[1..] == rest[1..];
          assert Join(rest, "\n") == rest[0] + "\n" + Join(rest[1..], "\n");
        }
        assert s == [s[0]] + s[1..];
      }
    }
  }

  /** A leading newline becomes a leading empty line. */
  lemma LinesAfterNewline(x: string)
    ensures Lines("\n" + x) == [""] + Lines(x)
  {
    assert ("\n" + x)[1..] == x;
  }

  /** Two leading newlines become two leading empty lines. */
  lemma LinesAfterTwoNewlines(x: string)
    ensures Lines("\n" + ("\n" + x)) == ["", ""] + Lines(x)
  {
    LinesAfterNewline(x);
    LinesAfterNewline("\n" + x);
    assert [""] + ([""] + Lines(x)) == ["", ""] + Lines(x);
  }

  /** Sequence concatenation is associative. */
  lemma AppendAssoc<T>(a: seq<T>, b: seq<T>, c: seq<T>)
    ensures a + (b + c) == (a + b) + c
  {
  }

  /** One newline more in front. */
  lemma RepeatNewlineCons(n: nat, x: string)
    requires n > 0
    ensures Repeat('\n', n) + x == "\n" + (Repeat('\n', n - 1) + x)
  {
  }

  /** One empty line more in front. */
  lemma BlankCons(n: nat)
    requires n > 0
    ensures Blank(n) == [""] + Blank(n - 1)
  {
  }

  /** Leading newlines become leading empty lines. */
  lemma {:induction false} LinesAfterNewlines(n: nat, x: string)
    ensures Lines(Repeat('\n', n) + x) == Blank(n) + Lines(x)
  {
    if n > 0 {
      var y := Repeat('\n', n - 1) + x;
      RepeatNewlineCons(n, x);
      LinesAfterNewline(y);
      LinesAfterNewlines(n - 1, x);
      BlankCons(n);
      AppendAssoc([""], Blank(n - 1), Lines(x));
    } else {
      assert Repeat('\n', n) + x == x;
      assert Blank(n) + Lines(x) == Lines(x);
    }
  }

  /** Trailing newlines become trailing empty lines. */
  lemma {:induction false} LinesBeforeNewlines(x: string, n: nat)
    ensures Lines(x + Repeat('\n', n)) == Lines(x) + Blank(n)
  {
    if n > 0 {
      assert x + Repeat('\n', n) == x + "\n" + Repeat('\n', n - 1);
      LinesAppend(x, Repeat('\n', n - 1));
      LinesAfterNewlines(n - 1, "");
      assert Repeat('\n', n - 1) + "" == Repeat('\n', n - 1);
      assert Blank(n - 1) + [""] == Blank(n);
    } else {
      assert x + Repeat('\n', n) == x;
      assert Lines(x) + Blank(n) == Lines(x);
    }
  }

  /** Newline-terminated lines followed by anything split back into those
      lines and then the lines of what follows. */
  lemma {:induction false} LinesOfTerminated(lines: seq<string>, rest: string)
    requires forall k | 0 <= k < |lines| :: '\n' !in lines[k]
    ensures Lines(Terminated(lines) + rest) == lines + Lines(rest)
  {
    if |lines| == 0 {
      assert Terminated(lines) + rest == rest;
    } else {
      var n := |lines| - 1;
      var init, last := lines[..n], lines[n];
      var after := last + "\n" + rest;
      AppendAssoc(Terminated(init), last, "\n");
      AppendAssoc(Terminated(init), last + "\n", rest);
      LinesOfTerminated(init, after);
      LinesAppend(last, rest);
      LinesOfPlain(last);
      assert lines == init + [last];
      AppendAssoc(init, [last], Lines(rest));
    }
  }
}
