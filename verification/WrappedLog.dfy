/** The log as a reader sees it: the characters so far, broken at every newline or carriage return and eagerly
    after 96 columns. */
module WrappedLog {
  import opened Basics

  type Line = seq<byte>

  const LF: byte := 0x0a
  const CR: byte := 0x0d
  const BLANK: byte := 0x20
  const WIDTH: nat := 96
  const COLUMNS: nat := 128
  const ROWS: nat := 64
  const VISIBLE: nat := 30

  /** Adds one character to the last line; a break starts a new, empty one. */
  function Feed(lines: seq<Line>, c: byte): (r: seq<Line>)
    requires lines != []
    ensures r != []
  {
    var k := |lines| - 1;
    var longer := lines[k] + [c];
    if c == LF || c == CR then lines + [[]]
    else if |longer| >= WIDTH then lines[..k] + [longer] + [[]]
    else lines[..k] + [longer]
  }

  lemma FeedBreak(lines: seq<Line>, c: byte)
    requires lines != [] && (c == LF || c == CR)
    ensures Feed(lines, c) == lines + [[]]
  {
  }

  lemma FeedCharacter(lines: seq<Line>, c: byte)
    requires lines != [] && c != LF && c != CR
    ensures var k := |lines| - 1;
            var longer := lines[..k] + [lines[k] + [c]];
            Feed(lines, c) == if |lines[k]| + 1 >= WIDTH then longer + [[]] else longer
  {
  }

  function Lines(log: seq<byte>): (r: seq<Line>)
    ensures r != []
  {
    if log == [] then [[]] else Feed(Lines(log[..|log| - 1]), log[|log| - 1])
  }

  lemma LinesFeed(log: seq<byte>, c: byte)
    ensures Lines(log + [c]) == Feed(Lines(log), c)
  {
    assert (log + [c])[..|log|] == log;
  }

  /** Every line fits the width, and the one being written has room for another character. */
  lemma {:induction false} LinesFit(log: seq<byte>)
    ensures var lines := Lines(log);
            && (forall i :: 0 <= i < |lines| ==> |lines[i]| <= WIDTH)
            && |lines[|lines| - 1]| < WIDTH
  {
    if log != [] {
      LinesFit(log[..|log| - 1]);
    }
  }

  /** The wrapping only breaks the log: joined, the lines are its characters without the newlines. */
  function Join(lines: seq<Line>): seq<byte> {
    if lines == [] then [] else Join(lines[..|lines| - 1]) + lines[|lines| - 1]
  }

  function WithoutBreaks(log: seq<byte>): seq<byte> {
    if log == [] then []
    else
      var c := log[|log| - 1];
      WithoutBreaks(log[..|log| - 1]) + (if c == LF || c == CR then [] else [c])
  }

  lemma JoinOneMore(lines: seq<Line>, line: Line)
    ensures Join(lines + [line]) == Join(lines) + line
  {
    assert (lines + [line])[..|lines|] == lines;
  }

  lemma FeedJoins(lines: seq<Line>, c: byte)
    requires lines != []
    ensures Join(Feed(lines, c)) == Join(lines) + (if c == LF || c == CR then [] else [c])
  {
    hide Join;
    var k := |lines| - 1;
    var longer := lines[k] + [c];
    assert lines == lines[..k] + [lines[k]];
    JoinOneMore(lines, []);
    JoinOneMore(lines[..k], lines[k]);
    JoinOneMore(lines[..k], longer);
    JoinOneMore(lines[..k] + [longer], []);
  }

  lemma {:induction false} LinesLoseNothing(log: seq<byte>)
    ensures Join(Lines(log)) == WithoutBreaks(log)
  {
    if log == [] {
      var none: seq<Line> := [];
      JoinOneMore(none, []);
      assert none + [[]] == [[]];
    } else {
      LinesLoseNothing(log[..|log| - 1]);
      FeedJoins(Lines(log[..|log| - 1]), log[|log| - 1]);
    }
  }

  // ---------------------------------------------------------------- what it is to wrap a log

  /** lines[0] + breaks[0] + lines[1] + ... + the last line. */
  function Interleaved(lines: seq<Line>, breaks: seq<seq<byte>>): seq<byte>
    requires |lines| == |breaks| + 1
  {
    var k := |breaks|;
    if k == 0 then lines[0] else Interleaved(lines[..k], breaks[..k - 1]) + breaks[k - 1] + lines[k]
  }

  predicate IsBreak(c: byte) {
    c == 0x0a || c == 0x0d
  }

  /** No line contains a line feed or a carriage return, and each line but the last ends either at 96 characters,
      with nothing in between, or earlier, at one of those two. */
  ghost predicate Broken(lines: seq<Line>, breaks: seq<seq<byte>>) {
    && |lines| == |breaks| + 1
    && (forall i, x :: 0 <= i < |lines| && 0 <= x < |lines[i]| ==> !IsBreak(lines[i][x]))
    && (forall i :: 0 <= i < |breaks| ==>
          if breaks[i] == [] then |lines[i]| == 96
          else |lines[i]| < 96 && |breaks[i]| == 1 && IsBreak(breaks[i][0]))
  }

  /** `lines` is the log, broken like that, with room in the last line. */
  ghost predicate IsWrapping(log: seq<byte>, lines: seq<Line>, breaks: seq<seq<byte>>) {
    Broken(lines, breaks) && log == Interleaved(lines, breaks) && |lines[|breaks|]| < 96
  }

  lemma InterleavedOneMore(lines: seq<Line>, breaks: seq<seq<byte>>, br: seq<byte>, line: Line)
    requires |lines| == |breaks| + 1
    ensures Interleaved(lines + [line], breaks + [br]) == Interleaved(lines, breaks) + br + line
  {
    assert (lines + [line])[..|lines|] == lines && (breaks + [br])[..|breaks|] == breaks;
  }

  /** The last line is the end of the log. */
  lemma InterleavedLast(lines: seq<Line>, breaks: seq<seq<byte>>, line: Line)
    requires |lines| == |breaks| + 1
    ensures var k := |breaks|;
            Interleaved(lines[..k] + [lines[k] + line], breaks) == Interleaved(lines, breaks) + line
  {
    var k := |breaks|;
    if k > 0 {
      assert (lines[..k] + [lines[k] + line])[..k] == lines[..k];
    }
  }

  /** A break, or a line of 96 characters, begins a new line. */
  lemma OneMoreIsBroken(lines: seq<Line>, breaks: seq<seq<byte>>, br: seq<byte>)
    requires Broken(lines, breaks)
    requires if br == [] then |lines[|breaks|]| == 96 else |lines[|breaks|]| < 96 && |br| == 1 && IsBreak(br[0])
    ensures Broken(lines + [[]], breaks + [br])
  {
  }

  lemma LongerIsBroken(lines: seq<Line>, breaks: seq<seq<byte>>, c: byte)
    requires Broken(lines, breaks) && !IsBreak(c)
    ensures var k := |breaks|; Broken(lines[..k] + [lines[k] + [c]], breaks)
  {
  }

  /** The lines of a log wrap it. */
  lemma {:induction false} LinesWrap(log: seq<byte>) returns (breaks: seq<seq<byte>>)
    ensures IsWrapping(log, Lines(log), breaks)
  {
    if log == [] {
      breaks := [];
    } else {
      var front, c := log[..|log| - 1], log[|log| - 1];
      breaks := LinesWrap(front);
      assert log == front + [c];
      LinesFeed(front, c);
      breaks := FedWraps(front, Lines(front), breaks, c);
    }
  }

  lemma FedWraps(log: seq<byte>, lines: seq<Line>, breaks0: seq<seq<byte>>, c: byte)
      returns (breaks: seq<seq<byte>>)
    requires lines != [] && IsWrapping(log, lines, breaks0)
    ensures IsWrapping(log + [c], Feed(lines, c), breaks)
  {
    hide Broken, Interleaved;
    FewLines(lines, breaks0);
    breaks := breaks0;
    var k := |breaks0|;
    if IsBreak(c) {
      InterleavedOneMore(lines, breaks0, [c], []);
      OneMoreIsBroken(lines, breaks0, [c]);
      breaks := breaks0 + [[c]];
    } else {
      InterleavedLast(lines, breaks0, [c]);
      LongerIsBroken(lines, breaks0, c);
      var longer := lines[..k] + [lines[k] + [c]];
      if |lines[k]| + 1 == 96 {
        InterleavedOneMore(longer, breaks0, [], []);
        OneMoreIsBroken(longer, breaks0, []);
        breaks := breaks0 + [[]];
      }
    }
  }

  lemma ShorterIsBroken(lines: seq<Line>, breaks: seq<seq<byte>>, m: nat)
    requires Broken(lines, breaks) && m <= |lines[|breaks|]|
    ensures Broken(lines[..|breaks|] + [lines[|breaks|][..m]], breaks)
  {
  }

  lemma FewerAreBroken(lines: seq<Line>, breaks: seq<seq<byte>>)
    requires Broken(lines, breaks) && breaks != []
    ensures var k := |breaks|;
            Broken(lines[..k], breaks[..k - 1])
            && if breaks[k - 1] == [] then |lines[k - 1]| == 96
               else |lines[k - 1]| < 96 && |breaks[k - 1]| == 1 && IsBreak(breaks[k - 1][0])
  {
  }

  lemma LastIsNoBreak(lines: seq<Line>, breaks: seq<seq<byte>>, x: nat)
    requires Broken(lines, breaks) && x < |lines[|breaks|]|
    ensures !IsBreak(lines[|breaks|][x])
  {
  }

  /** The last character of the last line, taken off. */
  lemma TakenOff(lines: seq<Line>, breaks: seq<seq<byte>>) returns (front: seq<Line>, c: byte)
    requires Broken(lines, breaks) && lines[|breaks|] != []
    ensures var k := |breaks|;
            && |front| == |lines| && !IsBreak(c) && |front[k]| + 1 == |lines[k]|
            && front[..k] + [front[k] + [c]] == lines
            && Broken(front, breaks) && Interleaved(lines, breaks) == Interleaved(front, breaks) + [c]
  {
    hide Broken, Interleaved, IsBreak;
    var k := |breaks|;
    assert |lines| == k + 1 by { FewLines(lines, breaks); }
    var m := |lines[k]| - 1;
    c := lines[k][m];
    front := lines[..k] + [lines[k][..m]];
    ShorterIsBroken(lines, breaks, m);
    LastIsNoBreak(lines, breaks, m);
    InterleavedLast(front, breaks, [c]);
    assert lines[k][..m] + [c] == lines[k];
    assert front[..k] + [front[k] + [c]] == lines;
  }

  lemma FewLines(lines: seq<Line>, breaks: seq<seq<byte>>)
    requires Broken(lines, breaks)
    ensures |lines| == |breaks| + 1
  {
  }

  /** Taking the last character off a wrapped log leaves a wrapped log, from which feeding it leads back. */
  lemma Unfed(log: seq<byte>, lines: seq<Line>, breaks: seq<seq<byte>>)
      returns (front: seq<Line>, frontBreaks: seq<seq<byte>>)
    requires log != [] && IsWrapping(log, lines, breaks)
    ensures front != [] && IsWrapping(log[..|log| - 1], front, frontBreaks)
    ensures lines == Feed(front, log[|log| - 1])
  {
    hide Broken, Interleaved;
    FewLines(lines, breaks);
    var k := |breaks|;
    var c;
    if lines[k] != [] {
      frontBreaks := breaks;
      front, c := TakenOff(lines, breaks);
    } else {
      assert k > 0 by { OneEmptyLine(log, lines, breaks); }
      var before, b := lines[..k], breaks[k - 1];
      frontBreaks := breaks[..k - 1];
      FewerAreBroken(lines, breaks);
      InterleavedOneMore(before, frontBreaks, b, []);
      assert lines == before + [[]] && breaks == frontBreaks + [b];
      if b != [] {
        front, c := before, b[0];
        assert b == [c];
      } else {
        front, c := TakenOff(before, frontBreaks);
        assert Interleaved(before, frontBreaks) + [] + [] == Interleaved(before, frontBreaks);
      }
    }
    FewLines(front, frontBreaks);
    assert log == Interleaved(front, frontBreaks) + [c];
  }

  lemma OneEmptyLine(log: seq<byte>, lines: seq<Line>, breaks: seq<seq<byte>>)
    requires |lines| == |breaks| + 1 && log != [] && log == Interleaved(lines, breaks) && lines[|breaks|] == []
    ensures breaks != []
  {
  }

  /** And nothing else does. */
  lemma {:induction false} OnlyLinesWrap(log: seq<byte>, lines: seq<Line>, breaks: seq<seq<byte>>)
    requires IsWrapping(log, lines, breaks)
    ensures lines == Lines(log)
    decreases |log|
  {
    if log == [] {
      EmptyHasOneLine(lines, breaks);
    } else {
      var front, frontBreaks := Unfed(log, lines, breaks);
      OnlyLinesWrap(log[..|log| - 1], front, frontBreaks);
    }
  }

  lemma EmptyHasOneLine(lines: seq<Line>, breaks: seq<seq<byte>>)
    requires IsWrapping([], lines, breaks)
    ensures lines == [[]]
  {
    var k := |breaks|;
    if k > 0 {
      assert breaks[k - 1] == [] && lines[k] == [];
      assert Interleaved(lines[..k], breaks[..k - 1]) == [];
      EndsWithLast(lines[..k], breaks[..k - 1]);
      assert false;
    }
  }

  lemma EndsWithLast(lines: seq<Line>, breaks: seq<seq<byte>>)
    requires |lines| == |breaks| + 1
    ensures |lines[|breaks|]| <= |Interleaved(lines, breaks)|
  {
  }

  /** So a log is wrapped in exactly one way. */
  lemma WrappingIsUnique(log: seq<byte>, lines: seq<Line>)
    ensures (exists breaks :: IsWrapping(log, lines, breaks)) <==> lines == Lines(log)
  {
    var breaks := LinesWrap(log);
    if other :| IsWrapping(log, lines, other) {
      OnlyLinesWrap(log, lines, other);
    }
  }

  // ------------------------------------------------------------------------ text RAM and screen

  /** A row of text RAM that shows `line`. */
  function Padded(line: Line): (row: seq<byte>)
    ensures |row| == COLUMNS
  {
    seq(COLUMNS, x requires 0 <= x < COLUMNS => if x < |line| then line[x] else BLANK)
  }

  /** The rows of text RAM show the last 64 lines, line L in row L mod 64; rows never written are blank. */
  ghost predicate Displays(rows: seq<seq<byte>>, lines: seq<Line>) {
    && |rows| == ROWS
    && (forall l :: 0 <= l < |lines| && |lines| - ROWS <= l ==> rows[l % ROWS] == Padded(lines[l]))
    && (forall r :: |lines| <= r < ROWS ==> rows[r] == Padded([]))
  }

  /** Writing a character where the last line ends displays the longer line. */
  lemma DisplayLonger(rows: seq<seq<byte>>, lines: seq<Line>, c: byte)
    requires lines != [] && Displays(rows, lines) && |lines[|lines| - 1]| < WIDTH
    ensures var k := |lines| - 1;
            var r, x := k % ROWS, |lines[k]|;
            Displays(rows[r := rows[r][x := c]], lines[..k] + [lines[k] + [c]])
  {
    var k := |lines| - 1;
    assert rows[k % ROWS][|lines[k]| := c] == Padded(lines[k] + [c]);
  }

  /** Blanking the next row displays a new, empty line, in place of the one 64 lines back. */
  lemma DisplayNewLine(rows: seq<seq<byte>>, lines: seq<Line>)
    requires Displays(rows, lines)
    ensures Displays(rows[|lines| % ROWS := Padded([])], lines + [[]])
  {
    hide Padded;
    var n := |lines|;
    forall l | 0 <= l < n && n + 1 - ROWS <= l
      ensures l % ROWS != n % ROWS
    {
      DifferentRows(l, n);
    }
    if n < ROWS {
      assert n % ROWS == n;
    }
  }

  lemma DifferentRows(l: nat, n: nat)
    requires l < n < l + ROWS
    ensures l % ROWS != n % ROWS
  {
    var a, b := l / ROWS, n / ROWS;
    assert l == ROWS * a + l % ROWS && n == ROWS * b + n % ROWS;
  }

  /** The scroll register's value for n lines. */
  function TopRow(n: nat): nat
    requires 0 < n
  {
    if n <= VISIBLE then 0 else (n - VISIBLE) % ROWS
  }

  /** What the screen shows: 30 rows from the scroll register on, wrapping round the text RAM. */
  function Screen(rows: seq<seq<byte>>, scroll: nat): (s: seq<seq<byte>>)
    requires |rows| == ROWS
    ensures |s| == VISIBLE
  {
    seq(VISIBLE, i requires 0 <= i < VISIBLE => rows[(scroll + i) % ROWS])
  }

  lemma AddModRows(a: nat, i: nat)
    ensures (a % ROWS + i) % ROWS == (a + i) % ROWS
  {
    var q := a / ROWS;
    assert a == ROWS * q + a % ROWS;
  }

  /** The screen shows the last 30 lines, or all of them followed by blank rows while there are fewer. */
  lemma ScreenShowsLastLines(rows: seq<seq<byte>>, lines: seq<Line>)
    requires Displays(rows, lines) && lines != []
    ensures var first := if |lines| <= VISIBLE then 0 else |lines| - VISIBLE;
            forall i :: 0 <= i < VISIBLE ==>
              Screen(rows, TopRow(|lines|))[i]
              == Padded(if first + i < |lines| then lines[first + i] else [])
  {
    var n := |lines|;
    var first := if n <= VISIBLE then 0 else n - VISIBLE;
    forall i | 0 <= i < VISIBLE
      ensures Screen(rows, TopRow(n))[i] == Padded(if first + i < n then lines[first + i] else [])
    {
      AddModRows(first, i);
    }
  }
}
