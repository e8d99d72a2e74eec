/** The VGA text console of `kxlog`: a 64-row ring of text RAM and a scroll register. */
module Console {
  import opened Basics
  import opened WrappedLog

  const BUFSIZE: nat := 128
  const NUL: byte := 0

  class Console {
    const textram: array2<byte>
    const buffer: array<byte>
    var curX: nat
    var curY: nat
    var scroll: nat
    ghost var log: seq<byte>

    ghost function Rows(): (rows: seq<seq<byte>>)
      requires textram.Length0 == ROWS && textram.Length1 == COLUMNS
      reads textram
      ensures |rows| == ROWS && forall r :: 0 <= r < ROWS ==> |rows[r]| == COLUMNS
    {
      seq(ROWS, r requires 0 <= r < ROWS reads textram =>
        seq(COLUMNS, x requires 0 <= x < COLUMNS reads textram => textram[r, x]))
    }

    /** Text RAM and cursor after the characters of `log`. The cursor's row number is an unsigned 32-bit
        count of the lines begun. */
    ghost predicate Valid()
      reads this, textram
    {
      && textram.Length0 == ROWS && textram.Length1 == COLUMNS && buffer.Length == BUFSIZE
      && var lines := Lines(log);
      && Displays(Rows(), lines)
      && curX == |lines[|lines| - 1]| < WIDTH
      && curY == (|lines| - 1) % WORD
      && (log != [] ==> scroll == ScrollFor(curY))
    }

    /** Clears the text RAM, as `init` does. */
    constructor ()
      ensures Valid() && log == [] && fresh(textram) && fresh(buffer)
    {
      textram := new byte[ROWS, COLUMNS];
      buffer := new byte[BUFSIZE];
      curX, curY, scroll, log := 0, 0, 0, [];
      new;
      for y := 0 to ROWS
        modifies textram
        invariant forall r, x :: 0 <= r < y && 0 <= x < COLUMNS ==> textram[r, x] == BLANK
      {
        for x := 0 to COLUMNS
          modifies textram
          invariant forall r, x :: 0 <= r < y && 0 <= x < COLUMNS ==> textram[r, x] == BLANK
          invariant forall x' :: 0 <= x' < x ==> textram[y, x'] == BLANK
        {
          textram[y, x] := BLANK;
        }
      }
      assert forall r :: 0 <= r < ROWS ==> Rows()[r] == Padded([]);
    }

    /** Blanks row y. */
    method ClearRow(y: nat)
      requires textram.Length0 == ROWS && textram.Length1 == COLUMNS && y < ROWS
      modifies textram
      ensures Rows() == old(Rows())[y := Padded([])]
    {
      for x := 0 to COLUMNS
        invariant forall x' :: 0 <= x' < x ==> textram[y, x'] == BLANK
        invariant forall r, x' :: 0 <= r < ROWS && 0 <= x' < COLUMNS && r != y ==> textram[r, x'] == old(textram[r, x'])
      {
        textram[y, x] := BLANK;
      }
      assert forall r :: 0 <= r < ROWS ==> Rows()[r] == old(Rows())[y := Padded([])][r];
    }

    /** Stores a character. */
    method Store(y: nat, x: nat, c: byte)
      requires textram.Length0 == ROWS && textram.Length1 == COLUMNS && y < ROWS && x < COLUMNS
      modifies textram
      ensures Rows() == old(Rows())[y := old(Rows())[y][x := c]]
    {
      textram[y, x] := c;
      assert forall r :: 0 <= r < ROWS ==> Rows()[r] == old(Rows())[y := old(Rows())[y][x := c]][r];
    }

    /** The loop body of `kxlog`: one character. */
    method Put(c: byte)
      requires Valid()
      modifies this, textram
      ensures Valid() && log == old(log) + [c]
    {
      hide Displays, Padded, Rows, Lines, Feed;
      ghost var lines, rows := Lines(log), Rows();
      ghost var k := |lines| - 1;
      RowOfCount(k);
      RowOfCount(k + 1);
      LinesFeed(log, c);
      LinesFit(log);
      if c == LF || c == CR {
        curX := 0;
        curY := (curY + 1) % WORD;
        FeedBreak(lines, c);
        DisplayNewLine(rows, lines);
      } else {
        FeedCharacter(lines, c);
        Store(curY % ROWS, curX, c);
        curX := curX + 1;
        DisplayLonger(rows, lines, c);
        if curX >= WIDTH {
          DisplayNewLine(Rows(), lines[..k] + [lines[k] + [c]]);
        }
      }
      if curX >= WIDTH {
        curX := 0;
        curY := (curY + 1) % WORD;
      }
      scroll := if curY >= 30 then (curY - 29) % ROWS else 0;
      if curX == 0 {
        ClearRow(curY % ROWS);
      }
      log := log + [c];
    }

    /** `vsnprintf`: stores as much of the text as fits with its terminator, and gives the length of all of it,
        or something negative. */
    method Format(text: seq<byte>, error: bool) returns (n: int)
      requires buffer.Length == BUFSIZE
      modifies buffer
      ensures n == if error then -1 else |text|
      ensures 0 <= n < BUFSIZE ==> buffer[..n] == text
    {
      if error {
        return -1;
      }
      var fit := if |text| < BUFSIZE then |text| else BUFSIZE - 1;
      for i := 0 to fit
        invariant buffer[..i] == text[..i]
      {
        buffer[i] := text[i];
      }
      buffer[fit] := NUL;
      assert |text| == fit ==> text[..fit] == text;
      return |text|;
    }

    /** `kxlog` on the text that the formatting is to make of its arguments: an error or an overlong text logs
        nothing, any other each of its characters in turn. A text of exactly 128 characters is not turned away,
        and its terminator is stored behind the buffer; `overrun` says that the code has got there. */
    method KxLog(text: seq<byte>, error: bool) returns (overrun: bool)
      requires Valid()
      modifies this, textram, buffer
      ensures Valid() && (overrun <==> !error && |text| == BUFSIZE)
      ensures log == if error || |text| >= BUFSIZE then old(log) else old(log) + text
    {
      hide Displays, Padded, Rows, Lines, Feed, ScrollFor;
      var n := Format(text, error);
      if TurnedAway(n) {
        return false;
      }
      if n >= buffer.Length {
        return true;
      }
      buffer[n] := NUL;
      for i := 0 to n
        invariant Valid() && buffer[..n] == text && log == old(log) + text[..i]
      {
        Put(buffer[i]);
        assert text[..i + 1] == text[..i] + [text[i]];
      }
      assert text[..n] == text;
      return false;
    }

    /** Cell by cell: row L mod 64 of the text RAM holds line L, padded with blanks, for each of the last 64 lines. */
    lemma CellsHoldLog()
      requires Valid()
      ensures var lines := Lines(log);
              forall l, x :: 0 <= l < |lines| && |lines| - 64 <= l && 0 <= x < 128 ==>
                textram[l % 64, x] == if x < |lines[l]| then lines[l][x] else 0x20
    {
      var lines := Lines(log);
      hide Lines;
      forall l, x | 0 <= l < |lines| && |lines| - 64 <= l && 0 <= x < 128
        ensures textram[l % 64, x] == if x < |lines[l]| then lines[l][x] else 0x20
      {
        assert Rows()[l % ROWS] == Padded(lines[l]);
        assert Rows()[l % ROWS][x] == textram[l % 64, x];
      }
    }

    /** The character on the screen in row i, column x: the hardware starts at the scroll register's row. */
    function Shown(i: nat, x: nat): byte
      requires textram.Length0 == ROWS && textram.Length1 == COLUMNS && i < 30 && x < 128
      reads this, textram
    {
      textram[(scroll + i) % 64, x]
    }

    lemma RowShown(i: nat, line: Line)
      requires textram.Length0 == ROWS && textram.Length1 == COLUMNS && i < 30
      requires Screen(Rows(), scroll)[i] == Padded(line)
      ensures forall x :: 0 <= x < 128 ==> Shown(i, x) == if x < |line| then line[x] else 0x20
    {
      forall x | 0 <= x < 128
        ensures Shown(i, x) == if x < |line| then line[x] else 0x20
      {
        assert Rows()[(scroll + i) % ROWS][x] == textram[(scroll + i) % 64, x];
      }
    }

    lemma CellsShow(lines: seq<Line>, first: nat)
      requires textram.Length0 == ROWS && textram.Length1 == COLUMNS
      requires forall i :: 0 <= i < 30 ==>
                 Screen(Rows(), scroll)[i] == Padded(if first + i < |lines| then lines[first + i] else [])
      ensures forall i, x :: 0 <= i < 30 && 0 <= x < 128 ==>
                Shown(i, x)
                == if first + i < |lines| && x < |lines[first + i]| then lines[first + i][x] else 0x20
    {
      hide Shown, Screen, Padded, Rows;
      forall i, x | 0 <= i < 30 && 0 <= x < 128
        ensures Shown(i, x) == if first + i < |lines| && x < |lines[first + i]| then lines[first + i][x] else 0x20
      {
        RowShown(i, if first + i < |lines| then lines[first + i] else []);
      }
    }

    /** Cell by cell: the screen shows the last 30 lines, or all of them and then blanks. */
    lemma CellsShowLog()
      requires Valid() && log != [] && |Lines(log)| <= WORD
      ensures var lines := Lines(log);
              var first := if |lines| <= 30 then 0 else |lines| - 30;
              forall i, x :: 0 <= i < 30 && 0 <= x < 128 ==>
                Shown(i, x)
                == if first + i < |lines| && x < |lines[first + i]| then lines[first + i][x] else 0x20
    {
      hide Lines, Displays, Shown, Screen, Padded, Rows;
      ScreenShowsLog();
      var lines := Lines(log);
      CellsShow(lines, if |lines| <= 30 then 0 else |lines| - 30);
    }

    /** After at least one character, and before the line count wraps, the screen shows the last 30 lines of
        the wrapped log. */
    lemma ScreenShowsLog()
      requires Valid() && log != [] && |Lines(log)| <= WORD
      ensures var lines := Lines(log);
              var first := if |lines| <= VISIBLE then 0 else |lines| - VISIBLE;
              forall i :: 0 <= i < VISIBLE ==>
                Screen(Rows(), scroll)[i] == Padded(if first + i < |lines| then lines[first + i] else [])
    {
      hide Displays, Padded, Rows, Lines, Screen;
      ScreenShowsLastLines(Rows(), Lines(log));
      ScrollIsRightUnlessWrapped(|Lines(log)|);
    }
  }

  /** The formatted lengths at which `kxlog` gives up. */
  predicate TurnedAway(n: int) {
    n < 0 || n > BUFSIZE
  }

  /** The store of the terminator at index n stays within the buffer, if it is reached, for every length but
      128. */
  lemma TerminatorFits(n: int)
    ensures (TurnedAway(n) || 0 <= n < BUFSIZE) <==> n != 128
  {
  }

  /** The 32-bit line count finds the right row even after wrapping, since 64 divides its range. */
  lemma RowOfCount(n: nat)
    ensures n % WORD % ROWS == n % ROWS
    ensures (n % WORD + 1) % WORD == (n + 1) % WORD
  {
    var q, y := n / WORD, n % WORD;
    var a := q * (WORD / ROWS);
    assert n == ROWS * a + y;
    ModRows(a, y);
    assert n + 1 == q * WORD + (y + 1);
  }

  /** What `kxlog` puts in the scroll register. */
  function ScrollFor(curY: nat): nat {
    if curY >= 30 then (curY - 29) % ROWS else 0
  }

  /** The scroll register is the right one exactly as long as the 32-bit line count has not wrapped, and after
      a wrap once it is back at 29. */
  lemma ScrollIsRightUnlessWrapped(n: nat)
    requires 0 < n
    ensures ScrollFor((n - 1) % WORD) == TopRow(n) <==> n <= WORD || (n - 1) % WORD >= 29
  {
    var q, y := (n - 1) / WORD, (n - 1) % WORD;
    var a := q * (WORD / ROWS);
    assert n - 1 == ROWS * a + y;
    if n > VISIBLE {
      ModRows(a, y - 29);
      if q == 0 {
        assert y == n - 1;
      } else if y < 29 {
        assert (y - 29) % ROWS == y + 35;
      }
    }
  }

  lemma ModRows(a: nat, b: int)
    ensures (ROWS * a + b) % ROWS == b % ROWS
  {
  }
}
