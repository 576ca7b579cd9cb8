/**
 The text terminal of src/io.c: 80 by 25 cells of video memory, as a window on an unbounded log.
 The log is flat: row r is cells[80 * r..80 * r + 80], and the last 25 rows are on the screen.
 */
module Terminal {
  import opened Bytes

  datatype Cell = Cell(ch: byte, attr: byte)

  datatype Log = Log(cells: seq<Cell>, pos: nat) {
    /** Where the screen begins. */
    function Top(): int {
      |cells| - 2000
    }

    /** Whole rows, at least a screen of them, and the cursor on the screen. */
    predicate Good() {
      |cells| >= 2000 && |cells| % 80 == 0 && Top() <= pos < |cells|
    }
  }

  function Blank(color: byte): Cell {
    Cell(SPACE, color)
  }

  function Blanks(n: nat, color: byte): (b: seq<Cell>)
    ensures |b| == n && forall i :: 0 <= i < n ==> b[i] == Blank(color)
  {
    seq(n, _ => Blank(color))
  }

  /** A cursor that left the last row makes a new blank row. */
  function Grow(log: Log, color: byte): Log {
    if log.pos >= |log.cells| then log.(cells := log.cells + Blanks(80, color)) else log
  }

  /** What one character does to the log. */
  function Put(log: Log, c: byte, color: byte): (l: Log)
    requires log.Good()
    ensures l.Good() && |log.cells| <= |l.cells|
  {
    if c == NEWLINE then
      Grow(log.(pos := (log.pos / 80 + 1) * 80), color)
    else if c == BACKSPACE then
      var p := if log.pos > log.Top() then log.pos - 1 else log.pos;
      Log(log.cells[p := Blank(color)], p)
    else
      Grow(Log(log.cells[log.pos := Cell(c, color)], log.pos + 1), color)
  }

  function PutAll(log: Log, text: seq<byte>, color: byte): (l: Log)
    requires log.Good()
    ensures l.Good() && |log.cells| <= |l.cells|
    decreases |text|
  {
    if text == [] then log else PutAll(Put(log, text[0], color), text[1..], color)
  }

  function Cleared(log: Log, color: byte): (l: Log)
    requires log.Good()
    ensures l.Good()
  {
    Log(log.cells[..log.Top()] + Blanks(2000, color), log.Top())
  }

  predicate IsPlain(c: byte) {
    c != NEWLINE && c != BACKSPACE
  }

  /** No output ever changes a row that has scrolled off the screen. */
  lemma {:induction false} HistoryIsFrozen(log: Log, text: seq<byte>, color: byte)
    requires log.Good()
    ensures PutAll(log, text, color).cells[..log.Top()] == log.cells[..log.Top()]
    decreases |text|
  {
    if text != [] {
      var l := Put(log, text[0], color);
      HistoryIsFrozen(l, text[1..], color);
      var end := PutAll(l, text[1..], color);
      assert l.cells[..log.Top()] == log.cells[..log.Top()];
      assert end.cells[..l.Top()][..log.Top()] == l.cells[..l.Top()][..log.Top()];
    }
  }

  /** Plain text lands in the log cell by cell, in order, across wraps and scrolls. */
  lemma {:induction false} PlainTextLands(log: Log, text: seq<byte>, color: byte)
    requires log.Good() && forall i :: 0 <= i < |text| ==> IsPlain(text[i])
    ensures var l := PutAll(log, text, color);
            && l.pos == log.pos + |text| <= |l.cells|
            && (forall i :: 0 <= i < |text| ==> l.cells[log.pos + i] == Cell(text[i], color))
            && (forall i :: 0 <= i < log.pos ==> l.cells[i] == log.cells[i])
    decreases |text|
  {
    if text != [] {
      var l := Put(log, text[0], color);
      PlainTextLands(l, text[1..], color);
      assert forall i :: 0 <= i < |text| - 1 ==> text[1..][i] == text[i + 1];
      var end := PutAll(l, text[1..], color);
      forall i | 0 <= i < |text| ensures end.cells[log.pos + i] == Cell(text[i], color) {
        if i > 0 {
          assert end.cells[l.pos + (i - 1)] == Cell(text[1..][i - 1], color);
        }
      }
    }
  }

  lemma PutNewline(log: Log, y: nat, x: nat, at: nat, color: byte)
    requires log.Good() && x < 80 && log.pos == log.Top() + 80 * y + x && at == log.Top() + 80 * (y + 1)
    ensures Put(log, NEWLINE, color) == Grow(Log(log.cells, at), color)
  {
    assert log.pos / 80 == log.Top() / 80 + y;
  }

  lemma PutBackspace(log: Log, at: nat, cells: seq<Cell>, color: byte)
    requires log.Good() && at == (if log.pos > log.Top() then log.pos - 1 else log.pos)
    requires cells == log.cells[at := Blank(color)]
    ensures Put(log, BACKSPACE, color) == Grow(Log(cells, at), color)
  {}

  /** Clearing blanks the 25 rows of the screen, puts the cursor at the top left, and keeps the rows above. */
  lemma ClearedIsBlank(log: Log, color: byte)
    requires log.Good()
    ensures var l := Cleared(log, color);
            && |l.cells| == |log.cells| && l.pos == l.Top() == log.Top()
            && l.cells[..l.Top()] == log.cells[..log.Top()]
            && forall i :: l.Top() <= i < |l.cells| ==> l.cells[i] == Cell(' ' as int, color)
  {}

  /** A backspace goes one cell back, across row ends too, but not above the screen, and blanks that cell alone. */
  lemma BackspaceGoesBack(log: Log, color: byte)
    requires log.Good()
    ensures var l := Put(log, BACKSPACE, color);
            && |l.cells| == |log.cells| && l.pos == (if log.pos == log.Top() then log.pos else log.pos - 1)
            && l.cells[l.pos] == Cell(' ' as int, color)
            && forall i :: 0 <= i < |l.cells| && i != l.pos ==> l.cells[i] == log.cells[i]
  {}

  /** A newline goes to the start of the next row, which is blank if it is new, and changes no cell. */
  lemma NewlineStartsRow(log: Log, color: byte)
    requires log.Good()
    ensures var l := Put(log, NEWLINE, color);
            && l.pos % 80 == 0 && log.pos < l.pos <= log.pos + 80
            && l.cells[..|log.cells|] == log.cells
            && (|l.cells| > |log.cells| ==> l.pos == |log.cells| && l.cells[l.pos..] == Blanks(80, color))
  {
    var q := log.pos / 80;
    assert log.pos == 80 * q + log.pos % 80 && (80 * (q + 1)) % 80 == 0;
  }

  /** A backspace takes back a plain character's step always, and its cell exactly over a blank. */
  lemma BackspaceUndoesIff(log: Log, c: byte, color: byte)
    requires log.Good() && IsPlain(c)
    ensures var l := Put(Put(log, c, color), BACKSPACE, color);
            && l.pos == log.pos && l.cells[..log.pos] == log.cells[..log.pos]
            && l.cells[log.pos] == Blank(color)
            && (l.cells[..|log.cells|] == log.cells <==> log.cells[log.pos] == Blank(color))
  {
    var m := Put(log, c, color);
    var l := Put(m, BACKSPACE, color);
    assert m.pos > m.Top();
    assert l.cells[..|log.cells|] == log.cells[log.pos := Blank(color)];
  }

  class Screen {
    const vga: array<byte>
    var cursorX: nat
    var cursorY: nat
    var color: byte
    ghost var log: Log

    /** The screen shows the last 25 rows of the log, and the cursor is the log's. */
    ghost predicate Valid()
      reads this, vga
    {
      && vga.Length == 4000 && log.Good()
      && cursorX < 80 && cursorY < 25 && log.Top() + cursorY * 80 + cursorX == log.pos
      && Shows(log.cells)
    }

    ghost predicate Shows(cells: seq<Cell>)
      requires vga.Length == 4000 && |cells| >= 2000
      reads this, vga
    {
      forall i :: 0 <= i < 2000 ==> vga[2 * i] == cells[|cells| - 2000 + i].ch
                                    && vga[2 * i + 1] == cells[|cells| - 2000 + i].attr
    }

    constructor (color: byte)
      ensures Valid() && fresh(vga) && this.color == color
      ensures log == Log(Blanks(2000, color), 0)
    {
      vga := new byte[4000](k => if k % 2 == 0 then SPACE else color);
      cursorX, cursorY := 0, 0;
      this.color := color;
      log := Log(Blanks(2000, color), 0);
    }

    /** The two loops of scroll: rows move up one by one in place, then the last row is cleared. */
    method Scroll()
      requires vga.Length == 4000
      modifies vga, `cursorY
      ensures forall k :: 0 <= k < 3840 ==> vga[k] == old(vga[k + 160])
      ensures forall k :: 3840 <= k < 4000 ==> vga[k] == if k % 2 == 0 then SPACE else color
      ensures cursorY == 24
    {
      for y := 0 to 24
        invariant forall k :: 0 <= k < y * 160 ==> vga[k] == old(vga[k + 160])
        invariant forall k :: y * 160 <= k < 4000 ==> vga[k] == old(vga[k])
      {
        for x := 0 to 80
          invariant forall k :: 0 <= k < y * 160 + 2 * x ==> vga[k] == old(vga[k + 160])
          invariant forall k :: y * 160 + 2 * x <= k < 4000 ==> vga[k] == old(vga[k])
        {
          var dst := (y * 80 + x) * 2;
          var src := ((y + 1) * 80 + x) * 2;
          vga[dst] := vga[src];
          vga[dst + 1] := vga[src + 1];
        }
      }
      for x := 0 to 80
        invariant forall k :: 0 <= k < 3840 ==> vga[k] == old(vga[k + 160])
        invariant forall k :: 3840 <= k < 3840 + 2 * x ==> vga[k] == if k % 2 == 0 then SPACE else color
      {
        var offset := (24 * 80 + x) * 2;
        vga[offset] := SPACE;
        vga[offset + 1] := color;
      }
      cursorY := 24;
    }

    /** A scrolled window shows the same log with a blank row more. */
    method ScrollWindow(ghost cells: seq<Cell>)
      requires vga.Length == 4000 && |cells| >= 2000 && Shows(cells)
      modifies vga, `cursorY
      ensures Shows(cells + Blanks(80, color)) && cursorY == 24
    {
      Scroll();
      ghost var more := cells + Blanks(80, color);
      forall i | 0 <= i < 2000
        ensures vga[2 * i] == more[|more| - 2000 + i].ch && vga[2 * i + 1] == more[|more| - 2000 + i].attr
      {
        if i < 1920 {
          assert more[|more| - 2000 + i] == cells[|cells| - 2000 + (i + 80)];
          assert 2 * i + 160 == 2 * (i + 80);
        }
      }
    }

    /** Any character keeps the screen a window on the log. */
    method WriteChar(c: byte)
      requires Valid()
      modifies vga, `cursorX, `cursorY, `log
      ensures Valid() && log == Put(old(log), c, color)
    {
      ghost var cells := WriteCell(c);
      if cursorX >= 80 {
        cursorX := 0;
        cursorY := cursorY + 1;
      }
      log := Put(log, c, color);
      if cursorY >= 25 {
        ScrollWindow(cells);
      }
    }

    /** writeChar up to the wrap: the cell it writes, and where the cursor goes next. */
    method WriteCell(c: byte) returns (ghost cells: seq<Cell>)
      requires Valid()
      modifies vga, `cursorX, `cursorY
      ensures |cells| == |log.cells| && Shows(cells)
      ensures cursorX <= 80 && cursorY <= 25 && (cursorX == 80 ==> cursorY < 25)
      ensures var at := log.Top() + cursorY * 80 + cursorX;
              && Put(log, c, color) == Grow(Log(cells, at), color) && at <= |cells|
    {
      cells := log.cells;
      ghost var top := log.Top();
      if c == NEWLINE {
        PutNewline(log, cursorY, cursorX, top + 80 * (cursorY + 1), color);
        cursorX := 0;
        cursorY := cursorY + 1;
      } else if c == BACKSPACE {
        if cursorX > 0 {
          cursorX := cursorX - 1;
        } else if cursorY > 0 {
          cursorY := cursorY - 1;
          cursorX := 79;
        }
        ghost var at := top + cursorY * 80 + cursorX;
        PokeCell(SPACE, cells, at);
        cells := cells[at := Blank(color)];
        PutBackspace(log, at, cells, color);
      } else {
        ghost var at := top + cursorY * 80 + cursorX;
        PokeCell(c, cells, at);
        cells := cells[at := Cell(c, color)];
        cursorX := cursorX + 1;
      }
    }

    /** The two stores to video memory at the cursor. */
    method PokeCell(c: byte, ghost cells: seq<Cell>, ghost at: nat)
      requires vga.Length == 4000 && cursorX < 80 && cursorY < 25
      requires |cells| >= 2000 && Shows(cells) && at == |cells| - 2000 + cursorY * 80 + cursorX
      modifies vga
      ensures Shows(cells[at := Cell(c, color)])
    {
      var offset := (cursorY * 80 + cursorX) * 2;
      vga[offset] := c;
      vga[offset + 1] := color;
    }

    method WriteStr(s: seq<byte>)
      requires Valid()
      modifies vga, `cursorX, `cursorY, `log
      ensures Valid() && log == PutAll(old(log), s, color)
    {
      for i := 0 to |s|
        invariant Valid()
        invariant PutAll(log, s[i..], color) == PutAll(old(log), s, color)
      {
        WriteChar(s[i]);
        assert s[i..][0] == s[i] && s[i..][1..] == s[i + 1..];
      }
    }

    method ClearScreen()
      requires Valid()
      modifies vga, `cursorX, `cursorY, `log
      ensures Valid() && log == Cleared(old(log), color)
    {
      for i := 0 to 2000
        invariant forall k :: 0 <= k < i ==> vga[2 * k] == SPACE && vga[2 * k + 1] == color
        invariant log == old(log)
      {
        vga[i * 2] := SPACE;
        vga[i * 2 + 1] := color;
      }
      cursorX, cursorY := 0, 0;
      log := Cleared(log, color);
    }
  }
}
