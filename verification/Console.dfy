/**
 fmtGet("%s", buf) of src/io.c in blocking mode: the line editor behind read on descriptor 0. It keeps at most
 255 characters and drops the others without an echo. The keyboard is the list of bytes getInput will
 deliver (never 0), and whether Ctrl+D is seen once they are used up.
 */
module Console {
  import opened Bytes
  import opened Terminal
  import opened Stdin

  const LIMIT: nat := 255

  /** The keystrokes that take effect: characters typed into a full buffer do not. */
  function Kept(keys: seq<byte>): seq<byte> {
    if keys == [] then []
    else
      var kept, c := Kept(keys[..|keys| - 1]), keys[|keys| - 1];
      if c != BACKSPACE && |Edited(kept)| >= LIMIT then kept else kept + [c]
  }

  /** The text the line editor ends with. */
  function Typed(keys: seq<byte>): seq<byte> {
    Edited(Kept(keys))
  }

  lemma EditedSnoc(keys: seq<byte>, c: byte)
    ensures Edited(keys + [c]) ==
            if c != BACKSPACE then Edited(keys) + [c]
            else if Edited(keys) == [] then [] else Edited(keys)[..|Edited(keys)| - 1]
  {
    assert (keys + [c])[..|keys|] == keys;
  }

  /** Whatever is typed, no moment of the line has more than 255 characters. */
  lemma {:induction false} KeptIsWithin(keys: seq<byte>)
    ensures Within(Kept(keys), LIMIT) && |Typed(keys)| <= LIMIT
    ensures forall c :: c in Kept(keys) ==> c in keys
  {
    if keys != [] {
      var init, c := keys[..|keys| - 1], keys[|keys| - 1];
      var kept := Kept(init);
      KeptIsWithin(init);
      EditedSnoc(kept, c);
      forall k | 0 <= k <= |Kept(keys)| ensures |Edited(Kept(keys)[..k])| <= LIMIT {
        if k <= |kept| {
          assert Kept(keys)[..k] == kept[..k];
        } else {
          assert Kept(keys)[..k] == kept + [c];
        }
      }
    }
    assert Kept(keys)[..|Kept(keys)|] == Kept(keys);
  }

  /** Nothing is dropped exactly when the text never outgrows 255 characters. */
  lemma {:induction false} KeepsAllIff(keys: seq<byte>)
    ensures Kept(keys) == keys <==> Within(keys, LIMIT)
    ensures |Kept(keys)| <= |keys|
  {
    KeptIsWithin(keys);
    if keys != [] {
      var init, c := keys[..|keys| - 1], keys[|keys| - 1];
      KeepsAllIff(init);
      assert keys == init + [c];
      if Within(keys, LIMIT) {
        assert forall k :: 0 <= k <= |init| ==> init[..k] == keys[..k];
        EditedSnoc(init, c);
        assert |Edited(keys[..|keys|])| <= LIMIT && keys[..|keys|] == keys;
      }
    }
  }

  /**
   After any keystrokes at all the cells just before the cursor hold exactly the text, from the cell
   the line began in: the bound of 255 keeps the line on the screen.
   */
  lemma ScreenHoldsTyped(log: Log, keys: seq<byte>, color: byte)
    requires log.Good() && NEWLINE !in keys
    ensures var l := Echoed(log, Kept(keys), color);
            Holds(l.cells, log.pos, Typed(keys), color) && l.pos == log.pos + |Typed(keys)| && l.Top() <= log.pos
  {
    KeptIsWithin(keys);
    EchoAgrees(log, Kept(keys), color);
  }

  /** The keys before the first newline, or all of them. */
  function Row(keys: seq<byte>): (r: seq<byte>)
    ensures r <= keys && NEWLINE !in r
    ensures |r| < |keys| ==> keys[|r|] == NEWLINE
  {
    if keys == [] || keys[0] == NEWLINE then [] else [keys[0]] + Row(keys[1..])
  }

  /** The keys left after the line: none when it ended with Ctrl+D. */
  function AfterRow(keys: seq<byte>): seq<byte> {
    var n := |Row(keys)|;
    if n < |keys| then keys[n + 1..] else []
  }

  /** The keys up to a newline are the line, and every key behind it is left. */
  lemma {:induction false} RowSplit(a: seq<byte>, b: seq<byte>)
    requires NEWLINE !in a
    ensures Row(a + [NEWLINE] + b) == a && AfterRow(a + [NEWLINE] + b) == b
    decreases |a|
  {
    var keys := a + [NEWLINE] + b;
    if a == [] {
      assert keys == [NEWLINE] + b;
    } else {
      assert keys[1..] == a[1..] + [NEWLINE] + b;
      assert a[0] in a && forall c :: c in a[1..] ==> c in a;
      RowSplit(a[1..], b);
    }
  }

  /** Without a newline all keys are the line, and none is left. */
  lemma {:induction false} RowOfAll(a: seq<byte>)
    requires NEWLINE !in a
    ensures Row(a) == a && AfterRow(a) == []
  {
    if a != [] {
      assert a[0] in a && forall c :: c in a[1..] ==> c in a;
      RowOfAll(a[1..]);
    }
  }

  /** One more key: a character is added unless 255 are there, and a backspace takes the last one away. */
  lemma TypedNext(keys: seq<byte>, c: byte)
    ensures c == BACKSPACE && Typed(keys) == [] ==> Typed(keys + [c]) == []
    ensures c == BACKSPACE && Typed(keys) != [] ==> Typed(keys + [c]) == Typed(keys)[..|Typed(keys)| - 1]
    ensures c != BACKSPACE && |Typed(keys)| < 255 ==> Typed(keys + [c]) == Typed(keys) + [c]
    ensures c != BACKSPACE && |Typed(keys)| >= 255 ==> Typed(keys + [c]) == Typed(keys)
  {
    assert (keys + [c])[..|keys|] == keys;
    EditedSnoc(Kept(keys), c);
  }

  /** The terminal after a line of keys and its newline. */
  ghost function LineEcho(log: Log, keys: seq<byte>, color: byte): Log
    requires log.Good()
  {
    Put(Echoed(log, Kept(Row(keys)), color), NEWLINE, color)
  }

  /** The line stands on the screen where it began, and the cursor is at the start of the row below. */
  lemma LineStandsOnScreen(log: Log, keys: seq<byte>, color: byte)
    requires log.Good()
    ensures var l := LineEcho(log, keys, color); var text := Typed(Row(keys));
            && l.Good() && Holds(l.cells, log.pos, text, color)
            && l.pos % 80 == 0 && log.pos + |text| < l.pos <= log.pos + |text| + 80
  {
    var m := Echoed(log, Kept(Row(keys)), color);
    ScreenHoldsTyped(log, Row(keys), color);
    NewlineStartsRow(m, color);
    HeldAsPrefix(m.cells, LineEcho(log, keys, color).cells, log.pos, Typed(Row(keys)), color);
  }

  lemma HeldAsPrefix(a: seq<Cell>, b: seq<Cell>, from: nat, text: seq<byte>, color: byte)
    requires |a| <= |b| && b[..|a|] == a && Holds(a, from, text, color)
    ensures Holds(b, from, text, color)
  {
    forall i | 0 <= i < |text| ensures b[from + i] == Cell(text[i], color) {
      assert b[..|a|][from + i] == a[from + i];
    }
  }

  /** The array begins with this text and its NUL. */
  ghost predicate HoldsString(a: array<byte>, text: seq<byte>)
    reads a
  {
    |text| < a.Length && a[..|text|] == text && a[|text|] == NUL
  }

  /** The keys a, b and newline type two bytes: so read returns 2 for them even when asked for 1. */
  lemma CountIsIgnored(keys: seq<byte>)
    requires keys == [97, 98, NEWLINE]
    ensures Typed(Row(keys)) == [97, 98] && AfterRow(keys) == []
  {
    var a: seq<byte> := [97];
    assert keys[1..] == [98, NEWLINE] && keys[1..][1..] == [NEWLINE];
    assert Row([NEWLINE]) == [] && Row([98, NEWLINE]) == [98] && Row(keys) == a + [98];
    EditedSnoc([], 97);
    EditedSnoc(a, 98);
    assert [] + a == a && (a + [98])[..1] == a && a[..0] == [];
    assert Kept([]) == [] && Kept(a) == a && Kept(a + [98]) == a + [98];
  }

  lemma NextInRow(keys: seq<byte>, n: nat)
    requires n <= |Row(keys)| && n < |keys| && keys[n] != NEWLINE
    ensures n < |Row(keys)| && Row(keys)[..n + 1] == Row(keys)[..n] + [keys[n]]
    ensures keys[n..][1..] == keys[n + 1..]
  {}

  lemma RowEnds(keys: seq<byte>, n: nat)
    requires n <= |Row(keys)| && (n == |keys| || keys[n] == NEWLINE)
    ensures n == |Row(keys)| && Row(keys)[..n] == Row(keys)
  {
    assert forall k :: 0 <= k < |Row(keys)| ==> keys[k] == Row(keys)[k] != NEWLINE;
  }

  /** What one keystroke shows. */
  function Shown(log: Log, text: seq<byte>, c: byte, color: byte): Log
    requires log.Good()
  {
    if c != BACKSPACE && |text| >= LIMIT then log else Echo(log, text, c, color)
  }

  lemma ShownStep(log: Log, keys: seq<byte>, c: byte, color: byte)
    requires log.Good()
    ensures Shown(Echoed(log, Kept(keys), color), Typed(keys), c, color) == Echoed(log, Kept(keys + [c]), color)
  {
    var kept := Kept(keys);
    assert (keys + [c])[..|keys|] == keys && (kept + [c])[..|kept|] == kept;
  }

  lemma {:induction false} EditedHasNoNul(keys: seq<byte>)
    requires NUL !in keys
    ensures NUL !in Edited(keys)
  {
    if keys != [] {
      assert forall c :: c in keys[..|keys| - 1] ==> c in keys;
      EditedHasNoNul(keys[..|keys| - 1]);
    }
  }

  lemma TypedHasNoNul(keys: seq<byte>)
    requires NUL !in keys
    ensures NUL !in Typed(keys)
  {
    KeptIsWithin(keys);
    EditedHasNoNul(Kept(keys));
  }

  class Editor {
    const screen: Screen
    var pending: seq<byte>
    var eofTrigger: bool

    constructor (screen: Screen, keys: seq<byte>, eof: bool)
      ensures this.screen == screen && pending == keys && eofTrigger == eof
    {
      this.screen := screen;
      pending := keys;
      eofTrigger := eof;
    }

    /** The line ends, and the text and its NUL fit in room bytes. */
    ghost predicate CanGet(room: nat)
      reads this
    {
      && (|Row(pending)| < |pending| || eofTrigger) && NUL !in pending
      && |Typed(Row(pending))| < room
    }

    /** One keystroke of the loop of fmtGet. */
    method EditKey(input: array<byte>, c: byte, i: nat, ghost keys: seq<byte>) returns (next: nat)
      requires screen.Valid() && input.Length == 256 && input != screen.vga && c != NEWLINE
      requires i == |Typed(keys)| <= LIMIT && input[..i] == Typed(keys)
      modifies input, screen.vga, screen`cursorX, screen`cursorY, screen`log
      ensures screen.Valid() && screen.log == Shown(old(screen.log), Typed(keys), c, screen.color)
      ensures next == |Typed(keys + [c])| <= LIMIT && input[..next] == Typed(keys + [c])
    {
      assert (keys + [c])[..|keys|] == keys;
      EditedSnoc(Kept(keys), c);
      next := i;
      if c == BACKSPACE {
        if i > 0 {
          next := i - 1;
          screen.WriteChar(BACKSPACE);
        }
      } else if i < LIMIT {
        input[i] := c;
        next := i + 1;
        screen.WriteChar(c);
      }
    }

    /** The loop of fmtGet up to the key, or the Ctrl+D, that ends the line. */
    method EditKeys(input: array<byte>) returns (i: nat)
      requires screen.Valid() && input.Length == 256 && input != screen.vga
      modifies input, `pending, screen.vga, screen`cursorX, screen`cursorY, screen`log
      ensures screen.Valid() && pending == old(pending)[|Row(old(pending))|..]
      ensures i == |Typed(Row(old(pending)))| <= LIMIT && input[..i] == Typed(Row(old(pending)))
      ensures screen.log == Echoed(old(screen.log), Kept(Row(old(pending))), screen.color)
    {
      ghost var all, row, n := pending, Row(pending), 0;
      i := 0;
      while pending != [] && pending[0] != NEWLINE
        invariant screen.Valid() && n <= |row| && pending == all[n..]
        invariant i == |Typed(row[..n])| <= LIMIT && input[..i] == Typed(row[..n])
        invariant screen.log == Echoed(old(screen.log), Kept(row[..n]), screen.color)
        decreases |pending|
      {
        var c := pending[0];
        NextInRow(all, n);
        ShownStep(old(screen.log), row[..n], c, screen.color);
        i := EditKey(input, c, i, row[..n]);
        pending := pending[1..];
        n := n + 1;
      }
      RowEnds(all, n);
    }

    /** The line, its newline, and its NUL: fmtGet up to vsfmtGet. */
    method GetLine(input: array<byte>) returns (i: nat)
      requires screen.Valid() && input.Length == 256 && input != screen.vga
      requires |Row(pending)| < |pending| || eofTrigger
      modifies input, `pending, `eofTrigger, screen.vga, screen`cursorX, screen`cursorY, screen`log
      ensures screen.Valid() && pending == AfterRow(old(pending)) && !eofTrigger
      ensures i == |Typed(Row(old(pending)))| <= LIMIT && HoldsString(input, Typed(Row(old(pending))))
      ensures screen.log == LineEcho(old(screen.log), old(pending), screen.color)
    {
      i := EditKeys(input);
      if pending != [] {
        pending := pending[1..];
      }
      screen.WriteChar(NEWLINE);
      eofTrigger := false;
      input[i] := NUL;
    }

    /** fmtGet("%s", dest): the text goes to dest whatever its room, with its NUL. */
    method FmtGetString(dest: array<byte>)
      requires screen.Valid() && dest != screen.vga && CanGet(dest.Length)
      modifies dest, `pending, `eofTrigger, screen.vga, screen`cursorX, screen`cursorY, screen`log
      ensures screen.Valid() && pending == AfterRow(old(pending)) && !eofTrigger
      ensures NUL !in Typed(Row(old(pending))) && HoldsString(dest, Typed(Row(old(pending))))
      ensures forall k :: |Typed(Row(old(pending)))| < k < dest.Length ==> dest[k] == old(dest[k])
      ensures screen.log == LineEcho(old(screen.log), old(pending), screen.color)
    {
      ghost var text := Typed(Row(pending));
      TypedHasNoNul(Row(pending));
      var input := new byte[256](_ => NUL);
      var _ := GetLine(input);
      CopyString(input, dest, text);
    }
  }

  /** The 's' case of vsfmtGet. */
  method CopyString(src: array<byte>, dest: array<byte>, ghost text: seq<byte>)
    requires src != dest && NUL !in text && HoldsString(src, text) && |text| < dest.Length
    modifies dest
    ensures HoldsString(dest, text)
    ensures forall k :: |text| < k < dest.Length ==> dest[k] == old(dest[k])
  {
    var j := 0;
    assert forall k :: 0 <= k < |text| ==> src[k] == text[k] && text[k] in text;
    while src[j] != NUL
      invariant 0 <= j <= |text|
      invariant forall k :: 0 <= k < dest.Length ==> dest[k] == if k < j then src[k] else old(dest[k])
      decreases |text| - j
    {
      dest[j] := src[j];
      j := j + 1;
    }
    dest[j] := NUL;
  }
}
