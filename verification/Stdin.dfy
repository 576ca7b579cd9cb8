/**
 Standard input of src/syscalls.c: line editing with echo, and the line buffer reads drain.
 The keyboard is the list of bytes getInput will deliver, in order (never 0).
 */
module Stdin {
  import opened Bytes
  import opened Terminal

  predicate EndsLine(c: byte) {
    c == NEWLINE || c == RETURN
  }

  /** The text a line of keystrokes edits: backspace takes the last character away, if any. */
  function Edited(keys: seq<byte>): (text: seq<byte>)
    ensures |text| <= |keys|
  {
    if keys == [] then []
    else
      var text := Edited(keys[..|keys| - 1]);
      var c := keys[|keys| - 1];
      if c != BACKSPACE then text + [c]
      else if text == [] then text
      else text[..|text| - 1]
  }

  /** What one keystroke of a line shows on the terminal. */
  function Echo(log: Log, text: seq<byte>, c: byte, color: byte): (l: Log)
    requires log.Good()
    ensures l.Good()
  {
    if c == BACKSPACE && text == [] then log else Put(log, c, color)
  }

  /** The terminal after a line of keystrokes, before the newline is echoed. */
  function Echoed(log: Log, keys: seq<byte>, color: byte): (l: Log)
    requires log.Good()
    ensures l.Good()
  {
    if keys == [] then log
    else Echo(Echoed(log, keys[..|keys| - 1], color), Edited(keys[..|keys| - 1]), keys[|keys| - 1], color)
  }

  ghost predicate NoLineEnd(keys: seq<byte>) {
    forall i :: 0 <= i < |keys| ==> !EndsLine(keys[i])
  }

  /** No prefix of the line edits to more than n characters. */
  ghost predicate Within(keys: seq<byte>, n: nat) {
    forall k :: 0 <= k <= |keys| ==> |Edited(keys[..k])| <= n
  }

  /** The cells from `from` on hold exactly this text. */
  ghost predicate Holds(cells: seq<Cell>, from: nat, text: seq<byte>, color: byte) {
    from + |text| <= |cells| && forall i :: 0 <= i < |text| ==> cells[from + i] == Cell(text[i], color)
  }

  /**
   After any line of keystrokes the cells just before the cursor hold exactly the edited text, from
   the cell the line began in, and that cell has not scrolled off: so no backspace of the line ever
   meets the top-left clamp. It needs only that the text never grows past 24 rows.
   */
  lemma {:induction false} EchoAgrees(log: Log, keys: seq<byte>, color: byte)
    requires log.Good() && NEWLINE !in keys && Within(keys, 1920)
    ensures var l := Echoed(log, keys, color);
            && l.pos == log.pos + |Edited(keys)| && l.Top() <= log.pos
            && Holds(l.cells, log.pos, Edited(keys), color)
            && log.pos <= |log.cells| <= |l.cells| && l.cells[..log.pos] == log.cells[..log.pos]
  {
    if keys != [] {
      var init, c := keys[..|keys| - 1], keys[|keys| - 1];
      forall k | 0 <= k <= |init| ensures |Edited(init[..k])| <= 1920 {
        assert init[..k] == keys[..k];
      }
      EchoAgrees(log, init, color);
      assert keys[..|keys|] == keys;
    }
  }

  lemma OwnText(l: Log, from: nat, text: seq<byte>, color: byte)
    requires l.Good() && text != [] && Holds(l.cells, from, text, color)
    requires l.pos == from + |text| && l.Top() <= from
    ensures l.pos > l.Top() && l.cells[l.pos - 1] == Cell(text[|text| - 1], color)
    ensures Echo(l, text, BACKSPACE, color) == Log(l.cells[l.pos - 1 := Blank(color)], l.pos - 1)
  {
    assert l.cells[from + (|text| - 1)] == Cell(text[|text| - 1], color);
  }

  /** Whenever a backspace is echoed, there is a character of this line under the cursor's left. */
  lemma BackspaceErasesOwnText(log: Log, keys: seq<byte>, color: byte, l: Log, text: seq<byte>)
    requires log.Good() && NEWLINE !in keys && Within(keys, 1920)
    requires l == Echoed(log, keys, color) && text == Edited(keys) && text != []
    ensures l.pos > l.Top() && l.cells[l.pos - 1] == Cell(text[|text| - 1], color)
    ensures Echo(l, text, BACKSPACE, color) == Log(l.cells[l.pos - 1 := Blank(color)], l.pos - 1)
  {
    EchoAgrees(log, keys, color);
    OwnText(l, log.pos, text, color);
  }

  // ---- lines ----

  /** The length of the first line of keystrokes, or of all of them when no line is complete. */
  function LineLength(keys: seq<byte>): (n: nat)
    ensures n <= |keys| && (n < |keys| ==> EndsLine(keys[n]))
    ensures forall i :: 0 <= i < n ==> !EndsLine(keys[i])
  {
    if keys == [] || EndsLine(keys[0]) then 0 else 1 + LineLength(keys[1..])
  }

  predicate HasLine(keys: seq<byte>) {
    LineLength(keys) < |keys|
  }

  /** The line readStdinLine leaves in the buffer. */
  function Line(keys: seq<byte>): (l: seq<byte>)
    ensures |l| >= 1
  {
    Edited(keys[..LineLength(keys)]) + [NEWLINE]
  }

  function AfterLine(keys: seq<byte>): seq<byte>
    requires HasLine(keys)
  {
    keys[LineLength(keys) + 1..]
  }

  /** All complete lines, edited, each with its newline. */
  function Lines(keys: seq<byte>): seq<byte>
    decreases |keys|
  {
    if HasLine(keys) then Line(keys) + Lines(AfterLine(keys)) else []
  }

  lemma {:induction false} LineLengthIs(keys: seq<byte>, n: nat)
    requires n < |keys| && EndsLine(keys[n]) && forall i :: 0 <= i < n ==> !EndsLine(keys[i])
    ensures LineLength(keys) == n
    decreases n
  {
    if n > 0 {
      LineLengthIs(keys[1..], n - 1);
    }
  }

  /** A line of keys is worth its edited text and a newline, and every key behind it still counts. */
  lemma LinesSplit(a: seq<byte>, end: byte, b: seq<byte>)
    requires forall i :: 0 <= i < |a| ==> a[i] != '\n' as int && a[i] != '\r' as int
    requires end == '\n' as int || end == '\r' as int
    ensures Lines(a + [end] + b) == Edited(a) + [NEWLINE] + Lines(b)
  {
    var keys := a + [end] + b;
    LineLengthIs(keys, |a|);
    assert keys[..|a|] == a && keys[|a| + 1..] == b;
  }

  /** Keys that end no line are worth nothing yet. */
  lemma LinesOfPart(a: seq<byte>)
    requires forall i :: 0 <= i < |a| ==> a[i] != '\n' as int && a[i] != '\r' as int
    ensures Lines(a) == []
  {}

  /**
   The keys of the next line do not outgrow the line buffer: not while they are edited, and, when the
   line is complete, not with its newline and its NUL.
   */
  ghost predicate LineFits(keys: seq<byte>) {
    var n := LineLength(keys);
    Within(keys[..n], 256) && (HasLine(keys) ==> |Edited(keys[..n])| <= 254)
  }

  /** Every store readStdinLine makes for that line is inside its 256 bytes. */
  ghost predicate StoresFit(keys: seq<byte>) {
    var n := LineLength(keys);
    && (forall k :: 0 <= k < n && keys[k] != BACKSPACE ==> |Edited(keys[..k])| < 256)
    && (HasLine(keys) ==> |Edited(keys[..n])| + 1 < 256)
  }

  lemma EditedNext(keys: seq<byte>, k: nat)
    requires k < |keys|
    ensures |Edited(keys[..k + 1])| == |Edited(keys[..k])| + 1 || keys[k] == BACKSPACE
    ensures keys[k] == BACKSPACE ==> |Edited(keys[..k + 1])| <= |Edited(keys[..k])|
  {
    assert keys[..k + 1][..k] == keys[..k];
  }

  lemma {:induction false} StoresBound(keys: seq<byte>, k: nat)
    requires k <= |keys|
    requires forall j :: 0 <= j < k && keys[j] != BACKSPACE ==> |Edited(keys[..j])| < 256
    ensures |Edited(keys[..k])| <= 256
  {
    if k > 0 {
      var j := k - 1;
      StoresBound(keys, j);
      EditedNext(keys, j);
      assert keys[j] != BACKSPACE ==> |Edited(keys[..j])| < 256;
    }
  }

  /** readStdinLine checks no bound: its stores stay inside the buffer if and only if the line fits. */
  lemma StoresFitIff(keys: seq<byte>)
    ensures StoresFit(keys) <==> LineFits(keys)
  {
    var n := LineLength(keys);
    forall k | 0 <= k <= n ensures keys[..n][..k] == keys[..k] {}
    if StoresFit(keys) {
      forall k | 0 <= k <= n ensures |Edited(keys[..n][..k])| <= 256 {
        StoresBound(keys, k);
      }
    }
    if LineFits(keys) {
      forall k | 0 <= k < n && keys[k] != BACKSPACE ensures |Edited(keys[..k])| < 256 {
        EditedNext(keys, k);
        assert |Edited(keys[..n][..k + 1])| <= 256;
      }
    }
  }

  lemma {:induction false} PlainIsEdited(keys: seq<byte>)
    requires BACKSPACE !in keys
    ensures Edited(keys) == keys
  {
    if keys != [] {
      var init := keys[..|keys| - 1];
      assert keys[|keys| - 1] in keys && forall c :: c in init ==> c in keys;
      PlainIsEdited(init);
    }
  }

  /** A line that does not fit: 255 letters and a newline. Its NUL goes behind the buffer. */
  lemma LongLineOverruns(letters: seq<byte>)
    requires |letters| == 255 && forall c :: c in letters ==> c == 97
    ensures LineLength(letters + [NEWLINE]) == 255 && !StoresFit(letters + [NEWLINE])
  {
    var keys := letters + [NEWLINE];
    assert forall k :: 0 <= k < 255 ==> keys[k] == letters[k] && letters[k] in letters;
    PlainIsEdited(letters);
    LineLengthIs(keys, 255);
    assert keys[..255] == letters;
  }

  /** Every line of the keys fits, the one still being typed included. */
  ghost predicate AllLinesFit(keys: seq<byte>)
    decreases |keys|
  {
    LineFits(keys) && (HasLine(keys) ==> AllLinesFit(AfterLine(keys)))
  }

  /** A line that fits the buffer is on the screen as it is in the buffer, when its newline comes. */
  lemma LineIsOnScreen(log: Log, keys: seq<byte>, color: byte)
    requires log.Good() && HasLine(keys) && LineFits(keys)
    ensures var l := Echoed(log, keys[..LineLength(keys)], color); var text := Line(keys)[..|Line(keys)| - 1];
            Holds(l.cells, log.pos, text, color) && l.pos == log.pos + |text|
  {
    EchoAgrees(log, keys[..LineLength(keys)], color);
    assert Line(keys)[..|Line(keys)| - 1] == Edited(keys[..LineLength(keys)]);
  }

  /** unread is what is left of the current line; pending is what the keyboard will deliver. */
  datatype State = State(unread: seq<byte>, pending: seq<byte>)

  /** kread_impl(0, buf, count) returns unless it would wait for the keyboard for ever. */
  predicate CanRead(st: State) {
    st.unread != [] || HasLine(st.pending)
  }

  function Refill(st: State): (s: State)
    requires CanRead(st)
    ensures s.unread != []
  {
    if st.unread != [] then st else State(Line(st.pending), AfterLine(st.pending))
  }

  function KRead(st: State, count: nat): (State, seq<byte>)
    requires CanRead(st)
  {
    var s := Refill(st);
    var k := Min(count, |s.unread|);
    (s.(unread := s.unread[k..]), s.unread[..k])
  }

  /** Bytes are conserved: what is read and what is still to be read is always the same text. */
  lemma KReadConserves(st: State, count: nat)
    requires CanRead(st)
    ensures var (s, out) := KRead(st, count);
            out + (s.unread + Lines(s.pending)) == st.unread + Lines(st.pending)
  {
    var r := Refill(st);
    var k := Min(count, |r.unread|);
    var (a, b, c) := (r.unread[..k], r.unread[k..], Lines(r.pending));
    assert r.unread == a + b;
    assert a + (b + c) == (a + b) + c;
    assert [] + Lines(st.pending) == Lines(st.pending);
  }

  /** A line: its only newline is its last byte. */
  ghost predicate IsLine(l: seq<byte>) {
    |l| >= 1 && l[|l| - 1] == NEWLINE && forall i :: 0 <= i < |l| - 1 ==> l[i] != NEWLINE
  }

  lemma {:induction false} EditedHasNoLineEnd(keys: seq<byte>)
    requires NoLineEnd(keys)
    ensures NoLineEnd(Edited(keys))
  {
    if keys != [] {
      EditedHasNoLineEnd(keys[..|keys| - 1]);
    }
  }

  ghost predicate Inv(st: State) {
    st.unread == [] || IsLine(st.unread)
  }

  /** No read crosses a line: a newline can only be the last byte a read returns. */
  lemma KReadStaysInLine(st: State, count: nat)
    requires Inv(st) && CanRead(st)
    ensures var (s, out) := KRead(st, count);
            && Inv(s) && |out| == Min(count, |Refill(st).unread|)
            && (count > 0 ==> out != [])
            && forall i :: 0 <= i < |out| - 1 ==> out[i] != NEWLINE
  {
    EditedHasNoLineEnd(st.pending[..LineLength(st.pending)]);
    assert IsLine(Refill(st).unread);
  }

  /** Any sequence of reads; it stops where a read would wait for ever. */
  function ReadAll(st: State, counts: seq<nat>): (State, seq<byte>)
    decreases |counts|
  {
    if counts == [] || !CanRead(st) then (st, [])
    else
      var (s, out) := KRead(st, counts[0]);
      var (end, rest) := ReadAll(s, counts[1..]);
      (end, out + rest)
  }

  // ---- reads that stay inside the line buffer ----

  /** A read that has to edit a line first finds one that fits. */
  ghost predicate ReadFits(st: State) {
    st.unread == [] ==> LineFits(st.pending)
  }

  /** So does every read of a sequence. */
  ghost predicate ReadsFit(st: State, counts: seq<nat>)
    decreases |counts|
  {
    counts == [] || (ReadFits(st) && (CanRead(st) ==> ReadsFit(KRead(st, counts[0]).0, counts[1..])))
  }

  lemma KReadKeepsFit(st: State, count: nat)
    requires AllLinesFit(st.pending) && CanRead(st)
    ensures ReadFits(st) && AllLinesFit(KRead(st, count).0.pending)
  {}

  lemma {:induction false} FittingLinesAreSafe(st: State, counts: seq<nat>)
    requires AllLinesFit(st.pending)
    ensures ReadsFit(st, counts)
    decreases |counts|
  {
    if counts != [] && CanRead(st) {
      KReadKeepsFit(st, counts[0]);
      FittingLinesAreSafe(KRead(st, counts[0]).0, counts[1..]);
    }
  }

  lemma {:induction false} ChunksJoin(st: State, counts: seq<nat>)
    ensures var (end, out) := ReadAll(st, counts);
            out + (end.unread + Lines(end.pending)) == st.unread + Lines(st.pending)
    decreases |counts|
  {
    if counts == [] || !CanRead(st) {
      NothingJoins(st.unread + Lines(st.pending));
    } else {
      var (s, out) := KRead(st, counts[0]);
      KReadConserves(st, counts[0]);
      ChunksJoin(s, counts[1..]);
      var (end, rest) := ReadAll(s, counts[1..]);
      Associate(out, rest, end.unread + Lines(end.pending));
    }
  }

  lemma NothingJoins(a: seq<byte>)
    ensures [] + a == a
  {}

  /**
   Standard input is chunk-independent: any reads return a prefix of the edited lines. When every
   line fits, none of them overruns the line buffer.
   */
  lemma ChunksDoNotMatter(st: State, counts: seq<nat>)
    ensures var (end, out) := ReadAll(st, counts);
            && out + (end.unread + Lines(end.pending)) == st.unread + Lines(st.pending)
            && out <= st.unread + Lines(st.pending)
    ensures AllLinesFit(st.pending) ==> ReadsFit(st, counts)
  {
    ChunksJoin(st, counts);
    if AllLinesFit(st.pending) {
      FittingLinesAreSafe(st, counts);
    }
  }

  /** Reading line after line, one comes that does not fit. */
  lemma {:induction false} LongLineIsReached(keys: seq<byte>) returns (counts: seq<nat>)
    requires !AllLinesFit(keys)
    ensures !ReadsFit(State([], keys), counts)
    decreases |keys|
  {
    if !LineFits(keys) {
      counts := [0];
    } else {
      var rest := LongLineIsReached(AfterLine(keys));
      counts := [|Line(keys)|] + rest;
      var st := State([], keys);
      assert counts[1..] == rest;
      assert KRead(st, counts[0]).0 == State([], AfterLine(keys)) by {
        assert Line(keys)[|Line(keys)|..] == [];
      }
    }
  }

  /** No read of any sequence overruns the line buffer if and only if every line typed fits. */
  lemma ReadsFitIff(keys: seq<byte>)
    ensures (forall counts :: ReadsFit(State([], keys), counts)) <==> AllLinesFit(keys)
  {
    if AllLinesFit(keys) {
      forall counts ensures ReadsFit(State([], keys), counts) {
        FittingLinesAreSafe(State([], keys), counts);
      }
    } else {
      var counts := LongLineIsReached(keys);
    }
  }

  // ---- the code ----

  /** Key i of a line of n keys. */
  lemma NextKey(all: seq<byte>, n: nat, i: nat)
    requires n < |all| && i <= n == LineLength(all) && !EndsLine(all[i])
    ensures i < n && all[..i + 1] == all[..i] + [all[i]] && all[..n][..i + 1] == all[..i + 1]
    ensures all[..i + 1][..i] == all[..i] && all[i..][1..] == all[i + 1..]
  {}

  class Input {
    const screen: Screen
    const stdinBuf: array<byte>
    var stdinBufLen: nat
    var stdinBufPos: nat
    var stdinLineReady: bool
    var pending: seq<byte>

    /** A ready line always has unread bytes, and ends in the buffer before its NUL. */
    ghost predicate Valid()
      reads this, stdinBuf, screen, screen.vga
    {
      && screen.Valid() && stdinBuf.Length == 256 && stdinBuf != screen.vga
      && (stdinLineReady ==> stdinBufPos < stdinBufLen <= 255)
    }

    ghost function Abstract(): State
      requires stdinBuf.Length == 256 && (stdinLineReady ==> stdinBufPos < stdinBufLen <= 255)
      reads this, stdinBuf
    {
      State(if stdinLineReady then stdinBuf[stdinBufPos..stdinBufLen] else [], pending)
    }

    constructor (screen: Screen, keys: seq<byte>)
      requires screen.Valid()
      ensures Valid() && this.screen == screen && fresh(stdinBuf)
      ensures Abstract() == State([], keys)
    {
      this.screen := screen;
      stdinBuf := new byte[256](_ => NUL);
      stdinBufLen, stdinBufPos := 0, 0;
      stdinLineReady := false;
      pending := keys;
    }

    /** One keystroke of the loop of readStdinLine, not a line end: the buffer and the echo. */
    method EditKey(c: byte, pos: nat, ghost keys: seq<byte>) returns (next: nat)
      requires screen.Valid() && stdinBuf.Length == 256 && stdinBuf != screen.vga && !EndsLine(c)
      requires pos == |Edited(keys)| <= 256 && stdinBuf[..pos] == Edited(keys) && |Edited(keys + [c])| <= 256
      modifies stdinBuf, screen, screen.vga
      ensures screen.Valid() && screen.color == old(screen.color)
      ensures next == |Edited(keys + [c])| && stdinBuf[..next] == Edited(keys + [c])
      ensures screen.log == Echo(old(screen.log), Edited(keys), c, screen.color)
    {
      assert (keys + [c])[..|keys|] == keys;
      next := pos;
      if c == BACKSPACE {
        if pos > 0 {
          next := pos - 1;
          screen.WriteChar(BACKSPACE);
        }
      } else {
        stdinBuf[pos] := c;
        next := pos + 1;
        screen.WriteChar(c);
      }
    }

    /** The loop of readStdinLine: n keystrokes, up to the one that ends the line. */
    method EditKeys(ghost n: nat) returns (pos: nat)
      requires Valid() && HasLine(pending) && LineFits(pending) && n == LineLength(pending)
      modifies `pending, stdinBuf, screen, screen.vga
      ensures screen.Valid() && screen.color == old(screen.color) && pending == old(pending)[n..]
      ensures pos == |Edited(old(pending)[..n])| && stdinBuf[..pos] == Edited(old(pending)[..n])
      ensures screen.log == Echoed(old(screen.log), old(pending)[..n], screen.color)
    {
      ghost var all := pending;
      ghost var i := 0;
      pos := 0;
      while !EndsLine(pending[0])
        invariant screen.Valid() && screen.color == old(screen.color)
        invariant 0 <= i <= n && pending == all[i..]
        invariant pos == |Edited(all[..i])| <= 256 && stdinBuf[..pos] == Edited(all[..i])
        invariant screen.log == Echoed(old(screen.log), all[..i], screen.color)
        decreases n - i
      {
        var c := pending[0];
        pending := pending[1..];
        NextKey(all, n, i);
        pos := EditKey(c, pos, all[..i]);
        i := i + 1;
      }
      assert i == n;
    }

    method ReadStdinLine()
      requires Valid() && HasLine(pending) && LineFits(pending)
      modifies this, stdinBuf, screen, screen.vga
      ensures Valid() && stdinLineReady && screen.color == old(screen.color)
      ensures Abstract() == State(Line(old(pending)), AfterLine(old(pending)))
      ensures pending == old(pending)[LineLength(old(pending)) + 1..]
      ensures stdinBuf[stdinBufLen] == NUL
      ensures var keys := old(pending)[..LineLength(old(pending))];
              screen.log == Put(Echoed(old(screen.log), keys, screen.color), NEWLINE, screen.color)
    {
      ghost var n, all := LineLength(pending), pending;
      var pos := EditKeys(n);
      assert all[..n][..n] == all[..n];
      pending := pending[1..];
      stdinBuf[pos] := NEWLINE;
      pos := pos + 1;
      screen.WriteChar(NEWLINE);
      stdinLineReady := true;
      stdinBufLen := pos;
      stdinBuf[pos] := NUL;
      stdinBufPos := 0;
    }

    /** The memcpy of kread_impl. */
    method CopyOut(buf: array<byte>, n: nat)
      requires stdinBufPos + n <= stdinBuf.Length && n <= buf.Length && buf != stdinBuf
      modifies buf
      ensures buf[..n] == stdinBuf[stdinBufPos..stdinBufPos + n] && buf[n..] == old(buf[n..])
    {
      forall i | 0 <= i < n {
        buf[i] := stdinBuf[stdinBufPos + i];
      }
    }

    /** The rest of kread_impl, on a ready line. */
    method TakeBytes(buf: array<byte>, count: nat) returns (n: nat)
      requires Valid() && stdinLineReady && buf != stdinBuf && buf != screen.vga && count <= buf.Length
      modifies this, buf
      ensures Valid() && n == Min(count, |old(Abstract()).unread|)
      ensures buf[..n] == old(Abstract()).unread[..n] && buf[n..] == old(buf[n..])
      ensures Abstract() == old(Abstract()).(unread := old(Abstract()).unread[n..])
    {
      ghost var unread := Abstract().unread;
      n := count;
      var actualCount := stdinBufLen - stdinBufPos;
      if n > actualCount {
        n := actualCount;
      }
      CopyOut(buf, n);
      assert buf[..n] == unread[..n];
      stdinBufPos := stdinBufPos + n;
      if stdinBufPos >= stdinBufLen {
        stdinLineReady := false;
      }
      assert Abstract().unread == unread[n..];
    }

    /** kread_impl for file descriptor 0. */
    method KReadStdin(buf: array<byte>, count: nat) returns (n: nat)
      requires Valid() && CanRead(Abstract()) && (!stdinLineReady ==> LineFits(pending))
      requires buf != stdinBuf && buf != screen.vga && count <= buf.Length
      modifies this, stdinBuf, screen, screen.vga, buf
      ensures Valid() && n <= count
      ensures (Abstract(), buf[..n]) == KRead(old(Abstract()), count)
      ensures buf[n..] == old(buf[n..])
    {
      if !stdinLineReady {
        ReadStdinLine();
      }
      n := TakeBytes(buf, count);
    }
  }
}
