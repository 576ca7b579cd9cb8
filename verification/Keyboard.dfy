/**
 The keyboard queue of src/io.c: a ring buffer between an interrupt handler and its one reader.
 The handler runs whole between any two steps of the reader.
 */
module Keyboard {
  import opened Bytes

  const SIZE: nat := 256

  // The rows of the keyboard, plain and shifted.
  const DIGITS: seq<byte> := [0, 27, 49, 50, 51, 52, 53, 54, 55, 56, 57, 48, 45, 61, 8]
  const TOP: seq<byte> := [9, 113, 119, 101, 114, 116, 121, 117, 105, 111, 112, 91, 93, 10]
  const HOME: seq<byte> := [0, 97, 115, 100, 102, 103, 104, 106, 107, 108, 59, 39, 96, 0]
  const BOTTOM: seq<byte> := [92, 122, 120, 99, 118, 98, 110, 109, 44, 46, 47, 0, 42, 0, 32]
  const SHIFTED_DIGITS: seq<byte> := [0, 27, 33, 64, 35, 36, 37, 94, 38, 42, 40, 41, 95, 43, 8]
  const SHIFTED_TOP: seq<byte> := [9, 81, 87, 69, 82, 84, 89, 85, 73, 79, 80, 123, 125, 10]
  const SHIFTED_HOME: seq<byte> := [0, 65, 83, 68, 70, 71, 72, 74, 75, 76, 58, 34, 126, 0]
  const SHIFTED_BOTTOM: seq<byte> := [124, 90, 88, 67, 86, 66, 78, 77, 60, 62, 63, 0, 42, 0, 32]

  const KEYMAP: seq<byte> := DIGITS + TOP + HOME + BOTTOM
  const KEYMAP_SHIFTED: seq<byte> := SHIFTED_DIGITS + SHIFTED_TOP + SHIFTED_HOME + SHIFTED_BOTTOM

  /** The tables have 128 entries; those not listed are 0. */
  function Lookup(table: seq<byte>, scancode: byte): byte {
    if scancode < |table| then table[scancode] else NUL
  }

  datatype Mods = Mods(shift: bool, caps: bool, ctrl: bool, eof: bool, arrow: byte)

  /** What a scancode does besides the modifiers. */
  datatype Effect = Nothing | ClearScreen | Store(c: byte)

  function Release(m: Mods, released: byte): Mods {
    var m1 := if released == 0x2A || released == 0x36 then m.(shift := false) else m;
    var m2 := if released == 0x1D then m1.(ctrl := false) else m1;
    if released == 0x48 || released == 0x50 || released == 0x4B || released == 0x4D then m2.(arrow := NUL) else m2
  }

  function ControlCode(base: byte): byte {
    if 97 <= base <= 122 then base - 96
    else if 65 <= base <= 90 then base - 64
    else base
  }

  /** c > 0 for a signed char. */
  predicate IsPositive(c: byte) {
    0 < c < 128
  }

  /** keyboardHandler up to the queue. */
  function Decode(m: Mods, scancode: byte): (r: (Mods, Effect))
    ensures r.1.Store? ==> IsPositive(r.1.c)
  {
    if scancode >= 0x80 then (Release(m, scancode - 0x80), Nothing)
    else if scancode == 0x2A || scancode == 0x36 then (m.(shift := true), Nothing)
    else if scancode == 0x3A then (m.(caps := !m.caps), Nothing)
    else if scancode == 0x1D then (m.(ctrl := true), Nothing)
    else if scancode == 0x48 then (m.(arrow := 117), Nothing)
    else if scancode == 0x50 then (m.(arrow := 100), Nothing)
    else if scancode == 0x4B then (m.(arrow := 108), Nothing)
    else if scancode == 0x4D then (m.(arrow := 114), Nothing)
    else if m.ctrl then
      var c := ControlCode(Lookup(KEYMAP, scancode));
      if c == 12 then (m, ClearScreen)
      else if c == 4 then (m.(eof := true), Nothing)
      else (m, Nothing)
    else
      var c := Lookup(if m.shift != m.caps then KEYMAP_SHIFTED else KEYMAP, scancode);
      (m, if IsPositive(c) then Store(c) else Nothing)
  }

  predicate IsLetter(c: byte) {
    97 <= c <= 122
  }

  /** For every letter key, Shift and Caps Lock together cancel, and either alone gives upper case. */
  lemma LettersFollowShift(m: Mods, scancode: byte)
    requires scancode < 0x80 && IsLetter(Lookup(KEYMAP, scancode)) && !m.ctrl
    ensures var c := Lookup(KEYMAP, scancode);
            Decode(m, scancode) == (m, Store(if m.shift != m.caps then c - 32 else c))
  {
    AllKeysOk(scancode);
  }

  /** What the tables must say about key k, plain and shifted. */
  predicate KeyOk(k: nat, plain: byte, shifted: byte) {
    && (IsLetter(plain) ==>
          shifted as int == plain as int - 32 && k !in {0x1D, 0x2A, 0x36, 0x3A, 0x48, 0x4B, 0x4D, 0x50})
    && (ControlCode(plain) == 12 <==> k == 0x26)
    && (ControlCode(plain) == 4 <==> k == 0x20)
  }

  /** A row of the tables whose first key is k. */
  ghost predicate RowOk(k: nat, plain: seq<byte>, shifted: seq<byte>) {
    |plain| == |shifted| && forall j :: 0 <= j < |plain| ==> KeyOk(k + j, plain[j], shifted[j])
  }

  lemma DigitsOk()
    ensures RowOk(0, DIGITS, SHIFTED_DIGITS)
  {}

  lemma TopOk()
    ensures RowOk(15, TOP, SHIFTED_TOP)
  {}

  lemma HomeOk()
    ensures RowOk(29, HOME, SHIFTED_HOME)
  {}

  lemma BottomOk()
    ensures RowOk(43, BOTTOM, SHIFTED_BOTTOM)
  {}

  /** Rows that are in order one by one are in order one behind the other. */
  lemma JoinRows(k: nat, a: seq<byte>, b: seq<byte>, m: nat, c: seq<byte>, d: seq<byte>)
    requires RowOk(k, a, b) && RowOk(m, c, d) && m == k + |a|
    ensures RowOk(k, a + c, b + d)
  {
    forall j | 0 <= j < |a + c| ensures KeyOk(k + j, (a + c)[j], (b + d)[j]) {
      if j >= |a| {
        assert KeyOk(m + (j - |a|), c[j - |a|], d[j - |a|]);
      }
    }
  }

  lemma TableOk()
    ensures |KEYMAP| == 58 && RowOk(0, KEYMAP, KEYMAP_SHIFTED)
  {
    DigitsOk();
    TopOk();
    HomeOk();
    BottomOk();
    JoinRows(0, DIGITS, SHIFTED_DIGITS, 15, TOP, SHIFTED_TOP);
    JoinRows(0, DIGITS + TOP, SHIFTED_DIGITS + SHIFTED_TOP, 29, HOME, SHIFTED_HOME);
    JoinRows(0, DIGITS + TOP + HOME, SHIFTED_DIGITS + SHIFTED_TOP + SHIFTED_HOME, 43, BOTTOM, SHIFTED_BOTTOM);
  }

  /** Upper case differs from lower case by 32 at every letter of the tables. */
  lemma AllKeysOk(k: byte)
    requires k < 0x80
    ensures KeyOk(k, Lookup(KEYMAP, k), Lookup(KEYMAP_SHIFTED, k))
  {
    TableOk();
    if k < 58 {
      assert KeyOk(0 + k, KEYMAP[k], KEYMAP_SHIFTED[k]);
    }
  }

  /** Ctrl with any key stores nothing: Ctrl+L clears the screen, Ctrl+D marks the end of input. */
  lemma ControlStoresNothing(m: Mods, scancode: byte)
    requires scancode < 0x80 && m.ctrl
    ensures !Decode(m, scancode).1.Store?
    ensures Decode(m, scancode).1.ClearScreen? <==> scancode == 0x26
    ensures Decode(m, scancode).0.eof <==> m.eof || scancode == 0x20
  {
    AllKeysOk(scancode);
  }

  /** With these modifiers the keys from scancode first on, one by one, give this text. */
  ghost predicate Types(m: Mods, first: nat, text: string) {
    first + |text| <= 0x80 && forall i :: 0 <= i < |text| ==>
      text[i] as int < 128 && Decode(m, first + i) == (m, Store(text[i] as int))
  }

  /** The modifiers and the arrows. */
  predicate IsHeld(k: int) {
    k in {0x1D, 0x2A, 0x36, 0x3A, 0x48, 0x4B, 0x4D, 0x50}
  }

  lemma KeyIs(m: Mods, k: byte)
    requires k < 0x80 && !m.ctrl && !IsHeld(k)
    ensures var c := if m.shift != m.caps then Lookup(KEYMAP_SHIFTED, k) else Lookup(KEYMAP, k);
            Decode(m, k) == (m, if IsPositive(c) then Store(c) else Nothing)
  {}

  /** Part of a row of the tables, from its entry j on, is this text. */
  ghost predicate Reads(row: seq<byte>, j: nat, text: string) {
    j + |text| <= |row| && forall i :: 0 <= i < |text| ==> row[j + i] == text[i] as int && 0 < row[j + i] < 128
  }

  lemma PlainRows()
    ensures Reads(DIGITS, 2, "1234567890-=") && Reads(TOP, 1, "qwertyuiop[]\n")
    ensures Reads(HOME, 1, "asdfghjkl;'`") && Reads(BOTTOM, 0, "\\zxcvbnm,./")
  {}

  lemma ShiftedRows()
    ensures Reads(SHIFTED_DIGITS, 2, "!@#$%^&*()_+") && Reads(SHIFTED_TOP, 1, "QWERTYUIOP{}\n")
    ensures Reads(SHIFTED_HOME, 1, "ASDFGHJKL:\"~") && Reads(SHIFTED_BOTTOM, 0, "|ZXCVBNM<>?")
  {}

  /** A text that stands in a row of the table in use is typed by the keys of that row. */
  lemma RowTypes(m: Mods, first: nat, off: nat, row: seq<byte>, j: nat, text: string)
    requires !m.ctrl && Reads(row, j, text) && first == off + j && off + |row| <= 58
    requires forall k :: first <= k < first + |text| ==> !IsHeld(k)
    requires var table := if m.shift != m.caps then KEYMAP_SHIFTED else KEYMAP;
             forall i :: 0 <= i < |row| ==> off + i < 58 && Lookup(table, off + i) == row[i]
    ensures Types(m, first, text)
  {
    forall i | 0 <= i < |text| ensures Decode(m, first + i) == (m, Store(text[i] as int)) {
      KeyIs(m, first + i);
      assert Lookup(if m.shift != m.caps then KEYMAP_SHIFTED else KEYMAP, off + (j + i)) == row[j + i];
    }
  }

  /** The US layout: what each row of keys types, and what it types with Shift or Caps Lock. */
  lemma UsLayout(m: Mods)
    requires !m.ctrl && m.shift == m.caps
    ensures Types(m, 0x02, "1234567890-=") && Types(m, 0x10, "qwertyuiop[]\n")
    ensures Types(m, 0x1E, "asdfghjkl;'`") && Types(m, 0x2B, "\\zxcvbnm,./")
  {
    PlainRows();
    forall k: byte | k < 58 ensures Lookup(KEYMAP, k) ==
      if k < 15 then DIGITS[k] else if k < 29 then TOP[k - 15] else if k < 43 then HOME[k - 29] else BOTTOM[k - 43]
    {
      InRow(DIGITS, TOP, HOME, BOTTOM, k);
    }
    RowTypes(m, 0x02, 0, DIGITS, 2, "1234567890-=");
    RowTypes(m, 0x10, 15, TOP, 1, "qwertyuiop[]\n");
    RowTypes(m, 0x1E, 29, HOME, 1, "asdfghjkl;'`");
    RowTypes(m, 0x2B, 43, BOTTOM, 0, "\\zxcvbnm,./");
  }

  lemma UsLayoutShifted(m: Mods)
    requires !m.ctrl && m.shift != m.caps
    ensures Types(m, 0x02, "!@#$%^&*()_+") && Types(m, 0x10, "QWERTYUIOP{}\n")
    ensures Types(m, 0x1E, "ASDFGHJKL:\"~") && Types(m, 0x2B, "|ZXCVBNM<>?")
  {
    ShiftedRows();
    forall k: byte | k < 58 ensures Lookup(KEYMAP_SHIFTED, k) ==
      if k < 15 then SHIFTED_DIGITS[k] else if k < 29 then SHIFTED_TOP[k - 15]
      else if k < 43 then SHIFTED_HOME[k - 29] else SHIFTED_BOTTOM[k - 43]
    {
      InRow(SHIFTED_DIGITS, SHIFTED_TOP, SHIFTED_HOME, SHIFTED_BOTTOM, k);
    }
    RowTypes(m, 0x02, 0, SHIFTED_DIGITS, 2, "!@#$%^&*()_+");
    RowTypes(m, 0x10, 15, SHIFTED_TOP, 1, "QWERTYUIOP{}\n");
    RowTypes(m, 0x1E, 29, SHIFTED_HOME, 1, "ASDFGHJKL:\"~");
    RowTypes(m, 0x2B, 43, SHIFTED_BOTTOM, 0, "|ZXCVBNM<>?");
  }

  lemma InRow(a: seq<byte>, b: seq<byte>, c: seq<byte>, d: seq<byte>, k: byte)
    requires |a| == 15 && |b| == 14 && |c| == 14 && |d| == 15
    ensures Lookup(a + b + c + d, k) ==
            if k < 15 then a[k] else if k < 29 then b[k - 15] else if k < 43 then c[k - 29]
            else if k < 58 then d[k - 43] else NUL
  {}

  /** Space, Tab and Backspace are the same with every modifier but Ctrl; Escape gives 27; no key is behind 0x39. */
  lemma OtherKeys(m: Mods)
    requires !m.ctrl
    ensures Decode(m, 0x39) == (m, Store(' ' as int)) && Decode(m, 0x0F) == (m, Store('\t' as int))
    ensures Decode(m, 0x0E) == (m, Store(BACKSPACE)) && Decode(m, 0x01) == (m, Store(27))
    ensures Decode(m, 0x00) == (m, Nothing) && Decode(m, 0x38) == (m, Nothing)
    ensures forall k: byte :: 0x3A < k < 0x80 ==> Decode(m, k).1 == Nothing
  {
    InRow(DIGITS, TOP, HOME, BOTTOM, 0x39);
    InRow(DIGITS, TOP, HOME, BOTTOM, 0x38);
    InRow(DIGITS, TOP, HOME, BOTTOM, 0x0F);
    InRow(DIGITS, TOP, HOME, BOTTOM, 0x0E);
    InRow(DIGITS, TOP, HOME, BOTTOM, 0x01);
    InRow(DIGITS, TOP, HOME, BOTTOM, 0x00);
    InRow(SHIFTED_DIGITS, SHIFTED_TOP, SHIFTED_HOME, SHIFTED_BOTTOM, 0x39);
    InRow(SHIFTED_DIGITS, SHIFTED_TOP, SHIFTED_HOME, SHIFTED_BOTTOM, 0x38);
    InRow(SHIFTED_DIGITS, SHIFTED_TOP, SHIFTED_HOME, SHIFTED_BOTTOM, 0x0F);
    InRow(SHIFTED_DIGITS, SHIFTED_TOP, SHIFTED_HOME, SHIFTED_BOTTOM, 0x0E);
    InRow(SHIFTED_DIGITS, SHIFTED_TOP, SHIFTED_HOME, SHIFTED_BOTTOM, 0x01);
    InRow(SHIFTED_DIGITS, SHIFTED_TOP, SHIFTED_HOME, SHIFTED_BOTTOM, 0x00);
  }

  /** What a modifier or an arrow does while it is down, and Caps Lock each time it is pressed. */
  lemma KeysHeld(m: Mods)
    ensures Decode(m, 0x2A) == (m.(shift := true), Nothing) && Decode(m, 0x36) == (m.(shift := true), Nothing)
    ensures Decode(m, 0x1D) == (m.(ctrl := true), Nothing) && Decode(m, 0x3A) == (m.(caps := !m.caps), Nothing)
    ensures Decode(m, 0x48) == (m.(arrow := 'u' as int), Nothing)
    ensures Decode(m, 0x50) == (m.(arrow := 'd' as int), Nothing)
    ensures Decode(m, 0x4B) == (m.(arrow := 'l' as int), Nothing)
    ensures Decode(m, 0x4D) == (m.(arrow := 'r' as int), Nothing)
  {}

  /** Letting go of any other key does nothing. */
  lemma OtherReleases(m: Mods, key: byte)
    requires key < 0x80 && key !in {0x1D, 0x2A, 0x36, 0x48, 0x4B, 0x4D, 0x50}
    ensures Decode(m, key + 0x80) == (m, Nothing)
  {}

  /** Pressing and releasing a modifier leaves it released, and everything else as it was. */
  lemma PressAndRelease(m: Mods, key: byte)
    requires key in {0x1D, 0x2A, 0x36, 0x48, 0x4B, 0x4D, 0x50}
    ensures var down := Decode(m, key); var up := Decode(down.0, key + 0x80);
            && down.1 == Nothing && up.1 == Nothing
            && up.0 == (if key == 0x1D then m.(ctrl := false)
                        else if key == 0x2A || key == 0x36 then m.(shift := false)
                        else m.(arrow := NUL))
  {}

  /** The shared variables. */
  datatype Ring = Ring(buf: seq<byte>, head: nat, tail: nat)

  function Push(r: Ring, c: byte): Ring
    requires |r.buf| == SIZE && r.head < SIZE
  {
    var next := (r.head + 1) % 256;
    if next != r.tail then Ring(r.buf[r.head := c], next, r.tail) else r
  }

  predicate Accepts(r: Ring) {
    (r.head + 1) % 256 != r.tail
  }

  predicate Bounded(r: Ring) {
    |r.buf| == SIZE && r.head < SIZE && r.tail < SIZE
  }

  function Count(r: Ring): nat
    requires Bounded(r)
  {
    if r.tail <= r.head then r.head - r.tail else r.head + 256 - r.tail
  }

  /** The unread bytes, oldest first. */
  ghost function Unread(r: Ring): (u: seq<byte>)
    requires Bounded(r)
    ensures |u| == Count(r)
    ensures forall i :: 0 <= i < |u| ==> u[i] == r.buf[(r.tail + i) % 256]
  {
    seq(Count(r), i requires 0 <= i < Count(r) => r.buf[(r.tail + i) % 256])
  }

  lemma PushAppends(r: Ring, c: byte)
    requires Bounded(r)
    ensures Bounded(Push(r, c))
    ensures Unread(Push(r, c)) == if Accepts(r) then Unread(r) + [c] else Unread(r)
    ensures Accepts(r) <==> Count(r) < 255
  {
    var q := Push(r, c);
    if Accepts(r) {
      assert Count(q) == Count(r) + 1;
      forall i | 0 <= i < Count(r) ensures Unread(q)[i] == Unread(r)[i] {
        assert (r.tail + i) % 256 != r.head;
      }
      assert (r.tail + Count(r)) % 256 == r.head;
    }
  }

  lemma NextIndex(tail: nat, i: nat)
    ensures ((tail + 1) % 256 + i) % 256 == (tail + (i + 1)) % 256
  {}

  lemma PopDrops(r: Ring)
    requires Bounded(r) && r.head != r.tail
    ensures var q := r.(tail := (r.tail + 1) % 256);
            Bounded(q) && Unread(r) == [r.buf[r.tail]] + Unread(q)
  {
    var q := r.(tail := (r.tail + 1) % 256);
    var u := [r.buf[r.tail]] + Unread(q);
    assert Count(r) == Count(q) + 1;
    forall i | 0 <= i < Count(r) ensures Unread(r)[i] == u[i] {
      if i == 0 {
        assert (r.tail + 0) % 256 == r.tail;
      } else {
        NextIndex(r.tail, i - 1);
      }
    }
  }

  // ---- the interleaving machine ----

  /** Where getInput stands: each step is one access to the shared variables. */
  datatype Reader =
    | Idle
    | LoadedHead(h: nat)
    | NotEmpty
    | LoadedChar(c: byte)

  /**
   The whole system. accepted is every byte the handler stored, returned every non-zero byte
   getInput gave back, emptyAtLoad whether the queue was empty when it last loaded head, and
   falseEmpties how often it gave 0 although the queue was not.
   */
  datatype System = System(ring: Ring, mods: Mods, reader: Reader,
                           accepted: seq<byte>, returned: seq<byte>, emptyAtLoad: bool, falseEmpties: nat)

  datatype Event = Interrupt(scancode: byte) | ReaderStep

  function HandlerStep(s: System, scancode: byte): System
    requires Bounded(s.ring)
  {
    var (m, e) := Decode(s.mods, scancode);
    match e
    case Store(c) =>
      System(Push(s.ring, c), m, s.reader,
             if Accepts(s.ring) then s.accepted + [c] else s.accepted, s.returned, s.emptyAtLoad, s.falseEmpties)
    case _ => s.(mods := m)
  }

  /**
   One step of getInput: load head; compare it with tail, returning 0 when equal; load the slot;
   advance tail and return the byte.
   */
  function GetInputStep(s: System): System
    requires Bounded(s.ring)
  {
    match s.reader
    case Idle => s.(reader := LoadedHead(s.ring.head), emptyAtLoad := s.ring.head == s.ring.tail)
    case LoadedHead(h) =>
      if h == s.ring.tail then
        s.(reader := Idle, falseEmpties := if s.emptyAtLoad then s.falseEmpties else s.falseEmpties + 1)
      else s.(reader := NotEmpty)
    case NotEmpty => s.(reader := LoadedChar(s.ring.buf[s.ring.tail]))
    case LoadedChar(c) =>
      s.(reader := Idle, ring := s.ring.(tail := (s.ring.tail + 1) % 256),
         returned := if c == NUL then s.returned else s.returned + [c],
         falseEmpties := if c == NUL then s.falseEmpties + 1 else s.falseEmpties)
  }

  function Step(s: System, e: Event): (t: System)
    requires Bounded(s.ring)
    ensures Bounded(t.ring)
  {
    match e
    case Interrupt(scancode) => HandlerStep(s, scancode)
    case ReaderStep => GetInputStep(s)
  }

  ghost predicate AllPositive(bs: seq<byte>) {
    forall i :: 0 <= i < |bs| ==> bs[i] > 0
  }

  /** What every interleaving keeps. */
  ghost predicate Inv(s: System) {
    && Bounded(s.ring) && s.falseEmpties == 0
    && s.accepted == s.returned + Unread(s.ring) && AllPositive(s.accepted)
    && match s.reader
       case Idle => true
       case LoadedHead(h) =>
         h < SIZE && (h == s.ring.tail <==> s.emptyAtLoad) && (h != s.ring.tail ==> Count(s.ring) > 0)
       case NotEmpty => Count(s.ring) > 0
       case LoadedChar(c) => Count(s.ring) > 0 && c == Unread(s.ring)[0]
  }

  function Start(buf: seq<byte>): System
  {
    System(Ring(buf, 0, 0), Mods(false, false, false, false, NUL), Idle, [], [], true, 0)
  }

  /** Appending behind the unread bytes keeps their order, and the oldest one. */
  lemma Appended(returned: seq<byte>, u: seq<byte>, c: byte)
    ensures returned + (u + [c]) == returned + u + [c]
    ensures u <= u + [c] && (u != [] ==> (u + [c])[0] == u[0])
  {}

  /** An interrupt keeps the invariant and overwrites no unread slot. */
  lemma HandlerKeeps(s: System, scancode: byte)
    requires Inv(s)
    ensures var t := HandlerStep(s, scancode);
            Inv(t) && t.ring.tail == s.ring.tail && Unread(s.ring) <= Unread(t.ring)
  {
    var (m, e) := Decode(s.mods, scancode);
    if e.Store? {
      PushAppends(s.ring, e.c);
      Appended(s.returned, Unread(s.ring), e.c);
    }
  }

  lemma ReaderKeeps(s: System)
    requires Inv(s)
    ensures Inv(GetInputStep(s))
  {
    match s.reader
    case Idle =>
    case LoadedHead(h) =>
    case NotEmpty =>
      assert (s.ring.tail + 0) % 256 == s.ring.tail;
    case LoadedChar(c) =>
      PopDrops(s.ring);
      var q := s.ring.(tail := (s.ring.tail + 1) % 256);
      assert s.accepted[|s.returned|] == c;
      assert s.returned + ([c] + Unread(q)) == (s.returned + [c]) + Unread(q);
  }

  /** Any interleaving of whole interrupts and reader steps. */
  function Run(s: System, events: seq<Event>): (t: System)
    requires Bounded(s.ring)
    ensures Bounded(t.ring)
    decreases |events|
  {
    if events == [] then s else Run(Step(s, events[0]), events[1..])
  }

  /**
   In every interleaving the bytes returned are, in order, a prefix of the bytes accepted, at most
   255 are pending, and a returned 0 always means the queue was empty when head was loaded.
   */
  lemma {:induction false} EveryInterleaving(s: System, events: seq<Event>)
    requires Inv(s)
    ensures var t := Run(s, events);
            && Inv(t) && t.returned <= t.accepted && t.falseEmpties == 0
            && |t.accepted| - |t.returned| == Count(t.ring) <= 255
    decreases |events|
  {
    if events != [] {
      match events[0] {
        case Interrupt(scancode) => HandlerKeeps(s, scancode);
        case ReaderStep => ReaderKeeps(s);
      }
      EveryInterleaving(Step(s, events[0]), events[1..]);
    }
  }

  /** Left alone, the four steps of getInput give the oldest byte and drop it. */
  lemma FourStepsGetOldest(s: System)
    requires Inv(s) && s.reader == Idle && Unread(s.ring) != []
    ensures var t := Run(s, [ReaderStep, ReaderStep, ReaderStep, ReaderStep]);
            && t.reader == Idle && t.accepted == s.accepted
            && t.returned == s.returned + [Unread(s.ring)[0]] && Unread(t.ring) == Unread(s.ring)[1..]
  {
    OldestIsTaken(s);
    FourSteps(s, ReaderStep);
  }

  lemma FourSteps(s: System, e: Event)
    requires Bounded(s.ring)
    ensures Run(s, [e, e, e, e]) == Step(Step(Step(Step(s, e), e), e), e)
  {
    RunOne(s, e, [e, e, e, e], [e, e, e]);
    RunOne(Step(s, e), e, [e, e, e], [e, e]);
    RunOne(Step(Step(s, e), e), e, [e, e], [e]);
    RunOne(Step(Step(Step(s, e), e), e), e, [e], []);
  }

  lemma RunOne(s: System, e: Event, events: seq<Event>, rest: seq<Event>)
    requires Bounded(s.ring) && events == [e] + rest
    ensures Run(s, events) == Run(Step(s, e), rest)
  {
    assert events[1..] == rest;
  }

  lemma OldestIsTaken(s: System)
    requires Inv(s) && s.reader == Idle && Unread(s.ring) != []
    ensures var t := GetInputStep(GetInputStep(GetInputStep(GetInputStep(s))));
            && t.reader == Idle && t.accepted == s.accepted
            && t.returned == s.returned + [Unread(s.ring)[0]] && Unread(t.ring) == Unread(s.ring)[1..]
  {
    PopDrops(s.ring);
    assert s.accepted[|s.returned|] == Unread(s.ring)[0] == s.ring.buf[s.ring.tail];
  }

  lemma StartIsGood(buf: seq<byte>)
    requires |buf| == SIZE
    ensures Inv(Start(buf))
  {}

  /** So it is in every interleaving from the boot state, whatever is in the buffer. */
  lemma AnyRunFromStart(buf: seq<byte>, events: seq<Event>)
    requires |buf| == SIZE
    ensures var t := Run(Start(buf), events);
            && t.returned <= t.accepted && t.falseEmpties == 0 && AllPositive(t.accepted)
            && |t.accepted| - |t.returned| == Count(t.ring) <= 255
  {
    StartIsGood(buf);
    EveryInterleaving(Start(buf), events);
  }

  // ---- the code, uninterrupted ----

  class Queue {
    const keyBuffer: array<byte>
    var head: nat
    var tail: nat
    var mods: Mods

    ghost predicate Valid()
      reads this, keyBuffer
    {
      keyBuffer.Length == SIZE && head < SIZE && tail < SIZE
    }

    ghost function Abstract(): Ring
      reads this, keyBuffer
    {
      Ring(keyBuffer[..], head, tail)
    }

    constructor ()
      ensures Valid() && fresh(keyBuffer) && Unread(Abstract()) == []
    {
      keyBuffer := new byte[256](_ => NUL);
      head, tail := 0, 0;
      mods := Mods(false, false, false, false, NUL);
    }

    /** True when the handler called clearScreen. */
    method KeyboardHandler(scancode: byte) returns (clear: bool)
      requires Valid()
      modifies this`head, this`mods, keyBuffer
      ensures Valid() && mods == Decode(old(mods), scancode).0
      ensures clear == Decode(old(mods), scancode).1.ClearScreen?
      ensures match Decode(old(mods), scancode).1
              case Store(c) => Abstract() == Push(old(Abstract()), c)
              case _ => Abstract() == old(Abstract())
    {
      clear := false;
      if scancode >= 0x80 {
        var released := scancode - 0x80;
        if released == 0x2A || released == 0x36 {
          mods := mods.(shift := false);
        }
        if released == 0x1D {
          mods := mods.(ctrl := false);
        }
        if released == 0x48 || released == 0x50 || released == 0x4B || released == 0x4D {
          mods := mods.(arrow := NUL);
        }
        return;
      }
      if scancode == 0x2A || scancode == 0x36 {
        mods := mods.(shift := true);
        return;
      } else if scancode == 0x3A {
        mods := mods.(caps := !mods.caps);
        return;
      } else if scancode == 0x1D {
        mods := mods.(ctrl := true);
        return;
      } else if scancode == 0x48 {
        mods := mods.(arrow := 117);
        return;
      } else if scancode == 0x50 {
        mods := mods.(arrow := 100);
        return;
      } else if scancode == 0x4B {
        mods := mods.(arrow := 108);
        return;
      } else if scancode == 0x4D {
        mods := mods.(arrow := 114);
        return;
      }
      if mods.ctrl {
        var c := ControlCode(Lookup(KEYMAP, scancode));
        if c == 12 {
          clear := true;
        } else if c == 4 {
          mods := mods.(eof := true);
        }
        return;
      }
      var c := NUL;
      if mods.shift != mods.caps {
        c := Lookup(KEYMAP_SHIFTED, scancode);
      } else {
        c := Lookup(KEYMAP, scancode);
      }
      if IsPositive(c) {
        var next := (head + 1) % 256;
        if next != tail {
          keyBuffer[head] := c;
          head := next;
        }
      }
    }

    /** getInput: 0 when the queue is empty, else its oldest byte. */
    method GetInput() returns (c: byte)
      requires Valid()
      modifies this`tail
      ensures Valid()
      ensures var u := Unread(old(Abstract()));
              if u == [] then c == NUL && Abstract() == old(Abstract())
              else c == u[0] && Unread(Abstract()) == u[1..]
    {
      if head == tail {
        return NUL;
      }
      PopDrops(Abstract());
      c := keyBuffer[tail];
      tail := (tail + 1) % 256;
    }
  }
}
