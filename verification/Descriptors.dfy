/**
 The descriptor table of src/fd.c as a state machine over the archive bytes, the disk image and
 the eight slots. Every step is total on safe states; the descriptor invariant is a theorem.
 */
module Descriptors {
  import opened Bytes
  import opened Dictionary
  import opened Archive

  const FD_MAX_FILES: nat := 8
  const O_CREAT: nat := 4
  const O_TRUNC: nat := 8
  const WRAP: nat := 0x1_0000_0000

  predicate HasFlag(flags: nat, bit: nat)
    requires bit > 0
  {
    flags / bit % 2 == 1
  }

  /** data is the offset in the archive buffer the raw pointer refers to; None is NULL. */
  datatype FileDesc = FileDesc(name: seq<byte>, isInUse: bool, dirty: bool,
                               data: Option<nat>, size: nat, rwPos: nat, flags: nat)

  const CLOSED := FileDesc([], false, false, None, 0, 0, 0)

  datatype State = State(buf: seq<byte>, disk: seq<byte>, fds: seq<FileDesc>)

  ghost predicate Safe(st: State) {
    && |st.fds| == FD_MAX_FILES && |st.disk| == |st.buf|
    && forall i {:trigger Pointing(st.fds[i], |st.buf|)} :: 0 <= i < FD_MAX_FILES && st.fds[i].isInUse ==>
         Pointing(st.fds[i], |st.buf|)
  }

  predicate Pointing(d: FileDesc, len: nat) {
    d.data.Some? && d.data.value + d.size <= len
  }

  /** fd_ names a slot in use. */
  predicate IsOpen(st: State, fd_: int) {
    3 <= fd_ < FD_MAX_FILES + 3 && fd_ - 3 < |st.fds| && st.fds[fd_ - 3].isInUse
  }

  // ---- open ----

  function FreeSlot(fds: seq<FileDesc>): (i: nat)
    ensures i <= |fds|
    ensures i < |fds| ==> !fds[i].isInUse
    ensures forall j :: 0 <= j < i ==> fds[j].isInUse
  {
    if fds == [] || !fds[0].isInUse then 0 else 1 + FreeSlot(fds[1..])
  }

  ghost predicate CanOpen(st: State, path: seq<byte>, flags: nat) {
    Safe(st) && WellFormed(st.buf) && CanMake(st.buf, path, flags)
  }

  /** Room for a file to create, and no second file of the name of one to truncate. */
  ghost predicate CanMake(s: seq<byte>, path: seq<byte>, flags: nat)
    requires WellFormed(s)
  {
    (HasFlag(flags, O_CREAT) ==> HasRoom(s, path)) && (HasFlag(flags, O_TRUNC) ==> Single(Files(s), path))
  }

  ghost predicate GoodWith(s: seq<byte>, path: seq<byte>) {
    WellFormed(s) && Has(Files(s), path)
  }

  lemma Created(s: seq<byte>, path: seq<byte>)
    requires WellFormed(s) && HasRoom(s, path)
    ensures GoodWith(TouchImage(s, path), path)
    ensures Unique(Files(s)) ==> Unique(Files(TouchImage(s, path)))
    ensures Single(Files(s), path) ==> Single(Files(TouchImage(s, path)), path)
  {
    TouchRefines(s, path);
    TouchLookup(Files(s), path, path);
    TouchIsSingle(Files(s), path);
  }

  lemma Truncated(s: seq<byte>, path: seq<byte>)
    requires GoodWith(s, path) && Single(Files(s), path)
    ensures EditFits(s, path, 0) && GoodWith(EditImage(s, path, []), path)
    ensures Unique(Files(s)) ==> Unique(Files(EditImage(s, path, [])))
  {
    EditRefines(s, path, []);
    TouchLookup(Remove(Files(s), path), path, path);
  }

  ghost function TruncImage(s: seq<byte>, path: seq<byte>): (t: seq<byte>)
    requires GoodWith(s, path) && Single(Files(s), path)
    ensures |t| == |s| && GoodWith(t, path) && (Unique(Files(s)) ==> Unique(Files(t)))
  {
    Truncated(s, path);
    EditImage(s, path, [])
  }

  /** The archive after open: created if asked for and missing, then truncated if asked for. */
  ghost function OpenImage(s: seq<byte>, path: seq<byte>, flags: nat): (t: seq<byte>)
    requires WellFormed(s) && CanMake(s, path, flags)
    requires Has(Files(s), path) || HasFlag(flags, O_CREAT)
    ensures |t| == |s| && GoodWith(t, path) && (Unique(Files(s)) ==> Unique(Files(t)))
  {
    if Has(Files(s), path) then
      if HasFlag(flags, O_TRUNC) then TruncImage(s, path) else s
    else
      Created(s, path);
      if HasFlag(flags, O_TRUNC) then TruncImage(TouchImage(s, path), path) else TouchImage(s, path)
  }

  ghost function Opened(s: seq<byte>, path: seq<byte>, flags: nat): FileDesc
    requires WellFormed(s) && Has(Files(s), path)
  {
    FileDesc(path, true, false, Some(FindOffset(s, path).value + BLOCK),
             |Lookup(Files(s), path).value|, 0, flags)
  }

  ghost function OpenStep(st: State, path: seq<byte>, flags: nat): (State, int)
    requires CanOpen(st, path, flags)
  {
    if !Has(Files(st.buf), path) && !HasFlag(flags, O_CREAT) then (st, -1)
    else
      var s := OpenImage(st.buf, path, flags);
      var slot := FreeSlot(st.fds);
      if slot == FD_MAX_FILES then (st.(buf := s), -1)
      else (st.(buf := s, fds := st.fds[slot := Opened(s, path, flags)]), slot + 3)
  }

  // The three ways out of open.
  lemma OpenMisses(st: State, path: seq<byte>, flags: nat)
    requires CanOpen(st, path, flags) && !Has(Files(st.buf), path) && !HasFlag(flags, O_CREAT)
    ensures OpenStep(st, path, flags) == (st, -1)
  {}

  lemma OpenIsFull(st: State, path: seq<byte>, flags: nat, s: seq<byte>)
    requires CanOpen(st, path, flags) && (Has(Files(st.buf), path) || HasFlag(flags, O_CREAT))
    requires s == OpenImage(st.buf, path, flags) && FreeSlot(st.fds) == FD_MAX_FILES
    ensures OpenStep(st, path, flags) == (st.(buf := s), -1)
  {}

  lemma OpenFills(st: State, path: seq<byte>, flags: nat, s: seq<byte>, slot: nat)
    requires CanOpen(st, path, flags) && (Has(Files(st.buf), path) || HasFlag(flags, O_CREAT))
    requires s == OpenImage(st.buf, path, flags) && slot == FreeSlot(st.fds) < FD_MAX_FILES
    ensures OpenStep(st, path, flags) == (st.(buf := s, fds := st.fds[slot := Opened(s, path, flags)]), slot + 3)
  {}

  // ---- read, write, close ----

  /** How many bytes read and write transfer: the sum is taken in 32 bits. */
  function Clamp(rwPos: nat, count: nat, size: nat): nat
    requires rwPos < size
  {
    if (rwPos + count) % 0x1_0000_0000 > size then size - rwPos else count
  }

  /** The clamp is the minimum it is meant to be exactly when the 32-bit sum does not wrap. */
  lemma ClampIsMinIff(rwPos: nat, count: nat, size: nat)
    requires rwPos < size < WRAP && count < WRAP
    ensures Clamp(rwPos, count, size) == Min(count, size - rwPos) <==> rwPos + count < WRAP
  {
    if rwPos + count >= WRAP {
      assert (rwPos + count) % 0x1_0000_0000 == rwPos + count - WRAP;
    } else {
      assert (rwPos + count) % 0x1_0000_0000 == rwPos + count;
    }
  }

  /** A concrete wrap: one byte is left, yet the whole count goes through. */
  lemma ClampWraps()
    ensures Clamp(1, 0xFFFF_FFFF, 2) == 0xFFFF_FFFF && Min(0xFFFF_FFFF, 2 - 1) == 1
  {
    assert (1 + 0xFFFF_FFFF) % 0x1_0000_0000 == 0;
  }

  predicate AtEof(d: FileDesc) {
    d.rwPos >= d.size
  }

  /** The transfer read and write make, or None when they return without touching anything. */
  function Transfer(st: State, fd_: int, count: nat): Option<nat> {
    if !IsOpen(st, fd_) || AtEof(st.fds[fd_ - 3]) then None
    else Some(Clamp(st.fds[fd_ - 3].rwPos, count, st.fds[fd_ - 3].size))
  }

  /** No 32-bit wrap in rwPos + count. */
  predicate NoWrap(st: State, fd_: int, count: nat) {
    IsOpen(st, fd_) ==> st.fds[fd_ - 3].rwPos + count < WRAP && st.fds[fd_ - 3].size < WRAP
  }

  lemma TransferFits(st: State, fd_: int, count: nat)
    requires Safe(st) && NoWrap(st, fd_, count) && Transfer(st, fd_, count).Some?
    ensures var d := st.fds[fd_ - 3]; var k := Transfer(st, fd_, count).value;
            k == Min(count, d.size - d.rwPos) && d.data.Some? && d.data.value + d.rwPos + k <= |st.buf|
  {
    assert Pointing(st.fds[fd_ - 3], |st.buf|);
    ClampIsMinIff(st.fds[fd_ - 3].rwPos, count, st.fds[fd_ - 3].size);
  }

  /** A transfer leaves the archive buffer exactly when the sum wraps: no wrapping call can be allowed. */
  lemma TransferStaysIff(st: State, fd_: int, count: nat)
    requires Safe(st) && |st.buf| < 0x8000_0000 && count < WRAP
    requires Transfer(st, fd_, count).Some?
    ensures var d := st.fds[fd_ - 3];
            && d.data.Some? && d.size < WRAP
            && (d.data.value + d.rwPos + Transfer(st, fd_, count).value <= |st.buf| <==> NoWrap(st, fd_, count))
  {
    var d := st.fds[fd_ - 3];
    assert Pointing(d, |st.buf|);
    if d.rwPos + count >= WRAP {
      assert (d.rwPos + count) % 0x1_0000_0000 == d.rwPos + count - WRAP;
    } else {
      ClampIsMinIff(d.rwPos, count, d.size);
    }
  }

  function Result(st: State, fd_: int, count: nat): int {
    if !IsOpen(st, fd_) then -1
    else match Transfer(st, fd_, count) case None => 0 case Some(k) => k
  }

  ghost function ReadStep(st: State, fd_: int, count: nat): (State, int, seq<byte>)
    requires Safe(st) && NoWrap(st, fd_, count)
  {
    match Transfer(st, fd_, count)
    case None => (st, Result(st, fd_, count), [])
    case Some(k) =>
      TransferFits(st, fd_, count);
      var d := st.fds[fd_ - 3];
      var from := d.data.value + d.rwPos;
      (st.(fds := st.fds[fd_ - 3 := d.(rwPos := d.rwPos + k)]), k, st.buf[from..from + k])
  }

  ghost function WriteStep(st: State, fd_: int, bs: seq<byte>): (State, int)
    requires Safe(st) && NoWrap(st, fd_, |bs|)
  {
    match Transfer(st, fd_, |bs|)
    case None => (st, Result(st, fd_, |bs|))
    case Some(k) =>
      TransferFits(st, fd_, |bs|);
      var d := st.fds[fd_ - 3];
      (st.(buf := Patch(st.buf, d.data.value + d.rwPos, bs[..k]),
           fds := st.fds[fd_ - 3 := d.(rwPos := d.rwPos + k, dirty := true)]), k)
  }

  function CloseStep(st: State, fd_: int): (State, int) {
    if !IsOpen(st, fd_) then (st, -1)
    else
      var d := st.fds[fd_ - 3];
      (st.(disk := if d.dirty then st.buf else st.disk,
           fds := st.fds[fd_ - 3 := CLOSED.(dirty := d.dirty)]), 0)
  }

  /** tarLoad over the whole buffer. */
  function LoadStep(st: State): State {
    st.(buf := st.disk)
  }
}
