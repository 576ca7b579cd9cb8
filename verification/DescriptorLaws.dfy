/** What the calls on descriptors mean to each other, said without their steps. */
module DescriptorLaws {
  import opened Bytes
  import opened Dictionary
  import opened Archive
  import opened Descriptors
  import opened DescriptorRuns

  /** Slot i is the only one that differs. */
  predicate OnlySlot(fds: seq<FileDesc>, gds: seq<FileDesc>, i: int) {
    |fds| == |gds| && forall j :: 0 <= j < |fds| && j != i ==> gds[j] == fds[j]
  }

  // ---- close ----

  /**
   close fails exactly when the descriptor is not open. Otherwise it frees that slot and no other,
   leaves the archive alone, and writes it to the disk if and only if the descriptor was dirty.
   */
  lemma CloseFrees(st: State, fd_: int)
    requires Inv(st)
    ensures var (t, c) := CloseStep(st, fd_);
            && Inv(t) && !IsOpen(t, fd_) && t.buf == st.buf && c == (if IsOpen(st, fd_) then 0 else -1)
            && OnlySlot(st.fds, t.fds, if IsOpen(st, fd_) then fd_ - 3 else -1)
            && t.disk == (if IsOpen(st, fd_) && st.fds[fd_ - 3].dirty then st.buf else st.disk)
            && (IsOpen(st, fd_) ==>
                  t.fds[fd_ - 3] == FileDesc([], false, st.fds[fd_ - 3].dirty, None, 0, 0, 0))
  {
    StepKeeps(st, Close(fd_));
  }

  // ---- open ----

  /** open fails exactly when there is no file to open, or no slot for it. */
  lemma OpenFailsIff(st: State, path: seq<byte>, flags: nat)
    requires Inv(st) && CanOpen(st, path, flags)
    ensures OpenStep(st, path, flags).1 == -1 <==>
            (!Has(Files(st.buf), path) && !HasFlag(flags, O_CREAT)) || forall i :: 0 <= i < 8 ==> st.fds[i].isInUse
  {}

  /** The descriptor it returns is the lowest free one, at the start of the file, clean, with the flags given. */
  lemma OpenReturns(st: State, path: seq<byte>, flags: nat, t: State, r: int)
    requires Inv(st) && CanOpen(st, path, flags) && (t, r) == OpenStep(st, path, flags) && r != -1
    ensures IsOpen(t, r) && !IsOpen(st, r) && OnlySlot(st.fds, t.fds, r - 3)
    ensures forall i :: 0 <= i < r - 3 ==> st.fds[i].isInUse
    ensures var d := t.fds[r - 3];
            d.name == path && d.rwPos == 0 && d.flags == flags && !d.dirty && Located(t.buf, d)
  {
    LocatedData(t.buf, t.fds[r - 3]);
  }

  // ---- open and close ----

  /** Opening an existing file and closing it again leaves the archive, the disk and the free slots as they were. */
  lemma OpenCloseIsNothing(st: State, path: seq<byte>, flags: nat, t: State, r: int, u: State, c: int)
    requires Inv(st) && CanOpen(st, path, flags) && Has(Files(st.buf), path) && !HasFlag(flags, O_TRUNC)
    requires (t, r) == OpenStep(st, path, flags) && r != -1 && (u, c) == CloseStep(t, r)
    ensures Inv(u) && c == 0 && u.buf == st.buf && u.disk == st.disk
    ensures |u.fds| == |st.fds| && forall i :: 0 <= i < |st.fds| ==> u.fds[i].isInUse == st.fds[i].isInUse
  {
    OpenKeeps(st, path, flags);
    OpenReturns(st, path, flags, t, r);
    CloseFrees(t, r);
  }

  /** Opening and closing n times in a row: how often both calls succeed. */
  ghost function OpenCloses(st: State, path: seq<byte>, flags: nat, n: nat): nat
    requires Inv(st) && CanMake(st.buf, path, flags) && Has(Files(st.buf), path) && !HasFlag(flags, O_TRUNC)
    decreases n
  {
    if n == 0 then 0
    else
      InvIsSafe(st);
      var (t, r) := OpenStep(st, path, flags);
      if r == -1 then 0
      else
        var (u, c) := CloseStep(t, r);
        OpenCloseIsNothing(st, path, flags, t, r, u, c);
        (if c == 0 then 1 else 0) + OpenCloses(u, path, flags, n - 1)
  }

  /** Descriptors are not used up: with one free slot, any number of such pairs succeeds. */
  lemma {:induction false} OpenClosesSucceed(st: State, path: seq<byte>, flags: nat, n: nat)
    requires Inv(st) && CanMake(st.buf, path, flags) && Has(Files(st.buf), path) && !HasFlag(flags, O_TRUNC)
    requires exists i :: 0 <= i < 8 && !st.fds[i].isInUse
    ensures OpenCloses(st, path, flags, n) == n
    decreases n
  {
    if n > 0 {
      InvIsSafe(st);
      OpenFailsIff(st, path, flags);
      var (t, r) := OpenStep(st, path, flags);
      var (u, c) := CloseStep(t, r);
      OpenCloseIsNothing(st, path, flags, t, r, u, c);
      var i :| 0 <= i < 8 && !st.fds[i].isInUse;
      assert !u.fds[i].isInUse;
      OpenClosesSucceed(u, path, flags, n - 1);
    }
  }

  // ---- read and write ----

  /** Reading or writing a descriptor that is not open fails and changes nothing. */
  lemma NotOpenFails(st: State, fd_: int, count: nat, bs: seq<byte>)
    requires Safe(st) && !IsOpen(st, fd_)
    ensures ReadStep(st, fd_, count) == (st, -1, []) && WriteStep(st, fd_, bs) == (st, -1)
  {}

  /** A write makes its descriptor dirty and moves it on; the slots of the others stay as they are. */
  lemma WriteMoves(st: State, fd_: int, bs: seq<byte>, t: State, k: int)
    requires Inv(st) && NoWrap(st, fd_, |bs|) && IsOpen(st, fd_) && Safe(st) && (t, k) == WriteStep(st, fd_, bs)
    ensures Inv(t) && IsOpen(t, fd_) && k == Moved(st, fd_, |bs|) && t.disk == st.disk
    ensures OnlySlot(st.fds, t.fds, fd_ - 3) && FileOfSlot(t, fd_).name == FileOfSlot(st, fd_).name
    ensures t.fds[fd_ - 3].rwPos == st.fds[fd_ - 3].rwPos + k && t.fds[fd_ - 3].size == st.fds[fd_ - 3].size
    ensures !AtEof(st.fds[fd_ - 3]) ==> t.fds[fd_ - 3].dirty
  {
    WriteKeeps(st, fd_, bs);
    WriteStepIs(st, fd_, bs);
  }

  lemma PatchJoins(s: seq<byte>, at: nat, a: seq<byte>, b: seq<byte>)
    requires at + |a| + |b| <= |s|
    ensures Patch(Patch(s, at, a), at + |a|, b) == Patch(s, at, a + b)
  {}

  lemma PrefixJoins(a: seq<byte>, b: seq<byte>, k: nat, m: nat)
    requires k <= |a| && m <= |b| && (k == |a| || m == 0)
    ensures a[..k] + b[..m] == (a + b)[..k + m]
  {}

  /** What the file holds after a write. */
  lemma WriteStores(st: State, fd_: int, bs: seq<byte>, t: State, k: int, data: seq<byte>, pos: nat)
    requires Inv(st) && NoWrap(st, fd_, |bs|) && IsOpen(st, fd_) && Safe(st) && (t, k) == WriteStep(st, fd_, bs)
    requires data == FileOfSlot(st, fd_).data && pos == st.fds[fd_ - 3].rwPos
    ensures Inv(t) && IsOpen(t, fd_) && pos <= |data| && k == Min(|bs|, |data| - pos)
    ensures FileOfSlot(t, fd_).data == Patch(data, pos, bs[..k]) && t.fds[fd_ - 3].rwPos == pos + k
  {
    WriteMoves(st, fd_, bs, t, k);
    WriteRefinesStore(st, fd_, bs);
    var f := FileOfSlot(st, fd_);
    StoreLookup(Files(st.buf), f.name, Patch(data, pos, bs[..k]), f.name);
  }

  lemma JoinStores(data: seq<byte>, pos: nat, a: seq<byte>, b: seq<byte>, j: int, k: int, m: int)
    requires pos <= |data| && j == Min(|a|, |data| - pos) && k == Min(|b|, |data| - pos - j)
    requires m == Min(|a + b|, |data| - pos)
    ensures 0 <= j <= |a| && 0 <= k <= |b| && j + k == m && pos + m <= |data|
    ensures Patch(Patch(data, pos, a[..j]), pos + j, b[..k]) == Patch(data, pos, (a + b)[..m])
  {
    PrefixJoins(a, b, j, k);
    PatchJoins(data, pos, a[..j], b[..k]);
  }

  /** Writing in pieces equals writing whole: the same number of bytes, and the same file. */
  lemma WritesJoin(st: State, fd_: int, a: seq<byte>, b: seq<byte>, t: State, j: int, u: State, k: int,
                   v: State, m: int)
    requires Inv(st) && IsOpen(st, fd_) && Safe(st) && NoWrap(st, fd_, |a|) && NoWrap(st, fd_, |a + b|)
    requires (t, j) == WriteStep(st, fd_, a) && Safe(t) && NoWrap(t, fd_, |b|)
    requires (u, k) == WriteStep(t, fd_, b) && (v, m) == WriteStep(st, fd_, a + b)
    ensures Inv(u) && Inv(v) && IsOpen(u, fd_) && IsOpen(v, fd_) && j + k == m
    ensures FileOfSlot(u, fd_).data == FileOfSlot(v, fd_).data
    ensures u.fds[fd_ - 3].rwPos == v.fds[fd_ - 3].rwPos
  {
    var data, pos := FileOfSlot(st, fd_).data, st.fds[fd_ - 3].rwPos;
    WriteStores(st, fd_, a, t, j, data, pos);
    WriteStores(t, fd_, b, u, k, Patch(data, pos, a[..j]), pos + j);
    WriteStores(st, fd_, a + b, v, m, data, pos);
    JoinStores(data, pos, a, b, j, k, m);
  }

  // ---- flags ----

  /** A flag is its bit: adding it sets it, and adding a higher one leaves it. */
  lemma FlagIsBit(flags: nat)
    ensures flags < 4 ==> !HasFlag(flags, O_CREAT) && HasFlag(flags + 4, O_CREAT)
    ensures flags < 8 ==> !HasFlag(flags, O_TRUNC) && HasFlag(flags + 8, O_TRUNC)
    ensures HasFlag(flags + 8, O_CREAT) == HasFlag(flags, O_CREAT)
    ensures HasFlag(flags + 16, O_TRUNC) == HasFlag(flags, O_TRUNC)
  {}
}
