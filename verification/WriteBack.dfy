/** The archive buffer as a write-back cache over the disk. */
module WriteBack {
  import opened Bytes
  import opened Dictionary
  import opened Archive
  import opened Descriptors
  import opened DescriptorRuns

  /** The disk holds the archive unless an open descriptor is dirty. */
  ghost predicate Coherent(st: State) {
    st.disk == st.buf || HasDirty(st.fds)
  }

  /** open creates a file. */
  ghost predicate Creates(st: State, op: Op)
    requires WellFormed(st.buf)
  {
    op.Open? && HasFlag(op.flags, O_CREAT) && !Has(Files(st.buf), op.path)
  }

  ghost predicate HasDirty(fds: seq<FileDesc>) {
    exists i :: 0 <= i < |fds| && fds[i].isInUse && fds[i].dirty
  }

  lemma DirtyUpdate(fds: seq<FileDesc>, j: nat, d: FileDesc)
    requires j < |fds|
    ensures d.isInUse && d.dirty ==> HasDirty(fds[j := d])
    ensures HasDirty(fds) && !(fds[j].isInUse && fds[j].dirty) ==> HasDirty(fds[j := d])
  {
    var gs := fds[j := d];
    assert gs[j] == d;
    if HasDirty(fds) && !(fds[j].isInUse && fds[j].dirty) {
      var i :| 0 <= i < |fds| && fds[i].isInUse && fds[i].dirty;
      assert gs[i] == fds[i];
    }
  }

  lemma OpenCoherent(st: State, path: seq<byte>, flags: nat)
    requires Inv(st) && CanStep(st, Open(path, flags)) && !Creates(st, Open(path, flags)) && Coherent(st)
    ensures Coherent(OpenStep(st, path, flags).0)
  {
    if Has(Files(st.buf), path) && FreeSlot(st.fds) < FD_MAX_FILES {
      DirtyUpdate(st.fds, FreeSlot(st.fds), Opened(st.buf, path, flags));
    }
  }

  lemma WriteCoherent(st: State, fd_: int, bs: seq<byte>)
    requires Inv(st) && Safe(st) && NoWrap(st, fd_, |bs|) && Coherent(st)
    ensures Coherent(WriteStep(st, fd_, bs).0)
  {
    if IsOpen(st, fd_) {
      WriteStepIs(st, fd_, bs);
      var d := st.fds[fd_ - 3];
      var d' := d.(rwPos := d.rwPos + Moved(st, fd_, |bs|), dirty := true);
      DirtyUpdate(st.fds, fd_ - 3, d');
      assert !AtEof(d) ==> WriteStep(st, fd_, bs).0.fds == st.fds[fd_ - 3 := d'];
    }
  }

  lemma ReadCoherent(st: State, fd_: int, count: nat)
    requires Inv(st) && Safe(st) && NoWrap(st, fd_, count) && Coherent(st)
    ensures Coherent(ReadStep(st, fd_, count).0)
  {
    ReadKeeps(st, fd_, count);
    if IsOpen(st, fd_) {
      var d := st.fds[fd_ - 3];
      DirtyUpdate(st.fds, fd_ - 3, d.(rwPos := d.rwPos + Moved(st, fd_, count)));
    }
  }

  lemma CloseCoherent(st: State, fd_: int)
    requires Inv(st) && Coherent(st)
    ensures Coherent(CloseStep(st, fd_).0)
  {
    if IsOpen(st, fd_) {
      DirtyUpdate(st.fds, fd_ - 3, CLOSED.(dirty := st.fds[fd_ - 3].dirty));
    }
  }

  lemma StepCoherent(st: State, op: Op)
    requires Inv(st) && CanStep(st, op) && !Creates(st, op) && Coherent(st)
    ensures Safe(st) && Coherent(Step(st, op))
  {
    InvIsSafe(st);
    match op
    case Open(path, flags) => OpenCoherent(st, path, flags);
    case Read(fd_, count) => ReadCoherent(st, fd_, count);
    case Write(fd_, bs) => WriteCoherent(st, fd_, bs);
    case Close(fd_) => CloseCoherent(st, fd_);
  }

  /** No call of the run creates a file. */
  ghost predicate CreatesNothing(st: State, ops: seq<Op>)
    requires Inv(st) && CanRun(st, ops)
    decreases |ops|
  {
    ops == [] || (!Creates(st, ops[0]) && CreatesNothing(Next(st, ops[0]), ops[1..]))
  }

  /** Every state of a run that creates nothing is coherent. */
  lemma {:induction false} RunCoherent(st: State, ops: seq<Op>, k: nat)
    requires Inv(st) && CanRun(st, ops) && k <= |ops|
    requires CreatesNothing(st, ops) && Coherent(st)
    ensures CanRun(st, ops[..k]) && Coherent(Run(st, ops[..k]))
    decreases k
  {
    if k > 0 {
      StepCoherent(st, ops[0]);
      RunCoherent(Next(st, ops[0]), ops[1..], k - 1);
      assert ops[..k][1..] == ops[1..][..k - 1];
    }
  }

  // ---- which opens leave the disk behind ----

  /** The last entry is of that name, and as tarTouch made it. */
  ghost predicate EndsFresh(s: seq<byte>, path: seq<byte>)
    requires WellFormed(s)
  {
    Segments(s) != [] && |path| < 100 && Segments(s)[|Segments(s)| - 1] == NewHeader(path)
  }

  /** open leaves the archive as it is: there is nothing to create, and nothing to truncate away. */
  ghost predicate LeavesArchive(s: seq<byte>, path: seq<byte>, flags: nat)
    requires WellFormed(s)
  {
    if Has(Files(s), path) then HasFlag(flags, O_TRUNC) ==> EndsFresh(s, path) else !HasFlag(flags, O_CREAT)
  }

  /** Truncation changes nothing exactly when the file is the last one and still as it was made. */
  lemma TruncIsNothingIff(s: seq<byte>, path: seq<byte>)
    requires GoodWith(s, path) && Single(Files(s), path)
    ensures TruncImage(s, path) == s <==> EndsFresh(s, path)
  {
    var t, gs, i := TruncImage(s, path), Segments(s), IndexOf(Files(s), path);
    EditRefines(s, path, []);
    var hs := Without(gs, i) + [NewHeader(path)];
    if t == s {
      assert gs[|gs| - 1] == hs[|hs| - 1];
    } else if EndsFresh(s, path) {
      FreshIsLast(s, path);
      LastPutBack(gs);
      SameSegments(s, t);
    }
  }

  lemma LastPutBack(gs: seq<seq<byte>>)
    requires gs != []
    ensures Without(gs, |gs| - 1) + [gs[|gs| - 1]] == gs
  {}

  lemma FreshIsLast(s: seq<byte>, path: seq<byte>)
    requires GoodWith(s, path) && Single(Files(s), path) && EndsFresh(s, path)
    ensures IndexOf(Files(s), path) == |Files(s)| - 1
  {
    var n := |Files(s)| - 1;
    Unseal(s);
    RoomAfterRm(s, path);
    NewHeaderIsSegment(path);
    assert Files(s)[n] == FileOf(Segments(s)[n]);
    SingleIsAlone(Files(s), path);
  }

  lemma SameSegments(s: seq<byte>, t: seq<byte>)
    requires WellFormed(s) && WellFormed(t) && |s| == |t| && Segments(s) == Segments(t)
    ensures s == t
  {
    Unseal(s);
    Unseal(t);
  }

  /** A created file, truncated at once or not, makes the archive another one. */
  lemma CreationShows(s: seq<byte>, path: seq<byte>, flags: nat)
    requires WellFormed(s) && CanMake(s, path, flags) && !Has(Files(s), path) && HasFlag(flags, O_CREAT)
    ensures OpenImage(s, path, flags) != s
  {
    Created(s, path);
    TouchRefines(s, path);
    if HasFlag(flags, O_TRUNC) {
      EditRefines(TouchImage(s, path), path, []);
    }
    assert |Files(OpenImage(s, path, flags))| == |Files(s)| + 1;
  }

  /** From a state where disk and archive agree, open keeps them so exactly when it leaves the archive as it is. */
  lemma OpenAgreesIff(st: State, path: seq<byte>, flags: nat)
    requires Inv(st) && CanOpen(st, path, flags) && st.disk == st.buf
    ensures var st' := OpenStep(st, path, flags).0;
            st'.disk == st'.buf <==> LeavesArchive(st.buf, path, flags)
  {
    if !Has(Files(st.buf), path) {
      if HasFlag(flags, O_CREAT) {
        CreationShows(st.buf, path, flags);
      }
    } else if HasFlag(flags, O_TRUNC) {
      TruncIsNothingIff(st.buf, path);
    }
  }

  /** Write, close, reload from the disk: the same archive, and the invariant still holds. */
  lemma CloseFlushes(st: State, fd_: int, bs: seq<byte>)
    requires Inv(st) && NoWrap(st, fd_, |bs|) && Transfer(st, fd_, |bs|).Some?
    ensures Safe(st)
    ensures var st1 := WriteStep(st, fd_, bs).0; var (st2, c) := CloseStep(st1, fd_);
            && c == 0 && Inv(LoadStep(st2)) && LoadStep(st2).buf == st1.buf
            && !LoadStep(st2).fds[fd_ - 3].isInUse
  {
    WriteKeeps(st, fd_, bs);
    var st1 := WriteStep(st, fd_, bs).0;
    StepKeeps(st1, Close(fd_));
  }

  ghost predicate HasFree(fds: seq<FileDesc>) {
    exists i :: 0 <= i < |fds| && !fds[i].isInUse
  }

  /** Opening an existing file and reading from its start. */
  lemma ReopenReads(st: State, path: seq<byte>, count: nat)
    requires Inv(st) && Has(Files(st.buf), path) && count < 0x8000_0000 && HasFree(st.fds)
    ensures CanOpen(st, path, 0)
    ensures var (st1, r) := OpenStep(st, path, 0);
            && r >= 3 && Inv(st1) && Safe(st1) && NoWrap(st1, r, count)
            && var data := Lookup(Files(st.buf), path).value;
            ReadStep(st1, r, count).2 == data[..Min(count, |data|)]
  {
    InvIsSafe(st);
    OpenKeeps(st, path, 0);
    var (st1, r) := OpenStep(st, path, 0);
    var _ := FileOfSlot(st1, r);
    InvIsSafe(st1);
    ReadIsSlice(st1, r, count);
  }

  ghost function ReopenAndRead(st: State, path: seq<byte>, count: nat): (bs: seq<byte>)
    requires Inv(st) && Has(Files(st.buf), path) && count < 0x8000_0000 && HasFree(st.fds)
    ensures bs == Lookup(Files(st.buf), path).value[..Min(count, |Lookup(Files(st.buf), path).value|)]
  {
    ReopenReads(st, path, count);
    var (st1, r) := OpenStep(st, path, 0);
    ReadStep(st1, r, count).2
  }

  /** What the disk holds after a write and a close, loaded back. */
  ghost function WriteCloseLoad(st: State, fd_: int, bs: seq<byte>): (st3: State)
    requires Inv(st) && NoWrap(st, fd_, |bs|) && Transfer(st, fd_, |bs|).Some?
    ensures Inv(st3) && HasFree(st3.fds)
  {
    CloseFlushes(st, fd_, bs);
    var st1 := WriteStep(st, fd_, bs).0;
    assert !LoadStep(CloseStep(st1, fd_).0).fds[fd_ - 3].isInUse;
    LoadStep(CloseStep(st1, fd_).0)
  }

  /**
   Write, close, reload from disk, reopen, read: the bytes written come back, in their place in
   the otherwise unchanged file.
   */
  lemma WrittenBytesComeBack(st: State, fd_: int, bs: seq<byte>)
    requires Inv(st) && NoWrap(st, fd_, |bs|) && Transfer(st, fd_, |bs|).Some?
    ensures var f, pos, k := FileOfSlot(st, fd_), st.fds[fd_ - 3].rwPos, Moved(st, fd_, |bs|);
            var st3 := WriteCloseLoad(st, fd_, bs);
            && Has(Files(st3.buf), f.name)
            && ReopenAndRead(st3, f.name, pos + k) == f.data[..pos] + bs[..k]
            && Lookup(Files(st3.buf), f.name) == Some(Patch(f.data, pos, bs[..k]))
  {
    var f, pos, k := FileOfSlot(st, fd_), st.fds[fd_ - 3].rwPos, Moved(st, fd_, |bs|);
    WriteRefinesStore(st, fd_, bs);
    CloseFlushes(st, fd_, bs);
    StoreLookup(Files(st.buf), f.name, Patch(f.data, pos, bs[..k]), f.name);
    PatchPrefix(f.data, pos, bs[..k]);
  }

  lemma PatchPrefix(s: seq<byte>, at: nat, bs: seq<byte>)
    requires at + |bs| <= |s|
    ensures Patch(s, at, bs)[..at + |bs|] == s[..at] + bs
  {}

  /** Disk and archive agree, and all slots are closed. */
  ghost function Fresh(s: seq<byte>): State {
    State(s, s, [CLOSED, CLOSED, CLOSED, CLOSED, CLOSED, CLOSED, CLOSED, CLOSED])
  }

  lemma FreshIsGood(s: seq<byte>)
    requires WellFormed(s) && Unique(Files(s)) && |s| < 0x8000_0000
    ensures Inv(Fresh(s)) && Safe(Fresh(s)) && !HasDirty(Fresh(s).fds)
  {
    InvIsSafe(Fresh(s));
  }

  lemma CleanUpdate(fds: seq<FileDesc>, j: nat, d: FileDesc)
    requires j < |fds| && !HasDirty(fds) && !d.dirty
    ensures !HasDirty(fds[j := d])
  {
    assert forall i :: 0 <= i < |fds| && i != j ==> fds[j := d][i] == fds[i];
  }

  /** open marks no descriptor dirty. */
  lemma OpenMarksNothing(st: State, path: seq<byte>, flags: nat)
    requires CanOpen(st, path, flags) && !HasDirty(st.fds)
    ensures !HasDirty(OpenStep(st, path, flags).0.fds)
  {
    if Has(Files(st.buf), path) || HasFlag(flags, O_CREAT) {
      var s, slot := OpenImage(st.buf, path, flags), FreeSlot(st.fds);
      if slot < FD_MAX_FILES {
        CleanUpdate(st.fds, slot, Opened(s, path, flags));
      }
    }
  }

  /** So an open that changes the archive breaks coherence when no descriptor was dirty. */
  lemma FreshOpenIsClean(s: seq<byte>, path: seq<byte>, flags: nat)
    requires WellFormed(s) && Unique(Files(s)) && |s| < 0x8000_0000 && CanMake(s, path, flags)
    requires !LeavesArchive(s, path, flags)
    ensures Inv(Fresh(s)) && CanOpen(Fresh(s), path, flags) && !Coherent(OpenStep(Fresh(s), path, flags).0)
  {
    FreshIsGood(s);
    OpenAgreesIff(Fresh(s), path, flags);
    OpenMarksNothing(Fresh(s), path, flags);
  }

  /** On an empty archive, creating "A" leaves the disk behind with no dirty descriptor. */
  lemma CreateBreaksAgreement()
    ensures var z := Zeros(SOURCE_SIZE);
            && Inv(Fresh(z)) && CanOpen(Fresh(z), [65], O_CREAT)
            && !Coherent(OpenStep(Fresh(z), [65], O_CREAT).0)
  {
    var z := Zeros(SOURCE_SIZE);
    EmptyArchive(z);
    OneFile(z);
    assert HasFlag(O_CREAT, O_CREAT) && !HasFlag(O_CREAT, O_TRUNC);
    FreshOpenIsClean(z, [65], O_CREAT);
  }

  /** So does truncating "A" of two files, although it creates nothing. */
  lemma TruncBreaksAgreement()
    ensures var s := TwoFiles();
            && Inv(Fresh(s)) && CanOpen(Fresh(s), [65], O_TRUNC) && !Creates(Fresh(s), Open([65], O_TRUNC))
            && !Coherent(OpenStep(Fresh(s), [65], O_TRUNC).0)
  {
    var s := TwoFiles();
    assert HasFlag(O_TRUNC, O_TRUNC) && !HasFlag(O_TRUNC, O_CREAT);
    assert [65][0] != [66][0];
    IndexOfIs(Files(s), [65], 0);
    RemoveLookup(Files(s), [65], [65]);
    if EndsFresh(s, [65]) {
      FreshIsLast(s, [65]);
    }
    FreshOpenIsClean(s, [65], O_TRUNC);
  }
}
