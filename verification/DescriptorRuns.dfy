/** What every run of open, read, write and close keeps: descriptors, archive and disk agree. */
module DescriptorRuns {
  import opened Bytes
  import opened Dictionary
  import opened Archive
  import opened Descriptors

  /** Where the first entry of that name has its data, and how many bytes of it there are. */
  ghost function EntryOf(s: seq<byte>, name: seq<byte>): Option<(nat, nat)>
    requires WellFormed(s)
  {
    if Has(Files(s), name) then Some((FindOffset(s, name).value + BLOCK, |Lookup(Files(s), name).value|)) else None
  }

  /** d points at the data of the first entry bearing its name, and has that entry's size. */
  ghost predicate Located(s: seq<byte>, d: FileDesc)
    requires WellFormed(s)
  {
    d.data.Some? && EntryOf(s, d.name) == Some((d.data.value, d.size))
  }

  ghost predicate DescriptorOk(s: seq<byte>, d: FileDesc)
    requires WellFormed(s)
  {
    d.isInUse ==> Located(s, d) && Pointing(d, |s|) && d.rwPos <= d.size
  }

  ghost predicate TableOk(s: seq<byte>, fds: seq<FileDesc>)
    requires WellFormed(s)
  {
    && |fds| == FD_MAX_FILES
    && forall i {:trigger DescriptorOk(s, fds[i])} :: 0 <= i < FD_MAX_FILES ==> DescriptorOk(s, fds[i])
  }

  ghost predicate Inv(st: State) {
    && |st.disk| == |st.buf| < 0x8000_0000
    && WellFormed(st.buf) && Unique(Files(st.buf)) && TableOk(st.buf, st.fds)
  }

  lemma InvIsSafe(st: State)
    requires Inv(st)
    ensures Safe(st)
  {
    assert forall i :: 0 <= i < FD_MAX_FILES ==> DescriptorOk(st.buf, st.fds[i]);
  }

  lemma TableUpdate(s: seq<byte>, fds: seq<FileDesc>, i: nat, d: FileDesc)
    requires WellFormed(s) && TableOk(s, fds) && i < FD_MAX_FILES && DescriptorOk(s, d)
    ensures TableOk(s, fds[i := d])
  {}

  /** A change of the archive that leaves every entry in place leaves the table good. */
  lemma TableMove(s: seq<byte>, t: seq<byte>, fds: seq<FileDesc>)
    requires WellFormed(s) && WellFormed(t) && |s| == |t| && TableOk(s, fds) && SameEntries(s, t)
    ensures TableOk(t, fds)
  {
    forall i | 0 <= i < FD_MAX_FILES ensures DescriptorOk(t, fds[i]) {
      assert DescriptorOk(s, fds[i]);
      assert EntryOf(s, fds[i].name).Some? ==> EntryOf(t, fds[i].name) == EntryOf(s, fds[i].name);
    }
  }

  // ---- which entries move ----

  ghost predicate SameEntries(s: seq<byte>, t: seq<byte>)
    requires WellFormed(s) && WellFormed(t)
  {
    forall n :: EntryOf(s, n).Some? ==> EntryOf(t, n) == EntryOf(s, n)
  }

  lemma {:induction false} FlatOfLengths(gs: seq<seq<byte>>, hs: seq<seq<byte>>)
    requires |gs| == |hs| && forall i :: 0 <= i < |gs| ==> |gs[i]| == |hs[i]|
    ensures |Flat(gs)| == |Flat(hs)|
  {
    if gs != [] {
      FlatOfLengths(gs[1..], hs[1..]);
    }
  }

  /** More segments and files behind the old ones: every old entry is where it was. */
  lemma PrefixKeepsEntry(s: seq<byte>, t: seq<byte>, n: seq<byte>, i: nat)
    requires WellFormed(s) && WellFormed(t) && i == IndexOf(Files(s), n) < |Files(s)| <= |Files(t)|
    requires Segments(t)[..i] == Segments(s)[..i] && Files(t)[..i + 1] == Files(s)[..i + 1]
    ensures EntryOf(t, n) == EntryOf(s, n)
  {
    assert forall j :: 0 <= j <= i ==> Files(t)[j] == Files(t)[..i + 1][j] == Files(s)[j];
    IndexOfIs(Files(t), n, i);
  }

  /** Appending an entry moves no other one. */
  lemma TouchKeepsEntries(s: seq<byte>, name: seq<byte>)
    requires WellFormed(s) && HasRoom(s, name)
    ensures WellFormed(TouchImage(s, name)) && SameEntries(s, TouchImage(s, name))
  {
    TouchRefines(s, name);
    forall n | EntryOf(s, n).Some? ensures EntryOf(TouchImage(s, name), n) == EntryOf(s, n) {
      PrefixKeepsEntry(s, TouchImage(s, name), n, IndexOf(Files(s), n));
    }
  }

  /** Segments and files of the same sizes under the same names. */
  ghost predicate SameShape(s: seq<byte>, t: seq<byte>)
    requires WellFormed(s) && WellFormed(t)
  {
    && |Segments(s)| == |Segments(t)|
    && (forall i :: 0 <= i < |Segments(s)| ==> |Segments(s)[i]| == |Segments(t)[i]|)
    && (forall i :: 0 <= i < |Files(s)| ==> Files(s)[i].name == Files(t)[i].name)
    && (forall i :: 0 <= i < |Files(s)| ==> |Files(s)[i].data| == |Files(t)[i].data|)
  }

  lemma SameShapeEntry(s: seq<byte>, t: seq<byte>, n: seq<byte>)
    requires WellFormed(s) && WellFormed(t) && SameShape(s, t) && Has(Files(s), n)
    ensures EntryOf(t, n) == EntryOf(s, n)
  {
    var i := IndexOf(Files(s), n);
    IndexOfIs(Files(t), n, i);
    FlatOfLengths(Segments(s)[..i], Segments(t)[..i]);
    assert FindOffset(t, n).value == Offset(Segments(t), i) == Offset(Segments(s), i);
    assert Lookup(Files(t), n).value == Files(t)[i].data;
  }

  lemma SameShapeEntries(s: seq<byte>, t: seq<byte>)
    requires WellFormed(s) && WellFormed(t) && SameShape(s, t)
    ensures SameEntries(s, t)
  {
    forall n | EntryOf(s, n).Some? ensures EntryOf(t, n) == EntryOf(s, n) {
      SameShapeEntry(s, t, n);
    }
  }

  /** A located descriptor points at the data of its entry, inside the buffer. */
  lemma LocatedData(s: seq<byte>, d: FileDesc)
    requires WellFormed(s) && Located(s, d)
    ensures d.data.Some? && Pointing(d, |s|) && Has(Files(s), d.name)
    ensures var i := IndexOf(Files(s), d.name);
            && d.data.value == Offset(Segments(s), i) + BLOCK && d.size == |Files(s)[i].data|
            && s[d.data.value..d.data.value + d.size] == Files(s)[i].data
  {
    Unseal(s);
    DataOf(Segments(s), IndexOf(Files(s), d.name), |s|);
  }

  // ---- one step ----

  lemma OpenedIsOk(t: seq<byte>, path: seq<byte>, flags: nat)
    requires GoodWith(t, path)
    ensures DescriptorOk(t, Opened(t, path, flags))
  {
    LocatedData(t, Opened(t, path, flags));
  }

  lemma OpenImageKeeps(s: seq<byte>, path: seq<byte>, flags: nat)
    requires WellFormed(s) && CanMake(s, path, flags) && !HasFlag(flags, O_TRUNC)
    requires Has(Files(s), path) || HasFlag(flags, O_CREAT)
    ensures var t := OpenImage(s, path, flags);
            SameEntries(s, t) && Files(t) == Touch(Files(s), path)
  {
    if !Has(Files(s), path) {
      TouchRefines(s, path);
      TouchKeepsEntries(s, path);
    }
  }

  /** open without O_TRUNC keeps the invariant, even when it appends an entry. */
  lemma OpenKeeps(st: State, path: seq<byte>, flags: nat)
    requires Inv(st) && CanOpen(st, path, flags) && !HasFlag(flags, O_TRUNC)
    ensures var (st', r) := OpenStep(st, path, flags);
            && Inv(st') && st'.disk == st.disk
            && Files(st'.buf) ==
                 (if Has(Files(st.buf), path) || HasFlag(flags, O_CREAT) then Touch(Files(st.buf), path)
                  else Files(st.buf))
            && (r >= 3 ==> IsOpen(st', r) && st'.fds == st.fds[r - 3 := Opened(st'.buf, path, flags)]
                           && !st.fds[r - 3].isInUse)
            && (r < 3 ==> r == -1 && st'.fds == st.fds)
  {
    if Has(Files(st.buf), path) || HasFlag(flags, O_CREAT) {
      var t := OpenImage(st.buf, path, flags);
      OpenImageKeeps(st.buf, path, flags);
      TableMove(st.buf, t, st.fds);
      var slot := FreeSlot(st.fds);
      if slot < FD_MAX_FILES {
        OpenedIsOk(t, path, flags);
        TableUpdate(t, st.fds, slot, Opened(t, path, flags));
      }
    }
  }

  /** The file an open descriptor stands for: the first one bearing its name. */
  ghost function FileOfSlot(st: State, fd_: int): (f: File)
    requires Inv(st) && IsOpen(st, fd_)
    ensures var d := st.fds[fd_ - 3];
            && f.name == d.name && |f.data| == d.size && d.rwPos <= d.size
            && Pointing(d, |st.buf|) && st.buf[d.data.value..d.data.value + d.size] == f.data
            && Lookup(Files(st.buf), d.name) == Some(f.data)
  {
    var d := st.fds[fd_ - 3];
    assert DescriptorOk(st.buf, d);
    LocatedData(st.buf, d);
    Files(st.buf)[IndexOf(Files(st.buf), d.name)]
  }

  /** How many bytes a transfer moves: what is asked for, but not past the end of the file. */
  ghost function Moved(st: State, fd_: int, count: nat): (k: nat)
    requires Inv(st) && IsOpen(st, fd_)
    ensures st.fds[fd_ - 3].rwPos + k <= st.fds[fd_ - 3].size && k <= count
  {
    var _ := FileOfSlot(st, fd_);
    Min(count, st.fds[fd_ - 3].size - st.fds[fd_ - 3].rwPos)
  }

  lemma TransferIs(st: State, fd_: int, count: nat)
    requires Inv(st) && NoWrap(st, fd_, count) && IsOpen(st, fd_)
    ensures Safe(st)
    ensures if AtEof(st.fds[fd_ - 3]) then Transfer(st, fd_, count) == None && Moved(st, fd_, count) == 0
            else Transfer(st, fd_, count) == Some(Moved(st, fd_, count))
  {
    InvIsSafe(st);
    if !AtEof(st.fds[fd_ - 3]) {
      TransferFits(st, fd_, count);
    }
  }

  /** A store into the data of entry i moves nothing. */
  lemma StoredKeepsEntries(s: seq<byte>, i: nat, pos: nat, bs: seq<byte>, t: seq<byte>)
    requires WellFormed(s) && Stored(s, i, pos, bs, t)
    ensures WellFormed(t) && SameEntries(s, t)
  {
    PatchRefines(s, i, pos, bs, t);
    SameShapeEntries(s, t);
  }

  /** The segment an open descriptor points into. */
  lemma SlotSegment(st: State, fd_: int)
    requires Inv(st) && IsOpen(st, fd_)
    ensures var d := st.fds[fd_ - 3]; var i := IndexOf(Files(st.buf), d.name);
            && d.data.Some? && i < |Segments(st.buf)| && d.data == Some(Offset(Segments(st.buf), i) + BLOCK)
            && d.size == |Files(st.buf)[i].data| && FileOfSlot(st, fd_) == Files(st.buf)[i]
            && d.data.value + d.size <= |st.buf|
  {
    assert DescriptorOk(st.buf, st.fds[fd_ - 3]);
    LocatedData(st.buf, st.fds[fd_ - 3]);
  }

  lemma WriteStepIs(st: State, fd_: int, bs: seq<byte>)
    requires Inv(st) && NoWrap(st, fd_, |bs|) && IsOpen(st, fd_)
    ensures Safe(st)
    ensures var d, k := st.fds[fd_ - 3], Moved(st, fd_, |bs|);
            && d.data.Some? && d.data.value + d.rwPos + k <= |st.buf| && (AtEof(d) ==> k == 0)
            && WriteStep(st, fd_, bs) ==
                 if AtEof(d) then (st, 0)
                 else (st.(buf := Patch(st.buf, d.data.value + d.rwPos, bs[..k]),
                           fds := st.fds[fd_ - 3 := d.(rwPos := d.rwPos + k, dirty := true)]), k)
  {
    TransferIs(st, fd_, |bs|);
    var _ := FileOfSlot(st, fd_);
  }

  /** The write, in terms of the segment. */
  lemma WriteIsStored(st: State, fd_: int, bs: seq<byte>)
    requires Inv(st) && NoWrap(st, fd_, |bs|) && IsOpen(st, fd_)
    ensures Safe(st)
    ensures var d, k := st.fds[fd_ - 3], Moved(st, fd_, |bs|);
            var i := IndexOf(Files(st.buf), d.name);
            && WriteStep(st, fd_, bs).1 == k
            && Stored(st.buf, i, d.rwPos, bs[..k], WriteStep(st, fd_, bs).0.buf)
            && FileOfSlot(st, fd_) == Files(st.buf)[i]
  {
    WriteStepIs(st, fd_, bs);
    SlotSegment(st, fd_);
    if AtEof(st.fds[fd_ - 3]) {
      var i := IndexOf(Files(st.buf), st.fds[fd_ - 3].name);
      assert Patch(st.buf, Offset(Segments(st.buf), i) + BLOCK + st.fds[fd_ - 3].rwPos, bs[..0]) == st.buf;
    }
  }

  /** Every other segment, and the header block and length of this one, is there byte for byte. */
  ghost predicate HeadersAndOthersKept(s: seq<byte>, t: seq<byte>, name: seq<byte>)
    requires WellFormed(s) && WellFormed(t)
  {
    var gs, hs, i := Segments(s), Segments(t), IndexOf(Files(s), name);
    && |hs| == |gs| && i < |gs| && |hs[i]| == |gs[i]| >= BLOCK && hs[i][..BLOCK] == gs[i][..BLOCK]
    && forall j :: 0 <= j < |gs| && j != i ==> hs[j] == gs[j]
  }

  /** write replaces bytes [rwPos, rwPos + k) of that one file and nothing else in the archive. */
  lemma WriteRefinesStore(st: State, fd_: int, bs: seq<byte>)
    requires Inv(st) && NoWrap(st, fd_, |bs|) && IsOpen(st, fd_)
    ensures Safe(st)
    ensures var f, pos, k := FileOfSlot(st, fd_), st.fds[fd_ - 3].rwPos, Moved(st, fd_, |bs|);
            var t := WriteStep(st, fd_, bs).0.buf;
            && WriteStep(st, fd_, bs).1 == k
            && WellFormed(t) && SameEntries(st.buf, t)
            && Files(t) == Store(Files(st.buf), f.name, Patch(f.data, pos, bs[..k]))
            && HeadersAndOthersKept(st.buf, t, f.name)
  {
    InvIsSafe(st);
    var d, k, t := st.fds[fd_ - 3], Moved(st, fd_, |bs|), WriteStep(st, fd_, bs).0.buf;
    var i := IndexOf(Files(st.buf), d.name);
    WriteIsStored(st, fd_, bs);
    PatchRefines(st.buf, i, d.rwPos, bs[..k], t);
    StoredKeepsEntries(st.buf, i, d.rwPos, bs[..k], t);
    HeaderKept(Segments(st.buf)[i], d.rwPos, bs[..k]);
  }

  lemma HeaderKept(g: seq<byte>, pos: nat, bs: seq<byte>)
    requires BLOCK + pos + |bs| <= |g|
    ensures Patch(g, BLOCK + pos, bs)[..BLOCK] == g[..BLOCK]
  {}

  lemma WriteKeeps(st: State, fd_: int, bs: seq<byte>)
    requires Inv(st) && NoWrap(st, fd_, |bs|)
    ensures Safe(st) && Inv(WriteStep(st, fd_, bs).0)
  {
    InvIsSafe(st);
    if IsOpen(st, fd_) {
      var d, f, k := st.fds[fd_ - 3], FileOfSlot(st, fd_), Moved(st, fd_, |bs|);
      WriteStepIs(st, fd_, bs);
      WriteRefinesStore(st, fd_, bs);
      StoreLookup(Files(st.buf), f.name, Patch(f.data, d.rwPos, bs[..k]), f.name);
      var t := WriteStep(st, fd_, bs).0.buf;
      TableMove(st.buf, t, st.fds);
      assert DescriptorOk(t, d);
      if !AtEof(d) {
        TableUpdate(t, st.fds, fd_ - 3, d.(rwPos := d.rwPos + k, dirty := true));
      }
    }
  }

  /** read returns the bytes the dictionary holds there. */
  lemma ReadIsSlice(st: State, fd_: int, count: nat)
    requires Inv(st) && NoWrap(st, fd_, count) && IsOpen(st, fd_)
    ensures Safe(st)
    ensures var f := FileOfSlot(st, fd_); var pos := st.fds[fd_ - 3].rwPos;
            var (_, k, bs) := ReadStep(st, fd_, count);
            k == Moved(st, fd_, count) && bs == f.data[pos..pos + k]
  {
    var d, f, k := st.fds[fd_ - 3], FileOfSlot(st, fd_), Moved(st, fd_, count);
    TransferIs(st, fd_, count);
    if !AtEof(d) {
      SliceOfSlice(st.buf, d.data.value, d.size, d.rwPos, k);
    }
  }

  /** read moves the position of its descriptor and nothing else. */
  lemma ReadKeeps(st: State, fd_: int, count: nat)
    requires Inv(st) && NoWrap(st, fd_, count)
    ensures Safe(st)
    ensures var st' := ReadStep(st, fd_, count).0;
            && Inv(st') && st'.buf == st.buf && st'.disk == st.disk
            && (IsOpen(st, fd_) ==>
                  var d := st.fds[fd_ - 3];
                  && st'.fds == st.fds[fd_ - 3 := d.(rwPos := d.rwPos + Moved(st, fd_, count))]
                  && FileOfSlot(st', fd_) == FileOfSlot(st, fd_))
  {
    InvIsSafe(st);
    if IsOpen(st, fd_) {
      var d, k := st.fds[fd_ - 3], Moved(st, fd_, count);
      TransferIs(st, fd_, count);
      assert DescriptorOk(st.buf, d);
      TableUpdate(st.buf, st.fds, fd_ - 3, d.(rwPos := d.rwPos + k));
      if AtEof(d) {
        assert st.fds[fd_ - 3 := d.(rwPos := d.rwPos + k)] == st.fds;
      }
    }
  }

  // ---- runs ----

  datatype Op =
    | Open(path: seq<byte>, flags: nat)
    | Read(fd_: int, count: nat)
    | Write(fd_: int, bs: seq<byte>)
    | Close(fd_: int)

  /** What the source asks of a call: room for a created entry, no 32-bit wrap; here no O_TRUNC. */
  ghost predicate CanStep(st: State, op: Op) {
    match op
    case Open(path, flags) => CanOpen(st, path, flags) && !HasFlag(flags, O_TRUNC)
    case Read(fd_, count) => NoWrap(st, fd_, count)
    case Write(fd_, bs) => NoWrap(st, fd_, |bs|)
    case Close(_) => true
  }

  ghost function Step(st: State, op: Op): State
    requires Safe(st) && CanStep(st, op)
  {
    match op
    case Open(path, flags) => OpenStep(st, path, flags).0
    case Read(fd_, count) => ReadStep(st, fd_, count).0
    case Write(fd_, bs) => WriteStep(st, fd_, bs).0
    case Close(fd_) => CloseStep(st, fd_).0
  }

  lemma StepKeeps(st: State, op: Op)
    requires Inv(st) && CanStep(st, op)
    ensures Safe(st) && Inv(Step(st, op))
  {
    InvIsSafe(st);
    match op
    case Open(path, flags) => OpenKeeps(st, path, flags);
    case Read(fd_, count) => ReadKeeps(st, fd_, count);
    case Write(fd_, bs) => WriteKeeps(st, fd_, bs);
    case Close(fd_) =>
      if IsOpen(st, fd_) {
        TableUpdate(st.buf, st.fds, fd_ - 3, CLOSED.(dirty := st.fds[fd_ - 3].dirty));
      }
  }

  /** What a caller has to see to before a call, in a good state. */
  ghost predicate Asks(st: State, op: Op)
    requires Inv(st)
  {
    match op
    case Open(path, flags) => CanMake(st.buf, path, flags) && !HasFlag(flags, O_TRUNC)
    case Read(fd_, count) => NoWrap(st, fd_, count)
    case Write(fd_, bs) => NoWrap(st, fd_, |bs|)
    case Close(_) => true
  }

  /** That is all a step needs. */
  ghost function Next(st: State, op: Op): (t: State)
    requires Inv(st) && Asks(st, op)
    ensures Safe(st) && CanStep(st, op) && t == Step(st, op) && Inv(t)
  {
    InvIsSafe(st);
    StepKeeps(st, op);
    Step(st, op)
  }

  ghost predicate CanRun(st: State, ops: seq<Op>)
    requires Inv(st)
    decreases |ops|
  {
    ops == [] || (Asks(st, ops[0]) && CanRun(Next(st, ops[0]), ops[1..]))
  }

  /** The state after a run of calls. */
  ghost function Run(st: State, ops: seq<Op>): (t: State)
    requires Inv(st) && CanRun(st, ops)
    ensures Inv(t)
    decreases |ops|
  {
    if ops == [] then st else Run(Next(st, ops[0]), ops[1..])
  }

  /** Every state of every run satisfies the descriptor invariant. */
  lemma {:induction false} RunKeeps(st: State, ops: seq<Op>, k: nat)
    requires Inv(st) && CanRun(st, ops) && k <= |ops|
    ensures CanRun(st, ops[..k]) && Inv(Run(st, ops[..k]))
    decreases k
  {
    if k > 0 {
      RunKeeps(Next(st, ops[0]), ops[1..], k - 1);
      assert ops[..k][1..] == ops[1..][..k - 1];
    }
  }
}
