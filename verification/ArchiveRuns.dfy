/** Every run of archive operations on the bytes is the same run on the ordered dictionary. */
module ArchiveRuns {
  import opened Bytes
  import opened Dictionary
  import opened Archive

  datatype Op =
    | OpRm(name: seq<byte>)
    | OpTouch(name: seq<byte>)
    | OpEdit(name: seq<byte>, data: seq<byte>)
    | OpRead(name: seq<byte>)

  datatype Reply = Status(code: nat) | Contents(data: Option<seq<byte>>)

  /** The archive bytes a list of files takes. */
  function Used(fs: seq<File>): nat {
    if fs == [] then 0
    else (Blocks(|fs[0].data|) + 1) * 512 + Used(fs[1..])
  }

  lemma {:induction false} FlatIsUsed(gs: seq<seq<byte>>)
    requires AllSegments(gs)
    ensures |Flat(gs)| == Used(FilesOf(gs))
  {
    if gs != [] {
      FlatIsUsed(gs[1..]);
      FileIs(gs[0]);
      assert FilesOf(gs)[1..] == FilesOf(gs[1..]);
    }
  }

  /** Space is conserved: the chain ends where the sizes of the files say. */
  lemma ChainEndIsUsed(s: seq<byte>)
    requires WellFormed(s)
    ensures ChainEnd(s) == Used(Files(s))
  {
    Unseal(s);
    FlatIsUsed(Segments(s));
  }

  /** A full archive: "A" holds 1022 blocks of zeros, and one block is left. */
  ghost function FullArchive(): (t: seq<byte>)
    ensures |t| == SOURCE_SIZE && WellFormed(t) && Files(t) == [File([65], Zeros(1022 * 512))]
  {
    var z, data := Zeros(SOURCE_SIZE), Zeros(1022 * 512);
    EmptyArchive(z);
    OneFile(z);
    var s := TouchImage(z, [65]);
    FillIt(s, data);
    StoreTail(s, 0, data)
  }

  lemma FillIt(s: seq<byte>, data: seq<byte>)
    requires |s| == SOURCE_SIZE && |data| == 1022 * 512
    requires WellFormed(s) && Segments(s) == [NewHeader([65])] && Files(s) == [File([65], [])]
    ensures WellFormed(StoreTail(s, 0, data)) && Files(StoreTail(s, 0, data)) == [File([65], data)]
  {
    var h := NewHeader([65]);
    Unseal(s);
    FileIs(h);
    assert [] + [h] == [h] && Files(s)[0] == FileOf(h);
    StoreTailRefines(s, [], h, data);
    assert FilesOf([]) + [File([65], data)] == [File([65], data)];
  }

  /** On the full archive, touching "B" uses the last zero block up, and the archive is not good any more. */
  lemma TouchBreaksFull()
    ensures var t := FullArchive(); CanName(t, [66]) && !WellFormed(TouchImage(t, [66]))
  {
    var t := FullArchive();
    ChainEndIsUsed(t);
    assert Used(Files(t)[1..]) == 0 && Blocks(1022 * 512) == 1022;
    assert Files(t)[0].name == [65];
    assert [65][0] != [66][0];
    TouchKeepsIff(t, [66]);
  }

  /** What tarRead exposes: the data behind the header tarFind stops at. */
  ghost function ReadBytes(s: seq<byte>, name: seq<byte>): Option<seq<byte>>
    requires WellFormed(s)
  {
    match FindOffset(s, name)
    case None => None
    case Some(o) =>
      Unseal(s);
      At(Segments(s), IndexOf(Files(s), name), |s|);
      Some(s[o + BLOCK..o + BLOCK + FileSize(s[o..])])
  }

  lemma ReadIsLookup(s: seq<byte>, name: seq<byte>)
    requires WellFormed(s)
    ensures ReadBytes(s, name) == Lookup(Files(s), name)
  {
    var gs, i := Segments(s), IndexOf(Files(s), name);
    if i < |gs| {
      Unseal(s);
      DataOf(gs, i, |s|);
    }
  }

  /** Room for an operation, in terms of the dictionary alone. */
  predicate CanStep(size: nat, fs: seq<File>, op: Op) {
    op.OpTouch? ==>
      Has(fs, op.name) || (|op.name| < 100 && NUL !in op.name && Used(fs) + 2 * 512 <= size)
  }

  function DictStep(fs: seq<File>, op: Op): (seq<File>, Reply) {
    match op
    case OpRm(name) => (Remove(fs, name), Status(if Has(fs, name) then 1 else 0))
    case OpTouch(name) => (Touch(fs, name), Status(if Has(fs, name) then 0 else 1))
    case OpEdit(name, _) => (if Has(fs, name) then Touch(Remove(fs, name), name) else fs, Status(1))
    case OpRead(name) => (fs, Contents(Lookup(fs, name)))
  }

  ghost function ByteStep(s: seq<byte>, op: Op): (seq<byte>, Reply)
    requires WellFormed(s) && Unique(Files(s)) && CanStep(|s|, Files(s), op)
  {
    ChainEndIsUsed(s);
    match op
    case OpRm(name) => (RmImage(s, name), Status(if FindOffset(s, name).Some? then 1 else 0))
    case OpTouch(name) => (TouchImage(s, name), Status(if FindOffset(s, name).Some? then 0 else 1))
    case OpEdit(name, data) =>
      if Has(Files(s), name) then EditRefines(s, name, data); (EditImage(s, name, data), Status(1))
      else (s, Status(1))
    case OpRead(name) => (s, Contents(ReadBytes(s, name)))
  }

  lemma StepRefines(s: seq<byte>, op: Op)
    requires WellFormed(s) && Unique(Files(s)) && CanStep(|s|, Files(s), op)
    ensures var (t, r) := ByteStep(s, op); var (fs, q) := DictStep(Files(s), op);
            |t| == |s| && WellFormed(t) && Files(t) == fs && Unique(fs) && r == q
  {
    match op
    case OpRm(name) =>
      RmRefines(s, name);
      RemoveLookup(Files(s), name, name);
    case OpTouch(name) =>
      ChainEndIsUsed(s);
      TouchRefines(s, name);
      TouchLookup(Files(s), name, name);
    case OpEdit(name, data) =>
      if Has(Files(s), name) {
        EditRefines(s, name, data);
        RemoveLookup(Files(s), name, name);
      }
    case OpRead(name) =>
      ReadIsLookup(s, name);
  }

  predicate CanRun(size: nat, fs: seq<File>, ops: seq<Op>)
    decreases |ops|
  {
    ops == [] || (CanStep(size, fs, ops[0]) && CanRun(size, DictStep(fs, ops[0]).0, ops[1..]))
  }

  function DictRun(fs: seq<File>, ops: seq<Op>): (seq<File>, seq<Reply>)
    decreases |ops|
  {
    if ops == [] then (fs, [])
    else
      var (fs1, q) := DictStep(fs, ops[0]);
      var (fs2, qs) := DictRun(fs1, ops[1..]);
      (fs2, [q] + qs)
  }

  ghost function ByteRun(s: seq<byte>, ops: seq<Op>): (seq<byte>, seq<Reply>)
    requires WellFormed(s) && Unique(Files(s)) && CanRun(|s|, Files(s), ops)
    decreases |ops|
  {
    if ops == [] then (s, [])
    else
      StepRefines(s, ops[0]);
      var (s1, r) := ByteStep(s, ops[0]);
      var (s2, rs) := ByteRun(s1, ops[1..]);
      (s2, [r] + rs)
  }

  /**
   Safety over whole runs: from a good archive of unique names, every feasible run keeps the full
   invariant, and ends with the files and the answers of the ordered dictionary.
   */
  lemma {:induction false} RunRefines(s: seq<byte>, ops: seq<Op>)
    requires WellFormed(s) && Unique(Files(s)) && CanRun(|s|, Files(s), ops)
    ensures var (t, rs) := ByteRun(s, ops); var (fs, qs) := DictRun(Files(s), ops);
            |t| == |s| && WellFormed(t) && Chained(t) && Unique(fs) && Files(t) == fs && rs == qs
    decreases |ops|
  {
    if ops == [] {
      WalkMeetsSegments(s);
    } else {
      StepRefines(s, ops[0]);
      RunRefines(ByteStep(s, ops[0]).0, ops[1..]);
    }
  }
}
