/** Reading a file in pieces equals reading it whole. */
module ReadPieces {
  import opened Bytes
  import opened Dictionary
  import opened Archive
  import opened Descriptors
  import opened DescriptorRuns

  ghost predicate CanReadAll(st: State, fd_: int, counts: seq<nat>)
    decreases |counts|
  {
    counts == [] || (Safe(st) && NoWrap(st, fd_, counts[0])
                     && CanReadAll(ReadStep(st, fd_, counts[0]).0, fd_, counts[1..]))
  }

  ghost function ReadAll(st: State, fd_: int, counts: seq<nat>): seq<byte>
    requires CanReadAll(st, fd_, counts)
    decreases |counts|
  {
    if counts == [] then []
    else
      var (st', _, bs) := ReadStep(st, fd_, counts[0]);
      bs + ReadAll(st', fd_, counts[1..])
  }

  function Sum(counts: seq<nat>): nat {
    if counts == [] then 0 else counts[0] + Sum(counts[1..])
  }

  /** The descriptor is at position pos of a file with this data. */
  ghost predicate Reading(st: State, fd_: int, data: seq<byte>, pos: nat) {
    Inv(st) && IsOpen(st, fd_) && data == FileOfSlot(st, fd_).data && pos == st.fds[fd_ - 3].rwPos <= |data|
  }

  lemma OpenIsReading(st: State, fd_: int)
    requires Inv(st) && IsOpen(st, fd_)
    ensures Reading(st, fd_, FileOfSlot(st, fd_).data, st.fds[fd_ - 3].rwPos)
  {
    var _ := FileOfSlot(st, fd_);
  }

  lemma ReadAllCons(st: State, fd_: int, counts: seq<nat>, data: seq<byte>, pos: nat) returns (st': State, k: nat)
    requires Reading(st, fd_, data, pos) && CanReadAll(st, fd_, counts) && counts != []
    ensures k == Min(counts[0], |data| - pos) && Reading(st', fd_, data, pos + k)
    ensures CanReadAll(st', fd_, counts[1..])
    ensures ReadAll(st, fd_, counts) == data[pos..pos + k] + ReadAll(st', fd_, counts[1..])
  {
    ReadIsSlice(st, fd_, counts[0]);
    ReadKeeps(st, fd_, counts[0]);
    st', k := ReadStep(st, fd_, counts[0]).0, Moved(st, fd_, counts[0]);
  }

  /** Reading in pieces equals reading whole: the pieces join to one slice of the file. */
  lemma {:induction false} PiecesAreWhole(st: State, fd_: int, counts: seq<nat>, data: seq<byte>, pos: nat, end: nat)
    requires Reading(st, fd_, data, pos) && CanReadAll(st, fd_, counts) && end == Min(pos + Sum(counts), |data|)
    ensures ReadAll(st, fd_, counts) == data[pos..end]
    decreases |counts|
  {
    if counts != [] {
      var st', k := ReadAllCons(st, fd_, counts, data, pos);
      PiecesAreWhole(st', fd_, counts[1..], data, pos + k, end);
      Join(data, pos, pos + k, end);
    }
  }

  lemma Join(data: seq<byte>, from: nat, mid: nat, to: nat)
    requires from <= mid <= to <= |data|
    ensures data[from..mid] + data[mid..to] == data[from..to]
  {}

  /** A descriptor just opened stands at the start of the dictionary's entry. */
  lemma OpenedIsReading(st: State, path: seq<byte>, flags: nat, st1: State, r: int)
    requires Inv(st) && CanOpen(st, path, flags) && !HasFlag(flags, O_TRUNC)
    requires (st1, r) == OpenStep(st, path, flags) && r >= 3
    ensures WellFormed(st1.buf) && Has(Files(st1.buf), path)
    ensures Reading(st1, r, Lookup(Files(st1.buf), path).value, 0)
  {
    OpenKeeps(st, path, flags);
    OpenIsReading(st1, r);
  }

  /** From a fresh open on, any reads give the head of the dictionary's entry. */
  lemma OpenedPiecesAreWhole(st: State, path: seq<byte>, flags: nat, st1: State, r: int, counts: seq<nat>)
    requires Inv(st) && CanOpen(st, path, flags) && !HasFlag(flags, O_TRUNC)
    requires (st1, r) == OpenStep(st, path, flags) && r >= 3 && CanReadAll(st1, r, counts)
    ensures WellFormed(st1.buf) && Has(Files(st1.buf), path)
    ensures var data := Lookup(Files(st1.buf), path).value;
            ReadAll(st1, r, counts) == data[..Min(Sum(counts), |data|)]
  {
    OpenedIsReading(st, path, flags, st1, r);
    var data := Lookup(Files(st1.buf), path).value;
    PiecesAreWhole(st1, r, counts, data, 0, Min(Sum(counts), |data|));
  }
}
