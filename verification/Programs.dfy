/** loadBinary of src/binary.c from the name of the program on: the loader on a file of the archive. */
module Programs {
  import opened Archive
  import opened Bytes
  import opened Dictionary
  import opened Loader
  import Ustar

  /** A file of an archive that lies in memory: its bytes, and room behind them for an ELF header. */
  lemma FileInMemory(m: seq<byte>, tarAt: nat, s: seq<byte>, name: seq<byte>, data: nat, size: nat, base: nat)
    requires tarAt + |s| <= |m| && m[tarAt..tarAt + |s|] == s && WellFormed(s) && Has(Files(s), name)
    requires data >= BLOCK && FindOffset(s, name) == Some(data - BLOCK) && base == tarAt + data
    requires data + size <= |s| && s[data..data + size] == Contents(s, name)
    ensures base == Address(s, tarAt, name) && base + EHDR_SIZE <= |m| && base + size <= |m|
    ensures m[base..base + size] == Contents(s, name)
  {
    RoomBehind(s, IndexOf(Files(s), name));
    SliceAt(m, tarAt, |s|, data, data + size, base, base + size);
  }

  /** Behind every header there is at least a block. */
  lemma RoomBehind(s: seq<byte>, i: nat)
    requires WellFormed(s) && i < |Archive.Segments(s)|
    ensures Offset(Archive.Segments(s), i) + 2 * 512 <= |s|
  {
    Unseal(s);
    At(Archive.Segments(s), i, |s|);
  }

  /** What loading the file f at base does to memory: nothing, or its image when it is accepted. */
  ghost predicate Entered(before: seq<byte>, after: seq<byte>, base: nat, f: seq<byte>, r: int, entry: nat) {
    && base + EHDR_SIZE <= |before|
    && r == (if Accepted(before[base..base + EHDR_SIZE], |f|) then 1 else 0)
    && (r == 0 ==> after == before)
    && (r == 1 ==> Loadable(f, base, |before|) && entry == U32(f, 24)
                   && IsImage(after, before, f, Loader.Segments(f)) && AllLoaded(after, f, Loader.Segments(f)))
  }

  /** The source asks of a program that it is loadable, once it is accepted. */
  ghost predicate CanEnter(m: seq<byte>, base: nat, f: seq<byte>) {
    base + EHDR_SIZE <= |m| && Accepted(m[base..base + EHDR_SIZE], |f|) ==> Loadable(f, base, |m|)
  }

  method LoadAt(mem: array<byte>, base: nat, size: int, ghost f: seq<byte>) returns (r: int, entry: nat)
    requires size == |f| && base + size <= mem.Length && mem[base..base + size] == f
    requires base + EHDR_SIZE <= mem.Length && CanEnter(mem[..], base, f)
    modifies mem
    ensures Entered(old(mem[..]), mem[..], base, f, r, entry)
  {
    ghost var m := mem[..];
    assert mem[base..base + EHDR_SIZE] == m[base..base + EHDR_SIZE];
    r, entry := LoadBinary(mem, base, size);
  }

  /** The address and the bytes of a file of the archive s that lies at tarAt. */
  ghost function Address(s: seq<byte>, tarAt: nat, name: seq<byte>): nat
    requires WellFormed(s) && Has(Files(s), name)
  {
    tarAt + (FindOffset(s, name).value + BLOCK)
  }

  ghost function Contents(s: seq<byte>, name: seq<byte>): seq<byte>
    requires WellFormed(s) && Has(Files(s), name)
  {
    Lookup(Files(s), name).value
  }

  /** What becomes of the program of that name in the archive s at tarAt. */
  ghost predicate Outcome(s: seq<byte>, tarAt: nat, name: seq<byte>,
                          before: seq<byte>, after: seq<byte>, r: int, entry: nat)
    requires WellFormed(s)
  {
    if Has(Files(s), name) then Entered(before, after, Address(s, tarAt, name), Contents(s, name), r, entry)
    else r == 0 && after == before
  }

  /**
   The archive tar lies at tarAt in memory. A program is entered if and only if there is a file of
   that name that is accepted, and then memory holds the image of that file's contents.
   */
  method LoadProgram(mem: array<byte>, tar: Ustar.Tar, tarAt: nat, name: seq<byte>) returns (r: int, entry: nat)
    requires tar.Valid() && mem != tar.buf && tarAt + tar.buf.Length <= mem.Length
    requires mem[tarAt..tarAt + tar.buf.Length] == tar.buf[..]
    requires Has(Files(tar.buf[..]), name) ==>
               CanEnter(mem[..], Address(tar.buf[..], tarAt, name), Contents(tar.buf[..], name))
    modifies mem
    ensures Outcome(tar.buf[..], tarAt, name, old(mem[..]), mem[..], r, entry)
  {
    var size, data := tar.TarRead(name);
    if size < 0 {
      return 0, 0;
    }
    ghost var s, m := tar.buf[..], mem[..];
    var base := tarAt + data;
    assert s[data..data + size] == Contents(s, name);
    FileInMemory(m, tarAt, s, name, data, size, base);
    assert mem[base..base + size] == m[base..base + size];
    r, entry := LoadAt(mem, base, size, Contents(s, name));
  }
}
