/**
 The program loader of src/binary.c over a flat memory that holds both the file and its targets.
 Format: System V ABI, chapter 4 "ELF Header" and chapter 5 "Program Header", 32-bit little-endian.
 */
module Loader {
  import opened Bytes

  const EHDR_SIZE: nat := 52
  const PHDR_SIZE: nat := 32
  const PT_LOAD: nat := 1
  const ET_EXEC: nat := 2
  const EM_386: nat := 3

  function U16(f: seq<byte>, at: nat): nat
    requires at + 2 <= |f|
  {
    f[at] as int + 256 * f[at + 1] as int
  }

  function U32(f: seq<byte>, at: nat): nat
    requires at + 4 <= |f|
  {
    U16(f, at) + 0x1_0000 * U16(f, at + 2)
  }

  /** One program header, as far as the loader reads it. */
  datatype Segment = Segment(kind: nat, offset: nat, vaddr: nat, filesz: nat, memsz: nat)

  /** Where program header i is in the file f. */
  function HeaderAt(f: seq<byte>, i: nat): nat
    requires |f| >= EHDR_SIZE
  {
    U32(f, 28) + i * U16(f, 42)
  }

  function Count(f: seq<byte>): nat
    requires |f| >= EHDR_SIZE
  {
    U16(f, 44)
  }

  /** The header table lies inside the file. */
  predicate TableFits(f: seq<byte>)
    requires |f| >= EHDR_SIZE
  {
    forall i :: 0 <= i < Count(f) ==> HeaderAt(f, i) + PHDR_SIZE <= |f|
  }

  function SegmentAt(f: seq<byte>, at: nat): Segment
    requires at + PHDR_SIZE <= |f|
  {
    Segment(U32(f, at), U32(f, at + 4), U32(f, at + 8), U32(f, at + 16), U32(f, at + 20))
  }

  /** The program headers of the file, in order. */
  function Segments(f: seq<byte>): (ps: seq<Segment>)
    requires |f| >= EHDR_SIZE && TableFits(f)
    ensures |ps| == Count(f) && forall i :: 0 <= i < |ps| ==> ps[i] == SegmentAt(f, HeaderAt(f, i))
  {
    seq(Count(f), i requires 0 <= i < Count(f) => SegmentAt(f, HeaderAt(f, i)))
  }

  /** The three checks made before any store; block is what lies at the file's address. */
  predicate Accepted(block: seq<byte>, size: int)
    requires |block| >= EHDR_SIZE
  {
    && U16(block, 18) == EM_386 && U16(block, 16) == ET_EXEC
    && size >= EHDR_SIZE && block[..5] == [0x7F, 69, 76, 70, 1]
  }

  predicate Covers(p: Segment, a: int) {
    p.kind == PT_LOAD && p.vaddr <= a < p.vaddr + p.memsz
  }

  predicate InFile(p: Segment, size: nat) {
    p.kind == PT_LOAD ==> p.filesz <= p.memsz && p.offset + p.filesz <= size
  }

  /** The target is in memory and apart from the file. */
  predicate TargetOk(p: Segment, base: nat, size: nat, len: nat) {
    p.kind == PT_LOAD ==>
      p.vaddr + p.memsz <= len && (p.vaddr + p.memsz <= base || base + size <= p.vaddr)
  }

  /** A loadable file at base, in a memory of len bytes. */
  ghost predicate Loadable(f: seq<byte>, base: nat, len: nat) {
    && |f| >= EHDR_SIZE && TableFits(f)
    && forall i :: 0 <= i < Count(f) ==>
         InFile(Segments(f)[i], |f|) && TargetOk(Segments(f)[i], base, |f|, len)
  }

  /** What a segment puts at an address it covers: a byte of the file, or zero behind those. */
  function SegmentByte(f: seq<byte>, p: Segment, a: int): byte
    requires InFile(p, |f|) && Covers(p, a)
  {
    if a < p.vaddr + p.filesz then f[p.offset + (a - p.vaddr)] else NUL
  }

  /** The last segment of the list that covers an address, or -1. */
  ghost function LastCovering(ps: seq<Segment>, a: int): (j: int)
    ensures -1 <= j < |ps|
    ensures j >= 0 ==> Covers(ps[j], a)
    ensures forall k :: 0 <= k < |ps| && k > j ==> !Covers(ps[k], a)
  {
    if ps == [] then -1
    else if Covers(ps[|ps| - 1], a) then |ps| - 1
    else LastCovering(ps[..|ps| - 1], a)
  }

  /** The image the ABI asks for, byte by byte. */
  ghost function ImageByte(before: seq<byte>, f: seq<byte>, ps: seq<Segment>, a: nat): byte
    requires a < |before| && forall k :: 0 <= k < |ps| ==> InFile(ps[k], |f|)
  {
    var j := LastCovering(ps, a);
    if j < 0 then before[a] else SegmentByte(f, ps[j], a)
  }

  lemma ImageStep(before: seq<byte>, f: seq<byte>, ps: seq<Segment>, i: nat, a: nat)
    requires a < |before| && i < |ps| && forall k :: 0 <= k < |ps| ==> InFile(ps[k], |f|)
    ensures ImageByte(before, f, ps[..i + 1], a) ==
            if Covers(ps[i], a) then SegmentByte(f, ps[i], a) else ImageByte(before, f, ps[..i], a)
  {
    assert ps[..i + 1][..i] == ps[..i];
  }

  /** Segments that overlap nowhere: the order of the headers does not matter. */
  lemma DisjointSegments(before: seq<byte>, f: seq<byte>, ps: seq<Segment>, k: nat, a: nat)
    requires a < |before| && forall j :: 0 <= j < |ps| ==> InFile(ps[j], |f|)
    requires k < |ps| && Covers(ps[k], a)
    requires forall j :: 0 <= j < |ps| && j != k ==> !Covers(ps[j], a)
    ensures ImageByte(before, f, ps, a) == SegmentByte(f, ps[k], a)
  {
    var j := LastCovering(ps, a);
    assert j >= k && Covers(ps[j], a);
  }

  /** Memory holds a segment: its bytes of the file, then zeros. */
  ghost predicate HoldsSegment(m: seq<byte>, f: seq<byte>, p: Segment) {
    && p.filesz <= p.memsz && p.vaddr + p.memsz <= |m| && p.offset + p.filesz <= |f|
    && m[p.vaddr..p.vaddr + p.filesz] == f[p.offset..p.offset + p.filesz]
    && m[p.vaddr + p.filesz..p.vaddr + p.memsz] == Zeros(p.memsz - p.filesz)
  }

  /** No later segment covers an address of segment k. */
  ghost predicate LastWord(ps: seq<Segment>, k: nat)
    requires k < |ps|
  {
    forall j, a :: k < j < |ps| && Covers(ps[j], a) ==> !Covers(ps[k], a)
  }

  lemma LastWordByte(m: seq<byte>, before: seq<byte>, f: seq<byte>, ps: seq<Segment>, k: nat, a: nat)
    requires IsImage(m, before, f, ps) && k < |ps| && LastWord(ps, k) && Covers(ps[k], a) && a < |m|
    ensures m[a] == if a < ps[k].vaddr + ps[k].filesz then f[ps[k].offset + (a - ps[k].vaddr)] else NUL
  {
    assert LastCovering(ps, a) == k;
  }

  /** A loaded segment that no later one overlaps is in memory: the file's bytes, then zeros. */
  lemma SegmentIsLoaded(m: seq<byte>, before: seq<byte>, f: seq<byte>, ps: seq<Segment>, k: nat)
    requires IsImage(m, before, f, ps) && k < |ps| && ps[k].kind == PT_LOAD && LastWord(ps, k)
    requires ps[k].vaddr + ps[k].memsz <= |m|
    ensures HoldsSegment(m, f, ps[k])
  {
    var p := ps[k];
    forall a: nat | Covers(p, a)
      ensures m[a] == if a < p.vaddr + p.filesz then f[p.offset + (a - p.vaddr)] else NUL
    {
      LastWordByte(m, before, f, ps, k, a);
    }
    PlacedIsHeld(m, f, p);
  }

  lemma PlacedIsHeld(m: seq<byte>, f: seq<byte>, p: Segment)
    requires p.kind == PT_LOAD && InFile(p, |f|) && p.vaddr + p.memsz <= |m|
    requires forall a: nat :: Covers(p, a) ==>
               m[a] == if a < p.vaddr + p.filesz then f[p.offset + (a - p.vaddr)] else NUL
    ensures HoldsSegment(m, f, p)
  {
    var bytes, zeros := m[p.vaddr..p.vaddr + p.filesz], m[p.vaddr + p.filesz..p.vaddr + p.memsz];
    forall i | 0 <= i < p.filesz ensures bytes[i] == f[p.offset..p.offset + p.filesz][i] {
      assert Covers(p, p.vaddr + i);
    }
    forall i | 0 <= i < p.memsz - p.filesz ensures zeros[i] == NUL {
      assert Covers(p, p.vaddr + p.filesz + i);
    }
  }

  /** An address that no segment covers keeps its byte. */
  lemma UncoveredIsKept(m: seq<byte>, before: seq<byte>, f: seq<byte>, ps: seq<Segment>, a: nat)
    requires IsImage(m, before, f, ps) && a < |m| && forall k :: 0 <= k < |ps| ==> !Covers(ps[k], a)
    ensures m[a] == before[a]
  {
    assert LastCovering(ps, a) == -1;
  }

  /** Every segment that has the last word is in memory. */
  ghost predicate AllLoaded(m: seq<byte>, f: seq<byte>, ps: seq<Segment>) {
    forall k {:trigger ps[k]} :: 0 <= k < |ps| && ps[k].kind == PT_LOAD && LastWord(ps, k) ==> HoldsSegment(m, f, ps[k])
  }

  lemma ImageIsLoaded(m: seq<byte>, before: seq<byte>, f: seq<byte>, base: nat)
    requires Loadable(f, base, |m|) && IsImage(m, before, f, Segments(f))
    ensures AllLoaded(m, f, Segments(f))
  {
    var ps := Segments(f);
    forall k | 0 <= k < |ps| && ps[k].kind == PT_LOAD && LastWord(ps, k) ensures HoldsSegment(m, f, ps[k]) {
      assert TargetOk(ps[k], base, |f|, |m|);
      SegmentIsLoaded(m, before, f, ps, k);
    }
  }

  method ReadU16(mem: array<byte>, at: nat) returns (x: nat)
    requires at + 2 <= mem.Length
    ensures x == U16(mem[..], at)
  {
    x := mem[at] as int + 256 * mem[at + 1] as int;
  }

  method ReadU32(mem: array<byte>, at: nat) returns (x: nat)
    requires at + 4 <= mem.Length
    ensures x == U32(mem[..], at)
  {
    var lo := ReadU16(mem, at);
    var hi := ReadU16(mem, at + 2);
    x := lo + 0x1_0000 * hi;
  }

  /** A field of the file at base, read through memory. */
  lemma FieldsOfFile(m: seq<byte>, base: nat, f: seq<byte>, at: nat)
    requires base + |f| <= |m| && m[base..base + |f|] == f
    ensures at + 2 <= |f| ==> U16(m, base + at) == U16(f, at)
    ensures at + 4 <= |f| ==> U32(m, base + at) == U32(f, at)
  {
    assert forall k :: 0 <= k < |f| ==> f[k] == m[base + k];
  }

  method ReadSegment(mem: array<byte>, at: nat) returns (p: Segment)
    requires at + PHDR_SIZE <= mem.Length
    ensures p == SegmentAt(mem[..], at)
  {
    var kind := ReadU32(mem, at);
    var offset := ReadU32(mem, at + 4);
    var vaddr := ReadU32(mem, at + 8);
    var filesz := ReadU32(mem, at + 16);
    var memsz := ReadU32(mem, at + 20);
    p := Segment(kind, offset, vaddr, filesz, memsz);
  }

  /** memcpy and memset of one PT_LOAD segment. */
  method LoadSegment(mem: array<byte>, base: nat, p: Segment, ghost f: seq<byte>)
    requires base + |f| <= mem.Length && mem[base..base + |f|] == f
    requires p.kind == PT_LOAD && InFile(p, |f|) && TargetOk(p, base, |f|, mem.Length)
    modifies mem
    ensures mem[base..base + |f|] == f
    ensures forall a :: 0 <= a < mem.Length ==>
              mem[a] == if Covers(p, a) then SegmentByte(f, p, a) else old(mem[a])
    ensures HoldsSegment(mem[..], f, p)
  {
    assert forall k :: 0 <= k < |f| ==> f[k] == mem[base + k];
    for n := 0 to p.filesz
      invariant forall a :: 0 <= a < mem.Length ==>
                  mem[a] == if p.vaddr <= a < p.vaddr + n then SegmentByte(f, p, a) else old(mem[a])
    {
      mem[p.vaddr + n] := mem[base + p.offset + n];
    }
    var bssSize := p.memsz - p.filesz;
    for n := 0 to bssSize
      invariant forall a :: 0 <= a < mem.Length ==>
                  mem[a] == if p.vaddr <= a < p.vaddr + p.filesz + n then SegmentByte(f, p, a) else old(mem[a])
    {
      mem[p.vaddr + p.filesz + n] := NUL;
    }
    PlacedIsHeld(mem[..], f, p);
  }

  /** The loop over the program headers, each read from memory when its turn comes. */
  method LoadSegments(mem: array<byte>, base: nat, ghost f: seq<byte>)
    requires base + |f| <= mem.Length && mem[base..base + |f|] == f && Loadable(f, base, mem.Length)
    modifies mem
    ensures mem[base..base + |f|] == f
    ensures forall a :: 0 <= a < mem.Length ==> mem[a] == ImageByte(old(mem[..]), f, Segments(f), a)
  {
    ghost var before, ps := mem[..], Segments(f);
    FieldsOfFile(mem[..], base, f, 44);
    var count := ReadU16(mem, base + 44);
    var i := 0;
    while i < count
      invariant 0 <= i <= count == |ps| && mem[base..base + |f|] == f
      invariant IsImage(mem[..], before, f, ps[..i])
    {
      var p := ReadHeader(mem, base, i, f);
      if p.kind == PT_LOAD {
        LoadNext(mem, base, p, f, before, ps, i);
      } else {
        ImageSkips(mem[..], before, f, ps, i);
      }
      i := i + 1;
      count := ReadU16(mem, base + 44);
      FieldsOfFile(mem[..], base, f, 44);
    }
    assert ps[..i] == ps;
  }

  /** m is the memory after loading these segments, byte by byte. */
  ghost predicate IsImage(m: seq<byte>, before: seq<byte>, f: seq<byte>, ps: seq<Segment>) {
    && |m| == |before| && (forall k :: 0 <= k < |ps| ==> InFile(ps[k], |f|))
    && forall a :: 0 <= a < |m| ==> m[a] == ImageByte(before, f, ps, a)
  }

  lemma ImageSkips(m: seq<byte>, before: seq<byte>, f: seq<byte>, ps: seq<Segment>, i: nat)
    requires i < |ps| && ps[i].kind != PT_LOAD && (forall k :: 0 <= k < |ps| ==> InFile(ps[k], |f|))
    requires IsImage(m, before, f, ps[..i])
    ensures IsImage(m, before, f, ps[..i + 1])
  {
    forall a | 0 <= a < |m| ensures m[a] == ImageByte(before, f, ps[..i + 1], a) {
      ImageStep(before, f, ps, i, a);
    }
  }

  /** One more segment on the image of those before it. */
  method LoadNext(mem: array<byte>, base: nat, p: Segment, ghost f: seq<byte>, ghost before: seq<byte>,
                  ghost ps: seq<Segment>, ghost i: nat)
    requires base + |f| <= mem.Length && mem[base..base + |f|] == f
    requires p.kind == PT_LOAD && TargetOk(p, base, |f|, mem.Length)
    requires i < |ps| && p == ps[i] && (forall k :: 0 <= k < |ps| ==> InFile(ps[k], |f|))
    requires IsImage(mem[..], before, f, ps[..i])
    modifies mem
    ensures mem[base..base + |f|] == f && IsImage(mem[..], before, f, ps[..i + 1])
  {
    ghost var m := mem[..];
    LoadSegment(mem, base, p, f);
    forall a | 0 <= a < mem.Length ensures mem[a] == ImageByte(before, f, ps[..i + 1], a) {
      ImageStep(before, f, ps, i, a);
      assert m[a] == ImageByte(before, f, ps[..i], a);
    }
  }

  method ReadHeader(mem: array<byte>, base: nat, i: nat, ghost f: seq<byte>) returns (p: Segment)
    requires base + |f| <= mem.Length && mem[base..base + |f|] == f
    requires |f| >= EHDR_SIZE && TableFits(f) && i < Count(f)
    ensures p == Segments(f)[i]
  {
    ghost var m := mem[..];
    FieldsOfFile(m, base, f, 28);
    FieldsOfFile(m, base, f, 42);
    var phoff := ReadU32(mem, base + 28);
    var phentsize := ReadU16(mem, base + 42);
    ghost var at := HeaderAt(f, i);
    FieldsOfFile(m, base, f, at);
    FieldsOfFile(m, base, f, at + 4);
    FieldsOfFile(m, base, f, at + 8);
    FieldsOfFile(m, base, f, at + 16);
    FieldsOfFile(m, base, f, at + 20);
    assert base + at == base + phoff + i * phentsize;
    p := ReadSegment(mem, base + phoff + i * phentsize);
  }

  /** The five bytes of e_ident the loader looks at. */
  method IsElf(mem: array<byte>, base: nat, size: nat) returns (isElf: bool)
    requires base + EHDR_SIZE <= mem.Length
    ensures isElf <==> size >= EHDR_SIZE && mem[base..base + EHDR_SIZE][..5] == [0x7F, 69, 76, 70, 1]
  {
    isElf := false;
    assert mem[base..base + EHDR_SIZE][..5] == [mem[base], mem[base + 1], mem[base + 2], mem[base + 3], mem[base + 4]];
    if size >= EHDR_SIZE && mem[base] == 0x7F && mem[base + 1] == 69 && mem[base + 2] == 76
       && mem[base + 3] == 70 && mem[base + 4] == 1
    {
      isElf := true;
    }
  }

  /**
   r tells whether the program was entered, and entry where. A rejected file leaves memory alone;
   an accepted one leaves the image of all its segments.
   */
  method LoadBinary(mem: array<byte>, base: nat, size: int) returns (r: int, entry: nat)
    requires size >= 0 ==> base + EHDR_SIZE <= mem.Length
    requires size >= 0 && Accepted(mem[base..base + EHDR_SIZE], size) ==>
               base + size <= mem.Length && Loadable(mem[base..base + size], base, mem.Length)
    modifies mem
    ensures r == if size >= 0 && Accepted(old(mem[base..base + EHDR_SIZE]), size) then 1 else 0
    ensures r == 0 ==> mem[..] == old(mem[..])
    ensures r == 1 ==> base + size <= mem.Length && Loadable(old(mem[base..base + size]), base, mem.Length)
    ensures r == 1 ==> var f := old(mem[base..base + size]);
              && mem[base..base + size] == f && entry == U32(f, 24)
              && (forall a :: 0 <= a < mem.Length ==> mem[a] == ImageByte(old(mem[..]), f, Segments(f), a))
              && AllLoaded(mem[..], f, Segments(f))
  {
    if size < 0 {
      return 0, 0;
    }
    ghost var block := mem[base..base + EHDR_SIZE];
    var isElf := IsElf(mem, base, size);
    FieldsOfFile(mem[..], base, block, 18);
    FieldsOfFile(mem[..], base, block, 16);
    var machine := ReadU16(mem, base + 18);
    if machine != EM_386 {
      return 0, 0;
    }
    var kind := ReadU16(mem, base + 16);
    if kind != ET_EXEC {
      return 0, 0;
    }
    if !isElf {
      return 0, 0;
    }
    ghost var f := mem[base..base + size];
    ghost var before := mem[..];
    LoadSegments(mem, base, f);
    ImageIsLoaded(mem[..], before, f, base);
    FieldsOfFile(mem[..], base, f, 24);
    entry := ReadU32(mem, base + 24);
    r := 1;
  }
}
