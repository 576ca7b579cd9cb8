/**
 The layout the loader relies on, from the tables of System V ABI, chapters 4 and 5: every field in
 order with its width. Reading at the loader's offsets gives the fields back.
 */
module ElfLayout {
  import opened Bytes
  import opened Loader

  type half = x: int | 0 <= x < 0x1_0000
  type word = x: int | 0 <= x < 0x1_0000_0000

  /** Half-words in memory, low byte first. */
  function Halves(hs: seq<half>): (bs: seq<byte>)
    ensures |bs| == 2 * |hs|
  {
    if hs == [] then [] else [hs[0] % 256, hs[0] / 256] + Halves(hs[1..])
  }

  lemma {:induction false} HalfAt(pre: seq<byte>, hs: seq<half>, post: seq<byte>, k: nat, at: nat)
    requires k < |hs| && at == |pre| + 2 * k
    ensures U16(pre + Halves(hs) + post, at) == hs[k]
    decreases k
  {
    var f := pre + Halves(hs) + post;
    var b: seq<byte> := [hs[0] % 256, hs[0] / 256];
    if k == 0 {
      assert f[at] == b[0] && f[at + 1] == b[1];
    } else {
      assert f == (pre + b) + Halves(hs[1..]) + post;
      HalfAt(pre + b, hs[1..], post, k - 1, at);
    }
  }

  /** A word is two half-words. */
  lemma WordAt(pre: seq<byte>, hs: seq<half>, post: seq<byte>, k: nat, at: nat, w: word)
    requires k + 1 < |hs| && at == |pre| + 2 * k && hs[k] == w % 0x1_0000 && hs[k + 1] == w / 0x1_0000
    ensures U32(pre + Halves(hs) + post, at) == w
  {
    HalfAt(pre, hs, post, k, at);
    HalfAt(pre, hs, post, k + 1, at + 2);
  }

  // Elf32_Ehdr and Elf32_Phdr.
  datatype Ehdr = Ehdr(ident: seq<byte>, kind: half, machine: half, version: word, entry: word, phoff: word,
                       shoff: word, flags: word, ehsize: half, phentsize: half, phnum: half,
                       shentsize: half, shnum: half, shstrndx: half)

  datatype Phdr = Phdr(kind: word, offset: word, vaddr: word, paddr: word, filesz: word, memsz: word,
                       flags: word, align: word)

  function Lo(w: word): half {
    w % 0x1_0000
  }

  function Hi(w: word): half {
    w / 0x1_0000
  }

  function EhdrHalves(h: Ehdr): seq<half> {
    [h.kind, h.machine, Lo(h.version), Hi(h.version), Lo(h.entry), Hi(h.entry), Lo(h.phoff), Hi(h.phoff),
     Lo(h.shoff), Hi(h.shoff), Lo(h.flags), Hi(h.flags), h.ehsize, h.phentsize, h.phnum,
     h.shentsize, h.shnum, h.shstrndx]
  }

  function PhdrHalves(p: Phdr): seq<half> {
    [Lo(p.kind), Hi(p.kind), Lo(p.offset), Hi(p.offset), Lo(p.vaddr), Hi(p.vaddr), Lo(p.paddr), Hi(p.paddr),
     Lo(p.filesz), Hi(p.filesz), Lo(p.memsz), Hi(p.memsz), Lo(p.flags), Hi(p.flags), Lo(p.align), Hi(p.align)]
  }

  /** The fields of the file header the loader reads are those of the ABI's table. */
  lemma HeaderFields(h: Ehdr, rest: seq<byte>, f: seq<byte>)
    requires |h.ident| == 16 && f == h.ident + Halves(EhdrHalves(h)) + rest
    ensures |f| == EHDR_SIZE + |rest|
    ensures U16(f, 16) == h.kind && U16(f, 18) == h.machine && U32(f, 24) == h.entry
    ensures Count(f) == h.phnum && forall i: nat :: HeaderAt(f, i) == h.phoff + i * h.phentsize
  {
    var hs := EhdrHalves(h);
    HalfAt(h.ident, hs, rest, 0, 16);
    HalfAt(h.ident, hs, rest, 1, 18);
    WordAt(h.ident, hs, rest, 4, 24, h.entry);
    WordAt(h.ident, hs, rest, 6, 28, h.phoff);
    HalfAt(h.ident, hs, rest, 13, 42);
    HalfAt(h.ident, hs, rest, 14, 44);
  }

  /** What is accepted: a whole header, the ELF magic, 32 bits, an executable, for the 386. */
  lemma AcceptedIff(h: Ehdr, rest: seq<byte>, f: seq<byte>, size: int)
    requires |h.ident| == 16 && f == h.ident + Halves(EhdrHalves(h)) + rest
    ensures Accepted(f, size) <==>
              && size >= 52 && h.ident[0] == 0x7F && h.ident[1..4] == Ascii("ELF") && h.ident[4] == 1
              && h.kind == 2 && h.machine == 3
  {
    HeaderFields(h, rest, f);
    assert f[..5] == [h.ident[0]] + h.ident[1..4] + [h.ident[4]];
    assert Ascii("ELF") == [69, 76, 70];
    if Accepted(f, size) {
      assert f[..5][0] == 0x7F && f[..5][4] == 1 && f[..5][1..4] == h.ident[1..4];
    }
  }

  /** The fields of a program header the loader reads are those of the ABI's table. */
  lemma SegmentFields(pre: seq<byte>, p: Phdr, post: seq<byte>, f: seq<byte>)
    requires f == pre + Halves(PhdrHalves(p)) + post
    ensures |f| >= |pre| + PHDR_SIZE
    ensures SegmentAt(f, |pre|) == Segment(p.kind, p.offset, p.vaddr, p.filesz, p.memsz)
    ensures forall a :: Covers(SegmentAt(f, |pre|), a) <==> p.kind == 1 && p.vaddr <= a < p.vaddr + p.memsz
  {
    var hs, at := PhdrHalves(p), |pre|;
    WordAt(pre, hs, post, 0, at, p.kind);
    WordAt(pre, hs, post, 2, at + 4, p.offset);
    WordAt(pre, hs, post, 4, at + 8, p.vaddr);
    WordAt(pre, hs, post, 8, at + 16, p.filesz);
    WordAt(pre, hs, post, 10, at + 20, p.memsz);
  }
}
