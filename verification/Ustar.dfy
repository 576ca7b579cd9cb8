/**
 src/ustar.c over the global buffer: each method is the source's code, and its contract gives the
 new buffer as an image function of module Archive, or the answer as the dictionary's answer.
 */
module Ustar {
  import opened Bytes
  import opened Numbers
  import opened Dictionary
  import opened Archive

  const TAR_START_LBA: nat := 101

  type Word = w: int | 0 <= w < 0x1_0000

  /** Sector by sector, low byte first: what an x86 machine reads back from the drive. */
  ghost predicate HasSectors(disk: map<nat, seq<Word>>, n: nat) {
    forall lba :: TAR_START_LBA <= lba < TAR_START_LBA + n ==> lba in disk && |disk[lba]| == 256
  }

  function WordByte(w: Word, k: nat): byte {
    if k % 2 == 0 then w % 256 else w / 256
  }

  ghost function DiskImage(disk: map<nat, seq<Word>>, n: nat): (s: seq<byte>)
    requires HasSectors(disk, n)
    ensures |s| == n * 512
  {
    seq(n * 512, k requires 0 <= k < n * 512 =>
      WordByte(disk[TAR_START_LBA + k / 512][k % 512 / 2], k))
  }

  /** Sector 101 + j holds the 512 bytes from 512 * j on: word k of it two of them, low byte first. */
  lemma DiskImageAt(disk: map<nat, seq<Word>>, n: nat, j: nat, k: nat)
    requires HasSectors(disk, n) && j < n && k < 256
    ensures 101 + j in disk && |disk[101 + j]| == 256
    ensures disk[101 + j][k] == DiskImage(disk, n)[512 * j + 2 * k] as int
                                + 256 * DiskImage(disk, n)[512 * j + 2 * k + 1] as int
  {
    WordIndex(j, k, 512 * j + 2 * k);
    var w := disk[TAR_START_LBA + j][k];
    assert DiskImage(disk, n)[512 * j + 2 * k] == w % 256 && DiskImage(disk, n)[512 * j + 2 * k + 1] == w / 256;
  }

  lemma WordIndex(j: nat, k: nat, at: nat)
    requires k < 256 && at == 512 * j + 2 * k
    ensures at / 512 == j && at % 512 / 2 == k && at % 2 == 0
    ensures (at + 1) / 512 == j && (at + 1) % 512 / 2 == k && (at + 1) % 2 == 1
  {
    InSector(at, j, 2 * k);
    InSector(at + 1, j, 2 * k + 1);
    EvenByte(at, 256 * j + k);
  }

  lemma InSector(at: nat, j: nat, r: nat)
    requires at == 512 * j + r && r < 512
    ensures at / 512 == j && at % 512 == r
  {}

  lemma EvenByte(at: nat, q: nat)
    requires at == 2 * q
    ensures at % 2 == 0 && (at + 1) % 2 == 1
  {}

  class Tar {
    const buf: array<byte>
    var disk: map<nat, seq<Word>>

    ghost predicate Sized()
      reads this
    {
      buf.Length % 512 == 0 && BLOCK <= buf.Length < 0x8000_0000
    }

    ghost predicate Valid()
      reads this, buf
    {
      Sized() && WellFormed(buf[..])
    }

    ghost predicate HasDisk()
      reads this
    {
      HasSectors(disk, buf.Length / 512)
    }

    constructor (sectors: nat)
      requires 1 <= sectors < 0x40_0000
      ensures Valid() && fresh(buf) && buf.Length == sectors * 512
      ensures Files(buf[..]) == []
    {
      buf := new byte[sectors * 512](_ => NUL);
      disk := map[];
      new;
      EmptyArchive(buf[..]);
    }

    method TarValid(th: nat) returns (r: bool)
      requires th + BLOCK <= buf.Length
      ensures r == IsHeader(buf[th..])
    {
      assert buf[th..][257..262] == buf[th + 257..th + 262];
      assert buf[th..][156] == buf[th + 156];
      if buf[th + 257..th + 262] == USTAR {
        return buf[th + 156] != TYPE_DIR;
      }
      return false;
    }

    /** oct2bin of a header's size field. */
    method HeaderSize(th: nat) returns (size: int32)
      requires th + BLOCK <= buf.Length && HeaderOk(buf[th..]) && FileSize(buf[th..]) < 0x8000_0000
      ensures size as int == FileSize(buf[th..])
    {
      assert buf[th..][124..135] == buf[th + 124..th + 135];
      size := Oct2Bin(buf, th + 124, 11);
    }

    /** strcmp(th->name, fname) == 0, at the header of segment i. */
    method NameMatches(th: nat, ghost i: nat, fname: seq<byte>) returns (r: bool)
      requires Valid() && i < |Segments(buf[..])| && th == Offset(Segments(buf[..]), i)
      requires i <= IndexOf(Files(buf[..]), fname)
      ensures if r then IndexOf(Files(buf[..]), fname) == i else IndexOf(Files(buf[..]), fname) >= i + 1
    {
      Unseal(buf[..]);
      At(Segments(buf[..]), i, buf.Length);
      FileIs(Segments(buf[..])[i]);
      assert buf[th..][..100] == buf[th..th + 100];
      r := CStr(buf[th..th + 100]) == fname;
      if r {
        IndexOfIs(Files(buf[..]), fname, i);
      }
    }

    /** (ceilDiv(size, 512) + 1) * 512: how far it is to the next header. */
    method HeaderSpan(th: nat) returns (bytes: int32)
      requires Sized() && th + BLOCK <= buf.Length && HeaderOk(buf[th..])
      requires th + Span(buf[th..]) <= buf.Length
      ensures bytes as int == Span(buf[th..])
    {
      var size := HeaderSize(th);
      bytes := (size / 512 + (if size % 512 != 0 then 1 else 0) + 1) * 512;
    }

    method TarNext(th: nat) returns (next: nat)
      requires Sized() && th + BLOCK <= buf.Length && HeaderOk(buf[th..])
      requires th + Span(buf[th..]) <= buf.Length
      ensures next == th + Span(buf[th..]) && (next - th) % 512 == 0
      ensures th + BLOCK + FileSize(buf[th..]) <= next < th + BLOCK + FileSize(buf[th..]) + 512
    {
      var bytes := HeaderSpan(th);
      NextIsFirstBoundary(buf[th..]);
      next := th + bytes as int;
    }

    method TarGetEnd() returns (curr: nat)
      requires Valid()
      ensures curr == ChainEnd(buf[..])
    {
      ghost var gs, i := Segments(buf[..]), 0;
      Unseal(buf[..]);
      curr := 0;
      Suffix(gs, 0, buf.Length);
      var more := TarValid(curr);
      while more
        invariant i <= |gs| && curr == Offset(gs, i) && more == (i < |gs|)
        decreases |gs| - i
      {
        At(gs, i, buf.Length);
        curr := TarNext(curr);
        i := i + 1;
        Suffix(gs, i, buf.Length);
        more := TarValid(curr);
      }
      assert gs[..i] == gs;
    }

    method TarFind(fname: seq<byte>) returns (th: Option<nat>)
      requires Valid()
      ensures th == FindOffset(buf[..], fname)
    {
      ghost var gs, i := Segments(buf[..]), 0;
      Unseal(buf[..]);
      ghost var at := IndexOf(Files(buf[..]), fname);
      var curr := 0;
      Suffix(gs, 0, buf.Length);
      var more := TarValid(curr);
      while more
        invariant i <= |gs| && curr == Offset(gs, i) && more == (i < |gs|)
        invariant i <= at
        decreases |gs| - i
      {
        var found := NameMatches(curr, i, fname);
        if found {
          return Some(curr);
        }
        At(gs, i, buf.Length);
        curr := TarNext(curr);
        i := i + 1;
        Suffix(gs, i, buf.Length);
        more := TarValid(curr);
      }
      return None;
    }

    /** -1 when there is no such file; else its size, and where its bytes are. */
    method TarRead(fname: seq<byte>) returns (size: int, data: nat)
      requires Valid()
      ensures match Lookup(Files(buf[..]), fname)
              case None => size == -1
              case Some(d) => size == |d| && data + size <= buf.Length && buf[data..data + size] == d
                              && FindOffset(buf[..], fname) == Some(data - BLOCK)
    {
      var th := TarFind(fname);
      if th == None {
        return -1, 0;
      }
      Unseal(buf[..]);
      DataOf(Segments(buf[..]), IndexOf(Files(buf[..]), fname), buf.Length);
      data := th.value + 512;
      var n := HeaderSize(th.value);
      size := n as int;
    }

    method TarGetSize(fname: seq<byte>) returns (size: int)
      requires Valid()
      ensures size == match Lookup(Files(buf[..]), fname) case None => 0 case Some(d) => |d|
    {
      var th := TarFind(fname);
      if th == None {
        return 0;
      }
      Unseal(buf[..]);
      DataOf(Segments(buf[..]), IndexOf(Files(buf[..]), fname), buf.Length);
      var n := HeaderSize(th.value);
      size := n as int;
    }

    method TarRm(fname: seq<byte>) returns (r: int)
      requires Valid()
      modifies buf
      ensures buf[..] == RmImage(old(buf[..]), fname)
      ensures r == if Has(Files(old(buf[..])), fname) then 1 else 0
      ensures Valid()
    {
      var size, _ := TarRead(fname);
      if size < 0 {
        return 0;
      }
      var toDel := TarFind(fname);
      ghost var s := buf[..];
      ghost var idx := IndexOf(Files(s), fname);
      RmRefines(s, fname);
      Unseal(s);
      At(Segments(s), idx, |s|);
      var delBytes := HeaderSpan(toDel.value);
      ShiftLeft(toDel.value, delBytes as int);
      r := 1;
    }

    /** The two loops of tarRm: bytes move down one by one in place, then zeros fill the end. */
    method ShiftLeft(startIdx: nat, delBytes: nat)
      requires startIdx + delBytes <= buf.Length
      modifies buf
      ensures buf[..] == Cut(old(buf[..]), startIdx, delBytes)
    {
      var bufBytes := buf.Length;
      MoveDown(startIdx, delBytes);
      ZeroEnd(bufBytes - delBytes);
    }

    method MoveDown(startIdx: nat, delBytes: nat)
      requires startIdx + delBytes <= buf.Length
      modifies buf
      ensures forall k :: startIdx <= k < buf.Length - delBytes ==> buf[k] == old(buf[k + delBytes])
      ensures forall k :: 0 <= k < startIdx ==> buf[k] == old(buf[k])
    {
      for i := startIdx to buf.Length - delBytes
        invariant forall k :: startIdx <= k < i ==> buf[k] == old(buf[k + delBytes])
        invariant forall k :: 0 <= k < startIdx || i <= k < buf.Length ==> buf[k] == old(buf[k])
      {
        buf[i] := buf[i + delBytes];
      }
    }

    method ZeroEnd(from: nat)
      requires from <= buf.Length
      modifies buf
      ensures forall k :: 0 <= k < buf.Length ==> buf[k] == if k < from then old(buf[k]) else NUL
    {
      for i := from to buf.Length
        invariant forall k :: 0 <= k < buf.Length ==> buf[k] == if k < from || k >= i then old(buf[k]) else NUL
      {
        buf[i] := NUL;
      }
    }

    /** strcpy without its terminating NUL, or an assignment to a char array. */
    method Put(at: nat, bs: seq<byte>)
      requires at + |bs| <= buf.Length
      modifies buf
      ensures forall k :: 0 <= k < buf.Length ==>
                buf[k] == if at <= k < at + |bs| then bs[k - at] else old(buf[k])
    {
      for i := 0 to |bs|
        invariant forall k :: 0 <= k < buf.Length ==>
                    buf[k] == if at <= k < at + i then bs[k - at] else old(buf[k])
      {
        buf[at + i] := bs[i];
      }
    }

    method PutOctal(num: uint32, at: nat, width: nat)
      requires at + width <= buf.Length
      modifies buf
      ensures forall k :: 0 <= k < buf.Length ==>
                buf[k] == if at <= k < at + width then Padded(8, num as int, width)[k - at] else old(buf[k])
    {
      Bin2OctPadded(num, buf, at, width);
      assert forall k :: 0 <= k < buf.Length ==> buf[k] == buf[..][k];
    }

    /** The fields up to the size; the bytes behind them keep their values. */
    method WriteFront(th: nat, fname: seq<byte>)
      requires th + BLOCK <= buf.Length && |fname| < 100
      requires forall k :: th <= k < th + BLOCK ==> buf[k] == NUL
      modifies buf
      ensures forall k :: 0 <= k < buf.Length ==>
                buf[k] == if th <= k < th + 135 then HeaderByte(fname, k - th) else old(buf[k])
    {
      WriteName(th, fname);
      WriteNumbers(th, fname);
    }

    /** The name and the mode. */
    method WriteName(th: nat, fname: seq<byte>)
      requires th + BLOCK <= buf.Length && |fname| < 100
      requires forall k :: th <= k < th + 107 ==> buf[k] == NUL
      modifies buf
      ensures forall k :: 0 <= k < buf.Length ==>
                buf[k] == if th <= k < th + 107 then HeaderByte(fname, k - th) else old(buf[k])
    {
      ModeField();
      Put(th, fname + [NUL]);
      PutOctal(511, th + 100, 7);
    }

    /** The three numbers that are 0 in a new header. */
    method WriteNumbers(th: nat, fname: seq<byte>)
      requires th + BLOCK <= buf.Length && |fname| < 100
      requires forall k :: th + 107 <= k < th + 135 ==> buf[k] == NUL
      modifies buf
      ensures forall k :: 0 <= k < buf.Length ==>
                buf[k] == if th + 107 <= k < th + 135 then HeaderByte(fname, k - th) else old(buf[k])
    {
      ZeroField(7);
      ZeroField(11);
      PutOctal(0, th + 108, 7);
      PutOctal(0, th + 116, 7);
      PutOctal(0, th + 124, 11);
    }

    /** The fields behind the size. */
    method WriteBack(th: nat, fname: seq<byte>)
      requires th + BLOCK <= buf.Length && |fname| < 100
      requires forall k :: th + 135 <= k < th + BLOCK ==> buf[k] == NUL
      modifies buf
      ensures forall k :: 0 <= k < buf.Length ==>
                buf[k] == if th + 135 <= k < th + BLOCK then HeaderByte(fname, k - th) else old(buf[k])
    {
      buf[th + 156] := ZERO;
      Put(th + 257, USTAR + [NUL]);
      Put(th + 263, [ZERO, ZERO]);
      Put(th + 265, ROOT + [NUL]);
      Put(th + 297, ROOT + [NUL]);
      Put(th + 148, [SPACE, SPACE, SPACE, SPACE, SPACE, SPACE, SPACE, SPACE]);
    }

    /** Lines 240-251 of tarTouch. */
    method WriteHeader(th: nat, fname: seq<byte>)
      requires th + BLOCK <= buf.Length && |fname| < 100
      requires forall k :: th <= k < th + BLOCK ==> buf[k] == NUL
      modifies buf
      ensures buf[..] == Patch(old(buf[..]), th, NewHeader(fname))
    {
      WriteFront(th, fname);
      WriteBack(th, fname);
    }

    lemma {:induction false} ZeroField(w: nat)
      ensures Padded(8, 0, w) == Repeat(ZERO, w)
    {
      if w > 0 {
        ZeroField(w - 1);
      }
    }

    lemma ModeField()
      ensures Padded(8, 511, 7) == [ZERO, ZERO, ZERO, ZERO, 55, 55, 55]
    {
      ZeroField(4);
      assert Padded(8, 7, 5) == Padded(8, 0, 4) + [55];
      assert Padded(8, 63, 6) == Padded(8, 7, 5) + [55];
      assert Padded(8, 511, 7) == Padded(8, 63, 6) + [55];
    }

    method TarTouch(fname: seq<byte>) returns (r: int)
      requires Valid() && CanName(buf[..], fname)
      modifies buf
      ensures buf[..] == TouchImage(old(buf[..]), fname)
      ensures r == if Has(Files(old(buf[..])), fname) then 0 else 1
      ensures Valid() <==> HasRoom(old(buf[..]), fname)
    {
      TouchKeepsIff(buf[..], fname);
      var size, _ := TarRead(fname);
      if size >= 0 {
        return 0;
      }
      var th := TarGetEnd();
      ghost var s, gs := buf[..], Segments(buf[..]);
      Unseal(s);
      assert forall k :: th <= k < th + BLOCK ==> s[k] == NUL && buf[k] == s[k];
      WriteHeader(th, fname);
      r := 1;
    }

    /** Lines 261-264 of tarEdit: the size field, then the data byte by byte. */
    method StoreAt(th: nat, data: seq<byte>)
      requires th + BLOCK + |data| <= buf.Length && |data| < 0x1_0000_0000
      modifies buf
      ensures buf[..] == StoreTail(old(buf[..]), th, data)
    {
      Bin2OctPadded(|data| as uint32, buf, th + 124, 11);
      Put(th + 512, data);
    }

    method TarEdit(fname: seq<byte>, data: seq<byte>) returns (r: int)
      requires Valid() && |data| < 0x1_0000_0000 && EditFits(buf[..], fname, |data|)
      modifies buf
      ensures buf[..] == EditImage(old(buf[..]), fname, data)
      ensures r == 1
    {
      var th := TarFind(fname);
      if th == None {
        return 1;
      }
      ghost var s := buf[..];
      RoomAfterRm(s, fname);
      var _ := TarRm(fname);
      var touched := TarTouch(fname);
      if touched != 0 {
        return 1;
      }
      th := TarFind(fname);
      StoreAt(th.value, data);
      return 1;
    }

    // ---- the disk: ataRead and ataWrite of one sector, then the two loops over all of them ----

    method AtaWrite(lba: nat, at: nat)
      requires at + BLOCK <= buf.Length
      modifies `disk
      ensures disk.Keys == old(disk).Keys + {lba} && |disk[lba]| == 256
      ensures forall l :: l in old(disk) && l != lba ==> disk[l] == old(disk)[l]
      ensures forall k :: 0 <= k < BLOCK ==> WordByte(disk[lba][k / 2], k) == buf[at + k]
    {
      var words: seq<Word> := [];
      for i := 0 to 256
        invariant |words| == i
        invariant forall j :: 0 <= j < i ==> words[j] % 256 == buf[at + 2 * j] && words[j] / 256 == buf[at + 2 * j + 1]
      {
        var lo: int, hi: int := buf[at + 2 * i], buf[at + 2 * i + 1];
        words := words + [lo + 256 * hi];
      }
      disk := disk[lba := words];
      forall k | 0 <= k < BLOCK
        ensures WordByte(disk[lba][k / 2], k) == buf[at + k]
      {
        assert k == 2 * (k / 2) + k % 2;
      }
    }

    method AtaRead(lba: nat, at: nat)
      requires at + BLOCK <= buf.Length && lba in disk && |disk[lba]| == 256
      modifies buf
      ensures forall k :: 0 <= k < buf.Length ==>
                buf[k] == if at <= k < at + BLOCK then WordByte(disk[lba][(k - at) / 2], k - at) else old(buf[k])
    {
      for i := 0 to 256
        invariant forall k :: 0 <= k < buf.Length ==>
                    buf[k] == if at <= k < at + 2 * i then WordByte(disk[lba][(k - at) / 2], k - at) else old(buf[k])
      {
        var w := disk[lba][i];
        buf[at + 2 * i] := w % 256;
        buf[at + 2 * i + 1] := w / 256;
        assert (2 * i) / 2 == i && (2 * i + 1) / 2 == i;
      }
    }

    method TarFlush()
      requires Sized()
      modifies `disk
      ensures HasDisk() && DiskImage(disk, buf.Length / 512) == buf[..]
    {
      var sectors := buf.Length / 512;
      for i := 0 to sectors
        invariant HasSectors(disk, i)
        invariant forall j, k :: 0 <= j < i && 0 <= k < BLOCK ==>
                    WordByte(disk[TAR_START_LBA + j][k / 2], k) == buf[j * 512 + k]
      {
        AtaWrite(TAR_START_LBA + i, i * 512);
      }
      forall k | 0 <= k < buf.Length
        ensures DiskImage(disk, sectors)[k] == buf[k]
      {
        var j, m := k / 512, k % 512;
        assert k == j * 512 + m && 0 <= j < sectors && k % 2 == m % 2;
        assert WordByte(disk[TAR_START_LBA + j][m / 2], m) == buf[j * 512 + m];
      }
    }

    method TarLoad()
      requires Sized() && HasDisk()
      modifies buf
      ensures buf[..] == DiskImage(disk, buf.Length / 512)
    {
      var sectors := buf.Length / 512;
      ghost var image := DiskImage(disk, sectors);
      for i := 0 to sectors
        invariant forall k :: 0 <= k < i * 512 ==> buf[k] == image[k]
      {
        AtaRead(TAR_START_LBA + i, i * 512);
        forall k | i * 512 <= k < (i + 1) * 512
          ensures buf[k] == image[k]
        {
          assert k / 512 == i && k % 512 == k - i * 512 && (k - i * 512) % 2 == k % 2;
        }
      }
    }
  }
}
