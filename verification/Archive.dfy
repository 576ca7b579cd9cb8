/**
 The ustar archive as bytes: 512-byte headers chained by their octal size fields, then zeros.
 Layout: "ustar Interchange Format" of the pax utility, POSIX.1-2017 (include/ustar.h:19-37).
 An archive is read recursively from its head, so every fact about the chain is an induction.
 */
module Archive {
  import opened Bytes
  import opened Numbers
  import opened Dictionary

  const BLOCK: nat := 512
  const TYPE_DIR: byte := 53
  const USTAR: seq<byte> := [117, 115, 116, 97, 114]
  const ROOT: seq<byte> := [114, 111, 111, 116]

  /** tarValid, in the NO_DIR build: the magic is there and the entry is not a directory. */
  predicate IsHeader(s: seq<byte>)
    requires |s| >= BLOCK
  {
    s[257..262] == USTAR && s[156] != TYPE_DIR
  }

  predicate HeaderOk(s: seq<byte>)
    requires |s| >= BLOCK
  {
    IsHeader(s) && NUL in s[..100] && IsNumeral(8, s[124..135])
  }

  function Name(s: seq<byte>): seq<byte>
    requires |s| >= BLOCK
  {
    CStr(s[..100])
  }

  function FileSize(s: seq<byte>): nat
    requires |s| >= BLOCK && HeaderOk(s)
  {
    Value(8, s[124..135])
  }

  /** The bytes from this header to the next one. */
  function Span(s: seq<byte>): (k: nat)
    requires |s| >= BLOCK && HeaderOk(s)
    ensures k >= BLOCK + FileSize(s) && k % 512 == 0
  {
    (Blocks(FileSize(s)) + 1) * 512
  }

  /** The next header is at the first block boundary behind the data. */
  lemma NextIsFirstBoundary(s: seq<byte>)
    requires |s| >= BLOCK && HeaderOk(s)
    ensures BLOCK + FileSize(s) <= Span(s) < BLOCK + FileSize(s) + 512 && Span(s) % 512 == 0
  {
    var n := FileSize(s);
    assert n == 512 * (n / 512) + n % 512;
  }

  /** One header block with its padded data, exactly. */
  predicate IsSegment(g: seq<byte>) {
    |g| >= BLOCK && HeaderOk(g) && |g| == Span(g)
  }

  /** What the walk of tarFind and tarGetEnd needs: good headers that end inside s, then zeros. */
  ghost predicate Chained(s: seq<byte>)
    decreases |s|
  {
    && |s| >= BLOCK
    && if IsHeader(s)
       then HeaderOk(s) && Span(s) <= |s| && Chained(s[Span(s)..])
       else s == Zeros(|s|)
  }

  /** The segments the walk meets, in order, byte for byte. */
  ghost function Parse(s: seq<byte>): seq<seq<byte>>
    requires Chained(s)
    decreases |s|
  {
    if IsHeader(s) then [s[..Span(s)]] + Parse(s[Span(s)..]) else []
  }

  /** Good segments one behind the other. */
  ghost function Flat(gs: seq<seq<byte>>): seq<byte> {
    if gs == [] then [] else gs[0] + Flat(gs[1..])
  }

  ghost predicate Fits(gs: seq<seq<byte>>, len: nat) {
    |Flat(gs)| + BLOCK <= len
  }

  /** An archive of len bytes made of these segments. */
  ghost function Encode(gs: seq<seq<byte>>, len: nat): (s: seq<byte>)
    requires Fits(gs, len)
    ensures |s| == len
  {
    Flat(gs) + Zeros(len - |Flat(gs)|)
  }

  ghost predicate AllSegments(gs: seq<seq<byte>>) {
    forall i :: 0 <= i < |gs| ==> IsSegment(gs[i])
  }

  // The file in a segment. Like Represents below, kept closed: the verifier looks inside only
  // where a proof mentions Peek.
  ghost predicate Peek(g: seq<byte>) { true }

  ghost predicate Describes(g: seq<byte>, f: File) {
    forall u {:trigger Peek(u)} :: Peek(u) && u == g ==>
      IsSegment(u) && f == File(Name(u), u[BLOCK..BLOCK + FileSize(u)])
  }

  ghost function FileOf(g: seq<byte>): File
    requires IsSegment(g)
  {
    assert Describes(g, File(Name(g), g[BLOCK..BLOCK + FileSize(g)]));
    var f :| Describes(g, f);
    f
  }

  lemma FileIs(g: seq<byte>)
    requires IsSegment(g)
    ensures FileOf(g) == File(Name(g), g[BLOCK..BLOCK + FileSize(g)]) && |FileOf(g).data| == FileSize(g)
  {
    assert Peek(g);
  }

  ghost function FilesOf(gs: seq<seq<byte>>): (fs: seq<File>)
    requires AllSegments(gs)
    ensures |fs| == |gs| && forall i :: 0 <= i < |gs| ==> fs[i] == FileOf(gs[i])
  {
    seq(|gs|, i requires 0 <= i < |gs| => FileOf(gs[i]))
  }

  // ---- reading and writing a chain are inverse ----

  /** A good header depends only on its first block. */
  lemma SameBlock(s: seq<byte>, t: seq<byte>)
    requires |s| >= BLOCK && |t| >= BLOCK && s[..BLOCK] == t[..BLOCK]
    ensures IsHeader(s) == IsHeader(t) && HeaderOk(s) == HeaderOk(t) && Name(s) == Name(t)
    ensures HeaderOk(s) ==> FileSize(s) == FileSize(t) && Span(s) == Span(t)
  {
    assert s[257..262] == s[..BLOCK][257..262] && t[257..262] == t[..BLOCK][257..262];
    assert s[156] == s[..BLOCK][156] && t[156] == t[..BLOCK][156];
    assert s[..100] == s[..BLOCK][..100] && t[..100] == t[..BLOCK][..100];
    assert s[124..135] == s[..BLOCK][124..135] && t[124..135] == t[..BLOCK][124..135];
  }

  lemma Blank(n: nat)
    requires n >= BLOCK
    ensures Chained(Zeros(n)) && !IsHeader(Zeros(n))
  {
    assert Zeros(n)[257..262][0] == NUL;
  }

  lemma FlatOne(g: seq<byte>)
    ensures Flat([g]) == g
  {
    assert Flat([g]) == g + Flat([]);
  }

  lemma {:induction false} FlatConcat(gs: seq<seq<byte>>, hs: seq<seq<byte>>)
    ensures Flat(gs + hs) == Flat(gs) + Flat(hs)
  {
    if gs == [] {
      assert gs + hs == hs;
    } else {
      assert (gs + hs)[1..] == gs[1..] + hs;
      FlatConcat(gs[1..], hs);
    }
  }

  lemma EncodeCons(g: seq<byte>, gs: seq<seq<byte>>, len: nat)
    requires Fits(gs, len)
    ensures Flat([g] + gs) == g + Flat(gs)
    ensures Fits([g] + gs, |g| + len) && Encode([g] + gs, |g| + len) == g + Encode(gs, len)
  {
    assert ([g] + gs)[1..] == gs;
  }

  lemma ParseUncons(s: seq<byte>)
    requires Chained(s) && IsHeader(s)
    ensures IsSegment(s[..Span(s)]) && Chained(s[Span(s)..])
    ensures Parse(s) == [s[..Span(s)]] + Parse(s[Span(s)..])
  {
    assert s[..Span(s)][..BLOCK] == s[..BLOCK];
    SameBlock(s, s[..Span(s)]);
  }

  lemma ConsEncodes(g: seq<byte>, t: seq<byte>, gs: seq<seq<byte>>)
    requires IsSegment(g) && AllSegments(gs) && Fits(gs, |t|) && Encode(gs, |t|) == t
    ensures AllSegments([g] + gs) && Fits([g] + gs, |g + t|) && Encode([g] + gs, |g + t|) == g + t
  {
    EncodeCons(g, gs, |t|);
  }

  /** A good archive is the encoding of its segments. */
  lemma {:induction false} EncodeOfParse(s: seq<byte>)
    requires Chained(s)
    ensures AllSegments(Parse(s)) && Fits(Parse(s), |s|)
    ensures Encode(Parse(s), |s|) == s
    decreases |s|
  {
    if IsHeader(s) {
      var k := Span(s);
      ParseUncons(s);
      EncodeOfParse(s[k..]);
      ConsEncodes(s[..k], s[k..], Parse(s[k..]));
      Glue(s, k);
    }
  }

  lemma ParseCons(g: seq<byte>, t: seq<byte>)
    requires IsSegment(g) && Chained(t)
    ensures Chained(g + t) && Parse(g + t) == [g] + Parse(t)
  {
    var s := g + t;
    assert s[..BLOCK] == g[..BLOCK];
    SameBlock(s, g);
    assert s[..|g|] == g && s[|g|..] == t;
  }

  lemma EncodeUncons(gs: seq<seq<byte>>, len: nat, m: int)
    requires gs != [] && Fits(gs, len) && m == len - |gs[0]|
    ensures m >= 0 && Fits(gs[1..], m) && Encode(gs, len) == gs[0] + Encode(gs[1..], m)
  {
    assert gs == [gs[0]] + gs[1..];
    EncodeCons(gs[0], gs[1..], m);
  }

  /** Any segments that fit are a good archive of those segments. */
  lemma {:induction false} ParseOfEncode(gs: seq<seq<byte>>, len: nat)
    requires AllSegments(gs) && Fits(gs, len)
    ensures Chained(Encode(gs, len)) && Parse(Encode(gs, len)) == gs
  {
    if gs == [] {
      Blank(len);
      assert Encode(gs, len) == Zeros(len);
    } else {
      var hs, m := gs[1..], len - |gs[0]|;
      EncodeUncons(gs, len, m);
      ParseOfEncode(hs, m);
      ParseCons(gs[0], Encode(hs, m));
    }
  }

  // ---- the archive invariant ----

  /** s is these good segments followed by a block of zeros or more. */
  ghost predicate Represents(s: seq<byte>, gs: seq<seq<byte>>) {
    AllSegments(gs) && Fits(gs, |s|) && s == Encode(gs, |s|)
  }

  // Represents, kept closed: the verifier looks inside only where a proof mentions Look.
  ghost predicate Look(gs: seq<seq<byte>>) { true }

  ghost predicate Sealed(s: seq<byte>, gs: seq<seq<byte>>) {
    forall u {:trigger Look(u)} :: Look(u) && u == gs ==> Represents(s, u)
  }

  /** The archive invariant. */
  ghost predicate WellFormed(s: seq<byte>) {
    exists gs :: Sealed(s, gs)
  }

  ghost function Segments(s: seq<byte>): seq<seq<byte>>
    requires WellFormed(s)
  {
    var gs :| Sealed(s, gs);
    gs
  }

  lemma Unseal(s: seq<byte>)
    requires WellFormed(s)
    ensures Represents(s, Segments(s))
  {
    assert Look(Segments(s));
  }

  lemma OnlySegments(s: seq<byte>, gs: seq<seq<byte>>)
    requires Represents(s, gs)
    ensures WellFormed(s) && Segments(s) == gs
  {
    assert Sealed(s, gs);
    Unseal(s);
    ParseOfEncode(gs, |s|);
    ParseOfEncode(Segments(s), |s|);
  }

  /** TAR_BUF_SIZE: 1024 sectors. */
  const SOURCE_SIZE: nat := 524288

  lemma EmptyArchive(z: seq<byte>)
    requires |z| >= BLOCK && z == Zeros(|z|)
    ensures WellFormed(z) && Segments(z) == [] && Files(z) == [] && ChainEnd(z) == 0
  {
    assert z == Encode([], |z|);
    OnlySegments(z, []);
  }

  /** The invariant is exactly what the walk needs, and the walk meets exactly those segments. */
  lemma WalkMeetsSegments(s: seq<byte>)
    ensures WellFormed(s) <==> Chained(s)
    ensures WellFormed(s) ==> Segments(s) == Parse(s)
  {
    if Chained(s) {
      EncodeOfParse(s);
      OnlySegments(s, Parse(s));
    }
    if WellFormed(s) {
      Unseal(s);
      ParseOfEncode(Segments(s), |s|);
    }
  }

  // ---- what the walks over the chain find ----

  /** The offset of segment i. */
  ghost function Offset(gs: seq<seq<byte>>, i: nat): nat
    requires i <= |gs|
  {
    |Flat(gs[..i])|
  }

  ghost function Files(s: seq<byte>): (fs: seq<File>)
    requires WellFormed(s)
    ensures |fs| == |Segments(s)|
  {
    Unseal(s);
    FilesOf(Segments(s))
  }

  /** Where tarGetEnd stops. */
  ghost function ChainEnd(s: seq<byte>): (e: nat)
    requires WellFormed(s)
    ensures e + BLOCK <= |s|
  {
    Unseal(s);
    |Flat(Segments(s))|
  }

  /** Where tarFind stops: the header of the first file of that name. */
  ghost function FindOffset(s: seq<byte>, name: seq<byte>): Option<nat>
    requires WellFormed(s)
  {
    var i := IndexOf(Files(s), name);
    if i < |Segments(s)| then Some(Offset(Segments(s), i)) else None
  }

  lemma OffsetNext(gs: seq<seq<byte>>, i: nat)
    requires i < |gs|
    ensures Offset(gs, i + 1) == Offset(gs, i) + |gs[i]|
  {
    assert gs[..i + 1] == gs[..i] + [gs[i]];
    FlatConcat(gs[..i], [gs[i]]);
    FlatOne(gs[i]);
  }

  lemma EncodeSplit(gs: seq<seq<byte>>, i: nat, len: nat)
    requires i <= |gs| && Fits(gs, len)
    ensures |Flat(gs)| == Offset(gs, i) + |Flat(gs[i..])|
    ensures Encode(gs, len) == Flat(gs[..i]) + Encode(gs[i..], len - Offset(gs, i))
  {
    FlatConcat(gs[..i], gs[i..]);
    assert gs == gs[..i] + gs[i..];
    var f, h, z := Flat(gs[..i]), Flat(gs[i..]), Zeros(len - |Flat(gs)|);
    assert (f + h) + z == f + (h + z);
  }

  lemma EncodeDrop(gs: seq<seq<byte>>, i: nat, len: nat)
    requires i <= |gs| && Fits(gs, len)
    ensures Offset(gs, i) + BLOCK <= len && Fits(gs[i..], len - Offset(gs, i))
    ensures Encode(gs, len)[Offset(gs, i)..] == Encode(gs[i..], len - Offset(gs, i))
  {
    EncodeSplit(gs, i, len);
    SplitAt(Flat(gs[..i]), Encode(gs[i..], len - Offset(gs, i)));
  }

  /** The suffix at segment i is a good archive of the segments from i on. */
  lemma Suffix(gs: seq<seq<byte>>, i: nat, len: nat)
    requires AllSegments(gs) && i <= |gs| && Fits(gs, len)
    ensures var s := Encode(gs, len); var o := Offset(gs, i);
            && o + BLOCK <= len && Represents(s[o..], gs[i..])
            && (IsHeader(s[o..]) <==> i < |gs|)
  {
    EncodeDrop(gs, i, len);
    ParseOfEncode(gs[i..], len - Offset(gs, i));
  }

  /** Segment i is what the walk sees at its offset. */
  lemma At(gs: seq<seq<byte>>, i: nat, len: nat)
    requires AllSegments(gs) && i < |gs| && Fits(gs, len)
    ensures var s := Encode(gs, len); var o := Offset(gs, i);
            && o + |gs[i]| + BLOCK <= len
            && HeaderOk(s[o..]) && Span(s[o..]) == |gs[i]|
            && Name(s[o..]) == Name(gs[i]) && FileSize(s[o..]) == FileSize(gs[i])
            && s[o..o + |gs[i]|] == gs[i]
            && Offset(gs, i + 1) == o + |gs[i]|
  {
    EncodeDrop(gs, i, len);
    OffsetNext(gs, i);
    EncodeDrop(gs, i + 1, len);
    var t := Encode(gs[i..], len - Offset(gs, i));
    assert gs[i..] == [gs[i]] + gs[i + 1..];
    EncodeCons(gs[i], gs[i + 1..], len - Offset(gs, i) - |gs[i]|);
    assert t[..|gs[i]|] == gs[i];
    assert t[..BLOCK] == gs[i][..BLOCK];
    SameBlock(t, gs[i]);
    assert Encode(gs, len)[Offset(gs, i)..][..|gs[i]|] == gs[i];
  }

  lemma DataOf(gs: seq<seq<byte>>, i: nat, len: nat)
    requires AllSegments(gs) && i < |gs| && Fits(gs, len)
    ensures var s := Encode(gs, len); var o := Offset(gs, i);
            && o + |gs[i]| + BLOCK <= len && HeaderOk(s[o..]) && FileSize(s[o..]) == FileSize(gs[i])
            && s[o + BLOCK..o + BLOCK + FileSize(s[o..])] == FileOf(gs[i]).data
  {
    At(gs, i, len);
    FileIs(gs[i]);
    var o, n := Offset(gs, i), FileSize(gs[i]);
    SliceAt(Encode(gs, len), o, |gs[i]|, BLOCK, BLOCK + n, o + BLOCK, o + BLOCK + n);
  }

  // ---- tarRm ----

  /** k bytes at o cut out, the rest moved down, zeros filled in at the end. */
  function Cut(s: seq<byte>, o: nat, k: nat): (t: seq<byte>)
    requires o + k <= |s|
    ensures |t| == |s|
  {
    s[..o] + s[o + k..] + Zeros(k)
  }

  lemma CutOut(f: seq<byte>, g: seq<byte>, h: seq<byte>, m: nat)
    ensures Cut(f + g + h + Zeros(m), |f|, |g|) == f + h + Zeros(m + |g|)
  {
    assert (f + g + h + Zeros(m))[..|f|] == f;
    assert (f + g + h + Zeros(m))[|f| + |g|..] == h + Zeros(m);
    ZerosConcat(m, |g|);
    Associate(f, h, Zeros(m));
    Associate(f + h, Zeros(m), Zeros(|g|));
  }

  lemma EncodeCut(gs: seq<seq<byte>>, i: nat, len: nat)
    requires i < |gs| && Fits(gs, len)
    ensures Offset(gs, i) + |gs[i]| <= len && Fits(Without(gs, i), len)
    ensures Cut(Encode(gs, len), Offset(gs, i), |gs[i]|) == Encode(Without(gs, i), len)
  {
    FlatThree(gs, i);
    FlatConcat(gs[..i], gs[i + 1..]);
    CutOut(Flat(gs[..i]), gs[i], Flat(gs[i + 1..]), len - |Flat(gs)|);
  }

  /** The buffer after tarRm. */
  ghost function RmImage(s: seq<byte>, name: seq<byte>): (t: seq<byte>)
    requires WellFormed(s)
    ensures |t| == |s|
  {
    var i := IndexOf(Files(s), name);
    if i < |Segments(s)| then
      Unseal(s);
      EncodeCut(Segments(s), i, |s|); Cut(s, Offset(Segments(s), i), |Segments(s)[i]|)
    else s
  }

  lemma FilesWithout(gs: seq<seq<byte>>, i: nat)
    requires AllSegments(gs)
    ensures AllSegments(Without(gs, i)) && FilesOf(Without(gs, i)) == Without(FilesOf(gs), i)
  {
    if i < |gs| {
      forall m | 0 <= m < |gs| - 1
        ensures IsSegment(Without(gs, i)[m])
        ensures FileOf(Without(gs, i)[m]) == Without(FilesOf(gs), i)[m]
      {
        WithoutAt(gs, i, m);
        WithoutAt(FilesOf(gs), i, m);
      }
    }
  }

  /**
   tarRm refines list removal: the first matching segment is gone, every other one is there
   byte for byte and in order, and what follows the chain is still zero.
   */
  lemma RmRefines(s: seq<byte>, name: seq<byte>)
    requires WellFormed(s)
    ensures WellFormed(RmImage(s, name))
    ensures Segments(RmImage(s, name)) == Without(Segments(s), IndexOf(Files(s), name))
    ensures Files(RmImage(s, name)) == Remove(Files(s), name)
  {
    var gs, i := Segments(s), IndexOf(Files(s), name);
    if i < |gs| {
      Unseal(s);
      EncodeCut(gs, i, |s|);
      OnlySegments(RmImage(s, name), Without(gs, i));
      FilesWithout(gs, i);
    }
  }

  // ---- tarTouch ----

  function HeaderByte(name: seq<byte>, i: nat): byte
    requires i < BLOCK && |name| < 100
  {
    if i < |name| then name[i]
    else if 100 <= i < 104 then ZERO
    else if 104 <= i < 107 then 55
    else if 108 <= i < 115 || 116 <= i < 123 || 124 <= i < 135 then ZERO
    else if 148 <= i < 156 then SPACE
    else if i == 156 then ZERO
    else if 257 <= i < 262 then USTAR[i - 257]
    else if 263 <= i < 265 then ZERO
    else if 265 <= i < 269 then ROOT[i - 265]
    else if 297 <= i < 301 then ROOT[i - 297]
    else NUL
  }

  /** The header tarTouch leaves in a block of zeros. */
  function NewHeader(name: seq<byte>): (h: seq<byte>)
    requires |name| < 100
    ensures |h| == BLOCK && forall i :: 0 <= i < BLOCK ==> h[i] == HeaderByte(name, i)
  {
    seq(BLOCK, i requires 0 <= i < BLOCK => HeaderByte(name, i))
  }

  lemma NewHeaderIsSegment(name: seq<byte>)
    requires |name| < 100 && NUL !in name
    ensures IsSegment(NewHeader(name)) && FileOf(NewHeader(name)) == File(name, [])
  {
    var h := NewHeader(name);
    assert h[257..262] == USTAR;
    var tail := h[|name|..100];
    assert h[..100] == name + tail && tail[0] == NUL;
    CStrOf(name, tail);
    assert h[..100][|name|] == NUL;
    assert h[124..135] == Repeat(ZERO, 11) + [];
    LeadingZeros(8, 11, []);
    FileIs(h);
  }

  lemma EncodeAppend(gs: seq<seq<byte>>, g: seq<byte>, len: nat)
    requires Fits(gs, len) && |Flat(gs)| + |g| + BLOCK <= len
    ensures Flat(gs + [g]) == Flat(gs) + g
    ensures Patch(Encode(gs, len), |Flat(gs)|, g) == Encode(gs + [g], len)
  {
    FlatConcat(gs, [g]);
    FlatOne(g);
  }

  ghost predicate HasRoom(s: seq<byte>, name: seq<byte>)
    requires WellFormed(s)
  {
    Has(Files(s), name) || (|name| < 100 && NUL !in name && ChainEnd(s) + 2 * 512 <= |s|)
  }

  /** The name is there, or fits the name field of a new header. */
  ghost predicate CanName(s: seq<byte>, name: seq<byte>)
    requires WellFormed(s)
  {
    Has(Files(s), name) || (|name| < 100 && NUL !in name)
  }

  /** The buffer after tarTouch, with or without room behind the new header. */
  ghost function TouchImage(s: seq<byte>, name: seq<byte>): (t: seq<byte>)
    requires WellFormed(s) && CanName(s, name)
    ensures |t| == |s|
  {
    if Has(Files(s), name) then s else Patch(s, ChainEnd(s), NewHeader(name))
  }

  /** tarTouch refines appending an empty file; the old segments stay where they are. */
  lemma TouchRefines(s: seq<byte>, name: seq<byte>)
    requires WellFormed(s) && HasRoom(s, name)
    ensures WellFormed(TouchImage(s, name))
    ensures Segments(TouchImage(s, name)) ==
            if Has(Files(s), name) then Segments(s) else Segments(s) + [NewHeader(name)]
    ensures Files(TouchImage(s, name)) == Touch(Files(s), name)
  {
    if !Has(Files(s), name) {
      Unseal(s);
      NewHeaderIsSegment(name);
      EncodeAppend(Segments(s), NewHeader(name), |s|);
      OnlySegments(TouchImage(s, name), Segments(s) + [NewHeader(name)]);
    }
  }

  /** Behind good segments the walk goes on. */
  lemma {:induction false} WalkGoesOn(gs: seq<seq<byte>>, rest: seq<byte>)
    requires AllSegments(gs) && Chained(Flat(gs) + rest)
    ensures Chained(rest)
  {
    if gs == [] {
      assert Flat(gs) + rest == rest;
    } else {
      Associate(gs[0], Flat(gs[1..]), rest);
      assert Flat(gs) == gs[0] + Flat(gs[1..]);
      WalkPasses(gs[0], Flat(gs[1..]) + rest);
      WalkGoesOn(gs[1..], rest);
    }
  }

  lemma WalkPasses(g: seq<byte>, rest: seq<byte>)
    requires IsSegment(g) && Chained(g + rest)
    ensures Chained(rest)
  {
    assert (g + rest)[..BLOCK] == g[..BLOCK];
    SameBlock(g + rest, g);
    SplitAt(g, rest);
  }

  /**
   HasRoom is exactly what tarTouch does not check: without a zero block behind the new header the
   header still lands inside the buffer, but the walk then runs off the buffer's end.
   */
  lemma TouchKeepsIff(s: seq<byte>, name: seq<byte>)
    requires WellFormed(s) && CanName(s, name)
    ensures WellFormed(TouchImage(s, name)) <==> HasRoom(s, name)
  {
    var t, gs := TouchImage(s, name), Segments(s);
    if HasRoom(s, name) {
      TouchRefines(s, name);
    } else if WellFormed(t) {
      var h, z := NewHeader(name), Zeros(|s| - |Flat(gs)| - BLOCK);
      Unseal(s);
      NewHeaderIsSegment(name);
      TouchedBytes(s, gs, h);
      WalkMeetsSegments(t);
      WalkGoesOn(gs, h + z);
      WalkPasses(h, z);
    }
  }

  lemma TouchedBytes(s: seq<byte>, gs: seq<seq<byte>>, h: seq<byte>)
    requires Fits(gs, |s|) && s == Encode(gs, |s|) && |h| == BLOCK
    ensures Patch(s, |Flat(gs)|, h) == Flat(gs) + (h + Zeros(|s| - |Flat(gs)| - BLOCK))
  {
    PatchFront(Flat(gs), Zeros(|s| - |Flat(gs)|), h);
  }

  /** The archive of two empty files "A" and "B", in a buffer of the source's size. */
  ghost function TwoFiles(): (s: seq<byte>)
    ensures |s| == SOURCE_SIZE && WellFormed(s) && Files(s) == [File([65], []), File([66], [])]
  {
    var z := Zeros(SOURCE_SIZE);
    EmptyArchive(z);
    OneFile(z);
    var s := TouchImage(z, [65]);
    TouchRefines(s, [66]);
    TouchImage(s, [66])
  }

  lemma OneFile(z: seq<byte>)
    requires |z| == SOURCE_SIZE && WellFormed(z) && Segments(z) == [] && ChainEnd(z) == 0
    ensures HasRoom(z, [65])
    ensures var s := TouchImage(z, [65]);
            && WellFormed(s) && Segments(s) == [NewHeader([65])] && Files(s) == [File([65], [])]
            && ChainEnd(s) == BLOCK && HasRoom(s, [66])
  {
    TouchRefines(z, [65]);
    var s := TouchImage(z, [65]);
    Unseal(s);
    assert Segments(s) == [NewHeader([65])];
    FlatOne(NewHeader([65]));
    assert Files(s)[0].name == [65];
  }

  // ---- writing inside one file ----

  lemma EncodePatch(gs: seq<seq<byte>>, i: nat, at: nat, where: nat, bs: seq<byte>, len: nat)
    requires i < |gs| && Fits(gs, len) && at + |bs| <= |gs[i]| && where == Offset(gs, i) + at
    ensures var hs := gs[i := Patch(gs[i], at, bs)];
            && |Flat(hs)| == |Flat(gs)| && where + |bs| <= len
            && Patch(Encode(gs, len), where, bs) == Encode(hs, len)
  {
    var g := Patch(gs[i], at, bs);
    var hs := gs[i := g];
    var f, r := Flat(gs[..i]), Flat(gs[i + 1..]);
    var z := Zeros(len - |Flat(gs)|);
    FlatThree(gs, i);
    FlatThree(hs, i);
    assert hs[..i] == gs[..i] && hs[i + 1..] == gs[i + 1..];
    PatchMiddle(f, gs[i], r + z, at, bs);
    Associate(f + gs[i], r, z);
    Associate(f + g, r, z);
  }

  lemma FlatThree(gs: seq<seq<byte>>, i: nat)
    requires i < |gs|
    ensures Flat(gs) == Flat(gs[..i]) + gs[i] + Flat(gs[i + 1..])
  {
    FlatConcat(gs[..i], gs[i..]);
    assert gs == gs[..i] + gs[i..];
    FlatFrom(gs, i);
    Associate(Flat(gs[..i]), gs[i], Flat(gs[i + 1..]));
  }

  lemma FlatFrom(gs: seq<seq<byte>>, i: nat)
    requires i < |gs|
    ensures Flat(gs[i..]) == gs[i] + Flat(gs[i + 1..])
  {
    assert gs[i..][1..] == gs[i + 1..];
  }

  lemma PatchedSegment(g: seq<byte>, pos: nat, bs: seq<byte>)
    requires IsSegment(g) && pos + |bs| <= |FileOf(g).data|
    ensures BLOCK + pos + |bs| <= |g|
    ensures var p := Patch(g, BLOCK + pos, bs);
            IsSegment(p) && FileOf(p) == File(Name(g), Patch(FileOf(g).data, pos, bs))
  {
    FileIs(g);
    var p := Patch(g, BLOCK + pos, bs);
    assert p[..BLOCK] == g[..BLOCK];
    SameBlock(p, g);
    FileIs(p);
    assert p[BLOCK..BLOCK + FileSize(g)] == Patch(g[BLOCK..BLOCK + FileSize(g)], pos, bs);
  }

  lemma FilesUpdate(gs: seq<seq<byte>>, i: nat, g: seq<byte>)
    requires AllSegments(gs) && i < |gs| && IsSegment(g)
    ensures AllSegments(gs[i := g])
    ensures FilesOf(gs[i := g]) == FilesOf(gs)[i := FileOf(g)]
  {
    var hs := gs[i := g];
    assert forall j :: 0 <= j < |hs| ==> hs[j] == if j == i then g else gs[j];
  }

  /** t is s with bs stored at position pos of the data of file i. */
  ghost predicate Stored(s: seq<byte>, i: nat, pos: nat, bs: seq<byte>, t: seq<byte>)
    requires WellFormed(s)
  {
    && i < |Files(s)| && pos + |bs| <= |Files(s)[i].data|
    && Offset(Segments(s), i) + BLOCK + pos + |bs| <= |s|
    && t == Patch(s, Offset(Segments(s), i) + BLOCK + pos, bs)
  }

  lemma PatchData(s: seq<byte>, gs: seq<seq<byte>>, i: nat, pos: nat, where: nat, bs: seq<byte>, t: seq<byte>)
    requires Represents(s, gs) && i < |gs| && pos + |bs| <= |FileOf(gs[i]).data|
    requires where == Offset(gs, i) + (BLOCK + pos) && where + |bs| <= |s| && t == Patch(s, where, bs)
    ensures BLOCK + pos + |bs| <= |gs[i]| && Represents(t, gs[i := Patch(gs[i], BLOCK + pos, bs)])
  {
    var g := PatchedAt(gs[i], pos, bs);
    EncodePatch(gs, i, BLOCK + pos, where, bs, |s|);
    FilesUpdate(gs, i, g);
  }

  lemma PatchedAt(g: seq<byte>, pos: nat, bs: seq<byte>) returns (p: seq<byte>)
    requires IsSegment(g) && pos + |bs| <= |FileOf(g).data|
    ensures BLOCK + pos + |bs| <= |g| && p == Patch(g, BLOCK + pos, bs) && IsSegment(p)
  {
    PatchedSegment(g, pos, bs);
    p := Patch(g, BLOCK + pos, bs);
  }

  /** Storing bytes in the data of a file replaces those bytes of that file and nothing else. */
  lemma PatchRefines(s: seq<byte>, i: nat, pos: nat, bs: seq<byte>, t: seq<byte>)
    requires WellFormed(s) && Stored(s, i, pos, bs, t)
    ensures WellFormed(t) && BLOCK + pos + |bs| <= |Segments(s)[i]|
    ensures Segments(t) == Segments(s)[i := Patch(Segments(s)[i], BLOCK + pos, bs)]
    ensures Files(t) == Files(s)[i := File(Files(s)[i].name, Patch(Files(s)[i].data, pos, bs))]
  {
    var gs := Segments(s);
    Unseal(s);
    PatchData(s, gs, i, pos, Offset(gs, i) + BLOCK + pos, bs, t);
    OnlySegments(t, gs[i := Patch(gs[i], BLOCK + pos, bs)]);
    FileIs(gs[i]);
    PatchedSegment(gs[i], pos, bs);
    FilesUpdate(gs, i, Patch(gs[i], BLOCK + pos, bs));
  }

  // ---- tarEdit ----

  /** The tail of tarEdit: the size field, then the data, of the entry whose header is at o. */
  function StoreTail(s: seq<byte>, o: nat, data: seq<byte>): (t: seq<byte>)
    requires o + BLOCK + |data| <= |s|
    ensures |t| == |s|
  {
    Patch2(s, o + 124, Padded(8, |data|, 11), o + BLOCK, data)
  }

  lemma ShortName(g: seq<byte>)
    requires IsSegment(g)
    ensures |FileOf(g).name| < 100 && NUL !in FileOf(g).name
  {
    FileIs(g);
    var n := g[..100];
    assert CStr(n) == n ==> NUL !in n;
  }

  lemma FlatWithout(gs: seq<seq<byte>>, i: nat)
    requires i < |gs|
    ensures |Flat(Without(gs, i))| == |Flat(gs)| - |gs[i]|
  {
    FlatThree(gs, i);
    FlatConcat(gs[..i], gs[i + 1..]);
  }

  /** Removing an entry always makes room for a new header of the same name. */
  lemma RoomAfterRm(s: seq<byte>, name: seq<byte>)
    requires WellFormed(s) && Has(Files(s), name)
    ensures WellFormed(RmImage(s, name)) && HasRoom(RmImage(s, name), name)
    ensures |name| < 100 && NUL !in name
  {
    var gs, i := Segments(s), IndexOf(Files(s), name);
    RmRefines(s, name);
    Unseal(s);
    FlatWithout(gs, i);
    ShortName(gs[i]);
  }

  ghost predicate EditFits(s: seq<byte>, name: seq<byte>, size: nat)
    requires WellFormed(s)
  {
    RmRefines(s, name);
    var f := FindOffset(RmImage(s, name), name);
    f.Some? ==> f.value + BLOCK + size <= |s|
  }

  /** The buffer after tarEdit, exactly as coded. */
  ghost function EditImage(s: seq<byte>, name: seq<byte>, data: seq<byte>): (t: seq<byte>)
    requires WellFormed(s) && EditFits(s, name, |data|)
    ensures |t| == |s|
  {
    if !Has(Files(s), name) then s
    else
      RmRefines(s, name);
      RoomAfterRm(s, name);
      var r := RmImage(s, name);
      if Has(Files(r), name) then StoreTail(r, FindOffset(r, name).value, data) else TouchImage(r, name)
  }

  /**
   On an archive with one file of that name tarEdit never reaches its tail: whatever the data, it removes
   the file and appends an empty one of that name.
   */
  lemma EditRefines(s: seq<byte>, name: seq<byte>, data: seq<byte>)
    requires WellFormed(s) && Single(Files(s), name) && Has(Files(s), name)
    ensures EditFits(s, name, |data|) && |name| < 100
    ensures var t := EditImage(s, name, data);
            && WellFormed(t) && (Unique(Files(s)) ==> Unique(Files(t)))
            && Files(t) == Remove(Files(s), name) + [File(name, [])]
            && Segments(t) == Without(Segments(s), IndexOf(Files(s), name)) + [NewHeader(name)]
  {
    RmRefines(s, name);
    RoomAfterRm(s, name);
    TouchRefines(RmImage(s, name), name);
    if Unique(Files(s)) {
      RemoveLookup(Files(s), name, name);
      TouchLookup(Files(RmImage(s, name)), name, name);
    }
  }

  /** So the data asked for is stored exactly when it is empty. */
  lemma EditStoresIff(s: seq<byte>, name: seq<byte>, data: seq<byte>)
    requires WellFormed(s) && Unique(Files(s)) && Has(Files(s), name)
    ensures EditFits(s, name, |data|) && WellFormed(EditImage(s, name, data))
    ensures Lookup(Files(EditImage(s, name, data)), name) == Some(data) <==> data == []
    ensures forall other :: other != name ==>
              Lookup(Files(EditImage(s, name, data)), other) == Lookup(Files(s), other)
  {
    RemoveLookup(Files(s), name, name);
    EditRefines(s, name, data);
    forall other ensures Lookup(Remove(Files(s), name) + [File(name, [])], other) ==
                         if other == name then Some([]) else Lookup(Files(s), other)
    {
      RetouchLookup(Files(s), name, other);
    }
  }

  /** A concrete archive of one file "A": editing it to hold one byte leaves it empty. */
  lemma EditLosesData()
    ensures var s := Patch(Zeros(SOURCE_SIZE), 0, NewHeader([65]));
            && WellFormed(s) && Files(s) == [File([65], [])]
            && EditFits(s, [65], 1) && WellFormed(EditImage(s, [65], [66]))
            && Files(EditImage(s, [65], [66])) == [File([65], [])]
  {
    var z := Zeros(SOURCE_SIZE);
    EmptyArchive(z);
    TouchRefines(z, [65]);
    var s := Patch(z, 0, NewHeader([65]));
    assert s == TouchImage(z, [65]);
    assert Files(s) == [File([65], [])];
    EditRefines(s, [65], [66]);
  }

  /** A block written with a new size field: still the header of that file. */
  lemma SizedHeader(h: seq<byte>, n: nat)
    requires |h| == BLOCK && HeaderOk(h) && n < 0x8000_0000
    ensures var t := Patch(h, 124, Padded(8, n, 11));
            HeaderOk(t) && Name(t) == Name(h) && FileSize(t) == n
  {
    var t := Patch(h, 124, Padded(8, n, 11));
    assert t[..100] == h[..100] && t[257..262] == h[257..262];
    assert t[124..135] == Padded(8, n, 11);
    OctalRoundTrips(n, 11);
  }

  lemma SizedSegment(h: seq<byte>, data: seq<byte>, pad: nat)
    requires |h| == BLOCK && HeaderOk(h) && |data| < 0x8000_0000
    requires pad + |data| == Blocks(|data|) * 512
    ensures var g := Patch(h, 124, Padded(8, |data|, 11)) + (data + Zeros(pad));
            IsSegment(g) && FileOf(g) == File(Name(h), data)
  {
    var h' := Patch(h, 124, Padded(8, |data|, 11));
    var g := h' + (data + Zeros(pad));
    SizedHeader(h, |data|);
    MiddleAt(h', data, Zeros(pad));
    SplitAt(h', []);
    SameBlock(g, h' + []);
    assert h' + [] == h';
    FileIs(g);
  }

  /**
   The intended contract of lines 261-264: on a fresh last entry with room behind it, the tail
   makes the file hold exactly the data, keeps every other segment, and restores the invariant.
   */
  lemma StoreTailRefines(s: seq<byte>, gs: seq<seq<byte>>, h: seq<byte>, data: seq<byte>)
    requires Represents(s, gs + [h]) && |h| == BLOCK && |s| < 0x8000_0000
    requires |Flat(gs)| + (Blocks(|data|) + 2) * 512 <= |s|
    ensures var t := StoreTail(s, |Flat(gs)|, data);
            && WellFormed(t) && |Segments(t)| == |gs| + 1 && Segments(t)[..|gs|] == gs && AllSegments(gs)
            && Files(t) == FilesOf(gs) + [File(Name(h), data)]
  {
    var o := |Flat(gs)|;
    var pad := (Blocks(|data|) + 1) * 512 - BLOCK - |data|;
    var g := Patch(h, 124, Padded(8, |data|, 11)) + (data + Zeros(pad));
    assert AllSegments(gs) by {
      assert forall i :: 0 <= i < |gs| ==> (gs + [h])[i] == gs[i];
    }
    assert IsSegment(h) by {
      assert (gs + [h])[|gs|] == h;
    }
    SizedSegment(h, data, pad);
    StoreTailBytes(s, gs, h, data, pad);
    OnlySegments(StoreTail(s, o, data), gs + [g]);
  }

  /**
   The one way to reach the tail: a second file of that name. When it is the last entry, and empty,
   tarEdit does what it is meant to: the first one is gone, and this one holds the data.
   */
  lemma EditOfDuplicate(s: seq<byte>, name: seq<byte>, data: seq<byte>, gs: seq<seq<byte>>, h: seq<byte>)
    requires WellFormed(s) && Has(Files(s), name) && |s| < 0x8000_0000
    requires AllSegments(gs) && IsSegment(h) && |h| == BLOCK && FileOf(h).name == name
    requires Without(Segments(s), IndexOf(Files(s), name)) == gs + [h] && !Has(FilesOf(gs), name)
    requires |Flat(gs)| + (Blocks(|data|) + 2) * 512 <= |s|
    ensures EditFits(s, name, |data|)
    ensures var t := EditImage(s, name, data); WellFormed(t) && Files(t) == FilesOf(gs) + [File(name, data)]
  {
    RmRefines(s, name);
    TailOnDuplicate(RmImage(s, name), gs, h, name, data);
  }

  lemma TailOnDuplicate(r: seq<byte>, gs: seq<seq<byte>>, h: seq<byte>, name: seq<byte>, data: seq<byte>)
    requires WellFormed(r) && Segments(r) == gs + [h] && |r| < 0x8000_0000
    requires AllSegments(gs) && IsSegment(h) && |h| == BLOCK && FileOf(h).name == name
    requires !Has(FilesOf(gs), name) && |Flat(gs)| + (Blocks(|data|) + 2) * 512 <= |r|
    ensures Has(Files(r), name) && FindOffset(r, name) == Some(|Flat(gs)|)
    ensures |Flat(gs)| + BLOCK + |data| <= |r|
    ensures var t := StoreTail(r, |Flat(gs)|, data); WellFormed(t) && Files(t) == FilesOf(gs) + [File(name, data)]
  {
    LastIsFound(r, gs, h, name);
    BlocksIsLeast(|data|, Blocks(|data|));
    FileIs(h);
    Unseal(r);
    StoreTailRefines(r, gs, h, data);
  }

  lemma LastIsFound(r: seq<byte>, gs: seq<seq<byte>>, h: seq<byte>, name: seq<byte>)
    requires WellFormed(r) && Segments(r) == gs + [h] && AllSegments(gs) && IsSegment(h)
    requires FileOf(h).name == name && !Has(FilesOf(gs), name)
    ensures Has(Files(r), name) && FindOffset(r, name) == Some(|Flat(gs)|)
  {
    Unseal(r);
    forall j | 0 <= j < |gs| ensures Files(r)[j].name != name {
      assert (gs + [h])[j] == gs[j] && FilesOf(gs)[j] == FileOf(gs[j]);
    }
    assert (gs + [h])[|gs|] == h;
    IndexOfIs(Files(r), name, |gs|);
    assert (gs + [h])[..|gs|] == gs;
  }

  lemma StoreTailBytes(s: seq<byte>, gs: seq<seq<byte>>, h: seq<byte>, data: seq<byte>, pad: nat)
    requires |h| == BLOCK && Fits(gs + [h], |s|) && s == Encode(gs + [h], |s|)
    requires |Flat(gs)| + 2 * 512 + |data| + pad <= |s|
    ensures var g := Patch(h, 124, Padded(8, |data|, 11)) + (data + Zeros(pad));
            Fits(gs + [g], |s|) && StoreTail(s, |Flat(gs)|, data) == Encode(gs + [g], |s|)
  {
    var g := Patch(h, 124, Padded(8, |data|, 11)) + (data + Zeros(pad));
    var o := |Flat(gs)|;
    var m := |s| - o - BLOCK - |data| - pad;
    EncodeLast(gs, h, |s|, |data| + pad + m);
    EncodeLast(gs, g, |s|, m);
    TailPatches(Flat(gs), h, 124, o + 124, o + BLOCK, Padded(8, |data|, 11), data, pad, m);
  }

  lemma EncodeLast(gs: seq<seq<byte>>, g: seq<byte>, len: nat, n: nat)
    requires |Flat(gs)| + |g| + n == len && n >= BLOCK
    ensures Fits(gs + [g], len) && Encode(gs + [g], len) == Flat(gs) + g + Zeros(n)
  {
    FlatConcat(gs, [g]);
    FlatOne(g);
  }
}
