/** What the tarEdit of an O_TRUNC open does to the descriptors of the other files. */
module Truncation {
  import opened Bytes
  import opened Dictionary
  import opened Archive
  import opened Descriptors
  import opened DescriptorRuns

  /** Every segment is as long as its file says. */
  ghost predicate Sized(gs: seq<seq<byte>>, fs: seq<File>) {
    |gs| == |fs| && forall i :: 0 <= i < |gs| ==> |gs[i]| == (Blocks(|fs[i].data|) + 1) * 512
  }

  lemma OffsetsGrow(gs: seq<seq<byte>>, fs: seq<File>, i: nat, j: nat)
    requires i <= j <= |gs| && Sized(gs, fs)
    ensures Offset(gs, j) >= Offset(gs, i) + (j - i) * 512
    decreases j - i
  {
    if i < j {
      OffsetsGrow(gs, fs, i, j - 1);
      OffsetNext(gs, j - 1);
    }
  }

  /** Offsets after segment i is cut out and a new header is appended. */
  lemma OffsetBefore(gs: seq<seq<byte>>, i: nat, h: seq<byte>, k: nat)
    requires k <= i < |gs|
    ensures Offset(Without(gs, i) + [h], k) == Offset(gs, k)
  {
    assert (Without(gs, i) + [h])[..k] == gs[..k];
  }

  lemma OffsetAfter(gs: seq<seq<byte>>, i: nat, h: seq<byte>, k: nat)
    requires i <= k < |gs|
    ensures Offset(Without(gs, i) + [h], k) == Offset(gs, k + 1) - |gs[i]|
  {
    var a, b := gs[..i], gs[i + 1..k + 1];
    assert (Without(gs, i) + [h])[..k] == a + b;
    assert gs[..k + 1] == a + ([gs[i]] + b);
    FlatConcat(a, b);
    FlatConcat(a, [gs[i]] + b);
    FlatConcat([gs[i]], b);
    FlatOne(gs[i]);
  }

  lemma SelfOffset(gs: seq<seq<byte>>, fs: seq<File>, hs: seq<seq<byte>>, i: nat, h: seq<byte>, k: nat)
    requires i < |gs| && Sized(gs, fs) && hs == Without(gs, i) + [h] && k == |gs| - 1
    ensures Offset(hs, k) == Offset(gs, i) && |fs[i].data| == 0 <==> Offset(gs, i) + BLOCK == |Flat(gs)|
  {
    OffsetAfter(gs, i, h, k);
    OffsetsGrow(gs, fs, i + 1, |gs|);
    OffsetNext(gs, i);
    assert gs[..|gs|] == gs;
  }

  lemma OtherOffset(gs: seq<seq<byte>>, fs: seq<File>, hs: seq<seq<byte>>, i: nat, j: nat, h: seq<byte>, k: nat)
    requires i < |gs| && j < |gs| && i != j && Sized(gs, fs) && hs == Without(gs, i) + [h]
    requires k == if j < i then j else j - 1
    ensures Offset(hs, k) == Offset(gs, j) <==> Offset(gs, j) < Offset(gs, i)
  {
    if j < i {
      OffsetBefore(gs, i, h, j);
      OffsetsGrow(gs, fs, j, i);
    } else {
      OffsetAfter(gs, i, h, j - 1);
      OffsetsGrow(gs, fs, i, j);
    }
  }

  /** Located, over segments and files. */
  ghost predicate LocatedIn(gs: seq<seq<byte>>, fs: seq<File>, d: FileDesc) {
    && |gs| == |fs| && Has(fs, d.name)
    && d.data == Some(Offset(gs, IndexOf(fs, d.name)) + BLOCK) && d.size == |fs[IndexOf(fs, d.name)].data|
  }

  lemma LocatedIsIn(s: seq<byte>, d: FileDesc)
    requires WellFormed(s)
    ensures Located(s, d) <==> LocatedIn(Segments(s), Files(s), d)
  {}

  /** What tarEdit of entry i does: it is cut out, and an empty one of that name is appended. */
  ghost predicate Retouched(gs: seq<seq<byte>>, hs: seq<seq<byte>>, fs: seq<File>, es: seq<File>, i: nat) {
    && Sized(gs, fs) && Alone(fs, i) && |hs| == |es| && RetouchedFiles(fs, es, i)
    && exists h: seq<byte> :: hs == Without(gs, i) + [h]
  }

  lemma LocatedMoves(gs: seq<seq<byte>>, hs: seq<seq<byte>>, fs: seq<File>, es: seq<File>, d: FileDesc,
                     j: nat, k: nat)
    requires |gs| == |fs| && |hs| == |es| && LocatedIn(gs, fs, d)
    requires j == IndexOf(fs, d.name) < |fs| && k == IndexOf(es, d.name) < |es|
    ensures LocatedIn(hs, es, d) <==> Offset(hs, k) == Offset(gs, j) && |es[k].data| == |fs[j].data|
  {}

  lemma RetouchedOffset(gs: seq<seq<byte>>, hs: seq<seq<byte>>, fs: seq<File>, es: seq<File>, i: nat, j: nat, k: nat)
    requires Retouched(gs, hs, fs, es, i) && j < |fs|
    requires k == if j == i then |fs| - 1 else if j < i then j else j - 1
    ensures if j == i then Offset(hs, k) == Offset(gs, i) && |fs[i].data| == 0 <==> Offset(gs, i) + BLOCK == |Flat(gs)|
            else Offset(hs, k) == Offset(gs, j) <==> Offset(gs, j) < Offset(gs, i)
  {
    var h :| hs == Without(gs, i) + [h];
    if j == i {
      SelfOffset(gs, fs, hs, i, h, k);
    } else {
      OtherOffset(gs, fs, hs, i, j, h, k);
    }
  }

  lemma RetouchedKeeps(gs: seq<seq<byte>>, hs: seq<seq<byte>>, fs: seq<File>, es: seq<File>, d: FileDesc,
                       i: nat, j: nat)
    requires Retouched(gs, hs, fs, es, i) && LocatedIn(gs, fs, d) && j == IndexOf(fs, d.name)
    ensures LocatedIn(hs, es, d) <==>
            if j == i then Offset(gs, i) + BLOCK == |Flat(gs)| else Offset(gs, j) < Offset(gs, i)
  {
    var k := if j == i then |fs| - 1 else if j < i then j else j - 1;
    RetouchIndex(fs, es, d.name, i, j, k);
    LocatedMoves(gs, hs, fs, es, d, j, k);
    RetouchedOffset(gs, hs, fs, es, i, j, k);
  }

  /**
   After the tarEdit of an O_TRUNC open, a descriptor still points at its entry exactly when its
   entry stands before the truncated one, or it is the truncated one, last and already empty.
   */
  lemma TruncKeepsIff(s: seq<byte>, path: seq<byte>, d: FileDesc)
    requires GoodWith(s, path) && Single(Files(s), path) && Located(s, d)
    ensures Located(TruncImage(s, path), d) <==>
            if d.name == path then FindOffset(s, path).value + BLOCK == ChainEnd(s)
            else FindOffset(s, d.name).value < FindOffset(s, path).value
  {
    var t := TruncImage(s, path);
    EditRefines(s, path, []);
    TruncRetouches(s, path);
    LocatedIsIn(s, d);
    LocatedIsIn(t, d);
    var i, j := IndexOf(Files(s), path), IndexOf(Files(s), d.name);
    RetouchedKeeps(Segments(s), Segments(t), Files(s), Files(t), d, i, j);
  }

  lemma TruncRetouches(s: seq<byte>, path: seq<byte>)
    requires GoodWith(s, path) && Single(Files(s), path)
    ensures var t := TruncImage(s, path);
            Retouched(Segments(s), Segments(t), Files(s), Files(t), IndexOf(Files(s), path))
  {
    EditRefines(s, path, []);
    RetouchItems(Files(s), path);
    SingleIsAlone(Files(s), path);
    SizedFiles(s);
  }

  lemma SizedFiles(s: seq<byte>)
    requires WellFormed(s)
    ensures Sized(Segments(s), Files(s))
  {
    Unseal(s);
    forall i | 0 <= i < |Segments(s)|
      ensures |Segments(s)[i]| == (Blocks(|Files(s)[i].data|) + 1) * 512
    {
      FileIs(Segments(s)[i]);
    }
  }

  /** Truncating a file moves every file behind it. */
  lemma TruncMovesLater(s: seq<byte>, path: seq<byte>, d: FileDesc)
    requires GoodWith(s, path) && Single(Files(s), path) && Located(s, d)
    requires IndexOf(Files(s), path) < IndexOf(Files(s), d.name)
    ensures !Located(TruncImage(s, path), d)
  {
    TruncKeepsIff(s, path, d);
    SizedFiles(s);
    OffsetsGrow(Segments(s), Files(s), IndexOf(Files(s), path), IndexOf(Files(s), d.name));
  }

  /** On it, truncating "A" moves "B" under the descriptor that is open on "B". */
  lemma TruncMovesOther()
    ensures var s := TwoFiles();
            && GoodWith(s, [65]) && Single(Files(s), [65]) && Located(s, Opened(s, [66], 0))
            && !Located(TruncImage(s, [65]), Opened(s, [66], 0))
  {
    var s := TwoFiles();
    assert [65][0] != [66][0];
    IndexOfIs(Files(s), [65], 0);
    IndexOfIs(Files(s), [66], 1);
    RemoveLookup(Files(s), [65], [65]);
    OpenedIsOk(s, [66], 0);
    TruncMovesLater(s, [65], Opened(s, [66], 0));
  }
}
