/** The reference: a file system as an ordered list of named contents. */
module Dictionary {
  import opened Bytes

  datatype File = File(name: seq<byte>, data: seq<byte>)

  /** The position of the first file of that name, or the length of the list. */
  function IndexOf(fs: seq<File>, name: seq<byte>): (i: nat)
    ensures i <= |fs|
    ensures i < |fs| ==> fs[i].name == name
    ensures forall j :: 0 <= j < i ==> fs[j].name != name
  {
    if fs == [] || fs[0].name == name then 0 else 1 + IndexOf(fs[1..], name)
  }

  predicate Has(fs: seq<File>, name: seq<byte>) {
    IndexOf(fs, name) < |fs|
  }

  function Lookup(fs: seq<File>, name: seq<byte>): Option<seq<byte>> {
    if Has(fs, name) then Some(fs[IndexOf(fs, name)].data) else None
  }

  /** The list without its item i, if it has one. */
  function Without<T>(ts: seq<T>, i: nat): seq<T> {
    if i < |ts| then ts[..i] + ts[i + 1..] else ts
  }

  lemma WithoutAt<T>(ts: seq<T>, i: nat, m: nat)
    requires i < |ts| && m < |ts| - 1
    ensures |Without(ts, i)| == |ts| - 1 && Without(ts, i)[m] == if m < i then ts[m] else ts[m + 1]
  {}

  function Remove(fs: seq<File>, name: seq<byte>): seq<File> {
    Without(fs, IndexOf(fs, name))
  }

  /** An empty file of that name at the end, unless there is a file of that name already. */
  function Touch(fs: seq<File>, name: seq<byte>): seq<File> {
    if Has(fs, name) then fs else fs + [File(name, [])]
  }

  /** The contents of the first file of that name replaced. */
  function Store(fs: seq<File>, name: seq<byte>, data: seq<byte>): seq<File> {
    var i := IndexOf(fs, name);
    if i < |fs| then fs[i := File(name, data)] else fs
  }

  ghost predicate Unique(fs: seq<File>) {
    forall i, j :: 0 <= i < j < |fs| ==> fs[i].name != fs[j].name
  }

  /** At most one file has that name. */
  predicate Single(fs: seq<File>, name: seq<byte>) {
    !Has(Remove(fs, name), name)
  }

  /** IndexOf is the only index with its two properties. */
  lemma IndexOfIs(fs: seq<File>, name: seq<byte>, i: nat)
    requires i <= |fs|
    requires i < |fs| ==> fs[i].name == name
    requires forall j :: 0 <= j < i ==> fs[j].name != name
    ensures IndexOf(fs, name) == i
  {}

  /** What the four operations do to every lookup; names stay unique. */
  lemma RemoveLookup(fs: seq<File>, name: seq<byte>, other: seq<byte>)
    requires Unique(fs)
    ensures Unique(Remove(fs, name)) && Single(fs, name)
    ensures Lookup(Remove(fs, name), other) == if other == name then None else Lookup(fs, other)
  {
    var i, j := IndexOf(fs, name), IndexOf(fs, other);
    var r := Remove(fs, name);
    if i < |fs| {
      RemoveItems(fs, name);
      IndexOfIs(r, name, |r|);
      IndexOfIs(r, other, if other == name || j == |fs| then |r| else if j < i then j else j - 1);
    }
  }

  lemma RemoveItems(fs: seq<File>, name: seq<byte>)
    requires Has(fs, name)
    ensures |Remove(fs, name)| == |fs| - 1
    ensures forall m :: 0 <= m < |fs| - 1 ==> Remove(fs, name)[m] == fs[if m < IndexOf(fs, name) then m else m + 1]
  {
    forall m | 0 <= m < |fs| - 1
      ensures Remove(fs, name)[m] == fs[if m < IndexOf(fs, name) then m else m + 1]
    {
      WithoutAt(fs, IndexOf(fs, name), m);
    }
  }

  lemma TouchLookup(fs: seq<File>, name: seq<byte>, other: seq<byte>)
    ensures Unique(fs) ==> Unique(Touch(fs, name))
    ensures Lookup(Touch(fs, name), other) ==
            if other == name && Lookup(fs, name) == None then Some([]) else Lookup(fs, other)
  {
    var j := IndexOf(fs, other);
    if !Has(fs, name) {
      IndexOfIs(Touch(fs, name), other, if j == |fs| && other != name then |fs| + 1 else j);
    }
  }

  /** A missing name, once touched, is there once. */
  lemma TouchIsSingle(fs: seq<File>, name: seq<byte>)
    ensures Single(fs, name) ==> Single(Touch(fs, name), name)
  {
    if !Has(fs, name) {
      IndexOfIs(Touch(fs, name), name, |fs|);
      assert Remove(Touch(fs, name), name) == fs;
    }
  }

  lemma StoreLookup(fs: seq<File>, name: seq<byte>, data: seq<byte>, other: seq<byte>)
    ensures Unique(fs) ==> Unique(Store(fs, name, data))
    ensures Lookup(Store(fs, name, data), other) ==
            if other == name && Has(fs, name) then Some(data) else Lookup(fs, other)
  {
    IndexOfIs(Store(fs, name, data), other, IndexOf(fs, other));
  }

  /** File i cut out and an empty one of that name appended, item by item. */
  ghost predicate RetouchedFiles(fs: seq<File>, es: seq<File>, i: nat) {
    && i < |fs| == |es| && es[|fs| - 1] == File(fs[i].name, [])
    && forall m :: 0 <= m < |fs| - 1 ==> es[m] == fs[if m < i then m else m + 1]
  }

  lemma RetouchItems(fs: seq<File>, path: seq<byte>)
    requires Has(fs, path)
    ensures RetouchedFiles(fs, Remove(fs, path) + [File(path, [])], IndexOf(fs, path))
  {
    RemoveItems(fs, path);
  }

  /** No other file has the name of file i. */
  ghost predicate Alone(fs: seq<File>, i: nat) {
    i < |fs| && forall m :: 0 <= m < |fs| && m != i ==> fs[m].name != fs[i].name
  }

  lemma SingleIsAlone(fs: seq<File>, name: seq<byte>)
    requires Has(fs, name) && Single(fs, name)
    ensures Alone(fs, IndexOf(fs, name))
  {
    var i := IndexOf(fs, name);
    forall m | i < m < |fs|
      ensures fs[m].name != name
    {
      WithoutAt(fs, i, m - 1);
      assert Remove(fs, name)[m - 1] == fs[m];
    }
  }

  /** Where a file is after that. */
  lemma RetouchIndex(fs: seq<File>, es: seq<File>, other: seq<byte>, i: nat, j: nat, k: nat)
    requires Alone(fs, i) && RetouchedFiles(fs, es, i) && j == IndexOf(fs, other) < |fs|
    requires k == if j == i then |fs| - 1 else if j < i then j else j - 1
    ensures IndexOf(es, other) == k && |es[k].data| == if j == i then 0 else |fs[j].data|
  {
    IndexOfIs(es, other, k);
  }

  lemma RetouchLookup(fs: seq<File>, path: seq<byte>, other: seq<byte>)
    requires Unique(fs) && Has(fs, path)
    ensures Lookup(Remove(fs, path) + [File(path, [])], other) ==
            if other == path then Some([]) else Lookup(fs, other)
  {
    RemoveLookup(fs, path, path);
    RemoveLookup(fs, path, other);
    TouchLookup(Remove(fs, path), path, other);
  }
}
