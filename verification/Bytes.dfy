/** Bytes, C strings and byte patches: the vocabulary every other module shares. */
module Bytes {
  type byte = b: int | 0 <= b < 256

  newtype int32 = x: int | -0x8000_0000 <= x < 0x8000_0000
  newtype uint32 = x: int | 0 <= x < 0x1_0000_0000

  const NUL: byte := 0
  const BACKSPACE: byte := 8
  const NEWLINE: byte := 10
  const RETURN: byte := 13
  const SPACE: byte := 32
  const PERCENT: byte := 37
  const MINUS: byte := 45
  const ZERO: byte := 48
  const NINE: byte := 57

  datatype Option<+T> = None | Some(value: T)

  /** The bytes of a text of 7-bit characters. */
  function Ascii(text: string): (bs: seq<byte>)
    requires forall i :: 0 <= i < |text| ==> text[i] as int < 128
    ensures |bs| == |text| && forall i :: 0 <= i < |text| ==> bs[i] == text[i] as int
  {
    seq(|text|, i requires 0 <= i < |text| => text[i] as int)
  }

  /** The characters the code writes in quotes. */
  lemma CharactersAreText()
    ensures [NUL, NEWLINE, RETURN, SPACE] == Ascii("\0\n\r ")
    ensures [PERCENT, MINUS, ZERO, NINE] == Ascii("%-09")
  {}

  function Min(a: int, b: int): int {
    if a <= b then a else b
  }

  function Repeat(c: byte, n: nat): (s: seq<byte>)
    ensures |s| == n && forall i :: 0 <= i < n ==> s[i] == c
  {
    seq(n, _ => c)
  }

  function Zeros(n: nat): (z: seq<byte>)
    ensures |z| == n && forall i :: 0 <= i < n ==> z[i] == NUL
  {
    seq(n, _ => NUL)
  }

  lemma ZerosConcat(m: nat, n: nat)
    ensures Zeros(m) + Zeros(n) == Zeros(m + n)
  {}

  lemma ZerosDrop(k: nat, m: nat, n: nat)
    ensures Zeros(k + m + n)[k..] == Zeros(m) + Zeros(n)
  {}

  lemma MiddleAt(a: seq<byte>, b: seq<byte>, c: seq<byte>)
    ensures (a + (b + c))[..|a|] == a && (a + (b + c))[|a|..|a| + |b|] == b
  {}

  lemma SubSlice(s: seq<byte>, o: nat, n: nat, a: nat, b: nat)
    requires o + n <= |s| && a <= b <= n
    ensures s[o..o + n][a..b] == s[o + a..o + b]
  {
    var t := s[o..o + n][a..b];
    assert forall i :: 0 <= i < b - a ==> t[i] == s[o + a..o + b][i];
  }

  lemma SliceAt(s: seq<byte>, o: nat, n: nat, a: nat, b: nat, p: nat, q: nat)
    requires o + n <= |s| && a <= b <= n && p == o + a && q == o + b
    ensures s[o..o + n][a..b] == s[p..q]
  {
    SubSlice(s, o, n, a, b);
  }

  lemma Glue(s: seq<byte>, k: nat)
    requires k <= |s|
    ensures s[..k] + s[k..] == s
  {}

  lemma SliceOfSlice(s: seq<byte>, o: nat, n: nat, a: nat, k: nat)
    requires o + n <= |s| && a + k <= n
    ensures s[o..o + n][a..a + k] == s[o + a..o + a + k]
  {
    SubSlice(s, o, n, a, a + k);
  }

  lemma SplitAt(f: seq<byte>, t: seq<byte>)
    ensures (f + t)[..|f|] == f && (f + t)[|f|..] == t
  {}

  /** The C string that starts at the head of s: everything before the first NUL. */
  function CStr(s: seq<byte>): (c: seq<byte>)
    ensures |c| <= |s| && c == s[..|c|] && NUL !in c
    ensures |c| < |s| ==> s[|c|] == NUL
  {
    if s == [] || s[0] == NUL then [] else [s[0]] + CStr(s[1..])
  }

  lemma {:induction false} CStrOf(name: seq<byte>, rest: seq<byte>)
    requires NUL !in name && |rest| > 0 && rest[0] == NUL
    ensures CStr(name + rest) == name
  {
    if name == [] {
      assert name + rest == rest;
    } else {
      assert (name + rest)[1..] == name[1..] + rest;
      CStrOf(name[1..], rest);
    }
  }

  /** s with the bytes from position at on replaced by bs. */
  function Patch(s: seq<byte>, at: nat, bs: seq<byte>): (p: seq<byte>)
    requires at + |bs| <= |s|
    ensures |p| == |s|
    ensures forall i :: 0 <= i < |s| ==> p[i] == if at <= i < at + |bs| then bs[i - at] else s[i]
  {
    s[..at] + bs + s[at + |bs|..]
  }

  lemma PatchMiddle(f: seq<byte>, g: seq<byte>, r: seq<byte>, at: nat, bs: seq<byte>)
    requires at + |bs| <= |g|
    ensures Patch(f + g + r, |f| + at, bs) == f + Patch(g, at, bs) + r
  {}

  lemma PatchFront(f: seq<byte>, r: seq<byte>, bs: seq<byte>)
    requires |bs| <= |r|
    ensures Patch(f + r, |f|, bs) == f + (bs + r[|bs|..])
  {}

  lemma PatchTwice(f: seq<byte>, h: seq<byte>, r: seq<byte>, at: nat, p: seq<byte>, bs: seq<byte>)
    requires at + |p| <= |h| && |bs| <= |r|
    ensures Patch(Patch(f + h + r, |f| + at, p), |f| + |h|, bs) == (f + Patch(h, at, p)) + (bs + r[|bs|..])
  {
    PatchMiddle(f, h, r, at, p);
    PatchFront(f + Patch(h, at, p), r, bs);
  }

  lemma Associate(a: seq<byte>, b: seq<byte>, c: seq<byte>)
    ensures a + (b + c) == a + b + c
  {}

  lemma Regroup(a: seq<byte>, b: seq<byte>, c: seq<byte>, d: seq<byte>, e: seq<byte>)
    ensures (a + b) + (c + (d + e)) == a + (b + (c + d)) + e
  {}

  function Patch2(s: seq<byte>, at1: nat, p: seq<byte>, at2: nat, bs: seq<byte>): (t: seq<byte>)
    requires at1 + |p| <= |s| && at2 + |bs| <= |s|
    ensures |t| == |s|
  {
    Patch(Patch(s, at1, p), at2, bs)
  }

  /** Two patches in what follows f: one inside h, one at the head of the zeros behind it. */
  lemma TailPatches(f: seq<byte>, h: seq<byte>, at: nat, at1: nat, at2: nat,
                    p: seq<byte>, bs: seq<byte>, m: nat, n: nat)
    requires at + |p| <= |h| && at1 == |f| + at && at2 == |f| + |h|
    ensures Patch2(f + h + Zeros(|bs| + m + n), at1, p, at2, bs) ==
            f + (Patch(h, at, p) + (bs + Zeros(m))) + Zeros(n)
  {
    var z := Zeros(|bs| + m + n);
    PatchTwice(f, h, z, at, p, bs);
    ZerosDrop(|bs|, m, n);
    Regroup(f, Patch(h, at, p), bs, Zeros(m), Zeros(n));
  }

  /** s read backwards. */
  ghost function Reversed(s: seq<byte>): (r: seq<byte>)
    ensures |r| == |s|
  {
    if s == [] then [] else [s[|s| - 1]] + Reversed(s[..|s| - 1])
  }

  lemma {:induction false} ReversedAt(s: seq<byte>, k: nat)
    requires k < |s|
    ensures Reversed(s)[k] == s[|s| - 1 - k]
  {
    if k > 0 {
      ReversedAt(s[..|s| - 1], k - 1);
    }
  }

  /** ceilDiv(x, 512) of src/ustar.c. */
  function Blocks(x: nat): nat {
    x / 512 + if x % 512 != 0 then 1 else 0
  }

  /** It is the least number of blocks that hold x bytes. */
  lemma BlocksIsLeast(x: nat, k: nat)
    ensures k * 512 >= x <==> k >= Blocks(x)
  {}
}
