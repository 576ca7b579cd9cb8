/** tokenize of src/sh.c: the words of a line, cut out in place. */
module Tokenizer {
  import opened Bytes

  /** Where the space-free run through i ends. */
  function RunEnd(s: seq<byte>, i: nat): (e: nat)
    requires i <= |s|
    ensures i <= e <= |s| && (e < |s| ==> s[e] == SPACE)
    ensures forall k :: i <= k < e ==> s[k] != SPACE
    decreases |s| - i
  {
    if i == |s| || s[i] == SPACE then i else RunEnd(s, i + 1)
  }

  /** The starts of the runs from i on, when no run goes through i - 1. */
  function Runs(s: seq<byte>, i: nat): seq<nat>
    requires i <= |s|
    decreases |s| - i
  {
    if i == |s| then []
    else if s[i] == SPACE then Runs(s, i + 1)
    else [i] + Runs(s, RunEnd(s, i))
  }

  predicate IsStart(s: seq<byte>, a: nat) {
    a < |s| && s[a] != SPACE && (a == 0 || s[a - 1] == SPACE)
  }

  /** Runs lists the start of every maximal space-free run, in order, and nothing else. */
  lemma {:induction false} RunsAreMaximal(s: seq<byte>, i: nat)
    requires i <= |s| && (i == 0 || i == |s| || s[i] == SPACE || s[i - 1] == SPACE)
    ensures forall a: nat :: a in Runs(s, i) <==> i <= a && IsStart(s, a)
    ensures forall j, k :: 0 <= j < k < |Runs(s, i)| ==> Runs(s, i)[j] < Runs(s, i)[k]
    decreases |s| - i
  {
    if i < |s| {
      var next := if s[i] == SPACE then i + 1 else RunEnd(s, i);
      RunsAreMaximal(s, next);
      var rest := Runs(s, next);
      assert forall k :: 0 <= k < |rest| ==> rest[k] in rest;
    }
  }

  /** The line after its spaces became NULs. */
  function Cut(s: seq<byte>): (c: seq<byte>)
    ensures |c| == |s| && forall k :: 0 <= k < |s| ==> c[k] == if s[k] == SPACE then NUL else s[k]
  {
    seq(|s|, k requires 0 <= k < |s| => if s[k] == SPACE then NUL else s[k])
  }

  /** The C string at a position of the cut line is the rest of the run through it. */
  lemma {:induction false} CStrIsRun(s: seq<byte>, a: nat, rest: seq<byte>)
    requires a <= |s| && NUL !in s && rest != [] && rest[0] == NUL
    ensures CStr((Cut(s) + rest)[a..]) == s[a..RunEnd(s, a)]
    decreases |s| - a
  {
    var t := Cut(s) + rest;
    if a < |s| && s[a] != SPACE {
      CStrIsRun(s, a + 1, rest);
      CStrCons(t, a);
      assert s[a] in s;
      assert s[a..RunEnd(s, a)] == [s[a]] + s[a + 1..RunEnd(s, a + 1)];
    } else {
      assert t[a..][0] == NUL;
    }
  }

  lemma CStrCons(t: seq<byte>, a: nat)
    requires a < |t| && t[a] != NUL
    ensures CStr(t[a..]) == [t[a]] + CStr(t[a + 1..])
  {
    assert t[a..][1..] == t[a + 1..];
  }

  /** The next position a new run can start at, after i characters. */
  ghost function NextFree(s: seq<byte>, i: nat): nat
    requires i <= |s|
  {
    if i > 0 && s[i - 1] != SPACE then RunEnd(s, i) else i
  }

  /** The starts still to come after i characters. */
  ghost function Ahead(s: seq<byte>, i: nat): seq<nat>
    requires i <= |s|
  {
    Runs(s, NextFree(s, i))
  }

  /** The character at i starts a run or leaves the starts to come as they are. */
  lemma AheadStep(s: seq<byte>, i: nat)
    requires i < |s|
    ensures Ahead(s, i) == if IsStart(s, i) then [i] + Ahead(s, i + 1) else Ahead(s, i + 1)
  {}

  /** The same, counted from the first start on: m starts are behind, the rest is ahead. */
  lemma StartStep(s: seq<byte>, i: nat, m: nat)
    requires i < |s| && m <= |Runs(s, 0)| && Ahead(s, i) == Runs(s, 0)[m..]
    ensures IsStart(s, i) ==> m < |Runs(s, 0)| && Runs(s, 0)[m] == i && Ahead(s, i + 1) == Runs(s, 0)[m + 1..]
    ensures !IsStart(s, i) ==> Ahead(s, i + 1) == Runs(s, 0)[m..]
  {
    AheadStep(s, i);
    if IsStart(s, i) {
      assert Runs(s, 0)[m..][0] == i && Runs(s, 0)[m..][1..] == Runs(s, 0)[m + 1..];
      assert ([i] + Ahead(s, i + 1))[1..] == Ahead(s, i + 1);
    }
  }

  /**
   The line s, ended by its NUL, is cut in place; the token pointers are the starts of its first
   max runs.
   */
  method Tokenize(str: array<byte>, tokens: array<nat>, max: nat, ghost s: seq<byte>) returns (count: nat)
    requires tokens.Length >= max
    requires NUL !in s && |s| < str.Length && str[..|s|] == s && str[|s|] == NUL
    modifies str, tokens
    ensures count == Min(max, |Runs(s, 0)|) && tokens[..count] == Runs(s, 0)[..count]
    ensures str[..] == Cut(s) + old(str[|s|..])
  {
    count := 0;
    var inToken := false;
    ghost var runs, m := Runs(s, 0), 0;
    var i := 0;
    forall k | 0 <= k < |s| ensures s[k] != NUL {
      assert s[k] in s;
    }
    while str[i] != NUL
      invariant 0 <= i <= |s| && m <= |runs| && Ahead(s, i) == runs[m..]
      invariant count == Min(max, m) && forall j :: 0 <= j < count ==> tokens[j] == runs[j]
      invariant inToken ==> i > 0 && s[i - 1] != SPACE
      invariant i > 0 && s[i - 1] != SPACE && !inToken ==> count == max
      invariant forall k :: 0 <= k < i ==> str[k] == Cut(s)[k]
      invariant forall k :: i <= k < str.Length ==> str[k] == old(str[k])
      decreases |s| - i
    {
      assert s[i] == old(str[..|s|])[i] == str[i];
      StartStep(s, i, m);
      m := if IsStart(s, i) then m + 1 else m;
      if str[i] != SPACE && !inToken {
        if count < max {
          tokens[count] := i;
          count := count + 1;
          inToken := true;
        }
      } else if str[i] == SPACE {
        str[i] := NUL;
        inToken := false;
      }
      i := i + 1;
    }
  }

  /** What the words are: after the cut, the C string at each token is the run that begins there. */
  lemma TokensAreWords(s: seq<byte>, rest: seq<byte>, max: nat)
    requires NUL !in s && rest != [] && rest[0] == NUL
    ensures var count := Min(max, |Runs(s, 0)|);
            forall j :: 0 <= j < count ==>
              var a := Runs(s, 0)[j];
              && IsStart(s, a) && RunEnd(s, a) > a
              && CStr((Cut(s) + rest)[a..]) == s[a..RunEnd(s, a)]
  {
    RunsAreMaximal(s, 0);
    forall j | 0 <= j < Min(max, |Runs(s, 0)|)
      ensures var a := Runs(s, 0)[j];
              IsStart(s, a) && RunEnd(s, a) > a && CStr((Cut(s) + rest)[a..]) == s[a..RunEnd(s, a)]
    {
      assert Runs(s, 0)[j] in Runs(s, 0);
      CStrIsRun(s, Runs(s, 0)[j], rest);
    }
  }
}
