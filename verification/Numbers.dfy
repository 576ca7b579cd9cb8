/**
 Positional numerals and the conversion loops of src/ustar.c and src/io.c.
 Numeral, Padded and Value are the reference; the methods are the source's loops.
 */
module Numbers {
  import opened Bytes

  predicate IsBase(b: nat) {
    b == 8 || b == 10 || b == 16
  }

  // b * x, x / b and x % b for the three bases, written so that each case is linear.
  function Times(b: nat, x: nat): nat
    requires IsBase(b)
  {
    if b == 8 then 8 * x else if b == 10 then 10 * x else 16 * x
  }

  function Quotient(b: nat, x: nat): (q: nat)
    requires IsBase(b)
    ensures q <= x && (x > 0 ==> q < x)
  {
    if b == 8 then x / 8 else if b == 10 then x / 10 else x / 16
  }

  function Remainder(b: nat, x: nat): (r: nat)
    requires IsBase(b)
    ensures r < b
  {
    if b == 8 then x % 8 else if b == 10 then x % 10 else x % 16
  }

  function Pow(b: nat, e: nat): (p: nat)
    requires IsBase(b)
    ensures p > 0
  {
    if e == 0 then 1 else Times(b, Pow(b, e - 1))
  }

  /** They are the operations they are named after. */
  lemma BaseArithmetic(b: nat, x: nat)
    requires IsBase(b)
    ensures Times(b, x) == b * x && Quotient(b, x) == x / b && Remainder(b, x) == x % b
  {}

  /** The digits, as text. */
  lemma DigitsAreText(d: nat)
    requires d < 16
    ensures DigitByte(d) == Ascii("0123456789ABCDEF")[d] && DigitOf(Ascii("0123456789ABCDEF")[d]) == d
  {}

  function DigitByte(d: nat): byte
    requires d < 16
  {
    if d < 10 then 48 + d else 55 + d
  }

  function DigitOf(c: byte): int {
    if c < 65 then c - 48 else c - 55
  }

  predicate IsDigit(b: nat, c: byte) {
    (48 <= c <= 57 || 65 <= c <= 70) && DigitOf(c) < b
  }

  predicate IsNumeral(b: nat, s: seq<byte>) {
    forall i :: 0 <= i < |s| ==> IsDigit(b, s[i])
  }

  /** The number a digit string denotes, most significant digit first. */
  function Value(b: nat, s: seq<byte>): nat
    requires IsBase(b) && IsNumeral(b, s)
  {
    if s == [] then 0 else Times(b, Value(b, s[..|s| - 1])) + DigitOf(s[|s| - 1])
  }

  /** The digits of n without leading zeros; nothing at all for 0. */
  function Numeral(b: nat, n: nat): (s: seq<byte>)
    requires IsBase(b)
    ensures IsNumeral(b, s)
  {
    if n == 0 then [] else Numeral(b, Quotient(b, n)) + [DigitByte(Remainder(b, n))]
  }

  /** The usual text of n: its digits, or "0". */
  function Text(b: nat, n: nat): (s: seq<byte>)
    requires IsBase(b)
    ensures IsNumeral(b, s) && |s| >= 1
  {
    if n == 0 then [ZERO] else Numeral(b, n)
  }

  /** The last w digits of n, with leading zeros. */
  function Padded(b: nat, n: nat, w: nat): (s: seq<byte>)
    requires IsBase(b)
    ensures IsNumeral(b, s) && |s| == w
  {
    if w == 0 then [] else Padded(b, Quotient(b, n), w - 1) + [DigitByte(Remainder(b, n))]
  }

  lemma ValueSnoc(b: nat, s: seq<byte>, d: nat)
    requires IsBase(b) && IsNumeral(b, s) && d < b
    ensures Value(b, s + [DigitByte(d)]) == Times(b, Value(b, s)) + d
  {
    var t := s + [DigitByte(d)];
    assert t[..|t| - 1] == s;
  }

  /** The loop step of every digit writer: the lowest digit moves in front of those written. */
  lemma PeelDigit(b: nat, n: nat, written: seq<byte>)
    requires IsBase(b) && n > 0
    ensures Numeral(b, n) + written == Numeral(b, Quotient(b, n)) + ([DigitByte(Remainder(b, n))] + written)
    ensures |Numeral(b, n)| == |Numeral(b, Quotient(b, n))| + 1
  {
    Associate(Numeral(b, Quotient(b, n)), [DigitByte(Remainder(b, n))], written);
  }

  lemma {:induction false} ValueOfNumeral(b: nat, n: nat)
    requires IsBase(b)
    ensures Value(b, Numeral(b, n)) == n
  {
    if n > 0 {
      ValueOfNumeral(b, Quotient(b, n));
      ValueSnoc(b, Numeral(b, Quotient(b, n)), Remainder(b, n));
    }
  }

  /** Reading a canonical text gives the number back, in any of the three bases. */
  lemma ValueOfText(b: nat, n: nat)
    requires IsBase(b)
    ensures Value(b, Text(b, n)) == n
  {
    ValueOfNumeral(b, n);
    assert [ZERO][..0] == [];
  }

  lemma DivBelow(b: nat, n: nat, p: nat)
    requires IsBase(b)
    ensures n < Times(b, p) <==> Quotient(b, n) < p
  {}

  lemma {:induction false} ValueBound(b: nat, s: seq<byte>)
    requires IsBase(b) && IsNumeral(b, s)
    ensures Value(b, s) < Pow(b, |s|)
  {
    if s != [] {
      ValueBound(b, s[..|s| - 1]);
    }
  }

  lemma {:induction false} ValueOfPaddedBelow(b: nat, n: nat, w: nat)
    requires IsBase(b) && n < Pow(b, w)
    ensures Value(b, Padded(b, n, w)) == n
  {
    if w > 0 {
      DivBelow(b, n, Pow(b, w - 1));
      ValueOfPaddedBelow(b, Quotient(b, n), w - 1);
      ValueSnoc(b, Padded(b, Quotient(b, n), w - 1), Remainder(b, n));
    }
  }

  /** A fixed-width field gives n back exactly when n fits in its width. */
  lemma ValueOfPadded(b: nat, n: nat, w: nat)
    requires IsBase(b)
    ensures Value(b, Padded(b, n, w)) == n <==> n < Pow(b, w)
  {
    ValueBound(b, Padded(b, n, w));
    if n < Pow(b, w) {
      ValueOfPaddedBelow(b, n, w);
    }
  }

  /** n needs at most w digits exactly when it is below b to the w. */
  lemma {:induction false} NumeralLength(b: nat, n: nat, w: nat)
    requires IsBase(b)
    ensures |Numeral(b, n)| <= w <==> n < Pow(b, w)
  {
    if w > 0 && n > 0 {
      DivBelow(b, n, Pow(b, w - 1));
      NumeralLength(b, Quotient(b, n), w - 1);
    }
  }

  /** Every prefix of a digit string denotes at most what the whole string denotes. */
  lemma {:induction false} ValueOfPrefix(b: nat, s: seq<byte>, k: nat)
    requires IsBase(b) && IsNumeral(b, s) && k <= |s|
    ensures Value(b, s[..k]) <= Value(b, s)
  {
    if k == |s| {
      assert s[..k] == s;
    } else {
      var t := s[..|s| - 1];
      assert s[..k] == t[..k];
      ValueOfPrefix(b, t, k);
    }
  }

  lemma {:induction false} LeadingZeros(b: nat, k: nat, s: seq<byte>)
    requires IsBase(b) && IsNumeral(b, s)
    ensures IsNumeral(b, Repeat(ZERO, k) + s)
    ensures Value(b, Repeat(ZERO, k) + s) == Value(b, s)
  {
    var z := Repeat(ZERO, k);
    var all := z + s;
    if s != [] {
      assert all[..|all| - 1] == z + s[..|s| - 1];
      LeadingZeros(b, k, s[..|s| - 1]);
    } else if k > 0 {
      var z' := Repeat(ZERO, k - 1);
      assert all[..|all| - 1] == z' + s;
      LeadingZeros(b, k - 1, s);
    }
  }

  lemma Widths(n: nat)
    requires n < 0x1_0000_0000
    ensures |Numeral(8, n)| <= 11 && |Numeral(10, n)| <= 10 && |Numeral(16, n)| <= 8
    ensures n < Pow(8, 11)
  {
    assert Pow(8, 2) == 64 && Pow(10, 2) == 100 && Pow(16, 2) == 256;
    assert Pow(8, 4) == 4096 && Pow(10, 4) == 10000 && Pow(16, 4) == 65536;
    assert Pow(8, 6) == 0x4_0000 && Pow(10, 6) == 1000000 && Pow(16, 6) == 0x100_0000;
    assert Pow(8, 8) == 0x100_0000 && Pow(10, 8) == 100000000 && Pow(16, 8) == 0x1_0000_0000;
    assert Pow(8, 10) == 0x4000_0000 && Pow(10, 10) == 10000000000;
    assert Pow(8, 11) == 0x2_0000_0000;
    NumeralLength(8, n, 11);
    NumeralLength(10, n, 10);
    NumeralLength(16, n, 8);
  }

  // ---- src/ustar.c ----

  method Oct2Bin(str: array<byte>, at: nat, size: nat) returns (n: int32)
    requires at + size <= str.Length
    requires IsNumeral(8, str[at..at + size]) && Value(8, str[at..at + size]) < 0x8000_0000
    ensures n as int == Value(8, str[at..at + size])
  {
    n := 0;
    ghost var s := str[at..at + size];
    for c := 0 to size
      invariant n as int == Value(8, s[..c])
    {
      assert s[..c + 1][..c] == s[..c];
      ValueOfPrefix(8, s, c + 1);
      n := n * 8;
      n := n + (str[at + c] - 48) as int32;
    }
    assert s[..size] == s;
  }

  /** The digit loop of bin2oct, intToStr and hexToStr: lowest digit first into the scratch array. */
  method EmitDigits(b: uint32, num: uint32, tmp: array<byte>) returns (j: nat)
    requires IsBase(b as int) && |Numeral(b as int, num as int)| < tmp.Length
    modifies tmp
    ensures j == |Numeral(b as int, num as int)|
    ensures Reversed(tmp[..j]) == Numeral(b as int, num as int)
  {
    j := 0;
    var n := num;
    ghost var all := Numeral(b as int, num as int);
    while n > 0
      invariant 0 <= j <= |all|
      invariant all == Numeral(b as int, n as int) + Reversed(tmp[..j])
      decreases n
    {
      PeelDigit(b as int, n as int, Reversed(tmp[..j]));
      tmp[j] := DigitByte((n % b) as int);
      assert tmp[..j + 1][..j] == tmp[..j];
      j := j + 1;
      n := n / b;
    }
  }

  /** Their second loop: the scratch digits, read backwards, into the destination. */
  method EmitReversed(dest: array<byte>, at: nat, tmp: array<byte>, len: nat)
    requires len <= tmp.Length && at + len <= dest.Length && tmp != dest
    modifies dest
    ensures dest[..] == Patch(old(dest[..]), at, Reversed(tmp[..len]))
  {
    var i, j := 0, len;
    while j > 0
      invariant 0 <= j <= len && i + j == len
      invariant forall k :: at <= k < at + i ==> dest[k] == tmp[len - 1 - (k - at)]
      invariant forall k :: 0 <= k < dest.Length && !(at <= k < at + i) ==> dest[k] == old(dest[k])
    {
      j := j - 1;
      dest[at + i] := tmp[j];
      i := i + 1;
    }
    forall k | at <= k < at + len
      ensures dest[k] == Reversed(tmp[..len])[k - at]
    {
      ReversedAt(tmp[..len], k - at);
    }
  }

  method Bin2Oct(num: uint32, str: array<byte>)
    requires |Text(8, num as int)| < str.Length
    modifies str
    ensures str[..] == Patch(old(str[..]), 0, Text(8, num as int) + [NUL])
  {
    if num == 0 {
      str[0], str[1] := ZERO, NUL;
      return;
    }
    Widths(num as int);
    var temp := new byte[12](_ => NUL);
    var j := EmitDigits(8, num, temp);
    EmitReversed(str, 0, temp, j);
    str[j] := NUL;
  }

  /** A padded numeral, digit by digit. */
  lemma {:induction false} PaddedAt(b: nat, n: nat, w: nat, k: nat)
    requires IsBase(b) && k < w
    ensures k < w - 1 ==> Padded(b, n, w)[k] == Padded(b, Quotient(b, n), w - 1)[k]
    ensures k == w - 1 ==> Padded(b, n, w)[k] == DigitByte(Remainder(b, n))
  {}

  method Bin2OctPadded(num: uint32, str: array<byte>, at: nat, width: nat)
    requires at + width <= str.Length
    modifies str
    ensures str[..] == Patch(old(str[..]), at, Padded(8, num as int, width))
  {
    var i := width;
    var n := num;
    ghost var all := Padded(8, num as int, width);
    while i > 0
      invariant 0 <= i <= width
      invariant forall k :: 0 <= k < i ==> Padded(8, n as int, i)[k] == all[k]
      invariant forall k :: 0 <= k < str.Length ==>
                  str[k] == if at + i <= k < at + width then all[k - at] else old(str[k])
    {
      PaddedAt(8, n as int, i, i - 1);
      forall k | 0 <= k < i - 1 ensures Padded(8, (n / 8) as int, i - 1)[k] == all[k] {
        PaddedAt(8, n as int, i, k);
      }
      i := i - 1;
      str[at + i] := (n % 8) as byte + ZERO;
      n := n / 8;
    }
  }

  /** oct2bin undoes both octal writers on every non-negative int. */
  lemma OctalRoundTrips(n: nat, w: nat)
    requires n < 0x8000_0000
    ensures IsNumeral(8, Text(8, n)) && Value(8, Text(8, n)) == n
    ensures Value(8, Padded(8, n, w)) == n <==> n < Pow(8, w)
    ensures n < Pow(8, 11) && |Text(8, n)| <= 11
  {
    ValueOfText(8, n);
    ValueOfPadded(8, n, w);
    Widths(n);
  }

  // ---- src/io.c ----

  /** What intToStr prints. */
  function IntText(n: int): (s: seq<byte>)
    ensures |s| >= 1
  {
    if n < 0 then [MINUS] + Text(10, -n) else Text(10, n)
  }

  /** A negative int is a minus sign and its absolute value. */
  lemma IntTextIsSigned(n: nat)
    ensures IntText(n) == Text(10, n) && (n > 0 ==> IntText(0 - n) == Ascii("-") + Text(10, n))
  {}

  /** The maximal run of decimal digits at the head of s. */
  function DigitRun(s: seq<byte>): (r: seq<byte>)
    ensures |r| <= |s| && r == s[..|r|] && IsNumeral(10, r)
    ensures |r| < |s| ==> !IsDigit(10, s[|r|])
  {
    if s == [] || !IsDigit(10, s[0]) then [] else [s[0]] + DigitRun(s[1..])
  }

  /** The number atoi reads at the head of s. */
  function AtoiValue(s: seq<byte>): int {
    if s != [] && s[0] == MINUS then 0 - Value(10, DigitRun(s[1..])) else Value(10, DigitRun(s))
  }

  /** How many bytes a scanner passes over for that number. */
  function AtoiSpan(s: seq<byte>): (k: nat)
    ensures k <= |s|
  {
    if s != [] && s[0] == MINUS then 1 + |DigitRun(s[1..])| else |DigitRun(s)|
  }

  lemma {:induction false} DigitRunOf(t: seq<byte>, rest: seq<byte>)
    requires IsNumeral(10, t) && (rest == [] || !IsDigit(10, rest[0]))
    ensures DigitRun(t + rest) == t
  {
    if t == [] {
      assert t + rest == rest;
    } else {
      assert (t + rest)[1..] == t[1..] + rest;
      DigitRunOf(t[1..], rest);
    }
  }

  lemma AtoiOfDigits(t: seq<byte>, rest: seq<byte>)
    requires IsNumeral(10, t) && t != []
    requires rest == [] || !IsDigit(10, rest[0])
    ensures AtoiValue(t + rest) == Value(10, t) && AtoiSpan(t + rest) == |t|
  {
    DigitRunOf(t, rest);
    assert (t + rest)[0] == t[0] && IsDigit(10, t[0]);
  }

  lemma DigitRunBehindMinus(t: seq<byte>, rest: seq<byte>)
    requires IsNumeral(10, t)
    requires rest == [] || !IsDigit(10, rest[0])
    ensures DigitRun(([MINUS] + t + rest)[1..]) == t
  {
    DigitRunOf(t, rest);
    assert ([MINUS] + t + rest)[1..] == t + rest;
  }

  lemma AtoiOfMinus(t: seq<byte>, rest: seq<byte>)
    requires IsNumeral(10, t)
    requires rest == [] || !IsDigit(10, rest[0])
    ensures AtoiValue([MINUS] + t + rest) == 0 - Value(10, t)
    ensures AtoiSpan([MINUS] + t + rest) == 1 + |t|
  {
    DigitRunBehindMinus(t, rest);
  }

  /** atoi undoes intToStr, and stops right behind the number. */
  lemma AtoiOfIntText(n: int, rest: seq<byte>)
    requires rest == [] || !IsDigit(10, rest[0])
    ensures AtoiValue(IntText(n) + rest) == n
    ensures AtoiSpan(IntText(n) + rest) == |IntText(n)|
  {
    var m := if n < 0 then -n else n;
    ValueOfText(10, m);
    if n < 0 {
      AtoiOfMinus(Text(10, m), rest);
    } else {
      AtoiOfDigits(Text(10, m), rest);
    }
  }

  /** An int prints in at most 11 characters, so the scratch arrays never overrun. */
  lemma IntTextLength(n: int)
    requires -0x8000_0000 < n < 0x8000_0000
    ensures |IntText(n)| <= 11
  {
    Widths(if n < 0 then -n else n);
  }

  /** One more digit of a run: its value so far, which the value of the whole run bounds. */
  lemma RunStep(run: seq<byte>, k: nat)
    requires IsNumeral(10, run) && k < |run|
    ensures Value(10, run[..k + 1]) == 10 * Value(10, run[..k]) + (run[k] as int - 48) <= Value(10, run)
  {
    assert run[..k + 1][..k] == run[..k];
    ValueOfPrefix(10, run, k + 1);
  }

  /** The digit loop of atoi; the text must end in a non-digit. */
  method ReadDigits(src: array<byte>, at: nat) returns (res: int32)
    requires at < src.Length && !IsDigit(10, src[src.Length - 1])
    requires Value(10, DigitRun(src[at..])) < 0x8000_0000
    ensures res as int == Value(10, DigitRun(src[at..]))
  {
    res := 0;
    ghost var run := DigitRun(src[at..]);
    var k := 0;
    while ZERO <= src[at + k] <= NINE
      invariant k <= |run| && at + k < src.Length
      invariant res as int == Value(10, run[..k])
      decreases src.Length - k
    {
      assert src[at..][k] == src[at + k];
      RunStep(run, k);
      res := res * 10 + (src[at + k] - 48) as int32;
      k := k + 1;
    }
    assert src[at..][k] == src[at + k];
    assert run[..k] == run;
  }

  method Atoi(src: array<byte>, at: nat) returns (r: int32)
    requires at < src.Length && src[src.Length - 1] == NUL
    requires -0x8000_0000 < AtoiValue(src[at..]) < 0x8000_0000
    ensures r as int == AtoiValue(src[at..])
  {
    var sign: int32 := 1;
    var s := at;
    if src[s] == MINUS {
      sign := -1;
      s := s + 1;
      assert src[at..][1..] == src[s..];
    }
    var res := ReadDigits(src, s);
    r := res * sign;
  }

  /** The scratch array of intToStr, filled and copied out backwards. */
  method EmitNumeral(dest: array<byte>, at: nat, m: int32) returns (j: nat)
    requires m > 0 && at + |Numeral(10, m as int)| <= dest.Length
    modifies dest
    ensures j == |Numeral(10, m as int)|
    ensures dest[..] == Patch(old(dest[..]), at, Numeral(10, m as int))
  {
    Widths(m as int);
    var tmp := new byte[11](_ => NUL);
    j := EmitDigits(10, m as uint32, tmp);
    EmitReversed(dest, at, tmp, j);
  }

  method IntToStr(dest: array<byte>, n: int32) returns (i: nat)
    requires n != -0x8000_0000
    requires |IntText(n as int)| <= dest.Length
    modifies dest
    ensures i == |IntText(n as int)|
    ensures dest[..] == Patch(old(dest[..]), 0, IntText(n as int))
  {
    i := 0;
    if n == 0 {
      dest[0] := ZERO;
      return 1;
    }
    var m := n;
    if n < 0 {
      dest[0] := MINUS;
      i := 1;
      m := -n;
    }
    ghost var s := dest[..];
    var j := EmitNumeral(dest, i, m);
    i := i + j;
    IntTextInTwo(old(dest[..]), s, n as int);
  }

  lemma IntTextInTwo(before: seq<byte>, s: seq<byte>, n: int)
    requires n != 0 && |IntText(n)| <= |before|
    requires s == if n < 0 then Patch(before, 0, [MINUS]) else before
    ensures Patch(s, if n < 0 then 1 else 0, Numeral(10, if n < 0 then -n else n)) == Patch(before, 0, IntText(n))
  {}

  /** What hexToStr prints: the digits, zero-padded on the left up to width, but never past 8. */
  function HexText(n: nat, width: int): seq<byte> {
    var t := Text(16, n);
    Repeat(ZERO, HexPad(|t|, width)) + t
  }

  /** How many zeros hexToStr puts in front of d digits. */
  function HexPad(d: nat, width: int): nat {
    if d < Min(width, 8) then Min(width, 8) - d else 0
  }

  /** Padding keeps the value; the length is max(digits, min(width, 8)) and never above 8. */
  lemma HexTextMeaning(n: nat, width: int)
    requires n < 0x1_0000_0000
    ensures IsNumeral(16, HexText(n, width)) && Value(16, HexText(n, width)) == n
    ensures var d := |Text(16, n)|; |HexText(n, width)| == if d < Min(width, 8) then Min(width, 8) else d
    ensures |HexText(n, width)| <= 8
  {
    var t := Text(16, n);
    LeadingZeros(16, HexPad(|t|, width), t);
    ValueOfText(16, n);
    Widths(n);
  }

  lemma {:induction false} ReversedZeros(t: seq<byte>, k: nat)
    ensures Reversed(t + Repeat(ZERO, k)) == Repeat(ZERO, k) + Reversed(t)
  {
    var z := Repeat(ZERO, k);
    if k == 0 {
      assert t + z == t && z + Reversed(t) == Reversed(t);
    } else {
      var z' := Repeat(ZERO, k - 1);
      assert (t + z)[..|t + z| - 1] == t + z';
      ReversedZeros(t, k - 1);
      assert [ZERO] + (z' + Reversed(t)) == z + Reversed(t);
    }
  }

  /** The padding loop of hexToStr: zeros behind the d digits, up to width but never past 8. */
  method PadScratch(tmp: array<byte>, d: nat, width: int) returns (j: nat)
    requires d <= 8 < tmp.Length
    modifies tmp
    ensures j <= 8 && j == d + HexPad(d, width)
    ensures tmp[..j] == old(tmp[..d]) + Repeat(ZERO, j - d)
  {
    j := d;
    while j < width && j < 8
      invariant d <= j <= 8 && (j > d ==> j <= width)
      invariant tmp[..d] == old(tmp[..d]) && forall k :: d <= k < j ==> tmp[k] == ZERO
    {
      tmp[j] := ZERO;
      j := j + 1;
    }
  }

  /** hexToStr up to its reversal: digits and padding in the nine-byte scratch array. */
  method HexScratch(n: uint32, width: int) returns (tmp: array<byte>, j: nat)
    ensures fresh(tmp) && tmp.Length == 9 && j <= 9
    ensures Reversed(tmp[..j]) == HexText(n as int, width)
  {
    Widths(n as int);
    tmp := new byte[9](_ => NUL);
    var d := 1;
    if n == 0 {
      tmp[0] := ZERO;
      assert tmp[..1] == [ZERO];
    } else {
      d := EmitDigits(16, n, tmp);
    }
    ghost var body := tmp[..d];
    j := PadScratch(tmp, d, width);
    ReversedZeros(body, j - d);
  }

  method HexToStr(dest: array<byte>, at: nat, n: uint32, width: int) returns (count: nat)
    requires at + |HexText(n as int, width)| <= dest.Length
    modifies dest
    ensures count == |HexText(n as int, width)|
    ensures dest[..] == Patch(old(dest[..]), at, HexText(n as int, width))
  {
    var tmp, j := HexScratch(n, width);
    count := j;
    EmitReversed(dest, at, tmp, j);
  }
}
