/**
 vsfmtWrite and vsfmtGet of src/io.c: the printer, the scanner, and the formats on which the
 scanner undoes the printer. Formats and texts are C strings without their NUL.
 */
module Format {
  import opened Bytes
  import opened Numbers

  /** The arguments of the printer, and what the scanner stores. */
  datatype Arg = IntArg(n: int) | UintArg(u: nat) | CharArg(c: byte) | StrArg(s: seq<byte>)

  const CONV_S: byte := 115
  const CONV_D: byte := 100
  const CONV_C: byte := 99
  const CONV_X: byte := 120

  /** A conversion after its '%': the pad flag, the width, the conversion character. */
  datatype Spec = Spec(pad: byte, width: nat, conv: byte, rest: seq<byte>)

  function PadFlag(f: seq<byte>): (r: (byte, seq<byte>))
    ensures |r.1| <= |f|
  {
    if f != [] && f[0] == ZERO then (ZERO, f[1..]) else (SPACE, f)
  }

  /** None when the format ends inside the conversion: the source would run past its NUL. */
  function ParseSpec(f: seq<byte>): (r: Option<Spec>)
    ensures r.Some? ==> |r.value.rest| < |f|
  {
    var (pad, g) := PadFlag(f);
    var w := DigitRun(g);
    if |w| < |g| then Some(Spec(pad, Value(10, w), g[|w|], g[|w| + 1..])) else None
  }

  function PaddedInt(n: int, width: nat, pad: byte): seq<byte> {
    Repeat(pad, PadLength(|IntText(n)|, width)) + IntText(n)
  }

  function PadLength(len: nat, width: nat): nat {
    if len < width then width - len else 0
  }

  lemma AtoiOfSpaces(k: nat, t: seq<byte>)
    requires k > 0
    ensures AtoiValue(Repeat(SPACE, k) + t) == 0
  {
    assert DigitRun(Repeat(SPACE, k) + t) == [];
  }

  /** Zeros in front of a minus sign. */
  lemma AtoiOfZeros(k: nat, t: seq<byte>)
    requires k > 0 && (t == [] || !IsDigit(10, t[0]))
    ensures AtoiValue(Repeat(ZERO, k) + t) == 0
  {
    assert Repeat(ZERO, k) == Repeat(ZERO, k) + [];
    LeadingZeros(10, k, []);
    AtoiOfDigits(Repeat(ZERO, k), t);
  }

  lemma AtoiOfZeroPadded(k: nat, n: nat, rest: seq<byte>)
    requires rest == [] || !IsDigit(10, rest[0])
    ensures AtoiValue(Repeat(ZERO, k) + (Text(10, n) + rest)) == n
  {
    Associate(Repeat(ZERO, k), Text(10, n), rest);
    LeadingZeros(10, k, Text(10, n));
    ValueOfText(10, n);
    AtoiOfDigits(Repeat(ZERO, k) + Text(10, n), rest);
  }

  /**
   atoi reads a padded number back exactly when it was not padded, or is zero, or is padded with
   zeros and not negative: the zeros go in front of the minus sign.
   */
  lemma AtoiOfPaddedIff(n: int, width: nat, pad: byte, rest: seq<byte>)
    requires (pad == SPACE || pad == ZERO) && (rest == [] || !IsDigit(10, rest[0]))
    ensures AtoiValue(PaddedInt(n, width, pad) + rest) == n <==>
            width <= |IntText(n)| || n == 0 || (pad == ZERO && n > 0)
  {
    var k := PadLength(|IntText(n)|, width);
    Associate(Repeat(pad, k), IntText(n), rest);
    if k == 0 {
      assert Repeat(pad, k) + IntText(n) == IntText(n);
      AtoiOfIntText(n, rest);
    } else if pad == SPACE {
      AtoiOfSpaces(k, IntText(n) + rest);
    } else if n < 0 {
      AtoiOfZeros(k, IntText(n) + rest);
    } else {
      AtoiOfZeroPadded(k, n, rest);
    }
  }

  /** How many arguments a conversion takes. */
  function Takes(conv: byte): nat {
    if conv == CONV_S || conv == CONV_D || conv == CONV_C || conv == CONV_X then 1 else 0
  }

  /** The argument matches the conversion, as va_arg demands; the least int is excluded. */
  predicate Matches(conv: byte, a: Arg) {
    if conv == CONV_S then a.StrArg? && NUL !in a.s
    else if conv == CONV_D then a.IntArg? && -0x8000_0000 < a.n < 0x8000_0000
    else if conv == CONV_C then a.CharArg?
    else if conv == CONV_X then a.UintArg? && a.u < 0x1_0000_0000
    else false
  }

  function Conversion(s: Spec, a: Arg): seq<byte>
    requires Matches(s.conv, a)
  {
    if s.conv == CONV_S then a.s
    else if s.conv == CONV_D then PaddedInt(a.n, s.width, s.pad)
    else if s.conv == CONV_C then [a.c]
    else HexText(a.u, s.width)
  }

  /** Conversions that take no argument: "%%" prints a percent sign, unknown ones nothing. */
  function Constant(conv: byte): seq<byte> {
    if conv == PERCENT then [PERCENT] else []
  }

  /** The calls the source supports: complete conversions, widths that fit, matching arguments. */
  predicate CanPrint(fmt: seq<byte>, args: seq<Arg>)
    decreases |fmt|
  {
    if fmt == [] then true
    else if fmt[0] != PERCENT then CanPrint(fmt[1..], args)
    else
      match ParseSpec(fmt[1..])
      case None => false
      case Some(s) =>
        && s.width < 0x8000_0000
        && (Takes(s.conv) == 1 ==> args != [] && Matches(s.conv, args[0]))
        && CanPrint(s.rest, args[Takes(s.conv)..])
  }

  function Printed(fmt: seq<byte>, args: seq<Arg>): seq<byte>
    requires CanPrint(fmt, args)
    decreases |fmt|
  {
    if fmt == [] then []
    else if fmt[0] != PERCENT then [fmt[0]] + Printed(fmt[1..], args)
    else
      var s := ParseSpec(fmt[1..]).value;
      (if Takes(s.conv) == 1 then Conversion(s, args[0]) else Constant(s.conv))
      + Printed(s.rest, args[Takes(s.conv)..])
  }

  /**
   What the scanner stores, or None when it would read past the end of src (its NUL included) or
   of the format. src is what is left of the source text with its NUL.
   */
  function Scanned(src: seq<byte>, fmt: seq<byte>): Option<seq<Arg>>
    decreases |fmt|
  {
    if fmt == [] then Some([])
    else if fmt[0] != PERCENT then
      if src == [] then None
      else if src[0] == fmt[0] then Scanned(src[1..], fmt[1..])
      else Scanned(src, fmt[1..])
    else if |fmt| == 1 then None
    else if fmt[1] == CONV_D then
      if AtoiSpan(src) >= |src| then None
      else Prepend(IntArg(AtoiValue(src)), Scanned(src[AtoiSpan(src)..], fmt[2..]))
    else if fmt[1] == CONV_S then
      if |CStr(src)| >= |src| then None
      else Prepend(StrArg(CStr(src)), Scanned(src[|CStr(src)|..], fmt[2..]))
    else if fmt[1] == CONV_C then
      if src == [] then None
      else Prepend(CharArg(src[0]), Scanned(src[1..], fmt[2..]))
    else Scanned(src, fmt[2..])
  }

  function Prepend(a: Arg, r: Option<seq<Arg>>): Option<seq<Arg>> {
    match r
    case None => None
    case Some(as_) => Some([a] + as_)
  }

  // ---- the formats the scanner undoes ----

  datatype Item = Literal(c: byte) | Int | Char | Str

  function Render(items: seq<Item>): seq<byte> {
    if items == [] then []
    else
      (match items[0]
       case Literal(c) => [c]
       case Int => [PERCENT, CONV_D]
       case Char => [PERCENT, CONV_C]
       case Str => [PERCENT, CONV_S])
      + Render(items[1..])
  }

  predicate ItemMatches(item: Item, a: Arg) {
    match item
    case Literal(_) => false
    case Int => Matches(CONV_D, a)
    case Char => Matches(CONV_C, a)
    case Str => Matches(CONV_S, a)
  }

  /** One argument per conversion and no more, literals that are not '%' or NUL, "%s" only at the end. */
  predicate RoundTrips(items: seq<Item>, args: seq<Arg>)
    decreases |items|
  {
    if items == [] then args == []
    else if items[0].Literal? then
      items[0].c != PERCENT && items[0].c != NUL && RoundTrips(items[1..], args)
    else
      && args != [] && ItemMatches(items[0], args[0]) && RoundTrips(items[1..], args[1..])
      && (items[0].Str? ==> items[1..] == [])
  }

  function ItemText(a: Arg): seq<byte> {
    match a
    case IntArg(n) => IntText(n)
    case UintArg(u) => []
    case CharArg(c) => [c]
    case StrArg(s) => s
  }

  /** The text the items print. */
  function Output(items: seq<Item>, args: seq<Arg>): seq<byte>
    requires RoundTrips(items, args)
    decreases |items|
  {
    if items == [] then []
    else if items[0].Literal? then [items[0].c] + Output(items[1..], args)
    else ItemText(args[0]) + Output(items[1..], args[1..])
  }

  /** No number is directly followed by output that starts with a digit. */
  predicate Separated(items: seq<Item>, args: seq<Arg>)
    requires RoundTrips(items, args)
    decreases |items|
  {
    if items == [] then true
    else if items[0].Literal? then Separated(items[1..], args)
    else
      var rest := Output(items[1..], args[1..]);
      && (items[0].Int? ==> rest == [] || !IsDigit(10, rest[0]))
      && Separated(items[1..], args[1..])
  }

  lemma SpecOf(conv: byte, rest: seq<byte>)
    requires !IsDigit(10, conv)
    ensures ParseSpec([conv] + rest) == Some(Spec(SPACE, 0, conv, rest))
  {
    assert ([conv] + rest)[0..] == [conv] + rest && ([conv] + rest)[1..] == rest;
    assert DigitRun([conv] + rest) == [];
  }

  lemma PrintConversion(conv: byte, tail: seq<byte>, a: Arg, args: seq<Arg>)
    requires conv == CONV_D || conv == CONV_C || conv == CONV_S
    requires Matches(conv, a) && CanPrint(tail, args)
    ensures CanPrint([PERCENT, conv] + tail, [a] + args)
    ensures Printed([PERCENT, conv] + tail, [a] + args) == ItemText(a) + Printed(tail, args)
  {
    var fmt := [PERCENT, conv] + tail;
    SpecOf(conv, tail);
    assert fmt[1..] == [conv] + tail;
    assert ([a] + args)[1..] == args;
    assert Conversion(Spec(SPACE, 0, conv, tail), a) == ItemText(a) by {
      if conv == CONV_D {
        assert Repeat(SPACE, 0) + IntText(a.n) == IntText(a.n);
      }
    }
  }

  /** The conversion character of an item. */
  function Conv(item: Item): byte
    requires !item.Literal?
  {
    match item case Int => CONV_D case Char => CONV_C case Str => CONV_S
  }

  lemma RenderConversion(items: seq<Item>)
    requires items != [] && !items[0].Literal?
    ensures Render(items) == [PERCENT, Conv(items[0])] + Render(items[1..])
  {}

  /** The printer prints exactly that text. */
  lemma {:induction false} PrintedIsOutput(items: seq<Item>, args: seq<Arg>)
    requires RoundTrips(items, args)
    ensures CanPrint(Render(items), args) && Printed(Render(items), args) == Output(items, args)
    decreases |items|
  {
    if items != [] {
      if items[0].Literal? {
        PrintedIsOutput(items[1..], args);
        assert Render(items)[1..] == Render(items[1..]);
      } else {
        PrintedIsOutput(items[1..], args[1..]);
        RenderConversion(items);
        PrintConversion(Conv(items[0]), Render(items[1..]), args[0], args[1..]);
        assert args == [args[0]] + args[1..];
      }
    }
  }

  /** One conversion of the scanner, on a text that begins with what the printer printed for it. */
  lemma ScanConversion(item: Item, tail: seq<byte>, a: Arg, rest: seq<byte>, args: seq<Arg>)
    requires !item.Literal? && ItemMatches(item, a) && rest != []
    requires item.Int? ==> !IsDigit(10, rest[0])
    requires item.Str? ==> rest == [NUL]
    requires Scanned(rest, tail) == Some(args)
    ensures Scanned(ItemText(a) + rest, [PERCENT, Conv(item)] + tail) == Some([a] + args)
  {
    var fmt, src, text := [PERCENT, Conv(item)] + tail, ItemText(a) + rest, ItemText(a);
    assert fmt[2..] == tail;
    SplitAt(text, rest);
    match item
    case Int => AtoiOfIntText(a.n, rest);
    case Char =>
    case Str => CStrOf(text, rest);
  }

  lemma ScanLiteral(c: byte, tail: seq<byte>, rest: seq<byte>)
    requires c != PERCENT
    ensures Scanned([c] + rest, [c] + tail) == Scanned(rest, tail)
  {
    assert ([c] + rest)[1..] == rest && ([c] + tail)[1..] == tail;
  }

  /** A literal that is not there is passed over in the format alone. */
  lemma ScanMismatch(c: byte, tail: seq<byte>, src: seq<byte>)
    requires c != PERCENT && src != [] && src[0] != c
    ensures Scanned(src, [c] + tail) == Scanned(src, tail)
  {
    assert ([c] + tail)[1..] == tail;
  }

  /** "%s" takes everything before the NUL, and "%c" one byte. */
  lemma ScanText(t: seq<byte>, rest: seq<byte>, tail: seq<byte>)
    requires NUL !in t && rest != [] && rest[0] == NUL
    ensures Scanned(t + rest, [PERCENT, CONV_S] + tail) == Prepend(StrArg(t), Scanned(rest, tail))
  {
    assert ([PERCENT, CONV_S] + tail)[2..] == tail;
    CStrOf(t, rest);
    SplitAt(t, rest);
  }

  lemma ScanChar(c: byte, rest: seq<byte>, tail: seq<byte>)
    ensures Scanned([c] + rest, [PERCENT, CONV_C] + tail) == Prepend(CharArg(c), Scanned(rest, tail))
  {
    assert ([PERCENT, CONV_C] + tail)[2..] == tail;
    SplitAt([c], rest);
  }

  lemma ScanInt(src: seq<byte>, tail: seq<byte>)
    requires AtoiSpan(src) < |src|
    ensures Scanned(src, [PERCENT, CONV_D] + tail) ==
            Prepend(IntArg(AtoiValue(src)), Scanned(src[AtoiSpan(src)..], tail))
  {
    assert ([PERCENT, CONV_D] + tail)[2..] == tail;
  }

  lemma LiteralText(items: seq<Item>, args: seq<Arg>)
    requires items != [] && items[0].Literal? && RoundTrips(items, args)
    ensures Render(items) == [items[0].c] + Render(items[1..])
    ensures Output(items, args) + [NUL] == [items[0].c] + (Output(items[1..], args) + [NUL])
  {}

  lemma ConversionOutput(items: seq<Item>, args: seq<Arg>)
    requires items != [] && !items[0].Literal? && RoundTrips(items, args)
    ensures Render(items) == [PERCENT, Conv(items[0])] + Render(items[1..])
    ensures Output(items, args) + [NUL] == ItemText(args[0]) + (Output(items[1..], args[1..]) + [NUL])
    ensures args == [args[0]] + args[1..]
  {}

  /** The scanner reads the arguments back from that text and its NUL. */
  lemma {:induction false} ScannedIsArgs(items: seq<Item>, args: seq<Arg>)
    requires RoundTrips(items, args) && Separated(items, args)
    ensures Scanned(Output(items, args) + [NUL], Render(items)) == Some(args)
    decreases |items|
  {
    if items == [] {
      assert args == [];
    } else if items[0].Literal? {
      ScannedIsArgs(items[1..], args);
      LiteralText(items, args);
      ScanLiteral(items[0].c, Render(items[1..]), Output(items[1..], args) + [NUL]);
    } else {
      ScannedIsArgs(items[1..], args[1..]);
      ConversionOutput(items, args);
      ScanConversion(items[0], Render(items[1..]), args[0], Output(items[1..], args[1..]) + [NUL], args[1..]);
    }
  }

  /** vsfmtGet undoes vsfmtWrite. */
  lemma ScanUndoesPrint(items: seq<Item>, args: seq<Arg>)
    requires RoundTrips(items, args) && Separated(items, args)
    ensures CanPrint(Render(items), args)
    ensures Scanned(Printed(Render(items), args) + [NUL], Render(items)) == Some(args)
  {
    PrintedIsOutput(items, args);
    ScannedIsArgs(items, args);
  }

  // ---- the exact condition ----

  /** No int among them is 0. */
  predicate NoZero(args: seq<Arg>) {
    forall i :: 0 <= i < |args| && args[i].IntArg? ==> args[i].n != 0
  }

  lemma {:induction false} RunGoesOn(t: seq<byte>, rest: seq<byte>)
    requires IsNumeral(10, t)
    ensures DigitRun(t + rest) == t + DigitRun(rest)
  {
    if t == [] {
      assert t + rest == rest;
    } else {
      assert (t + rest)[1..] == t[1..] + rest;
      RunGoesOn(t[1..], rest);
    }
  }

  /** Digits behind a number multiply it. */
  lemma LongerIsMore(t: seq<byte>, r: seq<byte>)
    requires IsNumeral(10, t) && IsNumeral(10, r) && r != []
    ensures IsNumeral(10, t + r) && Value(10, t + r) >= 10 * Value(10, t)
  {
    var s := t + r;
    assert s[..|t| + 1][..|t|] == t;
    ValueOfPrefix(10, s, |t| + 1);
  }

  lemma LongerRun(m: nat, rest: seq<byte>)
    requires m > 0 && rest != [] && IsDigit(10, rest[0])
    ensures Value(10, DigitRun(Text(10, m) + rest)) > m
  {
    RunGoesOn(Text(10, m), rest);
    LongerIsMore(Text(10, m), DigitRun(rest));
    ValueOfText(10, m);
  }

  lemma AtoiAtDigit(s: seq<byte>)
    requires s != [] && IsDigit(10, s[0])
    ensures AtoiValue(s) == Value(10, DigitRun(s))
  {}

  lemma AtoiAtMinus(s: seq<byte>, t: seq<byte>)
    requires s == [MINUS] + t
    ensures AtoiValue(s) == 0 - Value(10, DigitRun(t))
  {
    assert s[1..] == t;
  }

  /** So an int other than 0 with a digit behind it is read as another one. */
  lemma DigitBehind(n: int, rest: seq<byte>)
    requires n != 0 && rest != [] && IsDigit(10, rest[0])
    ensures AtoiValue(IntText(n) + rest) != n
  {
    var m := if n < 0 then 0 - n else n;
    LongerRun(m, rest);
    if n < 0 {
      Associate([MINUS], Text(10, m), rest);
      AtoiAtMinus(IntText(n) + rest, Text(10, m) + rest);
    } else {
      AtoiAtDigit(Text(10, m) + rest);
    }
  }

  lemma PrependIs(a: Arg, r: Option<seq<Arg>>, b: Arg, bs: seq<Arg>)
    ensures Prepend(a, r) == Some([b] + bs) <==> a == b && r == Some(bs)
  {
    if r.Some? {
      assert ([a] + r.value)[0] == a && ([a] + r.value)[1..] == r.value;
      assert ([b] + bs)[0] == b && ([b] + bs)[1..] == bs;
    }
  }

  /** One conversion: what comes back of it, and of the rest. */
  lemma ScanHeadIff(item: Item, tail: seq<byte>, a: Arg, rest: seq<byte>, args: seq<Arg>)
    requires !item.Literal? && ItemMatches(item, a) && rest != [] && (item.Int? ==> a.n != 0)
    requires item.Str? ==> rest == [NUL]
    ensures Scanned(ItemText(a) + rest, [PERCENT, Conv(item)] + tail) == Some([a] + args) <==>
            Scanned(rest, tail) == Some(args) && (item.Int? ==> !IsDigit(10, rest[0]))
  {
    var src, text := ItemText(a) + rest, ItemText(a);
    assert ([PERCENT, Conv(item)] + tail)[2..] == tail;
    SplitAt(text, rest);
    match item {
      case Int =>
        if IsDigit(10, rest[0]) {
          DigitBehind(a.n, rest);
          PrependIs(IntArg(AtoiValue(src)), Scanned(src[AtoiSpan(src)..], tail), a, args);
        } else {
          AtoiOfIntText(a.n, rest);
          PrependIs(a, Scanned(rest, tail), a, args);
        }
      case Char =>
        PrependIs(a, Scanned(rest, tail), a, args);
      case Str =>
        CStrOf(text, rest);
        PrependIs(a, Scanned(rest, tail), a, args);
    }
  }

  /** The scanner gives ints other than 0 back if and only if no number is followed by a digit. */
  lemma {:induction false} ScansBackIff(items: seq<Item>, args: seq<Arg>)
    requires RoundTrips(items, args) && NoZero(args)
    ensures Scanned(Output(items, args) + [NUL], Render(items)) == Some(args) <==> Separated(items, args)
    decreases |items|
  {
    if items == [] {
      assert args == [];
    } else if items[0].Literal? {
      ScansBackIff(items[1..], args);
      LiteralText(items, args);
      ScanLiteral(items[0].c, Render(items[1..]), Output(items[1..], args) + [NUL]);
    } else {
      assert NoZero(args[1..]) by {
        assert forall i :: 0 <= i < |args| - 1 ==> args[1..][i] == args[i + 1];
      }
      ScansBackIff(items[1..], args[1..]);
      ConversionOutput(items, args);
      DigitOrNul(Output(items[1..], args[1..]));
      ScanHeadIff(items[0], Render(items[1..]), args[0], Output(items[1..], args[1..]) + [NUL], args[1..]);
    }
  }

  lemma DigitOrNul(s: seq<byte>)
    ensures IsDigit(10, (s + [NUL])[0]) <==> s != [] && IsDigit(10, s[0])
  {}

  /** vsfmtGet undoes vsfmtWrite on ints other than 0 if and only if they are separated. */
  lemma ScanUndoesPrintIff(items: seq<Item>, args: seq<Arg>)
    requires RoundTrips(items, args) && NoZero(args)
    ensures CanPrint(Render(items), args)
    ensures Scanned(Printed(Render(items), args) + [NUL], Render(items)) == Some(args) <==> Separated(items, args)
  {
    PrintedIsOutput(items, args);
    ScansBackIff(items, args);
  }

  // ---- numbers side by side ----

  const INT: seq<byte> := [PERCENT, CONV_D]

  /** A plain "%d". */
  lemma ScanOnce(src: seq<byte>)
    requires AtoiSpan(src) < |src|
    ensures Scanned(src, INT) == Some([IntArg(AtoiValue(src))])
  {
    assert INT == INT + [];
    ScanInt(src, []);
    assert [IntArg(AtoiValue(src))] + [] == [IntArg(AtoiValue(src))];
  }

  lemma ScanNothing()
    ensures AtoiSpan([NUL]) == 0 && AtoiValue([NUL]) == 0
  {
    assert DigitRun([NUL]) == [];
  }

  lemma PrependTo(a: Arg, b: Arg)
    ensures Prepend(a, Some([b])) == Some([a, b])
  {
    assert [a] + [b] == [a, b];
  }

  /** "%d%d" on a text that is one number up to its NUL: that number, and then 0. */
  lemma ScanTwice(src: seq<byte>, n: int)
    requires src != [] && src[|src| - 1] == NUL && AtoiSpan(src) == |src| - 1 && n == AtoiValue(src)
    ensures Scanned(src, INT + INT) == Some([IntArg(n), IntArg(0)])
  {
    ScanInt(src, INT);
    assert src[AtoiSpan(src)..] == [NUL];
    ScanNothing();
    ScanOnce([NUL]);
    PrependTo(IntArg(n), IntArg(0));
  }

  lemma TwoInts(m: int, n: int, items: seq<Item>, args: seq<Arg>)
    requires -0x8000_0000 < m < 0x8000_0000 && -0x8000_0000 < n < 0x8000_0000
    requires items == [Int, Int] && args == [IntArg(m), IntArg(n)]
    ensures RoundTrips(items, args) && CanPrint(Render(items), args) && Render(items) == INT + INT
    ensures Output(items, args) == Printed(Render(items), args) == IntText(m) + IntText(n)
    ensures n < 0 ==> Separated(items, args)
  {
    assert items[1..] == [Int] && args[1..] == [IntArg(n)];
    assert [Int][1..] == [] && [IntArg(n)][1..] == [];
    PrintedIsOutput(items, args);
    assert Output([Int], [IntArg(n)]) == IntText(n) + [] == IntText(n);
    assert Render([Int]) == INT;
  }

  /** With a 0 behind it, a number keeps its value only if it is 0. */
  lemma JoinedValue(m: nat, n: nat)
    ensures IsNumeral(10, Text(10, m) + Text(10, n))
    ensures n == 0 ==> (Value(10, Text(10, m) + Text(10, n)) == m <==> m == 0)
  {
    if n == 0 {
      ValueOfText(10, m);
      ValueSnoc(10, Text(10, m), 0);
      assert Text(10, n) == [DigitByte(0)];
    }
  }

  lemma JoinNegative(a: seq<byte>, b: seq<byte>)
    ensures ([MINUS] + a) + b + [NUL] == [MINUS] + (a + b) + [NUL]
  {}

  /** An int with the digits of another behind it is read as one number. */
  lemma JoinedScan(m: int, n: nat, src: seq<byte>)
    requires src == IntText(m) + Text(10, n) + [NUL]
    ensures AtoiSpan(src) == |src| - 1 && (n == 0 ==> (AtoiValue(src) == m <==> m == 0))
  {
    var k := if m < 0 then 0 - m else m;
    JoinedValue(k, n);
    if m < 0 {
      JoinNegative(Text(10, k), Text(10, n));
      AtoiOfMinus(Text(10, k) + Text(10, n), [NUL]);
    } else {
      AtoiOfDigits(Text(10, k) + Text(10, n), [NUL]);
    }
  }

  /** Of all pairs of ints printed with "%d%d", those come back whose second is negative, and 0 and 0. */
  lemma AdjacentNumbersIff(m: int, n: int, items: seq<Item>, args: seq<Arg>)
    requires -0x8000_0000 < m < 0x8000_0000 && -0x8000_0000 < n < 0x8000_0000
    requires items == [Int, Int] && args == [IntArg(m), IntArg(n)]
    ensures RoundTrips(items, args) && CanPrint(Render(items), args)
    ensures Scanned(Printed(Render(items), args) + [NUL], Render(items)) == Some(args) <==>
            n < 0 || (m == 0 && n == 0)
  {
    TwoInts(m, n, items, args);
    if n < 0 {
      ScanUndoesPrint(items, args);
    } else {
      var src := IntText(m) + Text(10, n) + [NUL];
      JoinedScan(m, n, src);
      ScanTwice(src, AtoiValue(src));
      var got: seq<Arg> := [IntArg(AtoiValue(src)), IntArg(0)];
      assert got == args <==> got[0] == args[0] && got[1] == args[1];
    }
  }

  /** One pair that is lost: 1 and 2 print as "12". */
  lemma OneTwoIsLost(items: seq<Item>, args: seq<Arg>)
    requires items == [Int, Int] && args == [IntArg(1), IntArg(2)]
    ensures RoundTrips(items, args) && CanPrint(Render(items), args)
    ensures Scanned(Printed(Render(items), args) + [NUL], Render(items)) != Some(args)
  {
    AdjacentNumbersIff(1, 2, items, args);
  }

  // ---- flags and widths ----

  lemma SpanBeforeNul(src: seq<byte>)
    requires src != [] && src[|src| - 1] == NUL
    ensures AtoiSpan(src) < |src|
  {
    var s := if src[0] == MINUS then src[1..] else src;
    assert |DigitRun(s)| == |s| && s != [] ==> IsDigit(10, s[|s| - 1]);
  }

  /** A padded number scans back with a plain "%d" exactly when atoi reads it back. */
  lemma PaddedScansBackIff(n: int, width: nat, pad: byte)
    requires pad == SPACE || pad == ZERO
    ensures Scanned(PaddedInt(n, width, pad) + [NUL], INT) == Some([IntArg(n)]) <==>
            width <= |IntText(n)| || n == 0 || (pad == ZERO && n > 0)
  {
    var src := PaddedInt(n, width, pad) + [NUL];
    AtoiOfPaddedIff(n, width, pad, [NUL]);
    SpanBeforeNul(src);
    ScanOnce(src);
    assert [IntArg(AtoiValue(src))] == [IntArg(n)] <==> AtoiValue(src) == n by {
      assert [IntArg(AtoiValue(src))][0] == IntArg(AtoiValue(src)) && [IntArg(n)][0] == IntArg(n);
    }
  }

  /** Literal characters store nothing and never read past the NUL. */
  lemma {:induction false} ScanLiterals(src: seq<byte>, fmt: seq<byte>)
    requires src != [] && src[|src| - 1] == NUL && NUL !in fmt && PERCENT !in fmt
    ensures Scanned(src, fmt) == Some([])
    decreases |fmt|
  {
    if fmt != [] {
      assert fmt[0] in fmt;
      ScanLiterals(if src[0] == fmt[0] then src[1..] else src, fmt[1..]);
    }
  }

  /** The scanner knows no flags and no widths: such a conversion stores nothing, whatever the text. */
  lemma WidthStoresNothing(src: seq<byte>, w: seq<byte>, conv: byte)
    requires src != [] && src[|src| - 1] == NUL
    requires w != [] && IsNumeral(10, w) && conv != NUL && conv != PERCENT
    ensures Scanned(src, [PERCENT] + w + [conv]) == Some([])
  {
    var fmt := [PERCENT] + w + [conv];
    assert fmt[1] == w[0] && fmt[2..] == w[1..] + [conv];
    assert forall c :: c in w[1..] ==> c in w;
    ScanLiterals(src, fmt[2..]);
  }

  lemma SpecWithFlag(w: seq<byte>, conv: byte)
    requires IsNumeral(10, w) && w != [] && w[0] == ZERO && !IsDigit(10, conv)
    ensures ParseSpec(w + [conv]) == Some(Spec(ZERO, Value(10, w), conv, []))
  {
    assert (w + [conv])[1..] == w[1..] + [conv];
    DigitRunOf(w[1..], [conv]);
    SplitAt(w[1..], [conv]);
    assert w == Repeat(ZERO, 1) + w[1..];
    LeadingZeros(10, 1, w[1..]);
  }

  lemma SpecWithoutFlag(w: seq<byte>, conv: byte)
    requires IsNumeral(10, w) && (w == [] || w[0] != ZERO) && !IsDigit(10, conv)
    ensures ParseSpec(w + [conv]) == Some(Spec(SPACE, Value(10, w), conv, []))
  {
    DigitRunOf(w, [conv]);
    SplitAt(w, [conv]);
  }

  /** The spec of a conversion with these flag and width digits. */
  lemma SpecOfWidth(w: seq<byte>, conv: byte)
    requires IsNumeral(10, w) && !IsDigit(10, conv)
    ensures ParseSpec(w + [conv]) ==
            Some(Spec(if w != [] && w[0] == ZERO then ZERO else SPACE, Value(10, w), conv, []))
  {
    if w != [] && w[0] == ZERO {
      SpecWithFlag(w, conv);
    } else {
      SpecWithoutFlag(w, conv);
    }
  }

  /** What one conversion with flag and width digits prints. */
  lemma PrintedWidth(a: Arg, w: seq<byte>, conv: byte, fmt: seq<byte>, args: seq<Arg>)
    requires IsNumeral(10, w) && Value(10, w) < 0x8000_0000 && Takes(conv) == 1 && Matches(conv, a)
    requires fmt == [PERCENT] + w + [conv] && args == [a]
    ensures CanPrint(fmt, args)
    ensures Printed(fmt, args) ==
            Conversion(Spec(if w != [] && w[0] == ZERO then ZERO else SPACE, Value(10, w), conv, []), a)
  {
    assert fmt[1..] == w + [conv];
    SpecOfWidth(w, conv);
    assert args[1..] == [];
    var c := Conversion(Spec(if w != [] && w[0] == ZERO then ZERO else SPACE, Value(10, w), conv, []), a);
    assert c + [] == c;
  }

  /** "%d" with a flag and a width: the number, behind as many zeros or spaces as the width still needs. */
  lemma PrintedNumber(n: int, w: seq<byte>, fmt: seq<byte>, args: seq<Arg>)
    requires -0x8000_0000 < n < 0x8000_0000 && IsNumeral(10, w) && Value(10, w) < 0x8000_0000
    requires fmt == [PERCENT] + w + [CONV_D] && args == [IntArg(n)]
    ensures CanPrint(fmt, args)
    ensures var t, p := IntText(n), Printed(fmt, args);
            && |p| == (if |t| < Value(10, w) then Value(10, w) else |t|) && p[|p| - |t|..] == t
            && forall i :: 0 <= i < |p| - |t| ==> p[i] == if w[0] == '0' as int then '0' as int else ' ' as int
  {
    PrintedWidth(IntArg(n), w, CONV_D, fmt, args);
    SplitAt(Repeat(if w != [] && w[0] == ZERO then ZERO else SPACE, PadLength(|IntText(n)|, Value(10, w))), IntText(n));
  }

  /** "%x" with a width: a hexadecimal numeral of that value, of as many digits as the width asks, up to 8. */
  lemma PrintedHex(u: nat, w: seq<byte>, fmt: seq<byte>, args: seq<Arg>)
    requires u < 0x1_0000_0000 && IsNumeral(10, w) && Value(10, w) < 0x8000_0000
    requires fmt == [PERCENT] + w + [CONV_X] && args == [UintArg(u)]
    ensures CanPrint(fmt, args)
    ensures var d, p, k := |Text(16, u)|, Printed(fmt, args), Min(Value(10, w), 8);
            IsNumeral(16, p) && Value(16, p) == u && |p| == if d < k then k else d
  {
    PrintedWidth(UintArg(u), w, CONV_X, fmt, args);
    HexTextMeaning(u, Value(10, w));
  }

  /** "%s" and "%c" print their argument whatever the flag and the width. */
  lemma PrintedText(a: Arg, w: seq<byte>, fmt: seq<byte>, args: seq<Arg>)
    requires IsNumeral(10, w) && Value(10, w) < 0x8000_0000 && args == [a]
    requires a.CharArg? || (a.StrArg? && NUL !in a.s)
    requires fmt == [PERCENT] + w + [if a.CharArg? then CONV_C else CONV_S]
    ensures CanPrint(fmt, args) && Printed(fmt, args) == if a.CharArg? then [a.c] else a.s
  {
    PrintedWidth(a, w, if a.CharArg? then CONV_C else CONV_S, fmt, args);
  }

  /** "%%" prints one percent sign, and a conversion that is not known prints nothing. */
  lemma PrintedConstant(conv: byte, fmt: seq<byte>)
    requires Takes(conv) == 0 && !IsDigit(10, conv) && fmt == [PERCENT, conv]
    ensures CanPrint(fmt, []) && Printed(fmt, []) == if conv == PERCENT then Ascii("%") else []
  {
    assert fmt[1..] == [] + [conv];
    SpecOfWidth([], conv);
  }

  /** The conversion characters, as the formats of the source write them. */
  lemma ConversionsAreText()
    ensures [PERCENT, CONV_D] == Ascii("%d") && [PERCENT, CONV_X] == Ascii("%x")
    ensures [PERCENT, CONV_S] == Ascii("%s") && [PERCENT, CONV_C] == Ascii("%c")
  {}

  /** A number printed with a flag or a width never scans back with the same format, and otherwise does. */
  lemma SameFormatScansBackIff(n: int, w: seq<byte>, fmt: seq<byte>, args: seq<Arg>)
    requires -0x8000_0000 < n < 0x8000_0000 && IsNumeral(10, w) && Value(10, w) < 0x8000_0000
    requires fmt == [PERCENT] + w + [CONV_D] && args == [IntArg(n)]
    ensures CanPrint(fmt, args)
    ensures Scanned(Printed(fmt, args) + [NUL], fmt) == Some(args) <==> w == []
  {
    PrintedWidth(IntArg(n), w, CONV_D, fmt, args);
    if w == [] {
      var items := [Int];
      assert items[1..] == [] && args[1..] == [];
      assert fmt == INT == Render(items);
      ScanUndoesPrint(items, args);
    } else {
      WidthStoresNothing(Printed(fmt, args) + [NUL], w, CONV_D);
    }
  }

  // ---- percent signs ----

  /** The scanner passes over "%%" without reading the '%' that it prints. */
  lemma PercentReadsNothing(src: seq<byte>, tail: seq<byte>)
    ensures Scanned(src, [PERCENT, PERCENT] + tail) == Scanned(src, tail)
  {
    assert ([PERCENT, PERCENT] + tail)[2..] == tail;
  }

  lemma PercentPrints(n: int, fmt: seq<byte>, args: seq<Arg>)
    requires -0x8000_0000 < n < 0x8000_0000 && fmt == [PERCENT, PERCENT] + INT && args == [IntArg(n)]
    ensures CanPrint(fmt, args) && Printed(fmt, args) == [PERCENT] + IntText(n)
  {
    assert args[1..] == [] && args[0..] == args;
    PrintedIsOutput([Int], args);
    assert [Int][1..] == [] && Render([Int]) == INT && Output([Int], args) == IntText(n) + [] == IntText(n);
    SpecOf(PERCENT, INT);
    assert fmt[1..] == [PERCENT] + INT;
  }

  /** So a number behind a literal percent sign scans back if and only if it is 0. */
  lemma PercentScansBackIff(n: int, fmt: seq<byte>, args: seq<Arg>)
    requires -0x8000_0000 < n < 0x8000_0000 && fmt == [PERCENT, PERCENT] + INT && args == [IntArg(n)]
    ensures CanPrint(fmt, args)
    ensures Scanned(Printed(fmt, args) + [NUL], fmt) == Some(args) <==> n == 0
  {
    var src := [PERCENT] + IntText(n) + [NUL];
    PercentPrints(n, fmt, args);
    PercentReadsNothing(src, INT);
    assert DigitRun(src) == [] && src[0] == PERCENT;
    ScanOnce(src);
    assert [IntArg(0)][0] == IntArg(0) && args[0] == IntArg(n);
  }

  // ---- the code ----

  /** The byte-by-byte copies of vsfmtWrite. */
  method Emit(str: array<byte>, ptr: nat, bs: seq<byte>) returns (next: nat)
    requires ptr + |bs| <= str.Length
    modifies str
    ensures next == ptr + |bs| && str[..next] == old(str[..ptr]) + bs
  {
    for j := 0 to |bs|
      invariant str[..ptr + j] == old(str[..ptr]) + bs[..j]
    {
      str[ptr + j] := bs[j];
      assert str[..ptr + j + 1] == str[..ptr + j] + [bs[j]];
    }
    next := ptr + |bs|;
    assert bs[..|bs|] == bs;
  }

  /** The padding loop of the 'd' case. */
  method EmitPadding(str: array<byte>, ptr: nat, len: nat, width: nat, pad: byte) returns (next: nat)
    requires ptr + PadLength(len, width) <= str.Length
    modifies str
    ensures next == ptr + PadLength(len, width)
    ensures str[..next] == old(str[..ptr]) + Repeat(pad, PadLength(len, width))
  {
    next := ptr;
    var w := width;
    ghost var before, n := str[..ptr], PadLength(len, width);
    while len < w
      invariant 0 <= w <= width && next == ptr + (width - w) && PadLength(len, w) == n - (width - w)
      invariant str[..ptr] == before && forall k :: ptr <= k < next ==> str[k] == pad
    {
      str[next] := pad;
      next := next + 1;
      w := w - 1;
    }
    assert str[..next] == before + Repeat(pad, n);
  }

  /** The 'd' case: the digits in a scratch array, the padding, the digits. */
  method EmitInt(str: array<byte>, ptr: nat, n: int, width: nat, pad: byte) returns (next: nat)
    requires -0x8000_0000 < n < 0x8000_0000 && ptr + |PaddedInt(n, width, pad)| <= str.Length
    modifies str
    ensures next == ptr + |PaddedInt(n, width, pad)|
    ensures str[..next] == old(str[..ptr]) + PaddedInt(n, width, pad)
  {
    IntTextLength(n);
    var tmp := new byte[32](_ => NUL);
    var len := IntToStr(tmp, n as int32);
    assert tmp[..len] == IntText(n);
    ghost var before := str[..ptr];
    var p := EmitPadding(str, ptr, len, width, pad);
    next := Emit(str, p, tmp[..len]);
    Associate(before, Repeat(pad, PadLength(len, width)), IntText(n));
  }

  method EmitHex(str: array<byte>, ptr: nat, u: nat, width: nat) returns (next: nat)
    requires u < 0x1_0000_0000 && ptr + |HexText(u, width)| <= str.Length
    modifies str
    ensures next == ptr + |HexText(u, width)| && str[..next] == old(str[..ptr]) + HexText(u, width)
  {
    var count := HexToStr(str, ptr, u as uint32, width);
    next := ptr + count;
  }

  /** The switch of vsfmtWrite. */
  method EmitConversion(str: array<byte>, ptr: nat, s: Spec, args: seq<Arg>, ghost text: seq<byte>) returns (next: nat)
    requires Takes(s.conv) == 1 ==> args != [] && Matches(s.conv, args[0])
    requires text == ConversionText(s, args) && ptr + |text| <= str.Length
    modifies str
    ensures next == ptr + |text| && str[..next] == old(str[..ptr]) + text
  {
    if s.conv == CONV_S {
      next := Emit(str, ptr, args[0].s);
    } else if s.conv == CONV_D {
      next := EmitInt(str, ptr, args[0].n, s.width, s.pad);
    } else if s.conv == CONV_C {
      next := Emit(str, ptr, [args[0].c]);
    } else if s.conv == CONV_X {
      next := EmitHex(str, ptr, args[0].u, s.width);
    } else if s.conv == PERCENT {
      next := Emit(str, ptr, [PERCENT]);
    } else {
      next := ptr;
      assert str[..ptr] + [] == str[..ptr];
    }
  }

  function ConversionText(s: Spec, args: seq<Arg>): seq<byte>
    requires Takes(s.conv) == 1 ==> args != [] && Matches(s.conv, args[0])
  {
    if Takes(s.conv) == 1 then Conversion(s, args[0]) else Constant(s.conv)
  }

  /** The width loop of vsfmtWrite. */
  method ReadWidth(fmt: seq<byte>, at: nat) returns (width: nat, i: nat)
    requires at <= |fmt|
    ensures i == at + |DigitRun(fmt[at..])| && width == Value(10, DigitRun(fmt[at..]))
  {
    i := at;
    ghost var w := DigitRun(fmt[at..]);
    width := 0;
    while i < |fmt| && ZERO <= fmt[i] <= NINE
      invariant at <= i <= |fmt| && i - at <= |w|
      invariant width == Value(10, w[..i - at])
    {
      ghost var k := i - at;
      assert fmt[at..][k] == fmt[i];
      assert w[..k + 1][..k] == w[..k];
      width := width * 10 + (fmt[i] - ZERO);
      i := i + 1;
    }
    assert w[..i - at] == w;
  }

  /** The pad flag, the width and the conversion character. */
  method ReadSpec(fmt: seq<byte>, at: nat) returns (pad: byte, width: nat, i: nat)
    requires at <= |fmt| && ParseSpec(fmt[at..]).Some? && ParseSpec(fmt[at..]).value.width < 0x8000_0000
    ensures at <= i < |fmt| && ParseSpec(fmt[at..]) == Some(Spec(pad, width, fmt[i], fmt[i + 1..]))
  {
    i := at;
    pad := SPACE;
    if i < |fmt| && fmt[i] == ZERO {
      pad := ZERO;
      i := i + 1;
    }
    ghost var g := fmt[i..];
    assert PadFlag(fmt[at..]) == (pad, g);
    width, i := ReadWidth(fmt, i);
    ghost var w := DigitRun(g);
    assert g[|w|] == fmt[i] && g[|w| + 1..] == fmt[i + 1..];
  }

  /** What is left to print at position i of the format and k of the arguments. */
  ghost function Left(fmt: seq<byte>, i: nat, args: seq<Arg>, k: nat): Option<seq<byte>> {
    if i <= |fmt| && k <= |args| && CanPrint(fmt[i..], args[k..]) then Some(Printed(fmt[i..], args[k..])) else None
  }

  lemma LiteralStep(fmt: seq<byte>, i: nat, i': nat, args: seq<Arg>, k: nat, rest: seq<byte>)
    returns (rest': seq<byte>)
    requires i < |fmt| && i' == i + 1 && fmt[i] != PERCENT && Left(fmt, i, args, k) == Some(rest)
    ensures Left(fmt, i', args, k) == Some(rest') && rest == [fmt[i]] + rest'
  {
    assert fmt[i..][1..] == fmt[i'..];
    rest' := Printed(fmt[i'..], args[k..]);
  }

  /** A conversion whose spec s ends before i', and the text it prints. */
  lemma SpecStep(fmt: seq<byte>, i: nat, i': nat, args: seq<Arg>, k: nat, k': nat, s: Spec, rest: seq<byte>)
    returns (text: seq<byte>, rest': seq<byte>)
    requires i < i' <= |fmt| && fmt[i] == PERCENT && Left(fmt, i, args, k) == Some(rest)
    requires ParseSpec(fmt[i + 1..]) == Some(s) && s.rest == fmt[i'..] && k' == k + Takes(s.conv)
    ensures k <= |args| && (Takes(s.conv) == 1 ==> args[k..] != [] && Matches(s.conv, args[k..][0]))
    ensures Left(fmt, i', args, k') == Some(rest')
    ensures text == ConversionText(s, args[k..]) && rest == text + rest'
  {
    assert fmt[i..][1..] == fmt[i + 1..];
    assert args[k..][Takes(s.conv)..] == args[k'..];
    text, rest' := ConversionText(s, args[k..]), Printed(fmt[i'..], args[k'..]);
  }

  lemma CanParse(fmt: seq<byte>, i: nat, args: seq<Arg>, k: nat)
    requires i < |fmt| && fmt[i] == PERCENT && Left(fmt, i, args, k).Some?
    ensures ParseSpec(fmt[i + 1..]).Some? && ParseSpec(fmt[i + 1..]).value.width < 0x8000_0000
  {
    assert fmt[i..][1..] == fmt[i + 1..];
  }

  /** One round of the loop of vsfmtWrite: a literal character or a whole conversion. */
  method PrintOne(str: array<byte>, ptr: nat, fmt: seq<byte>, i: nat, args: seq<Arg>, k: nat, ghost rest: seq<byte>)
    returns (ptr': nat, i': nat, k': nat, ghost text: seq<byte>, ghost rest': seq<byte>)
    requires i < |fmt| && Left(fmt, i, args, k) == Some(rest) && ptr + |rest| <= str.Length
    modifies str
    ensures i < i' && Left(fmt, i', args, k') == Some(rest') && rest == text + rest'
    ensures ptr' == ptr + |text| && str[..ptr'] == old(str[..ptr]) + text
  {
    if fmt[i] == PERCENT {
      CanParse(fmt, i, args, k);
      var pad, width, j := ReadSpec(fmt, i + 1);
      var s := Spec(pad, width, fmt[j], fmt[j + 1..]);
      i', k' := j + 1, k + Takes(s.conv);
      text, rest' := SpecStep(fmt, i, i', args, k, k', s, rest);
      ptr' := EmitConversion(str, ptr, s, args[k..], text);
    } else {
      i', k' := i + 1, k;
      text := [fmt[i]];
      rest' := LiteralStep(fmt, i, i', args, k, rest);
      ptr' := Emit(str, ptr, [fmt[i]]);
    }
  }

  method VsfmtWrite(str: array<byte>, fmt: seq<byte>, args: seq<Arg>) returns (ptr: nat)
    requires CanPrint(fmt, args) && |Printed(fmt, args)| < str.Length
    modifies str
    ensures ptr == |Printed(fmt, args)| && str[..ptr] == Printed(fmt, args) && str[ptr] == NUL
  {
    ghost var all := Printed(fmt, args);
    ghost var done: seq<byte>, rest := [], all;
    var i, k := 0, 0;
    ptr := 0;
    assert fmt[0..] == fmt && args[0..] == args;
    while i < |fmt|
      invariant i <= |fmt| && Left(fmt, i, args, k) == Some(rest)
      invariant done + rest == all
      invariant ptr <= str.Length && str[..ptr] == done
    {
      ghost var text, rest';
      ptr, i, k, text, rest' := PrintOne(str, ptr, fmt, i, args, k, rest);
      Associate(done, text, rest');
      done, rest := done + text, rest';
    }
    str[ptr] := NUL;
  }

  /** The loop of the 's' case: up to the NUL. */
  method CopyString(src: array<byte>, at: nat) returns (s: seq<byte>)
    requires at <= src.Length && |CStr(src[at..])| < src.Length - at
    ensures s == CStr(src[at..])
  {
    s := [];
    ghost var all := CStr(src[at..]);
    while src[at + |s|] != NUL
      invariant |s| <= |all| && s == all[..|s|]
      decreases |all| - |s|
    {
      assert src[at..][|s|] == src[at + |s|];
      s := s + [src[at + |s|]];
    }
    assert src[at..][|s|] == src[at + |s|];
  }

  /** The skip over the number the 'd' case has just read. */
  method SkipInt(src: array<byte>, at: nat) returns (next: nat)
    requires at <= src.Length && AtoiSpan(src[at..]) < src.Length - at
    ensures next == at + AtoiSpan(src[at..])
  {
    next := at;
    ghost var s := src[at..];
    if src[next] == MINUS {
      next := next + 1;
      assert s[1..] == src[next..];
    }
    ghost var start, run := next, DigitRun(src[next..]);
    while ZERO <= src[next] <= NINE
      invariant start <= next < src.Length && next - start <= |run|
      decreases src.Length - next
    {
      assert src[start..][next - start] == src[next];
      next := next + 1;
    }
    assert src[start..][next - start] == src[next];
  }

  /** The ints it reads fit in an int. */
  predicate IntsFit(as_: seq<Arg>) {
    forall i :: 0 <= i < |as_| && as_[i].IntArg? ==> -0x8000_0000 < as_[i].n < 0x8000_0000
  }

  method VsfmtGet(src: array<byte>, fmt: seq<byte>) returns (dests: seq<Arg>)
    requires src.Length > 0 && src[src.Length - 1] == NUL
    requires Scanned(src[..], fmt).Some? && IntsFit(Scanned(src[..], fmt).value)
    ensures Scanned(src[..], fmt) == Some(dests)
  {
    ghost var all := Scanned(src[..], fmt).value;
    ghost var rest := all;
    dests := [];
    var ptr, i := 0, 0;
    assert src[0..] == src[..] && fmt[0..] == fmt;
    while i < |fmt|
      invariant 0 <= i <= |fmt| && 0 <= ptr <= src.Length
      invariant Scanned(src[ptr..], fmt[i..]) == Some(rest) && IntsFit(rest)
      invariant dests + rest == all
      decreases |fmt| - i
    {
      var got;
      ghost var left;
      ptr, i, got, left := ScanOne(src, ptr, fmt, i, rest);
      assert (dests + got) + left == dests + (got + left);
      dests, rest := dests + got, left;
    }
    assert rest == [] && dests + rest == dests;
  }

  lemma TakeLeft(a: Arg, r: Option<seq<Arg>>, rest: seq<Arg>) returns (left: seq<Arg>)
    requires Prepend(a, r) == Some(rest) && IntsFit(rest)
    ensures r == Some(left) && rest == [a] + left && IntsFit(left)
  {
    left := r.value;
    assert forall j :: 0 <= j < |left| ==> left[j] == rest[j + 1];
  }

  /** Where the scanner goes on: the rest of both texts, from absolute positions. */
  lemma RestFrom(src: seq<byte>, ptr: nat, k: nat, next: nat)
    requires next == ptr + k <= |src|
    ensures src[ptr..][k..] == src[next..]
  {}

  /** The 'd' case of vsfmtGet. */
  method ScanD(src: array<byte>, ptr: nat, fmt: seq<byte>, i: nat, ghost rest: seq<Arg>)
    returns (ptr': nat, got: Arg, ghost left: seq<Arg>)
    requires src.Length > 0 && src[src.Length - 1] == NUL && ptr <= src.Length
    requires i + 1 < |fmt| && fmt[i] == PERCENT && fmt[i + 1] == CONV_D
    requires Scanned(src[ptr..], fmt[i..]) == Some(rest) && IntsFit(rest)
    ensures ptr' <= src.Length
    ensures Scanned(src[ptr'..], fmt[i + 2..]) == Some(left) && IntsFit(left) && rest == [got] + left
  {
    ghost var s := src[ptr..];
    RestFrom(fmt, i, 2, i + 2);
    ghost var after := Scanned(s[AtoiSpan(s)..], fmt[i + 2..]);
    left := TakeLeft(IntArg(AtoiValue(s)), after, rest);
    assert rest[0] == IntArg(AtoiValue(s));
    var n := Atoi(src, ptr);
    ptr' := SkipInt(src, ptr);
    RestFrom(src[..], ptr, AtoiSpan(s), ptr');
    got := IntArg(n as int);
  }

  /** The 's' case of vsfmtGet. */
  method ScanS(src: array<byte>, ptr: nat, fmt: seq<byte>, i: nat, ghost rest: seq<Arg>)
    returns (ptr': nat, got: Arg, ghost left: seq<Arg>)
    requires ptr <= src.Length && i + 1 < |fmt| && fmt[i] == PERCENT && fmt[i + 1] == CONV_S
    requires Scanned(src[ptr..], fmt[i..]) == Some(rest) && IntsFit(rest)
    ensures ptr' <= src.Length
    ensures Scanned(src[ptr'..], fmt[i + 2..]) == Some(left) && IntsFit(left) && rest == [got] + left
  {
    ghost var s := src[ptr..];
    RestFrom(fmt, i, 2, i + 2);
    left := TakeLeft(StrArg(CStr(s)), Scanned(s[|CStr(s)|..], fmt[i + 2..]), rest);
    var text := CopyString(src, ptr);
    ptr' := ptr + |text|;
    RestFrom(src[..], ptr, |text|, ptr');
    got := StrArg(text);
  }

  /** The 'c' case of vsfmtGet. */
  method ScanC(src: array<byte>, ptr: nat, fmt: seq<byte>, i: nat, ghost rest: seq<Arg>)
    returns (ptr': nat, got: Arg, ghost left: seq<Arg>)
    requires ptr <= src.Length && i + 1 < |fmt| && fmt[i] == PERCENT && fmt[i + 1] == CONV_C
    requires Scanned(src[ptr..], fmt[i..]) == Some(rest) && IntsFit(rest)
    ensures ptr' <= src.Length
    ensures Scanned(src[ptr'..], fmt[i + 2..]) == Some(left) && IntsFit(left) && rest == [got] + left
  {
    ghost var s := src[ptr..];
    RestFrom(fmt, i, 2, i + 2);
    left := TakeLeft(CharArg(s[0]), Scanned(s[1..], fmt[i + 2..]), rest);
    got := CharArg(src[ptr]);
    ptr' := ptr + 1;
    RestFrom(src[..], ptr, 1, ptr');
  }

  /** One round of the loop of vsfmtGet: a literal character or a conversion. */
  method ScanOne(src: array<byte>, ptr: nat, fmt: seq<byte>, i: nat, ghost rest: seq<Arg>)
    returns (ptr': nat, i': nat, got: seq<Arg>, ghost left: seq<Arg>)
    requires src.Length > 0 && src[src.Length - 1] == NUL && i < |fmt| && ptr <= src.Length
    requires Scanned(src[ptr..], fmt[i..]) == Some(rest) && IntsFit(rest)
    ensures i < i' <= |fmt| && ptr' <= src.Length
    ensures Scanned(src[ptr'..], fmt[i'..]) == Some(left) && IntsFit(left) && rest == got + left
  {
    ptr', got, left := ptr, [], rest;
    if fmt[i] == PERCENT {
      i' := i + 2;
      RestFrom(fmt, i, 2, i');
      var a;
      if fmt[i + 1] == CONV_D {
        ptr', a, left := ScanD(src, ptr, fmt, i, rest);
        got := [a];
      } else if fmt[i + 1] == CONV_S {
        ptr', a, left := ScanS(src, ptr, fmt, i, rest);
        got := [a];
      } else if fmt[i + 1] == CONV_C {
        ptr', a, left := ScanC(src, ptr, fmt, i, rest);
        got := [a];
      }
    } else {
      i' := i + 1;
      RestFrom(fmt, i, 1, i');
      if src[ptr] == fmt[i] {
        ptr' := ptr + 1;
        RestFrom(src[..], ptr, 1, ptr');
      }
    }
  }
}
