/** From interrupts to lines: what standard input gives back is the edit of the keys accepted. */
module KeyboardLines {
  import opened Bytes
  import Keyboard
  import Stdin

  lemma {:induction false} SameLine(a: seq<byte>, b: seq<byte>)
    requires a <= b
    ensures Stdin.LineLength(a) <= Stdin.LineLength(b)
    ensures Stdin.HasLine(a) ==> Stdin.LineLength(b) == Stdin.LineLength(a)
  {
    if a != [] && !Stdin.EndsLine(a[0]) {
      SameLine(a[1..], b[1..]);
    }
  }

  /** More keys add lines and change none of the earlier ones. */
  lemma {:induction false} LinesGrow(a: seq<byte>, b: seq<byte>)
    requires a <= b
    ensures Stdin.Lines(a) <= Stdin.Lines(b)
    decreases |a|
  {
    SameLine(a, b);
    if Stdin.HasLine(a) {
      var n := Stdin.LineLength(a);
      assert a[..n] == b[..n];
      LinesGrow(a[n + 1..], b[n + 1..]);
    }
  }

  /** What is typed up to a moment fits when all that is typed does. */
  lemma {:induction false} FitsSoFar(a: seq<byte>, b: seq<byte>)
    requires a <= b && Stdin.AllLinesFit(b)
    ensures Stdin.AllLinesFit(a)
    decreases |a|
  {
    SameLine(a, b);
    var n, m := Stdin.LineLength(a), Stdin.LineLength(b);
    forall k | 0 <= k <= n ensures |Stdin.Edited(a[..n][..k])| <= 256 {
      assert a[..n][..k] == b[..m][..k];
    }
    if Stdin.HasLine(a) {
      assert a[..n] == b[..m];
      FitsSoFar(a[n + 1..], b[n + 1..]);
    }
  }

  /**
   End to end, from boot: in every interleaving of interrupts and reader steps, and for every
   sequence of reads of the bytes getInput returned, the bytes read are a prefix of the edited lines
   of the bytes the interrupt handler accepted; and when all those lines fit the line buffer, no read
   overruns it.
   */
  lemma ReadsAreAcceptedLines(buf: seq<byte>, events: seq<Keyboard.Event>, counts: seq<nat>)
    requires |buf| == Keyboard.SIZE
    ensures var t := Keyboard.Run(Keyboard.Start(buf), events);
            && Stdin.ReadAll(Stdin.State([], t.returned), counts).1 <= Stdin.Lines(t.accepted)
            && (Stdin.AllLinesFit(t.accepted) ==> Stdin.ReadsFit(Stdin.State([], t.returned), counts))
  {
    var t := Keyboard.Run(Keyboard.Start(buf), events);
    var st := Stdin.State([], t.returned);
    Keyboard.AnyRunFromStart(buf, events);
    LinesGrow(t.returned, t.accepted);
    Stdin.ChunksDoNotMatter(st, counts);
    assert [] + Stdin.Lines(t.returned) == Stdin.Lines(t.returned);
    if Stdin.AllLinesFit(t.accepted) {
      FitsSoFar(t.returned, t.accepted);
    }
  }

  /** And a line that is complete for the reader is the line the handler accepted, to the byte. */
  lemma LineIsAcceptedLine(buf: seq<byte>, events: seq<Keyboard.Event>)
    requires |buf| == Keyboard.SIZE
    ensures var t := Keyboard.Run(Keyboard.Start(buf), events);
            Stdin.HasLine(t.returned) ==>
              Stdin.HasLine(t.accepted) && Stdin.Line(t.returned) == Stdin.Line(t.accepted)
  {
    var t := Keyboard.Run(Keyboard.Start(buf), events);
    Keyboard.AnyRunFromStart(buf, events);
    SameLine(t.returned, t.accepted);
    if Stdin.HasLine(t.returned) {
      var n := Stdin.LineLength(t.returned);
      assert t.returned[..n] == t.accepted[..n];
    }
  }
}
