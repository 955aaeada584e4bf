/** The text framer over any input whatever is a parser: it looks for '$' and takes what follows
    up to an LF that meets the end-character flag, a new '$', or the end of the buffer. */
module TextParser {
  import opened Bytes
  import opened Sequences
  import opened Framer
  import opened TextFrames

  /** The capture at the front of the input, with the flag it started with, ends before byte k:
      a new one starts, or the buffer is full; */
  predicate BreaksOff(input: seq<Byte>, k: nat)
    requires k < |input|
  {
    input[k] == ASCII_START || k == CAPACITY
  }

  /** or it ends with byte k. */
  predicate Completes(f: bool, input: seq<Byte>, k: nat)
    requires 1 <= k < |input|
  {
    input[k] == LINE_FEED && Flag(f, input[1..k])
  }

  /** The first such byte from k on, or the length of the input. */
  function CaptureEnd(f: bool, input: seq<Byte>, k: nat): (n: nat)
    requires 1 <= k <= |input|
    ensures k <= n <= |input|
    ensures n < |input| ==> BreaksOff(input, n) || Completes(f, input, n)
    ensures forall i :: k <= i < n ==> !BreaksOff(input, i) && !Completes(f, input, i)
    decreases |input| - k
  {
    if k == |input| || BreaksOff(input, k) || Completes(f, input, k) then k else CaptureEnd(f, input, k + 1)
  }

  /** The packets in an input that starts outside a capture, with the flag left over; a packet
      that fills the buffer is dropped. */
  function ParseText(f: bool, input: seq<Byte>): seq<Packet>
    decreases |input|
  {
    if input == [] then []
    else if input[0] != ASCII_START then ParseText(f, input[1..])
    else
      var n := CaptureEnd(f, input, 1);
      if n == |input| then []
      else if BreaksOff(input, n) then ParseText(Flag(f, input[1..n]), input[n..])
      else (if n + 1 < CAPACITY then [input[..n + 1]] else []) + ParseText(false, input[n + 1..])
  }

  // ---------------------------------------------------------------------------
  // A capture
  // ---------------------------------------------------------------------------

  lemma {:induction false} CaptureStep(s: AsciiState, c: Byte)
    requires ValidAscii(s) && s.started && |s.buffer| < CAPACITY && c != ASCII_START
    ensures AsciiStep(s, c) ==
      if c == LINE_FEED && s.endSeen then
        Outcome(AsciiState(false, false, []), if |s.buffer| + 1 < CAPACITY then [s.buffer + [c]] else [])
      else Outcome(AsciiState(true, !s.endSeen && c == CARRIAGE_RETURN, s.buffer + [c]), [])
  {
  }

  ghost predicate GoesOn(f: bool, input: seq<Byte>, k: nat)
    requires k <= |input|
  {
    forall i :: 1 <= i < k ==> !BreaksOff(input, i) && !Completes(f, input, i)
  }

  lemma {:induction false} CaptureSoFar(s: AsciiState, input: seq<Byte>, k: nat)
    requires ValidAscii(s) && 1 <= k <= |input| && k <= CAPACITY && input[0] == ASCII_START
    requires GoesOn(s.endSeen, input, k)
    ensures RunAscii(s, input[..k]) == Outcome(AsciiState(true, Flag(s.endSeen, input[1..k]), input[..k]), [])
  {
    hide RunAscii, AsciiStep;
    if k == 1 {
      Started(s);
      assert input[..1] == [ASCII_START];
    } else {
      var c := input[k - 1];
      assert !BreaksOff(input, k - 1) && !Completes(s.endSeen, input, k - 1);
      CaptureSoFar(s, input, k - 1);
      var mid := RunAscii(s, input[..k - 1]).state;
      CaptureStep(mid, c);
      AsciiExtend(s, input[..k - 1], c, mid, AsciiStep(mid, c));
      assert input[..k] == input[..k - 1] + [c] && input[1..k][..k - 2] == input[1..k - 1];
    }
  }

  /** States that treat the first byte alike treat the whole input alike. */
  lemma {:induction false} AlikeFromFirst(s: AsciiState, t: AsciiState, input: seq<Byte>)
    requires ValidAscii(s) && ValidAscii(t) && input != [] && AsciiStep(s, input[0]) == AsciiStep(t, input[0])
    ensures RunAscii(s, input) == RunAscii(t, input)
  {
    hide AsciiStep, ValidAscii;
    var first, rest := [input[0]], input[1..];
    OneByte(s, input[0]);
    OneByte(t, input[0]);
    AsciiConcat(s, first, rest);
    AsciiConcat(t, first, rest);
    assert input == first + rest;
  }

  lemma {:induction false} OneByte(s: AsciiState, c: Byte)
    requires ValidAscii(s)
    ensures RunAscii(s, [c]) == AsciiStep(s, c)
  {
    assert [c] == [] + [c];
    NothingRead(s);
    hide AsciiStep;
    AsciiSnoc(s, [], c);
    ThenFromNothing(RunAscii(s, []), AsciiStep(s, c));
  }

  /** A capture that breaks off leaves nothing but its flag. */
  lemma {:induction false} OnlyFlagStays(s: AsciiState, c: Byte)
    requires ValidAscii(s) && s.started && (c == ASCII_START || |s.buffer| == CAPACITY)
    ensures ValidAscii(AsciiState(false, s.endSeen, []))
    ensures AsciiStep(s, c) == AsciiStep(AsciiState(false, s.endSeen, []), c)
  {
  }

  lemma {:induction false} Resumes(s: AsciiState, input: seq<Byte>, n: nat)
    requires ValidAscii(s) && n <= |input| && RunAscii(s, input[..n]).packets == []
    ensures RunAscii(s, input).packets == RunAscii(RunAscii(s, input[..n]).state, input[n..]).packets
  {
    hide RunAscii, ValidAscii;
    AsciiConcat(s, input[..n], input[n..]);
    assert input == input[..n] + input[n..];
  }

  // ---------------------------------------------------------------------------
  // Any input
  // ---------------------------------------------------------------------------

  /** Whatever comes in, a framer that hunts dispatches exactly what the parser finds. */
  lemma {:induction false} TextFramerParses(s: AsciiState, input: seq<Byte>)
    requires ValidAscii(s) && !s.started
    ensures RunAscii(s, input).packets == ParseText(s.endSeen, input)
    decreases |input|
  {
    hide RunAscii, Flag, CaptureEnd, Completes;
    if input == [] {
      NothingRead(s);
    } else if input[0] != ASCII_START {
      OneByte(s, input[0]);
      assert input[..1] == [input[0]];
      Resumes(s, input, 1);
      TextFramerParses(s, input[1..]);
    } else {
      var n := CaptureEnd(s.endSeen, input, 1);
      if n < |input| && !BreaksOff(input, n) {
        CaptureCompleted(s, input, n);
        var t := AsciiState(false, false, []);
        AsciiConcat(s, input[..n + 1], input[n + 1..]);
        assert input == input[..n + 1] + input[n + 1..];
        TextFramerParses(t, input[n + 1..]);
      } else {
        CaptureBrokenOff(s, input, n);
        if n < |input| {
          TextFramerParses(AsciiState(false, Flag(s.endSeen, input[1..n]), []), input[n..]);
        }
      }
    }
  }

  lemma {:induction false} CaptureCompleted(s: AsciiState, input: seq<Byte>, n: nat)
    requires ValidAscii(s) && input != [] && input[0] == ASCII_START && n == CaptureEnd(s.endSeen, input, 1)
    requires n < |input| && !BreaksOff(input, n)
    ensures RunAscii(s, input[..n + 1])
         == Outcome(AsciiState(false, false, []), if n + 1 < CAPACITY then [input[..n + 1]] else [])
  {
    hide RunAscii, AsciiStep, Flag;
    EndsInBuffer(s.endSeen, input, n);
    CaptureSoFar(s, input, n);
    var mid := RunAscii(s, input[..n]).state;
    CaptureStep(mid, input[n]);
    AsciiExtend(s, input[..n], input[n], mid, AsciiStep(mid, input[n]));
    assert input[..n + 1] == input[..n] + [input[n]];
  }

  lemma {:induction false} EndsInBuffer(f: bool, input: seq<Byte>, n: nat)
    requires input != [] && n == CaptureEnd(f, input, 1)
    ensures n <= CAPACITY && GoesOn(f, input, n)
  {
    if n > CAPACITY {
      assert BreaksOff(input, CAPACITY);
    }
  }

  lemma {:induction false} CaptureBrokenOff(s: AsciiState, input: seq<Byte>, n: nat)
    requires ValidAscii(s) && input != [] && input[0] == ASCII_START && n == CaptureEnd(s.endSeen, input, 1)
    requires n < |input| ==> BreaksOff(input, n)
    ensures ValidAscii(AsciiState(false, Flag(s.endSeen, input[1..n]), []))
    ensures RunAscii(s, input).packets ==
      if n == |input| then [] else RunAscii(AsciiState(false, Flag(s.endSeen, input[1..n]), []), input[n..]).packets
  {
    hide RunAscii, AsciiStep, Flag;
    EndsInBuffer(s.endSeen, input, n);
    CaptureSoFar(s, input, n);
    assert input[..|input|] == input;
    if n < |input| {
      var mid := RunAscii(s, input[..n]).state;
      OnlyFlagStays(mid, input[n]);
      AlikeFromFirst(mid, AsciiState(false, mid.endSeen, []), input[n..]);
      Resumes(s, input, n);
    }
  }

  /** And so from the initial state, in reads of any size. */
  lemma TextsAreParsed(chunks: seq<seq<Byte>>)
    ensures FeedReads(INITIAL, chunks).texts == ParseText(false, Concat(chunks))
  {
    ReadsDoNotMatter(INITIAL, chunks);
    TextFramerParses(INITIAL.ascii, Concat(chunks));
  }
}
