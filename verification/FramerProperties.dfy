/** What holds of every run of the framers, on any bytes at all. */
module FramerProperties {
  import opened Bytes
  import opened Crc16
  import opened PacketLayout
  import opened Framer

  // ---------------------------------------------------------------------------
  // Dispatched packets are substrings of the input
  // ---------------------------------------------------------------------------

  datatype Span = Span(from: nat, to: nat)

  /** The packets are contiguous, pairwise disjoint pieces of the input, in input order. */
  ghost predicate ArePieces(packets: seq<Packet>, input: seq<Byte>, spans: seq<Span>) {
    && |spans| == |packets|
    && (forall i :: 0 <= i < |spans| ==> IsPiece(packets[i], input, spans[i]))
    && (forall i, j :: 0 <= i < j < |spans| ==> spans[i].to <= spans[j].from)
  }

  ghost predicate IsPiece(p: Packet, input: seq<Byte>, span: Span) {
    span.from < span.to <= |input| && input[span.from..span.to] == p
  }

  /** A capture in progress is the end of the input, after every piece dispatched. */
  ghost predicate CaptureIsTail(buffer: seq<Byte>, input: seq<Byte>, spans: seq<Span>) {
    && |buffer| <= |input| && input[|input| - |buffer|..] == buffer
    && (forall i :: 0 <= i < |spans| ==> spans[i].to <= |input| - |buffer|)
  }

  lemma PiecesOfMore(packets: seq<Packet>, input: seq<Byte>, c: Byte, spans: seq<Span>)
    requires ArePieces(packets, input, spans)
    ensures ArePieces(packets, input + [c], spans)
  {
    forall i | 0 <= i < |spans| ensures IsPiece(packets[i], input + [c], spans[i]) {
      assert IsPiece(packets[i], input, spans[i]);
      assert (input + [c])[spans[i].from..spans[i].to] == input[spans[i].from..spans[i].to];
    }
  }

  /** The capture, completed by the next byte, becomes one more piece. */
  lemma OnePieceMore(packets: seq<Packet>, input: seq<Byte>, c: Byte, spans: seq<Span>, buffer: seq<Byte>)
      returns (more: seq<Span>)
    requires ArePieces(packets, input, spans) && CaptureIsTail(buffer, input, spans)
    ensures ArePieces(packets + [buffer + [c]], input + [c], more) && CaptureIsTail([], input + [c], more)
  {
    var span := Span(|input| - |buffer|, |input| + 1);
    more := spans + [span];
    PiecesOfMore(packets, input, c, spans);
    assert (input + [c])[span.from..span.to] == buffer + [c];
    var all := packets + [buffer + [c]];
    forall i | 0 <= i < |more| ensures IsPiece(all[i], input + [c], more[i]) {
      if i < |spans| { assert IsPiece(packets[i], input + [c], spans[i]); }
    }
  }

  /** Keeping, extending, dropping or restarting the capture with the next byte. */
  lemma CaptureMoves(buffer: seq<Byte>, input: seq<Byte>, c: Byte, spans: seq<Span>)
    requires CaptureIsTail(buffer, input, spans)
    ensures CaptureIsTail(buffer + [c], input + [c], spans)
    ensures CaptureIsTail([c], input + [c], spans) && CaptureIsTail([], input + [c], spans)
  {
  }

  /** Either nothing is dispatched and the capture is kept, extended, dropped or restarted,
      or the capture is dispatched together with the byte that completes it. */
  ghost predicate CaptureStep(buffer: seq<Byte>, c: Byte, packets: seq<Packet>, after: seq<Byte>) {
    || (packets == [] && (after == [] || after == [c] || after == buffer + [c]))
    || (packets == [buffer + [c]] && after == [])
  }

  lemma PiecesStep(packets: seq<Packet>, buffer: seq<Byte>, input: seq<Byte>, c: Byte, spans: seq<Span>,
                   dispatched: seq<Packet>, after: seq<Byte>) returns (more: seq<Span>)
    requires ArePieces(packets, input, spans) && CaptureIsTail(buffer, input, spans)
    requires CaptureStep(buffer, c, dispatched, after)
    ensures ArePieces(packets + dispatched, input + [c], more) && CaptureIsTail(after, input + [c], more)
  {
    if dispatched == [] {
      more := spans;
      assert packets + dispatched == packets;
      PiecesOfMore(packets, input, c, spans);
      CaptureMoves(buffer, input, c, spans);
    } else {
      more := OnePieceMore(packets, input, c, spans, buffer);
    }
  }

  /** What the binary framer hands on: a start byte, CRC zero over the rest, and, unless the
      groups byte is zero, the length the header asks for. */
  ghost predicate AcceptedBinary(p: Packet) {
    && 2 < |p| <= CAPACITY && p[0] == BINARY_START
    && Crc(p[1..]) == Zeros(16)
    && (p[1] != 0 ==> HasHeader(p) && |p| == PacketLength(p))
  }

  lemma BinaryStepCases(s: BinaryState, c: Byte)
    requires ValidBinary(s)
    ensures var r := BinaryStep(s, c);
      && CaptureStep(s.buffer, c, r.packets, r.state.buffer)
      && (r.packets != [] ==> AcceptedBinary(s.buffer + [c]))
  {
    if s.groupsFound && s.fieldBytesDone == s.fieldBytes && |s.buffer| < CAPACITY {
      HeaderComplete(s, c);
    } else if |s.buffer| == CAPACITY {
      assert [] + [c] == [c];
    }
  }

  lemma HeaderComplete(s: BinaryState, c: Byte)
    requires ValidBinary(s) && s.groupsFound && s.fieldBytesDone == s.fieldBytes
    ensures var p := s.buffer + [c];
      p[0] == BINARY_START && (p[1] != 0 ==> HasHeader(p) && s.expectedLength == PacketLength(p))
  {
    NoFieldsIffZero(s.buffer[1]);
    if s.fieldBytes > 0 { SameHeader(s.buffer, c); }
  }

  lemma {:induction false} BinaryDispatchIsSound(input: seq<Byte>) returns (spans: seq<Span>)
    ensures var r := RunBinary(INITIAL.binary, input);
      && ArePieces(r.packets, input, spans)
      && (forall i :: 0 <= i < |r.packets| ==> AcceptedBinary(r.packets[i]))
      && CaptureIsTail(r.state.buffer, input, spans)
  {
    if input == [] {
      spans := [];
    } else {
      var rest, c := input[..|input| - 1], input[|input| - 1];
      spans := BinaryDispatchIsSound(rest);
      var before := RunBinary(INITIAL.binary, rest);
      assert input == rest + [c];
      BinarySnoc(INITIAL.binary, rest, c);
      BinaryStepCases(before.state, c);
      var last := BinaryStep(before.state, c);
      spans := PiecesStep(before.packets, before.state.buffer, rest, c, spans, last.packets, last.state.buffer);
    }
  }

  /** What the ASCII framer hands on: '$' first and nowhere else, LF last, CR before it
      except in the two-character packet (see StaleEndCharacter). */
  ghost predicate AcceptedText(p: Packet) {
    && 2 <= |p| < CAPACITY && p[0] == ASCII_START
    && (forall i :: 1 <= i < |p| ==> p[i] != ASCII_START)
    && p[|p| - 1] == LINE_FEED
    && (|p| > 2 ==> p[|p| - 2] == CARRIAGE_RETURN)
  }

  lemma AsciiStepCases(s: AsciiState, c: Byte)
    requires ValidAscii(s)
    ensures var r := AsciiStep(s, c);
      && CaptureStep(s.buffer, c, r.packets, r.state.buffer)
      && (r.packets != [] ==> AcceptedText(s.buffer + [c]))
  {
  }

  lemma {:induction false} TextDispatchIsSound(input: seq<Byte>) returns (spans: seq<Span>)
    ensures var r := RunAscii(INITIAL.ascii, input);
      && ArePieces(r.packets, input, spans)
      && (forall i :: 0 <= i < |r.packets| ==> AcceptedText(r.packets[i]))
      && CaptureIsTail(r.state.buffer, input, spans)
  {
    if input == [] {
      spans := [];
    } else {
      var rest, c := input[..|input| - 1], input[|input| - 1];
      spans := TextDispatchIsSound(rest);
      var before := RunAscii(INITIAL.ascii, rest);
      assert input == rest + [c];
      AsciiSnoc(INITIAL.ascii, rest, c);
      AsciiStepCases(before.state, c);
      var last := AsciiStep(before.state, c);
      spans := PiecesStep(before.packets, before.state.buffer, rest, c, spans, last.packets, last.state.buffer);
    }
  }

  // ---------------------------------------------------------------------------
  // The end-character flag survives a restart
  // ---------------------------------------------------------------------------

  /** '$' restarts a capture without clearing the flag, so a packet may lack its CR. */
  lemma StaleEndCharacter()
    ensures var input := [ASCII_START, CARRIAGE_RETURN, ASCII_START, LINE_FEED];
      RunAscii(INITIAL.ascii, input).packets == [[ASCII_START, LINE_FEED]]
  {
    NothingRead(INITIAL.ascii);
    hide RunAscii;
    var s1 := AsciiState(true, false, [ASCII_START]);
    var s2 := AsciiState(true, true, [ASCII_START] + [CARRIAGE_RETURN]);
    var s3 := AsciiState(true, true, [ASCII_START]);
    var a := [ASCII_START];
    var b := a + [CARRIAGE_RETURN];
    var c := b + [ASCII_START];
    assert [] + [ASCII_START] == a;
    AsciiSnoc(INITIAL.ascii, [], ASCII_START);
    assert RunAscii(INITIAL.ascii, a) == Outcome(s1, []);
    AsciiSnoc(INITIAL.ascii, a, CARRIAGE_RETURN);
    assert RunAscii(INITIAL.ascii, b) == Outcome(s2, []);
    AsciiSnoc(INITIAL.ascii, b, ASCII_START);
    assert RunAscii(INITIAL.ascii, c) == Outcome(s3, []);
    AsciiSnoc(INITIAL.ascii, c, LINE_FEED);
    assert a + [LINE_FEED] == [ASCII_START, LINE_FEED];
    assert c + [LINE_FEED] == [ASCII_START, CARRIAGE_RETURN, ASCII_START, LINE_FEED];
  }

  /** A packet without CR before its LF. */
  predicate LacksFirstEnd(p: Packet) {
    |p| >= 2 && p[|p| - 1] == LINE_FEED && p[|p| - 2] != CARRIAGE_RETURN
  }

  /** Exactly when that happens: LF comes right after a '$' that restarted the capture while
      the end-character flag was set. */
  lemma LacksFirstEndIff(s: AsciiState, c: Byte)
    requires ValidAscii(s)
    ensures (exists i :: 0 <= i < |AsciiStep(s, c).packets| && LacksFirstEnd(AsciiStep(s, c).packets[i])) <==>
      s.started && s.endSeen && s.buffer == [ASCII_START] && c == LINE_FEED
  {
    var packets := AsciiStep(s, c).packets;
    if s.started && s.endSeen && s.buffer == [ASCII_START] && c == LINE_FEED {
      assert LacksFirstEnd(packets[0]);
    }
  }

  /** Input so far after which the flag is set and the capture is a lone '$': the last byte
      is '$', and the flag was set when it came. */
  lemma PendingAfterIff(input: seq<Byte>, c: Byte)
    ensures var was, now := RunAscii(INITIAL.ascii, input).state, RunAscii(INITIAL.ascii, input + [c]).state;
      now.started && now.endSeen && now.buffer == [ASCII_START] <==> c == ASCII_START && was.endSeen
  {
    AsciiSnoc(INITIAL.ascii, input, c);
    StartIsPendingIff(RunAscii(INITIAL.ascii, input).state, c);
    hide RunAscii, AsciiStep;
  }

  lemma StartIsPendingIff(s: AsciiState, c: Byte)
    requires ValidAscii(s)
    ensures var now := AsciiStep(s, c).state;
      now.started && now.endSeen && now.buffer == [ASCII_START] <==> c == ASCII_START && s.endSeen
  {
  }

  /** Over a whole run: the byte after an input makes the framer dispatch a packet without CR
      exactly if it is an LF and finds a lone '$' captured with the flag set. */
  lemma LacksFirstEndInRunIff(input: seq<Byte>, c: Byte)
    ensures var before, after := RunAscii(INITIAL.ascii, input), RunAscii(INITIAL.ascii, input + [c]);
      && before.packets <= after.packets
      && ((exists i :: |before.packets| <= i < |after.packets| && LacksFirstEnd(after.packets[i])) <==>
            before.state.started && before.state.endSeen && before.state.buffer == [ASCII_START] && c == LINE_FEED)
  {
    hide RunAscii, AsciiStep, LacksFirstEnd;
    AsciiSnoc(INITIAL.ascii, input, c);
    var before := RunAscii(INITIAL.ascii, input);
    LacksFirstEndIff(before.state, c);
    LackingIsNew(before.packets, AsciiStep(before.state, c).packets);
  }

  lemma LackingIsNew(before: seq<Packet>, more: seq<Packet>)
    ensures var after := before + more;
      (exists i :: |before| <= i < |after| && LacksFirstEnd(after[i])) <==>
      (exists i :: 0 <= i < |more| && LacksFirstEnd(more[i]))
  {
    hide LacksFirstEnd;
    var after := before + more;
    if i :| 0 <= i < |more| && LacksFirstEnd(more[i]) {
      assert LacksFirstEnd(after[|before| + i]);
    }
    if i :| |before| <= i < |after| && LacksFirstEnd(after[i]) {
      assert LacksFirstEnd(more[i - |before|]);
    }
  }

  lemma EmptyBodySteps(s: AsciiState)
    requires ValidAscii(s)
    ensures var a := AsciiState(true, s.endSeen, [ASCII_START]);
      var b := AsciiState(true, !s.endSeen, [ASCII_START] + [CARRIAGE_RETURN]);
      && ValidAscii(a) && AsciiStep(s, ASCII_START) == Outcome(a, [])
      && ValidAscii(b) && AsciiStep(a, CARRIAGE_RETURN) == Outcome(b, [])
      && AsciiStep(b, LINE_FEED).packets == if s.endSeen then [] else [b.buffer + [LINE_FEED]]
  {
  }

  /** A frame with an empty body is dispatched exactly when no end character is pending. */
  lemma EmptyBodyDispatchedIff(s: AsciiState)
    requires ValidAscii(s)
    ensures var p := [ASCII_START, CARRIAGE_RETURN, LINE_FEED];
      && RunAscii(s, p).packets == (if s.endSeen then [] else [p])
      && (RunAscii(s, p).packets == [p] <==> !s.endSeen)
  {
    EmptyBodySteps(s);
    NothingRead(s);
    hide RunAscii, AsciiStep, ValidAscii;
    var a := AsciiState(true, s.endSeen, [ASCII_START]);
    var b := AsciiState(true, !s.endSeen, [ASCII_START] + [CARRIAGE_RETURN]);
    AsciiExtend(s, [], ASCII_START, s, Outcome(a, []));
    AsciiExtend(s, [] + [ASCII_START], CARRIAGE_RETURN, a, Outcome(b, []));
    AsciiExtend(s, [] + [ASCII_START] + [CARRIAGE_RETURN], LINE_FEED, b, AsciiStep(b, LINE_FEED));
    assert [] + [ASCII_START] + [CARRIAGE_RETURN] + [LINE_FEED] == [ASCII_START, CARRIAGE_RETURN, LINE_FEED];
  }

  lemma StartAndReturn()
    ensures var r := RunAscii(INITIAL.ascii, [ASCII_START, CARRIAGE_RETURN]);
      r.packets == [] && r.state.endSeen
  {
    EmptyBodySteps(INITIAL.ascii);
    NothingRead(INITIAL.ascii);
    hide RunAscii, AsciiStep, ValidAscii;
    var s := INITIAL.ascii;
    var a := AsciiState(true, false, [ASCII_START]);
    AsciiExtend(s, [], ASCII_START, s, Outcome(a, []));
    AsciiExtend(s, [] + [ASCII_START], CARRIAGE_RETURN, a, AsciiStep(a, CARRIAGE_RETURN));
    assert [] + [ASCII_START] + [CARRIAGE_RETURN] == [ASCII_START, CARRIAGE_RETURN];
  }

  /** The flag can be pending: after '$' CR the frame '$' CR LF is lost. */
  lemma EmptyBodyLost()
    ensures var input := [ASCII_START, CARRIAGE_RETURN, ASCII_START, CARRIAGE_RETURN, LINE_FEED];
      RunAscii(INITIAL.ascii, input).packets == []
  {
    hide RunAscii;
    var a := [ASCII_START, CARRIAGE_RETURN];
    var p := [ASCII_START, CARRIAGE_RETURN, LINE_FEED];
    StartAndReturn();
    EmptyBodyDispatchedIff(RunAscii(INITIAL.ascii, a).state);
    AsciiConcat(INITIAL.ascii, a, p);
    assert a + p == [ASCII_START, CARRIAGE_RETURN, ASCII_START, CARRIAGE_RETURN, LINE_FEED];
  }

  // ---------------------------------------------------------------------------
  // No capture stays open for more than 256 bytes
  // ---------------------------------------------------------------------------

  ghost predicate AsciiCaptureGoesOn(s: AsciiState, c: Byte)
    requires ValidAscii(s)
  {
    var t := AsciiStep(s, c).state;
    s.started && t.started && t.buffer == s.buffer + [c]
  }

  ghost predicate BinaryCaptureGoesOn(s: BinaryState, c: Byte)
    requires ValidBinary(s)
  {
    var t := BinaryStep(s, c).state;
    s.started && t.started && t.buffer == s.buffer + [c]
  }

  /** Every byte of the input goes into the capture that s is in. */
  ghost predicate OneAsciiCapture(s: AsciiState, input: seq<Byte>)
    requires ValidAscii(s)
  {
    input == [] ||
    (var n := |input| - 1;
     OneAsciiCapture(s, input[..n]) && AsciiCaptureGoesOn(RunAscii(s, input[..n]).state, input[n]))
  }

  lemma AsciiCaptureGrows(s: AsciiState, input: seq<Byte>, c: Byte)
    requires ValidAscii(s) && AsciiCaptureGoesOn(RunAscii(s, input).state, c)
    ensures RunAscii(s, input + [c]).state.buffer == RunAscii(s, input).state.buffer + [c]
  {
    AsciiSnoc(s, input, c);
  }

  lemma {:induction false} AsciiCaptureHoldsInput(s: AsciiState, input: seq<Byte>)
    requires ValidAscii(s) && OneAsciiCapture(s, input)
    ensures RunAscii(s, input).state.buffer == s.buffer + input
  {
    if input == [] {
    } else {
      var n := |input| - 1;
      var rest, c := input[..n], input[n];
      assert input == rest + [c] && s.buffer + (rest + [c]) == (s.buffer + rest) + [c];
      AsciiCaptureHoldsInput(s, rest);
      AsciiCaptureGrows(s, rest, c);
    }
  }

  lemma AsciiCaptureBounded(s: AsciiState, input: seq<Byte>)
    requires ValidAscii(s) && OneAsciiCapture(s, input)
    ensures |input| <= CAPACITY - |s.buffer|
  {
    AsciiCaptureHoldsInput(s, input);
  }

  /** Every byte of the input goes into the capture that s is in. */
  ghost predicate OneBinaryCapture(s: BinaryState, input: seq<Byte>)
    requires ValidBinary(s)
  {
    input == [] ||
    (var n := |input| - 1;
     OneBinaryCapture(s, input[..n]) && BinaryCaptureGoesOn(RunBinary(s, input[..n]).state, input[n]))
  }

  lemma BinaryCaptureGrows(s: BinaryState, input: seq<Byte>, c: Byte)
    requires ValidBinary(s) && BinaryCaptureGoesOn(RunBinary(s, input).state, c)
    ensures RunBinary(s, input + [c]).state.buffer == RunBinary(s, input).state.buffer + [c]
  {
    BinarySnoc(s, input, c);
  }

  lemma {:induction false} BinaryCaptureHoldsInput(s: BinaryState, input: seq<Byte>)
    requires ValidBinary(s) && OneBinaryCapture(s, input)
    ensures RunBinary(s, input).state.buffer == s.buffer + input
  {
    if input == [] {
    } else {
      var n := |input| - 1;
      var rest, c := input[..n], input[n];
      assert input == rest + [c] && s.buffer + (rest + [c]) == (s.buffer + rest) + [c];
      BinaryCaptureHoldsInput(s, rest);
      BinaryCaptureGrows(s, rest, c);
    }
  }

  /** Also with a groups byte of zero, when the expected length is a leftover. */
  lemma BinaryCaptureBounded(s: BinaryState, input: seq<Byte>)
    requires ValidBinary(s) && OneBinaryCapture(s, input)
    ensures |input| <= CAPACITY - |s.buffer|
  {
    BinaryCaptureHoldsInput(s, input);
  }
}
