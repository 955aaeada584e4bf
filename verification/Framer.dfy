/** The two framers of vndevice_communicationHandler as functions of the bytes seen.

    A buffer is the bytes stored below its index; what lies above is never read. */
module Framer {
  import opened Bytes
  import opened Crc16
  import opened PacketLayout
  import opened Sequences

  const CAPACITY := 256

  type Packet = seq<Byte>

  /** started: '$' seen; endSeen: the last character handled was '\r' */
  datatype AsciiState = AsciiState(started: bool, endSeen: bool, buffer: seq<Byte>)

  /** fieldBytes and fieldBytesDone count the bytes of the header's selection fields. */
  datatype BinaryState = BinaryState(
    started: bool, groupsFound: bool, buffer: seq<Byte>,
    fieldBytes: nat, fieldBytesDone: nat, expectedLength: nat)

  datatype State = State(ascii: AsciiState, binary: BinaryState)

  /** The state one framer is left in and the packets it dispatched, in order. */
  datatype Outcome<S> = Outcome(state: S, packets: seq<Packet>)

  /** The same for both. */
  datatype Result = Result(state: State, texts: seq<Packet>, binaries: seq<Packet>)

  const INITIAL: State :=
    State(AsciiState(false, false, []), BinaryState(false, false, [], 0, 0, 0))

  // ---------------------------------------------------------------------------
  // The invariant
  // ---------------------------------------------------------------------------

  ghost predicate ValidAscii(s: AsciiState) {
    && |s.buffer| <= CAPACITY
    && (!s.started ==> s.buffer == [])
    && (s.started ==> |s.buffer| > 0 && s.buffer[0] == ASCII_START)
    && (forall i :: 1 <= i < |s.buffer| ==> s.buffer[i] != ASCII_START)
    && (s.started && s.endSeen && |s.buffer| > 1 ==> s.buffer[|s.buffer| - 1] == CARRIAGE_RETURN)
  }

  ghost predicate ValidBinary(s: BinaryState) {
    && |s.buffer| <= CAPACITY
    && (!s.started ==> s.buffer == [] && !s.groupsFound)
    && (s.started ==> |s.buffer| > 0 && s.buffer[0] == BINARY_START)
    && (s.started && !s.groupsFound ==> |s.buffer| == 1)
    && (s.groupsFound ==> |s.buffer| >= 2 && ValidHeader(s))
  }

  /** The index is 2 plus the field bytes seen until the header is complete; then, if the
      groups byte is not zero, it stays below the length the header asks for. */
  ghost predicate ValidHeader(s: BinaryState)
    requires |s.buffer| >= 2
  {
    && s.fieldBytes == 2 * NumberOfFields(s.buffer[1])
    && s.fieldBytesDone <= s.fieldBytes
    && |s.buffer| >= 2 + s.fieldBytesDone
    && (s.fieldBytesDone < s.fieldBytes ==> |s.buffer| == 2 + s.fieldBytesDone)
    && (s.fieldBytesDone == s.fieldBytes && s.fieldBytes > 0 ==>
          |s.buffer| < s.expectedLength <= CAPACITY && s.expectedLength == PacketLength(s.buffer))
  }

  ghost predicate Valid(s: State) {
    ValidAscii(s.ascii) && ValidBinary(s.binary)
  }

  // ---------------------------------------------------------------------------
  // One byte
  // ---------------------------------------------------------------------------

  function AsciiOverflow(s: AsciiState): AsciiState {
    if |s.buffer| == CAPACITY then s.(started := false, buffer := []) else s
  }

  function AsciiStep(was: AsciiState, c: Byte): (r: Outcome<AsciiState>)
    requires ValidAscii(was)
    ensures ValidAscii(r.state)
  {
    var s := AsciiOverflow(was);
    if c == ASCII_START then
      Outcome(s.(started := true, buffer := [c]), [])
    else if !s.started then
      Outcome(s, [])
    else if !s.endSeen && c == CARRIAGE_RETURN then
      Outcome(s.(endSeen := true, buffer := s.buffer + [c]), [])
    else if s.endSeen && c == LINE_FEED then
      var packet := s.buffer + [c];
      Outcome(AsciiState(false, false, []), if |packet| == CAPACITY then [] else [packet])
    else
      Outcome(s.(endSeen := false, buffer := s.buffer + [c]), [])
  }

  function Hunting(s: BinaryState): BinaryState {
    s.(started := false, groupsFound := false, buffer := [])
  }

  function BinaryOverflow(s: BinaryState): BinaryState {
    if |s.buffer| == CAPACITY then Hunting(s) else s
  }

  function BinaryStep(was: BinaryState, c: Byte): (r: Outcome<BinaryState>)
    requires ValidBinary(was)
    ensures ValidBinary(r.state)
  {
    var s := BinaryOverflow(was);
    var buffer := s.buffer + [c];
    if !s.started then
      if c == BINARY_START then Outcome(s.(started := true, buffer := buffer), []) else Outcome(s, [])
    else if !s.groupsFound then
      Outcome(s.(groupsFound := true, buffer := buffer, fieldBytes := 2 * NumberOfFields(c), fieldBytesDone := 0), [])
    else if s.fieldBytesDone < s.fieldBytes then
      var done := s.fieldBytesDone + 1;
      if done < s.fieldBytes then
        Outcome(s.(buffer := buffer, fieldBytesDone := done), [])
      else
        var t := s.(buffer := buffer, fieldBytesDone := done, expectedLength := PacketLength(buffer));
        Outcome(if t.expectedLength > CAPACITY then Hunting(t) else t, [])
    else
      if |buffer| == s.expectedLength then
        Outcome(Hunting(s), if Crc(buffer[1..]) == Zeros(16) then [buffer] else [])
      else
        SameHeader(s.buffer, c);
        Outcome(s.(buffer := buffer), [])
  }

  lemma SameHeader(p: Packet, c: Byte)
    requires HasHeader(p)
    ensures PacketLength(p + [c]) == PacketLength(p)
  {
    PayloadOfHeader(p, p + [c], NUMBER_OF_GROUPS);
  }

  // ---------------------------------------------------------------------------
  // Any number of bytes
  // ---------------------------------------------------------------------------

  function Then<S>(a: Outcome<S>, b: Outcome<S>): Outcome<S> {
    Outcome(b.state, a.packets + b.packets)
  }

  lemma ThenFromNothing<S>(a: Outcome<S>, b: Outcome<S>)
    requires a.packets == []
    ensures Then(a, b) == b
  {
    assert [] + b.packets == b.packets;
  }

  lemma ThenAssociative<S>(a: Outcome<S>, b: Outcome<S>, c: Outcome<S>)
    ensures Then(Then(a, b), c) == Then(a, Then(b, c))
  {
  }

  function RunAscii(s: AsciiState, input: seq<Byte>): (r: Outcome<AsciiState>)
    requires ValidAscii(s)
    ensures ValidAscii(r.state)
  {
    if input == [] then Outcome(s, [])
    else
      var before := RunAscii(s, input[..|input| - 1]);
      Then(before, AsciiStep(before.state, input[|input| - 1]))
  }

  function RunBinary(s: BinaryState, input: seq<Byte>): (r: Outcome<BinaryState>)
    requires ValidBinary(s)
    ensures ValidBinary(r.state)
  {
    if input == [] then Outcome(s, [])
    else
      var before := RunBinary(s, input[..|input| - 1]);
      Then(before, BinaryStep(before.state, input[|input| - 1]))
  }

  lemma NothingRead(s: AsciiState)
    requires ValidAscii(s)
    ensures RunAscii(s, []) == Outcome(s, [])
  {
  }

  lemma AsciiSnoc(s: AsciiState, a: seq<Byte>, c: Byte)
    requires ValidAscii(s)
    ensures RunAscii(s, a + [c]) == Then(RunAscii(s, a), AsciiStep(RunAscii(s, a).state, c))
  {
    assert (a + [c])[..|a|] == a;
  }

  lemma AsciiExtend(s: AsciiState, a: seq<Byte>, c: Byte, mid: AsciiState, last: Outcome<AsciiState>)
    requires ValidAscii(s) && RunAscii(s, a) == Outcome(mid, []) && AsciiStep(mid, c) == last
    ensures RunAscii(s, a + [c]) == last
  {
    hide RunAscii, AsciiStep, ValidAscii;
    AsciiSnoc(s, a, c);
    ThenFromNothing(Outcome(mid, []), last);
  }

  lemma BinarySnoc(s: BinaryState, a: seq<Byte>, c: Byte)
    requires ValidBinary(s)
    ensures RunBinary(s, a + [c]) == Then(RunBinary(s, a), BinaryStep(RunBinary(s, a).state, c))
  {
    assert (a + [c])[..|a|] == a;
  }

  lemma {:induction false} AsciiConcat(s: AsciiState, a: seq<Byte>, b: seq<Byte>)
    requires ValidAscii(s)
    ensures RunAscii(s, a + b) == Then(RunAscii(s, a), RunAscii(RunAscii(s, a).state, b))
  {
    if b == [] {
      assert a + b == a;
    } else {
      var rest, c := b[..|b| - 1], b[|b| - 1];
      var first := RunAscii(s, a);
      assert a + b == (a + rest) + [c] && b == rest + [c];
      AsciiConcat(s, a, rest);
      AsciiSnoc(s, a + rest, c);
      AsciiSnoc(first.state, rest, c);
      ThenAssociative(first, RunAscii(first.state, rest), AsciiStep(RunAscii(s, a + rest).state, c));
    }
  }

  lemma {:induction false} BinaryConcat(s: BinaryState, a: seq<Byte>, b: seq<Byte>)
    requires ValidBinary(s)
    ensures RunBinary(s, a + b) == Then(RunBinary(s, a), RunBinary(RunBinary(s, a).state, b))
  {
    if b == [] {
      assert a + b == a;
    } else {
      var rest, c := b[..|b| - 1], b[|b| - 1];
      var first := RunBinary(s, a);
      assert a + b == (a + rest) + [c] && b == rest + [c];
      BinaryConcat(s, a, rest);
      BinarySnoc(s, a + rest, c);
      BinarySnoc(first.state, rest, c);
      ThenAssociative(first, RunBinary(first.state, rest), BinaryStep(RunBinary(s, a + rest).state, c));
    }
  }

  // ---------------------------------------------------------------------------
  // Both framers see every byte, in reads of any size
  // ---------------------------------------------------------------------------

  function Feed(s: State, input: seq<Byte>): (r: Result)
    requires Valid(s)
    ensures Valid(r.state)
  {
    var a := RunAscii(s.ascii, input);
    var b := RunBinary(s.binary, input);
    Result(State(a.state, b.state), a.packets, b.packets)
  }

  function FeedReads(s: State, chunks: seq<seq<Byte>>): (r: Result)
    requires Valid(s)
    ensures Valid(r.state)
  {
    if chunks == [] then Result(s, [], [])
    else
      var before := FeedReads(s, chunks[..|chunks| - 1]);
      var last := Feed(before.state, chunks[|chunks| - 1]);
      Result(last.state, before.texts + last.texts, before.binaries + last.binaries)
  }

  lemma FeedConcat(s: State, a: seq<Byte>, b: seq<Byte>)
    requires Valid(s)
    ensures var first := Feed(s, a);
      var second := Feed(first.state, b);
      Feed(s, a + b) == Result(second.state, first.texts + second.texts, first.binaries + second.binaries)
  {
    AsciiConcat(s.ascii, a, b);
    BinaryConcat(s.binary, a, b);
  }

  /** Where the reads fall makes no difference. */
  lemma {:induction false} ReadsDoNotMatter(s: State, chunks: seq<seq<Byte>>)
    requires Valid(s)
    ensures FeedReads(s, chunks) == Feed(s, Concat(chunks))
  {
    if chunks == [] {
    } else {
      var n := |chunks| - 1;
      ReadsDoNotMatter(s, chunks[..n]);
      FeedConcat(s, Concat(chunks[..n]), chunks[n]);
    }
  }
}
