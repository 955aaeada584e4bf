/** What the two framers dispatch on a stream of whole frames, with damaged frames and noise
    between them. */
module Demultiplexing {
  import opened Bytes
  import opened Crc16
  import opened PacketLayout
  import opened Sequences
  import opened Framer

  /** The last three should not be dispatched: a binary frame whose CRC is wrong, a header that
      asks for more than the receive buffer holds, bytes outside any frame. */
  datatype Frame =
    | Text(packet: Packet) | Binary(packet: Packet)
    | Corrupted(packet: Packet) | Oversized(packet: Packet) | Noise(packet: Packet)

  /** '$', body, CR, LF with a nonempty body free of all three, short enough to be kept. */
  ghost predicate IsTextPacket(p: Packet) {
    && 4 <= |p| < CAPACITY
    && p[0] == ASCII_START && p[|p| - 2] == CARRIAGE_RETURN && p[|p| - 1] == LINE_FEED
    && (forall i :: 1 <= i < |p| - 2 ==> p[i] != ASCII_START && p[i] != CARRIAGE_RETURN && p[i] != LINE_FEED)
  }

  ghost predicate IsTextFrame(p: Packet) {
    IsTextPacket(p) && forall i :: 0 <= i < |p| ==> p[i] < 0x80
  }

  /** Start byte, nonzero groups byte and the selection fields it asks for. */
  ghost predicate StartsFrame(p: Packet) {
    |p| >= 2 && HasHeader(p) && p[0] == BINARY_START && p[1] != 0
  }

  /** And the length the header asks for. */
  ghost predicate HasFrameShape(p: Packet) {
    StartsFrame(p) && |p| == PacketLength(p) <= CAPACITY
  }

  /** And the CRC trailer. */
  ghost predicate IsBinaryFrame(p: Packet) {
    HasFrameShape(p) && Crc(p[1..]) == Zeros(16)
  }

  ghost predicate IsOversizedHeader(p: Packet) {
    StartsFrame(p) && |p| == HeaderLength(p[1]) && PacketLength(p) > CAPACITY
  }

  ghost predicate WellFormed(f: Frame) {
    match f
    case Text(p) => IsTextFrame(p)
    case Binary(p) => IsBinaryFrame(p)
    case Corrupted(p) => HasFrameShape(p) && Crc(p[1..]) != Zeros(16)
    case Oversized(p) => IsOversizedHeader(p)
    case Noise(p) => BINARY_START !in p
  }

  ghost predicate AllWellFormed(frames: seq<Frame>) {
    forall i :: 0 <= i < |frames| ==> WellFormed(frames[i])
  }

  function Stream(frames: seq<Frame>): seq<Byte> {
    if frames == [] then [] else Stream(frames[..|frames| - 1]) + frames[|frames| - 1].packet
  }

  function BinaryPackets(frames: seq<Frame>): seq<Packet> {
    if frames == [] then []
    else
      var f := frames[|frames| - 1];
      BinaryPackets(frames[..|frames| - 1]) + if f.Binary? then [f.packet] else []
  }

  // ---------------------------------------------------------------------------
  // A text frame
  // ---------------------------------------------------------------------------

  lemma TextStart(s: AsciiState)
    requires ValidAscii(s)
    ensures AsciiStep(s, ASCII_START) == Outcome(AsciiState(true, s.endSeen, [ASCII_START]), [])
  {
  }

  lemma TextBody(s: AsciiState, c: Byte)
    requires ValidAscii(s) && s.started && |s.buffer| < CAPACITY
    requires c != ASCII_START && c != CARRIAGE_RETURN && c != LINE_FEED
    ensures AsciiStep(s, c) == Outcome(AsciiState(true, false, s.buffer + [c]), [])
  {
  }

  /** After the body so far: the buffer holds it and no end character is pending. */
  lemma {:induction false} TextSoFar(s: AsciiState, p: Packet, k: nat)
    requires ValidAscii(s) && IsTextPacket(p) && 2 <= k <= |p| - 2
    ensures RunAscii(s, p[..k]) == Outcome(AsciiState(true, false, p[..k]), [])
  {
    assert p[..k] == p[..k - 1] + [p[k - 1]];
    AsciiSnoc(s, p[..k - 1], p[k - 1]);
    if k == 2 {
      assert p[..1] == [] + [ASCII_START];
      AsciiSnoc(s, [], ASCII_START);
      TextStart(s);
    } else {
      TextSoFar(s, p, k - 1);
    }
    TextBody(RunAscii(s, p[..k - 1]).state, p[k - 1]);
  }

  lemma TextEnd(s: AsciiState, body: seq<Byte>)
    requires ValidAscii(s) && s == AsciiState(true, false, body) && |body| <= CAPACITY - 3
    ensures var t := AsciiState(true, true, body + [CARRIAGE_RETURN]);
      && AsciiStep(s, CARRIAGE_RETURN) == Outcome(t, []) && ValidAscii(t)
      && AsciiStep(t, LINE_FEED) == Outcome(AsciiState(false, false, []), [body + [CARRIAGE_RETURN] + [LINE_FEED]])
  {
  }

  lemma AsciiExtendTwice(s: AsciiState, a: seq<Byte>, x: Byte, y: Byte,
                         s0: AsciiState, s1: AsciiState, last: Outcome<AsciiState>)
    requires ValidAscii(s) && RunAscii(s, a) == Outcome(s0, [])
    requires AsciiStep(s0, x) == Outcome(s1, []) && AsciiStep(s1, y) == last
    ensures RunAscii(s, a + [x] + [y]) == last
  {
    AsciiExtend(s, a, x, s0, Outcome(s1, []));
    AsciiExtend(s, a + [x], y, s1, last);
  }

  lemma TextFinishes(s: AsciiState, body: seq<Byte>)
    requires ValidAscii(s) && |body| <= CAPACITY - 3
    requires RunAscii(s, body) == Outcome(AsciiState(true, false, body), [])
    ensures var p := body + [CARRIAGE_RETURN] + [LINE_FEED];
      RunAscii(s, p) == Outcome(AsciiState(false, false, []), [p])
  {
    TextEnd(RunAscii(s, body).state, body);
    AsciiExtendTwice(s, body, CARRIAGE_RETURN, LINE_FEED,
                     AsciiState(true, false, body), AsciiState(true, true, body + [CARRIAGE_RETURN]),
                     Outcome(AsciiState(false, false, []), [body + [CARRIAGE_RETURN] + [LINE_FEED]]));
  }

  lemma TextShape(p: Packet)
    requires IsTextPacket(p)
    ensures p[..|p| - 2] + [CARRIAGE_RETURN] + [LINE_FEED] == p
  {
  }

  /** Whatever the ASCII framer was doing, a text frame is dispatched whole. */
  lemma TextFrameDispatched(s: AsciiState, p: Packet)
    requires ValidAscii(s) && IsTextPacket(p)
    ensures RunAscii(s, p) == Outcome(AsciiState(false, false, []), [p])
  {
    TextSoFar(s, p, |p| - 2);
    TextFinishes(s, p[..|p| - 2]);
    TextShape(p);
  }

  /** The binary framer does not leave its hunt on bytes other than its start byte. */
  lemma {:induction false} HuntGoesOn(s: BinaryState, input: seq<Byte>)
    requires ValidBinary(s) && !s.started && BINARY_START !in input
    ensures RunBinary(s, input) == Outcome(s, [])
  {
    if input == [] {
    } else {
      HuntGoesOn(s, input[..|input| - 1]);
    }
  }

  // ---------------------------------------------------------------------------
  // A binary frame
  // ---------------------------------------------------------------------------

  /** The state in the middle of a frame's header. */
  ghost predicate InHeader(s: BinaryState, p: Packet, k: nat)
    requires StartsFrame(p) && 2 <= k <= |p|
  {
    && s.started && s.groupsFound && s.buffer == p[..k]
    && s.fieldBytes == 2 * NumberOfFields(p[1]) && s.fieldBytesDone == k - 2
  }

  lemma HeaderStarts(s: BinaryState, p: Packet)
    requires ValidBinary(s) && !s.started && StartsFrame(p)
    ensures RunBinary(s, p[..2]).packets == [] && InHeader(RunBinary(s, p[..2]).state, p, 2)
  {
    BinarySnoc(s, [], BINARY_START);
    BinarySnoc(s, [BINARY_START], p[1]);
    assert [] + [BINARY_START] == [BINARY_START];
    assert p[..2] == [BINARY_START] + [p[1]];
  }

  lemma HeaderByte(s: BinaryState, p: Packet, k: nat)
    requires ValidBinary(s) && StartsFrame(p)
    requires 2 <= k < HeaderLength(p[1]) - 1 && InHeader(s, p, k)
    ensures var r := BinaryStep(s, p[k]); r.packets == [] && InHeader(r.state, p, k + 1)
  {
    assert p[..k + 1] == p[..k] + [p[k]];
  }

  lemma {:induction false} HeaderSoFar(s: BinaryState, p: Packet, k: nat)
    requires ValidBinary(s) && !s.started && StartsFrame(p)
    requires 2 <= k < HeaderLength(p[1])
    ensures RunBinary(s, p[..k]).packets == [] && InHeader(RunBinary(s, p[..k]).state, p, k)
  {
    if k == 2 {
      HeaderStarts(s, p);
    } else {
      HeaderSoFar(s, p, k - 1);
      assert p[..k] == p[..k - 1] + [p[k - 1]];
      BinarySnoc(s, p[..k - 1], p[k - 1]);
      HeaderByte(RunBinary(s, p[..k - 1]).state, p, k - 1);
    }
  }

  lemma HeaderKnown(p: Packet, k: nat)
    requires StartsFrame(p) && HeaderLength(p[1]) <= k <= |p|
    ensures HasHeader(p[..k]) && PacketLength(p[..k]) == PacketLength(p)
  {
    assert p[..k][..HeaderLength(p[1])] == p[..HeaderLength(p[1])];
    PayloadOfHeader(p, p[..k], NUMBER_OF_GROUPS);
  }

  /** The state after the header of a frame and before its last byte. */
  ghost predicate InPayload(s: BinaryState, p: Packet, k: nat)
    requires k <= |p|
  {
    && s.started && s.groupsFound && s.buffer == p[..k]
    && s.fieldBytesDone == s.fieldBytes && s.expectedLength == |p|
  }

  lemma HeaderEnds(s: BinaryState, p: Packet, k: nat)
    requires ValidBinary(s) && HasFrameShape(p)
    requires 2 <= k == HeaderLength(p[1]) - 1 && InHeader(s, p, k)
    ensures var r := BinaryStep(s, p[k]); r.packets == [] && InPayload(r.state, p, k + 1)
  {
    assert p[..k + 1] == p[..k] + [p[k]];
    HeaderKnown(p, k + 1);
    hide ByteBits, PayloadBelow, Crc;
  }

  lemma HeaderIsTooLong(s: BinaryState, p: Packet)
    requires ValidBinary(s) && IsOversizedHeader(p)
    requires 3 <= |p| && InHeader(s, p, |p| - 1)
    ensures var r := BinaryStep(s, p[|p| - 1]);
      r.packets == [] && !r.state.started && r.state.expectedLength == PacketLength(p)
  {
    assert p == p[..|p| - 1] + [p[|p| - 1]];
    hide ByteBits, PayloadBelow, Crc;
  }

  lemma PayloadByte(s: BinaryState, p: Packet, k: nat)
    requires ValidBinary(s) && HasFrameShape(p)
    requires 2 <= k < |p| - 1 && InPayload(s, p, k)
    ensures var r := BinaryStep(s, p[k]); r.packets == [] && InPayload(r.state, p, k + 1)
  {
    assert p[..k + 1] == p[..k] + [p[k]];
    hide ByteBits, PacketLength, Crc;
  }

  lemma LastByte(s: BinaryState, p: Packet)
    requires ValidBinary(s) && HasFrameShape(p) && InPayload(s, p, |p| - 1)
    ensures var r := BinaryStep(s, p[|p| - 1]);
      && r.packets == (if Crc(p[1..]) == Zeros(16) then [p] else [])
      && !r.state.started && r.state.expectedLength == |p|
  {
    assert p == p[..|p| - 1] + [p[|p| - 1]];
    hide ByteBits, PacketLength, Crc;
  }

  lemma BinaryExtendBy(s: BinaryState, a: seq<Byte>, c: Byte)
    requires ValidBinary(s) && RunBinary(s, a).packets == []
    ensures RunBinary(s, a + [c]) == BinaryStep(RunBinary(s, a).state, c)
  {
    hide BinaryStep, RunBinary, ValidBinary;
    BinarySnoc(s, a, c);
    ThenFromNothing(RunBinary(s, a), BinaryStep(RunBinary(s, a).state, c));
  }

  lemma BinaryExtend(s: BinaryState, p: Packet, k: nat)
    requires ValidBinary(s) && k < |p| && RunBinary(s, p[..k]).packets == []
    ensures RunBinary(s, p[..k + 1]) == BinaryStep(RunBinary(s, p[..k]).state, p[k])
  {
    hide *;
    BinaryExtendBy(s, p[..k], p[k]);
    assert p[..k + 1] == p[..k] + [p[k]];
  }

  lemma FrameHasFields(p: Packet)
    requires StartsFrame(p)
    ensures HeaderLength(p[1]) >= 4
  {
    NoFieldsIffZero(p[1]);
  }

  /** From the last header byte to the last but one byte of the packet. */
  lemma {:induction false} PayloadSoFar(s: BinaryState, p: Packet, k: nat)
    requires ValidBinary(s) && !s.started && HasFrameShape(p)
    requires HeaderLength(p[1]) <= k < |p|
    ensures RunBinary(s, p[..k]).packets == [] && InPayload(RunBinary(s, p[..k]).state, p, k)
  {
    hide BinaryStep, RunBinary, InHeader, InPayload, HeaderLength, HasHeader, PacketLength;
    FrameHasFields(p);
    if k == HeaderLength(p[1]) {
      HeaderSoFar(s, p, k - 1);
      BinaryExtend(s, p, k - 1);
      HeaderEnds(RunBinary(s, p[..k - 1]).state, p, k - 1);
    } else {
      PayloadSoFar(s, p, k - 1);
      BinaryExtend(s, p, k - 1);
      PayloadByte(RunBinary(s, p[..k - 1]).state, p, k - 1);
    }
  }

  lemma FrameLengths(p: Packet)
    requires HasFrameShape(p)
    ensures 4 <= HeaderLength(p[1]) < |p|
  {
    FrameHasFields(p);
  }

  lemma OversizedLengths(p: Packet)
    requires IsOversizedHeader(p)
    ensures StartsFrame(p) && 4 <= HeaderLength(p[1]) == |p|
  {
    FrameHasFields(p);
  }

  lemma BinaryExtendLast(s: BinaryState, p: Packet, n: nat)
    requires ValidBinary(s) && |p| == n + 1 && RunBinary(s, p[..n]).packets == []
    ensures RunBinary(s, p) == BinaryStep(RunBinary(s, p[..n]).state, p[n])
  {
    hide *;
    BinaryExtend(s, p, n);
    assert p[..n + 1] == p;
  }

  /** A hunting framer reads a frame to its end whatever the CRC says: it dispatches the frame
      if the CRC is right and nothing if it is not, and hunts again with nothing kept. */
  lemma FrameRead(s: BinaryState, p: Packet)
    requires ValidBinary(s) && !s.started && HasFrameShape(p)
    ensures var r := RunBinary(s, p);
      && r.packets == (if Crc(p[1..]) == Zeros(16) then [p] else [])
      && !r.state.started && r.state.expectedLength == |p|
  {
    hide *;
    FrameLengths(p);
    PayloadSoFar(s, p, |p| - 1);
    BinaryExtendLast(s, p, |p| - 1);
    LastByte(RunBinary(s, p[..|p| - 1]).state, p);
  }

  /** And of an oversized frame it reads the header. */
  lemma OversizedSkipped(s: BinaryState, p: Packet)
    requires ValidBinary(s) && !s.started && IsOversizedHeader(p)
    ensures var r := RunBinary(s, p);
      r.packets == [] && !r.state.started && r.state.expectedLength == PacketLength(p)
  {
    hide *;
    OversizedLengths(p);
    HeaderSoFar(s, p, |p| - 1);
    BinaryExtendLast(s, p, |p| - 1);
    HeaderIsTooLong(RunBinary(s, p[..|p| - 1]).state, p);
  }

  /** So a frame is dispatched exactly. */
  lemma BinaryFrameDispatched(s: BinaryState, p: Packet)
    requires ValidBinary(s) && !s.started && IsBinaryFrame(p)
    ensures var r := RunBinary(s, p); r.packets == [p] && !r.state.started
  {
    hide RunBinary, HasFrameShape, Crc;
    FrameRead(s, p);
  }

  // ---------------------------------------------------------------------------
  // The stream
  // ---------------------------------------------------------------------------

  /** What is dispatched while the bytes of each frame arrive, one result a frame. */
  function Dispatches(s: State, frames: seq<Frame>): (r: seq<Result>)
    requires Valid(s)
    ensures |r| == |frames|
  {
    if frames == [] then []
    else
      var n := |frames| - 1;
      Dispatches(s, frames[..n]) + [Feed(Feed(s, Stream(frames[..n])).state, frames[n].packet)]
  }

  function AllTexts(rs: seq<Result>): seq<Packet> {
    if rs == [] then [] else AllTexts(rs[..|rs| - 1]) + rs[|rs| - 1].texts
  }

  ghost predicate EachWhole(frames: seq<Frame>, rs: seq<Result>)
    requires |frames| == |rs|
  {
    forall i :: 0 <= i < |frames| ==>
      match frames[i]
      case Text(p) => rs[i].texts == [p] && rs[i].binaries == []
      case Binary(p) => rs[i].binaries == [p]
      case _ => rs[i].binaries == []
  }

  lemma FrameDispatched(s: State, f: Frame)
    requires Valid(s) && !s.binary.started && WellFormed(f)
    ensures var r := Feed(s, f.packet);
      && !r.state.binary.started
      && r.binaries == (if f.Binary? then [f.packet] else [])
      && (f.Text? ==> r.texts == [f.packet])
  {
    match f
    case Text(p) =>
      TextFrameDispatched(s.ascii, p);
      HuntGoesOn(s.binary, p);
    case Binary(p) =>
      FrameRead(s.binary, p);
    case Corrupted(p) =>
      FrameRead(s.binary, p);
    case Oversized(p) =>
      OversizedSkipped(s.binary, p);
    case Noise(p) =>
      HuntGoesOn(s.binary, p);
  }

  lemma {:induction false} StreamDispatched(s: State, frames: seq<Frame>)
    requires Valid(s) && !s.binary.started && AllWellFormed(frames)
    ensures var r := Feed(s, Stream(frames));
      && !r.state.binary.started
      && r.binaries == BinaryPackets(frames)
      && r.texts == AllTexts(Dispatches(s, frames))
  {
    if frames == [] {
    } else {
      var n := |frames| - 1;
      StreamDispatched(s, frames[..n]);
      FeedConcat(s, Stream(frames[..n]), frames[n].packet);
      FrameDispatched(Feed(s, Stream(frames[..n])).state, frames[n]);
    }
  }

  lemma {:induction false} FramesWhole(s: State, frames: seq<Frame>)
    requires Valid(s) && !s.binary.started && AllWellFormed(frames)
    ensures EachWhole(frames, Dispatches(s, frames))
  {
    if frames == [] {
    } else {
      var n := |frames| - 1;
      FramesWhole(s, frames[..n]);
      StreamDispatched(s, frames[..n]);
      var mid := Feed(s, Stream(frames[..n])).state;
      FrameDispatched(mid, frames[n]);
      WholeSnoc(frames, Dispatches(s, frames[..n]), Feed(mid, frames[n].packet));
    }
  }

  lemma WholeSnoc(frames: seq<Frame>, rs: seq<Result>, r: Result)
    requires |frames| == |rs| + 1 && EachWhole(frames[..|rs|], rs)
    requires match frames[|rs|]
      case Text(p) => r.texts == [p] && r.binaries == []
      case Binary(p) => r.binaries == [p]
      case _ => r.binaries == []
    ensures EachWhole(frames, rs + [r])
  {
    var all := rs + [r];
    forall i | 0 <= i < |frames|
      ensures match frames[i]
        case Text(p) => all[i].texts == [p] && all[i].binaries == []
        case Binary(p) => all[i].binaries == [p]
        case _ => all[i].binaries == []
    {
      if i < |rs| { assert frames[..|rs|][i] == frames[i]; }
    }
  }

  /** From the initial state and however the stream is cut into reads: the binary packets
      dispatched are exactly the binary frames, in order and byte for byte, whatever damaged
      frames and noise come between them, and while the bytes of a text frame arrive, exactly
      that frame is dispatched. */
  lemma Demultiplexed(frames: seq<Frame>, chunks: seq<seq<Byte>>)
    requires AllWellFormed(frames) && Concat(chunks) == Stream(frames)
    ensures var r := FeedReads(INITIAL, chunks);
      && r.binaries == BinaryPackets(frames)
      && r.texts == AllTexts(Dispatches(INITIAL, frames))
      && EachWhole(frames, Dispatches(INITIAL, frames))
  {
    ReadsDoNotMatter(INITIAL, chunks);
    StreamDispatched(INITIAL, frames);
    FramesWhole(INITIAL, frames);
  }
}
