/** From the wire to the decoded values: encoded messages and text packets through both
    framers and the packet decoder. */
module EndToEnd {
  import opened Bytes
  import opened PacketLayout
  import opened Sequences
  import opened CompositeData
  import opened PacketDecoder
  import opened Framer
  import opened Demultiplexing
  import opened RoundTrip

  ghost predicate IsSendable(m: Message) {
    IsMessage(m) && m.groups != 0 && PacketAgrees(Header(m)) && |Encode(m)| <= CAPACITY
  }

  /** The slots hold exactly the values of the message. */
  ghost predicate IsDecodeOf(d: Data, m: Message)
    requires IsMessage(m)
  {
    forall slot :: IsValueAt(d, m, slot)
  }

  ghost predicate IsValueAt(d: Data, m: Message, slot: Slot)
    requires IsMessage(m)
  {
    && (slot in d <==> exists k :: 0 <= k < |Items(m)| && Carries(Items(m)[k], slot))
    && (slot in d ==> d[slot] == ValueOf(m, slot))
  }

  /** A framer that is hunting takes an encoded message for one packet, and decoding that
      packet gives back the values. */
  lemma MessageReceived(s: BinaryState, m: Message)
    requires ValidBinary(s) && !s.started && IsSendable(m)
    ensures RunBinary(s, Encode(m)).packets == [Encode(m)] && !RunBinary(s, Encode(m)).state.started
    ensures HasHeader(Encode(m)) && DataEnd(Encode(m)) <= |Encode(m)| && IsDecodeOf(DecodePacket(Encode(m)), m)
  {
    EncodeIsFrameIff(m);
    hide RunBinary, Encode, IsBinaryFrame, PacketAgrees, IsMessage, HasHeader, DataEnd, DecodePacket, IsValueAt;
    BinaryFrameDispatched(s, Encode(m));
    MessageDecoded(m);
  }

  lemma MessageDecoded(m: Message)
    requires IsMessage(m)
    ensures HasHeader(Encode(m)) && DataEnd(Encode(m)) <= |Encode(m)| && IsDecodeOf(DecodePacket(Encode(m)), m)
  {
    hide Encode, IsMessage, HasHeader, DataEnd, DecodePacket, Items, Carries, ValueOf;
    DecodesWithinPacket(m);
    forall slot ensures IsValueAt(DecodePacket(Encode(m)), m, slot) {
      DecodeEncode(m, slot);
    }
  }

  /** What comes in, in any order: text packets, messages, and damaged frames or noise. */
  datatype Sent = SentText(packet: Packet) | SentMessage(m: Message) | Disturbance(frame: Frame)

  function FrameOf(s: Sent): Frame {
    match s
    case SentText(p) => Text(p)
    case SentMessage(m) => Binary(Encode(m))
    case Disturbance(f) => f
  }

  ghost predicate AllSendable(sent: seq<Sent>) {
    forall i :: 0 <= i < |sent| ==>
      match sent[i]
      case SentText(p) => IsTextFrame(p)
      case SentMessage(m) => IsSendable(m)
      case Disturbance(f) => !f.Text? && !f.Binary? && WellFormed(f)
  }

  function FramesOf(sent: seq<Sent>): (f: seq<Frame>)
    ensures |f| == |sent|
  {
    if sent == [] then [] else FramesOf(sent[..|sent| - 1]) + [FrameOf(sent[|sent| - 1])]
  }

  function MessagesIn(sent: seq<Sent>): seq<Message> {
    if sent == [] then []
    else
      var last := sent[|sent| - 1];
      MessagesIn(sent[..|sent| - 1]) + if last.SentMessage? then [last.m] else []
  }

  lemma {:induction false} FramesAreWellFormed(sent: seq<Sent>)
    requires AllSendable(sent)
    ensures AllWellFormed(FramesOf(sent))
  {
    hide IsSendable, IsTextFrame, IsBinaryFrame, Encode;
    if sent == [] {
    } else {
      var n := |sent| - 1;
      FramesAreWellFormed(sent[..n]);
      if sent[n].SentMessage? { SendableIsFrame(sent[n].m); }
    }
  }

  lemma SendableIsFrame(m: Message)
    requires IsSendable(m)
    ensures IsBinaryFrame(Encode(m))
  {
    EncodeIsFrameIff(m);
    hide Encode, IsBinaryFrame, PacketAgrees, IsMessage;
  }

  lemma {:induction false} PacketsAreMessages(sent: seq<Sent>)
    requires AllSendable(sent)
    ensures var packets, ms := BinaryPackets(FramesOf(sent)), MessagesIn(sent);
      |packets| == |ms| && forall k :: 0 <= k < |ms| ==> packets[k] == Encode(ms[k]) && IsSendable(ms[k])
  {
    hide IsSendable, IsTextFrame, Encode;
    if sent == [] {
    } else {
      var n := |sent| - 1;
      PacketsAreMessages(sent[..n]);
      assert FramesOf(sent)[..n] == FramesOf(sent[..n]);
    }
  }

  /** End to end: from the initial state, whatever comes in and however it is cut into reads,
      the packets handed to the decoder are the messages sent, in order, every decode holds
      exactly the values of its message, and every text packet is dispatched whole. */
  lemma EverythingReceived(sent: seq<Sent>, chunks: seq<seq<Byte>>)
    requires AllSendable(sent) && Concat(chunks) == Stream(FramesOf(sent))
    ensures var r, ms := FeedReads(INITIAL, chunks), MessagesIn(sent);
      && |r.binaries| == |ms|
      && (forall k :: 0 <= k < |ms| ==> ReceivedAs(r.binaries[k], ms[k]))
      && r.texts == AllTexts(Dispatches(INITIAL, FramesOf(sent)))
      && EachWhole(FramesOf(sent), Dispatches(INITIAL, FramesOf(sent)))
  {
    FramesAreWellFormed(sent);
    PacketsAreMessages(sent);
    hide FeedReads, Dispatches, EachWhole, AllTexts, Stream;
    hide Encode, HasHeader, DataEnd, IsDecodeOf, IsMessage, PacketAgrees;
    Demultiplexed(FramesOf(sent), chunks);
    var ms := MessagesIn(sent);
    forall k | 0 <= k < |ms| ensures ReceivedAs(Encode(ms[k]), ms[k]) {
      MessageDecoded(ms[k]);
    }
  }

  ghost predicate ReceivedAs(packet: Packet, m: Message) {
    && packet == Encode(m) && IsMessage(m)
    && HasHeader(packet) && DataEnd(packet) <= |packet| && IsDecodeOf(DecodePacket(packet), m)
  }
}
