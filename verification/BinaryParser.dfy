/** The binary framer over any input whatever is a parser that never looks at its own state: it
    looks for a start byte, reads a length off the header, and cuts that many bytes off. */
module BinaryParser {
  import opened Bytes
  import opened Crc16
  import opened PacketLayout
  import opened Sequences
  import opened Framer
  import opened Demultiplexing
  import opened ZeroGroups

  /** How many bytes the capture at the front of the input takes in, if they come, from its
      groups byte and the length computed last: its own length, only its header if it is too
      long to be kept, the whole buffer if no end is found. */
  function CaptureLength(length: nat, input: seq<Byte>): (n: nat)
    requires HasHeader(input)
    ensures n >= 2
  {
    if input[1] != 0 && length > CAPACITY then HeaderLength(input[1])
    else if 3 <= length <= CAPACITY then length
    else CAPACITY
  }

  /** The packets in an input that starts outside a capture; leftover is the length computed
      last, which only a groups byte of zero brings back. */
  function Parse(leftover: nat, input: seq<Byte>): seq<Packet>
    decreases |input|
  {
    if input == [] then []
    else if input[0] != BINARY_START then Parse(leftover, input[1..])
    else if !HasHeader(input) then []
    else
      var length := if input[1] == 0 then leftover else PacketLength(input);
      var n := CaptureLength(length, input);
      if |input| < n then []
      else PacketIn(length, input[..n]) + Parse(length, input[n..])
  }

  /** A capture is a packet if it has the length sought and its CRC is right. */
  function PacketIn(length: nat, capture: Packet): seq<Packet>
    requires capture != []
  {
    if 3 <= |capture| == length && Crc(capture[1..]) == Zeros(16) then [capture] else []
  }

  // ---------------------------------------------------------------------------
  // A capture
  // ---------------------------------------------------------------------------

  function Padded(p: seq<Byte>, n: nat): (q: seq<Byte>)
    requires |p| <= n
    ensures |q| == n && p == q[..|p|]
  {
    p + seq(n - |p|, _ => 0)
  }

  /** Nothing comes out of a header that is not complete. */
  lemma HeaderIncomplete(s: BinaryState, input: seq<Byte>)
    requires ValidBinary(s) && !s.started && input != [] && input[0] == BINARY_START && !HasHeader(input)
    ensures RunBinary(s, input).packets == []
  {
    if |input| == 1 {
      assert input == [] + [BINARY_START];
      BinarySnoc(s, [], BINARY_START);
    } else {
      var q := Padded(input, HeaderLength(input[1]));
      NoFieldsIffZero(0);
      assert q[0] == input[0] && q[1] == input[1];
      hide RunBinary, BinaryStep;
      HeaderSoFar(s, q, |input|);
    }
  }

  /** Nor out of a capture that is not. */
  lemma CaptureIncomplete(s: BinaryState, input: seq<Byte>, length: nat)
    requires ValidBinary(s) && !s.started && HasHeader(input) && input[0] == BINARY_START
    requires length == if input[1] == 0 then s.expectedLength else PacketLength(input)
    requires |input| < CaptureLength(length, input)
    ensures RunBinary(s, input).packets == []
  {
    assert input[..|input|] == input;
    if input[1] != 0 {
      var q := Padded(input, length);
      assert q[0] == input[0] && q[1] == input[1];
      HeaderKnown(q, |input|);
      hide RunBinary, PacketLength, InPayload;
      PayloadSoFar(s, q, |input|);
    } else {
      ZeroSoFar(s, input, |input|);
    }
  }

  lemma NonzeroCapture(s: BinaryState, input: seq<Byte>, n: nat)
    requires ValidBinary(s) && !s.started && StartsFrame(input)
    requires n == CaptureLength(PacketLength(input), input) <= |input|
    ensures var r := RunBinary(s, input[..n]);
      && r.packets == PacketIn(PacketLength(input), input[..n])
      && !r.state.started && r.state.expectedLength == PacketLength(input)
  {
    hide RunBinary, Crc, PayloadLength;
    HeaderKnown(input, n);
    FrameHasFields(input);
    if PacketLength(input) > CAPACITY {
      OversizedSkipped(s, input[..n]);
    } else {
      FrameRead(s, input[..n]);
    }
  }

  /** A capture that is complete gives its packet, and the next byte finds the framer hunting. */
  lemma CaptureComplete(s: BinaryState, input: seq<Byte>, length: nat, n: nat)
    requires ValidBinary(s) && !s.started && HasHeader(input) && input[0] == BINARY_START
    requires length == if input[1] == 0 then s.expectedLength else PacketLength(input)
    requires n == CaptureLength(length, input) <= |input|
    ensures var r := RunBinary(s, input[..n]);
      && r.packets == PacketIn(length, input[..n])
      && !BinaryOverflow(r.state).started && BinaryOverflow(r.state).expectedLength == length
  {
    hide RunBinary, Crc, PacketLength;
    if input[1] != 0 {
      NonzeroCapture(s, input, n);
    } else if 3 <= length <= CAPACITY {
      ZeroEnds(s, input, n);
      assert input[..n][1..] == input[1..n];
    } else {
      ZeroSoFar(s, input, n);
    }
  }

  // ---------------------------------------------------------------------------
  // Any input
  // ---------------------------------------------------------------------------

  lemma {:induction false} OverflowFirst(s: BinaryState, input: seq<Byte>)
    requires ValidBinary(s)
    ensures ValidBinary(BinaryOverflow(s))
    ensures RunBinary(s, input).packets == RunBinary(BinaryOverflow(s), input).packets
    ensures input != [] ==> RunBinary(s, input) == RunBinary(BinaryOverflow(s), input)
  {
    hide BinaryStep;
    if input == [] {
    } else {
      var n := |input| - 1;
      OverflowFirst(s, input[..n]);
      if n == 0 {
        OverflowStep(s, input[0]);
      }
    }
  }

  lemma OverflowStep(s: BinaryState, c: Byte)
    requires ValidBinary(s)
    ensures BinaryStep(s, c) == BinaryStep(BinaryOverflow(s), c)
  {
    hide Crc, PacketLength, NumberOfFields;
  }

  lemma NothingParsed(s: BinaryState)
    requires ValidBinary(s)
    ensures RunBinary(s, []).packets == []
  {
  }

  /** Whatever comes in, a framer that hunts dispatches exactly what the parser finds. */
  lemma {:induction false} FramerParses(s: BinaryState, input: seq<Byte>)
    requires ValidBinary(s) && !s.started
    ensures RunBinary(s, input).packets == Parse(s.expectedLength, input)
    decreases |input|
  {
    hide RunBinary, PacketLength, CaptureLength, PacketIn, HeaderLength, ValidBinary;
    if input == [] {
      NothingParsed(s);
    } else if input[0] != BINARY_START {
      HuntGoesOn(s, [input[0]]);
      BinaryConcat(s, [input[0]], input[1..]);
      assert input == [input[0]] + input[1..];
      FramerParses(s, input[1..]);
    } else if !HasHeader(input) {
      HeaderIncomplete(s, input);
    } else {
      var length := if input[1] == 0 then s.expectedLength else PacketLength(input);
      var n := CaptureLength(length, input);
      if |input| < n {
        CaptureIncomplete(s, input, length);
      } else {
        CaptureComplete(s, input, length, n);
        OverflowFirst(RunBinary(s, input[..n]).state, input[n..]);
        BinaryConcat(s, input[..n], input[n..]);
        assert input == input[..n] + input[n..];
        FramerParses(BinaryOverflow(RunBinary(s, input[..n]).state), input[n..]);
      }
    }
  }

  /** And so from the initial state, in reads of any size. */
  lemma BinariesAreParsed(chunks: seq<seq<Byte>>)
    ensures FeedReads(INITIAL, chunks).binaries == Parse(0, Concat(chunks))
  {
    ReadsDoNotMatter(INITIAL, chunks);
    FramerParses(INITIAL.binary, Concat(chunks));
  }
}
