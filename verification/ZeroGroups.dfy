/** Packets whose groups byte is zero. They have no selection fields, so that no length is
    computed for them, and the one left over from an earlier packet decides. */
module ZeroGroups {
  import opened Bytes
  import opened Crc16
  import opened PacketLayout
  import opened Framer
  import opened FramerProperties
  import opened Demultiplexing

  /** Reading such a packet, with a leftover length. */
  function ZeroState(buffer: seq<Byte>, leftover: nat): BinaryState {
    BinaryState(true, true, buffer, 0, 0, leftover)
  }

  lemma ZeroHeader(s: BinaryState, p: Packet)
    requires ValidBinary(s) && !s.started && |p| >= 2 && p[0] == BINARY_START && p[1] == 0
    ensures RunBinary(s, p[..2]) == Outcome(ZeroState(p[..2], s.expectedLength), [])
  {
    NoFieldsIffZero(p[1]);
    BinarySnoc(s, [], BINARY_START);
    BinarySnoc(s, [BINARY_START], p[1]);
    assert [] + [BINARY_START] == [BINARY_START];
    assert p[..2] == [BINARY_START] + [p[1]];
  }

  lemma ZeroByte(buffer: seq<Byte>, leftover: nat, c: Byte)
    requires ValidBinary(ZeroState(buffer, leftover)) && |buffer| < CAPACITY
    ensures var r := BinaryStep(ZeroState(buffer, leftover), c);
      if |buffer| + 1 == leftover then
        && !r.state.started && r.state.expectedLength == leftover
        && r.packets == if Crc((buffer + [c])[1..]) == Zeros(16) then [buffer + [c]] else []
      else
        r == Outcome(ZeroState(buffer + [c], leftover), [])
  {
    hide Crc;
  }

  lemma {:induction false} ZeroSoFar(s: BinaryState, p: Packet, k: nat)
    requires ValidBinary(s) && !s.started && 2 <= k <= |p| && p[0] == BINARY_START && p[1] == 0
    requires k <= CAPACITY && !(3 <= s.expectedLength <= k)
    ensures RunBinary(s, p[..k]) == Outcome(ZeroState(p[..k], s.expectedLength), [])
  {
    hide RunBinary, BinaryStep;
    if k == 2 {
      ZeroHeader(s, p);
    } else {
      ZeroSoFar(s, p, k - 1);
      BinaryExtend(s, p, k - 1);
      ZeroByte(p[..k - 1], s.expectedLength, p[k - 1]);
      assert p[..k] == p[..k - 1] + [p[k - 1]];
    }
  }

  /** At the leftover length the capture ends, and is dispatched if the CRC is right. */
  lemma ZeroEnds(s: BinaryState, p: Packet, e: nat)
    requires ValidBinary(s) && !s.started && |p| >= 2 && p[..2] == [BINARY_START, 0]
    requires 3 <= e == s.expectedLength <= CAPACITY && e <= |p|
    ensures var r := RunBinary(s, p[..e]);
      && !r.state.started && r.state.expectedLength == e
      && r.packets == if Crc(p[1..e]) == Zeros(16) then [p[..e]] else []
  {
    hide RunBinary, BinaryStep, Crc, ValidBinary;
    assert p[0] == p[..2][0] && p[1] == p[..2][1];
    ZeroSoFar(s, p, e - 1);
    BinaryExtend(s, p, e - 1);
    ZeroByte(p[..e - 1], e, p[e - 1]);
    assert p[..e] == p[..e - 1] + [p[e - 1]] && p[..e][1..] == p[1..e];
  }

  lemma BinaryDispatchIs(s: BinaryState, c: Byte, p: Packet)
    requires ValidBinary(s) && p in BinaryStep(s, c).packets
    ensures AcceptedBinary(p) && p == s.buffer + [c]
  {
    BinaryStepCases(s, c);
    hide BinaryStep, AcceptedBinary;
  }

  lemma BufferGrowsByOne(s: BinaryState, c: Byte)
    requires ValidBinary(s)
    ensures |BinaryStep(s, c).state.buffer| <= |s.buffer| + 1
  {
    BinaryStepCases(s, c);
    hide BinaryStep, AcceptedBinary;
  }

  /** From hunting, the capture and the packets are no longer than what was read. */
  lemma {:induction false} NoLongerThanInput(s: BinaryState, input: seq<Byte>)
    requires ValidBinary(s) && !s.started
    ensures |RunBinary(s, input).state.buffer| <= |input|
    ensures forall p :: p in RunBinary(s, input).packets ==> |p| <= |input| && AcceptedBinary(p)
  {
    hide BinaryStep, AcceptedBinary;
    if input == [] {
    } else {
      var n := |input| - 1;
      var before := RunBinary(s, input[..n]);
      NoLongerThanInput(s, input[..n]);
      BufferGrowsByOne(before.state, input[n]);
      forall p | p in BinaryStep(before.state, input[n]).packets ensures |p| <= |input| && AcceptedBinary(p) {
        BinaryDispatchIs(before.state, input[n], p);
      }
    }
  }

  lemma TooShort(first: seq<Packet>, second: seq<Packet>, a: seq<Byte>, b: seq<Byte>)
    requires a != [] && b != [] && (first == [] || first == [a])
    requires forall q :: q in second ==> |q| <= |b|
    ensures a + b !in first + second
  {
    assert |a| != |a + b|;
  }

  /** What comes in two captures is not dispatched as one. */
  lemma NotAsOne(s: BinaryState, a: seq<Byte>, b: seq<Byte>)
    requires ValidBinary(s) && a != [] && b != []
    requires !RunBinary(s, a).state.started && (RunBinary(s, a).packets == [] || RunBinary(s, a).packets == [a])
    ensures a + b !in RunBinary(s, a + b).packets
  {
    hide RunBinary, AcceptedBinary, ValidBinary;
    var first := RunBinary(s, a);
    BinaryConcat(s, a, b);
    NoLongerThanInput(first.state, b);
    TooShort(first.packets, RunBinary(first.state, b).packets, a, b);
  }

  lemma EndsBefore(s: BinaryState, p: Packet)
    requires ValidBinary(s) && !s.started && |p| >= 2 && p[..2] == [BINARY_START, 0]
    requires 3 <= s.expectedLength <= CAPACITY && s.expectedLength < |p|
    ensures p !in RunBinary(s, p).packets
  {
    hide RunBinary, Crc, ValidBinary;
    var e := s.expectedLength;
    ZeroEnds(s, p, e);
    NotAsOne(s, p[..e], p[e..]);
    assert p[..e] + p[e..] == p;
  }

  /** A hunting framer dispatches a packet with groups byte zero, and nothing else, exactly if it
      starts with the start byte, has the leftover length, from 3 to 256, and CRC zero. */
  lemma DispatchedIff(s: BinaryState, p: Packet)
    requires ValidBinary(s) && !s.started && |p| >= 2 && p[1] == 0
    ensures RunBinary(s, p).packets == [p] <==>
      p[0] == BINARY_START && 3 <= |p| <= CAPACITY && |p| == s.expectedLength && Crc(p[1..]) == Zeros(16)
  {
    hide RunBinary, Crc, ValidBinary;
    assert p[..|p|] == p;
    if p in RunBinary(s, p).packets {
      NoLongerThanInput(s, p);
      assert AcceptedBinary(p);
      assert p[..2] == [BINARY_START, 0];
      if !(3 <= s.expectedLength <= |p|) {
        ZeroSoFar(s, p, |p|);
      } else if s.expectedLength < |p| {
        EndsBefore(s, p);
      }
    } else {
      assert RunBinary(s, p).packets != [p];
    }
    if p[0] == BINARY_START && 3 <= |p| <= CAPACITY && |p| == s.expectedLength {
      assert p[..2] == [BINARY_START, 0] && p[1..|p|] == p[1..];
      ZeroEnds(s, p, |p|);
    }
  }
}
