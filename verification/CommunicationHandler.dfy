/** The receive loop of vndevice_communicationHandler over its fixed buffers, proved
    against the framer functions. A call that dispatches a packet is an append to the
    framer's list of dispatched packets. */
module CommunicationHandler {
  import opened Bytes
  import opened Crc16
  import opened PacketLayout
  import opened Framer

  class AsciiFramer {
    const receiveBuffer: array<Byte>
    var bufferIndex: nat
    var possibleStartFound: bool
    var possibleFirstEndDelimiterFound: bool
    var dispatched: seq<Packet>

    ghost predicate Valid()
      reads this, receiveBuffer
    {
      receiveBuffer.Length == CAPACITY && bufferIndex <= CAPACITY && ValidAscii(View())
    }

    ghost function View(): AsciiState
      requires bufferIndex <= receiveBuffer.Length
      reads this, receiveBuffer
    {
      AsciiState(possibleStartFound, possibleFirstEndDelimiterFound, receiveBuffer[..bufferIndex])
    }

    constructor ()
      ensures Valid() && View() == INITIAL.ascii && dispatched == [] && fresh(receiveBuffer)
    {
      receiveBuffer := new Byte[CAPACITY];
      bufferIndex := 0;
      possibleStartFound := false;
      possibleFirstEndDelimiterFound := false;
      dispatched := [];
    }

    method Handle(curChar: Byte)
      requires Valid()
      modifies this, receiveBuffer
      ensures bufferIndex <= receiveBuffer.Length && View() == AsciiStep(old(View()), curChar).state
      ensures dispatched == old(dispatched) + AsciiStep(old(View()), curChar).packets
      ensures Valid()
    {
      if bufferIndex == CAPACITY {
        bufferIndex := 0;
        possibleStartFound := false;
      }
      if curChar == ASCII_START {
        possibleStartFound := true;
        bufferIndex := 0;
        Store(curChar);
      } else if possibleStartFound {
        if !possibleFirstEndDelimiterFound && curChar == CARRIAGE_RETURN {
          possibleFirstEndDelimiterFound := true;
          Store(curChar);
        } else if possibleFirstEndDelimiterFound && curChar == LINE_FEED {
          Store(curChar);
          possibleFirstEndDelimiterFound := false;
          possibleStartFound := false;
          if bufferIndex < CAPACITY {
            dispatched := dispatched + [receiveBuffer[..bufferIndex]];
            receiveBuffer[bufferIndex] := 0;
          }
          bufferIndex := 0;
        } else {
          possibleFirstEndDelimiterFound := false;
          Store(curChar);
        }
      }
    }

    method Store(c: Byte)
      requires bufferIndex < receiveBuffer.Length
      modifies this`bufferIndex, receiveBuffer
      ensures bufferIndex == old(bufferIndex) + 1
      ensures receiveBuffer[..bufferIndex] == old(receiveBuffer[..bufferIndex]) + [c]
    {
      receiveBuffer[bufferIndex] := c;
      bufferIndex := bufferIndex + 1;
    }
  }

  class BinaryFramer {
    const receiveBuffer: array<Byte>
    var bufferIndex: nat
    var possibleStartFound: bool
    var groupsFieldFound: bool
    var expectedFieldBytes: nat
    var fieldBytesProcessed: nat
    var expectedPacketLength: nat
    var dispatched: seq<Packet>

    ghost predicate Valid()
      reads this, receiveBuffer
    {
      receiveBuffer.Length == CAPACITY && bufferIndex <= CAPACITY && ValidBinary(View())
    }

    ghost function View(): BinaryState
      requires bufferIndex <= receiveBuffer.Length
      reads this, receiveBuffer
    {
      BinaryState(possibleStartFound, groupsFieldFound, receiveBuffer[..bufferIndex],
                  expectedFieldBytes, fieldBytesProcessed, expectedPacketLength)
    }

    constructor ()
      ensures Valid() && View() == INITIAL.binary && dispatched == [] && fresh(receiveBuffer)
    {
      receiveBuffer := new Byte[CAPACITY];
      bufferIndex := 0;
      possibleStartFound, groupsFieldFound := false, false;
      expectedFieldBytes, fieldBytesProcessed, expectedPacketLength := 0, 0, 0;
      dispatched := [];
    }

    method Handle(curChar: Byte)
      requires Valid()
      modifies this, receiveBuffer
      ensures bufferIndex <= receiveBuffer.Length && View() == BinaryStep(old(View()), curChar).state
      ensures dispatched == old(dispatched) + BinaryStep(old(View()), curChar).packets
      ensures Valid()
    {
      ghost var was := View();
      if bufferIndex == CAPACITY {
        Reset();
        assert View() == BinaryOverflow(was);
      }
      if !possibleStartFound {
        if curChar == BINARY_START {
          possibleStartFound := true;
          Store(curChar);
        }
      } else if !groupsFieldFound {
        groupsFieldFound := true;
        Store(curChar);
        var setBits := CountSetBits(ByteBits(curChar));
        expectedFieldBytes := setBits * 2;
        fieldBytesProcessed := 0;
      } else if fieldBytesProcessed < expectedFieldBytes {
        HandleFieldByte(curChar);
      } else {
        HandlePayloadByte(curChar);
      }
    }

    /** A byte of the header's selection fields; the last one fixes the packet's length. */
    method HandleFieldByte(curChar: Byte)
      requires Valid() && bufferIndex < CAPACITY && groupsFieldFound && fieldBytesProcessed < expectedFieldBytes
      modifies this, receiveBuffer
      ensures bufferIndex <= receiveBuffer.Length && View() == BinaryStep(old(View()), curChar).state
      ensures dispatched == old(dispatched) + BinaryStep(old(View()), curChar).packets
    {
      Store(curChar);
      fieldBytesProcessed := fieldBytesProcessed + 1;
      if fieldBytesProcessed == expectedFieldBytes {
        ExpectedLengthOf(receiveBuffer[..], bufferIndex);
        var payloadLength := ComputeLengthOfExpectedBinaryPayload(receiveBuffer);
        expectedPacketLength := 2 + expectedFieldBytes + payloadLength + 2;
        assert expectedPacketLength == PacketLength(receiveBuffer[..bufferIndex]);
        if expectedPacketLength > CAPACITY {
          Reset();
        }
      }
    }

    /** A byte after the header; the one that reaches the expected length ends the capture. */
    method HandlePayloadByte(curChar: Byte)
      requires Valid() && bufferIndex < CAPACITY && groupsFieldFound && fieldBytesProcessed == expectedFieldBytes
      modifies this, receiveBuffer
      ensures bufferIndex <= receiveBuffer.Length && View() == BinaryStep(old(View()), curChar).state
      ensures dispatched == old(dispatched) + BinaryStep(old(View()), curChar).packets
    {
      Store(curChar);
      if bufferIndex == expectedPacketLength {
        var calculatedCrc := ComputeCrc16(receiveBuffer, 1, expectedPacketLength - 1);
        assert receiveBuffer[1..1 + (expectedPacketLength - 1)] == receiveBuffer[..bufferIndex][1..];
        if calculatedCrc == Zeros(16) {
          dispatched := dispatched + [receiveBuffer[..bufferIndex]];
        }
        Reset();
      }
    }

    method Store(c: Byte)
      requires bufferIndex < receiveBuffer.Length
      modifies this`bufferIndex, receiveBuffer
      ensures bufferIndex == old(bufferIndex) + 1
      ensures receiveBuffer[..bufferIndex] == old(receiveBuffer[..bufferIndex]) + [c]
    {
      receiveBuffer[bufferIndex] := c;
      bufferIndex := bufferIndex + 1;
    }

    method Reset()
      modifies this`bufferIndex, this`possibleStartFound, this`groupsFieldFound
      ensures bufferIndex == 0 && !possibleStartFound && !groupsFieldFound
    {
      bufferIndex := 0;
      possibleStartFound := false;
      groupsFieldFound := false;
    }
  }

  /** The length read off the whole buffer is that of the bytes stored so far. */
  lemma ExpectedLengthOf(buffer: seq<Byte>, index: nat)
    requires index <= |buffer| && HasHeader(buffer[..index])
    ensures HasHeader(buffer) && PayloadLength(buffer) == PayloadLength(buffer[..index])
  {
    var h := HeaderLength(buffer[1]);
    assert buffer[..index][..h] == buffer[..h];
    PayloadOfHeader(buffer, buffer[..index], NUMBER_OF_GROUPS);
  }

  /** The framer has reached this outcome, having dispatched the log before. */
  ghost predicate AsciiHas(f: AsciiFramer, log: seq<Packet>, r: Outcome<AsciiState>)
    reads f, f.receiveBuffer
  {
    f.Valid() && f.View() == r.state && f.dispatched == log + r.packets
  }

  ghost predicate BinaryHas(f: BinaryFramer, log: seq<Packet>, r: Outcome<BinaryState>)
    reads f, f.receiveBuffer
  {
    f.Valid() && f.View() == r.state && f.dispatched == log + r.packets
  }

  method HandleAscii(f: AsciiFramer, c: Byte, ghost log: seq<Packet>, ghost r: Outcome<AsciiState>)
    requires AsciiHas(f, log, r)
    modifies f, f.receiveBuffer
    ensures AsciiHas(f, log, Then(r, AsciiStep(r.state, c)))
  {
    f.Handle(c);
  }

  method HandleBinary(f: BinaryFramer, c: Byte, ghost log: seq<Packet>, ghost r: Outcome<BinaryState>)
    requires BinaryHas(f, log, r)
    modifies f, f.receiveBuffer
    ensures BinaryHas(f, log, Then(r, BinaryStep(r.state, c)))
  {
    f.Handle(c);
  }

  /** The inner loop: every byte of a read goes through both framers. */
  method HandleRead(ascii: AsciiFramer, binary: BinaryFramer, readBuffer: array<Byte>, numOfBytesRead: nat)
    requires ascii.Valid() && binary.Valid() && numOfBytesRead <= readBuffer.Length
    requires ascii.receiveBuffer != binary.receiveBuffer
    requires readBuffer != ascii.receiveBuffer && readBuffer != binary.receiveBuffer
    modifies ascii, ascii.receiveBuffer, binary, binary.receiveBuffer
    ensures ascii.Valid() && binary.Valid()
    ensures var r := Feed(old(State(ascii.View(), binary.View())), readBuffer[..numOfBytesRead]);
      && State(ascii.View(), binary.View()) == r.state
      && ascii.dispatched == old(ascii.dispatched) + r.texts
      && binary.dispatched == old(binary.dispatched) + r.binaries
  {
    ghost var a0, b0 := ascii.View(), binary.View();
    ghost var texts, binaries := ascii.dispatched, binary.dispatched;
    for curResponsePos := 0 to numOfBytesRead
      invariant AsciiHas(ascii, texts, RunAscii(a0, readBuffer[..curResponsePos]))
      invariant BinaryHas(binary, binaries, RunBinary(b0, readBuffer[..curResponsePos]))
    {
      ghost var sofar := readBuffer[..curResponsePos];
      var curChar := readBuffer[curResponsePos];
      assert readBuffer[..curResponsePos + 1] == sofar + [curChar];
      AsciiSnoc(a0, sofar, curChar);
      BinarySnoc(b0, sofar, curChar);
      HandleAscii(ascii, curChar, texts, RunAscii(a0, sofar));
      HandleBinary(binary, curChar, binaries, RunBinary(b0, sofar));
    }
  }
}
