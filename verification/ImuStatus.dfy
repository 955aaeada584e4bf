/** The IMU status of group 3, which the decoder takes to be six bytes longer than the length
    table does: accepted frames on which it leaves the payload, and even the buffer. */
module ImuStatus {
  import opened Bytes
  import opened Crc16
  import opened PacketLayout
  import opened CompositeData
  import opened Framer
  import opened Demultiplexing
  import opened PacketDecoder
  import opened RoundTrip

  lemma OnlyGroup3()
    ensures NumberOfFields(4) == 1 && FieldsBelow(4, 2) == 0
    ensures forall g :: 0 <= g < 8 ==> (HasGroup(4, g) <==> g == 2)
  {
    assert ByteBits(4) == [false, false, false, false, false, true, false, false];
  }

  lemma {:induction false} PayloadOfGroup3(p: seq<Byte>, n: nat)
    requires HasHeader(p) && n <= NUMBER_OF_GROUPS
    requires forall g :: 0 <= g < 8 ==> (HasGroup(p[1], g) <==> g == 2)
    ensures PayloadBelow(p, n) == if n > 2 then SelectedLength(2, FieldOf(p, 2), 16) else 0
  {
    hide HasGroup, SelectedLength, FieldOf;
    if n == 0 {
    } else {
      PayloadOfGroup3(p, n - 1);
    }
  }

  lemma FirstBitOnly(field: Word)
    requires field == ByteBits(0) + ByteBits(1)
    ensures forall i :: 0 <= i < 16 ==> (Bit(field, i) <==> i == 0)
  {
    ZeroBits(8);
    assert ByteBits(0) == Zeros(8);
    assert ByteBits(1) == Zeros(7) + [true];
  }

  lemma ImuStatusHeader(p: seq<Byte>)
    requires |p| >= 4 && p[..4] == [BINARY_START, 4, 1, 0]
    ensures HasHeader(p) && PacketLength(p) == 8 && SelectsImuStatus(p) && DataEnd(p) == 12
  {
    assert p[0] == BINARY_START && p[1] == 4 && p[2] == 1 && p[3] == 0;
    OnlyGroup3();
    hide ByteBits, NumberOfFields, FieldsBelow, HasGroup;
    var field := FieldOf(p, 2);
    FirstBitOnly(field);
    OnlyImuStatus(field, 16);
    PayloadOfGroup3(p, NUMBER_OF_GROUPS);
    assert PacketLength(p) == 8;
    DataEndIs(p);
    NothingUnknown(p);
  }

  lemma NothingUnknown(p: seq<Byte>)
    requires HasHeader(p) && SelectsImuStatus(p)
    requires forall g :: 0 <= g < 8 ==> (HasGroup(p[1], g) <==> g == 2)
    requires forall i :: 0 <= i < 16 ==> (Bit(FieldOf(p, 2), i) <==> i == 0)
    ensures UnknownInPacket(p, NUMBER_OF_GROUPS) == 0
  {
    hide HasGroup, FieldOf, Bit;
    UnknownIffSelected(p);
  }

  /** The smallest: group 3 with the IMU status alone, any two payload bytes, and the CRC. The
      receiver accepts it, and the decoder steps over the payload, the CRC and four bytes
      more. */
  lemma ImuStatusFrame(low: Byte, high: Byte) returns (p: seq<Byte>)
    ensures IsBinaryFrame(p) && |p| == 8 && p[..6] == [BINARY_START, 4, 1, 0, low, high]
    ensures DataEnd(p) == |p| + 4
  {
    var b := [BINARY_START, 4, 1, 0, low, high];
    var t := Trailer(Crc(b[1..]));
    p := b + t;
    TrailerChecks(b, t);
    assert p[..4] == [BINARY_START, 4, 1, 0];
    ImuStatusHeader(p);
    hide Crc, Trailer, PacketLength, DataEnd, HasHeader;
  }

  lemma {:induction false} OnlyImuStatus(field: Word, n: nat)
    requires n <= 16 && forall i :: 0 <= i < 16 ==> (Bit(field, i) <==> i == 0)
    ensures SelectedLength(2, field, n) == if n > 0 then 2 else 0
  {
    if n == 0 {
    } else {
      OnlyImuStatus(field, n - 1);
    }
  }

  // The largest: group 1 with all it has and group 3 with the IMU status and four more, so
  // that the payload is 248 bytes and the packet fills the receive buffer.

  ghost predicate IsFirstField(field: Word) {
    forall i :: 0 <= i < 16 ==> (Bit(field, i) <==> i < 15)
  }

  ghost predicate IsThirdField(field: Word) {
    forall i :: 0 <= i < 16 ==> (Bit(field, i) <==> i < 4 || i == 7)
  }

  lemma FirstFieldLength(field: Word)
    requires IsFirstField(field)
    ensures SelectedLength(0, field, 16) == 198
  {
    assert SelectedLength(0, field, 1) == 8;
    assert SelectedLength(0, field, 2) == 16;
    assert SelectedLength(0, field, 3) == 24;
    assert SelectedLength(0, field, 4) == 36;
    assert SelectedLength(0, field, 5) == 52;
    assert SelectedLength(0, field, 6) == 64;
    assert SelectedLength(0, field, 7) == 88;
    assert SelectedLength(0, field, 8) == 100;
    assert SelectedLength(0, field, 9) == 112;
    assert SelectedLength(0, field, 10) == 136;
    assert SelectedLength(0, field, 11) == 156;
    assert SelectedLength(0, field, 12) == 184;
    assert SelectedLength(0, field, 13) == 186;
    assert SelectedLength(0, field, 14) == 190;
    assert SelectedLength(0, field, 15) == 198;
    assert SelectedLength(0, field, 16) == 198;
  }

  lemma ThirdFieldLength(field: Word)
    requires IsThirdField(field)
    ensures SelectedLength(2, field, 16) == 50
  {
    assert SelectedLength(2, field, 1) == 2;
    assert SelectedLength(2, field, 2) == 14;
    assert SelectedLength(2, field, 3) == 26;
    assert SelectedLength(2, field, 4) == 38;
    assert SelectedLength(2, field, 5) == 38;
    assert SelectedLength(2, field, 6) == 38;
    assert SelectedLength(2, field, 7) == 38;
    assert SelectedLength(2, field, 8) == 50;
    assert SelectedLength(2, field, 9) == 50;
    assert SelectedLength(2, field, 10) == 50;
    assert SelectedLength(2, field, 11) == 50;
    assert SelectedLength(2, field, 12) == 50;
    assert SelectedLength(2, field, 13) == 50;
    assert SelectedLength(2, field, 14) == 50;
    assert SelectedLength(2, field, 15) == 50;
    assert SelectedLength(2, field, 16) == 50;
  }

  lemma FirstFieldBytes()
    ensures IsFirstField(ByteBits(0x7F) + ByteBits(0xFF))
  {
    var high, low := ByteBits(0x7F), ByteBits(0xFF);
    assert high == [false, true, true, true, true, true, true, true];
    assert low == [true, true, true, true, true, true, true, true];
    hide ByteBits, Bits;
  }

  lemma ThirdFieldBytes()
    ensures IsThirdField(ByteBits(0) + ByteBits(0x8F))
  {
    var high, low := ByteBits(0), ByteBits(0x8F);
    ZeroBits(8);
    assert high == Zeros(8);
    assert low == [true, false, false, false, true, true, true, true];
    hide ByteBits;
  }

  lemma GroupsOneAndThree()
    ensures NumberOfFields(5) == 2 && FieldsBelow(5, 0) == 0 && FieldsBelow(5, 2) == 1
    ensures forall g :: 0 <= g < 8 ==> (HasGroup(5, g) <==> g == 0 || g == 2)
  {
    var bits := ByteBits(5);
    assert bits == [false, false, false, false, false, true, false, true];
    hide ByteBits;
    FieldsBelowStep(5, 0);
    FieldsBelowStep(5, 1);
  }

  lemma {:induction false} PayloadOfTwo(p: seq<Byte>, n: nat)
    requires HasHeader(p) && 2 < n <= NUMBER_OF_GROUPS
    requires forall g :: 0 <= g < 8 ==> (HasGroup(p[1], g) <==> g == 0 || g == 2)
    ensures PayloadBelow(p, n) == SelectedLength(0, FieldOf(p, 0), 16) + SelectedLength(2, FieldOf(p, 2), 16)
  {
    hide HasGroup, SelectedLength, FieldOf;
    if n == 3 {
      assert PayloadBelow(p, 1) == SelectedLength(0, FieldOf(p, 0), 16);
      assert PayloadBelow(p, 2) == PayloadBelow(p, 1);
    } else {
      PayloadOfTwo(p, n - 1);
    }
  }

  lemma NothingUnknownInTwo(p: seq<Byte>)
    requires HasHeader(p) && SelectsImuStatus(p)
    requires forall g :: 0 <= g < 8 ==> (HasGroup(p[1], g) <==> g == 0 || g == 2)
    requires IsThirdField(FieldOf(p, 2))
    ensures UnknownInPacket(p, NUMBER_OF_GROUPS) == 0
  {
    hide HasGroup, FieldOf, Bit;
    UnknownIffSelected(p);
  }

  lemma FullHeader(p: seq<Byte>)
    requires |p| >= 6 && p[..6] == [BINARY_START, 5, 0xFF, 0x7F, 0x8F, 0]
    ensures HasHeader(p) && PacketLength(p) == 256 && SelectsImuStatus(p) && DataEnd(p) == 260
  {
    hide ByteBits, NumberOfFields, FieldsBelow, HasGroup, SelectedLength, IsFirstField, PayloadBelow, DataEnd;
    assert p[0] == BINARY_START && p[1] == 5;
    assert p[2] == 0xFF && p[3] == 0x7F && p[4] == 0x8F && p[5] == 0;
    GroupsOneAndThree();
    FirstFieldBytes();
    ThirdFieldBytes();
    FirstFieldLength(FieldOf(p, 0));
    ThirdFieldLength(FieldOf(p, 2));
    PayloadOfTwo(p, NUMBER_OF_GROUPS);
    assert PacketLength(p) == 256;
    DataEndIs(p);
    NothingUnknownInTwo(p);
  }

  /** The receiver accepts it, and the decoder reads four bytes behind the receive buffer. */
  lemma FrameBeyondBuffer(payload: seq<Byte>) returns (p: seq<Byte>)
    requires |payload| == 248
    ensures IsBinaryFrame(p) && |p| == CAPACITY && DataEnd(p) == CAPACITY + 4
    ensures p[..254] == [BINARY_START, 5, 0xFF, 0x7F, 0x8F, 0] + payload
  {
    var b := [BINARY_START, 5, 0xFF, 0x7F, 0x8F, 0] + payload;
    var t := Trailer(Crc(b[1..]));
    p := b + t;
    TrailerChecks(b, t);
    assert p[..6] == [BINARY_START, 5, 0xFF, 0x7F, 0x8F, 0];
    FullHeader(p);
    hide Crc, Trailer, PacketLength, DataEnd, HasHeader;
  }
}
