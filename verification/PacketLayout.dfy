/** How long a binary packet is: the group masks of its header and the length table of
    vndevice.c. */
module PacketLayout {
  import opened Bytes

  const NUMBER_OF_GROUPS := 6

  // BinaryPacketGroupLengths: bytes of payload per group and selection bit.
  const GROUP_1_LENGTHS: seq<nat> := [8, 8, 8, 12, 16, 12, 24, 12, 12, 24, 20, 28, 2, 4, 8, 0]
  const GROUP_2_LENGTHS: seq<nat> := [8, 8, 8, 2, 8, 8, 8, 4, 0, 0, 0, 0, 0, 0, 0, 0]
  const GROUP_3_LENGTHS: seq<nat> := [2, 12, 12, 12, 4, 4, 16, 12, 12, 12, 12, 2, 40, 0, 0, 0]
  const GROUP_4_LENGTHS: seq<nat> := [8, 8, 2, 1, 1, 24, 24, 12, 12, 12, 4, 4, 32, 0, 0, 0]
  const GROUP_5_LENGTHS: seq<nat> := [2, 12, 16, 36, 12, 12, 12, 12, 12, 12, 28, 24, 0, 0, 0, 0]
  const GROUP_6_LENGTHS: seq<nat> := [2, 24, 24, 12, 12, 12, 12, 12, 12, 4, 4, 68, 64, 0, 0, 0]

  function TableLength(g: nat, i: nat): nat
    requires g < NUMBER_OF_GROUPS && i < 16
  {
    match g
    case 0 => GROUP_1_LENGTHS[i]
    case 1 => GROUP_2_LENGTHS[i]
    case 2 => GROUP_3_LENGTHS[i]
    case 3 => GROUP_4_LENGTHS[i]
    case 4 => GROUP_5_LENGTHS[i]
    case 5 => GROUP_6_LENGTHS[i]
  }

  /** Table lengths of the selected bits below n. */
  function SelectedLength(g: nat, field: Word, n: nat): nat
    requires g < NUMBER_OF_GROUPS && n <= 16
  {
    if n == 0 then 0
    else SelectedLength(g, field, n - 1) + if Bit(field, n - 1) then TableLength(g, n - 1) else 0
  }

  predicate HasGroup(groups: Byte, g: nat)
    requires g < 8
  {
    ByteBits(groups)[7 - g]
  }

  function NumberOfFields(groups: Byte): (n: nat)
    ensures n <= 8
  {
    CountSet(ByteBits(groups))
  }

  /** How many groups numbered below g are present. */
  function FieldsBelow(groups: Byte, g: nat): nat
    requires g <= 8
  {
    CountSet(ByteBits(groups)[8 - g..])
  }

  lemma FieldsBelowStep(groups: Byte, g: nat)
    requires g < 8
    ensures FieldsBelow(groups, g + 1) == FieldsBelow(groups, g) + if HasGroup(groups, g) then 1 else 0
    ensures FieldsBelow(groups, g + 1) <= NumberOfFields(groups)
  {
    var bits := ByteBits(groups);
    assert bits[7 - g..][1..] == bits[8 - g..];
    CountSetConcat(bits[..7 - g], bits[7 - g..]);
    assert bits == bits[..7 - g] + bits[7 - g..];
  }

  /** The start byte, the groups byte and one 16-bit selection field for every set bit. */
  function HeaderLength(groups: Byte): nat {
    2 + 2 * NumberOfFields(groups)
  }

  predicate HasHeader(p: seq<Byte>) {
    |p| >= 2 && |p| >= HeaderLength(p[1])
  }

  /** The selection field of a group that is present. */
  function FieldOf(p: seq<Byte>, g: nat): Word
    requires HasHeader(p) && g < 8 && HasGroup(p[1], g)
  {
    FieldsBelowStep(p[1], g);
    WordAt(p, 2 + 2 * FieldsBelow(p[1], g))
  }

  /** Table payload of the groups numbered below n. */
  function PayloadBelow(p: seq<Byte>, n: nat): nat
    requires HasHeader(p) && n <= NUMBER_OF_GROUPS
  {
    if n == 0 then 0
    else PayloadBelow(p, n - 1) + if HasGroup(p[1], n - 1) then SelectedLength(n - 1, FieldOf(p, n - 1), 16) else 0
  }

  function PayloadLength(p: seq<Byte>): nat
    requires HasHeader(p)
  {
    PayloadBelow(p, NUMBER_OF_GROUPS)
  }

  /** Header, payload and the two CRC bytes. */
  function PacketLength(p: seq<Byte>): nat
    requires HasHeader(p)
  {
    HeaderLength(p[1]) + PayloadLength(p) + 2
  }

  /** The length is a property of the header alone. */
  lemma {:induction false} PayloadOfHeader(p: seq<Byte>, q: seq<Byte>, n: nat)
    requires HasHeader(p) && HasHeader(q) && n <= NUMBER_OF_GROUPS
    requires p[1] == q[1] && p[..HeaderLength(p[1])] == q[..HeaderLength(p[1])]
    ensures PayloadBelow(p, n) == PayloadBelow(q, n)
  {
    if n == 0 {
    } else {
      PayloadOfHeader(p, q, n - 1);
      if HasGroup(p[1], n - 1) {
        FieldsBelowStep(p[1], n - 1);
        var at := 2 + 2 * FieldsBelow(p[1], n - 1);
        var h := HeaderLength(p[1]);
        assert p[at] == p[..h][at] && p[at + 1] == p[..h][at + 1];
        assert q[at] == q[..h][at] && q[at + 1] == q[..h][at + 1];
      }
    }
  }

  // ---------------------------------------------------------------------------
  // The loops of vndevice.c
  // ---------------------------------------------------------------------------

  /** Counts by testing the lowest bit and shifting right, eight times. */
  method CountSetBits(toCount: Poly) returns (numberOfSetBits: nat)
    requires |toCount| == 8
    ensures numberOfSetBits == CountSet(toCount)
  {
    var rest := toCount;
    numberOfSetBits := 0;
    for i := 0 to 8
      invariant rest == Zeros(i) + toCount[..8 - i]
      invariant numberOfSetBits == CountSet(toCount[8 - i..])
    {
      assert toCount[7 - i..] == [toCount[7 - i]] + toCount[8 - i..];
      if rest[7] {
        numberOfSetBits := numberOfSetBits + 1;
      }
      assert rest[..7] == Zeros(i) + toCount[..7 - i] && [false] + Zeros(i) == Zeros(i + 1);
      rest := [false] + rest[..7];
    }
  }

  method ComputeLengthOfBinaryGroupPayload(groupIndex: nat, groupField: Word) returns (runningLength: nat)
    requires groupIndex < NUMBER_OF_GROUPS
    ensures runningLength == SelectedLength(groupIndex, groupField, 16)
  {
    runningLength := 0;
    for i := 0 to 16
      invariant runningLength == SelectedLength(groupIndex, groupField, i)
    {
      if Bit(groupField, i) {
        runningLength := runningLength + TableLength(groupIndex, i);
      }
    }
  }

  method AddGroupLength(packet: array<Byte>, g: nat, soFar: nat, cursor: nat) returns (runningLength: nat, next: nat)
    requires g < NUMBER_OF_GROUPS && HasHeader(packet[..])
    requires soFar == PayloadBelow(packet[..], g) && cursor == 2 + 2 * FieldsBelow(packet[1], g)
    ensures runningLength == PayloadBelow(packet[..], g + 1)
    ensures next == 2 + 2 * FieldsBelow(packet[1], g + 1)
  {
    ghost var p := packet[..];
    FieldsBelowStep(p[1], g);
    if HasGroup(packet[1], g) {
      var field := WordAt(packet[..], cursor);
      assert field == FieldOf(p, g);
      var length := ComputeLengthOfBinaryGroupPayload(g, field);
      runningLength := soFar + length;
      next := cursor + 2;
    } else {
      runningLength, next := soFar, cursor;
    }
  }

  method ComputeLengthOfExpectedBinaryPayload(packet: array<Byte>) returns (runningLength: nat)
    requires HasHeader(packet[..])
    ensures runningLength == PayloadLength(packet[..])
  {
    var cursor := 2;
    runningLength, cursor := AddGroupLength(packet, 0, 0, cursor);
    runningLength, cursor := AddGroupLength(packet, 1, runningLength, cursor);
    runningLength, cursor := AddGroupLength(packet, 2, runningLength, cursor);
    runningLength, cursor := AddGroupLength(packet, 3, runningLength, cursor);
    runningLength, cursor := AddGroupLength(packet, 4, runningLength, cursor);
    runningLength, cursor := AddGroupLength(packet, 5, runningLength, cursor);
  }

  // ---------------------------------------------------------------------------
  // An empty groups byte
  // ---------------------------------------------------------------------------

  lemma {:induction false} NothingSet(bits: Poly)
    ensures CountSet(bits) == 0 <==> bits == Zeros(|bits|)
  {
    if bits == [] {
    } else {
      NothingSet(bits[1..]);
      if bits == Zeros(|bits|) {
        assert bits[1..] == Zeros(|bits| - 1);
      }
      if CountSet(bits) == 0 {
        assert bits == [false] + bits[1..];
      }
    }
  }

  lemma NoFieldsIffZero(groups: Byte)
    ensures NumberOfFields(groups) == 0 <==> groups == 0
  {
    NothingSet(ByteBits(groups));
    assert ByteBits(0) == Zeros(8) by { ZeroBits(8); }
    if ByteBits(groups) == Zeros(8) {
      ByteBitsInjective(groups, 0);
    }
  }
}
