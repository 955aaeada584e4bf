/** A whole binary packet: decoding it, and what that has to do with encoding it. */
module PacketDecoder {
  import opened Bytes
  import opened PacketLayout
  import opened CompositeData
  import opened Decoder
  import opened Framer

  /** What the decoders of the groups numbered below n walk over. */
  function PacketItems(p: seq<Byte>, n: nat): seq<Item>
    requires HasHeader(p) && n <= NUMBER_OF_GROUPS
  {
    if n == 0 then []
    else PacketItems(p, n - 1) + if HasGroup(p[1], n - 1) then GroupItems(n - 1, FieldOf(p, n - 1), 16) else []
  }

  /** Where the data cursor ends up. */
  function DataEnd(p: seq<Byte>): nat
    requires HasHeader(p)
  {
    HeaderLength(p[1]) + Width(PacketItems(p, NUMBER_OF_GROUPS))
  }

  function DecodePacket(p: seq<Byte>): Data
    requires HasHeader(p) && DataEnd(p) <= |p|
  {
    LoadItems(PacketItems(p, NUMBER_OF_GROUPS), p, HeaderLength(p[1]), map[])
  }

  // ---------------------------------------------------------------------------
  // Group by group
  // ---------------------------------------------------------------------------

  /** The cursors and the data after the groups numbered below n. */
  ghost predicate Decoded(p: seq<Byte>, n: nat, fieldPtr: nat, dataPtr: nat, data: Data)
    requires HasHeader(p) && n <= NUMBER_OF_GROUPS
  {
    && fieldPtr == 2 + 2 * FieldsBelow(p[1], n)
    && dataPtr == HeaderLength(p[1]) + Width(PacketItems(p, n)) <= |p|
    && data == LoadItems(PacketItems(p, n), p, HeaderLength(p[1]), map[])
  }

  lemma {:induction false} PacketWidthGrows(p: seq<Byte>, n: nat, m: nat)
    requires HasHeader(p) && n <= m <= NUMBER_OF_GROUPS
    ensures Width(PacketItems(p, n)) <= Width(PacketItems(p, m))
  {
    if n == m {
    } else {
      PacketWidthGrows(p, n, m - 1);
      WidthConcat(PacketItems(p, m - 1),
                  if HasGroup(p[1], m - 1) then GroupItems(m - 1, FieldOf(p, m - 1), 16) else []);
    }
  }

  lemma NotPresent(p: seq<Byte>, g: nat)
    requires HasHeader(p) && g < NUMBER_OF_GROUPS && !HasGroup(p[1], g)
    ensures PacketItems(p, g + 1) == PacketItems(p, g)
  {
    assert PacketItems(p, g) + [] == PacketItems(p, g);
  }

  lemma Present(p: seq<Byte>, g: nat)
    requires HasHeader(p) && g < NUMBER_OF_GROUPS && HasGroup(p[1], g)
    ensures PacketItems(p, g + 1) == PacketItems(p, g) + GroupItems(g, FieldOf(p, g), 16)
  {
  }

  lemma PastAbsentGroup(p: seq<Byte>, g: nat, fieldPtr: nat, dataPtr: nat, data: Data)
    requires HasHeader(p) && g < NUMBER_OF_GROUPS && !HasGroup(p[1], g)
    requires Decoded(p, g, fieldPtr, dataPtr, data)
    ensures Decoded(p, g + 1, fieldPtr, dataPtr, data)
  {
    hide FieldsBelow, PacketItems, HasGroup, HasHeader, Width, LoadItems;
    FieldsBelowStep(p[1], g);
    NotPresent(p, g);
  }

  lemma FieldUnderPointer(p: seq<Byte>, g: nat)
    requires HasHeader(p) && g < NUMBER_OF_GROUPS && HasGroup(p[1], g)
    ensures var at := 2 + 2 * FieldsBelow(p[1], g);
      && FieldsBelow(p[1], g + 1) == FieldsBelow(p[1], g) + 1
      && at + 2 <= |p| && FieldOf(p, g) == WordAt(p, at)
  {
    hide ByteBits;
    FieldsBelowStep(p[1], g);
  }

  /** Loading one more group after those already loaded. */
  lemma LoadOneMore(done: seq<Item>, more: seq<Item>, all: seq<Item>, p: seq<Byte>, start: nat, at: nat, data: Data)
    requires all == done + more && start + Width(all) <= |p|
    requires at == start + Width(done) <= |p| && data == LoadItems(done, p, start, map[])
    ensures at + Width(more) == start + Width(all) && LoadItems(more, p, at, data) == LoadItems(all, p, start, map[])
  {
    hide Width, LoadItems;
    WidthConcat(done, more);
    LoadConcat(done, more, p, start, map[]);
  }

  lemma PastPresentGroup(p: seq<Byte>, g: nat, fieldPtr: nat, dataPtr: nat, data: Data)
    requires HasHeader(p) && g < NUMBER_OF_GROUPS && HasGroup(p[1], g) && DataEnd(p) <= |p|
    requires Decoded(p, g, fieldPtr, dataPtr, data)
    ensures fieldPtr + 2 <= |p| && FieldOf(p, g) == WordAt(p, fieldPtr)
    ensures var items := GroupItems(g, FieldOf(p, g), 16);
      && dataPtr + Width(items) <= |p|
      && Decoded(p, g + 1, fieldPtr + 2, dataPtr + Width(items), LoadItems(items, p, dataPtr, data))
  {
    hide FieldsBelow, PacketItems, GroupItems, HasGroup, HasHeader, HeaderLength, Width, LoadItems, WordAt, FieldOf;
    FieldUnderPointer(p, g);
    PacketWidthGrows(p, g + 1, NUMBER_OF_GROUPS);
    Present(p, g);
    LoadOneMore(PacketItems(p, g), GroupItems(g, FieldOf(p, g), 16), PacketItems(p, g + 1),
                p, HeaderLength(p[1]), dataPtr, data);
  }

  // ---------------------------------------------------------------------------
  // The decoders against the length table
  // ---------------------------------------------------------------------------

  /** No selection bit is one on which table and decoder disagree. */
  ghost predicate Agrees(g: nat, field: Word) {
    forall i :: 0 <= i < 16 && Bit(field, i) ==> !Disagrees(g, i)
  }

  /** The selections vndevice.h declares for a group. */
  predicate Declared(g: nat, i: nat) {
    match g
    case 0 => i < 14
    case 1 => i < 8
    case 2 => 1 <= i < 12
    case 3 => i < 12
    case 4 => i < 9
    case 5 => i < 11
    case _ => false
  }

  lemma DeclaredAgrees(g: nat, field: Word)
    requires g < NUMBER_OF_GROUPS && forall i :: 0 <= i < 16 && Bit(field, i) ==> Declared(g, i)
    ensures Agrees(g, field)
  {
  }

  /** For groups 1 and 2 the table is right about every 16-bit field. */
  lemma FirstTwoAlwaysAgree(g: nat, field: Word)
    requires g < 2
    ensures Agrees(g, field)
  {
  }

  function UnknownBelow(g: nat, field: Word, n: nat): nat
    requires g < NUMBER_OF_GROUPS && n <= 16
  {
    if n == 0 then 0 else UnknownBelow(g, field, n - 1) + if Bit(field, n - 1) then Unknown(g, n - 1) else 0
  }

  /** The IMU status of group 3, which the decoder takes to be six bytes longer. */
  predicate HasImuStatus(g: nat, field: Word) {
    g == 2 && Bit(field, 0)
  }

  lemma NotSelected(g: nat, field: Word, i: nat)
    requires i < 16 && !Bit(field, i)
    ensures GroupItems(g, field, i + 1) == GroupItems(g, field, i)
  {
    assert GroupItems(g, field, i) + [] == GroupItems(g, field, i);
  }

  /** Walking over the payload of a group against adding up the table. */
  function GroupImbalance(g: nat, field: Word, n: nat): int
    requires g < NUMBER_OF_GROUPS && n <= 16
  {
    Width(GroupItems(g, field, n)) + UnknownBelow(g, field, n) - SelectedLength(g, field, n)
    - if n > 0 && HasImuStatus(g, field) then 6 else 0
  }

  lemma SelectionKeepsBalance(g: nat, field: Word, i: nat)
    requires g < NUMBER_OF_GROUPS && i < 16
    ensures GroupImbalance(g, field, i + 1) == GroupImbalance(g, field, i)
    ensures (UnknownBelow(g, field, i + 1) - UnknownBelow(g, field, i)) % 4 == 0
  {
    hide Layout, TableLength, Unknown, Width;
    if Bit(field, i) {
      WidthVersusTable(g, i);
      WidthConcat(GroupItems(g, field, i), Layout(g, i));
    } else {
      NotSelected(g, field, i);
    }
  }

  lemma NothingSelected(g: nat, field: Word)
    requires g < NUMBER_OF_GROUPS
    ensures GroupImbalance(g, field, 0) == 0 && UnknownBelow(g, field, 0) == 0
  {
  }

  lemma {:induction false} GroupAccount(g: nat, field: Word, n: nat)
    requires g < NUMBER_OF_GROUPS && n <= 16
    ensures GroupImbalance(g, field, n) == 0 && UnknownBelow(g, field, n) % 4 == 0
  {
    hide *;
    if n == 0 {
      NothingSelected(g, field);
    } else {
      GroupAccount(g, field, n - 1);
      SelectionKeepsBalance(g, field, n - 1);
    }
  }

  lemma {:induction false} UnknownSelections(g: nat, field: Word, n: nat)
    requires g < NUMBER_OF_GROUPS && n <= 16
    ensures UnknownBelow(g, field, n) == 0 <==>
      forall i :: 0 <= i < n && Bit(field, i) && Disagrees(g, i) ==> g == 2 && i == 0
  {
    if n == 0 {
    } else {
      UnknownSelections(g, field, n - 1);
      WidthVersusTable(g, n - 1);
    }
  }

  lemma AgreesIff(g: nat, field: Word)
    requires g < NUMBER_OF_GROUPS
    ensures Agrees(g, field) <==> UnknownBelow(g, field, 16) == 0 && !HasImuStatus(g, field)
  {
    UnknownSelections(g, field, 16);
  }

  /** A decoder consumes the length the table loop computes exactly when no selection bit
      is one on which the two disagree. */
  lemma GroupLengthsAgreeIff(g: nat, field: Word)
    requires g < NUMBER_OF_GROUPS
    ensures Width(GroupItems(g, field, 16)) == SelectedLength(g, field, 16) <==> Agrees(g, field)
  {
    GroupAccount(g, field, 16);
    AgreesIff(g, field);
  }

  ghost predicate PacketAgrees(p: seq<Byte>)
    requires HasHeader(p)
  {
    forall g :: 0 <= g < NUMBER_OF_GROUPS && HasGroup(p[1], g) ==> Agrees(g, FieldOf(p, g))
  }

  function UnknownInPacket(p: seq<Byte>, n: nat): nat
    requires HasHeader(p) && n <= NUMBER_OF_GROUPS
  {
    if n == 0 then 0
    else UnknownInPacket(p, n - 1) + if HasGroup(p[1], n - 1) then UnknownBelow(n - 1, FieldOf(p, n - 1), 16) else 0
  }

  /** Bytes by which the decoders up to group n overshoot the table. */
  function Overshoot(p: seq<Byte>, n: nat): nat
    requires HasHeader(p)
  {
    if n > 2 && HasGroup(p[1], 2) && HasImuStatus(2, FieldOf(p, 2)) then 6 else 0
  }

  /** What the decoder walks over, with the unknown selections added and the overshoot
      taken off, against the table. */
  function Imbalance(p: seq<Byte>, n: nat): int
    requires HasHeader(p) && n <= NUMBER_OF_GROUPS
  {
    Width(PacketItems(p, n)) + UnknownInPacket(p, n) - Overshoot(p, n) - PayloadBelow(p, n)
  }

  lemma GroupKeepsBalance(p: seq<Byte>, g: nat)
    requires HasHeader(p) && g < NUMBER_OF_GROUPS
    ensures Imbalance(p, g + 1) == Imbalance(p, g)
    ensures (UnknownInPacket(p, g + 1) - UnknownInPacket(p, g)) % 4 == 0
  {
    hide ByteBits, HasGroup, GroupItems, SelectedLength, UnknownBelow, WordAt, Bit, Width;
    if HasGroup(p[1], g) {
      GroupAccount(g, FieldOf(p, g), 16);
      WidthConcat(PacketItems(p, g), GroupItems(g, FieldOf(p, g), 16));
    } else {
      NotPresent(p, g);
    }
  }

  lemma NothingToAccount(p: seq<Byte>)
    requires HasHeader(p)
    ensures Imbalance(p, 0) == 0 && UnknownInPacket(p, 0) == 0
  {
  }

  lemma {:induction false} PacketAccount(p: seq<Byte>, n: nat)
    requires HasHeader(p) && n <= NUMBER_OF_GROUPS
    ensures Imbalance(p, n) == 0
    ensures UnknownInPacket(p, n) % 4 == 0
  {
    hide Imbalance, UnknownInPacket, HasHeader;
    if n == 0 {
      NothingToAccount(p);
    } else {
      PacketAccount(p, n - 1);
      GroupKeepsBalance(p, n - 1);
    }
  }

  lemma {:induction false} UnknownGroups(p: seq<Byte>, n: nat)
    requires HasHeader(p) && n <= NUMBER_OF_GROUPS
    ensures UnknownInPacket(p, n) == 0 <==>
      forall g :: 0 <= g < n && HasGroup(p[1], g) ==> UnknownBelow(g, FieldOf(p, g), 16) == 0
  {
    if n == 0 {
    } else {
      UnknownGroups(p, n - 1);
    }
  }

  /** The decoders stop exactly where the CRC begins if and only if the header selects
      nothing on which table and decoders disagree: the overshoot of six is never made up
      for by selections no decoder knows, whose lengths are multiples of four. */
  lemma LengthsAgreeIff(p: seq<Byte>)
    requires HasHeader(p)
    ensures DataEnd(p) == PacketLength(p) - 2 <==> PacketAgrees(p)
  {
    PacketAccount(p, NUMBER_OF_GROUPS);
    UnknownGroups(p, NUMBER_OF_GROUPS);
    forall g | 0 <= g < NUMBER_OF_GROUPS && HasGroup(p[1], g)
      ensures Agrees(g, FieldOf(p, g)) <==>
        UnknownBelow(g, FieldOf(p, g), 16) == 0 && !HasImuStatus(g, FieldOf(p, g))
    {
      AgreesIff(g, FieldOf(p, g));
    }
    assert Overshoot(p, NUMBER_OF_GROUPS) > 0 <==>
      exists g :: 0 <= g < NUMBER_OF_GROUPS && HasGroup(p[1], g) && HasImuStatus(g, FieldOf(p, g));
  }

  // ---------------------------------------------------------------------------
  // How far the decoders read
  // ---------------------------------------------------------------------------

  predicate SelectsImuStatus(p: seq<Byte>)
    requires HasHeader(p)
  {
    HasGroup(p[1], 2) && HasImuStatus(2, FieldOf(p, 2))
  }

  /** Some selection has a length in the table but no decoder. */
  ghost predicate SelectsUnknown(p: seq<Byte>)
    requires HasHeader(p)
  {
    exists g :: 0 <= g < NUMBER_OF_GROUPS && HasGroup(p[1], g) && HasUnknown(g, FieldOf(p, g))
  }

  ghost predicate HasUnknown(g: nat, field: Word) {
    exists i :: 0 <= i < 16 && Bit(field, i) && Disagrees(g, i) && !(g == 2 && i == 0)
  }

  lemma UnknownLength(g: nat, i: nat)
    requires g < NUMBER_OF_GROUPS && i < 16
    ensures Unknown(g, i) == 0 || Unknown(g, i) >= 12
  {
  }

  lemma {:induction false} UnknownIsLong(g: nat, field: Word, n: nat)
    requires g < NUMBER_OF_GROUPS && n <= 16
    ensures UnknownBelow(g, field, n) == 0 || UnknownBelow(g, field, n) >= 12
  {
    hide Unknown;
    if n == 0 {
    } else {
      UnknownIsLong(g, field, n - 1);
      UnknownLength(g, n - 1);
    }
  }

  lemma {:induction false} UnknownInPacketIsLong(p: seq<Byte>, n: nat)
    requires HasHeader(p) && n <= NUMBER_OF_GROUPS
    ensures UnknownInPacket(p, n) == 0 || UnknownInPacket(p, n) >= 12
  {
    hide UnknownBelow, HasGroup, FieldOf;
    if n == 0 {
    } else {
      UnknownInPacketIsLong(p, n - 1);
      if HasGroup(p[1], n - 1) { UnknownIsLong(n - 1, FieldOf(p, n - 1), 16); }
    }
  }

  lemma UnknownIffSelected(p: seq<Byte>)
    requires HasHeader(p)
    ensures UnknownInPacket(p, NUMBER_OF_GROUPS) > 0 <==> SelectsUnknown(p)
  {
    hide UnknownBelow, HasGroup, FieldOf, UnknownInPacket;
    UnknownGroups(p, NUMBER_OF_GROUPS);
    forall g | 0 <= g < NUMBER_OF_GROUPS && HasGroup(p[1], g)
      ensures UnknownBelow(g, FieldOf(p, g), 16) > 0 <==> HasUnknown(g, FieldOf(p, g))
    {
      UnknownSelections(g, FieldOf(p, g), 16);
    }
  }

  /** Where the data cursor ends up, for every header. */
  lemma DataEndIs(p: seq<Byte>)
    requires HasHeader(p)
    ensures DataEnd(p)
         == PacketLength(p) - 2 - UnknownInPacket(p, NUMBER_OF_GROUPS) + if SelectsImuStatus(p) then 6 else 0
    ensures DataEnd(p) <= PacketLength(p) + 4
  {
    PacketAccount(p, NUMBER_OF_GROUPS);
    hide Width, PacketItems, PayloadBelow, HasGroup, FieldOf, HasImuStatus, UnknownInPacket, HasHeader, NumberOfFields;
  }

  /** The decoders stay within the payload exactly unless the IMU status is selected, and
      no selection they do not know makes up for it. */
  lemma StaysInPayloadIff(p: seq<Byte>)
    requires HasHeader(p)
    ensures DataEnd(p) <= PacketLength(p) - 2 <==> !SelectsImuStatus(p) || SelectsUnknown(p)
  {
    hide DataEnd, PacketLength, SelectsImuStatus, SelectsUnknown, UnknownInPacket;
    DataEndIs(p);
    UnknownIffSelected(p);
    UnknownInPacketIsLong(p, NUMBER_OF_GROUPS);
  }

  /** Of the packets that fit the receive buffer, those on which the decoders stay in it: all
      but those of more than 252 bytes with the IMU status and nothing unknown. */
  lemma StaysInBufferIff(p: seq<Byte>)
    requires HasHeader(p) && PacketLength(p) <= CAPACITY
    ensures DataEnd(p) <= CAPACITY <==> !SelectsImuStatus(p) || SelectsUnknown(p) || PacketLength(p) <= CAPACITY - 4
  {
    hide DataEnd, PacketLength, SelectsImuStatus, SelectsUnknown, UnknownInPacket;
    DataEndIs(p);
    UnknownIffSelected(p);
    UnknownInPacketIsLong(p, NUMBER_OF_GROUPS);
  }

  // ---------------------------------------------------------------------------
  // vndevice_processReceivedBinaryPacket
  // ---------------------------------------------------------------------------

  /** The store shared with the user thread. */
  class AsyncStore {
    var latestAsyncData: Data

    /** All zero. */
    constructor ()
      ensures latestAsyncData == map[]
    {
      latestAsyncData := map[];
    }
  }

  /** If the groups byte has the bit, decode the group and advance both pointers. */
  method IfPresent(g: nat, buffer: array<Byte>, fieldPtr: nat, dataPtr: nat, data: Data, ghost n: nat)
      returns (nextField: nat, nextData: nat, out: Data, ghost m: nat)
    requires g == n < NUMBER_OF_GROUPS && HasHeader(buffer[..]) && DataEnd(buffer[..]) <= buffer.Length
    requires Decoded(buffer[..], n, fieldPtr, dataPtr, data)
    ensures m == n + 1 && Decoded(buffer[..], m, nextField, nextData, out)
  {
    hide Decoded, GroupItems, HasGroup, HasHeader, LoadItems, WordAt, FieldOf;
    m := n + 1;
    if HasGroup(buffer[1], g) {
      PastPresentGroup(buffer[..], g, fieldPtr, dataPtr, data);
      var groupField := WordAt(buffer[..], fieldPtr);
      var processed := 0;
      match g {
        case 0 => processed, out := ProcessGroup1Data(groupField, buffer, dataPtr, data);
        case 1 => processed, out := ProcessGroup2Data(groupField, buffer, dataPtr, data);
        case 2 => processed, out := ProcessGroup3Data(groupField, buffer, dataPtr, data);
        case 3 => processed, out := ProcessGroup4Data(groupField, buffer, dataPtr, data);
        case 4 => processed, out := ProcessGroup5Data(groupField, buffer, dataPtr, data);
        case 5 => processed, out := ProcessGroup6Data(groupField, buffer, dataPtr, data);
      }
      nextField, nextData := fieldPtr + 2, dataPtr + processed;
    } else {
      PastAbsentGroup(buffer[..], g, fieldPtr, dataPtr, data);
      nextField, nextData, out := fieldPtr, dataPtr, data;
    }
  }

  /** For every packet the framer accepts: buffer is the receive buffer and at least the four
      bytes behind it, which a decoder that runs past it reads (see StaysInBufferIff). */
  method ProcessReceivedBinaryPacket(store: AsyncStore, buffer: array<Byte>)
    requires HasHeader(buffer[..]) && PacketLength(buffer[..]) <= CAPACITY && CAPACITY + 4 <= buffer.Length
    modifies store
    ensures DataEnd(buffer[..]) <= buffer.Length && store.latestAsyncData == DecodePacket(buffer[..])
  {
    DataEndIs(buffer[..]);
    hide HasHeader, PacketLength, DecodePacket;
    var setBits := CountSetBits(ByteBits(buffer[1]));
    var fieldPtr, dataPtr := 2, 2 + setBits * 2;
    var data: Data := map[];
    ghost var n := 0;
    fieldPtr, dataPtr, data, n := IfPresent(0, buffer, fieldPtr, dataPtr, data, n);
    fieldPtr, dataPtr, data, n := IfPresent(1, buffer, fieldPtr, dataPtr, data, n);
    fieldPtr, dataPtr, data, n := IfPresent(2, buffer, fieldPtr, dataPtr, data, n);
    fieldPtr, dataPtr, data, n := IfPresent(3, buffer, fieldPtr, dataPtr, data, n);
    fieldPtr, dataPtr, data, n := IfPresent(4, buffer, fieldPtr, dataPtr, data, n);
    fieldPtr, dataPtr, data, n := IfPresent(5, buffer, fieldPtr, dataPtr, data, n);
    store.latestAsyncData := data;
  }
}
