/** Where the decoders find every component, in numbers: from the groups byte, the selection
    fields, the length table, and one offset for each member. */
module WireFormat {
  import opened Bytes
  import opened PacketLayout
  import opened CompositeData
  import opened Decoder
  import opened PacketDecoder
  import opened RoundTrip

  /** Where a member starts among the bytes of the selection that brings it. */
  function Offset(g: nat, f: Field): nat {
    if g == 0 then
      match f
      case AccelerationUncompensated | Temperature => 12
      case Pressure | DeltaVelocity => 16
      case DeltaTheta => 4
      case _ => 0
    else if g == 2 && f == DeltaTheta then 4
    else 0
  }

  /** And a component within its member; of the time only the last one has two bytes. */
  function PartOffset(slot: Slot): nat {
    if slot.field == TimeUtc then slot.part else slot.part * PartSize(slot.field, slot.part)
  }

  /** The group is present and its selection field has the bit that brings the component. */
  predicate Brings(p: seq<Byte>, g: nat, slot: Slot)
    requires HasHeader(p)
  {
    && g < NUMBER_OF_GROUPS && HasGroup(p[1], g)
    && Selects(g, FieldOf(p, g), slot)
  }

  predicate Selects(g: nat, field: Word, slot: Slot) {
    slot.part < Parts(slot.field) && Home(g, slot.field) < 16 && Bit(field, Home(g, slot.field))
  }

  // ---------------------------------------------------------------------------
  // Within a selection
  // ---------------------------------------------------------------------------

  /** The item of a layout that carries a component. */
  function ItemOf(g: nat, slot: Slot): nat {
    if g == 0 then
      match slot.field
      case AccelerationUncompensated | Temperature | DeltaTheta => 1
      case Pressure | DeltaVelocity => 2
      case _ => 0
    else if g == 2 && slot.field == DeltaTheta then 1
    else if slot.field == TimeUtc && slot.part == 6 then 1
    else 0
  }

  /** The item has the component, with its size. */
  predicate ItemHas(item: Item, slot: Slot) {
    Carries(item, slot) && item.size == PartSize(slot.field, slot.part)
  }

  /** Where in the item. */
  function Within(item: Item, slot: Slot): int {
    if item.Load? then (slot.part - item.first) * item.size else 0
  }

  /** The item with this number has the component at this offset from the first. */
  ghost predicate HasAt(items: seq<Item>, k: nat, slot: Slot, offset: int) {
    k < |items| && ItemHas(items[k], slot) && Width(items[..k]) + Within(items[k], slot) == offset
  }

  lemma FirstItems(items: seq<Item>)
    ensures Width(items[..0]) == 0
    ensures |items| >= 1 ==> Width(items[..1]) == ItemWidth(items[0])
    ensures |items| >= 2 ==> Width(items[..2]) == ItemWidth(items[0]) + ItemWidth(items[1])
  {
    if |items| >= 2 {
      WidthOfTwo(items[0], items[1]);
      assert items[..2] == [items[0], items[1]];
    }
  }

  lemma Layout1Has(slot: Slot)
    requires slot.part < Parts(slot.field) && Home1(slot.field) < 16
    ensures HasAt(Layout1(Home1(slot.field)), ItemOf(0, slot), slot, Offset(0, slot.field) + PartOffset(slot))
  {
    FirstItems(Layout1(Home1(slot.field)));
    hide Width;
  }

  lemma Layout2Has(slot: Slot)
    requires slot.part < Parts(slot.field) && Home2(slot.field) < 16
    ensures HasAt(Layout2(Home2(slot.field)), ItemOf(1, slot), slot, Offset(1, slot.field) + PartOffset(slot))
  {
    FirstItems(Layout2(Home2(slot.field)));
    hide Width;
  }

  lemma Layout3Has(slot: Slot)
    requires slot.part < Parts(slot.field) && Home3(slot.field) < 16
    ensures HasAt(Layout3(Home3(slot.field)), ItemOf(2, slot), slot, Offset(2, slot.field) + PartOffset(slot))
  {
    FirstItems(Layout3(Home3(slot.field)));
    hide Width;
  }

  lemma Layout4Has(slot: Slot)
    requires slot.part < Parts(slot.field) && Home4(slot.field) < 16
    ensures HasAt(Layout4(Home4(slot.field)), ItemOf(3, slot), slot, Offset(3, slot.field) + PartOffset(slot))
  {
    FirstItems(Layout4(Home4(slot.field)));
    hide Width;
  }

  lemma Layout5Has(slot: Slot)
    requires slot.part < Parts(slot.field) && Home5(slot.field) < 16
    ensures HasAt(Layout5(Home5(slot.field)), ItemOf(4, slot), slot, Offset(4, slot.field) + PartOffset(slot))
  {
    FirstItems(Layout5(Home5(slot.field)));
    hide Width;
  }

  lemma Layout6Has(slot: Slot)
    requires slot.part < Parts(slot.field) && Home6(slot.field) < 16
    ensures HasAt(Layout6(Home6(slot.field)), ItemOf(5, slot), slot, Offset(5, slot.field) + PartOffset(slot))
  {
    FirstItems(Layout6(Home6(slot.field)));
    hide Width;
  }

  /** A selection brings each component of its members, at its offset. */
  lemma LayoutHas(g: nat, slot: Slot)
    requires g < NUMBER_OF_GROUPS && slot.part < Parts(slot.field) && Home(g, slot.field) < 16
    ensures HasAt(Layout(g, Home(g, slot.field)), ItemOf(g, slot), slot, Offset(g, slot.field) + PartOffset(slot))
  {
    hide HasAt, ItemOf, Offset, PartOffset, Layout1, Layout2, Layout3, Layout4, Layout5, Layout6;
    match g
    case 0 => Layout1Has(slot);
    case 1 => Layout2Has(slot);
    case 2 => Layout3Has(slot);
    case 3 => Layout4Has(slot);
    case 4 => Layout5Has(slot);
    case 5 => Layout6Has(slot);
  }

  // ---------------------------------------------------------------------------
  // Within a group
  // ---------------------------------------------------------------------------

  lemma {:induction false} HomeInGroup(g: nat, field: Word, n: nat, k: nat, slot: Slot, offset: int)
    requires g < NUMBER_OF_GROUPS && Home(g, slot.field) < n <= 16 && Bit(field, Home(g, slot.field))
    requires HasAt(Layout(g, Home(g, slot.field)), k, slot, offset)
    ensures var home := Home(g, slot.field);
      HasAt(GroupItems(g, field, n), |GroupItems(g, field, home)| + k, slot,
            Width(GroupItems(g, field, home)) + offset)
  {
    hide Layout, Home, Width, HasAt;
    var home := Home(g, slot.field);
    if n == home + 1 {
      HasAtBehind(GroupItems(g, field, home), Layout(g, home), k, slot, offset);
    } else {
      HomeInGroup(g, field, n - 1, k, slot, offset);
      var items, more := GroupItems(g, field, n - 1), if Bit(field, n - 1) then Layout(g, n - 1) else [];
      HasAtBefore(items, more, |GroupItems(g, field, home)| + k, slot, Width(GroupItems(g, field, home)) + offset);
    }
  }

  lemma {:induction false} HasAtBehind(a: seq<Item>, b: seq<Item>, k: nat, slot: Slot, offset: int)
    requires HasAt(b, k, slot, offset)
    ensures HasAt(a + b, |a| + k, slot, Width(a) + offset)
  {
    hide Width, ItemHas, Within;
    WidthConcat(a, b[..k]);
    assert (a + b)[..|a| + k] == a + b[..k];
  }

  lemma {:induction false} HasAtBefore(a: seq<Item>, b: seq<Item>, k: nat, slot: Slot, offset: int)
    requires HasAt(a, k, slot, offset)
    ensures HasAt(a + b, k, slot, offset)
  {
    hide Width;
    assert (a + b)[..k] == a[..k] && (a + b)[k] == a[k];
  }

  /** The table lengths of the selections before a member's, less those no decoder knows, plus
      the six bytes by which the IMU status is longer than in the table. */
  function BitOffset(g: nat, field: Word, i: nat): int
    requires g < NUMBER_OF_GROUPS && i < 16
  {
    SelectedLength(g, field, i) - UnknownBelow(g, field, i) + if i > 0 && HasImuStatus(g, field) then 6 else 0
  }

  /** Where a group has the component. */
  lemma {:induction false} SelectedAt(g: nat, field: Word, slot: Slot)
    requires g < NUMBER_OF_GROUPS && Selects(g, field, slot)
    ensures var items := GroupItems(g, field, 16);
      var k := LastCarrier(items, slot);
      k >= 0 && HasAt(items, k, slot,
                      BitOffset(g, field, Home(g, slot.field)) + Offset(g, slot.field) + PartOffset(slot))
  {
    hide Layout, Home, Parts, Width, Carries, LastCarrier, Offset, PartOffset, PartSize;
    hide SelectedLength, UnknownBelow, ItemOf;
    var home := Home(g, slot.field);
    LayoutHas(g, slot);
    GroupAccount(g, field, home);
    HomeInGroup(g, field, 16, ItemOf(g, slot), slot, Offset(g, slot.field) + PartOffset(slot));
    var k := |GroupItems(g, field, home)| + ItemOf(g, slot);
    var last := LastCarrier(GroupItems(g, field, 16), slot);
    assert last >= k;
    GroupCarriesOnce(g, field, 16, k, last, slot);
  }

  /** A group carries exactly what its field selects. */
  lemma {:induction false} CarriesIffSelected(g: nat, field: Word, slot: Slot)
    requires g < NUMBER_OF_GROUPS
    ensures LastCarrier(GroupItems(g, field, 16), slot) >= 0 <==> Selects(g, field, slot)
  {
    hide Layout, Home, Parts, LastCarrier, Offset, PartOffset, PartSize, HasAt, GroupItems;
    var items := GroupItems(g, field, 16);
    var k := LastCarrier(items, slot);
    if k >= 0 {
      CarrierIsSelected(g, field, 16, k, slot);
      GroupSized(g, field, 16);
      assert WellSized(items[k]);
    }
    if Selects(g, field, slot) {
      SelectedAt(g, field, slot);
    }
  }

  // ---------------------------------------------------------------------------
  // Within a packet
  // ---------------------------------------------------------------------------

  /** The same for the groups before. */
  function GroupOffset(p: seq<Byte>, g: nat): int
    requires HasHeader(p) && g < NUMBER_OF_GROUPS
  {
    PayloadBelow(p, g) - UnknownInPacket(p, g) + Overshoot(p, g)
  }

  /** Where the decoders find a component that a group brings. */
  function Position(p: seq<Byte>, g: nat, slot: Slot): int
    requires HasHeader(p) && Brings(p, g, slot)
  {
    HeaderLength(p[1]) + GroupOffset(p, g) + BitOffset(g, FieldOf(p, g), Home(g, slot.field))
    + Offset(g, slot.field) + PartOffset(slot)
  }

  /** The highest-numbered group that brings it. */
  ghost predicate IsLastToBring(p: seq<Byte>, g: nat, slot: Slot)
    requires HasHeader(p)
  {
    Brings(p, g, slot) && forall h :: g < h < NUMBER_OF_GROUPS ==> !Brings(p, h, slot)
  }

  lemma {:induction false} NoneAbove(p: seq<Byte>, g: nat, slot: Slot)
    requires HasHeader(p) && IsLastToBring(p, g, slot)
    ensures NoneCarries(p, g + 1, NUMBER_OF_GROUPS, slot)
  {
    hide LastCarrier, GroupItems, HasGroup, FieldOf, Selects;
    forall h | g < h < NUMBER_OF_GROUPS && HasGroup(p[1], h)
      ensures LastCarrier(GroupItems(h, FieldOf(p, h), 16), slot) == -1
    {
      CarriesIffSelected(h, FieldOf(p, h), slot);
      assert !Brings(p, h, slot);
    }
  }

  lemma {:induction false} BroughtAt(p: seq<Byte>, g: nat, slot: Slot)
    requires HasHeader(p) && Brings(p, g, slot)
    ensures var items := PacketItems(p, g + 1);
      var k := LastCarrier(items, slot);
      k >= 0 && HasAt(items, k, slot, Position(p, g, slot) - HeaderLength(p[1]))
  {
    hide LastCarrier, GroupItems, HasGroup, FieldOf, Parts, HasAt, BitOffset, Offset, PartOffset, Home, Width;
    var field := FieldOf(p, g);
    var items := GroupItems(g, field, 16);
    SelectedAt(g, field, slot);
    PacketAccount(p, g);
    Present(p, g);
    LastCarrierConcat(PacketItems(p, g), items, slot);
    HasAtBehind(PacketItems(p, g), items, LastCarrier(items, slot), slot,
                BitOffset(g, field, Home(g, slot.field)) + Offset(g, slot.field) + PartOffset(slot));
  }

  lemma {:induction false} LastAt(p: seq<Byte>, g: nat, slot: Slot)
    requires HasHeader(p) && IsLastToBring(p, g, slot)
    ensures var items := PacketItems(p, NUMBER_OF_GROUPS);
      var k := LastCarrier(items, slot);
      k >= 0 && HasAt(items, k, slot, Position(p, g, slot) - HeaderLength(p[1]))
  {
    hide LastCarrier, HasAt, Position, PacketItems, NoneCarries, HasGroup, Selects;
    BroughtAt(p, g, slot);
    NoneAbove(p, g, slot);
    GroupsAboveDoNotMatter(p, g + 1, NUMBER_OF_GROUPS, slot);
    ItemsKept(p, g + 1, NUMBER_OF_GROUPS);
    var few, all := PacketItems(p, g + 1), PacketItems(p, NUMBER_OF_GROUPS);
    HasAtBefore(few, all[|few|..], LastCarrier(few, slot), slot, Position(p, g, slot) - HeaderLength(p[1]));
    assert few + all[|few|..] == all;
  }

  lemma {:induction false} PartAt(item: Item, p: seq<Byte>, from: nat, slot: Slot)
    requires Carries(item, slot) && from + ItemWidth(item) <= |p|
    ensures var at := from + Within(item, slot);
      && from <= at && at + item.size <= from + ItemWidth(item)
      && PartOf(item, p[from..from + ItemWidth(item)], slot) == p[at..at + item.size]
  {
    PartFits(slot.part - item.first, item.count, item.size);
    Inside(p, from, from + ItemWidth(item), Within(item, slot), Within(item, slot) + item.size);
  }

  lemma {:induction false} Inside(p: seq<Byte>, from: nat, to: nat, i: nat, j: nat)
    requires from + i <= from + j <= to <= |p|
    ensures p[from..to][i..j] == p[from + i..from + j]
  {
    var a, b := p[from..to][i..j], p[from + i..from + j];
    assert forall k :: 0 <= k < |a| ==> a[k] == p[from..to][i + k] == p[from + i + k] == b[k];
  }

  /** The last carrier decides what is loaded. */
  lemma {:induction false} LoadedAt(items: seq<Item>, p: seq<Byte>, at: nat, slot: Slot, offset: int)
    requires at + Width(items) <= |p|
    requires LastCarrier(items, slot) >= 0 && HasAt(items, LastCarrier(items, slot), slot, offset)
    ensures var from, size, d := at + offset, PartSize(slot.field, slot.part), LoadItems(items, p, at, map[]);
      && 0 <= offset && from + size <= at + Width(items)
      && slot in d && d[slot] == p[from..from + size]
  {
    hide LastCarrier, LoadItems, Within, PartSize, Carries, PartOf;
    assert Width(items[..LastCarrier(items, slot)]) >= 0;
    Loaded(items, p, at, slot);
    var k := LastCarrier(items, slot);
    PartAt(items[k], p, at + Width(items[..k]), slot);
  }

  /** For every header, a component is decoded from its position in the highest-numbered group
      that brings it, with its size. */
  lemma {:induction false} ComponentAt(p: seq<Byte>, g: nat, slot: Slot)
    requires HasHeader(p) && DataEnd(p) <= |p| && IsLastToBring(p, g, slot)
    ensures var from, size := Position(p, g, slot), PartSize(slot.field, slot.part);
      && HeaderLength(p[1]) <= from && from + size <= DataEnd(p)
      && slot in DecodePacket(p) && DecodePacket(p)[slot] == p[from..from + size]
  {
    hide LastCarrier, Position, PacketItems, Width, LoadItems, HeaderLength, PartSize, HasAt;
    LastAt(p, g, slot);
    LoadedAt(PacketItems(p, NUMBER_OF_GROUPS), p, HeaderLength(p[1]), slot,
             Position(p, g, slot) - HeaderLength(p[1]));
  }

  lemma {:induction false} LastToBring(p: seq<Byte>, g: nat, slot: Slot) returns (last: nat)
    requires HasHeader(p) && Brings(p, g, slot)
    ensures IsLastToBring(p, last, slot)
    decreases NUMBER_OF_GROUPS - g
  {
    hide HasGroup, FieldOf, Selects;
    if h :| g < h < NUMBER_OF_GROUPS && Brings(p, h, slot) {
      last := LastToBring(p, h, slot);
    } else {
      last := g;
    }
  }

  lemma {:induction false} NothingBrought(p: seq<Byte>, slot: Slot)
    requires HasHeader(p) && forall g :: !Brings(p, g, slot)
    ensures LastCarrier(PacketItems(p, NUMBER_OF_GROUPS), slot) == -1
  {
    hide GroupItems, HasGroup, FieldOf, Selects;
    forall h | 0 <= h < NUMBER_OF_GROUPS && HasGroup(p[1], h)
      ensures LastCarrier(GroupItems(h, FieldOf(p, h), 16), slot) == -1
    {
      CarriesIffSelected(h, FieldOf(p, h), slot);
      assert !Brings(p, h, slot);
    }
    GroupsAboveDoNotMatter(p, 0, NUMBER_OF_GROUPS, slot);
  }

  /** And nothing else is decoded. */
  lemma {:induction false} DecodedIffBrought(p: seq<Byte>, slot: Slot)
    requires HasHeader(p) && DataEnd(p) <= |p|
    ensures slot in DecodePacket(p) <==> exists g :: Brings(p, g, slot)
  {
    hide LastCarrier, PacketItems, Width, LoadItems, Brings, HeaderLength;
    Loaded(PacketItems(p, NUMBER_OF_GROUPS), p, HeaderLength(p[1]), slot);
    if g :| Brings(p, g, slot) {
      var last := LastToBring(p, g, slot);
      ComponentAt(p, last, slot);
    } else {
      NothingBrought(p, slot);
    }
  }

  // ---------------------------------------------------------------------------
  // Packets on which table and decoders agree
  // ---------------------------------------------------------------------------

  /** The header, the payload of the groups before, the selections before, the offset. */
  function TablePosition(p: seq<Byte>, g: nat, slot: Slot): nat
    requires HasHeader(p) && Brings(p, g, slot)
  {
    HeaderLength(p[1]) + PayloadBelow(p, g) + SelectedLength(g, FieldOf(p, g), Home(g, slot.field))
    + Offset(g, slot.field) + PartOffset(slot)
  }

  lemma {:induction false} NoCorrections(p: seq<Byte>, g: nat, slot: Slot)
    requires HasHeader(p) && PacketAgrees(p) && Brings(p, g, slot)
    ensures Position(p, g, slot) == TablePosition(p, g, slot)
  {
    hide HasGroup, FieldOf, Bit, Home, Parts, SelectedLength, PayloadBelow, Unknown;
    var field := FieldOf(p, g);
    forall h | 0 <= h < NUMBER_OF_GROUPS && HasGroup(p[1], h)
      ensures UnknownBelow(h, FieldOf(p, h), 16) == 0 && !HasImuStatus(h, FieldOf(p, h))
    {
      AgreesIff(h, FieldOf(p, h));
    }
    UnknownGroups(p, g);
    UnknownSelections(g, field, Home(g, slot.field));
  }

  /** There the length table and the offsets alone say where a component lies. */
  lemma {:induction false} AgreedComponentAt(p: seq<Byte>, g: nat, slot: Slot)
    requires HasHeader(p) && DataEnd(p) <= |p| && PacketAgrees(p) && IsLastToBring(p, g, slot)
    ensures var from, size := TablePosition(p, g, slot), PartSize(slot.field, slot.part);
      && from + size <= DataEnd(p) == PacketLength(p) - 2
      && slot in DecodePacket(p) && DecodePacket(p)[slot] == p[from..from + size]
  {
    hide Position, TablePosition, PacketAgrees, DataEnd, DecodePacket, Brings, PartSize, PacketLength, HasHeader;
    ComponentAt(p, g, slot);
    NoCorrections(p, g, slot);
    LengthsAgreeIff(p);
  }
}
