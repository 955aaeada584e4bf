/** The six group decoders of vndevice.c, proved against the wire
    format. */
module Decoder {
  import opened Bytes
  import opened CompositeData

  /** Load items one after the other, starting at a position. */
  function LoadItems(items: seq<Item>, p: seq<Byte>, at: nat, data: Data): Data
    requires at + Width(items) <= |p|
  {
    if items == [] then data
    else LoadItems(items[1..], p, at + ItemWidth(items[0]), LoadItem(items[0], p, at, data))
  }

  function LoadItem(item: Item, p: seq<Byte>, at: nat, data: Data): Data
    requires at + ItemWidth(item) <= |p|
  {
    if item.Load? then LoadParts(item.field, item.first, item.count, item.size, p, at, data) else data
  }

  function LoadParts(f: Field, first: nat, count: nat, size: nat, p: seq<Byte>, at: nat, data: Data): Data
    requires at + count * size <= |p|
  {
    if count == 0 then data
    else
      var from := at + (count - 1) * size;
      LoadParts(f, first, count - 1, size, p, at, data)[Slot(f, first + count - 1) := p[from..from + size]]
  }

  lemma {:induction false} LoadConcat(a: seq<Item>, b: seq<Item>, p: seq<Byte>, at: nat, data: Data)
    requires at + Width(a + b) <= |p|
    ensures Width(a + b) == Width(a) + Width(b)
    ensures LoadItems(a + b, p, at, data) == LoadItems(b, p, at + Width(a), LoadItems(a, p, at, data))
    decreases |a|
  {
    WidthConcat(a, b);
    if a == [] {
      assert a + b == b;
    } else {
      assert (a + b)[0] == a[0] && (a + b)[1..] == a[1..] + b;
      LoadConcat(a[1..], b, p, at + ItemWidth(a[0]), LoadItem(a[0], p, at, data));
    }
  }

  // ---------------------------------------------------------------------------
  // The group decoders: one selection bit after the other. The structure they fill
  // through a pointer is an in-out value here.
  // ---------------------------------------------------------------------------

  method LoadOne(packet: array<Byte>, at: nat, item: Item, was: Data) returns (next: nat, data: Data)
    requires at + ItemWidth(item) <= packet.Length
    ensures next == at + ItemWidth(item)
    ensures data == LoadItem(item, packet[..], at, was)
  {
    next, data := at, was;
    if item.Load? {
      for c := 0 to item.count
        invariant next == at + c * item.size
        invariant at + c * item.size <= packet.Length
        invariant data == LoadParts(item.field, item.first, c, item.size, packet[..], at, was)
      {
        PartFits(c, item.count, item.size);
        data := data[Slot(item.field, item.first + c) := packet[next..next + item.size]];
        next := next + item.size;
      }
    } else {
      next := next + item.size;
    }
  }

  lemma PartFits(c: nat, count: nat, size: nat)
    requires c < count
    ensures (c + 1) * size == c * size + size <= count * size
  {
  }

  /** Consecutive loads, advancing the data pointer past each. */
  method LoadFrom(packet: array<Byte>, at: nat, items: seq<Item>, was: Data) returns (next: nat, data: Data)
    requires at + Width(items) <= packet.Length
    ensures next == at + Width(items)
    ensures data == LoadItems(items, packet[..], at, was)
  {
    next, data := at, was;
    for k := 0 to |items|
      invariant next + Width(items[k..]) == at + Width(items)
      invariant LoadItems(items[k..], packet[..], next, data) == LoadItems(items, packet[..], at, was)
    {
      assert items[k..][1..] == items[k + 1..];
      next, data := LoadOne(packet, next, items[k], data);
    }
  }

  /** The decoder of group g has handled the selection bits below n. */
  ghost predicate Handled(g: nat, field: Word, n: nat, p: seq<Byte>, start: nat, was: Data, at: nat, data: Data)
    requires n <= 16
  {
    && at == start + Width(GroupItems(g, field, n)) <= |p|
    && data == LoadItems(GroupItems(g, field, n), p, start, was)
  }

  lemma {:induction false} WidthGrows(g: nat, field: Word, n: nat, m: nat)
    requires n <= m <= 16
    ensures Width(GroupItems(g, field, n)) <= Width(GroupItems(g, field, m))
  {
    if n == m {
    } else {
      WidthGrows(g, field, n, m - 1);
      WidthConcat(GroupItems(g, field, m - 1), if Bit(field, m - 1) then Layout(g, m - 1) else []);
    }
  }

  lemma HandledNext(g: nat, field: Word, i: nat, p: seq<Byte>, start: nat, was: Data, at: nat, data: Data)
    requires i < 16 && Handled(g, field, i, p, start, was, at, data)
    requires start + Width(GroupItems(g, field, i + 1)) <= |p|
    ensures var items := if Bit(field, i) then Layout(g, i) else [];
      && at + Width(items) <= |p|
      && Handled(g, field, i + 1, p, start, was, at + Width(items), LoadItems(items, p, at, data))
  {
    LoadConcat(GroupItems(g, field, i), if Bit(field, i) then Layout(g, i) else [], p, start, was);
  }

  /** if (groupField & (1 << i)) { load the items and advance }, where the items are what
      the wire format has for the bit. */
  method IfSelected(groupField: Word, i: nat, packet: array<Byte>, at: nat, items: seq<Item>, data: Data,
                    ghost g: nat, ghost start: nat, ghost was: Data, ghost n: nat)
      returns (next: nat, out: Data, ghost m: nat)
    requires i == n < 16 && items == Layout(g, i)
    requires Handled(g, groupField, n, packet[..], start, was, at, data)
    requires start + Width(GroupItems(g, groupField, 16)) <= packet.Length
    ensures m == n + 1 && Handled(g, groupField, m, packet[..], start, was, next, out)
  {
    m := n + 1;
    WidthGrows(g, groupField, i + 1, 16);
    HandledNext(g, groupField, i, packet[..], start, was, at, data);
    if Bit(groupField, i) {
      next, out := LoadFrom(packet, at, items, data);
    } else {
      next, out := at, data;
    }
  }

  lemma {:induction false} NothingAbove(g: nat, field: Word, n: nat)
    requires n <= 16 && forall i :: n <= i < 16 ==> Layout(g, i) == []
    ensures GroupItems(g, field, 16) == GroupItems(g, field, n)
    decreases 16 - n
  {
    if n == 16 {
    } else {
      NothingAbove(g, field, n + 1);
      assert GroupItems(g, field, n + 1) == GroupItems(g, field, n) + [];
    }
  }

  lemma NothingHandled(g: nat, field: Word, p: seq<Byte>, start: nat, was: Data)
    requires start <= |p|
    ensures Handled(g, field, 0, p, start, was, start, was)
  {
  }

  lemma AllHandled(g: nat, field: Word, n: nat, p: seq<Byte>, start: nat, was: Data, at: nat, data: Data)
    requires n <= 16 && Handled(g, field, n, p, start, was, at, data)
    requires forall i :: n <= i < 16 ==> Layout(g, i) == []
    ensures at == start + Width(GroupItems(g, field, 16)) <= |p|
    ensures data == LoadItems(GroupItems(g, field, 16), p, start, was)
  {
    hide GroupItems, Layout;
    NothingAbove(g, field, n);
  }

  method ProcessGroup1Data(groupField: Word, packet: array<Byte>, groupDataPtr: nat, was: Data)
      returns (processed: nat, data: Data)
    requires groupDataPtr + Width(GroupItems(0, groupField, 16)) <= packet.Length
    ensures processed == Width(GroupItems(0, groupField, 16))
    ensures data == LoadItems(GroupItems(0, groupField, 16), packet[..], groupDataPtr, was)
  {
    hide Handled, GroupItems, LoadItems, Width, ItemWidth, Bit;
    var p: nat;
    ghost var n: nat;
    p, data, n := groupDataPtr, was, 0;
    NothingHandled(0, groupField, packet[..], groupDataPtr, was);
    p, data, n := IfSelected(groupField, 0, packet, p, [Load(TimeStartup, 0, 1, 8)], data, 0, groupDataPtr, was, n);
    p, data, n := IfSelected(groupField, 1, packet, p, [Load(TimeGps, 0, 1, 8)], data, 0, groupDataPtr, was, n);
    p, data, n := IfSelected(groupField, 2, packet, p, [Load(TimeSyncIn, 0, 1, 8)], data, 0, groupDataPtr, was, n);
    p, data, n := IfSelected(groupField, 3, packet, p, [Load(Ypr, 0, 3, 4)], data, 0, groupDataPtr, was, n);
    p, data, n := IfSelected(groupField, 4, packet, p, [Load(Quaternion, 0, 4, 4)], data, 0, groupDataPtr, was, n);
    p, data, n := IfSelected(groupField, 5, packet, p, [Load(AngularRate, 0, 3, 4)], data, 0, groupDataPtr, was, n);
    p, data, n := IfSelected(groupField, 6, packet, p, [Load(LatLonAlt, 0, 3, 8)], data, 0, groupDataPtr, was, n);
    p, data, n := IfSelected(groupField, 7, packet, p, [Load(Velocity, 0, 3, 4)], data, 0, groupDataPtr, was, n);
    p, data, n := IfSelected(groupField, 8, packet, p, [Load(Acceleration, 0, 3, 4)], data, 0, groupDataPtr, was, n);
    p, data, n := IfSelected(groupField, 9, packet, p,
                           [Load(AngularRateUncompensated, 0, 3, 4), Load(AccelerationUncompensated, 0, 3, 4)],
                           data, 0, groupDataPtr, was, n);
    p, data, n := IfSelected(groupField, 10, packet, p,
                           [Load(Magnetic, 0, 3, 4), Load(Temperature, 0, 1, 4), Load(Pressure, 0, 1, 4)],
                           data, 0, groupDataPtr, was, n);
    p, data, n := IfSelected(groupField, 11, packet, p,
                           [Load(DeltaTime, 0, 1, 4), Load(DeltaTheta, 0, 3, 4), Load(DeltaVelocity, 0, 3, 4)],
                           data, 0, groupDataPtr, was, n);
    p, data, n := IfSelected(groupField, 12, packet, p, [Load(InsStatus, 0, 1, 2)], data, 0, groupDataPtr, was, n);
    p, data, n := IfSelected(groupField, 13, packet, p, [Load(SyncInCnt, 0, 1, 4)], data, 0, groupDataPtr, was, n);
    p, data, n := IfSelected(groupField, 14, packet, p, [Load(TimeGpsPps, 0, 1, 8)], data, 0, groupDataPtr, was, n);
    AllHandled(0, groupField, n, packet[..], groupDataPtr, was, p, data);
    processed := p - groupDataPtr;
  }

  method ProcessGroup2Data(groupField: Word, packet: array<Byte>, groupDataPtr: nat, was: Data)
      returns (processed: nat, data: Data)
    requires groupDataPtr + Width(GroupItems(1, groupField, 16)) <= packet.Length
    ensures processed == Width(GroupItems(1, groupField, 16))
    ensures data == LoadItems(GroupItems(1, groupField, 16), packet[..], groupDataPtr, was)
  {
    hide Handled, GroupItems, LoadItems, Width, ItemWidth, Bit;
    var p: nat;
    ghost var n: nat;
    p, data, n := groupDataPtr, was, 0;
    NothingHandled(1, groupField, packet[..], groupDataPtr, was);
    p, data, n := IfSelected(groupField, 0, packet, p, [Load(TimeStartup, 0, 1, 8)], data, 1, groupDataPtr, was, n);
    p, data, n := IfSelected(groupField, 1, packet, p, [Load(TimeGps, 0, 1, 8)], data, 1, groupDataPtr, was, n);
    p, data, n := IfSelected(groupField, 2, packet, p, [Load(GpsTowNs, 0, 1, 8)], data, 1, groupDataPtr, was, n);
    p, data, n := IfSelected(groupField, 3, packet, p, [Load(GpsWeek, 0, 1, 2)], data, 1, groupDataPtr, was, n);
    p, data, n := IfSelected(groupField, 4, packet, p, [Load(TimeSyncIn, 0, 1, 8)], data, 1, groupDataPtr, was, n);
    p, data, n := IfSelected(groupField, 5, packet, p, [Load(TimeGpsPps, 0, 1, 8)], data, 1, groupDataPtr, was, n);
    p, data, n := IfSelected(groupField, 6, packet, p,
                           [Load(TimeUtc, 0, 6, 1), Load(TimeUtc, 6, 1, 2)],
                           data, 1, groupDataPtr, was, n);
    p, data, n := IfSelected(groupField, 7, packet, p, [Load(SyncInCnt, 0, 1, 4)], data, 1, groupDataPtr, was, n);
    AllHandled(1, groupField, n, packet[..], groupDataPtr, was, p, data);
    processed := p - groupDataPtr;
  }

  method ProcessGroup3Data(groupField: Word, packet: array<Byte>, groupDataPtr: nat, was: Data)
      returns (processed: nat, data: Data)
    requires groupDataPtr + Width(GroupItems(2, groupField, 16)) <= packet.Length
    ensures processed == Width(GroupItems(2, groupField, 16))
    ensures data == LoadItems(GroupItems(2, groupField, 16), packet[..], groupDataPtr, was)
  {
    hide Handled, GroupItems, LoadItems, Width, ItemWidth, Bit;
    var p: nat;
    ghost var n: nat;
    p, data, n := groupDataPtr, was, 0;
    NothingHandled(2, groupField, packet[..], groupDataPtr, was);
    p, data, n := IfSelected(groupField, 0, packet, p, [Skip(8)], data, 2, groupDataPtr, was, n);
    p, data, n := IfSelected(groupField, 1, packet, p,
                           [Load(MagneticUncompensated, 0, 3, 4)],
                           data, 2, groupDataPtr, was, n);
    p, data, n := IfSelected(groupField, 2, packet, p,
                           [Load(AccelerationUncompensated, 0, 3, 4)],
                           data, 2, groupDataPtr, was, n);
    p, data, n := IfSelected(groupField, 3, packet, p,
                           [Load(AngularRateUncompensated, 0, 3, 4)],
                           data, 2, groupDataPtr, was, n);
    p, data, n := IfSelected(groupField, 4, packet, p, [Load(Temperature, 0, 1, 4)], data, 2, groupDataPtr, was, n);
    p, data, n := IfSelected(groupField, 5, packet, p, [Load(Pressure, 0, 1, 4)], data, 2, groupDataPtr, was, n);
    p, data, n := IfSelected(groupField, 6, packet, p,
                           [Load(DeltaTime, 0, 1, 4), Load(DeltaTheta, 0, 3, 4)],
                           data, 2, groupDataPtr, was, n);
    p, data, n := IfSelected(groupField, 7, packet, p, [Load(DeltaVelocity, 0, 3, 4)], data, 2, groupDataPtr, was, n);
    p, data, n := IfSelected(groupField, 8, packet, p, [Load(Magnetic, 0, 3, 4)], data, 2, groupDataPtr, was, n);
    p, data, n := IfSelected(groupField, 9, packet, p, [Load(Acceleration, 0, 3, 4)], data, 2, groupDataPtr, was, n);
    p, data, n := IfSelected(groupField, 10, packet, p, [Load(AngularRate, 0, 3, 4)], data, 2, groupDataPtr, was, n);
    p, data, n := IfSelected(groupField, 11, packet, p, [Load(SensSat, 0, 1, 2)], data, 2, groupDataPtr, was, n);
    AllHandled(2, groupField, n, packet[..], groupDataPtr, was, p, data);
    processed := p - groupDataPtr;
  }

  method ProcessGroup4Data(groupField: Word, packet: array<Byte>, groupDataPtr: nat, was: Data)
      returns (processed: nat, data: Data)
    requires groupDataPtr + Width(GroupItems(3, groupField, 16)) <= packet.Length
    ensures processed == Width(GroupItems(3, groupField, 16))
    ensures data == LoadItems(GroupItems(3, groupField, 16), packet[..], groupDataPtr, was)
  {
    hide Handled, GroupItems, LoadItems, Width, ItemWidth, Bit;
    var p: nat;
    ghost var n: nat;
    p, data, n := groupDataPtr, was, 0;
    NothingHandled(3, groupField, packet[..], groupDataPtr, was);
    p, data, n := IfSelected(groupField, 0, packet, p,
                           [Load(TimeUtc, 0, 6, 1), Load(TimeUtc, 6, 1, 2)],
                           data, 3, groupDataPtr, was, n);
    p, data, n := IfSelected(groupField, 1, packet, p, [Load(GpsTowNs, 0, 1, 8)], data, 3, groupDataPtr, was, n);
    p, data, n := IfSelected(groupField, 2, packet, p, [Load(GpsWeek, 0, 1, 2)], data, 3, groupDataPtr, was, n);
    p, data, n := IfSelected(groupField, 3, packet, p, [Load(NumSats, 0, 1, 1)], data, 3, groupDataPtr, was, n);
    p, data, n := IfSelected(groupField, 4, packet, p, [Load(GpsFix, 0, 1, 1)], data, 3, groupDataPtr, was, n);
    p, data, n := IfSelected(groupField, 5, packet, p, [Load(GpsPosLla, 0, 3, 8)], data, 3, groupDataPtr, was, n);
    p, data, n := IfSelected(groupField, 6, packet, p, [Load(GpsPosEcef, 0, 3, 8)], data, 3, groupDataPtr, was, n);
    p, data, n := IfSelected(groupField, 7, packet, p, [Load(GpsVelocity, 0, 3, 4)], data, 3, groupDataPtr, was, n);
    p, data, n := IfSelected(groupField, 8, packet, p, [Load(GpsVelEcef, 0, 3, 4)], data, 3, groupDataPtr, was, n);
    p, data, n := IfSelected(groupField, 9, packet, p, [Load(GpsPosU, 0, 3, 4)], data, 3, groupDataPtr, was, n);
    p, data, n := IfSelected(groupField, 10, packet, p, [Load(GpsVelU, 0, 1, 4)], data, 3, groupDataPtr, was, n);
    p, data, n := IfSelected(groupField, 11, packet, p, [Load(TimeU, 0, 1, 4)], data, 3, groupDataPtr, was, n);
    AllHandled(3, groupField, n, packet[..], groupDataPtr, was, p, data);
    processed := p - groupDataPtr;
  }

  method ProcessGroup5Data(groupField: Word, packet: array<Byte>, groupDataPtr: nat, was: Data)
      returns (processed: nat, data: Data)
    requires groupDataPtr + Width(GroupItems(4, groupField, 16)) <= packet.Length
    ensures processed == Width(GroupItems(4, groupField, 16))
    ensures data == LoadItems(GroupItems(4, groupField, 16), packet[..], groupDataPtr, was)
  {
    hide Handled, GroupItems, LoadItems, Width, ItemWidth, Bit;
    var p: nat;
    ghost var n: nat;
    p, data, n := groupDataPtr, was, 0;
    NothingHandled(4, groupField, packet[..], groupDataPtr, was);
    p, data, n := IfSelected(groupField, 0, packet, p, [Load(VpeStatus, 0, 1, 2)], data, 4, groupDataPtr, was, n);
    p, data, n := IfSelected(groupField, 1, packet, p, [Load(Ypr, 0, 3, 4)], data, 4, groupDataPtr, was, n);
    p, data, n := IfSelected(groupField, 2, packet, p, [Load(Quaternion, 0, 4, 4)], data, 4, groupDataPtr, was, n);
    p, data, n := IfSelected(groupField, 3, packet, p, [Load(Dcm, 0, 9, 4)], data, 4, groupDataPtr, was, n);
    p, data, n := IfSelected(groupField, 4, packet, p, [Load(MagNed, 0, 3, 4)], data, 4, groupDataPtr, was, n);
    p, data, n := IfSelected(groupField, 5, packet, p, [Load(AccelNed, 0, 3, 4)], data, 4, groupDataPtr, was, n);
    p, data, n := IfSelected(groupField, 6, packet, p, [Load(LinearAccelBody, 0, 3, 4)], data, 4, groupDataPtr, was, n);
    p, data, n := IfSelected(groupField, 7, packet, p, [Load(LinearAccelNed, 0, 3, 4)], data, 4, groupDataPtr, was, n);
    p, data, n := IfSelected(groupField, 8, packet, p, [Load(YprU, 0, 3, 4)], data, 4, groupDataPtr, was, n);
    AllHandled(4, groupField, n, packet[..], groupDataPtr, was, p, data);
    processed := p - groupDataPtr;
  }

  method ProcessGroup6Data(groupField: Word, packet: array<Byte>, groupDataPtr: nat, was: Data)
      returns (processed: nat, data: Data)
    requires groupDataPtr + Width(GroupItems(5, groupField, 16)) <= packet.Length
    ensures processed == Width(GroupItems(5, groupField, 16))
    ensures data == LoadItems(GroupItems(5, groupField, 16), packet[..], groupDataPtr, was)
  {
    hide Handled, GroupItems, LoadItems, Width, ItemWidth, Bit;
    var p: nat;
    ghost var n: nat;
    p, data, n := groupDataPtr, was, 0;
    NothingHandled(5, groupField, packet[..], groupDataPtr, was);
    p, data, n := IfSelected(groupField, 0, packet, p, [Load(InsStatus, 0, 1, 2)], data, 5, groupDataPtr, was, n);
    p, data, n := IfSelected(groupField, 1, packet, p, [Load(LatLonAlt, 0, 3, 8)], data, 5, groupDataPtr, was, n);
    p, data, n := IfSelected(groupField, 2, packet, p, [Load(PosEcef, 0, 3, 8)], data, 5, groupDataPtr, was, n);
    p, data, n := IfSelected(groupField, 3, packet, p, [Load(VelBody, 0, 3, 4)], data, 5, groupDataPtr, was, n);
    p, data, n := IfSelected(groupField, 4, packet, p, [Load(VelNed, 0, 3, 4)], data, 5, groupDataPtr, was, n);
    p, data, n := IfSelected(groupField, 5, packet, p, [Load(VelEcef, 0, 3, 4)], data, 5, groupDataPtr, was, n);
    p, data, n := IfSelected(groupField, 6, packet, p, [Load(MagEcef, 0, 3, 4)], data, 5, groupDataPtr, was, n);
    p, data, n := IfSelected(groupField, 7, packet, p, [Load(AccelEcef, 0, 3, 4)], data, 5, groupDataPtr, was, n);
    p, data, n := IfSelected(groupField, 8, packet, p, [Load(LinearAccelEcef, 0, 3, 4)], data, 5, groupDataPtr, was, n);
    p, data, n := IfSelected(groupField, 9, packet, p, [Load(PosU, 0, 1, 4)], data, 5, groupDataPtr, was, n);
    p, data, n := IfSelected(groupField, 10, packet, p, [Load(VelU, 0, 1, 4)], data, 5, groupDataPtr, was, n);
    AllHandled(5, groupField, n, packet[..], groupDataPtr, was, p, data);
    processed := p - groupDataPtr;
  }
}
