/** The wire format as an encoder, and what the framer and the decoders make of it. */
module RoundTrip {
  import opened Bytes
  import opened Crc16
  import opened CrcDetection
  import opened PacketLayout
  import opened Sequences
  import opened CompositeData
  import opened Decoder
  import opened PacketDecoder
  import opened Framer
  import opened Demultiplexing

  // ---------------------------------------------------------------------------
  // What loading leaves in a slot
  // ---------------------------------------------------------------------------

  /** The bytes of one component among those of an item. */
  function PartOf(item: Item, value: seq<Byte>, slot: Slot): (v: seq<Byte>)
    requires Carries(item, slot) && |value| == ItemWidth(item)
    ensures |v| == item.size
  {
    PartFits(slot.part - item.first, item.count, item.size);
    var from := (slot.part - item.first) * item.size;
    value[from..from + item.size]
  }

  /** The last item that carries a slot, or -1. */
  function LastCarrier(items: seq<Item>, slot: Slot): (k: int)
    ensures -1 <= k < |items|
    ensures k >= 0 ==> Carries(items[k], slot)
    ensures forall j :: k < j < |items| ==> !Carries(items[j], slot)
  {
    if items == [] then -1
    else
      var n := |items| - 1;
      if Carries(items[n], slot) then n else LastCarrier(items[..n], slot)
  }

  lemma {:induction false} PartsLoaded(f: Field, first: nat, count: nat, size: nat, p: seq<Byte>, at: nat,
                                       data: Data, slot: Slot)
    requires at + count * size <= |p|
    ensures var d := LoadParts(f, first, count, size, p, at, data);
      if slot.field == f && first <= slot.part < first + count then
        var from := (slot.part - first) * size;
        0 <= from && from + size <= count * size && slot in d && d[slot] == p[at + from..at + from + size]
      else
        (slot in d <==> slot in data) && (slot in d ==> d[slot] == data[slot])
  {
    if count == 0 {
    } else {
      PartFits(count - 1, count, size);
      PartsLoaded(f, first, count - 1, size, p, at, data, slot);
    }
  }

  lemma ItemLoaded(item: Item, p: seq<Byte>, at: nat, data: Data, slot: Slot)
    requires at + ItemWidth(item) <= |p|
    ensures var d := LoadItem(item, p, at, data);
      if Carries(item, slot) then
        slot in d && d[slot] == PartOf(item, p[at..at + ItemWidth(item)], slot)
      else
        (slot in d <==> slot in data) && (slot in d ==> d[slot] == data[slot])
  {
    if item.Load? {
      PartsLoaded(item.field, item.first, item.count, item.size, p, at, data, slot);
      if Carries(item, slot) {
        var from := (slot.part - item.first) * item.size;
        assert p[at..at + ItemWidth(item)][from..from + item.size] == p[at + from..at + from + item.size];
      }
    }
  }

  /** The value of a slot is what the last item carrying it found, and a slot that no item
      carries keeps its zero. */
  lemma {:induction false} Loaded(items: seq<Item>, p: seq<Byte>, at: nat, slot: Slot)
    requires at + Width(items) <= |p|
    ensures var d := LoadItems(items, p, at, map[]);
      var k := LastCarrier(items, slot);
      && (slot in d <==> k >= 0)
      && (k >= 0 ==>
            var from := at + Width(items[..k]);
            && from + ItemWidth(items[k]) <= at + Width(items)
            && d[slot] == PartOf(items[k], p[from..from + ItemWidth(items[k])], slot))
  {
    hide LoadItems, LoadItem, Width, PartOf, Carries;
    if items == [] {
      NothingLoaded(p, at);
    } else {
      var n := |items| - 1;
      var rest := items[..n];
      assert items == rest + [items[n]];
      LoadConcat(rest, [items[n]], p, at, map[]);
      Loaded(rest, p, at, slot);
      OneLoaded(items[n], p, at + Width(rest), LoadItems(rest, p, at, map[]));
      ItemLoaded(items[n], p, at + Width(rest), LoadItems(rest, p, at, map[]), slot);
      var k := LastCarrier(rest, slot);
      if k >= 0 {
        assert rest[..k] == items[..k];
      }
    }
  }

  lemma NothingLoaded(p: seq<Byte>, at: nat)
    requires at <= |p|
    ensures Width([]) == 0 && LoadItems([], p, at, map[]) == map[]
  {
  }

  lemma OneLoaded(item: Item, p: seq<Byte>, at: nat, data: Data)
    requires at + Width([item]) <= |p|
    ensures Width([item]) == ItemWidth(item) && LoadItems([item], p, at, data) == LoadItem(item, p, at, data)
  {
  }

  // ---------------------------------------------------------------------------
  // A packet is read through its header
  // ---------------------------------------------------------------------------

  /** The packet's header is h, and anything may follow. */
  ghost predicate StartsWith(p: seq<Byte>, h: seq<Byte>) {
    HasHeader(h) && |h| == HeaderLength(h[1]) && h <= p
  }

  lemma SameField(p: seq<Byte>, h: seq<Byte>, g: nat)
    requires StartsWith(p, h) && g < 8 && HasGroup(h[1], g)
    ensures HasHeader(p) && p[1] == h[1] && FieldOf(p, g) == FieldOf(h, g)
  {
    FieldsBelowStep(h[1], g);
    var at := 2 + 2 * FieldsBelow(h[1], g);
    assert p[at] == h[at] && p[at + 1] == h[at + 1];
  }

  lemma {:induction false} SameItems(p: seq<Byte>, h: seq<Byte>, n: nat)
    requires StartsWith(p, h) && n <= NUMBER_OF_GROUPS
    ensures HasHeader(p) && p[1] == h[1] && PacketItems(p, n) == PacketItems(h, n)
  {
    hide GroupItems, WordAt, ByteBits;
    if n == 0 {
    } else {
      SameItems(p, h, n - 1);
      if HasGroup(h[1], n - 1) {
        SameField(p, h, n - 1);
      }
    }
  }

  lemma SameAgreement(p: seq<Byte>, h: seq<Byte>)
    requires StartsWith(p, h)
    ensures HasHeader(p) && (PacketAgrees(p) <==> PacketAgrees(h))
  {
    forall g | 0 <= g < NUMBER_OF_GROUPS && HasGroup(h[1], g)
      ensures FieldOf(p, g) == FieldOf(h, g)
    {
      SameField(p, h, g);
    }
    hide HasGroup, FieldOf, Agrees;
  }

  lemma {:induction false} LoadPartsOfPrefix(f: Field, first: nat, count: nat, size: nat, p: seq<Byte>, q: seq<Byte>,
                                             at: nat, data: Data)
    requires at + count * size <= |p| && p <= q
    ensures LoadParts(f, first, count, size, p, at, data) == LoadParts(f, first, count, size, q, at, data)
  {
    if count == 0 {
    } else {
      PartFits(count - 1, count, size);
      LoadPartsOfPrefix(f, first, count - 1, size, p, q, at, data);
      var from := at + (count - 1) * size;
      assert p[from..from + size] == q[from..from + size];
    }
  }

  lemma {:induction false} LoadItemsOfPrefix(items: seq<Item>, p: seq<Byte>, q: seq<Byte>, at: nat, data: Data)
    requires at + Width(items) <= |p| && p <= q
    ensures LoadItems(items, p, at, data) == LoadItems(items, q, at, data)
  {
    if items == [] {
    } else {
      var item := items[0];
      if item.Load? {
        LoadPartsOfPrefix(item.field, item.first, item.count, item.size, p, q, at, data);
      }
      LoadItemsOfPrefix(items[1..], p, q, at + ItemWidth(item), LoadItem(item, p, at, data));
    }
  }

  /** The decoder is given the receive buffer, of which a packet is the beginning; what lies
      beyond the packet makes no difference. */
  lemma DecodeOfPrefix(p: seq<Byte>, q: seq<Byte>)
    requires HasHeader(p) && DataEnd(p) <= |p| && p <= q
    ensures HasHeader(q) && DataEnd(q) == DataEnd(p) && DecodePacket(q) == DecodePacket(p)
  {
    var h := p[..HeaderLength(p[1])];
    SameItems(p, h, NUMBER_OF_GROUPS);
    SameItems(q, h, NUMBER_OF_GROUPS);
    hide PacketItems, LoadItems, ByteBits;
    LoadItemsOfPrefix(PacketItems(p, NUMBER_OF_GROUPS), p, q, HeaderLength(p[1]), map[]);
  }

  // ---------------------------------------------------------------------------
  // Encoding
  // ---------------------------------------------------------------------------

  /** The groups byte, the selection fields in order, and the raw bytes of every item that
      is selected, in order. */
  datatype Message = Message(groups: Byte, fields: seq<Word>, values: seq<seq<Byte>>)

  function LittleEndian(w: Word): seq<Byte> {
    [ByteOf(w[8..]), ByteOf(w[..8])]
  }

  function FieldBytes(fields: seq<Word>): (b: seq<Byte>)
    ensures |b| == 2 * |fields|
  {
    if fields == [] then [] else FieldBytes(fields[..|fields| - 1]) + LittleEndian(fields[|fields| - 1])
  }

  function Header(m: Message): seq<Byte> {
    [BINARY_START, m.groups] + FieldBytes(m.fields)
  }

  /** One selection field for every bit of the groups byte, and for every item they select
      a value of the right size. */
  ghost predicate IsMessage(m: Message) {
    && |m.fields| == NumberOfFields(m.groups)
    && |m.values| == |Items(m)|
    && forall k :: 0 <= k < |m.values| ==> |m.values[k]| == ItemWidth(Items(m)[k])
  }

  function Items(m: Message): seq<Item>
    requires |m.fields| == NumberOfFields(m.groups)
  {
    PacketItems(Header(m), NUMBER_OF_GROUPS)
  }

  function Body(m: Message): seq<Byte> {
    Header(m) + Concat(m.values)
  }

  /** The CRC of everything after the start byte, high byte first. */
  function Trailer(w: Word): seq<Byte> {
    [ByteOf(w[..8]), ByteOf(w[8..])]
  }

  function Encode(m: Message): seq<Byte> {
    Body(m) + Trailer(Crc(Body(m)[1..]))
  }

  lemma {:induction false} FieldStored(fields: seq<Word>, k: nat)
    requires k < |fields|
    ensures WordAt(FieldBytes(fields), 2 * k) == fields[k]
  {
    var n := |fields| - 1;
    if k < n {
      FieldStored(fields[..n], k);
    } else {
      assert fields[n][..8] + fields[n][8..] == fields[n];
    }
  }

  /** The decoder picks the right selection field for a group. */
  lemma FieldFound(m: Message, g: nat)
    requires |m.fields| == NumberOfFields(m.groups) && g < 8 && HasGroup(m.groups, g)
    ensures FieldsBelow(m.groups, g) < |m.fields|
    ensures FieldOf(Header(m), g) == m.fields[FieldsBelow(m.groups, g)]
  {
    hide ByteBits, HasGroup;
    FieldsBelowStep(m.groups, g);
    var k := FieldsBelow(m.groups, g);
    var h, f := Header(m), FieldBytes(m.fields);
    FieldStored(m.fields, k);
    assert h[2 + 2 * k] == f[2 * k] && h[2 + 2 * k + 1] == f[2 * k + 1];
  }

  lemma EncodeStarts(m: Message)
    requires |m.fields| == NumberOfFields(m.groups)
    ensures StartsWith(Encode(m), Header(m)) && HasHeader(Encode(m)) && Encode(m)[1] == m.groups
  {
    assert Encode(m) == Header(m) + (Concat(m.values) + Trailer(Crc(Body(m)[1..])));
  }

  // ---------------------------------------------------------------------------
  // The values lie where the decoders look for them
  // ---------------------------------------------------------------------------

  ghost predicate Fit(values: seq<seq<Byte>>, items: seq<Item>) {
    && |values| == |items|
    && forall k :: 0 <= k < |values| ==> |values[k]| == ItemWidth(items[k])
  }

  lemma WidthSnoc(items: seq<Item>)
    requires items != []
    ensures Width(items) == Width(items[..|items| - 1]) + ItemWidth(items[|items| - 1])
  {
    var n := |items| - 1;
    WidthConcat(items[..n], [items[n]]);
    assert items == items[..n] + [items[n]];
  }

  lemma {:induction false} ValuesWidth(values: seq<seq<Byte>>, items: seq<Item>)
    requires Fit(values, items)
    ensures |Concat(values)| == Width(items)
  {
    if items == [] {
    } else {
      WidthSnoc(items);
      ValuesWidth(values[..|values| - 1], items[..|items| - 1]);
    }
  }

  lemma {:induction false} ValueStored(values: seq<seq<Byte>>, items: seq<Item>, k: nat)
    requires Fit(values, items) && k < |items|
    ensures var from := Width(items[..k]);
      from + ItemWidth(items[k]) <= |Concat(values)| && Concat(values)[from..from + ItemWidth(items[k])] == values[k]
  {
    hide Width, ItemWidth;
    var n := |items| - 1;
    ValuesWidth(values[..n], items[..n]);
    if k == n {
    } else {
      ValueStored(values[..n], items[..n], k);
      assert items[..n][..k] == items[..k] && items[..n][k] == items[k];
      var from, to := Width(items[..k]), Width(items[..k]) + ItemWidth(items[k]);
      assert Concat(values) == Concat(values[..n]) + values[n];
      assert to <= |Concat(values[..n])|;
      assert Concat(values)[from..to] == Concat(values[..n])[from..to];
    }
  }

  lemma ValueInPacket(m: Message, k: nat)
    requires IsMessage(m) && k < |m.values|
    ensures var from := |Header(m)| + Width(Items(m)[..k]);
      from + |m.values[k]| <= |Encode(m)| && Encode(m)[from..from + |m.values[k]|] == m.values[k]
  {
    hide PacketItems, Width, Concat, FieldBytes, Crc, ByteOf;
    ValueStored(m.values, Items(m), k);
    var h, v, t := Header(m), Concat(m.values), Trailer(Crc(Body(m)[1..]));
    var from := Width(Items(m)[..k]);
    assert (h + v + t)[|h| + from..|h| + from + |m.values[k]|] == v[from..from + |m.values[k]|];
  }

  // ---------------------------------------------------------------------------
  // Main results
  // ---------------------------------------------------------------------------

  /** The value the message has for a slot that some item carries. */
  function ValueOf(m: Message, slot: Slot): seq<Byte>
    requires IsMessage(m) && LastCarrier(Items(m), slot) >= 0
  {
    var k := LastCarrier(Items(m), slot);
    PartOf(Items(m)[k], m.values[k], slot)
  }

  lemma DecodesWithinPacket(m: Message)
    requires IsMessage(m)
    ensures HasHeader(Encode(m)) && DataEnd(Encode(m)) == |Encode(m)| - 2
    ensures PacketItems(Encode(m), NUMBER_OF_GROUPS) == Items(m)
  {
    EncodeStarts(m);
    SameItems(Encode(m), Header(m), NUMBER_OF_GROUPS);
    ValuesWidth(m.values, Items(m));
    hide PacketItems, Width;
  }

  /** Decoding an encoded message gives back its values: every slot that some selected item
      carries holds the value of the last one, every other slot is zero. */
  lemma DecodeEncode(m: Message, slot: Slot)
    requires IsMessage(m)
    ensures HasHeader(Encode(m)) && DataEnd(Encode(m)) <= |Encode(m)|
    ensures var d := DecodePacket(Encode(m));
      && (slot in d <==> exists k :: 0 <= k < |Items(m)| && Carries(Items(m)[k], slot))
      && (slot in d ==> d[slot] == ValueOf(m, slot))
  {
    hide PacketItems, Width, LoadItems, Encode, PartOf, Carries, HasHeader, FieldBytes, NumberOfFields;
    DecodesWithinPacket(m);
    EncodeStarts(m);
    Loaded(Items(m), Encode(m), |Header(m)|, slot);
    var k := LastCarrier(Items(m), slot);
    if k >= 0 {
      ValueInPacket(m, k);
    }
  }

  // ---------------------------------------------------------------------------
  // A member carried by several groups
  // ---------------------------------------------------------------------------

  lemma LastCarrierConcat(a: seq<Item>, b: seq<Item>, slot: Slot)
    ensures LastCarrier(a + b, slot)
         == if LastCarrier(b, slot) >= 0 then |a| + LastCarrier(b, slot) else LastCarrier(a, slot)
  {
    hide Carries, LastCarrier;
    var ab := a + b;
    var ka, kb, k := LastCarrier(a, slot), LastCarrier(b, slot), LastCarrier(ab, slot);
    assert kb >= 0 ==> ab[|a| + kb] == b[kb];
    assert ka >= 0 ==> ab[ka] == a[ka];
    assert k >= |a| ==> ab[k] == b[k - |a|];
    assert 0 <= k < |a| ==> ab[k] == a[k];
  }

  /** No group numbered from g up to n carries the slot. */
  ghost predicate NoneCarries(p: seq<Byte>, g: nat, n: nat, slot: Slot)
    requires HasHeader(p) && n <= NUMBER_OF_GROUPS
  {
    forall h :: g <= h < n && HasGroup(p[1], h) ==> LastCarrier(GroupItems(h, FieldOf(p, h), 16), slot) == -1
  }

  lemma {:induction false} GroupsAboveDoNotMatter(p: seq<Byte>, g: nat, n: nat, slot: Slot)
    requires HasHeader(p) && g <= n <= NUMBER_OF_GROUPS && NoneCarries(p, g, n, slot)
    ensures LastCarrier(PacketItems(p, n), slot) == LastCarrier(PacketItems(p, g), slot)
  {
    hide LastCarrier, GroupItems, HasGroup, FieldOf;
    if g == n {
    } else {
      GroupsAboveDoNotMatter(p, g, n - 1, slot);
      if HasGroup(p[1], n - 1) {
        LastCarrierConcat(PacketItems(p, n - 1), GroupItems(n - 1, FieldOf(p, n - 1), 16), slot);
      } else {
        NotPresent(p, n - 1);
      }
    }
  }

  /** The value comes from the one item that carries the slot in the highest-numbered group
      that carries it at all. */
  lemma HighestGroupWins(m: Message, g: nat, i: nat, slot: Slot)
    requires IsMessage(m) && g < NUMBER_OF_GROUPS && HasGroup(m.groups, g)
    requires i < |GroupItems(g, FieldOf(Header(m), g), 16)|
    requires Carries(GroupItems(g, FieldOf(Header(m), g), 16)[i], slot)
    requires NoneCarries(Header(m), g + 1, NUMBER_OF_GROUPS, slot)
    ensures HasHeader(Encode(m)) && DataEnd(Encode(m)) <= |Encode(m)|
    ensures var d := DecodePacket(Encode(m));
      var k := |PacketItems(Header(m), g)| + i;
      && k < |Items(m)| && Items(m)[k] == GroupItems(g, FieldOf(Header(m), g), 16)[i]
      && slot in d && d[slot] == PartOf(Items(m)[k], m.values[k], slot)
  {
    hide LastCarrier, GroupItems, HasGroup, FieldOf, Carries, PartOf, DecodePacket, PacketItems, NoneCarries, Encode;
    var h := Header(m);
    var items := GroupItems(g, FieldOf(h, g), 16);
    var k := LastCarrier(items, slot);
    GroupCarriesOnce(g, FieldOf(h, g), 16, i, k, slot);
    Present(h, g);
    LastCarrierConcat(PacketItems(h, g), items, slot);
    GroupsAboveDoNotMatter(h, g + 1, NUMBER_OF_GROUPS, slot);
    ItemsKept(h, g + 1, NUMBER_OF_GROUPS);
    DecodeEncode(m, slot);
  }

  lemma {:induction false} ItemsKept(p: seq<Byte>, g: nat, n: nat)
    requires HasHeader(p) && g <= n <= NUMBER_OF_GROUPS
    ensures PacketItems(p, g) <= PacketItems(p, n)
  {
    if g == n {
    } else {
      ItemsKept(p, g, n - 1);
    }
  }

  // ---------------------------------------------------------------------------
  // Encoded messages are frames, and frames are encoded messages
  // ---------------------------------------------------------------------------

  lemma TrailerChecks(b: seq<Byte>, t: seq<Byte>)
    requires |b| > 0 && |t| == 2
    ensures Crc((b + t)[1..]) == Zeros(16) <==> t == Trailer(Crc(b[1..]))
  {
    var m := b[1..];
    assert (b + t)[1..] == m + [t[0], t[1]];
    TrailerIsUnique(m, t[0], t[1]);
    var crc := Crc(m);
    assert crc == crc[..8] + crc[8..];
    if ByteBits(t[0]) + ByteBits(t[1]) == crc {
      ByteBitsInjective(t[0], ByteOf(crc[..8]));
      ByteBitsInjective(t[1], ByteOf(crc[8..]));
    }
  }

  /** An encoded message is a well-formed frame exactly when it names a group, selects only
      what table and decoders agree on, and fits the receive buffer. */
  lemma EncodeIsFrameIff(m: Message)
    requires IsMessage(m)
    ensures IsBinaryFrame(Encode(m)) <==>
      m.groups != 0 && PacketAgrees(Header(m)) && |Encode(m)| <= CAPACITY
  {
    var p := Encode(m);
    EncodeStarts(m);
    DecodesWithinPacket(m);
    LengthsAgreeIff(p);
    SameAgreement(p, Header(m));
    TrailerChecks(Body(m), Trailer(Crc(Body(m)[1..])));
    hide PacketAgrees, PacketLength, DataEnd, Crc, Trailer;
  }

  function FieldsOf(p: seq<Byte>, n: nat): (f: seq<Word>)
    requires 2 + 2 * n <= |p|
    ensures |f| == n
  {
    if n == 0 then [] else FieldsOf(p, n - 1) + [WordAt(p, 2 * n)]
  }

  function ValuesOf(items: seq<Item>, p: seq<Byte>, at: nat): (v: seq<seq<Byte>>)
    requires at + Width(items) <= |p|
    ensures |v| == |items|
  {
    if items == [] then []
    else
      WidthSnoc(items);
      var n := |items| - 1;
      var from := at + Width(items[..n]);
      ValuesOf(items[..n], p, at) + [p[from..from + ItemWidth(items[n])]]
  }

  function MessageOf(p: seq<Byte>): Message
    requires HasHeader(p) && DataEnd(p) <= |p|
  {
    Message(p[1], FieldsOf(p, NumberOfFields(p[1])), ValuesOf(PacketItems(p, NUMBER_OF_GROUPS), p, HeaderLength(p[1])))
  }

  lemma LittleEndianOfWord(p: seq<Byte>, at: nat)
    requires at + 2 <= |p|
    ensures LittleEndian(WordAt(p, at)) == [p[at], p[at + 1]]
  {
    var w := WordAt(p, at);
    assert w[..8] == ByteBits(p[at + 1]) && w[8..] == ByteBits(p[at]);
    ByteBitsInjective(p[at], ByteOf(w[8..]));
    ByteBitsInjective(p[at + 1], ByteOf(w[..8]));
  }

  lemma {:induction false} FieldBytesOf(p: seq<Byte>, n: nat)
    requires 2 + 2 * n <= |p|
    ensures FieldBytes(FieldsOf(p, n)) == p[2..2 + 2 * n]
  {
    hide WordAt, LittleEndian;
    if n == 0 {
    } else {
      FieldBytesOf(p, n - 1);
      LittleEndianOfWord(p, 2 * n);
      assert FieldsOf(p, n)[..n - 1] == FieldsOf(p, n - 1);
    }
  }

  lemma ValuesSnoc(items: seq<Item>, p: seq<Byte>, at: nat)
    requires items != [] && at + Width(items) <= |p|
    ensures var n := |items| - 1;
      var from := at + Width(items[..n]);
      && from + ItemWidth(items[n]) == at + Width(items)
      && ValuesOf(items, p, at)[..n] == ValuesOf(items[..n], p, at)
      && ValuesOf(items, p, at)[n] == p[from..from + ItemWidth(items[n])]
  {
    WidthSnoc(items);
  }

  lemma {:induction false} ValuesCover(items: seq<Item>, p: seq<Byte>, at: nat)
    requires at + Width(items) <= |p|
    ensures var v := ValuesOf(items, p, at);
      Fit(v, items) && Concat(v) == p[at..at + Width(items)]
  {
    hide Width, ItemWidth, ValuesOf;
    if items == [] {
      NoValues(p, at);
    } else {
      WidthSnoc(items);
      ValuesSnoc(items, p, at);
      ValuesCover(items[..|items| - 1], p, at);
    }
  }

  lemma NoValues(p: seq<Byte>, at: nat)
    requires at <= |p|
    ensures Width([]) == 0 && ValuesOf([], p, at) == []
  {
  }

  lemma HeaderOfMessage(p: seq<Byte>)
    requires HasHeader(p) && DataEnd(p) <= |p| && p[0] == BINARY_START
    ensures var m := MessageOf(p);
      && Header(m) == p[..HeaderLength(p[1])]
      && |m.fields| == NumberOfFields(m.groups) && Items(m) == PacketItems(p, NUMBER_OF_GROUPS)
  {
    var m := MessageOf(p);
    FieldBytesOf(p, NumberOfFields(p[1]));
    assert Header(m) == p[..HeaderLength(p[1])];
    SameItems(p, Header(m), NUMBER_OF_GROUPS);
    hide FieldsOf, ValuesOf, PacketItems;
  }

  lemma BodyOfMessage(p: seq<Byte>)
    requires HasHeader(p) && DataEnd(p) == |p| - 2 && p[0] == BINARY_START
    ensures IsMessage(MessageOf(p)) && Body(MessageOf(p)) == p[..|p| - 2]
  {
    hide PacketItems, FieldsOf, ValuesOf, Header, Width, HeaderLength, Concat, ItemWidth;
    HeaderOfMessage(p);
    ValuesCover(PacketItems(p, NUMBER_OF_GROUPS), p, HeaderLength(p[1]));
    var at := HeaderLength(p[1]);
    assert p[..|p| - 2] == p[..at] + p[at..|p| - 2];
  }

  lemma FrameParts(p: seq<Byte>)
    requires IsBinaryFrame(p) && PacketAgrees(p)
    ensures HasHeader(p) && DataEnd(p) == |p| - 2 && p[0] == BINARY_START && |p| > 2
    ensures Crc(p[1..]) == Zeros(16)
  {
    LengthsAgreeIff(p);
    hide PacketAgrees, PacketItems, PayloadBelow, Width, NumberOfFields, Crc;
  }

  lemma EncodeOfParts(m: Message, b: seq<Byte>, t: seq<Byte>)
    requires Body(m) == b != [] && |t| == 2 && Crc((b + t)[1..]) == Zeros(16)
    ensures Encode(m) == b + t
  {
    hide Body, Crc, Trailer;
    TrailerChecks(b, t);
  }

  /** Every frame on whose selections table and decoders agree is the encoding of a message. */
  lemma EncodeMessageOf(p: seq<Byte>)
    requires IsBinaryFrame(p) && PacketAgrees(p)
    ensures DataEnd(p) <= |p| && IsMessage(MessageOf(p)) && Encode(MessageOf(p)) == p
  {
    FrameParts(p);
    hide IsBinaryFrame, PacketAgrees, MessageOf, IsMessage, Body, Encode, Crc, DataEnd, HasHeader;
    BodyOfMessage(p);
    var b, t := p[..|p| - 2], p[|p| - 2..];
    assert p == b + t;
    EncodeOfParts(MessageOf(p), b, t);
  }
}
