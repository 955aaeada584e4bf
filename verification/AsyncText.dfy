/** vndevice_processAsyncData: which asynchronous text messages are read, and which field of a
    message goes to which member. The conversion of a field to a number is not modelled. */
module AsyncText {
  import opened Bytes
  import opened Sequences
  import opened CompositeData
  import opened Framer
  import opened PacketDecoder
  import opened StringRoutines
  import Transaction

  const COMMAS: set<Byte> := {COMMA}
  const NUMBER_OF_HEADERS := 27

  /** The message headers, in the order in which the code tries them. */
  function Name(k: nat): (name: string)
    requires k < NUMBER_OF_HEADERS
    ensures |name| == 5
  {
    match k
    case 0 => "VNYPR"
    case 1 => "VNQTN"
    case 2 => "VNQTM"
    case 3 => "VNQTA"
    case 4 => "VNQTR"
    case 5 => "VNQMA"
    case 6 => "VNQAR"
    case 7 => "VNQMR"
    case 8 => "VNDCM"
    case 9 => "VNMAG"
    case 10 => "VNACC"
    case 11 => "VNGYR"
    case 12 => "VNMAR"
    case 13 => "VNYMR"
    case 14 => "VNYCM"
    case 15 => "VNYBA"
    case 16 => "VNYIA"
    case 17 => "VNICM"
    case 18 => "VNRAW"
    case 19 => "VNCMV"
    case 20 => "VNSTV"
    case 21 => "VNCOV"
    case 22 => "VNIMU"
    case 23 => "VNGPS"
    case 24 => "VNGPE"
    case 25 => "VNINS"
    case 26 => "VNDTV"
  }

  /** How many fields each message has. */
  function FieldCount(k: nat): nat {
    match k
    case 0 | 9 | 10 | 11 => 3
    case 1 => 4
    case 21 => 6
    case 2 | 3 | 4 | 20 | 26 => 7
    case 8 | 12 | 15 | 16 => 9
    case 5 | 6 | 18 | 19 => 10
    case 22 => 11
    case 13 | 17 => 12
    case 7 | 14 => 13
    case 23 | 24 | 25 => 15
    case _ => 0
  }

  /** Acceleration and angular rate, also after the magnetic measurements. */
  function AccRate(j: nat): Slot {
    if j < 3 then Slot(Acceleration, j) else Slot(AngularRate, j - 3)
  }

  function MagAccRate(j: nat): Slot {
    if j < 3 then Slot(Magnetic, j) else AccRate(j - 3)
  }

  /** GPS time, week, fix and satellites, then the position and velocity given, then the
      uncertainties. */
  function Gps(j: nat, position: Field, velocity: Field): Slot {
    if j < 4 then Slot([GpsTowSec, GpsWeek, GpsFix, NumSats][j], 0)
    else if j < 7 then Slot(position, j - 4)
    else if j < 10 then Slot(velocity, j - 7)
    else if j < 13 then Slot(GpsPosU, j - 10)
    else Slot(if j == 13 then GpsVelU else TimeAccSec, 0)
  }

  /** The component that a branch assigns field j to. The matrix comes row by row; the last
      field of "VNIMU" goes where the one before it went. */
  function SlotAt(k: nat, j: nat): Slot {
    match k
    case 0 => Slot(Ypr, j)
    case 1 => Slot(Quaternion, j)
    case 2 => if j < 4 then Slot(Quaternion, j) else Slot(Magnetic, j - 4)
    case 3 => if j < 4 then Slot(Quaternion, j) else Slot(Acceleration, j - 4)
    case 4 => if j < 4 then Slot(Quaternion, j) else Slot(AngularRate, j - 4)
    case 5 => if j < 4 then Slot(Quaternion, j) else MagAccRate(j - 4)
    case 6 => if j < 4 then Slot(Quaternion, j) else AccRate(j - 4)
    case 7 => if j < 4 then Slot(Quaternion, j) else MagAccRate(j - 4)
    case 8 => Slot(Dcm, 3 * (j % 3) + j / 3)
    case 9 => Slot(Magnetic, j)
    case 10 => Slot(Acceleration, j)
    case 11 => Slot(AngularRate, j)
    case 12 => MagAccRate(j)
    case 13 => if j < 3 then Slot(Ypr, j) else MagAccRate(j - 3)
    case 14 => if j < 3 then Slot(Ypr, j) else if j < 12 then MagAccRate(j - 3) else Slot(Temperature, 0)
    case 15 => if j < 3 then Slot(Ypr, j) else AccRate(j - 3)
    case 16 => if j < 3 then Slot(Ypr, j) else AccRate(j - 3)
    case 17 => if j < 3 then Slot(Ypr, j) else MagAccRate(j - 3)
    case 18 =>
      if j < 9 then Slot([MagneticVoltage, AccelerationVoltage, AngularRateVoltage][j / 3], j % 3)
      else Slot(TemperatureVoltage, 0)
    case 19 => if j < 9 then MagAccRate(j) else Slot(Temperature, 0)
    case 20 => if j < 4 then Slot(Quaternion, j) else Slot(AngularRateBias, j - 4)
    case 21 => if j < 3 then Slot(AttitudeVariance, j) else Slot(AngularRateBiasVariance, j - 3)
    case 22 => if j < 9 then MagAccRate(j) else Slot(Temperature, 0)
    case 23 => Gps(j, LatLonAlt, Velocity)
    case 24 => Gps(j, PosEcef, VelEcef)
    case 25 =>
      if j < 3 then Slot([GpsTowSec, GpsWeek, InsStatus][j], 0)
      else if j < 12 then Slot([Ypr, LatLonAlt, Velocity][j / 3 - 1], j % 3)
      else Slot(if j == 12 then AttitudeUncertainty else if j == 13 then PosU else VelU, 0)
    case _ =>
      if j == 0 then Slot(DeltaTime, 0)
      else if j < 4 then Slot(DeltaTheta, j - 1)
      else Slot(DeltaVelocity, j - 4)
  }

  function SlotsOf(k: nat): (slots: seq<Slot>)
    ensures |slots| == FieldCount(k) && forall j :: 0 <= j < |slots| ==> slots[j] == SlotAt(k, j)
  {
    seq(FieldCount(k), j requires 0 <= j < FieldCount(k) => SlotAt(k, j))
  }

  lemma FirstSlotsExist(k: nat, j: nat)
    requires k < 14 && j < FieldCount(k)
    ensures SlotAt(k, j).part < Parts(SlotAt(k, j).field)
  {
  }

  lemma OtherSlotsExist(k: nat, j: nat)
    requires 14 <= k < NUMBER_OF_HEADERS && j < FieldCount(k)
    ensures SlotAt(k, j).part < Parts(SlotAt(k, j).field)
  {
  }

  lemma FirstSlotsDiffer(k: nat, i: nat, j: nat)
    requires k < 8 && i < j < FieldCount(k)
    ensures SlotAt(k, i) != SlotAt(k, j)
  {
  }

  lemma NextSlotsDiffer(k: nat, i: nat, j: nat)
    requires 8 <= k < 20 && i < j < FieldCount(k)
    ensures SlotAt(k, i) != SlotAt(k, j)
  {
  }

  lemma LastSlotsDiffer(k: nat, i: nat, j: nat)
    requires 20 <= k < NUMBER_OF_HEADERS && i < j < FieldCount(k)
    ensures SlotAt(k, i) == SlotAt(k, j) <==> k == 22 && i == 9 && j == 10
  {
  }

  /** Every field goes to a component that exists, and no two to the same but for the last two
      of "VNIMU". */
  lemma SlotsAreDistinct(k: nat, i: nat, j: nat)
    requires k < NUMBER_OF_HEADERS && i < j < FieldCount(k)
    ensures SlotAt(k, j).part < Parts(SlotAt(k, j).field) && SlotAt(k, i).part < Parts(SlotAt(k, i).field)
    ensures SlotAt(k, i) == SlotAt(k, j) <==> k == 22 && i == 9 && j == 10
  {
    hide SlotAt, Parts;
    if k < 14 {
      FirstSlotsExist(k, i);
      FirstSlotsExist(k, j);
    } else {
      OtherSlotsExist(k, i);
      OtherSlotsExist(k, j);
    }
    if k < 8 {
      FirstSlotsDiffer(k, i, j);
    } else if k < 20 {
      NextSlotsDiffer(k, i, j);
    } else {
      LastSlotsDiffer(k, i, j);
    }
  }

  /** The field with another component of the same member. */
  function Sibling(k: nat, j: nat, part: nat): int {
    if k == 8 then 3 * (part % 3) + part / 3 else j - SlotAt(k, j).part + part
  }

  lemma FirstAreWhole(k: nat, j: nat, part: nat)
    requires k < 8 && j < FieldCount(k) && part < Parts(SlotAt(k, j).field)
    ensures 0 <= Sibling(k, j, part) < FieldCount(k)
    ensures SlotAt(k, Sibling(k, j, part)) == Slot(SlotAt(k, j).field, part)
  {
  }

  lemma NextAreWhole(k: nat, j: nat, part: nat)
    requires 8 <= k < 16 && j < FieldCount(k) && part < Parts(SlotAt(k, j).field)
    ensures 0 <= Sibling(k, j, part) < FieldCount(k)
    ensures SlotAt(k, Sibling(k, j, part)) == Slot(SlotAt(k, j).field, part)
  {
  }

  lemma MoreAreWhole(k: nat, j: nat, part: nat)
    requires 16 <= k < 23 && j < FieldCount(k) && part < Parts(SlotAt(k, j).field)
    ensures 0 <= Sibling(k, j, part) < FieldCount(k)
    ensures SlotAt(k, Sibling(k, j, part)) == Slot(SlotAt(k, j).field, part)
  {
  }

  lemma LastAreWhole(k: nat, j: nat, part: nat)
    requires 23 <= k < NUMBER_OF_HEADERS && j < FieldCount(k) && part < Parts(SlotAt(k, j).field)
    ensures 0 <= Sibling(k, j, part) < FieldCount(k)
    ensures SlotAt(k, Sibling(k, j, part)) == Slot(SlotAt(k, j).field, part)
  {
  }

  /** A message that fills one component of a member fills them all. */
  lemma MembersAreWhole(k: nat, j: nat, part: nat)
    requires k < NUMBER_OF_HEADERS && j < FieldCount(k) && part < Parts(SlotAt(k, j).field)
    ensures Slot(SlotAt(k, j).field, part) in SlotsOf(k)
  {
    hide SlotAt, FieldCount, Parts, Sibling;
    if k < 8 {
      FirstAreWhole(k, j, part);
    } else if k < 16 {
      NextAreWhole(k, j, part);
    } else if k < 23 {
      MoreAreWhole(k, j, part);
    } else {
      LastAreWhole(k, j, part);
    }
    assert SlotsOf(k)[Sibling(k, j, part)] == Slot(SlotAt(k, j).field, part);
  }

  /** Only the '$' and the first four letters are compared. */
  predicate Matches(s: seq<Byte>, name: string)
    requires |name| == 5
  {
    && |s| >= 5 && s[0] == ASCII_START
    && s[1] as int == name[0] as int && s[2] as int == name[1] as int
    && s[3] as int == name[2] as int && s[4] as int == name[3] as int
  }

  /** The first branch from k on whose header matches. */
  function BranchFrom(s: seq<Byte>, k: nat): (j: nat)
    requires k <= NUMBER_OF_HEADERS
    ensures k <= j <= NUMBER_OF_HEADERS
    ensures j < NUMBER_OF_HEADERS ==> Matches(s, Name(j))
    ensures forall i :: k <= i < j ==> !Matches(s, Name(i))
    decreases NUMBER_OF_HEADERS - k
  {
    if k == NUMBER_OF_HEADERS || Matches(s, Name(k)) then k else BranchFrom(s, k + 1)
  }

  /** Each slot with the last token assigned to it. */
  function Assigned(slots: seq<Slot>, tokens: seq<seq<Byte>>): map<Slot, seq<Byte>>
    requires |slots| <= |tokens|
  {
    if slots == [] then map[]
    else
      var n := |slots| - 1;
      Assigned(slots[..n], tokens)[slots[n] := tokens[n]]
  }

  /** The text read for each component, if the header is known and there are as many fields as
      its branch reads; otherwise the function returns early. */
  function TextValues(packet: Packet): Option<map<Slot, seq<Byte>>> {
    var s := Transaction.CString(packet);
    var k := BranchFrom(s, 0);
    var tokens := TokenList(s, COMMAS);
    if k == NUMBER_OF_HEADERS || |tokens| < 1 + |SlotsOf(k)| then None
    else Some(Assigned(SlotsOf(k), tokens[1..]))
  }

  predicate IsComplete(packet: Packet) {
    TextValues(packet).Some?
  }

  // ---------------------------------------------------------------------------
  // Messages as a sensor sends them
  // ---------------------------------------------------------------------------

  function Ascii(text: string): (b: seq<Byte>)
    requires forall i :: 0 <= i < |text| ==> 0 < text[i] as int < 0x80
    ensures |b| == |text| && forall i :: 0 <= i < |text| ==> b[i] as int == text[i] as int
  {
    seq(|text|, i requires 0 <= i < |text| => text[i] as int as Byte)
  }

  lemma NameIsAscii(k: nat)
    requires k < NUMBER_OF_HEADERS
    ensures forall i :: 0 <= i < 5 ==> 0x41 <= Name(k)[i] as int <= 0x5A
  {
  }

  /** The branch that takes a header: an earlier one if the first four letters are the same. */
  function ReadAs(k: nat): nat {
    match k
    case 2 => 1
    case 3 => 1
    case 4 => 1
    case 7 => 5
    case 12 => 9
    case 24 => 23
    case _ => k
  }

  lemma SameStart(k: nat)
    requires k < NUMBER_OF_HEADERS
    ensures ReadAs(k) <= k && Name(ReadAs(k))[..4] == Name(k)[..4]
  {
  }

  lemma OthersDiffer(j: nat, k: nat)
    requires j < ReadAs(k) && k < NUMBER_OF_HEADERS
    ensures Name(j)[2] != Name(k)[2] || Name(j)[3] != Name(k)[3]
  {
  }

  function Header(k: nat): (h: seq<Byte>)
    requires k < NUMBER_OF_HEADERS
    ensures |h| == 6 && IsField(h, COMMAS) && 0 !in h
  {
    NameIsAscii(k);
    [ASCII_START] + Ascii(Name(k))
  }

  function Message(k: nat, fields: seq<seq<Byte>>): Packet
    requires k < NUMBER_OF_HEADERS
  {
    Joined([Header(k)] + fields, COMMA)
  }

  /** Nonempty, without comma or NUL; the last field ends in checksum and end characters. */
  predicate AllFields(fields: seq<seq<Byte>>) {
    forall i :: 0 <= i < |fields| ==> IsField(fields[i], COMMAS) && 0 !in fields[i]
  }

  lemma {:induction false} JoinedHasNoNul(fields: seq<seq<Byte>>)
    requires AllFields(fields)
    ensures 0 !in Joined(fields, COMMA)
  {
    if fields == [] {
    } else {
      JoinedHasNoNul(fields[1..]);
    }
  }

  lemma MessageStarts(k: nat, fields: seq<seq<Byte>>)
    requires k < NUMBER_OF_HEADERS
    ensures Header(k) <= Message(k, fields)
  {
    assert ([Header(k)] + fields)[1..] == fields;
  }

  /** The branch that reads a message. */
  lemma BranchOfMessage(k: nat, s: seq<Byte>)
    requires k < NUMBER_OF_HEADERS && Header(k) <= s
    ensures BranchFrom(s, 0) == ReadAs(k)
  {
    hide Name, BranchFrom;
    NameIsAscii(k);
    var h := Header(k);
    assert s[..6] == h && forall i :: 0 <= i < 6 ==> s[i] == h[i];
    SameStart(k);
    var name := Name(ReadAs(k));
    assert name[..4] == Name(k)[..4] && forall i :: 0 <= i < 4 ==> name[i] == name[..4][i] == Name(k)[..4][i];
    assert Matches(s, name);
    var j := BranchFrom(s, 0);
    if j < ReadAs(k) {
      OthersDiffer(j, k);
    }
  }

  lemma MessageTokens(k: nat, fields: seq<seq<Byte>>)
    requires k < NUMBER_OF_HEADERS && AllFields(fields)
    ensures Transaction.CString(Message(k, fields)) == Message(k, fields)
    ensures TokenList(Message(k, fields), COMMAS) == [Header(k)] + fields
  {
    var all := [Header(k)] + fields;
    hide Header, TokenList, Joined, IsField;
    JoinedHasNoNul(all);
    TokensOfJoined(all, COMMA, COMMAS);
    UpToBeyond(Message(k, fields), [], 0);
    assert Message(k, fields) + [] == Message(k, fields);
  }

  /** A message is stored exactly if it has at least the fields its branch reads, and then they
      are assigned in order. */
  lemma MessageRead(k: nat, fields: seq<seq<Byte>>)
    requires k < NUMBER_OF_HEADERS && AllFields(fields)
    ensures var slots := SlotsOf(ReadAs(k));
      TextValues(Message(k, fields)) ==
        if |fields| < |slots| then None else Some(Assigned(slots, fields))
  {
    MessageStarts(k, fields);
    BranchOfMessage(k, Message(k, fields));
    MessageTokens(k, fields);
    hide SlotsOf, Header, TokenList, BranchFrom, Assigned, Message, UpTo;
    assert ([Header(k)] + fields)[1..] == fields;
    SameStart(k);
  }

  // ---------------------------------------------------------------------------
  // What goes where
  // ---------------------------------------------------------------------------

  /** A slot holds the last field assigned to it. */
  lemma {:induction false} AssignedAt(slots: seq<Slot>, tokens: seq<seq<Byte>>, j: nat)
    requires j < |slots| <= |tokens| && forall i :: j < i < |slots| ==> slots[i] != slots[j]
    ensures slots[j] in Assigned(slots, tokens) && Assigned(slots, tokens)[slots[j]] == tokens[j]
  {
    var n := |slots| - 1;
    if j == n {
    } else {
      AssignedAt(slots[..n], tokens, j);
    }
  }

  lemma {:induction false} AssignedKeys(slots: seq<Slot>, tokens: seq<seq<Byte>>, slot: Slot)
    requires |slots| <= |tokens|
    ensures slot in Assigned(slots, tokens) <==> slot in slots
  {
    if slots == [] {
    } else {
      var n := |slots| - 1;
      AssignedKeys(slots[..n], tokens, slot);
      assert slots == slots[..n] + [slots[n]];
    }
  }

  /** So every field a branch reads is stored in its own component, but for the last but one of
      "VNIMU", and components that no field goes to are not set. */
  lemma FieldStored(k: nat, fields: seq<seq<Byte>>, j: nat)
    requires k < NUMBER_OF_HEADERS && AllFields(fields) && j < FieldCount(ReadAs(k)) <= |fields|
    requires !(k == 22 && j == 9)
    ensures var r, slot := TextValues(Message(k, fields)), SlotAt(ReadAs(k), j);
      r.Some? && slot in r.value && r.value[slot] == fields[j]
  {
    hide Message, TextValues, Assigned, SlotAt, FieldCount;
    SameStart(k);
    MessageRead(k, fields);
    var slots := SlotsOf(ReadAs(k));
    forall i | j < i < |slots| ensures slots[i] != slots[j] {
      SlotsAreDistinct(ReadAs(k), j, i);
    }
    AssignedAt(slots, fields, j);
  }

  // ---------------------------------------------------------------------------
  // Messages taken for others
  // ---------------------------------------------------------------------------

  /** A component of a message that the branch reading it does not know. */
  function Missing(k: nat): Slot {
    match k
    case 2 => Slot(Magnetic, 0)
    case 3 | 12 => Slot(Acceleration, 0)
    case 24 => Slot(PosEcef, 0)
    case _ => Slot(AngularRate, 0)
  }

  lemma MissingIsSent(k: nat)
    requires k in {2, 3, 4, 7, 12, 24}
    ensures Missing(k) in SlotsOf(k) && Missing(k) !in SlotsOf(ReadAs(k))
  {
    assert SlotsOf(k)[if k == 12 then 3 else if k == 7 then 10 else 4] == Missing(k);
  }

  /** A message with its fields is read as what it is exactly unless it is one of the six
      whose first four letters come up earlier: VNQTM, VNQTA, VNQTR, VNQMR, VNMAR, VNGPE. */
  lemma ReadRightIff(k: nat, fields: seq<seq<Byte>>)
    requires k < NUMBER_OF_HEADERS && AllFields(fields) && |fields| == FieldCount(k)
    ensures TextValues(Message(k, fields)) == Some(Assigned(SlotsOf(k), fields)) <==> k !in {2, 3, 4, 7, 12, 24}
  {
    hide Message, TextValues, Assigned, SlotsOf, Missing;
    MessageRead(k, fields);
    if k in {2, 3, 4, 7, 12, 24} {
      MissingIsSent(k);
      AssignedKeys(SlotsOf(k), fields, Missing(k));
      AssignedKeys(SlotsOf(ReadAs(k)), fields, Missing(k));
    }
  }

  /** So the earth-centred position of a VNGPE message is stored as latitude, longitude and
      altitude. */
  lemma EcefStoredAsLatitude(fields: seq<seq<Byte>>)
    requires AllFields(fields) && |fields| == 15
    ensures var r := TextValues(Message(24, fields));
      && r.Some? && Slot(PosEcef, 0) !in r.value
      && forall i :: 0 <= i < 3 ==> Slot(LatLonAlt, i) in r.value && r.value[Slot(LatLonAlt, i)] == fields[4 + i]
  {
    hide Message, TextValues, Assigned;
    MessageRead(24, fields);
    MissingIsSent(24);
    AssignedKeys(SlotsOf(23), fields, Slot(PosEcef, 0));
    forall i | 0 <= i < 3
      ensures Slot(LatLonAlt, i) in Assigned(SlotsOf(23), fields)
      ensures Assigned(SlotsOf(23), fields)[Slot(LatLonAlt, i)] == fields[4 + i]
    {
      AssignedAt(SlotsOf(23), fields, 4 + i);
    }
  }

  /** And the eleventh field of a VNIMU message is stored over the tenth, as the temperature. */
  lemma EleventhFieldIsTemperature(fields: seq<seq<Byte>>)
    requires AllFields(fields) && |fields| == 11
    ensures var r := TextValues(Message(22, fields));
      && r.Some? && Slot(Temperature, 0) in r.value && r.value[Slot(Temperature, 0)] == fields[10]
  {
    hide Message, TextValues, Assigned;
    MessageRead(22, fields);
    AssignedAt(SlotsOf(22), fields, 10);
  }

  // ---------------------------------------------------------------------------
  // The function of vndevice.c
  // ---------------------------------------------------------------------------

  /** The fields as numbers, which is left open. */
  function Converted(values: map<Slot, seq<Byte>>, convert: (Slot, seq<Byte>) -> seq<Byte>): Data {
    map slot | slot in values :: convert(slot, values[slot])
  }

  lemma AssignedNext(slots: seq<Slot>, tokens: seq<seq<Byte>>, j: nat)
    requires j < |slots| && j < |tokens|
    ensures Assigned(slots[..j + 1], tokens) == Assigned(slots[..j], tokens)[slots[j] := tokens[j]]
  {
    assert slots[..j + 1][..j] == slots[..j];
  }

  lemma NothingAssigned(slots: seq<Slot>, tokens: seq<seq<Byte>>)
    ensures Assigned(slots[..0], tokens) == map[]
  {
  }

  lemma StartsToken(s: seq<Byte>)
    requires s != [] && s[0] == ASCII_START
    ensures TokenList(s, COMMAS) != []
  {
  }

  /** The header is one token and every field read is another; at the first that is missing the
      function returns. */
  method ProcessAsyncData(packet: Packet, convert: (Slot, seq<Byte>) -> seq<Byte>, store: AsyncStore)
    modifies store
    ensures store.latestAsyncData ==
      match TextValues(packet)
      case Some(values) => Converted(values, convert)
      case None => old(store.latestAsyncData)
  {
    hide SlotAt, FieldCount, TokenList, Assigned, Transaction.CString, Name;
    var buffer := Transaction.CString(packet);
    var k := BranchFrom(buffer, 0);
    if k == NUMBER_OF_HEADERS {
      return;
    }
    ghost var all := TokenList(buffer, COMMAS);
    var found, result, at := NextToken(buffer, COMMAS, 0);
    StartsToken(buffer);
    assert buffer[0..] == buffer;
    NothingAssigned(SlotsOf(k), all[1..]);
    var data: map<Slot, seq<Byte>> := map[];
    for j := 0 to FieldCount(k)
      invariant at <= |buffer| && store.latestAsyncData == old(store.latestAsyncData)
      invariant |all| >= 1 + j && TokenList(buffer[at..], COMMAS) == all[1 + j..]
      invariant data == Assigned(SlotsOf(k)[..j], all[1..])
    {
      found, result, at := NextToken(buffer, COMMAS, at);
      if !found {
        return;
      }
      AssignedNext(SlotsOf(k), all[1..], j);
      data := data[SlotAt(k, j) := result];
    }
    assert SlotsOf(k)[..FieldCount(k)] == SlotsOf(k);
    store.latestAsyncData := Converted(data, convert);
  }
}
