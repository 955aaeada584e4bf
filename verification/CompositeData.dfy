/** The fields a binary packet can carry, where each decoder finds them, and how that
    compares with the length table. */
module CompositeData {
  import opened Bytes
  import opened PacketLayout

  /** The members of VnDeviceCompositeData; the last three lines only text packets fill. */
  datatype Field =
    | TimeStartup | TimeGps | TimeSyncIn | Ypr | Quaternion | AngularRate | LatLonAlt | Velocity
    | Acceleration | AngularRateUncompensated | AccelerationUncompensated | MagneticUncompensated
    | Magnetic | Temperature | Pressure | DeltaTime | DeltaTheta | DeltaVelocity | InsStatus
    | SyncInCnt | TimeGpsPps | GpsTowNs | GpsWeek | TimeUtc | SensSat | NumSats | GpsFix
    | GpsPosLla | GpsPosEcef | GpsVelocity | GpsVelEcef | GpsPosU | GpsVelU | TimeU | VpeStatus
    | Dcm | MagNed | AccelNed | LinearAccelBody | LinearAccelNed | YprU | PosEcef | VelBody
    | VelNed | VelEcef | MagEcef | AccelEcef | LinearAccelEcef | PosU | VelU
    | MagneticVoltage | AccelerationVoltage | AngularRateVoltage | TemperatureVoltage
    | AngularRateBias | AttitudeVariance | AngularRateBiasVariance | GpsTowSec
    | TimeAccSec | AttitudeUncertainty

  /** One component of a member; those of a matrix are numbered column by column. */
  datatype Slot = Slot(field: Field, part: nat)

  /** One step of a decoder: load consecutive components of a member, or step over bytes. */
  datatype Item = Load(field: Field, first: nat, count: nat, size: nat) | Skip(size: nat)

  /** The raw bytes of every slot that was set; a slot that is absent holds zero. */
  type Data = map<Slot, seq<Byte>>

  // ---------------------------------------------------------------------------
  // The wire format, group by group and selection bit by selection bit
  // ---------------------------------------------------------------------------

  function Layout(g: nat, i: nat): seq<Item> {
    match g
    case 0 => Layout1(i)
    case 1 => Layout2(i)
    case 2 => Layout3(i)
    case 3 => Layout4(i)
    case 4 => Layout5(i)
    case 5 => Layout6(i)
    case _ => []
  }

  function Layout1(i: nat): seq<Item> {
    match i
    case 0 => [Load(TimeStartup, 0, 1, 8)]
    case 1 => [Load(TimeGps, 0, 1, 8)]
    case 2 => [Load(TimeSyncIn, 0, 1, 8)]
    case 3 => [Load(Ypr, 0, 3, 4)]
    case 4 => [Load(Quaternion, 0, 4, 4)]
    case 5 => [Load(AngularRate, 0, 3, 4)]
    case 6 => [Load(LatLonAlt, 0, 3, 8)]
    case 7 => [Load(Velocity, 0, 3, 4)]
    case 8 => [Load(Acceleration, 0, 3, 4)]
    case 9 => [Load(AngularRateUncompensated, 0, 3, 4), Load(AccelerationUncompensated, 0, 3, 4)]
    case 10 => [Load(Magnetic, 0, 3, 4), Load(Temperature, 0, 1, 4), Load(Pressure, 0, 1, 4)]
    case 11 => [Load(DeltaTime, 0, 1, 4), Load(DeltaTheta, 0, 3, 4), Load(DeltaVelocity, 0, 3, 4)]
    case 12 => [Load(InsStatus, 0, 1, 2)]
    case 13 => [Load(SyncInCnt, 0, 1, 4)]
    case 14 => [Load(TimeGpsPps, 0, 1, 8)]
    case _ => []
  }

  function Layout2(i: nat): seq<Item> {
    match i
    case 0 => [Load(TimeStartup, 0, 1, 8)]
    case 1 => [Load(TimeGps, 0, 1, 8)]
    case 2 => [Load(GpsTowNs, 0, 1, 8)]
    case 3 => [Load(GpsWeek, 0, 1, 2)]
    case 4 => [Load(TimeSyncIn, 0, 1, 8)]
    case 5 => [Load(TimeGpsPps, 0, 1, 8)]
    case 6 => [Load(TimeUtc, 0, 6, 1), Load(TimeUtc, 6, 1, 2)]
    case 7 => [Load(SyncInCnt, 0, 1, 4)]
    case _ => []
  }

  function Layout3(i: nat): seq<Item> {
    match i
    case 0 => [Skip(8)]
    case 1 => [Load(MagneticUncompensated, 0, 3, 4)]
    case 2 => [Load(AccelerationUncompensated, 0, 3, 4)]
    case 3 => [Load(AngularRateUncompensated, 0, 3, 4)]
    case 4 => [Load(Temperature, 0, 1, 4)]
    case 5 => [Load(Pressure, 0, 1, 4)]
    case 6 => [Load(DeltaTime, 0, 1, 4), Load(DeltaTheta, 0, 3, 4)]
    case 7 => [Load(DeltaVelocity, 0, 3, 4)]
    case 8 => [Load(Magnetic, 0, 3, 4)]
    case 9 => [Load(Acceleration, 0, 3, 4)]
    case 10 => [Load(AngularRate, 0, 3, 4)]
    case 11 => [Load(SensSat, 0, 1, 2)]
    case _ => []
  }

  function Layout4(i: nat): seq<Item> {
    match i
    case 0 => [Load(TimeUtc, 0, 6, 1), Load(TimeUtc, 6, 1, 2)]
    case 1 => [Load(GpsTowNs, 0, 1, 8)]
    case 2 => [Load(GpsWeek, 0, 1, 2)]
    case 3 => [Load(NumSats, 0, 1, 1)]
    case 4 => [Load(GpsFix, 0, 1, 1)]
    case 5 => [Load(GpsPosLla, 0, 3, 8)]
    case 6 => [Load(GpsPosEcef, 0, 3, 8)]
    case 7 => [Load(GpsVelocity, 0, 3, 4)]
    case 8 => [Load(GpsVelEcef, 0, 3, 4)]
    case 9 => [Load(GpsPosU, 0, 3, 4)]
    case 10 => [Load(GpsVelU, 0, 1, 4)]
    case 11 => [Load(TimeU, 0, 1, 4)]
    case _ => []
  }

  function Layout5(i: nat): seq<Item> {
    match i
    case 0 => [Load(VpeStatus, 0, 1, 2)]
    case 1 => [Load(Ypr, 0, 3, 4)]
    case 2 => [Load(Quaternion, 0, 4, 4)]
    case 3 => [Load(Dcm, 0, 9, 4)]
    case 4 => [Load(MagNed, 0, 3, 4)]
    case 5 => [Load(AccelNed, 0, 3, 4)]
    case 6 => [Load(LinearAccelBody, 0, 3, 4)]
    case 7 => [Load(LinearAccelNed, 0, 3, 4)]
    case 8 => [Load(YprU, 0, 3, 4)]
    case _ => []
  }

  function Layout6(i: nat): seq<Item> {
    match i
    case 0 => [Load(InsStatus, 0, 1, 2)]
    case 1 => [Load(LatLonAlt, 0, 3, 8)]
    case 2 => [Load(PosEcef, 0, 3, 8)]
    case 3 => [Load(VelBody, 0, 3, 4)]
    case 4 => [Load(VelNed, 0, 3, 4)]
    case 5 => [Load(VelEcef, 0, 3, 4)]
    case 6 => [Load(MagEcef, 0, 3, 4)]
    case 7 => [Load(AccelEcef, 0, 3, 4)]
    case 8 => [Load(LinearAccelEcef, 0, 3, 4)]
    case 9 => [Load(PosU, 0, 1, 4)]
    case 10 => [Load(VelU, 0, 1, 4)]
    case _ => []
  }

  // ---------------------------------------------------------------------------
  // Widths
  // ---------------------------------------------------------------------------

  function ItemWidth(item: Item): nat {
    if item.Load? then item.count * item.size else item.size
  }

  function Width(items: seq<Item>): nat {
    if items == [] then 0 else ItemWidth(items[0]) + Width(items[1..])
  }

  lemma {:induction false} WidthConcat(a: seq<Item>, b: seq<Item>)
    ensures Width(a + b) == Width(a) + Width(b)
  {
    if a == [] {
      assert a + b == b;
    } else {
      assert (a + b)[1..] == a[1..] + b;
      WidthConcat(a[1..], b);
    }
  }

  /** What a group's decoder walks over for the selected bits below n. */
  function GroupItems(g: nat, field: Word, n: nat): seq<Item>
    requires n <= 16
  {
    if n == 0 then []
    else GroupItems(g, field, n - 1) + if Bit(field, n - 1) then Layout(g, n - 1) else []
  }

  /** Selection bits whose table length is not what the decoder walks over: the IMU status
      of group 3, and bits the table knows but no decoder does. */
  predicate Disagrees(g: nat, i: nat) {
    || (g == 2 && (i == 0 || i == 12))
    || (g == 3 && i == 12)
    || (g == 4 && 9 <= i <= 11)
    || (g == 5 && 11 <= i <= 12)
  }

  /** A length the table gives to a selection that no decoder knows. */
  function Unknown(g: nat, i: nat): nat
    requires g < NUMBER_OF_GROUPS && i < 16
  {
    if g == 2 && i == 12 then 40
    else if g == 3 && i == 12 then 32
    else if g == 4 && 9 <= i <= 11 then (if i == 9 then 12 else if i == 10 then 28 else 24)
    else if g == 5 && 11 <= i <= 12 then (if i == 11 then 68 else 64)
    else 0
  }

  /** The table and the decoder, selection by selection. */
  lemma WidthVersusTable(g: nat, i: nat)
    requires g < NUMBER_OF_GROUPS && i < 16
    ensures Width(Layout(g, i)) + Unknown(g, i) == TableLength(g, i) + if g == 2 && i == 0 then 6 else 0
    ensures Unknown(g, i) % 4 == 0 && (Unknown(g, i) > 0 <==> Disagrees(g, i) && !(g == 2 && i == 0))
  {
    match g
    case 0 => Width1(i);
    case 1 => Width2(i);
    case 2 => Width3(i);
    case 3 => Width4(i);
    case 4 => Width5(i);
    case 5 => Width6(i);
  }

  lemma WidthOfTwo(a: Item, b: Item)
    ensures Width([a, b]) == ItemWidth(a) + ItemWidth(b)
  {
    WidthConcat([a], [b]);
    assert [a, b] == [a] + [b];
  }

  lemma WidthOfThree(a: Item, b: Item, c: Item)
    ensures Width([a, b, c]) == ItemWidth(a) + ItemWidth(b) + ItemWidth(c)
  {
    WidthOfTwo(a, b);
    WidthConcat([a, b], [c]);
    assert [a, b, c] == [a, b] + [c];
  }

  lemma Width1(i: nat)
    requires i < 16
    ensures Width(Layout1(i)) + Unknown(0, i) == TableLength(0, i)
  {
    if i == 9 { WidthOfTwo(Load(AngularRateUncompensated, 0, 3, 4), Load(AccelerationUncompensated, 0, 3, 4)); }
    if i == 10 { WidthOfThree(Load(Magnetic, 0, 3, 4), Load(Temperature, 0, 1, 4), Load(Pressure, 0, 1, 4)); }
    if i == 11 { WidthOfThree(Load(DeltaTime, 0, 1, 4), Load(DeltaTheta, 0, 3, 4), Load(DeltaVelocity, 0, 3, 4)); }
  }

  lemma Width2(i: nat)
    requires i < 16
    ensures Width(Layout2(i)) + Unknown(1, i) == TableLength(1, i)
  {
    if i == 6 { WidthOfTwo(Load(TimeUtc, 0, 6, 1), Load(TimeUtc, 6, 1, 2)); }
  }

  lemma Width3(i: nat)
    requires i < 16
    ensures Width(Layout3(i)) + Unknown(2, i) == TableLength(2, i) + if i == 0 then 6 else 0
  {
    if i == 6 { WidthOfTwo(Load(DeltaTime, 0, 1, 4), Load(DeltaTheta, 0, 3, 4)); }
  }

  lemma Width4(i: nat)
    requires i < 16
    ensures Width(Layout4(i)) + Unknown(3, i) == TableLength(3, i)
  {
    if i == 0 { WidthOfTwo(Load(TimeUtc, 0, 6, 1), Load(TimeUtc, 6, 1, 2)); }
  }

  lemma Width5(i: nat)
    requires i < 16
    ensures Width(Layout5(i)) + Unknown(4, i) == TableLength(4, i)
  {
  }

  lemma Width6(i: nat)
    requires i < 16
    ensures Width(Layout6(i)) + Unknown(5, i) == TableLength(5, i)
  {
  }

  // ---------------------------------------------------------------------------
  // The members as bytes
  // ---------------------------------------------------------------------------

  /** How many components a member has. */
  function Parts(f: Field): nat {
    match f
    case Dcm => 9
    case TimeUtc => 7
    case Quaternion => 4
    case Ypr | AngularRate | LatLonAlt | Velocity | Acceleration | AngularRateUncompensated => 3
    case AccelerationUncompensated | MagneticUncompensated | Magnetic | DeltaTheta | DeltaVelocity => 3
    case GpsPosLla | GpsPosEcef | GpsVelocity | GpsVelEcef | GpsPosU | MagNed | AccelNed => 3
    case LinearAccelBody | LinearAccelNed | YprU | PosEcef | VelBody | VelNed | VelEcef => 3
    case MagEcef | AccelEcef | LinearAccelEcef | MagneticVoltage | AccelerationVoltage => 3
    case AngularRateVoltage | AngularRateBias | AttitudeVariance | AngularRateBiasVariance => 3
    case _ => 1
  }

  /** How many bytes stand for a component: those a binary packet brings, which the structure
      may hold widened, or its own if only text packets fill it. */
  function PartSize(f: Field, part: nat): nat {
    match f
    case TimeUtc => if part < 6 then 1 else 2
    case NumSats | GpsFix => 1
    case InsStatus | GpsWeek | SensSat | VpeStatus => 2
    case TimeStartup | TimeGps | TimeSyncIn | TimeGpsPps | GpsTowNs => 8
    case LatLonAlt | GpsPosLla | GpsPosEcef | PosEcef => 8
    case MagneticVoltage | AccelerationVoltage | AngularRateVoltage | TemperatureVoltage => 8
    case AngularRateBias | AttitudeVariance | AngularRateBiasVariance | GpsTowSec => 8
    case _ => 4
  }

  /** An item loads components that exist, each with its size. */
  ghost predicate WellSized(item: Item) {
    item.Load? ==>
      && item.first + item.count <= Parts(item.field)
      && forall part :: item.first <= part < item.first + item.count ==> PartSize(item.field, part) == item.size
  }

  ghost predicate AllWellSized(items: seq<Item>) {
    forall k :: 0 <= k < |items| ==> WellSized(items[k])
  }

  lemma Layout1Sized(i: nat)
    ensures AllWellSized(Layout1(i))
  {
  }

  lemma Layout2Sized(i: nat)
    ensures AllWellSized(Layout2(i))
  {
  }

  lemma Layout3Sized(i: nat)
    ensures AllWellSized(Layout3(i))
  {
  }

  lemma Layout4Sized(i: nat)
    ensures AllWellSized(Layout4(i))
  {
  }

  lemma Layout5Sized(i: nat)
    ensures AllWellSized(Layout5(i))
  {
  }

  lemma Layout6Sized(i: nat)
    ensures AllWellSized(Layout6(i))
  {
  }

  lemma LayoutSized(g: nat, i: nat)
    ensures AllWellSized(Layout(g, i))
  {
    Layout1Sized(i);
    Layout2Sized(i);
    Layout3Sized(i);
    Layout4Sized(i);
    Layout5Sized(i);
    Layout6Sized(i);
    hide Layout1, Layout2, Layout3, Layout4, Layout5, Layout6, WellSized;
  }

  lemma {:induction false} GroupSized(g: nat, field: Word, n: nat)
    requires n <= 16
    ensures AllWellSized(GroupItems(g, field, n))
  {
    hide Layout, WellSized;
    if n == 0 {
    } else {
      GroupSized(g, field, n - 1);
      LayoutSized(g, n - 1);
    }
  }

  // ---------------------------------------------------------------------------
  // A group carries a component at most once
  // ---------------------------------------------------------------------------

  /** The selection bit of a group that brings a member, 16 if none does. */
  function Home(g: nat, f: Field): nat {
    match g
    case 0 => Home1(f)
    case 1 => Home2(f)
    case 2 => Home3(f)
    case 3 => Home4(f)
    case 4 => Home5(f)
    case 5 => Home6(f)
    case _ => 16
  }

  function Home1(f: Field): nat {
    match f
    case TimeStartup => 0
    case TimeGps => 1
    case TimeSyncIn => 2
    case Ypr => 3
    case Quaternion => 4
    case AngularRate => 5
    case LatLonAlt => 6
    case Velocity => 7
    case Acceleration => 8
    case AngularRateUncompensated | AccelerationUncompensated => 9
    case Magnetic | Temperature | Pressure => 10
    case DeltaTime | DeltaTheta | DeltaVelocity => 11
    case InsStatus => 12
    case SyncInCnt => 13
    case TimeGpsPps => 14
    case _ => 16
  }

  function Home2(f: Field): nat {
    match f
    case TimeStartup => 0
    case TimeGps => 1
    case GpsTowNs => 2
    case GpsWeek => 3
    case TimeSyncIn => 4
    case TimeGpsPps => 5
    case TimeUtc => 6
    case SyncInCnt => 7
    case _ => 16
  }

  function Home3(f: Field): nat {
    match f
    case MagneticUncompensated => 1
    case AccelerationUncompensated => 2
    case AngularRateUncompensated => 3
    case Temperature => 4
    case Pressure => 5
    case DeltaTime | DeltaTheta => 6
    case DeltaVelocity => 7
    case Magnetic => 8
    case Acceleration => 9
    case AngularRate => 10
    case SensSat => 11
    case _ => 16
  }

  function Home4(f: Field): nat {
    match f
    case TimeUtc => 0
    case GpsTowNs => 1
    case GpsWeek => 2
    case NumSats => 3
    case GpsFix => 4
    case GpsPosLla => 5
    case GpsPosEcef => 6
    case GpsVelocity => 7
    case GpsVelEcef => 8
    case GpsPosU => 9
    case GpsVelU => 10
    case TimeU => 11
    case _ => 16
  }

  function Home5(f: Field): nat {
    match f
    case VpeStatus => 0
    case Ypr => 1
    case Quaternion => 2
    case Dcm => 3
    case MagNed => 4
    case AccelNed => 5
    case LinearAccelBody => 6
    case LinearAccelNed => 7
    case YprU => 8
    case _ => 16
  }

  function Home6(f: Field): nat {
    match f
    case InsStatus => 0
    case LatLonAlt => 1
    case PosEcef => 2
    case VelBody => 3
    case VelNed => 4
    case VelEcef => 5
    case MagEcef => 6
    case AccelEcef => 7
    case LinearAccelEcef => 8
    case PosU => 9
    case VelU => 10
    case _ => 16
  }

  predicate Carries(item: Item, slot: Slot) {
    item.Load? && item.field == slot.field && item.first <= slot.part < item.first + item.count
  }

  lemma Layout1Once(i: nat, k: nat, slot: Slot)
    requires k < |Layout1(i)| && Carries(Layout1(i)[k], slot)
    ensures Home1(slot.field) == i
    ensures forall j :: 0 <= j < |Layout1(i)| && Carries(Layout1(i)[j], slot) ==> j == k
  {
  }

  lemma Layout2Once(i: nat, k: nat, slot: Slot)
    requires k < |Layout2(i)| && Carries(Layout2(i)[k], slot)
    ensures Home2(slot.field) == i
    ensures forall j :: 0 <= j < |Layout2(i)| && Carries(Layout2(i)[j], slot) ==> j == k
  {
  }

  lemma Layout3Once(i: nat, k: nat, slot: Slot)
    requires k < |Layout3(i)| && Carries(Layout3(i)[k], slot)
    ensures Home3(slot.field) == i
    ensures forall j :: 0 <= j < |Layout3(i)| && Carries(Layout3(i)[j], slot) ==> j == k
  {
  }

  lemma Layout4Once(i: nat, k: nat, slot: Slot)
    requires k < |Layout4(i)| && Carries(Layout4(i)[k], slot)
    ensures Home4(slot.field) == i
    ensures forall j :: 0 <= j < |Layout4(i)| && Carries(Layout4(i)[j], slot) ==> j == k
  {
  }

  lemma Layout5Once(i: nat, k: nat, slot: Slot)
    requires k < |Layout5(i)| && Carries(Layout5(i)[k], slot)
    ensures Home5(slot.field) == i
    ensures forall j :: 0 <= j < |Layout5(i)| && Carries(Layout5(i)[j], slot) ==> j == k
  {
  }

  lemma Layout6Once(i: nat, k: nat, slot: Slot)
    requires k < |Layout6(i)| && Carries(Layout6(i)[k], slot)
    ensures Home6(slot.field) == i
    ensures forall j :: 0 <= j < |Layout6(i)| && Carries(Layout6(i)[j], slot) ==> j == k
  {
  }

  lemma LayoutOnce(g: nat, i: nat, k: nat, slot: Slot)
    requires g < NUMBER_OF_GROUPS && k < |Layout(g, i)| && Carries(Layout(g, i)[k], slot)
    ensures Home(g, slot.field) == i
    ensures forall j :: 0 <= j < |Layout(g, i)| && Carries(Layout(g, i)[j], slot) ==> j == k
  {
    match g
    case 0 => Layout1Once(i, k, slot);
    case 1 => Layout2Once(i, k, slot);
    case 2 => Layout3Once(i, k, slot);
    case 3 => Layout4Once(i, k, slot);
    case 4 => Layout5Once(i, k, slot);
    case 5 => Layout6Once(i, k, slot);
  }

  lemma {:induction false} CarrierIsSelected(g: nat, field: Word, n: nat, k: nat, slot: Slot)
    requires g < NUMBER_OF_GROUPS && n <= 16
    requires k < |GroupItems(g, field, n)| && Carries(GroupItems(g, field, n)[k], slot)
    ensures Home(g, slot.field) < n && Bit(field, Home(g, slot.field))
  {
    hide Layout, Home, Carries;
    if n == 0 {
    } else {
      var before := |GroupItems(g, field, n - 1)|;
      if k < before {
        CarrierIsSelected(g, field, n - 1, k, slot);
      } else {
        LayoutOnce(g, n - 1, k - before, slot);
      }
    }
  }

  /** Within one group at most one selected item carries a component. */
  lemma {:induction false} GroupCarriesOnce(g: nat, field: Word, n: nat, j: nat, k: nat, slot: Slot)
    requires g < NUMBER_OF_GROUPS && n <= 16 && j <= k < |GroupItems(g, field, n)|
    requires Carries(GroupItems(g, field, n)[j], slot) && Carries(GroupItems(g, field, n)[k], slot)
    ensures j == k
  {
    hide Layout, Home, Carries;
    if n == 0 {
    } else {
      var before := |GroupItems(g, field, n - 1)|;
      if k < before {
        GroupCarriesOnce(g, field, n - 1, j, k, slot);
      } else {
        LayoutOnce(g, n - 1, k - before, slot);
        if j < before {
          CarrierIsSelected(g, field, n - 1, j, slot);
        }
      }
    }
  }
}
