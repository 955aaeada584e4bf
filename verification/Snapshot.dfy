/** The store of the latest asynchronous data, copied in and out under a critical section.

    The structure is copied byte by byte here, so that any finer or coarser copy is covered;
    the receive thread writes, any number of user threads read. */
module Snapshot {
  import opened Bytes
  import opened PacketLayout
  import opened Sequences
  import opened CompositeData
  import opened Decoder
  import opened Framer
  import opened PacketDecoder
  import opened RoundTrip
  import opened AsyncText

  // ---------------------------------------------------------------------------
  // The structure as bytes
  // ---------------------------------------------------------------------------

  /** One byte of one component of a VnDeviceCompositeData. */
  datatype Place = Place(slot: Slot, offset: nat)

  function Places(): set<Place> {
    set f: Field, part, b | 0 <= part < Parts(f) && 0 <= b < PartSize(f, part) :: Place(Slot(f, part), b)
  }

  /** A byte for every place. */
  type Image = map<Place, Byte>

  ghost predicate IsImage(m: Image) {
    m.Keys == Places()
  }

  function ByteOfSlot(d: Data, at: Place): Byte {
    if at.slot in d && at.offset < |d[at.slot]| then d[at.slot][at.offset] else 0
  }

  function ImageOf(d: Data): (m: Image)
    ensures IsImage(m) && forall at :: at in m ==> m[at] == ByteOfSlot(d, at)
  {
    map at | at in Places() :: ByteOfSlot(d, at)
  }

  /** The structure cleared by memset. */
  function Cleared(): Image {
    ImageOf(map[])
  }

  lemma {:induction false} PacketSized(p: seq<Byte>, n: nat)
    requires HasHeader(p) && n <= NUMBER_OF_GROUPS
    ensures AllWellSized(PacketItems(p, n))
  {
    hide GroupItems, WellSized, FieldOf, HasGroup;
    if n == 0 {
    } else {
      PacketSized(p, n - 1);
      if HasGroup(p[1], n - 1) { GroupSized(n - 1, FieldOf(p, n - 1), 16); }
    }
  }

  /** Every component of the data has all its bytes in the image, each in a place of its own,
      and everything else is zero. */
  ghost predicate Holds(m: Image, d: Data) {
    && (forall slot :: slot in d ==> HoldsSlot(m, slot, d[slot]))
    && forall at :: at in m && at.slot !in d ==> m[at] == 0
  }

  ghost predicate HoldsSlot(m: Image, slot: Slot, value: seq<Byte>) {
    && |value| == PartSize(slot.field, slot.part)
    && forall b :: 0 <= b < |value| ==> Place(slot, b) in m && m[Place(slot, b)] == value[b]
  }

  /** The components exist and have their sizes. */
  ghost predicate IsSized(d: Data) {
    forall slot :: slot in d ==> slot.part < Parts(slot.field) && |d[slot]| == PartSize(slot.field, slot.part)
  }

  lemma ImageHolds(d: Data)
    requires IsSized(d)
    ensures Holds(ImageOf(d), d)
  {
    hide Parts, PartSize;
  }

  lemma DecodeIsSized(p: seq<Byte>)
    requires HasHeader(p) && DataEnd(p) <= |p|
    ensures IsSized(DecodePacket(p))
  {
    hide PacketItems, Width, LoadItems, HeaderLength, LastCarrier, Parts, PartSize;
    PacketSized(p, NUMBER_OF_GROUPS);
    var d, items := DecodePacket(p), PacketItems(p, NUMBER_OF_GROUPS);
    forall slot | slot in d
      ensures slot.part < Parts(slot.field) && |d[slot]| == PartSize(slot.field, slot.part)
    {
      Loaded(items, p, HeaderLength(p[1]), slot);
      assert WellSized(items[LastCarrier(items, slot)]);
    }
  }

  /** The image of a decode has the bytes of every component that was decoded, and zeros
      everywhere else. */
  lemma ImageHoldsDecode(p: seq<Byte>)
    requires HasHeader(p) && DataEnd(p) <= |p|
    ensures Holds(ImageOf(DecodePacket(p)), DecodePacket(p))
  {
    hide HasHeader, DataEnd, DecodePacket, Holds, IsSized;
    DecodeIsSized(p);
    ImageHolds(DecodePacket(p));
  }

  // ---------------------------------------------------------------------------
  // The threads
  // ---------------------------------------------------------------------------

  /** Between packets; holding a decoded structure; in the critical section, with the places
      still to be copied. */
  datatype Writer = Resting | Ready(data: Image) | Storing(data: Image, left: set<Place>)

  datatype Reader = Outside(curData: Image) | Reading(curData: Image, left: set<Place>)

  datatype Thread = ReceiveThread | UserThread(i: nat)

  datatype Holder = Free | HeldBy(thread: Thread)

  datatype System = System(latest: Image, writer: Writer, readers: seq<Reader>, lock: Holder)

  /** A binary packet comes in the receive buffer; numbers is what the fields of a text packet
      are converted to. The copies take the places in any order. */
  datatype Step =
    | BinaryPacket(buffer: seq<Byte>)
    | TextPacket(packet: Packet, numbers: Data)
    | EnterToStore | StoreByte(at: Place) | LeaveStore
    | EnterToRead(i: nat) | ReadByte(i: nat, at: Place) | LeaveRead(i: nat)

  /** A number for every component that the packet has a field for, if it is complete. */
  ghost predicate IsConversion(packet: Packet, numbers: Data) {
    IsComplete(packet) ==> numbers.Keys == TextValues(packet).value.Keys && IsSized(numbers)
  }

  ghost predicate CanStep(s: System, e: Step) {
    match e
    case BinaryPacket(buffer) => s.writer.Resting? && HasHeader(buffer) && DataEnd(buffer) <= |buffer|
    case TextPacket(packet, numbers) => s.writer.Resting? && IsConversion(packet, numbers)
    case EnterToStore => s.writer.Ready? && s.lock == Free
    case StoreByte(at) => s.writer.Storing? && at in s.writer.left && at in s.writer.data
    case LeaveStore => s.writer.Storing? && s.writer.left == {}
    case EnterToRead(i) => i < |s.readers| && s.readers[i].Outside? && s.lock == Free
    case ReadByte(i, at) => i < |s.readers| && s.readers[i].Reading? && at in s.readers[i].left && at in s.latest
    case LeaveRead(i) => i < |s.readers| && s.readers[i].Reading? && s.readers[i].left == {}
  }

  ghost function DoStep(s: System, e: Step): System
    requires CanStep(s, e)
  {
    match e
    case BinaryPacket(buffer) => s.(writer := Ready(ImageOf(DecodePacket(buffer))))
    case TextPacket(packet, numbers) =>
      if IsComplete(packet) then s.(writer := Ready(ImageOf(numbers))) else s
    case EnterToStore => s.(writer := Storing(s.writer.data, Places()), lock := HeldBy(ReceiveThread))
    case StoreByte(at) =>
      s.(latest := s.latest[at := s.writer.data[at]], writer := Storing(s.writer.data, s.writer.left - {at}))
    case LeaveStore => s.(writer := Resting, lock := Free)
    case EnterToRead(i) =>
      s.(readers := s.readers[i := Reading(s.readers[i].curData, Places())], lock := HeldBy(UserThread(i)))
    case ReadByte(i, at) =>
      var r := s.readers[i];
      s.(readers := s.readers[i := Reading(r.curData[at := s.latest[at]], r.left - {at})])
    case LeaveRead(i) => s.(readers := s.readers[i := Outside(s.readers[i].curData)], lock := Free)
  }

  ghost predicate IsHistory(run: seq<Step>, start: System)
    decreases |run|, 0
  {
    run == [] || (
      var n := |run| - 1;
      IsHistory(run[..n], start) && CanStep(Reached(run[..n], start), run[n]))
  }

  ghost function Reached(run: seq<Step>, start: System): System
    requires IsHistory(run, start)
    decreases |run|, 1
  {
    if run == [] then start else DoStep(Reached(run[..|run| - 1], start), run[|run| - 1])
  }

  // ---------------------------------------------------------------------------
  // What has been decoded and what has been stored
  // ---------------------------------------------------------------------------

  /** What a step decodes. */
  ghost function Offered(e: Step): Option<Image> {
    match e
    case BinaryPacket(buffer) =>
      if HasHeader(buffer) && DataEnd(buffer) <= |buffer| then Some(ImageOf(DecodePacket(buffer))) else None
    case TextPacket(packet, numbers) => if IsComplete(packet) then Some(ImageOf(numbers)) else None
    case _ => None
  }

  ghost function OfferedAfter(e: Step, offered: Image): Image {
    match Offered(e)
    case Some(m) => m
    case None => offered
  }

  ghost function StoredAfter(e: Step, stored: Image, offered: Image): Image {
    if e.LeaveStore? then offered else stored
  }

  /** The structure decoded last. */
  ghost function LastOffered(run: seq<Step>): Image {
    if run == [] then Cleared() else OfferedAfter(run[|run| - 1], LastOffered(run[..|run| - 1]))
  }

  /** The structure whose copy into the store was completed last, zeros before the first. */
  ghost function LastStored(run: seq<Step>): Image {
    if run == [] then Cleared()
    else
      var before := run[..|run| - 1];
      StoredAfter(run[|run| - 1], LastStored(before), LastOffered(before))
  }

  ghost predicate WriterConsistent(s: System, stored: Image, offered: Image) {
    && IsImage(stored) && IsImage(offered) && IsImage(s.latest)
    && (s.lock == HeldBy(ReceiveThread) <==> s.writer.Storing?)
    && match s.writer
       case Resting => s.latest == stored
       case Ready(data) => s.latest == stored && data == offered
       case Storing(data, left) =>
         data == offered && forall at :: at in s.latest && at !in left ==> s.latest[at] == data[at]
  }

  ghost predicate ReadersConsistent(s: System) {
    && (s.lock.HeldBy? && s.lock.thread.UserThread? ==>
          s.lock.thread.i < |s.readers| && s.readers[s.lock.thread.i].Reading?)
    && forall i :: 0 <= i < |s.readers| ==> ReaderConsistent(s, s.readers[i], i)
  }

  ghost predicate ReaderConsistent(s: System, r: Reader, i: nat) {
    && r.curData.Keys == s.latest.Keys
    && (r.Reading? ==>
          && s.lock == HeldBy(UserThread(i))
          && forall at :: at in s.latest && at !in r.left ==> r.curData[at] == s.latest[at])
  }

  lemma WriterStaysConsistent(s: System, e: Step, stored: Image, offered: Image)
    requires CanStep(s, e) && WriterConsistent(s, stored, offered) && ReadersConsistent(s)
    ensures WriterConsistent(DoStep(s, e), StoredAfter(e, stored, offered), OfferedAfter(e, offered))
  {
    hide IsComplete, Places, DecodePacket, HasHeader, DataEnd, ImageOf;
    if e.LeaveStore? {
      assert s.latest == offered;
    }
  }

  lemma ReadersStayConsistent(s: System, e: Step, stored: Image, offered: Image)
    requires CanStep(s, e) && WriterConsistent(s, stored, offered) && ReadersConsistent(s)
    ensures ReadersConsistent(DoStep(s, e))
  {
    hide IsComplete, Places, DecodePacket, HasHeader, DataEnd, ImageOf;
    var t := DoStep(s, e);
    forall i | 0 <= i < |t.readers| ensures ReaderConsistent(t, t.readers[i], i) {
      assert ReaderConsistent(s, s.readers[i], i);
    }
  }

  /** Where a system may start: the store zeroed and everybody outside. */
  ghost predicate IsStart(s: System) {
    && s.latest == Cleared() && s.writer.Resting? && s.lock == Free
    && forall i :: 0 <= i < |s.readers| ==> s.readers[i].Outside? && IsImage(s.readers[i].curData)
  }

  lemma {:induction false} AlwaysConsistent(run: seq<Step>, start: System)
    requires IsStart(start) && IsHistory(run, start)
    ensures ReadersConsistent(Reached(run, start))
    ensures WriterConsistent(Reached(run, start), LastStored(run), LastOffered(run))
  {
    hide DoStep, CanStep, WriterConsistent, ReadersConsistent, IsStart, OfferedAfter, StoredAfter;
    if run == [] {
      StartsConsistent(start);
    } else {
      var n := |run| - 1;
      AlwaysConsistent(run[..n], start);
      var s := Reached(run[..n], start);
      WriterStaysConsistent(s, run[n], LastStored(run[..n]), LastOffered(run[..n]));
      ReadersStayConsistent(s, run[n], LastStored(run[..n]), LastOffered(run[..n]));
    }
  }

  lemma StartsConsistent(start: System)
    requires IsStart(start)
    ensures WriterConsistent(start, Cleared(), Cleared()) && ReadersConsistent(start)
  {
    hide Places, ImageOf;
  }

  // ---------------------------------------------------------------------------
  // Main results
  // ---------------------------------------------------------------------------

  /** What a reader takes away is the structure stored last, never a mix of two. */
  lemma SnapshotIsWhole(run: seq<Step>, start: System, i: nat)
    requires IsStart(start) && IsHistory(run + [LeaveRead(i)], start)
    ensures IsHistory(run, start) && i < |Reached(run, start).readers|
    ensures Reached(run, start).readers[i].curData == LastStored(run)
  {
    var longer := run + [LeaveRead(i)];
    assert longer[..|longer| - 1] == run && longer[|longer| - 1] == LeaveRead(i);
    AlwaysConsistent(run, start);
    hide Reached, LastStored, LastOffered, Places;
    var s := Reached(run, start);
    assert ReaderConsistent(s, s.readers[i], i);
    assert s.readers[i].curData == s.latest;
  }

  lemma {:induction false} OfferedIsOnePacket(run: seq<Step>) returns (j: int)
    ensures -1 <= j < |run|
    ensures j < 0 ==> LastOffered(run) == Cleared()
    ensures j >= 0 ==> Offered(run[j]) == Some(LastOffered(run))
  {
    hide Offered, Cleared;
    if run == [] {
      j := -1;
    } else {
      var n := |run| - 1;
      j := OfferedIsOnePacket(run[..n]);
      if Offered(run[n]).Some? { j := n; }
    }
  }

  lemma {:induction false} StoredIsOnePacket(run: seq<Step>) returns (j: int)
    ensures -1 <= j < |run|
    ensures j < 0 ==> LastStored(run) == Cleared()
    ensures j >= 0 ==> Offered(run[j]) == Some(LastStored(run))
  {
    hide Offered, Cleared, LastOffered;
    if run == [] {
      j := -1;
    } else {
      var n := |run| - 1;
      if run[n].LeaveStore? {
        j := OfferedIsOnePacket(run[..n]);
      } else {
        j := StoredIsOnePacket(run[..n]);
      }
    }
  }

  lemma {:induction false} StepsHappened(run: seq<Step>, start: System, j: nat)
    requires IsHistory(run, start) && j < |run|
    ensures IsHistory(run[..j], start) && CanStep(Reached(run[..j], start), run[j])
  {
    hide CanStep, DoStep, Reached;
    var n := |run| - 1;
    if j == n {
    } else {
      StepsHappened(run[..n], start, j);
      assert run[..n][..j] == run[..j];
    }
  }

  /** In every history, what a reader takes away holds exactly the decode of one binary packet
      that had arrived, or one number for every field of one complete text packet, or nothing
      but zeros. */
  lemma SnapshotIsOneDecode(run: seq<Step>, start: System, i: nat) returns (j: int)
    requires IsStart(start) && IsHistory(run + [LeaveRead(i)], start)
    ensures IsHistory(run, start) && i < |Reached(run, start).readers| && -1 <= j < |run|
    ensures var taken := Reached(run, start).readers[i].curData;
      && IsImage(taken)
      && if j < 0 then Holds(taken, map[])
         else match run[j]
           case BinaryPacket(p) => HasHeader(p) && DataEnd(p) <= |p| && Holds(taken, DecodePacket(p))
           case TextPacket(packet, numbers) =>
             IsComplete(packet) && numbers.Keys == TextValues(packet).value.Keys && Holds(taken, numbers)
           case _ => false
  {
    SnapshotIsWhole(run, start, i);
    hide ImageOf, HasHeader, DataEnd, DecodePacket, TextValues, Reached, LastStored, IsHistory, IsStart, Holds, IsSized;
    j := StoredIsOnePacket(run);
    if j < 0 {
      NothingIsSized();
      ImageHolds(map[]);
    } else {
      StepsHappened(run, start, j);
      match run[j] {
        case BinaryPacket(p) => ImageHoldsDecode(p);
        case TextPacket(_, numbers) => ImageHolds(numbers);
        case _ =>
      }
    }
  }

  lemma NothingIsSized()
    ensures IsSized(map[])
  {
  }

  /** It is what was stored last when the reader entered: while the reader is inside, no
      store is completed. */
  lemma {:induction false} NothingStoredMeanwhile(run: seq<Step>, more: seq<Step>, start: System, i: nat)
    requires IsStart(start) && IsHistory(run, start) && IsHistory(run + more, start)
    requires Reached(run, start).lock == HeldBy(UserThread(i))
    requires forall j :: 0 <= j < |more| ==> more[j] != LeaveRead(i)
    ensures Reached(run + more, start).lock == HeldBy(UserThread(i))
    ensures LastStored(run + more) == LastStored(run)
  {
    hide DoStep, CanStep, WriterConsistent, ReadersConsistent, IsStart, LastOffered;
    if more == [] {
      assert run + more == run;
    } else {
      var n := |more| - 1;
      var before := run + more[..n];
      assert (run + more)[..|run + more| - 1] == before;
      NothingStoredMeanwhile(run, more[..n], start, i);
      AlwaysConsistent(before, start);
      LockKept(Reached(before, start), more[n], i, LastStored(before), LastOffered(before));
    }
  }

  lemma LockKept(s: System, e: Step, i: nat, stored: Image, offered: Image)
    requires CanStep(s, e) && WriterConsistent(s, stored, offered) && ReadersConsistent(s)
    requires s.lock == HeldBy(UserThread(i)) && e != LeaveRead(i)
    ensures !e.LeaveStore? && DoStep(s, e).lock == s.lock
  {
    hide Places, ImageOf, IsComplete, HasHeader, DataEnd, DecodePacket;
  }
}
