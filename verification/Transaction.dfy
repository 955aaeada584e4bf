/** The handshake between a user thread in vndevice_transaction and the receive thread.

    One dispatched packet is one step of the receive thread, the event a binary semaphore,
    and the wait has no timeout. */
module Transaction {
  import opened Bytes
  import opened Framer
  import opened Demultiplexing
  import opened Commands
  import opened Sequences
  import opened StringRoutines

  /** The fields of VnDevice the two threads share. written is what went out on the port,
      handedOn the packets passed to the asynchronous-data parser. */
  datatype Device = Device(
    sensorError: nat, checkForResponse: bool, responseMatch: seq<Byte>, responseBuffer: seq<Byte>,
    signaled: bool, written: seq<Byte>, handedOn: seq<Packet>)

  /** Where the user thread is: it has cleared the error, enabled checking, written the
      command, written the tail and waits, been woken up. */
  datatype Stage = Idle | Cleared | Checking | CommandWritten | Waiting | Woken

  /** alive: no thread has crashed. */
  datatype World = World(device: Device, stage: Stage, cmd: Command, wanted: seq<Byte>, alive: bool)

  datatype Event =
    | Begin(cmd: Command, wanted: seq<Byte>)
    | Enable | WriteCommand | WriteTail | Wake | Return
    | Receive(packet: Packet)

  const VNERR: seq<Byte> := [0x56, 0x4E, 0x45, 0x52, 0x52]
  const PERMISSION_DENIED: nat := 7

  // ---------------------------------------------------------------------------
  // The shared fields
  // ---------------------------------------------------------------------------

  /** What strcpy copies. */
  function CString(p: seq<Byte>): seq<Byte> {
    UpTo(p, 0)
  }

  predicate IsError(p: Packet) {
    |p| >= 1 && VNERR <= p[1..]
  }

  predicate Answers(p: Packet, asked: seq<Byte>) {
    |p| >= 1 && asked <= p[1..]
  }

  /** Character by character: "VNERR" behind the first. */
  lemma IsErrorIff(p: Packet)
    ensures IsError(p) <==>
      |p| >= 6 && p[1] == 0x56 && p[2] == 0x4E && p[3] == 0x45 && p[4] == 0x52 && p[5] == 0x52
  {
    if |p| >= 6 {
      assert p[1..][..5] == [p[1], p[2], p[3], p[4], p[5]];
    }
  }

  /** And the match behind the first. */
  lemma AnswersIff(p: Packet, asked: seq<Byte>)
    ensures Answers(p, asked) <==> |p| > |asked| && forall i :: 0 <= i < |asked| ==> p[1 + i] == asked[i]
  {
    if |p| > |asked| {
      assert p[1..][..|asked|] == asked <==> forall i :: 0 <= i < |asked| ==> p[1..][i] == asked[i];
      assert forall i :: 0 <= i < |asked| ==> p[1..][i] == p[1 + i];
    }
  }

  /** The number in an error packet: the text between the first two delimiters, cut to eight
      bits. If there is none, the library is handed a null pointer. */
  function ErrorNumber(p: Packet): Option<Byte> {
    match SecondToken(CString(p), {COMMA, STAR})
    case Some(t) => Some((AtoI(t) % 0x100) as Byte)
    case None => None
  }

  /** Otherwise the receive thread reads through the null pointer. */
  predicate IsHandled(p: Packet) {
    IsError(p) ==> ErrorNumber(p).Some?
  }

  /** The system's code for an error packet. */
  function SystemError(p: Packet): nat {
    match ErrorNumber(p)
    case Some(n) => n as nat + PERMISSION_DENIED
    case None => PERMISSION_DENIED
  }

  function EnableChecking(d: Device, responseMatch: seq<Byte>): Device {
    d.(checkForResponse := true, responseMatch := responseMatch)
  }

  function DisableChecking(d: Device): Device {
    d.(checkForResponse := false, responseMatch := [])
  }

  function ReceivePacket(d: Device, p: Packet): Device {
    if IsError(p) then
      var noted := d.(sensorError := SystemError(p));
      if d.checkForResponse then DisableChecking(noted).(signaled := true) else noted
    else if d.checkForResponse then
      if Answers(p, d.responseMatch) then
        DisableChecking(d).(responseBuffer := CString(p), signaled := true)
      else d
    else d.(handedOn := d.handedOn + [p])
  }

  // ---------------------------------------------------------------------------
  // Runs
  // ---------------------------------------------------------------------------

  const AT_START: World := World(Device(0, false, [], [], false, [], []), Idle, [ASCII_START], [], true)

  predicate CanDo(s: World, e: Event) {
    s.alive && match e
    case Begin(_, _) => s.stage == Idle
    case Enable => s.stage == Cleared
    case WriteCommand => s.stage == Checking
    case WriteTail => s.stage == CommandWritten
    case Wake => s.stage == Waiting && s.device.signaled
    case Return => s.stage == Woken
    case Receive(_) => true
  }

  function Do(s: World, e: Event): World {
    var d := s.device;
    match e
    case Begin(cmd, wanted) => World(d.(sensorError := 0), Cleared, cmd, wanted, s.alive)
    case Enable => s.(device := EnableChecking(d, s.wanted), stage := Checking)
    case WriteCommand => s.(device := d.(written := d.written + s.cmd), stage := CommandWritten)
    case WriteTail => s.(device := d.(written := d.written + Printed(s.cmd)[|s.cmd|..]), stage := Waiting)
    case Wake => s.(device := d.(signaled := false), stage := Woken)
    case Return => s.(stage := Idle)
    case Receive(packet) => if IsHandled(packet) then s.(device := ReceivePacket(d, packet)) else s.(alive := false)
  }

  function After(run: seq<Event>): World {
    if run == [] then AT_START else Do(After(run[..|run| - 1]), run[|run| - 1])
  }

  /** Every event could happen where it did. */
  predicate IsRun(run: seq<Event>) {
    run == [] || (IsRun(run[..|run| - 1]) && CanDo(After(run[..|run| - 1]), run[|run| - 1]))
  }

  // ---------------------------------------------------------------------------
  // What the state says about the run
  // ---------------------------------------------------------------------------

  /** The transaction called last, from its start. */
  ghost predicate LastBegin(run: seq<Event>, b: int) {
    && -1 <= b < |run| && (b >= 0 ==> run[b].Begin?)
    && forall i :: b < i < |run| ==> !run[i].Begin?
  }

  ghost predicate LastEnable(run: seq<Event>, e: int) {
    && -1 <= e < |run| && (e >= 0 ==> run[e].Enable?)
    && forall i :: e < i < |run| ==> !run[i].Enable?
  }

  predicate ReportsError(e: Event) {
    e.Receive? && IsError(e.packet) && IsHandled(e.packet)
  }

  /** A packet that ends the wait of a transaction asking for this match. */
  predicate Decides(e: Event, asked: seq<Byte>) {
    e.Receive? && IsHandled(e.packet) && (IsError(e.packet) || Answers(e.packet, asked))
  }

  /** d is the first deciding packet after e, -1 if there is none yet. */
  ghost predicate FirstDecision(run: seq<Event>, e: int, asked: seq<Byte>, d: int)
    requires -1 <= e < |run|
  {
    if d < 0 then
      d == -1 && (e >= 0 ==> forall i :: e < i < |run| ==> !Decides(run[i], asked))
    else
      0 <= e < d < |run| && Decides(run[d], asked) && forall i :: e < i < d ==> !Decides(run[i], asked)
  }

  ghost predicate NoErrorSince(run: seq<Event>, b: int)
    requires -1 <= b
  {
    forall i :: b < i < |run| ==> !ReportsError(run[i])
  }

  /** Position l holds the last error packet after b. */
  ghost predicate LastError(run: seq<Event>, b: int, l: int)
    requires -1 <= b
  {
    b < l < |run| && ReportsError(run[l]) && NoErrorSince(run, l)
  }

  /** The error is that of the last error packet after b, zero if there is none. */
  ghost predicate ErrorSince(run: seq<Event>, b: int, error: nat)
    requires -1 <= b
  {
    && (error == 0 <==> NoErrorSince(run, b))
    && forall l :: LastError(run, b, l) ==> error == SystemError(run[l].packet)
  }

  /** Positions in a run: the last start, the last enabling, the decision after it and the
      match asked for. */
  datatype Story = Story(begin: int, enable: int, decision: int, asked: seq<Byte>)

  predicate InProgress(stage: Stage) {
    stage == Checking || stage == CommandWritten || stage == Waiting
  }

  ghost predicate Positions(run: seq<Event>, t: Story) {
    && LastBegin(run, t.begin) && LastEnable(run, t.enable)
    && FirstDecision(run, t.enable, t.asked, t.decision)
  }

  ghost predicate UserPart(s: World, run: seq<Event>, t: Story)
    requires Positions(run, t)
  {
    && (s.stage != Idle ==> t.begin >= 0 && run[t.begin] == Begin(s.cmd, s.wanted))
    && (s.stage == Cleared ==> t.enable < t.begin)
    && (InProgress(s.stage) || s.stage == Woken ==> t.begin < t.enable && t.asked == s.wanted)
    && (!InProgress(s.stage) && t.enable >= 0 ==> t.decision >= 0)
    && (s.stage == Woken ==> t.decision >= 0)
    && (0 <= t.begin < t.enable ==> t.asked == run[t.begin].wanted)
  }

  /** Nothing is signalled before a decision, and after one exactly until the user thread
      has been woken. */
  ghost predicate SharedPart(s: World, run: seq<Event>, t: Story)
    requires Positions(run, t)
  {
    var d := s.device;
    if t.enable < 0 then
      !d.checkForResponse && d.responseMatch == [] && !d.signaled && t.decision < 0
    else if t.decision < 0 then
      d.checkForResponse && d.responseMatch == t.asked && !d.signaled
    else
      && !d.checkForResponse && d.responseMatch == [] && (d.signaled <==> InProgress(s.stage))
      && (!IsError(run[t.decision].packet) ==> d.responseBuffer == CString(run[t.decision].packet))
  }

  ghost predicate Explains(run: seq<Event>, t: Story) {
    && Positions(run, t)
    && UserPart(After(run), run, t) && SharedPart(After(run), run, t)
    && ErrorSince(run, t.begin, After(run).device.sensorError)
  }

  // ---------------------------------------------------------------------------
  // Every run is explained
  // ---------------------------------------------------------------------------

  lemma ErrorKept(run: seq<Event>, ev: Event, b: int, error: nat)
    requires -1 <= b < |run| && ErrorSince(run, b, error) && !ReportsError(ev)
    ensures ErrorSince(run + [ev], b, error)
  {
    var longer := run + [ev];
    assert longer[|run|] == ev && longer[..|run|] == run;
    assert forall i :: 0 <= i < |run| ==> longer[i] == run[i];
    forall l | LastError(longer, b, l) ensures LastError(run, b, l) {}
    if NoErrorSince(longer, b) {
      assert forall i :: b < i < |run| ==> run[i] == longer[i];
    }
  }

  lemma ErrorNoted(run: seq<Event>, ev: Event, b: int)
    requires -1 <= b < |run| && ReportsError(ev)
    ensures ErrorSince(run + [ev], b, SystemError(ev.packet))
  {
    var longer := run + [ev];
    assert longer[|run|] == ev;
    forall l | LastError(longer, b, l) ensures l == |run| {}
  }

  lemma ErrorCleared(run: seq<Event>)
    requires |run| > 0
    ensures ErrorSince(run, |run| - 1, 0)
  {
  }

  function StoryAfter(s: World, n: nat, ev: Event, t: Story): Story {
    match ev
    case Begin(_, _) => t.(begin := n)
    case Enable => Story(t.begin, n, -1, s.wanted)
    case Receive(_) => if t.enable >= 0 && t.decision < 0 && Decides(ev, t.asked) then t.(decision := n) else t
    case _ => t
  }

  lemma PositionsAfter(s: World, run: seq<Event>, ev: Event, t: Story)
    requires Positions(run, t)
    ensures Positions(run + [ev], StoryAfter(s, |run|, ev, t))
  {
    var longer := run + [ev];
    assert longer[|run|] == ev && forall i :: 0 <= i < |run| ==> longer[i] == run[i];
  }

  lemma UserPartAfter(s: World, run: seq<Event>, ev: Event, t: Story)
    requires Positions(run, t) && UserPart(s, run, t) && SharedPart(s, run, t) && CanDo(s, ev)
    ensures Positions(run + [ev], StoryAfter(s, |run|, ev, t))
    ensures UserPart(Do(s, ev), run + [ev], StoryAfter(s, |run|, ev, t))
  {
    PositionsAfter(s, run, ev, t);
    var longer := run + [ev];
    assert longer[|run|] == ev && forall i :: 0 <= i < |run| ==> longer[i] == run[i];
    hide Positions, ReceivePacket;
  }

  lemma SharedPartAfter(s: World, run: seq<Event>, ev: Event, t: Story)
    requires Positions(run, t) && UserPart(s, run, t) && SharedPart(s, run, t) && CanDo(s, ev)
    ensures Positions(run + [ev], StoryAfter(s, |run|, ev, t))
    ensures SharedPart(Do(s, ev), run + [ev], StoryAfter(s, |run|, ev, t))
  {
    PositionsAfter(s, run, ev, t);
    var longer := run + [ev];
    assert longer[|run|] == ev && forall i :: 0 <= i < |run| ==> longer[i] == run[i];
  }

  lemma ErrorAfter(s: World, run: seq<Event>, ev: Event, t: Story)
    requires Positions(run, t) && ErrorSince(run, t.begin, s.device.sensorError)
    ensures ErrorSince(run + [ev], StoryAfter(s, |run|, ev, t).begin, Do(s, ev).device.sensorError)
  {
    hide IsHandled, SystemError, IsError, ErrorSince;
    if ev.Begin? {
      ErrorCleared(run + [ev]);
    } else if ReportsError(ev) {
      ErrorNoted(run, ev, t.begin);
    } else {
      ErrorKept(run, ev, t.begin, s.device.sensorError);
    }
  }

  lemma NothingHappened()
    ensures Explains([], Story(-1, -1, -1, []))
  {
  }

  /** The state after any run is accounted for by what happened in it. */
  lemma {:induction false} RunsExplained(run: seq<Event>) returns (t: Story)
    requires IsRun(run)
    ensures Explains(run, t)
  {
    hide Do, CanDo, UserPart, SharedPart, ErrorSince, StoryAfter;
    if run == [] {
      t := Story(-1, -1, -1, []);
      NothingHappened();
    } else {
      var n := |run| - 1;
      var was := RunsExplained(run[..n]);
      var s := After(run[..n]);
      t := StoryAfter(s, n, run[n], was);
      assert run == run[..n] + [run[n]];
      UserPartAfter(s, run[..n], run[n], was);
      SharedPartAfter(s, run[..n], run[n], was);
      ErrorAfter(s, run[..n], run[n], was);
    }
  }

  // ---------------------------------------------------------------------------
  // Error packets
  // ---------------------------------------------------------------------------

  /** An error packet can be handled exactly if it has at least two tokens. */
  lemma IsHandledIff(p: Packet)
    requires IsError(p)
    ensures IsHandled(p) <==> Tokens(CString(p), {COMMA, STAR}, false) >= 2
  {
    AllTokensFound(CString(p), {COMMA, STAR});
  }

  /** One without a number: "$VNERR" and the end characters. */
  function NumberlessError(): Packet {
    [ASCII_START] + VNERR + [CARRIAGE_RETURN, LINE_FEED]
  }

  /** The framer takes it for a frame like any other. */
  lemma NumberlessErrorIsFrame()
    ensures IsTextFrame(NumberlessError()) && IsError(NumberlessError()) && !IsHandled(NumberlessError())
  {
    hide ErrorNumber;
    OneTokenOnly(NumberlessError());
    assert NumberlessError()[1..][..5] == VNERR;
  }

  /** The first such packet ends every run. */
  lemma NumberlessErrorCrashes(run: seq<Event>, p: Packet)
    requires IsRun(run) && After(run).alive && !IsHandled(p)
    ensures IsRun(run + [Receive(p)]) && !After(run + [Receive(p)]).alive
    ensures forall e :: !CanDo(After(run + [Receive(p)]), e)
  {
    hide IsHandled, After, IsRun;
    EventAdded(run, Receive(p));
  }

  lemma EventAdded(run: seq<Event>, e: Event)
    requires IsRun(run) && CanDo(After(run), e)
    ensures IsRun(run + [e]) && After(run + [e]) == Do(After(run), e)
  {
    hide CanDo, Do;
    assert (run + [e])[..|run|] == run;
  }

  lemma OneTokenOnly(p: Packet)
    requires p == NumberlessError()
    ensures ErrorNumber(p).None?
  {
    var delims := {COMMA, STAR};
    UpToBeyond(p, [], 0);
    assert p + [] == p && CString(p) == p;
    NoSecondToken(p, delims);
  }

  /** The packet a sensor sends for an error: its number in decimal, then the checksum. */
  function ErrorPacket(n: nat, rest: seq<Byte>): Packet {
    [ASCII_START] + VNERR + [COMMA] + (Decimal(n) + [STAR] + rest)
  }

  /** It is taken for an error packet, and its number is read back, cut to eight bits. */
  lemma ErrorPacketIsRead(n: nat, rest: seq<Byte>)
    ensures IsError(ErrorPacket(n, rest)) && ErrorNumber(ErrorPacket(n, rest)) == Some((n % 0x100) as Byte)
    ensures SystemError(ErrorPacket(n, rest)) == n % 0x100 + 7
  {
    var p, digits := ErrorPacket(n, rest), Decimal(n);
    var tag := [ASCII_START] + VNERR;
    var front := tag + [COMMA] + (digits + [STAR]);
    assert p == front + rest;
    assert p[1..][..5] == VNERR;
    UpToBeyond(front, rest, 0);
    assert CString(p) == tag + [COMMA] + (digits + [STAR] + UpTo(rest, 0));
    hide Decimal, SecondToken, AtoI, UpTo;
    SecondTokenIs(tag, COMMA, digits, STAR, UpTo(rest, 0), {COMMA, STAR});
    AtoIOfDecimal(n);
  }

  // ---------------------------------------------------------------------------
  // Main results
  // ---------------------------------------------------------------------------

  /** What the transaction that has just returned hands to its caller. */
  function Result(run: seq<Event>): nat
    requires run != [] && run[|run| - 1].Return?
  {
    After(run).device.sensorError
  }

  /** A transaction returns the code of the last error packet dispatched since it began,
      shifted into the system's codes, and zero exactly when there was none. */
  lemma ReturnsTheLastError(run: seq<Event>) returns (b: nat)
    requires IsRun(run) && run != [] && run[|run| - 1].Return?
    ensures LastBegin(run, b) && ErrorSince(run, b, Result(run))
  {
    var t := RunsExplained(run);
    var before := RunsExplained(run[..|run| - 1]);
    b := t.begin;
  }

  /** So the response, after its '$', starts with what was asked for. */
  lemma ResponseStartsWithMatch(p: Packet, asked: seq<Byte>)
    requires Answers(p, asked) && p[0] != 0 && 0 !in asked
    ensures |CString(p)| > |asked| && CString(p)[1..1 + |asked|] == asked
  {
    AnswersIff(p, asked);
    var c := CString(p);
    assert forall i :: 1 <= i <= |asked| ==> p[i] == asked[i - 1];
    assert forall i :: 0 <= i <= |asked| ==> p[i] != 0;
  }

  /** For a packet that starts with '$' and a match without NUL, as they are: the text in the
      response buffer, after its '$', starts with the match. */
  predicate StartsWithMatch(s: Device, p: Packet, asked: seq<Byte>) {
    |p| >= 1 && p[0] == ASCII_START && 0 !in asked ==>
      |s.responseBuffer| > |asked| && s.responseBuffer[1..1 + |asked|] == asked
  }

  lemma ResponseStarts(s: Device, p: Packet, asked: seq<Byte>)
    requires Answers(p, asked) && s.responseBuffer == CString(p)
    ensures StartsWithMatch(s, p, asked)
  {
    if p[0] == ASCII_START && 0 !in asked {
      ResponseStartsWithMatch(p, asked);
    }
  }

  lemma WokenWithoutError(run: seq<Event>, t: Story)
    requires Explains(run, t) && After(run).stage == Woken && After(run).device.sensorError == 0
    ensures 0 <= t.begin < t.enable < t.decision < |run|
    ensures run[t.begin].Begin? && t.asked == run[t.begin].wanted && run[t.decision].Receive?
    ensures var p := run[t.decision].packet;
      && !IsError(p) && Answers(p, t.asked) && After(run).device.responseBuffer == CString(p)
      && StartsWithMatch(After(run).device, p, t.asked)
  {
    hide After, IsError, Answers, CString, StartsWithMatch;
    assert !ReportsError(run[t.decision]);
    ResponseStarts(After(run).device, run[t.decision].packet, t.asked);
  }

  lemma PositionsBeforeReturn(run: seq<Event>, ev: Event, t: Story)
    requires Positions(run, t) && t.decision >= 0 && !ev.Begin? && !ev.Enable?
    ensures Positions(run + [ev], t)
  {
    var longer := run + [ev];
    assert longer[|run|] == ev && forall i :: 0 <= i < |run| ==> longer[i] == run[i];
    hide Decides;
  }

  /** A transaction that returns no error leaves in the response buffer the first packet
      with the requested match dispatched after this transaction enabled checking. */
  lemma SuccessIsTheResponse(run: seq<Event>) returns (b: nat, e: nat, d: nat)
    requires IsRun(run) && run != [] && run[|run| - 1].Return? && Result(run) == 0
    ensures b < e < d < |run| && LastBegin(run, b) && LastEnable(run, e)
    ensures FirstDecision(run, e, run[b].wanted, d)
    ensures !IsError(run[d].packet) && Answers(run[d].packet, run[b].wanted)
    ensures After(run).device.responseBuffer == CString(run[d].packet)
    ensures StartsWithMatch(After(run).device, run[d].packet, run[b].wanted)
  {
    hide IsError, Answers, CString, Explains, Decides, StartsWithMatch;
    var n := |run| - 1;
    var t := RunsExplained(run[..n]);
    WokenWithoutError(run[..n], t);
    ExplainedPositions(run[..n], t);
    PositionsBeforeReturn(run[..n], run[n], t);
    assert run == run[..n] + [run[n]];
    b, e, d := t.begin, t.enable, t.decision;
    assert run[..n][d] == run[d] && run[..n][b] == run[b];
  }

  lemma ExplainedPositions(run: seq<Event>, t: Story)
    requires Explains(run, t)
    ensures Positions(run, t)
  {
  }

  lemma ResponseStaysPut(s: World, ev: Event)
    requires CanDo(s, ev) && !s.device.checkForResponse && !ev.Enable?
    ensures !Do(s, ev).device.checkForResponse && Do(s, ev).device.responseBuffer == s.device.responseBuffer
  {
  }

  /** Until some transaction enables checking again, nothing overwrites the response. */
  lemma {:induction false} ResponseKept(run: seq<Event>, more: seq<Event>)
    requires IsRun(run + more) && !After(run).device.checkForResponse
    requires forall i :: 0 <= i < |more| ==> !more[i].Enable?
    ensures !After(run + more).device.checkForResponse
    ensures After(run + more).device.responseBuffer == After(run).device.responseBuffer
  {
    hide Do, CanDo;
    if more == [] {
      assert run + more == run;
    } else {
      var n := |more| - 1;
      assert (run + more)[..|run + more| - 1] == run + more[..n];
      ResponseKept(run, more[..n]);
      ResponseStaysPut(After(run + more[..n]), more[n]);
    }
  }

  /** No wakeup is lost and none is left over: while a transaction is under way the event is
      signalled exactly if a deciding packet was dispatched after it enabled checking, and at
      any other time it is not signalled. */
  lemma WakesExactlyOnDecision(run: seq<Event>) returns (e: int)
    requires IsRun(run)
    ensures LastEnable(run, e)
    ensures !InProgress(After(run).stage) ==> !After(run).device.signaled
    ensures InProgress(After(run).stage) ==>
      && (After(run).device.signaled <==>
            exists i :: e < i < |run| && Decides(run[i], After(run).wanted))
      && (After(run).device.signaled <==> !After(run).device.checkForResponse)
  {
    var t := RunsExplained(run);
    e := t.enable;
    hide After;
  }

  /** Outside a transaction checking is off. */
  lemma CheckingIsOffOutside(run: seq<Event>)
    requires IsRun(run) && !InProgress(After(run).stage)
    ensures !After(run).device.checkForResponse
  {
    var t := RunsExplained(run);
    hide After;
  }

  /** What a transaction returned as its response stays in the buffer, whatever arrives, until
      a later transaction enables checking. */
  lemma ResponseLasts(run: seq<Event>, more: seq<Event>) returns (b: nat, e: nat, d: nat)
    requires IsRun(run) && run != [] && run[|run| - 1].Return? && Result(run) == 0
    requires IsRun(run + more) && forall i :: 0 <= i < |more| ==> !more[i].Enable?
    ensures b < e < d < |run| && LastBegin(run, b) && LastEnable(run, e)
    ensures FirstDecision(run, e, run[b].wanted, d)
    ensures !IsError(run[d].packet) && Answers(run[d].packet, run[b].wanted)
    ensures After(run + more).device.responseBuffer == CString(run[d].packet)
    ensures StartsWithMatch(After(run + more).device, run[d].packet, run[b].wanted)
  {
    b, e, d := SuccessIsTheResponse(run);
    CheckingIsOffOutside(run);
    ResponseKept(run, more);
    hide FirstDecision, Decides, IsError, Answers, CString, LastBegin, LastEnable;
  }

  // ---------------------------------------------------------------------------
  // Every response that comes is taken, and every other packet goes somewhere
  // ---------------------------------------------------------------------------

  function Response(asked: seq<Byte>, rest: seq<Byte>): Packet {
    [ASCII_START] + asked + rest
  }

  lemma ResponseAnswers(asked: seq<Byte>, rest: seq<Byte>)
    ensures Answers(Response(asked, rest), asked)
  {
    AnswersIff(Response(asked, rest), asked);
  }

  /** While checking is on, the match in force is the one asked for. */
  lemma MatchInForce(run: seq<Event>)
    requires IsRun(run) && After(run).device.checkForResponse
    ensures After(run).device.responseMatch == After(run).wanted
  {
    var t := RunsExplained(run);
    hide After;
  }

  /** The other way round: a packet made of '$', the match asked for and anything else, unless
      it reads as an error, ends the wait at once and is the response. */
  lemma ResponseIsTaken(run: seq<Event>, rest: seq<Byte>)
    requires IsRun(run) && After(run).alive && After(run).device.checkForResponse
    requires !IsError(Response(After(run).wanted, rest))
    ensures var p := Response(After(run).wanted, rest);
      && IsRun(run + [Receive(p)])
      && After(run + [Receive(p)]).device.signaled
      && After(run + [Receive(p)]).device.responseBuffer == CString(p)
  {
    var s := After(run);
    var p := Response(s.wanted, rest);
    MatchInForce(run);
    ResponseAnswers(s.wanted, rest);
    hide IsError, Answers, CString, After, IsRun;
    EventAdded(run, Receive(p));
  }

  /** A transaction that waits then returns, with this response. */
  lemma ResponseReturns(run: seq<Event>, rest: seq<Byte>)
    requires IsRun(run) && After(run).alive && After(run).stage == Waiting && After(run).device.checkForResponse
    requires !IsError(Response(After(run).wanted, rest))
    ensures var p := Response(After(run).wanted, rest);
      var longer := run + [Receive(p)] + [Wake] + [Return];
      && IsRun(longer) && After(longer).stage == Idle
      && After(longer).device.responseBuffer == CString(p)
  {
    var p := Response(After(run).wanted, rest);
    ResponseIsTaken(run, rest);
    hide IsError, CString, After, IsRun;
    EventAdded(run, Receive(p));
    EventAdded(run + [Receive(p)], Wake);
    EventAdded(run + [Receive(p)] + [Wake], Return);
  }

  /** A transaction has enabled checking and no packet has decided it yet. */
  ghost predicate AwaitsDecision(run: seq<Event>) {
    exists b, e :: AwaitsSince(run, b, e)
  }

  ghost predicate AwaitsSince(run: seq<Event>, b: int, e: int) {
    && 0 <= b < e && LastBegin(run, b) && LastEnable(run, e)
    && forall i :: e < i < |run| ==> !Decides(run[i], run[b].wanted)
  }

  /** The packets that are for the asynchronous-data parser: those that are no errors and come
      while no decision is awaited. */
  ghost function Asynchronous(run: seq<Event>): seq<Packet> {
    if run == [] then []
    else
      var before, last := run[..|run| - 1], run[|run| - 1];
      Asynchronous(before) + if IsAsynchronous(before, last) then [last.packet] else []
  }

  ghost predicate IsAsynchronous(before: seq<Event>, last: Event) {
    last.Receive? && !IsError(last.packet) && !AwaitsDecision(before)
  }

  lemma LastPositions(run: seq<Event>, t: Story, b: int, e: int)
    requires Positions(run, t) && AwaitsSince(run, b, e)
    ensures t.begin == b && t.enable == e
  {
    hide Decides;
  }

  lemma CheckingIffAwaited(run: seq<Event>)
    requires IsRun(run)
    ensures After(run).device.checkForResponse <==> AwaitsDecision(run)
  {
    var t := RunsExplained(run);
    hide After, Decides, CString;
    if After(run).device.checkForResponse {
      assert AwaitsSince(run, t.begin, t.enable);
    }
    if b, e :| AwaitsSince(run, b, e) {
      LastPositions(run, t, b, e);
    }
  }

  lemma HandedOnAfter(s: World, ev: Event)
    requires CanDo(s, ev)
    ensures Do(s, ev).device.handedOn == s.device.handedOn +
      if ev.Receive? && !IsError(ev.packet) && !s.device.checkForResponse then [ev.packet] else []
  {
    hide ErrorNumber, Answers, CString, Printed;
  }

  /** No packet is lost: exactly the asynchronous ones are handed on, in order. */
  lemma {:induction false} HandedOnIs(run: seq<Event>)
    requires IsRun(run)
    ensures After(run).device.handedOn == Asynchronous(run)
  {
    hide Do, CanDo, AwaitsDecision;
    if run == [] {
    } else {
      var n := |run| - 1;
      HandedOnIs(run[..n]);
      CheckingIffAwaited(run[..n]);
      HandedOnAfter(After(run[..n]), run[n]);
    }
  }

  // ---------------------------------------------------------------------------
  // What goes out on the port
  // ---------------------------------------------------------------------------

  function CommandsBegun(run: seq<Event>): seq<Command> {
    if run == [] then []
    else
      var last := run[|run| - 1];
      CommandsBegun(run[..|run| - 1]) + if last.Begin? then [last.cmd] else []
  }

  /** Whole printed commands, except that the last one may not have been written yet, or
      only up to its tail. */
  predicate HasWritten(s: World, cmds: seq<Command>) {
    if s.stage == Idle || s.stage == Waiting || s.stage == Woken then
      s.device.written == PrintedAll(cmds)
    else
      && cmds != [] && cmds[|cmds| - 1] == s.cmd
      && s.device.written == PrintedAll(cmds[..|cmds| - 1]) + if s.stage == CommandWritten then s.cmd else []
  }

  lemma WrittenAfter(s: World, ev: Event, cmds: seq<Command>)
    requires CanDo(s, ev) && HasWritten(s, cmds)
    ensures HasWritten(Do(s, ev), cmds + if ev.Begin? then [ev.cmd] else [])
  {
    hide Printed, PrintedAll;
    var more := cmds + if ev.Begin? then [ev.cmd] else [];
    if ev.Begin? {
      assert more[..|more| - 1] == cmds;
    } else {
      assert more == cmds;
      if ev.WriteTail? {
        PrintedLast(cmds);
      }
    }
  }

  lemma PrintedLast(cmds: seq<Command>)
    requires cmds != []
    ensures var n := |cmds| - 1;
      var p := Printed(cmds[n]);
      PrintedAll(cmds) == PrintedAll(cmds[..n]) + cmds[n] + p[|cmds[n]|..]
  {
    var c := cmds[|cmds| - 1];
    var p := Printed(c);
    assert p[..|c|] == c;
    assert p == p[..|c|] + p[|c|..];
  }

  /** The port has seen the printed commands of the transactions begun, in order. */
  lemma {:induction false} WrittenSoFar(run: seq<Event>)
    requires IsRun(run)
    ensures HasWritten(After(run), CommandsBegun(run))
  {
    hide Do, CanDo, HasWritten;
    if run == [] {
      NothingWritten();
    } else {
      WrittenSoFar(run[..|run| - 1]);
      WrittenAfter(After(run[..|run| - 1]), run[|run| - 1], CommandsBegun(run[..|run| - 1]));
    }
  }

  lemma NothingWritten()
    ensures HasWritten(AT_START, [])
  {
  }

  /** A framer that reads the port back, whatever it was doing before, has dispatched
      exactly the commands of the transactions begun when the user thread waits. */
  lemma PortReadsBack(run: seq<Event>, s: AsciiState)
    requires IsRun(run) && After(run).stage == Waiting && ValidAscii(s) && AllCommands(CommandsBegun(run))
    ensures RunAscii(s, After(run).device.written).packets == EachPrinted(CommandsBegun(run))
  {
    WrittenSoFar(run);
    CommandsReadBack(s, CommandsBegun(run));
  }

  // ---------------------------------------------------------------------------
  // The functions of vndevice.c
  // ---------------------------------------------------------------------------

  const RESPONSE_MATCH_SIZE := 10
  const MAX_RESPONSE_SIZE := 256

  /** strcpy, into an array with room for the string and its terminator. */
  method CopyString(to: array<Byte>, from: seq<Byte>)
    requires 0 !in from && |from| < to.Length
    modifies to
    ensures CString(to[..]) == from
  {
    for k := 0 to |from|
      invariant to[..k] == from[..k]
    {
      to[k] := from[k];
    }
    to[|from|] := 0;
    ghost var t := to[..];
    assert t[..|from|] == from;
    assert forall i :: 0 <= i < |from| ==> t[i] == from[i];
    UpToFirst(t, 0, |from|);
  }

  class VnDevice {
    var sensorError: nat
    var checkForResponse: bool
    const cmdResponseMatchBuffer: array<Byte>
    const cmdResponseBuffer: array<Byte>
    var commandResponseSignaled: bool
    var handedOn: seq<Packet>
    const comPort: ComPort

    ghost predicate Valid() {
      && cmdResponseMatchBuffer != cmdResponseBuffer
      && cmdResponseMatchBuffer.Length == RESPONSE_MATCH_SIZE + 1
      && cmdResponseBuffer.Length == MAX_RESPONSE_SIZE + 1
    }

    ghost function View(): Device
      reads this, comPort, cmdResponseMatchBuffer, cmdResponseBuffer
    {
      Device(sensorError, checkForResponse, CString(cmdResponseMatchBuffer[..]), CString(cmdResponseBuffer[..]),
             commandResponseSignaled, comPort.written, handedOn)
    }

    constructor (port: ComPort)
      requires port.written == []
      ensures Valid() && View() == AT_START.device && comPort == port
      ensures fresh(cmdResponseMatchBuffer) && fresh(cmdResponseBuffer)
    {
      sensorError, checkForResponse := 0, false;
      cmdResponseMatchBuffer := new Byte[RESPONSE_MATCH_SIZE + 1](_ => 0);
      cmdResponseBuffer := new Byte[MAX_RESPONSE_SIZE + 1](_ => 0);
      commandResponseSignaled, handedOn := false, [];
      comPort := port;
    }

    method EnableResponseChecking(responseMatch: seq<Byte>)
      requires Valid() && |responseMatch| <= RESPONSE_MATCH_SIZE && 0 !in responseMatch
      modifies this, cmdResponseMatchBuffer
      ensures View() == EnableChecking(old(View()), responseMatch)
    {
      checkForResponse := true;
      CopyString(cmdResponseMatchBuffer, responseMatch);
    }

    method DisableResponseChecking()
      requires Valid()
      modifies this, cmdResponseMatchBuffer
      ensures View() == DisableChecking(old(View()))
    {
      checkForResponse := false;
      cmdResponseMatchBuffer[0] := 0;
    }

    method ShouldCheckForResponse() returns (shouldCheckResponse: bool, responseMatch: seq<Byte>)
      ensures shouldCheckResponse == checkForResponse
      ensures shouldCheckResponse ==> responseMatch == CString(cmdResponseMatchBuffer[..])
    {
      shouldCheckResponse, responseMatch := checkForResponse, [];
      if shouldCheckResponse {
        responseMatch := CString(cmdResponseMatchBuffer[..]);
      }
    }

    /** For packets as the framer dispatches them, shorter than its buffer. */
    method ProcessReceivedPacket(buffer: Packet) returns (crashed: bool)
      requires Valid() && |buffer| < CAPACITY
      modifies this, cmdResponseMatchBuffer, cmdResponseBuffer
      ensures crashed <==> !IsHandled(buffer)
      ensures View() == if crashed then old(View()) else ReceivePacket(old(View()), buffer)
    {
      hide CString, ErrorNumber, IsError, Answers, SystemError;
      var should, responseMatch;
      crashed := false;
      if IsError(buffer) {
        if ErrorNumber(buffer).None? {
          return true;
        }
        sensorError := SystemError(buffer);
        should, responseMatch := ShouldCheckForResponse();
        if should {
          DisableResponseChecking();
          commandResponseSignaled := true;
        }
      } else {
        should, responseMatch := ShouldCheckForResponse();
        if should {
          if Answers(buffer, responseMatch) {
            DisableResponseChecking();
            CopyResponse(buffer);
            commandResponseSignaled := true;
          }
        } else {
          handedOn := handedOn + [buffer];
        }
      }
    }

    method CopyResponse(buffer: Packet)
      requires Valid() && |buffer| < CAPACITY
      modifies cmdResponseBuffer
      ensures CString(cmdResponseBuffer[..]) == CString(buffer)
    {
      CopyString(cmdResponseBuffer, CString(buffer));
    }

    /** vndevice_transaction up to its wait, were the receive thread idle meanwhile. */
    method StartTransaction(cmdToSend: Command, responseMatch: seq<Byte>)
      requires Valid() && |responseMatch| <= RESPONSE_MATCH_SIZE && 0 !in responseMatch
      modifies this, cmdResponseMatchBuffer, comPort
      ensures View() == UntilWaiting(old(View()), cmdToSend, responseMatch).device
    {
      hide CString;
      sensorError := 0;
      EnableResponseChecking(responseMatch);
      WriteOutCommand(comPort, cmdToSend);
      assert Printed(cmdToSend)[..|cmdToSend|] == cmdToSend;
    }
  }

  /** The four steps of the user thread before it waits. */
  function UntilWaiting(d: Device, cmd: Command, wanted: seq<Byte>): World {
    Do(Do(Do(Do(World(d, Idle, cmd, wanted, true), Begin(cmd, wanted)), Enable), WriteCommand), WriteTail)
  }
}
