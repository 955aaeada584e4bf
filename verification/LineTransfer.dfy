/** The line-transfer protocol of server.c and client.c: one line a request, cut into
    datagrams between BEGIN and END, and DONE after the last.

    Datagrams arrive, in order. BEGIN is taken to start an empty record. */
module LineTransfer {
  import opened Sequences

  const BREAK_SIZE: nat := 4094

  const BEGIN := "BEGIN"
  const END := "END"
  const DONE := "DONE"

  type Datagram = string

  // ---------------------------------------------------------------------------
  // Cutting a line
  // ---------------------------------------------------------------------------

  function Chunks(line: string): (c: seq<Datagram>)
    ensures c != []
  {
    if |line| > BREAK_SIZE then [line[..BREAK_SIZE]] + Chunks(line[BREAK_SIZE..]) else [line]
  }

  function LastChunk(line: string): Datagram {
    Chunks(line)[|Chunks(line)| - 1]
  }

  function Datagrams(line: string): (d: seq<Datagram>) {
    [BEGIN] + Chunks(line) + [END]
  }

  lemma {:induction false} JoinFirst(first: string, rest: seq<string>)
    ensures Concat([first] + rest) == first + Concat(rest)
  {
    var all := [first] + rest;
    if rest == [] {
      assert all[..0] == [];
    } else {
      assert all[..|all| - 1] == [first] + rest[..|rest| - 1];
      JoinFirst(first, rest[..|rest| - 1]);
    }
  }

  /** Chunks make up the line; all but the last are full, the last is not empty unless the
      line is; there are as few as possible. */
  lemma {:induction false} ChunksOfLine(line: string)
    ensures Concat(Chunks(line)) == line
    ensures forall i :: 0 <= i < |Chunks(line)| - 1 ==> |Chunks(line)[i]| == 4094
    ensures |LastChunk(line)| <= 4094 && (line != "" ==> |LastChunk(line)| >= 1)
    ensures LastChunk(line) == line[|line| - |LastChunk(line)|..]
    ensures line != "" ==> |Chunks(line)| == (|line| + 4093) / 4094
  {
    if |line| > BREAK_SIZE {
      var rest := line[BREAK_SIZE..];
      ChunksOfLine(rest);
      JoinFirst(line[..BREAK_SIZE], Chunks(rest));
      assert line == line[..BREAK_SIZE] + rest;
    } else {
      assert [line][..0] == [];
    }
  }

  predicate IsControl(d: Datagram) {
    d == BEGIN || d == END || d == DONE
  }

  // ---------------------------------------------------------------------------
  // Putting a record together
  // ---------------------------------------------------------------------------

  /** About to send START or ACK; collecting; stopped. totalSize is the room allocated. */
  datatype Client = Starting | Acking | Waiting(data: Option<string>, totalSize: nat) | Stopped

  /** A datagram as the string routines see it. */
  function Text(d: Datagram): (t: string)
    ensures t <= d && '\0' !in t && (|t| < |d| ==> d[|t|] == '\0')
  {
    UpTo(d, '\0')
  }

  function Collected(data: Option<string>): string {
    if data.Some? then data.value else ""
  }

  function OnDatagram(c: Client, d: Datagram): Client
    requires c.Waiting?
  {
    var text := Text(d);
    if text == BEGIN then Waiting(Some(""), BREAK_SIZE)
    else if text == DONE then Stopped
    else if text == END then Acking
    else Waiting(Some(Collected(c.data) + text), c.totalSize + BREAK_SIZE)
  }

  /** What is printed when a datagram ends the collecting. */
  function Printed(c: Client, d: Datagram): seq<string>
    requires c.Waiting?
  {
    if !OnDatagram(c, d).Waiting? && c.data.Some? then [c.data.value] else []
  }

  const FRESH: Client := Waiting(None, 0)

  lemma TextIsAll(d: Datagram)
    requires '\0' !in d
    ensures Text(d) == d
  {
  }

  /** What a run of datagrams makes of a client; one that has stopped collecting does not
      look at any more. */
  function Over(c: Client, ds: seq<Datagram>): Client {
    if ds == [] then c
    else
      var before := Over(c, ds[..|ds| - 1]);
      if before.Waiting? then OnDatagram(before, ds[|ds| - 1]) else before
  }

  lemma OverOne(c: Client, ds: seq<Datagram>, d: Datagram)
    ensures var before := Over(c, ds);
      Over(c, ds + [d]) == if before.Waiting? then OnDatagram(before, d) else before
  {
    assert (ds + [d])[..|ds|] == ds;
  }

  lemma OverFirst(c: Client, d: Datagram)
    requires c.Waiting?
    ensures Over(c, [d]) == OnDatagram(c, d)
  {
    OverOne(c, [], d);
    assert [] + [d] == [d];
  }

  /** A line whose datagrams the client takes for what they are. */
  predicate IsSafe(line: string) {
    '\0' !in line && !IsControl(LastChunk(line))
  }

  /** The client collects until END, and then prints exactly the line. */
  ghost predicate Delivers(line: string) {
    var c := Over(FRESH, [BEGIN] + Chunks(line));
    c.Waiting? && OnDatagram(c, END) == Acking && Printed(c, END) == [line]
  }

  lemma ChunkIsPlain(line: string, i: nat)
    requires '\0' !in line && i < |Chunks(line)| && (i == |Chunks(line)| - 1 ==> IsSafe(line))
    ensures var d := Chunks(line)[i]; Text(d) == d && !IsControl(d)
    decreases |line|
  {
    ChunksOfLine(line);
    ChunkWithin(line, i);
  }

  lemma {:induction false} ChunkWithin(line: string, i: nat)
    requires i < |Chunks(line)|
    ensures forall c :: c in Chunks(line)[i] ==> c in line
  {
    if |line| > BREAK_SIZE && i > 0 {
      ChunkWithin(line[BREAK_SIZE..], i - 1);
    }
  }

  lemma BeginFirst(c: Client)
    requires c.Waiting?
    ensures Over(c, [BEGIN]) == Waiting(Some(""), BREAK_SIZE)
  {
    OverFirst(c, BEGIN);
    TextIsAll(BEGIN);
  }

  lemma OnPlain(data: string, size: nat, d: Datagram)
    requires Text(d) == d && !IsControl(d)
    ensures OnDatagram(Waiting(Some(data), size), d) == Waiting(Some(data + d), size + BREAK_SIZE)
  {
  }

  /** After so many chunks of a safe line the client holds their text, and room for it, for
      one more full chunk and a terminator. */
  lemma {:induction false} CollectedSoFar(line: string, k: nat)
    requires '\0' !in line && k <= |Chunks(line)| && (k == |Chunks(line)| ==> IsSafe(line))
    ensures Over(FRESH, [BEGIN] + Chunks(line)[..k]) == Waiting(Some(Concat(Chunks(line)[..k])), BREAK_SIZE * (k + 1))
  {
    hide Concat, Chunks, Over, OnDatagram, Text, IsSafe, IsControl;
    var chunks := Chunks(line);
    if k == 0 {
      assert [BEGIN] + chunks[..0] == [BEGIN];
      BeginFirst(FRESH);
      NothingToJoin();
      assert chunks[..0] == [];
    } else {
      CollectedSoFar(line, k - 1);
      ChunkIsPlain(line, k - 1);
      assert [BEGIN] + chunks[..k] == ([BEGIN] + chunks[..k - 1]) + [chunks[k - 1]];
      OverOne(FRESH, [BEGIN] + chunks[..k - 1], chunks[k - 1]);
      OnPlain(Concat(chunks[..k - 1]), BREAK_SIZE * k, chunks[k - 1]);
      JoinLast(chunks[..k]);
      assert chunks[..k][..k - 1] == chunks[..k - 1];
    }
  }

  lemma NothingToJoin()
    ensures Concat([]) == ""
  {
  }

  lemma JoinLast(parts: seq<string>)
    requires parts != []
    ensures Concat(parts) == Concat(parts[..|parts| - 1]) + parts[|parts| - 1]
  {
  }

  /** What is left of the chunks as text. */
  function TextLength(chunks: seq<Datagram>): nat {
    if chunks == [] then 0 else TextLength(chunks[..|chunks| - 1]) + |Text(chunks[|chunks| - 1])|
  }

  lemma {:induction false} TextIsNoLonger(chunks: seq<Datagram>)
    ensures TextLength(chunks) <= |Concat(chunks)|
    ensures TextLength(chunks) == |Concat(chunks)| ==> '\0' !in Concat(chunks)
  {
    if chunks == [] {
    } else {
      TextIsNoLonger(chunks[..|chunks| - 1]);
    }
  }

  /** A client that is still collecting holds no more than the text it was sent. */
  lemma {:induction false} HoldsNoMore(chunks: seq<Datagram>)
    ensures var c := Over(FRESH, [BEGIN] + chunks);
      c.Waiting? ==> c.data.Some? && |c.data.value| <= TextLength(chunks)
  {
    hide Text;
    if chunks == [] {
      assert [BEGIN] + chunks == [BEGIN];
      BeginFirst(FRESH);
    } else {
      var n := |chunks| - 1;
      assert [BEGIN] + chunks == ([BEGIN] + chunks[..n]) + [chunks[n]];
      HoldsNoMore(chunks[..n]);
      OverOne(FRESH, [BEGIN] + chunks[..n], chunks[n]);
    }
  }

  lemma SafeDelivers(line: string)
    requires line != "" && IsSafe(line)
    ensures Delivers(line)
  {
    var chunks := Chunks(line);
    CollectedSoFar(line, |chunks|);
    ChunksOfLine(line);
    assert chunks[..|chunks|] == chunks;
    TextIsAll(END);
  }

  lemma DeliversNulFree(line: string)
    requires Delivers(line)
    ensures '\0' !in line
  {
    hide Over, Chunks, Concat, Text;
    ChunksOfLine(line);
    HoldsNoMore(Chunks(line));
    TextIsNoLonger(Chunks(line));
  }

  lemma LastIsPlain(data: string, size: nat, d: Datagram)
    requires Text(d) == d && OnDatagram(Waiting(Some(data), size), d).Waiting?
    requires OnDatagram(Waiting(Some(data), size), d).data != Some("")
    ensures !IsControl(d)
  {
  }

  lemma DeliversSafe(line: string)
    requires line != "" && Delivers(line)
    ensures IsSafe(line)
  {
    hide Over, Chunks, Concat, Text, IsControl;
    var chunks := Chunks(line);
    var n := |chunks| - 1;
    DeliversNulFree(line);
    ChunkWithin(line, n);
    TextIsAll(chunks[n]);
    assert [BEGIN] + chunks == ([BEGIN] + chunks[..n]) + [chunks[n]];
    OverOne(FRESH, [BEGIN] + chunks[..n], chunks[n]);
    HoldsNoMore(chunks[..n]);
    var before := Over(FRESH, [BEGIN] + chunks[..n]);
    LastIsPlain(before.data.value, before.totalSize, chunks[n]);
  }

  /** A line arrives intact exactly when it holds no NUL and its last chunk does not read
      BEGIN, END or DONE. */
  lemma DeliversIffSafe(line: string)
    requires line != ""
    ensures Delivers(line) <==> IsSafe(line)
  {
    if IsSafe(line) { SafeDelivers(line); }
    if Delivers(line) { DeliversSafe(line); }
  }

  /** A line that ends in a newline has no control token for a last chunk. */
  lemma NewlineIsSafe(line: string)
    requires line != "" && '\0' !in line && line[|line| - 1] == '\n'
    ensures IsSafe(line)
  {
    ChunksOfLine(line);
    hide Chunks;
  }

  /** Without the newline it can: a last line END arrives as an empty record. */
  lemma EndLineIsLost()
    ensures !Delivers(END)
    ensures var c := Over(FRESH, [BEGIN]);
      c.Waiting? && OnDatagram(c, Datagrams(END)[1]) == Acking && Printed(c, Datagrams(END)[1]) == [""]
  {
    DeliversIffSafe(END);
    BeginFirst(FRESH);
    TextIsAll(END);
  }

  // ---------------------------------------------------------------------------
  // Room
  // ---------------------------------------------------------------------------

  /** recvfrom cuts a datagram off at what the receive buffer takes besides its terminator. */
  predicate IsReceived(d: Datagram) {
    |d| <= BREAK_SIZE
  }

  ghost predicate AllReceived(ds: seq<Datagram>) {
    forall i :: 0 <= i < |ds| ==> IsReceived(ds[i])
  }

  /** The record, just reallocated, holds the text so far, that of d, and a terminator. */
  predicate AppendFits(c: Client, d: Datagram)
    requires c.Waiting? && !IsControl(Text(d))
  {
    |Collected(c.data)| + |Text(d)| + 1 <= OnDatagram(c, d).totalSize
  }

  /** No datagram leaves room: each is a full chunk of text. */
  ghost predicate AllFull(ds: seq<Datagram>) {
    forall i :: 0 <= i < |ds| ==> |Text(ds[i])| == BREAK_SIZE
  }

  lemma OneMoreFull(ds: seq<Datagram>, d: Datagram)
    ensures AllFull(ds + [d]) <==> AllFull(ds) && |Text(d)| == BREAK_SIZE
  {
    var all := ds + [d];
    assert all[|ds|] == d && forall i :: 0 <= i < |ds| ==> all[i] == ds[i];
    hide Text;
  }

  lemma RoomAfterOne(c: Client, d: Datagram)
    requires c.Waiting? && IsReceived(d) && OnDatagram(c, d).Waiting? && |Collected(c.data)| <= c.totalSize
    ensures var r := OnDatagram(c, d);
      && |Collected(r.data)| <= r.totalSize
      && (|Collected(r.data)| == r.totalSize <==> |Collected(c.data)| == c.totalSize && |Text(d)| == BREAK_SIZE)
  {
    hide Text;
  }

  /** The text collected never outgrows what was allocated, and fills it exactly when every
      datagram was full. */
  lemma {:induction false} RoomSoFar(ds: seq<Datagram>)
    requires AllReceived(ds) && Over(FRESH, ds).Waiting?
    ensures var c := Over(FRESH, ds);
      |Collected(c.data)| <= c.totalSize && (|Collected(c.data)| == c.totalSize <==> AllFull(ds))
  {
    hide Text, OnDatagram;
    if ds == [] {
    } else {
      var n := |ds| - 1;
      RoomSoFar(ds[..n]);
      RoomAfterOne(Over(FRESH, ds[..n]), ds[n]);
      OneMoreFull(ds[..n], ds[n]);
      assert ds == ds[..n] + [ds[n]];
    }
  }

  /** For any datagrams at all, NULs and control words included: an append fits unless every
      datagram since the client began to wait, this one too, is a full chunk of text. As a
      BEGIN is not, it fits in every record that has one. */
  lemma AppendFitsIff(ds: seq<Datagram>, d: Datagram)
    requires AllReceived(ds) && IsReceived(d) && Over(FRESH, ds).Waiting?
    requires !IsControl(Text(d))
    ensures AppendFits(Over(FRESH, ds), d) <==> !AllFull(ds + [d])
  {
    hide Text, Over;
    RoomSoFar(ds);
    OneMoreFull(ds, d);
  }

  /** Inside a record there is room for a whole chunk more than is appended. */
  lemma {:induction false} RoomAfterBegin(ds: seq<Datagram>)
    requires AllReceived(ds) && Over(FRESH, [BEGIN] + ds).Waiting?
    ensures var c := Over(FRESH, [BEGIN] + ds);
      c.data.Some? && |c.data.value| + BREAK_SIZE <= c.totalSize
  {
    hide Text;
    if ds == [] {
      assert [BEGIN] + ds == [BEGIN];
      BeginFirst(FRESH);
    } else {
      var n := |ds| - 1;
      assert [BEGIN] + ds == ([BEGIN] + ds[..n]) + [ds[n]];
      OverOne(FRESH, [BEGIN] + ds[..n], ds[n]);
      RoomAfterBegin(ds[..n]);
    }
  }

  /** So every append of the chunks of any line fits as long as the client collects them. */
  lemma LineFits(line: string, k: nat)
    requires k < |Chunks(line)| && Over(FRESH, [BEGIN] + Chunks(line)[..k]).Waiting?
    requires !IsControl(Text(Chunks(line)[k]))
    ensures AppendFits(Over(FRESH, [BEGIN] + Chunks(line)[..k]), Chunks(line)[k])
  {
    hide Over, Chunks, Text;
    ChunksOfLine(line);
    RoomAfterBegin(Chunks(line)[..k]);
  }

  // ---------------------------------------------------------------------------
  // The two processes and their channels
  // ---------------------------------------------------------------------------

  /** In WAIT; in SEND before reading a line; sending the rest of a line; past the loop with
      DONE to send; gone. */
  datatype Server = AwaitingRequest | ReadingLine | Sending(rest: seq<Datagram>) | Closing | Ended

  /** taken counts the lines read, records are those the client has printed. */
  datatype Net = Net(
    server: Server, client: Client, up: seq<Datagram>, down: seq<Datagram>,
    taken: nat, records: seq<string>)

  datatype Move = ServerReceives | ServerReads | ServerSends | ClientSends | ClientReceives

  const AT_START: Net := Net(AwaitingRequest, Starting, [], [], 0, [])

  predicate CanMove(s: Net, m: Move) {
    match m
    case ServerReceives => s.server.AwaitingRequest? && s.up != []
    case ServerReads => s.server.ReadingLine?
    case ServerSends => s.server.Closing? || (s.server.Sending? && s.server.rest != [])
    case ClientSends => s.client.Starting? || s.client.Acking?
    case ClientReceives => s.client.Waiting? && s.down != []
  }

  function MakeMove(s: Net, m: Move, lines: seq<string>): Net
    requires CanMove(s, m)
  {
    match m
    case ServerReceives => s.(server := ReadingLine, up := s.up[1..])
    case ServerReads =>
      if s.taken < |lines| then s.(server := Sending(Datagrams(lines[s.taken])), taken := s.taken + 1)
      else s.(server := Closing)
    case ServerSends =>
      if s.server.Closing? then s.(server := Ended, down := s.down + [DONE])
      else
        var rest := s.server.rest[1..];
        s.(server := if rest == [] then AwaitingRequest else Sending(rest), down := s.down + [s.server.rest[0]])
    case ClientSends =>
      s.(client := FRESH, up := s.up + [if s.client.Starting? then "START" else "ACK"])
    case ClientReceives =>
      s.(client := OnDatagram(s.client, s.down[0]), down := s.down[1..],
         records := s.records + Printed(s.client, s.down[0]))
  }

  ghost predicate IsRun(moves: seq<Move>, lines: seq<string>)
    decreases |moves|, 0
  {
    moves == [] || (
      var n := |moves| - 1;
      IsRun(moves[..n], lines) && CanMove(After(moves[..n], lines), moves[n]))
  }

  ghost function After(moves: seq<Move>, lines: seq<string>): Net
    requires IsRun(moves, lines)
    decreases |moves|, 1
  {
    if moves == [] then AT_START
    else MakeMove(After(moves[..|moves| - 1], lines), moves[|moves| - 1], lines)
  }

  // ---------------------------------------------------------------------------
  // The invariant
  // ---------------------------------------------------------------------------

  ghost predicate AllSafe(lines: seq<string>) {
    forall i :: 0 <= i < |lines| ==> lines[i] != "" && IsSafe(lines[i])
  }

  /** Everything read has been printed, and the client is about to ask for more, has asked,
      or is being served. */
  ghost predicate BetweenLines(s: Net, lines: seq<string>) {
    && s.down == [] && s.taken <= |lines| && s.records == lines[..s.taken]
    && match s.server
       case AwaitingRequest =>
         ((s.client.Starting? || s.client.Acking?) && s.up == []) || (s.client == FRESH && |s.up| == 1)
       case ReadingLine => s.client == FRESH && s.up == []
       case Closing => s.client == FRESH && s.up == [] && s.taken == |lines|
       case _ => false
  }

  function Unsent(server: Server): seq<Datagram> {
    if server.Sending? then server.rest else []
  }

  /** Of the line read last the client has seen j datagrams; the others are on their way or
      not sent yet. */
  ghost predicate WithinLine(s: Net, lines: seq<string>, j: nat) {
    && 0 < s.taken <= |lines| && s.up == [] && s.records == lines[..s.taken - 1]
    && (s.server == AwaitingRequest || (s.server.Sending? && s.server.rest != []))
    && var ds := Datagrams(lines[s.taken - 1]);
       && j < |ds| && ds[j..] == s.down + Unsent(s.server)
       && s.client == Over(FRESH, ds[..j])
  }

  ghost predicate AfterLines(s: Net, lines: seq<string>) {
    && s.server.Ended? && s.up == [] && s.taken == |lines| && s.records == lines
    && ((s.client == FRESH && s.down == [DONE]) || (s.client.Stopped? && s.down == []))
  }

  ghost predicate Invariant(s: Net, lines: seq<string>) {
    BetweenLines(s, lines) || (exists j :: WithinLine(s, lines, j)) || AfterLines(s, lines)
  }

  /** One datagram of a safe line. */
  lemma LineGoesOn(line: string, j: nat)
    requires line != "" && IsSafe(line) && j < |Datagrams(line)|
    ensures var ds := Datagrams(line);
      var c := Over(FRESH, ds[..j]);
      && c.Waiting?
      && (j + 1 < |ds| ==> OnDatagram(c, ds[j]) == Over(FRESH, ds[..j + 1]) && Printed(c, ds[j]) == [])
      && (j + 1 == |ds| ==> OnDatagram(c, ds[j]) == Acking && Printed(c, ds[j]) == [line])
  {
    var ds, chunks := Datagrams(line), Chunks(line);
    hide Over, Chunks, IsControl, Text;
    assert ds[..j + 1] == ds[..j] + [ds[j]];
    OverOne(FRESH, ds[..j], ds[j]);
    if j == 0 {
      NothingSeen(FRESH);
      BeginFirst(FRESH);
      assert ds[..0] == [] && ds[..1] == [BEGIN];
    } else {
      assert ds[..j] == [BEGIN] + chunks[..j - 1];
      CollectedSoFar(line, j - 1);
      if j + 1 < |ds| {
        assert ds[..j + 1] == [BEGIN] + chunks[..j];
        CollectedSoFar(line, j);
      } else {
        SafeDelivers(line);
        assert chunks[..j - 1] == chunks && ds[j] == END;
      }
    }
  }

  lemma NothingSeen(c: Client)
    ensures Over(c, []) == c
  {
  }

  lemma BetweenLinesStep(s: Net, m: Move, lines: seq<string>)
    requires AllSafe(lines) && CanMove(s, m) && BetweenLines(s, lines)
    ensures var t := MakeMove(s, m, lines);
      BetweenLines(t, lines) || WithinLine(t, lines, 0) || AfterLines(t, lines)
  {
    NothingSeen(FRESH);
    if m.ServerReads? && s.taken < |lines| {
      var ds := Datagrams(lines[s.taken]);
      assert ds[..0] == [] && ds[0..] == [] + ds;
    }
    hide Over, Datagrams;
  }

  lemma SendWithinLine(s: Net, lines: seq<string>, j: nat)
    requires CanMove(s, ServerSends) && WithinLine(s, lines, j)
    ensures WithinLine(MakeMove(s, ServerSends, lines), lines, j)
  {
    hide Over, Datagrams;
    var t := MakeMove(s, ServerSends, lines);
    assert t.down + Unsent(t.server) == s.down + Unsent(s.server);
  }

  lemma NextOfSuffix(ds: seq<Datagram>, j: nat, down: seq<Datagram>, rest: seq<Datagram>)
    requires j < |ds| && ds[j..] == down + rest && down != []
    ensures down[0] == ds[j] && ds[j + 1..] == down[1..] + rest
    ensures j + 1 == |ds| ==> down[1..] == [] && rest == []
  {
    assert down[0] == ds[j..][0];
    assert ds[j + 1..] == ds[j..][1..];
  }

  lemma ReceiveWithinLine(s: Net, lines: seq<string>, j: nat)
    requires AllSafe(lines) && CanMove(s, ClientReceives) && WithinLine(s, lines, j)
    ensures var t := MakeMove(s, ClientReceives, lines);
      WithinLine(t, lines, j + 1) || BetweenLines(t, lines)
  {
    hide Over, OnDatagram, Printed, IsSafe, Datagrams;
    var line := lines[s.taken - 1];
    LineGoesOn(line, j);
    NextOfSuffix(Datagrams(line), j, s.down, Unsent(s.server));
    assert lines[..s.taken] == lines[..s.taken - 1] + [line];
  }

  lemma NothingElseWithinLine(s: Net, m: Move, lines: seq<string>, j: nat)
    requires AllSafe(lines) && CanMove(s, m) && WithinLine(s, lines, j)
    ensures m.ServerSends? || m.ClientReceives?
  {
    LineGoesOn(lines[s.taken - 1], j);
    hide Over, OnDatagram, Datagrams;
  }

  lemma WithinLineStep(s: Net, m: Move, lines: seq<string>, j: nat)
    requires AllSafe(lines) && CanMove(s, m) && WithinLine(s, lines, j)
    ensures var t := MakeMove(s, m, lines);
      WithinLine(t, lines, j) || WithinLine(t, lines, j + 1) || BetweenLines(t, lines)
  {
    hide WithinLine, BetweenLines, CanMove, MakeMove;
    NothingElseWithinLine(s, m, lines, j);
    if m.ServerSends? { SendWithinLine(s, lines, j); } else { ReceiveWithinLine(s, lines, j); }
  }

  lemma AfterLinesStep(s: Net, m: Move, lines: seq<string>)
    requires CanMove(s, m) && AfterLines(s, lines)
    ensures AfterLines(MakeMove(s, m, lines), lines)
  {
    TextIsAll(DONE);
  }

  lemma {:induction false} Always(moves: seq<Move>, lines: seq<string>)
    requires AllSafe(lines) && IsRun(moves, lines)
    ensures Invariant(After(moves, lines), lines)
  {
    hide CanMove, MakeMove, WithinLine, BetweenLines, AfterLines;
    if moves == [] {
      StartIsBetween(lines);
    } else {
      var n := |moves| - 1;
      Always(moves[..n], lines);
      var s := After(moves[..n], lines);
      if BetweenLines(s, lines) {
        BetweenLinesStep(s, moves[n], lines);
      } else if AfterLines(s, lines) {
        AfterLinesStep(s, moves[n], lines);
      } else {
        var j :| WithinLine(s, lines, j);
        WithinLineStep(s, moves[n], lines, j);
      }
    }
  }

  lemma StartIsBetween(lines: seq<string>)
    ensures BetweenLines(AT_START, lines)
  {
  }

  // ---------------------------------------------------------------------------
  // Main results
  // ---------------------------------------------------------------------------

  /** In every reachable state the records printed are the first lines of the input, and at
      most one request is outstanding: while one is on its way the server is waiting for it
      and sends nothing. */
  lemma TransferIsSafe(moves: seq<Move>, lines: seq<string>)
    requires AllSafe(lines) && IsRun(moves, lines)
    ensures var s := After(moves, lines);
      && s.records <= lines
      && |s.up| <= 1 && (s.up != [] ==> s.server.AwaitingRequest? && s.down == [])
  {
    Always(moves, lines);
    hide After, Over, Datagrams;
  }

  ghost predicate Stuck(s: Net) {
    forall m :: !CanMove(s, m)
  }

  lemma NeverStuckWithinLine(s: Net, lines: seq<string>, j: nat)
    requires AllSafe(lines) && WithinLine(s, lines, j)
    ensures CanMove(s, ServerSends) || CanMove(s, ClientReceives)
  {
    LineGoesOn(lines[s.taken - 1], j);
    assert Datagrams(lines[s.taken - 1])[j..] != [];
    hide Over, Datagrams, OnDatagram, IsSafe;
  }

  lemma NeverStuckBetweenLines(s: Net, lines: seq<string>)
    requires BetweenLines(s, lines)
    ensures !Stuck(s)
  {
    assert CanMove(s, ServerReceives) || CanMove(s, ServerReads) || CanMove(s, ServerSends) || CanMove(s, ClientSends);
  }

  /** A run that cannot go on has ended with DONE, and every line has been printed. */
  lemma StuckMeansDone(moves: seq<Move>, lines: seq<string>)
    requires AllSafe(lines) && IsRun(moves, lines) && Stuck(After(moves, lines))
    ensures var s := After(moves, lines);
      s.server.Ended? && s.client.Stopped? && s.up == [] && s.down == [] && s.records == lines
  {
    hide After, WithinLine, BetweenLines, CanMove;
    Always(moves, lines);
    var s := After(moves, lines);
    if BetweenLines(s, lines) {
      NeverStuckBetweenLines(s, lines);
    } else if !AfterLines(s, lines) {
      var j :| WithinLine(s, lines, j);
      NeverStuckWithinLine(s, lines, j);
    }
    EndedIsDone(s, lines);
  }

  lemma EndedIsDone(s: Net, lines: seq<string>)
    requires AfterLines(s, lines) && Stuck(s)
    ensures s.server.Ended? && s.client.Stopped? && s.up == [] && s.down == [] && s.records == lines
  {
    assert !CanMove(s, ClientReceives);
  }

  /** Datagrams of the lines from a position on. */
  function DatagramsFrom(lines: seq<string>, from: nat): nat
    decreases |lines| - from
  {
    if from >= |lines| then 0 else |Datagrams(lines[from])| + DatagramsFrom(lines, from + 1)
  }

  /** What requests on their way, or about to be sent, still bring about. */
  function RequestWork(s: Net): nat {
    2 * |s.up| + (if s.server.ReadingLine? then 1 else 0)
    + if s.client.Starting? || s.client.Acking? then 3 else 0
  }

  function Work(s: Net, lines: seq<string>): nat {
    5 * DatagramsFrom(lines, s.taken) + 5 * |Unsent(s.server)| + 4 * |s.down|
    + (if s.server.Ended? then 0 else 5) + RequestWork(s)
  }

  lemma MoveDoesWork(s: Net, m: Move, lines: seq<string>)
    requires CanMove(s, m)
    ensures Work(MakeMove(s, m, lines), lines) < Work(s, lines)
  {
    hide Over, OnDatagram, Datagrams;
  }

  /** Every run ends, whatever the lines are: no run has more moves than this. */
  lemma {:induction false} RunsEnd(moves: seq<Move>, lines: seq<string>)
    requires IsRun(moves, lines)
    ensures |moves| + Work(After(moves, lines), lines) <= 5 * DatagramsFrom(lines, 0) + 8
  {
    hide CanMove, MakeMove, DatagramsFrom;
    if moves == [] {
    } else {
      var n := |moves| - 1;
      RunsEnd(moves[..n], lines);
      MoveDoesWork(After(moves[..n], lines), moves[n], lines);
    }
  }

  // ---------------------------------------------------------------------------
  // Room in every run
  // ---------------------------------------------------------------------------

  lemma ChunksAreReceived(line: string)
    ensures AllReceived(Datagrams(line))
  {
    ChunksOfLine(line);
    hide Chunks;
  }

  lemma DatagramFits(line: string, j: nat)
    requires line != "" && IsSafe(line) && j < |Datagrams(line)|
    requires Over(FRESH, Datagrams(line)[..j]).Waiting? && !IsControl(Text(Datagrams(line)[j]))
    ensures AppendFits(Over(FRESH, Datagrams(line)[..j]), Datagrams(line)[j])
  {
    var ds := Datagrams(line);
    hide Over, Chunks, IsSafe, Text;
    ChunksAreReceived(line);
    TextIsAll(BEGIN);
    assert j > 0 && ds[..j] == [BEGIN] + ds[1..j];
    RoomAfterBegin(ds[1..j]);
  }

  /** The client is about to append this datagram. */
  predicate IsAppended(s: Net, d: Datagram) {
    s.client.Waiting? && s.down != [] && s.down[0] == d && !IsControl(Text(d))
  }

  lemma FitsWithinLine(s: Net, lines: seq<string>, j: nat, d: Datagram)
    requires AllSafe(lines) && WithinLine(s, lines, j) && IsAppended(s, d)
    ensures AppendFits(s.client, d)
  {
    hide Over, Datagrams, AppendFits, IsSafe, Text;
    NextOfSuffix(Datagrams(lines[s.taken - 1]), j, s.down, Unsent(s.server));
    DatagramFits(lines[s.taken - 1], j);
  }

  lemma AppendedWithinLine(s: Net, lines: seq<string>, d: Datagram)
    requires Invariant(s, lines) && IsAppended(s, d)
    ensures exists j :: WithinLine(s, lines, j)
  {
    hide WithinLine, Text;
    TextIsAll(DONE);
  }

  /** With safe lines the client never lacks room, in any reachable state. */
  lemma RunsHaveRoom(moves: seq<Move>, lines: seq<string>, d: Datagram)
    requires AllSafe(lines) && IsRun(moves, lines) && IsAppended(After(moves, lines), d)
    ensures AppendFits(After(moves, lines).client, d)
  {
    hide After, WithinLine, IsAppended, Invariant;
    Always(moves, lines);
    AppendedWithinLine(After(moves, lines), lines, d);
    var j :| WithinLine(After(moves, lines), lines, j);
    FitsWithinLine(After(moves, lines), lines, j, d);
  }

  ghost predicate RoomKept(s: Net) {
    && AllReceived(s.down) && AllReceived(Unsent(s.server))
    && (s.client.Waiting? ==> |Collected(s.client.data)| <= s.client.totalSize)
  }

  lemma MoveKeepsRoom(s: Net, m: Move, lines: seq<string>)
    requires CanMove(s, m) && RoomKept(s)
    ensures RoomKept(MakeMove(s, m, lines))
  {
    hide Text, Datagrams, Printed;
    if m.ServerReads? && s.taken < |lines| {
      ChunksAreReceived(lines[s.taken]);
    } else if m.ServerSends? {
      assert IsReceived(DONE);
    } else if m.ClientReceives? && OnDatagram(s.client, s.down[0]).Waiting? {
      RoomAfterOne(s.client, s.down[0]);
    }
  }

  lemma {:induction false} RoomAlwaysKept(moves: seq<Move>, lines: seq<string>)
    requires IsRun(moves, lines)
    ensures RoomKept(After(moves, lines))
  {
    hide CanMove, MakeMove;
    if moves == [] {
    } else {
      RoomAlwaysKept(moves[..|moves| - 1], lines);
      MoveKeepsRoom(After(moves[..|moves| - 1], lines), moves[|moves| - 1], lines);
    }
  }

  /** With any lines, in any reachable state: an append fits exactly when the record is not
      yet as long as what was allocated, or the datagram is not a full chunk of text. */
  lemma RunsHaveRoomIff(moves: seq<Move>, lines: seq<string>, d: Datagram)
    requires IsRun(moves, lines) && IsAppended(After(moves, lines), d)
    ensures var c := After(moves, lines).client;
      AppendFits(c, d) <==> |Collected(c.data)| < c.totalSize || |Text(d)| < BREAK_SIZE
  {
    RoomAlwaysKept(moves, lines);
    hide After, Text;
  }

  lemma OneMoveMore(moves: seq<Move>, m: Move, lines: seq<string>)
    requires IsRun(moves, lines) && CanMove(After(moves, lines), m)
    ensures IsRun(moves + [m], lines) && After(moves + [m], lines) == MakeMove(After(moves, lines), m, lines)
  {
    hide CanMove, MakeMove;
    assert (moves + [m])[..|moves|] == moves;
  }

  /** What the client is left with when the first chunk of a line reads END: it has asked
      again, and the second chunk is the next it receives. */
  predicate SecondChunkIsNext(s: Net, line: string)
    requires |Chunks(line)| > 1
  {
    s.client == FRESH && s.down == [Chunks(line)[1]]
  }

  lemma SendsThree(line: string) returns (moves: seq<Move>)
    requires |Chunks(line)| > 1
    ensures IsRun(moves, [line])
    ensures After(moves, [line]) == Net(Sending(Datagrams(line)[3..]), FRESH, [], Datagrams(line)[..3], 1, [])
  {
    var lines, ds := [line], Datagrams(line);
    assert IsRun([], lines);
    assert After([], lines) == AT_START;
    hide After, IsRun, Chunks;
    OneMoveMore([], ClientSends, lines);
    moves := [] + [ClientSends];
    OneMoveMore(moves, ServerReceives, lines);
    moves := moves + [ServerReceives];
    OneMoveMore(moves, ServerReads, lines);
    moves := moves + [ServerReads];
    assert After(moves, lines) == Net(Sending(ds), FRESH, [], [], 1, []);
    OneMoveMore(moves, ServerSends, lines);
    moves := moves + [ServerSends];
    assert ds[1..] != [] && ds[1..][0] == ds[1];
    OneMoveMore(moves, ServerSends, lines);
    moves := moves + [ServerSends];
    assert ds[1..][1..] == ds[2..] != [] && ds[2..][0] == ds[2];
    OneMoveMore(moves, ServerSends, lines);
    moves := moves + [ServerSends];
    assert ds[2..][1..] == ds[3..] != [];
    assert ds[..3] == [ds[0]] + [ds[1]] + [ds[2]];
  }

  lemma AsksAgain(moves: seq<Move>, line: string) returns (more: seq<Move>)
    requires IsRun(moves, [line]) && |Chunks(line)| > 1 && Text(Chunks(line)[0]) == END
    requires After(moves, [line]) == Net(Sending(Datagrams(line)[3..]), FRESH, [], Datagrams(line)[..3], 1, [])
    ensures IsRun(more, [line]) && SecondChunkIsNext(After(more, [line]), line)
  {
    var lines, ds := [line], Datagrams(line);
    hide After, IsRun, Text, Chunks;
    TextIsAll(BEGIN);
    OneMoveMore(moves, ClientReceives, lines);
    more := moves + [ClientReceives];
    assert ds[..3][1..] == [ds[1], ds[2]];
    OneMoveMore(more, ClientReceives, lines);
    more := more + [ClientReceives];
    assert [ds[1], ds[2]][1..] == [ds[2]];
    OneMoveMore(more, ClientSends, lines);
    more := more + [ClientSends];
  }

  /** The boundary is reached by every such line: one whose first chunk reads END up to a NUL and whose
      second is full of text has that second chunk appended without a BEGIN, and it does not
      fit by the one character of its terminator. */
  lemma RoomRunsOutOn(line: string) returns (moves: seq<Move>)
    requires |Chunks(line)| > 1 && Text(Chunks(line)[0]) == END && |Text(Chunks(line)[1])| == BREAK_SIZE
    ensures IsRun(moves, [line]) && IsAppended(After(moves, [line]), Chunks(line)[1])
    ensures !AppendFits(After(moves, [line]).client, Chunks(line)[1])
  {
    hide After, IsRun, Chunks, Text;
    moves := SendsThree(line);
    moves := AsksAgain(moves, line);
  }

  /** There are such lines. */
  lemma SuchALine() returns (line: string)
    ensures |Chunks(line)| > 1 && Text(Chunks(line)[0]) == END && |Text(Chunks(line)[1])| == BREAK_SIZE
  {
    var filler := seq(BREAK_SIZE - 4, _ => 'x');
    var second := seq(BREAK_SIZE, _ => 'x');
    var first := END + "\0" + filler;
    line := first + second;
    assert line[..BREAK_SIZE] == first && line[BREAK_SIZE..] == second;
    assert Text(first) == END by { UpToFirst(first, '\0', 3); assert first[..3] == END; }
    TextIsAll(second);
  }

  /** So there are a line and a run in which an append lacks room. */
  lemma RoomRunsOut() returns (line: string, moves: seq<Move>, d: Datagram)
    ensures IsRun(moves, [line]) && IsAppended(After(moves, [line]), d)
    ensures !AppendFits(After(moves, [line]).client, d)
  {
    hide After, IsRun, Chunks, Text, AppendFits;
    line := SuchALine();
    moves := RoomRunsOutOn(line);
    d := Chunks(line)[1];
  }

  // ---------------------------------------------------------------------------
  // The loops of server.c and client.c
  // ---------------------------------------------------------------------------

  class Socket {
    var sent: seq<Datagram>
    var incoming: seq<Datagram>

    method SendTo(d: Datagram)
      modifies this
      ensures sent == old(sent) + [d] && incoming == old(incoming)
    {
      sent := sent + [d];
    }

    method ReceiveFrom() returns (d: Datagram)
      requires incoming != []
      modifies this
      ensures [d] + incoming == old(incoming) && sent == old(sent)
    {
      d := incoming[0];
      incoming := incoming[1..];
    }
  }

  /** The SEND state of the server, once it has a line. */
  method SendLine(socket: Socket, line: string)
    modifies socket
    ensures socket.sent == old(socket.sent) + Datagrams(line) && socket.incoming == old(socket.incoming)
  {
    var start: nat, read: nat := 0, |line|;
    socket.SendTo(BEGIN);
    while read > BREAK_SIZE
      invariant start + read == |line|
      invariant socket.incoming == old(socket.incoming)
      invariant socket.sent + Chunks(line[start..]) == old(socket.sent) + [BEGIN] + Chunks(line)
    {
      var rest := line[start..];
      assert rest[..BREAK_SIZE] == line[start..start + BREAK_SIZE] && rest[BREAK_SIZE..] == line[start + BREAK_SIZE..];
      socket.SendTo(line[start..start + BREAK_SIZE]);
      start := start + BREAK_SIZE;
      read := read - BREAK_SIZE;
    }
    assert line[start..start + read] == line[start..];
    socket.SendTo(line[start..start + read]);
    assert socket.sent == old(socket.sent) + [BEGIN] + Chunks(line);
    socket.SendTo(END);
  }

  /** What the client does with one datagram: BEGIN, DONE, END or data. */
  method HandleDatagram(buffer: Datagram, dataWas: Option<string>, sizeWas: nat)
      returns (data: Option<string>, totalSize: nat, finished: bool, loop: bool)
    ensures var r := OnDatagram(Waiting(dataWas, sizeWas), buffer);
      && (finished <==> !r.Waiting?) && (loop <==> r != Stopped)
      && (if finished then data == dataWas else r == Waiting(data, totalSize))
  {
    data, totalSize, finished, loop := dataWas, sizeWas, false, true;
    var text := Text(buffer);
    if text == BEGIN {
      totalSize := BREAK_SIZE;
      data := Some("");
    } else if text == DONE {
      finished, loop := true, false;
    } else if text == END {
      finished := true;
    } else {
      totalSize := totalSize + BREAK_SIZE;
      data := Some(Collected(data) + text);
    }
  }

  /** The WAIT state of the client: receive until END or DONE. before is how many datagrams
      were received without ending the record. */
  method ReceiveRecord(socket: Socket) returns (printed: seq<string>, loop: bool, ghost before: nat)
    requires !Over(FRESH, socket.incoming).Waiting?
    modifies socket
    ensures before < |old(socket.incoming)| && socket.incoming == old(socket.incoming)[before + 1..]
    ensures socket.sent == old(socket.sent)
    ensures var c := Over(FRESH, old(socket.incoming)[..before]);
      var last := old(socket.incoming)[before];
      && c.Waiting? && !OnDatagram(c, last).Waiting?
      && printed == Printed(c, last) && (loop <==> OnDatagram(c, last) != Stopped)
  {
    var data: Option<string>, totalSize: nat, finished := None, 0, false;
    ghost var all := socket.incoming;
    before, loop := 0, true;
    assert all[..0] == [];
    NothingSeen(FRESH);
    hide Over, OnDatagram;
    while !finished
      invariant before <= |all| && socket.sent == old(socket.sent)
      invariant !finished ==> socket.incoming == all[before..] && loop
      invariant !finished ==> Over(FRESH, all[..before]) == Waiting(data, totalSize)
      invariant finished ==> before < |all| && socket.incoming == all[before + 1..]
      invariant finished ==> var c := Over(FRESH, all[..before]);
        && c.Waiting? && c.data == data && !OnDatagram(c, all[before]).Waiting?
        && (loop <==> OnDatagram(c, all[before]) != Stopped)
      decreases |all| - before, !finished
    {
      assert before < |all| by { assert all[..|all|] == all; }
      var buffer := socket.ReceiveFrom();
      assert all[..before + 1] == all[..before] + [buffer];
      OverOne(FRESH, all[..before], buffer);
      data, totalSize, finished, loop := HandleDatagram(buffer, data, totalSize);
      if !finished {
        before := before + 1;
      }
    }
    printed := if data.Some? then [data.value] else [];
  }
}
