/** The transfer never makes up text: a balance of characters over all runs and all lines, and
    from it the converse of delivery, that only safe lines all arrive. */
module LineConservation {
  import opened Sequences
  import opened LineTransfer

  /** The text a datagram brings to a record. */
  function Payload(d: Datagram): nat {
    if IsControl(Text(d)) then 0 else |Text(d)|
  }

  function PayloadAll(ds: seq<Datagram>): nat {
    if ds == [] then 0 else PayloadAll(ds[..|ds| - 1]) + Payload(ds[|ds| - 1])
  }

  function TotalLength(texts: seq<string>): nat {
    if texts == [] then 0 else TotalLength(texts[..|texts| - 1]) + |texts[|texts| - 1]|
  }

  lemma {:induction false} PayloadConcat(a: seq<Datagram>, b: seq<Datagram>)
    ensures PayloadAll(a + b) == PayloadAll(a) + PayloadAll(b)
  {
    hide Payload;
    if b == [] {
      assert a + b == a;
    } else {
      var n := |b| - 1;
      assert (a + b)[..|a + b| - 1] == a + b[..n];
      PayloadConcat(a, b[..n]);
    }
  }

  lemma PayloadOfOne(d: Datagram)
    ensures PayloadAll([d]) == Payload(d)
  {
    hide Payload;
    assert [d][..0] == [];
  }

  lemma PayloadOfFirst(ds: seq<Datagram>)
    requires ds != []
    ensures PayloadAll(ds) == Payload(ds[0]) + PayloadAll(ds[1..])
  {
    hide PayloadAll, Payload;
    PayloadConcat([ds[0]], ds[1..]);
    PayloadOfOne(ds[0]);
    assert ds == [ds[0]] + ds[1..];
  }

  lemma PayloadOfMore(ds: seq<Datagram>, d: Datagram)
    ensures PayloadAll(ds + [d]) == PayloadAll(ds) + Payload(d)
  {
    hide PayloadAll, Payload;
    PayloadConcat(ds, [d]);
    PayloadOfOne(d);
  }

  // ---------------------------------------------------------------------------
  // A line
  // ---------------------------------------------------------------------------

  /** A chunk that brings all of itself. */
  predicate IsPlain(d: Datagram) {
    '\0' !in d && (d == "" || !IsControl(d))
  }

  lemma PayloadOfChunk(d: Datagram)
    ensures Payload(d) <= |d| && (Payload(d) == |d| <==> IsPlain(d)) && (IsPlain(d) ==> '\0' !in d)
  {
    if '\0' !in d { TextIsAll(d); }
  }

  lemma {:induction false} PayloadOfChunks(chunks: seq<Datagram>)
    ensures PayloadAll(chunks) <= |Concat(chunks)|
    ensures PayloadAll(chunks) == |Concat(chunks)| ==>
      '\0' !in Concat(chunks) && forall k :: 0 <= k < |chunks| ==> IsPlain(chunks[k])
  {
    hide Payload, IsPlain;
    if chunks == [] {
    } else {
      PayloadOfChunks(chunks[..|chunks| - 1]);
      PayloadOfChunk(chunks[|chunks| - 1]);
    }
  }

  lemma PayloadOfDatagrams(line: string)
    ensures PayloadAll(Datagrams(line)) == PayloadAll(Chunks(line))
  {
    hide Text, Chunks, PayloadAll;
    PayloadOfFirst(Datagrams(line));
    assert Datagrams(line)[1..] == Chunks(line) + [END];
    PayloadOfMore(Chunks(line), END);
    TextIsAll(BEGIN);
    TextIsAll(END);
  }

  /** A line brings at most its own length, and all of it only if it is safe. */
  lemma PayloadOfLine(line: string)
    requires line != ""
    ensures PayloadAll(Datagrams(line)) <= |line|
    ensures PayloadAll(Datagrams(line)) == |line| ==> IsSafe(line)
  {
    hide Chunks, PayloadAll, Datagrams, Text;
    PayloadOfDatagrams(line);
    ChunksOfLine(line);
    PayloadOfChunks(Chunks(line));
    assert LastChunk(line) == Chunks(line)[|Chunks(line)| - 1];
  }

  // ---------------------------------------------------------------------------
  // The balance
  // ---------------------------------------------------------------------------

  /** What the first lines have put on the wire. */
  function SentPayload(lines: seq<string>, n: nat): nat
    requires n <= |lines|
  {
    if n == 0 then 0 else SentPayload(lines, n - 1) + PayloadAll(Datagrams(lines[n - 1]))
  }

  function Held(c: Client): nat {
    if c.Waiting? then |Collected(c.data)| else 0
  }

  /** Text printed, held, on its way and not yet sent is no more than what the lines read
      brought. */
  ghost predicate Balanced(s: Net, lines: seq<string>) {
    && s.taken <= |lines|
    && TotalLength(s.records) + Held(s.client) + PayloadAll(s.down) + PayloadAll(Unsent(s.server))
    <= SentPayload(lines, s.taken)
  }

  lemma TotalOfMore(texts: seq<string>, more: seq<string>)
    requires |more| <= 1
    ensures TotalLength(texts + more) == TotalLength(texts) + if more == [] then 0 else |more[0]|
  {
    if more == [] {
      assert texts + more == texts;
    } else {
      assert (texts + more)[..|texts|] == texts;
    }
  }

  lemma ReceivingLosesNothing(c: Client, d: Datagram)
    requires c.Waiting?
    ensures |Printed(c, d)| <= 1
    ensures Held(OnDatagram(c, d)) + (if Printed(c, d) == [] then 0 else |Printed(c, d)[0]|) <= Held(c) + Payload(d)
  {
    hide Text;
  }

  lemma SendKeepsBalance(s: Net, lines: seq<string>)
    requires CanMove(s, ServerSends) && Balanced(s, lines)
    ensures Balanced(MakeMove(s, ServerSends, lines), lines)
  {
    hide SentPayload, TotalLength, PayloadAll, Payload;
    if s.server.Closing? {
      PayloadOfMore(s.down, DONE);
      PayloadOfDone();
    } else {
      PayloadOfMore(s.down, s.server.rest[0]);
      PayloadOfFirst(s.server.rest);
    }
  }

  lemma PayloadOfDone()
    ensures Payload(DONE) == 0
  {
    TextIsAll(DONE);
  }

  lemma ReceiveKeepsBalance(s: Net, lines: seq<string>)
    requires CanMove(s, ClientReceives) && Balanced(s, lines)
    ensures Balanced(MakeMove(s, ClientReceives, lines), lines)
  {
    hide SentPayload, TotalLength, PayloadAll, Payload, OnDatagram, Printed, Held;
    PayloadOfFirst(s.down);
    ReceivingLosesNothing(s.client, s.down[0]);
    TotalOfMore(s.records, Printed(s.client, s.down[0]));
  }

  lemma NoPayload()
    ensures PayloadAll([]) == 0
  {
  }

  lemma MoveKeepsBalance(s: Net, m: Move, lines: seq<string>)
    requires CanMove(s, m) && Balanced(s, lines)
    ensures Balanced(MakeMove(s, m, lines), lines)
  {
    hide TotalLength, PayloadAll, Datagrams;
    if m.ServerSends? {
      SendKeepsBalance(s, lines);
    } else if m.ClientReceives? {
      ReceiveKeepsBalance(s, lines);
    } else {
      NoPayload();
    }
  }

  /** In every run, whatever the lines are. */
  lemma {:induction false} AlwaysBalanced(moves: seq<Move>, lines: seq<string>)
    requires IsRun(moves, lines)
    ensures Balanced(After(moves, lines), lines)
  {
    hide CanMove, MakeMove, Balanced;
    if moves == [] {
      StartIsBalanced(lines);
    } else {
      AlwaysBalanced(moves[..|moves| - 1], lines);
      MoveKeepsBalance(After(moves[..|moves| - 1], lines), moves[|moves| - 1], lines);
    }
  }

  lemma StartIsBalanced(lines: seq<string>)
    ensures Balanced(AT_START, lines)
  {
  }

  // ---------------------------------------------------------------------------
  // Only safe lines all arrive
  // ---------------------------------------------------------------------------

  ghost predicate NoneEmpty(lines: seq<string>) {
    forall i :: 0 <= i < |lines| ==> lines[i] != ""
  }

  /** The lines read bring at most their length, and all of the input's only if all are read
      and safe. */
  lemma {:induction false} SentIsNoMore(lines: seq<string>, n: nat)
    requires n <= |lines| && NoneEmpty(lines)
    ensures SentPayload(lines, n) <= TotalLength(lines[..n])
    ensures SentPayload(lines, n) == TotalLength(lines[..n]) ==> AllSafe(lines[..n])
  {
    hide PayloadAll, Datagrams, IsSafe;
    if n == 0 {
    } else {
      SentIsNoMore(lines, n - 1);
      PayloadOfLine(lines[n - 1]);
      assert lines[..n][..n - 1] == lines[..n - 1];
    }
  }

  lemma {:induction false} FewerAreShorter(lines: seq<string>, n: nat)
    requires n < |lines| && NoneEmpty(lines)
    ensures TotalLength(lines[..n]) < TotalLength(lines)
  {
    var m := |lines| - 1;
    if n == m {
    } else {
      FewerAreShorter(lines[..m], n);
      assert lines[..m][..n] == lines[..n];
    }
  }

  /** If, in any state of any run, the records printed are the lines, then every line is safe. */
  lemma OnlySafeLinesArrive(moves: seq<Move>, lines: seq<string>)
    requires IsRun(moves, lines) && NoneEmpty(lines) && After(moves, lines).records == lines
    ensures AllSafe(lines)
  {
    hide After, SentPayload, TotalLength, PayloadAll, AllSafe, IsRun;
    AlwaysBalanced(moves, lines);
    var n := After(moves, lines).taken;
    SentIsNoMore(lines, n);
    if n < |lines| {
      FewerAreShorter(lines, n);
    }
    assert lines[..|lines|] == lines;
  }

  /** A run that cannot go on has printed exactly all lines if and only if all are safe. */
  lemma StuckDeliversIff(moves: seq<Move>, lines: seq<string>)
    requires IsRun(moves, lines) && NoneEmpty(lines) && Stuck(After(moves, lines))
    ensures After(moves, lines).records == lines <==> AllSafe(lines)
  {
    hide After, IsRun, IsSafe, Stuck;
    if AllSafe(lines) {
      StuckMeansDone(moves, lines);
    }
    if After(moves, lines).records == lines {
      OnlySafeLinesArrive(moves, lines);
    }
  }
}
