/** Exactly which '$ ... CR LF' frames the text framer dispatches whole, from any state and for
    any body. */
module TextFrames {
  import opened Bytes
  import opened Framer
  import opened FramerProperties

  function TextFrame(body: seq<Byte>): Packet {
    [ASCII_START] + body + [CARRIAGE_RETURN] + [LINE_FEED]
  }

  /** The end-character flag after some of a body, starting from f: it is set by a CR that finds
      it clear and cleared by anything else. */
  predicate Flag(f: bool, body: seq<Byte>) {
    if body == [] then f else !Flag(f, body[..|body| - 1]) && body[|body| - 1] == CARRIAGE_RETURN
  }

  /** An LF at k finds the flag set and ends the packet there. */
  predicate EndsAt(f: bool, body: seq<Byte>, k: nat) {
    k < |body| && body[k] == LINE_FEED && Flag(f, body[..k])
  }

  ghost predicate Ends(f: bool, body: seq<Byte>) {
    exists k :: EndsAt(f, body, k)
  }

  ghost predicate NoEndBefore(f: bool, body: seq<Byte>, n: nat) {
    forall k :: 0 <= k < n ==> !EndsAt(f, body, k)
  }

  lemma StartStep(s: AsciiState)
    requires ValidAscii(s)
    ensures AsciiStep(s, ASCII_START) == Outcome(AsciiState(true, s.endSeen, [ASCII_START]), [])
  {
  }

  lemma BodyStep(s: AsciiState, c: Byte)
    requires ValidAscii(s) && s.started && |s.buffer| < CAPACITY - 1 && c != ASCII_START
    ensures AsciiStep(s, c) ==
      if c == LINE_FEED && s.endSeen then Outcome(AsciiState(false, false, []), [s.buffer + [c]])
      else Outcome(AsciiState(true, !s.endSeen && c == CARRIAGE_RETURN, s.buffer + [c]), [])
  {
  }

  lemma Started(s: AsciiState)
    requires ValidAscii(s)
    ensures RunAscii(s, [ASCII_START]) == Outcome(AsciiState(true, s.endSeen, [ASCII_START]), [])
  {
    StartStep(s);
    NothingRead(s);
    hide RunAscii, AsciiStep, ValidAscii;
    AsciiExtend(s, [], ASCII_START, s, AsciiStep(s, ASCII_START));
    assert [] + [ASCII_START] == [ASCII_START];
  }

  lemma {:induction false} BodySoFar(s: AsciiState, body: seq<Byte>, k: nat)
    requires ValidAscii(s) && ASCII_START !in body && k <= |body| && k <= CAPACITY - 2
    requires NoEndBefore(s.endSeen, body, k)
    ensures RunAscii(s, [ASCII_START] + body[..k])
         == Outcome(AsciiState(true, Flag(s.endSeen, body[..k]), [ASCII_START] + body[..k]), [])
  {
    hide RunAscii, AsciiStep;
    if k == 0 {
      Started(s);
      assert [ASCII_START] + body[..0] == [ASCII_START];
    } else {
      var a, c := [ASCII_START] + body[..k - 1], body[k - 1];
      BodySoFar(s, body, k - 1);
      var mid := RunAscii(s, a).state;
      BodyStep(mid, c);
      AsciiExtend(s, a, c, mid, AsciiStep(mid, c));
      assert [ASCII_START] + body[..k] == a + [c] && body[..k][..k - 1] == body[..k - 1];
      assert !EndsAt(s.endSeen, body, k - 1);
    }
  }

  /** Without a '$' a framer that hunts goes on hunting. */
  lemma {:induction false} HuntsOn(s: AsciiState, input: seq<Byte>)
    requires ValidAscii(s) && !s.started && ASCII_START !in input
    ensures RunAscii(s, input).packets == [] && !RunAscii(s, input).state.started
  {
    if input == [] {
    } else {
      HuntsOn(s, input[..|input| - 1]);
    }
  }

  /** A body that ends a packet on its way: that much is dispatched, the rest is lost. */
  lemma EndsEarly(s: AsciiState, body: seq<Byte>, k: nat)
    requires ValidAscii(s) && ASCII_START !in body && k <= CAPACITY - 3
    requires EndsAt(s.endSeen, body, k) && NoEndBefore(s.endSeen, body, k)
    ensures RunAscii(s, TextFrame(body)).packets == [[ASCII_START] + body[..k + 1]]
  {
    hide RunAscii, AsciiStep;
    var a, rest := [ASCII_START] + body[..k], body[k + 1..] + [CARRIAGE_RETURN] + [LINE_FEED];
    BodySoFar(s, body, k);
    var mid := RunAscii(s, a).state;
    BodyStep(mid, LINE_FEED);
    AsciiExtend(s, a, LINE_FEED, mid, AsciiStep(mid, LINE_FEED));
    AsciiConcat(s, a + [LINE_FEED], rest);
    assert TextFrame(body) == a + [LINE_FEED] + rest && a + [LINE_FEED] == [ASCII_START] + body[..k + 1];
    HuntsOn(AsciiState(false, false, []), rest);
  }

  /** A body that ends no packet: the frame is dispatched whole if the flag is clear when its end
      characters come, and lost if it is set. */
  lemma EndsNowhere(s: AsciiState, body: seq<Byte>)
    requires ValidAscii(s) && ASCII_START !in body && |body| <= CAPACITY - 4
    requires !Ends(s.endSeen, body)
    ensures RunAscii(s, TextFrame(body)).packets == if Flag(s.endSeen, body) then [] else [TextFrame(body)]
  {
    hide RunAscii, AsciiStep, Flag, ValidAscii;
    var n := |body|;
    var a := [ASCII_START] + body[..n];
    BodyRead(s, body);
    var s0 := RunAscii(s, a).state;
    BodyStep(s0, CARRIAGE_RETURN);
    AsciiExtend(s, a, CARRIAGE_RETURN, s0, AsciiStep(s0, CARRIAGE_RETURN));
    var s1 := AsciiStep(s0, CARRIAGE_RETURN).state;
    BodyStep(s1, LINE_FEED);
    AsciiExtend(s, a + [CARRIAGE_RETURN], LINE_FEED, s1, AsciiStep(s1, LINE_FEED));
    assert body[..n] == body && TextFrame(body) == a + [CARRIAGE_RETURN] + [LINE_FEED];
  }

  lemma BodyRead(s: AsciiState, body: seq<Byte>)
    requires ValidAscii(s) && ASCII_START !in body && |body| <= CAPACITY - 4
    requires !Ends(s.endSeen, body)
    ensures var r := RunAscii(s, [ASCII_START] + body[..|body|]);
      && r == Outcome(AsciiState(true, Flag(s.endSeen, body), [ASCII_START] + body), [])
      && ValidAscii(r.state)
  {
    hide RunAscii, ValidAscii;
    BodySoFar(s, body, |body|);
    assert body[..|body|] == body;
  }

  /** Whatever was dispatched: '$' in front only, and short enough. */
  lemma {:induction false} PacketsAccepted(s: AsciiState, input: seq<Byte>, p: Packet)
    requires ValidAscii(s) && p in RunAscii(s, input).packets
    ensures AcceptedText(p)
  {
    hide AcceptedText, AsciiStep;
    if input == [] {
      assert false;
    } else {
      var n := |input| - 1;
      var before := RunAscii(s, input[..n]);
      if p in before.packets {
        PacketsAccepted(s, input[..n], p);
      } else {
        DispatchIsAccepted(before.state, input[n], p);
      }
    }
  }

  lemma DispatchIsAccepted(s: AsciiState, c: Byte, p: Packet)
    requires ValidAscii(s) && p in AsciiStep(s, c).packets
    ensures AcceptedText(p)
  {
    AsciiStepCases(s, c);
    hide AsciiStep, AcceptedText;
  }

  lemma FirstEnd(f: bool, body: seq<Byte>) returns (k: nat)
    requires Ends(f, body)
    ensures EndsAt(f, body, k) && NoEndBefore(f, body, k)
  {
    k := 0;
    while !EndsAt(f, body, k)
      invariant k <= |body| && NoEndBefore(f, body, k)
      decreases |body| - k
    {
      var j :| EndsAt(f, body, j);
      k := k + 1;
    }
  }

  lemma TooLongOrRestarted(s: AsciiState, body: seq<Byte>)
    requires ValidAscii(s) && (ASCII_START in body || |body| > CAPACITY - 4)
    ensures TextFrame(body) !in RunAscii(s, TextFrame(body)).packets
  {
    hide RunAscii, AcceptedText, TextFrame, ValidAscii;
    NotAccepted(body);
    if TextFrame(body) in RunAscii(s, TextFrame(body)).packets {
      PacketsAccepted(s, TextFrame(body), TextFrame(body));
    }
  }

  lemma EndedEarly(s: AsciiState, body: seq<Byte>)
    requires ValidAscii(s) && ASCII_START !in body && |body| <= CAPACITY - 4 && Ends(s.endSeen, body)
    ensures RunAscii(s, TextFrame(body)).packets != [TextFrame(body)]
  {
    hide RunAscii, ValidAscii, EndsAt, NoEndBefore;
    var k := FirstEnd(s.endSeen, body);
    EndIsInside(s.endSeen, body, k);
    EndsEarly(s, body, k);
    var packets := RunAscii(s, TextFrame(body)).packets;
    assert |packets[0]| < |TextFrame(body)|;
  }

  /** From any state and for any body: the frame is dispatched whole, and nothing else, exactly
      if the body has no '$' and at most 252 bytes, no LF of it meets a set flag, and the flag
      is clear at its end. */
  lemma DispatchedWholeIff(s: AsciiState, body: seq<Byte>)
    requires ValidAscii(s)
    ensures RunAscii(s, TextFrame(body)).packets == [TextFrame(body)] <==>
      ASCII_START !in body && |body| <= CAPACITY - 4 && !Ends(s.endSeen, body) && !Flag(s.endSeen, body)
  {
    hide RunAscii, ValidAscii, Flag, Ends, TextFrame;
    if ASCII_START in body || |body| > CAPACITY - 4 {
      TooLongOrRestarted(s, body);
    } else if Ends(s.endSeen, body) {
      EndedEarly(s, body);
    } else {
      EndsNowhere(s, body);
    }
  }

  lemma EndIsInside(f: bool, body: seq<Byte>, k: nat)
    requires EndsAt(f, body, k)
    ensures k < |body|
  {
  }

  lemma NotAccepted(body: seq<Byte>)
    requires ASCII_START in body || |body| > CAPACITY - 4
    ensures !AcceptedText(TextFrame(body))
  {
    if ASCII_START in body {
      var i :| 0 <= i < |body| && body[i] == ASCII_START;
      assert TextFrame(body)[i + 1] == ASCII_START;
    }
  }

  lemma {:induction false} FlagClear(f: bool, body: seq<Byte>)
    requires body != [] && CARRIAGE_RETURN !in body
    ensures !Flag(f, body)
  {
  }

  /** So one CR too many before the end characters loses any text packet, from any state. */
  lemma ExtraReturnLoses(s: AsciiState, body: seq<Byte>)
    requires ValidAscii(s) && 1 <= |body| <= CAPACITY - 5
    requires ASCII_START !in body && CARRIAGE_RETURN !in body && LINE_FEED !in body
    ensures RunAscii(s, TextFrame(body + [CARRIAGE_RETURN])).packets == []
  {
    hide RunAscii, ValidAscii;
    var longer := body + [CARRIAGE_RETURN];
    assert longer[..|body|] == body;
    FlagClear(s.endSeen, body);
    EndsNowhere(s, longer);
  }
}
