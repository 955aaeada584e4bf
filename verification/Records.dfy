/** What the client prints for any datagrams whatever, in the words that go over the wire. */
module Records {
  import opened Sequences
  import opened LineTransfer

  function Texts(ds: seq<Datagram>): (t: seq<string>)
    ensures |t| == |ds| && forall i :: 0 <= i < |ds| ==> t[i] == Text(ds[i])
  {
    seq(|ds|, i requires 0 <= i < |ds| => Text(ds[i]))
  }

  /** Neither ends the record nor the transfer. */
  ghost predicate NoneEnds(ds: seq<Datagram>) {
    forall i :: 0 <= i < |ds| ==> Text(ds[i]) != "END" && Text(ds[i]) != "DONE"
  }

  ghost predicate NoneBegins(ds: seq<Datagram>) {
    forall i :: 0 <= i < |ds| ==> Text(ds[i]) != "BEGIN"
  }

  lemma {:induction false} GoesOnWaiting(ds: seq<Datagram>)
    requires NoneEnds(ds)
    ensures Over(FRESH, ds).Waiting? && (Over(FRESH, ds).data.Some? <==> ds != [])
  {
    hide Text;
    if ds == [] {
    } else {
      GoesOnWaiting(ds[..|ds| - 1]);
    }
  }

  lemma TextsOfMore(ds: seq<Datagram>)
    requires ds != []
    ensures Concat(Texts(ds)) == Concat(Texts(ds[..|ds| - 1])) + Text(ds[|ds| - 1])
  {
    hide Text;
    assert Texts(ds)[..|ds| - 1] == Texts(ds[..|ds| - 1]);
  }

  /** After a BEGIN, whatever came before it, the text of what follows is collected. */
  lemma {:induction false} CollectedAfterBegin(before: seq<Datagram>, ds: seq<Datagram>)
    requires NoneEnds(before) && NoneEnds(ds) && NoneBegins(ds)
    ensures var c := Over(FRESH, before + ["BEGIN"] + ds);
      c.Waiting? && c.data == Some(Concat(Texts(ds)))
  {
    hide Text, Texts;
    if ds == [] {
      assert before + ["BEGIN"] + [] == before + ["BEGIN"];
      GoesOnWaiting(before);
      OverOne(FRESH, before, "BEGIN");
      TextIsAll("BEGIN");
      NoTexts();
    } else {
      var n := |ds| - 1;
      CollectedAfterBegin(before, ds[..n]);
      assert before + ["BEGIN"] + ds == (before + ["BEGIN"] + ds[..n]) + [ds[n]];
      OverOne(FRESH, before + ["BEGIN"] + ds[..n], ds[n]);
      TextsOfMore(ds);
    }
  }

  /** And without a BEGIN as well, if anything came. */
  lemma {:induction false} CollectedWithoutBegin(ds: seq<Datagram>)
    requires NoneEnds(ds) && NoneBegins(ds) && ds != []
    ensures var c := Over(FRESH, ds); c.Waiting? && c.data == Some(Concat(Texts(ds)))
  {
    hide Text, Texts;
    var n := |ds| - 1;
    GoesOnWaiting(ds[..n]);
    TextsOfMore(ds);
    if n == 0 {
      NoTexts();
      assert ds[..0] == [];
    } else {
      CollectedWithoutBegin(ds[..n]);
    }
  }

  lemma NoTexts()
    ensures Concat(Texts([])) == ""
  {
  }

  /** At END and at DONE alike the text since the last BEGIN is printed as one record, whatever
      a line was cut into; END asks for the next line, DONE stops the client. */
  lemma RecordPrinted(before: seq<Datagram>, ds: seq<Datagram>, d: Datagram)
    requires NoneEnds(before) && NoneEnds(ds) && NoneBegins(ds) && Text(d) in {"END", "DONE"}
    ensures var c := Over(FRESH, before + ["BEGIN"] + ds);
      && c.Waiting? && Printed(c, d) == [Concat(Texts(ds))]
      && OnDatagram(c, d) == if Text(d) == "END" then Acking else Stopped
  {
    hide Text, Texts;
    CollectedAfterBegin(before, ds);
  }

  /** Without a BEGIN, nothing is printed if nothing came. */
  lemma UnbegunPrinted(ds: seq<Datagram>, d: Datagram)
    requires NoneEnds(ds) && NoneBegins(ds) && Text(d) in {"END", "DONE"}
    ensures var c := Over(FRESH, ds);
      && c.Waiting? && Printed(c, d) == (if ds == [] then [] else [Concat(Texts(ds))])
      && OnDatagram(c, d) == if Text(d) == "END" then Acking else Stopped
  {
    hide Text, Texts;
    if ds != [] {
      CollectedWithoutBegin(ds);
    }
  }
}
