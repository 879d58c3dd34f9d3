/** The rule by which epochs end, in numbers: no sooner and no later. */
module EpochCuts {
  import opened Flows
  import opened FlowMon
  import opened Epochs
  import opened WholeRun
  import opened LogNames

  /** Ten seconds have passed since the first packet, or a ten-second boundary is reached in another second. */
  predicate Due(first: int, sec: int) {
    sec - first >= 10 || (sec % 10 == 0 && sec != first)
  }

  /** A packet starts a new epoch if it is due, and joins the last one if not. */
  function CutOrJoin(epochs: seq<seq<Pkt>>, p: Pkt): (r: seq<seq<Pkt>>)
    requires forall k :: 0 <= k < |epochs| ==> epochs[k] != []
    ensures forall k :: 0 <= k < |r| ==> r[k] != []
    ensures r != []
  {
    var n := |epochs| - 1;
    if epochs == [] || Due(epochs[n][0].sec, p.sec) then epochs + [[p]] else epochs[..n] + [epochs[n] + [p]]
  }

  /** The packets cut before each one that is due, counted from the first since the last cut. */
  function Cuts(ps: seq<Pkt>): (epochs: seq<seq<Pkt>>)
    ensures forall k :: 0 <= k < |epochs| ==> epochs[k] != []
    ensures epochs == [] <==> ps == []
  {
    if ps == [] then []
    else
      CutOrJoin(Cuts(ps[..|ps| - 1]), ps[|ps| - 1])
  }

  /** Recording a packet cuts before it exactly when it is due. */
  lemma {:induction false} EnterCuts(h: History, ps: seq<Pkt>, p: Pkt)
    requires AllEpochs(h) == Cuts(ps) && (h.open == [] ==> h.closed == [])
    ensures AllEpochs(Enter(Turn(h, p.sec), p, true)) == Cuts(ps + [p])
  {
    CutsSnoc(ps, p);
    if h.open == [] {
      assert [] + [p] == [p];
    } else {
      JoinOpen(h.closed, h.open, p);
      assert [] + [p] == [p];
    }
  }

  lemma JoinOpen(closed: seq<seq<Pkt>>, open: seq<Pkt>, p: Pkt)
    requires open != [] && forall k :: 0 <= k < |closed + [open]| ==> (closed + [open])[k] != []
    ensures CutOrJoin(closed + [open], p)
         == if Due(open[0].sec, p.sec) then (closed + [open]) + [[p]] else closed + [open + [p]]
  {
    var epochs := closed + [open];
    assert epochs[|epochs| - 1] == open && epochs[..|epochs| - 1] == closed;
  }

  lemma CutsSnoc(ps: seq<Pkt>, p: Pkt)
    ensures Cuts(ps + [p]) == CutOrJoin(Cuts(ps), p)
  {
    assert (ps + [p])[..|ps|] == ps;
  }

  /**
   * The epochs of every run are its recorded packets cut where they are due: each epoch goes on as
   * long as it may, and no longer, whatever packets were missed in between.
   */
  lemma {:induction false} EpochsAreCuts(c: Config, events: seq<Event>)
    requires ValidConfig(c) && NoNullFlow(events)
    ensures AllEpochs(HistoryOf(Arrivals(c, events))) == Cuts(RecordedPackets(Arrivals(c, events)))
    decreases |events|
  {
    if events != [] {
      var n := |events| - 1;
      var a := Arrivals(c, events);
      assert a[..n] == Arrivals(c, events[..n]);
      EpochsAreCuts(c, events[..n]);
      SomeEpochRuns(c, events);
      if n > 0 {
        SomeEpochRuns(c, events[..n]);
      }
      LastCut(a);
    }
  }

  lemma {:induction false} LastCut(a: seq<Arrival>)
    requires a != [] && HistoryOf(a).open != []
    requires var n := |a| - 1;
      && AllEpochs(HistoryOf(a[..n])) == Cuts(RecordedPackets(a[..n]))
      && (HistoryOf(a[..n]).open == [] ==> HistoryOf(a[..n]).closed == [])
    ensures AllEpochs(HistoryOf(a)) == Cuts(RecordedPackets(a))
  {
    var n := |a| - 1;
    var h, ps := HistoryOf(a[..n]), RecordedPackets(a[..n]);
    if a[n].recorded {
      EnterCuts(h, ps, a[n].p);
    } else {
      assert Turn(h, a[n].p.sec) == h;
      assert ps + [] == ps;
    }
  }

  /** Each epoch starts with a packet that is due after the first of the epoch before, in numbers. */
  ghost predicate StartsDue(epochs: seq<seq<Pkt>>) {
    && (forall k :: 0 <= k < |epochs| ==> epochs[k] != [])
    && (forall k :: 0 < k < |epochs| ==> Due(epochs[k - 1][0].sec, epochs[k][0].sec))
  }

  lemma CutStartsDue(epochs: seq<seq<Pkt>>, p: Pkt)
    requires StartsDue(epochs)
    ensures StartsDue(CutOrJoin(epochs, p))
  {
    var n: int, r: seq<seq<Pkt>> := |epochs| - 1, CutOrJoin(epochs, p);
    forall k | 0 < k < |r|
      ensures Due(r[k - 1][0].sec, r[k][0].sec)
    {
      if k <= n {
        assert r[k - 1][0] == epochs[k - 1][0] && r[k][0] == epochs[k][0];
      }
    }
  }

  lemma {:induction false} CutsStartDue(ps: seq<Pkt>)
    ensures StartsDue(Cuts(ps))
    decreases |ps|
  {
    if ps != [] {
      CutsStartDue(ps[..|ps| - 1]);
      CutStartsDue(Cuts(ps[..|ps| - 1]), ps[|ps| - 1]);
    }
  }

  /** In every run an epoch that is not the first starts only when it is due. */
  lemma EpochsStartDue(c: Config, events: seq<Event>)
    requires ValidConfig(c) && NoNullFlow(events)
    ensures StartsDue(AllEpochs(HistoryOf(Arrivals(c, events))))
  {
    EpochsAreCuts(c, events);
    CutsStartDue(RecordedPackets(Arrivals(c, events)));
  }

  /**
   * What a packet does to the tables after any run: it ends the running epoch, by one dump and a
   * move to the next table, exactly when it comes ten seconds or more after the epoch's first packet
   * or at a ten-second boundary that is not that packet's second.
   */
  lemma PacketDumpsIff(c: Config, events: seq<Event>, p: Pkt, clock: Clock)
    requires ValidConfig(c) && NoNullFlow(events)
    ensures var m := Run(c, events);
      Ends(m, Hook(m, c.bits, p, clock).0, HistoryOf(Arrivals(c, events)), p)
  {
    RunConsistent(c, events);
    HookEnds(Run(c, events), c.bits, HistoryOf(Arrivals(c, events)), p, clock);
  }

  /** The step from m to m' ends the running epoch of h when the packet is due, and only then. */
  ghost predicate Ends(m: Mon, m': Mon, h: History, p: Pkt) {
    if h.open != [] && (p.sec - h.open[0].sec >= 10 || (p.sec % 10 == 0 && p.sec != h.open[0].sec))
    then m.tables != [] && |m'.logs| == |m.logs| + 1 && m'.idx == (m.idx + 1) % |m.tables|
    else m'.logs == m.logs && m'.disk == m.disk && m'.idx == m.idx
  }

  lemma HookEnds(m: Mon, bits: nat, h: History, p: Pkt, clock: Clock)
    requires Consistent(m, bits, h)
    ensures Ends(m, Hook(m, bits, p, clock).0, h, p)
  {
    HookLogs(m, bits, p, clock);
    HookMoves(m, bits, h, p, clock);
  }

  lemma HookMoves(m: Mon, bits: nat, h: History, p: Pkt, clock: Clock)
    requires Consistent(m, bits, h)
    ensures Hook(m, bits, p, clock).0.idx
         == if h.open != [] && Expired(m.tables[m.idx].firstSec, p.sec) then (m.idx + 1) % |m.tables| else m.idx
  {
    GetSucceeds(m, bits, h, p.sec, clock);
    var t := m.tables[m.idx];
    assert t.dirty == (h.open != []);
    if t.dirty && Expired(t.firstSec, p.sec) {
      DumpFinishes(m, bits, h, clock);
    }
  }
}
