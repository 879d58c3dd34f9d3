/** What a sequence of recorded packets amounts to, flow by flow. */
module Summaries {
  import opened Words
  import opened Flows
  import opened TableMap

  /** The map that a table represents after recording the packets one by one. */
  function Summary(ps: seq<Pkt>): map<FlowId, Slot> {
    if ps == [] then map[] else Recorded(Summary(ps[..|ps| - 1]), ps[|ps| - 1])
  }

  /** The packets of one flow, in order. */
  function Mine(ps: seq<Pkt>, id: FlowId): (qs: seq<Pkt>)
    ensures forall i :: 0 <= i < |qs| ==> Id(qs[i].key) == id && qs[i] in ps
  {
    if ps == [] then []
    else
      var n := |ps| - 1;
      Mine(ps[..n], id) + (if Id(ps[n].key) == id then [ps[n]] else [])
  }

  /** How many of the packets went in direction d. */
  function Packets(qs: seq<Pkt>, d: Direction): nat {
    if qs == [] then 0
    else
      var n := |qs| - 1;
      Packets(qs[..n], d) + (if qs[n].dir == d then 1 else 0)
  }

  /** The bytes of the packets in direction d, with the Ethernet overhead of each. */
  function Octets(qs: seq<Pkt>, d: Direction): nat {
    if qs == [] then 0
    else
      var n := |qs| - 1;
      Octets(qs[..n], d) + (if qs[n].dir == d then qs[n].len + 38 else 0)
  }

  /** The union of the TCP flags of the packets in direction d. */
  function FlagBits(qs: seq<Pkt>, d: Direction): u16 {
    if qs == [] then 0
    else
      var n := |qs| - 1;
      if qs[n].dir == d then Or16(FlagBits(qs[..n], d), qs[n].flags) else FlagBits(qs[..n], d)
  }

  /** The entry that reports some packets of one flow: counts and sums modulo 2^32, first and last. */
  function Report(qs: seq<Pkt>): Slot
    requires qs != []
  {
    Slot(qs[0].key,
         Data(PerDir(Wrap32(Octets(qs, 0)), Wrap32(Octets(qs, 1))),
              PerDir(Wrap32(Packets(qs, 0)), Wrap32(Packets(qs, 1))),
              PerDir(FlagBits(qs, 0), FlagBits(qs, 1)),
              qs[0].sec, qs[|qs| - 1].sec, qs[0].dir))
  }

  lemma ReportFirst(p: Pkt)
    ensures Report([p]) == InsertEntry(ZERO_SLOT, p)
  {
    assert [p][..0] == [];
    forall d: Direction
      ensures Packets([p], d) == (if p.dir == d then 1 else 0)
      ensures Octets([p], d) == (if p.dir == d then p.len + 38 else 0)
      ensures FlagBits([p], d) == if p.dir == d then Or16(0, p.flags) else 0
    {
    }
    WrapAdd(0, p.len + 38);
  }

  lemma ReportNext(qs: seq<Pkt>, p: Pkt)
    requires qs != []
    ensures Report(qs + [p]) == UpdateEntry(Report(qs), p)
  {
    var all := qs + [p];
    assert all[..|qs|] == qs;
    forall d: Direction
      ensures Packets(all, d) == Packets(qs, d) + (if p.dir == d then 1 else 0)
      ensures Octets(all, d) == Octets(qs, d) + (if p.dir == d then p.len + 38 else 0)
      ensures FlagBits(all, d) == if p.dir == d then Or16(FlagBits(qs, d), p.flags) else FlagBits(qs, d)
    {
    }
    WrapAdd(Packets(qs, p.dir), 1);
    WrapAdd(Octets(qs, p.dir), p.len + 38);
    WrapAdd(Wrap32(Octets(qs, p.dir)), p.len + 38);
  }

  /** The summary reports, for each flow that occurs, exactly the packets of that flow. */
  lemma {:induction false} SummaryReports(ps: seq<Pkt>, id: FlowId)
    ensures id in Summary(ps) <==> Mine(ps, id) != []
    ensures id in Summary(ps) ==> Summary(ps)[id] == Report(Mine(ps, id))
    decreases |ps|
  {
    if ps != [] {
      var n := |ps| - 1;
      var qs := Mine(ps[..n], id);
      SummaryReports(ps[..n], id);
      if Id(ps[n].key) == id {
        if qs == [] {
          assert Mine(ps, id) == [ps[n]];
          ReportFirst(ps[n]);
        } else {
          ReportNext(qs, ps[n]);
        }
      } else {
        assert Mine(ps, id) == qs;
      }
    }
  }

  /** A reported flag bit is set exactly when some packet of that direction had it set. */
  lemma {:induction false} FlagBitReported(qs: seq<Pkt>, d: Direction, k: nat)
    ensures TestBit(FlagBits(qs, d), k)
        <==> exists i :: 0 <= i < |qs| && qs[i].dir == d && TestBit(qs[i].flags, k)
    decreases |qs|
  {
    if qs == [] {
      TestBitZero(k);
    } else {
      var n := |qs| - 1;
      FlagBitReported(qs[..n], d, k);
      assert forall i :: 0 <= i < n ==> qs[..n][i] == qs[i];
      if qs[n].dir == d {
        TestBitOr(FlagBits(qs[..n], d), qs[n].flags, k);
      }
    }
  }

  /** The two directions share out the packets of a flow. */
  lemma {:induction false} DirectionsShare(qs: seq<Pkt>)
    ensures Packets(qs, 0) + Packets(qs, 1) == |qs|
    decreases |qs|
  {
    if qs != [] {
      DirectionsShare(qs[..|qs| - 1]);
    }
  }
}
