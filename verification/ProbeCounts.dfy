/** What the probe statistics of a table count over a whole run. */
module ProbeCounts {
  import opened Words
  import opened Flows
  import opened FlowTable
  import opened FlowMon
  import opened Epochs
  import opened WholeRun

  /** Try i is made for a flow exactly when all tries before it meet other flows. */
  ghost predicate Tries(slots: seq<Slot>, bits: nat, id: FlowId, i: nat)
    requires 1 <= bits <= 30 && |slots| == Pow2(bits)
  {
    forall j :: 0 <= j < i ==> var s := slots[TableProbes(bits)(id, j)]; Live(s) && Id(s.key) != id
  }

  lemma {:induction false} CountProbesAt(probes: seq<u32>, k: nat, i: nat)
    requires k <= |probes| && i < |probes|
    ensures CountProbes(probes, k)[i] == if i < k then CountOne(probes[i]) else probes[i]
    decreases k
  {
    if k > 0 {
      CountProbesAt(probes, k - 1, i);
    }
  }

  /** How often try i has been made in a table, modulo 2^32. */
  function Statistic(t: Table, i: nat): u32 {
    if i < |t.probes| then t.probes[i] else 0
  }

  lemma RecordProbes(t: Table, bits: nat, p: Pkt)
    requires WellFormed(t, bits)
    ensures Record(t, bits, p).0.probes
         == CountProbes(t.probes, TriesMade(FindTry(t.slots, TableProbes(bits), Id(p.key), 0)))
  {
    RecordBySearch(t, bits, p);
    if FindTry(t.slots, TableProbes(bits), Id(p.key), 0) == 32 {
      assert Record(t, bits, p).0 == Missed(t);
    }
  }

  /** Recording a packet counts each of the tries it makes, and no other. */
  lemma RecordCounts(t: Table, bits: nat, p: Pkt, i: nat)
    requires WellFormed(t, bits) && i < 32
    ensures Statistic(Record(t, bits, p).0, i)
         == if Tries(t.slots, bits, Id(p.key), i) then Wrap32(Statistic(t, i) + 1) else Statistic(t, i)
  {
    RecordProbes(t, bits, p);
    CountProbesAt(t.probes, TriesMade(FindTry(t.slots, TableProbes(bits), Id(p.key), 0)), i);
    TriesMadeIff(t.slots, bits, Id(p.key), i);
  }

  lemma TriesMadeIff(slots: seq<Slot>, bits: nat, id: FlowId, i: nat)
    requires 1 <= bits <= 30 && |slots| == Pow2(bits) && i < 32
    ensures Tries(slots, bits, id, i) <==> i < TriesMade(FindTry(slots, TableProbes(bits), id, 0))
  {
    var r := FindTry(slots, TableProbes(bits), id, 0);
    if i <= r {
      TriesUpTo(slots, bits, id, i, r);
    } else {
      StopsBefore(slots, bits, id, i, r);
    }
  }

  lemma TriesUpTo(slots: seq<Slot>, bits: nat, id: FlowId, i: nat, r: nat)
    requires 1 <= bits <= 30 && |slots| == Pow2(bits) && i <= r
    requires r == FindTry(slots, TableProbes(bits), id, 0)
    ensures Tries(slots, bits, id, i)
  {
  }

  lemma StopsBefore(slots: seq<Slot>, bits: nat, id: FlowId, i: nat, r: nat)
    requires 1 <= bits <= 30 && |slots| == Pow2(bits) && r < i <= 32
    requires r == FindTry(slots, TableProbes(bits), id, 0)
    ensures !Tries(slots, bits, id, i)
  {
    var s := slots[TableProbes(bits)(id, r)];
    assert Id(s.key) == id || !Live(s);
  }

  ghost predicate SameProbes(m: Mon, m': Mon) {
    |m'.tables| == |m.tables| && forall i :: 0 <= i < |m.tables| ==> m'.tables[i].probes == m.tables[i].probes
  }

  /** Neither a dump nor the search for a table touches the statistics. */
  lemma {:induction false} AcquireKeepsProbes(m: Mon, bits: nat, i: nat)
    requires Ready(m, bits) && i <= |m.tables|
    ensures SameProbes(m, Acquire(m, bits, i).0)
    decreases |m.tables| - i
  {
    if m.tables[m.idx].locked && i < |m.tables| {
      AcquireKeepsProbes(Next(m, bits), bits, i + 1);
    }
  }

  lemma GetTableKeepsProbes(m: Mon, bits: nat, sec: u32, clock: Clock)
    requires Ready(m, bits)
    ensures SameProbes(m, GetTable(m, bits, sec, clock).0)
  {
    var t := m.tables[m.idx];
    if !(t.dirty && !Expired(t.firstSec, sec)) {
      AcquireKeepsProbes(if t.dirty then Next(Dump(m, bits, m.idx, clock), bits) else m, bits, 0);
    }
  }

  /** The state in which the last event's packet is searched for. */
  ghost function Searched(c: Config, events: seq<Event>): (m: Mon)
    requires ValidConfig(c) && events != []
    ensures Ready(m, c.bits) && |m.tables| == c.tables
  {
    var n := |events| - 1;
    GetTable(Run(c, events[..n]), c.bits, events[n].p.sec, events[n].clock).0
  }

  /** Whether try i is made in the table when the packet is searched for. */
  ghost function Made(m: Mon, bits: nat, p: Pkt, table: nat, i: nat): nat
    requires Ready(m, bits) && table < |m.tables|
  {
    if m.idx == table && Tries(m.tables[table].slots, bits, Id(p.key), i) then 1 else 0
  }

  /** How often try i was made in a table during a run. */
  ghost function Tried(c: Config, events: seq<Event>, table: nat, i: nat): nat
    requires ValidConfig(c) && table < c.tables
  {
    if events == [] then 0
    else
      var n := |events| - 1;
      Tried(c, events[..n], table, i) + Made(Searched(c, events), c.bits, events[n].p, table, i)
  }

  lemma SearchSucceeds(c: Config, events: seq<Event>)
    requires ValidConfig(c) && events != [] && NoNullFlow(events)
    ensures var n := |events| - 1;
      GetTable(Run(c, events[..n]), c.bits, events[n].p.sec, events[n].clock).1
  {
    var n := |events| - 1;
    RunConsistent(c, events[..n]);
    GetSucceeds(Run(c, events[..n]), c.bits, HistoryOf(Arrivals(c, events[..n])), events[n].p.sec, events[n].clock);
  }

  /**
   * Over a whole run probes[i] of a table counts, modulo 2^32, the packets for which try i was made
   * in it; dumps and the cleaning of the table do not reset it.
   */
  lemma {:induction false} ProbesCountTries(c: Config, events: seq<Event>, table: nat, i: nat)
    requires ValidConfig(c) && NoNullFlow(events) && table < c.tables && i < 32
    ensures Statistic(Run(c, events).tables[table], i) == Wrap32(Tried(c, events, table, i))
    decreases |events|
  {
    if events == [] {
      NothingTried(c, table, i);
    } else {
      var before := Tried(c, events[..|events| - 1], table, i);
      ProbesCountTries(c, events[..|events| - 1], table, i);
      var made := LastTried(c, events, table, i, before);
      TriedStep(c, events, table, i, before, made);
    }
  }

  lemma TriedStep(c: Config, events: seq<Event>, table: nat, i: nat, before: nat, made: nat)
    requires ValidConfig(c) && table < c.tables && events != []
    requires before == Tried(c, events[..|events| - 1], table, i)
    requires made == Made(Searched(c, events), c.bits, events[|events| - 1].p, table, i)
    ensures Tried(c, events, table, i) == before + made
  {
  }

  lemma NothingTried(c: Config, table: nat, i: nat)
    requires ValidConfig(c) && table < c.tables && i < 32
    ensures Statistic(Run(c, []).tables[table], i) == 0 && Tried(c, [], table, i) == 0
  {
  }

  lemma LastTried(c: Config, events: seq<Event>, table: nat, i: nat, n: nat) returns (made: nat)
    requires ValidConfig(c) && events != [] && NoNullFlow(events) && table < c.tables && i < 32
    requires Statistic(Run(c, events[..|events| - 1]).tables[table], i) == Wrap32(n)
    ensures made == Made(Searched(c, events), c.bits, events[|events| - 1].p, table, i)
    ensures Statistic(Run(c, events).tables[table], i) == Wrap32(n + made)
  {
    var e := events[|events| - 1];
    SearchSucceeds(c, events);
    made := HookCounts(Run(c, events[..|events| - 1]), c.bits, e.p, e.clock, table, i, n);
  }

  lemma HookCounts(m: Mon, bits: nat, p: Pkt, clock: Clock, table: nat, i: nat, n: nat) returns (made: nat)
    requires Ready(m, bits) && table < |m.tables| && i < 32 && GetTable(m, bits, p.sec, clock).1
    requires Statistic(m.tables[table], i) == Wrap32(n)
    ensures made == Made(GetTable(m, bits, p.sec, clock).0, bits, p, table, i)
    ensures Statistic(Hook(m, bits, p, clock).0.tables[table], i) == Wrap32(n + made)
  {
    made := Made(GetTable(m, bits, p.sec, clock).0, bits, p, table, i);
    GetTableKeepsProbes(m, bits, p.sec, clock);
    OneMoreTried(GetTable(m, bits, p.sec, clock).0, bits, p, table, i, n);
  }

  lemma OneMoreTried(m: Mon, bits: nat, p: Pkt, table: nat, i: nat, n: nat)
    requires Ready(m, bits) && table < |m.tables| && i < 32 && Statistic(m.tables[table], i) == Wrap32(n)
    ensures Statistic(SetTable(m, Record(m.tables[m.idx], bits, p).0).tables[table], i)
         == Wrap32(n + Made(m, bits, p, table, i))
  {
    if m.idx == table {
      RecordCounts(m.tables[table], bits, p, i);
      CountedOnce(n);
    }
  }

  lemma CountedOnce(n: nat)
    ensures Wrap32(Wrap32(n) + 1) == Wrap32(n + 1)
  {
    WrapAdd(n, 1);
  }
}
