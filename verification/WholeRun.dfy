/** Whole runs of the monitor: what every step keeps, and what the log files report in the end. */
module WholeRun {
  import opened Words
  import opened Hashing
  import opened Probing
  import opened Flows
  import opened FlowTable
  import opened TableMap
  import opened DumpTable
  import opened LogParser
  import opened LogRoundTrip
  import opened Layout
  import opened FlowMon
  import opened Summaries
  import opened Epochs

  /** One call of flowmon_hook, with the clock readings of the dump it may cause. */
  datatype Event = Event(p: Pkt, clock: Clock)

  /** What is fixed for a run: the tables, and what the log directory holds at its start. */
  datatype Config = Config(tables: nat, bits: nat, disk: Disk)

  ghost predicate ValidConfig(c: Config) {
    c.tables >= 1 && 1 <= c.bits <= 30
  }

  /** The state after flowmon_init and some events. */
  ghost function Run(c: Config, events: seq<Event>): (m: Mon)
    requires ValidConfig(c)
    ensures Ready(m, c.bits) && |m.tables| == c.tables
  {
    if events == [] then InitialMon(c.tables, c.bits, c.disk)
    else
      var n := |events| - 1;
      Hook(Run(c, events[..n]), c.bits, events[n].p, events[n].clock).0
  }

  /** What flowmon_hook returned for the last event. */
  ghost function Returned(c: Config, events: seq<Event>): int
    requires ValidConfig(c) && events != []
  {
    var n := |events| - 1;
    Hook(Run(c, events[..n]), c.bits, events[n].p, events[n].clock).1
  }

  /** The packets of the events, each recorded when flowmon_hook returned 0 or 1. */
  ghost function Arrivals(c: Config, events: seq<Event>): (a: seq<Arrival>)
    requires ValidConfig(c)
    ensures |a| == |events| && forall i :: 0 <= i < |a| ==> a[i].p == events[i].p
  {
    if events == [] then []
    else
      var n := |events| - 1;
      Arrivals(c, events[..n]) + [Arrival(events[n].p, Returned(c, events) >= 0)]
  }

  // ---- What every step keeps ----

  /** A clean table is all zero, unlocked and not dirty. */
  ghost predicate Clean(t: Table, bits: nat) {
    && WellFormed(t, bits)
    && !t.locked && !t.dirty && t.slots == ZeroSlots(Pow2(bits))
    && t.firstSec == 0 && t.nflows == 0 && t.nflowsMissed == 0
  }

  /** A table in use is locked and dirty, and represents the packets of the running epoch. */
  ghost predicate InUse(t: Table, bits: nat, h: History) {
    && WellFormed(t, bits)
    && t.locked && t.dirty && h.open != []
    && t.firstSec == h.open[0].sec
    && Refines(t.slots, TableProbes(bits), Summary(h.open))
    && t.nflows == |Summary(h.open)| && t.nflowsMissed == Wrap32(h.missed)
  }

  /** A log was written from a table that represented the packets of an epoch. */
  ghost predicate LogOf(log: LogFile, bits: nat, epoch: seq<Pkt>) {
    1 <= bits <= 30 &&
    exists slots ::
      |slots| == Pow2(bits) && Refines(slots, TableProbes(bits), Summary(epoch))
      && log.content == LogContent(log.held, slots, bits, log.clock)
  }

  /** The dumps so far are those of the finished epochs, from the tables in turn. */
  ghost predicate LogsOf(logs: seq<LogFile>, tables: nat, bits: nat, epochs: seq<seq<Pkt>>) {
    && tables > 0 && |logs| == |epochs|
    && (forall k :: 0 <= k < |logs| ==> LogOf(logs[k], bits, epochs[k]))
    && (forall k :: 0 <= k < |logs| ==> logs[k].name.table == k % tables)
  }

  /**
   * The invariant of every run: only the current table can be in use, it holds the running epoch,
   * every finished epoch has its log, and the tables are taken in turn.
   */
  ghost predicate Consistent(m: Mon, bits: nat, h: History) {
    && Ready(m, bits)
    && m.idx == |h.closed| % |m.tables|
    && m.lockMisses == 0
    && (forall i :: 0 <= i < |m.tables| && i != m.idx ==> Clean(m.tables[i], bits))
    && (if h.open == [] then h.missed == 0 && Clean(m.tables[m.idx], bits) else InUse(m.tables[m.idx], bits, h))
    && LogsOf(m.logs, |m.tables|, bits, h.closed)
  }

  /** A dump finishes the running epoch and moves on to the next table, which is clean. */
  lemma DumpFinishes(m: Mon, bits: nat, h: History, clock: Clock)
    requires Consistent(m, bits, h) && h.open != []
    ensures Consistent(Next(Dump(m, bits, m.idx, clock), bits), bits, History(h.closed + [h.open], [], 0))
  {
    DumpAddsLog(m, bits, h, clock);
    NextIndex(|h.closed|, |m.tables|);
  }

  lemma DumpAddsLog(m: Mon, bits: nat, h: History, clock: Clock)
    requires Consistent(m, bits, h) && h.open != []
    ensures LogsOf(Dump(m, bits, m.idx, clock).logs, |m.tables|, bits, h.closed + [h.open])
  {
    var slots := m.tables[m.idx].slots;
    var log := DumpedLog(m.disk, slots, bits, m.idx, clock);
    assert log.content == LogContent(log.held, slots, bits, log.clock);
    assert LogOf(log, bits, h.open);
    OneLogMore(m.logs, |m.tables|, bits, h.closed, log, h.open);
  }

  lemma OneLogMore(logs: seq<LogFile>, tables: nat, bits: nat, epochs: seq<seq<Pkt>>, log: LogFile, epoch: seq<Pkt>)
    requires LogsOf(logs, tables, bits, epochs) && LogOf(log, bits, epoch) && log.name.table == |logs| % tables
    ensures LogsOf(logs + [log], tables, bits, epochs + [epoch])
  {
  }

  lemma NextIndex(k: nat, n: nat)
    requires n > 0
    ensures (k % n + 1) % n == (k + 1) % n
  {
    ModAdd(k, 1, n);
  }

  /** The state in which flowtab_get hands out the current table for a packet at second sec. */
  ghost predicate Got(m: Mon, bits: nat, h: History, sec: u32) {
    && Ready(m, bits)
    && m.idx == |h.closed| % |m.tables|
    && m.lockMisses == 0
    && (forall i :: 0 <= i < |m.tables| && i != m.idx ==> Clean(m.tables[i], bits))
    && (if h.open == [] then h.missed == 0 && JustOpened(m.tables[m.idx], bits, sec)
        else InUse(m.tables[m.idx], bits, h))
    && LogsOf(m.logs, |m.tables|, bits, h.closed)
  }

  ghost predicate JustOpened(t: Table, bits: nat, sec: u32) {
    && WellFormed(t, bits)
    && t.locked && t.dirty && t.firstSec == sec
    && t.slots == ZeroSlots(Pow2(bits)) && t.nflows == 0 && t.nflowsMissed == 0
  }

  /** flowtab_get takes the running epoch's table or opens the next one, at the first try. */
  lemma GetSucceeds(m: Mon, bits: nat, h: History, sec: u32, clock: Clock)
    requires Consistent(m, bits, h)
    ensures GetTable(m, bits, sec, clock).1
    ensures Got(GetTable(m, bits, sec, clock).0, bits, Turn(h, sec), sec)
  {
    var t := m.tables[m.idx];
    assert t.dirty == (h.open != []);
    if t.dirty && !Expired(t.firstSec, sec) {
    } else {
      var rotated := if t.dirty then Next(Dump(m, bits, m.idx, clock), bits) else m;
      if t.dirty {
        DumpFinishes(m, bits, h, clock);
      }
      assert Consistent(rotated, bits, Turn(h, sec));
      assert !rotated.tables[rotated.idx].locked;
    }
  }

  /** The first packet that reaches a clean table is recorded. */
  lemma FirstIsRecorded(t: Table, bits: nat, p: Pkt)
    requires WellFormed(t, bits) && t.slots == ZeroSlots(Pow2(bits)) && t.nflows == 0
    requires Id(p.key) != NULL_ID
    ensures var (t', ret) := Record(t, bits, p);
      && ret == 1 && WellFormed(t', bits)
      && Refines(t'.slots, TableProbes(bits), Summary([p])) && t'.nflows == |Summary([p])|
      && t'.nflowsMissed == t.nflowsMissed
      && t' == t.(slots := t'.slots, nflows := t'.nflows, nflowsMissed := t'.nflowsMissed, probes := t'.probes)
  {
    EmptyRefines(bits);
    RecordRefines(t, bits, map[], p);
    assert !Live(t.slots[TableProbes(bits)(Id(p.key), 0)]);
    assert [p][..0] == [];
    assert Summary([p]) == Recorded(map[], p);
  }

  lemma OpenedTableRecords(t: Table, bits: nat, h: History, p: Pkt)
    requires h.open == [] && h.missed == 0 && JustOpened(t, bits, p.sec) && Id(p.key) != NULL_ID
    ensures var (t', ret) := Record(t, bits, p); ret == 1 && InUse(t', bits, Enter(h, p, true))
  {
    FirstIsRecorded(t, bits, p);
    assert h.open + [p] == [p];
  }

  lemma SummaryGrows(ps: seq<Pkt>, p: Pkt)
    ensures Summary(ps + [p]) == Recorded(Summary(ps), p)
  {
    assert (ps + [p])[..|ps|] == ps;
  }

  /** What recording keeps of a table in use. */
  lemma RecordTracks(t: Table, bits: nat, m: map<FlowId, Slot>, p: Pkt)
    requires WellFormed(t, bits) && Refines(t.slots, TableProbes(bits), m)
    requires Id(p.key) != NULL_ID && t.nflows == |m|
    ensures var (t', ret) := Record(t, bits, p);
      var m' := if ret == -1 then m else Recorded(m, p);
      && ret in {-1, 0, 1} && WellFormed(t', bits) && Refines(t'.slots, TableProbes(bits), m') && t'.nflows == |m'|
      && t'.nflowsMissed == (if ret == -1 then CountOne(t.nflowsMissed) else t.nflowsMissed)
      && (t'.locked, t'.dirty, t'.firstSec) == (t.locked, t.dirty, t.firstSec)
  {
    RecordRefines(t, bits, m, p);
  }

  lemma TableInUseRecords(t: Table, bits: nat, h: History, p: Pkt)
    requires InUse(t, bits, h) && Id(p.key) != NULL_ID
    ensures var (t', ret) := Record(t, bits, p); InUse(t', bits, Enter(h, p, ret >= 0))
  {
    RecordTracks(t, bits, Summary(h.open), p);
    var (t', ret) := Record(t, bits, p);
    TracksInUse(t, t', ret, bits, h, p);
  }

  lemma TracksInUse(t: Table, t': Table, ret: int, bits: nat, h: History, p: Pkt)
    requires InUse(t, bits, h) && ret in {-1, 0, 1} && WellFormed(t', bits)
    requires var m' := if ret == -1 then Summary(h.open) else Recorded(Summary(h.open), p);
      && Refines(t'.slots, TableProbes(bits), m') && t'.nflows == |m'|
      && t'.nflowsMissed == (if ret == -1 then CountOne(t.nflowsMissed) else t.nflowsMissed)
    requires (t'.locked, t'.dirty, t'.firstSec) == (t.locked, t.dirty, t.firstSec)
    ensures InUse(t', bits, Enter(h, p, ret >= 0))
  {
    if ret == -1 {
      MissCounted(h.missed);
    } else {
      SummaryGrows(h.open, p);
    }
  }

  lemma MissCounted(n: nat)
    ensures CountOne(Wrap32(n)) == Wrap32(n + 1)
  {
    WrapAdd(n, 1);
  }

  /** Recording in the table that flowtab_get handed out. */
  lemma RecordKeeps(m: Mon, bits: nat, h: History, p: Pkt)
    requires Got(m, bits, h, p.sec) && Id(p.key) != NULL_ID
    ensures var (t, ret) := Record(m.tables[m.idx], bits, p);
            Consistent(SetTable(m, t), bits, Enter(h, p, ret >= 0))
  {
    if h.open == [] {
      OpenedTableRecords(m.tables[m.idx], bits, h, p);
    } else {
      TableInUseRecords(m.tables[m.idx], bits, h, p);
    }
    var (t, ret) := Record(m.tables[m.idx], bits, p);
    CurrentInUse(m, bits, h, p.sec, t, Enter(h, p, ret >= 0));
  }

  lemma CurrentInUse(m: Mon, bits: nat, h: History, sec: u32, t: Table, h': History)
    requires Got(m, bits, h, sec) && InUse(t, bits, h') && h'.closed == h.closed
    ensures Consistent(SetTable(m, t), bits, h')
  {
  }

  /** One call of flowmon_hook keeps the invariant. */
  lemma HookKeeps(m: Mon, bits: nat, h: History, p: Pkt, clock: Clock)
    requires Consistent(m, bits, h) && Id(p.key) != NULL_ID
    ensures var (m', ret) := Hook(m, bits, p, clock);
            Consistent(m', bits, Enter(Turn(h, p.sec), p, ret >= 0))
  {
    GetSucceeds(m, bits, h, p.sec, clock);
    RecordKeeps(GetTable(m, bits, p.sec, clock).0, bits, Turn(h, p.sec), p);
  }

  /** No event carries the all-zero flow, which the table takes for a free slot. */
  ghost predicate NoNullFlow(events: seq<Event>) {
    forall i :: 0 <= i < |events| ==> Id(events[i].p.key) != NULL_ID
  }

  /** The invariant holds after every run. */
  lemma {:induction false} RunConsistent(c: Config, events: seq<Event>)
    requires ValidConfig(c) && NoNullFlow(events)
    ensures Consistent(Run(c, events), c.bits, HistoryOf(Arrivals(c, events)))
    decreases |events|
  {
    if events == [] {
      assert Clean(EmptyTable(c.bits), c.bits);
    } else {
      var n := |events| - 1;
      RunConsistent(c, events[..n]);
      var a := Arrivals(c, events);
      assert a[..n] == Arrivals(c, events[..n]);
      HookKeeps(Run(c, events[..n]), c.bits, HistoryOf(a[..n]), events[n].p, events[n].clock);
    }
  }

  // ---- What the log files report ----

  ghost predicate OneEntryEach(es: seq<Slot>) {
    forall i, j :: 0 <= i < j < |es| ==> Id(es[i].key) != Id(es[j].key)
  }

  ghost predicate Listed(es: seq<Slot>, id: FlowId) {
    exists i :: 0 <= i < |es| && Id(es[i].key) == id
  }

  /** One entry for each flow of the epoch and no other, with exactly that flow's packets. */
  ghost predicate Lists(es: seq<Slot>, epoch: seq<Pkt>) {
    && OneEntryEach(es)
    && (forall id :: Listed(es, id) <==> Mine(epoch, id) != [])
    && (forall i :: 0 <= i < |es| ==>
          Mine(epoch, Id(es[i].key)) != [] && es[i] == Report(Mine(epoch, Id(es[i].key))))
  }

  /** A current log file whose size word counts the entries, and which up to the last yields them. */
  ghost predicate Tells(content: seq<u8>, es: seq<Slot>) {
    CountsEntries(content, |es|) && StartsAs(content, es)
  }

  /**
   * So it is with a dump, whatever the file held; the rest of what it held follows. The header has
   * the clock readings of the dump, and every byte is where the format says.
   */
  ghost predicate Reads(log: LogFile, es: seq<Slot>) {
    && Tells(log.content, es) && GoesOnAs(log.content, log.held, es)
    && StampedAs(log.content, log.clock.start, log.clock.end)
    && LaidOutAs(log.content, log.held, es, log.clock.start, log.clock.end)
  }

  /** The dump can be read, and its entries list the epoch. */
  ghost predicate Reports(log: LogFile, epoch: seq<Pkt>) {
    exists es :: Reads(log, es) && Lists(es, epoch)
  }

  /** What a log reports is determined by its content: it reads as one list of sessions only. */
  lemma ReadsOnce(content: seq<u8>, es: seq<Slot>, es': seq<Slot>)
    requires Tells(content, es) && Tells(content, es')
    ensures SessionsOf(es) == SessionsOf(es')
  {
    assert LogSize(es) == LogSize(es');
  }

  /** All that a log leaves out of a session is the layer 3 protocol. */
  lemma SessionTells(a: Slot, b: Slot)
    requires SessionOf(a) == SessionOf(b) && a.key.l3Protocol == b.key.l3Protocol
    requires a.data.firstDir < 0x100 && b.data.firstDir < 0x100
    ensures a == b
  {
    var d, d' := SessionOf(a), SessionOf(b);
    assert d[LocalIp] == d'[LocalIp] && d[RemoteIp] == d'[RemoteIp];
    assert d[LocalPort] == d'[LocalPort] && d[RemotePort] == d'[RemotePort];
    assert d[LocalNetid] == d'[LocalNetid] && d[RemoteNetid] == d'[RemoteNetid];
    assert d[PacketsOut] == d'[PacketsOut] && d[PacketsIn] == d'[PacketsIn];
    assert d[OctetsOut] == d'[OctetsOut] && d[OctetsIn] == d'[OctetsIn];
    assert d[LocalFlags] == d'[LocalFlags] && d[RemoteFlags] == d'[RemoteFlags];
    assert d[BeginTime] == d'[BeginTime] && d[EndTime] == d'[EndTime];
    assert d[L4Protocol] == d'[L4Protocol] && d[FirstDirection] == d'[FirstDirection];
  }

  ghost predicate SameProtocol(epoch: seq<Pkt>, l3Protocol: u16) {
    forall p :: p in epoch ==> p.key.l3Protocol == l3Protocol
  }

  /** Two epochs of one protocol that a log reports have the same flows with the same entries. */
  lemma ReportsOnce(log: LogFile, epoch: seq<Pkt>, epoch': seq<Pkt>, l3Protocol: u16, id: FlowId)
    requires Reports(log, epoch) && Reports(log, epoch')
    requires SameProtocol(epoch, l3Protocol) && SameProtocol(epoch', l3Protocol)
    ensures Mine(epoch, id) != [] <==> Mine(epoch', id) != []
    ensures Mine(epoch, id) != [] ==> Report(Mine(epoch, id)) == Report(Mine(epoch', id))
  {
    var es :| Reads(log, es) && Lists(es, epoch);
    var es' :| Reads(log, es') && Lists(es', epoch');
    ReadsOnce(log.content, es, es');
    SameEntries(es, es', epoch, epoch', l3Protocol);
    assert Listed(es, id) <==> Mine(epoch, id) != [];
  }

  lemma SameEntries(es: seq<Slot>, es': seq<Slot>, epoch: seq<Pkt>, epoch': seq<Pkt>, l3Protocol: u16)
    requires SessionsOf(es) == SessionsOf(es') && Lists(es, epoch) && Lists(es', epoch')
    requires SameProtocol(epoch, l3Protocol) && SameProtocol(epoch', l3Protocol)
    ensures es == es'
  {
    assert |SessionsOf(es)| == |es| && |SessionsOf(es')| == |es'|;
    forall i | 0 <= i < |es|
      ensures es[i] == es'[i]
    {
      assert SessionsOf(es)[i] == SessionOf(es[i]) && SessionsOf(es')[i] == SessionOf(es'[i]);
      ListedSlot(es, epoch, l3Protocol, i);
      ListedSlot(es', epoch', l3Protocol, i);
      SessionTells(es[i], es'[i]);
    }
  }

  lemma ListedSlot(es: seq<Slot>, epoch: seq<Pkt>, l3Protocol: u16, i: nat)
    requires Lists(es, epoch) && SameProtocol(epoch, l3Protocol) && i < |es|
    ensures es[i].key.l3Protocol == l3Protocol && es[i].data.firstDir < 0x100
  {
    var qs := Mine(epoch, Id(es[i].key));
    assert qs[0] in epoch;
  }

  /** The hook's 16-byte test for a free slot agrees with the dump's 20-byte one. */
  lemma EmptinessAgrees(slots: seq<Slot>, bits: nat, m: map<FlowId, Slot>, i: nat)
    requires 1 <= bits <= 30 && Refines(slots, TableProbes(bits), m) && i < |slots|
    ensures Active(slots[i]) <==> Live(slots[i])
  {
    assert SlotFits(slots[i], m);
  }

  /** The occupied entries are the active slots, each once. */
  lemma {:induction false} OccupiedOnce(slots: seq<Slot>)
    requires OneSlotEach(slots) && forall i :: 0 <= i < |slots| ==> (Active(slots[i]) <==> Live(slots[i]))
    ensures OneEntryEach(Occupied(slots))
    ensures forall e :: e in Occupied(slots) ==> Active(e) && e in slots
    ensures forall i :: 0 <= i < |slots| && Active(slots[i]) ==> slots[i] in Occupied(slots)
    decreases |slots|
  {
    if slots != [] {
      var n := |slots| - 1;
      OccupiedOnce(slots[..n]);
      var es := Occupied(slots[..n]);
      forall i | 0 <= i < |es| && Active(slots[n])
        ensures Id(es[i].key) != Id(slots[n].key)
      {
        assert es[i] in slots[..n];
        var k :| 0 <= k < n && slots[k] == es[i];
      }
    }
  }

  /** A table that represents an epoch has exactly the entries that report it. */
  lemma OccupiedLists(slots: seq<Slot>, bits: nat, epoch: seq<Pkt>)
    requires 1 <= bits <= 30 && Refines(slots, TableProbes(bits), Summary(epoch))
    ensures Lists(Occupied(slots), epoch)
  {
    var probe, m, es := TableProbes(bits), Summary(epoch), Occupied(slots);
    forall i | 0 <= i < |slots|
      ensures Active(slots[i]) <==> Live(slots[i])
    {
      EmptinessAgrees(slots, bits, m, i);
    }
    OccupiedOnce(slots);
    forall i | 0 <= i < |es|
      ensures Id(es[i].key) in m && es[i] == m[Id(es[i].key)]
      ensures Mine(epoch, Id(es[i].key)) != [] && es[i] == Report(Mine(epoch, Id(es[i].key)))
    {
      assert es[i] in slots;
      var k :| 0 <= k < |slots| && slots[k] == es[i];
      assert SlotFits(slots[k], m);
      SummaryReports(epoch, Id(es[i].key));
    }
    forall id
      ensures Listed(es, id) <==> Mine(epoch, id) != []
    {
      SummaryReports(epoch, id);
      if id in m {
        EntryListed(slots, probe, m, id);
      }
    }
  }

  lemma EntryListed(slots: seq<Slot>, probe: ProbeSequence, m: map<FlowId, Slot>, id: FlowId)
    requires Refines(slots, probe, m) && id in m
    requires forall i :: 0 <= i < |slots| && Live(slots[i]) ==> slots[i] in Occupied(slots)
    ensures Listed(Occupied(slots), id)
  {
    assert Holds(slots, probe, id);
    var s := slots[probe(id, FindTry(slots, probe, id, 0))];
    assert Live(s) && s in Occupied(slots);
    var i :| 0 <= i < |Occupied(slots)| && Occupied(slots)[i] == s;
  }

  lemma DumpLimitSmall(bits: nat)
    ensures DumpLimit(bits) <= 76695844
  {
  }

  /** What is dumped can be read, for every size of the table. */
  lemma LogReads(log: LogFile, slots: seq<Slot>, bits: nat)
    requires 1 <= bits <= 30 && |slots| == Pow2(bits) && log.content == LogContent(log.held, slots, bits, log.clock)
    ensures DumpLimit(bits) <= |slots| && Reads(log, Occupied(slots[..DumpLimit(bits)]))
  {
    DumpLimitBound(bits);
    DumpLimitSmall(bits);
    RoundTrip(log.held, slots[..DumpLimit(bits)], log.clock.start, log.clock.end);
    HeaderRoundTrip(log.held, slots[..DumpLimit(bits)], log.clock.start, log.clock.end);
    DumpLayout(log.held, slots[..DumpLimit(bits)], log.clock.start, log.clock.end);
  }

  /** The log of an epoch reports it, when the table is not too large to be dumped whole. */
  lemma LogReports(log: LogFile, bits: nat, epoch: seq<Pkt>)
    requires LogOf(log, bits, epoch) && bits <= 26
    ensures Reports(log, epoch)
  {
    var slots :| |slots| == Pow2(bits) && Refines(slots, TableProbes(bits), Summary(epoch))
                 && log.content == LogContent(log.held, slots, bits, log.clock);
    DumpLimitIff(bits);
    assert slots[..DumpLimit(bits)] == slots;
    LogReads(log, slots, bits);
    OccupiedLists(slots, bits, epoch);
  }

  /** flowmon_cleanup leaves clean tables alone. */
  lemma {:induction false} CleanupSkipsClean(m: Mon, bits: nat, clock: Clock, k: nat)
    requires Ready(m, bits) && k <= |m.tables|
    requires forall i :: 0 <= i < k ==> !m.tables[i].dirty
    ensures Cleanup(m, bits, clock, k) == m
    decreases k
  {
    if k > 0 {
      CleanupSkipsClean(m, bits, clock, k - 1);
    }
  }

  lemma {:induction false} CleanupDumpsCurrent(m: Mon, bits: nat, clock: Clock, k: nat)
    requires Ready(m, bits) && m.idx < k <= |m.tables| && m.tables[m.idx].dirty
    requires forall i :: 0 <= i < |m.tables| && i != m.idx ==> !m.tables[i].dirty
    ensures Cleanup(m, bits, clock, k) == Dump(m, bits, m.idx, clock)
    decreases k
  {
    if k - 1 == m.idx {
      CleanupSkipsClean(Dump(m, bits, m.idx, clock), bits, clock, k - 1);
    } else {
      CleanupDumpsCurrent(m, bits, clock, k - 1);
    }
  }

  /** flowmon_cleanup writes the log of the running epoch, if it has packets. */
  lemma CleanupFinishes(m: Mon, bits: nat, h: History, clock: Clock)
    requires Consistent(m, bits, h)
    ensures LogsOf(Cleanup(m, bits, clock, |m.tables|).logs, |m.tables|, bits, AllEpochs(h))
  {
    if h.open == [] {
      CleanupSkipsClean(m, bits, clock, |m.tables|);
    } else {
      CleanupDumpsCurrent(m, bits, clock, |m.tables|);
      DumpAddsLog(m, bits, h, clock);
    }
  }

  /**
   * Conservation over whole runs. From flowmon_init to flowmon_cleanup, every packet for which the
   * hook returned 0 or 1 is in exactly one epoch, in order of arrival, and there is one dump for
   * each epoch, which reports it.
   */
  lemma Conservation(c: Config, events: seq<Event>, clock: Clock)
    requires ValidConfig(c) && c.bits <= 26 && NoNullFlow(events)
    ensures var logs := Cleanup(Run(c, events), c.bits, clock, c.tables).logs;
      var epochs := AllEpochs(HistoryOf(Arrivals(c, events)));
      && Flatten(epochs) == RecordedPackets(Arrivals(c, events))
      && |logs| == |epochs|
      && forall k :: 0 <= k < |logs| ==> Reports(logs[k], epochs[k])
  {
    var a := Arrivals(c, events);
    RunConsistent(c, events);
    CleanupFinishes(Run(c, events), c.bits, HistoryOf(a), clock);
    EpochsPartition(a);
    var logs := Cleanup(Run(c, events), c.bits, clock, c.tables).logs;
    forall k | 0 <= k < |logs|
      ensures Reports(logs[k], AllEpochs(HistoryOf(a))[k])
    {
      LogReports(logs[k], c.bits, AllEpochs(HistoryOf(a))[k]);
    }
  }

  /**
   * What the next packet meets after any run. flowtab_get never fails; the hook returns 0 exactly
   * when the flow already has packets in the packet's epoch - so a recorded flow is not missed
   * again - and -1 only when all 32 tries meet other flows of that epoch.
   */
  lemma NextPacket(c: Config, events: seq<Event>, p: Pkt, clock: Clock)
    requires ValidConfig(c) && NoNullFlow(events) && Id(p.key) != NULL_ID
    ensures var epoch := Turn(HistoryOf(Arrivals(c, events)), p.sec).open;
      var (m, got) := GetTable(Run(c, events), c.bits, p.sec, clock);
      var ret := Hook(Run(c, events), c.bits, p, clock).1;
      && got && m.lockMisses == 0
      && (ret == 0 <==> Mine(epoch, Id(p.key)) != [])
      && (ret == -1 <==> AllTriesTaken(m.tables[m.idx].slots, TableProbes(c.bits), Id(p.key)))
      && ret in {-1, 0, 1}
  {
    var h := HistoryOf(Arrivals(c, events));
    var epoch := Turn(h, p.sec).open;
    RunConsistent(c, events);
    GetSucceeds(Run(c, events), c.bits, h, p.sec, clock);
    var m := GetTable(Run(c, events), c.bits, p.sec, clock).0;
    SummaryReports(epoch, Id(p.key));
    if epoch == [] {
      EmptyRefines(c.bits);
      RecordRefines(m.tables[m.idx], c.bits, map[], p);
    } else {
      RecordRefines(m.tables[m.idx], c.bits, Summary(epoch), p);
    }
  }

  /**
   * Rotation safety: locked means dirty, only the current table is dirty, clean tables are zero.
   * The table in use counts the flows of the running epoch and the packets missed since it began.
   */
  lemma RotationSafety(c: Config, events: seq<Event>, i: nat)
    requires ValidConfig(c) && NoNullFlow(events) && i < c.tables
    ensures var m, h := Run(c, events), HistoryOf(Arrivals(c, events));
      && m.idx == |h.closed| % c.tables && |m.logs| == |h.closed|
      && (m.tables[i].locked <==> m.tables[i].dirty)
      && (m.tables[i].dirty <==> i == m.idx && h.open != [])
      && (m.tables[i].dirty ==> m.tables[i].firstSec == h.open[0].sec)
      && (m.tables[i].dirty ==> m.tables[i].nflows == |Summary(h.open)| && m.tables[i].nflowsMissed == Wrap32(h.missed))
      && (!m.tables[i].dirty ==> m.tables[i].slots == ZeroSlots(Pow2(c.bits)) && m.tables[i].nflows == 0)
  {
    RunConsistent(c, events);
  }

  // ---- A single flow, in a table of any size ----

  lemma {:induction false} ZerosUnoccupied(slots: seq<Slot>, n: nat)
    requires n <= |slots| && forall i :: n <= i < |slots| ==> slots[i] == ZERO_SLOT
    ensures Occupied(slots) == Occupied(slots[..n])
    decreases |slots|
  {
    var k := |slots| - 1;
    if n <= k {
      ZerosUnoccupied(slots[..k], n);
      assert slots[..k][..n] == slots[..n];
    } else {
      assert slots[..n] == slots;
    }
  }

  /** A table that holds a single flow holds it in the slot of its first try. */
  lemma SingleFlowPlace(slots: seq<Slot>, probe: ProbeSequence, m: map<FlowId, Slot>, id: FlowId, i: nat)
    requires Refines(slots, probe, m) && m.Keys == {id} && i < |slots| && i != probe(id, 0)
    ensures slots[i] == ZERO_SLOT
  {
    assert SlotFits(slots[i], m) && SlotFits(slots[probe(id, 0)], m);
    assert id in m && Holds(slots, probe, id);
  }

  lemma SingleFlowSlots(slots: seq<Slot>, bits: nat, p: Pkt)
    requires 1 <= bits <= 30 && |slots| == Pow2(bits) && Refines(slots, TableProbes(bits), Summary([p]))
    ensures forall i :: 0 <= i < |slots| && i != FlowHash(Id(p.key), bits) ==> slots[i] == ZERO_SLOT
  {
    var id := Id(p.key);
    FirstTry(id, bits);
    assert [p][..0] == [] && Summary([p]).Keys == {id};
    forall i | 0 <= i < |slots| && i != FlowHash(id, bits)
      ensures slots[i] == ZERO_SLOT
    {
      SingleFlowPlace(slots, TableProbes(bits), Summary([p]), id, i);
    }
  }

  lemma FirstTry(id: FlowId, bits: nat)
    requires 1 <= bits <= 30
    ensures TableProbes(bits)(id, 0) == FlowHash(id, bits)
  {
    var hash := Xor32(Xor32(id.localIp, id.remoteIp), id.remotePort * TWO16 + id.localPort);
    Hash32Range(hash, bits);
    FirstProbe(Hash32(hash, bits), bits);
  }

  lemma SingleFlowOccupied(slots: seq<Slot>, bits: nat, p: Pkt, limit: nat)
    requires 1 <= bits <= 30 && |slots| == Pow2(bits) && Refines(slots, TableProbes(bits), Summary([p]))
    requires limit <= |slots|
    ensures FlowHash(Id(p.key), bits) < limit ==> Lists(Occupied(slots[..limit]), [p])
    ensures FlowHash(Id(p.key), bits) >= limit ==> Occupied(slots[..limit]) == []
  {
    SingleFlowSlots(slots, bits, p);
    if FlowHash(Id(p.key), bits) < limit {
      ZerosUnoccupied(slots, limit);
      OccupiedLists(slots, bits, [p]);
    } else {
      ZerosUnoccupied(slots[..limit], 0);
    }
  }

  /** The log of a single packet reports it exactly when the dump reaches the slot of its flow. */
  lemma SingleFlowLogged(log: LogFile, bits: nat, p: Pkt)
    requires LogOf(log, bits, [p])
    ensures Reports(log, [p]) <==> FlowHash(Id(p.key), bits) < DumpLimit(bits)
    ensures FlowHash(Id(p.key), bits) >= DumpLimit(bits) ==> Reads(log, [])
  {
    var slots :| |slots| == Pow2(bits) && Refines(slots, TableProbes(bits), Summary([p]))
                 && log.content == LogContent(log.held, slots, bits, log.clock);
    LogReads(log, slots, bits);
    SingleFlowOccupied(slots, bits, p, DumpLimit(bits));
    if FlowHash(Id(p.key), bits) >= DumpLimit(bits) {
      EmptyLogReportsNothing(log, p);
    }
  }

  lemma EmptyLogReportsNothing(log: LogFile, p: Pkt)
    requires Reads(log, [])
    ensures !Reports(log, [p])
  {
    forall es | Reads(log, es)
      ensures !Lists(es, [p])
    {
      assert [p][..0] == [] && Mine([p], Id(p.key)) != [];
      assert es == [] ==> !Listed(es, Id(p.key));
    }
  }

  /**
   * A run with a single packet, for every size of the table: the packet is recorded, and the log
   * reports it exactly when the hash of its flow is below the number of slots that a dump visits.
   * Otherwise the log lists nothing.
   */
  lemma SinglePacketRun(c: Config, e: Event, clock: Clock)
    requires ValidConfig(c) && Id(e.p.key) != NULL_ID
    ensures var logs := Cleanup(Run(c, [e]), c.bits, clock, c.tables).logs;
      && RecordedPackets(Arrivals(c, [e])) == [e.p] && |logs| == 1
      && (Reports(logs[0], [e.p]) <==> FlowHash(Id(e.p.key), c.bits) < DumpLimit(c.bits))
      && (FlowHash(Id(e.p.key), c.bits) >= DumpLimit(c.bits) ==> Reads(logs[0], []))
  {
    FirstReturnsOne(c, e);
    RunConsistent(c, [e]);
    CleanupFinishes(Run(c, [e]), c.bits, History([], [e.p], 0), clock);
    SingleFlowLogged(Cleanup(Run(c, [e]), c.bits, clock, c.tables).logs[0], c.bits, e.p);
  }

  lemma FirstReturnsOne(c: Config, e: Event)
    requires ValidConfig(c) && Id(e.p.key) != NULL_ID
    ensures Arrivals(c, [e]) == [Arrival(e.p, true)]
    ensures HistoryOf(Arrivals(c, [e])) == History([], [e.p], 0)
    ensures RecordedPackets(Arrivals(c, [e])) == [e.p]
  {
    FirstHook(c, e);
    SingleArrivals(c, e);
    SingleHistory(e.p);
  }

  lemma SingleArrivals(c: Config, e: Event)
    requires ValidConfig(c)
    ensures Arrivals(c, [e]) == [Arrival(e.p, Returned(c, [e]) >= 0)]
  {
    assert [e][..0] == [] && Arrivals(c, []) == [];
  }

  lemma SingleHistory(p: Pkt)
    ensures HistoryOf([Arrival(p, true)]) == History([], [p], 0)
    ensures RecordedPackets([Arrival(p, true)]) == [p]
  {
    assert [Arrival(p, true)][..0] == [];
  }

  lemma FirstHook(c: Config, e: Event)
    requires ValidConfig(c) && Id(e.p.key) != NULL_ID
    ensures Returned(c, [e]) == 1
  {
    assert [e][..0] == [];
    RunConsistent(c, []);
    GetSucceeds(Run(c, []), c.bits, NO_HISTORY, e.p.sec, e.clock);
    var m := GetTable(Run(c, []), c.bits, e.p.sec, e.clock).0;
    FirstIsRecorded(m.tables[m.idx], c.bits, e.p);
  }
}
