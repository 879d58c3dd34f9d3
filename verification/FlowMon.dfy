/** Flow monitoring: the rotation of the flow tables, and the hook that records a packet. */
module FlowMon {
  import opened Words
  import opened Flows
  import opened FlowTable
  import opened DumpTable

  /** The readings of the wall clock during a dump: for the file's name, and for its header. */
  datatype Clock = Clock(now: u32, start: u32, end: u32)

  /** What distinguishes the names of log files: the second before the dump, and the table. */
  datatype FileName = FileName(sec: int, table: nat)

  type Disk = map<FileName, seq<u8>>

  /** One dump: the clock readings, the name of the file, what it held before, and what it holds then. */
  datatype LogFile = LogFile(clock: Clock, name: FileName, held: seq<u8>, content: seq<u8>)

  /** The state of the monitor and of the log directory, and the dumps made so far. */
  datatype Mon = Mon(tables: seq<Table>, idx: nat, lockMisses: nat, disk: Disk, logs: seq<LogFile>)

  ghost predicate Ready(m: Mon, bits: nat) {
    m.idx < |m.tables| && forall i :: 0 <= i < |m.tables| ==> WellFormed(m.tables[i], bits)
  }

  /** A dirty table is due when a ten-second boundary or ten seconds have been reached. */
  predicate Expired(firstSec: u32, sec: u32) {
    var tenBound := sec % 10 == 0 && sec != firstSec;
    var tooOld := sec - firstSec >= 10;
    tenBound || tooOld
  }

  /** What dumping a table leaves in a file. */
  function LogContent(held: seq<u8>, slots: seq<Slot>, bits: nat, clock: Clock): seq<u8>
    requires 1 <= bits <= 30 && |slots| == Pow2(bits)
  {
    DumpLimitBound(bits);
    Dumped(held, slots[..DumpLimit(bits)], clock.start, clock.end)
  }

  /** What a file holds; opening one that does not exist creates it empty. */
  function Held(disk: Disk, name: FileName): seq<u8> {
    if name in disk then disk[name] else []
  }

  /** The dump of table i. */
  function DumpedLog(disk: Disk, slots: seq<Slot>, bits: nat, i: nat, clock: Clock): LogFile
    requires 1 <= bits <= 30 && |slots| == Pow2(bits)
  {
    var name := FileName(clock.now - 1, i);
    LogFile(clock, name, Held(disk, name), LogContent(Held(disk, name), slots, bits, clock))
  }

  lemma DumpLimitBound(bits: nat)
    requires 1 <= bits <= 30
    ensures DumpLimit(bits) <= Pow2(bits)
  {
    var bytes := Pow2(bits) * SLOT_SIZE;
    assert Wrap32(bytes) <= bytes;
  }

  /** flowtab_dump: write the log, clean the table and unlock it. */
  ghost function Dump(m: Mon, bits: nat, i: nat, clock: Clock): (m': Mon)
    requires Ready(m, bits) && i < |m.tables|
    ensures Ready(m', bits) && |m'.tables| == |m.tables| && m'.idx == m.idx
  {
    var log := DumpedLog(m.disk, m.tables[i].slots, bits, i, clock);
    m.(tables := m.tables[i := Cleaned(m.tables[i]).(locked := false)],
       disk := m.disk[log.name := log.content],
       logs := m.logs + [log])
  }

  ghost function Next(m: Mon, bits: nat): (m': Mon)
    requires Ready(m, bits)
    ensures Ready(m', bits)
  {
    m.(idx := (m.idx + 1) % |m.tables|)
  }

  ghost function SetTable(m: Mon, t: Table): Mon
    requires m.idx < |m.tables|
  {
    m.(tables := m.tables[m.idx := t])
  }

  /** The search for an unlocked table; i counts the tables passed over. */
  ghost function Acquire(m: Mon, bits: nat, i: nat): (res: (Mon, nat))
    requires Ready(m, bits) && i <= |m.tables|
    ensures Ready(res.0, bits) && |res.0.tables| == |m.tables| && res.1 <= |m.tables|
    ensures res.0.disk == m.disk && res.0.logs == m.logs
    decreases |m.tables| - i
  {
    var t := m.tables[m.idx];
    if !t.locked then (SetTable(m, t.(locked := true)), i)
    else if i < |m.tables| then Acquire(Next(m, bits), bits, i + 1)
    else (m, i)
  }

  /** A clean table becomes dirty, with the packet's second as its first. */
  function Opened(t: Table, sec: u32): Table {
    if t.dirty then t else t.(dirty := true, firstSec := sec)
  }

  function CountLockMiss(n: nat): nat {
    if n + 1 >= 1000 then 0 else n + 1
  }

  /** flowtab_get: the state afterwards, and whether a table could be had; it is the current one. */
  ghost function GetTable(m: Mon, bits: nat, sec: u32, clock: Clock): (res: (Mon, bool))
    requires Ready(m, bits)
    ensures Ready(res.0, bits) && |res.0.tables| == |m.tables|
  {
    var t := m.tables[m.idx];
    if t.dirty && !Expired(t.firstSec, sec) then (m, true)
    else
      var rotated := if t.dirty then Next(Dump(m, bits, m.idx, clock), bits) else m;
      var (locked, i) := Acquire(rotated, bits, 0);
      if i == |m.tables| then (locked.(lockMisses := CountLockMiss(locked.lockMisses)), false)
      else (SetTable(locked, Opened(locked.tables[locked.idx], sec)), true)
  }

  /** flowmon_hook. */
  ghost function Hook(m: Mon, bits: nat, p: Pkt, clock: Clock): (res: (Mon, int))
    requires Ready(m, bits)
    ensures Ready(res.0, bits) && |res.0.tables| == |m.tables|
  {
    var (m1, got) := GetTable(m, bits, p.sec, clock);
    if !got then (m1, -1)
    else
      var (t, ret) := Record(m1.tables[m1.idx], bits, p);
      (SetTable(m1, t), ret)
  }

  ghost function InitialMon(tables: nat, bits: nat, disk: Disk): Mon {
    Mon(seq(tables, _ => EmptyTable(bits)), 0, 0, disk, [])
  }

  /** flowmon_cleanup on the tables below k, the highest first. */
  ghost function Cleanup(m: Mon, bits: nat, clock: Clock, k: nat): (m': Mon)
    requires Ready(m, bits) && k <= |m.tables|
    ensures Ready(m', bits)
    decreases k
  {
    if k == 0 then m
    else Cleanup(DumpIfDirty(m, bits, k - 1, clock), bits, clock, k - 1)
  }

  ghost function DumpIfDirty(m: Mon, bits: nat, i: nat, clock: Clock): (m': Mon)
    requires Ready(m, bits) && i < |m.tables|
    ensures Ready(m', bits) && |m'.tables| == |m.tables|
  {
    if m.tables[i].dirty then Dump(m, bits, i, clock) else m
  }

  /** Open a log file, which may exist already, and dump the slots of a table into it. */
  method WriteLog(flowtab: array<Slot>, bits: nat, held: seq<u8>, clock: Clock) returns (content: seq<u8>)
    requires 1 <= bits <= 30 && flowtab.Length == Pow2(bits)
    ensures content == LogContent(held, flowtab[..], bits, clock)
  {
    var file := new OutFile(held);
    DumpLimitBound(bits);
    WriteTable(flowtab, file, Wrap32(Pow2(bits) * SLOT_SIZE), clock.start, clock.end);
    content := file.content;
    assert flowtab[..DumpLimit(bits)] == flowtab[..][..DumpLimit(bits)];
  }

  class FlowMonitor {
    const bits: nat
    const tables: seq<FlowTab>
    var flowtabIdx: nat
    var lockMisses: nat
    var disk: Disk
    ghost var view: Mon

    /** The tables are separate objects with separate arrays. */
    ghost predicate Separate() {
      && (forall i :: 0 <= i < |tables| ==> tables[i].Valid() && tables[i].bits == bits)
      && (forall i, j :: 0 <= i < j < |tables| ==>
            && tables[i] != tables[j]
            && tables[i].flowtab != tables[j].flowtab
            && tables[i].probes != tables[j].probes)
    }

    ghost function Footprint(): set<object> {
      (set i | 0 <= i < |tables| :: tables[i])
      + (set i | 0 <= i < |tables| :: tables[i].flowtab)
      + (set i | 0 <= i < |tables| :: tables[i].probes)
    }

    ghost predicate Valid()
      reads this, Footprint()
    {
      && 1 <= bits <= 30 && Separate()
      && this !in Footprint()
      && Ready(view, bits)
      && |view.tables| == |tables|
      && view.idx == flowtabIdx < |tables|
      && view.lockMisses == lockMisses && view.disk == disk
      && (forall i :: 0 <= i < |tables| ==> view.tables[i] == tables[i].View())
    }

    /** flowtab_dump. */
    method FlowtabDump(i: nat, clock: Clock)
      requires Valid() && i < |tables|
      modifies this, Footprint()
      ensures Valid() && view == Dump(old(view), bits, i, clock)
    {
      var info := tables[i];
      var name := FileName(clock.now - 1, i);
      var content := WriteLog(info.flowtab, bits, Held(disk, name), clock);
      info.Clean();
      info.locked := false;
      disk := disk[name := content];
      view := Dump(view, bits, i, clock);
    }
  
    /** Try to lock the current table. */
    method TryCurrent() returns (busy: bool)
      requires Valid()
      modifies this, Footprint()
      ensures Valid() && busy == old(view).tables[old(view).idx].locked
      ensures view == if busy then old(view)
                      else SetTable(old(view), old(view).tables[old(view).idx].(locked := true))
    {
      busy := tables[flowtabIdx].TryLock();
      view := SetTable(view, tables[flowtabIdx].View());
      assert busy ==> view.tables == old(view).tables;
    }

    method Advance()
      requires Valid()
      modifies this
      ensures Valid() && view == Next(old(view), bits)
    {
      flowtabIdx := (flowtabIdx + 1) % |tables|;
      view := Next(view, bits);
    }

    /** The loop of flowtab_get that looks for an unlocked table. */
    method AcquireTable() returns (i: nat)
      requires Valid()
      modifies this, Footprint()
      ensures Valid() && (view, i) == Acquire(old(view), bits, 0)
    {
      i := 0;
      var busy := TryCurrent();
      while busy && i < |tables|
        invariant Valid() && i <= |tables|
        invariant busy ==> view.tables[view.idx].locked
        invariant Acquire(old(view), bits, 0) == if busy then Acquire(view, bits, i) else (view, i)
      {
        Advance();
        i := i + 1;
        busy := TryCurrent();
      }
    }

    /** flowtab_get: false when every table is locked, otherwise the current table is the one to use. */
    method FlowtabGet(sec: u32, clock: Clock) returns (got: bool)
      requires Valid()
      modifies this, Footprint()
      ensures Valid() && (view, got) == GetTable(old(view), bits, sec, clock)
    {
      var info := tables[flowtabIdx];
      if info.tableDirty && Expired(info.firstSec, sec) {
        FlowtabDump(flowtabIdx, clock);
        Advance();
      } else if info.tableDirty {
        return true;
      }
      var i := AcquireTable();
      if i == |tables| {
        lockMisses := CountLockMiss(lockMisses);
        view := view.(lockMisses := lockMisses);
        return false;
      }
      OpenCurrent(sec);
      return true;
    }

    method OpenCurrent(sec: u32)
      requires Valid()
      modifies this, Footprint()
      ensures Valid() && view == SetTable(old(view), Opened(old(view).tables[old(view).idx], sec))
    {
      var info := tables[flowtabIdx];
      if !info.tableDirty {
        info.firstSec := sec;
        info.tableDirty := true;
      }
      view := SetTable(view, info.View());
    }

    method RecordCurrent(p: Pkt) returns (ret: int)
      requires Valid()
      modifies this, Footprint()
      ensures Valid()
      ensures var t := old(view).tables[old(view).idx];
              view == SetTable(old(view), Record(t, bits, p).0) && ret == Record(t, bits, p).1
    {
      ret := tables[flowtabIdx].RecordPacket(p);
      view := SetTable(view, tables[flowtabIdx].View());
    }

    /** flowmon_hook. */
    method FlowmonHook(p: Pkt, clock: Clock) returns (ret: int)
      requires Valid()
      modifies this, Footprint()
      ensures Valid() && (view, ret) == Hook(old(view), bits, p, clock)
    {
      var got := FlowtabGet(p.sec, clock);
      if !got {
        return -1;
      }
      ret := RecordCurrent(p);
    }

    /** flowmon_init. */
    constructor (tables: nat, bits: nat, disk: Disk)
      requires tables >= 1 && 1 <= bits <= 30
      ensures Valid() && this.bits == bits && view == InitialMon(tables, bits, disk)
      ensures fresh(Footprint())
    {
      var infos: seq<FlowTab> := [];
      while |infos| < tables
        invariant |infos| <= tables
        invariant forall i :: 0 <= i < |infos| ==>
          infos[i].Valid() && infos[i].bits == bits && infos[i].View() == EmptyTable(bits)
          && fresh(infos[i]) && fresh(infos[i].flowtab) && fresh(infos[i].probes)
        invariant forall i, j :: 0 <= i < j < |infos| ==>
          infos[i] != infos[j] && infos[i].flowtab != infos[j].flowtab && infos[i].probes != infos[j].probes
      {
        var info := new FlowTab(bits);
        infos := infos + [info];
      }
      this.bits, this.tables := bits, infos;
      flowtabIdx, lockMisses, this.disk := 0, 0, disk;
      view := InitialMon(tables, bits, disk);
    }

    /** flowmon_cleanup: dump what is dirty, from the last table down. */
    method FlowmonCleanup(clock: Clock)
      requires Valid()
      modifies this, Footprint()
      ensures Valid() && view == Cleanup(old(view), bits, clock, |tables|)
    {
      ghost var final := Cleanup(view, bits, clock, |tables|);
      var i := |tables|;
      while i > 0
        invariant 0 <= i <= |tables| && Valid()
        invariant Cleanup(view, bits, clock, i) == final
      {
        ghost var before := view;
        i := i - 1;
        CleanupTable(i, clock);
        assert Cleanup(before, bits, clock, i + 1) == Cleanup(DumpIfDirty(before, bits, i, clock), bits, clock, i);
      }
      assert Cleanup(view, bits, clock, 0) == view;
    }

    method CleanupTable(i: nat, clock: Clock)
      requires Valid() && i < |tables|
      modifies this, Footprint()
      ensures Valid() && view == DumpIfDirty(old(view), bits, i, clock)
    {
      if tables[i].tableDirty {
        FlowtabDump(i, clock);
      }
    }
  }
}
