/** Log files by name: which dumps are still on disk after a run, and which were written over. */
module LogNames {
  import opened Words
  import opened Flows
  import opened FlowMon
  import opened Epochs
  import opened WholeRun

  /** The log directory after some dumps. */
  function Replay(disk: Disk, logs: seq<LogFile>): Disk {
    if logs == [] then disk
    else
      var n := |logs| - 1;
      Replay(disk, logs[..n])[logs[n].name := logs[n].content]
  }

  /** The directory is what the dumps made of it, each finding what those before it had left. */
  ghost predicate Faithful(before: Disk, disk: Disk, logs: seq<LogFile>) {
    && disk == Replay(before, logs)
    && forall k :: 0 <= k < |logs| ==> logs[k].held == Held(Replay(before, logs[..k]), logs[k].name)
  }

  /** No later dump has the name of dump k. */
  ghost predicate Last(logs: seq<LogFile>, k: nat)
    requires k < |logs|
  {
    forall j :: k < j < |logs| ==> logs[j].name != logs[k].name
  }

  ghost predicate Named(logs: seq<LogFile>, name: FileName) {
    exists k :: 0 <= k < |logs| && logs[k].name == name
  }

  /** The last dump of a name is on disk. */
  lemma {:induction false} LastOnDisk(disk: Disk, logs: seq<LogFile>, k: nat)
    requires k < |logs| && Last(logs, k)
    ensures logs[k].name in Replay(disk, logs) && Replay(disk, logs)[logs[k].name] == logs[k].content
    decreases |logs|
  {
    var n := |logs| - 1;
    if k < n {
      assert logs[n].name != logs[k].name;
      LastOnDisk(disk, logs[..n], k);
    }
  }

  /** Files of other names are left alone. */
  lemma {:induction false} OthersOnDisk(disk: Disk, logs: seq<LogFile>, name: FileName)
    requires !Named(logs, name)
    ensures Held(Replay(disk, logs), name) == Held(disk, name)
    decreases |logs|
  {
    if logs != [] {
      var n := |logs| - 1;
      assert logs[n].name != name;
      assert Named(logs[..n], name) ==> Named(logs, name);
      OthersOnDisk(disk, logs[..n], name);
    }
  }

  // ---- What a step does to the directory ----

  /** flowmon_hook dumps the current table when it is due, and no other. */
  lemma HookLogs(m: Mon, bits: nat, p: Pkt, clock: Clock)
    requires Ready(m, bits)
    ensures var t, m' := m.tables[m.idx], Hook(m, bits, p, clock).0;
      var log := DumpedLog(m.disk, t.slots, bits, m.idx, clock);
      if t.dirty && Expired(t.firstSec, p.sec)
      then m'.logs == m.logs + [log] && m'.disk == m.disk[log.name := log.content]
      else m'.logs == m.logs && m'.disk == m.disk
  {
  }

  lemma DumpFaithful(before: Disk, disk: Disk, logs: seq<LogFile>, log: LogFile)
    requires Faithful(before, disk, logs) && log.held == Held(disk, log.name)
    ensures Faithful(before, disk[log.name := log.content], logs + [log])
  {
    var all := logs + [log];
    assert all[..|logs|] == logs;
    forall k | 0 <= k < |all|
      ensures all[k].held == Held(Replay(before, all[..k]), all[k].name)
    {
      assert k < |logs| ==> all[..k] == logs[..k];
    }
  }

  lemma {:induction false} RunFaithful(c: Config, events: seq<Event>)
    requires ValidConfig(c)
    ensures Faithful(c.disk, Run(c, events).disk, Run(c, events).logs)
    decreases |events|
  {
    if events != [] {
      var n := |events| - 1;
      var m := Run(c, events[..n]);
      RunFaithful(c, events[..n]);
      HookLogs(m, c.bits, events[n].p, events[n].clock);
      DumpFaithful(c.disk, m.disk, m.logs, DumpedLog(m.disk, m.tables[m.idx].slots, c.bits, m.idx, events[n].clock));
    }
  }

  /** The state after a whole run. */
  ghost function Final(c: Config, events: seq<Event>, clock: Clock): Mon
    requires ValidConfig(c)
  {
    Cleanup(Run(c, events), c.bits, clock, c.tables)
  }

  /** flowmon_cleanup adds the dump of the running epoch, if there is one. */
  lemma FinalLogs(c: Config, events: seq<Event>, clock: Clock)
    requires ValidConfig(c) && NoNullFlow(events)
    ensures var m, m' := Run(c, events), Final(c, events, clock);
      var log := DumpedLog(m.disk, m.tables[m.idx].slots, c.bits, m.idx, clock);
      if HistoryOf(Arrivals(c, events)).open == [] then m' == m
      else m'.logs == m.logs + [log] && m'.disk == m.disk[log.name := log.content]
  {
    var m := Run(c, events);
    RunConsistent(c, events);
    if HistoryOf(Arrivals(c, events)).open == [] {
      CleanupSkipsClean(m, c.bits, clock, |m.tables|);
    } else {
      CleanupDumpsCurrent(m, c.bits, clock, |m.tables|);
    }
  }

  lemma FinalFaithful(c: Config, events: seq<Event>, clock: Clock)
    requires ValidConfig(c) && NoNullFlow(events)
    ensures Faithful(c.disk, Final(c, events, clock).disk, Final(c, events, clock).logs)
  {
    var m := Run(c, events);
    RunFaithful(c, events);
    FinalLogs(c, events, clock);
    DumpFaithful(c.disk, m.disk, m.logs, DumpedLog(m.disk, m.tables[m.idx].slots, c.bits, m.idx, clock));
  }

  /** The last dump of a name is on disk, and the first found what was there to begin with. */
  lemma DiskOf(before: Disk, disk: Disk, logs: seq<LogFile>, k: nat)
    requires Faithful(before, disk, logs) && k < |logs|
    ensures Last(logs, k) ==> Held(disk, logs[k].name) == logs[k].content
    ensures !Named(logs[..k], logs[k].name) ==> logs[k].held == Held(before, logs[k].name)
  {
    if Last(logs, k) {
      LastOnDisk(before, logs, k);
    }
    if !Named(logs[..k], logs[k].name) {
      OthersOnDisk(before, logs[..k], logs[k].name);
    }
  }

  /**
   * The log directory after a whole run: each dump that has its name to itself, or is the last of
   * that name, is on disk, and it found what the run had found there if the name was new.
   */
  lemma FinalDisk(c: Config, events: seq<Event>, clock: Clock, k: nat)
    requires ValidConfig(c) && NoNullFlow(events) && k < |Final(c, events, clock).logs|
    ensures var m := Final(c, events, clock);
      && (Last(m.logs, k) ==> Held(m.disk, m.logs[k].name) == m.logs[k].content)
      && (!Named(m.logs[..k], m.logs[k].name) ==> m.logs[k].held == Held(c.disk, m.logs[k].name))
  {
    FinalFaithful(c, events, clock);
    DiskOf(c.disk, Final(c, events, clock).disk, Final(c, events, clock).logs, k);
  }

  // ---- When names recur ----

  /** The tables are dumped in turn. */
  ghost predicate InTurn(logs: seq<LogFile>, tables: nat) {
    tables > 0 && forall k :: 0 <= k < |logs| ==> logs[k].name.table == k % tables
  }

  ghost predicate SecondsForward(logs: seq<LogFile>) {
    forall j, k :: 0 <= j <= k < |logs| ==> logs[j].name.sec <= logs[k].name.sec
  }

  /** Dump k is made at a later second than the one of its table a round before. */
  predicate RoundApart(logs: seq<LogFile>, tables: nat, k: nat)
    requires tables <= k < |logs|
  {
    logs[k - tables].name.sec < logs[k].name.sec
  }

  /** So it is with every dump but those of the first round. */
  ghost predicate RoundsApart(logs: seq<LogFile>, tables: nat) {
    forall k :: tables <= k < |logs| ==> RoundApart(logs, tables, k)
  }

  /** It is so with the last dump. */
  predicate LastApart(logs: seq<LogFile>, tables: nat) {
    |logs| > tables ==> RoundApart(logs, tables, |logs| - 1)
  }

  /** Every dump has a name of its own. */
  ghost predicate DistinctNames(logs: seq<LogFile>) {
    forall j, k :: 0 <= j < k < |logs| ==> logs[j].name != logs[k].name
  }

  lemma ResiduesDiffer(j: nat, k: nat, n: nat)
    requires j < k < j + n
    ensures j % n != k % n
  {
    assert j == n * (j / n) + j % n && k == n * (k / n) + k % n;
    if j % n == k % n {
      assert k - j == n * (k / n - j / n);
      MultipleBounds(n, k / n - j / n);
    }
  }

  /** Two dumps share their name only if those a round apart between them do. */
  lemma SameName(logs: seq<LogFile>, tables: nat, j: nat, k: nat)
    requires InTurn(logs, tables) && SecondsForward(logs) && j < k < |logs| && logs[j].name == logs[k].name
    ensures j + tables <= k && !RoundApart(logs, tables, j + tables) && !RoundApart(logs, tables, k)
  {
    if k < j + tables {
      ResiduesDiffer(j, k, tables);
    }
  }

  /** Dumps a round apart share their name if they were made in one second. */
  lemma SameSecond(logs: seq<LogFile>, tables: nat, k: nat)
    requires InTurn(logs, tables) && SecondsForward(logs) && tables <= k < |logs|
    ensures logs[k - tables].name == logs[k].name <==> !RoundApart(logs, tables, k)
  {
    ModAddMultiple(k - tables, 1, tables);
    if !RoundApart(logs, tables, k) {
      assert logs[k - tables].name.sec <= logs[k].name.sec;
    }
  }

  /** A dump is the last of its name exactly when the next of its table comes at a later second. */
  lemma LastIff(logs: seq<LogFile>, tables: nat, k: nat)
    requires InTurn(logs, tables) && SecondsForward(logs) && k < |logs|
    ensures Last(logs, k) <==> (k + tables < |logs| ==> RoundApart(logs, tables, k + tables))
  {
    if k + tables < |logs| {
      SameSecond(logs, tables, k + tables);
    }
    if !Last(logs, k) {
      var j :| k < j < |logs| && logs[j].name == logs[k].name;
      SameName(logs, tables, k, j);
    }
  }

  /** Its name is new exactly when the one before of its table came at an earlier second. */
  lemma NewIff(logs: seq<LogFile>, tables: nat, k: nat)
    requires InTurn(logs, tables) && SecondsForward(logs) && k < |logs|
    ensures Named(logs[..k], logs[k].name) <==> k >= tables && !RoundApart(logs, tables, k)
  {
    if k >= tables {
      SameSecond(logs, tables, k);
      assert logs[..k][k - tables] == logs[k - tables];
    }
    if Named(logs[..k], logs[k].name) {
      var j :| 0 <= j < k && logs[..k][j].name == logs[k].name;
      SameName(logs, tables, j, k);
    }
  }

  lemma DistinctIff(logs: seq<LogFile>, tables: nat)
    requires InTurn(logs, tables) && SecondsForward(logs)
    ensures DistinctNames(logs) <==> RoundsApart(logs, tables)
  {
    forall k | tables <= k < |logs|
      ensures DistinctNames(logs) ==> RoundApart(logs, tables, k)
    {
      SameSecond(logs, tables, k);
    }
    forall j, k | 0 <= j < k < |logs| && logs[j].name == logs[k].name
      ensures tables <= k && !RoundApart(logs, tables, k)
    {
      SameName(logs, tables, j, k);
    }
  }

  // ---- A clock that is not set back ----

  /** The wall clock does not run backwards, and shows now at the end. */
  ghost predicate ClockForward(events: seq<Event>, now: u32) {
    && (forall i, j :: 0 <= i <= j < |events| ==> events[i].clock.now <= events[j].clock.now)
    && (forall i :: 0 <= i < |events| ==> events[i].clock.now <= now)
  }

  ghost predicate ForwardUpTo(logs: seq<LogFile>, now: int) {
    SecondsForward(logs) && forall k :: 0 <= k < |logs| ==> logs[k].name.sec < now
  }

  lemma {:induction false} DumpsForward(c: Config, events: seq<Event>, now: u32)
    requires ValidConfig(c) && ClockForward(events, now)
    ensures ForwardUpTo(Run(c, events).logs, now)
    decreases |events|
  {
    if events != [] {
      var n := |events| - 1;
      DumpsForward(c, events[..n], events[n].clock.now);
      HookLogs(Run(c, events[..n]), c.bits, events[n].p, events[n].clock);
      OneMoreForward(Run(c, events[..n]).logs, Run(c, events).logs, events[n].clock, now);
    }
  }

  ghost predicate AddsOne(logs: seq<LogFile>, logs': seq<LogFile>, clock: Clock) {
    logs' == logs || (|logs'| == |logs| + 1 && logs'[..|logs|] == logs && MadeAt(logs'[|logs|], clock))
  }

  lemma OneMoreForward(logs: seq<LogFile>, logs': seq<LogFile>, clock: Clock, now': u32)
    requires ForwardUpTo(logs, clock.now) && AddsOne(logs, logs', clock) && clock.now <= now'
    ensures ForwardUpTo(logs', now')
  {
    forall j, k | 0 <= j <= k < |logs'|
      ensures logs'[j].name.sec <= logs'[k].name.sec < now'
    {
      assert j < |logs| ==> logs'[j] == logs[j];
      assert k < |logs| ==> logs'[k] == logs[k];
    }
  }

  lemma FinalForward(c: Config, events: seq<Event>, clock: Clock)
    requires ValidConfig(c) && NoNullFlow(events) && ClockForward(events, clock.now)
    ensures SecondsForward(Final(c, events, clock).logs)
  {
    DumpsForward(c, events, clock.now);
    FinalAddsOne(c, events, clock);
    OneMoreForward(Run(c, events).logs, Final(c, events, clock).logs, clock, clock.now);
  }

  lemma FinalAddsOne(c: Config, events: seq<Event>, clock: Clock)
    requires ValidConfig(c) && NoNullFlow(events)
    ensures AddsOne(Run(c, events).logs, Final(c, events, clock).logs, clock)
  {
    FinalLogs(c, events, clock);
  }

  lemma FinalInTurn(c: Config, events: seq<Event>, clock: Clock)
    requires ValidConfig(c) && NoNullFlow(events)
    ensures InTurn(Final(c, events, clock).logs, c.tables)
  {
    RunConsistent(c, events);
    CleanupFinishes(Run(c, events), c.bits, HistoryOf(Arrivals(c, events)), clock);
  }

  /**
   * What becomes of a dump. It is the last of its name, and then on disk in the end, if and only if
   * the next dump of its table, if there is one, was made at a later second of the wall clock. It
   * was written over the one a round before if that was made in the same second, and otherwise over
   * what the directory had under its name before.
   */
  ghost predicate Fate(before: Disk, disk: Disk, logs: seq<LogFile>, tables: nat, k: nat)
    requires k < |logs|
  {
    && (Last(logs, k) <==> (k + tables < |logs| ==> RoundApart(logs, tables, k + tables)))
    && (Last(logs, k) ==> Held(disk, logs[k].name) == logs[k].content)
    && logs[k].held == if k >= tables && !RoundApart(logs, tables, k) then logs[k - tables].content
                       else Held(before, logs[k].name)
  }

  /** So it is with each dump of a run, when the clock is not set back. */
  lemma LogSurvivesIff(c: Config, events: seq<Event>, clock: Clock, k: nat)
    requires ValidConfig(c) && NoNullFlow(events) && ClockForward(events, clock.now)
    requires k < |Final(c, events, clock).logs|
    ensures Fate(c.disk, Final(c, events, clock).disk, Final(c, events, clock).logs, c.tables, k)
  {
    var m := Final(c, events, clock);
    FinalForward(c, events, clock);
    FinalInTurn(c, events, clock);
    FinalFaithful(c, events, clock);
    FateOf(c.disk, m.disk, m.logs, c.tables, k);
  }

  lemma FateOf(before: Disk, disk: Disk, logs: seq<LogFile>, tables: nat, k: nat)
    requires Faithful(before, disk, logs) && InTurn(logs, tables) && SecondsForward(logs) && k < |logs|
    ensures Fate(before, disk, logs, tables, k)
  {
    DiskOf(before, disk, logs, k);
    LastIff(logs, tables, k);
    NewIff(logs, tables, k);
    if k >= tables && !RoundApart(logs, tables, k) {
      HeldFromRoundBefore(before, disk, logs, tables, k);
    }
  }

  /** A dump made in the second of the one a round before finds what that had left. */
  lemma HeldFromRoundBefore(before: Disk, disk: Disk, logs: seq<LogFile>, tables: nat, k: nat)
    requires InTurn(logs, tables) && SecondsForward(logs) && Faithful(before, disk, logs)
    requires tables <= k < |logs| && !RoundApart(logs, tables, k)
    ensures logs[k].held == logs[k - tables].content
  {
    var earlier := logs[..k];
    assert forall i :: 0 <= i < k ==> earlier[i] == logs[i];
    LastIff(earlier, tables, k - tables);
    LastOnDisk(before, earlier, k - tables);
    SameSecond(logs, tables, k);
  }

  /** No log of a run is lost if and only if the dumps of each table are made at different seconds. */
  lemma NamesDistinctIff(c: Config, events: seq<Event>, clock: Clock)
    requires ValidConfig(c) && NoNullFlow(events) && ClockForward(events, clock.now)
    ensures DistinctNames(Final(c, events, clock).logs) <==> RoundsApart(Final(c, events, clock).logs, c.tables)
  {
    FinalForward(c, events, clock);
    FinalInTurn(c, events, clock);
    DistinctIff(Final(c, events, clock).logs, c.tables);
  }

  /** While the clock stands still all dumps get its second. */
  lemma FrozenSeconds(c: Config, events: seq<Event>, clock: Clock)
    requires ValidConfig(c) && NoNullFlow(events) && forall i :: 0 <= i < |events| ==> events[i].clock.now == clock.now
    ensures var logs := Final(c, events, clock).logs;
      forall k :: 0 <= k < |logs| ==> logs[k].name.sec == clock.now - 1
  {
    RunFrozen(c, events, clock.now);
    FinalLogs(c, events, clock);
  }

  lemma {:induction false} RunFrozen(c: Config, events: seq<Event>, now: u32)
    requires ValidConfig(c) && forall i :: 0 <= i < |events| ==> events[i].clock.now == now
    ensures forall k :: 0 <= k < |Run(c, events).logs| ==> Run(c, events).logs[k].name.sec == now - 1
    decreases |events|
  {
    if events != [] {
      var n := |events| - 1;
      RunFrozen(c, events[..n], now);
      HookLogs(Run(c, events[..n]), c.bits, events[n].p, events[n].clock);
    }
  }

  // ---- A clock that keeps up with the packets ----

  /** Since a first packet is always recorded, some epoch is running once a packet has arrived. */
  lemma SomeEpochRuns(c: Config, events: seq<Event>)
    requires ValidConfig(c) && NoNullFlow(events) && events != []
    ensures HistoryOf(Arrivals(c, events)).open != []
  {
    RunConsistent(c, events);
  }

  /** The dump was made when the packet arrived, with the clock readings of that time. */
  ghost predicate MadeFor(log: LogFile, p: Pkt, events: seq<Event>) {
    exists i :: 0 <= i < |events| && events[i].p == p && events[i].clock == log.clock && MadeAt(log, log.clock)
  }

  /** The name shows the second before the one in which the dump was made. */
  predicate MadeAt(log: LogFile, clock: Clock) {
    log.clock == clock && log.name.sec == clock.now - 1
  }

  /** Dump k was made when the first packet of epoch k + 1 arrived. */
  ghost predicate Follows(logs: seq<LogFile>, epochs: seq<seq<Pkt>>, events: seq<Event>, k: nat) {
    k < |logs| && k + 1 < |epochs| ==> epochs[k + 1] != [] && MadeFor(logs[k], epochs[k + 1][0], events)
  }

  ghost predicate MadeForNext(logs: seq<LogFile>, h: History, events: seq<Event>) {
    var epochs := AllEpochs(h);
    && |epochs| == (if h.open == [] then 0 else |logs| + 1)
    && (h.open == [] ==> logs == [])
    && (forall k: nat :: Follows(logs, epochs, events, k))
  }

  lemma {:induction false} DumpsMadeForNext(c: Config, events: seq<Event>)
    requires ValidConfig(c) && NoNullFlow(events)
    ensures MadeForNext(Run(c, events).logs, HistoryOf(Arrivals(c, events)), events)
    decreases |events|
  {
    if events != [] {
      var n := |events| - 1;
      DumpsMadeForNext(c, events[..n]);
      SomeEpochRuns(c, events);
      if n > 0 {
        SomeEpochRuns(c, events[..n]);
      }
      LastEventLogs(c, events);
      LastArrival(c, events);
      MadeForNextStep(Run(c, events[..n]).logs, Run(c, events).logs, HistoryOf(Arrivals(c, events[..n])),
                      HistoryOf(Arrivals(c, events)), events);
    }
  }

  lemma {:induction false} LastArrival(c: Config, events: seq<Event>)
    requires ValidConfig(c) && events != []
    ensures var n := |events| - 1;
      var h, h', p := HistoryOf(Arrivals(c, events[..n])), HistoryOf(Arrivals(c, events)), events[n].p;
      h' == Enter(Turn(h, p.sec), p, true) || h' == Enter(Turn(h, p.sec), p, false)
  {
    var n := |events| - 1;
    var a := Arrivals(c, events);
    assert a[..n] == Arrivals(c, events[..n]);
  }

  /** The last event dumps the running epoch when it is due. */
  lemma LastEventLogs(c: Config, events: seq<Event>)
    requires ValidConfig(c) && events != [] && NoNullFlow(events)
    ensures var n := |events| - 1;
      DumpedWhenDue(Run(c, events[..n]).logs, Run(c, events).logs, HistoryOf(Arrivals(c, events[..n])), events[n])
  {
    var n := |events| - 1;
    RunConsistent(c, events[..n]);
    HookLogs(Run(c, events[..n]), c.bits, events[n].p, events[n].clock);
  }

  ghost predicate DumpedWhenDue(logs: seq<LogFile>, logs': seq<LogFile>, h: History, e: Event) {
    if h.open != [] && Expired(h.open[0].sec, e.p.sec)
    then |logs'| == |logs| + 1 && logs'[..|logs|] == logs && MadeAt(logs'[|logs|], e.clock)
    else logs' == logs
  }

  lemma MadeForNextStep(logs: seq<LogFile>, logs': seq<LogFile>, h: History, h': History, events: seq<Event>)
    requires events != [] && h'.open != []
    requires MadeForNext(logs, h, events[..|events| - 1])
    requires var e := events[|events| - 1];
      && DumpedWhenDue(logs, logs', h, e)
      && (h' == Enter(Turn(h, e.p.sec), e.p, true) || h' == Enter(Turn(h, e.p.sec), e.p, false))
    ensures MadeForNext(logs', h', events)
  {
    forall k: nat
      ensures Follows(logs', AllEpochs(h'), events, k)
    {
      FollowsStep(logs, logs', h, h', events, k);
    }
  }

  lemma FollowsStep(logs: seq<LogFile>, logs': seq<LogFile>, h: History, h': History, events: seq<Event>, k: nat)
    requires events != [] && h'.open != []
    requires MadeForNext(logs, h, events[..|events| - 1])
    requires var e := events[|events| - 1];
      && DumpedWhenDue(logs, logs', h, e)
      && (h' == Enter(Turn(h, e.p.sec), e.p, true) || h' == Enter(Turn(h, e.p.sec), e.p, false))
    ensures Follows(logs', AllEpochs(h'), events, k)
  {
    var epochs, epochs', e := AllEpochs(h), AllEpochs(h'), events[|events| - 1];
    if k < |logs'| && k + 1 < |epochs'| {
      if k + 1 < |epochs| {
        assert Follows(logs, epochs, events[..|events| - 1], k);
        assert logs'[k] == logs[k] && epochs'[k + 1][0] == epochs[k + 1][0];
        StillMadeFor(logs[k], epochs[k + 1][0], events);
      } else {
        assert epochs'[k + 1] == [e.p] && MadeAt(logs'[k], e.clock);
        assert events[|events| - 1].p == e.p;
      }
    }
  }

  lemma StillMadeFor(log: LogFile, p: Pkt, events: seq<Event>)
    requires events != [] && MadeFor(log, p, events[..|events| - 1])
    ensures MadeFor(log, p, events)
  {
    var before := events[..|events| - 1];
    var i :| 0 <= i < |before| && before[i].p == p && before[i].clock == log.clock && MadeAt(log, log.clock);
    assert events[i] == before[i];
  }

  /** Each packet is handled in its own second or at most delay seconds later. */
  ghost predicate Prompt(events: seq<Event>, delay: nat) {
    forall i :: 0 <= i < |events| ==> events[i].p.sec <= events[i].clock.now <= events[i].p.sec + delay
  }

  lemma MadePromptly(log: LogFile, p: Pkt, events: seq<Event>, delay: nat)
    requires MadeFor(log, p, events) && Prompt(events, delay)
    ensures p.sec <= log.name.sec + 1 <= p.sec + delay
  {
  }

  /** With so little delay the distance of epochs keeps the dumps of a table apart. */
  lemma EpochsKeepApart(logs: seq<LogFile>, h: History, events: seq<Event>, tables: nat, k: nat)
    requires MadeForNext(logs, h, events) && FirstsIncrease(AllEpochs(h))
    requires 0 < tables <= k < |logs| && Prompt(events, 10 * (tables - 1))
    ensures RoundApart(logs, tables, k)
  {
    var epochs := AllEpochs(h);
    FirstsApart(epochs, k - tables + 1, k + 1);
    assert Follows(logs, epochs, events, k - tables) && Follows(logs, epochs, events, k);
    MadePromptly(logs[k - tables], epochs[k - tables + 1][0], events, 10 * (tables - 1));
    MadePromptly(logs[k], epochs[k + 1][0], events, 10 * (tables - 1));
  }

  /** The dumps that a prompt run makes before its end are a round apart at different seconds. */
  lemma PromptRoundsApart(c: Config, events: seq<Event>)
    requires ValidConfig(c) && NoNullFlow(events) && InOrder(Arrivals(c, events))
    requires Prompt(events, 10 * (c.tables - 1))
    ensures RoundsApart(Run(c, events).logs, c.tables)
  {
    DumpsMadeForNext(c, events);
    EpochsAdvance(Arrivals(c, events));
    forall k | c.tables <= k < |Run(c, events).logs|
      ensures RoundApart(Run(c, events).logs, c.tables, k)
    {
      EpochsKeepApart(Run(c, events).logs, HistoryOf(Arrivals(c, events)), events, c.tables, k);
    }
  }

  /** Log k carries the clock readings of the packet that began epoch k + 1, the last log those of the cleanup. */
  ghost predicate StampedInTurn(logs: seq<LogFile>, epochs: seq<seq<Pkt>>, events: seq<Event>, clock: Clock) {
    |logs| == |epochs| && forall k: nat :: StampedInTurnAt(logs, epochs, events, clock, k)
  }

  ghost predicate StampedInTurnAt(logs: seq<LogFile>, epochs: seq<seq<Pkt>>, events: seq<Event>, clock: Clock, k: nat)
    requires |logs| == |epochs|
  {
    k < |logs| ==> if k + 1 < |logs| then epochs[k + 1] != [] && MadeFor(logs[k], epochs[k + 1][0], events)
                   else MadeAt(logs[k], clock)
  }

  /** So it is with the logs of every run: with the times that their headers give, and with their names. */
  lemma FinalStamps(c: Config, events: seq<Event>, clock: Clock)
    requires ValidConfig(c) && NoNullFlow(events)
    ensures StampedInTurn(Final(c, events, clock).logs, AllEpochs(HistoryOf(Arrivals(c, events))), events, clock)
  {
    DumpsMadeForNext(c, events);
    FinalAddsOne(c, events, clock);
    RunConsistent(c, events);
    CleanupFinishes(Run(c, events), c.bits, HistoryOf(Arrivals(c, events)), clock);
    LastStamp(Run(c, events).logs, Final(c, events, clock).logs, HistoryOf(Arrivals(c, events)), events, clock);
  }

  lemma LastStamp(logs: seq<LogFile>, logs': seq<LogFile>, h: History, events: seq<Event>, clock: Clock)
    requires MadeForNext(logs, h, events) && AddsOne(logs, logs', clock) && |logs'| == |AllEpochs(h)|
    ensures StampedInTurn(logs', AllEpochs(h), events, clock)
  {
    forall k: nat
      ensures StampedInTurnAt(logs', AllEpochs(h), events, clock, k)
    {
      assert Follows(logs, AllEpochs(h), events, k);
    }
  }

  lemma OnlyLastMatters(logs: seq<LogFile>, logs': seq<LogFile>, clock: Clock, tables: nat)
    requires AddsOne(logs, logs', clock) && tables > 0 && RoundsApart(logs, tables)
    ensures RoundsApart(logs', tables) <==> LastApart(logs', tables)
  {
    forall k | tables <= k < |logs|
      ensures RoundApart(logs', tables, k)
    {
      assert RoundApart(logs, tables, k);
      assert logs'[k] == logs[k] && logs'[k - tables] == logs[k - tables];
    }
  }

  lemma LaterThanAll(logs: seq<LogFile>, logs': seq<LogFile>, clock: Clock, tables: nat)
    requires AddsOne(logs, logs', clock) && tables > 0 && RoundsApart(logs, tables)
    requires forall k :: 0 <= k < |logs| ==> logs[k].name.sec < clock.now - 1
    ensures RoundsApart(logs', tables)
  {
    OnlyLastMatters(logs, logs', clock, tables);
    if |logs'| > |logs| >= tables {
      assert logs'[|logs| - tables] == logs[|logs| - tables];
    }
  }

  ghost predicate AllBefore(events: seq<Event>, now: u32) {
    forall i :: 0 <= i < |events| ==> events[i].clock.now < now
  }

  lemma DumpsBefore(c: Config, events: seq<Event>, now: u32)
    requires ValidConfig(c) && ClockForward(events, now) && AllBefore(events, now)
    ensures forall k :: 0 <= k < |Run(c, events).logs| ==> Run(c, events).logs[k].name.sec < now - 1
  {
    if events != [] {
      DumpsForward(c, events, events[|events| - 1].clock.now);
    }
  }

  /**
   * When every packet is handled within 10 (n - 1) seconds - ten for two tables - only the dump of
   * the final cleanup can share its name with one before: no log is lost if and only if it is made
   * at a later second than the one a round before, in particular if no packet is handled in the
   * second of the cleanup.
   */
  lemma PromptRunKeepsLogs(c: Config, events: seq<Event>, clock: Clock)
    requires ValidConfig(c) && NoNullFlow(events) && InOrder(Arrivals(c, events))
    requires ClockForward(events, clock.now) && Prompt(events, 10 * (c.tables - 1))
    ensures var logs := Final(c, events, clock).logs;
      && (DistinctNames(logs) <==> LastApart(logs, c.tables))
      && (AllBefore(events, clock.now) ==> DistinctNames(logs))
  {
    NamesDistinctIff(c, events, clock);
    PromptFinal(c, events, clock);
    if AllBefore(events, clock.now) {
      PromptThenLater(c, events, clock);
    }
  }

  lemma PromptFinal(c: Config, events: seq<Event>, clock: Clock)
    requires ValidConfig(c) && NoNullFlow(events) && InOrder(Arrivals(c, events))
    requires Prompt(events, 10 * (c.tables - 1))
    ensures RoundsApart(Final(c, events, clock).logs, c.tables) <==> LastApart(Final(c, events, clock).logs, c.tables)
  {
    FinalAddsOne(c, events, clock);
    PromptRoundsApart(c, events);
    OnlyLastMatters(Run(c, events).logs, Final(c, events, clock).logs, clock, c.tables);
  }

  lemma PromptThenLater(c: Config, events: seq<Event>, clock: Clock)
    requires ValidConfig(c) && NoNullFlow(events) && InOrder(Arrivals(c, events))
    requires ClockForward(events, clock.now) && Prompt(events, 10 * (c.tables - 1)) && AllBefore(events, clock.now)
    ensures RoundsApart(Final(c, events, clock).logs, c.tables)
  {
    FinalAddsOne(c, events, clock);
    PromptRoundsApart(c, events);
    DumpsBefore(c, events, clock.now);
    LaterThanAll(Run(c, events).logs, Final(c, events, clock).logs, clock, c.tables);
  }
}
