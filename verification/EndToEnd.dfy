/** From captured frames to parsed log files: what holds of every run of the whole monitor. */
module EndToEnd {
  import opened Words
  import opened Flows
  import opened LogParser
  import opened LogRoundTrip
  import opened Summaries
  import opened Epochs
  import opened WholeRun
  import opened LogNames
  import opened EpochCuts
  import opened Prefixes
  import opened Sessions
  import opened FragRing
  import opened Decoding
  import opened PacketHooks
  import FlowMon

  /** What is fixed for a run: the tables and directory, the networks, the compiler's order of bit-fields. */
  datatype Setup = Setup(config: Config, nets: seq<Net>, order: BitOrder)

  ghost predicate ValidSetup(s: Setup) {
    ValidConfig(s.config) && ValidNets(s.nets)
  }

  /** The state after initialization, with the networks added, and some captures. */
  ghost function After(s: Setup, cs: seq<Capture>): (sys: System)
    requires ValidSetup(s)
    ensures ReadySystem(sys, s.config.bits) && sys.nets == s.nets && |sys.mon.tables| == s.config.tables
  {
    if cs == [] then
      System(s.nets, EmptyRing(), FlowMon.InitialMon(s.config.tables, s.config.bits, s.config.disk))
    else
      var n := |cs| - 1;
      Process(s.order, After(s, cs[..n]), s.config.bits, cs[n])
  }

  /** The packet that the last capture brings to the flow tables, if it does. */
  ghost function LastPacket(s: Setup, cs: seq<Capture>): Option<Pkt>
    requires ValidSetup(s) && cs != []
  {
    var n := |cs| - 1;
    Arriving(s.order, s.nets, After(s, cs[..n]).ring, cs[n])
  }

  /** The calls of flowmon_hook that the captures cause. */
  ghost function Events(s: Setup, cs: seq<Capture>): seq<Event>
    requires ValidSetup(s)
  {
    if cs == [] then []
    else
      var n := |cs| - 1;
      Events(s, cs[..n]) +
        (match LastPacket(s, cs) case None => [] case Some(p) => [Event(p, cs[n].clock)])
  }

  /** The flow monitor has seen exactly those calls. */
  lemma {:induction false} MonitorSeesEvents(s: Setup, cs: seq<Capture>)
    requires ValidSetup(s)
    ensures After(s, cs).mon == Run(s.config, Events(s, cs))
    decreases |cs|
  {
    if cs != [] {
      var n := |cs| - 1;
      var before := Events(s, cs[..n]);
      MonitorSeesEvents(s, cs[..n]);
      match LastPacket(s, cs)
      case None =>
        assert Events(s, cs) == before;
      case Some(p) =>
        assert Events(s, cs)[..|before|] == before;
    }
  }

  /** A key as the flow tables see it: IPv4, with looked-up domains and the local side first. */
  ghost predicate Settled(s: Setup, k: Key)
    requires ValidSetup(s)
  {
    k.l3Protocol == ETHERTYPE_IP && Canonical(s.nets, k)
  }

  lemma ArrivingIsSettled(s: Setup, ring: Ring, c: Capture)
    requires ValidSetup(s) && ValidRing(ring)
    ensures var p := Arriving(s.order, s.nets, ring, c);
      p.Some? ==> Settled(s, p.value.key) && p.value.sec == c.sec && p.value.len == c.pktLen
  {
    DecodedIsIp(s.order, ring, c);
  }

  lemma DecodedIsIp(order: BitOrder, ring: Ring, c: Capture)
    requires ValidRing(ring)
    ensures var d := Decode(order, ring, c.pktLen, c.bytes).1;
      d.Flow? ==> d.key.l3Protocol == ETHERTYPE_IP
  {
  }

  lemma {:induction false} EventsSettled(s: Setup, cs: seq<Capture>)
    requires ValidSetup(s)
    ensures forall i :: 0 <= i < |Events(s, cs)| ==> Settled(s, Events(s, cs)[i].p.key)
    ensures NoNullFlow(Events(s, cs))
    decreases |cs|
  {
    if cs != [] {
      var n := |cs| - 1;
      EventsSettled(s, cs[..n]);
      ArrivingIsSettled(s, After(s, cs[..n]).ring, cs[n]);
    }
  }

  /** The epochs of a run, and the flow monitor after flowmon_cleanup. */
  ghost function EpochsOf(s: Setup, cs: seq<Capture>): seq<seq<Pkt>>
    requires ValidSetup(s)
  {
    AllEpochs(HistoryOf(Arrivals(s.config, Events(s, cs))))
  }

  ghost function FinalMon(s: Setup, cs: seq<Capture>, clock: FlowMon.Clock): FlowMon.Mon
    requires ValidSetup(s)
  {
    FlowMon.Cleanup(After(s, cs).mon, s.config.bits, clock, s.config.tables)
  }

  /** There is one dump for each epoch, and it reports the epoch. */
  ghost predicate AllReported(s: Setup, cs: seq<Capture>, clock: FlowMon.Clock)
    requires ValidSetup(s)
  {
    var logs, epochs := FinalMon(s, cs, clock).logs, EpochsOf(s, cs);
    |logs| == |epochs| && forall k :: 0 <= k < |logs| ==> Reports(logs[k], epochs[k])
  }

  /**
   * From frames to log files. After any captures and the cleanup there is one dump for each epoch;
   * the epochs are the recorded packets in order of arrival, each in exactly one; and parsing what
   * was dumped yields one session for each flow of its epoch, with exactly that flow's counts.
   */
  lemma LogsReportRun(s: Setup, cs: seq<Capture>, clock: FlowMon.Clock)
    requires ValidSetup(s) && s.config.bits <= 26
    ensures Flatten(EpochsOf(s, cs)) == RecordedPackets(Arrivals(s.config, Events(s, cs)))
    ensures AllReported(s, cs, clock)
  {
    MonitorSeesEvents(s, cs);
    EventsSettled(s, cs);
    Conservation(s.config, Events(s, cs), clock);
  }

  // ---- Keys in the log ----

  lemma {:induction false} RecordedFromEvents(c: Config, events: seq<Event>)
    requires ValidConfig(c)
    ensures forall p :: p in RecordedPackets(Arrivals(c, events))
              ==> exists i :: 0 <= i < |events| && events[i].p == p
    decreases |events|
  {
    if events != [] {
      var n := |events| - 1;
      RecordedFromEvents(c, events[..n]);
      var a := Arrivals(c, events);
      assert a[..n] == Arrivals(c, events[..n]);
      forall p | p in RecordedPackets(a)
        ensures exists i :: 0 <= i < |events| && events[i].p == p
      {
        if p in RecordedPackets(a[..n]) {
          var i :| 0 <= i < n && events[..n][i].p == p;
          assert events[i].p == p;
        } else {
          assert events[n].p == p;
        }
      }
    }
  }

  lemma {:induction false} InFlatten(epochs: seq<seq<Pkt>>, k: nat, p: Pkt)
    requires k < |epochs| && p in epochs[k]
    ensures p in Flatten(epochs)
    decreases |epochs|
  {
    if k < |epochs| - 1 {
      InFlatten(epochs[..|epochs| - 1], k, p);
    }
  }

  /** Every packet of every epoch has a settled key. */
  lemma EpochsSettled(s: Setup, cs: seq<Capture>, k: nat)
    requires ValidSetup(s) && k < |EpochsOf(s, cs)|
    ensures forall p :: p in EpochsOf(s, cs)[k] ==> Settled(s, p.key)
  {
    var events := Events(s, cs);
    EventsSettled(s, cs);
    EpochsPartition(Arrivals(s.config, events));
    RecordedFromEvents(s.config, events);
    forall p | p in EpochsOf(s, cs)[k]
      ensures Settled(s, p.key)
    {
      InFlatten(EpochsOf(s, cs), k, p);
      var i :| 0 <= i < |events| && events[i].p == p;
    }
  }

  /**
   * Sixteen bytes suffice: within an epoch the packets counted in one entry are exactly those with
   * the entry's whole key, and that key never looks like a free slot.
   */
  lemma EntryKeysExact(s: Setup, cs: seq<Capture>, k: nat, es: seq<Slot>, i: nat)
    requires ValidSetup(s) && k < |EpochsOf(s, cs)| && Lists(es, EpochsOf(s, cs)[k]) && i < |es|
    ensures Settled(s, es[i].key) && Id(es[i].key) != NULL_ID
    ensures forall p :: p in EpochsOf(s, cs)[k] ==> (Id(p.key) == Id(es[i].key) <==> p.key == es[i].key)
  {
    var epoch := EpochsOf(s, cs)[k];
    var qs := Mine(epoch, Id(es[i].key));
    EpochsSettled(s, cs, k);
    assert qs[0] in epoch && es[i].key == qs[0].key;
    forall p | p in epoch
      ensures Id(p.key) == Id(es[i].key) <==> p.key == es[i].key
    {
      SixteenBytesSuffice(s.nets, p.key, es[i].key);
    }
  }

  /** No log lists both a session and its mirror image, unless an address talks to itself. */
  lemma NoMirrorImages(s: Setup, cs: seq<Capture>, k: nat, es: seq<Slot>, i: nat, j: nat)
    requires ValidSetup(s) && k < |EpochsOf(s, cs)| && Lists(es, EpochsOf(s, cs)[k])
    requires i < |es| && j < |es| && Id(es[j].key) == Id(Swapped(es[i].key))
    ensures es[i].key.localIp == es[i].key.remoteIp
  {
    EntryKeysExact(s, cs, k, es, i);
    EntryKeysExact(s, cs, k, es, j);
    assert es[j].key == Swapped(es[i].key);
    MirrorNotCanonical(s.nets, es[i].key);
  }

  // ---- Time ----

  ghost predicate Chronological(cs: seq<Capture>) {
    forall i, j :: 0 <= i <= j < |cs| ==> cs[i].sec <= cs[j].sec
  }

  /** Each event stems from a capture, in the same order; at says from which. */
  ghost predicate Stem(es: seq<Event>, cs: seq<Capture>, at: seq<nat>) {
    && |at| == |es|
    && (forall i :: 0 <= i < |at| ==> at[i] < |cs| && es[i].p.sec == cs[at[i]].sec && es[i].clock == cs[at[i]].clock)
    && (forall i, j :: 0 <= i < j < |at| ==> at[i] < at[j])
  }

  lemma {:induction false} EventsStem(s: Setup, cs: seq<Capture>) returns (at: seq<nat>)
    requires ValidSetup(s)
    ensures Stem(Events(s, cs), cs, at)
    decreases |cs|
  {
    if cs == [] {
      at := [];
    } else {
      var n := |cs| - 1;
      at := EventsStem(s, cs[..n]);
      match LastPacket(s, cs)
      case None =>
        assert Events(s, cs) == Events(s, cs[..n]);
      case Some(p) =>
        ArrivingIsSettled(s, After(s, cs[..n]).ring, cs[n]);
        StemGrows(Events(s, cs[..n]), cs, at, Event(p, cs[n].clock));
        at := at + [n];
    }
  }

  lemma StemGrows(es: seq<Event>, cs: seq<Capture>, at: seq<nat>, e: Event)
    requires cs != [] && Stem(es, cs[..|cs| - 1], at)
    requires e.p.sec == cs[|cs| - 1].sec && e.clock == cs[|cs| - 1].clock
    ensures Stem(es + [e], cs, at + [|cs| - 1])
  {
  }

  lemma EventsInOrder(s: Setup, cs: seq<Capture>)
    requires ValidSetup(s) && Chronological(cs)
    ensures InOrder(Arrivals(s.config, Events(s, cs)))
  {
    var at := EventsStem(s, cs);
    StemInOrder(Events(s, cs), cs, at, Arrivals(s.config, Events(s, cs)));
  }

  lemma StemInOrder(es: seq<Event>, cs: seq<Capture>, at: seq<nat>, arrivals: seq<Arrival>)
    requires Stem(es, cs, at) && Chronological(cs)
    requires |arrivals| == |es| && forall i :: 0 <= i < |es| ==> arrivals[i].p == es[i].p
    ensures InOrder(arrivals)
  {
    forall i, j | 0 <= i <= j < |arrivals|
      ensures arrivals[i].p.sec <= arrivals[j].p.sec
    {
      assert at[i] <= at[j];
    }
  }

  /**
   * The epochs of every run are its recorded packets cut before each one that is due. So they are
   * shorter than ten seconds and start anew at boundaries, but none starts before it is due; when time
   * does not run backwards, successive epochs start in later and later intervals between boundaries.
   */
  lemma EpochTimes(s: Setup, cs: seq<Capture>)
    requires ValidSetup(s)
    ensures EpochsOf(s, cs) == Cuts(RecordedPackets(Arrivals(s.config, Events(s, cs)))) && StartsDue(EpochsOf(s, cs))
    ensures forall k :: 0 <= k < |EpochsOf(s, cs)| ==> Bounded(EpochsOf(s, cs)[k])
    ensures Chronological(cs) ==> FirstsIncrease(EpochsOf(s, cs))
  {
    EventsSettled(s, cs);
    EpochsAreCuts(s.config, Events(s, cs));
    EpochsStartDue(s.config, Events(s, cs));
    EpochsBounded(Arrivals(s.config, Events(s, cs)));
    if Chronological(cs) {
      EventsInOrder(s, cs);
      EpochsAdvance(Arrivals(s.config, Events(s, cs)));
    }
  }

  /** A capture ends the running epoch, by one dump, exactly when it brings a packet that is due. */
  lemma CaptureDumpsIff(s: Setup, cs: seq<Capture>, c: Capture)
    requires ValidSetup(s)
    ensures var m, m', h := After(s, cs).mon, After(s, cs + [c]).mon, HistoryOf(Arrivals(s.config, Events(s, cs)));
      match Arriving(s.order, s.nets, After(s, cs).ring, c)
      case None => m' == m
      case Some(p) => p.sec == c.sec && Ends(m, m', h, p)
  {
    assert (cs + [c])[..|cs|] == cs;
    match Arriving(s.order, s.nets, After(s, cs).ring, c)
    case None =>
    case Some(p) =>
      ArrivingIsSettled(s, After(s, cs).ring, c);
      MonitorSeesEvents(s, cs);
      EventsSettled(s, cs);
      PacketDumpsIff(s.config, Events(s, cs), p, c.clock);
  }

  /** No log mixes packets from before a boundary at which one arrived with later ones. */
  lemma BoundariesSeparateLogs(s: Setup, cs: seq<Capture>, i: nat, k: nat)
    requires ValidSetup(s) && Chronological(cs)
    requires i < |Events(s, cs)| && Events(s, cs)[i].p.sec % 10 == 0 && k < |EpochsOf(s, cs)|
    ensures OnOneSide(EpochsOf(s, cs)[k], Events(s, cs)[i].p.sec)
  {
    var a := Arrivals(s.config, Events(s, cs));
    EventsInOrder(s, cs);
    assert a[i].p == Events(s, cs)[i].p;
    BoundarySeparatesAll(a, i, k);
  }

  // ---- The log directory ----

  /** The wall clock does not run backwards, and shows now at the end. */
  ghost predicate ForwardClock(cs: seq<Capture>, now: u32) {
    && (forall i, j :: 0 <= i <= j < |cs| ==> cs[i].clock.now <= cs[j].clock.now)
    && (forall i :: 0 <= i < |cs| ==> cs[i].clock.now <= now)
  }

  /** Each packet is handled in its own second or at most delay seconds later. */
  ghost predicate PromptCapture(cs: seq<Capture>, delay: nat) {
    forall i :: 0 <= i < |cs| ==> cs[i].sec <= cs[i].clock.now <= cs[i].sec + delay
  }

  ghost predicate HandledBefore(cs: seq<Capture>, now: u32) {
    forall i :: 0 <= i < |cs| ==> cs[i].clock.now < now
  }

  lemma EventsForward(s: Setup, cs: seq<Capture>, now: u32)
    requires ValidSetup(s) && ForwardClock(cs, now)
    ensures ClockForward(Events(s, cs), now)
  {
    var at := EventsStem(s, cs);
    forall i, j | 0 <= i <= j < |at|
      ensures Events(s, cs)[i].clock.now <= Events(s, cs)[j].clock.now
    {
      assert at[i] <= at[j];
    }
  }

  lemma EventsPrompt(s: Setup, cs: seq<Capture>, delay: nat, now: u32)
    requires ValidSetup(s)
    ensures PromptCapture(cs, delay) ==> Prompt(Events(s, cs), delay)
    ensures HandledBefore(cs, now) ==> AllBefore(Events(s, cs), now)
  {
    var at := EventsStem(s, cs);
  }

  /**
   * The header times of each log are the readings of the clock when the first packet of the next
   * epoch arrived; those of the last log are the readings at the cleanup.
   */
  lemma LogsStamped(s: Setup, cs: seq<Capture>, clock: FlowMon.Clock)
    requires ValidSetup(s)
    ensures StampedInTurn(FinalMon(s, cs, clock).logs, EpochsOf(s, cs), Events(s, cs), clock)
  {
    MonitorSeesEvents(s, cs);
    EventsSettled(s, cs);
    FinalStamps(s.config, Events(s, cs), clock);
  }

  /** Parsing a file yields exactly the sessions of entries that list the epoch. */
  ghost predicate FileLists(content: seq<u8>, epoch: seq<Pkt>) {
    exists es :: ReadLog(content) == Ok(SessionsOf(es)) && Lists(es, epoch)
  }

  lemma NewFileLists(log: FlowMon.LogFile, epoch: seq<Pkt>)
    requires Reports(log, epoch) && log.held == []
    ensures FileLists(log.content, epoch)
  {
    var es :| Reads(log, es) && Lists(es, epoch);
  }

  /** What happened to the file of a log between two states of the directory. */
  function Change(before: FlowMon.Disk, after: FlowMon.Disk, log: FlowMon.LogFile): FlowMon.LogFile {
    FlowMon.LogFile(log.clock, log.name, FlowMon.Held(before, log.name), FlowMon.Held(after, log.name))
  }

  /**
   * What becomes of the log of each epoch, when the wall clock is not set back. It is on disk in
   * the end if and only if the next dump of the same table, if there is one, was made at a later
   * second. It was written over the log a round before if that was made in the same second, and
   * otherwise over what the directory had under its name.
   */
  lemma LogOnDiskIff(s: Setup, cs: seq<Capture>, clock: FlowMon.Clock, k: nat)
    requires ValidSetup(s) && ForwardClock(cs, clock.now) && k < |FinalMon(s, cs, clock).logs|
    ensures var m := FinalMon(s, cs, clock); Fate(s.config.disk, m.disk, m.logs, s.config.tables, k)
  {
    MonitorSeesEvents(s, cs);
    EventsSettled(s, cs);
    EventsForward(s, cs, clock.now);
    LogSurvivesIff(s.config, Events(s, cs), clock, k);
  }

  /** Every epoch has a file of its own, which reports it, given what was there at the beginning. */
  ghost predicate AllOnDisk(s: Setup, cs: seq<Capture>, clock: FlowMon.Clock)
    requires ValidSetup(s)
  {
    var m, epochs := FinalMon(s, cs, clock), EpochsOf(s, cs);
    && |m.logs| == |epochs| && DistinctNames(m.logs)
    && forall k :: 0 <= k < |m.logs| ==> FileReports(s.config.disk, m.disk, m.logs[k], epochs[k])
  }

  /** What is on disk reports the epoch; if it was not there before, it lists just the epoch. */
  ghost predicate FileReports(before: FlowMon.Disk, after: FlowMon.Disk, log: FlowMon.LogFile, epoch: seq<Pkt>) {
    && Reports(Change(before, after, log), epoch)
    && (FlowMon.Held(before, log.name) == [] ==> FileLists(FlowMon.Held(after, log.name), epoch))
  }

  /**
   * All logs of a run are on disk in the end, each in a file of its own that reports its epoch, if
   * and only if any two dumps a round apart are made at different seconds of the wall clock.
   */
  lemma AllOnDiskIff(s: Setup, cs: seq<Capture>, clock: FlowMon.Clock)
    requires ValidSetup(s) && s.config.bits <= 26 && ForwardClock(cs, clock.now)
    ensures AllOnDisk(s, cs, clock) <==> RoundsApart(FinalMon(s, cs, clock).logs, s.config.tables)
  {
    var m, epochs := FinalMon(s, cs, clock), EpochsOf(s, cs);
    MonitorSeesEvents(s, cs);
    EventsSettled(s, cs);
    EventsForward(s, cs, clock.now);
    NamesDistinctIff(s.config, Events(s, cs), clock);
    LogsReportRun(s, cs, clock);
    if DistinctNames(m.logs) {
      forall k | 0 <= k < |m.logs|
        ensures FileReports(s.config.disk, m.disk, m.logs[k], epochs[k])
      {
        LogOnDiskIff(s, cs, clock, k);
        OwnFileReports(s, m, epochs[k], k);
      }
    }
  }

  lemma OwnFileReports(s: Setup, m: FlowMon.Mon, epoch: seq<Pkt>, k: nat)
    requires ValidSetup(s) && k < |m.logs| && RoundsApart(m.logs, s.config.tables) && Reports(m.logs[k], epoch)
    requires Fate(s.config.disk, m.disk, m.logs, s.config.tables, k)
    ensures FileReports(s.config.disk, m.disk, m.logs[k], epoch)
  {
    assert m.logs[k] == Change(s.config.disk, m.disk, m.logs[k]);
    if m.logs[k].held == [] {
      NewFileLists(m.logs[k], epoch);
    }
  }

  /**
   * A live capture: time runs forward, and every packet is handled within 10 (n - 1) seconds, where
   * n is the number of tables - ten seconds for the program's two. Then all logs are on disk in the
   * end if and only if the dump of the cleanup comes at a later second than the one a round before
   * it; it does if no packet is handled in the second of the cleanup.
   */
  lemma LiveLogsOnDisk(s: Setup, cs: seq<Capture>, clock: FlowMon.Clock)
    requires ValidSetup(s) && s.config.bits <= 26 && Chronological(cs)
    requires ForwardClock(cs, clock.now) && PromptCapture(cs, 10 * (s.config.tables - 1))
    ensures AllOnDisk(s, cs, clock) <==> LastApart(FinalMon(s, cs, clock).logs, s.config.tables)
    ensures HandledBefore(cs, clock.now) ==> AllOnDisk(s, cs, clock)
  {
    AllOnDiskIff(s, cs, clock);
    LiveRoundsApart(s, cs, clock);
  }

  lemma LiveRoundsApart(s: Setup, cs: seq<Capture>, clock: FlowMon.Clock)
    requires ValidSetup(s) && Chronological(cs)
    requires ForwardClock(cs, clock.now) && PromptCapture(cs, 10 * (s.config.tables - 1))
    ensures var logs := FinalMon(s, cs, clock).logs;
      && (RoundsApart(logs, s.config.tables) <==> LastApart(logs, s.config.tables))
      && (HandledBefore(cs, clock.now) ==> RoundsApart(logs, s.config.tables))
  {
    MonitorSeesEvents(s, cs);
    EventsSettled(s, cs);
    EventsInOrder(s, cs);
    EventsForward(s, cs, clock.now);
    EventsPrompt(s, cs, 10 * (s.config.tables - 1), clock.now);
    NamesDistinctIff(s.config, Events(s, cs), clock);
    PromptRunKeepsLogs(s.config, Events(s, cs), clock);
  }

  /**
   * Reading a capture file within one second of the wall clock: of any number of epochs the dumps
   * of the last ones, one for each table, are on disk, and each dump was written over the one a
   * round before.
   */
  lemma ReplayKeepsLastRound(s: Setup, cs: seq<Capture>, clock: FlowMon.Clock)
    requires ValidSetup(s) && forall i :: 0 <= i < |cs| ==> cs[i].clock.now == clock.now
    ensures var m, n := FinalMon(s, cs, clock), s.config.tables;
      && |m.logs| == |EpochsOf(s, cs)|
      && forall k :: 0 <= k < |m.logs| ==>
           && (Last(m.logs, k) <==> k + n >= |m.logs|)
           && (k + n >= |m.logs| ==> FlowMon.Held(m.disk, m.logs[k].name) == m.logs[k].content)
           && (k >= n ==> m.logs[k].held == m.logs[k - n].content)
  {
    var m := FinalMon(s, cs, clock);
    OneLogForEachEpoch(s, cs, clock);
    OneSecond(s, cs, clock);
    forall k | 0 <= k < |m.logs|
      ensures Last(m.logs, k) <==> k + s.config.tables >= |m.logs|
      ensures k + s.config.tables >= |m.logs| ==> FlowMon.Held(m.disk, m.logs[k].name) == m.logs[k].content
      ensures k >= s.config.tables ==> m.logs[k].held == m.logs[k - s.config.tables].content
    {
      LogOnDiskIff(s, cs, clock, k);
    }
  }

  lemma OneSecond(s: Setup, cs: seq<Capture>, clock: FlowMon.Clock)
    requires ValidSetup(s) && forall i :: 0 <= i < |cs| ==> cs[i].clock.now == clock.now
    ensures var logs := FinalMon(s, cs, clock).logs;
      forall k :: 0 <= k < |logs| ==> logs[k].name.sec == clock.now - 1
  {
    var at := EventsStem(s, cs);
    MonitorSeesEvents(s, cs);
    EventsSettled(s, cs);
    FrozenSeconds(s.config, Events(s, cs), clock);
  }

  lemma OneLogForEachEpoch(s: Setup, cs: seq<Capture>, clock: FlowMon.Clock)
    requires ValidSetup(s)
    ensures |FinalMon(s, cs, clock).logs| == |EpochsOf(s, cs)|
  {
    var events := Events(s, cs);
    MonitorSeesEvents(s, cs);
    EventsSettled(s, cs);
    RunConsistent(s.config, events);
    CleanupFinishes(Run(s.config, events), s.config.bits, HistoryOf(Arrivals(s.config, events)), clock);
  }

  // ---- The program ----

  ghost predicate Started(mon: Monitor, s: Setup)
    reads mon, mon.trie, mon.trie.nodes.Values, mon.frags, mon.flowmon, mon.flowmon.Footprint()
  {
    mon.Valid() && mon.order == s.order && mon.flowmon.bits == s.config.bits
  }

  /** Initialization, and the lines of the networks file. */
  method StartMonitor(s: Setup) returns (mon: Monitor)
    requires ValidSetup(s)
    ensures fresh(mon) && Started(mon, s) && mon.View() == After(s, [])
    ensures fresh(mon.frags) && fresh(mon.frags.table) && fresh(mon.flowmon) && fresh(mon.flowmon.Footprint())
  {
    mon := new Monitor(s.order, s.config.tables, s.config.bits, s.config.disk);
    AddNetworks(mon, s.nets);
  }

  method AddNetworks(mon: Monitor, nets: seq<Net>)
    requires mon.Valid() && ValidNets(nets)
    modifies mon.trie, mon.trie.nodes.Values
    ensures mon.Valid() && mon.View() == old(mon.View()).(nets := old(mon.trie.nets) + nets)
  {
    var i := 0;
    assert nets[..0] == [];
    while i < |nets|
      invariant 0 <= i <= |nets| && mon.Valid()
      invariant mon.View() == old(mon.View()).(nets := old(mon.trie.nets) + nets[..i])
      invariant fresh(mon.trie.nodes.Values - old(mon.trie.nodes.Values))
    {
      mon.AddNetwork(nets[i]);
      assert nets[..i + 1] == nets[..i] + [nets[i]];
      i := i + 1;
    }
    assert nets[..i] == nets;
  }

  /** The capture loop. */
  method RunCaptures(mon: Monitor, s: Setup, cs: seq<Capture>)
    requires ValidSetup(s) && Started(mon, s) && mon.View() == After(s, [])
    modifies mon.frags, mon.frags.table, mon.flowmon, mon.flowmon.Footprint()
    ensures Started(mon, s) && mon.View() == After(s, cs)
  {
    var i := 0;
    while i < |cs|
      invariant 0 <= i <= |cs| && Started(mon, s) && mon.View() == After(s, cs[..i])
    {
      var ret := mon.PnaHook(cs[i]);
      assert cs[..i + 1][..i] == cs[..i];
      i := i + 1;
    }
    assert cs[..i] == cs;
  }

  /** The program from its start to its end; what remains of it is the log directory. */
  method RunProgram(s: Setup, cs: seq<Capture>, clock: FlowMon.Clock) returns (disk: FlowMon.Disk)
    requires ValidSetup(s)
    ensures disk == FinalMon(s, cs, clock).disk
  {
    var mon := StartMonitor(s);
    RunCaptures(mon, s, cs);
    mon.Cleanup(clock);
    disk := mon.flowmon.disk;
  }
}
