/** Tables whose byte size does not fit 32 bits: which sizes conserve every packet, and what the others lose. */
module LargeTables {
  import opened Words
  import opened Hashing
  import opened Flows
  import opened DumpTable
  import opened LogParser
  import opened LogRoundTrip
  import opened WholeRun
  import opened Prefixes
  import opened Sessions
  import opened FragRing
  import opened Decoding
  import opened Encapsulation
  import opened Wire
  import opened PacketHooks
  import opened EndToEnd
  import FlowMon

  // ---- Flows of the last slot ----

  /** The word whose hash is the largest, for every size of the table. */
  const LAST_WORD: u32 := 0x9e36_ffff

  function PortWord(sport: u16, dport: u16): u32 {
    dport * TWO16 + sport
  }

  /** For every client address and pair of ports there is a server with which the flow has that word. */
  function ServerFor(client: u32, sport: u16, dport: u16): u32 {
    Xor32(client, Xor32(PortWord(sport, dport), LAST_WORD))
  }

  /** The key of their flow, when the client's domain is 1 and the server's is unknown. */
  function LastSlotKey(client: u32, sport: u16, dport: u16): Key {
    Key(ETHERTYPE_IP, IPPROTO_UDP, client, ServerFor(client, sport, dport), sport, dport, 1, MAX_DOMAIN)
  }

  lemma HashedWord(client: u32, sport: u16, dport: u16)
    ensures Xor32(Xor32(client, ServerFor(client, sport, dport)), PortWord(sport, dport)) == LAST_WORD
  {
    var ports := PortWord(sport, dport);
    var rest := Xor(ports, LAST_WORD);
    XorAssociates(client, client, rest);
    XorSelf(client);
    XorZero(rest);
    XorCommutes(rest, ports);
    XorAssociates(ports, ports, LAST_WORD);
    XorSelf(ports);
    XorZero(LAST_WORD);
  }

  lemma LastHash(client: u32, sport: u16, dport: u16, bits: nat)
    requires 1 <= bits <= 30
    ensures FlowHash(Id(LastSlotKey(client, sport, dport)), bits) == Pow2(bits) - 1
  {
    var id := Id(LastSlotKey(client, sport, dport));
    HashedWord(client, sport, dport);
    assert FlowHash(id, bits) == Hash32(Xor32(Xor32(id.localIp, id.remoteIp), PortWord(sport, dport)), bits);
    LargestHash(bits);
  }

  lemma LargestHash(bits: nat)
    requires 1 <= bits <= 30
    ensures Hash32(LAST_WORD, bits) == Pow2(bits) - 1
  {
    Pow2Values();
    Pow2Sum(32 - bits, bits);
    assert Product32(LAST_WORD) == TWO32 - 1;
    LastQuotient(Pow2(32 - bits), Pow2(bits));
  }

  lemma LastQuotient(p: nat, n: nat)
    requires p >= 1 && n >= 1
    ensures (p * n - 1) / p == n - 1
  {
    assert p * n - 1 == p * (n - 1) + (p - 1);
    ModUnique(p * n - 1, n - 1, p - 1, p);
  }

  // ---- A packet of such a flow ----

  /** The network of a single host. */
  function HostNet(client: u32): Net {
    Net(client, 32, 1)
  }

  lemma HostDomains(client: u32, other: u32)
    requires other != client
    ensures Lookup([HostNet(client)], client) == 1 && Lookup([HostNet(client)], other) == MAX_DOMAIN
  {
    var nets := [HostNet(client)];
    MatchesUnderMask(nets[0], client);
    MatchesUnderMask(nets[0], other);
    assert Longest(nets, client, 0);
    LongestDecides(nets, client, 0);
    LookupIsLongestMatch(nets, other);
  }

  /** The client's datagram to the server, carried in whatever tags and tunnels. */
  ghost predicate IsQuery(s: Setup, c: Capture, f: Frame, h: IpFields, sport: u16, dport: u16, payload: seq<u8>) {
    && s.nets == [HostNet(h.src)]
    && PortWord(sport, dport) != LAST_WORD
    && ValidFields(h) && h.offset == 0 && h.dst == ServerFor(h.src, sport, dport)
    && Carries(s.order, f, c.pktLen, PacketBytes(h, Udp(sport, dport), payload)) && c.bytes == FrameBytes(f)
  }

  lemma QueryLocalized(client: u32, sport: u16, dport: u16)
    requires PortWord(sport, dport) != LAST_WORD
    ensures var server := ServerFor(client, sport, dport);
      Localize([HostNet(client)], Key(ETHERTYPE_IP, IPPROTO_UDP, client, server, sport, dport, 0, 0))
      == Localization(true, LastSlotKey(client, sport, dport), PNA_DIR_OUTBOUND)
  {
    HashedWord(client, sport, dport);
    XorSelf(client);
    XorZero(PortWord(sport, dport));
    HostDomains(client, ServerFor(client, sport, dport));
  }

  /** What the query brings to the flow tables. */
  function QueryPacket(c: Capture, client: u32, sport: u16, dport: u16): Pkt {
    Pkt(LastSlotKey(client, sport, dport), PNA_DIR_OUTBOUND, 0, c.pktLen, c.sec)
  }

  lemma QueryArrives(s: Setup, c: Capture, f: Frame, h: IpFields, sport: u16, dport: u16, payload: seq<u8>)
    requires ValidSetup(s) && IsQuery(s, c, f, h, sport, dport, payload)
    ensures Events(s, [c]) == [Event(QueryPacket(c, h.src, sport, dport), c.clock)]
  {
    assert [c][..0] == [] && Events(s, []) == [];
    FieldsRoundTrip(s.order, EmptyRing(), f, c.pktLen, h, Udp(sport, dport), payload);
    QueryLocalized(h.src, sport, dport);
  }

  /**
   * From a frame to a log that misses its packet: with 2^27 slots or more the query is recorded,
   * but the run's only dump does not report it; a new log file lists nothing at all.
   */
  lemma LargeTableLosesQuery(s: Setup, c: Capture, f: Frame, h: IpFields, sport: u16, dport: u16,
                             payload: seq<u8>, clock: FlowMon.Clock)
    requires ValidSetup(s) && s.config.bits > 26 && IsQuery(s, c, f, h, sport, dport, payload)
    ensures var p, logs := QueryPacket(c, h.src, sport, dport), FinalMon(s, [c], clock).logs;
      && EpochsOf(s, [c]) == [[p]] && |logs| == 1 && !Reports(logs[0], [p])
      && (logs[0].held == [] ==> ReadLog(logs[0].content) == Ok([]))
  {
    var e := Event(QueryPacket(c, h.src, sport, dport), c.clock);
    QueryArrives(s, c, f, h, sport, dport, payload);
    MonitorSeesEvents(s, [c]);
    LastSlotLost(s.config, e, h.src, sport, dport, clock);
    FirstReturnsOne(s.config, e);
  }

  lemma LastSlotLost(c: Config, e: Event, client: u32, sport: u16, dport: u16, clock: FlowMon.Clock)
    requires ValidConfig(c) && c.bits > 26 && e.p.key == LastSlotKey(client, sport, dport)
    ensures var logs := FlowMon.Cleanup(Run(c, [e]), c.bits, clock, c.tables).logs;
      |logs| == 1 && !Reports(logs[0], [e.p]) && (logs[0].held == [] ==> ReadLog(logs[0].content) == Ok([]))
  {
    SinglePacketRun(c, e, clock);
    LastHash(client, sport, dport, c.bits);
    DumpLimitIff(c.bits);
    assert SessionsOf([]) == [];
  }

  /** Every run with these tables conserves its packets. */
  ghost predicate Conserves(c: Config)
    requires ValidConfig(c)
  {
    forall s: Setup, cs, clock {:trigger AllReported(s, cs, clock)} ::
      s.config == c && ValidSetup(s) ==> AllReported(s, cs, clock)
  }

  /** The packets of every run are conserved exactly with tables of at most 2^26 slots. */
  lemma ConservesIff(c: Config)
    requires ValidConfig(c)
    ensures Conserves(c) <==> c.bits <= 26
  {
    if c.bits <= 26 {
      forall s: Setup, cs, clock | s.config == c && ValidSetup(s)
        ensures AllReported(s, cs, clock)
      {
        LogsReportRun(s, cs, clock);
      }
    } else {
      var s, cs, clock := LosingRun(c);
    }
  }

  lemma LosingRun(c: Config) returns (s: Setup, cs: seq<Capture>, clock: FlowMon.Clock)
    requires ValidConfig(c) && c.bits > 26
    ensures s.config == c && ValidSetup(s) && !AllReported(s, cs, clock)
  {
    var h := QueryHeader();
    s := Setup(c, [HostNet(h.src)], MsbFirst);
    clock := FlowMon.Clock(1, 0, 0);
    var query := PlainQuery(h, s, clock);
    cs := [query];
    LargeTableLosesQuery(s, query, PlainFrame(h), h, 50000, 53, [], clock);
  }

  /** A DNS query of 10.0.0.1 in a frame without tags and tunnels. */
  function QueryHeader(): IpFields {
    IpFields(0x0a00_0001, ServerFor(0x0a00_0001, 50000, 53), 0, false, false, 0, 0, 24, 64, 0)
  }

  function PlainFrame(h: IpFields): Frame
    requires ValidFields(h)
  {
    Frame(Zeros(12), [], [], PacketBytes(h, Udp(50000, 53), []))
  }

  lemma PlainQuery(h: IpFields, s: Setup, clock: FlowMon.Clock) returns (c: Capture)
    requires h == QueryHeader() && s.nets == [HostNet(h.src)]
    ensures IsQuery(s, c, PlainFrame(h), h, 50000, 53, [])
  {
    var f := PlainFrame(h);
    PlainCarries(h, s.order);
    c := Capture(|FrameBytes(f)|, 0, FrameBytes(f), clock);
  }

  lemma PlainCarries(h: IpFields, order: BitOrder)
    requires ValidFields(h)
    ensures |FrameBytes(PlainFrame(h))| == 38
    ensures Carries(order, PlainFrame(h), 38, PacketBytes(h, Udp(50000, 53), []))
  {
    IpFieldsRead(h, IPPROTO_UDP, SegmentBytes(Udp(50000, 53)) + []);
  }
}
