/** Conversations in a run: both directions are one flow, and its entry tells them apart by sender. */
module Conversations {
  import opened Words
  import opened Flows
  import opened Summaries
  import opened Epochs
  import opened WholeRun
  import opened Prefixes
  import opened Sessions
  import opened FragRing
  import opened Decoding
  import opened Encapsulation
  import opened Wire
  import opened PacketHooks
  import opened EndToEnd
  import FlowMon

  /**
   * Two captures of one conversation, in opposite directions and between different addresses, are
   * kept or given up together; if kept they carry the same key in opposite directions, outbound
   * being the one sent by the key's local endpoint.
   */
  lemma ConversationIsOneFlow(s: Setup, ring: Ring, ring': Ring, c: Capture, c': Capture)
    requires ValidSetup(s) && ValidRing(ring) && ValidRing(ring')
    requires var d, d' := Decode(s.order, ring, c.pktLen, c.bytes).1, Decode(s.order, ring', c'.pktLen, c'.bytes).1;
      d.Flow? && d'.Flow? && d'.key == Swapped(d.key) && d.key.localIp != d.key.remoteIp
    ensures var key := Decode(s.order, ring, c.pktLen, c.bytes).1.key;
      var p, p' := Arriving(s.order, s.nets, ring, c), Arriving(s.order, s.nets, ring', c');
      && (p.Some? <==> p'.Some?)
      && (p.Some? ==>
            && p.value.key == p'.value.key && p.value.dir != p'.value.dir
            && (p.value.dir == PNA_DIR_OUTBOUND
                <==> (key.localIp, key.localPort) == (p.value.key.localIp, p.value.key.localPort)))
  {
    var key := Decode(s.order, ring, c.pktLen, c.bytes).1.key;
    DirectionsMerge(s.nets, key);
    if Localize(s.nets, key).kept {
      DirectionIsSender(s.nets, key);
    }
  }

  /**
   * What a packet in whatever tags and tunnels brings the flow tables: the localized key of its
   * fields, its flags if it is a TCP segment and none otherwise, and the length and second of its
   * capture. It arrives if and only if one of its addresses lies in a network with a domain.
   */
  lemma PacketArrives(s: Setup, ring: Ring, f: Frame, c: Capture, h: IpFields, t: Segment, payload: seq<u8>)
    requires ValidSetup(s) && ValidRing(ring) && ValidFields(h) && Whole(h, t) && ValidSegment(t)
    requires Carries(s.order, f, c.pktLen, PacketBytes(h, t, payload)) && c.bytes == FrameBytes(f)
    ensures var p, l := Arriving(s.order, s.nets, ring, c), Localize(s.nets, KeyOf(h, t));
      && (p.Some? <==> Lookup(s.nets, h.src) != 0xFFFF || Lookup(s.nets, h.dst) != 0xFFFF)
      && (p.Some? ==> p.value == Pkt(l.key, l.dir, if t.Tcp? then t.flags else 0, c.pktLen, c.sec))
  {
    FieldsRoundTrip(s.order, ring, f, c.pktLen, h, t, payload);
    GivenUpIff(s.nets, KeyOf(h, t));
  }

  /** The header and the ports of an answer. */
  predicate Answers(h: IpFields, s: Segment, h': IpFields, s': Segment) {
    && h'.src == h.dst && h'.dst == h.src
    && ((s.Tcp? && s'.Tcp? && s'.sport == s.dport && s'.dport == s.sport)
        || (s.Udp? && s'.Udp? && s'.sport == s.dport && s'.dport == s.sport))
  }

  /**
   * A TCP or UDP session between different addresses is one flow: a packet A:p to B:q and one
   * B:q to A:p, each in whatever tags and tunnels, bring the flow tables the same key in opposite
   * directions, the outbound one coming from the key's local endpoint.
   */
  lemma SessionMerges(s: Setup, ring: Ring, ring': Ring, f: Frame, f': Frame, c: Capture, c': Capture,
                      h: IpFields, h': IpFields, t: Segment, t': Segment, payload: seq<u8>, payload': seq<u8>)
    requires ValidSetup(s) && ValidRing(ring) && ValidRing(ring')
    requires ValidFields(h) && ValidFields(h') && h.offset == 0 && h'.offset == 0
    requires ValidSegment(t) && ValidSegment(t') && Answers(h, t, h', t') && h.src != h.dst
    requires Carries(s.order, f, c.pktLen, PacketBytes(h, t, payload)) && c.bytes == FrameBytes(f)
    requires Carries(s.order, f', c'.pktLen, PacketBytes(h', t', payload')) && c'.bytes == FrameBytes(f')
    ensures var p, p' := Arriving(s.order, s.nets, ring, c), Arriving(s.order, s.nets, ring', c');
      && (p.Some? <==> p'.Some?)
      && (p.Some? ==>
            && p.value.key == p'.value.key && p.value.dir != p'.value.dir
            && (p.value.dir == PNA_DIR_OUTBOUND <==> p.value.key.localIp == h.src)
            && (p'.value.dir == PNA_DIR_OUTBOUND <==> p'.value.key.localIp == h'.src))
  {
    FieldsRoundTrip(s.order, ring, f, c.pktLen, h, t, payload);
    FieldsRoundTrip(s.order, ring', f', c'.pktLen, h', t', payload');
    assert KeyOf(h', t') == Swapped(KeyOf(h, t));
    DirectionsMerge(s.nets, KeyOf(h, t));
    if Localize(s.nets, KeyOf(h, t)).kept {
      DirectionIsSender(s.nets, KeyOf(h, t));
    }
  }

  // ---- Who sent the packets of an entry ----

  /** A recorded packet, the capture it came from, and the key and flags that the decoder found in it. */
  datatype Sighting = Sighting(capture: Capture, decoded: Key, flags: u16, p: Pkt)

  /** The captures whose packets were recorded, in order. */
  ghost function Seen(s: Setup, cs: seq<Capture>): seq<Sighting>
    requires ValidSetup(s)
  {
    if cs == [] then [] else Seen(s, cs[..|cs| - 1]) + LastSeen(s, cs)
  }

  ghost function LastSeen(s: Setup, cs: seq<Capture>): seq<Sighting>
    requires ValidSetup(s) && cs != []
  {
    var n := |cs| - 1;
    match LastPacket(s, cs)
    case None => []
    case Some(p) =>
      var d := LastDecoded(s, cs);
      if Returned(s.config, Events(s, cs)) < 0 then [] else [Sighting(cs[n], d.key, d.flags, p)]
  }

  /** The key and the flags that the decoder found in the last capture. */
  ghost function LastDecoded(s: Setup, cs: seq<Capture>): (d: Decoded)
    requires ValidSetup(s) && cs != [] && LastPacket(s, cs).Some?
    ensures d.Flow?
  {
    var n := |cs| - 1;
    Decode(s.order, After(s, cs[..n]).ring, cs[n].pktLen, cs[n].bytes).1
  }

  function PacketsOf(xs: seq<Sighting>): (ps: seq<Pkt>)
    ensures |ps| == |xs|
  {
    seq(|xs|, i requires 0 <= i < |xs| => xs[i].p)
  }

  lemma PacketsOfBoth(xs: seq<Sighting>, ys: seq<Sighting>)
    ensures PacketsOf(xs + ys) == PacketsOf(xs) + PacketsOf(ys)
  {
  }

  /** They are the recorded packets of the run. */
  lemma {:induction false} SeenIsRecorded(s: Setup, cs: seq<Capture>)
    requires ValidSetup(s)
    ensures PacketsOf(Seen(s, cs)) == RecordedPackets(Arrivals(s.config, Events(s, cs)))
    decreases |cs|
  {
    if cs != [] {
      SeenIsRecorded(s, cs[..|cs| - 1]);
      PacketsOfBoth(Seen(s, cs[..|cs| - 1]), LastSeen(s, cs));
      LastSeenIsRecorded(s, cs);
    }
  }

  lemma LastSeenIsRecorded(s: Setup, cs: seq<Capture>)
    requires ValidSetup(s) && cs != []
    ensures RecordedPackets(Arrivals(s.config, Events(s, cs)))
         == RecordedPackets(Arrivals(s.config, Events(s, cs[..|cs| - 1]))) + PacketsOf(LastSeen(s, cs))
  {
    var n := |cs| - 1;
    match LastPacket(s, cs)
    case None =>
      assert Events(s, cs) == Events(s, cs[..n]);
      assert PacketsOf(LastSeen(s, cs)) == [];
    case Some(p) =>
      assert Events(s, cs) == Events(s, cs[..n]) + [Event(p, cs[n].clock)];
      LastSeenPacket(s, cs, p);
      LastRecorded(s.config, Events(s, cs[..n]), Event(p, cs[n].clock));
  }

  lemma LastSeenPacket(s: Setup, cs: seq<Capture>, p: Pkt)
    requires ValidSetup(s) && cs != [] && LastPacket(s, cs) == Some(p)
    ensures Events(s, cs) != []
    ensures PacketsOf(LastSeen(s, cs)) == if Returned(s.config, Events(s, cs)) >= 0 then [p] else []
  {
    var d := LastDecoded(s, cs);
    PacketsOfOne(Sighting(cs[|cs| - 1], d.key, d.flags, p));
  }

  lemma PacketsOfOne(x: Sighting)
    ensures PacketsOf([x]) == [x.p] && PacketsOf([]) == []
  {
  }

  lemma LastRecorded(c: Config, before: seq<Event>, e: Event)
    requires ValidConfig(c)
    ensures RecordedPackets(Arrivals(c, before + [e]))
         == RecordedPackets(Arrivals(c, before)) + (if Returned(c, before + [e]) >= 0 then [e.p] else [])
  {
    var all := before + [e];
    assert all[..|before|] == before;
    RecordedSnoc(Arrivals(c, before), Arrival(e.p, Returned(c, all) >= 0));
  }

  /** The packet is what localization makes of the decoded key, with the decoded flags, and nothing else. */
  ghost predicate Sound(s: Setup, x: Sighting)
    requires ValidSetup(s)
  {
    && Localize(s.nets, x.decoded) == Localization(true, x.p.key, x.p.dir)
    && x.p.flags == x.flags && x.p.len == x.capture.pktLen && x.p.sec == x.capture.sec
  }

  ghost predicate AllSound(s: Setup, xs: seq<Sighting>)
    requires ValidSetup(s)
  {
    forall i :: 0 <= i < |xs| ==> Sound(s, xs[i])
  }

  lemma {:induction false} SeenSound(s: Setup, cs: seq<Capture>)
    requires ValidSetup(s)
    ensures AllSound(s, Seen(s, cs))
    decreases |cs|
  {
    if cs != [] {
      SeenSound(s, cs[..|cs| - 1]);
    }
  }

  /** The recorded captures of epoch k. */
  ghost function SeenIn(s: Setup, cs: seq<Capture>, k: nat): (xs: seq<Sighting>)
    requires ValidSetup(s) && k < |EpochsOf(s, cs)|
  {
    SeenSize(s, cs);
    Share(Seen(s, cs), EpochsOf(s, cs), k)
  }

  lemma SeenSize(s: Setup, cs: seq<Capture>)
    requires ValidSetup(s)
    ensures PacketsOf(Seen(s, cs)) == Flatten(EpochsOf(s, cs))
  {
    SeenIsRecorded(s, cs);
    EpochsPartition(Arrivals(s.config, Events(s, cs)));
  }

  /** The epochs divide the recorded captures as they divide their packets. */
  lemma SeenPartition(s: Setup, cs: seq<Capture>)
    requires ValidSetup(s)
    ensures |Seen(s, cs)| == |Flatten(EpochsOf(s, cs))|
    ensures Flatten(Shares(Seen(s, cs), EpochsOf(s, cs))) == Seen(s, cs)
  {
    SeenSize(s, cs);
    SharesPartition(Seen(s, cs), EpochsOf(s, cs));
  }

  lemma SeenInEpoch(s: Setup, cs: seq<Capture>, k: nat)
    requires ValidSetup(s) && k < |EpochsOf(s, cs)|
    ensures PacketsOf(SeenIn(s, cs, k)) == EpochsOf(s, cs)[k] && AllSound(s, SeenIn(s, cs, k))
  {
    SeenSize(s, cs);
    SeenSound(s, cs);
    ShareOfPackets(Seen(s, cs), EpochsOf(s, cs), k);
    ShareSound(s, Seen(s, cs), EpochsOf(s, cs), k);
  }

  lemma ShareSound(s: Setup, xs: seq<Sighting>, epochs: seq<seq<Pkt>>, k: nat)
    requires ValidSetup(s) && AllSound(s, xs) && |xs| == |Flatten(epochs)| && k < |epochs|
    ensures AllSound(s, Share(xs, epochs, k))
  {
    FlattenUpTo(epochs, k);
  }

  lemma ShareOfPackets(xs: seq<Sighting>, epochs: seq<seq<Pkt>>, k: nat)
    requires PacketsOf(xs) == Flatten(epochs) && k < |epochs|
    ensures PacketsOf(Share(xs, epochs, k)) == epochs[k]
  {
    FlattenUpTo(epochs, k);
    PacketsOfSlice(xs, |Flatten(epochs[..k])|, |Flatten(epochs[..k])| + |epochs[k]|);
  }

  lemma PacketsOfSlice(xs: seq<Sighting>, i: nat, j: nat)
    requires i <= j <= |xs|
    ensures PacketsOf(xs[i..j]) == PacketsOf(xs)[i..j]
  {
  }

  /** How many captures have the addresses, ports and protocols of id in their headers. */
  function Sent(xs: seq<Sighting>, id: FlowId): nat {
    if xs == [] then 0
    else
      var n := |xs| - 1;
      Sent(xs[..n], id) + (if Id(xs[n].decoded) == id then 1 else 0)
  }

  /** The sum of their declared lengths, with the Ethernet overhead of each. */
  function SentOctets(xs: seq<Sighting>, id: FlowId): nat {
    if xs == [] then 0
    else
      var n := |xs| - 1;
      SentOctets(xs[..n], id) + (if Id(xs[n].decoded) == id then xs[n].capture.pktLen + 38 else 0)
  }

  /** Some capture with those addresses, ports and protocols had bit j of the TCP flags set. */
  ghost predicate SentFlag(xs: seq<Sighting>, id: FlowId, j: nat) {
    exists i :: 0 <= i < |xs| && Id(xs[i].decoded) == id && TestBit(xs[i].flags, j)
  }

  /** A bit of the flags of a flow in a direction is a bit that some capture of that sender had. */
  ghost predicate FlagBySender(qs: seq<Pkt>, k: Key, xs: seq<Sighting>, j: nat) {
    && (TestBit(FlagBits(qs, PNA_DIR_INBOUND), j) <==> SentFlag(xs, Id(Swapped(k)), j))
    && (TestBit(FlagBits(qs, PNA_DIR_OUTBOUND), j) <==> k.localIp != k.remoteIp && SentFlag(xs, Id(k), j))
  }

  /** The counts of a flow by direction are counts of captures by sender. */
  ghost predicate BySender(qs: seq<Pkt>, k: Key, xs: seq<Sighting>) {
    && Packets(qs, PNA_DIR_INBOUND) == Sent(xs, Id(Swapped(k)))
    && Octets(qs, PNA_DIR_INBOUND) == SentOctets(xs, Id(Swapped(k)))
    && Packets(qs, PNA_DIR_OUTBOUND) == (if k.localIp == k.remoteIp then 0 else Sent(xs, Id(k)))
    && Octets(qs, PNA_DIR_OUTBOUND) == (if k.localIp == k.remoteIp then 0 else SentOctets(xs, Id(k)))
  }

  lemma {:induction false} MineBySender(s: Setup, xs: seq<Sighting>, k: Key)
    requires ValidSetup(s) && AllSound(s, xs) && Canonical(s.nets, k)
    ensures BySender(Mine(PacketsOf(xs), Id(k)), k, xs)
    decreases |xs|
  {
    if xs != [] {
      var n := |xs| - 1;
      assert PacketsOf(xs)[..n] == PacketsOf(xs[..n]);
      MineBySender(s, xs[..n], k);
      SenderDecides(s.nets, xs[n].decoded, k);
      OneMore(s, Mine(PacketsOf(xs[..n]), Id(k)), k, xs);
    }
  }

  /** The packet of a capture counts in the flow of k according to the sender that the decoder found. */
  predicate DecidedBySender(x: Sighting, k: Key) {
    && (Id(x.p.key) == Id(k) && x.p.dir == PNA_DIR_OUTBOUND <==> Id(x.decoded) == Id(k) && k.localIp != k.remoteIp)
    && (Id(x.p.key) == Id(k) && x.p.dir == PNA_DIR_INBOUND <==> Id(x.decoded) == Id(Swapped(k)))
  }

  lemma {:induction false} FlagsBySender(s: Setup, xs: seq<Sighting>, k: Key, j: nat)
    requires ValidSetup(s) && AllSound(s, xs) && Canonical(s.nets, k)
    ensures FlagBySender(Mine(PacketsOf(xs), Id(k)), k, xs, j)
    decreases |xs|
  {
    if xs == [] {
      TestBitZero(j);
    } else {
      var n := |xs| - 1;
      assert PacketsOf(xs)[..n] == PacketsOf(xs[..n]);
      FlagsBySender(s, xs[..n], k, j);
      SenderDecides(s.nets, xs[n].decoded, k);
      OneMoreFlag(s, Mine(PacketsOf(xs[..n]), Id(k)), k, xs, j);
    }
  }

  lemma SentFlagLast(xs: seq<Sighting>, id: FlowId, j: nat)
    requires xs != []
    ensures var n := |xs| - 1;
      SentFlag(xs, id, j) <==> SentFlag(xs[..n], id, j) || (Id(xs[n].decoded) == id && TestBit(xs[n].flags, j))
  {
    assert forall i :: 0 <= i < |xs| - 1 ==> xs[..|xs| - 1][i] == xs[i];
  }

  lemma OneMoreFlag(s: Setup, qs: seq<Pkt>, k: Key, xs: seq<Sighting>, j: nat)
    requires ValidSetup(s) && xs != [] && FlagBySender(qs, k, xs[..|xs| - 1], j) && Sound(s, xs[|xs| - 1])
    requires DecidedBySender(xs[|xs| - 1], k)
    ensures FlagBySender(qs + (if Id(xs[|xs| - 1].p.key) == Id(k) then [xs[|xs| - 1].p] else []), k, xs, j)
  {
    var x := xs[|xs| - 1];
    SentFlagLast(xs, Id(k), j);
    SentFlagLast(xs, Id(Swapped(k)), j);
    if Id(x.p.key) == Id(k) {
      assert (qs + [x.p])[..|qs|] == qs;
      TestBitOr(FlagBits(qs, x.p.dir), x.p.flags, j);
    } else {
      assert qs + [] == qs;
    }
  }

  lemma OneMore(s: Setup, qs: seq<Pkt>, k: Key, xs: seq<Sighting>)
    requires ValidSetup(s) && xs != [] && BySender(qs, k, xs[..|xs| - 1]) && Sound(s, xs[|xs| - 1])
    requires DecidedBySender(xs[|xs| - 1], k)
    ensures BySender(qs + (if Id(xs[|xs| - 1].p.key) == Id(k) then [xs[|xs| - 1].p] else []), k, xs)
  {
    var x := xs[|xs| - 1];
    if Id(x.p.key) == Id(k) {
      assert (qs + [x.p])[..|qs|] == qs;
    } else {
      assert qs + [] == qs;
    }
  }

  /** An entry gives the packets, bytes and TCP flags that each endpoint of its key sent in the epoch. */
  ghost predicate SplitBySender(e: Slot, xs: seq<Sighting>) {
    && e.data.packets.inbound == Wrap32(Sent(xs, Id(Swapped(e.key))))
    && e.data.bytes.inbound == Wrap32(SentOctets(xs, Id(Swapped(e.key))))
    && e.data.packets.outbound == Wrap32(if e.key.localIp == e.key.remoteIp then 0 else Sent(xs, Id(e.key)))
    && e.data.bytes.outbound == Wrap32(if e.key.localIp == e.key.remoteIp then 0 else SentOctets(xs, Id(e.key)))
    && forall j: nat :: FlagsSplit(e, xs, j)
  }

  /** Bit j of an entry's flags: whether each endpoint of its key sent it in the epoch. */
  ghost predicate FlagsSplit(e: Slot, xs: seq<Sighting>, j: nat) {
    && (TestBit(e.data.flags.inbound, j) <==> SentFlag(xs, Id(Swapped(e.key)), j))
    && (TestBit(e.data.flags.outbound, j) <==> e.key.localIp != e.key.remoteIp && SentFlag(xs, Id(e.key), j))
  }

  /**
   * A session's entry splits the recorded captures of its epoch by sender: outbound counts those
   * whose headers go from the entry's local endpoint to the remote one, inbound those that go back,
   * and a flag is set in a direction if and only if one of its captures had it. When an
   * address talks to itself everything counts as inbound.
   */
  lemma EntrySplitsBySender(s: Setup, cs: seq<Capture>, k: nat, es: seq<Slot>, i: nat)
    requires ValidSetup(s) && k < |EpochsOf(s, cs)| && Lists(es, EpochsOf(s, cs)[k]) && i < |es|
    ensures SplitBySender(es[i], SeenIn(s, cs, k))
  {
    EntryKeysExact(s, cs, k, es, i);
    SeenInEpoch(s, cs, k);
    MineBySender(s, SeenIn(s, cs, k), es[i].key);
    forall j: nat
      ensures FlagsSplit(es[i], SeenIn(s, cs, k), j)
    {
      FlagsBySender(s, SeenIn(s, cs, k), es[i].key, j);
    }
  }

  /** The dump can be read, it lists the epoch, and every entry is split by sender. */
  ghost predicate ReportsSenders(log: FlowMon.LogFile, epoch: seq<Pkt>, xs: seq<Sighting>) {
    exists es :: Reads(log, es) && Lists(es, epoch) && forall i :: 0 <= i < |es| ==> SplitBySender(es[i], xs)
  }

  /** So from frames to logs: the recorded captures are divided among the dumps, and told apart by sender. */
  lemma LogsSplitBySender(s: Setup, cs: seq<Capture>, clock: FlowMon.Clock)
    requires ValidSetup(s) && s.config.bits <= 26
    ensures |Seen(s, cs)| == |Flatten(EpochsOf(s, cs))|
    ensures Flatten(Shares(Seen(s, cs), EpochsOf(s, cs))) == Seen(s, cs)
    ensures var logs, epochs := FinalMon(s, cs, clock).logs, EpochsOf(s, cs);
      && |logs| == |epochs|
      && forall k :: 0 <= k < |logs| ==> ReportsSenders(logs[k], epochs[k], SeenIn(s, cs, k))
  {
    var logs, epochs := FinalMon(s, cs, clock).logs, EpochsOf(s, cs);
    SeenPartition(s, cs);
    LogsReportRun(s, cs, clock);
    forall k | 0 <= k < |logs|
      ensures ReportsSenders(logs[k], epochs[k], SeenIn(s, cs, k))
    {
      var es :| Reads(logs[k], es) && Lists(es, epochs[k]);
      forall i | 0 <= i < |es|
        ensures SplitBySender(es[i], SeenIn(s, cs, k))
      {
        EntrySplitsBySender(s, cs, k, es, i);
      }
    }
  }
}
