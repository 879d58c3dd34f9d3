/** Fragmented datagrams in a run: the later fragments find the flow of the first. */
module Fragments {
  import opened Words
  import opened Hashing
  import opened Flows
  import opened Sessions
  import opened FragRing
  import opened Decoding
  import opened Encapsulation
  import opened Wire
  import opened PacketHooks
  import opened EndToEnd

  /** A first fragment of a UDP datagram, with its ports readable. */
  predicate FirstFragment(p: Peeled) {
    && p.AtTransport? && |p.iphdr| >= 20 && p.key.l4Protocol == 17
    && FragOffset(p.iphdr) == 0 && MoreFragments(p.iphdr) && |p.pkt| >= 4
  }

  function FragOf(p: Peeled): Frag
    requires FirstFragment(p)
  {
    Frag(Fingerprint(HeaderWords(p.iphdr)), Net16(p.pkt, 0), Net16(p.pkt, 2))
  }

  /** A later fragment of the same datagram: same addresses, protocol and identification. */
  predicate LaterFragment(p: Peeled, q: Peeled)
    requires FirstFragment(p)
  {
    && q.AtTransport? && |q.iphdr| >= 20 && q.key.l4Protocol == 17
    && FragOffset(q.iphdr) != 0
    && q.iphdr[9] == p.iphdr[9] && q.iphdr[12..20] == p.iphdr[12..20] && q.iphdr[4..6] == p.iphdr[4..6]
  }

  /** The calls of pna_set_frag that the captures cause. */
  function SetCalls(order: BitOrder, cs: seq<Capture>): seq<Frag> {
    if cs == [] then []
    else
      var n := |cs| - 1;
      var p := PeelFrame(order, cs[n].pktLen, cs[n].bytes);
      SetCalls(order, cs[..n]) + (if FirstFragment(p) then [FragOf(p)] else [])
  }

  lemma DecodeSets(order: BitOrder, ring: Ring, c: Capture)
    requires ValidRing(ring)
    ensures var p := PeelFrame(order, c.pktLen, c.bytes);
      Decode(order, ring, c.pktLen, c.bytes).0 == if FirstFragment(p) then SetFrag(ring, FragOf(p)) else ring
  {
  }

  lemma {:induction false} RingSeesCalls(s: Setup, cs: seq<Capture>)
    requires ValidSetup(s)
    ensures After(s, cs).ring == RingAfter(SetCalls(s.order, cs))
    decreases |cs|
  {
    if cs != [] {
      var n := |cs| - 1;
      RingSeesCalls(s, cs[..n]);
      DecodeSets(s.order, After(s, cs[..n]).ring, cs[n]);
      var before, p := SetCalls(s.order, cs[..n]), PeelFrame(s.order, cs[n].pktLen, cs[n].bytes);
      if FirstFragment(p) {
        assert (before + [FragOf(p)])[..|before|] == before;
      } else {
        assert before + [] == before;
      }
    }
  }

  lemma {:induction false} SetCallsSplit(order: BitOrder, a: seq<Capture>, b: seq<Capture>)
    ensures SetCalls(order, a + b) == SetCalls(order, a) + SetCalls(order, b)
    decreases |b|
  {
    if b == [] {
      assert a + b == a;
    } else {
      var n := |b| - 1;
      assert (a + b)[..|a + b| - 1] == a + b[..n];
      SetCallsSplit(order, a, b[..n]);
    }
  }

  lemma CallsOfAll(order: BitOrder, before: seq<Capture>, first: Capture, between: seq<Capture>)
    requires FirstFragment(PeelFrame(order, first.pktLen, first.bytes))
    ensures SetCalls(order, before + [first] + between)
         == SetCalls(order, before) + [FragOf(PeelFrame(order, first.pktLen, first.bytes))] + SetCalls(order, between)
  {
    SetCallsSplit(order, before + [first], between);
    assert (before + [first])[..|before|] == before;
  }

  /** The ports of a first fragment are found while fewer than 512 insertions follow its own. */
  lemma PortsKept(s: Setup, before: seq<Capture>, first: Capture, between: seq<Capture>)
    requires ValidSetup(s)
    requires var p := PeelFrame(s.order, first.pktLen, first.bytes);
      && FirstFragment(p) && GetFrag(After(s, before).ring, FragOf(p).fingerprint) == None
      && NewInsertions(SetCalls(s.order, before) + [FragOf(p)], SetCalls(s.order, between)) < 512
    ensures var f := FragOf(PeelFrame(s.order, first.pktLen, first.bytes));
      GetFrag(After(s, before + [first] + between).ring, f.fingerprint) == Some(f)
  {
    var f, calls := FragOf(PeelFrame(s.order, first.pktLen, first.bytes)), SetCalls(s.order, before);
    RingSeesCalls(s, before);
    RingSeesCalls(s, before + [first] + between);
    CallsOfAll(s.order, before, first, between);
    RingIsQueue(calls);
    GetIsQueueLookup(RingAfter(calls), Inserted(calls), f.fingerprint);
    FoundUntilEvicted(calls, f, SetCalls(s.order, between));
  }

  /**
   * A fragmented datagram stays in one flow: once its first fragment has been seen with a
   * fingerprint for which no entry answered, and while fewer than 512 new fingerprints follow, a
   * later fragment brings the flow tables the same key and direction as the first did.
   */
  lemma DatagramStaysTogether(s: Setup, before: seq<Capture>, first: Capture, between: seq<Capture>, last: Capture)
    requires ValidSetup(s)
    requires var p := PeelFrame(s.order, first.pktLen, first.bytes);
      && FirstFragment(p) && LaterFragment(p, PeelFrame(s.order, last.pktLen, last.bytes))
      && GetFrag(After(s, before).ring, FragOf(p).fingerprint) == None
      && NewInsertions(SetCalls(s.order, before) + [FragOf(p)], SetCalls(s.order, between)) < 512
    ensures var a := Arriving(s.order, s.nets, After(s, before).ring, first);
      var b := Arriving(s.order, s.nets, After(s, before + [first] + between).ring, last);
      && (a.Some? <==> b.Some?)
      && (a.Some? ==> b.value.key == a.value.key && b.value.dir == a.value.dir)
  {
    PortsKept(s, before, first, between);
    LaterDecodesAlike(s.order, After(s, before).ring, After(s, before + [first] + between).ring, first, last);
  }

  lemma LaterDecodesAlike(order: BitOrder, ring: Ring, ring': Ring, first: Capture, last: Capture)
    requires ValidRing(ring) && ValidRing(ring')
    requires var p := PeelFrame(order, first.pktLen, first.bytes);
      && FirstFragment(p) && LaterFragment(p, PeelFrame(order, last.pktLen, last.bytes))
      && GetFrag(ring', FragOf(p).fingerprint) == Some(FragOf(p))
    ensures Decode(order, ring', last.pktLen, last.bytes).1 == Decode(order, ring, first.pktLen, first.bytes).1
  {
    var p, q := PeelFrame(order, first.pktLen, first.bytes), PeelFrame(order, last.pktLen, last.bytes);
    SameHeaderWords(p.iphdr, q.iphdr);
  }

  lemma SameHeaderWords(a: seq<u8>, b: seq<u8>)
    requires |a| >= 20 && |b| >= 20
    requires b[9] == a[9] && b[12..20] == a[12..20] && b[4..6] == a[4..6]
    ensures HeaderWords(a) == HeaderWords(b)
    ensures Net32(a, 12) == Net32(b, 12) && Net32(a, 16) == Net32(b, 16)
  {
    forall i | 12 <= i < 20
      ensures a[i] == b[i]
    {
      assert a[12..20][i - 12] == b[12..20][i - 12];
    }
    assert a[4..6][0] == b[4..6][0] && a[4..6][1] == b[4..6][1];
  }

  // ---- Fragments built from fields ----

  /** The fragments of a UDP datagram, in whatever tags and tunnels, are recognised as such. */
  lemma FragmentsRecognised(order: BitOrder, f: Frame, f': Frame, len: u32, len': u32, h: IpFields, h': IpFields,
                            sport: u16, dport: u16, payload: seq<u8>, payload': seq<u8>)
    requires ValidFields(h) && ValidFields(h') && h.offset == 0 && h.more && h'.offset != 0
    requires h'.src == h.src && h'.dst == h.dst && h'.id == h.id
    requires Carries(order, f, len, PacketBytes(h, Udp(sport, dport), payload))
    requires Carries(order, f', len', IpBytes(h', 17) + payload')
    ensures var p := PeelFrame(order, len, FrameBytes(f));
      && FirstFragment(p) && FragOf(p).srcPort == sport && FragOf(p).dstPort == dport
      && LaterFragment(p, PeelFrame(order, len', FrameBytes(f')))
  {
    var rest := SegmentBytes(Udp(sport, dport)) + payload;
    FramePeels(order, f, len);
    FramePeels(order, f', len');
    FirstRecognised(h, sport, dport, payload);
    IpFieldsRead(h', 17, payload');
    IpIdentity(h, 17, rest);
    IpIdentity(h', 17, payload');
  }

  lemma FirstRecognised(h: IpFields, sport: u16, dport: u16, payload: seq<u8>)
    requires ValidFields(h) && h.offset == 0 && h.more
    ensures var packet := PacketBytes(h, Udp(sport, dport), payload);
      var p := AtTransport(WithIp(NULL_KEY.(l3Protocol := ETHERTYPE_IP), packet), packet, packet[20..]);
      FirstFragment(p) && FragOf(p).srcPort == sport && FragOf(p).dstPort == dport && packet[9] == 17
  {
    IpFieldsRead(h, 17, SegmentBytes(Udp(sport, dport)) + payload);
    SegmentRead(Udp(sport, dport), payload);
  }

  /** A UDP datagram of which two fragments are captured, the first and a later one. */
  datatype Datagram = Datagram(h: IpFields, sport: u16, dport: u16, payload: seq<u8>, first: Capture, f: Frame,
                               h': IpFields, payload': seq<u8>, last: Capture, f': Frame)

  /** Both have the datagram's addresses and identification; each comes in whatever tags and tunnels. */
  ghost predicate ValidDatagram(order: BitOrder, d: Datagram) {
    && ValidFields(d.h) && ValidFields(d.h') && d.h.offset == 0 && d.h.more && d.h'.offset != 0
    && d.h'.src == d.h.src && d.h'.dst == d.h.dst && d.h'.id == d.h.id
    && Carries(order, d.f, d.first.pktLen, PacketBytes(d.h, Udp(d.sport, d.dport), d.payload))
    && Carries(order, d.f', d.last.pktLen, IpBytes(d.h', 17) + d.payload')
    && d.first.bytes == FrameBytes(d.f) && d.last.bytes == FrameBytes(d.f')
  }

  /** What pna_set_frag is called with for its first fragment. */
  function Call(d: Datagram): Frag
    requires ValidFields(d.h)
  {
    Frag(Fingerprint(HeaderWords(IpBytes(d.h, 17) + [])), d.sport, d.dport)
  }

  /** The packet that the flow tables should see for its later fragment: that of the datagram's ports. */
  ghost predicate KeepsPorts(s: Setup, ring: Ring, d: Datagram)
    requires ValidSetup(s) && ValidRing(ring)
  {
    var p, l := Arriving(s.order, s.nets, ring, d.last), Localize(s.nets, KeyOf(d.h, Udp(d.sport, d.dport)));
    p == if l.kept then Some(Pkt(l.key, l.dir, 0, d.last.pktLen, d.last.sec)) else None
  }

  lemma FirstIsCall(order: BitOrder, d: Datagram)
    requires ValidDatagram(order, d)
    ensures var p := PeelFrame(order, d.first.pktLen, d.first.bytes);
      && FirstFragment(p) && FragOf(p) == Call(d)
      && LaterFragment(p, PeelFrame(order, d.last.pktLen, d.last.bytes))
  {
    FragmentsRecognised(order, d.f, d.f', d.first.pktLen, d.last.pktLen, d.h, d.h', d.sport, d.dport,
                        d.payload, d.payload');
    FramePeels(order, d.f, d.first.pktLen);
    var rest := SegmentBytes(Udp(d.sport, d.dport)) + d.payload;
    HeaderWordsTell(d.h, 17, rest, d.h, 17, []);
  }

  /** The first fragment's fingerprint is new, and fewer than 512 insertions follow its own. */
  ghost predicate StaysKnown(s: Setup, before: seq<Capture>, d: Datagram, later: seq<Frag>)
    requires ValidSetup(s) && ValidDatagram(s.order, d)
  {
    && GetFrag(After(s, before).ring, Call(d).fingerprint) == None
    && NewInsertions(SetCalls(s.order, before) + [Call(d)], later) < 512
  }

  lemma FirstDecodes(order: BitOrder, ring: Ring, d: Datagram)
    requires ValidRing(ring) && ValidDatagram(order, d)
    ensures Decode(order, ring, d.first.pktLen, d.first.bytes).1 == Flow(KeyOf(d.h, Udp(d.sport, d.dport)), 0)
  {
    FieldsRoundTrip(order, ring, d.f, d.first.pktLen, d.h, Udp(d.sport, d.dport), d.payload);
  }

  lemma LaterDecodes(order: BitOrder, ring: Ring, d: Datagram)
    requires ValidRing(ring) && ValidDatagram(order, d) && GetFrag(ring, Call(d).fingerprint) == Some(Call(d))
    ensures Decode(order, ring, d.last.pktLen, d.last.bytes).1 == Flow(KeyOf(d.h, Udp(d.sport, d.dport)), 0)
  {
    FirstIsCall(order, d);
    FirstDecodes(order, ring, d);
    LaterDecodesAlike(order, ring, ring, d.first, d.last);
  }

  /**
   * The later fragment of a datagram, which has no ports of its own, is recorded under the ports of
   * the first, unless an entry answered for its fingerprint before or 512 insertions came between.
   */
  lemma LaterKeepsPorts(s: Setup, before: seq<Capture>, d: Datagram, between: seq<Capture>)
    requires ValidSetup(s) && ValidDatagram(s.order, d) && StaysKnown(s, before, d, SetCalls(s.order, between))
    ensures KeepsPorts(s, After(s, before + [d.first] + between).ring, d)
  {
    FirstIsCall(s.order, d);
    PortsKept(s, before, d.first, between);
    LaterDecodes(s.order, After(s, before + [d.first] + between).ring, d);
  }

  lemma AfterFirst(s: Setup, before: seq<Capture>, d: Datagram)
    requires ValidSetup(s) && ValidDatagram(s.order, d)
    ensures After(s, before + [d.first]).ring == SetFrag(After(s, before).ring, Call(d))
    ensures SetCalls(s.order, before + [d.first]) == SetCalls(s.order, before) + [Call(d)]
  {
    FirstIsCall(s.order, d);
    assert (before + [d.first])[..|before|] == before;
    DecodeSets(s.order, After(s, before).ring, d.first);
  }

  lemma CallsFrom(order: BitOrder, d: Datagram, between: seq<Capture>)
    requires ValidDatagram(order, d)
    ensures SetCalls(order, [d.first] + between) == [Call(d)] + SetCalls(order, between)
  {
    FirstIsCall(order, d);
    CallsOfAll(order, [], d.first, between);
    assert [] + [d.first] + between == [d.first] + between;
    assert SetCalls(order, []) + [Call(d)] == [Call(d)];
  }

  lemma InsertionsAdd(calls: seq<Frag>, f: Frag, later: seq<Frag>)
    ensures NewInsertions(calls + [f], later) <= NewInsertions(calls, [f] + later)
  {
    assert calls + ([f] + later) == calls + [f] + later;
    InsertedGrows(calls, [f]);
  }

  /**
   * Two datagrams in flight at once, whose headers differ in one of source, destination and
   * identification - the same hosts with another identification, say: each later fragment is
   * recorded under the ports of its own datagram.
   */
  lemma TwoDatagramsKeepPorts(s: Setup, before: seq<Capture>, d: Datagram, e: Datagram, between: seq<Capture>)
    requires ValidSetup(s) && ValidDatagram(s.order, d) && ValidDatagram(s.order, e)
    requires HeaderDifferences(d.h, 17, e.h, 17) == 1
    requires StaysKnown(s, before, d, [Call(e)] + SetCalls(s.order, between))
    requires GetFrag(After(s, before).ring, Call(e).fingerprint) == None
    ensures var ring := After(s, before + [d.first] + [e.first] + between).ring;
      KeepsPorts(s, ring, d) && KeepsPorts(s, ring, e)
  {
    EarlierKeepsPorts(s, before, d, e, between);
    SecondStaysKnown(s, before, d, e, SetCalls(s.order, between));
    LaterKeepsPorts(s, before + [d.first], e, between);
  }

  lemma EarlierKeepsPorts(s: Setup, before: seq<Capture>, d: Datagram, e: Datagram, between: seq<Capture>)
    requires ValidSetup(s) && ValidDatagram(s.order, d) && ValidDatagram(s.order, e)
    requires StaysKnown(s, before, d, [Call(e)] + SetCalls(s.order, between))
    ensures KeepsPorts(s, After(s, before + [d.first] + [e.first] + between).ring, d)
  {
    CallsFrom(s.order, e, between);
    LaterKeepsPorts(s, before, d, [e.first] + between);
    Regroup(before, d.first, e.first, between);
  }

  lemma Regroup<T>(before: seq<T>, x: T, y: T, between: seq<T>)
    ensures before + [x] + ([y] + between) == before + [x] + [y] + between
  {
  }

  lemma SecondStaysKnown(s: Setup, before: seq<Capture>, d: Datagram, e: Datagram, later: seq<Frag>)
    requires ValidSetup(s) && ValidDatagram(s.order, d) && ValidDatagram(s.order, e)
    requires HeaderDifferences(d.h, 17, e.h, 17) == 1 && StaysKnown(s, before, d, [Call(e)] + later)
    requires GetFrag(After(s, before).ring, Call(e).fingerprint) == None
    ensures StaysKnown(s, before + [d.first], e, later)
  {
    AfterFirst(s, before, d);
    CallsSeparate(d, e);
    SetAnswersOnlyItself(After(s, before).ring, Call(d), Call(e).fingerprint);
    InsertionsAdd(SetCalls(s.order, before) + [Call(d)], Call(e), later);
  }

  lemma CallsSeparate(d: Datagram, e: Datagram)
    requires ValidFields(d.h) && ValidFields(e.h) && HeaderDifferences(d.h, 17, e.h, 17) == 1
    ensures Call(d).fingerprint != Call(e).fingerprint
  {
    DatagramsSeparate(d.h, 17, [], e.h, 17, []);
  }
}
