/** The packet hooks on the monitor's state: decode, localize, record. */
module PacketHooks {
  import opened Words
  import opened Flows
  import opened Prefixes
  import DomainTrie
  import opened FragRing
  import opened Sessions
  import opened Decoding
  import FlowMon

  const NET_RX_DROP: int := -1

  /** One frame as the capture library hands it over, with the clock readings of a dump it may cause. */
  datatype Capture = Capture(pktLen: u32, sec: u32, bytes: seq<u8>, clock: FlowMon.Clock)

  /** The whole monitor: the networks, the fragment table and the flow monitor. */
  datatype System = System(nets: seq<Net>, ring: Ring, mon: FlowMon.Mon)

  ghost predicate ReadySystem(s: System, bits: nat) {
    1 <= bits <= 30 && ValidNets(s.nets) && ValidRing(s.ring) && FlowMon.Ready(s.mon, bits)
  }

  /** The packet that a capture hands to flowmon_hook, if it gets that far. */
  ghost function Arriving(order: BitOrder, nets: seq<Net>, ring: Ring, c: Capture): Option<Pkt>
    requires ValidNets(nets) && ValidRing(ring)
  {
    match Decode(order, ring, c.pktLen, c.bytes).1
    case Dropped => None
    case Unreadable => None
    case Flow(key, flags) =>
      var l := Localize(nets, key);
      if l.kept then Some(Pkt(l.key, l.dir, flags, c.pktLen, c.sec)) else None
  }

  /** pna_hook. */
  ghost function Process(order: BitOrder, s: System, bits: nat, c: Capture): (s': System)
    requires ReadySystem(s, bits)
    ensures ReadySystem(s', bits) && s'.nets == s.nets && |s'.mon.tables| == |s.mon.tables|
  {
    var ring := Decode(order, s.ring, c.pktLen, c.bytes).0;
    match Arriving(order, s.nets, s.ring, c)
    case None => s.(ring := ring)
    case Some(p) => Recorded(s.(ring := ring), bits, p, c.clock)
  }

  /** The flow monitor's part of it. */
  ghost function Recorded(s: System, bits: nat, p: Pkt, clock: FlowMon.Clock): System
    requires FlowMon.Ready(s.mon, bits)
  {
    s.(mon := FlowMon.Hook(s.mon, bits, p, clock).0)
  }

  /** The whole monitor after pna_cleanup. */
  ghost function Cleaned(s: System, bits: nat, clock: FlowMon.Clock): System
    requires FlowMon.Ready(s.mon, bits)
  {
    s.(mon := FlowMon.Cleanup(s.mon, bits, clock, |s.mon.tables|))
  }

  /** How a hook ended: with the key filled in, with the frame given up, or beyond the capture. */
  datatype Verdict = Accepted(flags: u16) | GivenUp | BeyondCapture

  /** The verdict and the key agree with what the frame decodes to. */
  ghost predicate Agrees(v: Verdict, key: Key, d: Decoded) {
    match d
    case Flow(k, flags) => v == Accepted(flags) && key == k
    case Dropped => v == GivenUp
    case Unreadable => v == BeyondCapture
  }

  /** ip_hook. */
  method RunIpHook(key: KeyBuffer, iphdr: seq<u8>, pkt: seq<u8>, frags: FragTable) returns (v: Verdict)
    requires frags.Valid() && |iphdr| >= IP_SIZE
    modifies key, frags, frags.table
    ensures frags.Valid()
    ensures frags.View() == IpHook(old(frags.View()), old(key.View()), iphdr, pkt).0
    ensures Agrees(v, key.View(), IpHook(old(frags.View()), old(key.View()), iphdr, pkt).1)
  {
    var src: u16, dst: u16, flags: u16 := 0, 0, 0;
    var offset := FragOffset(iphdr);
    var proto := key.l4Protocol;
    if proto == IPPROTO_TCP {
      if offset != 0 {
        return GivenUp;
      }
      if |pkt| < 14 {
        return BeyondCapture;
      }
      src, dst, flags := Net16(pkt, 0), Net16(pkt, 2), pkt[13];
    } else if proto == IPPROTO_UDP {
      if offset != 0 {
        var entry := frags.Get(HeaderWords(iphdr));
        if entry.None? {
          return GivenUp;
        }
        src, dst := entry.value.srcPort, entry.value.dstPort;
      } else {
        if |pkt| < 4 {
          return BeyondCapture;
        }
        src, dst := Net16(pkt, 0), Net16(pkt, 2);
        if MoreFragments(iphdr) {
          frags.Set(HeaderWords(iphdr), src, dst);
        }
      }
    } else if proto == IPPROTO_SCTP {
      if offset != 0 {
        return GivenUp;
      }
      if |pkt| < 4 {
        return BeyondCapture;
      }
      src, dst := Net16(pkt, 0), Net16(pkt, 2);
    } else if proto == IPPROTO_ICMP {
      if |pkt| < 2 {
        return BeyondCapture;
      }
      // The type and the code, as in the NetFlow encoding.
      src, dst := 0, Net16(pkt, 0);
    } else {
      return GivenUp;
    }
    key.localPort := src;
    key.remotePort := dst;
    return Accepted(flags);
  }

  /** Assume for now that the source is local. */
  method FillFromIp(key: KeyBuffer, iphdr: seq<u8>)
    requires |iphdr| >= IP_SIZE
    modifies key
    ensures key.View() == WithIp(old(key.View()), iphdr)
  {
    key.l4Protocol := iphdr[9];
    key.localIp := Net32(iphdr, 12);
    key.remoteIp := Net32(iphdr, 16);
  }

  /** ether_hook: it calls itself for the packet inside a GRE tunnel. */
  method RunEtherHook(order: BitOrder, key: KeyBuffer, remains: u32, pkt: seq<u8>, frags: FragTable)
    returns (v: Verdict)
    requires frags.Valid()
    modifies key, frags, frags.table
    ensures frags.Valid()
    ensures frags.View() == Transport(old(frags.View()), Peel(order, old(key.View()), remains, pkt)).0
    ensures Agrees(v, key.View(), Transport(old(frags.View()), Peel(order, old(key.View()), remains, pkt)).1)
    decreases |pkt|
  {
    if key.l3Protocol != ETHERTYPE_IP {
      return GivenUp;
    }
    if remains < IP_SIZE {
      return GivenUp;
    }
    if |pkt| < IP_SIZE {
      return BeyondCapture;
    }
    FillFromIp(key, pkt);
    var behind := pkt[IP_SIZE..];
    if key.l4Protocol == IPPROTO_GRE {
      if |behind| < GRE_SIZE {
        return BeyondCapture;
      }
      var flags := ReadGreFlags(order, behind[0]);
      if flags.routing {
        return GivenUp;
      }
      var skip := GRE_SIZE + GrePad(flags);
      key.l3Protocol := Net16(behind, 2);
      assert Peel(order, old(key.View()), remains, pkt)
          == Peel(order, key.View(), Sub32(Sub32(remains, IP_SIZE), skip), Drop(behind, skip));
      v := RunEtherHook(order, key, Sub32(Sub32(remains, IP_SIZE), skip), Drop(behind, skip), frags);
      return;
    }
    v := RunIpHook(key, pkt, behind, frags);
  }

  /** The loop of pna_hook over VLAN tags. */
  method RunSkipVlans(bytes: seq<u8>, pktLen: u32) returns (u: Untagged)
    ensures u == SkipVlans(bytes, pktLen, 0)
  {
    var pkt, remains, depth := bytes, pktLen, 0;
    if |pkt| < ETHER_SIZE {
      return NoHeader;
    }
    while Net16(pkt, 12) == ETHERTYPE_VLAN && depth < PNA_MAX_CHECKS
      invariant 0 <= depth <= PNA_MAX_CHECKS && |pkt| >= ETHER_SIZE
      invariant SkipVlans(bytes, pktLen, 0) == SkipVlans(pkt, remains, depth)
    {
      depth := depth + 1;
      pkt := pkt[4..];
      remains := Sub32(remains, 4);
      if |pkt| < ETHER_SIZE {
        return NoHeader;
      }
    }
    return Header(depth, remains, pkt);
  }

  class Monitor {
    const order: BitOrder
    const trie: DomainTrie.Trie
    const frags: FragTable
    const flowmon: FlowMon.FlowMonitor

    ghost predicate Valid()
      reads this, trie, trie.nodes.Values, frags, flowmon, flowmon.Footprint()
    {
      && trie.Valid() && frags.Valid() && flowmon.Valid()
      && ({frags, frags.table, flowmon} + flowmon.Footprint()) !! ({trie} + trie.nodes.Values)
      && {frags, frags.table} !! ({flowmon} + flowmon.Footprint())
    }

    ghost function View(): System
      reads this, trie, frags, frags.table, flowmon
    {
      System(trie.nets, frags.View(), flowmon.view)
    }

    /** pna_init, with an empty trie. */
    constructor (order: BitOrder, tables: nat, bits: nat, disk: FlowMon.Disk)
      requires tables >= 1 && 1 <= bits <= 30
      ensures Valid() && this.order == order && flowmon.bits == bits
      ensures View() == System([], EmptyRing(), FlowMon.InitialMon(tables, bits, disk))
      ensures fresh(trie) && fresh(trie.nodes.Values) && fresh(frags) && fresh(frags.table)
      ensures fresh(flowmon) && fresh(flowmon.Footprint())
    {
      this.order := order;
      trie := new DomainTrie.Trie();
      frags := new FragTable();
      flowmon := new FlowMon.FlowMonitor(tables, bits, disk);
    }

    /** One line of the networks file. */
    method AddNetwork(net: Net)
      requires Valid() && net.len <= 32
      modifies trie, trie.nodes.Values
      ensures Valid() && fresh(trie.nodes.Values - old(trie.nodes.Values))
      ensures View() == old(View()).(nets := old(trie.nets) + [net])
    {
      trie.Add(net.prefix, net.len, net.domain);
    }

    /** Everything up to the localization: the verdict, and the key in the buffer. */
    method DecodeInto(key: KeyBuffer, pktLen: u32, bytes: seq<u8>) returns (v: Verdict)
      requires frags.Valid() && key.View() == NULL_KEY
      modifies key, frags, frags.table
      ensures frags.Valid()
      ensures frags.View() == Decode(order, old(frags.View()), pktLen, bytes).0
      ensures Agrees(v, key.View(), Decode(order, old(frags.View()), pktLen, bytes).1)
    {
      var u := RunSkipVlans(bytes, pktLen);
      if u.NoHeader? {
        return BeyondCapture;
      }
      key.l3Protocol := Net16(u.pkt, 12);
      if u.depth == PNA_MAX_CHECKS {
        return GivenUp;
      }
      v := RunEtherHook(order, key, Sub32(u.remains, ETHER_SIZE), u.pkt[ETHER_SIZE..], frags);
    }

    /** The first half of pna_hook, on the state of the monitor. */
    method DecodeFrame(c: Capture) returns (key: KeyBuffer, v: Verdict)
      requires Valid()
      modifies frags, frags.table
      ensures Valid() && fresh(key)
      ensures View() == old(View()).(ring := Decode(order, old(frags.View()), c.pktLen, c.bytes).0)
      ensures Agrees(v, key.View(), Decode(order, old(frags.View()), c.pktLen, c.bytes).1)
    {
      key := new KeyBuffer();
      v := DecodeInto(key, c.pktLen, c.bytes);
    }

    /** pna_hook; it returns the same value whatever happens. */
    method PnaHook(c: Capture) returns (ret: int)
      requires Valid()
      modifies frags, frags.table, flowmon, flowmon.Footprint()
      ensures Valid() && ReadySystem(old(View()), flowmon.bits)
      ensures View() == Process(order, old(View()), flowmon.bits, c)
      ensures ret == NET_RX_DROP
    {
      var key, v := DecodeFrame(c);
      if v.Accepted? {
        Deliver(key, v.flags, c);
      }
      return NET_RX_DROP;
    }

    /** The rest of pna_hook: localize the key and hand the packet on, unless it is to be dropped. */
    method Deliver(key: KeyBuffer, flags: u16, c: Capture)
      requires Valid() && key !in {frags, flowmon, trie} + flowmon.Footprint() + trie.nodes.Values
      modifies key, flowmon, flowmon.Footprint()
      ensures Valid()
      ensures var l := Localize(trie.nets, old(key.View()));
        View() == if l.kept then Recorded(old(View()), flowmon.bits, Pkt(l.key, l.dir, flags, c.pktLen, c.sec), c.clock)
                  else old(View())
    {
      var kept, direction := key.LocalizeIn(trie);
      if kept {
        Record(Pkt(key.View(), direction, flags, c.pktLen, c.sec), c.clock);
      }
    }

    /** Insert into the flow table; a failure to do so changes nothing here. */
    method Record(p: Pkt, clock: FlowMon.Clock)
      requires Valid()
      modifies flowmon, flowmon.Footprint()
      ensures Valid()
      ensures View() == Recorded(old(View()), flowmon.bits, p, clock)
    {
      var code := flowmon.FlowmonHook(p, clock);
    }

    /** pna_cleanup. */
    method Cleanup(clock: FlowMon.Clock)
      requires Valid()
      modifies flowmon, flowmon.Footprint()
      ensures Valid()
      ensures View() == Cleaned(old(View()), flowmon.bits, clock)
    {
      flowmon.FlowmonCleanup(clock);
    }
  }
}
