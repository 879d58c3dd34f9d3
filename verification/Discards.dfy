/** What the monitor gives up: frames of other types, odd tunnels, fragments without ports, short captures. */
module Discards {
  import opened Words
  import opened Hashing
  import opened Flows
  import opened FragRing
  import opened Sessions
  import opened Decoding
  import opened Encapsulation
  import opened Wire

  /** A frame whose last type word is hi, lo. */
  function TypedBytes(addresses: seq<u8>, tags: seq<(u8, u8)>, hi: u8, lo: u8, rest: seq<u8>): seq<u8> {
    addresses + TagBytes(tags) + [hi, lo] + rest
  }

  /** The remaining length after n tags; the register wraps around. */
  function After(remains: u32, n: nat): u32
    decreases n
  {
    if n == 0 then remains else After(Sub32(remains, 4), n - 1)
  }

  /** Skipping tags ends at the type word behind them, or gives up at the eighth, whatever length was declared. */
  lemma {:induction false} SkipToType(addresses: seq<u8>, tags: seq<(u8, u8)>, hi: u8, lo: u8, rest: seq<u8>,
                                      remains: u32, depth: nat)
    requires |addresses| == 12 && depth <= 8 && (hi, lo) != (0x81, 0x00)
    ensures var u := SkipVlans(TypedBytes(addresses, tags, hi, lo, rest), remains, depth);
      && (depth + |tags| < 8 ==>
            u.Header? && u.depth == depth + |tags| && u.remains == After(remains, |tags|)
            && Net16(u.pkt, 12) == (hi as int) * 0x100 + lo && u.pkt[14..] == rest)
      && (depth + |tags| >= 8 ==> u.Header? && u.depth == 8)
    decreases |tags|
  {
    var pkt := TypedBytes(addresses, tags, hi, lo, rest);
    if tags == [] {
      assert pkt[12] == hi && pkt[13] == lo && pkt[14..] == rest;
    } else {
      assert pkt[12] == 0x81 && pkt[13] == 0x00;
      if depth < 8 {
        assert pkt[4..] == TypedBytes(pkt[4..16], tags[1..], hi, lo, rest);
        SkipToType(pkt[4..16], tags[1..], hi, lo, rest, Sub32(remains, 4), depth + 1);
      }
    }
  }

  /** A frame peels like what is behind its tags with the type in the key, unless there are too many. */
  lemma TypedPeels(order: BitOrder, addresses: seq<u8>, tags: seq<(u8, u8)>, hi: u8, lo: u8, rest: seq<u8>, len: u32)
    requires |addresses| == 12 && (hi, lo) != (0x81, 0x00)
    ensures PeelFrame(order, len, TypedBytes(addresses, tags, hi, lo, rest)) ==
      if |tags| < 8
      then Peel(order, NULL_KEY.(l3Protocol := (hi as int) * 0x100 + lo), Sub32(After(len, |tags|), 14), rest)
      else Discarded
  {
    SkipToType(addresses, tags, hi, lo, rest, len, 0);
  }

  /** Only IPv4 is monitored: frames of every other type are dropped, behind any number of tags. */
  lemma OtherTypeDropped(order: BitOrder, ring: Ring, addresses: seq<u8>, tags: seq<(u8, u8)>, hi: u8, lo: u8,
                         rest: seq<u8>, len: u32)
    requires ValidRing(ring) && |addresses| == 12 && (hi, lo) !in {(0x81, 0x00), (0x08, 0x00)}
    ensures Decode(order, ring, len, TypedBytes(addresses, tags, hi, lo, rest)) == (ring, Dropped)
  {
    TypedPeels(order, addresses, tags, hi, lo, rest, len);
    assert (hi as int) * 0x100 + lo != 0x0800;
  }

  // ---- Tunnels of other protocols, and source routes ----

  /** The bit that announces routing, for either order of bit-fields. */
  predicate RoutingBit(order: BitOrder, b: u8) {
    match order
    case MsbFirst => b / 0x40 % 2 == 1
    case LsbFirst => b / 0x02 % 2 == 1
  }

  /** A GRE packet: flag byte, version byte and protocol. */
  function GreBytes(ip: seq<u8>, flags: u8, version: u8, hi: u8, lo: u8, rest: seq<u8>): seq<u8> {
    ip + [flags, version, hi, lo] + rest
  }

  lemma GreDiscarded(order: BitOrder, key: Key, remains: u32, ip: seq<u8>, flags: u8, version: u8, hi: u8, lo: u8,
                     rest: seq<u8>)
    requires key.l3Protocol == ETHERTYPE_IP && |ip| == 20 && ip[9] == 47
    requires (hi, lo) != (0x08, 0x00) || RoutingBit(order, flags)
    ensures Peel(order, key, remains, GreBytes(ip, flags, version, hi, lo, rest)) == Discarded
  {
    var pkt := GreBytes(ip, flags, version, hi, lo, rest);
    assert pkt[9] == 47 && pkt[20..][0] == flags && pkt[20..][2] == hi && pkt[20..][3] == lo;
    assert (hi, lo) != (0x08, 0x00) ==> Net16(pkt[20..], 2) != 0x0800;
  }

  /** A tunnel that does not carry IPv4, or is routed by its source, is dropped inside any other tunnels. */
  lemma OtherTunnelDropped(order: BitOrder, ring: Ring, addresses: seq<u8>, tags: seq<(u8, u8)>, ts: seq<Tunnel>,
                           ip: seq<u8>, flags: u8, version: u8, hi: u8, lo: u8, rest: seq<u8>, len: u32)
    requires ValidRing(ring) && |addresses| == 12 && ValidTunnels(ts) && FlagsSeen(order, ts)
    requires |ip| == 20 && ip[9] == 47 && ((hi, lo) != (0x08, 0x00) || RoutingBit(order, flags))
    requires var inner := GreBytes(ip, flags, version, hi, lo, rest);
      |addresses + TagBytes(tags) + [0x08, 0x00] + Wrapped(ts, inner)| <= len
    ensures var inner := GreBytes(ip, flags, version, hi, lo, rest);
      Decode(order, ring, len, addresses + TagBytes(tags) + [0x08, 0x00] + Wrapped(ts, inner)) == (ring, Dropped)
  {
    var inner := GreBytes(ip, flags, version, hi, lo, rest);
    var left := TagsPeel(order, addresses, tags, Wrapped(ts, inner), len);
    var key', left' := PeelThrough(order, NULL_KEY.(l3Protocol := ETHERTYPE_IP), left, ts, inner);
    GreDiscarded(order, key', left', ip, flags, version, hi, lo, rest);
  }

  // ---- Declared lengths that are too small ----

  lemma {:induction false} AfterTags(len: u32, n: nat)
    requires n < 8
    ensures Sub32(After(len, n), 14) == if len >= 4 * n + 14 then len - 4 * n - 14 else len - 4 * n - 14 + TWO32
    decreases n
  {
    if n > 0 {
      AfterOneMore(len, n);
    }
  }

  lemma {:induction false} AfterOneMore(len: u32, n: nat)
    requires n < 8
    ensures After(len, n) == if len >= 4 * n then len - 4 * n else len - 4 * n + TWO32
    decreases n
  {
    if n > 0 {
      AfterOneMore(Sub32(len, 4), n - 1);
    }
  }

  /** Taking away the headers of the tunnels one by one, the length comes to lie between 0 and 20. */
  predicate TooShort(left: int, ts: seq<Tunnel>)
    decreases |ts|
  {
    0 <= left < 20 || (ts != [] && TooShort(left - |TunnelBytes(ts[0])|, ts[1..]))
  }

  /** It never does when it is negative, or more than enough for all of them. */
  lemma {:induction false} LongEnough(left: int, ts: seq<Tunnel>)
    requires left < 0 || left >= |Wrapped(ts, [])| + 20
    ensures !TooShort(left, ts)
    decreases |ts|
  {
    if ts != [] {
      LongEnough(left - |TunnelBytes(ts[0])|, ts[1..]);
    }
  }

  lemma WrappedEnough(left: u32, exact: int, ts: seq<Tunnel>)
    requires left == (if exact >= 0 then exact else exact + TWO32) && exact >= -0x100
    requires |Wrapped(ts, [])| <= 0xFFFF_0000
    ensures TooShort(left, ts) <==> TooShort(exact, ts)
  {
    if exact < 0 {
      LongEnough(exact, ts);
      LongEnough(left, ts);
    }
  }

  lemma TunnelStep(order: BitOrder, key: Key, remains: u32, t: Tunnel, inner: seq<u8>)
    requires ValidTunnel(t) && (order == MsbFirst || t.options == []) && key.l3Protocol == ETHERTYPE_IP
    requires remains >= 20
    ensures var pkt := TunnelBytes(t) + inner;
      Peel(order, key, remains, pkt)
      == Peel(order, WithIp(key, pkt).(l3Protocol := ETHERTYPE_IP), Sub32(remains - 20, 4 + |t.options|), inner)
  {
    FlagsRead(order, t);
    TunnelLayout(t, inner);
    StepPeels(order, key, remains, TunnelBytes(t) + inner, 4 + |t.options|, inner);
  }

  /** The capture ends within the IP header of the packet, or within its GRE header. */
  predicate Cut(packet: seq<u8>) {
    |packet| < 20 || (packet[9] == 47 && |packet| < 24)
  }

  /** What peeling should come to behind the tunnels. */
  function Reached(key: Key, packet: seq<u8>): Peeled {
    if Cut(packet) then OutOfCapture else AtTransport(WithIp(key, packet), packet, packet[20..])
  }

  /**
   * What the declared length decides inside tunnels: the packet is dropped when at some header it
   * leaves between 0 and 19 bytes, and otherwise reached, even if it does not cover all headers.
   */
  lemma {:induction false} TunnelsDecide(order: BitOrder, key: Key, remains: u32, ts: seq<Tunnel>, packet: seq<u8>)
    requires key.l3Protocol == ETHERTYPE_IP && ValidTunnels(ts) && FlagsSeen(order, ts)
    requires (Innermost(packet) || Cut(packet)) && |Wrapped(ts, [])| <= 0xFFFF_0000
    ensures Peel(order, key, remains, Wrapped(ts, packet))
         == if TooShort(remains, ts) then Discarded else Reached(key, packet)
    decreases |ts|
  {
    if ts != [] && remains >= 20 {
      var key' := WithIp(key, Wrapped(ts, packet)).(l3Protocol := ETHERTYPE_IP);
      var left := Sub32(remains - 20, 4 + |ts[0].options|);
      TunnelStep(order, key, remains, ts[0], Wrapped(ts[1..], packet));
      TunnelsDecide(order, key', left, ts[1..], packet);
      WrappedEnough(left, remains - |TunnelBytes(ts[0])|, ts[1..]);
    }
  }

  /** So it is with whole frames, whose header and tags take 14 and 4 bytes each. */
  lemma HeadersDecide(order: BitOrder, addresses: seq<u8>, tags: seq<(u8, u8)>, ts: seq<Tunnel>, packet: seq<u8>,
                      len: u32)
    requires |addresses| == 12 && |tags| < 8 && ValidTunnels(ts) && FlagsSeen(order, ts)
    requires (Innermost(packet) || Cut(packet)) && |Wrapped(ts, [])| <= 0xFFFF_0000
    ensures PeelFrame(order, len, addresses + TagBytes(tags) + [0x08, 0x00] + Wrapped(ts, packet)) ==
      if TooShort(len - 14 - 4 * |tags|, ts) then Discarded
      else Reached(NULL_KEY.(l3Protocol := ETHERTYPE_IP), packet)
  {
    FrameIsTyped(order, addresses, tags, Wrapped(ts, packet), len);
    var left := Sub32(After(len, |tags|), 14);
    AfterTags(len, |tags|);
    TunnelsDecide(order, NULL_KEY.(l3Protocol := ETHERTYPE_IP), left, ts, packet);
    WrappedEnough(left, len - 14 - 4 * |tags|, ts);
  }

  lemma FrameIsTyped(order: BitOrder, addresses: seq<u8>, tags: seq<(u8, u8)>, rest: seq<u8>, len: u32)
    requires |addresses| == 12 && |tags| < 8
    ensures PeelFrame(order, len, addresses + TagBytes(tags) + [0x08, 0x00] + rest)
         == Peel(order, NULL_KEY.(l3Protocol := ETHERTYPE_IP), Sub32(After(len, |tags|), 14), rest)
  {
    TypedPeels(order, addresses, tags, 0x08, 0x00, rest, len);
  }

  /** A frame is dropped for its declared length exactly when that leaves too little at some header. */
  lemma DeclaredLengthDecides(order: BitOrder, f: Frame, len: u32)
    requires ValidFrame(f) && FlagsSeen(order, f.tunnels) && |f.tags| < 8 && |Wrapped(f.tunnels, [])| <= 0xFFFF_0000
    ensures PeelFrame(order, len, FrameBytes(f))
         == if TooShort(len - 14 - 4 * |f.tags|, f.tunnels) then Discarded else InnermostPeeled(f.packet)
  {
    HeadersDecide(order, f.addresses, f.tags, f.tunnels, f.packet, len);
  }

  // ---- Captures that end within the headers ----

  /** A frame whose capture ends within the headers is not recorded, unless it is dropped before. */
  lemma CutFrameUnreadable(order: BitOrder, ring: Ring, addresses: seq<u8>, tags: seq<(u8, u8)>, ts: seq<Tunnel>,
                           packet: seq<u8>, len: u32)
    requires ValidRing(ring) && |addresses| == 12 && |tags| < 8 && ValidTunnels(ts) && FlagsSeen(order, ts)
    requires Cut(packet) && |Wrapped(ts, [])| <= 0xFFFF_0000
    ensures Decode(order, ring, len, addresses + TagBytes(tags) + [0x08, 0x00] + Wrapped(ts, packet))
         == (ring, if TooShort(len - 14 - 4 * |tags|, ts) then Dropped else Unreadable)
  {
    HeadersDecide(order, addresses, tags, ts, packet, len);
  }

  /** So is one that ends before its last type word. */
  lemma {:induction false} CutTagsUnreadable(bytes: seq<u8>, tags: seq<(u8, u8)>, last: seq<u8>, remains: u32,
                                             depth: nat)
    requires |bytes| <= 12 && (|bytes| < 12 ==> tags == []) && |last| < 2 && depth + |tags| <= 8
    ensures SkipVlans(bytes + TagBytes(tags) + last, remains, depth) == NoHeader
    decreases |tags|
  {
    var pkt := bytes + TagBytes(tags) + last;
    if tags != [] {
      assert pkt[12] == 0x81 && pkt[13] == 0x00;
      if |pkt| >= 14 {
        assert pkt[4..] == pkt[4..16] + TagBytes(tags[1..]) + last;
        CutTagsUnreadable(pkt[4..16], tags[1..], last, Sub32(remains, 4), depth + 1);
      }
    }
  }

  lemma CutHeaderUnreadable(order: BitOrder, ring: Ring, bytes: seq<u8>, tags: seq<(u8, u8)>, last: seq<u8>, len: u32)
    requires ValidRing(ring) && |bytes| <= 12 && (|bytes| < 12 ==> tags == []) && |last| < 2 && |tags| <= 8
    ensures Decode(order, ring, len, bytes + TagBytes(tags) + last) == (ring, Unreadable)
  {
    CutTagsUnreadable(bytes, tags, last, len, 0);
  }

  // ---- Packets without ports ----

  lemma PacketPeels(order: BitOrder, ring: Ring, f: Frame, len: u32, h: IpFields, proto: u8, rest: seq<u8>)
    requires ValidRing(ring) && ValidFields(h) && Carries(order, f, len, IpBytes(h, proto) + rest)
    ensures Decode(order, ring, len, FrameBytes(f)) ==
      IpHook(ring, Key(0x0800, proto, h.src, h.dst, 0, 0, 0, 0), f.packet, rest)
    ensures FragOffset(f.packet) == h.offset && MoreFragments(f.packet) == h.more
  {
    DecapsulationTransparent(order, ring, f, len);
    IpFieldsRead(h, proto, rest);
  }

  /** The bytes of the transport header that must have been captured. */
  function HeaderBytes(proto: u8): nat {
    if proto == 6 then 14 else if proto == 1 then 2 else 4
  }

  /** Of TCP and SCTP later fragments are dropped, and so are all packets of other protocols. */
  lemma OtherPacketDropped(order: BitOrder, ring: Ring, f: Frame, len: u32, h: IpFields, proto: u8, rest: seq<u8>)
    requires ValidRing(ring) && ValidFields(h) && Carries(order, f, len, IpBytes(h, proto) + rest)
    requires (proto in {6, 132} && h.offset != 0) || proto !in {1, 6, 17, 132}
    ensures Decode(order, ring, len, FrameBytes(f)) == (ring, Dropped)
  {
    PacketPeels(order, ring, f, len, h, proto, rest);
  }

  /** A later fragment of a UDP datagram has the ports of the entry that answers for it, or is dropped. */
  lemma LaterFragmentDecodes(order: BitOrder, ring: Ring, f: Frame, len: u32, h: IpFields, rest: seq<u8>)
    requires ValidRing(ring) && ValidFields(h) && Carries(order, f, len, IpBytes(h, 17) + rest) && h.offset != 0
    ensures Decode(order, ring, len, FrameBytes(f)) ==
      match GetFrag(ring, Fingerprint(HeaderWords(f.packet)))
      case None => (ring, Dropped)
      case Some(e) => (ring, Flow(Key(0x0800, 17, h.src, h.dst, e.srcPort, e.dstPort, 0, 0), 0))
  {
    PacketPeels(order, ring, f, len, h, 17, rest);
  }

  /** A packet whose ports were not captured is not counted, and leaves the fragment table alone. */
  lemma ShortSegmentUnreadable(order: BitOrder, ring: Ring, f: Frame, len: u32, h: IpFields, proto: u8, rest: seq<u8>)
    requires ValidRing(ring) && ValidFields(h) && Carries(order, f, len, IpBytes(h, proto) + rest)
    requires proto in {1, 6, 17, 132} && (h.offset == 0 || proto == 1) && |rest| < HeaderBytes(proto)
    ensures Decode(order, ring, len, FrameBytes(f)) == (ring, Unreadable)
  {
    PacketPeels(order, ring, f, len, h, proto, rest);
  }
}
