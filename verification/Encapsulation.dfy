/** Well-formed frames, and what is left of their encapsulation after decoding. */
module Encapsulation {
  import opened Words
  import opened Flows
  import opened FragRing
  import opened Sessions
  import opened Decoding

  /** A GRE tunnel: the outer IP header, the flag bits and the optional fields. */
  datatype Tunnel = Tunnel(ip: seq<u8>, checksum: bool, key: bool, sequence: bool, options: seq<u8>)

  predicate ValidTunnel(t: Tunnel) {
    && |t.ip| == 20 && t.ip[9] == 47
    && |t.options| == (if t.checksum then 4 else 0) + (if t.key then 4 else 0) + (if t.sequence then 4 else 0)
  }

  /** The first byte of a GRE header: C, an unused bit, K and S from the most significant bit on. */
  function GreByte(t: Tunnel): u8 {
    (if t.checksum then 0x80 else 0) + (if t.key then 0x20 else 0) + (if t.sequence then 0x10 else 0)
  }

  /** The outer header, the GRE header announcing IPv4, and its optional fields. */
  function TunnelBytes(t: Tunnel): seq<u8> {
    t.ip + [GreByte(t), 0x00, 0x08, 0x00] + t.options
  }

  /** An IP packet inside some tunnels, the outermost first. */
  function Wrapped(ts: seq<Tunnel>, packet: seq<u8>): seq<u8> {
    if ts == [] then packet else TunnelBytes(ts[0]) + Wrapped(ts[1..], packet)
  }

  ghost predicate ValidTunnels(ts: seq<Tunnel>) {
    forall i :: 0 <= i < |ts| ==> ValidTunnel(ts[i])
  }

  /** The decoder sees the optional fields if it reads the flags from the right end of the byte. */
  ghost predicate FlagsSeen(order: BitOrder, ts: seq<Tunnel>) {
    order == MsbFirst || forall i :: 0 <= i < |ts| ==> ts[i].options == []
  }

  /** A packet that is not itself a tunnel. */
  predicate Innermost(packet: seq<u8>) {
    |packet| >= 20 && packet[9] != 47
  }

  lemma FlagsRead(order: BitOrder, t: Tunnel)
    requires ValidTunnel(t) && (order == MsbFirst || t.options == [])
    ensures ReadGreFlags(order, GreByte(t)) == GreFlags(t.checksum, false, t.key, t.sequence)
  {
  }

  /** Peeling goes through any nesting of tunnels to what they carry. */
  lemma {:induction false} PeelThrough(order: BitOrder, key: Key, remains: u32, ts: seq<Tunnel>, inner: seq<u8>)
    returns (key': Key, left: u32)
    requires key.l3Protocol == ETHERTYPE_IP && ValidTunnels(ts) && FlagsSeen(order, ts)
    requires |Wrapped(ts, inner)| <= remains
    ensures |inner| <= left && key'.l3Protocol == ETHERTYPE_IP
    ensures key' == key.(l4Protocol := key'.l4Protocol, localIp := key'.localIp, remoteIp := key'.remoteIp)
    ensures Peel(order, key, remains, Wrapped(ts, inner)) == Peel(order, key', left, inner)
    decreases |ts|
  {
    key', left := key, remains;
    if ts != [] {
      key' := WithIp(key, Wrapped(ts, inner)).(l3Protocol := ETHERTYPE_IP);
      left := PeelOne(order, key, remains, ts[0], Wrapped(ts[1..], inner));
      key', left := PeelThrough(order, key', left, ts[1..], inner);
    }
  }

  /**
   * Peeling any nesting of tunnels ends at the innermost packet, with its header's key fields. The
   * declared length may exceed the bytes at hand, as it does when the capture was cut short.
   */
  lemma PeelTunnels(order: BitOrder, key: Key, remains: u32, ts: seq<Tunnel>, packet: seq<u8>)
    requires key.l3Protocol == ETHERTYPE_IP && ValidTunnels(ts) && FlagsSeen(order, ts) && Innermost(packet)
    requires |Wrapped(ts, packet)| <= remains
    ensures Peel(order, key, remains, Wrapped(ts, packet))
         == AtTransport(WithIp(key, packet), packet, packet[20..])
  {
    var key', left := PeelThrough(order, key, remains, ts, packet);
    assert WithIp(key', packet) == WithIp(key, packet);
  }

  /** One step of peeling, when what the flags announce leaves just the rest. */
  lemma PeelStep(order: BitOrder, key: Key, remains: u32, pkt: seq<u8>, rest: seq<u8>) returns (left: u32)
    requires key.l3Protocol == ETHERTYPE_IP && 24 <= |pkt| <= remains
    requires pkt[9] == 47 && Net16(pkt[20..], 2) == ETHERTYPE_IP
    requires var flags := ReadGreFlags(order, pkt[20..][0]);
      && !flags.routing
      && |pkt| == 24 + GrePad(flags) + |rest|
      && Drop(pkt[20..], 4 + GrePad(flags)) == rest
    ensures |rest| <= left
    ensures Peel(order, key, remains, pkt)
         == Peel(order, WithIp(key, pkt).(l3Protocol := ETHERTYPE_IP), left, rest)
  {
    var skip := 4 + GrePad(ReadGreFlags(order, pkt[20..][0]));
    left := Sub32(remains - 20, skip);
    StepPeels(order, key, remains, pkt, skip, rest);
  }

  /** The same for every declared length that covers the outer header; the register may wrap around. */
  lemma StepPeels(order: BitOrder, key: Key, remains: u32, pkt: seq<u8>, skip: nat, rest: seq<u8>)
    requires key.l3Protocol == ETHERTYPE_IP && 24 <= |pkt| && remains >= 20
    requires pkt[9] == 47 && Net16(pkt[20..], 2) == ETHERTYPE_IP
    requires var flags := ReadGreFlags(order, pkt[20..][0]);
      !flags.routing && skip == 4 + GrePad(flags) && Drop(pkt[20..], skip) == rest
    ensures Peel(order, key, remains, pkt)
         == Peel(order, WithIp(key, pkt).(l3Protocol := ETHERTYPE_IP), Sub32(remains - 20, skip), rest)
  {
    assert Sub32(remains, 20) == remains - 20;
    assert |pkt[20..]| >= 4;
    assert WithIp(key, pkt).l4Protocol == 47;
  }

  /** One tunnel costs its headers, and only the key fields of its outer header remain. */
  lemma PeelOne(order: BitOrder, key: Key, remains: u32, t: Tunnel, inner: seq<u8>) returns (left: u32)
    requires ValidTunnel(t) && (order == MsbFirst || t.options == []) && key.l3Protocol == ETHERTYPE_IP
    requires |TunnelBytes(t) + inner| <= remains
    ensures |inner| <= left
    ensures var pkt := TunnelBytes(t) + inner;
      Peel(order, key, remains, pkt) == Peel(order, WithIp(key, pkt).(l3Protocol := ETHERTYPE_IP), left, inner)
  {
    FlagsRead(order, t);
    TunnelLayout(t, inner);
    left := PeelStep(order, key, remains, TunnelBytes(t) + inner, inner);
  }

  /** Where the parts of a tunnelled packet lie. */
  lemma TunnelLayout(t: Tunnel, inner: seq<u8>)
    requires ValidTunnel(t)
    ensures var pkt := TunnelBytes(t) + inner;
      var skip := 4 + |t.options|;
      && |pkt| == 20 + skip + |inner|
      && pkt[..20] == t.ip && pkt[9] == 47
      && pkt[20..][0] == GreByte(t) && Net16(pkt[20..], 2) == ETHERTYPE_IP
      && Drop(pkt[20..], skip) == inner
      && Drop(pkt[20..], 4) == t.options + inner
  {
    var pkt := TunnelBytes(t) + inner;
    assert pkt[9] == t.ip[9];
  }

  // ---- VLAN tags ----

  /** An Ethernet frame: two addresses, tags of two control bytes each, and the type IPv4. */
  datatype Frame = Frame(addresses: seq<u8>, tags: seq<(u8, u8)>, tunnels: seq<Tunnel>, packet: seq<u8>)

  ghost predicate ValidFrame(f: Frame) {
    |f.addresses| == 12 && ValidTunnels(f.tunnels) && Innermost(f.packet)
  }

  function TagBytes(tags: seq<(u8, u8)>): seq<u8> {
    if tags == [] then [] else [0x81, 0x00, tags[0].0, tags[0].1] + TagBytes(tags[1..])
  }

  function FrameBytes(f: Frame): seq<u8> {
    f.addresses + TagBytes(f.tags) + [0x08, 0x00] + Wrapped(f.tunnels, f.packet)
  }

  /** Moving over a tag leaves a frame with one tag less, behind other address bytes. */
  lemma {:induction false} SkipTags(addresses: seq<u8>, tags: seq<(u8, u8)>, rest: seq<u8>, remains: u32, depth: nat)
    requires |addresses| == 12 && depth <= 8
    requires 14 + |TagBytes(tags)| + |rest| <= remains
    ensures var pkt := addresses + TagBytes(tags) + [0x08, 0x00] + rest;
      var u := SkipVlans(pkt, remains, depth);
      && (depth + |tags| < 8 ==>
            u.Header? && u.depth == depth + |tags| && u.remains == remains - |TagBytes(tags)|
            && |u.pkt| == 14 + |rest| && Net16(u.pkt, 12) == ETHERTYPE_IP && u.pkt[14..] == rest)
      && (depth + |tags| >= 8 ==> u.Header? && u.depth == 8)
    decreases |tags|
  {
    var pkt := addresses + TagBytes(tags) + [0x08, 0x00] + rest;
    if tags == [] {
      assert pkt[12] == 0x08 && pkt[13] == 0x00;
      assert pkt[14..] == rest;
    } else {
      assert pkt[12] == 0x81 && pkt[13] == 0x00;
      assert Net16(pkt, 12) == ETHERTYPE_VLAN;
      if depth < 8 {
        var addresses' := pkt[4..16];
        assert pkt[4..] == addresses' + TagBytes(tags[1..]) + [0x08, 0x00] + rest;
        SkipTags(addresses', tags[1..], rest, remains - 4, depth + 1);
      }
    }
  }

  /** A frame peels like the bytes behind its tags, unless there are too many of them. */
  lemma TagsPeel(order: BitOrder, addresses: seq<u8>, tags: seq<(u8, u8)>, rest: seq<u8>, len: u32)
    returns (left: u32)
    requires |addresses| == 12
    requires |addresses + TagBytes(tags) + [0x08, 0x00] + rest| <= len
    ensures |rest| <= left
    ensures PeelFrame(order, len, addresses + TagBytes(tags) + [0x08, 0x00] + rest) ==
        if |tags| < 8 then Peel(order, NULL_KEY.(l3Protocol := ETHERTYPE_IP), left, rest)
        else Discarded
  {
    var pkt := addresses + TagBytes(tags) + [0x08, 0x00] + rest;
    assert |pkt| == 14 + |TagBytes(tags)| + |rest|;
    SkipTags(addresses, tags, rest, len, 0);
    left := len - |TagBytes(tags)| - 14;
    var u := SkipVlans(pkt, len, 0);
    assert |tags| < 8 ==> Sub32(u.remains, 14) == left;
  }

  /** The declared length of a frame is at least what was captured of it. */
  predicate Declares(f: Frame, len: u32) {
    |FrameBytes(f)| <= len
  }

  /** Where peeling should end: at the header of the innermost packet. */
  function InnermostPeeled(packet: seq<u8>): (p: Peeled)
    requires |packet| >= 20
    ensures p.AtTransport? && p.iphdr == packet
  {
    AtTransport(WithIp(NULL_KEY.(l3Protocol := ETHERTYPE_IP), packet), packet, packet[20..])
  }

  /** The frame carries the packet, in a way that the decoder can undo. */
  ghost predicate Carries(order: BitOrder, f: Frame, len: u32, packet: seq<u8>) {
    && ValidFrame(f) && FlagsSeen(order, f.tunnels) && |f.tags| < 8
    && Declares(f, len) && f.packet == packet
  }

  /**
   * Decapsulation is transparent: a frame with at most 7 tags peels to its innermost packet,
   * whatever its tunnels. With 8 tags or more it is dropped.
   */
  lemma FramePeels(order: BitOrder, f: Frame, len: u32)
    requires ValidFrame(f) && FlagsSeen(order, f.tunnels) && Declares(f, len)
    ensures PeelFrame(order, len, FrameBytes(f)) ==
      if |f.tags| < 8 then InnermostPeeled(f.packet) else Discarded
  {
    var left := TagsPeel(order, f.addresses, f.tags, Wrapped(f.tunnels, f.packet), len);
    PeelTunnels(order, NULL_KEY.(l3Protocol := ETHERTYPE_IP), left, f.tunnels, f.packet);
  }

  /** So it decodes to what its innermost packet decodes to. */
  lemma DecapsulationTransparent(order: BitOrder, ring: Ring, f: Frame, len: u32)
    requires ValidRing(ring) && ValidFrame(f) && FlagsSeen(order, f.tunnels) && Declares(f, len)
    ensures Decode(order, ring, len, FrameBytes(f)) ==
      if |f.tags| < 8
      then IpHook(ring, WithIp(NULL_KEY.(l3Protocol := ETHERTYPE_IP), f.packet), f.packet, f.packet[20..])
      else (ring, Dropped)
  {
    FramePeels(order, f, len);
  }

  /** In particular it decodes like the bare frame of its innermost packet. */
  lemma DecodesLikeBareFrame(order: BitOrder, ring: Ring, f: Frame, len: u32, len': u32)
    requires ValidRing(ring) && ValidFrame(f) && FlagsSeen(order, f.tunnels) && |f.tags| < 8
    requires Declares(f, len) && Declares(f.(tags := [], tunnels := []), len')
    ensures Decode(order, ring, len, FrameBytes(f))
         == Decode(order, ring, len', FrameBytes(f.(tags := [], tunnels := [])))
  {
    DecapsulationTransparent(order, ring, f, len);
    DecapsulationTransparent(order, ring, f.(tags := [], tunnels := []), len');
  }

  // ---- Flags read from the wrong end ----

  /** Allocated from the least significant end, the flags of a valid tunnel all read as zero. */
  lemma LsbFirstSeesNoOptions(t: Tunnel)
    requires ValidTunnel(t)
    ensures ReadGreFlags(LsbFirst, GreByte(t)) == GreFlags(false, false, false, false)
  {
  }

  /** So the optional fields of a tunnel are taken for the start of the packet inside. */
  lemma LsbFirstMisreads(key: Key, remains: u32, t: Tunnel, inner: seq<u8>) returns (left: u32)
    requires ValidTunnel(t) && key.l3Protocol == ETHERTYPE_IP && |TunnelBytes(t) + inner| <= remains
    ensures |t.options + inner| <= left
    ensures var pkt := TunnelBytes(t) + inner;
      Peel(LsbFirst, key, remains, pkt)
      == Peel(LsbFirst, WithIp(key, pkt).(l3Protocol := ETHERTYPE_IP), left, t.options + inner)
  {
    LsbFirstSeesNoOptions(t);
    TunnelLayout(t, inner);
    left := PeelStep(LsbFirst, key, remains, TunnelBytes(t) + inner, t.options + inner);
  }

  /** Peeling stays where it is or moves on by at least the two headers of a tunnel. */
  lemma {:induction false} PeelShrinks(order: BitOrder, key: Key, remains: u32, pkt: seq<u8>)
    ensures var p := Peel(order, key, remains, pkt);
      p.AtTransport? ==> p.iphdr == pkt || |p.iphdr| + 24 <= |pkt|
    decreases |pkt|
  {
    if |pkt| >= 24 {
      var behind := pkt[20..];
      var skip := 4 + GrePad(ReadGreFlags(order, behind[0]));
      PeelShrinks(order, WithIp(key, pkt).(l3Protocol := Net16(behind, 2)),
                  Sub32(Sub32(remains, 20), skip), Drop(behind, skip));
    }
  }

  /**
   * Exactly when the optional fields are absent does the wrong bit order do no harm to a tunnel
   * around the innermost packet: with 4, 8 or 12 bytes of them the end is never the right one.
   */
  lemma LsbFirstPeelsIff(key: Key, remains: u32, t: Tunnel, packet: seq<u8>)
    requires ValidTunnel(t) && Innermost(packet) && key.l3Protocol == ETHERTYPE_IP
    requires |TunnelBytes(t) + packet| <= remains
    ensures Peel(LsbFirst, key, remains, TunnelBytes(t) + packet)
              == AtTransport(WithIp(key, packet), packet, packet[20..])
        <==> t.options == []
  {
    var left := LsbFirstMisreads(key, remains, t, packet);
    var key1 := WithIp(key, TunnelBytes(t) + packet).(l3Protocol := ETHERTYPE_IP);
    if t.options == [] {
      assert t.options + packet == packet;
    } else {
      PeelShrinks(LsbFirst, key1, left, t.options + packet);
    }
  }

  /** The tunnels of a frame but the innermost one. */
  function Outer(ts: seq<Tunnel>): seq<Tunnel>
    requires ts != []
  {
    ts[..|ts| - 1]
  }

  /** The same behind any tunnels without optional fields. */
  lemma {:induction false} LsbFirstPeelsTunnelsIff(key: Key, remains: u32, ts: seq<Tunnel>, packet: seq<u8>)
    requires ts != [] && ValidTunnels(ts) && FlagsSeen(LsbFirst, Outer(ts)) && Innermost(packet)
    requires key.l3Protocol == ETHERTYPE_IP && |Wrapped(ts, packet)| <= remains
    ensures Peel(LsbFirst, key, remains, Wrapped(ts, packet))
              == AtTransport(WithIp(key, packet), packet, packet[20..])
        <==> ts[|ts| - 1].options == []
    decreases |ts|
  {
    if |ts| == 1 {
      assert ts[1..] == [] && Wrapped(ts, packet) == TunnelBytes(ts[0]) + packet;
      LsbFirstPeelsIff(key, remains, ts[0], packet);
    } else {
      assert Outer(ts)[0] == ts[0];
      var key1 := WithIp(key, Wrapped(ts, packet)).(l3Protocol := ETHERTYPE_IP);
      var left := PeelOne(LsbFirst, key, remains, ts[0], Wrapped(ts[1..], packet));
      assert forall i :: 0 <= i < |ts[1..]| - 1 ==> ts[1..][i] == Outer(ts)[i + 1];
      LsbFirstPeelsTunnelsIff(key1, left, ts[1..], packet);
      assert WithIp(key1, packet) == WithIp(key, packet);
    }
  }

  /**
   * For whole frames: where only the innermost tunnel may have optional fields, a frame peels to
   * its innermost packet exactly when that tunnel has none.
   */
  lemma LsbFirstFramePeelsIff(f: Frame, len: u32)
    requires ValidFrame(f) && Declares(f, len) && |f.tags| < 8
    requires f.tunnels != [] && FlagsSeen(LsbFirst, Outer(f.tunnels))
    ensures PeelFrame(LsbFirst, len, FrameBytes(f)) == InnermostPeeled(f.packet)
        <==> f.tunnels[|f.tunnels| - 1].options == []
  {
    var left := TagsPeel(LsbFirst, f.addresses, f.tags, Wrapped(f.tunnels, f.packet), len);
    LsbFirstPeelsTunnelsIff(NULL_KEY.(l3Protocol := ETHERTYPE_IP), left, f.tunnels, f.packet);
  }

  /** An outer header that, read four bytes too early, passes for a tunnel ending with it. */
  predicate Resynchronises(t: Tunnel)
    requires |t.ip| == 20
  {
    t.options == [] && t.ip[5] == 47 && t.ip[16] == 0x01 && t.ip[18] == 0x08 && t.ip[19] == 0x00
  }

  /** What the decoder then finds behind four option bytes. */
  lemma ShiftedLayout(options: seq<u8>, t: Tunnel, packet: seq<u8>)
    requires |options| == 4 && ValidTunnel(t) && Resynchronises(t)
    ensures var seen := options + (TunnelBytes(t) + packet);
      && |seen| == 24 + 4 + |packet|
      && seen[9] == 47 && seen[20..][0] == 0x01 && Net16(seen[20..], 2) == ETHERTYPE_IP
      && Drop(seen[20..], 4 + 4) == packet
  {
    var inner := TunnelBytes(t) + packet;
    var seen := options + inner;
    assert inner[..20] == t.ip && inner[24..] == packet;
    assert seen[9] == inner[5] == t.ip[5];
    assert seen[20..] == inner[16..];
    assert inner[16] == t.ip[16] && inner[18] == t.ip[18] && inner[19] == t.ip[19];
    assert inner[16..][8..] == inner[24..];
  }

  /** A flag byte of 1 is read from this end as a checksum alone. */
  lemma ShiftedStep(key: Key, remains: u32, seen: seq<u8>, packet: seq<u8>) returns (left: u32)
    requires key.l3Protocol == ETHERTYPE_IP && |seen| == 24 + 4 + |packet| <= remains
    requires seen[9] == 47 && seen[20..][0] == 0x01 && Net16(seen[20..], 2) == ETHERTYPE_IP
    requires Drop(seen[20..], 4 + 4) == packet
    ensures |packet| <= left
    ensures Peel(LsbFirst, key, remains, seen)
         == Peel(LsbFirst, WithIp(key, seen).(l3Protocol := ETHERTYPE_IP), left, packet)
  {
    assert ReadGreFlags(LsbFirst, 0x01) == GreFlags(true, false, false, false);
    left := PeelStep(LsbFirst, key, remains, seen, packet);
  }

  /**
   * With optional fields further out there is no such equivalence: an inner tunnel with one
   * identification byte and one destination address like these leads the decoder back.
   */
  lemma LsbFirstMayResynchronise(key: Key, remains: u32, t: Tunnel, t': Tunnel, packet: seq<u8>)
    requires ValidTunnel(t) && |t.options| == 4 && ValidTunnel(t') && Resynchronises(t') && Innermost(packet)
    requires key.l3Protocol == ETHERTYPE_IP && |Wrapped([t, t'], packet)| <= remains
    ensures Peel(LsbFirst, key, remains, Wrapped([t, t'], packet))
         == AtTransport(WithIp(key, packet), packet, packet[20..])
  {
    var inner := TunnelBytes(t') + packet;
    TwoTunnels(t, t', packet);
    ShiftedLayout(t.options, t', packet);
    var left := LsbFirstMisreads(key, remains, t, inner);
    var key1 := WithIp(key, TunnelBytes(t) + inner).(l3Protocol := ETHERTYPE_IP);
    var left' := ShiftedStep(key1, left, t.options + inner, packet);
    var key2 := WithIp(key1, t.options + inner).(l3Protocol := ETHERTYPE_IP);
    PeelTunnels(LsbFirst, key2, left', [], packet);
    assert WithIp(key2, packet) == WithIp(key, packet);
  }

  lemma TwoTunnels(t: Tunnel, t': Tunnel, packet: seq<u8>)
    ensures Wrapped([t, t'], packet) == TunnelBytes(t) + (TunnelBytes(t') + packet)
  {
    assert [t, t'][1..] == [t'] && [t'][1..] == [];
    assert Wrapped([t'], packet) == TunnelBytes(t') + packet;
  }

  /** The protocols for which the monitor looks further. */
  const KNOWN_PROTOCOLS: set<u8> := {1, 6, 17, 47, 132}

  /**
   * What it costs: whenever the byte then taken for the protocol - an identification byte, the
   * type of service or a sequence number byte, with 4, 8 or 12 option bytes - is none of the known
   * ones, the packet is dropped.
   */
  lemma LsbFirstLosesPacket(ring: Ring, f: Frame, t: Tunnel, len: u32)
    requires ValidRing(ring) && ValidFrame(f) && Declares(f, len) && f.tunnels == [t]
    requires (t.options + f.packet)[9] !in KNOWN_PROTOCOLS
    ensures Decode(LsbFirst, ring, len, FrameBytes(f)) == (ring, Dropped)
  {
    assert [t][1..] == [] && Wrapped([t], f.packet) == TunnelBytes(t) + f.packet;
    var left := TagsPeel(LsbFirst, f.addresses, f.tags, Wrapped([t], f.packet), len);
    var left' := LsbFirstMisreads(NULL_KEY.(l3Protocol := ETHERTYPE_IP), left, t, f.packet);
    var key1 := WithIp(NULL_KEY.(l3Protocol := ETHERTYPE_IP), TunnelBytes(t) + f.packet).(l3Protocol := ETHERTYPE_IP);
    UnknownProtocolDropped(ring, key1, left', t.options + f.packet);
  }

  lemma UnknownProtocolDropped(ring: Ring, key: Key, remains: u32, pkt: seq<u8>)
    requires ValidRing(ring) && key.l3Protocol == ETHERTYPE_IP && 20 <= |pkt| <= remains
    requires pkt[9] !in KNOWN_PROTOCOLS
    ensures Transport(ring, Peel(LsbFirst, key, remains, pkt)) == (ring, Dropped)
  {
  }
}
