/** From a captured frame to a flow key: VLAN tags, nested GRE tunnels, IP and the ports. */
module Decoding {
  import opened Words
  import opened Hashing
  import opened Flows
  import opened FragRing
  import opened Sessions

  const ETHERTYPE_VLAN: u16 := 0x8100
  const PNA_MAX_CHECKS: nat := 8
  const IP_SIZE: nat := 20
  const ETHER_SIZE: nat := 14
  const GRE_SIZE: nat := 4

  const IPPROTO_ICMP: u8 := 1
  const IPPROTO_TCP: u8 := 6
  const IPPROTO_UDP: u8 := 17
  const IPPROTO_GRE: u8 := 47
  const IPPROTO_SCTP: u8 := 132

  // ---- Reading the captured bytes ----

  /** The bytes from n on: a pointer moved forward. */
  function Drop(s: seq<u8>, n: nat): seq<u8> {
    if n <= |s| then s[n..] else []
  }

  /** A word in network byte order, after ntohs or ntohl. */
  function Net16(s: seq<u8>, i: nat): u16
    requires i + 2 <= |s|
  {
    (s[i] as int) * 0x100 + s[i + 1]
  }

  function Net32(s: seq<u8>, i: nat): u32
    requires i + 4 <= |s|
  {
    (Net16(s, i) as int) * 0x1_0000 + Net16(s, i + 2)
  }

  /** A word as a little-endian host finds it in memory. */
  function Raw16(s: seq<u8>, i: nat): u16
    requires i + 2 <= |s|
  {
    s[i] + (s[i + 1] as int) * 0x100
  }

  function Raw32(s: seq<u8>, i: nat): u32
    requires i + 4 <= |s|
  {
    Raw16(s, i) + (Raw16(s, i + 2) as int) * 0x1_0000
  }

  /** Subtraction in an unsigned 32-bit register. */
  function Sub32(a: u32, b: nat): u32
    requires b <= 0x100
  {
    if a >= b then a - b else a + TWO32 - b
  }

  /** From which end of a byte the compiler allocates bit-fields. */
  datatype BitOrder = MsbFirst | LsbFirst

  datatype GreFlags = GreFlags(checksum: bool, routing: bool, key: bool, sequence: bool)

  /** The first four one-bit fields of struct pna_grehdr. */
  function ReadGreFlags(order: BitOrder, b: u8): GreFlags {
    match order
    case MsbFirst => GreFlags(b / 128 == 1, b / 64 % 2 == 1, b / 32 % 2 == 1, b / 16 % 2 == 1)
    case LsbFirst => GreFlags(b % 2 == 1, b / 2 % 2 == 1, b / 4 % 2 == 1, b / 8 % 2 == 1)
  }

  /** The bytes of the optional fields that the flags announce. */
  function GrePad(f: GreFlags): nat {
    (if f.checksum then 4 else 0) + (if f.key then 4 else 0) + (if f.sequence then 4 else 0)
  }

  // ---- What the hooks compute ----

  /** Where the tunnels end: at the IP header and the bytes behind it, or nowhere. */
  datatype Peeled =
    | Discarded
    | OutOfCapture
    | AtTransport(key: Key, iphdr: seq<u8>, pkt: seq<u8>)

  /** The key fields that an IP header fills in. */
  function WithIp(key: Key, iphdr: seq<u8>): Key
    requires |iphdr| >= IP_SIZE
  {
    key.(l4Protocol := iphdr[9], localIp := Net32(iphdr, 12), remoteIp := Net32(iphdr, 16))
  }

  /** ether_hook up to the call of ip_hook; each tunnel takes at least 24 bytes. */
  function Peel(order: BitOrder, key: Key, remains: u32, pkt: seq<u8>): (p: Peeled)
    ensures p.AtTransport? ==> |p.iphdr| >= IP_SIZE && p.pkt == p.iphdr[IP_SIZE..]
    ensures p.AtTransport? ==> p.key == WithIp(key.(l3Protocol := ETHERTYPE_IP), p.iphdr)
    decreases |pkt|
  {
    if key.l3Protocol != ETHERTYPE_IP then Discarded
    else if remains < IP_SIZE then Discarded
    else if |pkt| < IP_SIZE then OutOfCapture
    else
      var key1 := WithIp(key, pkt);
      var pkt1 := pkt[IP_SIZE..];
      if key1.l4Protocol != IPPROTO_GRE then AtTransport(key1, pkt, pkt1)
      else if |pkt1| < GRE_SIZE then OutOfCapture
      else
        var flags := ReadGreFlags(order, pkt1[0]);
        if flags.routing then Discarded
        else
          var skip := GRE_SIZE + GrePad(flags);
          Peel(order, key1.(l3Protocol := Net16(pkt1, 2)), Sub32(Sub32(remains, IP_SIZE), skip), Drop(pkt1, skip))
  }

  /** What a frame decodes to. */
  datatype Decoded =
    | Dropped
    | Unreadable
    | Flow(key: Key, flags: u16)

  function HeaderWords(iphdr: seq<u8>): FragHeader
    requires |iphdr| >= IP_SIZE
  {
    FragHeader(Raw32(iphdr, 12), Raw32(iphdr, 16), iphdr[9], Raw16(iphdr, 4))
  }

  /** The fragment offset, and whether more fragments follow. */
  function FragOffset(iphdr: seq<u8>): nat
    requires |iphdr| >= IP_SIZE
  {
    Net16(iphdr, 6) % 0x2000
  }

  predicate MoreFragments(iphdr: seq<u8>)
    requires |iphdr| >= IP_SIZE
  {
    Net16(iphdr, 6) / 0x2000 % 2 == 1
  }

  function WithPorts(key: Key, src: u16, dst: u16): Key {
    key.(localPort := src, remotePort := dst)
  }

  /** ip_hook: the ports by protocol, with the fragment table. */
  function IpHook(ring: Ring, key: Key, iphdr: seq<u8>, pkt: seq<u8>): (res: (Ring, Decoded))
    requires ValidRing(ring) && |iphdr| >= IP_SIZE
    ensures ValidRing(res.0)
  {
    var proto := key.l4Protocol;
    if proto == IPPROTO_TCP then
      if FragOffset(iphdr) != 0 then (ring, Dropped)
      else if |pkt| < 14 then (ring, Unreadable)
      else (ring, Flow(WithPorts(key, Net16(pkt, 0), Net16(pkt, 2)), pkt[13]))
    else if proto == IPPROTO_UDP then
      if FragOffset(iphdr) != 0 then
        match GetFrag(ring, Fingerprint(HeaderWords(iphdr)))
        case None => (ring, Dropped)
        case Some(entry) => (ring, Flow(WithPorts(key, entry.srcPort, entry.dstPort), 0))
      else if |pkt| < 4 then (ring, Unreadable)
      else
        var src, dst := Net16(pkt, 0), Net16(pkt, 2);
        (if MoreFragments(iphdr) then SetFrag(ring, Frag(Fingerprint(HeaderWords(iphdr)), src, dst)) else ring,
         Flow(WithPorts(key, src, dst), 0))
    else if proto == IPPROTO_SCTP then
      if FragOffset(iphdr) != 0 then (ring, Dropped)
      else if |pkt| < 4 then (ring, Unreadable)
      else (ring, Flow(WithPorts(key, Net16(pkt, 0), Net16(pkt, 2)), 0))
    else if proto == IPPROTO_ICMP then
      if |pkt| < 2 then (ring, Unreadable)
      else (ring, Flow(WithPorts(key, 0, Net16(pkt, 0)), 0))
    else (ring, Dropped)
  }

  /** What follows when the tunnels have been peeled off. */
  function Transport(ring: Ring, p: Peeled): (res: (Ring, Decoded))
    requires ValidRing(ring) && (p.AtTransport? ==> |p.iphdr| >= IP_SIZE)
    ensures ValidRing(res.0)
  {
    match p
    case Discarded => (ring, Dropped)
    case OutOfCapture => (ring, Unreadable)
    case AtTransport(key, iphdr, pkt) => IpHook(ring, key, iphdr, pkt)
  }

  /** Where the VLAN tags end: the depth reached, and the frame with the last header in front. */
  datatype Untagged = NoHeader | Header(depth: nat, remains: u32, pkt: seq<u8>)

  function SkipVlans(pkt: seq<u8>, remains: u32, depth: nat): (u: Untagged)
    requires depth <= PNA_MAX_CHECKS
    ensures u.Header? ==> depth <= u.depth <= PNA_MAX_CHECKS && |u.pkt| >= ETHER_SIZE
    decreases PNA_MAX_CHECKS - depth
  {
    if |pkt| < ETHER_SIZE then NoHeader
    else if Net16(pkt, 12) == ETHERTYPE_VLAN && depth < PNA_MAX_CHECKS then
      SkipVlans(pkt[4..], Sub32(remains, 4), depth + 1)
    else Header(depth, remains, pkt)
  }

  /** The frame without its tags and tunnels. */
  function PeelFrame(order: BitOrder, pktLen: u32, pkt: seq<u8>): (p: Peeled)
    ensures p.AtTransport? ==> |p.iphdr| >= IP_SIZE
    ensures p.AtTransport? ==> p.key == WithIp(NULL_KEY.(l3Protocol := ETHERTYPE_IP), p.iphdr)
  {
    match SkipVlans(pkt, pktLen, 0)
    case NoHeader => OutOfCapture
    case Header(depth, remains, frame) =>
      if depth == PNA_MAX_CHECKS then Discarded
      else
        Peel(order, NULL_KEY.(l3Protocol := Net16(frame, 12)), Sub32(remains, ETHER_SIZE), frame[ETHER_SIZE..])
  }

  /** pna_hook up to the localization. */
  function Decode(order: BitOrder, ring: Ring, pktLen: u32, pkt: seq<u8>): (res: (Ring, Decoded))
    requires ValidRing(ring)
    ensures ValidRing(res.0)
  {
    Transport(ring, PeelFrame(order, pktLen, pkt))
  }
}
