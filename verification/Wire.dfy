/** IPv4 packets built from their fields, and the flow key that decoding finds in them. */
module Wire {
  import opened Words
  import opened Hashing
  import opened Flows
  import opened FragRing
  import opened Sessions
  import opened Decoding
  import opened Encapsulation

  function Bytes16(v: u16): (bs: seq<u8>)
    ensures |bs| == 2 && bs[0] == v / 0x100 && bs[1] == v % 0x100
  {
    [v / 0x100, v % 0x100]
  }

  function Bytes32(v: u32): (bs: seq<u8>)
    ensures |bs| == 4
  {
    Bytes16(v / 0x1_0000) + Bytes16(v % 0x1_0000)
  }

  /** The fields of a 20-byte IPv4 header that matter here, and the others as they come. */
  datatype IpFields = IpFields(src: u32, dst: u32, id: u16, dontFragment: bool, more: bool, offset: u16,
                               tos: u8, length: u16, ttl: u8, checksum: u16)

  predicate ValidFields(h: IpFields) {
    h.offset < 0x2000
  }

  function FragmentWord(h: IpFields): u16
    requires ValidFields(h)
  {
    (if h.dontFragment then 0x4000 else 0) + (if h.more then 0x2000 else 0) + h.offset
  }

  function IpBytes(h: IpFields, proto: u8): (bs: seq<u8>)
    requires ValidFields(h)
    ensures |bs| == 20
  {
    [0x45, h.tos] + Bytes16(h.length) + Bytes16(h.id) + Bytes16(FragmentWord(h))
    + [h.ttl, proto] + Bytes16(h.checksum) + Bytes32(h.src) + Bytes32(h.dst)
  }

  /** The transport headers whose ports are understood; sequence and rest are any bytes. */
  datatype Segment =
    | Tcp(sport: u16, dport: u16, sequence: seq<u8>, flags: u8)
    | Udp(sport: u16, dport: u16)
    | Sctp(sport: u16, dport: u16)
    | Icmp(kind: u8, code: u8)

  predicate ValidSegment(s: Segment) {
    s.Tcp? ==> |s.sequence| == 9
  }

  function Protocol(s: Segment): u8 {
    match s
    case Tcp(_, _, _, _) => 6
    case Udp(_, _) => 17
    case Sctp(_, _) => 132
    case Icmp(_, _) => 1
  }

  function SegmentBytes(s: Segment): seq<u8> {
    match s
    case Tcp(sport, dport, sequence, flags) => Bytes16(sport) + Bytes16(dport) + sequence + [flags]
    case Udp(sport, dport) => Bytes16(sport) + Bytes16(dport)
    case Sctp(sport, dport) => Bytes16(sport) + Bytes16(dport)
    case Icmp(kind, code) => [kind, code]
  }

  /** The key of a packet before it is localized: the source counts as local. */
  function KeyOf(h: IpFields, s: Segment): Key {
    var (sport, dport) := match s
      case Tcp(sp, dp, _, _) => (sp, dp)
      case Udp(sp, dp) => (sp, dp)
      case Sctp(sp, dp) => (sp, dp)
      case Icmp(kind, code) => (0, (kind as int) * 0x100 + code);
    Key(0x0800, Protocol(s), h.src, h.dst, sport, dport, 0, 0)
  }

  lemma Read16(s: seq<u8>, i: nat, v: u16)
    requires i + 2 <= |s| && s[i..i + 2] == Bytes16(v)
    ensures Net16(s, i) == v
  {
    assert s[i] == s[i..i + 2][0] && s[i + 1] == s[i..i + 2][1];
  }

  lemma Read32(s: seq<u8>, i: nat, v: u32)
    requires i + 4 <= |s| && s[i..i + 4] == Bytes32(v)
    ensures Net32(s, i) == v
  {
    var bs := Bytes32(v);
    assert s[i..i + 2] == bs[..2] == Bytes16(v / 0x1_0000);
    assert s[i + 2..i + 4] == bs[2..] == Bytes16(v % 0x1_0000);
    Read16(s, i, v / 0x1_0000);
    Read16(s, i + 2, v % 0x1_0000);
  }

  /** Every header field is read back from where it was written. */
  lemma IpFieldsRead(h: IpFields, proto: u8, rest: seq<u8>)
    requires ValidFields(h)
    ensures var packet := IpBytes(h, proto) + rest;
      && packet[9] == proto
      && Net32(packet, 12) == h.src && Net32(packet, 16) == h.dst
      && FragOffset(packet) == h.offset && MoreFragments(packet) == h.more
      && packet[20..] == rest
  {
    var packet := IpBytes(h, proto) + rest;
    assert packet[12..16] == Bytes32(h.src);
    assert packet[16..20] == Bytes32(h.dst);
    assert packet[6..8] == Bytes16(FragmentWord(h));
    Read32(packet, 12, h.src);
    Read32(packet, 16, h.dst);
    Read16(packet, 6, FragmentWord(h));
  }

  /** The bytes by which the fragments of a datagram are recognised. */
  lemma IpIdentity(h: IpFields, proto: u8, rest: seq<u8>)
    requires ValidFields(h)
    ensures var packet := IpBytes(h, proto) + rest;
      && packet[12..20] == Bytes32(h.src) + Bytes32(h.dst)
      && packet[4..6] == Bytes16(h.id)
  {
  }

  /** The bytes of a word exchanged, as a little-endian host sees a word of the network. */
  function Swap16(v: u16): u16 {
    v / 0x100 + v % 0x100 * 0x100
  }

  function Swap32(v: u32): u32 {
    Swap16(v / 0x1_0000) + Swap16(v % 0x1_0000) * 0x1_0000
  }

  lemma Swap16Injective(v: u16, w: u16)
    ensures Swap16(v) == Swap16(w) <==> v == w
  {
    assert Swap16(v) % 0x100 == v / 0x100 && Swap16(v) / 0x100 == v % 0x100;
    assert Swap16(w) % 0x100 == w / 0x100 && Swap16(w) / 0x100 == w % 0x100;
  }

  lemma Swap32Injective(v: u32, w: u32)
    ensures Swap32(v) == Swap32(w) <==> v == w
  {
    Swap16Injective(v / 0x1_0000, w / 0x1_0000);
    Swap16Injective(v % 0x1_0000, w % 0x1_0000);
    HalvesTell(Swap16(v / 0x1_0000), Swap16(v % 0x1_0000), Swap16(w / 0x1_0000), Swap16(w % 0x1_0000));
  }

  lemma HalvesTell(a: u16, b: u16, c: u16, d: u16)
    ensures a + b * 0x1_0000 == c + d * 0x1_0000 <==> a == c && b == d
  {
  }

  /** The words by which a datagram is recognised are its addresses, protocol and identification. */
  lemma HeaderWordsOf(h: IpFields, proto: u8, rest: seq<u8>)
    requires ValidFields(h)
    ensures HeaderWords(IpBytes(h, proto) + rest) == FragHeader(Swap32(h.src), Swap32(h.dst), proto, Swap16(h.id))
  {
    var packet := IpBytes(h, proto) + rest;
    assert packet[12..16] == Bytes32(h.src) && packet[16..20] == Bytes32(h.dst) && packet[4..6] == Bytes16(h.id);
    assert packet[9] == proto;
    RawSwapped32(packet, 12, h.src);
    RawSwapped32(packet, 16, h.dst);
    RawSwapped16(packet, 4, h.id);
  }

  lemma RawSwapped16(s: seq<u8>, i: nat, v: u16)
    requires i + 2 <= |s| && s[i..i + 2] == Bytes16(v)
    ensures Raw16(s, i) == Swap16(v)
  {
    assert s[i] == s[i..i + 2][0] && s[i + 1] == s[i..i + 2][1];
  }

  lemma RawSwapped32(s: seq<u8>, i: nat, v: u32)
    requires i + 4 <= |s| && s[i..i + 4] == Bytes32(v)
    ensures Raw32(s, i) == Swap32(v)
  {
    var bs := Bytes32(v);
    assert s[i..i + 2] == bs[..2] == Bytes16(v / 0x1_0000);
    assert s[i + 2..i + 4] == bs[2..] == Bytes16(v % 0x1_0000);
    RawSwapped16(s, i, v / 0x1_0000);
    RawSwapped16(s, i + 2, v % 0x1_0000);
  }

  /** In how many of the four the headers of two packets differ. */
  function HeaderDifferences(h: IpFields, proto: u8, h': IpFields, proto': u8): nat {
    (if h.src == h'.src then 0 else 1) + (if h.dst == h'.dst then 0 else 1)
    + (if proto == proto' then 0 else 1) + (if h.id == h'.id then 0 else 1)
  }

  /** Packets are taken for the same datagram's by these words exactly when they agree in all four. */
  lemma HeaderWordsTell(h: IpFields, proto: u8, rest: seq<u8>, h': IpFields, proto': u8, rest': seq<u8>)
    requires ValidFields(h) && ValidFields(h')
    ensures HeaderWords(IpBytes(h, proto) + rest) == HeaderWords(IpBytes(h', proto') + rest')
        <==> HeaderDifferences(h, proto, h', proto') == 0
    ensures Differences(HeaderWords(IpBytes(h, proto) + rest), HeaderWords(IpBytes(h', proto') + rest'))
        == HeaderDifferences(h, proto, h', proto')
  {
    HeaderWordsOf(h, proto, rest);
    HeaderWordsOf(h', proto', rest');
    Swap32Injective(h.src, h'.src);
    Swap32Injective(h.dst, h'.dst);
    Swap16Injective(h.id, h'.id);
  }

  /**
   * Packets between the same hosts have different fingerprints whenever they differ in protocol or
   * identification, and so have packets that differ in just one of the four.
   */
  lemma DatagramsSeparate(h: IpFields, proto: u8, rest: seq<u8>, h': IpFields, proto': u8, rest': seq<u8>)
    requires ValidFields(h) && ValidFields(h')
    requires HeaderDifferences(h, proto, h', proto') <= 1 || (h.src == h'.src && h.dst == h'.dst)
    ensures Fingerprint(HeaderWords(IpBytes(h, proto) + rest)) == Fingerprint(HeaderWords(IpBytes(h', proto') + rest'))
        <==> HeaderDifferences(h, proto, h', proto') == 0
  {
    HeaderWordsTell(h, proto, rest, h', proto', rest');
    var a, b := HeaderWords(IpBytes(h, proto) + rest), HeaderWords(IpBytes(h', proto') + rest');
    if HeaderDifferences(h, proto, h', proto') <= 1 {
      NeighboursSeparate(a, b);
    } else {
      HeaderWordsOf(h, proto, rest);
      HeaderWordsOf(h', proto', rest');
      SameHostsSeparate(a, b);
    }
  }

  lemma PortsRead(a: u16, b: u16, rest: seq<u8>)
    ensures var pkt := Bytes16(a) + Bytes16(b) + rest; Net16(pkt, 0) == a && Net16(pkt, 2) == b
  {
    var pkt := Bytes16(a) + Bytes16(b) + rest;
    assert pkt[0..2] == Bytes16(a) && pkt[2..4] == Bytes16(b);
    Read16(pkt, 0, a);
    Read16(pkt, 2, b);
  }

  /** The ports, or the ICMP type and code, are read back from the transport header. */
  lemma SegmentRead(s: Segment, payload: seq<u8>)
    requires ValidSegment(s)
    ensures var pkt := SegmentBytes(s) + payload;
      match s
      case Tcp(sport, dport, _, flags) =>
        |pkt| >= 14 && Net16(pkt, 0) == sport && Net16(pkt, 2) == dport && pkt[13] == flags
      case Udp(sport, dport) => |pkt| >= 4 && Net16(pkt, 0) == sport && Net16(pkt, 2) == dport
      case Sctp(sport, dport) => |pkt| >= 4 && Net16(pkt, 0) == sport && Net16(pkt, 2) == dport
      case Icmp(kind, code) => |pkt| >= 2 && Net16(pkt, 0) == (kind as int) * 0x100 + code
  {
    var pkt := SegmentBytes(s) + payload;
    match s
    case Tcp(sport, dport, sequence, flags) =>
      assert pkt == Bytes16(sport) + Bytes16(dport) + (sequence + [flags] + payload);
      PortsRead(sport, dport, sequence + [flags] + payload);
    case Udp(sport, dport) =>
      PortsRead(sport, dport, payload);
    case Sctp(sport, dport) =>
      PortsRead(sport, dport, payload);
    case Icmp(kind, code) =>
  }

  /** The bytes of a packet. */
  function PacketBytes(h: IpFields, s: Segment, payload: seq<u8>): seq<u8>
    requires ValidFields(h)
  {
    IpBytes(h, Protocol(s)) + (SegmentBytes(s) + payload)
  }

  /** The packet starts a datagram; of ICMP the monitor takes later fragments for that too. */
  predicate Whole(h: IpFields, s: Segment) {
    h.offset == 0 || s.Icmp?
  }

  /**
   * Decoding undoes encoding: whatever tags and tunnels a packet that starts a datagram is carried
   * in, its frame decodes to the key of its fields, with the flags of a TCP segment. The payload may
   * have been cut short by the capture.
   */
  lemma FieldsRoundTrip(order: BitOrder, ring: Ring, f: Frame, len: u32, h: IpFields, s: Segment, payload: seq<u8>)
    requires ValidFields(h) && Whole(h, s) && ValidSegment(s) && f.packet == PacketBytes(h, s, payload)
    requires ValidRing(ring) && ValidFrame(f) && FlagsSeen(order, f.tunnels) && Declares(f, len)
    requires |f.tags| < 8
    ensures Decode(order, ring, len, FrameBytes(f)).1 == Flow(KeyOf(h, s), if s.Tcp? then s.flags else 0)
  {
    DecapsulationTransparent(order, ring, f, len);
    PacketDecodes(ring, h, s, payload);
  }

  lemma PacketDecodes(ring: Ring, h: IpFields, s: Segment, payload: seq<u8>)
    requires ValidFields(h) && Whole(h, s) && ValidSegment(s) && ValidRing(ring)
    ensures var packet := PacketBytes(h, s, payload);
      IpHook(ring, WithIp(NULL_KEY.(l3Protocol := ETHERTYPE_IP), packet), packet, packet[20..]).1
      == Flow(KeyOf(h, s), if s.Tcp? then s.flags else 0)
  {
    IpFieldsRead(h, Protocol(s), SegmentBytes(s) + payload);
    SegmentRead(s, payload);
  }
}
