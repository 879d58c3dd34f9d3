/** Flow keys, the counters of a flow, and the packets as the flow table receives them. */
module Flows {
  import opened Words
  import opened Hashing

  const PNA_DIR_OUTBOUND: Direction := 0
  const PNA_DIR_INBOUND: Direction := 1
  const ETH_OVERHEAD: nat := 38
  const MAX_DOMAIN: u16 := 0xFFFF

  /** struct pna_flowkey; the fields before the domains are its first 16 bytes. */
  datatype Key = Key(l3Protocol: u16, l4Protocol: u8, localIp: u32, remoteIp: u32,
                     localPort: u16, remotePort: u16, localDomain: u16, remoteDomain: u16)

  /** The first 16 of a key's 20 bytes: all that the flow table compares. */
  datatype FlowId = FlowId(l3Protocol: u16, l4Protocol: u8, localIp: u32, remoteIp: u32,
                           localPort: u16, remotePort: u16)

  const NULL_KEY: Key := Key(0, 0, 0, 0, 0, 0, 0, 0)
  const NULL_ID: FlowId := Id(NULL_KEY)

  function Id(k: Key): FlowId {
    FlowId(k.l3Protocol, k.l4Protocol, k.localIp, k.remoteIp, k.localPort, k.remotePort)
  }

  /** flowkey_match of the flow table: two 8-byte comparisons over 16 bytes. */
  predicate FlowkeyMatch(a: Key, b: Key): (same: bool)
    ensures same <==> Id(a) == Id(b)
  {
    && (a.l3Protocol, a.l4Protocol, a.localIp) == (b.l3Protocol, b.l4Protocol, b.localIp)
    && (a.remoteIp, a.localPort, a.remotePort) == (b.remoteIp, b.localPort, b.remotePort)
  }

  /** One value for each direction: a C array of length PNA_DIRECTIONS. */
  datatype PerDir<T> = PerDir(outbound: T, inbound: T) {
    function At(d: Direction): T {
      if d == PNA_DIR_OUTBOUND then outbound else inbound
    }

    function With(d: Direction, v: T): PerDir<T> {
      if d == PNA_DIR_OUTBOUND then this.(outbound := v) else this.(inbound := v)
    }
  }

  datatype Data = Data(bytes: PerDir<u32>, packets: PerDir<u32>, flags: PerDir<u16>,
                       firstTstamp: u32, lastTstamp: u32, firstDir: u32)

  datatype Slot = Slot(key: Key, data: Data)

  const ZERO_DATA: Data := Data(PerDir(0, 0), PerDir(0, 0), PerDir(0, 0), 0, 0, 0)
  const ZERO_SLOT: Slot := Slot(NULL_KEY, ZERO_DATA)

  /** The arguments of one call of flowmon_hook. */
  datatype Pkt = Pkt(key: Key, dir: Direction, flags: u16, len: u32, sec: u32)

  function FlowHash(id: FlowId, bits: nat): u32
    requires 1 <= bits <= 32
  {
    var hash := Xor32(Xor32(id.localIp, id.remoteIp), id.remotePort * TWO16 + id.localPort);
    Hash32(hash, bits)
  }

  /** The counters that every recorded packet advances; sums wrap at 32 bits. */
  function Count(d: Data, p: Pkt): Data {
    d.(bytes := d.bytes.With(p.dir, Wrap32(d.bytes.At(p.dir) + Wrap32(p.len + ETH_OVERHEAD))),
       packets := d.packets.With(p.dir, Wrap32(d.packets.At(p.dir) + 1)),
       flags := d.flags.With(p.dir, Or16(d.flags.At(p.dir), p.flags)))
  }

  function UpdateEntry(s: Slot, p: Pkt): Slot {
    s.(data := Count(s.data, p).(lastTstamp := p.sec))
  }

  function InsertEntry(s: Slot, p: Pkt): Slot {
    Slot(p.key, Count(s.data, p).(firstTstamp := p.sec, lastTstamp := p.sec, firstDir := p.dir))
  }

  // ---- How the hash spreads the flows ----

  /** The remote address with which a flow has the x-th word of the hash's order. */
  function RemoteAt(id: FlowId, x: u32): u32 {
    Xor32(Xor32(id.localIp, id.remotePort * 0x1_0000 + id.localPort), (x * 0x61c9_0001) % 0x1_0000_0000)
  }

  lemma HashedWord(id: FlowId, x: u32)
    ensures Xor32(Xor32(id.localIp, RemoteAt(id, x)), id.remotePort * TWO16 + id.localPort)
         == (x * 0x61c9_0001) % TWO32
  {
    var ports, word := id.remotePort * TWO16 + id.localPort, (x * 0x61c9_0001) % TWO32;
    XorAssociates(id.localIp, ports, word);
    XorAssociates(id.localIp, id.localIp, Xor(ports, word));
    XorSelf(id.localIp);
    XorZero(Xor(ports, word));
    XorCommutes(Xor(ports, word), ports);
    XorAssociates(ports, ports, word);
    XorSelf(ports);
    XorZero(word);
  }

  /** The x-th flow hashes to the slot that x lies in when the words are shared out in order. */
  lemma FlowHashSpreads(id: FlowId, x: u32, bits: nat)
    requires 1 <= bits <= 30 && id.remoteIp == RemoteAt(id, x)
    ensures FlowHash(id, bits) == x / Pow2(32 - bits)
  {
    HashedWord(id, x);
    MulInverse(x, 0x61c9_0001, GOLDEN_RATIO_PRIME_32, 1013911600, TWO32);
  }

  lemma FlowHashBelow(id: FlowId, bits: nat)
    requires 1 <= bits <= 32
    ensures FlowHash(id, bits) < Pow2(bits)
  {
    Hash32Range(Xor32(Xor32(id.localIp, id.remoteIp), id.remotePort * TWO16 + id.localPort), bits);
  }

  /** Different numbers are different addresses, and every address has a number. */
  lemma RemoteAtBijective(id: FlowId, x: u32, y: u32)
    ensures RemoteAt(id, x) == RemoteAt(id, y) <==> x == y
    ensures id.remoteIp == RemoteAt(id, NumberOf(id))
  {
    var base := Xor32(id.localIp, id.remotePort * TWO16 + id.localPort);
    XorSame((x * 0x61c9_0001) % TWO32, (y * 0x61c9_0001) % TWO32, base);
    MulInverse(x, 0x61c9_0001, GOLDEN_RATIO_PRIME_32, 1013911600, TWO32);
    MulInverse(y, 0x61c9_0001, GOLDEN_RATIO_PRIME_32, 1013911600, TWO32);
    NumberIsInverse(id);
  }

  /** The number of a flow's remote address. */
  function NumberOf(id: FlowId): u32 {
    (Xor32(Xor32(id.localIp, id.remotePort * TWO16 + id.localPort), id.remoteIp) * 0x9e37_0001) % TWO32
  }

  lemma NumberIsInverse(id: FlowId)
    ensures id.remoteIp == RemoteAt(id, NumberOf(id))
  {
    var base := Xor32(id.localIp, id.remotePort * TWO16 + id.localPort);
    var word := Xor32(base, id.remoteIp);
    MulInverse(word, GOLDEN_RATIO_PRIME_32, 0x61c9_0001, 1013911600, TWO32);
    XorAssociates(base, base, id.remoteIp);
    XorSelf(base);
    XorZero(id.remoteIp);
  }

  /**
   * With the other fields fixed, the flows of a slot are those with the numbers of one of 2^bits
   * intervals of length 2^(32 - bits): every slot is the hash of exactly so many remote addresses.
   */
  lemma FlowsOfSlot(id: FlowId, bits: nat, slot: nat)
    requires 1 <= bits <= 30
    ensures FlowHash(id, bits) == slot <==> slot * Pow2(32 - bits) <= NumberOf(id) < (slot + 1) * Pow2(32 - bits)
  {
    RemoteAtBijective(id, 0, 0);
    FlowHashSpreads(id, NumberOf(id), bits);
    InInterval(NumberOf(id), Pow2(32 - bits), slot);
  }

  lemma InInterval(x: nat, p: nat, q: nat)
    requires p >= 1
    ensures x / p == q <==> q * p <= x < (q + 1) * p
  {
    assert x == p * (x / p) + x % p;
    if q * p <= x < (q + 1) * p {
      ModUnique(x, q, x - q * p, p);
    }
  }
}
