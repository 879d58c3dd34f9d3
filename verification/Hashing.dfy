/** The multiplicative hash, and the fingerprint of an IP fragment built from it. */
module Hashing {
  import opened Words

  const GOLDEN_RATIO_PRIME_32: u32 := 0x9e37_0001

  function Product32(val: u32): u32 {
    (val * GOLDEN_RATIO_PRIME_32) % TWO32
  }

  function Hash32(val: u32, bits: nat): u32
    requires 1 <= bits <= 32
  {
    QuotientBound(Product32(val), Pow2(32 - bits));
    Product32(val) / Pow2(32 - bits)
  }

  /** The words of an IP header a fragment is recognised by, as they lie in memory. */
  datatype FragHeader = FragHeader(src: u32, dst: u32, proto: u8, id: u16)

  function HashHalf(val: u16): u16 {
    HashHalfIsProduct(val);
    Hash32(val, 16)
  }

  function Fingerprint(h: FragHeader): u32 {
    var hash0 := Xor32(0, Hash32(h.src, 32));
    var hash1 := Xor32(hash0, Hash32(h.dst, 32));
    var hash2 := Xor32(hash1, HashHalf(h.proto) * TWO16);
    Xor32(hash2, HashHalf(h.id))
  }

  /** The hash of a key always names one of the 2^bits table slots. */
  lemma Hash32Range(val: u32, bits: nat)
    requires 1 <= bits <= 32
    ensures Hash32(val, bits) < Pow2(bits)
  {
    Pow2Values();
    Pow2Sum(32 - bits, bits);
    QuotientBelow(Product32(val), Pow2(32 - bits), Pow2(bits), TWO32);
  }

  lemma QuotientBelow(x: nat, p: nat, n: nat, m: nat)
    requires p >= 1 && p * n == m && x < m
    ensures x / p < n
  {
    var q := x / p;
    assert p * q <= x;
    if q >= n {
      MulMonotone(p, n, q);
    }
  }

  lemma {:induction false} Pow2Sum(a: nat, b: nat)
    ensures Pow2(a) * Pow2(b) == Pow2(a + b)
  {
    if a > 0 {
      Pow2Sum(a - 1, b);
    }
  }

  lemma MulMod(a: nat, b: nat, m: nat)
    requires m > 0
    ensures ((a % m) * b) % m == (a * b) % m
  {
    assert a == m * (a / m) + a % m;
    assert a * b == (a % m) * b + ((a / m) * b) * m;
    ModAddMultiple((a % m) * b, (a / m) * b, m);
  }

  lemma MulInverse(x: nat, a: nat, inv: nat, c: nat, m: nat)
    requires 0 <= x < m && a * inv == 1 + c * m
    ensures ((x * a) % m * inv) % m == x
  {
    InverseProduct(x, a, inv, c, m);
    InverseOf(x * a, x, inv, x * c, m);
  }

  lemma InverseOf(p: nat, x: nat, inv: nat, w: nat, m: nat)
    requires x < m && p * inv == x + w * m
    ensures (p % m * inv) % m == x
  {
    MulMod(p, inv, m);
    Residue(p * inv, x, w, m);
  }

  lemma Residue(z: nat, x: nat, w: nat, m: nat)
    requires x < m && z == x + w * m
    ensures z % m == x
  {
    assert w * m == m * w;
    ModUnique(z, w, x, m);
  }

  lemma InverseProduct(x: nat, a: nat, inv: nat, c: nat, m: nat)
    requires a * inv == 1 + c * m
    ensures x * a * inv == x + (x * c) * m
  {
    assert x * a * inv == x * (a * inv);
    assert x * (1 + c * m) == x + x * (c * m);
  }

  /** The 32-bit hash permutes the 32-bit words: it loses nothing and reaches everything. */
  lemma Hash32Bijective(x: u32, y: u32)
    ensures Hash32(x, 32) == Hash32(y, 32) <==> x == y
    ensures Hash32((x * 0x61c9_0001) % TWO32, 32) == x
  {
    MulInverse(x, GOLDEN_RATIO_PRIME_32, 0x61c9_0001, 1013911600, TWO32);
    MulInverse(y, GOLDEN_RATIO_PRIME_32, 0x61c9_0001, 1013911600, TWO32);
    MulInverse(x, 0x61c9_0001, GOLDEN_RATIO_PRIME_32, 1013911600, TWO32);
  }

  /** On 16-bit words the 16-bit hash is multiplication by 0x9e37 modulo 2^16. */
  lemma HashHalfIsProduct(x: u16)
    ensures Hash32(x, 16) == (x * 0x9e37) % TWO16
  {
    Pow2Values();
    var y := x * 0x9e37;
    assert x * GOLDEN_RATIO_PRIME_32 == (y % TWO16 * TWO16 + x) + (y / TWO16) * TWO32;
    ModAddMultiple(y % TWO16 * TWO16 + x, y / TWO16, TWO32);
  }

  lemma HashHalfInjective(x: u16, y: u16)
    ensures HashHalf(x) == HashHalf(y) <==> x == y
  {
    HashHalfIsProduct(x);
    HashHalfIsProduct(y);
    MulInverse(x, 0x9e37, 0x7787, 18911, TWO16);
    MulInverse(y, 0x9e37, 0x7787, 18911, TWO16);
  }

  /** The number of fields in which two headers differ. */
  function Differences(a: FragHeader, b: FragHeader): nat {
    (if a.src == b.src then 0 else 1) + (if a.dst == b.dst then 0 else 1)
    + (if a.proto == b.proto then 0 else 1) + (if a.id == b.id then 0 else 1)
  }

  lemma XorSame(a: nat, b: nat, c: nat)
    ensures Xor(a, c) == Xor(b, c) <==> a == b
    ensures Xor(c, a) == Xor(c, b) <==> a == b
  {
    XorCommutes(a, c);
    XorCommutes(b, c);
    if Xor(a, c) == Xor(b, c) {
      XorCancels(a, b, c);
    }
  }

  /** Headers that differ in at most one field share a fingerprint only when they are equal. */
  lemma NeighboursSeparate(a: FragHeader, b: FragHeader)
    requires Differences(a, b) <= 1
    ensures Fingerprint(a) == Fingerprint(b) <==> a == b
  {
    Hash32Bijective(a.src, b.src);
    Hash32Bijective(a.dst, b.dst);
    HashHalfInjective(a.proto, b.proto);
    HashHalfInjective(a.id, b.id);
    var a0, b0 := Xor32(0, Hash32(a.src, 32)), Xor32(0, Hash32(b.src, 32));
    var a1, b1 := Xor32(a0, Hash32(a.dst, 32)), Xor32(b0, Hash32(b.dst, 32));
    var a2, b2 := Xor32(a1, HashHalf(a.proto) * TWO16), Xor32(b1, HashHalf(b.proto) * TWO16);
    XorSame(Hash32(a.src, 32), Hash32(b.src, 32), 0);
    XorSame(Hash32(a.dst, 32), Hash32(b.dst, 32), a0);
    XorSame(HashHalf(a.proto) * TWO16, HashHalf(b.proto) * TWO16, a1);
    XorSame(HashHalf(a.id), HashHalf(b.id), a2);
    XorSame(a0, b0, Hash32(b.dst, 32));
    XorSame(a1, b1, HashHalf(b.proto) * TWO16);
    XorSame(a2, b2, HashHalf(b.id));
  }

  /**
   * Beyond one difference separation fails: a datagram and one in the opposite direction with the
   * same identification always collide.
   */
  lemma OppositeDirectionsCollide(h: FragHeader)
    ensures Fingerprint(h) == Fingerprint(h.(src := h.dst, dst := h.src))
  {
    XorZero(Hash32(h.src, 32));
    XorZero(Hash32(h.dst, 32));
    XorCommutes(Hash32(h.src, 32), Hash32(h.dst, 32));
  }

  lemma {:induction false} XorSelf(a: nat)
    ensures Xor(a, a) == 0
    decreases a
  {
    if a > 0 {
      XorSelf(a / 2);
    }
  }

  lemma {:induction false} XorAssociates(a: nat, b: nat, c: nat)
    ensures Xor(Xor(a, b), c) == Xor(a, Xor(b, c))
    decreases a + b + c
  {
    if a + b + c > 0 {
      var l, r := Xor(a, b), Xor(b, c);
      XorStep(a, b);
      XorStep(b, c);
      XorStep(l, c);
      XorStep(a, r);
      ParityAssociates(a, b, c, l, r);
      XorAssociates(a / 2, b / 2, c / 2);
      assert Xor(l, c) / 2 == Xor(a, r) / 2;
    }
  }

  lemma ParityAssociates(a: nat, b: nat, c: nat, l: nat, r: nat)
    requires l % 2 == (a + b) % 2 && r % 2 == (b + c) % 2
    ensures (l + c) % 2 == (a + r) % 2
  {
  }

  /** The lowest bit and the others of an exclusive or. */
  lemma XorStep(a: nat, b: nat)
    ensures Xor(a, b) / 2 == Xor(a / 2, b / 2) && Xor(a, b) % 2 == (a + b) % 2
  {
  }

  /** The fingerprint of a header but for its source. */
  function RestOfFingerprint(h: FragHeader): u32 {
    Xor32(Xor32(Hash32(h.dst, 32), HashHalf(h.proto) * TWO16), HashHalf(h.id))
  }

  /** The source with which a header has fingerprint 0. */
  function ZeroSource(h: FragHeader): u32 {
    (RestOfFingerprint(h) * 0x61c9_0001) % TWO32
  }

  lemma FingerprintParts(h: FragHeader)
    ensures Fingerprint(h) == Xor32(Hash32(h.src, 32), RestOfFingerprint(h))
  {
    var a, b, c, d := Hash32(h.src, 32), Hash32(h.dst, 32), HashHalf(h.proto) * TWO16, HashHalf(h.id);
    XorZero(a);
    XorAssociates(a, b, c);
    XorAssociates(a, Xor(b, c), d);
  }

  /** For every destination, protocol and identification exactly one source has fingerprint 0. */
  lemma ZeroFingerprint(h: FragHeader)
    ensures Fingerprint(h) == 0 <==> h.src == ZeroSource(h)
    ensures Fingerprint(h.(src := ZeroSource(h))) == 0
  {
    var rest, z := RestOfFingerprint(h), h.(src := ZeroSource(h));
    FingerprintParts(h);
    FingerprintParts(z);
    Hash32Bijective(rest, rest);
    Hash32Bijective(h.src, ZeroSource(h));
    XorSelf(rest);
    XorSame(Hash32(h.src, 32), rest, rest);
  }

  /** A word shifted to the left of another does not meet it. */
  lemma {:induction false} XorDisjoint(high: nat, low: nat, n: nat)
    requires low < Pow2(n)
    ensures Xor(high * Pow2(n), low) == high * Pow2(n) + low
    decreases n
  {
    if n == 0 {
      XorCommutes(high, 0);
      XorZero(high);
    } else {
      XorDisjoint(high, low / 2, n - 1);
      TwiceProduct(high, Pow2(n - 1));
      DoubleDisjoint(high * Pow2(n - 1), low);
    }
  }

  lemma DoubleDisjoint(half: nat, low: nat)
    requires Xor(half, low / 2) == half + low / 2
    ensures Xor(2 * half, low) == 2 * half + low
  {
    Evens(half, low);
    XorStep(2 * half, low);
    FromStep(Xor(2 * half, low), half, low);
  }

  lemma Evens(half: nat, low: nat)
    ensures 2 * half / 2 == half && (2 * half + low) % 2 == low % 2
  {
  }

  lemma TwiceProduct(high: nat, p: nat)
    ensures high * (2 * p) == 2 * (high * p)
  {
  }

  lemma FromStep(r: nat, half: nat, low: nat)
    requires r / 2 == half + low / 2 && r % 2 == low % 2
    ensures r == 2 * half + low
  {
  }

  /** The addresses on the one hand, the protocol and the identification in halves of a word on the other. */
  lemma FingerprintWords(h: FragHeader)
    ensures Fingerprint(h)
         == Xor(Xor(Hash32(h.src, 32), Hash32(h.dst, 32)), HashHalf(h.proto) * 0x1_0000 + HashHalf(h.id))
  {
    var a, b, c, d := Hash32(h.src, 32), Hash32(h.dst, 32), HashHalf(h.proto), HashHalf(h.id);
    XorZero(a);
    XorAssociates(Xor(a, b), c * TWO16, d);
    Pow2Values();
    XorDisjoint(c, d, 16);
    assert c * TWO16 == c * Pow2(16);
  }

  /** In numbers, for every header: each word is some product, and each half-word too. */
  lemma FingerprintInNumbers(x: u32, y: u32, proto: u8, i: u16)
    ensures Fingerprint(FragHeader(x * 0x61c9_0001 % 0x1_0000_0000, y * 0x61c9_0001 % 0x1_0000_0000,
                                   proto, i * 0x7787 % 0x1_0000))
         == Xor(Xor(x, y), proto * 0x9e37 % 0x1_0000 * 0x1_0000 + i)
  {
    var h := FragHeader(x * 0x61c9_0001 % TWO32, y * 0x61c9_0001 % TWO32, proto, i * 0x7787 % TWO16);
    Hash32Bijective(x, x);
    Hash32Bijective(y, y);
    HashHalfInverse(i);
    FingerprintOf(h, x, y, i);
  }

  lemma FingerprintOf(h: FragHeader, x: u32, y: u32, i: u16)
    requires Hash32(h.src, 32) == x && Hash32(h.dst, 32) == y && HashHalf(h.id) == i
    ensures Fingerprint(h) == Xor(Xor(x, y), h.proto * 0x9e37 % 0x1_0000 * 0x1_0000 + i)
  {
    FingerprintWords(h);
    HashHalfIsProduct(h.proto);
  }

  lemma HashHalfInverse(i: u16)
    ensures HashHalf(i * 0x7787 % 0x1_0000) == i
  {
    var j: u16 := i * 0x7787 % TWO16;
    HashHalfIsProduct(j);
    MulInverse(i, 0x7787, 0x9e37, 18911, TWO16);
  }

  /** Between the same hosts no two datagrams of different protocol or identification collide. */
  lemma SameHostsSeparate(a: FragHeader, b: FragHeader)
    requires a.src == b.src && a.dst == b.dst
    ensures Fingerprint(a) == Fingerprint(b) <==> a == b
  {
    FingerprintWords(a);
    FingerprintWords(b);
    XorSame(HashHalf(a.proto) * 0x1_0000 + HashHalf(a.id), HashHalf(b.proto) * 0x1_0000 + HashHalf(b.id),
            Xor(Hash32(a.src, 32), Hash32(a.dst, 32)));
    HashHalfInjective(a.proto, b.proto);
    HashHalfInjective(a.id, b.id);
  }
}
