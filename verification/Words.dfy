/** Machine words as bounded integers, and the bit operations the monitor uses on them. */
module Words {

  const TWO16: int := 0x1_0000
  const TWO32: int := 0x1_0000_0000

  type u8 = x: int | 0 <= x < 0x100
  type u16 = x: int | 0 <= x < 0x1_0000
  type u32 = x: int | 0 <= x < 0x1_0000_0000

  /** A packet direction: 0 is outbound, 1 is inbound; it indexes the per-direction counters. */
  type Direction = d: int | 0 <= d < 2

  function Wrap32(x: nat): u32 {
    x % 0x1_0000_0000
  }

  function Pow2(n: nat): (p: nat)
    ensures p >= 1
  {
    if n == 0 then 1 else 2 * Pow2(n - 1)
  }

  lemma Pow2Values()
    ensures Pow2(8) == 0x100 && Pow2(16) == TWO16 && Pow2(32) == TWO32
  {
    assert Pow2(4) == 16;
    assert Pow2(8) == 256;
    assert Pow2(12) == 4096;
    assert Pow2(16) == 65536;
    assert Pow2(20) == 0x10_0000;
    assert Pow2(24) == 0x100_0000;
    assert Pow2(28) == 0x1000_0000;
    assert Pow2(32) == 0x1_0000_0000;
  }

  lemma {:induction false} Pow2Monotone(m: nat, n: nat)
    requires m <= n
    ensures Pow2(m) <= Pow2(n)
    decreases n
  {
    if m < n {
      Pow2Monotone(m, n - 1);
    }
  }

  /** Exclusive or, bit by bit from the least significant one. */
  function Xor(a: nat, b: nat): nat
    decreases a + b
  {
    if a == 0 && b == 0 then 0 else 2 * Xor(a / 2, b / 2) + (a + b) % 2
  }

  /** Inclusive or, bit by bit from the least significant one. */
  function Or(a: nat, b: nat): nat
    decreases a + b
  {
    if a == 0 && b == 0 then 0
    else 2 * Or(a / 2, b / 2) + (if a % 2 == 1 || b % 2 == 1 then 1 else 0)
  }

  predicate TestBit(a: nat, k: nat) {
    if k == 0 then a % 2 == 1 else TestBit(a / 2, k - 1)
  }

  lemma {:induction false} XorBound(a: nat, b: nat, n: nat)
    requires a < Pow2(n) && b < Pow2(n)
    ensures Xor(a, b) < Pow2(n)
    decreases n
  {
    if n > 0 && !(a == 0 && b == 0) {
      XorBound(a / 2, b / 2, n - 1);
    }
  }

  lemma {:induction false} OrBound(a: nat, b: nat, n: nat)
    requires a < Pow2(n) && b < Pow2(n)
    ensures Or(a, b) < Pow2(n)
    decreases n
  {
    if n > 0 && !(a == 0 && b == 0) {
      OrBound(a / 2, b / 2, n - 1);
    }
  }

  lemma {:induction false} XorCommutes(a: nat, b: nat)
    ensures Xor(a, b) == Xor(b, a)
    decreases a + b
  {
    if !(a == 0 && b == 0) {
      XorCommutes(a / 2, b / 2);
    }
  }

  /** Exclusive or with a fixed word can be undone. */
  lemma {:induction false} XorCancels(a: nat, b: nat, c: nat)
    requires Xor(a, c) == Xor(b, c)
    ensures a == b
    decreases a + b + c
  {
    if a + b + c > 0 {
      assert Xor(a, c) == 2 * Xor(a / 2, c / 2) + (a + c) % 2;
      assert Xor(b, c) == 2 * Xor(b / 2, c / 2) + (b + c) % 2;
      XorCancels(a / 2, b / 2, c / 2);
    }
  }

  lemma {:induction false} XorZero(a: nat)
    ensures Xor(0, a) == a
    decreases a
  {
    if a > 0 {
      XorZero(a / 2);
    }
  }

  /** A bit is set in an inclusive or exactly when it is set in one of the two words. */
  lemma {:induction false} TestBitOr(a: nat, b: nat, k: nat)
    ensures TestBit(Or(a, b), k) <==> TestBit(a, k) || TestBit(b, k)
    decreases k
  {
    if a == 0 && b == 0 {
      TestBitZero(k);
    } else {
      OrStep(a, b);
      if k > 0 {
        TestBitOr(a / 2, b / 2, k - 1);
      }
    }
  }

  /** The lowest bit and the others of an inclusive or. */
  lemma OrStep(a: nat, b: nat)
    ensures Or(a, b) / 2 == Or(a / 2, b / 2) && (Or(a, b) % 2 == 1 <==> a % 2 == 1 || b % 2 == 1)
  {
  }

  /** A bit is set in an exclusive or exactly when it is set in one of the two words but not in both. */
  lemma {:induction false} TestBitXor(a: nat, b: nat, k: nat)
    ensures TestBit(Xor(a, b), k) <==> TestBit(a, k) != TestBit(b, k)
    decreases k
  {
    if a == 0 && b == 0 {
      TestBitZero(k);
    } else if k > 0 {
      assert Xor(a, b) / 2 == Xor(a / 2, b / 2);
      TestBitXor(a / 2, b / 2, k - 1);
    }
  }

  lemma {:induction false} TestBitZero(k: nat)
    ensures !TestBit(0, k)
  {
    if k > 0 {
      TestBitZero(k - 1);
    }
  }

  function Xor32(a: u32, b: u32): u32 {
    Pow2Values();
    XorBound(a, b, 32);
    Xor(a, b)
  }

  function Or16(a: u16, b: u16): u16 {
    Pow2Values();
    OrBound(a, b, 16);
    Or(a, b)
  }

  /** Adding in a 32-bit register reduces the running sum modulo 2^32. */
  lemma WrapAdd(s: nat, x: nat)
    ensures Wrap32(Wrap32(s) + x) == Wrap32(s + x)
    ensures Wrap32(s + Wrap32(x)) == Wrap32(s + x)
  {
    ModAdd(s, x, TWO32);
    ModAdd(x, s, TWO32);
  }

  lemma ModAdd(s: int, x: int, m: int)
    requires m > 0
    ensures (s % m + x) % m == (s + x) % m
  {
    var q := s / m;
    assert s == q * m + s % m;
    ModAddMultiple(s % m + x, q, m);
  }

  lemma {:induction false} ModAddMultiple(x: int, q: int, m: int)
    requires m > 0
    ensures (x + q * m) % m == x % m
  {
    assert x + q * m == m * (x / m + q) + x % m;
    ModUnique(x + q * m, x / m + q, x % m, m);
  }

  lemma QuotientBound(x: nat, p: nat)
    requires p >= 1
    ensures 0 <= x / p <= x
  {
    assert x == p * (x / p) + x % p;
    if x / p >= 1 {
      MultipleBounds(x / p, p);
    }
  }

  /** Quotient and remainder are determined by their defining equation. */
  lemma ModUnique(x: int, q: int, r: int, m: int)
    requires m > 0 && 0 <= r < m && x == m * q + r
    ensures x / m == q && x % m == r
  {
    var d := x / m - q;
    assert m * (x / m) + x % m == x;
    assert m * d == r - x % m;
    MultipleBounds(m, d);
  }

  lemma MulMonotone(p: nat, a: nat, b: nat)
    requires a <= b
    ensures p * a <= p * b
  {
  }

  lemma MultipleBounds(m: int, d: int)
    requires m > 0
    ensures d >= 1 ==> m * d >= m
    ensures d <= -1 ==> m * d <= -m
  {
  }
}
