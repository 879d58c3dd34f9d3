/** The probe sequence of the flow table: triangular-number offsets from the hash, modulo 2^bits. */
module Probing {
  import opened Words

  const PNA_TABLE_TRIES: nat := 32

  /** The slot of try i, where (i + i * i) >> 1 is the i-th triangular number. */
  function ProbeSlot(hash0: nat, i: nat, bits: nat): (slot: nat)
    ensures slot < Pow2(bits)
  {
    (hash0 + (i + i * i) / 2) % Pow2(bits)
  }

  ghost predicate Reached(hash0: nat, tries: nat, slot: nat, bits: nat) {
    exists i :: 0 <= i < tries && ProbeSlot(hash0, i, bits) == slot
  }

  /** The first try is the hash itself. */
  lemma FirstProbe(hash0: nat, bits: nat)
    requires hash0 < Pow2(bits)
    ensures ProbeSlot(hash0, 0, bits) == hash0
  {
    ModUnique(hash0, 0, hash0, Pow2(bits));
  }

  /** The offsets grow by one more each time: 0, 1, 3, 6, 10 and so on. */
  lemma NextProbe(hash0: nat, i: nat, bits: nat)
    ensures ProbeSlot(hash0, i + 1, bits) == (ProbeSlot(hash0, i, bits) + i + 1) % Pow2(bits)
  {
    var x := hash0 + (i + i * i) / 2;
    TriangularEven(i);
    NextTriangle(i);
    ModAdd(x, i + 1, Pow2(bits));
  }

  lemma NextTriangle(i: nat)
    requires (i + i * i) % 2 == 0
    ensures ((i + 1) + (i + 1) * (i + 1)) / 2 == (i + i * i) / 2 + i + 1
  {
    assert (i + 1) + (i + 1) * (i + 1) == (i + i * i) + 2 * (i + 1);
  }

  /** An odd factor does not help a product to be divisible by a power of two. */
  lemma {:induction false} OddFactorCancels(a: nat, x: nat, m: nat, k: nat) returns (q: nat)
    requires a % 2 == 1 && a * x == k * Pow2(m)
    ensures x == q * Pow2(m)
    decreases m
  {
    if m == 0 {
      q := x;
    } else {
      assert a * x == 2 * (k * Pow2(m - 1));
      OddTimesOdd(a, x);
      assert a * x == 2 * (a * (x / 2));
      q := OddFactorCancels(a, x / 2, m - 1, k);
    }
  }

  lemma OddTimesOdd(a: nat, x: nat)
    requires a % 2 == 1 && (a * x) % 2 == 0
    ensures x % 2 == 0
  {
    OddProduct(a / 2, x / 2);
  }

  lemma OddProduct(b: nat, y: nat)
    ensures ((2 * b + 1) * (2 * y + 1)) % 2 == 1
  {
    assert (2 * b + 1) * (2 * y + 1) == 2 * (2 * b * y + b + y) + 1;
  }

  /** Two triangular offsets with the same residue: their difference doubles to a product. */
  lemma TriangularDifference(i: nat, j: nat)
    requires i <= j
    ensures (j + j * j) / 2 - (i + i * i) / 2 == (j - i) * (i + j + 1) / 2
    ensures 2 * ((j + j * j) / 2 - (i + i * i) / 2) == (j - i) * (i + j + 1)
  {
    TriangularEven(i);
    TriangularEven(j);
    assert (j - i) * (i + j + 1) == (j + j * j) - (i + i * i);
  }

  lemma {:induction false} TriangularEven(i: nat)
    ensures (i + i * i) % 2 == 0
  {
    if i > 0 {
      TriangularEven(i - 1);
      assert i + i * i == (i - 1) + (i - 1) * (i - 1) + 2 * i;
    }
  }

  /** Distinct tries below the table size probe distinct slots. */
  lemma ProbesDistinct(hash0: nat, i: nat, j: nat, bits: nat)
    requires i < j < Pow2(bits)
    ensures ProbeSlot(hash0, i, bits) != ProbeSlot(hash0, j, bits)
  {
    var n := Pow2(bits);
    if ProbeSlot(hash0, i, bits) == ProbeSlot(hash0, j, bits) {
      var x, y := hash0 + (i + i * i) / 2, hash0 + (j + j * j) / 2;
      TriangularDifference(i, j);
      SameResidue(x, y, n);
      NoCollision(i, j, y / n - x / n, bits);
    }
  }

  lemma SameResidue(x: nat, y: nat, n: nat)
    requires n > 0 && x % n == y % n
    ensures y - x == n * (y / n - x / n)
  {
    assert x == n * (x / n) + x % n;
    assert y == n * (y / n) + y % n;
  }

  /** (j - i)(i + j + 1) has one odd factor and both are below 2n, so 2n cannot divide it. */
  lemma NoCollision(i: nat, j: nat, k: int, bits: nat)
    requires i < j < Pow2(bits)
    ensures (j - i) * (i + j + 1) != 2 * (Pow2(bits) * k)
  {
    var n := Pow2(bits);
    var a, b := j - i, i + j + 1;
    if a * b == 2 * (n * k) {
      assert a * b >= 1;
      assert k >= 1;
      assert k * Pow2(bits + 1) == 2 * (n * k);
      if a % 2 == 1 {
        var q := OddFactorCancels(a, b, bits + 1, k);
        NoSmallMultiple(b, q, 2 * n);
      } else {
        assert b * a == a * b;
        var q := OddFactorCancels(b, a, bits + 1, k);
        NoSmallMultiple(a, q, 2 * n);
      }
    }
  }

  lemma NoSmallMultiple(x: nat, q: nat, m: nat)
    requires 0 < x < m
    ensures x != q * m
  {
    if q >= 1 {
      MulMonotone(m, 1, q);
      assert q * m == m * q;
    }
  }

  /** The slots probed by the first k tries. */
  ghost function Probed(hash0: nat, k: nat, bits: nat): set<nat> {
    set i | 0 <= i < k :: ProbeSlot(hash0, i, bits)
  }

  lemma {:induction false} ProbedSize(hash0: nat, k: nat, bits: nat)
    requires k <= Pow2(bits)
    ensures |Probed(hash0, k, bits)| == k
    decreases k
  {
    if k > 0 {
      ProbedSize(hash0, k - 1, bits);
      forall i | 0 <= i < k - 1
        ensures ProbeSlot(hash0, i, bits) != ProbeSlot(hash0, k - 1, bits)
      {
        ProbesDistinct(hash0, i, k - 1, bits);
      }
      assert Probed(hash0, k, bits) == Probed(hash0, k - 1, bits) + {ProbeSlot(hash0, k - 1, bits)};
    } else {
      assert Probed(hash0, 0, bits) == {};
    }
  }

  ghost function Below(n: nat): (s: set<nat>)
    ensures |s| == n
    ensures forall i: nat :: i in s <==> i < n
  {
    if n == 0 then {} else Below(n - 1) + {n - 1}
  }

  lemma SubsetOfSameSize(a: set<nat>, b: set<nat>)
    requires a <= b && |a| == |b|
    ensures a == b
  {
    assert |b - a| == |b| - |a|;
    assert b == a + (b - a);
  }

  /** Triangular probing is a permutation: 2^bits tries reach every slot, each exactly once. */
  lemma ProbingIsPermutation(hash0: nat, slot: nat, bits: nat)
    requires slot < Pow2(bits)
    ensures Reached(hash0, Pow2(bits), slot, bits)
    ensures forall i, j :: 0 <= i < j < Pow2(bits)
              ==> ProbeSlot(hash0, i, bits) != ProbeSlot(hash0, j, bits)
  {
    var n := Pow2(bits);
    ProbedSize(hash0, n, bits);
    SubsetOfSameSize(Probed(hash0, n, bits), Below(n));
    assert slot in Below(n);
    forall i, j | 0 <= i < j < n
      ensures ProbeSlot(hash0, i, bits) != ProbeSlot(hash0, j, bits)
    {
      ProbesDistinct(hash0, i, j, bits);
    }
  }

  /** The tries are pairwise different slots exactly when the table has at least 2^5 slots. */
  lemma TriesDistinctIff(hash0: nat, bits: nat)
    ensures bits >= 5 <==> forall i, j :: 0 <= i < j < 32
                             ==> ProbeSlot(hash0, i, bits) != ProbeSlot(hash0, j, bits)
  {
    if bits >= 5 {
      assert Pow2(5) == 32;
      Pow2Monotone(5, bits);
      forall i, j | 0 <= i < j < 32
        ensures ProbeSlot(hash0, i, bits) != ProbeSlot(hash0, j, bits)
      {
        ProbesDistinct(hash0, i, j, bits);
      }
    } else {
      TriesRepeat(hash0, bits);
    }
  }

  lemma TriesRepeat(hash0: nat, bits: nat)
    requires bits < 5
    ensures exists i :: 0 <= i < 16 && ProbeSlot(hash0, i, bits) == ProbeSlot(hash0, 16, bits)
  {
    assert Pow2(4) == 16;
    Pow2Monotone(bits, 4);
    ProbingIsPermutation(hash0, ProbeSlot(hash0, 16, bits), bits);
  }

  /** In a table of at most 2^5 slots the tries reach every slot. */
  lemma TriesReachAll(hash0: nat, slot: nat, bits: nat)
    requires bits <= 5 && slot < Pow2(bits)
    ensures Reached(hash0, 32, slot, bits)
  {
    assert Pow2(5) == 32;
    Pow2Monotone(bits, 5);
    ProbingIsPermutation(hash0, slot, bits);
  }
}
