/** The search for an unlocked table, from any state, reachable or not. */
module Locking {
  import opened Words
  import opened FlowMon

  /** The table that lies d places behind the current one. */
  function Ahead(m: Mon, d: nat): (i: nat)
    requires m.tables != []
    ensures i < |m.tables|
  {
    (m.idx + d) % |m.tables|
  }

  lemma AheadNext(m: Mon, bits: nat, d: nat)
    requires Ready(m, bits)
    ensures Ahead(Next(m, bits), d) == Ahead(m, d + 1)
  {
    ModAdd(m.idx + 1, d, |m.tables|);
  }

  /** All tables are passed when as many are as there are. */
  lemma EveryTableAhead(m: Mon, bits: nat, t: nat) returns (d: nat)
    requires Ready(m, bits) && t < |m.tables|
    ensures d < |m.tables| && Ahead(m, d) == t
  {
    var n := |m.tables|;
    if t >= m.idx {
      d := t - m.idx;
      ModUnique(m.idx + d, 0, t, n);
    } else {
      d := t + n - m.idx;
      ModUnique(m.idx + d, 1, t, n);
    }
  }

  /** A search that has passed i tables passes locked ones until it meets an unlocked one or gives up. */
  ghost predicate Outcome(m: Mon, i: nat, m': Mon, k: nat) {
    && m.tables != [] && i <= k <= |m.tables|
    && (forall d :: 0 <= d < k - i ==> m.tables[Ahead(m, d)].locked)
    && m'.idx == Ahead(m, k - i)
    && (if m.tables[Ahead(m, k - i)].locked then k == |m.tables| && m' == m.(idx := m'.idx)
        else m' == SetTable(m.(idx := m'.idx), m.tables[m'.idx].(locked := true)))
  }

  lemma {:induction false} AcquireOutcome(m: Mon, bits: nat, i: nat)
    requires Ready(m, bits) && i <= |m.tables|
    ensures Outcome(m, i, Acquire(m, bits, i).0, Acquire(m, bits, i).1)
    decreases |m.tables| - i
  {
    ModUnique(m.idx, 0, m.idx, |m.tables|);
    if m.tables[m.idx].locked && i < |m.tables| {
      var (m', k) := Acquire(m, bits, i);
      AcquireOutcome(Next(m, bits), bits, i + 1);
      OutcomeBefore(m, bits, i, m', k);
    }
  }

  lemma OutcomeBefore(m: Mon, bits: nat, i: nat, m': Mon, k: nat)
    requires Ready(m, bits) && m.tables[m.idx].locked && Outcome(Next(m, bits), i + 1, m', k)
    ensures Outcome(m, i, m', k)
  {
    ModUnique(m.idx, 0, m.idx, |m.tables|);
    forall d | 0 <= d < k - i
      ensures m.tables[Ahead(m, d)].locked
    {
      if d > 0 {
        AheadNext(m, bits, d - 1);
      }
    }
    AheadNext(m, bits, k - i - 1);
  }

  ghost predicate AllLocked(m: Mon) {
    forall i :: 0 <= i < |m.tables| ==> m.tables[i].locked
  }

  /**
   * The search of flowtab_get. It fails exactly when all tables are locked, and then leaves
   * everything as it was; otherwise it locks the first unlocked table from the current one on, which
   * becomes the current one, and touches no other.
   */
  lemma AcquireFindsFirst(m: Mon, bits: nat)
    requires Ready(m, bits)
    ensures var (m', i) := Acquire(m, bits, 0);
      && (i == |m.tables| <==> AllLocked(m))
      && (i == |m.tables| ==> m' == m)
      && (i < |m.tables| ==>
            && m'.idx == Ahead(m, i) && !m.tables[m'.idx].locked
            && (forall d :: 0 <= d < i ==> m.tables[Ahead(m, d)].locked)
            && m' == m.(idx := m'.idx, tables := m.tables[m'.idx := m.tables[m'.idx].(locked := true)]))
  {
    var (m', i) := Acquire(m, bits, 0);
    AcquireOutcome(m, bits, 0);
    if i == |m.tables| {
      FullRound(m, bits);
      forall t | 0 <= t < |m.tables|
        ensures m.tables[t].locked
      {
        var d := EveryTableAhead(m, bits, t);
      }
    }
  }

  lemma FullRound(m: Mon, bits: nat)
    requires Ready(m, bits)
    ensures Ahead(m, |m.tables|) == m.idx == Ahead(m, 0)
  {
    ModUnique(m.idx + |m.tables|, 1, m.idx, |m.tables|);
    ModUnique(m.idx, 0, m.idx, |m.tables|);
  }

  /** flowtab_get fails exactly when the current table is clean and all tables are locked. */
  lemma GetFailsIff(m: Mon, bits: nat, sec: u32, clock: Clock)
    requires Ready(m, bits)
    ensures !GetTable(m, bits, sec, clock).1 <==> !m.tables[m.idx].dirty && AllLocked(m)
    ensures !GetTable(m, bits, sec, clock).1
      ==> GetTable(m, bits, sec, clock).0 == m.(lockMisses := CountLockMiss(m.lockMisses))
  {
    var t := m.tables[m.idx];
    if t.dirty && !Expired(t.firstSec, sec) {
    } else if t.dirty {
      var rotated := Next(Dump(m, bits, m.idx, clock), bits);
      assert !rotated.tables[m.idx].locked;
      AcquireFindsFirst(rotated, bits);
    } else {
      AcquireFindsFirst(m, bits);
    }
  }

  /**
   * With the current table clean, the first unlocked one is taken: it is locked, and keeps its first
   * second if it was in use, while a clean one gets the packet's. Nothing else changes.
   */
  lemma GetOpens(m: Mon, bits: nat, sec: u32, clock: Clock)
    requires Ready(m, bits) && !m.tables[m.idx].dirty && !AllLocked(m)
    ensures var (m', got) := GetTable(m, bits, sec, clock);
      && got && m'.idx < |m.tables| && !m.tables[m'.idx].locked
      && var t := m.tables[m'.idx];
         m' == m.(idx := m'.idx, tables := m.tables[m'.idx := t.(locked := true, dirty := true,
                                                                firstSec := if t.dirty then t.firstSec else sec)])
  {
    AcquireFindsFirst(m, bits);
    var m' := GetTable(m, bits, sec, clock).0;
    var t := m.tables[m'.idx];
    assert m'.tables == m.tables[m'.idx := t.(locked := true)][m'.idx := m'.tables[m'.idx]];
  }

  /** The misses counted since the last warning, of which there is one in a thousand. */
  function MissesAfter(k: nat): nat {
    if k == 0 then 0 else CountLockMiss(MissesAfter(k - 1))
  }

  lemma {:induction false} WarningsEveryThousand(k: nat)
    ensures MissesAfter(k) == k % 1000
  {
    if k > 0 {
      WarningsEveryThousand(k - 1);
    }
  }
}
