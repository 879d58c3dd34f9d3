/** One flow table: open addressing over 2^bits slots with at most 32 triangular tries. */
module FlowTable {
  import opened Words
  import opened Probing
  import opened Flows

  /** The contents of a struct flowtab_info. */
  datatype Table = Table(slots: seq<Slot>, locked: bool, dirty: bool, firstSec: u32,
                         nflows: u32, nflowsMissed: u32, probes: seq<u32>)

  predicate Live(s: Slot) {
    Id(s.key) != NULL_ID
  }

  /** A probe sequence: the slot that each try looks at when searching for a flow. */
  type ProbeSequence = (FlowId, nat) -> nat

  ghost predicate Within(probe: ProbeSequence, n: nat) {
    forall id, i :: probe(id, i) < n
  }

  function TrySlot(id: FlowId, i: nat, bits: nat): (slot: nat)
    requires 1 <= bits <= 30
    ensures slot < Pow2(bits)
  {
    ProbeSlot(FlowHash(id, bits), i, bits)
  }

  /** The probe sequence of a table with 2^bits slots. */
  function TableProbes(bits: nat): (probe: ProbeSequence)
    requires 1 <= bits <= 30
    ensures Within(probe, Pow2(bits))
  {
    (id, i) => TrySlot(id, i, bits)
  }

  /**
   * Where a flow is looked for, in numbers: first in the slot that its number x falls in when the
   * words are shared out among the slots in order, and each next try i + 1 slots behind the last.
   */
  lemma TriesInNumbers(id: FlowId, x: u32, bits: nat, i: nat)
    requires 1 <= bits <= 30 && id.remoteIp == RemoteAt(id, x)
    ensures TableProbes(bits)(id, 0) == x / Pow2(32 - bits)
    ensures TableProbes(bits)(id, i + 1) == (TableProbes(bits)(id, i) + i + 1) % Pow2(bits)
  {
    var hash := FlowHash(id, bits);
    FlowHashSpreads(id, x, bits);
    FlowHashBelow(id, bits);
    FirstProbe(hash, bits);
    StepProbe(hash, ProbeSlot(hash, i, bits), ProbeSlot(hash, i + 1, bits), i, bits);
  }

  lemma StepProbe(hash: nat, slot: nat, next: nat, i: nat, bits: nat)
    requires slot == ProbeSlot(hash, i, bits) && next == ProbeSlot(hash, i + 1, bits)
    ensures next == (slot + i + 1) % Pow2(bits)
  {
    NextProbe(hash, i, bits);
  }

  /** The first try from i on whose slot holds the flow or is free; 32 if there is none. */
  ghost function FindTry(slots: seq<Slot>, probe: ProbeSequence, id: FlowId, i: nat): (r: nat)
    requires Within(probe, |slots|) && i <= PNA_TABLE_TRIES
    ensures i <= r <= PNA_TABLE_TRIES
    ensures forall j :: i <= j < r ==> var s := slots[probe(id, j)]; Id(s.key) != id && Live(s)
    ensures r < PNA_TABLE_TRIES ==> var s := slots[probe(id, r)]; Id(s.key) == id || !Live(s)
    decreases PNA_TABLE_TRIES - i
  {
    if i == PNA_TABLE_TRIES then i
    else
      var s := slots[probe(id, i)];
      if Id(s.key) == id || !Live(s) then i else FindTry(slots, probe, id, i + 1)
  }

  /** The probe statistics after the first k tries were made. */
  function CountProbes(probes: seq<u32>, k: nat): (r: seq<u32>)
    requires k <= |probes|
    ensures |r| == |probes|
    ensures forall j :: k <= j < |r| ==> r[j] == probes[j]
  {
    if k == 0 then probes else CountProbes(probes, k - 1)[k - 1 := CountOne(probes[k - 1])]
  }

  function CountOne(n: u32): u32 {
    Wrap32(n + 1)
  }

  predicate WellFormed(t: Table, bits: nat) {
    1 <= bits <= 30 && |t.slots| == Pow2(bits) && |t.probes| == PNA_TABLE_TRIES
  }

  /** How many tries a search made that ended at try r. */
  function TriesMade(r: nat): (k: nat)
    ensures k <= PNA_TABLE_TRIES
  {
    if r < PNA_TABLE_TRIES then r + 1 else PNA_TABLE_TRIES
  }

  /** What recording a packet does to a table, and the value returned. */
  ghost function Record(t: Table, bits: nat, p: Pkt): (Table, int)
    requires WellFormed(t, bits)
  {
    var probe := TableProbes(bits);
    var r := FindTry(t.slots, probe, Id(p.key), 0);
    if r == PNA_TABLE_TRIES then (Missed(t), -1) else RecordIn(t, probe(Id(p.key), r), r, p)
  }

  function Missed(t: Table): Table
    requires |t.probes| == PNA_TABLE_TRIES
  {
    t.(nflowsMissed := CountOne(t.nflowsMissed), probes := CountProbes(t.probes, PNA_TABLE_TRIES))
  }

  lemma RecordBySearch(t: Table, bits: nat, p: Pkt)
    requires WellFormed(t, bits)
    ensures var i := FindTry(t.slots, TableProbes(bits), Id(p.key), 0);
            Record(t, bits, p) == if i == PNA_TABLE_TRIES then (Missed(t), -1)
                                  else RecordIn(t, TrySlot(Id(p.key), i, bits), i, p)
  {
  }

  /** Record the packet in slot i, found by try r. */
  function RecordIn(t: Table, i: nat, r: nat, p: Pkt): (Table, int)
    requires i < |t.slots| && r < |t.probes|
  {
    var counted := t.(probes := CountProbes(t.probes, r + 1));
    if Id(t.slots[i].key) == Id(p.key) then
      (counted.(slots := t.slots[i := UpdateEntry(t.slots[i], p)]), 0)
    else
      (counted.(slots := t.slots[i := InsertEntry(t.slots[i], p)], nflows := CountOne(t.nflows)), 1)
  }

  class FlowTab {
    const bits: nat
    const flowtab: array<Slot>
    const probes: array<u32>
    var locked: bool
    var tableDirty: bool
    var firstSec: u32
    var nflows: u32
    var nflowsMissed: u32

    ghost predicate Valid() {
      1 <= bits <= 30 && flowtab.Length == Pow2(bits) && probes.Length == PNA_TABLE_TRIES
    }

    ghost function View(): (t: Table)
      requires Valid()
      reads this, flowtab, probes
      ensures WellFormed(t, bits)
    {
      Table(flowtab[..], locked, tableDirty, firstSec, nflows, nflowsMissed, probes[..])
    }

    constructor (bits: nat)
      requires 1 <= bits <= 30
      ensures Valid() && this.bits == bits && fresh(flowtab) && fresh(probes)
      ensures View() == EmptyTable(bits)
    {
      this.bits := bits;
      flowtab := new Slot[Pow2(bits)](_ => ZERO_SLOT);
      probes := new u32[PNA_TABLE_TRIES](_ => 0);
      locked, tableDirty, firstSec, nflows, nflowsMissed := false, false, 0, 0, 0;
    }

    /** flowtab_clean: zero the slots and the bookkeeping, but not the probe statistics. */
    method Clean()
      requires Valid()
      modifies this, flowtab
      ensures View() == Cleaned(old(View()))
    {
      var i := 0;
      while i < flowtab.Length
        modifies flowtab
        invariant 0 <= i <= flowtab.Length
        invariant forall k :: 0 <= k < i ==> flowtab[k] == ZERO_SLOT
      {
        flowtab[i] := ZERO_SLOT;
        i := i + 1;
      }
      assert flowtab[..] == seq(flowtab.Length, _ => ZERO_SLOT);
      tableDirty, firstSec, nflows, nflowsMissed := false, 0, 0, 0;
    }

    /** pthread_mutex_trylock: true when the table was already locked. */
    method TryLock() returns (busy: bool)
      requires Valid()
      modifies this`locked
      ensures busy == old(locked) && locked
    {
      busy := locked;
      locked := true;
    }

    /** Count one more use of try i. */
    method CountTry(i: nat, ghost before: seq<u32>)
      requires Valid() && i < PNA_TABLE_TRIES && |before| == PNA_TABLE_TRIES
      requires probes[..] == CountProbes(before, i)
      modifies probes
      ensures View() == old(View()).(probes := CountProbes(before, i + 1))
    {
      assert probes[i] == probes[..][i];
      probes[i] := CountOne(probes[i]);
      assert probes[..] == CountProbes(before, i + 1);
    }

    /** Update the counters of the flow in slot i. */
    method Update(i: nat, p: Pkt)
      requires Valid() && i < flowtab.Length
      modifies flowtab
      ensures View() == old(View()).(slots := old(flowtab[..])[i := UpdateEntry(old(flowtab[i]), p)])
    {
      flowtab[i] := UpdateEntry(flowtab[i], p);
      assert flowtab[..] == old(flowtab[..])[i := UpdateEntry(old(flowtab[i]), p)];
    }

    /** Start a flow in the free slot i. */
    method Insert(i: nat, p: Pkt)
      requires Valid() && i < flowtab.Length
      modifies this, flowtab
      ensures View() == old(View()).(slots := old(flowtab[..])[i := InsertEntry(old(flowtab[i]), p)],
                                     nflows := CountOne(old(nflows)))
    {
      flowtab[i] := InsertEntry(flowtab[i], p);
      nflows := CountOne(nflows);
      assert flowtab[..] == old(flowtab[..])[i := InsertEntry(old(flowtab[i]), p)];
    }

    /** The probe loop of flowmon_hook: stop at the first slot that matches or is free. */
    method Search(key: Key) returns (i: nat)
      requires Valid()
      modifies probes
      ensures i == FindTry(old(View()).slots, TableProbes(bits), Id(key), 0)
      ensures View() == old(View()).(probes := CountProbes(old(probes[..]), TriesMade(i)))
    {
      ghost var t, probe := View(), TableProbes(bits);
      i := 0;
      while i < PNA_TABLE_TRIES
        invariant 0 <= i <= PNA_TABLE_TRIES
        invariant View() == t.(probes := CountProbes(t.probes, i))
        invariant FindTry(t.slots, probe, Id(key), 0) == FindTry(t.slots, probe, Id(key), i)
      {
        var hash := TrySlot(Id(key), i, bits);
        CountTry(i, t.probes);
        if FlowkeyMatch(flowtab[hash].key, key) || FlowkeyMatch(flowtab[hash].key, NULL_KEY) {
          return;
        }
        i := i + 1;
      }
    }

    method CountMiss()
      requires Valid()
      modifies this`nflowsMissed
      ensures View() == old(View()).(nflowsMissed := CountOne(old(nflowsMissed)))
    {
      nflowsMissed := CountOne(nflowsMissed);
    }

    /** flowmon_hook on the table it was given. */
    method RecordPacket(p: Pkt) returns (ret: int)
      requires Valid()
      modifies this, flowtab, probes
      ensures (View(), ret) == Record(old(View()), bits, p)
    {
      ghost var t := View();
      var i := Search(p.key);
      RecordBySearch(t, bits, p);
      if i == PNA_TABLE_TRIES {
        CountMiss();
        return -1;
      }
      var hash := TrySlot(Id(p.key), i, bits);
      if FlowkeyMatch(flowtab[hash].key, p.key) {
        Update(hash, p);
        return 0;
      }
      Insert(hash, p);
      return 1;
    }
  }

  function ZeroSlots(n: nat): seq<Slot> {
    seq(n, _ => ZERO_SLOT)
  }

  function EmptyTable(bits: nat): Table {
    Table(ZeroSlots(Pow2(bits)), false, false, 0, 0, 0, seq(PNA_TABLE_TRIES, _ => 0))
  }

  function Cleaned(t: Table): Table {
    t.(slots := ZeroSlots(|t.slots|), dirty := false, firstSec := 0, nflows := 0, nflowsMissed := 0)
  }
}
