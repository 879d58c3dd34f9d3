/** The slot array of a flow table represents a map from flows to entries. */
module TableMap {
  import opened Words
  import opened Probing
  import opened Flows
  import opened FlowTable

  /** A search for the flow ends at a slot that holds it. */
  ghost predicate Holds(slots: seq<Slot>, probe: ProbeSequence, id: FlowId)
    requires Within(probe, |slots|)
  {
    var r := FindTry(slots, probe, id, 0);
    r < PNA_TABLE_TRIES && Id(slots[probe(id, r)].key) == id
  }

  /** A slot is all zero, or it holds a flow of the map with exactly the map's entry. */
  predicate SlotFits(s: Slot, m: map<FlowId, Slot>) {
    s == ZERO_SLOT || (Live(s) && Id(s.key) in m && m[Id(s.key)] == s)
  }

  ghost predicate OneSlotEach(slots: seq<Slot>) {
    forall i, j :: 0 <= i < j < |slots| && Live(slots[i]) && Live(slots[j])
      ==> Id(slots[i].key) != Id(slots[j].key)
  }

  ghost predicate Refines(slots: seq<Slot>, probe: ProbeSequence, m: map<FlowId, Slot>) {
    && Within(probe, |slots|) && NULL_ID !in m
    && (forall i :: 0 <= i < |slots| ==> SlotFits(slots[i], m))
    && (forall id {:trigger Holds(slots, probe, id)} :: id in m ==> Holds(slots, probe, id))
    && OneSlotEach(slots)
  }

  /** The effect of recording a packet on the map. */
  function Recorded(m: map<FlowId, Slot>, p: Pkt): map<FlowId, Slot> {
    var id := Id(p.key);
    m[id := if id in m then UpdateEntry(m[id], p) else InsertEntry(ZERO_SLOT, p)]
  }

  /** The slots of all tries hold other flows. */
  ghost predicate AllTriesTaken(slots: seq<Slot>, probe: ProbeSequence, id: FlowId)
    requires Within(probe, |slots|)
  {
    forall i :: 0 <= i < 32 ==>
      var s := slots[probe(id, i)]; Live(s) && Id(s.key) != id
  }

  /** The search result tells, for a table that refines a map, whether the flow is in the map. */
  lemma SearchDecides(slots: seq<Slot>, probe: ProbeSequence, m: map<FlowId, Slot>, id: FlowId)
    requires Refines(slots, probe, m) && id != NULL_ID
    ensures var r := FindTry(slots, probe, id, 0);
      && (id in m <==> r < PNA_TABLE_TRIES && Id(slots[probe(id, r)].key) == id)
      && (id in m ==> m[id] == slots[probe(id, r)])
      && (id !in m && r < PNA_TABLE_TRIES ==> slots[probe(id, r)] == ZERO_SLOT)
  {
    var r := FindTry(slots, probe, id, 0);
    if r < PNA_TABLE_TRIES {
      assert SlotFits(slots[probe(id, r)], m);
    }
    if id in m {
      assert Holds(slots, probe, id);
    }
  }

  lemma SearchFailsIff(slots: seq<Slot>, probe: ProbeSequence, id: FlowId)
    requires Within(probe, |slots|)
    ensures FindTry(slots, probe, id, 0) == PNA_TABLE_TRIES <==> AllTriesTaken(slots, probe, id)
  {
  }

  /** Rewriting the slot a search of id ended at keeps every other flow where it is found. */
  lemma OthersStayFound(slots: seq<Slot>, probe: ProbeSequence, m: map<FlowId, Slot>, id: FlowId, s: Slot,
                        other: FlowId)
    requires Refines(slots, probe, m) && id != NULL_ID && other in m && other != id
    requires FindTry(slots, probe, id, 0) < PNA_TABLE_TRIES && Id(s.key) == id
    ensures Holds(slots[probe(id, FindTry(slots, probe, id, 0)) := s], probe, other)
  {
    var i := probe(id, FindTry(slots, probe, id, 0));
    assert Holds(slots, probe, other);
    var r := FindTry(slots, probe, other, 0);
    SameSearch(slots, slots[i := s], probe, other, 0, r);
  }

  /** A search depends only on the slots it visits. */
  lemma {:induction false} SameSearch(a: seq<Slot>, b: seq<Slot>, probe: ProbeSequence, id: FlowId, i: nat, r: nat)
    requires Within(probe, |a|) && |b| == |a| && i <= r < PNA_TABLE_TRIES
    requires FindTry(a, probe, id, i) == r
    requires forall j :: i <= j < r ==> Id(b[probe(id, j)].key) != id && Live(b[probe(id, j)])
    requires b[probe(id, r)] == a[probe(id, r)]
    ensures FindTry(b, probe, id, i) == r
    decreases r - i
  {
    if i < r {
      SameSearch(a, b, probe, id, i + 1, r);
    }
  }

  /** Writing the entry of id into the slot its search ended at. */
  lemma WriteRefines(slots: seq<Slot>, probe: ProbeSequence, m: map<FlowId, Slot>, s: Slot)
    requires Refines(slots, probe, m) && Live(s)
    requires FindTry(slots, probe, Id(s.key), 0) < PNA_TABLE_TRIES
    ensures var i := probe(Id(s.key), FindTry(slots, probe, Id(s.key), 0));
            Refines(slots[i := s], probe, m[Id(s.key) := s])
  {
    var id := Id(s.key);
    var r := FindTry(slots, probe, id, 0);
    var i := probe(id, r);
    var slots' := slots[i := s];
    SearchDecides(slots, probe, m, id);
    assert Live(slots[i]) ==> Id(slots[i].key) == id;
    forall k | 0 <= k < |slots| && k != i
      ensures Id(slots[k].key) != id
      ensures SlotFits(slots'[k], m[id := s])
    {
      assert SlotFits(slots[k], m);
      if id in m {
        assert Live(slots[i]);
      }
    }
    forall other | other in m[id := s]
      ensures Holds(slots', probe, other)
    {
      if other == id {
        SameSearchTo(slots, slots', probe, id, r);
      } else {
        OthersStayFound(slots, probe, m, id, s, other);
      }
    }
  }

  lemma SameSearchTo(a: seq<Slot>, b: seq<Slot>, probe: ProbeSequence, id: FlowId, r: nat)
    requires Within(probe, |a|) && |b| == |a| && r < PNA_TABLE_TRIES
    requires FindTry(a, probe, id, 0) == r
    requires Id(b[probe(id, r)].key) == id
    requires forall k :: 0 <= k < |b| && k != probe(id, r) ==> b[k] == a[k]
    ensures FindTry(b, probe, id, 0) == r
  {
    var c := a[probe(id, r) := b[probe(id, r)]];
    assert b == c;
    SearchFrom(a, b, probe, id, 0, r);
  }

  lemma {:induction false} SearchFrom(a: seq<Slot>, b: seq<Slot>, probe: ProbeSequence, id: FlowId, i: nat, r: nat)
    requires Within(probe, |a|) && |b| == |a| && i <= r < PNA_TABLE_TRIES
    requires FindTry(a, probe, id, i) == r
    requires Id(b[probe(id, r)].key) == id
    requires forall k :: 0 <= k < |b| && k != probe(id, r) ==> b[k] == a[k]
    ensures FindTry(b, probe, id, i) == r
    decreases r - i
  {
    if i < r {
      SearchFrom(a, b, probe, id, i + 1, r);
    }
  }

  /**
   * Recording a packet refines the map operation. The value returned is 0 exactly when the flow is
   * in the map, 1 exactly when it is not and some try meets a free slot, and -1 exactly when it is
   * not and all 32 tries meet other flows; only the binding of the packet's own flow changes. The
   * number of flows and of missed packets is kept.
   */
  lemma RecordRefines(t: Table, bits: nat, m: map<FlowId, Slot>, p: Pkt)
    requires WellFormed(t, bits) && Refines(t.slots, TableProbes(bits), m)
    requires Id(p.key) != NULL_ID && t.nflows == |m|
    ensures var (t', ret) := Record(t, bits, p);
      && (ret == 0 <==> Id(p.key) in m)
      && (ret == -1 <==> AllTriesTaken(t.slots, TableProbes(bits), Id(p.key)))
      && (ret == 1 <==> Id(p.key) !in m && !AllTriesTaken(t.slots, TableProbes(bits), Id(p.key)))
      && WellFormed(t', bits)
      && Refines(t'.slots, TableProbes(bits), if ret == -1 then m else Recorded(m, p))
      && t'.nflows == |if ret == -1 then m else Recorded(m, p)|
      && t'.nflowsMissed == (if ret == -1 then CountOne(t.nflowsMissed) else t.nflowsMissed)
      && t' == t.(slots := t'.slots, nflows := t'.nflows, nflowsMissed := t'.nflowsMissed, probes := t'.probes)
  {
    var probe, id := TableProbes(bits), Id(p.key);
    var r := FindTry(t.slots, probe, id, 0);
    RecordBySearch(t, bits, p);
    SearchDecides(t.slots, probe, m, id);
    SearchFailsIff(t.slots, probe, id);
    if r < PNA_TABLE_TRIES {
      var i := probe(id, r);
      assert i == TrySlot(id, r, bits);
      var s := if id in m then UpdateEntry(m[id], p) else InsertEntry(ZERO_SLOT, p);
      WriteRefines(t.slots, probe, m, s);
      assert t.slots[i] == if id in m then m[id] else ZERO_SLOT;
      NoMoreFlowsThanSlots(t.slots[i := s], probe, m[id := s]);
      TableSizeFits(bits);
      CountGrows(m, id, s);
    }
  }

  lemma CountSmall(n: u32, n': nat)
    requires n' == n + 1 <= 0x4000_0000
    ensures CountOne(n) == n'
  {
  }

  lemma CountGrows(m: map<FlowId, Slot>, id: FlowId, s: Slot)
    requires |m[id := s]| <= 0x4000_0000
    ensures |m[id := s]| == if id in m then |m| else CountOne(|m|)
  {
    var m' := m[id := s];
    assert |m'| == |m'.Keys| && |m| == |m.Keys|;
    if id in m {
      assert m'.Keys == m.Keys;
    } else {
      assert m'.Keys == m.Keys + {id};
      CountSmall(|m|, |m'|);
    }
  }

  lemma TableSizeFits(bits: nat)
    requires bits <= 30
    ensures Pow2(bits) <= 0x4000_0000
  {
    Pow2Values();
    Pow2Monotone(bits, 30);
    assert Pow2(32) == 4 * Pow2(30);
  }

  /** The flows found in the first k slots. */
  ghost function LiveIds(slots: seq<Slot>, k: nat): (ids: set<FlowId>)
    requires k <= |slots|
    ensures |ids| <= k
    ensures forall i :: 0 <= i < k && Live(slots[i]) ==> Id(slots[i].key) in ids
  {
    if k == 0 then {} else LiveIds(slots, k - 1) + {Id(slots[k - 1].key)}
  }

  lemma NoMoreFlowsThanSlots(slots: seq<Slot>, probe: ProbeSequence, m: map<FlowId, Slot>)
    requires Refines(slots, probe, m)
    ensures |m| <= |slots|
  {
    var ids := LiveIds(slots, |slots|);
    forall id | id in m.Keys
      ensures id in ids
    {
      assert Holds(slots, probe, id);
      assert Live(slots[probe(id, FindTry(slots, probe, id, 0))]);
    }
    assert m.Keys <= ids;
    assert |m.Keys| <= |ids| by {
      assert |ids - m.Keys| == |ids| - |m.Keys|;
    }
  }

  /** An empty table represents the empty map. */
  lemma EmptyRefines(bits: nat)
    requires 1 <= bits <= 30
    ensures Refines(ZeroSlots(Pow2(bits)), TableProbes(bits), map[])
  {
  }

  /** The map is determined by the slots. */
  lemma MapDetermined(slots: seq<Slot>, probe: ProbeSequence, m: map<FlowId, Slot>, m': map<FlowId, Slot>)
    requires Refines(slots, probe, m) && Refines(slots, probe, m')
    ensures m == m'
  {
    forall id
      ensures id in m <==> id in m'
      ensures id in m ==> m[id] == m'[id]
    {
      if id in m || id in m' {
        assert id in m ==> Holds(slots, probe, id);
        assert id in m' ==> Holds(slots, probe, id);
        SearchDecides(slots, probe, m, id);
        SearchDecides(slots, probe, m', id);
      }
    }
  }

  /** In a table of at most 2^5 slots a flow is turned away only when every slot is taken. */
  lemma SmallTableMissesOnlyWhenFull(slots: seq<Slot>, bits: nat, id: FlowId)
    requires 1 <= bits <= 5 && |slots| == Pow2(bits)
    requires AllTriesTaken(slots, TableProbes(bits), id)
    ensures forall i :: 0 <= i < |slots| ==> Live(slots[i])
  {
    forall i | 0 <= i < |slots|
      ensures Live(slots[i])
    {
      TriesReachAll(FlowHash(id, bits), i, bits);
      var k :| 0 <= k < PNA_TABLE_TRIES && ProbeSlot(FlowHash(id, bits), k, bits) == i;
      assert TableProbes(bits)(id, k) == i;
    }
  }
}
