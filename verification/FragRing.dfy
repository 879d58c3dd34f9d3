/** The fragment table: the ports of the latest fragmented datagrams, by fingerprint. */
module FragRing {
  import opened Words
  import opened Hashing

  const PNA_MAXFRAGS: nat := 512

  datatype Frag = Frag(fingerprint: u32, srcPort: u16, dstPort: u16)

  datatype Option<T> = None | Some(value: T)

  const UNUSED: Frag := Frag(0, 0, 0)

  /** The contents of the fragment table, and the index it uses next. */
  datatype Ring = Ring(table: seq<Frag>, next: nat)

  predicate ValidRing(r: Ring) {
    |r.table| == PNA_MAXFRAGS && r.next < PNA_MAXFRAGS
  }

  function EmptyRing(): Ring {
    Ring(seq(PNA_MAXFRAGS, _ => UNUSED), 0)
  }

  /** The first entry from i on with the fingerprint. */
  function FindFrag(table: seq<Frag>, fingerprint: u32, i: nat): Option<Frag>
    requires i <= |table|
    decreases |table| - i
  {
    if i == |table| then None
    else if table[i].fingerprint == fingerprint then Some(table[i])
    else FindFrag(table, fingerprint, i + 1)
  }

  function GetFrag(r: Ring, fingerprint: u32): Option<Frag> {
    FindFrag(r.table, fingerprint, 0)
  }

  /** Insert if absent, at the next index. */
  function SetFrag(r: Ring, f: Frag): (r': Ring)
    requires ValidRing(r)
    ensures ValidRing(r')
  {
    if GetFrag(r, f.fingerprint).Some? then r
    else Ring(r.table[r.next := f], (r.next + 1) % PNA_MAXFRAGS)
  }

  class FragTable {
    const table: array<Frag>
    var nextIdx: nat

    ghost predicate Valid()
      reads this
    {
      table.Length == PNA_MAXFRAGS && nextIdx < PNA_MAXFRAGS
    }

    ghost function View(): Ring
      reads this, table
    {
      Ring(table[..], nextIdx)
    }

    constructor ()
      ensures Valid() && View() == EmptyRing() && fresh(table)
    {
      table := new Frag[PNA_MAXFRAGS](_ => UNUSED);
      nextIdx := 0;
    }

    /** pna_get_frag. */
    method Get(header: FragHeader) returns (entry: Option<Frag>)
      requires Valid()
      ensures entry == GetFrag(View(), Fingerprint(header))
    {
      var fingerprint := Fingerprint(header);
      var i := 0;
      while i < table.Length
        invariant 0 <= i <= table.Length
        invariant FindFrag(table[..], fingerprint, 0) == FindFrag(table[..], fingerprint, i)
      {
        if table[i].fingerprint == fingerprint {
          return Some(table[i]);
        }
        i := i + 1;
      }
      return None;
    }

    /** pna_set_frag. */
    method Set(header: FragHeader, srcPort: u16, dstPort: u16)
      requires Valid()
      modifies this, table
      ensures Valid() && View() == SetFrag(old(View()), Frag(Fingerprint(header), srcPort, dstPort))
    {
      var entry := Get(header);
      if entry.Some? {
        return;
      }
      var i := nextIdx;
      nextIdx := (nextIdx + 1) % PNA_MAXFRAGS;
      Fill(i, Frag(Fingerprint(header), srcPort, dstPort));
    }

    method Fill(i: nat, f: Frag)
      requires i < table.Length
      modifies table
      ensures table[..] == old(table[..])[i := f]
    {
      table[i] := f;
    }
  }

  // ---- The queue that the ring implements ----

  /** The at most 512 latest insertions, the oldest first. */
  function Window(ins: seq<Frag>): seq<Frag> {
    if |ins| <= 512 then ins else ins[|ins| - 512..]
  }

  ghost predicate Has(q: seq<Frag>, fingerprint: u32) {
    exists i :: 0 <= i < |q| && q[i].fingerprint == fingerprint
  }

  /** A fingerprint counts as present if it is in the window; 0 also while there are unused entries. */
  ghost predicate Present(ins: seq<Frag>, fingerprint: u32) {
    Has(Window(ins), fingerprint) || (fingerprint == 0 && |ins| < 512)
  }

  /** The insertions that some calls of pna_set_frag make. */
  ghost function Inserted(calls: seq<Frag>): seq<Frag> {
    if calls == [] then []
    else
      var n := |calls| - 1;
      var ins := Inserted(calls[..n]);
      if Present(ins, calls[n].fingerprint) then ins else ins + [calls[n]]
  }

  /** The ring after some calls. */
  function RingAfter(calls: seq<Frag>): (r: Ring)
    ensures ValidRing(r)
  {
    if calls == [] then EmptyRing() else SetFrag(RingAfter(calls[..|calls| - 1]), calls[|calls| - 1])
  }

  ghost predicate DistinctFingerprints(q: seq<Frag>) {
    forall i, j :: 0 <= i < j < |q| ==> q[i].fingerprint != q[j].fingerprint
  }

  /** Insertion i is in entry i mod 512; the entries not reached yet are unused. */
  ghost predicate Represents(r: Ring, ins: seq<Frag>) {
    && ValidRing(r)
    && r.next == |ins| % 512
    && (forall i :: 0 <= i < |ins| && i >= |ins| - 512 ==> r.table[i % 512] == ins[i])
    && (forall j :: |ins| <= j < 512 ==> r.table[j] == UNUSED)
    && DistinctFingerprints(Window(ins))
  }

  /** Every entry of the ring is one of the window's, or unused. */
  lemma EntryOrigin(r: Ring, ins: seq<Frag>, j: nat)
    requires Represents(r, ins) && j < 512
    ensures j < |ins| ==> exists i :: 0 <= i < |Window(ins)| && Window(ins)[i] == r.table[j]
    ensures j >= |ins| ==> r.table[j] == UNUSED
  {
    if j < |ins| {
      var n := |ins|;
      var i := if n <= 512 then j else n - 1 - (n - 1 - j) % 512;
      assert i % 512 == j && 0 <= i < n && i >= n - 512;
      assert r.table[i % 512] == ins[i];
      var w := if n <= 512 then i else i - (n - 512);
      assert Window(ins)[w] == ins[i];
    }
  }

  lemma {:induction false} FindFragFinds(table: seq<Frag>, fingerprint: u32, i: nat)
    requires i <= |table|
    ensures match FindFrag(table, fingerprint, i)
      case None => forall j :: i <= j < |table| ==> table[j].fingerprint != fingerprint
      case Some(f) => f.fingerprint == fingerprint && exists j :: i <= j < |table| && table[j] == f
    decreases |table| - i
  {
    if i < |table| && table[i].fingerprint != fingerprint {
      FindFragFinds(table, fingerprint, i + 1);
    }
  }

  /** A search of the ring is a search of the queue; unused entries answer for fingerprint 0. */
  lemma GetIsQueueLookup(r: Ring, ins: seq<Frag>, fingerprint: u32)
    requires Represents(r, ins)
    ensures GetFrag(r, fingerprint).Some? <==> Present(ins, fingerprint)
    ensures fingerprint != 0 || |ins| >= 512
      ==> forall i :: 0 <= i < |Window(ins)| && Window(ins)[i].fingerprint == fingerprint
            ==> GetFrag(r, fingerprint) == Some(Window(ins)[i])
  {
    FindFragFinds(r.table, fingerprint, 0);
    if GetFrag(r, fingerprint).Some? {
      var j :| 0 <= j < |r.table| && r.table[j] == GetFrag(r, fingerprint).value;
      EntryOrigin(r, ins, j);
    }
    forall i | 0 <= i < |Window(ins)| && Window(ins)[i].fingerprint == fingerprint
      ensures GetFrag(r, fingerprint).Some?
    {
      WindowInRing(r, ins, i);
    }
    if fingerprint == 0 && |ins| < 512 {
      assert r.table[|ins|] == UNUSED;
    }
  }

  lemma WindowInRing(r: Ring, ins: seq<Frag>, i: nat)
    requires Represents(r, ins) && i < |Window(ins)|
    ensures exists j :: 0 <= j < |r.table| && r.table[j] == Window(ins)[i]
  {
    var k := if |ins| <= 512 then i else i + (|ins| - 512);
    assert r.table[k % 512] == ins[k];
  }

  lemma SetRepresents(r: Ring, ins: seq<Frag>, f: Frag)
    requires Represents(r, ins)
    ensures Represents(SetFrag(r, f), if Present(ins, f.fingerprint) then ins else ins + [f])
  {
    GetIsQueueLookup(r, ins, f.fingerprint);
    if !Present(ins, f.fingerprint) {
      InsertRepresents(r, ins, f);
      WindowGrows(ins, f);
    }
  }

  lemma InsertRepresents(r: Ring, ins: seq<Frag>, f: Frag)
    requires Represents(r, ins)
    ensures var r', ins' := Ring(r.table[r.next := f], (r.next + 1) % 512), ins + [f];
      && r'.next == |ins'| % 512
      && (forall i :: 0 <= i < |ins'| && i >= |ins'| - 512 ==> r'.table[i % 512] == ins'[i])
      && (forall j :: |ins'| <= j < 512 ==> r'.table[j] == UNUSED)
  {
    var ins' := ins + [f];
    forall i | 0 <= i < |ins'| && i >= |ins'| - 512
      ensures r.table[r.next := f][i % 512] == ins'[i]
    {
      if i < |ins| {
        assert i % 512 != |ins| % 512;
      }
    }
  }

  lemma WindowGrows(ins: seq<Frag>, f: Frag)
    requires DistinctFingerprints(Window(ins)) && !Has(Window(ins), f.fingerprint)
    ensures DistinctFingerprints(Window(ins + [f]))
  {
    var w := Window(ins);
    assert Window(ins + [f]) == if |ins| < 512 then w + [f] else w[1..] + [f];
  }

  /**
   * The ring is a queue of the 512 latest insertions: after any calls its entries are exactly
   * those, with distinct fingerprints, and the next index is that of the oldest once it is full.
   */
  lemma {:induction false} RingIsQueue(calls: seq<Frag>)
    ensures Represents(RingAfter(calls), Inserted(calls))
    ensures |Inserted(calls)| >= 512
      ==> RingAfter(calls).table[RingAfter(calls).next] == Window(Inserted(calls))[0]
    decreases |calls|
  {
    if calls != [] {
      var n := |calls| - 1;
      RingIsQueue(calls[..n]);
      SetRepresents(RingAfter(calls[..n]), Inserted(calls[..n]), calls[n]);
    }
    OldestNext(RingAfter(calls), Inserted(calls));
  }

  lemma OldestNext(r: Ring, ins: seq<Frag>)
    requires Represents(r, ins)
    ensures |ins| >= 512 ==> r.table[r.next] == Window(ins)[0]
  {
    if |ins| >= 512 {
      var i := |ins| - 512;
      assert i % 512 == |ins| % 512;
      assert r.table[i % 512] == ins[i];
    }
  }

  /** Later calls never take an insertion back. */
  lemma {:induction false} InsertedGrows(calls: seq<Frag>, later: seq<Frag>)
    ensures Inserted(calls) <= Inserted(calls + later)
    decreases |later|
  {
    if later == [] {
      assert calls + later == calls;
    } else {
      var n := |later| - 1;
      InsertedGrows(calls, later[..n]);
      assert (calls + later)[..|calls + later| - 1] == calls + later[..n];
    }
  }

  /** The insertions that the later calls make. */
  ghost function NewInsertions(calls: seq<Frag>, later: seq<Frag>): nat {
    InsertedGrows(calls, later);
    |Inserted(calls + later)| - |Inserted(calls)|
  }

  /** An inserted fragment is found until 512 later insertions have been made. */
  lemma FoundUntilEvicted(calls: seq<Frag>, f: Frag, later: seq<Frag>)
    requires !Present(Inserted(calls), f.fingerprint)
    requires NewInsertions(calls + [f], later) < 512
    ensures GetFrag(RingAfter(calls + [f] + later), f.fingerprint) == Some(f)
  {
    var all := calls + [f] + later;
    var ins, a := Inserted(all), |Inserted(calls)|;
    assert (calls + [f])[..|calls|] == calls;
    InsertedGrows(calls + [f], later);
    assert ins[a] == f;
    RingIsQueue(all);
    GetIsQueueLookup(RingAfter(all), ins, f.fingerprint);
    var w := if |ins| <= 512 then a else a - (|ins| - 512);
    assert Window(ins)[w] == f;
  }

  /** The 512th later insertion evicts it, unless a later call brings the fingerprint again. */
  lemma GoneOnceEvicted(calls: seq<Frag>, f: Frag, later: seq<Frag>)
    requires !Present(Inserted(calls), f.fingerprint)
    requires forall i :: 0 <= i < |later| ==> later[i].fingerprint != f.fingerprint
    requires NewInsertions(calls + [f], later) >= 512
    ensures GetFrag(RingAfter(calls + [f] + later), f.fingerprint) == None
  {
    var all := calls + [f] + later;
    var ins := Inserted(all);
    RingIsQueue(all);
    GetIsQueueLookup(RingAfter(all), ins, f.fingerprint);
    LaterInsertions(calls + [f], later);
    NotInWindow(ins, |Inserted(calls + [f])|, f.fingerprint);
  }

  lemma NotInWindow(ins: seq<Frag>, a: nat, fingerprint: u32)
    requires |ins| >= a + 512
    requires forall i :: a <= i < |ins| ==> ins[i].fingerprint != fingerprint
    ensures !Has(Window(ins), fingerprint)
  {
    var w := ins[|ins| - 512..];
    forall i | 0 <= i < |w|
      ensures w[i].fingerprint != fingerprint
    {
      assert w[i] == ins[|ins| - 512 + i];
    }
    assert |ins| == 512 ==> w == ins;
  }

  /** What the later calls insert comes from the later calls. */
  lemma {:induction false} LaterInsertions(calls: seq<Frag>, later: seq<Frag>)
    ensures |Inserted(calls)| <= |Inserted(calls + later)|
    ensures forall i :: |Inserted(calls)| <= i < |Inserted(calls + later)| ==> Inserted(calls + later)[i] in later
    decreases |later|
  {
    if later == [] {
      assert calls + later == calls;
    } else {
      var n := |later| - 1;
      LaterInsertions(calls, later[..n]);
      assert (calls + later)[..|calls + later| - 1] == calls + later[..n];
    }
  }

  // ---- Where the first fragment's ports are not the ones found ----

  lemma {:induction false} FindFragSkips(table: seq<Frag>, fingerprint: u32, i: nat, k: nat)
    requires i <= k < |table| && table[k].fingerprint == fingerprint
    requires forall j :: i <= j < k ==> table[j].fingerprint != fingerprint
    ensures FindFrag(table, fingerprint, i) == Some(table[k])
    decreases k - i
  {
    if i < k {
      FindFragSkips(table, fingerprint, i + 1, k);
    }
  }

  /** A fragment's ports are found after its insertion exactly when no entry answered before with others. */
  lemma SetThenGet(r: Ring, f: Frag)
    requires ValidRing(r)
    ensures GetFrag(SetFrag(r, f), f.fingerprint) == Some(f)
        <==> GetFrag(r, f.fingerprint) in {None, Some(f)}
    ensures GetFrag(r, f.fingerprint).Some? ==> GetFrag(SetFrag(r, f), f.fingerprint) == GetFrag(r, f.fingerprint)
  {
    FindFragFinds(r.table, f.fingerprint, 0);
    if GetFrag(r, f.fingerprint).None? {
      FindFragSkips(r.table[r.next := f], f.fingerprint, 0, r.next);
    }
  }

  /** An insertion answers for no other fingerprint. */
  lemma SetAnswersOnlyItself(r: Ring, f: Frag, fingerprint: u32)
    requires ValidRing(r) && f.fingerprint != fingerprint && GetFrag(r, fingerprint) == None
    ensures GetFrag(SetFrag(r, f), fingerprint) == None
  {
    FindFragFinds(r.table, fingerprint, 0);
    FindFragFinds(SetFrag(r, f).table, fingerprint, 0);
  }

  /** While entries are unused, a header with fingerprint 0 finds one of them, and so ports 0 and 0. */
  lemma ZeroFindsUnused(calls: seq<Frag>)
    requires |Inserted(calls)| < 512
    ensures GetFrag(RingAfter(calls), 0) == Some(UNUSED)
  {
    var r, ins := RingAfter(calls), Inserted(calls);
    RingIsQueue(calls);
    NonzeroInserted(calls);
    forall j | 0 <= j < |ins|
      ensures r.table[j].fingerprint != 0
    {
      UnwrappedEntry(r, ins, j);
    }
    assert r.table[|ins|] == UNUSED;
    FindFragSkips(r.table, 0, 0, |ins|);
  }

  lemma UnwrappedEntry(r: Ring, ins: seq<Frag>, j: nat)
    requires Represents(r, ins) && j < |ins| <= 512
    ensures r.table[j] == ins[j]
  {
    assert j % 512 == j;
    assert r.table[j % 512] == ins[j];
  }

  lemma {:induction false} NonzeroInserted(calls: seq<Frag>)
    requires |Inserted(calls)| <= 512
    ensures forall i :: 0 <= i < |Inserted(calls)| ==> Inserted(calls)[i].fingerprint != 0
    decreases |calls|
  {
    if calls != [] {
      NonzeroInserted(calls[..|calls| - 1]);
    }
  }

  /**
   * Every destination, protocol and identification has a source whose datagrams meet this: their
   * first fragment is not inserted, and the later ones get ports 0 and 0 instead of the datagram's.
   */
  lemma ZeroDatagramLosesPorts(calls: seq<Frag>, h: FragHeader, src: u16, dst: u16)
    requires |Inserted(calls)| < 512
    ensures var z := h.(src := ZeroSource(h));
      && Fingerprint(z) == 0
      && SetFrag(RingAfter(calls), Frag(Fingerprint(z), src, dst)) == RingAfter(calls)
      && GetFrag(RingAfter(calls), Fingerprint(z)) == Some(Frag(0, 0, 0))
  {
    ZeroFingerprint(h);
    ZeroFindsUnused(calls);
  }

  /** A datagram that answers another under the same identification is given the other's ports. */
  lemma OppositeDatagramMixedUp(r: Ring, h: FragHeader, src: u16, dst: u16, src': u16, dst': u16)
    requires ValidRing(r) && GetFrag(r, Fingerprint(h)) == None
    ensures var back := h.(src := h.dst, dst := h.src);
      var r1 := SetFrag(r, Frag(Fingerprint(h), src, dst));
      var r2 := SetFrag(r1, Frag(Fingerprint(back), src', dst'));
      GetFrag(r2, Fingerprint(back)) == Some(Frag(Fingerprint(h), src, dst))
  {
    OppositeDirectionsCollide(h);
    SetThenGet(r, Frag(Fingerprint(h), src, dst));
    SetThenGet(SetFrag(r, Frag(Fingerprint(h), src, dst)), Frag(Fingerprint(h), src', dst'));
  }
}
