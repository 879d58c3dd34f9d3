/** Writing the active entries of a flow table to a log file through a fixed buffer. */
module DumpTable {
  import opened Words
  import opened Flows
  import opened Packing

  const BUF_SIZE: nat := 1024 * 1024
  const HEADER_SIZE: nat := 16
  const ENTRY_SIZE: nat := 48
  const SLOT_SIZE: nat := 56

  /** A file open for writing; positions beyond the end leave a hole of zero bytes. */
  class OutFile {
    var content: seq<u8>
    var offset: nat

    constructor (content: seq<u8>)
      ensures this.content == content && offset == 0
    {
      this.content, offset := content, 0;
    }

    method Seek(pos: nat)
      modifies this`offset
      ensures offset == pos
    {
      offset := pos;
    }

    method Write(bs: seq<u8>)
      modifies this
      ensures content == Overwrite(old(content), old(offset), bs)
      ensures offset == old(offset) + |bs|
    {
      content := Overwrite(content, offset, bs);
      offset := offset + |bs|;
    }
  }

  function Zeros(n: nat): seq<u8> {
    seq(n, _ => 0)
  }

  function Overwrite(content: seq<u8>, pos: nat, bs: seq<u8>): seq<u8> {
    if bs == [] then content
    else
      (if pos <= |content| then content[..pos] else content + Zeros(pos - |content|))
      + bs + From(content, pos + |bs|)
  }

  /** What a file holds from a position on. */
  function From(content: seq<u8>, pos: nat): seq<u8> {
    if pos <= |content| then content[pos..] else []
  }

  // The field widths of struct pna_log_entry and struct pna_log_hdr.
  const ENTRY_WIDTHS: seq<nat> := [4, 4, 2, 2, 2, 2, 4, 4, 4, 4, 2, 2, 4, 4, 1, 1, 1, 1]
  const HEADER_WIDTHS: seq<nat> := [1, 1, 1, 1, 4, 4, 4]

  lemma RecordSizes()
    ensures |ENTRY_WIDTHS| == 18 && Size(ENTRY_WIDTHS, 18) == ENTRY_SIZE
    ensures |HEADER_WIDTHS| == 7 && Size(HEADER_WIDTHS, 7) == HEADER_SIZE
  {
    assert Size(ENTRY_WIDTHS, 6) == 16;
    assert Size(ENTRY_WIDTHS, 12) == 36;
    assert Size(HEADER_WIDTHS, 4) == 4;
  }

  /** The fields of a log entry, in the order in which they are assigned. */
  function EntryValues(s: Slot): (vs: seq<nat>)
    ensures |vs| == 18
  {
    [s.key.localIp, s.key.remoteIp, s.key.localPort, s.key.remotePort,
     s.key.localDomain, s.key.remoteDomain,
     s.data.packets.outbound, s.data.packets.inbound, s.data.bytes.outbound, s.data.bytes.inbound,
     s.data.flags.outbound, s.data.flags.inbound, s.data.firstTstamp, s.data.lastTstamp,
     s.key.l4Protocol, s.data.firstDir % 0x100, 0, 0]
  }

  function HeaderValues(start: u32, end: u32, size: u32): (vs: seq<nat>)
    ensures |vs| == 7
  {
    ['P' as int, 'N' as int, 'A' as int, 2, start, end, size]
  }

  lemma ValuesFit(s: Slot, start: u32, end: u32, size: u32)
    ensures Fits(ENTRY_WIDTHS, EntryValues(s))
    ensures Fits(HEADER_WIDTHS, HeaderValues(start, end, size))
  {
    assert Pow256(1) == 0x100 && Pow256(2) == 0x1_0000;
    assert Pow256(4) == 0x1_0000_0000;
  }

  function EntryBytes(s: Slot): (bs: seq<u8>)
    ensures |bs| == ENTRY_SIZE
  {
    RecordSizes();
    Pack(ENTRY_WIDTHS, EntryValues(s), 18)
  }

  function HeaderBytes(start: u32, end: u32, size: u32): (bs: seq<u8>)
    ensures |bs| == HEADER_SIZE
  {
    RecordSizes();
    Pack(HEADER_WIDTHS, HeaderValues(start, end, size), 7)
  }

  /** The entries that a dump writes: those whose 20-byte key is not all zero. */
  predicate Active(s: Slot) {
    s.key != NULL_KEY
  }

  function Occupied(slots: seq<Slot>): (es: seq<Slot>)
    ensures |es| <= |slots|
  {
    if slots == [] then []
    else
      var n := |slots| - 1;
      Occupied(slots[..n]) + (if Active(slots[n]) then [slots[n]] else [])
  }

  /** The concatenated records of some entries. */
  function Records(es: seq<Slot>): (bs: seq<u8>)
    ensures |bs| == ENTRY_SIZE * |es|
  {
    if es == [] then [] else Records(es[..|es| - 1]) + EntryBytes(es[|es| - 1])
  }

  /** The number of slots a dump visits: the byte size of the table passes through 32 bits. */
  function DumpLimit(bits: nat): nat {
    Wrap32(Pow2(bits) * SLOT_SIZE) / SLOT_SIZE
  }

  /** What a dump of the given slots leaves in a file that held something before. */
  function Dumped(before: seq<u8>, slots: seq<Slot>, start: u32, end: u32): seq<u8> {
    var es := Occupied(slots);
    Overwrite(Overwrite(before, HEADER_SIZE, Records(es)), 0, HeaderBytes(start, end, Wrap32(|es| * ENTRY_SIZE)))
  }

  /** Store one field of a record behind what the buffer holds already. */
  method Store(buf: array<u8>, at: nat, v: nat, w: nat)
    requires at + w <= buf.Length
    modifies buf
    ensures buf[..at + w] == old(buf[..at]) + LittleEndian(v, w)
  {
    var i, rest := 0, v;
    while i < w
      invariant 0 <= i <= w
      invariant buf[..at] == old(buf[..at])
      invariant buf[at..at + i] + LittleEndian(rest, w - i) == LittleEndian(v, w)
    {
      ghost var done := buf[at..at + i];
      buf[at + i] := rest % 0x100;
      assert buf[at..at + i] == done;
      assert buf[at..at + i + 1] == done + [rest % 0x100];
      assert LittleEndian(rest, w - i) == [rest % 0x100] + LittleEndian(rest / 0x100, w - i - 1);
      i, rest := i + 1, rest / 0x100;
    }
    assert buf[..at + w] == buf[..at] + buf[at..at + w];
  }

  /** Store field n of a record whose first n fields are in the buffer from base on. */
  method StoreField(buf: array<u8>, at: nat, v: nat, w: nat,
                    ghost base: seq<u8>, ghost vs: seq<nat>, ghost n: nat)
    requires |vs| == 18 && n < 18 && vs[n] == v && ENTRY_WIDTHS[n] == w
    requires at + w <= buf.Length && buf[..at] == base + Pack(ENTRY_WIDTHS, vs, n)
    modifies buf
    ensures buf[..at + w] == base + Pack(ENTRY_WIDTHS, vs, n + 1)
  {
    Store(buf, at, v, w);
    assert base + Pack(ENTRY_WIDTHS, vs, n) + LittleEndian(v, w)
        == base + (Pack(ENTRY_WIDTHS, vs, n) + LittleEndian(v, w));
  }

  /** The six address fields of an entry. */
  method StoreAddresses(buf: array<u8>, at: nat, flow: Slot, ghost base: seq<u8>)
    requires at + 16 <= buf.Length && buf[..at] == base + Pack(ENTRY_WIDTHS, EntryValues(flow), 0)
    modifies buf
    ensures buf[..at + 16] == base + Pack(ENTRY_WIDTHS, EntryValues(flow), 6)
  {
    ghost var vs := EntryValues(flow);
    assert ENTRY_WIDTHS[0..6] == [4, 4, 2, 2, 2, 2];
    StoreField(buf, at, flow.key.localIp, 4, base, vs, 0);
    StoreField(buf, at + 4, flow.key.remoteIp, 4, base, vs, 1);
    StoreField(buf, at + 8, flow.key.localPort, 2, base, vs, 2);
    StoreField(buf, at + 10, flow.key.remotePort, 2, base, vs, 3);
    StoreField(buf, at + 12, flow.key.localDomain, 2, base, vs, 4);
    StoreField(buf, at + 14, flow.key.remoteDomain, 2, base, vs, 5);
  }

  /** The packets and bytes of both directions. */
  method StoreCounters(buf: array<u8>, at: nat, flow: Slot, ghost base: seq<u8>)
    requires at + 16 <= buf.Length && buf[..at] == base + Pack(ENTRY_WIDTHS, EntryValues(flow), 6)
    modifies buf
    ensures buf[..at + 16] == base + Pack(ENTRY_WIDTHS, EntryValues(flow), 10)
  {
    ghost var vs := EntryValues(flow);
    assert ENTRY_WIDTHS[6..10] == [4, 4, 4, 4];
    StoreField(buf, at, flow.data.packets.At(PNA_DIR_OUTBOUND), 4, base, vs, 6);
    StoreField(buf, at + 4, flow.data.packets.At(PNA_DIR_INBOUND), 4, base, vs, 7);
    StoreField(buf, at + 8, flow.data.bytes.At(PNA_DIR_OUTBOUND), 4, base, vs, 8);
    StoreField(buf, at + 12, flow.data.bytes.At(PNA_DIR_INBOUND), 4, base, vs, 9);
  }

  /** The flags of both directions, and the times. */
  method StoreFlagsAndTimes(buf: array<u8>, at: nat, flow: Slot, ghost base: seq<u8>)
    requires at + 12 <= buf.Length && buf[..at] == base + Pack(ENTRY_WIDTHS, EntryValues(flow), 10)
    modifies buf
    ensures buf[..at + 12] == base + Pack(ENTRY_WIDTHS, EntryValues(flow), 14)
  {
    ghost var vs := EntryValues(flow);
    assert ENTRY_WIDTHS[10..14] == [2, 2, 4, 4];
    StoreField(buf, at, flow.data.flags.At(PNA_DIR_OUTBOUND), 2, base, vs, 10);
    StoreField(buf, at + 2, flow.data.flags.At(PNA_DIR_INBOUND), 2, base, vs, 11);
    StoreField(buf, at + 4, flow.data.firstTstamp, 4, base, vs, 12);
    StoreField(buf, at + 8, flow.data.lastTstamp, 4, base, vs, 13);
  }

  /** The protocol, the first direction and the padding. */
  method StoreRest(buf: array<u8>, at: nat, flow: Slot, ghost base: seq<u8>)
    requires at + 4 <= buf.Length && buf[..at] == base + Pack(ENTRY_WIDTHS, EntryValues(flow), 14)
    modifies buf
    ensures buf[..at + 4] == base + Pack(ENTRY_WIDTHS, EntryValues(flow), 18)
  {
    ghost var vs := EntryValues(flow);
    assert ENTRY_WIDTHS[14..18] == [1, 1, 1, 1];
    StoreField(buf, at, flow.key.l4Protocol, 1, base, vs, 14);
    StoreField(buf, at + 1, flow.data.firstDir % 0x100, 1, base, vs, 15);
    StoreField(buf, at + 2, 0, 1, base, vs, 16);
    StoreField(buf, at + 3, 0, 1, base, vs, 17);
  }

  /** Copy a flow entry into the buffer, field by field. */
  method StoreEntry(buf: array<u8>, at: nat, flow: Slot)
    requires at + ENTRY_SIZE <= buf.Length
    modifies buf
    ensures buf[..at + ENTRY_SIZE] == old(buf[..at]) + EntryBytes(flow)
  {
    ghost var base := buf[..at];
    RecordSizes();
    assert base + Pack(ENTRY_WIDTHS, EntryValues(flow), 0) == base;
    StoreAddresses(buf, at, flow, base);
    StoreCounters(buf, at + 16, flow, base);
    StoreFlagsAndTimes(buf, at + 32, flow, base);
    StoreRest(buf, at + 44, flow, base);
  }

  /** buf_flush: write out the first bufIdx bytes and start over at 0. */
  method Flush(file: OutFile, buf: array<u8>, bufIdx: nat) returns (idx: nat)
    requires bufIdx <= buf.Length
    modifies file
    ensures idx == 0
    ensures file.content == Overwrite(old(file.content), old(file.offset), buf[..bufIdx])
    ensures file.offset == old(file.offset) + bufIdx
  {
    file.Write(buf[..bufIdx]);
    return 0;
  }

  lemma ConsecutiveWrites(content: seq<u8>, pos: nat, a: seq<u8>, b: seq<u8>)
    ensures Overwrite(Overwrite(content, pos, a), pos + |a|, b) == Overwrite(content, pos, a + b)
  {
    if a == [] {
      assert a + b == b;
    } else if b == [] {
      assert a + b == a;
    } else {
      var c := Overwrite(content, pos, a);
      assert c[..pos + |a|] == (if pos <= |content| then content[..pos] else content + Zeros(pos - |content|)) + a;
    }
  }

  lemma OccupiedStep(slots: seq<Slot>, n: nat)
    requires n < |slots|
    ensures Active(slots[n]) <==> slots[n].key != Key(0, 0, 0, 0, 0, 0, 0, 0)
    ensures Occupied(slots[..n + 1])
         == Occupied(slots[..n]) + (if Active(slots[n]) then [slots[n]] else [])
    ensures Records(Occupied(slots[..n + 1]))
         == Records(Occupied(slots[..n])) + (if Active(slots[n]) then EntryBytes(slots[n]) else [])
  {
    assert slots[..n + 1][..n] == slots[..n];
    var es := Occupied(slots[..n]);
    assert (es + [slots[n]])[..|es|] == es && es + [] == es;
    assert Records(es) + [] == Records(es);
  }

  /** The file and the buffer together hold the records written so far. */
  ghost predicate Progress(content: seq<u8>, offset: nat, before: seq<u8>, flushed: seq<u8>,
                           buffered: seq<u8>, written: seq<u8>) {
    && content == Overwrite(before, HEADER_SIZE, flushed)
    && offset == HEADER_SIZE + |flushed|
    && flushed + buffered == written
  }

  /** Empty the buffer into the file. */
  method FlushAll(file: OutFile, buf: array<u8>, bufIdx: nat, ghost before: seq<u8>, ghost flushed: seq<u8>,
                  ghost written: seq<u8>) returns (idx: nat)
    requires bufIdx <= buf.Length
    requires Progress(file.content, file.offset, before, flushed, buf[..bufIdx], written)
    modifies file
    ensures idx == 0 && Progress(file.content, file.offset, before, written, [], written)
  {
    ConsecutiveWrites(before, HEADER_SIZE, flushed, buf[..bufIdx]);
    idx := Flush(file, buf, bufIdx);
    assert written + [] == written;
  }

  /** The body of the loop for an active entry: buffer it, and flush if another would not fit. */
  method AppendEntry(file: OutFile, buf: array<u8>, bufIdx: nat, flow: Slot, ghost before: seq<u8>,
                     ghost flushed: seq<u8>, ghost written: seq<u8>)
    returns (idx: nat, ghost flushed': seq<u8>)
    requires buf.Length == BUF_SIZE && bufIdx + ENTRY_SIZE < BUF_SIZE
    requires Progress(file.content, file.offset, before, flushed, buf[..bufIdx], written)
    modifies file, buf
    ensures idx + ENTRY_SIZE < BUF_SIZE
    ensures Progress(file.content, file.offset, before, flushed', buf[..idx], written + EntryBytes(flow))
  {
    ghost var buffered := buf[..bufIdx];
    StoreEntry(buf, bufIdx, flow);
    idx, flushed' := bufIdx + ENTRY_SIZE, flushed;
    assert flushed + (buffered + EntryBytes(flow)) == written + EntryBytes(flow);
    if idx + ENTRY_SIZE >= BUF_SIZE {
      flushed' := written + EntryBytes(flow);
      idx := FlushAll(file, buf, idx, before, flushed, flushed');
      assert buf[..idx] == [];
    }
  }

  /** dump_table: the buffered writer leaves in the file exactly what unbuffered writing would. */
  method WriteTable(table: array<Slot>, file: OutFile, fileSize: u32, start: u32, end: u32)
    requires fileSize / SLOT_SIZE <= table.Length
    modifies file
    ensures file.content == Dumped(old(file.content), table[..fileSize / SLOT_SIZE], start, end)
  {
    ghost var before, slots := file.content, table[..];
    var buf := new u8[BUF_SIZE];
    var maxEntries := fileSize / SLOT_SIZE;
    file.Seek(HEADER_SIZE);
    var bufIdx: nat, nflows: u32 := 0, 0;
    ghost var flushed: seq<u8> := [];
    assert buf[..bufIdx] == [];
    var flowIdx := 0;
    while flowIdx < maxEntries
      invariant 0 <= flowIdx <= maxEntries && bufIdx + ENTRY_SIZE < BUF_SIZE
      invariant table[..] == slots
      invariant Progress(file.content, file.offset, before, flushed, buf[..bufIdx], Records(Occupied(slots[..flowIdx])))
      invariant nflows == Wrap32(|Occupied(slots[..flowIdx])|)
    {
      var flow := table[flowIdx];
      OccupiedStep(slots, flowIdx);
      if Active(flow) {
        WrapAdd(|Occupied(slots[..flowIdx])|, 1);
        nflows := Wrap32(nflows + 1);
        bufIdx, flushed :=
          AppendEntry(file, buf, bufIdx, flow, before, flushed, Records(Occupied(slots[..flowIdx])));
      }
      flowIdx := flowIdx + 1;
    }
    bufIdx := FlushAll(file, buf, bufIdx, before, flushed, Records(Occupied(slots[..maxEntries])));
    WrapScaled(|Occupied(slots[..maxEntries])|, ENTRY_SIZE);
    file.Seek(0);
    StoreHeader(buf, start, end, Wrap32(nflows * ENTRY_SIZE));
    file.Write(buf[..HEADER_SIZE]);
  }

  lemma WrapScaled(n: nat, k: nat)
    ensures Wrap32(Wrap32(n) * k) == Wrap32(n * k)
  {
    assert n == TWO32 * (n / TWO32) + n % TWO32;
    assert n * k == (n % TWO32) * k + ((n / TWO32) * k) * TWO32;
    ModAddMultiple((n % TWO32) * k, (n / TWO32) * k, TWO32);
  }

  method StoreHeader(buf: array<u8>, start: u32, end: u32, size: u32)
    requires HEADER_SIZE <= buf.Length
    modifies buf
    ensures buf[..HEADER_SIZE] == HeaderBytes(start, end, size)
  {
    RecordSizes();
    ghost var ws, vs := HEADER_WIDTHS, HeaderValues(start, end, size);
    assert ws[..7] == [1, 1, 1, 1, 4, 4, 4];
    Store(buf, 0, 'P' as int, 1);
    assert buf[..1] == Pack(ws, vs, 1);
    Store(buf, 1, 'N' as int, 1);
    assert buf[..2] == Pack(ws, vs, 2);
    Store(buf, 2, 'A' as int, 1);
    assert buf[..3] == Pack(ws, vs, 3);
    Store(buf, 3, 2, 1);
    assert buf[..4] == Pack(ws, vs, 4);
    Store(buf, 4, start, 4);
    assert buf[..8] == Pack(ws, vs, 5);
    Store(buf, 8, end, 4);
    assert buf[..12] == Pack(ws, vs, 6);
    Store(buf, 12, size, 4);
    assert buf[..16] == Pack(ws, vs, 7);
  }
}
