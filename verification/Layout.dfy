/** The log formats byte by byte. */
module Layout {
  import opened Words
  import opened Flows
  import opened Packing
  import opened DumpTable
  import opened LogParser
  import opened LogRoundTrip

  /** The bytes of a word of 16 or 32 bits, the lowest first. */
  function Word16(v: nat): (bs: seq<u8>)
    ensures |bs| == 2
  {
    [v % 0x100, v / 0x100 % 0x100]
  }

  function Word32(v: nat): (bs: seq<u8>)
    ensures |bs| == 4
  {
    [v % 0x100, v / 0x100 % 0x100, v / 0x1_0000 % 0x100, v / 0x100_0000 % 0x100]
  }

  lemma WordBytes(v: nat)
    ensures LittleEndian(v, 1) == [v % 0x100] && LittleEndian(v, 2) == Word16(v) && LittleEndian(v, 4) == Word32(v)
  {
    var x, y, z := v / 0x100, v / 0x1_0000, v / 0x100_0000;
    assert LittleEndian(v, 2) == [v % 0x100] + LittleEndian(x, 1) && LittleEndian(x, 1) == [x % 0x100];
    assert y == x / 0x100 && z == y / 0x100;
    assert LittleEndian(v, 4) == [v % 0x100] + LittleEndian(x, 3);
    assert LittleEndian(x, 3) == [x % 0x100] + LittleEndian(y, 2);
    assert LittleEndian(y, 2) == [y % 0x100] + LittleEndian(z, 1) && LittleEndian(z, 1) == [z % 0x100];
  }

  lemma NextField(ws: seq<nat>, vs: seq<nat>, n: nat)
    requires n < |ws| == |vs|
    ensures ws[n] == 1 ==> Pack(ws, vs, n + 1) == Pack(ws, vs, n) + [vs[n] % 0x100]
    ensures ws[n] == 2 ==> Pack(ws, vs, n + 1) == Pack(ws, vs, n) + Word16(vs[n])
    ensures ws[n] == 4 ==> Pack(ws, vs, n + 1) == Pack(ws, vs, n) + Word32(vs[n])
  {
    WordBytes(vs[n]);
  }

  /** Two and four fields of the same width. */
  function Words16(a: nat, b: nat): (bs: seq<u8>)
    ensures |bs| == 4
  {
    Word16(a) + Word16(b)
  }

  function Words32(a: nat, b: nat): (bs: seq<u8>)
    ensures |bs| == 8
  {
    Word32(a) + Word32(b)
  }

  function Bytes(a: nat, b: nat, c: nat, d: nat): (bs: seq<u8>)
    ensures |bs| == 4
  {
    [a % 0x100, b % 0x100, c % 0x100, d % 0x100]
  }

  lemma NextHalves(ws: seq<nat>, vs: seq<nat>, n: nat, done: seq<u8>)
    requires n + 2 <= |ws| == |vs| && ws[n] == ws[n + 1] == 2 && Pack(ws, vs, n) == done
    ensures Pack(ws, vs, n + 2) == done + Words16(vs[n], vs[n + 1])
  {
    NextField(ws, vs, n);
    NextField(ws, vs, n + 1);
  }

  lemma NextWords(ws: seq<nat>, vs: seq<nat>, n: nat, done: seq<u8>)
    requires n + 2 <= |ws| == |vs| && ws[n] == ws[n + 1] == 4 && Pack(ws, vs, n) == done
    ensures Pack(ws, vs, n + 2) == done + Words32(vs[n], vs[n + 1])
  {
    NextField(ws, vs, n);
    NextField(ws, vs, n + 1);
  }

  /** The fields that formats have in common, in a row of any widths. */
  lemma Endpoints(ws: seq<nat>, vs: seq<nat>)
    requires 4 <= |ws| == |vs| && ws[0] == ws[1] == 4 && ws[2] == ws[3] == 2
    ensures Pack(ws, vs, 4) == Words32(vs[0], vs[1]) + Words16(vs[2], vs[3])
  {
    NextWords(ws, vs, 0, []);
    NextHalves(ws, vs, 2, Words32(vs[0], vs[1]));
  }

  lemma Addresses(ws: seq<nat>, vs: seq<nat>)
    requires 6 <= |ws| == |vs| && ws[0] == ws[1] == 4 && ws[2] == ws[3] == ws[4] == ws[5] == 2
    ensures Pack(ws, vs, 6) == Words32(vs[0], vs[1]) + Words16(vs[2], vs[3]) + Words16(vs[4], vs[5])
  {
    Endpoints(ws, vs);
    NextHalves(ws, vs, 4, Words32(vs[0], vs[1]) + Words16(vs[2], vs[3]));
  }

  lemma Counters(ws: seq<nat>, vs: seq<nat>, n: nat, done: seq<u8>)
    requires n + 4 <= |ws| == |vs| && ws[n] == ws[n + 1] == ws[n + 2] == ws[n + 3] == 4
    requires Pack(ws, vs, n) == done
    ensures Pack(ws, vs, n + 4) == done + (Words32(vs[n], vs[n + 1]) + Words32(vs[n + 2], vs[n + 3]))
  {
    NextWords(ws, vs, n, done);
    NextWords(ws, vs, n + 2, done + Words32(vs[n], vs[n + 1]));
  }

  lemma NextBytes(ws: seq<nat>, vs: seq<nat>, n: nat, done: seq<u8>)
    requires n + 4 <= |ws| == |vs| && Pack(ws, vs, n) == done
    requires ws[n] == ws[n + 1] == ws[n + 2] == ws[n + 3] == 1
    ensures Pack(ws, vs, n + 4) == done + Bytes(vs[n], vs[n + 1], vs[n + 2], vs[n + 3])
  {
    NextField(ws, vs, n);
    NextField(ws, vs, n + 1);
    NextField(ws, vs, n + 2);
    NextField(ws, vs, n + 3);
  }

  /** The 48 bytes of a flow's record. */
  function RecordLayout(s: Slot): (bs: seq<u8>)
    ensures |bs| == 48
  {
    AddressLayout(s.key) + CounterLayout(s.data) + FlagsAndTimes(s.data)
    + Bytes(s.key.l4Protocol, s.data.firstDir, 0, 0)
  }

  function AddressLayout(k: Key): (bs: seq<u8>)
    ensures |bs| == 16
  {
    Words32(k.localIp, k.remoteIp) + Words16(k.localPort, k.remotePort) + Words16(k.localDomain, k.remoteDomain)
  }

  function CounterLayout(d: Data): (bs: seq<u8>)
    ensures |bs| == 16
  {
    Words32(d.packets.outbound, d.packets.inbound) + Words32(d.bytes.outbound, d.bytes.inbound)
  }

  function FlagsAndTimes(d: Data): (bs: seq<u8>)
    ensures |bs| == 12
  {
    Words16(d.flags.outbound, d.flags.inbound) + Words32(d.firstTstamp, d.lastTstamp)
  }

  lemma EntryLayout(s: Slot)
    ensures EntryBytes(s) == RecordLayout(s)
  {
    EntryAddresses(s);
    EntryCounters(s, AddressLayout(s.key));
    EntryFlags(s, AddressLayout(s.key) + CounterLayout(s.data));
    RestOfEntry(s, AddressLayout(s.key) + CounterLayout(s.data) + FlagsAndTimes(s.data));
  }

  lemma EntryAddresses(s: Slot)
    ensures |ENTRY_WIDTHS| == 18 && Pack(ENTRY_WIDTHS, EntryValues(s), 6) == AddressLayout(s.key)
  {
    Addresses(ENTRY_WIDTHS, EntryValues(s));
  }

  lemma EntryCounters(s: Slot, done: seq<u8>)
    requires |ENTRY_WIDTHS| == 18 && Pack(ENTRY_WIDTHS, EntryValues(s), 6) == done
    ensures Pack(ENTRY_WIDTHS, EntryValues(s), 10) == done + CounterLayout(s.data)
  {
    Counters(ENTRY_WIDTHS, EntryValues(s), 6, done);
  }

  lemma EntryFlags(s: Slot, done: seq<u8>)
    requires |ENTRY_WIDTHS| == 18 && Pack(ENTRY_WIDTHS, EntryValues(s), 10) == done
    ensures Pack(ENTRY_WIDTHS, EntryValues(s), 14) == done + FlagsAndTimes(s.data)
  {
    var ws, vs, d := ENTRY_WIDTHS, EntryValues(s), s.data;
    NextHalves(ws, vs, 10, done);
    NextWords(ws, vs, 12, done + Words16(d.flags.outbound, d.flags.inbound));
  }

  lemma RestOfEntry(s: Slot, done: seq<u8>)
    requires |ENTRY_WIDTHS| == 18 && Pack(ENTRY_WIDTHS, EntryValues(s), 14) == done
    ensures Pack(ENTRY_WIDTHS, EntryValues(s), 18) == done + Bytes(s.key.l4Protocol, s.data.firstDir, 0, 0)
  {
    NextBytes(ENTRY_WIDTHS, EntryValues(s), 14, done);
  }

  /** The 16 bytes of the header. */
  function HeaderLayout(start: u32, end: u32, size: u32): (bs: seq<u8>)
    ensures |bs| == 16
  {
    Bytes(0x50, 0x4E, 0x41, 2) + Words32(start, end) + Word32(size)
  }

  lemma HeaderLaidOut(start: u32, end: u32, size: u32)
    ensures HeaderBytes(start, end, size) == HeaderLayout(start, end, size)
  {
    var ws, vs := HEADER_WIDTHS, HeaderValues(start, end, size);
    NextBytes(ws, vs, 0, []);
    NextWords(ws, vs, 4, Bytes(0x50, 0x4E, 0x41, 2));
    NextField(ws, vs, 6);
  }

  lemma {:induction false} RecordsLayout(es: seq<Slot>, i: nat)
    requires i < |es|
    ensures |Records(es)| == 48 * |es| && Records(es)[48 * i..48 * i + 48] == RecordLayout(es[i])
    decreases |es|
  {
    var n := |es| - 1;
    if i < n {
      RecordsLayout(es[..n], i);
    } else {
      EntryLayout(es[n]);
    }
  }

  /** A file of the current format: 16 bytes of header, 48 for each entry, and what lay behind them before. */
  ghost predicate LaidOutAs(data: seq<u8>, held: seq<u8>, es: seq<Slot>, start: u32, end: u32) {
    && |data| >= 16 + 48 * |es|
    && data[..16] == HeaderLayout(start, end, 48 * |es| % 0x1_0000_0000)
    && (forall i :: 0 <= i < |es| ==> data[16 + 48 * i..64 + 48 * i] == RecordLayout(es[i]))
    && data[16 + 48 * |es|..] == if |held| > 16 + 48 * |es| then held[16 + 48 * |es|..] else []
  }

  /** Byte for byte what a dump leaves in a file. */
  lemma DumpLayout(before: seq<u8>, slots: seq<Slot>, start: u32, end: u32)
    ensures LaidOutAs(Dumped(before, slots, start, end), before, Occupied(slots), start, end)
  {
    DumpedParts(before, slots, start, end);
    DumpLaidOut(Dumped(before, slots, start, end), before, Occupied(slots), start, end);
  }

  lemma DumpLaidOut(data: seq<u8>, held: seq<u8>, es: seq<Slot>, start: u32, end: u32)
    requires IsDump(data, held, es, start, end)
    ensures LaidOutAs(data, held, es, start, end)
  {
    var size := Wrap32(48 * |es|);
    var header, body, rest := HeaderBytes(start, end, size), Records(es), From(held, 16 + 48 * |es|);
    HeaderLaidOut(start, end, size);
    Parts(data, header, body, rest);
    forall i | 0 <= i < |es|
      ensures data[16 + 48 * i..64 + 48 * i] == RecordLayout(es[i])
    {
      RecordsLayout(es, i);
      Inside(data, header, body, rest, 48 * i, 48);
    }
  }

  lemma Parts(data: seq<u8>, a: seq<u8>, b: seq<u8>, c: seq<u8>)
    requires data == a + b + c
    ensures data[..|a|] == a && data[|a| + |b|..] == c
  {
  }

  lemma Inside(data: seq<u8>, a: seq<u8>, b: seq<u8>, c: seq<u8>, at: nat, n: nat)
    requires data == a + b + c && at + n <= |b|
    ensures data[|a| + at..|a| + at + n] == b[at..at + n]
  {
  }

  /** The 12 bytes of the header that the two old formats share. */
  lemma OldHeaderLayout(start: u32, end: u32, n: u32)
    ensures |HEADER_V1A.widths| == 3 && Pack(HEADER_V1A.widths, [start, end, n], 3) == Words32(start, end) + Word32(n)
  {
    NextWords(HEADER_V1A.widths, [start, end, n], 0, []);
    NextField(HEADER_V1A.widths, [start, end, n], 2);
  }

  /** The 36 bytes of an entry in the oldest format. */
  lemma V1Layout(vs: seq<nat>)
    requires |vs| == 13
    ensures |ENTRY_V1.widths| == 13
    ensures Pack(ENTRY_V1.widths, vs, 13)
         == Words32(vs[0], vs[1]) + Words16(vs[2], vs[3]) + (Words32(vs[4], vs[5]) + Words32(vs[6], vs[7]))
            + Word32(vs[8]) + Bytes(vs[9], vs[10], vs[11], vs[12])
  {
    Endpoints(ENTRY_V1.widths, vs);
    Counters(ENTRY_V1.widths, vs, 4, Words32(vs[0], vs[1]) + Words16(vs[2], vs[3]));
    OldRest(ENTRY_V1.widths, vs, 8);
  }

  /** The begin time and the four bytes with which the old formats end. */
  lemma OldRest(ws: seq<nat>, vs: seq<nat>, n: nat)
    requires n + 5 == |ws| == |vs| && ws[n] == 4
    requires ws[n + 1] == ws[n + 2] == ws[n + 3] == ws[n + 4] == 1
    ensures Pack(ws, vs, n + 5)
         == Pack(ws, vs, n) + Word32(vs[n]) + Bytes(vs[n + 1], vs[n + 2], vs[n + 3], vs[n + 4])
  {
    NextField(ws, vs, n);
    NextBytes(ws, vs, n + 1, Pack(ws, vs, n + 1));
  }

  /** The 40 bytes of an entry in the format between. */
  lemma V1aLayout(vs: seq<nat>)
    requires |vs| == 15
    ensures |ENTRY_V1A.widths| == 15
    ensures Pack(ENTRY_V1A.widths, vs, 15)
         == Words32(vs[0], vs[1]) + Words16(vs[2], vs[3]) + Words16(vs[4], vs[5])
            + (Words32(vs[6], vs[7]) + Words32(vs[8], vs[9]))
            + Word32(vs[10]) + Bytes(vs[11], vs[12], vs[13], vs[14])
  {
    Addresses(ENTRY_V1A.widths, vs);
    Counters(ENTRY_V1A.widths, vs, 6, Pack(ENTRY_V1A.widths, vs, 6));
    OldRest(ENTRY_V1A.widths, vs, 10);
  }
}
