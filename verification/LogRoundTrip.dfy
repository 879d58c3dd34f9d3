/** What the log reader makes of the files that the log writer, or an older one, produced. */
module LogRoundTrip {
  import opened Words
  import opened Flows
  import opened Packing
  import opened DumpTable
  import opened LogParser

  ghost predicate AllFit(ws: seq<nat>, vss: seq<seq<nat>>) {
    forall i :: 0 <= i < |vss| ==> Fits(ws, vss[i])
  }

  /** Records with field widths ws lie one behind the other in the data from pos on. */
  ghost predicate LaidOut(data: seq<u8>, pos: nat, ws: seq<nat>, vss: seq<seq<nat>>)
    decreases |vss|
  {
    vss == [] ||
    (&& Fits(ws, vss[0])
     && pos + Size(ws, |ws|) <= |data|
     && data[pos..pos + Size(ws, |ws|)] == Pack(ws, vss[0], |ws|)
     && LaidOut(data, pos + Size(ws, |ws|), ws, vss[1..]))
  }

  /** The concatenation of some records. */
  ghost function PackAll(ws: seq<nat>, vss: seq<seq<nat>>): seq<u8>
    requires AllFit(ws, vss)
  {
    if vss == [] then []
    else
      assert Fits(ws, vss[0]);
      Pack(ws, vss[0], |ws|) + PackAll(ws, vss[1..])
  }

  lemma {:induction false} PackedIsLaidOut(data: seq<u8>, pos: nat, ws: seq<nat>, vss: seq<seq<nat>>)
    requires AllFit(ws, vss) && pos + |PackAll(ws, vss)| <= |data|
    requires data[pos..pos + |PackAll(ws, vss)|] == PackAll(ws, vss)
    ensures LaidOut(data, pos, ws, vss)
    decreases |vss|
  {
    if vss != [] {
      SplitSlice(data, pos, Pack(ws, vss[0], |ws|), PackAll(ws, vss[1..]));
      PackedIsLaidOut(data, pos + Size(ws, |ws|), ws, vss[1..]);
      assert Fits(ws, vss[0]);
    }
  }

  /** The log positioned n entries further on. */
  function Skip(log: Log, n: nat): (log': Log)
    ensures log' == log.(position := log'.position)
    decreases n
  {
    if n == 0 then log else Skip(Advance(log), n - 1)
  }

  lemma {:induction false} SkipPosition(log: Log, n: nat)
    ensures Skip(log, n).position == log.position + n * FormatSize(log.format)
    decreases n
  {
    if n > 0 {
      SkipPosition(Advance(log), n - 1);
      var size := FormatSize(log.format);
      assert n * size == size + (n - 1) * size;
    }
  }

  /** The dictionary that a log yields for the values of one record. */
  function Session(log: Log, vs: seq<nat>): Dict
    requires |vs| == |log.format.names|
  {
    Complete(log.version, log.header, Zip(log.format.names, vs, |vs|))
  }

  ghost function Sessions(log: Log, vss: seq<seq<nat>>): seq<Dict>
    requires AllFit(log.format.widths, vss)
  {
    seq(|vss|, i requires 0 <= i < |vss| => Session(log, vss[i]))
  }

  /** The reader reads every record laid out at its position, and goes on behind them. */
  lemma {:induction false} ReadsRecords(log: Log, data: seq<u8>, vss: seq<seq<nat>>)
    requires LaidOut(data, log.position, log.format.widths, vss)
    requires AllFit(log.format.widths, vss)
    ensures ReadEntries(log, data)
         == Prepend(Sessions(log, vss), ReadEntries(Skip(log, |vss|), data))
    decreases |vss|
  {
    if vss == [] {
      assert Sessions(log, vss) == [];
      PrependNothing(ReadEntries(log, data));
    } else {
      ReadsFirst(log, data, vss);
      ReadsRecords(Advance(log), data, vss[1..]);
      JoinSessions(log, vss, ReadEntries(Skip(log, |vss|), data));
    }
  }

  lemma ReadsFirst(log: Log, data: seq<u8>, vss: seq<seq<nat>>)
    requires vss != [] && LaidOut(data, log.position, log.format.widths, vss) && AllFit(log.format.widths, vss)
    ensures |vss[0]| == |log.format.names| && AllFit(log.format.widths, vss[1..])
    ensures LaidOut(data, Advance(log).position, log.format.widths, vss[1..])
    ensures ReadEntries(log, data) == Prepend([Session(log, vss[0])], ReadEntries(Advance(log), data))
  {
    var f := log.format;
    UnpackPack(f.widths, vss[0], |f.widths|, data, log.position);
    assert vss[0][..|f.widths|] == vss[0];
    assert ReadEntry(log, data) == Ok(Session(log, vss[0]));
  }

  lemma JoinSessions(log: Log, vss: seq<seq<nat>>, rest: Result<seq<Dict>>)
    requires vss != [] && AllFit(log.format.widths, vss)
    ensures Prepend([Session(log, vss[0])], Prepend(Sessions(Advance(log), vss[1..]), rest))
         == Prepend(Sessions(log, vss), rest)
  {
    PrependTwice([Session(log, vss[0])], Sessions(Advance(log), vss[1..]), rest);
    assert Sessions(log, vss) == [Session(log, vss[0])] + Sessions(Advance(log), vss[1..]);
  }

  // ---- The current format ----

  ghost function EntryLists(es: seq<Slot>): (vss: seq<seq<nat>>)
    ensures AllFit(ENTRY_WIDTHS, vss)
  {
    EntriesFit(es);
    seq(|es|, i requires 0 <= i < |es| => EntryValues(es[i]))
  }

  lemma EntriesFit(es: seq<Slot>)
    ensures forall i :: 0 <= i < |es| ==> Fits(ENTRY_WIDTHS, EntryValues(es[i]))
  {
    forall i | 0 <= i < |es|
      ensures Fits(ENTRY_WIDTHS, EntryValues(es[i]))
    {
      ValuesFit(es[i], 0, 0, 0);
    }
  }

  lemma {:induction false} PackAllSnoc(ws: seq<nat>, vss: seq<seq<nat>>, vs: seq<nat>)
    requires Fits(ws, vs) && AllFit(ws, vss)
    ensures PackAll(ws, vss + [vs]) == PackAll(ws, vss) + Pack(ws, vs, |ws|)
    decreases |vss|
  {
    if vss == [] {
      assert [vs][1..] == [];
      assert PackAll(ws, [vs]) == Pack(ws, vs, |ws|) + PackAll(ws, []);
      assert vss + [vs] == [vs];
    } else {
      assert (vss + [vs])[1..] == vss[1..] + [vs];
      PackAllSnoc(ws, vss[1..], vs);
      assert Pack(ws, vss[0], |ws|) + (PackAll(ws, vss[1..]) + Pack(ws, vs, |ws|))
          == PackAll(ws, vss) + Pack(ws, vs, |ws|);
    }
  }

  lemma {:induction false} RecordsArePacked(es: seq<Slot>)
    ensures Records(es) == PackAll(ENTRY_WIDTHS, EntryLists(es))
    decreases |es|
  {
    if es != [] {
      var n := |es| - 1;
      RecordsArePacked(es[..n]);
      ValuesFit(es[n], 0, 0, 0);
      PackAllSnoc(ENTRY_WIDTHS, EntryLists(es[..n]), EntryValues(es[n]));
      assert EntryLists(es) == EntryLists(es[..n]) + [EntryValues(es[n])];
    }
  }

  /** The dictionary that the reader yields for a flow entry. */
  function SessionOf(s: Slot): Dict {
    map[LocalIp := s.key.localIp, RemoteIp := s.key.remoteIp,
        LocalPort := s.key.localPort, RemotePort := s.key.remotePort,
        LocalNetid := s.key.localDomain, RemoteNetid := s.key.remoteDomain,
        PacketsOut := s.data.packets.outbound, PacketsIn := s.data.packets.inbound,
        OctetsOut := s.data.bytes.outbound, OctetsIn := s.data.bytes.inbound,
        LocalFlags := s.data.flags.outbound, RemoteFlags := s.data.flags.inbound,
        BeginTime := s.data.firstTstamp, EndTime := s.data.lastTstamp,
        L4Protocol := s.key.l4Protocol, FirstDirection := s.data.firstDir % 0x100,
        Blank0 := 0, Blank1 := 0]
  }

  function HeaderDict(start: u32, end: u32, size: u32): Dict {
    map[Magic0 := 'P' as int, Magic1 := 'N' as int, Magic2 := 'A' as int, FormatVersion := 2,
        StartTime := start, EndTime := end, Nentries := size]
  }

  lemma SessionFieldsTo12(s: Slot)
    ensures Zip(ENTRY_V2.names, EntryValues(s), 12)
         == map[LocalIp := s.key.localIp, RemoteIp := s.key.remoteIp,
                LocalPort := s.key.localPort, RemotePort := s.key.remotePort,
                LocalNetid := s.key.localDomain, RemoteNetid := s.key.remoteDomain,
                PacketsOut := s.data.packets.outbound, PacketsIn := s.data.packets.inbound,
                OctetsOut := s.data.bytes.outbound, OctetsIn := s.data.bytes.inbound,
                LocalFlags := s.data.flags.outbound, RemoteFlags := s.data.flags.inbound]
  {
    assert Zip(ENTRY_V2.names, EntryValues(s), 6)
        == map[LocalIp := s.key.localIp, RemoteIp := s.key.remoteIp,
               LocalPort := s.key.localPort, RemotePort := s.key.remotePort,
               LocalNetid := s.key.localDomain, RemoteNetid := s.key.remoteDomain];
  }

  lemma SessionFields(s: Slot, log: Log)
    requires log.version == V2 && log.format == ENTRY_V2
    ensures Session(log, EntryValues(s)) == SessionOf(s)
  {
    var names, vs := ENTRY_V2.names, EntryValues(s);
    SessionFieldsTo12(s);
    ZipTwo(names, vs, 12);
    ZipTwo(names, vs, 14);
    ZipTwo(names, vs, 16);
    var z := Zip(names, vs, 12);
    var first: nat, zero: nat := s.data.firstDir % 0x100, 0;
    var begin: nat, end: nat, l4: nat := s.data.firstTstamp, s.data.lastTstamp, s.key.l4Protocol;
    var z': Dict := z[BeginTime := begin][EndTime := end][L4Protocol := l4];
    var z'': Dict := z'[FirstDirection := first][Blank0 := zero];
    var z''': Dict := z''[Blank1 := zero];
    assert z''' == SessionOf(s);
  }

  lemma ZipTwo(names: seq<Name>, vs: seq<nat>, n: nat)
    requires n + 2 <= |names| && n + 2 <= |vs|
    ensures Zip(names, vs, n + 2) == Zip(names, vs, n)[names[n] := vs[n]][names[n + 1] := vs[n + 1]]
  {
    assert Zip(names, vs, n + 1) == Zip(names, vs, n)[names[n] := vs[n]];
  }

  /** The log that the reader sees when it opens a file of the current format. */
  function CurrentLog(start: u32, end: u32, n: nat): Log {
    LogAt(V2, HeaderDict(start, end, Wrap32(n * ENTRY_SIZE)), HEADER_SIZE)
  }

  lemma OpensCurrent(data: seq<u8>, start: u32, end: u32, n: nat)
    requires |data| >= HEADER_SIZE
    requires data[..HEADER_SIZE] == HeaderBytes(start, end, Wrap32(n * ENTRY_SIZE))
    ensures OpenLog(data) == Ok(CurrentLog(start, end, n))
  {
    var size := Wrap32(n * ENTRY_SIZE);
    var vs := HeaderValues(start, end, size);
    ValuesFit(ZERO_SLOT, start, end, size);
    FormatSizes();
    MagicBytes(data, start, end, size);
    assert data[0..0 + HEADER_SIZE] == data[..HEADER_SIZE];
    UnpackPack(HEADER_WIDTHS, vs, 7, data, 0);
    assert vs[..7] == vs;
    HeaderZip(start, end, size);
  }

  lemma HeaderZip(start: u32, end: u32, size: u32)
    ensures Zip(HEADER_V2.names, HeaderValues(start, end, size), 7) == HeaderDict(start, end, size)
  {
    assert Zip(HEADER_V2.names, HeaderValues(start, end, size), 4)
        == map[Magic0 := 'P' as int, Magic1 := 'N' as int, Magic2 := 'A' as int, FormatVersion := 2];
  }

  lemma MagicBytes(data: seq<u8>, start: u32, end: u32, size: u32)
    requires |data| >= HEADER_SIZE
    requires data[..HEADER_SIZE] == HeaderBytes(start, end, size)
    ensures StartsWithMagic(data) && data[3] == 2
  {
    var ws, vs := HEADER_WIDTHS, HeaderValues(start, end, size);
    RecordSizes();
    PackPrefix(ws, vs, 4, 7);
    assert Pack(ws, vs, 1) == ['P' as int];
    assert Pack(ws, vs, 2) == ['P' as int, 'N' as int];
    assert Pack(ws, vs, 3) == ['P' as int, 'N' as int, 'A' as int];
    assert Pack(ws, vs, 4) == ['P' as int, 'N' as int, 'A' as int, 2];
    assert data[..4] == data[..HEADER_SIZE][..4];
    assert data[..3] == data[..4][..3];
  }

  lemma {:induction false} PackPrefix(ws: seq<nat>, vs: seq<nat>, m: nat, n: nat)
    requires m <= n <= |ws| == |vs|
    ensures Size(ws, m) <= Size(ws, n)
    ensures Pack(ws, vs, n)[..Size(ws, m)] == Pack(ws, vs, m)
    decreases n
  {
    if m < n {
      PackPrefix(ws, vs, m, n - 1);
    }
  }

  /** A dump is the header, the records, and whatever the file held behind them before. */
  ghost predicate IsDump(data: seq<u8>, held: seq<u8>, es: seq<Slot>, start: u32, end: u32) {
    data == HeaderBytes(start, end, Wrap32(|es| * ENTRY_SIZE)) + Records(es) + From(held, HEADER_SIZE + |Records(es)|)
  }

  lemma DumpedParts(before: seq<u8>, slots: seq<Slot>, start: u32, end: u32)
    ensures IsDump(Dumped(before, slots, start, end), before, Occupied(slots), start, end)
  {
    var es := Occupied(slots);
    OverwriteBoth(before, HeaderBytes(start, end, Wrap32(|es| * ENTRY_SIZE)), Records(es));
  }

  lemma OverwriteBoth(before: seq<u8>, header: seq<u8>, body: seq<u8>)
    requires |header| == HEADER_SIZE
    ensures Overwrite(Overwrite(before, HEADER_SIZE, body), 0, header)
         == header + body + From(before, HEADER_SIZE + |body|)
  {
    OverwriteTail(before, HEADER_SIZE, body);
    OverwriteStart(Overwrite(before, HEADER_SIZE, body), header);
    assert header + (body + From(before, HEADER_SIZE + |body|)) == header + body + From(before, HEADER_SIZE + |body|);
  }

  lemma OverwriteTail(content: seq<u8>, pos: nat, bs: seq<u8>)
    ensures From(Overwrite(content, pos, bs), pos) == bs + From(content, pos + |bs|)
  {
  }

  lemma OverwriteStart(content: seq<u8>, bs: seq<u8>)
    requires bs != []
    ensures Overwrite(content, 0, bs) == bs + From(content, |bs|)
  {
  }

  /** Reading a dump: the entries in order, then whatever else the file held. */
  lemma ReadsDump(data: seq<u8>, held: seq<u8>, es: seq<Slot>, start: u32, end: u32)
    requires IsDump(data, held, es, start, end)
    ensures OpenLog(data) == Ok(CurrentLog(start, end, |es|))
    ensures ReadEntries(CurrentLog(start, end, |es|), data)
         == Prepend(SessionsOf(es), ReadEntries(Skip(CurrentLog(start, end, |es|), |es|), data))
  {
    var log := CurrentLog(start, end, |es|);
    assert data[..HEADER_SIZE] == HeaderBytes(start, end, Wrap32(|es| * ENTRY_SIZE));
    OpensCurrent(data, start, end, |es|);
    RecordsArePacked(es);
    assert data[HEADER_SIZE..HEADER_SIZE + |Records(es)|] == Records(es);
    PackedIsLaidOut(data, HEADER_SIZE, ENTRY_WIDTHS, EntryLists(es));
    ReadsRecords(log, data, EntryLists(es));
    SessionsOfEntries(log, es);
  }

  ghost function SessionsOf(es: seq<Slot>): seq<Dict> {
    seq(|es|, i requires 0 <= i < |es| => SessionOf(es[i]))
  }

  lemma SessionsOfEntries(log: Log, es: seq<Slot>)
    requires log.version == V2 && log.format == ENTRY_V2
    ensures Sessions(log, EntryLists(es)) == SessionsOf(es)
  {
    forall i | 0 <= i < |es|
      ensures Session(log, EntryLists(es)[i]) == SessionOf(es[i])
    {
      SessionFields(es[i], log);
    }
  }

  lemma SkippedTo(start: u32, end: u32, n: nat)
    ensures Skip(CurrentLog(start, end, n), n).position == HEADER_SIZE + n * ENTRY_SIZE
  {
    SkipPosition(CurrentLog(start, end, n), n);
    FormatSizes();
  }

  /** Open a log file and parse all of it. */
  function ReadLog(data: seq<u8>): Result<seq<Dict>> {
    var log := OpenLog(data);
    if log.Err? then Err(log.error) else ReadEntries(log.value, data)
  }

  /** Behind the entries of a dump the reader goes on to the end of the file. */
  lemma GoesOn(log: Log, data: seq<u8>, front: seq<Dict>)
    ensures var r := Prepend(front, ReadEntries(log, data));
      && (r == Ok(front) <==> log.position >= |data|)
      && (r.Ok? ==> front <= r.value)
  {
    if log.position >= |data| {
      assert front + [] == front;
    }
  }

  /** The reader comes through exactly when the rest of the file is made of whole entries. */
  lemma {:induction false} ParsesIff(log: Log, data: seq<u8>)
    requires log.format == ENTRY_V2 && log.position <= |data|
    ensures ReadEntries(log, data).Ok? <==> (|data| - log.position) % ENTRY_SIZE == 0
    decreases |data| - log.position
  {
    CurrentEntrySize();
    if |data| >= log.position + ENTRY_SIZE {
      ParsesIff(Advance(log), data);
    }
  }

  lemma ReadsBack(data: seq<u8>, held: seq<u8>, es: seq<Slot>, start: u32, end: u32)
    requires IsDump(data, held, es, start, end)
    ensures OpenLog(data) == Ok(CurrentLog(start, end, |es|))
    ensures ReadLog(data) == Ok(SessionsOf(es)) <==> |held| <= HEADER_SIZE + ENTRY_SIZE * |es|
    ensures ReadLog(data).Ok? ==> SessionsOf(es) <= ReadLog(data).value
  {
    ReadsDump(data, held, es, start, end);
    DumpSize(data, held, es, start, end);
    SkippedTo(start, end, |es|);
    GoesOn(Skip(CurrentLog(start, end, |es|), |es|), data, SessionsOf(es));
  }

  lemma DumpSize(data: seq<u8>, held: seq<u8>, es: seq<Slot>, start: u32, end: u32)
    requires IsDump(data, held, es, start, end)
    ensures var n := HEADER_SIZE + ENTRY_SIZE * |es|;
      |data| == if |held| <= n then n else |held|
  {
  }

  /** A dump over a longer file is a dump to a new one, and behind it the end of the old file. */
  lemma CutIsNew(data: seq<u8>, held: seq<u8>, es: seq<Slot>, start: u32, end: u32)
    requires IsDump(data, held, es, start, end)
    ensures var n := HEADER_SIZE + ENTRY_SIZE * |es|;
      n <= |data| && IsDump(data[..n], [], es, start, end) && data[n..] == From(held, n)
  {
    var written := HeaderBytes(start, end, Wrap32(|es| * ENTRY_SIZE)) + Records(es);
    SplitBehind(data, written, From(held, |written|));
    assert written + From([], |written|) == written;
  }

  lemma SplitBehind(data: seq<u8>, written: seq<u8>, rest: seq<u8>)
    requires data == written + rest
    ensures |written| <= |data| && data[..|written|] == written && data[|written|..] == rest
  {
  }

  /** The length of a log of the entries. */
  function LogSize(es: seq<Slot>): nat {
    HEADER_SIZE + ENTRY_SIZE * |es|
  }

  /** Up to the last of the entries the file yields just them. */
  ghost predicate StartsAs(content: seq<u8>, es: seq<Slot>) {
    LogSize(es) <= |content| && ReadLog(content[..LogSize(es)]) == Ok(SessionsOf(es))
  }

  /**
   * What a file yields that held something when the entries were dumped to it. Up to the last of
   * them it yields just them, whatever it held. It is opened read-write but not truncated, so the
   * rest of a longer old file follows. The reader, which goes on to the end of the file, gets back
   * just the entries if and only if the file held no more bytes than the dump writes; it comes
   * through at all if and only if the file ends with a whole entry, and then it gets them first.
   */
  ghost predicate ReadsAs(content: seq<u8>, held: seq<u8>, es: seq<Slot>) {
    StartsAs(content, es) && GoesOnAs(content, held, es)
  }

  ghost predicate GoesOnAs(content: seq<u8>, held: seq<u8>, es: seq<Slot>) {
    var read := ReadLog(content);
    && LogSize(es) <= |content| && content[LogSize(es)..] == From(held, LogSize(es))
    && (read == Ok(SessionsOf(es)) <==> |held| <= LogSize(es))
    && (read.Ok? <==> (|content| - HEADER_SIZE) % ENTRY_SIZE == 0)
    && (read.Ok? ==> SessionsOf(es) <= read.value)
  }

  /** Cut off behind the last entry that was dumped, a file yields the entries. */
  lemma CutReads(data: seq<u8>, held: seq<u8>, es: seq<Slot>, start: u32, end: u32)
    requires IsDump(data, held, es, start, end)
    ensures StartsAs(data, es)
  {
    CutIsNew(data, held, es, start, end);
    ReadsBack(data[..LogSize(es)], [], es, start, end);
  }

  /** The round trip: the occupied entries come back in slot order. */
  lemma RoundTrip(before: seq<u8>, slots: seq<Slot>, start: u32, end: u32)
    ensures OpenLog(Dumped(before, slots, start, end)) == Ok(CurrentLog(start, end, |Occupied(slots)|))
    ensures ReadsAs(Dumped(before, slots, start, end), before, Occupied(slots))
  {
    DumpedParts(before, slots, start, end);
    DumpReads(Dumped(before, slots, start, end), before, Occupied(slots), start, end);
  }

  lemma DumpReads(data: seq<u8>, held: seq<u8>, es: seq<Slot>, start: u32, end: u32)
    requires IsDump(data, held, es, start, end)
    ensures OpenLog(data) == Ok(CurrentLog(start, end, |es|)) && ReadsAs(data, held, es)
  {
    ReadsBack(data, held, es, start, end);
    CutReads(data, held, es, start, end);
    CutIsNew(data, held, es, start, end);
    CurrentParsesIff(data, start, end, |es|);
  }

  lemma CurrentParsesIff(data: seq<u8>, start: u32, end: u32, n: nat)
    requires OpenLog(data) == Ok(CurrentLog(start, end, n)) && |data| >= HEADER_SIZE
    ensures ReadLog(data).Ok? <==> (|data| - HEADER_SIZE) % ENTRY_SIZE == 0
  {
    ParsesIff(CurrentLog(start, end, n), data);
  }

  /**
   * The header of a dump: version 2, the clock readings, and a size word that counts the bytes of
   * the entries exactly when these are fewer than 2^32. The file is no longer than header and
   * entries exactly when it held no more before.
   */
  lemma HeaderRoundTrip(before: seq<u8>, slots: seq<Slot>, start: u32, end: u32)
    ensures var data, es := Dumped(before, slots, start, end), Occupied(slots);
      && StampedAs(data, start, end)
      && (CountsEntries(data, |es|) <==> |es| <= 89478485)
      && (|data| == HEADER_SIZE + ENTRY_SIZE * |es| <==> |before| <= HEADER_SIZE + ENTRY_SIZE * |es|)
  {
    var size := Wrap32(|Occupied(slots)| * ENTRY_SIZE);
    DumpedParts(before, slots, start, end);
    ReadsBack(Dumped(before, slots, start, end), before, Occupied(slots), start, end);
    DumpSize(Dumped(before, slots, start, end), before, Occupied(slots), start, end);
    HeaderFields(start, end, size);
    SizeWord(|Occupied(slots)|);
  }

  /** A file of the current format whose header gives the two times of its dump. */
  predicate StampedAs(data: seq<u8>, start: u32, end: u32) {
    && OpenLog(data).Ok? && OpenLog(data).value.version == V2
    && StartTime in OpenLog(data).value.header && OpenLog(data).value.header[StartTime] == start
    && EndTime in OpenLog(data).value.header && OpenLog(data).value.header[EndTime] == end
  }

  /** A file of the current format whose size word counts n entries. */
  predicate CountsEntries(data: seq<u8>, n: nat) {
    && OpenLog(data).Ok? && OpenLog(data).value.version == V2
    && Nentries in OpenLog(data).value.header && OpenLog(data).value.header[Nentries] == ENTRY_SIZE * n
  }

  lemma HeaderFields(start: u32, end: u32, size: u32)
    ensures var h := HeaderDict(start, end, size);
      h.Keys >= {StartTime, EndTime, Nentries} && (h[StartTime], h[EndTime], h[Nentries]) == (start, end, size)
  {
  }

  /** The size word counts the bytes of the entries, unless 2^32 of them are exceeded. */
  lemma SizeWord(n: nat)
    ensures Wrap32(n * ENTRY_SIZE) == ENTRY_SIZE * n <==> n <= 89478485
  {
  }

  // ---- Tables too large to be dumped ----

  /** A dump visits the whole table exactly when the table has at most 2^26 slots. */
  lemma DumpLimitIff(bits: nat)
    requires 1 <= bits <= 30
    ensures DumpLimit(bits) == Pow2(bits) <==> bits <= 26
    ensures DumpLimit(bits) <= Pow2(bits)
  {
    assert Pow2(10) == 1024;
    assert Pow2(20) == 1024 * 1024 by { assert Pow2(15) == 32768; }
    assert Pow2(26) == 64 * 1024 * 1024;
    assert Pow2(27) == 128 * 1024 * 1024 && Pow2(28) == 256 * 1024 * 1024;
    assert Pow2(29) == 512 * 1024 * 1024 && Pow2(30) == 1024 * 1024 * 1024;
    if bits <= 26 {
      Pow2Monotone(bits, 26);
      assert Wrap32(Pow2(bits) * SLOT_SIZE) == Pow2(bits) * SLOT_SIZE;
    }
  }

  /** How many slots the larger tables have visited; of the two largest none. */
  lemma DumpLimits()
    ensures DumpLimit(26) == 0x400_0000 && DumpLimit(27) == 57521883 && DumpLimit(28) == 38347922
    ensures DumpLimit(29) == 0 && DumpLimit(30) == 0
  {
    assert Pow2(10) == 1024;
    assert Pow2(20) == 1024 * 1024 by { assert Pow2(15) == 32768; }
    assert Pow2(26) == 64 * 1024 * 1024;
    assert Pow2(27) == 128 * 1024 * 1024 && Pow2(28) == 256 * 1024 * 1024;
    assert Pow2(29) == 512 * 1024 * 1024 && Pow2(30) == 1024 * 1024 * 1024;
  }

  // ---- Older formats ----

  /** A file in the header format that older writers shared. */
  ghost function OldFile(ws: seq<nat>, start: u32, end: u32, n: u32, vss: seq<seq<nat>>): seq<u8>
    requires AllFit(ws, vss)
  {
    Pack(HEADER_V1A.widths, [start, end, n], 3) + PackAll(ws, vss)
  }

  function OldHeader(start: u32, end: u32, n: u32): Dict {
    map[StartTime := start, EndTime := end, Nentries := n]
  }

  /** A start time whose low three bytes, as they lie in the file, are the magic. */
  predicate SpellsMagic(start: u32) {
    start % 0x100_0000 == 0x41_4E50
  }

  lemma StartBytes(start: u32)
    ensures LittleEndian(start, 4)[..3] == ['P' as int, 'N' as int, 'A' as int] <==> SpellsMagic(start)
    ensures LittleEndian(start, 4)[3] == start / 0x100_0000
  {
    var x, y, z := start / 0x100, start / 0x1_0000, start / 0x100_0000;
    assert LittleEndian(start, 4) == [start % 0x100] + LittleEndian(x, 3);
    assert LittleEndian(x, 3) == [x % 0x100] + LittleEndian(y, 2);
    assert LittleEndian(y, 2) == [y % 0x100] + LittleEndian(z, 1);
    assert LittleEndian(z, 1) == [z];
    assert LittleEndian(start, 4)[..3] == [start % 0x100, x % 0x100, y % 0x100];
    LowBytes(start, x, y, z);
  }

  lemma LowBytes(v: nat, x: nat, y: nat, z: nat)
    requires x == v / 0x100 && y == x / 0x100 && z == y / 0x100
    ensures v % 0x100_0000 == v % 0x100 + 0x100 * (x % 0x100) + 0x1_0000 * (y % 0x100)
  {
    assert v == 0x100_0000 * z + (v % 0x100 + 0x100 * (x % 0x100) + 0x1_0000 * (y % 0x100));
    ModUnique(v, z, v % 0x100 + 0x100 * (x % 0x100) + 0x1_0000 * (y % 0x100), 0x100_0000);
  }

  /** An old file starts with its start time. */
  lemma OldFileStarts(ws: seq<nat>, start: u32, end: u32, n: u32, vss: seq<seq<nat>>)
    requires AllFit(ws, vss)
    ensures var data := OldFile(ws, start, end, n, vss);
      && |data| >= 12 && (StartsWithMagic(data) <==> SpellsMagic(start)) && data[3] == start / 0x100_0000
  {
    var data, hs := OldFile(ws, start, end, n, vss), HEADER_V1A.widths;
    FormatSizes();
    PackPrefix(hs, [start, end, n], 1, 3);
    assert Pack(hs, [start, end, n], 1) == LittleEndian(start, 4);
    assert data[..4] == LittleEndian(start, 4);
    assert data[..3] == data[..4][..3];
    StartBytes(start);
  }

  /** What an old file is taken for whose start time spells the magic: never an old file. */
  ghost predicate Mistaken(data: seq<u8>, start: u32, empty: bool) {
    if start / 0x100_0000 != 2 then OpenLog(data) == Err(KeyError)
    else if empty then OpenLog(data) == Err(StructError)
    else OpenLog(data).Ok? && OpenLog(data).value.version == V2
  }

  lemma OldFileMistaken(ws: seq<nat>, start: u32, end: u32, n: u32, vss: seq<seq<nat>>)
    requires AllFit(ws, vss) && SpellsMagic(start) && Size(ws, |ws|) >= 4
    ensures Mistaken(OldFile(ws, start, end, n, vss), start, vss == [])
  {
    OldFileStarts(ws, start, end, n, vss);
    OldFileSize(ws, start, end, n, vss);
    MagicMistaken(OldFile(ws, start, end, n, vss), start, vss == []);
  }

  lemma OldFileSize(ws: seq<nat>, start: u32, end: u32, n: u32, vss: seq<seq<nat>>)
    requires AllFit(ws, vss)
    ensures var data := OldFile(ws, start, end, n, vss);
      if vss == [] then |data| == 12 else |data| >= 12 + Size(ws, |ws|)
  {
    FormatSizes();
    PackAllSize(ws, vss);
    if vss != [] {
      MulMonotone(Size(ws, |ws|), 1, |vss|);
    }
  }

  lemma MagicMistaken(data: seq<u8>, start: u32, empty: bool)
    requires StartsWithMagic(data) && |data| >= 4 && data[3] == start / 0x100_0000
    requires if empty then |data| == 12 else |data| >= 16
    ensures Mistaken(data, start, empty)
  {
    FormatSizes();
  }

  lemma OldFileOpens(ws: seq<nat>, start: u32, end: u32, n: u32, vss: seq<seq<nat>>)
    requires AllFit(ws, vss) && !SpellsMagic(start)
    ensures var data := OldFile(ws, start, end, n, vss);
      OpenLog(data) ==
        if |data| < 52 then Err(StructError)
        else Ok(LogAt(if data[50] == 0 && data[51] == 0 then V1a else V1, OldHeader(start, end, n), 12))
  {
    var data := OldFile(ws, start, end, n, vss);
    OldFileStarts(ws, start, end, n, vss);
    OldHeaderReads(ws, start, end, n, vss);
    FormatSizes();
    if |data| >= 52 {
      PeekBlanks(data);
    }
  }

  lemma OldHeaderReads(ws: seq<nat>, start: u32, end: u32, n: u32, vss: seq<seq<nat>>)
    requires AllFit(ws, vss)
    ensures ReadRecord(HEADER_V1A, OldFile(ws, start, end, n, vss), 0) == Ok(OldHeader(start, end, n))
  {
    var data := OldFile(ws, start, end, n, vss);
    FormatSizes();
    assert Pow256(4) == 0x1_0000_0000;
    assert data[0..12] == Pack(HEADER_V1A.widths, [start, end, n], 3);
    UnpackPack(HEADER_V1A.widths, [start, end, n], 3, data, 0);
    assert [start, end, n][..3] == [start, end, n];
    assert Zip(HEADER_V1A.names, [start, end, n], 3) == OldHeader(start, end, n);
  }

  /** The blanks that the peek looks at are the last two of the 40 bytes behind the header. */
  lemma PeekBlanks(data: seq<u8>)
    requires |data| >= 52
    ensures FormatSize(ENTRY_V1A) == 40
    ensures ReadRecord(ENTRY_V1A, data, 12).Ok?
    ensures BlanksAreZero(ReadRecord(ENTRY_V1A, data, 12).value) <==> data[50] == 0 && data[51] == 0
  {
    FormatSizes();
    var ws := ENTRY_V1A.widths;
    var vs := Unpack(ws, data, 12, 15);
    assert |ws| == 15 && Size(ws, 15) == 40 && Size(ws, 14) == 39 && Size(ws, 13) == 38;
    UnpackAt(ws, data, 12, 15, 13);
    UnpackAt(ws, data, 12, 15, 14);
    assert FromLittleEndian([data[50]]) == data[50] && FromLittleEndian([data[51]]) == data[51];
    assert data[50..51] == [data[50]] && data[51..52] == [data[51]];
    ZipTwo(ENTRY_V1A.names, vs, 13);
  }

  lemma {:induction false} PackAllSize(ws: seq<nat>, vss: seq<seq<nat>>)
    requires AllFit(ws, vss)
    ensures |PackAll(ws, vss)| == |vss| * Size(ws, |ws|)
    decreases |vss|
  {
    if vss != [] {
      PackAllSize(ws, vss[1..]);
      var size := Size(ws, |ws|);
      assert |vss| * size == size + (|vss| - 1) * size;
    }
  }

  /** The reader reads all of an old file once it has settled on the right entry format. */
  lemma ReadsOldFile(v: Version, start: u32, end: u32, n: u32, vss: seq<seq<nat>>)
    requires v != V2
    requires AllFit(EntryFormat(v).widths, vss)
    ensures var data := OldFile(EntryFormat(v).widths, start, end, n, vss);
      && |data| == 12 + |vss| * FormatSize(EntryFormat(v))
      && ReadEntries(LogAt(v, OldHeader(start, end, n), 12), data)
         == Ok(Sessions(LogAt(v, OldHeader(start, end, n), 12), vss))
  {
    var ws := EntryFormat(v).widths;
    var log := LogAt(v, OldHeader(start, end, n), 12);
    var data := OldFile(ws, start, end, n, vss);
    FormatSizes();
    PackAllSize(ws, vss);
    EarlyRecords(ws, start, end, n, vss);
    ReadsRecords(log, data, vss);
    SkipPosition(log, |vss|);
    var all := Sessions(log, vss);
    assert all + [] == all;
  }

  /** The first record lies behind the header, the second behind the first. */
  lemma EarlyRecords(ws: seq<nat>, start: u32, end: u32, n: u32, vss: seq<seq<nat>>)
    requires AllFit(ws, vss)
    ensures LaidOut(OldFile(ws, start, end, n, vss), 12, ws, vss)
    ensures |vss| >= 2 ==> LaidOut(OldFile(ws, start, end, n, vss), 12 + Size(ws, |ws|), ws, vss[1..])
  {
    FormatSizes();
    var data := OldFile(ws, start, end, n, vss);
    SliceBehind(Pack(HEADER_V1A.widths, [start, end, n], 3), PackAll(ws, vss));
    PackedIsLaidOut(data, 12, ws, vss);
  }

  lemma SliceBehind(a: seq<u8>, b: seq<u8>)
    ensures (a + b)[|a|..|a| + |b|] == b
  {
  }

  lemma V1aBlanks(start: u32, end: u32, n: u32, vss: seq<seq<nat>>)
    requires AllFit(ENTRY_V1A.widths, vss) && vss != []
    ensures var data := OldFile(ENTRY_V1A.widths, start, end, n, vss);
            |data| >= 52 && data[50] == vss[0][13] && data[51] == vss[0][14]
  {
    var ws, vs, data := ENTRY_V1A.widths, vss[0], OldFile(ENTRY_V1A.widths, start, end, n, vss);
    FormatSizes();
    EarlyRecords(ws, start, end, n, vss);
    assert |ws| == 15 && Size(ws, 15) == 40 && Size(ws, 14) == 39 && Size(ws, 13) == 38;
    ByteField(ws, vs, data, 12, 13);
    ByteField(ws, vs, data, 12, 14);
  }

  /** A one-byte field of a record is the byte at its offset. */
  lemma ByteField(ws: seq<nat>, vs: seq<nat>, data: seq<u8>, pos: nat, i: nat)
    requires Fits(ws, vs) && i < |ws| && ws[i] == 1 && pos + Size(ws, |ws|) <= |data|
    requires data[pos..pos + Size(ws, |ws|)] == Pack(ws, vs, |ws|)
    ensures pos + Size(ws, i) < |data| && data[pos + Size(ws, i)] == vs[i]
  {
    UnpackPack(ws, vs, |ws|, data, pos);
    UnpackAt(ws, data, pos, |ws|, i);
    var at := pos + Size(ws, i);
    assert data[at..at + 1] == [data[at]];
    assert FromLittleEndian([data[at]]) == data[at];
  }

  lemma V1Blanks(start: u32, end: u32, n: u32, vss: seq<seq<nat>>)
    requires AllFit(ENTRY_V1.widths, vss) && |vss| >= 2
    ensures var data := OldFile(ENTRY_V1.widths, start, end, n, vss);
            |data| >= 52 && (data[50] == 0 && data[51] == 0 <==> vss[1][0] < TWO16)
  {
    var ws, vs, data := ENTRY_V1.widths, vss[1], OldFile(ENTRY_V1.widths, start, end, n, vss);
    FormatSizes();
    EarlyRecords(ws, start, end, n, vss);
    assert |ws| == 13 && Size(ws, 13) == 36 && Size(ws, 0) == 0 && ws[0] == 4;
    assert vss[1..][0] == vs;
    UnpackPack(ws, vs, 13, data, 48);
    UnpackAt(ws, data, 48, 13, 0);
    assert vs[..13] == vs;
    UpperHalf(data[48..52]);
  }

  /**
   * A file of 40-byte entries is recognised exactly when its start time does not spell the magic
   * and its first entry has zero blanks; an empty one cannot be opened. Once it is recognised every
   * entry comes back.
   */
  lemma V1aReadsBack(start: u32, end: u32, n: u32, vss: seq<seq<nat>>)
    requires AllFit(ENTRY_V1A.widths, vss)
    ensures var data, header := OldFile(ENTRY_V1A.widths, start, end, n, vss), OldHeader(start, end, n);
      && (if SpellsMagic(start) then Mistaken(data, start, vss == [])
          else OpenLog(data) == (if vss == [] then Err(StructError)
                                 else Ok(LogAt(if vss[0][13] == 0 && vss[0][14] == 0 then V1a else V1, header, 12))))
      && ReadEntries(LogAt(V1a, header, 12), data) == Ok(Sessions(LogAt(V1a, header, 12), vss))
  {
    FormatSizes();
    ReadsOldFile(V1a, start, end, n, vss);
    if SpellsMagic(start) {
      OldFileMistaken(ENTRY_V1A.widths, start, end, n, vss);
    } else {
      OldFileOpens(ENTRY_V1A.widths, start, end, n, vss);
      if vss != [] {
        V1aBlanks(start, end, n, vss);
      }
    }
  }

  /**
   * A file of 36-byte entries is recognised exactly when its start time does not spell the magic,
   * it has two entries or more and the second has a local address outside the first 2^16; with
   * fewer entries it cannot be opened.
   */
  lemma V1ReadsBack(start: u32, end: u32, n: u32, vss: seq<seq<nat>>)
    requires AllFit(ENTRY_V1.widths, vss)
    ensures var data, header := OldFile(ENTRY_V1.widths, start, end, n, vss), OldHeader(start, end, n);
      && (if SpellsMagic(start) then Mistaken(data, start, vss == [])
          else OpenLog(data) == (if |vss| < 2 then Err(StructError)
                                 else Ok(LogAt(if vss[1][0] < TWO16 then V1a else V1, header, 12))))
      && ReadEntries(LogAt(V1, header, 12), data) == Ok(Sessions(LogAt(V1, header, 12), vss))
  {
    FormatSizes();
    ReadsOldFile(V1, start, end, n, vss);
    if SpellsMagic(start) {
      OldFileMistaken(ENTRY_V1.widths, start, end, n, vss);
    } else {
      OldFileOpens(ENTRY_V1.widths, start, end, n, vss);
      if |vss| >= 2 {
        V1Blanks(start, end, n, vss);
      }
    }
  }

  /** What a session of the two old formats holds: its own fields and the reader's defaults. */
  lemma V1Session(header: Dict, pos: nat, vs: seq<nat>)
    requires |vs| == 13 && EndTime in header
    ensures Session(LogAt(V1, header, pos), vs)
         == map[LocalIp := vs[0], RemoteIp := vs[1], LocalPort := vs[2], RemotePort := vs[3],
                PacketsOut := vs[4], PacketsIn := vs[5], OctetsOut := vs[6], OctetsIn := vs[7],
                BeginTime := vs[8], L4Protocol := vs[9], FirstDirection := vs[10], Blank0 := vs[11], Blank1 := vs[12],
                L3Protocol := 4, LocalFlags := 0, RemoteFlags := 0, EndTime := header[EndTime],
                LocalNetid := 1, RemoteNetid := 65535]
  {
    V1FieldsTo9(vs);
    ZipTwo(ENTRY_V1.names, vs, 9);
    ZipTwo(ENTRY_V1.names, vs, 11);
  }

  lemma V1FieldsTo9(vs: seq<nat>)
    requires |vs| == 13
    ensures Zip(ENTRY_V1.names, vs, 9)
         == map[LocalIp := vs[0], RemoteIp := vs[1], LocalPort := vs[2], RemotePort := vs[3],
                PacketsOut := vs[4], PacketsIn := vs[5], OctetsOut := vs[6], OctetsIn := vs[7], BeginTime := vs[8]]
  {
    var names := ENTRY_V1.names;
    assert Zip(names, vs, 5) == map[LocalIp := vs[0], RemoteIp := vs[1], LocalPort := vs[2], RemotePort := vs[3],
                                    PacketsOut := vs[4]];
    ZipTwo(names, vs, 5);
    ZipTwo(names, vs, 7);
  }

  lemma V1aSession(header: Dict, pos: nat, vs: seq<nat>)
    requires |vs| == 15 && EndTime in header
    ensures Session(LogAt(V1a, header, pos), vs)
         == map[LocalIp := vs[0], RemoteIp := vs[1], LocalPort := vs[2], RemotePort := vs[3],
                LocalNetid := vs[4], RemoteNetid := vs[5],
                PacketsOut := vs[6], PacketsIn := vs[7], OctetsOut := vs[8], OctetsIn := vs[9],
                BeginTime := vs[10], L4Protocol := vs[11], FirstDirection := vs[12], Blank0 := vs[13], Blank1 := vs[14],
                L3Protocol := 4, LocalFlags := 0, RemoteFlags := 0, EndTime := header[EndTime]]
  {
    V1aFieldsTo9(vs);
    ZipTwo(ENTRY_V1A.names, vs, 9);
    ZipTwo(ENTRY_V1A.names, vs, 11);
    ZipTwo(ENTRY_V1A.names, vs, 13);
  }

  lemma V1aFieldsTo9(vs: seq<nat>)
    requires |vs| == 15
    ensures Zip(ENTRY_V1A.names, vs, 9)
         == map[LocalIp := vs[0], RemoteIp := vs[1], LocalPort := vs[2], RemotePort := vs[3],
                LocalNetid := vs[4], RemoteNetid := vs[5],
                PacketsOut := vs[6], PacketsIn := vs[7], OctetsOut := vs[8]]
  {
    var names := ENTRY_V1A.names;
    assert Zip(names, vs, 5) == map[LocalIp := vs[0], RemoteIp := vs[1], LocalPort := vs[2], RemotePort := vs[3],
                                    LocalNetid := vs[4]];
    ZipTwo(names, vs, 5);
    ZipTwo(names, vs, 7);
  }

  lemma UpperHalf(bs: seq<u8>)
    requires |bs| == 4
    ensures FromLittleEndian(bs) >= TWO16 <==> !(bs[2] == 0 && bs[3] == 0)
  {
    assert FromLittleEndian(bs) == bs[0] + 0x100 * FromLittleEndian(bs[1..]);
    assert FromLittleEndian(bs[1..]) == bs[1] + 0x100 * FromLittleEndian(bs[1..][1..]);
    assert bs[1..][1..] == [bs[2], bs[3]];
    assert FromLittleEndian([bs[2], bs[3]]) == bs[2] + 0x100 * FromLittleEndian([bs[3]]) by {
      assert [bs[2], bs[3]][1..] == [bs[3]];
    }
    assert FromLittleEndian([bs[3]]) == bs[3];
  }
}
