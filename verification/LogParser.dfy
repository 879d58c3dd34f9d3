/** The log reader: it detects the format version and reads the entries one by one. */
module LogParser {
  import opened Words
  import opened Packing

  datatype Error = KeyError | IndexError | StructError

  datatype Result<+T> = Ok(value: T) | Err(error: Error)

  /** The names of header and entry fields. */
  datatype Name =
    | Magic0 | Magic1 | Magic2 | FormatVersion | StartTime | EndTime | Nentries
    | LocalIp | RemoteIp | LocalPort | RemotePort | LocalNetid | RemoteNetid
    | PacketsOut | PacketsIn | OctetsOut | OctetsIn | LocalFlags | RemoteFlags
    | BeginTime | L4Protocol | FirstDirection | Blank0 | Blank1 | L3Protocol

  datatype Version = V1 | V1a | V2

  /** A Python dictionary from field names to values. */
  type Dict = map<Name, nat>

  const EXTERNAL_NETID: nat := 65535
  const IPPROTO_IPIP: nat := 4

  datatype Format = Format(names: seq<Name>, widths: seq<nat>)

  // The struct codes c and B are one byte wide, H two and I four; none of these formats needs padding.
  const HEADER_V1A := Format([StartTime, EndTime, Nentries], [4, 4, 4])
  const HEADER_V2 := Format([Magic0, Magic1, Magic2, FormatVersion, StartTime, EndTime, Nentries],
                            [1, 1, 1, 1, 4, 4, 4])
  const ENTRY_V1 := Format(
    [LocalIp, RemoteIp, LocalPort, RemotePort, PacketsOut, PacketsIn, OctetsOut, OctetsIn,
     BeginTime, L4Protocol, FirstDirection, Blank0, Blank1],
    [4, 4, 2, 2, 4, 4, 4, 4, 4, 1, 1, 1, 1])
  const ENTRY_V1A := Format(
    [LocalIp, RemoteIp, LocalPort, RemotePort, LocalNetid, RemoteNetid,
     PacketsOut, PacketsIn, OctetsOut, OctetsIn,
     BeginTime, L4Protocol, FirstDirection, Blank0, Blank1],
    [4, 4, 2, 2, 2, 2, 4, 4, 4, 4, 4, 1, 1, 1, 1])
  const ENTRY_V2 := Format(
    [LocalIp, RemoteIp, LocalPort, RemotePort, LocalNetid, RemoteNetid,
     PacketsOut, PacketsIn, OctetsOut, OctetsIn, LocalFlags, RemoteFlags,
     BeginTime, EndTime, L4Protocol, FirstDirection, Blank0, Blank1],
    [4, 4, 2, 2, 2, 2, 4, 4, 4, 4, 2, 2, 4, 4, 1, 1, 1, 1])

  /** The size of a record in bytes. */
  function FormatSize(f: Format): nat {
    Size(f.widths, |f.widths|)
  }

  lemma FormatSizes()
    ensures FormatSize(HEADER_V1A) == 12 && FormatSize(HEADER_V2) == 16
    ensures FormatSize(ENTRY_V1) == 36 && FormatSize(ENTRY_V1A) == 40 && FormatSize(ENTRY_V2) == 48
  {
    assert |HEADER_V1A.widths| == 3 && |HEADER_V2.widths| == 7 && Size(HEADER_V2.widths, 4) == 4;
    OldEntrySizes();
    CurrentEntrySize();
  }

  lemma OldEntrySizes()
    ensures FormatSize(ENTRY_V1) == 36 && FormatSize(ENTRY_V1A) == 40
  {
    var v1, v1a := ENTRY_V1.widths, ENTRY_V1A.widths;
    assert |v1| == 13 && |v1a| == 15;
    assert Size(v1, 5) == 16 && Size(v1a, 5) == 14;
    assert Size(v1, 9) == 32 && Size(v1a, 10) == 32;
  }

  lemma CurrentEntrySize()
    ensures FormatSize(ENTRY_V2) == 48
  {
    var v2 := ENTRY_V2.widths;
    assert |v2| == 18 && Size(v2, 5) == 14 && Size(v2, 10) == 32 && Size(v2, 14) == 44;
  }

  /** A format that can be read again and again: its records are not empty. */
  type RecordFormat = f: Format | |f.names| == |f.widths| && FormatSize(f) > 0
    witness Format([Blank0], [1])

  /** dict(zip(names, values)): a later value for the same name replaces an earlier one. */
  function Zip(names: seq<Name>, values: seq<nat>, n: nat): Dict
    requires n <= |names| && n <= |values|
    decreases n
  {
    if n == 0 then map[] else Zip(names, values, n - 1)[names[n - 1] := values[n - 1]]
  }

  /** struct.unpack_from, zipped with the field names. */
  function ReadRecord(f: Format, data: seq<u8>, pos: nat): Result<Dict>
    requires |f.names| == |f.widths|
  {
    if |data| < pos + FormatSize(f) then Err(StructError)
    else Ok(Zip(f.names, Unpack(f.widths, data, pos, |f.widths|), |f.names|))
  }

  function HeaderFormat(v: Version): Format
    requires v != V1
  {
    if v == V2 then HEADER_V2 else HEADER_V1A
  }

  function EntryFormat(v: Version): RecordFormat {
    FormatSizes();
    match v
    case V1 => ENTRY_V1
    case V1a => ENTRY_V1A
    case V2 => ENTRY_V2
  }

  predicate StartsWithMagic(data: seq<u8>) {
    |data| >= 3 && data[..3] == ['P' as int, 'N' as int, 'A' as int]
  }

  /** The version a file claims; only version byte 2 has a header format. */
  function ClaimedVersion(data: seq<u8>): (r: Result<Version>)
    ensures r == Ok(V2) <==> ['P' as int, 'N' as int, 'A' as int, 2] <= data
    ensures r == Ok(V1a) <==> !(['P' as int, 'N' as int, 'A' as int] <= data)
    ensures r == Err(IndexError) <==> data == ['P' as int, 'N' as int, 'A' as int]
    ensures r in {Ok(V2), Ok(V1a), Err(IndexError), Err(KeyError)}
  {
    if !StartsWithMagic(data) then Ok(V1a)
    else if |data| < 4 then Err(IndexError)
    else if data[3] == 2 then Ok(V2)
    else Err(KeyError)
  }

  /** An open log: its version and entry format, its header and the position of the next entry. */
  datatype Log = Log(version: Version, format: RecordFormat, header: Dict, position: nat)

  function LogAt(v: Version, header: Dict, position: nat): Log {
    Log(v, EntryFormat(v), header, position)
  }

  function OpenLog(data: seq<u8>): Result<Log> {
    var claimed := ClaimedVersion(data);
    if claimed.Err? then Err(claimed.error)
    else
      var f := HeaderFormat(claimed.value);
      var header := ReadRecord(f, data, 0);
      if header.Err? then Err(header.error)
      else if claimed.value == V2 then Ok(LogAt(V2, header.value, FormatSize(f)))
      else
        var peek := ReadRecord(ENTRY_V1A, data, FormatSize(f));
        if peek.Err? then Err(peek.error)
        else Ok(LogAt(if BlanksAreZero(peek.value) then V1a else V1, header.value, FormatSize(f)))
  }

  predicate BlanksAreZero(entry: Dict) {
    Blank0 in entry && Blank1 in entry && entry[Blank0] == 0 && entry[Blank1] == 0
  }

  /** The fields that older formats lack, with the values the reader gives them. */
  function Complete(v: Version, header: Dict, entry: Dict): Dict {
    if v == V2 then entry
    else
      var e := entry[L3Protocol := IPPROTO_IPIP][LocalFlags := 0][RemoteFlags := 0]
                    [EndTime := if EndTime in header then header[EndTime] else 0];
      if v == V1 then e[LocalNetid := 1][RemoteNetid := EXTERNAL_NETID] else e
  }

  function ReadEntry(log: Log, data: seq<u8>): Result<Dict> {
    var entry := ReadRecord(log.format, data, log.position);
    if entry.Err? then entry else Ok(Complete(log.version, log.header, entry.value))
  }

  /** All entries from the position of the log to the end of the file. */
  function ReadEntries(log: Log, data: seq<u8>): Result<seq<Dict>>
    decreases |data| - log.position
  {
    if log.position >= |data| then Ok([])
    else
      var entry := ReadEntry(log, data);
      if entry.Err? then Err(entry.error)
      else Prepend([entry.value], ReadEntries(Advance(log), data))
  }

  function Advance(log: Log): (log': Log)
    ensures log'.position > log.position
  {
    log.(position := log.position + FormatSize(log.format))
  }

  function Prepend(front: seq<Dict>, r: Result<seq<Dict>>): Result<seq<Dict>> {
    if r.Err? then r else Ok(front + r.value)
  }

  lemma PrependNothing(r: Result<seq<Dict>>)
    ensures Prepend([], r) == r
  {
    assert r.Ok? ==> [] + r.value == r.value;
  }

  lemma PrependTwice(a: seq<Dict>, b: seq<Dict>, r: Result<seq<Dict>>)
    ensures Prepend(a, Prepend(b, r)) == Prepend(a + b, r)
  {
    assert r.Ok? ==> a + (b + r.value) == (a + b) + r.value;
  }

  class PNALogParser {
    const data: seq<u8>
    var position: nat
    var version: Version
    var header: Dict
    var entryFormat: RecordFormat

    ghost function View(): Log
      reads this
    {
      Log(version, entryFormat, header, position)
    }

    constructor (data: seq<u8>)
      ensures this.data == data && position == 0
    {
      this.data, position, version, header := data, 0, V2, map[];
      entryFormat := EntryFormat(V2);
    }

    /** The rest of __init__: find the version, read the header, peek at the first entry. */
    method Open() returns (r: Result<()>)
      requires position == 0
      modifies this
      ensures OpenLog(data).Err? ==> r == Err(OpenLog(data).error)
      ensures OpenLog(data).Ok? ==> r == Ok(()) && View() == OpenLog(data).value
    {
      var claimed := ClaimedVersion(data);
      if claimed.Err? {
        return Err(claimed.error);
      }
      version := claimed.value;
      SetEntryType();
      var head := ParseHeader();
      if head.Err? {
        return Err(head.error);
      }
      header := head.value;
      if version == V1a {
        var entry := ReadRecord(entryFormat, data, position);
        if entry.Err? {
          return Err(entry.error);
        }
        if !BlanksAreZero(entry.value) {
          version := V1;
          SetEntryType();
        }
      }
      return Ok(());
    }

    method SetEntryType()
      modifies this`entryFormat
      ensures entryFormat == EntryFormat(version)
    {
      entryFormat := EntryFormat(version);
    }

    method ParseHeader() returns (r: Result<Dict>)
      requires version != V1
      modifies this`position
      ensures r == ReadRecord(HeaderFormat(version), data, old(position))
      ensures position == if r.Ok? then old(position) + FormatSize(HeaderFormat(version)) else old(position)
    {
      r := ReadRecord(HeaderFormat(version), data, position);
      if r.Ok? {
        position := position + FormatSize(HeaderFormat(version));
      }
    }

    method ParseEntry() returns (r: Result<Dict>)
      modifies this`position
      ensures r == ReadEntry(old(View()), data)
      ensures View() == if r.Ok? then Advance(old(View())) else old(View())
    {
      r := ReadRecord(entryFormat, data, position);
      if r.Err? {
        return;
      }
      position := position + FormatSize(entryFormat);
      r := Ok(Complete(version, header, r.value));
    }

    /** All entries of an open log. */
    method Parse() returns (r: Result<seq<Dict>>)
      modifies this`position
      ensures r == ReadEntries(old(View()), data)
      ensures r.Ok? ==> position >= |data|
    {
      var sessions: seq<Dict> := [];
      ghost var all := ReadEntries(View(), data);
      PrependNothing(all);
      while position < |data|
        invariant Prepend(sessions, ReadEntries(View(), data)) == all
        decreases |data| - position
      {
        ghost var log := View();
        var entry := ParseEntry();
        if entry.Err? {
          return Err(entry.error);
        }
        PrependTwice(sessions, [entry.value], ReadEntries(View(), data));
        sessions := sessions + [entry.value];
      }
      assert sessions + [] == sessions;
      return Ok(sessions);
    }
  }
}
