# A verified model of the passive network monitor

The monitor turns captured frames into a sequence of binary flow logs. This project models the whole
path in Dafny and proves what holds of every run: a frame is decoded through VLAN tags and nested GRE
tunnels, fragments find their ports in a ring of fingerprints, the key is oriented by a
longest-prefix trie, the packet is counted in one of several rotating open-addressing tables, a
table is dumped through a byte buffer, and an independent reader parses the file back.

Objects that the C and Python code update in place are classes (`FlowTab`, `FlowMonitor`, `Trie`,
`Node`, `FragTable`, `KeyBuffer`, `OutFile`, `PNALogParser`, `Monitor`). Each method is proved to
compute a function of the old state; the theorems about runs are lemmas about those functions.

| file | content |
|---|---|
| `Words`, `Hashing`, `Probing` | 32-bit arithmetic, the multiplicative hash, triangular probing |
| `Flows`, `FlowTable`, `TableMap` | keys and counters, the slot array, the map it represents |
| `Packing`, `DumpTable` | little-endian records, the buffered log writer |
| `LogParser`, `LogRoundTrip`, `Layout` | the version-detecting reader, what it makes of written files, and the formats byte by byte |
| `FlowMon`, `Summaries`, `Epochs`, `WholeRun` | table rotation, what an epoch amounts to, runs from init to cleanup |
| `EpochCuts`, `ProbeCounts`, `Locking` | when epochs end, what the probe statistics count, the search for an unlocked table |
| `LogNames` | the log directory: names of dumps, and which of them are still on disk after a run |
| `Prefixes`, `DomainTrie` | longest-prefix match as a rule, and the heap trie that computes it |
| `FragRing`, `Sessions` | the fragment ring, localization of keys |
| `Decoding`, `Encapsulation`, `Wire`, `Discards` | frames to keys; tagged and tunnelled frames; packets built from fields; frames that are given up |
| `PacketHooks`, `EndToEnd` | the packet hook on the whole state, and the theorems from frames to parsed logs |
| `Conversations`, `Fragments`, `LargeTables` | runs again: sessions and their senders, fragmented datagrams, table sizes |

## Main results

- `EndToEnd.LogsReportRun`, `LargeTables.ConservesIff`: for every sequence of captured frames, the
  dumps report exactly the recorded packets, each in exactly one dump and one entry, with exact
  counters and an exact size word; this holds of all runs iff a table has at most 2^26 slots (the
  program uses 2^16). A dump is what was written, up to its last entry, whatever the file held
  before; `WholeRun.ReportsOnce` shows that its content determines every entry of the epoch.
- `Conversations.LogsSplitBySender`: an entry's outbound and inbound counters are the numbers of
  recorded captures of its epoch whose headers go from its local endpoint to its remote one, and
  back; a TCP flag is set in a direction iff one of its captures had it.
- `EndToEnd.EpochTimes`: the epochs of every run are its recorded packets cut before each one that
  comes ten seconds or more after the first of its epoch, or at a ten-second boundary in another
  second, and nowhere else; `EndToEnd.LogsStamped`: the times in the header of each log are those at
  which the first packet of the next epoch arrived.
- `FlowTable.TriesInNumbers`, `Flows.FlowsOfSlot`, `ProbeCounts.ProbesCountTries`: where a flow is
  looked for, in numbers; every slot is the hash of exactly 2^(32 - bits) remote addresses; over whole
  runs the probe statistics count exactly the tries made.
- `EndToEnd.LogOnDiskIff`, `EndToEnd.AllOnDiskIff`: which logs are on disk in the end, for every run
  whose clock is not set back; `EndToEnd.LiveLogsOnDisk` and `EndToEnd.ReplayKeepsLastRound` are the
  live capture and the reading of a capture file.
- `Conversations.SessionMerges`, `EndToEnd.NoMirrorImages`: both directions of a session are one flow and one entry.
- `Wire.FieldsRoundTrip`: a frame decodes to the fields its innermost packet was built from, whatever
  its tags and tunnels and however much of its payload was captured.
- `Discards.OtherTypeDropped`, `Discards.OtherTunnelDropped`, `Discards.DeclaredLengthDecides`: what is
  given up, behind any tags and inside any tunnels.
- `Fragments.DatagramStaysTogether`, `Fragments.TwoDatagramsKeepPorts`: fragments of one UDP datagram
  reach the tables with one key and direction, those of two datagrams each with their own.
- `DomainTrie.Trie.Find` with `Prefixes.LookupIsLongestMatch`: the heap trie computes longest-prefix match.
- `TableMap.RecordRefines`: open addressing with 32 tries refines a map, with the exact outcome of every call.
- `LogRoundTrip.RoundTrip`, `LogRoundTrip.HeaderRoundTrip`: the exact condition under which a dump reads
  back; `Layout.DumpLayout`: what it is, byte for byte.

## Where the code does not keep its promise

Each of these is stated with the condition under which the promise does hold.

- A table of 2^27 slots or more is not dumped whole, because its byte size passes through 32 bits:
  `LogRoundTrip.DumpLimitIff`; of one of 2^29 or 2^30 slots no slot is: `LogRoundTrip.DumpLimits`.
  From a frame to a log that misses its packet: `LargeTables.LargeTableLosesQuery`; the exact condition
  for a run of one packet is `WholeRun.SinglePacketRun`, that for all runs `LargeTables.ConservesIff`.
- A log file is named after the wall clock's second, also when the packets come from a file. A log
  survives iff the next dump of its table comes at a later second: `EndToEnd.LogOnDiskIff`; all logs
  do iff that is so of every two dumps a round apart: `EndToEnd.AllOnDiskIff`. Read within a second,
  a capture file leaves only the last dump of each table, however many epochs there were:
  `EndToEnd.ReplayKeepsLastRound`. In a live capture whose packets are handled within ten seconds
  (for the program's two tables) all logs survive iff the dump of the cleanup comes at a later second
  than the one a round before it: `EndToEnd.LiveLogsOnDisk`.
- The log file is opened without truncation, so a longer old file leaves bytes that are read as
  entries. The parse yields just the entries iff the file held no more than was written, and comes
  through at all iff the file ends with a whole entry: `LogRoundTrip.RoundTrip`, and for every dump
  of a run `WholeRun.LogReads`.
- A v1 file is taken for v1a, or cannot be opened, unless it has two entries and the second a local
  address of 2^16 or more: `LogRoundTrip.V1ReadsBack`; for v1a files see `LogRoundTrip.V1aReadsBack`.
  Neither is opened as such when the low three bytes of its start time spell the magic, as those of
  one second in every 2^24 do.
- Fingerprints of fragments in opposite directions with one identification are always equal, and the
  second datagram gets the first one's ports: `FragRing.OppositeDatagramMixedUp`, `FragRing.SetThenGet`.
- A zero fingerprint finds an unused entry while there is one, and a datagram with it loses its
  ports: `FragRing.ZeroDatagramLosesPorts`. Exactly one source address for each destination,
  protocol and identification has it: `Hashing.ZeroFingerprint`.
- A later fragment of an ICMP message is read as if it began one, and its first two payload bytes
  become the port: `Wire.FieldsRoundTrip` holds of ICMP at every fragment offset.
- A declared length too small to cover the headers makes the 32-bit register wrap around, and the
  packet is decoded all the same. It is dropped iff at some header between 0 and 19 bytes are left:
  `Discards.DeclaredLengthDecides`.
- An address talking to itself on two ports is two flows: `Sessions.DirectionsMerge`.
- An empty prefix given to `pna_dtrie_add` is stored but never consulted: `Prefixes.EmptyPrefixIgnored`.
  This concerns the function; the program's only call rejects a prefix length of 0
  (module/pna_domain_trie.c:57).
- A compiler that allocates bit-fields from the least significant end does not see the optional GRE
  fields of RFC 2784 and RFC 2890. A frame whose outer tunnels have none peels to its innermost
  packet iff the innermost tunnel has none either: `Encapsulation.LsbFirstFramePeelsIff`. With
  optional fields further out only that direction holds which says that without any of them all is
  well (`Encapsulation.FramePeels`), since an inner header can lead the decoder back:
  `Encapsulation.LsbFirstMayResynchronise`. What is lost: `Encapsulation.LsbFirstLosesPacket`.
- The comment on `flowtab_dump` speaks of a thread; the call is synchronous, and so it is here.

## Model

| member | source | states |
|---|---|---|
| Hashing.Hash32Range | module/pna_main.c:97-101 | the hash names one of the 2^bits slots |
| Hashing.Hash32Bijective | module/pna_main.c:97-101 | the 32-bit hash is a bijection on 32-bit words |
| Hashing.HashHalfIsProduct | module/pna_main.c:95-101 | on 16-bit words the 16-bit hash is multiplication by 0x9e37 modulo 2^16 |
| Hashing.HashHalfInjective | module/pna_main.c:111-112 | the 16-bit hash is injective on 16-bit words |
| Hashing.NeighboursSeparate | module/pna_main.c:104-114 | headers differing in at most one field share a fingerprint iff they are equal |
| Hashing.SameHostsSeparate | module/pna_main.c:104-114 | headers of the same two hosts share a fingerprint iff protocol and identification agree |
| Hashing.FingerprintInNumbers | module/pna_main.c:104-114 | the fingerprint of every header in numbers: the addresses' products exclusive-or'ed with protocol and identification in two halves of a word |
| Hashing.OppositeDirectionsCollide | module/pna_main.c:104-114 | exchanging source and destination never changes the fingerprint |
| Hashing.ZeroFingerprint | module/pna_main.c:104-114 | for every destination, protocol and identification exactly one source has fingerprint 0 |
| Probing.ProbesDistinct | module/pna_flowmon.c:188-190 | tries below the table size probe different slots |
| Probing.ProbingIsPermutation | module/pna_flowmon.c:188-190 | 2^bits triangular tries reach every slot, each once |
| Probing.TriesDistinctIff | module/pna.h:134 | the 32 tries are pairwise different exactly when bits is 5 or more |
| Probing.TriesReachAll | module/pna.h:134 | with bits 5 or less the 32 tries reach every slot |
| Probing.NextProbe | module/pna_flowmon.c:188-190 | try i + 1 looks i + 1 slots behind try i, around the table |
| Flows.FlowHashSpreads | module/pna_flowmon.c:183-190 | the flow with the x-th remote address, in the hash's order, hashes to x / 2^(32 - bits) |
| Flows.RemoteAtBijective | module/pna_flowmon.c:183-190 | with the other fields fixed, every remote address is the x-th for exactly one x |
| Flows.FlowsOfSlot | module/pna_flowmon.c:183-190 | the flows of a slot are those with numbers in one of 2^bits intervals of length 2^(32 - bits) |
| Flows.FlowkeyMatch | module/pna_flowmon.c:157-168 | the two 8-byte comparisons agree iff everything but the domains is equal |
| FlowTable.FindTry | module/pna_flowmon.c:187-208 | the first try that meets the flow or a free slot; all earlier ones meet other flows |
| FlowTable.TriesInNumbers | module/pna_flowmon.c:183-190 | the first slot and each next one that a search looks at, in numbers |
| FlowTable.FlowTab.Search | module/pna_flowmon.c:187-208 | the probe loop finds that try, counts the tries made and changes nothing else |
| FlowTable.FlowTab.Update | module/pna_flowmon.c:199-205 | updates the counters of one slot only |
| FlowTable.FlowTab.Insert | module/pna_flowmon.c:207-221 | starts a flow in one slot and counts it |
| FlowTable.FlowTab.RecordPacket | module/pna_flowmon.c:182-226 | the whole effect and result of recording a packet |
| FlowTable.FlowTab.Clean | module/pna_flowmon.c:88-96 | zeroes slots and bookkeeping, keeps the probe statistics and the lock |
| FlowTable.FlowTab.TryLock | module/pna_flowmon.c:129 | locks the table and tells whether it was locked before |
| FlowTable.FlowTab.constructor | module/pna_flowmon.c:249-264 | a new table is empty, clean and unlocked |
| TableMap.RecordRefines | module/pna_flowmon.c:182-226 | recording refines the map operation: 0, 1 and -1 each characterised, only one binding changes, nflows is the map's size, nflows_missed counts the -1 |
| TableMap.MapDetermined | module/pna_flowmon.c:187-223 | the slots represent at most one map |
| TableMap.NoMoreFlowsThanSlots | module/pna_flowmon.c:187-223 | the map never outgrows the slots |
| TableMap.OthersStayFound | module/pna_flowmon.c:187-223 | rewriting one flow's slot keeps every other flow findable |
| TableMap.SmallTableMissesOnlyWhenFull | module/pna_flowmon.c:225-226 | with bits 5 or less a flow is turned away only by a full table |
| ProbeCounts.RecordCounts | module/pna_flowmon.c:187-193 | a packet counts try i iff all tries before it meet other flows |
| ProbeCounts.ProbesCountTries | module/pna_flowmon.c:193 | over every run, dumps included, a table's statistic of try i is how often that try was made in it, modulo 2^32 |
| Packing.UnpackPack | util/intop/parse.py:109-122 | unpacking a record finds the packed values wherever it lies |
| DumpTable.OutFile.Seek | module/dump_table.c:97 | sets the position |
| DumpTable.OutFile.Write | module/dump_table.c:55-67 | overwrites at the position, filling holes with zeros |
| DumpTable.StoreEntry | module/dump_table.c:113-137 | the field stores append exactly the 48-byte record to the buffer |
| DumpTable.Flush | module/dump_table.c:55-67 | writes the buffered bytes and returns 0 |
| DumpTable.AppendEntry | module/dump_table.c:113-143 | file and buffer together grow by one record, and another one still fits |
| DumpTable.StoreHeader | module/dump_table.c:155-162 | the header record at the start of the buffer |
| DumpTable.WriteTable | module/dump_table.c:70-166 | the buffered dump leaves in the file what unbuffered writing would, for every table size and occupancy |
| DumpTable.OccupiedStep | module/dump_table.c:105-111 | each slot adds its record iff its 20-byte key is not zero |
| Layout.EntryLayout | module/dump_table.c:113-137 | the 48 bytes of an entry's record, at their offsets, the lowest byte of each word first |
| Layout.HeaderLaidOut | module/dump_table.c:155-162 | the 16 bytes of the header |
| Layout.DumpLayout | module/dump_table.c:91-163 | every byte of the file after a dump: header, one record for each entry, and what the file held behind them |
| Layout.OldHeaderLayout | util/intop/parse.py:33-34 | the 12 bytes of the header that the old formats share |
| Layout.V1Layout | util/intop/parse.py:38-46 | the 36 bytes of an entry in the oldest format |
| Layout.V1aLayout | util/intop/parse.py:47-56 | the 40 bytes of an entry in the format between |
| LogParser.ClaimedVersion | util/intop/parse.py:74-78 | v2 iff the file starts with P, N, A, 2; v1a, pending the peek, iff it does not start with the magic; an index error iff it is just the magic; a key error otherwise |
| LogParser.PNALogParser.Open | util/intop/parse.py:68-95 | version, header, peek and all errors of opening a file |
| LogParser.PNALogParser.ParseHeader | util/intop/parse.py:109-114 | reads the header and moves behind it |
| LogParser.PNALogParser.ParseEntry | util/intop/parse.py:116-132 | reads one entry, adds the defaults and moves behind it |
| LogParser.PNALogParser.Parse | util/intop/parse.py:134-139 | reads all entries to the end of the file, or fails as the entry does |
| LogRoundTrip.ReadsRecords | util/intop/parse.py:116-139 | every record laid out at the position comes back, in order, for each format |
| LogRoundTrip.SessionFields | util/intop/parse.py:57-66 | field for field, the dictionary read for a written entry |
| LogRoundTrip.RoundTrip | module/dump_table.c:91-163 | up to its last entry the file yields exactly the occupied entries in slot order, whatever it held; what it held beyond follows; the whole parse yields just them iff there is nothing beyond, and succeeds iff a whole entry ends the file |
| LogRoundTrip.HeaderRoundTrip | module/dump_table.c:154-163 | version 2, both times, and a size word that is 48 times the entries iff that fits 32 bits; the file ends with the entries iff it was not longer before |
| LogRoundTrip.DumpLimitIff | module/dump_table.c:88 | the dump visits the whole table iff bits is at most 26 |
| LogRoundTrip.DumpLimits | module/dump_table.c:88 | how many slots the dumps of tables of 2^27 to 2^30 slots visit |
| LogRoundTrip.V1aReadsBack | util/intop/parse.py:74-95 | v1a files: recognised iff the start time does not spell the magic and the first entry has zero blanks, unreadable if empty, and read back; otherwise what they are taken for |
| LogRoundTrip.V1ReadsBack | util/intop/parse.py:74-95 | v1 files: recognised iff the start time does not spell the magic and there are two entries and a large second address, unreadable with fewer, and read back; otherwise what they are taken for |
| LogRoundTrip.V1Session | util/intop/parse.py:123-132 | the fields and defaults of a v1 session |
| LogRoundTrip.V1aSession | util/intop/parse.py:123-127 | the fields and defaults of a v1a session |
| FlowMon.WriteLog | module/pna_flowmon.c:79-80 | the file opened, new or not, holds what dumping the slots visited makes of what it held |
| FlowMon.FlowMonitor.FlowtabDump | module/pna_flowmon.c:61-85 | one file is written under the name of second and table, the table is cleaned and unlocked, no other is touched |
| FlowMon.FlowMonitor.AcquireTable | module/pna_flowmon.c:127-135 | the search for an unlocked table, from any state |
| Locking.AcquireFindsFirst | module/pna_flowmon.c:127-135 | from any state: fails iff all tables are locked, and else locks the first unlocked one from the current one on, and no other |
| Locking.GetFailsIff | module/pna_flowmon.c:99-143 | flowtab_get fails iff the current table is clean and all are locked |
| Locking.GetOpens | module/pna_flowmon.c:127-153 | the table taken becomes dirty, with the packet's second unless it was in use |
| Locking.WarningsEveryThousand | module/pna_flowmon.c:136-143 | the count of misses since the last warning is their number modulo 1000 |
| FlowMon.FlowMonitor.OpenCurrent | module/pna_flowmon.c:145-151 | marks a clean table dirty with the packet's second |
| FlowMon.FlowMonitor.FlowtabGet | module/pna_flowmon.c:99-154 | rotation, locking and failure of flowtab_get, from any state |
| FlowMon.FlowMonitor.FlowmonHook | module/pna_flowmon.c:171-227 | the new state of all tables and the value returned |
| FlowMon.FlowMonitor.constructor | module/pna_flowmon.c:230-268 | separate, clean tables; the log directory as it was |
| FlowMon.FlowMonitor.FlowmonCleanup | module/pna_flowmon.c:271-287 | dumps every dirty table from the last down |
| Summaries.SummaryReports | module/pna_flowmon.c:199-222 | a flow's entry is the count, byte sum, flag union, first and last time and first direction of exactly its packets |
| Summaries.FlagBitReported | module/pna_flowmon.c:202 | a flag bit is set iff a packet of that direction had it |
| Words.TestBitOr | module/pna_flowmon.c:202 | a bit of an inclusive or is set iff it is in one of the words |
| Words.TestBitXor | module/pna_flowmon.c:183-186 | a bit of an exclusive or is set iff it is in just one of the words |
| Summaries.DirectionsShare | module/pna_flowmon.c:201 | the two directions add up to all packets of the flow |
| Epochs.EpochsPartition | module/pna_flowmon.c:106-125 | the epochs partition the recorded packets in order |
| Epochs.RunningEpoch | module/pna_flowmon.c:106-226 | the running epoch is what was recorded since some arrival, and its missed packets are the others since then |
| Epochs.SharesPartition | module/pna_flowmon.c:106-125 | whatever runs parallel to the recorded packets is divided among the epochs without loss or overlap |
| Epochs.EpochsBounded | module/pna_flowmon.c:106-125 | an epoch spans less than ten seconds, with no boundary but its first second |
| Epochs.BoundarySeparates | module/pna_flowmon.c:106-125 | once a packet reached the tables at a boundary, no epoch straddles it |
| Epochs.EpochsAdvance | module/pna_flowmon.c:147-151 | successive epochs start in later and later intervals between ten-second boundaries |
| Epochs.FirstsApart | module/pna_flowmon.c:106-125 | the first seconds of epochs j and k are more than 10 (k - j - 1) apart |
| EpochCuts.EpochsAreCuts | module/pna_flowmon.c:110-125 | the epochs of a run are its recorded packets cut exactly where they are due, whatever is missed in between |
| EpochCuts.EpochsStartDue | module/pna_flowmon.c:110-125 | an epoch starts ten seconds or more after the one before, or at a boundary in another second |
| EpochCuts.PacketDumpsIff | module/pna_flowmon.c:110-125 | after any run a packet causes one dump and a move to the next table iff it is due, and none otherwise |
| WholeRun.DumpFinishes | module/pna_flowmon.c:115-121 | a dump turns the running epoch into a log and the next table is clean |
| WholeRun.GetSucceeds | module/pna_flowmon.c:99-154 | flowtab_get succeeds at the first try in every reachable state |
| WholeRun.HookKeeps | module/pna_flowmon.c:171-227 | one call keeps the invariant of runs |
| WholeRun.RunConsistent | module/pna_flowmon.c:171-268 | the invariant holds after every run |
| WholeRun.RotationSafety | module/pna_flowmon.c:61-154 | locked iff dirty, only the current table dirty, clean tables zero, round robin; nflows and nflows_missed are the flows and the missed packets of the running epoch |
| WholeRun.NextPacket | module/pna_flowmon.c:171-227 | after any run the hook returns 0 iff the flow is in the epoch already and -1 iff all tries meet other flows |
| WholeRun.EmptinessAgrees | module/dump_table.c:49-52 | the 16-byte and the 20-byte test for a free slot agree on every reachable slot |
| WholeRun.OccupiedLists | module/dump_table.c:104-111 | the dumped entries list the epoch, one entry for each flow |
| WholeRun.LogReads | module/dump_table.c:70-166 | for every table size and every file written over: a size word counting the entries, exactly the entries up to the last, then the rest of the old file; the header's times are the clock's, and every byte is where the format says |
| WholeRun.LogReports | module/dump_table.c:70-166 | what was dumped from the table of an epoch reports the epoch |
| WholeRun.ReportsOnce | module/dump_table.c:70-166 | the content of a log determines the flows and the entries of the epoch it reports |
| WholeRun.CleanupFinishes | module/pna_flowmon.c:271-287 | cleanup writes the log of the running epoch and no other |
| WholeRun.Conservation | module/pna_flowmon.c:171-287 | every accepted packet is in exactly one epoch and the dumps report exactly the epochs, for tables of at most 2^26 slots |
| WholeRun.SinglePacketRun | module/pna_flowmon.c:80 | for every table size: a lone packet is reported iff its hash is below the number of slots dumped; otherwise the log lists nothing |
| LogNames.FinalDisk | module/pna_flowmon.c:67-80 | the last dump of each name is on disk, and a first one found what the run had found |
| LogNames.LogSurvivesIff | module/pna_flowmon.c:67-80 | a dump is on disk iff the next of its table is made at a later second; it was written over the one a round before iff that was made in the same second |
| LogNames.NamesDistinctIff | module/pna_flowmon.c:67-80 | all dumps have different names iff those a round apart are made at different seconds |
| LogNames.DumpsMadeForNext | module/pna_flowmon.c:115-121 | a dump gets the second at which the first packet of the next epoch is handled |
| LogNames.FinalStamps | module/dump_table.c:85-161 | log k has the clock readings of the first packet of epoch k + 1, the last log those of the cleanup |
| LogNames.PromptRunKeepsLogs | module/pna_flowmon.c:67-121 | if packets are handled within 10 (n - 1) seconds, n tables, only the dump of the cleanup can meet a name again |
| Prefixes.MatchesUnderMask | module/pna_domain_trie.c:116 | matching bit by bit is equality under the mask |
| Prefixes.LookupIsLongestMatch | module/pna_domain_trie.c:82-102 | the longest network that matches, the latest among equals, 0xFFFF if none |
| Prefixes.AddChanges | module/pna_domain_trie.c:104-131 | an add changes only lookups in its network that no longer one claims |
| Prefixes.OrderIrrelevant | module/pna_domain_trie.c:104-131 | adds for different prefixes commute |
| Prefixes.TrailingBitsIrrelevant | module/pna_domain_trie.c:115-116 | bits of a prefix beyond its length never matter |
| Prefixes.EmptyPrefixIgnored | module/pna_domain_trie.c:92-96 | with empty prefixes the lookup is the longest match iff a nonempty one matches or the empty one says nothing |
| DomainTrie.Node.constructor | module/pna_domain_trie.c:69-80 | an unmarked node without children |
| DomainTrie.Trie.constructor | module/pna_domain_trie.c:151-160 | the empty trie represents no networks |
| DomainTrie.Trie.AddChild | module/pna_domain_trie.c:118-124 | a new node extends the shape and marks nothing |
| DomainTrie.Trie.Mark | module/pna_domain_trie.c:128-129 | marking the last node adds the network |
| DomainTrie.Trie.Add | module/pna_domain_trie.c:104-131 | the trie represents one network more and stays valid |
| DomainTrie.Trie.Find | module/pna_domain_trie.c:82-102 | the loop ends by depth 32 whatever bit is read there, with the longest match |
| Sessions.KeyBuffer.SessionSwap | module/pna_main.c:166-181 | exchanges the endpoints |
| Sessions.KeyBuffer.LocalizeIn | module/pna_main.c:187-220 | domains, orientation, direction and the drop of unknown pairs |
| Sessions.DirectionsMerge | module/pna_main.c:187-220 | both directions get one key iff the addresses differ or the ports agree, and opposite directions iff the addresses differ |
| Sessions.LocalizedIsCanonical | module/pna_main.c:187-220 | a kept key has looked-up domains and its local side first |
| Sessions.GivenUpIff | module/pna_main.c:205-209 | a packet is given up iff neither address lies in a network with a domain |
| Sessions.DirectionIsSender | module/pna_main.c:192-217 | outbound means sent by the local endpoint |
| Sessions.SenderDecides | module/pna_main.c:187-220 | a packet is outbound in a canonical flow iff its local endpoint sent it to the remote one, inbound iff the remote one sent it |
| Sessions.MirrorNotCanonical | module/pna_main.c:192-217 | a key and its mirror image are not both canonical unless the addresses are equal |
| Sessions.SixteenBytesSuffice | module/pna_flowmon.c:157-168 | canonical IPv4 keys with equal 16 bytes are equal, and none looks free |
| FragRing.FragTable.constructor | module/pna_main.c:90-91 | all entries unused |
| FragRing.FragTable.Get | module/pna_main.c:116-129 | the first entry with the fingerprint, or none |
| FragRing.FragTable.Set | module/pna_main.c:131-150 | inserts at the next index if absent |
| FragRing.GetIsQueueLookup | module/pna_main.c:116-129 | a search of the ring is a search of the queue, fingerprint 0 included |
| FragRing.RingIsQueue | module/pna_main.c:85-150 | the ring holds exactly the 512 latest insertions, distinct, and the next index names the oldest |
| FragRing.FoundUntilEvicted | module/pna_main.c:116-150 | an insertion is found while fewer than 512 follow, whatever its fingerprint |
| FragRing.GoneOnceEvicted | module/pna_main.c:142-149 | the 512th later insertion evicts it |
| FragRing.SetThenGet | module/pna_main.c:137-149 | the first fragment's ports are found iff no entry answered before with others |
| FragRing.ZeroFindsUnused | module/pna_main.c:122-126 | fingerprint 0 finds an unused entry while there is one |
| FragRing.ZeroDatagramLosesPorts | module/pna_main.c:122-141 | a datagram with fingerprint 0 is not inserted and gets ports 0 and 0 while entries are unused; every header has a source that makes it one |
| FragRing.OppositeDatagramMixedUp | module/pna_main.c:131-150 | the answering datagram gets the first one's ports |
| Decoding.Peel | module/pna_main.c:314-373 | peeling ends at an IP header whose fields alone are in the key |
| Decoding.SkipVlans | module/pna_main.c:393-408 | the depth stays within 8 and a whole header remains |
| Encapsulation.PeelTunnels | module/pna_main.c:343-360 | any nesting of tunnels peels to the innermost packet and its header's fields, for every declared length from the captured one on |
| Encapsulation.PeelThrough | module/pna_main.c:343-360 | peeling goes through any tunnels to whatever they carry |
| Encapsulation.SkipTags | module/pna_main.c:393-408 | up to 7 tags are skipped, 8 or more are given up |
| Encapsulation.FramePeels | module/pna_main.c:314-416 | a frame peels to its innermost packet, or is dropped for its tags |
| Encapsulation.DecapsulationTransparent | module/pna_main.c:314-416 | a frame decodes to what its innermost packet decodes to, or is dropped for its tags |
| Encapsulation.DecodesLikeBareFrame | module/pna_main.c:314-416 | tags and tunnels make no difference |
| Encapsulation.LsbFirstMisreads | module/pna_main.c:60-70 | the optional fields are taken for the inner packet |
| Encapsulation.PeelShrinks | module/pna_main.c:343-360 | peeling stays or moves on by at least 24 bytes |
| Encapsulation.LsbFirstPeelsIff | module/pna_main.c:344-358 | a tunnel around the innermost packet is peeled rightly iff it has no optional fields |
| Encapsulation.LsbFirstFramePeelsIff | module/pna_main.c:344-358 | so it is with frames whose outer tunnels have none, behind any tags |
| Encapsulation.LsbFirstMayResynchronise | module/pna_main.c:344-358 | with optional fields further out an inner header can lead the decoder back to the right packet |
| Encapsulation.LsbFirstLosesPacket | module/pna_main.c:344-358 | a tunnelled packet is dropped when the byte then read as its protocol is unknown, for 4, 8 and 12 option bytes |
| Wire.IpFieldsRead | module/pna_main.c:331-335 | address, protocol and fragment fields are read back from an IPv4 header built from them |
| Wire.SegmentRead | module/pna_main.c:245-295 | ports, TCP flags, and ICMP type and code are read back from a transport header built from them |
| Wire.HeaderWordsTell | module/pna_main.c:104-114 | the words by which a datagram is recognised agree iff source, destination, protocol and identification do, and differ in as many |
| Wire.DatagramsSeparate | module/pna_main.c:104-114 | packets of the same hosts, or differing in at most one of the four, have equal fingerprints iff the four agree |
| Wire.FieldsRoundTrip | module/pna_main.c:229-416 | a frame decodes to the key of the fields its innermost packet was built from, with its TCP flags; ICMP at every fragment offset |
| Discards.TypedPeels | module/pna_main.c:386-416 | behind up to 7 tags the last type word decides; behind 8 or more the frame is given up |
| Discards.OtherTypeDropped | module/pna_main.c:368-369 | a frame of any type but IPv4 is dropped, behind any number of tags |
| Discards.OtherTunnelDropped | module/pna_main.c:343-369 | a GRE packet that does not carry IPv4 or has routing is dropped, inside any tunnels |
| Discards.TunnelsDecide | module/pna_main.c:325-360 | inside tunnels a declared length drops the packet iff it leaves 0 to 19 bytes at some header |
| Discards.DeclaredLengthDecides | module/pna_main.c:325-408 | so it is with whole frames with up to 7 tags, for every declared length |
| Discards.CutFrameUnreadable | module/pna_main.c:314-416 | a frame cut within its innermost IP or GRE header, inside any tunnels, is not recorded, and dropped just for its declared length |
| Discards.CutHeaderUnreadable | module/pna_main.c:386-408 | a frame cut before its last type word is not recorded |
| Discards.OtherPacketDropped | module/pna_main.c:245-303 | later fragments of TCP and SCTP are dropped, and all packets of unknown protocols |
| Discards.LaterFragmentDecodes | module/pna_main.c:256-268 | a later UDP fragment gets the ports of the entry that answers, or is dropped without one |
| Discards.ShortSegmentUnreadable | module/pna_main.c:245-296 | a packet whose ports were not captured is not recorded and leaves the fragment table alone |
| PacketHooks.RunIpHook | module/pna_main.c:229-311 | ports, flags, the fragment table and every way to give up |
| PacketHooks.RunEtherHook | module/pna_main.c:314-373 | the recursive decapsulation computes peeling and ip_hook, and ends |
| PacketHooks.RunSkipVlans | module/pna_main.c:389-408 | the loop over tags |
| PacketHooks.Monitor.constructor | module/pna_main.c:446-466 | the initial state of the whole monitor |
| PacketHooks.Monitor.AddNetwork | module/pna_domain_trie.c:62-63 | one network more, nothing else changes |
| PacketHooks.Monitor.DecodeInto | module/pna_main.c:386-416 | the key buffer and the fragment table after decoding |
| PacketHooks.Monitor.Deliver | module/pna_main.c:418-430 | localization and the flow table, or nothing for a dropped key |
| PacketHooks.Monitor.PnaHook | module/pna_main.c:376-439 | the new state of the whole monitor; the value returned is constant |
| PacketHooks.Monitor.Cleanup | module/pna_main.c:469-474 | dumps what is dirty and touches nothing else |
| EndToEnd.MonitorSeesEvents | module/pna_main.c:418-430 | the flow monitor's state is that of the packets that reach it |
| EndToEnd.EventsSettled | module/pna_main.c:187-220 | every key that reaches the tables is IPv4, canonical and not null |
| EndToEnd.LogsReportRun | module/pna_main.c:376-439 | from frames to parsed logs: every recorded packet in exactly one dump and entry, with exact counters, for tables of at most 2^26 slots |
| EndToEnd.RunProgram | module/pna.c:199-286 | networks, captures and cleanup on the objects leave the log directory that the theorems speak of |
| EndToEnd.LogOnDiskIff | module/pna_flowmon.c:67-80 | the log of an epoch is on disk iff the next dump of its table is made at a later second; what it was written over |
| EndToEnd.AllOnDiskIff | module/pna_flowmon.c:67-80 | every epoch has a file of its own that reports it iff dumps a round apart are made at different seconds |
| EndToEnd.LiveLogsOnDisk | module/pna.c:247-252 | a live capture with packets handled within 10 (n - 1) seconds keeps all logs iff the dump of the cleanup comes later than the one a round before |
| EndToEnd.ReplayKeepsLastRound | module/pna.c:253-257 | after reading a file within a second, exactly the last dumps, one for each table, are on disk |
| LargeTables.LargeTableLosesQuery | module/pna_flowmon.c:80 | with bits above 26 a datagram of any client and ports, to a server chosen for them, is recorded but in no log |
| LargeTables.ConservesIff | module/pna_flowmon.c:80 | all runs conserve their packets iff bits is at most 26 |
| EndToEnd.EntryKeysExact | module/pna_flowmon.c:157-168 | an entry counts exactly the packets with its whole key |
| EndToEnd.NoMirrorImages | module/pna_main.c:187-220 | no log lists a session and its mirror image |
| Conversations.ConversationIsOneFlow | module/pna_main.c:376-439 | opposite frames of a conversation give one key and opposite directions, by sender |
| Conversations.PacketArrives | module/pna_main.c:376-439 | what a packet brings the flow tables: the localized key, its TCP flags and no others, length and second; it arrives iff one address has a domain |
| Conversations.SessionMerges | module/pna_main.c:166-220 | the packets A:p to B:q and B:q to A:p of a TCP or UDP session get one key and opposite directions, by sender |
| Conversations.SeenPartition | module/pna_flowmon.c:106-125 | the epochs divide the recorded captures without loss or overlap |
| Conversations.EntrySplitsBySender | module/pna_flowmon.c:199-222 | an entry's packets and bytes are those of its epoch's recorded captures, outbound from its local endpoint, inbound from its remote one; a flag bit is set in a direction iff one of them had it |
| Conversations.LogsSplitBySender | module/pna_main.c:376-439 | so it is with every entry of every log of every run |
| EndToEnd.EpochTimes | module/pna_flowmon.c:106-151 | the epochs of any run are its recorded packets cut exactly where they are due; so their time bounds, and starts in later and later intervals |
| EndToEnd.CaptureDumpsIff | module/pna_flowmon.c:110-125 | a capture causes one dump iff it brings a packet that is due, and none otherwise |
| EndToEnd.LogsStamped | module/dump_table.c:85-161 | the header times of each log are those at which the next epoch's first packet arrived, of the last one those of the cleanup |
| EndToEnd.BoundariesSeparateLogs | module/pna_flowmon.c:110-125 | no log mixes packets from both sides of a boundary at which one arrived |
| Fragments.FragmentsRecognised | module/pna_main.c:241-277 | the fragments of a UDP datagram built from fields meet the conditions of Fragments.DatagramStaysTogether |
| Fragments.DatagramStaysTogether | module/pna_main.c:256-278 | later fragments reach the tables with the first fragment's key and direction, if no entry answered for it before and fewer than 512 insertions follow |
| Fragments.LaterKeepsPorts | module/pna_main.c:256-278 | a later fragment is recorded under the ports of its datagram's first, as long as that is known |
| Fragments.TwoDatagramsKeepPorts | module/pna_main.c:104-150 | two datagrams in flight that differ in source, destination or identification alone each keep their own ports |

## Left out

- The capture library, signals, the command line and privileges (module/pna.c): a packet's second and the clock readings of a dump are arguments; the loop of EndToEnd.RunProgram stands for pcap_loop.
- LogNames.LogSurvivesIff: the wall clock is assumed not to be set back during a run; LogNames.FinalDisk does without that.
- The text of log file names (module/pna_flowmon.c:73-77): a name is its second and its table, the parts that vary within a run.
- FlowMon.FlowMonitor.FlowmonCleanup: the dumps of the final cleanup share one set of clock readings; in every run there is at most one.
- Failing allocations and failing or short writes (module/dump_table.c:59-64); writes are complete.
- C struct sizes and byte order are those of a little-endian machine with natural alignment: a flow entry is 56 bytes, a log entry 48.
- Real threads: the dump is a synchronous call in the source, so a lock is a boolean field.
- Encapsulation.LsbFirstFramePeelsIff: with optional fields in outer tunnels too, no condition is given; Encapsulation.LsbFirstMayResynchronise shows that their absence is not it.
- Discards.DeclaredLengthDecides: the tunnel headers of a frame take at most 2^32 - 2^16 bytes together; lengths of captures have 32 bits.
- WholeRun.Conservation: a flow whose first 16 key bytes are zero is excluded; EndToEnd.EventsSettled shows that none arrives.
- Decoding.Peel: reads beyond the captured bytes have no result in C; the model ends with the verdict that the frame is unreadable and records nothing.
- LogParser.PNALogParser.ParseHeader: the magic fields are one-character strings in Python and byte values here.
- IP options, which the source does not look at either; the theorems about built packets have 20-byte headers.
- Prefix lengths above 32 and the text format of the networks file (module/pna_domain_trie.c:26-67): networks are parsed triples.
- Freeing the trie and the tables (module/pna_domain_trie.c:134-149, module/pna_flowmon.c:280-286).
- The counters of lost fragments (module/pna_main.c:92-93), the fields smp_id, table_id and timestamp, which are never used, and pna_hash, which is not called.
- The switch pna_flowmon, which is 1 in this program, and the real-time monitors (module/pna_rtmon.c), whose list is empty.
- parse_cb and parse_iter (util/intop/parse.py:141-149), which loop as parse does.
- The statistics, aggregation and display scripts in util/.
