# minikv, modelled and verified in Dafny

minikv is a distributed key-value store. This project models four of its components and proves what
they promise, over every input and every run:

- **the volume storage engine**: segment files with an in-memory index, a Bloom filter, expiry, a
  write-ahead log, an index snapshot, a segment rescan and a compaction rewrite;
- **the Raft node**: elections and replication, as step systems over any number of nodes;
- **rendezvous placement**: ranking nodes by weight, choosing replicas, the shard ring;
- **rate control**: a token bucket per client and a sliding window per tenant.

| file | what it holds |
|---|---|
| `Bytes.dfy` | little-endian integers, UTF-8, sequential reading, sequence facts |
| `Wal.dfy` | the write-ahead log: format, replay, numbering, the log object |
| `Index.dfy` | the index: expiry, the snapshot file, the index object |
| `Records.dfy` | blob records: writing, reading, scanning |
| `Store.dfy` | the store as values, and its refinement of a plain map |
| `BlobStore.dfy` | the store as an object |
| `Rescan.dfy` | rebuilding the index from the segments, finding the append position |
| `Recovery.dfy` | `open`: snapshot, filter, log and rescan together |
| `Lives.dfy` | operations, snapshots and reopenings in any order, with the log and the snapshot file they leave |
| `Compaction.dfy` | the rewrite loop of compaction |
| `Raft.dfy` | one Raft node: handlers, elections, replication |
| `Election.dfy` | a cluster holding elections |
| `Replication.dfy` | one leader replicating to its followers |
| `Hash.dfy` | ranking and selection of nodes |
| `Placement.dfy` | the shard ring and the placement manager |
| `RateLimit.dfy` | the token bucket and the limiter |
| `Quota.dfy` | the sliding window of a tenant |

Objects that the program updates in place are classes. Each method is proved against a function on
values (`Store.PutState`, `Raft.OnVote`, `RateLimit.CheckStep`, ...), and the theorems are about
runs of those functions. CRC32, BLAKE3, LZ4, lossy UTF-8 decoding, the Bloom filter's probes and the
placement hash are parameters about which nothing is assumed. Clock readings, directory and map
iteration orders, lost messages and the amount a buffered writer spills are parameters or
nondeterministic choices, so the theorems hold for all of them.

## What the proofs settle

Several properties that the code's names, comments or tests suggest are true only under a condition.
The code is modelled as it is; for each, the exact condition is proved.

- *Reopening without a snapshot* restores every key ever put, whatever was deleted or had expired,
  with the value that the last listed of its files has (`OpenAfterRun`). A key reads as before
  exactly when it was live and that file has its last value (`ReopenedReadsSameIff`); a deleted key
  comes back (`DeletedKeyReturns`). This holds for every directory order. Files are listed directory
  by directory, so in a large store the order is never ascending (`NoAscendingListing`).
- *A crash that cuts the last record* of a segment makes reopening without a snapshot fail, unless the
  cut is within the record's first four bytes (`CutSegmentOpensIff`).
- *Reopening with a snapshot* restores what was saved, less every key with a delete anywhere in the
  log; later puts are lost (`SnapshotReopens`, `SnapshotReadsSameIff`). An untouched key survives
  exactly when it has no logged delete (`UntouchedSurvivesIff`), so a key that was deleted once and
  put again before the snapshot is lost (`ReputKeyIsLost`). The index comes back as saved exactly
  when no saved key has a logged delete and no expiry is 0 (`OpenFromSnapshot`, `SnapshotRoundTrip`).
- *Over whole lives*, with operations, snapshots and reopenings in any order, the store stands for a
  plain map that follows these rules (`LifeRefinesModel`).
- *Rescanning* finds a live key where the live index has it exactly when the file listed last among
  those holding the key is the highest one (`RebuildTracksRun`, `RebuildIsLiveIff`). Two orders can
  give a key two values (`OrdersDisagree`).
- *The append position* found on reopening is the writer's own exactly when the writer's segment
  exists or is the first; it is always safe to append there (`PositionRecovered`).
- *The segment limit* keeps the current segment below it exactly as long as no put is made at the
  limit (`SegmentWithinLimitIff`), and bounds the files exactly as long as no put follows a refused
  one (`FilesWithinLimitIff`). A run of a thousand large puts reaches and then passes it
  (`LimitIsPassed`).
- *Compressed records* read back exactly when the codec pairs up (`ReadsBackIffCodecPairs`).
- *Compaction* keeps exactly the keys whose record reads, and loses expiry (`RewritePreserves`). A
  key reads as before exactly when its record reads and it had not expired, or its record does not
  read and that already showed as nothing (`RewrittenReadsSameIff`).
- *Election safety* with a quorum of half the nodes rounded up holds exactly for odd cluster sizes
  when no losing candidate is set back to an earlier term (`SafeIffOdd`), as in every run of whole
  elections (`WholeElectionsAreSafe`). Over all interleavings,
  including a candidate that answers other requests while it collects votes, it holds exactly in a
  cluster of one (`UnconditionallySafeIffSingle`).
- *Requests of earlier terms* never change a node that has reached a later one, as long as it is not
  set back (`EarlierTermsChangeNothing`); a node that is set back takes them
  (`SetbackTakesEarlierTerm`).
- *Followers commit* an entry as soon as it arrives. Everything they have committed sits on a quorum
  exactly in clusters of at most four nodes (`CommitsOnQuorumIff`); what the leader has acknowledged
  always does (`AcknowledgedStays`).
- *Follower logs* stay prefixes of the leader's exactly as long as no entry request is delivered to a
  follower that already has the entry (`EntryKeepsPrefixIff`).
- *Cleaning up idle buckets* is invisible exactly when the limiter is off or a window is long enough
  to refill a burst (`EvictionInvisibleIff`).
- *The token bucket bound* holds in every run, cleanups included, exactly when the limiter is on and
  a window is long enough to refill a burst (`AlwaysWithinBoundIff`).
- *The sliding window* holds every half-open second to the limit (`SlidingWindowBound`). A closed
  second holds at most twice the limit (`ClosedWindowBound`), which is reached for every limit
  (`ClosedWindowBoundReached`); it holds at most the limit exactly when no request recorded at its
  start is followed, limit requests later, by one recorded at its end (`ClosedWindowHoldsLimitIff`).

## Model

| member | source | states |
|---|---|---|
| Wal.FieldsInPlace | src/volume/wal.rs:120-160 | the offset of every field of an entry, the magic and the operation codes, in any bytes that start with its magic and body |
| Wal.DecodeFrame | src/volume/wal.rs:205-286 | for bytes starting with an entry's magic and body, the stored checksum alone decides between that entry and an error |
| Wal.DecodeEncode | src/volume/wal.rs:120-286 | reading a written entry gives that entry and its size, whatever follows |
| Wal.DecodeCut | src/volume/wal.rs:205-286 | an entry cut anywhere before its end is never delivered |
| Wal.DecodeBadChecksum | src/volume/wal.rs:257-271 | an entry with intact lengths and a wrong stored checksum is an error, whatever follows |
| Wal.DeliveredIsWritten | src/volume/wal.rs:205-286 | whatever is delivered was written: the bytes read are exactly the encoding of the entry, up to the value length of a delete, which is not looked at |
| Wal.ReplayThrough | src/volume/wal.rs:178-202 | replay delivers all entries of a log in order and then goes on with what follows |
| Wal.ReplayInverts | src/volume/wal.rs:120-202 | replaying a log gives back exactly the entries written, in order |
| Wal.CrashPrefix | src/volume/wal.rs:178-286 | crash prefix: cut the log at any byte; replay delivers exactly the entries that end at or before the cut |
| Wal.CrashKeepsAPrefix | src/volume/wal.rs:178-286 | every cut falls under the crash prefix property, so a crash loses a suffix of the entries and nothing else |
| Wal.ReplayStopsAtDamage | src/volume/wal.rs:190-201 | damage one stored checksum: replay delivers exactly the entries before it, whatever comes later |
| Wal.NumberedNext | src/volume/wal.rs:71-92 | for entries numbered from 0 the number found on opening is their count |
| Wal.NextSequenceIsFresh | src/volume/wal.rs:71-92 | the number found on opening is one above the highest in use |
| Wal.AppendKeepsIntact | src/volume/wal.rs:96-160 | appending the next numbered entry keeps a log intact and adds exactly that entry to its replay |
| Wal.ReopenIntact | src/volume/wal.rs:44-92 | a log of numbered entries reopens intact |
| Wal.RunsStayIntact | src/volume/wal.rs:44-116 | numbering: after every run of appends, truncations and reopenings the file replays to entries 0 to n-1 in order and the next number is n |
| Wal.ReadEntry | src/volume/wal.rs:205-286 | the step-by-step reader computes exactly the decoding function and leaves the rest of the file |
| Wal.Replay | src/volume/wal.rs:178-202 | the replay loop delivers exactly the replayed entries, stopping at the end or the first error |
| Wal.FindLastSequence | src/volume/wal.rs:71-92 | the loop returns one more than the highest number replayed, or 0 for none |
| Wal.Log.Open | src/volume/wal.rs:44-67 | an opened log keeps the file and continues after the highest number in it |
| Wal.Log.WriteEntry | src/volume/wal.rs:120-160 | the field-by-field writer adds exactly the encoded entry to the byte stream, and the file only grows, however much the buffer spills |
| Wal.Log.Append | src/volume/wal.rs:96-175 | appends the operation under the next number; an intact log stays intact and replays one entry more; under the flushing policies nothing is left in the buffer |
| Wal.Log.Sync | src/volume/wal.rs:309-313 | after a sync the file holds the whole stream |
| Wal.Log.Truncate | src/volume/wal.rs:289-306 | a truncated log is intact, replays nothing and starts again at 0 |
| Wal.Log.SurvivesCrash | src/volume/wal.rs:163-202 | whatever the policy and however much was still buffered, a crash that keeps any prefix of the file loses only a suffix of the appended entries, and none if all was flushed and kept |
| Index.ItemRoundTrip | src/volume/index.rs:145-265 | one saved entry loads back, whatever follows it, with an expiry of 0 turned into never |
| Index.ItemFields | src/volume/index.rs:155-175 | the offset of every field of a saved entry |
| Index.WrongMagicFails | src/volume/index.rs:183-198 | a file that starts with neither magic does not load |
| Index.LoadSave | src/volume/index.rs:145-265 | a snapshot saved in any iteration order, in the current or the previous format, loads as the index it was saved from, up to lost expiries |
| Index.SnapshotRoundTrip | src/volume/index.rs:145-265 | round trip: the loaded index equals the saved one exactly when no expiry is 0 |
| Index.ItemCut | src/volume/index.rs:204-261 | cut inside an entry, the entry fails to load; cut after it, what follows is cut |
| Index.CutSnapshotFails | src/volume/index.rs:183-265 | no strict prefix of a snapshot loads |
| Index.LoadSnapshot | src/volume/index.rs:183-265 | the loading loop computes exactly the load function, errors included |
| Index.KeyIndex.Insert | src/volume/index.rs:47-49 | sets one key |
| Index.KeyIndex.Remove | src/volume/index.rs:57-59 | removes one key and returns the location it had, if any |
| Index.KeyIndex.IsExpired | src/volume/index.rs:93-104 | a key has expired exactly when it has an expiry and now is after it |
| Index.KeyIndex.GetIfValid | src/volume/index.rs:107-112 | returns the location of a key that is there and has not expired |
| Index.KeyIndex.CollectExpired | src/volume/index.rs:115-126 | the collecting loop lists each expired key once |
| Index.KeyIndex.CleanupExpired | src/volume/index.rs:115-133 | removes exactly the expired keys and returns their number |
| Index.KeyIndex.SaveSnapshot | src/volume/index.rs:145-179 | the saving loop writes the snapshot of the index in some iteration order |
| Records.RecordFields | src/volume/blob.rs:346-380 | the offset of every field of a written record, and that the stored checksum is the checksum of the checksummed part |
| Records.CompressedIff | src/volume/blob.rs:346-364 | a value is stored compressed exactly in compressing mode, from 128 bytes on, and if that makes it shorter; the magic says which |
| Records.ReadWritten | src/volume/blob.rs:404-474 | reading a written record gives the value, or for a compressed one what the codec makes of it |
| Records.ReadBadChecksum | src/volume/blob.rs:444-461 | a record with intact lengths and a wrong stored checksum does not read, whatever follows |
| Records.ReadBadMagic | src/volume/blob.rs:419-427 | bytes that start with neither magic do not read and end a scan |
| Records.ReadsBackIffCodecPairs | src/volume/blob.rs:346-470 | every record reads back, in either mode, exactly when decompressing with the stored size undoes compressing |
| Records.ReadStable | src/volume/blob.rs:404-474 | bytes appended after a readable record do not change what it reads as |
| Records.ScanWritten | src/volume/blob.rs:516-569 | a scan sees a written record as its key, its uncompressed length and exactly the bytes the writer wrote |
| Records.ScanStable | src/volume/blob.rs:516-569 | bytes appended after a scanned record do not change how it is scanned |
| Records.ScanReports | src/volume/blob.rs:516-569 | the key, length and size that a scan reports for any bytes with a magic, and when it breaks |
| Records.ScanCut | src/volume/blob.rs:516-549 | a record cut within its magic ends a scan, cut later it breaks it |
| Records.ReadRecord | src/volume/blob.rs:419-473 | the step-by-step reader computes exactly the reading function, errors included |
| Records.ScanRecord | src/volume/blob.rs:516-569 | one round of the scan loop computes exactly the scanning function and leaves the rest of the file |
| Store.FilterInvisible | src/volume/blob.rs:188-202 | when every indexed key is in the filter, get is the lookup without the filter |
| Store.GetReadsAbs | src/volume/blob.rs:188-202 | in a good state get is a lookup in the map the store stands for |
| Store.WriteAtMeans | src/volume/blob.rs:337-344 | writing at an offset puts the data there, keeps the bytes before and after it, and fills a gap with zeros |
| Store.WriteBlobAppends | src/volume/blob.rs:302-402 | a write fails exactly at the segment limit; otherwise it extends one file by the record, which reads back at the returned location |
| Store.PutParts | src/volume/blob.rs:162-182 | what a put does to each part of the state, for either outcome |
| Store.PutKeeps | src/volume/blob.rs:162-182 | a put keeps the invariant, changes the map at its key only, fails exactly at the segment limit and then changes nothing visible |
| Store.DropKeeps | src/volume/blob.rs:204-208 | dropping keys keeps the invariant and drops exactly those keys from the map |
| Store.StepAgrees | src/volume/blob.rs:162-264 | every operation keeps the invariant and the agreement with the plain map |
| Store.RunAgrees | src/volume/blob.rs:162-264 | the invariant and the agreement hold after every run |
| Store.GetReturnsLastPut | src/volume/blob.rs:162-208 | the store refines a map: after every run of puts, deletes, cleanups and mode changes, get returns exactly what the last successful put stored, unless deleted since or expired |
| Store.TtlIsExact | src/volume/blob.rs:162-182 | after any run a key last touched by a successful put reads as its value up to the time of the put plus its time to live, that moment included, and as nothing after; without a time to live, always |
| Store.RunsOverwriteNothing | src/volume/blob.rs:302-402 | over every run files only grow at their ends, so a record readable once reads the same ever after |
| Store.LimitIsPassed | src/volume/blob.rs:302-309 | a thousand puts of segment size into an empty store reach the segment limit, which refuses one put; the next put creates a segment beyond it |
| Store.SegmentWithinLimitIff | src/volume/blob.rs:302-309 | over every run the current segment stays below the limit exactly as long as no put is made at the limit |
| Store.FilesWithinLimitIff | src/volume/blob.rs:302-320 | over every run the limit bounds the segment files exactly as long as no put follows a refused one |
| Store.RunFillsSegments | src/volume/blob.rs:302-309 | over every run a segment is left only when it is over 64 MiB |
| Store.RunFiltered | src/volume/blob.rs:162-208 | over every run, whatever the files hold, the filter hides no indexed key |
| BlobStore.BlobStore.SetCompression | src/volume/blob.rs:151-153 | changes the mode of later writes and nothing else |
| BlobStore.BlobStore.WriteBlobToSegment | src/volume/blob.rs:324-402 | writes the record at the offset; the byte count returned is the record's length |
| BlobStore.BlobStore.WriteBlob | src/volume/blob.rs:302-320 | rolls over, refuses or writes as specified, position included |
| BlobStore.BlobStore.PutWithTtl | src/volume/blob.rs:162-182 | the object form of a put: a successful one expires at now plus the time to live, if any; its log entry is written even if the put fails |
| BlobStore.BlobStore.ReadBlob | src/volume/blob.rs:404-474 | a missing file reads as nothing, a bad record as an error, a good one as its value |
| BlobStore.BlobStore.Get | src/volume/blob.rs:188-202 | the object form of get: filter, index, record |
| BlobStore.BlobStore.Delete | src/volume/blob.rs:204-208 | removes the key from the index and appends a delete to the log |
| BlobStore.BlobStore.CleanupExpired | src/volume/blob.rs:262-264 | drops exactly the expired keys and returns their number |
| BlobStore.BlobStore.RewriteLive | src/volume/blob.rs:214-229 | the rewrite loop computes the rewritten store for some iteration order of the index |
| Rescan.ScanSegment | src/volume/blob.rs:505-571 | the scan loop fills index and filter as the scan function does, errors included |
| Rescan.RebuildIndexFromSegments | src/volume/blob.rs:476-503 | scans the files in directory order and stops at the first error |
| Rescan.RebuildSucceedsIff | src/volume/blob.rs:476-503 | a rescan succeeds exactly when every file scans |
| Rescan.ScanConcat | src/volume/blob.rs:505-571 | over whole records the scanner's running offset is the length scanned so far |
| Rescan.ScanAppended | src/volume/blob.rs:505-571 | after one more append a scan finds the same as before and then the new record, at the writer's offset |
| Rescan.HoldingsAppended | src/volume/blob.rs:505-571 | after one more append a file holds the same as before, and the new record at the writer's offset |
| Rescan.RunFiled | src/volume/blob.rs:476-571 | over every run, from any good state, the files scan whole, hold exactly what was put into them and read as the last value put into each; live keys stay where their file last has them |
| Rescan.RunNewest | src/volume/blob.rs:302-320 | over every run the last put of a key is in the highest of its files |
| Rescan.RebuildReadsFiled | src/volume/blob.rs:476-571 | in any directory order a rescan succeeds and finds exactly the keys the files hold, each reading as the value of the last listed of its files |
| Rescan.RebuildTracksRun | src/volume/blob.rs:476-571 | rebuild: after every run, from any good state and in any directory order, a rescan finds exactly the keys ever put; a key whose highest file is listed last reads as its last put, and a live key is found at its live shard, offset and size exactly then |
| Rescan.RebuildIsLiveIff | src/volume/blob.rs:476-571 | the rescan gives the live index, up to content hash and expiry, exactly when every key ever put is live and its highest file is listed last |
| Rescan.RebuildTakesLastHolder | src/volume/blob.rs:481-499 | in any directory order a key is found where the last listed file that holds it has it |
| Rescan.RescanOrderMatters | src/volume/blob.rs:481-499 | two directory orders find a key in the same place exactly when the same file is the last to hold it in both |
| Rescan.LastIsHighest | src/volume/blob.rs:481-499 | in ascending order the last listed file of a key is its highest |
| Rescan.NoAscendingListing | src/volume/blob.rs:332-336 | files are grouped in directories by number modulo 100, so once 0, 1 and 100 exist no listing is ascending |
| Rescan.OrdersDisagree | src/volume/blob.rs:481-499 | a run after which two directory orders give a key two values |
| Rescan.FindCurrentPosition | src/volume/blob.rs:573-617 | the loop returns the highest segment listed and its size, or the start |
| Rescan.PositionRecovered | src/volume/blob.rs:573-617 | in any directory order, appending at the position found overwrites nothing, and it is the writer's own position exactly when the writer's segment exists or is the first |
| Rescan.RunPositionRecovered | src/volume/blob.rs:302-320 | after every run of successful operations the position found is the writer's own |
| Recovery.ReplayLog | src/volume/blob.rs:97-110 | replaying marks the filter for puts and removes deleted keys from the index |
| Recovery.MarkKeys | src/volume/blob.rs:115-120 | the marking loop adds exactly the probes of all indexed keys |
| Recovery.OpenStore | src/volume/blob.rs:74-136 | opening computes the open function: snapshot, filter, log, then rescan or marking, then position |
| Recovery.BadSnapshotFails | src/volume/blob.rs:78-83 | opening fails when the snapshot does not load |
| Recovery.CutSnapshotFailsToOpen | src/volume/blob.rs:78-83 | opening fails with any strict prefix of a snapshot |
| Recovery.OpenSucceedsIff | src/volume/blob.rs:112-114 | without a snapshot opening succeeds exactly when every segment scans |
| Recovery.CutSegmentOpensIff | src/volume/blob.rs:505-549 | after a crash that cuts the last record of a segment, opening without a snapshot succeeds exactly when the cut is within its first four bytes |
| Recovery.AppliedIndex | src/volume/blob.rs:97-110 | replay removes from the index exactly the keys with a delete anywhere in the log |
| Recovery.OpenIsFiltered | src/volume/blob.rs:85-121 | after open, through either branch, with any saved filter and any bytes on disk, the filter hides no key |
| Recovery.OpenedRunIsFiltered | src/volume/blob.rs:85-202 | nor in any state reached by a run after that, whatever was on disk |
| Recovery.OpenRestores | src/volume/blob.rs:74-136 | without a snapshot, in any directory order and with any log and filter, open succeeds and gives a good state that stands for what the files restore |
| Recovery.OpenAfterRun | src/volume/blob.rs:74-136 | after every run, from any good state and in any directory order, a key ever put reads as the value of the last listed of its files |
| Recovery.ReopenedReadsSameIff | src/volume/blob.rs:97-121 | without a snapshot a key reads as before exactly when, if ever put, it was live and the last listed of its files has its last value, as the highest file has |
| Recovery.DeletedKeyReturns | src/volume/blob.rs:97-113 | without a snapshot a deleted key comes back, with the value of the last listed of its files |
| Recovery.OpenFromSnapshot | src/volume/blob.rs:97-121 | with a snapshot the index is the saved one less every key deleted anywhere in the log; it is the saved one exactly when there is no such key and no expiry of 0 |
| Recovery.SnapshotReopens | src/volume/blob.rs:74-136 | with a snapshot, whatever was done since it was saved, open gives a good state that stands for what was saved less the logged deletes, and get reads that |
| Recovery.SnapshotReadsSameIff | src/volume/blob.rs:97-121 | a key reads as before exactly when what was saved for it, unless a delete is logged, is what it reads as now |
| Recovery.UntouchedSurvivesIff | src/volume/blob.rs:97-121 | a key neither put nor deleted since the snapshot reads as before exactly when it has no logged delete or was not there |
| Lives.DoKeeps | src/volume/blob.rs:162-208 | every operation, with its log entry, keeps the store, the files, the log and the snapshot in agreement with the model |
| Lives.SaveKeeps | src/volume/blob.rs:246-259 | saving a snapshot, in any iteration order, records the contents in the model |
| Lives.ReopenKeeps | src/volume/blob.rs:74-136 | reopening succeeds and restores the saved contents less the logged deletes, or what the files restore |
| Lives.LifeRefinesModel | src/volume/blob.rs:74-259 | the store refines a map over whole lives of operations, snapshots and reopenings: get is a lookup in the model |
| Lives.SaveAndReopenReadsSameIff | src/volume/blob.rs:97-121 | after saving and reopening a key reads as before exactly when it was not there or never had a logged delete |
| Lives.ReputKeyIsLost | src/volume/blob.rs:97-110 | put a key, delete it, put it again, save and reopen: the key is lost |
| Compaction.AppendedParts | src/volume/blob.rs:217-223 | one copied record is appended to the current new file, reads back, never expires, and adds its size to the total |
| Compaction.CopyStep | src/volume/blob.rs:214-229 | copying one key, or skipping one that does not read, rollover included, keeps the new files equal to the records copied so far |
| Compaction.RewritePreserves | src/volume/blob.rs:214-229 | for every state and iteration order the surviving keys are exactly those whose record reads, each reads as before, none expires, and the new files hold exactly the bytes of those records |
| Compaction.RewriteFillsSegments | src/volume/blob.rs:221-227 | compaction moves to a new segment exactly when the current one is over 64 MiB |
| Compaction.RewrittenReadsSameIff | src/volume/blob.rs:214-229 | a key reads as before exactly when it was not indexed, or reads and had not expired, or does not read and showed as nothing already |
| Compaction.RunWritable | src/volume/blob.rs:214-229 | every record of a store reached by a run can be written again |
| Raft.RaftNode.constructor | src/coordinator/raft_node.rs:237-250 | a new node is a follower in term 0 with an empty log |
| Raft.RaftNode.HandleRequestVote | src/coordinator/raft_node.rs:143-168 | one vote per term: granted exactly for a higher term, or in the own term to the first or the same candidate; a higher term is adopted; the reply carries the new term |
| Raft.RaftNode.GrantVote | src/coordinator/raft_node.rs:296-315 | the local form of a vote follows the same rule |
| Raft.RaftNode.HandleAppendEntries | src/coordinator/raft_node.rs:172-207 | a request of an earlier term changes nothing and is answered false with the own term; otherwise the entries are appended exactly when the log is as long as the request says, and the commit index rises to at most the last index |
| Raft.RaftNode.StartElection | src/coordinator/raft_node.rs:283-293 | a candidate moves to the next term and votes for itself |
| Raft.RaftNode.BecomeLeader | src/coordinator/raft_node.rs:269-272 | role and known leader change, term and vote stay |
| Raft.RaftNode.StepDown | src/coordinator/raft_node.rs:275-280 | the node follows in the given term with its vote cleared |
| Raft.RaftNode.StartElectionAndCollectVotes | src/coordinator/raft_node.rs:209-236 | the election is won exactly when the candidate and the answers that arrived and granted the vote make half the cluster rounded up; a loser steps down in the new term |
| Raft.RaftNode.Replicate | src/coordinator/raft_node.rs:318-377 | only a leader appends; Ok exactly when the leader and the positive answers that arrived make half the cluster rounded up, and then the entry is committed and applied |
| Raft.RaftNode.Heartbeat | src/coordinator/raft_node.rs:101-120 | a heartbeat carries no entries and the last index as previous and committed |
| Raft.RaftNode.EntryMessage | src/coordinator/raft_node.rs:346-354 | an entry request carries the entry, the index before it and its own index as committed |
| Raft.GrantedCounts | src/coordinator/raft_node.rs:214-227 | the vote tally is the number of answers that arrived and granted |
| Raft.AckedCounts | src/coordinator/raft_node.rs:345-360 | the acknowledgement tally is the number of answers that arrived and succeeded |
| Raft.StaleAppendRefused | src/coordinator/raft_node.rs:180-182 | an append request of an earlier term leaves the whole node unchanged |
| Election.StepKeeps | src/coordinator/raft_node.rs:143-293 | every step keeps the vote invariant: a counted voter has reached the term and, while in it, still votes for the candidate; no node is counted twice in a term |
| Election.LoserKeeps | src/coordinator/raft_node.rs:275-280 | clearing a loser's vote in the term of its election harms no other election |
| Election.QuorumIsMajorityIffOdd | src/coordinator/raft_node.rs:228 | half the nodes rounded up is a majority exactly for odd cluster sizes |
| Election.QuorumsMeet | src/coordinator/raft_node.rs:228 | two quorums of an odd cluster share a node |
| Election.ElectionSafety | src/coordinator/raft_node.rs:143-236 | election safety: in an odd cluster, over every run that sets no losing candidate back, at most one election of each term is won |
| Election.UninterruptedElectionKeepsTerm | src/coordinator/raft_node.rs:209-236 | an election carried out in one go, with any peers reached and any replies lost, sets no candidate back |
| Election.WholeElectionsAreSafe | src/coordinator/raft_node.rs:143-236 | in an odd cluster at most one election of each term is won in every run of whole elections and of vote and append requests between them |
| Election.ActivitiesUnfold | src/coordinator/raft_node.rs:143-236 | any such activities can be carried out one after the other |
| Election.CampaignWins | src/coordinator/raft_node.rs:209-236 | a candidate that asks enough nodes behind its term wins and disturbs nothing else |
| Election.ElectionMatchesNode | src/coordinator/raft_node.rs:209-236 | for answers given by the peers' own vote rule, any of them lost, the ballot is won exactly when the node's own tally is enough, and the candidate ends as the node's method leaves it |
| Election.EarlierTermsChangeNothing | src/coordinator/raft_node.rs:172-207 | over every run that sets no candidate back, a node that reached a term never changes log or commit index for a request of an earlier one, and terms never fall |
| Election.SetbackTakesEarlierTerm | src/coordinator/raft_node.rs:229-234 | a node set back from term 2 to term 1 takes an entry of term 1 |
| Election.EvenClusterUnsafe | src/coordinator/raft_node.rs:228 | in every even cluster two elections of one term can be won |
| Election.SafeIffOdd | src/coordinator/raft_node.rs:209-236 | over runs that set no candidate back, safety holds exactly for odd sizes |
| Election.SetbackElectsTwo | src/coordinator/raft_node.rs:229-234 | in every odd cluster of three or more, a candidate set back to the term of its lost election can vote twice in a later term and elect two winners |
| Election.UnconditionallySafeIffSingle | src/coordinator/raft_node.rs:209-236 | over all runs safety holds exactly in a cluster of one |
| Replication.EntryArrives | src/coordinator/raft_node.rs:172-207 | a follower that lacks an entry accepts its request exactly when it is the next one, and stays a prefix of the leader |
| Replication.BeatArrives | src/coordinator/raft_node.rs:101-120 | a heartbeat changes neither a follower's log nor how much of it is committed |
| Replication.StepKeeps | src/coordinator/raft_node.rs:318-377 | every step keeps the replication invariant |
| Replication.FollowersFollow | src/coordinator/raft_node.rs:101-120 | replication: from empty logs, over every run with lost, delayed and reordered messages, each follower's log is a prefix of the leader's, its commit index is exactly the length of its log, and both only grow |
| Replication.LeaderHoldsProposals | src/coordinator/raft_node.rs:326-338 | over every run the leader's log holds exactly the data proposed, in order |
| Replication.LeaderCommitsAcknowledged | src/coordinator/raft_node.rs:362-365 | the leader's commit index is always that of an acknowledged entry |
| Replication.ReplicationMatchesNode | src/coordinator/raft_node.rs:318-377 | for answers given by the followers' own append rule, any of them lost, an entry can be completed exactly when the leader's own tally is enough, and the leader ends as the node's method leaves it |
| Replication.AcknowledgedStays | src/coordinator/raft_node.rs:343-377 | once replication of entry i returned Ok, then ever after under that leader half the cluster rounded up holds the first i entries the leader had then |
| Replication.CommitsOnQuorumIff | src/coordinator/raft_node.rs:186-196 | followers commit an entry on arrival, so over all runs everything a follower has committed sits on a quorum exactly in clusters of at most four nodes |
| Replication.EntryKeepsPrefixIff | src/coordinator/raft_node.rs:186-196 | an entry request keeps a follower a prefix of the leader exactly when the follower lacks the entry |
| Hash.HrwFilter | src/common/hash.rs:56-71 | ranking commutes with leaving out any nodes, ties included |
| Hash.HrwIsStableSort | src/common/hash.rs:56-71 | the ranking is a permutation, descending in the hash of the key followed by the node, in which nodes that hash the same keep their order |
| Hash.StableSortIsUnique | src/common/hash.rs:56-71 | there is only one such list |
| Hash.SelectsHeaviest | src/common/hash.rs:74-77 | every chosen node hashes, after the key, higher than any node left out, or the same and is listed first |
| Hash.SelectionShrinks | src/common/hash.rs:74-77 | when nodes leave, the replicas still there stay in order and in front, at most as many are gained as lost, and nothing changes if none was lost |
| Hash.RemovingOneNode | src/common/hash.rs:56-77 | removing a node leaves a selection without it unchanged; one with it keeps the others in order and gains at most one |
| Placement.ConsistentHashRing.AssignShard | src/common/hash.rs:107-109 | sets the nodes of one shard |
| Placement.ConsistentHashRing.GetNodes | src/common/hash.rs:112-115 | a key resolves to the nodes of the shard given by its hash modulo the number of shards |
| Placement.ConsistentHashRing.GetShardNodes | src/common/hash.rs:118-120 | returns the nodes of a shard, if assigned |
| Placement.ConsistentHashRing.Rebalance | src/common/hash.rs:123-129 | reassigns every shard below the number of shards and leaves others alone |
| Placement.ConsistentHashRing.ShardsForNode | src/common/hash.rs:132-143 | lists each shard of the node once |
| Placement.RebalanceMovesLittle | src/common/hash.rs:123-129 | minimal movement: removing a node and rebalancing leaves every shard that did not hold it unchanged; one that did keeps its other replicas in order and gains at most one |
| Placement.EveryKeyResolves | src/common/hash.rs:45-129 | after rebalancing over distinct nodes every key resolves to exactly min(replicas, nodes) distinct available nodes |
| Placement.ShardOnHeaviest | src/common/hash.rs:123-129 | each rebalanced shard is on the nodes that hash highest after "shard-" and its number |
| Placement.DecimalWrites | src/common/hash.rs:125 | the number is written in decimal digits without leading zeros |
| Placement.OneMoreShard | src/common/hash.rs:132-143 | assigning one more shard adds one to the list of each node it names |
| Placement.RingConserves | src/common/hash.rs:123-143 | the shard lists of all nodes add up to shards times min(replicas, nodes) |
| Placement.RebalancedRingConserves | src/common/hash.rs:112-143 | the same for any ring after rebalancing, if it held only shards below the number of shards |
| Placement.PlacementManager.constructor | src/coordinator/placement.rs:20-26 | starts with an empty ring |
| Placement.PlacementManager.SelectVolumes | src/coordinator/placement.rs:30-57 | fails without a healthy volume or with fewer than the replicas, and otherwise returns exactly the heaviest healthy ones |
| Placement.PlacementManager.Rebalance | src/coordinator/placement.rs:65-73 | rebalances the ring over the healthy volumes |
| Placement.PlacementManager.GetShardVolumes | src/coordinator/placement.rs:76-78 | returns the volumes of a shard, if assigned |
| Placement.FailureRemovesOne | src/coordinator/placement.rs:65-71 | a volume that stops being alive leaves the healthy list, and nothing else does |
| Placement.FailureMovesLittle | src/coordinator/placement.rs:65-73 | when one volume fails and the manager rebalances, shards without it keep their volumes and shards with it keep the others in order and gain at most one |
| RateLimit.TokenBucket.constructor | src/common/ratelimit.rs:51-58 | a new bucket is full |
| RateLimit.TokenBucket.DoRefill | src/common/ratelimit.rs:72-77 | adds the elapsed time times the rate, up to the burst |
| RateLimit.TokenBucket.Consume | src/common/ratelimit.rs:61-69 | refills and takes a token exactly when there is a whole one |
| RateLimit.TokenBucket.Remaining | src/common/ratelimit.rs:80-82 | the tokens cast to u32 |
| RateLimit.TokenBucket.WaitTime | src/common/ratelimit.rs:85-92 | the time until there is a token, or none if that is no duration |
| RateLimit.RefillInRange | src/common/ratelimit.rs:61-77 | tokens stay between 0 and the burst |
| RateLimit.RefillPathIndependent | src/common/ratelimit.rs:72-77 | refilling does not depend on how often it is done |
| RateLimit.WaitIsExact | src/common/ratelimit.rs:61-92 | after a refusal there is a token exactly from the announced moment on |
| RateLimit.RetryAfterIsExact | src/common/ratelimit.rs:61-92 | whatever polls fail in between, a check is admitted exactly from the announced moment on |
| RateLimit.ToldWaitIsExact | src/common/ratelimit.rs:85-136 | a refused client is told the burst and the exact wait: after any operations that grant it nothing, a check is allowed exactly from that moment on |
| RateLimit.ToldRemainingIsExact | src/common/ratelimit.rs:80-136 | an allowed client is told exactly how many more checks it could make at that moment |
| RateLimit.PanicsIff | src/common/ratelimit.rs:85-92 | a check panics exactly when it is refused and the wait is no duration |
| RateLimit.RateLimiter.Check | src/common/ratelimit.rs:112-136 | a check touches its client's bucket only, creating a full one if needed; a disabled limiter admits everything and keeps nothing; a refusal whose wait is no duration panics |
| RateLimit.RateLimiter.BucketFor | src/common/ratelimit.rs:121-124 | the client's own bucket, a full one if there was none |
| RateLimit.RateLimiter.Cleanup | src/common/ratelimit.rs:139-145 | drops exactly the buckets idle for a whole window |
| RateLimit.StepLevel | src/common/ratelimit.rs:112-145 | an operation costs a client exactly the tokens it is granted |
| RateLimit.AdmittedInInterval | src/common/ratelimit.rs:61-136 | token bucket bound: over every run with any clients and every interval, a client is admitted at most burst plus rate times length often |
| RateLimit.TwoBurstsAdmitted | src/common/ratelimit.rs:139-145 | a burst, a cleanup after the window and another burst are all admitted |
| RateLimit.AlwaysWithinBoundIff | src/common/ratelimit.rs:61-145 | every client meets the bound in every interval of every run, cleanups included, exactly when the limiter is on and rate times window is at least the burst |
| RateLimit.EvictionUnseen | src/common/ratelimit.rs:112-145 | with a long enough window a limiter that cleans up at any times answers every check like one that never does |
| RateLimit.VisibleRun | src/common/ratelimit.rs:139-145 | with a shorter window some run shows the difference |
| RateLimit.EvictionInvisibleIff | src/common/ratelimit.rs:112-145 | cleanup is invisible in every run exactly when the limiter is off or rate times window is at least the burst |
| Quota.TenantUsage.CheckRateAt | src/common/quota.rs:115-128 | forgets requests older than the window unless unlimited, and passes exactly when fewer than the limit are left |
| Quota.TenantUsage.RecordRequest | src/common/quota.rs:131-133 | records one request time |
| Quota.QuotaManager.SetQuota | src/common/quota.rs:237-240 | sets one tenant's quota and nothing else |
| Quota.QuotaManager.CheckAndRecordRequest | src/common/quota.rs:312-332 | disabled tenants are refused without a trace; others are checked and recorded against their own quota or the default |
| Quota.RequestKeeps | src/common/quota.rs:115-133 | every request keeps the window invariant: the stored times are the last recorded ones, at most the limit, and any limit+1 consecutive recorded requests span a second |
| Quota.SlidingWindowBound | src/common/quota.rs:115-133 | over every run with separate clock readings, every half-open second holds at most the limit of recorded requests, and at most the limit are stored |
| Quota.ClosedWindowBound | src/common/quota.rs:115-133 | a closed second holds at most twice the limit, in every run |
| Quota.ClosedWindowBoundReached | src/common/quota.rs:119-127 | for every limit some run reaches twice the limit |
| Quota.ClosedWindowHoldsLimitIff | src/common/quota.rs:119-127 | a closed second holds at most the limit exactly when no request recorded at its start is followed, limit requests later, by one recorded at its end |
| Quota.TenantsAreSeparate | src/common/quota.rs:312-332 | in any traffic each tenant sees a run of its own requests alone |
| Quota.TenantWindowBound | src/common/quota.rs:312-332 | the sliding window bound for every tenant of the manager, whatever the others do |
| Quota.RepliesFollowQuota | src/common/quota.rs:312-332 | disabled tenants are told so and leave no trace; a refusal names the limit and one second; unlimited tenants are always allowed; other tenants are untouched |
| Quota.UnlimitedAlwaysAllowed | src/common/quota.rs:115-118 | every request of an unlimited tenant is allowed |
| Quota.DisabledNeverAllowed | src/common/quota.rs:313-318 | no request of a disabled tenant is ever allowed or recorded |

## Left out

- ScanSegment: a record whose stored length is 2^63 or more makes the source seek backwards; the model reports an error there.
- ScanRecord: the same as for ScanSegment.
- Fits, EntriesFit, Wal.Fits: lengths and numbers that do not survive the casts to u32 and u64 are excluded where reading back is claimed; writing them is modelled with the truncation.
- Deadline: overflow of now plus the time to live is not modelled.
- GetNodes: the source divides by zero for a ring without shards, so the model requires at least one.
- Check: what a limiter does after a check has panicked; its lock is then poisoned.
- AdmittedInInterval: with cleanups in the interval the window must be long enough to refill a burst; AlwaysWithinBoundIff shows that the bound fails otherwise.
- ElectionSafety: runs that set a losing candidate back to an earlier term are excluded; SetbackElectsTwo shows that two elections can then be won.
- FollowersFollow: an entry request is delivered at most once; EntryKeepsPrefixIff shows that a second delivery breaks the prefix.
- LifeRefinesModel: the log is flushed when the store is reopened, and compactions are not part of a life.
- AlwaysWithinBoundIff, EvictionInvisibleIff: for a positive rate.
- Rounding of the token counts: they are real numbers here and f64 in the source.
- Errors of the file system, fsync and power loss below the level of file prefixes.
- Appending to a log that already ends in a torn entry: nothing trims it on opening.
- Errors returned by the replay callback: the only callback in the source never fails.
- The directory swap and the reset of log and snapshot that follow the rewrite loop of compaction.
- The file name of a segment: files are numbered, and every name is taken to parse.
- Leader changes during replication, the leader's own commit index under overlapping proposals, and log agreement across terms, which the code does not provide.
- Snapshots of a Raft node, its recovery and partition detection.
- Node and client names in the Raft model are numbers; in the source they are strings that are only compared.
- The gRPC services, the two-phase commit of the coordinator, HTTP, S3, the command line, configuration, audit, tracing and metrics.
- Authentication, encryption, the RocksDB metadata store: thin wrappers over libraries.
- Storage and object quotas, statistics, `get_ttl`, `exists`: easy next to the rest.
