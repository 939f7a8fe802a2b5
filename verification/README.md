# Titan-KV: storage engine, hash ring and replication, verified

A Dafny model of the three cores of Titan-KV and proofs about them.

**The storage engine** (`DataDir.dfy`, `Bitcask.dfy`, `Compaction.dfy`, `Api.dfy`, `Runs.dfy`) is modelled at the
level of bytes: a directory of numbered files, each a byte string, with an account of what has been
synced and of every state the directory passes through. `Bitcask` and `Compactor` are classes with
the fields of the original. The specification (`RecordLog.dfy`, `Segments.dfy`) is a list of segments,
one list of records per file; bytes, index and key/value map are functions of it, and the class
invariant says that the index is the replay of that log and the files are its encoding. On top of it
stand what opening a directory gives back (`Recovery.dfy`, `FileNames.dfy`), which record lists a
compaction may write (`Merge.dfy`) and what a crash at any byte of any operation leaves (`Crash.dfy`).

**The consistent-hash ring** (`HashRing.dfy`) keeps the sorted array, the binary search with
wraparound and the replica walk. The hash is an arbitrary function into 32 bits, and every iteration
over a Go map is an arbitrary choice. The specification (`RingSpec.dfy`) does not mention the array: a
key's owners are the nodes at the least clockwise distance, its replicas the nearest nodes in order.
Everything about `GetNode` and `GetReplicas` is proved with colliding virtual nodes allowed, and
determinism is then derived from the absence of collisions between different nodes.

**Replication and routing** (`Fsm.dfy`, `Cluster.dfy`) apply a committed log to the engine, on several
nodes and again after a restart, and route requests over servers that each have their own ring object.

Three places where the code falls short of its description are stated exactly rather than assumed away:

- The recovery parser does not know the tombstone marker. A directory on which a deletion has been
  logged and not yet compacted away cannot be reopened (`ScanOfFile`, `ReopenInOrder`, `Restart`),
  although the design guide describes recovery as a simple replay of the log files.
- Files are scanned in the order of their names, so `data-10.log` comes before `data-9.log` and an old
  value can come back (`TenBeforeNine`). `ReopenExact` gives the exact condition for a directory,
  `ContiguousNames` the exact condition for the directories the engine itself leaves behind.
- Sizes are 32 bits in the header and in the parser's arithmetic but not in the writer's.
  `RoundTripExact`, `TornPutExact`, `TruncatedExact` and `ReadAtExact` give the exact bounds. The class
  invariant and `Run` need no bound: a longer value is stored and answered as the code does it.

`Sound` names the limits of the file format: the header of each record states its true sizes, a put is
shorter than 2^32 bytes, and fewer than 2^32-1 bytes follow a tombstone in its file, the number the
parser then asks for. The files themselves may have any length.

What a crash may leave is quantified over every instant: the directory keeps a ghost trace of all its
states, and `SafeRun` divides the trace of a run among its requests, with the log on disk between them.
A request is safe under a crash if its two logs are within those limits and the names of their files
sort as the IDs do (`Tame`). Opening has three outcomes in the model: refused, unreadable (open, but
some value cannot be read) and serving a map. The crash theorems allow only the first and the last.

The definitions that the contracts are written in are themselves tied down, without their own help:
record bytes by `PutBytes` and `TombstoneBytes`, labels and file names by their digits (`DecimalExact`,
`OwnsExact`, `NameOrderByBytes`), owners and replica lists by `OwnersExact` and `NearestExact`, runs by
the last request or entry that writes a key (`AfterByLast`, `RepliesByLast`, `LogByLast`), and the
limits of the file format by plain byte counts (`SmallDiskSound`, `SmallRun`).

Some proofs say `hide F, G;` to keep the bodies of named functions away from the solver; nothing is
assumed by it.

## Model

| member | source | states |
|---|---|---|
| Bytes.LE32Bytes | storage/bitcask.go:199-211 | A size is written as four bytes, least significant first. |
| Bytes.DecimalExact | storage/bitcask.go:154 | The decimal form of a number is its only string of digits without a leading zero. |
| FileNames.NameOrderByBytes | storage/bitcask.go:66-69 | File names compare byte by byte as `data-`, the digits of the ID and `.log`. |
| FileNames.NameOrderExact | storage/bitcask.go:66-88 | For a < b the file of a is listed first if and only if a is at most b cut to as many digits as a has. |
| FileNames.ContiguousListing | storage/bitcask.go:66-92 | A directory holding exactly the IDs lo to hi is listed in ID order if and only if lo and hi have equally many digits. |
| FileNames.SameWidthListing | storage/bitcask.go:154 | IDs with equally many digits are always listed in ID order. |
| RecordLog.RoundTripExact | storage/bitcask.go:108-147 | Parsing the concatenated encodings of any puts yields those records with the writer's offsets and sizes if and only if every record is shorter than 2^32 bytes. |
| RecordLog.PutBytes | storage/bitcask.go:196-222 | A put is two sizes modulo 2^32 in little-endian order, the key and the value. |
| RecordLog.TombstoneBytes | storage/bitcask.go:298-313 | A tombstone is the size of the key, four times 255, and the key. |
| RecordLog.ScanInverse | storage/bitcask.go:108-134 | Every file the parser accepts is byte for byte the encoding of the records it reports. |
| RecordLog.ScanOfFile | storage/bitcask.go:124-140 | A file parses, with the writer's layout, if and only if it holds no tombstone; the file may have any length, as long as fewer than 2^32-1 bytes follow a tombstone. |
| RecordLog.TornFileRejected | storage/bitcask.go:111-134 | A file of any length that ends inside a put, or in any part of a tombstone, does not parse. |
| RecordLog.TornPutExact | storage/bitcask.go:111-134 | A put torn anywhere is rejected if and only if key and value are shorter than 2^32 bytes; otherwise some proper part of it parses as a whole record. |
| RecordLog.ScanOfCut | storage/bitcask.go:108-147 | Of every cut of a file: what is left parses if and only if the cut falls between two records and leaves no tombstone, and then it yields the records in front of the cut. |
| Segments.ReplayLocates | storage/bitcask.go:224-232 | In every log the index has exactly the live keys, and each location is the exact extent of the encoding of the key's current value. |
| Segments.ReadAtExact | storage/bitcask.go:258-283 | Reading at a located put, of any size, always succeeds and yields the bytes that its 32-bit sizes point at. |
| Segments.TruncatedExact | storage/bitcask.go:258-283 | Those bytes are the value if and only if the value is shorter than 2^32 bytes and lies where a key of the truncated size ends, as it does for every key shorter than that. |
| Segments.ContentsByLast | storage/bitcask.go:224-232 | A key of a log holds the value of its last record, or nothing if that is a tombstone. |
| Recovery.ReopenInOrder | storage/bitcask.go:65-96 | With names in ID order and a log within the format's limits, reopening rebuilds the very index and map of the log, or is refused, exactly when a tombstone is on disk. |
| Recovery.OpenedServes | storage/bitcask.go:65-96 | Whenever a directory opens and its records are shorter than 2^32 bytes, it is the encoding of a log, and every indexed value can be read and is that log's. |
| Recovery.CutsFit | storage/bitcask.go:108-147 | Whatever a cut leaves of the files of a log is within the limits again. |
| Recovery.ReopenExact | storage/bitcask.go:73-92 | For names in any order, the scan rebuilds the engine's index if and only if no file listed after a key's newest file holds that key. |
| Recovery.TenBeforeNine | storage/bitcask.go:66-92 | With files 9 and 10 holding an old and a new value of a key, reopening serves the old one. |
| Merge.MergeReclaims | storage/compaction.go:82-124 | Any order of copying writes as many bytes as the live records have, at most what the old files held. |
| Merge.MergeOverRemainder | storage/compaction.go:137-158 | Old files left over without a tombstone, with the merged file on top, give the same map as all old files. |
| Merge.SmallDiskSound | storage/bitcask.go:124-140 | A directory of fewer than 2^32-1 bytes in all is within the limits of the file format. |
| Crash.AppendCrash | storage/bitcask.go:196-222 | Cutting an appended record at any byte and reopening gives the old map at zero bytes, the new one at a whole put, and is refused otherwise. |
| Crash.AnyCutSurvives | storage/bitcask.go:219-222 | The crashes considered include every cut of every file behind what has been synced of it. |
| Crash.AppendAtomic | storage/bitcask.go:185-236 | A crash at any instant of Put or Delete leaves the old map, the new map or a directory that is refused; after the sync of a put, the new map. |
| Crash.CrashWhileMerging | storage/compaction.go:76-129 | Stopping after any number of bytes of the merged file gives the old map, or opening is refused, exactly if the cut tears a record or a tombstone is on disk. |
| Crash.CrashWhileRemoving | storage/compaction.go:137-158 | Stopping after removing any number of old files gives the old map, or opening is refused, exactly if a remaining file holds a tombstone. |
| Crash.CompactAtomic | storage/compaction.go:71-158 | Whatever a crash at any instant of a compaction leaves on disk, reopening serves exactly the map from before or is refused. |
| Crash.AppendSafe | storage/bitcask.go:185-236 | A crash at any instant of an append, rotation included, leaves the old map, the new map or a directory that is refused; after its last instant it leaves exactly the new map, unless a tombstone is on disk. |
| Crash.CompactSafe | storage/compaction.go:71-158 | A crash at any instant of a compaction leaves the map from before or a directory that is refused; after its last instant, exactly the map. |
| Directory.DataDir.ReadDir | storage/bitcask.go:66-69 | The listing has every data file once, in the byte order of the names. |
| Engine.Bitcask.ReadDataFile | storage/bitcask.go:99-150 | The parsing loop succeeds exactly on parsable files and then adds exactly their entries to the index, the later record winning. |
| Engine.Bitcask.Recover | storage/bitcask.go:65-96 | Scans in listing order, stops at the first unparsable file, and finds the largest ID. |
| Engine.Bitcask.Open | storage/bitcask.go:40-62 | Opening fails without touching the disk, or returns an engine with the recovered index, the largest file and its length; with ordered names and records below 2^32 bytes it is in a valid state with the log on disk. |
| Engine.Bitcask.OpenCurrentFile | storage/bitcask.go:153-172 | Creates the file only if it is missing and sets the append position to its length. |
| Engine.Bitcask.RotateFile | storage/bitcask.go:175-182 | Opens an empty file under an ID that no file has, and changes no key. |
| Engine.Bitcask.Put | storage/bitcask.go:185-236 | The map gains the pair, the log gains one record, rotation happens exactly past the limit and opens an unused file, the record starts at or below the limit, every instant is a prefix of the append, and a crash at any of them is safe. |
| Engine.Bitcask.Get | storage/bitcask.go:239-284 | Not found exactly for absent keys; otherwise the current value as its sizes in the header have it, for keys and values of any size. |
| Engine.Bitcask.Delete | storage/bitcask.go:287-326 | Reports and removes exactly present keys by appending a tombstone without rotation; an absent key leaves disk and map alone; a crash at any instant is safe. |
| Engine.Bitcask.Restart | storage/bitcask.go:40-62 | After closing and reopening with ordered names and a log within the format's limits: same index, file, offset and map, or failure exactly when a tombstone is on disk. |
| Engine.ContiguousNames | storage/bitcask.go:174-182 | Among directories without gaps in the IDs, exactly those whose first and last ID have equally many digits list their files in ID order. |
| Compaction.Compactor.ReadExtent | storage/compaction.go:87-109 | Reading at the location of a record yields its whole encoding, so no key is skipped. |
| Compaction.Compactor.CopyLive | storage/compaction.go:82-124 | Copying in any order writes exactly one record for each live key and indexes it where it lies, leaving the old files untouched. |
| Compaction.Compactor.RemoveOld | storage/compaction.go:137-158 | Removes the listed files one by one, in listing order, while the merged file stays durable. |
| Compaction.Compactor.Compact | storage/compaction.go:27-171 | The map is unchanged; with a largest ID of at least 1 one new file remains, holding one put for each key and no tombstone, as long as the live records; otherwise nothing happens; a compaction in progress is refused; a crash at any instant leaves the same map or fails to open. |
| Storage.AfterByLast | storage/api.go:22-67 | After any run a key holds the value of the last Put of it, nothing if a Delete came later, and what it held before if no request wrote it. |
| Storage.RepliesByLast | storage/api.go:22-67 | The reply to each request from the requests alone: errors for empty and missing keys, and for a read the value of the last Put, exactly if it is shorter than 2^32 bytes. |
| Storage.RecordBytesExact | storage/bitcask.go:225 | The bytes that a run writes at most: 8 for each record, its key and its value. |
| Storage.PutSpan | storage/bitcask.go:185-236 | Where a put leaves the last file ID, its length and the tombstones, as a function of the request. |
| Storage.MergedSpan | storage/compaction.go:66-168 | A compaction leaves one file, of exactly the bytes that one record for each key takes, and no tombstone. |
| Storage.API.Put | storage/api.go:23-34 | Refuses the empty key and otherwise stores the pair; files move as the request says and a crash at any instant is safe. |
| Storage.API.Get | storage/api.go:37-48 | Refuses the empty key and otherwise answers as the abstract map. |
| Storage.API.Delete | storage/api.go:51-62 | Refuses the empty key, reports absent keys and otherwise removes the key; files move as the request says and a crash at any instant is safe. |
| Storage.API.Compact | storage/compaction.go:27-171 | Keeps the map, leaves one file with the live records unless there is only file 0, and a crash at any instant leaves the map or a directory that is refused. |
| Runs.Run | storage/api.go:22-67 | For every sequence of requests of any sizes, compactions included, on any valid engine: all replies are the abstract map's, file IDs, last offset and tombstones are those the requests determine, the log between requests is on disk and durable, and a crash at any instant is safe. |
| Runs.RunFromEmpty | storage/bitcask.go:40-62 | The same from an empty directory; after closing and reopening it nothing of the run is lost, or opening fails, according to whether a deletion has not been compacted away, for file IDs that the requests leave with equally many digits. The condition for failing is a bound on the bytes the requests write, or on the log. |
| Runs.SmallRun | storage/bitcask.go:40-62 | A run that writes fewer than 2^32-1 bytes is within the limits of the file format throughout, and with file IDs of one digit its names are in order throughout. |
| Runs.CrashDuringRun | storage/bitcask.go:65-150 | A crash at any instant of any run, leaving any unsynced bytes: opening is refused or serves the map after some first requests, among them every answered one and none that had not begun. |
| Runs.ThroughCrashes | storage/bitcask.go:40-62 | The same through any number of processes, each opening what the crash of the one before has left. |
| Runs.ServeAndCrash | storage/bitcask.go:40-62 | An engine that opens after such a crash is in a valid state on the log on disk, with the map after the requests that took effect. |
| Replication.ApplyEntry | raft/fsm.go:36-63 | An entry that is answered with an error leaves the map as it was. |
| Replication.FSM.Apply | raft/fsm.go:36-63 | Which entry gets which reply: a put fails exactly for the empty key, a deletion for that or a missing key, everything else as undecodable or unknown; only success changes the map, by the entry, and moves the index. |
| Replication.RunReplica | raft/fsm.go:36-63 | Map, replies and last index of a node are functions of its committed entries, whatever compactions it interleaves and however its files are laid out; the files move as its steps say. |
| Replication.CommitsExact | raft/fsm.go:36-63 | The committed entries of a node are all it was handed, in order, compactions left out. |
| Replication.ResponsesAt | raft/fsm.go:36-63 | The reply to an entry is decided by the map the entries before it leave. |
| Replication.LastAppliedExact | raft/fsm.go:61-62 | The index is that of the last entry answered without an error. |
| Replication.ReplicasAgree | raft/fsm.go:36-63 | Two nodes with different limits, layouts and compactions answer every committed entry as the apply function does, and end with the same map and index, those of the committed log. |
| Replication.LogPointwise | raft/fsm.go:45-59 | After any log a key holds what the last entry that touches it says, or what it held before. |
| Replication.LogByLast | raft/fsm.go:45-59 | The same with the operations spelled out: the last "PUT" or "DELETE" of a key decides what it holds. |
| Replication.ReplayConverges | raft/fsm.go:78-89 | A store that has applied a log to some point, then any of its later entries in any order and number, then all of them from an already applied one on, holds the map of applying the log once; interrupted replays are a special case. |
| Replication.RestartAndReplay | raft/fsm.go:78-89 | A new node on the same files that is handed the log again, at first in interrupted attempts, ends with the map of the whole log and the index of its last successful entry; it fails to come up exactly when a tombstone is on disk. |
| RingSpec.LabelInjective | sharding/ring.go:46-49 | Virtual node labels are unambiguous for all node IDs, colons and digits included. |
| RingSpec.OwnsExact | sharding/ring.go:46-49 | The virtual nodes of a node are the hashes of its ID, a colon and the digits of each number below the replica count. |
| RingSpec.NoCollisionsExact | sharding/ring.go:46-49 | The no-collision hypothesis in terms of those labels. |
| RingSpec.OwnersExact | sharding/ring.go:99-127 | The owners of a key are exactly the nodes with a label whose hash is clockwise nearest, modulo 2^32, among all labels. |
| RingSpec.OwnersHaveSuccessor | sharding/ring.go:109-127 | A node is nearest to the key clockwise if and only if it has the smallest hash at or after the key's, or the smallest of all when there is none. |
| RingSpec.SingleOwner | sharding/ring.go:99-127 | Without collisions between nodes every key has exactly one owner. |
| RingSpec.AddDisruption | sharding/ring.go:52-69 | A new node takes a key over exactly if one of its virtual nodes lies clockwise before the key's old successor hash, joins the owners exactly if it has that hash, and otherwise changes nothing; keys never move between old nodes. |
| RingSpec.RemoveDisruption | sharding/ring.go:72-82 | After removing a node a key keeps exactly its other owners, unless the node was its only one. |
| RingSpec.NearestPrefix | sharding/ring.go:138-193 | The list of n+1 replicas starts with a list of n. |
| RingSpec.NearestHead | sharding/ring.go:138-193 | The first replica is an owner of the key. |
| RingSpec.NearestExact | sharding/ring.go:138-193 | A correct replica list in terms of the labels: min(n, nodes) distinct nodes, each with a label at least as near as all labels of the nodes not listed before it. |
| RingSpec.NearestUnique | sharding/ring.go:138-193 | Without collisions between nodes there is exactly one correct replica list. |
| RingSpec.NearestAfterRemoval | sharding/ring.go:138-193 | The old list of n+1 without a removed node, cut to n, is a correct list for the smaller ring, collisions included. |
| RingSpec.WalkStability | sharding/ring.go:138-193 | Without collisions, removing a node changes a replica list only by taking it out and moving the next node in. |
| RingSpec.OneHopExact | server/sharded_server.go:58-61 | Every chain of forwards ends after at most one hop, whatever owners the servers pick, if and only if only one node has a virtual node at the key's successor hash. |
| RingSpec.EndlessForwarding | server/sharded_server.go:58-61 | Two nodes that collide there can forward a request between them any number of times. |
| Ring.WaitingBound | sharding/ring.go:85-92 | A hash occurs in the rebuilt array at least as often as there are nodes that have it. |
| Ring.LowerBoundIsSuccessor | sharding/ring.go:109-120 | The element at the wrapped lower bound is the successor of the key's hash among all virtual nodes. |
| Ring.SweepStep | sharding/ring.go:162-190 | One step keeps the walk's invariant: nodes not chosen are covered by the hashes ahead, chosen ones are the nearest in order, and the first step always finds a node. |
| Ring.HashRing.constructor | sharding/ring.go:27-36 | An empty valid ring, with 150 virtual nodes when the argument is not positive. |
| Ring.HashRing.AddNode | sharding/ring.go:52-69 | Adds an unknown node and keeps the array that of the node set; a known node is left as it is. |
| Ring.HashRing.RemoveNode | sharding/ring.go:72-82 | Removes the node and keeps the array that of the node set. |
| Ring.HashRing.RebuildSortedKeys | sharding/ring.go:85-96 | In any iteration order the array is sorted and holds every virtual node hash as often as it occurs. |
| Ring.HashRing.Search | sharding/ring.go:110-112 | Binary search finds the lower bound. |
| Ring.HashRing.FindNode | sharding/ring.go:121-127 | The scan returns some unseen node with that hash, and nothing only if there is none. |
| Ring.HashRing.GetNode | sharding/ring.go:99-135 | Fails only on an empty ring and otherwise returns a node with a label nearest to the key's hash; the fallback is never reached. |
| Ring.HashRing.GetReplicas | sharding/ring.go:138-193 | For every n, collisions included, ends within one sweep with the min(n, nodes) nearest distinct nodes, nearest first; the loop guard never fires. |
| Routing.Cluster.AgreeOnOwner | server/sharded_server.go:49-61 | All servers' rings give a key the same single owner, in whatever order they were built. |
| Routing.Cluster.GetTargetNode | sharding/membership.go:66-71 | The target is the key's owner at every server. |
| Routing.Cluster.ApplyLogEntry | raft/node.go:122-145 | Succeeds exactly at a leader, if Raft commits the entry and it applies without an error; log and applied position move exactly if it is committed. |
| Routing.Cluster.Write | server/sharded_server.go:41-95 | The reply and the new log for every write: which error arises where, success exactly if the owner leads, Raft commits and the entry applies; one hop unless it arrives at the owner. |
| Routing.Cluster.ForwardWrite | server/sharded_server.go:203-223 | A forwarded write succeeds exactly if the owner acknowledges it, is not forwarded again, and all errors come back as a failed forward. |
| Routing.Cluster.Put | server/sharded_server.go:41-95 | Succeeds exactly for a non-empty key whose owner leads when Raft commits; then the log has gained a "PUT" of key and value and the owner's store holds the value; at most one hop. |
| Routing.Cluster.Delete | server/sharded_server.go:145-200 | Succeeds exactly if, besides, the key is present; then the log has gained a "DELETE" of the key and the owner's store has it no more; at most one hop. |
| Routing.Cluster.Get | server/sharded_server.go:98-143 | Any server answers from the owner's store, at a log position no older than what any client has seen of the key. |
| Routing.Cluster.ForwardGet | server/sharded_server.go:226-253 | The forwarded answer is the owner's; a miss comes back with an error text. |
| Routing.Cluster.Do | raft/node.go:122-145 | What each event does to log, applied positions and leaders: writes, reads, a server catching up, elections and late commits. |
| Routing.ReflectsWrite | raft/fsm.go:45-59 | A store that has applied a write of a key holds what that write or a later one decided. |
| Routing.Cluster.ReadAfterWrite | server/sharded_server.go:41-200 | After a write was acknowledged anywhere, and after any events, a read at any server returns what that very write or a later entry decided. |
| Routing.Cluster.PutThenGet | server/sharded_server.go:41-143 | After an acknowledged put and any events, a read at any server returns its value, or what a later entry about the key says. |
| Routing.Cluster.DeleteThenGet | server/sharded_server.go:98-200 | After an acknowledged deletion and any events, a read at any server finds nothing, or what a later entry about the key says. |

## Left out

- The Raft library (elections, log replication, stores) and `raft/join.go`: a totally ordered committed log takes their place; a successful proposal returns after the local apply, a failed one may or may not be committed later.
- Snapshots sent to another node: `Persist` writes only an index and `Restore` discards it, so there is no state transfer to model.
- I/O errors in a process that goes on running: a file operation succeeds or the process crashes.
- Directory durability: creating and removing a file takes effect in program order across a crash; only file contents can be lost before a sync.
- Read repair, whose trigger text never matches what the client reports, and the comparison `equalBytes` that only it uses.
- Client connections and `RefreshClients`: every server is assumed to reach every other one.
- Servers that know different node sets, and ring membership that changes while requests run.
- gRPC, protobuf, command-line programs, scripts, JSON encoding of log entries, locks and goroutines; operations are atomic steps.
- SHA-256 itself: the hash is an arbitrary function.
- File names that match the pattern only by prefix, and wraparound of the 32-bit file ID: IDs are natural numbers.
- `UpdateNodeLeader`, `GetNodeByID`, `GetAllNodes`: plain lookups in the ring's node map.
- Routing.Cluster.Get: a server's store is the map of the entries it has applied; that its engine holds that map is what RunReplica proves.
- Runs.RunFromEmpty: that opening fails after a deletion is stated for runs that write fewer than 2^32-1 bytes, or whose log is within the format's limits, since a tombstone followed by that many bytes in its file is parsed as a put.
