# Data-intensive systems, modelled and verified in Dafny

This project models the core of a collection of small data systems, written in Python, and
proves properties of the model in Dafny 4.11. One Dafny module corresponds to each core source
file. Where the source changes state step by step, the module has a class whose methods update
its fields, and the methods are proved against pure transition functions. Where the source only
computes, the module has functions and lemmas.

- **Reliability client**: a circuit breaker, a sliding-window rate limiter and a retry policy (`Reliability`).
- **Multi-model API**: the graph store. It keeps users, typed edges and their reverse index, and
  offers query, breadth-first traversal and shortest path (`Graph`).
- **Storage engine**:
  - the segment log and its binary records (`SegmentLog`, `SegmentStore`);
  - the hash-indexed engine (`Engine`);
  - the rebuilt hash index, the sparse SSTable index and the Bloom filter (`StorageIndex`, `SSTableIndex`, `Bloom`);
  - the LSM tree (`LSM`);
  - size-tiered and leveled compaction (`Compaction`).
- **Versioned encoding**:
  - schemas and their registry (`Schemas`);
  - the encoder and the decoder (`Encoder`, `Decoder`);
  - one-value round trips (`RoundTrip`);
  - schema evolution between reader and writer versions (`Evolution`);
  - two encoder defects (`CodecFindings`).
- **Replicated store**: the write-ahead log and the primary/backup node (`ReplicatedNode`); the
  cluster manager, failover and replica set (`Cluster`).
- **Sharded store**: the consistent-hash ring, the shard router and the range router (`Router`).
- **Transactions**:
  - the multi-version store under four isolation rules (`Mvcc`);
  - serializable snapshot isolation (`Ssi`);
  - the transaction manager, two-phase commit and distributed transactions (`Transactions`).
- **Partition failures**:
  - the network simulator, partition manager and split-brain detector (`Network`);
  - the counter nodes with vector-clock, G-Counter and PN-Counter merges (`Crdt`);
  - the gossip failure detector (`Gossip`).
- **Consensus store**: the Raft node's handlers (`Raft`); its log, metadata record and log
  compactor (`RaftLog`); the replicated state machines (`StateMachines`).
- **Batch pipeline**: the mappers (`Mapper`), the reducers (`Reducer`) and the job scheduler
  with speculative execution (`Scheduler`).

Shared modules:
- `Common`: options, bytes, Python's slice rule, small sequence lemmas.
- `BigEndian`: `struct` big-endian fields.
- `Utf8`: `str.encode('utf-8')` and strict decoding.
- `Ordering`: Python's string order and `sorted(keys)`.
- `Sorting`: a stable sort by key.

Clock readings and random timeouts become parameters. Hashes (md5, Python `hash`) and uuids
become function parameters or arguments. Sockets, threads and files are replaced by the values
they carry: byte sequences for files, explicit inputs for received messages.

Several places were found where the code does not do what it evidently means to do. In each
case the classes follow the code as written. The corrected definition is proved beside them,
with a lemma that states where the two agree (see "## Findings").

## Model

| member | source | states |
|---|---|---|
| Crdt.Bump | PartitionFailures/node.py:31 | `d[k] += 1` on a `defaultdict(int)`: the key reads one more than before (0 when missing), every other entry stays |
| Crdt.MergeInto | PartitionFailures/node.py:46-47 | the merge loop takes the pointwise maximum, a missing local entry reading as 0 |
| Crdt.SumValues | PartitionFailures/node.py:192 | `sum(d.values())` |
| Crdt.MergeGrows | PartitionFailures/node.py:196-203 | merging never lowers an entry nor loses a key, dominates the remote state, and keeps non-negative entries non-negative |
| Crdt.MergeIdempotent | PartitionFailures/node.py:44-48 | merging a state into itself changes nothing |
| Crdt.MergeCommutative | PartitionFailures/node.py:196-203 | on non-negative maps the merge is commutative |
| Crdt.MergeAssociative | PartitionFailures/node.py:196-203 | and associative |
| Crdt.ExchangeConverges | PartitionFailures/node.py:50-76 | after `sync_with_peer`, where B merges A's state and A merges B's answer, A holds exactly B's merged state |
| Crdt.SumBelow | PartitionFailures/node.py:200 | a dominated non-negative map has no larger sum |
| Crdt.BumpSum | PartitionFailures/node.py:191-192 | one increment raises the sum by one |
| Crdt.CounterNode.constructor | PartitionFailures/node.py:8-22 | counter 0 and an empty clock |
| Crdt.CounterNode.Increment | PartitionFailures/node.py:28-32 | the counter goes up by one and only this node's clock entry ticks |
| Crdt.CounterNode.Decrement | PartitionFailures/node.py:34-38 | the counter goes down by one and only this node's clock entry ticks |
| Crdt.CounterNode.Merge | PartitionFailures/node.py:44-48 | the clock becomes the pointwise maximum and the counter does not change |
| Crdt.CounterNode.Get | PartitionFailures/node.py:40-42 | the counter and a copy of the clock |
| Crdt.GCounterNode.constructor | PartitionFailures/node.py:185-187 | no increments, counter 0, the counter showing the increments' total |
| Crdt.GCounterNode.Increment | PartitionFailures/node.py:189-194 | only this node's increment entry grows; from any state, the inherited decrement's included, the counter becomes the total of the increments, one more than the old total, and so one more than before when it showed that total |
| Crdt.GCounterNode.Decrement | PartitionFailures/node.py:34-38 | the inherited `decrement`, which the `decrement` command reaches through `CounterNode._process`: the counter goes down by one, the clock ticks, the increments stay, so a counter that showed their total no longer does |
| Crdt.GCounterNode.DecrementRefused | PartitionFailures/node.py:153 | corrected: `decrement` refused as an unknown command, nothing changes and the counter keeps showing the increments' total |
| Crdt.GCounterNode.Merge | PartitionFailures/node.py:196-203 | pointwise maximum of increments and clocks, from any state; the counter becomes the total of the increments, never below the old total, and never lower than before when it showed that total |
| Crdt.GCounterNode.Get | PartitionFailures/node.py:205-207 | the counter, increments and clock; the counter is the increments' total whenever the node is consistent |
| Crdt.GCounterDecrementLost | PartitionFailures/node.py:34-38 | as written, a fresh G-Counter answers `decrement` with -1 and the next `increment` with 1: the decrement is lost |
| Crdt.GCounterDecrementRefused | PartitionFailures/node.py:189-194 | with `decrement` refused, the same requests answer 0 and then 1 |
| Crdt.PNCounterNode.constructor | PartitionFailures/node.py:231-233 | no increments or decrements, counter 0 |
| Crdt.PNCounterNode.Increment | PartitionFailures/node.py:189-194 | the inherited `increment` makes the counter the sum of the increments alone |
| Crdt.PNCounterNode.IncrementCorrected | PartitionFailures/node.py:189-194 | the corrected increment keeps the counter at increments minus decrements, one more than before |
| Crdt.PNCounterNode.Decrement | PartitionFailures/node.py:235-240 | only this node's decrement entry grows; the counter is increments minus decrements, one less than before when it was consistent |
| Crdt.PNCounterNode.Merge | PartitionFailures/node.py:242-251 | pointwise maximum of increments, decrements and clocks; the counter is increments minus decrements |
| Crdt.PNCounterNode.Get | PartitionFailures/node.py:253-255 | the counter, increments, decrements and clock; the counter is increments minus decrements whenever the node is consistent |
| Crdt.IncrementForgetsDecrements | PartitionFailures/node.py:192 | after one decrement and one increment on a fresh node the inherited increment shows 1 where increments minus decrements is 0 |
| Gossip.AdoptNeverLowers | PartitionFailures/detector.py:122-130 | heartbeat counters never go down, and every node gossiped about becomes known with at least the gossiped counter |
| Gossip.AdoptStale | PartitionFailures/detector.py:126 | gossip newer for no node changes no counter |
| Gossip.Verdict | PartitionFailures/detector.py:143-153 | a node older than `fail_timeout` is failed and not suspected; older than `suspect_timeout` it is suspected unless already failed; otherwise neither |
| Gossip.ClassifyRule | PartitionFailures/detector.py:136-153 | `check_nodes` keeps suspected and failed disjoint, never classifies the local node, and decides every other node it has heard from by its age alone |
| Gossip.GossipDetector.constructor | PartitionFailures/detector.py:104-113 | no counters, nothing suspected or failed |
| Gossip.GossipDetector.LocalHeartbeat | PartitionFailures/detector.py:115-120 | the local counter goes up by one (from 0 when missing) and is stamped with `now` |
| Gossip.GossipDetector.ReceiveGossip | PartitionFailures/detector.py:122-130 | every new or strictly greater counter is adopted, stamped with `now`, and clears that node's suspicion and failure; nothing else changes |
| Gossip.GossipDetector.CheckNodes | PartitionFailures/detector.py:136-153 | the sets become the verdicts of `check_nodes`, the counters and stamps stay |
| Gossip.GossipDetector.AliveNodes | PartitionFailures/detector.py:155-160 | the known nodes neither suspected nor failed |
| Gossip.GossipDetector.GossipState | PartitionFailures/detector.py:132-134 | the heartbeat counters, whose nodes include every alive node |
| Gossip.Absorb | PartitionFailures/detector.py:125-130 | the loop of `receive_gossip` over the remote counters |
| Network.Key | 08_partition_failures/network.py:16 | `(min(a, b), max(a, b))`: an ordered pair of the same two nodes |
| Network.KeySame | 08_partition_failures/network.py:14-36 | two calls name the same stored pair exactly when they name the same two nodes in either order |
| Network.NetworkSimulator.constructor | 08_partition_failures/network.py:8-12 | no partitions, no latencies |
| Network.NetworkSimulator.AddPartition | 08_partition_failures/network.py:14-16 | the pair is added, nothing else changes |
| Network.NetworkSimulator.RemovePartition | 08_partition_failures/network.py:18-20 | the pair is discarded, nothing else changes |
| Network.NetworkSimulator.ClearPartitions | 08_partition_failures/network.py:22-24 | no pair is cut |
| Network.NetworkSimulator.SetLatency | 08_partition_failures/network.py:30-32 | the pair's latency is set, nothing else changes |
| Network.NetworkSimulator.GetLatency | 08_partition_failures/network.py:34-36 | the pair's latency, 0 when never set |
| Network.NetworkSimulator.IsPartitioned | 08_partition_failures/network.py:26-28 | whether the pair is cut, whichever order the two nodes are given in |
| Network.Symmetric | 08_partition_failures/network.py:26-36 | `is_partitioned` and `get_latency` do not depend on the order of the two nodes |
| Network.AddPartitionEffect | 08_partition_failures/network.py:14-16 | after `add_partition(a, b)` the pair is cut in both directions and no other pair changes |
| Network.RemoveUndoesAdd | 08_partition_failures/network.py:14-20 | `remove_partition` undoes an `add_partition` of a pair not cut before, in either order |
| Network.SetLatencyEffect | 08_partition_failures/network.py:30-36 | after `set_latency(a, b, ms)` both directions answer `ms` and other pairs keep theirs |
| Network.HealUndoesCreate | 08_partition_failures/network.py:125-133 | healing two groups after partitioning them restores the partitions, when no pair between them was cut before |
| Network.PartitionManager.constructor | 08_partition_failures/network.py:120-123 | a fresh simulator with nothing cut |
| Network.PartitionManager.CreatePartition | 08_partition_failures/network.py:125-128 | every pair between the groups is cut, nothing else changes |
| Network.PartitionManager.HealPartition | 08_partition_failures/network.py:130-133 | exactly the pairs between the groups are uncut |
| Network.PartitionManager.Link | 08_partition_failures/network.py:127-128 | the inner loop over one node of the first group |
| Network.PartitionManager.IsolateNode | 08_partition_failures/network.py:135-138 | the node is cut from every other listed node |
| Network.PartitionManager.ReconnectNode | 08_partition_failures/network.py:140-143 | exactly those pairs are uncut |
| Network.PartitionManager.PartitionState | 08_partition_failures/network.py:145-146 | the cut pairs, each stored smaller node first |
| Network.IsolatedEverywhere | 08_partition_failures/network.py:135-138 | after isolating a node it is partitioned from every other listed node in both directions |
| Network.DetectSplitBrain | 08_partition_failures/network.py:156-161 | the loop counts the groups reaching the quorum size and reports more than one |
| Network.CheckQuorum | 08_partition_failures/network.py:153-154 | the visible group reaches the quorum size exactly when it counts as one quorate group of the split-brain test |
| Network.SplitBrainIff | 08_partition_failures/network.py:153-161 | split brain exactly when two different groups both reach the quorum size |
| Reliability.CanExecute | 01_reliability_service/client.py:23-33 | always true when closed or half-open; when open, true exactly once `recovery_timeout` has passed, and then half-open with no successes |
| Reliability.RecordSuccess | 01_reliability_service/client.py:35-43 | half-open counts a success and closes with the failures reset at `half_open_max`; otherwise the failure count is reset |
| Reliability.RecordFailure | 01_reliability_service/client.py:45-52 | the failure is counted and stamped; half-open reopens, otherwise it opens at the threshold |
| Reliability.RunKeepsInv | 01_reliability_service/client.py:23-52 | every sequence of calls keeps the breaker's invariant |
| Reliability.ClosedOpensOnlyAtThreshold | 01_reliability_service/client.py:45-52 | a closed breaker opens only on a failure that brings the count to the threshold |
| Reliability.HalfOpenFailureReopens | 01_reliability_service/client.py:49-50 | any failure while half-open reopens |
| Reliability.OpenWaitsForRecovery | 01_reliability_service/client.py:27-32 | an open breaker refuses until the recovery timeout has passed since the last failure, then lets a call through half-open |
| Reliability.HalfOpenClosesAfterSuccesses | 01_reliability_service/client.py:37-41 | `half_open_max` successes close a half-open breaker with the failure count reset |
| Reliability.SuccessesKeepClosed | 01_reliability_service/client.py:42-43 | successes leave a closed breaker closed with no failures |
| Reliability.CircuitBreaker.constructor | 01_reliability_service/client.py:13-21 | closed, no failures, no successes |
| Reliability.CircuitBreaker.CanExecuteAt | 01_reliability_service/client.py:23-33 | `can_execute` at `now` |
| Reliability.CircuitBreaker.RecordSuccessNow | 01_reliability_service/client.py:35-43 | `record_success` |
| Reliability.CircuitBreaker.RecordFailureAt | 01_reliability_service/client.py:45-52 | `record_failure` at `now` |
| Reliability.Recent | 01_reliability_service/client.py:69 | the kept timestamps are exactly the requests later than the cutoff, no more of them than there were (order and multiplicity in `RecentAppend`) |
| Reliability.RecentSnoc | 01_reliability_service/client.py:69 | one more request is kept, at the end, exactly when it is later than the cutoff |
| Reliability.RecentAppend | 01_reliability_service/client.py:69 | the filter keeps order and multiplicity: filtering a concatenation concatenates the filtered parts |
| Reliability.Allow | 01_reliability_service/client.py:65-73 | the old requests dropped; allowed exactly when fewer than `max_requests` remain, and then the call is recorded |
| Reliability.AllowBounded | 01_reliability_service/client.py:65-73 | the limiter never holds more than `max_requests` times, each inside the window or the latest call |
| Reliability.RateLimiter.constructor | 01_reliability_service/client.py:59-63 | no requests |
| Reliability.RateLimiter.AllowAt | 01_reliability_service/client.py:65-73 | `allow` at `now` |
| Reliability.GetDelay | 01_reliability_service/client.py:82-87 | `min(delay, max_delay)` where `delay` is `base * 2^attempt`, or `base`: at most each of the two and equal to one of them |
| Reliability.GetDelayMonotone | 01_reliability_service/client.py:82-87 | with a non-negative base, later attempts never wait less |
| Graph.GetUserOf | 02_multi_model_api/graph_store.py:43-47 | `get_user` gives a node exactly when the user exists with a non-empty attribute map, and then gives that map |
| Graph.CreateThenGet | 02_multi_model_api/graph_store.py:36-47 | after `create_user(u, data)` the user reads back as `data` with `id` set to `u`, every other user reads as before, and both relationship indexes stay consistent |
| Graph.UpdateMerges | 02_multi_model_api/graph_store.py:49-53 | `update_user` on an existing user overwrites the attributes `data` names and keeps the others; a missing user leaves the store unchanged; the set of users and their order stay the same |
| Graph.AddKeepsLinks | 02_multi_model_api/graph_store.py:80-88 | after `add_relationship(a, b, t)` the edge is in `a`'s outgoing list and in `b`'s incoming list, every relationship is still recorded once at each end, and every other list is unchanged |
| Graph.AddIdempotent | 02_multi_model_api/graph_store.py:80-88 | adding the same relationship twice leaves the store as adding it once |
| Graph.WithoutFrom | 02_multi_model_api/graph_store.py:63-66 | the filtered incoming list holds exactly the entries not from `u`, and keeps a list free of repeats free of repeats |
| Graph.WithoutTo | 02_multi_model_api/graph_store.py:72-75 | the filtered outgoing list holds exactly the entries not to `u`, and keeps a list free of repeats free of repeats |
| Graph.Unlisted | 02_multi_model_api/graph_store.py:57-58 | removing a user from the iteration order keeps exactly the other users, without repeats |
| Graph.CutOutIncoming | 02_multi_model_api/graph_store.py:60-67 | after the first loop of `delete_user`, every other user's incoming list has lost exactly its entries from `u` |
| Graph.CutInOutgoing | 02_multi_model_api/graph_store.py:69-76 | after both loops, every other user's outgoing list has lost exactly its edges to `u`, and `u` has none left |
| Graph.DeleteCascade | 02_multi_model_api/graph_store.py:55-78 | `delete_user(u)` removes the node and exactly the relationships into or out of `u`; every other node and every other list entry stays, in order, and both indexes stay consistent |
| Graph.OfType | 02_multi_model_api/graph_store.py:92-93 | the type filter keeps exactly the relationships of type `t` |
| Graph.OfTypeAppend | 02_multi_model_api/graph_store.py:92-93 | the type filter keeps insertion order: filtering a concatenation concatenates the filtered parts |
| Graph.ContainsIff | 02_multi_model_api/graph_store.py:106 | Python's substring test `part in s` holds exactly when `s` splits as `a + part + b` |
| Graph.MatchesAll | 02_multi_model_api/graph_store.py:99-112 | a node matches the filters exactly when every filter matches it |
| Graph.MatchesRaises | 02_multi_model_api/graph_store.py:104-106 | the filter loop raises on a node exactly when a string attribute meets a non-string filter value before any filter has failed |
| Graph.QueryIff | 02_multi_model_api/graph_store.py:96-115 | `query_users` raises exactly when the filters raise on some user; otherwise it returns exactly the nodes of the users every filter matches |
| Graph.WithinIffRoute | 02_multi_model_api/graph_store.py:117-139 | a user lies within k breadth-first levels of `start` exactly when some walk of at most k admitted relationships leads there |
| Graph.TraverseMeets | 02_multi_model_api/graph_store.py:117-139 | after the last level every result is the non-empty node of a user other than `start` within `depth` steps, and every such node is among the results |
| Graph.Shortest | 02_multi_model_api/graph_store.py:155-156 | a walk found one step beyond level L is shortest when its end is not within L steps |
| Graph.Unreachable | 02_multi_model_api/graph_store.py:163 | when the search ends without meeting `to`, no walk leads from `from` to `to` |
| Graph.GraphStore.constructor | 02_multi_model_api/graph_store.py:7-13 | a store over a missing data file is empty and consistent |
| Graph.GraphStore.CreateUser | 02_multi_model_api/graph_store.py:36-41 | the store becomes its `create_user` step and stays consistent (see `CreateThenGet`) |
| Graph.GraphStore.GetUser | 02_multi_model_api/graph_store.py:43-47 | returns the node exactly when it exists and is non-empty (see `GetUserOf`) |
| Graph.GraphStore.UpdateUser | 02_multi_model_api/graph_store.py:49-53 | the store becomes its `update_user` step and stays consistent (see `UpdateMerges`) |
| Graph.GraphStore.DeleteUser | 02_multi_model_api/graph_store.py:55-78 | the store becomes its `delete_user` step, the cascade `DeleteCascade` describes, and stays consistent |
| Graph.GraphStore.DropOutgoing | 02_multi_model_api/graph_store.py:60-67 | the first loop removes `u`'s entries from the incoming list of each user it points at, then `u`'s outgoing list |
| Graph.GraphStore.DropIncoming | 02_multi_model_api/graph_store.py:69-76 | the second loop removes the edges to `u` from each user pointing at it, then `u`'s incoming list |
| Graph.GraphStore.AddRelationship | 02_multi_model_api/graph_store.py:80-88 | the store becomes its `add_relationship` step and stays consistent (see `AddKeepsLinks`, `AddIdempotent`) |
| Graph.GraphStore.GetRelationships | 02_multi_model_api/graph_store.py:90-94 | with no type (None or "") all of `u`'s outgoing relationships in order; otherwise the type filter `OfType` of that list, which holds exactly the relationships of that type and keeps their insertion order (`OfTypeAppend`) |
| Graph.GraphStore.QueryUsers | 02_multi_model_api/graph_store.py:96-115 | the result is the query over the users in iteration order (see `QueryIff`) |
| Graph.GraphStore.Traverse | 02_multi_model_api/graph_store.py:117-139 | every result is the non-empty node of a user other than `start` within `depth` admitted steps, and every such node appears |
| Graph.GraphStore.ShortestPath | 02_multi_model_api/graph_store.py:141-163 | `[from]` when `from == to`; otherwise a walk from `from` to `to` no longer than any other, or None exactly when there is no walk |
| Graph.TraverseLevel | 02_multi_model_api/graph_store.py:123-137 | one level keeps the breadth-first invariant: the next level is within one more step, everyone within it is visited or next, and every non-empty node met so far is reported |
| Graph.VisitNode | 02_multi_model_api/graph_store.py:129-136 | the relationship loop adds to the next level exactly the unvisited admitted successors, reporting each one's non-empty node |
| Graph.ExpandSearch | 02_multi_model_api/graph_store.py:151-161 | one dequeued user's relationships either reach `to` with a shortest walk, or leave every admitted successor visited and the queue well formed |
| Graph.HasEdge | 02_multi_model_api/graph_store.py:82-84 | the duplicate check finds exactly an edge to `b` of type `t` |
| Graph.MatchFilters | 02_multi_model_api/graph_store.py:99-112 | the filter loop gives the result the specification of one node's match gives |
| SegmentLog.RecordBytes | StorageEngine/log_store.py:19-26 | `append` packs a record exactly when both UTF-8 lengths fit 32 unsigned bits, as the 9-byte header plus key and value |
| SegmentLog.ReadRecord | StorageEngine/log_store.py:35-49 | a record read by `read_at` (and by one step of `iterate`) ends after its 9-byte header and inside the data |
| SegmentLog.ReadRoundTrip | StorageEngine/log_store.py:19-49 | a packed record reads back as itself, ending right after its bytes; a tombstone reads back as a key with no value |
| SegmentLog.ScanLog | StorageEngine/log_store.py:51-71 | `iterate` over a segment written by appends reports every record in append order, each at the offset it was written at |
| SegmentLog.LogSnoc | StorageEngine/log_store.py:28-33 | appending a record adds its bytes at the end of the segment and its entry at the offset the old size gave |
| SegmentLog.LogSegment.constructor | StorageEngine/log_store.py:10-17 | a segment whose file does not exist yet: no records and size 0 |
| SegmentLog.LogSegment.Append | StorageEngine/log_store.py:19-33 | `append` returns the old size as the record's offset and adds the record's bytes; where packing raises nothing is written |
| SegmentLog.LogSegment.Iterate | StorageEngine/log_store.py:51-71 | the loop reads record after record until the header runs short, as `Scan` states |
| SegmentLog.LogSegment.ReadAt | StorageEngine/log_store.py:35-49 | nothing exactly when fewer than the 9 header bytes remain; a record read ends after its header and inside the file (see `RecordAtRead`) |
| SegmentLog.LogSegment.IsFull | StorageEngine/log_store.py:73-74 | the size has reached the 1 MiB segment limit |
| SegmentLog.IterateRecords | StorageEngine/log_store.py:51-71 | a segment only ever appended to reads back as its records at the offsets `append` returned |
| SegmentLog.RecordAtBound | StorageEngine/log_store.py:28-33 | every record's offset lies inside the segment |
| SegmentLog.RecordAtSnoc | StorageEngine/log_store.py:28-33 | appending keeps every earlier record at its offset and puts the new one at the old end |
| SegmentLog.RecordAtRead | StorageEngine/log_store.py:35-49 | `read_at` at any offset `append` returned gives back that record |
| SegmentStore.LastWrite | StorageEngine/log_store.py:115-123 | the position of the last record for a key, none after it for that key, or None when there is none |
| SegmentStore.ReplayLastWrite | StorageEngine/log_store.py:115-123 | last write wins: a key is live exactly when its last record is not a tombstone, and is then located at that record's segment and offset with its value |
| SegmentStore.ReplaceValid | StorageEngine/log_store.py:134-146 | the list `replace_segments` builds holds only valid segments |
| SegmentStore.LogStore.constructor | StorageEngine/log_store.py:77-103 | a store over an empty directory: one new segment, number 0, active |
| SegmentStore.LogStore.CreateNewSegment | StorageEngine/log_store.py:97-103 | the new segment's id is the number of segments; it goes last and becomes active |
| SegmentStore.LogStore.Put | StorageEngine/log_store.py:105-110 | a full active segment is rolled over to a new one first; the record goes at the end of the active segment, and its segment id and offset are returned (None where packing fails) |
| SegmentStore.LogStore.Delete | StorageEngine/log_store.py:112-113 | `delete` is `put` of a tombstone |
| SegmentStore.LogStore.GetAllRecords | StorageEngine/log_store.py:115-123 | every record of every segment applied in order, so a key maps to the location of its last write unless that was a delete |
| SegmentStore.LogStore.ApplySegment | StorageEngine/log_store.py:118-122 | the inner loop applies one more segment's records |
| SegmentStore.LogStore.GetSegment | StorageEngine/log_store.py:125-129 | the first segment with the id, or None exactly when no segment has it |
| SegmentStore.LogStore.SegmentsToCompact | StorageEngine/log_store.py:131-132 | at most `threshold` segments, none of them the last one or the active one |
| SegmentStore.LogStore.ReplaceSegments | StorageEngine/log_store.py:134-146 | drop every segment whose id is among the old ones, then insert the new one before the first remaining segment with larger id; the active segment stays |
| SegmentStore.InsertPosition | StorageEngine/log_store.py:139-144 | the loop settles on the first position whose id exceeds the new one's, or the end |
| SegmentStore.WithoutHas | StorageEngine/log_store.py:132 | the comprehension's filter keeps exactly the segments other than the active one |
| SegmentStore.OutsideIdsHas | StorageEngine/log_store.py:136-137 | the kept segments are exactly those whose id is not among the old ids, in order |
| SegmentStore.InsertPos | StorageEngine/log_store.py:139-146 | that position is the insertion point, and the new list is the kept ones with the new segment put in there |
| SegmentStore.ReplaceKeepsOrder | StorageEngine/log_store.py:134-146 | replacing keeps the list in ascending id order and leaves no segment but the new one carrying an old id |
| LSM.Newest | 03_storage_engine/engine.py:115-118 | the value of the newest table holding the key, None when no table holds it |
| LSM.Earliest | 03_storage_engine/engine.py:128-131 | the value of the earliest-listed table holding the key, None when no table holds it |
| LSM.Live | 03_storage_engine/engine.py:101 | the records of a memtable that carry a value, with that value |
| LSM.FlushKeeps | 03_storage_engine/engine.py:94-103 | a memtable without tombstones flushed to a new newest table answers every key as before |
| LSM.FreezeKeeps | 03_storage_engine/engine.py:88-92 | freezing alone changes no answer |
| LSM.PutResolves | 03_storage_engine/engine.py:82-86 | a write answers its own key with the value written and every other key as before |
| LSM.RangeQueryDisagrees | 03_storage_engine/engine.py:125-143 | with two tables holding "a" -> "1" and then "a" -> "2", `range_query` reports "1" while `get` reports "2" |
| LSM.EarliestReversed | 03_storage_engine/engine.py:115 | visiting the tables in `reversed` order and taking the first hit is Newest |
| LSM.EarliestSome | 03_storage_engine/engine.py:115-131 | both orders agree on which keys the tables hold |
| LSM.LSMTree.constructor | 03_storage_engine/engine.py:73-80 | an empty memtable, no frozen memtable, no tables |
| LSM.LSMTree.Put | 03_storage_engine/engine.py:82-86 | the key answers the written value afterwards; a full memtable is frozen and flushed; the flush raises at a tombstone and then leaves the records frozen; every other key answers as before unless that freeze replaces an earlier frozen memtable |
| LSM.LSMTree.FreezeMemtable | 03_storage_engine/engine.py:88-92 | the memtable becomes the frozen one, a new empty one takes its place, and the frozen one is flushed |
| LSM.LSMTree.FlushToSSTable | 03_storage_engine/engine.py:94-103 | nothing without frozen records; otherwise a new newest table of the live records and the frozen memtable cleared, or, at a tombstone, nothing appended |
| LSM.LSMTree.Build | 03_storage_engine/engine.py:100-101 | `build_from_records` gets through exactly when no record is a tombstone |
| LSM.LSMTree.Get | 03_storage_engine/engine.py:105-120 | the memtable, then the frozen memtable, then the tables newest first; a tombstone answers None |
| LSM.LSMTree.Delete | 03_storage_engine/engine.py:122-123 | the key answers None afterwards, every other key as in Put |
| LSM.LSMTree.RangeQuery | 03_storage_engine/engine.py:125-143 | `range_query` as written: sorted pairs, exactly the in-range keys whose value, the memtable shadowing the frozen one shadowing the earliest-listed table, is not a tombstone |
| LSM.LSMTree.RangeQueryFixed | 03_storage_engine/engine.py:125-143 | the corrected range query: sorted pairs, exactly the in-range keys with the value Get answers |
| LSM.LSMTree.FromTables | 03_storage_engine/engine.py:128-131 | the table loop keeps for each in-range key the value of the first table visited that has it |
| LSM.LSMTree.Collect | 03_storage_engine/engine.py:128-131 | over an order of tables, a key keeps the value of the first that holds it |
| LSM.LSMTree.AddTable | 03_storage_engine/engine.py:129-131 | one table's in-range keys fill in the keys not yet present |
| LSM.LSMTree.Overlay | 03_storage_engine/engine.py:133-141 | the frozen memtable's and memtable's in-range records overwrite, tombstones included |
| LSM.LSMTree.LiveSorted | 03_storage_engine/engine.py:143 | the sorted pairs of the results whose value is not None |
| LSM.VisitStep | 03_storage_engine/engine.py:128-131 | one more table visited keeps the loop invariant |
| Engine.ConsistentAppend | StorageEngine/log_store.py:28-33 | appending a record moves no record the index points at; the new record sits at the segment's old end |
| Engine.ConsistentPut | 03_storage_engine/engine.py:22-23 | pointing a key at a fresh record of its own keeps the index consistent |
| Engine.ConsistentDelete | 03_storage_engine/engine.py:47-48 | taking a key out of the index keeps it consistent |
| Engine.PutRecord | StorageEngine/log_store.py:105-110 | `log_store.put`: the record lands at the end of the last segment, or of a new one where the last is full |
| Engine.StorageEngine.constructor | 03_storage_engine/engine.py:7-18 | an engine over an empty directory: no key has a value |
| Engine.StorageEngine.RebuildIndex | 03_storage_engine/engine.py:16-18 | the rebuild over an empty log indexes nothing |
| Engine.StorageEngine.Append | 03_storage_engine/engine.py:22 | where the record is written, the location returned holds it and every indexed key still points at its record |
| Engine.StorageEngine.Put | 03_storage_engine/engine.py:20-24 | the key takes the value and no other key changes; a record too long to pack fails and changes nothing |
| Engine.StorageEngine.Point | 03_storage_engine/engine.py:23-24 | the key points at its new record and the filter has it |
| Engine.StorageEngine.Remember | 03_storage_engine/engine.py:23-24 | `index.put` and `bloom.add` |
| Engine.StorageEngine.Get | 03_storage_engine/engine.py:26-43 | the key's value exactly when it has one, None otherwise; in particular None whenever the filter rules the key out |
| Engine.StorageEngine.Delete | 03_storage_engine/engine.py:45-48 | the key loses its value and no other key changes; a tombstone too long to pack fails and changes nothing |
| Engine.StorageEngine.Unpoint | 03_storage_engine/engine.py:48 | the key leaves the index |
| Engine.StorageEngine.Exists | 03_storage_engine/engine.py:50-51 | true exactly when the key has a value |
| Engine.StorageEngine.Keys | 03_storage_engine/engine.py:53-54 | exactly the keys that have a value |
| StorageIndex.ReindexReplay | 03_storage_engine/index.py:27-35 | the hash index `rebuild` produces holds the keys of the record dictionary `get_all_records` builds from the same records, at the same places |
| StorageIndex.RebuildLastWrite | 03_storage_engine/index.py:27-35 | after a rebuild a key is indexed exactly when its last record in segment order is no tombstone, and then at that record |
| StorageIndex.HashIndex.constructor | 03_storage_engine/index.py:7-9 | an empty index |
| StorageIndex.HashIndex.Put | 03_storage_engine/index.py:11-13 | the key maps to the segment and offset, every other key as before |
| StorageIndex.HashIndex.Get | 03_storage_engine/index.py:15-17 | the location exactly when the key is indexed |
| StorageIndex.HashIndex.Delete | 03_storage_engine/index.py:19-21 | the key is dropped, absent or not |
| StorageIndex.HashIndex.Keys | 03_storage_engine/index.py:23-25 | every indexed key once |
| StorageIndex.HashIndex.Rebuild | 03_storage_engine/index.py:27-35 | clear, then replay every record of every segment in order |
| StorageIndex.HashIndex.IndexStore | 03_storage_engine/index.py:30-35 | the two loops build the index of all records in segment order |
| StorageIndex.HashIndex.IndexSegment | 03_storage_engine/index.py:31-35 | the inner loop adds one more segment's records |
| StorageIndex.EntryLtTotal | 03_storage_engine/index.py:46 | Python's tuple order on `(key, segment_id, offset)` is total |
| StorageIndex.EntryLtTransitive | 03_storage_engine/index.py:46 | and transitive |
| StorageIndex.BisectLeft | 03_storage_engine/index.py:46 | `bisect_left` on a sorted list: every entry before the position is below the new one, the one at it is not |
| StorageIndex.KeysBelow | 03_storage_engine/index.py:57 | `bisect_right(entries, (key,))` is the first position whose key is not below `key`, since `(key,)` sorts before every tuple starting with `key` |
| StorageIndex.AddedSorted | 03_storage_engine/index.py:43-50 | `add` keeps the list sorted and holds the new entry; the entry with the same key at the insertion point is replaced, otherwise the entry is inserted and every other entry stays |
| StorageIndex.SortSorted | 03_storage_engine/index.py:74 | `sort()` gives an ascending permutation |
| StorageIndex.SampledFails | 03_storage_engine/index.py:65-74 | the rebuild raises exactly for an interval of 0 over a store holding a live record |
| StorageIndex.SampledMembers | 03_storage_engine/index.py:68-73 | with a nonzero interval the sample holds exactly the live records whose position in the whole store is divisible by the interval |
| StorageIndex.SparseIndex.constructor | 03_storage_engine/index.py:38-41 | an empty sorted list with the interval |
| StorageIndex.SparseIndex.Add | 03_storage_engine/index.py:43-50 | the entries become `Added` of the old ones and stay sorted |
| StorageIndex.SparseIndex.Rebuild | 03_storage_engine/index.py:65-74 | every `interval`-th record read, then sorted; where `count % interval` divides by zero the index is left cleared and the call fails |
| StorageIndex.SparseIndex.SampleStore | 03_storage_engine/index.py:68-73 | the loops of `rebuild` collect the sample |
| StorageIndex.SparseIndex.SampleSegment | 03_storage_engine/index.py:70-73 | the inner loop samples one more segment |
| StorageIndex.StoreFails | 03_storage_engine/index.py:65-74 | a rebuild that failed on the first segments fails on all of them |
| StorageIndex.FindRangeBounds | 03_storage_engine/index.py:52-63 | `find_range` on a sorted index: (None, None) when empty; no start exactly when no key is below `key`, and then the first entry as end; otherwise the last entry below `key` and the one after it |
| StorageIndex.SparseIndex.FindRange | 03_storage_engine/index.py:52-63 | (None, None) on an empty index; a start is an entry whose key is below `key`, an end one whose key is not; with no start the end is the first entry (on a sorted index, `FindRangeBounds`) |
| Bloom.Probe | 03_storage_engine/index.py:194-198 | every probe `(h1 + i*h2) % size` is a position in the bit array |
| Bloom.BloomFilter.constructor | 03_storage_engine/index.py:189-192 | `size` bits, all clear, nothing added |
| Bloom.BloomFilter.Add | 03_storage_engine/index.py:200-202 | `add` sets exactly the key's probe bits and no other; with size 0 it raises and changes nothing |
| Bloom.BloomFilter.MightContain | 03_storage_engine/index.py:204-205 | true exactly when every probe bit is set, so no added key is ever ruled out |
| Bloom.BloomFilter.Rebuild | 03_storage_engine/index.py:207-210 | a cleared array with exactly the probe bits of the keys set |
| SSTableIndex.Build | 03_storage_engine/index.py:84-103 | what the write loop has produced after the keys, stopping at a None value (`.encode` raises) or at a zero interval |
| SSTableIndex.BuildRows | 03_storage_engine/index.py:90-103 | a build that got through writes one row per key in key order, and a sparse entry exactly at the row positions divisible by the interval |
| SSTableIndex.BuildTable | 03_storage_engine/index.py:84-103 | a finished table has strictly sorted rows, a sampled sparse index, and holds exactly the records' key-value pairs |
| SSTableIndex.BuildSucceeds | 03_storage_engine/index.py:84-103 | `build_from_records` gets through exactly when no value is None and, for a non-empty map, the interval is not 0 |
| SSTableIndex.PairsBelowCount | 03_storage_engine/index.py:131 | on an index ascending by key, `bisect_right(sparse, (key,))` counts the entries below `key` |
| SSTableIndex.PairsBelow | 03_storage_engine/index.py:131 | `bisect_right(sparse, (key,))` as the search stops: every entry before the position has a key below `key`, the one at it does not |
| SSTableIndex.ScanMisses | 03_storage_engine/index.py:145-162 | the scan finds nothing in a window without the key |
| SSTableIndex.ScanFinds | 03_storage_engine/index.py:145-162 | the scan from below a key's row reaches it when every row before it is below it |
| SSTableIndex.LookupMissesSparseKey | 03_storage_engine/index.py:131-138 | `get` as written misses every key that has a sparse entry of its own: the window it scans ends right before that key's row |
| SSTableIndex.LookupMissesFirstKey | 03_storage_engine/index.py:126-162 | as written, a table holding only "a" -> "1" answers None for "a" |
| SSTableIndex.WindowHolds | 03_storage_engine/index.py:131-147 | with the last sparse entry at or below the key, the window contains the key's row |
| SSTableIndex.LookupFixedCorrect | 03_storage_engine/index.py:126-162 | the corrected `get` answers the stored value of a written key, and None for any other key |
| SSTableIndex.BuiltLookup | 03_storage_engine/index.py:84-162 | a table built from records with no None value answers the corrected lookup with the record's value, and None for a key it was not given |
| SSTableIndex.ScannedInRange | 03_storage_engine/index.py:164-186 | on sorted rows the scan is exactly the rows in range |
| SSTableIndex.InRangeMembers | 03_storage_engine/index.py:178-184 | the rows in range are exactly the pairs with `lo <= key <= hi`, in table order |
| SSTableIndex.SSTable.constructor | 03_storage_engine/index.py:77-82 | no rows and no sparse entries |
| SSTableIndex.SSTable.BuildFromRecords | 03_storage_engine/index.py:84-109 | the data are rewritten with the records in key order; the sparse entries are appended to those already held |
| SSTableIndex.SSTable.Write | 03_storage_engine/index.py:90-103 | the write loop over the sorted keys computes `Build` |
| SSTableIndex.SSTable.Get | 03_storage_engine/index.py:126-162 | `get` as written |
| SSTableIndex.SSTable.GetCorrected | 03_storage_engine/index.py:126-162 | `get` scanning the window of the last sparse entry at or below `key` |
| SSTableIndex.SSTable.Scan | 03_storage_engine/index.py:145-160 | the read loop from `start` while below `end` |
| SSTableIndex.SSTable.RangeScan | 03_storage_engine/index.py:164-186 | `range_scan` on a sorted table gives the pairs with `lo <= key <= hi` in ascending order |
| Compaction.LastFor | 03_storage_engine/compaction.py:34-39 | the position of the last record for a key, None when there is none |
| Compaction.MergeLastWrite | 03_storage_engine/compaction.py:33-39 | last write wins: a key is merged exactly when its last record is not a tombstone, and then with that record's value |
| Compaction.MergeWritable | 03_storage_engine/compaction.py:33-49 | every merged pair is one of the records read, so it packs when written again |
| Compaction.RowsSorted | 03_storage_engine/compaction.py:48-49 | the compacted segment holds one record per merged key, in ascending key order, with the merged value and no tombstone |
| Compaction.MinId | 03_storage_engine/compaction.py:44 | `min(s.segment_id for s in segments)`: a candidate's id, at most every other |
| Compaction.Compact | 03_storage_engine/compaction.py:28-56 | `compact`: fewer than two candidates, or candidates whose records all cancel out, answer False and change nothing; otherwise the candidates are replaced by one new segment with their smallest id holding the merged records in key order, and the active segment stays |
| Compaction.Plan | 03_storage_engine/compaction.py:29-39 | the candidates and what merging them gives |
| Compaction.Rewrite | 03_storage_engine/compaction.py:44-55 | the new segment and `replace_segments` |
| Compaction.Renamed | 03_storage_engine/compaction.py:45-52 | after the appends and `rename`, the temporary file is gone, the segment file of the new id holds the temporary file's bytes followed by the rows, and no other file changes |
| Compaction.CompactUnlinksOwnOutput | StorageEngine/log_store.py:148-150 | as written, the segment file of the new segment's id, the smallest candidate id, is among the old files unlinked, so it is gone after compaction |
| Compaction.CompactFilesFixedKeeps | StorageEngine/log_store.py:148-150 | with the unlink sparing the new segment's file, that file holds what was written, every other old segment file is gone and no other file changes |
| Compaction.CompactedReadsBack | StorageEngine/log_store.py:51-71 | with the corrected unlink and no leftover temporary file, `iterate` over the new segment's file reports exactly the rows written |
| Compaction.Candidates | StorageEngine/log_store.py:130-131 | the candidates are segments of the store |
| Compaction.MergeSegments | 03_storage_engine/compaction.py:33-39 | the merge loop over every record of every candidate in order |
| Compaction.ApplyRecords | 03_storage_engine/compaction.py:35-39 | the inner loop applies one segment's records in order |
| Compaction.EntriesRecords | StorageEngine/log_store.py:51-71 | `iterate` reports every record of a segment in the order written |
| Compaction.WriteSegment | 03_storage_engine/compaction.py:46-49 | a new segment holding the rows appended in order |
| Compaction.AppendRecord | StorageEngine/log_store.py:19-33 | `append` of a record that packs adds it at the end |
| Compaction.SortedRows | 03_storage_engine/compaction.py:48 | `sorted(merged_records.keys())` with each key's value |
| Compaction.PackableMerge | 03_storage_engine/compaction.py:33-49 | the merge of segments whose records pack packs |
| Compaction.SizeIsLog | StorageEngine/log_store.py:28-32 | a segment's `size` is the length of its data file |
| Compaction.LevelLimitGrows | 03_storage_engine/compaction.py:82-83 | with a ratio of at least one, every level's limit is at least `ratio` MiB and `ratio` times the limit of the level above |
| Compaction.FillRecords | 03_storage_engine/compaction.py:110-116 | the lower level's loop only fills in keys not yet present |
| Compaction.LevelMergeResurrects | 03_storage_engine/compaction.py:97-116 | a key the upper segment deletes comes back with its lower-level value as written, and stays deleted in the corrected merge |
| Compaction.LevelMergeKeepsOldest | 03_storage_engine/compaction.py:110-116 | within the lower level the oldest value wins as written, the newest in the corrected merge |
| Compaction.LevelMergeFixedNewest | 03_storage_engine/compaction.py:97-116 | the corrected merge holds a key exactly when its newest record over both levels is live, with that value; an upper record always beats a lower one |
| Compaction.FirstLive | 03_storage_engine/compaction.py:112-116 | the position of the first live record for a key |
| Compaction.FillFirstChar | 03_storage_engine/compaction.py:110-116 | filling in keeps every present key and adds each absent key with its first live value |
| Compaction.LevelMergeChar | 03_storage_engine/compaction.py:97-116 | as written, a key live after the upper segment keeps that value, any other takes its first live lower-level value |
| Compaction.LevelMergeAgrees | 03_storage_engine/compaction.py:97-116 | the two merges agree when the lower level holds each key once and the upper segment deletes no key the lower level holds |
| Compaction.CompactedShape | 03_storage_engine/compaction.py:93-129 | `_compact_level` keeps the number of levels, touches only the level and the next, pops the level's first segment, leaves the next level with at most one segment whose records are ascending and live, and raises exactly when the last level has a segment with live records |
| Compaction.CheckedKeepsLevels | 03_storage_engine/compaction.py:88-91 | checking keeps the number of levels |
| Compaction.LeveledCompactor.constructor | 03_storage_engine/compaction.py:59-65 | `max_levels` empty levels |
| Compaction.LeveledCompactor.CheckLevels | 03_storage_engine/compaction.py:88-91 | each level over its limit compacted in turn, as `CheckedFrom` states |
| Compaction.LeveledCompactor.CompactLevel | 03_storage_engine/compaction.py:93-129 | the levels become `CompactedLevels`; where it raises the first segment is already popped |
| Compaction.LeveledCompactor.Compacted | 03_storage_engine/compaction.py:93-129 | the levels `_compact_level` leaves, None where it raises |
| Compaction.LeveledCompactor.MergeLower | 03_storage_engine/compaction.py:98-116 | the upper segment's records, then the lower level filling in keys not present |
| Schemas.AddField | VersionedEncoding/schema.py:33-45 | `add_field` appends the new definition after every existing one and changes nothing else |
| Schemas.TagIndex | VersionedEncoding/schema.py:47-51 | the first field with the tag in declaration order, None exactly when no field has it |
| Schemas.NameIndex | VersionedEncoding/schema.py:53-57 | the first field with the name, None exactly when no field has it |
| Schemas.GetFieldByTag | VersionedEncoding/schema.py:47-51 | the loop of `get_field_by_tag` returns the field at `TagIndex` |
| Schemas.GetFieldByName | VersionedEncoding/schema.py:53-57 | the loop of `get_field_by_name` returns the field at `NameIndex` |
| Schemas.AddFieldLookup | VersionedEncoding/schema.py:33-51 | a field added under a tag already taken is never the one found by tag; every other tag is found as before |
| Schemas.ArrayTypeCheckRule | VersionedEncoding/schema.py:88-93 | a typed ARRAY value is accepted exactly when it is a list whose elements all pass the element type |
| Schemas.Validate | VersionedEncoding/schema.py:59-69 | the loop of `validate` stops at `FirstProblem` |
| Schemas.ValidateRule | VersionedEncoding/schema.py:59-69 | validation passes exactly when every field is present when required and type-checks when present; otherwise it names a field that breaks one of the two |
| Schemas.SchemaRegistry.constructor | VersionedEncoding/schema.py:104-105 | no schemas |
| Schemas.SchemaRegistry.Register | VersionedEncoding/schema.py:107-110 | the schema is stored under its (name, version), replacing any earlier one, and returned |
| Schemas.SchemaRegistry.Get | VersionedEncoding/schema.py:112-113 | the schema under (name, version), None exactly when there is none |
| Schemas.SchemaRegistry.Versions | VersionedEncoding/schema.py:122 | the versions registered under the name |
| Schemas.SchemaRegistry.GetLatest | VersionedEncoding/schema.py:115-119 | None exactly when nothing is registered under the name; otherwise the schema under its greatest version |
| Schemas.SchemaRegistry.GetVersions | VersionedEncoding/schema.py:121-122 | the name's versions, each once, in ascending order |
| Schemas.SchemaRegistry.RegisterThenGet | VersionedEncoding/schema.py:107-113 | after `register`, `get` finds that schema and every other entry as before |
| Schemas.SchemaRegistry.LatestIsLastVersion | VersionedEncoding/schema.py:115-122 | the latest schema is the one under the last of the ascending versions |
| Schemas.TagTable | VersionedEncoding/schema.py:127-128 | `{f.tag: f for f in fields}` holds exactly the tags of the fields |
| Schemas.TagOrder | VersionedEncoding/schema.py:130-136 | the dict's keys in insertion order, each tag once |
| Schemas.CheckCompatibility | VersionedEncoding/schema.py:124-140 | the issues found are `Issues`, and the schemas are compatible exactly when there are none |
| Schemas.CollectTypeIssues | VersionedEncoding/schema.py:130-134 | the first loop computes the type changes in tag order |
| Schemas.CollectRequiredIssues | VersionedEncoding/schema.py:136-138 | the second loop computes the new required fields without a default in tag order |
| Schemas.CompatibilityRule | VersionedEncoding/schema.py:124-140 | a type change is reported exactly for a tag both schemas use whose last definitions differ in type; a missing default exactly for a tag only the new schema uses whose last definition is required with no default |
| Schemas.SelfCompatible | VersionedEncoding/schema.py:124-140 | every schema is compatible with itself |
| Encoder.VarintShape | VersionedEncoding/encoder.py:8-16 | every byte of `encode_varint` but the last carries the continuation bit 0x80, the last does not |
| Encoder.VarintDigits | VersionedEncoding/encoder.py:12-15 | the seven-bit groups of the bytes, least significant first, sum back to the value |
| Encoder.VarintOf | VersionedEncoding/encoder.py:8-16 | a negative value is first taken as `(1 << 64) + value`; one still negative makes `bytes()` raise |
| Encoder.EncodeVarint | VersionedEncoding/encoder.py:8-16 | the loop of `encode_varint` computes `VarintOf` |
| Encoder.LengthPrefixed | VersionedEncoding/encoder.py:18-23 | `encode_string` and `encode_bytes` are a varint of the payload's byte length followed by the payload |
| Encoder.Header | VersionedEncoding/encoder.py:30-36 | the header as written packs when the version and the name's CHARACTER count fit an unsigned 16-bit field |
| Encoder.HeaderFixed | VersionedEncoding/encoder.py:30-36 | the corrected header packs when the version and the name's BYTE count fit, and is the 8 header bytes plus the name |
| Encoder.HeaderAgreesOnAscii | VersionedEncoding/encoder.py:34-36 | on an ASCII name the two headers are equal |
| Encoder.IntBytes | VersionedEncoding/encoder.py:63-67 | `struct.pack('>i' / '>q')` gives 4 or 8 bytes |
| Encoder.FloatBytes | VersionedEncoding/encoder.py:69-73 | `struct.pack('>f' / '>d')` gives 4 or 8 bytes |
| Encoder.EncodeRecord | VersionedEncoding/encoder.py:29-40 | `encode` succeeds exactly when the header packs and the fields encode |
| Encoder.EncodeRecordFixed | VersionedEncoding/encoder.py:29-40 | the corrected encoder succeeds exactly when the corrected header packs and the fields encode with an untyped ARRAY as STRING |
| Encoder.BodyEndsWithZero | VersionedEncoding/encoder.py:58 | every body closes with the single zero byte of `encode_varint(0)` |
| Encoder.FieldsRule | VersionedEncoding/encoder.py:45-56 | an absent required field raises; an absent optional field and a None value add nothing; any other field adds its tag's varint and its value's bytes |
| Encoder.ValueForms | VersionedEncoding/encoder.py:62-106 | the wire form of each type: big-endian two's complement ints, one byte for a bool, a count in front of an ARRAY's items and a MAP's entries, a length in front of a NESTED body |
| Encoder.FieldsAgree | VersionedEncoding/encoder.py:42-60 | the body as written and corrected agree when every ARRAY is typed |
| Encoder.EncodeAgrees | VersionedEncoding/encoder.py:29-40 | `encode` as written and corrected agree on an ASCII name and typed ARRAYs |
| Encoder.EncodeItems | VersionedEncoding/encoder.py:88-89 | the item loop computes `ItemsBytes` |
| Encoder.EncodeEntries | VersionedEncoding/encoder.py:95-97 | the entry loop computes `EntriesBytes` |
| Encoder.StrOf | VersionedEncoding/encoder.py:96-97 | `str(x)` is known exactly for strings, integers, booleans and None; a string is its own text and an integer's starts with '-' exactly when it is negative |
| Encoder.EncodeValue | VersionedEncoding/encoder.py:62-108 | `_encode_value` computes `ValueBytes` |
| Encoder.FieldValueBytes | VersionedEncoding/encoder.py:84-107 | an ARRAY encodes only a list, and as written one without `element_type` encodes exactly when it is empty; a NESTED field with a schema encodes only a record |
| Encoder.EncodeFieldValue | VersionedEncoding/encoder.py:62-108 | `_encode_value` with its field definition computes `FieldValueBytes` |
| Encoder.EncodeFields | VersionedEncoding/encoder.py:42-60 | the field loop computes `FieldsBytes` |
| Encoder.Encode | VersionedEncoding/encoder.py:110-112 | module-level `encode` computes `EncodeRecord` |
| CodecFindings.AccentedBytes | VersionedEncoding/encoder.py:30-40 | a schema named "é" is written with a name length of 1 before the two bytes of its UTF-8 name |
| CodecFindings.AccentedNameUnreadable | VersionedEncoding/encoder.py:34 | that message does not read back, even with its own schema |
| CodecFindings.AccentedNameReadable | VersionedEncoding/encoder.py:34 | with the header counting bytes, it reads back |
| CodecFindings.UntypedArrayUnwritable | VersionedEncoding/encoder.py:87 | an ARRAY field without `element_type` encodes its items with type None and raises |
| CodecFindings.UntypedArrayWritable | VersionedEncoding/encoder.py:87 | with STRING as the default element type the field is written |
| CodecFindings.UntypedArrayRoundTrip | 04_versioned_encoding/decoder.py:120-128 | and read back by the decoder, which defaults to STRING |
| RoundTrip.VarintRoundTrip | 04_versioned_encoding/decoder.py:5-17 | a varint reads back as the value it encodes, ending right after its bytes |
| RoundTrip.VarintReadsDigits | 04_versioned_encoding/decoder.py:5-17 | `decode_varint` takes the bytes it reads as the sum of their seven-bit groups |
| RoundTrip.VarintTruncated | 04_versioned_encoding/decoder.py:8-10 | reading raises exactly when every byte left has the continuation bit |
| RoundTrip.StringRoundTrip | 04_versioned_encoding/decoder.py:19-22 | `decode_string` reads back `encode_string` |
| RoundTrip.BytesRoundTrip | 04_versioned_encoding/decoder.py:24-27 | `decode_bytes` reads back `encode_bytes` |
| RoundTrip.LengthPrefixed | 04_versioned_encoding/decoder.py:19-27 | the length reads back and the slice after it is the payload |
| RoundTrip.ValueRoundTrip | 04_versioned_encoding/decoder.py:91-147 | a value in its canonical form reads back as itself, ending right after its bytes |
| RoundTrip.ArrayRoundTrip | 04_versioned_encoding/decoder.py:120-128 | an ARRAY reads back as its items |
| RoundTrip.MapRoundTrip | 04_versioned_encoding/decoder.py:130-137 | a MAP of string entries with distinct keys reads back as those entries |
| RoundTrip.FixedRoundTrip | 04_versioned_encoding/decoder.py:94-118 | ints, floats and bools read back |
| RoundTrip.ItemsRoundTrip | 04_versioned_encoding/decoder.py:125-127 | the items loop appends the written items in order |
| RoundTrip.EntriesRoundTrip | 04_versioned_encoding/decoder.py:133-136 | the entries loop stores each new key in order |
| Decoder.ReadVarint | 04_versioned_encoding/decoder.py:5-17 | `decode_varint`: an offset past the one given and within the data, or the error at the end of the data |
| Decoder.ReadFixed | 04_versioned_encoding/decoder.py:95-118 | `struct.unpack` of a `width`-byte slice succeeds exactly when `width` bytes remain, and takes those bytes |
| Decoder.DictPutRule | 04_versioned_encoding/decoder.py:136 | `result[key] = value` maps the key to the value; a new key goes at the end and every other entry stays |
| Decoder.ReadHeader | 04_versioned_encoding/decoder.py:34-45 | `decode` reads the magic bytes, the big-endian version and name length, and the name as strict UTF-8; the fields start after the name |
| Decoder.Lookup | 04_versioned_encoding/decoder.py:47-49 | `self.registry.get(name, version) if self.registry else None` |
| Decoder.ShiftedLast | 04_versioned_encoding/decoder.py:11-15 | the last byte of a varint adds its seven bits at the current place value |
| Decoder.ShiftedMore | 04_versioned_encoding/decoder.py:11-16 | a byte with the continuation bit adds its seven bits and moves the place value up by 128 |
| Decoder.DecodeVarint | 04_versioned_encoding/decoder.py:5-17 | the loop of `decode_varint`, with `\|=` and `<<` as additions, computes `ReadVarint` |
| Decoder.DecodeString | 04_versioned_encoding/decoder.py:19-22 | `decode_string` computes `ReadString` |
| Decoder.DecodeBytes | 04_versioned_encoding/decoder.py:24-27 | `decode_bytes` computes `ReadBytes` |
| Decoder.DecodeItems | 04_versioned_encoding/decoder.py:125-127 | the ARRAY loop computes `ReadItems` |
| Decoder.DecodeEntries | 04_versioned_encoding/decoder.py:133-136 | the MAP loop computes `ReadEntries` |
| Decoder.DecodeValue | 04_versioned_encoding/decoder.py:91-147 | `_decode_value` with the temporary field computes `ReadValue` |
| Decoder.DecodeArray | 04_versioned_encoding/decoder.py:120-128 | computes `ReadArray` |
| Decoder.DecodeMap | 04_versioned_encoding/decoder.py:130-137 | computes `ReadMap` |
| Decoder.DecodeFieldValue | 04_versioned_encoding/decoder.py:91-147 | `_decode_value` with a schema's field definition computes `ReadFieldValue` |
| Decoder.DecodeRecordBody | 04_versioned_encoding/decoder.py:139-144 | a NESTED body decoded on its own |
| Decoder.SkipField | 04_versioned_encoding/decoder.py:149-182 | `_skip_field` computes `SkipTo` |
| Decoder.DecodeFields | 04_versioned_encoding/decoder.py:61-89 | `_decode_fields` computes `ReadFields` |
| Decoder.Decode | 04_versioned_encoding/decoder.py:184-186 | `decode(data, registry, target_schema)` computes `DecodeMessage` |
| Decoder.DecodeHeader | 04_versioned_encoding/decoder.py:34-45 | computes `ReadHeader` |
| Evolution.SameWireReads | 04_versioned_encoding/decoder.py:91-147 | reading a field needs only its wire form, not its name |
| Evolution.SkipAgrees | 04_versioned_encoding/decoder.py:149-182 | `_skip_field` by the writer's definition ends where reading the value by it would |
| Evolution.ReadFieldsEnd | 04_versioned_encoding/decoder.py:66-68 | the zero tag ends the body, and the defaults follow |
| Evolution.ReadFieldsSkip | 04_versioned_encoding/decoder.py:70-77 | a tag the reader does not know is stepped over and remembered as seen |
| Evolution.ReadFieldsKnown | 04_versioned_encoding/decoder.py:70-80 | a known tag is read by the reader's definition and stored under the reader's name |
| Evolution.FieldValueRoundTrip | 04_versioned_encoding/decoder.py:91-147 | a field's value reads back with any definition of the same wire form |
| Evolution.NestedRoundTrip | 04_versioned_encoding/decoder.py:139-144 | a NESTED record reads back from its own slice |
| Evolution.SelfBody | 04_versioned_encoding/decoder.py:61-89 | a body read with its writer's schema alone is the record |
| Evolution.BodyLayout | VersionedEncoding/encoder.py:42-60 | the fields as written lie in the data tag by tag |
| Evolution.BodyRead | 04_versioned_encoding/decoder.py:61-89 | reading a laid-out body sees the sent tags, takes in the known fields and applies the defaults; unknown tags are stepped over by the writer's definition or as length-prefixed |
| Evolution.SentTagsSent | 04_versioned_encoding/decoder.py:70 | the tags seen are exactly the ones the writer sent |
| Evolution.ReceiveSpec | 04_versioned_encoding/decoder.py:79-80 | a reader's field takes the value sent under its tag, and is left alone when its tag is not sent |
| Evolution.DefaultsOk | 04_versioned_encoding/decoder.py:82-87 | the defaults loop raises exactly on a required field never seen and without a default |
| Evolution.DefaultsSpec | 04_versioned_encoding/decoder.py:82-85 | a field not seen takes its default where it has one, and is otherwise left as it was |
| Evolution.Outcome | 04_versioned_encoding/decoder.py:61-89 | whichever versions wrote and read a body, reading fails exactly when a required field is missing, and otherwise gives the expected record |
| Evolution.ExpectedSelf | 04_versioned_encoding/evolution_test.py:43-85 | with the writer's schema as the reader's, the expected record is the record written |
| Evolution.CompleteSelf | 04_versioned_encoding/decoder.py:82-87 | a canonical record is complete for its own schema |
| Evolution.HeaderRoundTrip | 04_versioned_encoding/decoder.py:34-45 | the corrected header reads back as the version, the name's byte length and the name |
| Evolution.MessageRead | 04_versioned_encoding/decoder.py:34-59 | `decode` of a laid-out message is the outcome of its body with the chosen schema |
| Evolution.Evolution | 04_versioned_encoding/evolution_test.py:43-71 | a record written with one schema version and read with another that agrees with it on shared tags decodes exactly when every required field of the reader is sent or has a default, and then holds the fields the reader knows |
| Evolution.NoSchema | 04_versioned_encoding/decoder.py:51-56 | without a target schema and without the writer's schema in the registry, decoding raises |
| Evolution.SelfRoundTrip | 04_versioned_encoding/evolution_test.py:73-85 | decode(encode(d)) == d with the writer's schema as the target |
| Evolution.RegistryRoundTrip | 04_versioned_encoding/decoder.py:47-58 | decode(encode(d)) == d with the writer's schema found in the registry |
| ReplicatedNode.OpOf | 05_replicated_store/node.py:13-15 | `OpType(code)` succeeds exactly for the codes 1 and 2 and gives back the operation with that code |
| ReplicatedNode.StampOr | 05_replicated_store/node.py:23 | `timestamp or time.time()` keeps every timestamp that is not zero |
| ReplicatedNode.ValueBytes | 05_replicated_store/node.py:27 | the value packs to no bytes exactly when it is None or the empty string |
| ReplicatedNode.ToBytes | 05_replicated_store/node.py:25-35 | `to_bytes` succeeds exactly when the sequence number fits 64 unsigned bits and the key and value lengths fit 32, and the record is the 25-byte header plus the UTF-8 key and value |
| ReplicatedNode.FromBytes | 05_replicated_store/node.py:37-46 | `from_bytes` fails on a short header, an unknown op code or bytes that are not UTF-8; on success the offset moves past the 25 header bytes |
| ReplicatedNode.Normalised | 05_replicated_store/node.py:23-46 | a trip through the file keeps an entry's number, operation and key |
| ReplicatedNode.FromToBytes | 05_replicated_store/node.py:25-46 | `from_bytes(to_bytes(e))` gives back the entry, with an empty value read as None and a zero timestamp replaced by the clock, and the offset moves past exactly the record |
| ReplicatedNode.LoadLog | 05_replicated_store/node.py:57-69 | the `_load` loop over a file that ends with the records of a log reads every entry and sets `next_seq` to one past the largest number |
| ReplicatedNode.LoadedLog | 05_replicated_store/node.py:57-69 | a file written by `append` loads completely back |
| ReplicatedNode.LoadFromBelow | 05_replicated_store/node.py:63-67 | the `next_seq` that `_load` computes lies above every entry it read |
| ReplicatedNode.AppendStep | 05_replicated_store/node.py:71-78 | `append` numbers the entry `next_seq`, adds it to the list, increments the counter, and writes its bytes to the file exactly when packing succeeds |
| ReplicatedNode.EntriesFrom | 05_replicated_store/node.py:80-82 | the entries numbered `seq` or later, none other, and no more entries than the log holds |
| ReplicatedNode.EntriesFromAppend | 05_replicated_store/node.py:80-82 | the filter keeps log order: filtering a concatenation concatenates the filtered parts |
| ReplicatedNode.AppendNumbered | 05_replicated_store/node.py:71-86 | appending keeps the entries numbered 0, 1, 2, ..., and `get_last_seq` then names the entry just appended |
| ReplicatedNode.NumberedQueries | 05_replicated_store/node.py:80-86 | in a log numbered from 0, `get_last_seq` is the number of the last entry (-1 when empty) and the entries from `s` on are the suffix at position `s` |
| ReplicatedNode.Apply | 05_replicated_store/node.py:113-120 | `_apply_entry` leaves the applied number at the larger of the old one and the entry's |
| ReplicatedNode.ApplyRule | 05_replicated_store/node.py:113-120 | an entry at or below the applied number changes nothing; a newer PUT binds its key to its value, a newer DELETE removes its key whether present or not; applying twice is applying once |
| ReplicatedNode.ApplyAllBounds | 05_replicated_store/node.py:109-111 | `_replay_wal` never lowers the applied number and ends at or above every replayed entry's number |
| ReplicatedNode.ApplyAllBelow | 05_replicated_store/node.py:109-111 | replaying entries all below `n` keeps the applied number below `n` |
| ReplicatedNode.WriteStep | 05_replicated_store/node.py:132-146 | a follower answers 'not leader' and changes nothing; a leader's accepted write carries the WAL's next number; the role and leader never change |
| ReplicatedNode.Replicate | 05_replicated_store/node.py:152-160 | `apply_replication` keeps the role and leader, and its answer is the final applied number |
| ReplicatedNode.ReplicateReply | 05_replicated_store/node.py:152-160 | when every entry packs, the answer is the largest of the old applied number and the entries' numbers |
| ReplicatedNode.ReplicateAppends | 05_replicated_store/node.py:154-156 | entries arriving in increasing order above the applied number are all appended to the log, in order |
| ReplicatedNode.StartedBelowNext | 05_replicated_store/node.py:88-107 | a freshly started node's applied number lies below its WAL's next number, whatever its log file holds |
| ReplicatedNode.WriteBelowNext | 05_replicated_store/node.py:132-146 | writes keep the applied number below the next number, and so an accepted PUT leaves the key holding the value and an accepted DELETE leaves it absent |
| ReplicatedNode.ReplicateFixedBelowNext | 05_replicated_store/node.py:152-160 | replication that also raises `next_seq` past each appended entry keeps that relation |
| ReplicatedNode.PromotedFollower | 05_replicated_store/node.py:152-160 | a fresh follower that receives entry 0 applies it, and its `next_seq` stays 0 as written (1 when corrected) |
| ReplicatedNode.PromotedFollowerDropsWrite | 05_replicated_store/node.py:152-160 | as written, that follower once promoted answers its first `put` with success and sequence number 0, yet the entry is not applied and the key stays unset |
| ReplicatedNode.ReplicateFixed | 05_replicated_store/node.py:152-160 | with `next_seq` advanced on replication, the same promoted follower numbers its write 1 and applies it |
| ReplicatedNode.Wal.constructor | 05_replicated_store/node.py:49-55 | a WAL over a missing file is empty; otherwise it is the file's contents as `_load` reads them |
| ReplicatedNode.Wal.Load | 05_replicated_store/node.py:57-69 | the loop reads records until the data ends or one fails to decode, collecting the entries and the next number; the file is untouched |
| ReplicatedNode.Wal.Append | 05_replicated_store/node.py:71-78 | the WAL's new state, entry and write outcome are those of `AppendStep` |
| ReplicatedNode.Wal.GetEntriesFrom | 05_replicated_store/node.py:80-82 | exactly the entries numbered `seq` or later; `get_replication_entries` (lines 162-163) returns the same |
| ReplicatedNode.Wal.GetLastSeq | 05_replicated_store/node.py:84-86 | in a log numbered from 0, the number of the last entry, or -1 when empty |
| ReplicatedNode.StorageNode.constructor | 05_replicated_store/node.py:89-107 | a follower with no leader, an empty store and applied number -1, after loading its WAL and replaying it |
| ReplicatedNode.StorageNode.ReplayWal | 05_replicated_store/node.py:109-111 | the store becomes the WAL's entries applied in order to the old store; role and leader are kept |
| ReplicatedNode.StorageNode.ApplyEntry | 05_replicated_store/node.py:113-120 | the store becomes `Apply` of the old store and the entry; role and leader are kept |
| ReplicatedNode.StorageNode.BecomeLeader | 05_replicated_store/node.py:122-125 | the node leads and names itself leader; nothing else changes |
| ReplicatedNode.StorageNode.BecomeFollower | 05_replicated_store/node.py:127-130 | the node follows the given leader; nothing else changes |
| ReplicatedNode.StorageNode.Write | 05_replicated_store/node.py:132-146 | the shared body of `put` and `delete`: the new state and reply are those of `WriteStep` |
| ReplicatedNode.StorageNode.Put | 05_replicated_store/node.py:132-138 | `put` is `WriteStep` with a PUT of the value |
| ReplicatedNode.StorageNode.Delete | 05_replicated_store/node.py:140-146 | `delete` is `WriteStep` with a DELETE and no value |
| ReplicatedNode.StorageNode.Get | 05_replicated_store/node.py:148-150 | the stored value of the key, None when absent |
| ReplicatedNode.StorageNode.ApplyReplication | 05_replicated_store/node.py:152-160 | the new state and answer are those of `Replicate` as written |
| Cluster.CheckedMarksExpired | 05_replicated_store/cluster.py:77-83 | `_check_peers` marks dead exactly the peers whose last heartbeat is more than the timeout old, keeps every heartbeat time and never revives a peer |
| Cluster.LeastUnique | 05_replicated_store/cluster.py:100 | `min(candidates)` is the one least candidate |
| Cluster.ElectionIdempotent | 05_replicated_store/cluster.py:93-104 | electing again over the same peers keeps the leader and fires no callback |
| Cluster.ElectedIsLive | 05_replicated_store/cluster.py:85-104 | after an election the leader is the local node or a live peer with no smaller live id, so the monitor does not elect again right away |
| Cluster.DeadLeaderReplaced | 05_replicated_store/cluster.py:85-104 | a leader that is a dead peer is replaced, and the change is announced to the callback |
| Cluster.ClusterManager.constructor | 05_replicated_store/cluster.py:16-28 | each listed peer, keyed by its id, starts alive with heartbeat time 0, and there is no leader |
| Cluster.ClusterManager.HeartbeatAnswered | 05_replicated_store/cluster.py:64-67 | an answered heartbeat stamps the peer with the time and marks it alive, nothing else |
| Cluster.ClusterManager.CheckPeers | 05_replicated_store/cluster.py:77-83 | `_check_peers` applies the expiry rule to every peer (see `CheckedMarksExpired`) and keeps the leader |
| Cluster.ClusterManager.ElectLeader | 05_replicated_store/cluster.py:93-104 | `_elect_leader` makes the least of the local id and the live peers' ids leader, and returns it as the callback's argument exactly when it changed |
| Cluster.ClusterManager.CheckLeader | 05_replicated_store/cluster.py:85-91 | `_check_leader` elects exactly when there is no leader, or the leader is a peer known to be dead; otherwise nothing changes and no callback fires |
| Cluster.ClusterManager.MarkLeaderDeadAndElect | 05_replicated_store/cluster.py:136-139 | the leader, when it is a peer, is marked dead (nothing else of the peers changes), then a leader is elected |
| Cluster.ClusterManager.IsLeader | 05_replicated_store/cluster.py:110-112 | true exactly when the leader is the local node |
| Cluster.ClusterManager.GetLeader | 05_replicated_store/cluster.py:106-108 | the elected leader, the local id exactly when `is_leader()` holds |
| Cluster.ClusterManager.GetAlivePeers | 05_replicated_store/cluster.py:114-116 | exactly the peers marked alive |
| Cluster.FailoverManager.constructor | 05_replicated_store/cluster.py:119-123 | a failover manager over the cluster and storage node, with replication stopped |
| Cluster.FailoverManager.HandleLeaderChange | 05_replicated_store/cluster.py:125-133 | the storage node becomes leader when the new leader is itself and follower of the new leader otherwise; replication runs exactly when it leads |
| Cluster.FailoverManager.CheckLeader | 05_replicated_store/cluster.py:85-91 | a monitor pass with the callback installed: elects when needed, otherwise changes nothing; the storage node's role follows every leader change |
| Cluster.FailoverManager.ForceFailover | 05_replicated_store/cluster.py:135-139 | `force_failover` elects after marking the leader dead; a leader that was a peer always loses the leadership; the storage node's role follows the change |
| Cluster.LeaderOf | 05_replicated_store/cluster.py:158-161 | as written: a leader is reported only when its id is known and not 0, since Python reads the id 0 as false |
| Cluster.LeaderOfFixed | 05_replicated_store/cluster.py:158-161 | with the test `leader_id is not None`: the designated leader exactly when it is a known node |
| Cluster.ZeroLeaderHidden | 05_replicated_store/cluster.py:158-161 | node 0 can be designated leader, yet `get_leader` then reports none |
| Cluster.LeaderOfAgrees | 05_replicated_store/cluster.py:158-161 | for every leader id other than 0 the written and the corrected test agree |
| Cluster.Drop | 05_replicated_store/cluster.py:150 | `nodes.pop(id, None)` keeps exactly the other ids, in order |
| Cluster.DropDistinct | 05_replicated_store/cluster.py:150 | popping an id keeps the ids distinct |
| Cluster.Keys | 05_replicated_store/cluster.py:143 | the keys of `{n.node_id: n for n in nodes}` are the distinct ids, in order of first appearance |
| Cluster.Followers | 05_replicated_store/cluster.py:163-164 | `get_followers` lists exactly the nodes other than the leader |
| Cluster.FollowersCount | 05_replicated_store/cluster.py:163-164 | the followers are one fewer than the nodes exactly when the leader is a member |
| Cluster.ReplicaSet.constructor | 05_replicated_store/cluster.py:142-144 | the set holds the distinct node ids in first-appearance order, with no leader |
| Cluster.ReplicaSet.AddNode | 05_replicated_store/cluster.py:146-147 | a new id goes last, a known one keeps its place; the leader is unchanged |
| Cluster.ReplicaSet.RemoveNode | 05_replicated_store/cluster.py:149-152 | the id is dropped (an absent one is fine), and removing the leader clears it |
| Cluster.ReplicaSet.SetLeader | 05_replicated_store/cluster.py:154-156 | a known id becomes leader; an unknown one is ignored |
| Cluster.ReplicaSet.GetLeader | 05_replicated_store/cluster.py:158-161 | as written, a leader exactly when the designated one is a member with an id other than 0, and then that one |
| Cluster.ReplicaSet.GetFollowers | 05_replicated_store/cluster.py:163-164 | exactly the members other than the leader |
| Cluster.ReplicaSetLeader | 05_replicated_store/cluster.py:154-164 | with the corrected test, a replica set reports exactly its designated leader, and the followers are all the other members |
| Router.Decimal | ShardedStore/router.py:20 | `f'{i}'`: a non-empty string of decimal digits |
| Router.BisectRightSplit | ShardedStore/router.py:38 | on a sorted ring, the points before `bisect_right` are at most the hash and those after it are above it |
| Router.Insort | ShardedStore/router.py:22 | `bisect.insort` adds one copy of the point |
| Router.InsortSorted | ShardedStore/router.py:22 | and keeps the ring sorted |
| Router.RemoveFirstCut | ShardedStore/router.py:30 | `list.remove` cuts out the first occurrence |
| Router.RemoveFirstMultiset | ShardedStore/router.py:30 | one copy fewer of the point |
| Router.RemoveFirstSorted | ShardedStore/router.py:30 | the ring stays sorted |
| Router.Locate | ShardedStore/router.py:33-43 | `get_node`: None exactly on an empty ring; otherwise a mapped node, `KeyError` only where a ring point is missing from the map |
| Router.LocatePoint | ShardedStore/router.py:37-43 | the point read is the least point above the hash, or the least of all when none is above it |
| Router.GatherShape | ShardedStore/router.py:52-66 | `get_nodes` returns distinct mapped nodes, at most `count` of them (one when `count` is below one) |
| Router.GatherComplete | ShardedStore/router.py:55-66 | fewer nodes than asked for means every point was visited and its node collected |
| Router.GatherFirst | ShardedStore/router.py:55-61 | the first node is the one `get_node` answers |
| Router.WalkCovers | ShardedStore/router.py:55-56 | the walk `(idx + i) % len(ring)` meets every point of the ring |
| Router.AddPoints | ShardedStore/router.py:19-23 | the loop of `add_node` keeps the ring sorted, adds the points, and maps each to the node |
| Router.RemovePoints | ShardedStore/router.py:26-31 | the loop of `remove_node`: each point still mapped loses its mapping and one copy in the ring |
| Router.ConsistentHash.constructor | ShardedStore/router.py:6-13 | an empty ring with each node added in turn: every point of a listed node is mapped, and only to listed nodes |
| Router.ConsistentHash.AddNode | ShardedStore/router.py:18-23 | every virtual point of the node goes into the sorted ring and maps to the node |
| Router.ConsistentHash.RemoveNode | ShardedStore/router.py:25-31 | every virtual point still mapped is unmapped and one copy dropped from the ring; afterwards no point maps to the node |
| Router.ConsistentHash.GetNode | ShardedStore/router.py:33-43 | None exactly on an empty ring, otherwise a mapped node |
| Router.ConsistentHash.GetNodes | ShardedStore/router.py:45-66 | `[]` on an empty ring; otherwise distinct mapped nodes, at most `count`, the first being `get_node`'s answer, and all nodes of the ring when fewer than `count` come back |
| Router.ClientOf | ShardedStore/router.py:79-81 | `self.clients.get(node_key)` |
| Router.ShardRouter.constructor | ShardedStore/router.py:69-77 | a ring of 150 virtual nodes for each shard and a client for each |
| Router.ShardRouter.GetShard | ShardedStore/router.py:79-81 | the client of the node the ring gives, present whenever the ring gives a node |
| Router.ShardRouter.GroupKeys | ShardedStore/router.py:102-107 | the key grouping of `multi_get` is built exactly when the ring answers for every key |
| Router.ShardRouter.GroupItems | ShardedStore/router.py:120-125 | the item grouping of `multi_put` likewise |
| Router.ShardRouter.AddShard | ShardedStore/router.py:145-149 | the shard's address and client are set and its points added to the ring |
| Router.ShardRouter.RemoveShard | ShardedStore/router.py:151-155 | the address and client are dropped and afterwards the ring sends no key to the shard |
| Router.GroupSeq | ShardedStore/router.py:102-107 | the `multi_get` grouping loop |
| Router.GroupMap | ShardedStore/router.py:120-125 | the `multi_put` grouping loop |
| Router.GroupsPartitionKeys | ShardedStore/router.py:101-107 | every key goes into exactly one group, that of the node the ring gives for it |
| Router.GroupsPartitionItems | ShardedStore/router.py:119-125 | every item goes into exactly one group, with its value |
| Router.FirstRange | ShardedStore/router.py:166-170 | the first range with `start <= key < end`, None when none holds it |
| Router.FirstRangeLeastStart | ShardedStore/router.py:160-170 | with the ranges sorted by start, the range a key is sent to starts no later than any other holding it |
| Router.QueryKeys | ShardedStore/router.py:184-198 | a key is in the result exactly when it lies in the query and a shard that was read holds it |
| Router.QuerySkipsOnlyEmptyRanges | ShardedStore/router.py:186-188 | when every shard holds only keys of its own ranges, skipping ranges that miss the query loses no key |
| Router.RangeRouter.constructor | ShardedStore/router.py:158-164 | the ranges sorted by start, stably, a permutation of those given, and a client per shard |
| Router.RangeRouter.ShardForKey | ShardedStore/router.py:166-170 | the client of the first range holding the key, if that shard has one |
| Router.RangeRouter.RangeQuery | ShardedStore/router.py:184-198 | `range_query` given what each shard holds |
| Router.Collect | ShardedStore/router.py:193-197 | one shard's keys in the query added |
| Mvcc.RecordAt | 07_transaction_system/store.py:22 | the `defaultdict` reads an absent key as an empty, unlocked record and a present one as itself |
| Mvcc.NewestSeen | 07_transaction_system/store.py:49-58 | the reverse scan stops at the newest version the reader sees, its own or committed at or before its snapshot; no newer version is seen, and None means none is |
| Mvcc.NewestCommitted | 07_transaction_system/store.py:198-202 | the committed-read scan stops at the newest version of a committed transaction; none newer is committed, and None means none is |
| Mvcc.Begin | 07_transaction_system/store.py:28-39 | `begin_transaction` hands out `next_txn_id`, increments it, and registers an active transaction with the clock as its start time and empty read and write sets; nothing else changes |
| Mvcc.Kept | 07_transaction_system/store.py:156-162 | the collected list is no longer than the version list |
| Mvcc.EmptyInv | 07_transaction_system/store.py:21-26 | a new store satisfies the store invariant (every lock held by an active transaction that buffered the key, and the reverse) and all ids lie below `next_txn_id` |
| Mvcc.BeginInv | 07_transaction_system/store.py:28-39 | `begin_transaction` keeps the invariant and the id bound |
| Mvcc.ReadInv | 07_transaction_system/store.py:60-73 | reads keep the invariant and the id bound |
| Mvcc.BufferInv | 07_transaction_system/store.py:75-111 | writes and deletes keep the invariant and the id bound |
| Mvcc.CommitInv | 07_transaction_system/store.py:113-135 | `commit` keeps the invariant and the id bound |
| Mvcc.AbortInv | 07_transaction_system/store.py:137-151 | `abort` keeps the invariant and the id bound |
| Mvcc.GcInv | 07_transaction_system/store.py:153-167 | `gc_old_versions` as written keeps the invariant and the id bound |
| Mvcc.GcFixedInv | 07_transaction_system/store.py:153-167 | the corrected collection keeps them too |
| Mvcc.NotActiveRejected | 07_transaction_system/store.py:62-63 | every operation of a transaction that is not active answers 'transaction not active' and changes nothing (also lines 77-78, 96-97, 115-116, 139-140, 172-173, 185-186) |
| Mvcc.WriteConflictUnchanged | 07_transaction_system/store.py:82-83 | a key locked by another active transaction cannot be written or deleted: the answer is 'write conflict' and nothing changes (also lines 101-102) |
| Mvcc.ReadYourWrites | 07_transaction_system/store.py:67-69 | a transaction reads back what it wrote or deleted, under every isolation rule but read-uncommitted as written (also lines 190-192) |
| Mvcc.SnapshotReadSet | 07_transaction_system/store.py:67-72 | a snapshot read adds the key to the read set exactly when the key was not buffered |
| Mvcc.CommitEffect | 07_transaction_system/store.py:113-135 | commit succeeds, records the commit time, ends the transaction, appends exactly one version per buffered key stamped with the commit time and clears its lock; other keys keep their records |
| Mvcc.AbortEffect | 07_transaction_system/store.py:137-151 | abort succeeds, ends the transaction, appends no version and releases exactly the locks it holds among its buffered keys |
| Mvcc.NewestSeenOther | 07_transaction_system/store.py:53-56 | a commit of a transaction that wrote none of the versions changes no visibility |
| Mvcc.SnapshotStable | 07_transaction_system/store.py:41-58 | repeatable reads: a commit after the reader's snapshot changes nothing the reader sees |
| Mvcc.ReadCommittedSeesCommit | 07_transaction_system/store.py:182-202 | the committed-read rule sees another transaction's commit at once, whatever the reader's start time |
| Mvcc.ReadUncommittedMissesOwnWrite | 07_transaction_system/store.py:169-180 | as written, read-uncommitted does not consult the write set: a transaction that wrote 5 under "k" reads nothing back, where the corrected read gives 5 |
| Mvcc.ReadUncommittedLast | 07_transaction_system/store.py:175-180 | the read-uncommitted rule returns the last version, whatever the reader buffered; the corrected rule agrees with it on every key the reader has not written |
| Mvcc.KeptMembers | 07_transaction_system/store.py:156-162 | the inner loop keeps exactly the versions of uncommitted writers and of writers committed at or after `before_ts` |
| Mvcc.GcAsWrittenShape | 07_transaction_system/store.py:163-167 | as written, collection never empties a list, keeps only versions it had and keeps every version the loop keeps |
| Mvcc.GcAsWrittenLosesSnapshot | 07_transaction_system/store.py:153-167 | as written it drops the newest version a live snapshot sees: a reader at time 6 saw 7 before collecting before 5, and sees nothing afterwards |
| Mvcc.RetainedShape | 07_transaction_system/store.py:153-167 | the corrected collection keeps what the source keeps, keeps only versions it had, and never empties a list |
| Mvcc.GcPreservesSnapshots | 07_transaction_system/store.py:153-167 | the corrected collection changes nothing a snapshot at or after `before_ts` sees, for any reader |
| Mvcc.KeptShorter | 07_transaction_system/store.py:163 | a stale version makes the collected list shorter, so the replacement branch runs |
| Mvcc.StaleRetained | 07_transaction_system/store.py:153-167 | the corrected collection keeps the newest stale version |
| Mvcc.GcAgrees | 07_transaction_system/store.py:153-167 | as written and corrected agree on a list whose versions are all kept or all stale |
| Mvcc.GcDisagrees | 07_transaction_system/store.py:153-167 | and they differ on every list with a kept and a stale version |
| Mvcc.MVCCStore.constructor | 07_transaction_system/store.py:21-26 | an empty store of the given isolation rule (`MVCCStore`, `ReadUncommittedStore`, `ReadCommittedStore`, `SnapshotIsolationStore`) with first id 1 |
| Mvcc.MVCCStore.BeginTransaction | 07_transaction_system/store.py:28-39 | the store's new state and id are those of `Begin` |
| Mvcc.MVCCStore.GetVisibleVersion | 07_transaction_system/store.py:41-58 | the loop returns the value of the newest version the reader sees (None when deleted or when none is seen) |
| Mvcc.MVCCStore.NewestCommittedValue | 07_transaction_system/store.py:194-202 | the loop returns the value of the newest committed version |
| Mvcc.MVCCStore.Read | 07_transaction_system/store.py:60-73 | `read` of each isolation rule (also lines 169-202), as the step function states |
| Mvcc.MVCCStore.BufferChange | 07_transaction_system/store.py:75-111 | the shared body of `write` and `delete`: the new state, flag and error of `Buffer` |
| Mvcc.MVCCStore.Write | 07_transaction_system/store.py:75-92 | `write` buffers the value under the lock rule |
| Mvcc.MVCCStore.Delete | 07_transaction_system/store.py:94-111 | `delete` buffers a tombstone under the lock rule |
| Mvcc.MVCCStore.Commit | 07_transaction_system/store.py:113-135 | the new state and answer of `CommitStep` (see `CommitEffect`) |
| Mvcc.MVCCStore.Abort | 07_transaction_system/store.py:137-151 | the new state and answer of `AbortStep` (see `AbortEffect`) |
| Mvcc.MVCCStore.GcOldVersions | 07_transaction_system/store.py:153-167 | the collection as written, record by record |
| Mvcc.CommitWrites | 07_transaction_system/store.py:121-131 | the commit loop appends one version per buffered key and clears its lock, whatever the order of the keys |
| Mvcc.ReleaseLocks | 07_transaction_system/store.py:144-148 | the abort loop clears the lock of each buffered key the transaction holds |
| Mvcc.KeptVersions | 07_transaction_system/store.py:156-162 | the inner loop collects exactly `Kept` |
| Mvcc.RetainedVersions | 07_transaction_system/store.py:156-162 | the corrected inner loop, from the newest version back, collects the corrected list |
| Mvcc.CollectVersions | 07_transaction_system/store.py:156-167 | one record as written: collect, then replace the list when something was dropped, with the last version when nothing was kept |
| Mvcc.GcRecords | 07_transaction_system/store.py:155-167 | the outer loop applies the per-record collection to every record and keeps every key |
| Ssi.InitialInv | 07_transaction_system/serializable.py:21-28 | a new manager satisfies the invariant: ids below `next_txn_id`, `committed_txns` exactly the committed transactions, conflict edges paired on both ends, write locks exactly the live write sets, SIREAD marks only of readers, and the store's table in step |
| Ssi.BeginInv | 07_transaction_system/serializable.py:30-42 | `begin` keeps the invariant and hands out an id not in use |
| Ssi.ReadInv | 07_transaction_system/serializable.py:44-65 | `read` keeps the invariant, as written and corrected |
| Ssi.WriteInv | 07_transaction_system/serializable.py:67-87 | `write` keeps the invariant, and succeeds whenever the writer is live and no other transaction holds the key's lock |
| Ssi.CommitInv | 07_transaction_system/serializable.py:89-107 | `commit` keeps the invariant, as written and corrected |
| Ssi.AbortInv | 07_transaction_system/serializable.py:109-115 | `abort` keeps the invariant |
| Ssi.AbortInternalInv | 07_transaction_system/serializable.py:117-128 | `_abort_internal` keeps the invariant |
| Ssi.InvalidRejected | 07_transaction_system/serializable.py:46-48 | read, write and commit of an unknown, aborted or committed transaction answer 'invalid transaction' and change nothing, and so does abort of an unknown one (also lines 69-71, 91-93, 111-113) |
| Ssi.WriteConflictUnchanged | 07_transaction_system/serializable.py:73-74 | a key another live transaction has written cannot be written: 'write conflict', and nothing changes |
| Ssi.CommitOutcome | 07_transaction_system/serializable.py:89-107 | a live transaction's commit fails with 'serialization failure' and aborts it exactly when it has a dangerous structure; otherwise it commits |
| Ssi.NoEdgeNoDanger | 07_transaction_system/serializable.py:130-148 | with no incoming or no outgoing edge there is no dangerous structure |
| Ssi.MutualEdgeDanger | 07_transaction_system/serializable.py:130-148 | a counting neighbour that is both an incoming and an outgoing neighbour makes a dangerous structure |
| Ssi.AbortReleases | 07_transaction_system/serializable.py:117-128 | after an abort the transaction holds no write lock and no SIREAD mark |
| Ssi.CommitReleases | 07_transaction_system/serializable.py:102-105 | after a commit the transaction holds no write lock; as written it also loses every SIREAD mark, while the corrected commit keeps them |
| Ssi.ReadWithAgrees | 07_transaction_system/serializable.py:56-62 | the read as written and corrected return the same value and error and differ only in the conflict edges, and only when another uncommitted transaction holds the key's lock |
| Ssi.CommitWithAgrees | 07_transaction_system/serializable.py:102-105 | the commit as written and corrected give the same outcome and differ only in the SIREAD marks, and not at all when the commit fails |
| Ssi.AbortAfterCommit | 07_transaction_system/serializable.py:109-120 | `abort` of a committed transaction succeeds and marks it aborted as well, leaving the store as it was |
| Ssi.ReadUnlockedEffect | 07_transaction_system/serializable.py:50-65 | a read of a key no one else has locked adds the key to the read set and the reader's SIREAD mark, and records no edge |
| Ssi.ReadLockedEffect | 07_transaction_system/serializable.py:56-62 | a read of a key another uncommitted transaction has locked records the edge between them: from the holder to the reader as written, from the reader to the holder corrected |
| Ssi.WriteEffect | 07_transaction_system/serializable.py:76-84 | a write with no conflict gives the writer an incoming edge from every SIREAD holder that is live and not aborted, each of them an outgoing edge to the writer, and the key's lock |
| Ssi.CommitEffect | 07_transaction_system/serializable.py:99-105 | a commit with no dangerous structure stamps the commit time, marks the transaction committed, records it in `committed_txns` and releases its locks |
| Ssi.WriteSkewDemo | 07_transaction_system/serializable.py:205-258 | in the order the demonstration's barrier allows (both read, both write, both commit) the first commit fails with 'serialization failure' and the second succeeds, as written and corrected |
| Ssi.FirstFailsSecondCommits | 07_transaction_system/serializable.py:89-107 | with mutual edges the first commit fails and aborts it, after which the second commits |
| Ssi.BothCommit | 07_transaction_system/serializable.py:89-107 | two transactions each with only one kind of edge both commit |
| Ssi.ReadEdgeDirection | 07_transaction_system/serializable.py:61-62 | recording a read's edge from the lock holder to the reader, as written, lets both transactions of a write skew commit; the corrected direction makes the first commit fail |
| Ssi.SecondWritesCommits | 07_transaction_system/serializable.py:76-81 | a write after the other transaction committed: as written no edge, since its SIREAD mark is gone, so both commit; corrected, the kept mark closes a dangerous structure |
| Ssi.SireadAtCommit | 07_transaction_system/serializable.py:105 | releasing a committing transaction's SIREAD marks, as written, lets both halves of a write skew commit when the second writes after the first commits; keeping them makes the second fail |
| Ssi.SerializableSnapshotIsolation.constructor | 07_transaction_system/serializable.py:21-28 | an empty manager over a fresh MVCC store, satisfying the invariant |
| Ssi.SerializableSnapshotIsolation.Begin | 07_transaction_system/serializable.py:30-42 | the new state and id are those of `BeginStep`: a fresh live transaction, registered in the store too |
| Ssi.SerializableSnapshotIsolation.Read | 07_transaction_system/serializable.py:44-65 | the new state, value and error are those of the read as written |
| Ssi.SerializableSnapshotIsolation.Write | 07_transaction_system/serializable.py:67-87 | the new state, flag and error are those of `WriteStep` |
| Ssi.SerializableSnapshotIsolation.Commit | 07_transaction_system/serializable.py:89-107 | the new state, flag and error are those of the commit as written |
| Ssi.SerializableSnapshotIsolation.Abort | 07_transaction_system/serializable.py:109-115 | the new state and answer are those of `AbortStep` |
| Ssi.SerializableSnapshotIsolation.AbortAndRelease | 07_transaction_system/serializable.py:117-128 | `_abort_internal`: the transaction is marked aborted, aborted in the store, and its locks released |
| Ssi.SerializableSnapshotIsolation.HasDangerousStructure | 07_transaction_system/serializable.py:130-148 | the nested loops answer true exactly when some incoming and some outgoing neighbour both count (known, not committed before the start, not aborted) |
| Ssi.AddWriteEdges | 07_transaction_system/serializable.py:76-81 | the loop of `write` adds exactly the edges from the counted SIREAD holders, whatever the order of the set |
| Ssi.ReleaseReads | 07_transaction_system/serializable.py:123-124 | the first loop of `_cleanup_locks` takes the transaction out of the SIREAD set of each key it read |
| Ssi.ReleaseWrites | 07_transaction_system/serializable.py:126-128 | the second loop gives up each lock of the write set the transaction still holds |
| Transactions.StoreKind | 07_transaction_system/transaction.py:13-21 | READ_UNCOMMITTED gets the read-uncommitted store, READ_COMMITTED the read-committed store, and every other level the snapshot-isolation store |
| Transactions.EndedRefuses | 07_transaction_system/transaction.py:34-69 | once a transaction is committed or aborted, `read`, `write`, `delete`, `commit` and `abort` all raise 'transaction already ended' and change nothing |
| Transactions.CommitIffStoreCommits | 07_transaction_system/transaction.py:56-63 | `commit` sets `committed` exactly when the store commits the transaction (it was active there, and afterwards it is committed and no longer active); otherwise it raises the store's error and changes nothing; `aborted` is left alone |
| Transactions.OperationsKeepActive | 07_transaction_system/transaction.py:34-54 | reads, writes and deletes never change the flags or end the transaction in its store |
| Transactions.ExitEnds | 07_transaction_system/transaction.py:74-85 | leaving the `with` block always ends the transaction: it aborts when the block raised; otherwise it commits, and when that commit fails it aborts and re-raises; never both committed and aborted |
| Transactions.Transaction.constructor | 07_transaction_system/transaction.py:27-32 | a new transaction carries its id, store and level and is neither committed nor aborted |
| Transactions.Transaction.Read | 07_transaction_system/transaction.py:34-40 | `read` performs the transaction-level read step on the store: refused once ended, otherwise the store's read, its error raised |
| Transactions.Transaction.Write | 07_transaction_system/transaction.py:42-47 | `write` performs the transaction-level write step: refused once ended, otherwise the store's buffered write, its failure raised |
| Transactions.Transaction.Delete | 07_transaction_system/transaction.py:49-54 | `delete` performs the transaction-level delete step: a buffered tombstone, refused once ended |
| Transactions.Transaction.Commit | 07_transaction_system/transaction.py:56-63 | `commit` performs the commit step on store and flags (see `CommitIffStoreCommits`) |
| Transactions.Transaction.Abort | 07_transaction_system/transaction.py:65-69 | `abort` aborts in the store and sets `aborted`, refused once ended |
| Transactions.Transaction.Exit | 07_transaction_system/transaction.py:74-85 | `__exit__` performs the exit step (see `ExitEnds`) |
| Transactions.TransactionManager.constructor | 07_transaction_system/transaction.py:13-21 | a manager owns a new empty store of the kind its level selects |
| Transactions.TransactionManager.Begin | 07_transaction_system/transaction.py:23-24 | `begin` starts a transaction in the store and returns a new live transaction object carrying the id the store handed out |
| Transactions.AbortFromEnds | 07_transaction_system/transaction.py:135-141 | `_abort_all` ends every transaction it reaches and aborts none that had committed |
| Transactions.CommitFromAll | 07_transaction_system/transaction.py:127-133 | `_commit_all` over live transactions active in their stores commits every one and raises nothing |
| Transactions.CommitFromDone | 07_transaction_system/transaction.py:127-133 | a commit pass that raised nothing committed every transaction it visited and left the earlier ones alone |
| Transactions.CommitFromConsistent | 07_transaction_system/transaction.py:127-133 | a commit pass never makes a transaction both committed and aborted |
| Transactions.OpStep | 07_transaction_system/transaction.py:98-104 | one operation fails with a missing-participant error exactly when its participant is unknown, and never with 'commit failed' |
| Transactions.OpStepKeepsActive | 07_transaction_system/transaction.py:98-104 | an operation never ends a participant's transaction in its store |
| Transactions.RunOpsKeepActive | 07_transaction_system/transaction.py:98-104 | nor does the whole operation loop |
| Transactions.TwoPhaseAllOrNothing | 07_transaction_system/transaction.py:92-120 | `execute` is all or nothing: it commits every participant exactly when every operation succeeded and then returns True with the values read; otherwise it aborts them all and logs no decision; the decision is logged exactly when the participants commit; 'commit failed' never happens |
| Transactions.BeginEach | 07_transaction_system/transaction.py:93-95 | beginning on every participant, in order, gives one fresh live transaction per participant, each store having begun one transaction |
| Transactions.CommitEach | 07_transaction_system/transaction.py:127-133 | committing each transaction in order, stopping at the first that raises, follows the commit pass on values |
| Transactions.AbortEach | 07_transaction_system/transaction.py:135-141 | aborting each transaction that has not ended follows the abort pass on values |
| Transactions.TwoPhaseCommit.constructor | 07_transaction_system/transaction.py:88-90 | a coordinator over distinct participants with an empty decision log |
| Transactions.TwoPhaseCommit.Execute | 07_transaction_system/transaction.py:92-120 | `execute` returns the two-phase outcome, appends the commit decision exactly when it is logged, and leaves each participant's store and flags as the two-phase step gives (see `TwoPhaseAllOrNothing`) |
| Transactions.TwoPhaseCommit.Decide | 07_transaction_system/transaction.py:97-120 | after the transactions have begun: the operation loop, then the abort on failure, or the logged decision and the commit pass |
| Transactions.RunEach | 07_transaction_system/transaction.py:98-104 | the operation loop on the live participant transactions follows its value-level step and keeps them live |
| Transactions.DistributedTransaction.constructor | 07_transaction_system/transaction.py:144-147 | a new distributed transaction has no partition transactions and is inactive (over managers with distinct stores; see "## Left out") |
| Transactions.DistributedTransaction.Begin | 07_transaction_system/transaction.py:149-156 | `begin` raises 'transaction already active' and changes nothing when active; otherwise it begins one fresh live transaction per manager and becomes active |
| Transactions.DistributedTransaction.Read | 07_transaction_system/transaction.py:158-161 | `read` raises when inactive or when the partition is unknown; otherwise it is that partition transaction's read |
| Transactions.DistributedTransaction.Write | 07_transaction_system/transaction.py:163-166 | `write` raises when inactive or when the partition is unknown; otherwise it is that partition transaction's write |
| Transactions.DistributedTransaction.Commit | 07_transaction_system/transaction.py:168-174 | `commit` raises when inactive; otherwise it commits the partitions in order, raising the first error and then staying active, and becomes inactive when all committed |
| Transactions.DistributedTransaction.Abort | 07_transaction_system/transaction.py:176-182 | `abort` does nothing when inactive; otherwise it aborts every partition transaction that has not ended and becomes inactive |
| Transactions.DistributedTransaction.Exit | 07_transaction_system/transaction.py:187-197 | `__exit__` always leaves the transaction inactive with every partition transaction ended. An inactive transaction is left alone. After a raised block every live partition is aborted (`AbortFrom`) and nothing is raised. A clean exit commits the partitions in order (`CommitFrom`); a commit that raises aborts the partitions still live and raises that error again |
| RaftLog.Appended | 09_consensus_store/log.py:54-60 | `append` grows the log by one, leaves the earlier entries alone, numbers the new entry len+1 with the given term, and so keeps the indices 1..len gap-free |
| RaftLog.Lookup | 09_consensus_store/log.py:62-66 | `get(i)` finds an entry exactly when 1 <= i <= len, and it is entry i |
| RaftLog.TruncatedFrom | 09_consensus_store/log.py:84-88 | `truncate_from` leaves a prefix of the log |
| RaftLog.AppendedThenLookup | 09_consensus_store/log.py:54-66 | after an append, `get` finds the new entry at len+1 and every other index as before |
| RaftLog.LookupIndex | 09_consensus_store/log.py:62-66 | in a gap-free log the entry `get(i)` finds carries index i |
| RaftLog.RangeIndices | 09_consensus_store/log.py:68-72 | `get_range(s, e)` is the slice `entries[s-1:e]` (to the end when `e` is None), and in a gap-free log its indices run from `s` up |
| RaftLog.LastAfterAppend | 09_consensus_store/log.py:74-82 | `last_index` is the number of entries and the final entry's index in a gap-free log; after an append `last_term` is the appended term |
| RaftLog.TruncatedFromKeeps | 09_consensus_store/log.py:84-88 | with 1 <= i <= len exactly the first i-1 entries stay; an index past the end leaves the log alone; the log stays gap-free |
| RaftLog.TruncatedFromZero | 09_consensus_store/log.py:87 | `truncate_from(0)` is not a no-op: the slice `entries[:-1]` drops the final entry |
| RaftLog.PersistentLog.constructor | 09_consensus_store/log.py:15-20 | a new log holds no entries (the file is not modelled) |
| RaftLog.PersistentLog.Append | 09_consensus_store/log.py:54-60 | the entries become `Appended` of the old ones, and the entry returned is the new last one |
| RaftLog.PersistentLog.Get | 09_consensus_store/log.py:62-66 | an entry exactly when 1 <= index <= len, entry `index - 1`, which carries that index in a gap-free log |
| RaftLog.PersistentLog.GetRange | 09_consensus_store/log.py:68-72 | the entries from `start` to `end` (to the last when `end` is None) when those bounds lie in the log; in a gap-free log their indices run from `start` up |
| RaftLog.PersistentLog.LastIndex | 09_consensus_store/log.py:74-76 | the number of entries, the final entry's index in a gap-free log |
| RaftLog.PersistentLog.LastLogTerm | 09_consensus_store/log.py:78-82 | the final entry's term, 0 for an empty log |
| RaftLog.PersistentLog.TruncateFrom | 09_consensus_store/log.py:84-88 | the entries become `TruncatedFrom` of the old ones |
| RaftLog.MetadataRecord | 09_consensus_store/log.py:118-121 | `struct.pack('>Q q', ...)` succeeds exactly when the term fits 64 unsigned bits and the vote (-1 for None) fits 64 signed bits, and yields 16 bytes |
| RaftLog.MetadataRoundTrip | 09_consensus_store/log.py:107-121 | a saved (term, vote) pair loads back as itself for every vote that is None or a non-negative id |
| RaftLog.NegativeVoteLoadsAsNone | 09_consensus_store/log.py:116-119 | a negative id given as the vote is saved, but loads back as no vote |
| RaftLog.RaftMetadata.constructor | 09_consensus_store/log.py:99-116 | without a file the term is 0 and there is no vote; otherwise term and vote are what the file holds |
| RaftLog.RaftMetadata.Save | 09_consensus_store/log.py:118-121 | the file is emptied before the record is packed, so a field out of range leaves it empty and reports failure; term and vote are kept |
| RaftLog.RaftMetadata.SetTerm | 09_consensus_store/log.py:131-135 | `set_term` sets the term, clears the vote, and the file then loads back as that pair |
| RaftLog.RaftMetadata.SetVotedFor | 09_consensus_store/log.py:137-140 | `set_voted_for` changes only the vote, and the file loads back as the pair when the vote is None or non-negative |
| RaftLog.RaftMetadata.Update | 09_consensus_store/log.py:142-146 | `update` sets both, and the file loads back as the pair when the vote is None or non-negative |
| RaftLog.CompactionTrigger | 09_consensus_store/log.py:156-157 | appending never turns `should_compact` off, and a snapshot never turns it on |
| RaftLog.SnapshotCursor | 09_consensus_store/log.py:159-179 | `create_snapshot` succeeds exactly when `last_applied` is past the snapshot and names an entry, and moves the cursor to that entry's index and term |
| RaftLog.SnapshotAdvances | 09_consensus_store/log.py:159-179 | every successful snapshot moves the last included index strictly forward and keeps it inside the log |
| RaftLog.LogCompactor.constructor | 09_consensus_store/log.py:149-154 | a compactor over the log with both cursor fields 0 and no snapshot |
| RaftLog.LogCompactor.NeedsCompaction | 09_consensus_store/log.py:156-157 | more than the threshold of entries lie past the snapshot's last included index (see `CompactionTrigger`) |
| RaftLog.LogCompactor.CreateSnapshot | 09_consensus_store/log.py:159-179 | on success the cursor moves as `SnapshotCursor` states and the snapshot records it with the state; on failure nothing changes |
| Raft.RequestVoteTerms | 09_consensus_store/raft_node.py:113-119 | RequestVote adopts a higher term (vote cleared or given to the candidate, node a follower), refuses a lower one with nothing changed, and never touches the log or the cursors |
| Raft.VoteGrantedIff | 09_consensus_store/raft_node.py:121-135 | a vote is granted exactly when the term is current, the candidate's log is at least as up to date, and the vote of this term is free or already the candidate's; a granted vote is recorded |
| Raft.AtMostOneVotePerTerm | 09_consensus_store/raft_node.py:121-133 | once a vote is granted in a term, no other candidate gets one in that term |
| Raft.ApplyStep | 09_consensus_store/raft_node.py:318-323 | `_apply_committed` touches only `last_applied` and the applied entries |
| Raft.ApplyStepRule | 09_consensus_store/raft_node.py:318-323 | it raises exactly when it must apply past the end of the log; with the commit index inside the log it ends at the commit index and hands over exactly the entries in between, in log order, each once |
| Raft.ApplyWithinLog | 09_consensus_store/raft_node.py:318-323 | with the commit index inside the log it never raises and leaves `last_applied` at the larger of it and the commit index |
| Raft.AppendEntriesTerms | 09_consensus_store/raft_node.py:146-156 | AppendEntries adopts a higher term and clears the vote, refuses a lower one with nothing changed, and otherwise follows the sender |
| Raft.AppendEntriesConsistency | 09_consensus_store/raft_node.py:158-163 | a previous index past the end is refused with the log as it was; a previous entry of another term is refused and the log cut to the entries before it |
| Raft.MergeConsecutive | 09_consensus_store/raft_node.py:165-170 | entries numbered prev+1, prev+2, ... land at exactly those positions, overwriting or appending; everything else keeps its value and the log grows only as far as the last entry reaches |
| Raft.MergePositiveIndices | 09_consensus_store/raft_node.py:165-170 | entries numbered from 1 up are stored without raising and never shorten the log |
| Raft.MergeLength | 09_consensus_store/raft_node.py:165-170 | storing entries never shortens the log |
| Raft.AppendEntriesAccepted | 09_consensus_store/raft_node.py:158-176 | an accepted request whose entries continue the log answers success, keeps the log up to `prev_log_index`, and places entry j at `prev_log_index + j` |
| Raft.MatchAccepted | 09_consensus_store/raft_node.py:158-176 | the same, for a request whose term the node has already taken on |
| Raft.AppendEntriesCommit | 09_consensus_store/raft_node.py:172-174 | after success the commit index moves only when the leader's is larger, to the smaller of it and the log length; it never decreases and never passes the log's end provided the commit index was inside the log before (see `CommitKeptWhenCommittedSpared` for when that holds) |
| Raft.CutLeavesCommitPastEnd | 09_consensus_store/raft_node.py:158-163 | a consistency-check cut below the commit index is refused and leaves the commit index unchanged, past the end of the shortened log |
| Raft.CommitFallsAfterCut | 09_consensus_store/raft_node.py:158-174 | as written the commit index falls: two committed entries of term 1, a request claiming term 5 at index 2 cuts the log to one entry with the commit index still 2, and a heartbeat with leader commit 3 then sets it to 1 |
| Raft.CommitKeptWhenCommittedSpared | 09_consensus_store/raft_node.py:146-176 | from a commit index inside the log, every AppendEntries whose consistency check cuts only above the commit index, refused, raising or accepted, keeps the commit index inside the log and never lowers it |
| Raft.AppendEntriesAnswers | 09_consensus_store/raft_node.py:137-176 | AppendEntries answers whenever every entry's index is 1 or more |
| Raft.ClientRequestRule | 09_consensus_store/raft_node.py:178-191 | a non-leader answers 'not leader' with the leader it knows and leaves the log alone; a leader appends an entry of its current term at index len+1 and reports that index |
| Raft.SetAllValues | 09_consensus_store/raft_node.py:252-254 | the loop over the peers sets every peer's entry and keeps the others |
| Raft.TallyBound | 09_consensus_store/raft_node.py:227-243 | the votes counted are at most the replies, and a higher term that stops the loop is above the election's term |
| Raft.ElectionOutcome | 09_consensus_store/raft_node.py:215-254 | an election moves to a later term and keeps the log; the node leads afterwards exactly when no reply showed a higher term and its own vote plus the granted ones pass half the peers, and then every next index is len+1 and every match index 0 |
| Raft.ThresholdIsMajorityForOddClusters | 09_consensus_store/raft_node.py:245 | `votes > len(peers) // 2` is a strict majority of the cluster exactly when peers+1 is odd |
| Raft.TwoNodeClusterSelfElects | 09_consensus_store/raft_node.py:245 | in a two-node cluster the candidate's own vote passes the threshold, so it leads even without an answer |
| Raft.LastEligibleIsLargest | 09_consensus_store/raft_node.py:304-314 | the commit loop commits only an entry of the current term held by the leader plus more than half the peers, picks the largest such index, and never moves the commit index back |
| Raft.CommitStepRule | 09_consensus_store/raft_node.py:303-316 | `_update_commit_index` never lowers the commit index, keeps the log and term, and a new commit index lies in the log on an entry of the current term with enough replicas |
| Raft.ReplicateRule | 09_consensus_store/raft_node.py:267-301 | from a gap-free log and a next index in 1..len+1 the request carries the entries from the next index on; a success moves the peer's next index past the log and its match index to the log's end, a refusal steps it back |
| Raft.ReplicateRefused | 09_consensus_store/raft_node.py:300-301 | a refusal sets the peer's next index to `max(1, next - 1)`, so it stays at least 1 |
| Raft.ReplicateSends | 09_consensus_store/raft_node.py:268-286 | the request sent from a next index in 1..len+1 carries the log from that index on, after `prev_log_index = next - 1` |
| Raft.ReplicateAccepted | 09_consensus_store/raft_node.py:295-299 | a success on a non-empty suffix of a gap-free log sets the next index to len+1 and the match index to len |
| Raft.ReplicateRaises | 09_consensus_store/raft_node.py:274-275 | a next index below -len makes `self.raft_state.log[i]` raise: nothing is sent and nothing changes |
| Raft.VoteKeptByRequestVote | 09_consensus_store/raft_node.py:113-135 | a vote once given is kept while the term stays |
| Raft.VoteKeptByAppendEntries | 09_consensus_store/raft_node.py:146-176 | AppendEntries keeps the vote while the term stays |
| Raft.VoteKeptByClientRequest | 09_consensus_store/raft_node.py:178-191 | a client request keeps the vote |
| Raft.VoteKeptByReplicate | 09_consensus_store/raft_node.py:288-301 | handling a replication reply keeps the vote while the term stays |
| Raft.RaftNode.constructor | 09_consensus_store/raft_node.py:30-48 | a follower in term 0 with no vote, an empty log, both cursors 0 and no leader |
| Raft.RaftNode.HandleRequestVote | 09_consensus_store/raft_node.py:106-135 | the new state and reply are those of `RequestVoteStep` |
| Raft.RaftNode.ApplyCommitted | 09_consensus_store/raft_node.py:318-323 | the loop's new state and outcome are those of `ApplyStep` |
| Raft.RaftNode.MergeLog | 09_consensus_store/raft_node.py:165-170 | the entry loop's log and outcome are those of `MergeEntries`; nothing else changes |
| Raft.RaftNode.HandleAppendEntries | 09_consensus_store/raft_node.py:137-176 | the new state and reply are those of `AppendEntriesStep` |
| Raft.RaftNode.ObserveTerm | 09_consensus_store/raft_node.py:146-149 | a higher term is adopted, the vote forgotten, and the node follows |
| Raft.RaftNode.FollowLeader | 09_consensus_store/raft_node.py:154-156 | the election timer is reset and the node follows the sender |
| Raft.RaftNode.CheckAndAppend | 09_consensus_store/raft_node.py:158-176 | the consistency check and the entries, as `MatchStep` states |
| Raft.RaftNode.Accept | 09_consensus_store/raft_node.py:172-176 | the commit index follows the leader's and the reply is success, or none where applying raises |
| Raft.RaftNode.HandleClientRequest | 09_consensus_store/raft_node.py:178-191 | the new state and reply are those of `ClientRequestStep` |
| Raft.RaftNode.BecomeLeader | 09_consensus_store/raft_node.py:248-254 | the node leads, names itself leader, and sets every peer's next index to len+1 and match index to 0 |
| Raft.RaftNode.CountVotes | 09_consensus_store/raft_node.py:227-243 | the vote-counting loop gives the granted votes and the first higher term a reply carries, at which it stops |
| Raft.RaftNode.StartElection | 09_consensus_store/raft_node.py:215-246 | the new state is that of `ElectionStep` |
| Raft.RaftNode.BeginElection | 09_consensus_store/raft_node.py:216-219 | the node becomes a candidate in the next term, voting for itself |
| Raft.RaftNode.UpdateCommitIndex | 09_consensus_store/raft_node.py:303-316 | the new state and outcome are those of `CommitStep` |
| Raft.RaftNode.CollectEntries | 09_consensus_store/raft_node.py:273-276 | the loop gathers the log from `prev` to the end with Python's indexing, or fails where an index raises |
| Raft.RaftNode.ReplicateToPeer | 09_consensus_store/raft_node.py:267-301 | the new state, request and outcome are those of `ReplicateStep` |
| Raft.RaftNode.HandleReply | 09_consensus_store/raft_node.py:288-301 | what the leader does with the peer's reply (none when the call failed), as `ReplyStep` states |
| StateMachines.KvSetThenGet | 09_consensus_store/state_machine.py:16-21 | a `set` is seen by the next `get` of that key |
| StateMachines.KvDeleteRule | 09_consensus_store/state_machine.py:22-24 | `delete` removes exactly its key, and deleting an absent key changes nothing |
| StateMachines.KvCasRule | 09_consensus_store/state_machine.py:25-31 | `cas` writes exactly when the current value equals the expected one; otherwise nothing changes and the current value is reported |
| StateMachines.KvReadsChangeNothing | 09_consensus_store/state_machine.py:19-21 | `get` and an unknown operation leave the data alone (also lines 32-33) |
| StateMachines.KeyValueStateMachine.constructor | 09_consensus_store/state_machine.py:6-9 | empty data, `last_applied` 0 |
| StateMachines.KeyValueStateMachine.Apply | 09_consensus_store/state_machine.py:11-36 | the data and result are those of the command, and `last_applied` becomes the entry's index whatever the operation |
| StateMachines.KeyValueStateMachine.Get | 09_consensus_store/state_machine.py:38-40 | the stored value of the key, null when it is missing |
| StateMachines.KeyValueStateMachine.Snapshot | 09_consensus_store/state_machine.py:42-47 | a copy of the data and `last_applied`, which `restore` takes back (see `Restore`) |
| StateMachines.KeyValueStateMachine.Restore | 09_consensus_store/state_machine.py:42-52 | after `restore(s)`, `snapshot()` gives back `s`: data and `last_applied` round-trip |
| StateMachines.AcquireRule | 09_consensus_store/state_machine.py:67-74 | `acquire` succeeds exactly on a free lock, reports 'already held' to its holder, and refuses anyone else, naming the holder and changing nothing |
| StateMachines.ReleaseRule | 09_consensus_store/state_machine.py:75-80 | `release` frees the lock exactly for its current holder; anyone else gets 'not lock holder' and nothing changes |
| StateMachines.HeldLockExcludesOthers | 09_consensus_store/state_machine.py:67-74 | once a lock is acquired, another owner's acquire is refused |
| StateMachines.LockStateMachine.constructor | 09_consensus_store/state_machine.py:55-58 | no locks, `last_applied` 0 |
| StateMachines.LockStateMachine.Apply | 09_consensus_store/state_machine.py:60-88 | the locks and result are those of the command, and `last_applied` becomes the entry's index |
| StateMachines.LockStateMachine.Snapshot | 09_consensus_store/state_machine.py:90-95 | a copy of the locks and `last_applied` (see `Restore`) |
| StateMachines.LockStateMachine.Restore | 09_consensus_store/state_machine.py:90-100 | locks and `last_applied` round-trip through `snapshot`/`restore` |
| StateMachines.ConfigVersionRule | 09_consensus_store/state_machine.py:115-142 | the version rises by exactly one on `set`, `delete` and `batch` and stays otherwise; other operations leave the configuration alone |
| StateMachines.ConfigListRule | 09_consensus_store/state_machine.py:129-132 | `list` returns exactly the keys starting with the prefix, with their values |
| StateMachines.BatchLastWins | 09_consensus_store/state_machine.py:133-140 | after a batch a key ending in a set holds its value, one ending in a delete is absent, and one the batch never names is untouched |
| StateMachines.ConfigStateMachine.constructor | 09_consensus_store/state_machine.py:103-108 | empty configuration, version 0, `last_applied` 0 |
| StateMachines.ConfigStateMachine.Apply | 09_consensus_store/state_machine.py:110-145 | configuration, version and result are those of the command, and `last_applied` becomes the entry's index |
| StateMachines.ConfigStateMachine.Snapshot | 09_consensus_store/state_machine.py:147-153 | a copy of the configuration, its version and `last_applied` (see `Restore`) |
| StateMachines.ConfigStateMachine.Restore | 09_consensus_store/state_machine.py:147-159 | configuration, version and `last_applied` round-trip |
| StateMachines.ElectionTermsNeverDecrease | 09_consensus_store/state_machine.py:174-202 | no command forgets a group or lowers its term |
| StateMachines.CampaignRule | 09_consensus_store/state_machine.py:174-184 | `campaign` wins exactly for a new group (term 1) or a group without a leader (next term), and never unseats a sitting leader |
| StateMachines.ResignRule | 09_consensus_store/state_machine.py:185-190 | only the sitting leader can resign; its term is kept and the seat left empty |
| StateMachines.LeaderElectionStateMachine.constructor | 09_consensus_store/state_machine.py:162-165 | no groups, `last_applied` 0 |
| StateMachines.LeaderElectionStateMachine.Apply | 09_consensus_store/state_machine.py:167-205 | leaders and result are those of the command, and `last_applied` becomes the entry's index |
| StateMachines.LeaderElectionStateMachine.Snapshot | 09_consensus_store/state_machine.py:207-212 | the leaders table and `last_applied` (see `Restore`) |
| StateMachines.LeaderElectionStateMachine.Restore | 09_consensus_store/state_machine.py:207-217 | leaders and `last_applied` round-trip |
| Mapper.Lower | 10_batch_pipeline/mapper.py:140 | `str.lower()` character by character: no upper-case letter is left and whitespace and alphanumerics stay what they were |
| Mapper.Strip | 10_batch_pipeline/mapper.py:27 | `str.strip()`: the string without its leading and trailing whitespace, which then starts and ends with non-whitespace |
| Mapper.SplitTokens | 10_batch_pipeline/mapper.py:140 | `str.split()`: each token is a non-empty run without whitespace, and the tokens together are the string's non-whitespace characters |
| Mapper.Clean | 10_batch_pipeline/mapper.py:141 | `''.join(c for c in word if c.isalnum())` keeps only alphanumerics |
| Mapper.IsAlnum | 10_batch_pipeline/mapper.py:141 | `c.isalnum()` on ASCII letters and digits, none of which is whitespace |
| Mapper.WordsAreWords | 10_batch_pipeline/mapper.py:139-143 | every word yielded is a non-empty lowercase alphanumeric word, and there are no more than tokens |
| Mapper.SingleWord | 10_batch_pipeline/mapper.py:139-143 | a line that is one lowercase alphanumeric word yields exactly that word |
| Mapper.WordCountMap | 10_batch_pipeline/mapper.py:139-143 | `word_count_map`: `(word, 1)` per word, in order |
| Mapper.Find | 10_batch_pipeline/mapper.py:146 | the first occurrence of a pattern |
| Mapper.SplitOnce | 10_batch_pipeline/mapper.py:146 | `split(sep, 1)`: the text before the first `sep` and after it, or one part when `sep` does not occur |
| Mapper.InvertedIndexMap | 10_batch_pipeline/mapper.py:145-152 | `inverted_index_map`: nothing without a tab; otherwise `(word, doc_id)` per word after the first tab, `doc_id` being the text before it |
| Mapper.Before | 10_batch_pipeline/mapper.py:159 | `s.split(sep)[0]`: the text up to the first `sep`, or all of it |
| Mapper.Domain | 10_batch_pipeline/mapper.py:158-159 | a domain exactly when the URL contains `://` |
| Mapper.DomainShape | 10_batch_pipeline/mapper.py:159 | the domain sits right after the first `://` and is followed by the end of the URL, a `/` or another `://` |
| Mapper.DomainNoSlash | 10_batch_pipeline/mapper.py:159 | the domain holds no `/` |
| Mapper.UrlCountMap | 10_batch_pipeline/mapper.py:154-162 | `url_count_map`: `(domain, 1)` exactly when the `url` member contains `://`, nothing otherwise |
| Mapper.PyMod | 10_batch_pipeline/mapper.py:16 | Python's `%`: the remainder takes the divisor's sign; a zero divisor raises |
| Mapper.Partition | 10_batch_pipeline/mapper.py:15-16 | `_partition` with `num_partitions > 0` is a partition number below it |
| Mapper.RouteRecords | 10_batch_pipeline/mapper.py:53-57 | the loop of `process_records` writes each yielded pair to the file of its key's partition, in order, and counts them |
| Mapper.FailOnPair | 10_batch_pipeline/mapper.py:53-57 | with no partition files the loop raises exactly when some pair is yielded |
| Mapper.ProcessRecords | 10_batch_pipeline/mapper.py:46-66 | `process_records`: the partition files and the count of pairs; with `num_partitions <= 0` it raises exactly when a pair is yielded |
| Mapper.ProcessFile | 10_batch_pipeline/mapper.py:18-44 | `process_file`: the same over the stripped, non-blank lines |
| Mapper.MapLinesSnoc | 10_batch_pipeline/mapper.py:26-31 | a line contributes its pairs exactly when it is not blank after stripping |
| Mapper.RoutedMembers | 10_batch_pipeline/mapper.py:31-33 | a pair reaches partition `p` exactly when it was yielded and its key hashes to `p` |
| Mapper.SameKeySamePartition | 10_batch_pipeline/mapper.py:15-16 | pairs with equal keys land in the same partition |
| Mapper.WroteTotal | 10_batch_pipeline/mapper.py:31-34 | every yielded pair is written to exactly one file, so the files hold `records` lines between them |
| Mapper.CombinedIsFold | 10_batch_pipeline/mapper.py:84-89 | a buffer holds a key exactly when some pair has it, and its value is the left fold of `combine_func` over that key's values in input order |
| Mapper.CombinedKeys | 10_batch_pipeline/mapper.py:84-89 | the buffer's keys are the keys of its pairs |
| Mapper.FoldSum | 10_batch_pipeline/mapper.py:87 | with `sum_reduce` as the combiner the fold is the sum |
| Mapper.CombinedSums | 10_batch_pipeline/mapper.py:84-89 | a buffered value is then `sum_reduce` of all the values yielded with its key |
| Mapper.ItemsShape | 10_batch_pipeline/mapper.py:95 | `sorted(buffer.items())`: one line per key, in strictly ascending key order, with its buffered value |
| Mapper.SortedItems | 10_batch_pipeline/mapper.py:95 | the sort computes `Items` |
| Mapper.Update | 10_batch_pipeline/mapper.py:86-89 | one buffer updated by one pair |
| Mapper.BufferLines | 10_batch_pipeline/mapper.py:76-89 | the buffering loop of `CombiningMapper.process_file` |
| Mapper.WriteBuffers | 10_batch_pipeline/mapper.py:91-97 | the writing loop: every buffer's sorted items, and the number of lines written |
| Mapper.CombiningProcessFile | 10_batch_pipeline/mapper.py:73-104 | `CombiningMapper.process_file`: each partition file holds the sorted combined items of the keys hashed to it; with `num_partitions <= 0` it raises exactly when a pair is yielded |
| Mapper.CombinedFileSize | 10_batch_pipeline/mapper.py:91-97 | partition `p` holds one line per key hashed to `p` |
| Mapper.CombinedCount | 10_batch_pipeline/mapper.py:91-97 | `records` is the number of distinct keys yielded |
| Reducer.FlattenExtend | 10_batch_pipeline/reducer.py:23-33 | one more record adds exactly that record, at the end, to what the runs stand for |
| Reducer.RunsFlatten | 10_batch_pipeline/reducer.py:23-33 | the runs of the grouping loop cover the record stream exactly, in order |
| Reducer.RunsMaximal | 10_batch_pipeline/reducer.py:24 | runs are non-empty and neighbouring runs have different keys (a new run starts exactly at a key change) |
| Reducer.RunsOfSorted | 10_batch_pipeline/reducer.py:16-33 | on a key-sorted stream every key forms exactly one run: the run keys strictly ascend |
| Reducer.RunsLast | 10_batch_pipeline/reducer.py:30 | the last run carries the key of the last record |
| Reducer.ProcessRuns | 10_batch_pipeline/reducer.py:18-38 | the loop of `process_partition` writes `reduce_func(key, values)` for each run, the final run included, and counts one per line |
| Reducer.CollectFinish | 10_batch_pipeline/reducer.py:35-38 | the run still open after the loop is the last line of the output |
| Reducer.RecLeTotal | 10_batch_pipeline/reducer.py:57 | the heap's `(key, value)` order is total |
| Reducer.RecLeTransitive | 10_batch_pipeline/reducer.py:57 | and transitive |
| Reducer.RecLeAntisymmetric | 10_batch_pipeline/reducer.py:57 | and antisymmetric |
| Reducer.PopFile | 10_batch_pipeline/reducer.py:60-63 | reading the head of one file removes exactly that record from what is left to merge |
| Reducer.BagHas | 10_batch_pipeline/reducer.py:50-66 | a record is still to be merged exactly when some file still holds it |
| Reducer.BestIsLeast | 10_batch_pipeline/reducer.py:57-60 | the popped head exists exactly when some file has one, is least among the heads, and is the lowest-index file among equal heads |
| Reducer.MergePermutation | 10_batch_pipeline/reducer.py:46-66 | the merge yields every record of the files, each as often as it occurs |
| Reducer.HeadBelow | 10_batch_pipeline/reducer.py:60 | with sorted files, the popped record is no greater than anything still unread |
| Reducer.MergeSorted | 10_batch_pipeline/reducer.py:46-66 | with sorted files, the merged stream is sorted |
| Reducer.MinEntryLeast | 10_batch_pipeline/reducer.py:60 | `heappop` returns an entry no other heap entry is below |
| Reducer.MinIsBest | 10_batch_pipeline/reducer.py:59-60 | the heap's minimum is the head the merge picks among the unread files |
| Reducer.DrainAgrees | 10_batch_pipeline/reducer.py:59-66 | with the heap and the open files in step, the loop as written merges what the files still have to give |
| Reducer.PopExhausted | 10_batch_pipeline/reducer.py:60-64 | popping the entry of an exhausted file drops that file's head and keeps heap and files in step |
| Reducer.PopRefill | 10_batch_pipeline/reducer.py:60-66 | popping an entry and pushing its file's next line moves that file on by one record |
| Reducer.OpenedAll | 10_batch_pipeline/reducer.py:50-54 | with every file present, each handle is positioned after its first line |
| Reducer.SeededIdx | 10_batch_pipeline/reducer.py:50-57 | the first heap holds one entry per non-empty file, tagged with its position |
| Reducer.SeededHead | 10_batch_pipeline/reducer.py:54-57 | with every file present, a file's heap entry is its first record |
| Reducer.MergeAgrees | 10_batch_pipeline/reducer.py:46-66 | when no partition file is missing, the merge as written is the merge of the files |
| Reducer.UnreadAt | 10_batch_pipeline/reducer.py:50-57 | after seeding, a present file still has all of its records to give |
| Reducer.MissingFileBreaksMerge | 10_batch_pipeline/reducer.py:63 | a missing first file and a second file with one record: the loop as written raises, the merge that reads missing files as empty yields the record |
| Reducer.MergeSort | 10_batch_pipeline/reducer.py:46-69 | `_merge_sort`: the result of the loop as written (None where it raises), which is the k-way merge of the files whenever no file is missing |
| Reducer.ProcessPartition | 10_batch_pipeline/reducer.py:13-44 | `process_partition`: one reduced line per run of the merged stream and the line count; it raises exactly when the merge does |
| Reducer.ReadAll | 10_batch_pipeline/reducer.py:77-84 | `SortingReducer`'s reading loop: the records of the existing files, file after file |
| Reducer.SortingMerge | 10_batch_pipeline/reducer.py:76-89 | `SortingReducer._merge_sort`: a permutation of all records, sorted by `sort_key` of the key, records with equal sort keys in their input order (stable) |
| Reducer.SortingProcessPartition | 10_batch_pipeline/reducer.py:71-89 | `SortingReducer.process_partition`: the runs of the stably sorted stream, reduced, and their count |
| Reducer.InGroupMembers | 10_batch_pipeline/reducer.py:99-103 | a group holds exactly the records whose key maps to it |
| Reducer.GroupedStep | 10_batch_pipeline/reducer.py:100-103 | one record appended to its group's list |
| Reducer.GroupBy | 10_batch_pipeline/reducer.py:97-103 | the first loop of `SecondarySort.process`: every group is its records in input order |
| Reducer.SecondarySortProcess | 10_batch_pipeline/reducer.py:96-108 | `SecondarySort.process`: one entry per non-empty group, group keys strictly ascending, each with the values of its records sorted by `sort_func` of their keys |
| Reducer.SecondarySortGroup | 10_batch_pipeline/reducer.py:106-107 | each group's sorted list is sorted, a permutation of exactly that group's records, and stable |
| Reducer.SumReduceSplit | 10_batch_pipeline/reducer.py:110-111 | the sum of partial sums is the sum, so `sum_reduce` can serve as a combiner |
| Reducer.CountsCover | 10_batch_pipeline/reducer.py:125-126 | `count_reduce` over the runs of a stream adds up to its length |
| Reducer.MaxReduce | 10_batch_pipeline/reducer.py:116-117 | `max_reduce`: a value of the list no value exceeds; raises exactly on an empty list |
| Reducer.MinReduce | 10_batch_pipeline/reducer.py:119-120 | `min_reduce`: a value of the list no value is below; raises exactly on an empty list |
| Reducer.AvgReduce | 10_batch_pipeline/reducer.py:122-123 | `avg_reduce`: the mean of the values, 0 for none |
| Reducer.ListReduce | 10_batch_pipeline/reducer.py:113-114 | `list_reduce`: each value of the input exactly once |
| Reducer.DescendingTotal | 10_batch_pipeline/reducer.py:130 | `reverse=True` sorts by a total preorder |
| Reducer.TopNShape | 10_batch_pipeline/reducer.py:128-131 | `top_n_reduce(n)`: descending, `min(n, len)` values for `n >= 0` and all but the last `-n` for `n < 0`, the front of the descending sort |
| Reducer.FrontDominates | 10_batch_pipeline/reducer.py:130 | in a descending list nothing after a position exceeds anything before it |
| Reducer.TopNKeepsLargest | 10_batch_pipeline/reducer.py:128-131 | the kept values come from the input and no value left out is greater than one kept |
| Reducer.TopNSplit | 10_batch_pipeline/reducer.py:130 | the kept values and the rest of the sort make up the input |
| Reducer.GroupAllSnoc | 10_batch_pipeline/reducer.py:150-152 | one record appends its value to its key's list |
| Reducer.GroupAllValues | 10_batch_pipeline/reducer.py:142-152 | the grouping holds a key exactly when a record has it, with all its values in input order |
| Reducer.AddToEach | 10_batch_pipeline/reducer.py:149-152 | the inner loop of `CombinedReducer.process` appends the record to every named result map |
| Reducer.GroupForEach | 10_batch_pipeline/reducer.py:140-152 | after the first loop every named result map is the grouping of all records |
| Reducer.WriteLines | 10_batch_pipeline/reducer.py:157-161 | one named reducer's file: one line per key, keys ascending |
| Reducer.CombinedProcess | 10_batch_pipeline/reducer.py:139-164 | `CombinedReducer.process`: one output per reducer name, each the lines of the grouping of all records under that reducer |
| Reducer.CombinedLines | 10_batch_pipeline/reducer.py:154-161 | each output lists every input key once, ascending, with its reducer applied to all of that key's values in input order |
| Scheduler.NewTask | 10_batch_pipeline/scheduler.py:15-27 | a new task is pending, never attempted and unassigned, under its own id |
| Scheduler.Dispatched | 10_batch_pipeline/scheduler.py:50-54 | the dispatched task runs on that worker from `now`, one more attempt, nothing else changed |
| Scheduler.OnFailure | 10_batch_pipeline/scheduler.py:75-83 | requeued as pending, unassigned, with the error exactly while attempts are below `max_retries`; otherwise failed with its end time and error |
| Scheduler.OnTimeout | 10_batch_pipeline/scheduler.py:91-98 | the timeout rule: requeued with `'timeout'` while attempts remain, otherwise failed with `'timeout after max retries'`; the end time and attempts are left alone |
| Scheduler.CountsPartition | 10_batch_pipeline/scheduler.py:102-104 | every task is counted in exactly one state |
| Scheduler.CountSnoc | 10_batch_pipeline/scheduler.py:103-104 | one more task adds one to its own state's count |
| Scheduler.RequeuedSnoc | 10_batch_pipeline/scheduler.py:88-95 | a task is queued again by the sweep exactly when it has timed out with attempts left |
| Scheduler.Sweep | 10_batch_pipeline/scheduler.py:88-98 | the loop of `check_timeouts` in the table's iteration order: the timeout rule applied to every timed-out running task and the requeued ids appended in that order |
| Scheduler.JobScheduler.constructor | 10_batch_pipeline/scheduler.py:30-37 | no tasks, an empty queue, the given retry limit and timeout |
| Scheduler.JobScheduler.AddTask | 10_batch_pipeline/scheduler.py:39-42 | the new task stored under its id (replacing any older one) and its id queued |
| Scheduler.JobScheduler.Store | 10_batch_pipeline/scheduler.py:41 | dict assignment: a new key goes last in the iteration order, an old key keeps its place |
| Scheduler.JobScheduler.GetNextTask | 10_batch_pipeline/scheduler.py:44-56 | nothing on an empty queue; otherwise the head of the queue is removed and its task dispatched to the worker |
| Scheduler.JobScheduler.CompleteTask | 10_batch_pipeline/scheduler.py:58-66 | a known task becomes completed with its end time and result; an unknown id changes nothing |
| Scheduler.JobScheduler.FailTask | 10_batch_pipeline/scheduler.py:68-83 | a known task goes through the retry rule and is queued again exactly when it is retried; an unknown id changes nothing |
| Scheduler.JobScheduler.CheckTimeouts | 10_batch_pipeline/scheduler.py:85-98 | every timed-out running task goes through the timeout rule and the retried ones are queued, in table order; no other task changes |
| Scheduler.JobScheduler.GetStatus | 10_batch_pipeline/scheduler.py:100-112 | the per-state counts, which add up to the number of tasks |
| Scheduler.JobScheduler.AllComplete | 10_batch_pipeline/scheduler.py:114-119 | true exactly when every task is completed or failed |
| Scheduler.JobScheduler.AnyFailed | 10_batch_pipeline/scheduler.py:121-123 | true exactly when some task has failed |
| Scheduler.SomeFailed | 10_batch_pipeline/scheduler.py:123 | `any(...)` over the table's iteration order finds a failed task exactly when one is there |
| Scheduler.TableSize | 10_batch_pipeline/scheduler.py:107 | a repeat-free key order lists each task once, so `total` is its length |
| Scheduler.RequeuedIn | 10_batch_pipeline/scheduler.py:95 | every id `check_timeouts` queues again is a task of the table |
| Scheduler.SpeculativeExecution.constructor | 10_batch_pipeline/scheduler.py:186-190 | the scheduler it watches and no speculative copies |
| Scheduler.SpeculativeExecution.LaunchSpeculativeTask | 10_batch_pipeline/scheduler.py:215-234 | an unknown original gives None and changes nothing; otherwise a pending copy of the original's type, inputs and output directory is stored under `<id>_spec_<tag>`, queued and recorded as the original's copy |
| BigEndian.EncodeDecode | 09_consensus_store/log.py:32-48 | `struct` big-endian fields: packing what was unpacked gives back the bytes |
| BigEndian.DecodeEncode | 09_consensus_store/log.py:32-48 | unpacking a packed unsigned field gives back its value |
| BigEndian.DecodeEncodeSigned | 09_consensus_store/log.py:114-121 | the same for the signed `q` field (two's complement) |
| Utf8.RoundTrip | VersionedEncoding/encoder.py:19 | `s.encode('utf-8')` decoded again is `s` |
| Utf8.LengthIsCharCountOnlyForAscii | VersionedEncoding/encoder.py:34-36 | a string's character count equals its UTF-8 byte count exactly when it is ASCII |
| Ordering.StrLtTotal | 10_batch_pipeline/reducer.py:105 | Python's string `<` is total |
| Ordering.StrLtTransitive | 10_batch_pipeline/reducer.py:105 | and transitive |
| Ordering.SortedKeys | 10_batch_pipeline/reducer.py:158 | `sorted(d.keys())`: the keys, each once, strictly ascending |
| Ordering.SortedUnique | 03_storage_engine/compaction.py:48 | two strictly ascending lists of the same keys are equal, so `sorted(keys)` is determined |
| Sorting.SortByPermutation | 10_batch_pipeline/reducer.py:86 | `list.sort(key=...)` keeps every element as often as it occurs |
| Sorting.SortBySorted | 10_batch_pipeline/reducer.py:86 | the sorted list is ordered by the key |
| Sorting.SortByStable | 10_batch_pipeline/reducer.py:107 | the sort is stable: elements with equal keys keep their input order |
| Sorting.StrLeTotalPreorder | 10_batch_pipeline/reducer.py:86 | `<=` on strings is a total preorder |

## Left out

- Time, randomness and hashing: `time.time()` readings, random election timeouts, `random` packet loss, md5, Python's `hash` and `uuid4` are parameters (integers, function-typed arguments or a `tag` string). Floating-point time is modelled as integer time.
- Threads, locks, sockets, HTTP and timers are not modelled. Every handler runs atomically, as the locks make it in the source, and a received message or reply is an explicit input.
- Sockets and threads so left out:
  - the Raft node's server, election timer and heartbeat loops (09_consensus_store/raft_node.py:57-104, 193-213, 256-265, 325-355);
  - the counter node's server and sync loop (PartitionFailures/node.py:50-182);
  - the storage node's server (05_replicated_store/node.py:165-256);
  - the cluster heartbeat sockets (05_replicated_store/cluster.py:30-75);
  - `Worker` and `WorkerPool` (10_batch_pipeline/scheduler.py:125-183);
  - `ParallelMapper` (10_batch_pipeline/mapper.py:106-137);
  - the compactors' `start`, `stop` and `_run`.
- File I/O: every segment file, SSTable file, index file, WAL and map or reduce output is a byte or record sequence in memory.
  - Not modelled: `LogStore._load_segments`; `SSTable.load_index` and the index file format; `PersistentLog`'s file format; `load_snapshot` and `get_snapshot_metadata`; the graph store's `_load`/`_save`.
  - `os.path.exists` is a per-file `Option`.
- JSON: commands, records and values are opaque values compared for equality. `json.dumps`/`json.loads` are not modelled.
- Mapper.IsAlnum: recognises only ASCII letters and digits, because Unicode character classes are not modelled. Python's `str.isalnum` also accepts other letters, so for "Café" `word_count_map` yields "café" where the model yields "caf".
- Mapper.Lower: folds only ASCII upper case, because Unicode case mapping is not modelled; the graph store's case-insensitive match uses the same rule.
- Mapper.ProcessRecords: the partition files are returned as sequences of pairs together with the record count; the result dict's task id, input path and file paths are not modelled.
- StateMachines.KeyValueStateMachine.Apply: values are `Json`, an optional text. So `cas` compares texts for equality where Python compares the decoded values, and a command missing a required key, which raises `KeyError` in Python, cannot be expressed.
- StateMachines.LeaderElectionStateMachine.Restore: the snapshot and the machine hold values, not shared dicts. The source's `snapshot` copies the outer dict only, so a later `resign` also changes an earlier snapshot (09_consensus_store/state_machine.py:187, 210, 216); the model cannot show that aliasing.
- Encoder.StrOf: gives `str()` only for strings, integers, booleans and None. For bytes, a float, a list or a dict it gives None, so a MAP with such keys or values fails to encode in the model where Python writes their text (`b'...'` for bytes).
- Encoder.FieldValueBytes: an ARRAY whose value is a `str` fails in the model; Python iterates its characters.
- Encoder.FloatBytes: floats are their IEEE bit patterns of the field's width; `struct.pack('>f')` rounding a double to a float is not modelled.
- Bloom.Probe: requires `size > 0`. The filter checks the zero-size case first (`Raises`) and fails there without probing, where Python raises `ZeroDivisionError`.
- Cluster: the heartbeat exchange is a boolean input. `get_alive_peers` returns a set of ids, the leader-change callback becomes a returned id, and `ReplicaSet` holds node ids, not node objects.
- Transactions.DistributedTransaction.constructor: requires the managers to hold distinct stores, and so do `DistributedTransaction.Valid()` and every method of the class (`Begin`, `Read`, `Write`, `Commit`, `Abort`, `Exit`). Two partition names bound to one manager, or to managers sharing a store, are accepted by the source's `managers` dict but not modelled: each partition's transaction is specified over its own store, and a shared store would alias them.
- Transactions.TwoPhaseCommit.Execute: requires the participants' transactions and stores to be distinct objects, so participants that share one store are not modelled. The source's `_prepare_all` accepts every transaction, so its failure branch never runs and has no counterpart. A transaction's reads are returned as values.
- Graph.GraphStore.Traverse: the contract states membership (exactly the nodes reachable within the depth), not the breadth-first order of the list.
- Graph.GraphStore.QueryUsers: filters are a sequence of pairs in the dict's order, and non-string attribute values are compared by their text.
- Graph: the store's lock is not modelled.
- ReplicatedNode: `_handle_request`, the JSON protocol and the network replication are not modelled.
- Raft: the `_process` dispatch and `_get_status` are not modelled. AppendEntries requires entry indices of at least 1, which the leader always sends; Python would wrap a non-positive index to the end of the list.
- Ssi: `SSITransactionWrapper` and `SSIManager` are thin wrappers and are not modelled.
- Engine.StorageEngine: `stats` and `start_compaction`/`stop_compaction` are not modelled.
- LSM.LSMTree.Get: an SSTable is modelled as the map of its records, so `get` reads a table as the corrected lookup (`SSTableIndex.SSTable.GetCorrected`) does, not through the sparse-index scan as written; `SSTableIndex.LookupMissesFirstKey` shows where the two differ.
- Compaction.Compact: the store's segments hold their records in memory, so the method states the new segment as holding the merged rows. On disk, as written, the rename puts the new segment at the file of the smallest old id and `replace_segments` then unlinks that file with the other old ones, so the compacted data are lost and a later `iterate` or `read_at` finds no file. The directory is modelled apart, on values (`CompactFiles`, `CompactUnlinksOwnOutput`; see "## Findings").
- StorageIndex.HashIndex.Keys: returns the keys in ascending order; the insertion order of `list(self._index.keys())` is not modelled, and the contract states each indexed key once.
- Reducer: a map-output record is `(string, int)`, so values are integers; the inverted-index pipeline, whose values are document-id strings, is not modelled through `_merge_sort`.
- Router: shard ids are strings, so `f'{shard_id}'` is the id itself; integer shard ids and their decimal node keys are not modelled.
- SSTableIndex.PairsBelow: is `bisect_right` only on a sparse index ascending by key. `SSTable.BuildFromRecords` appends the new sparse entries to the old ones, as the source does, so a second build on one object leaves an unsorted index; the lookup lemmas assume a sorted index and say nothing about that case.
- Compaction.LeveledCompactor: the new segment id that the source derives from `time.time()` is a parameter.
- Network: `set_packet_loss` and `should_drop` (floating point and `random`) and `ProxyNode` (sockets) are not modelled.
- Crdt: the counter node's `add_peer`, `sync_with_peer`, `_process`, `_heartbeat` and `_get_alive_peers` are network code and are not modelled; of the dispatch, only which counter method each command reaches is (the G-Counter's `decrement` reaches the inherited `CounterNode.decrement`).
- Detectors: `PhiAccrualDetector` and `AdaptiveDetector` compute in floating point and are not modelled; the gossip detector is.
- Reliability: `ReliableClient` makes HTTP calls and is not modelled; the breaker, limiter and retry policy it uses are.
- Router: the responses of `put`, `get`, `delete`, `multi_get` and `multi_put` come from shard clients, and `get_distribution` counts them; these are not modelled. The key grouping they rely on is.
- Reducer.AvgReduce: computes over exact reals, so float rounding is not modelled.
- Reducer.ListReduce: `list(set(values))` has no fixed order. The model keeps first occurrences and its contract states only the distinct values, not an order.
- Reducer.ProcessPartition: the plain `Mapper` writes its pairs in map order, not sorted, so `_merge_sort` over its files is a merge of unsorted inputs. The model reduces the runs of whatever the merge yields, exactly as the code does; `MergeSorted` needs sorted files, which only `CombiningMapper` writes.
- Scheduler.SpeculativeExecution: `check_for_slow_tasks` averages float durations and is not modelled.
- Raft.AppendEntriesCommit: the commit index never decreasing and never passing the log's end is proved only from a commit index inside the log. The consistency check (09_consensus_store/raft_node.py:162-163) cuts the log without looking at `commit_index`, so a request that conflicts at a committed index leaves it past the end, and the next accepted request lowers it (`CommitFallsAfterCut`). In a Raft cluster the current leader's log holds every committed entry, so its conflicts lie above the commit index; `CommitKeptWhenCommittedSpared` proves the promise under exactly that condition. The same condition is what makes `Raft.ApplyStepRule` end at the commit index.

## Findings

| source | as written | input that shows it | evidently intended | confidence | as-written member | corrected member |
|---|---|---|---|---|---|---|
| VersionedEncoding/encoder.py:34 | the header's name length is `len(self.schema.name)`, a character count, while the name is written as UTF-8 bytes | a schema named "é" (one character, two bytes): the reader takes one byte of the name, which is not valid UTF-8, and the message cannot be read back even with its own schema | the length counts the name's bytes | high; not executed | CodecFindings.AccentedNameUnreadable | CodecFindings.AccentedNameReadable |
| VersionedEncoding/encoder.py:87 | an ARRAY field without `element_type` encodes its items with type None, which raises | an ARRAY field with no `element_type` holding `["a"]` | items default to STRING, as the decoder assumes (04_versioned_encoding/decoder.py:120-128) | high; not executed | CodecFindings.UntypedArrayUnwritable | CodecFindings.UntypedArrayRoundTrip |
| 03_storage_engine/index.py:131 | `get` scans from the sparse entry before the first entry whose key is at least the key, so the window ends just before a sampled key's own row | a table holding only "a" -> "1" answers None for "a" | scan from the last sparse entry at or below the key, so every written key is found | high; not executed | SSTableIndex.LookupMissesFirstKey | SSTableIndex.LookupFixedCorrect |
| 03_storage_engine/compaction.py:110-116 | a tombstone in the upper level removes the key, and then the lower level adds it again because it is no longer present; among lower-level records the oldest value wins | upper level [("a", deleted)] over lower level [("a", "1")] gives a = "1"; a lower level [("a", "1"), ("a", "2")] gives a = "1" | the newest record over both levels decides, and a tombstone deletes | high; not executed | Compaction.LevelMergeResurrects | Compaction.LevelMergeFixedNewest |
| 03_storage_engine/engine.py:128-131 | `range_query` keeps a key's value from the earliest-listed SSTable, the oldest, while `get` reads the newest | two tables, "a" -> "1" and then "a" -> "2": `range_query` reports "1" and `get` reports "2" | newest table first, agreeing with `get` | high; not executed | LSM.RangeQueryDisagrees | LSM.LSMTree.RangeQueryFixed |
| 10_batch_pipeline/reducer.py:63 | `file_handles` holds only the files that exist but is indexed by the position in `partition_files` | a missing first file and a second file with one record: the pop reads `file_handles[1]` of a one-element list and raises `IndexError` | read from the handle of the file the record came from; the merge is then a sorted permutation of the present files' records (also `Reducer.MergeSorted`) | high; not executed | Reducer.MissingFileBreaksMerge | Reducer.MergePermutation |
| 07_transaction_system/store.py:170-180 | the read-uncommitted read ignores the reader's own write set | begin, write "k" = 5, read "k": the read gives nothing | a transaction reads its own writes, as every other isolation rule in the file does | medium; not executed | Mvcc.ReadUncommittedMissesOwnWrite | Mvcc.ReadYourWrites |
| 07_transaction_system/store.py:153-167 | garbage collection drops every committed version whose commit time is below `before_ts` (a list left empty keeps its last version), including the newest one a live snapshot still sees | versions committed at 1 (value 7) and 10 (value 8), collected before 5: a reader with snapshot 6 saw 7 and afterwards sees nothing | keep the newest version committed before `before_ts` | medium; not executed | Mvcc.GcAsWrittenLosesSnapshot | Mvcc.GcPreservesSnapshots |
| 07_transaction_system/serializable.py:61-62 | a read of a key another transaction has write-locked records the conflict from the writer to the reader, the opposite direction to `write` (lines 76-81) | a write skew where each transaction reads the other's locked key: both commit. The lemma states both rules | record the edge from the reader to the writer, so the first commit fails with a serialization failure | medium; not executed | Ssi.ReadEdgeDirection | Ssi.ReadEdgeDirection |
| 07_transaction_system/serializable.py:105 | commit releases the transaction's SIREAD marks | first transaction commits, then the second writes the key the first read: no edge, so both halves of the write skew commit. The lemma states both rules | keep SIREAD marks of committed transactions while overlapping ones run, so the second commit fails | medium; not executed | Ssi.SireadAtCommit | Ssi.SireadAtCommit |
| PartitionFailures/node.py:192 | the PN-Counter's inherited `increment` sets the counter to the sum of increments only | one decrement and then one increment on a fresh node: the counter reads 1 where increments minus decrements is 0 | the counter stays increments minus decrements | high; not executed | Crdt.IncrementForgetsDecrements | Crdt.PNCounterNode.IncrementCorrected |
| 05_replicated_store/node.py:152-160 | `apply_replication` appends replicated entries to the WAL but never advances `next_seq` | a follower receives entry 0, is promoted and handles a `put`: the reply is success with sequence number 0, yet the entry is not applied and the key stays unset | `next_seq` moves past every replicated entry, so the write gets sequence number 1 and is applied | high; not executed | ReplicatedNode.PromotedFollowerDropsWrite | ReplicatedNode.ReplicateFixed |
| 05_replicated_store/cluster.py:158-161 | `get_leader` tests `self.leader_id`, which is false for node id 0 | a replica set whose leader is node 0 reports no leader | test `leader_id is not None` | medium; not executed | Cluster.ZeroLeaderHidden | Cluster.LeaderOfFixed |
| 09_consensus_store/raft_node.py:162-163 | the consistency check cuts the log to `log[:prev_log_index - 1]` and leaves `commit_index` unchanged, even when the cut removes committed entries | two committed entries of term 1; `AppendEntries(prev_log_index 2, prev_log_term 5)` leaves one entry with commit index 2, and a heartbeat with leader commit 3 sets the commit index to 1 | the commit index never falls; Raft relies on no leader ever conflicting with a committed entry, and a follower that is sent such a request should not lose its commit index | low (no correct leader sends such a request); not executed | Raft.CommitFallsAfterCut | Raft.CommitKeptWhenCommittedSpared |
| PartitionFailures/node.py:34-38 | the G-Counter inherits `CounterNode.decrement`, which the `decrement` command reaches through `CounterNode._process` (line 228); it lowers the counter but not the increments, and the next `increment` or `merge` re-sums them | a fresh G-Counter: `decrement` answers -1, then `increment` answers 1 | a grow-only counter refuses `decrement`, so its counter always shows the increments' total | medium; not executed | Crdt.GCounterDecrementLost | Crdt.GCounterNode.DecrementRefused |
| StorageEngine/log_store.py:148-150 | `replace_segments` unlinks the file of every old segment, and the compacted segment was just renamed onto the file of the smallest old id (03_storage_engine/compaction.py:44-52), so compaction deletes its own output | two candidate segments 0 and 1 with live records: the merged data are renamed to `segment_000000.log`, which the unlink loop then removes | unlink only the old files other than the new segment's | high; not executed | Compaction.CompactUnlinksOwnOutput | Compaction.CompactFilesFixedKeeps |
