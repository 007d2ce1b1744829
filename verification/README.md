# StreamShard in Dafny

A model of StreamShard, a sharded and replicated event store written in Go, with proofs of
what its stateful packages promise over whole runs. `dafny verify dfyconfig.toml` checks all
of it.

Objects whose methods change their fields are classes with those fields. Each such class has
its state as a value (`State()`), and its methods are tied to functions on that value; the
properties of runs are lemmas about those functions. Protocols between processes are step
systems. Clock readings are parameters of the calls that take them, and files and the disk are
objects that outlive a process. Ranging over a Go map visits the keys in an order the model
leaves open. Lemmas about recursive functions switch automatic induction off, so that every
induction is the one their bodies show.

## What is modelled

**The storage engine of a node.** `Dedup` (the bucketed TTL set), `EventLog` (the append-only
log with its WAL), `Aggregate` (the sliding-window counter) and `Partition` (the serial loop).
`LogProperties` has exact deduplication, contiguous offsets and compaction;
`AggregateProperties` shows the counter refines its simple definition; `Recovery` shows that a
restart refines the live partition, which accepted writes are counted across compactions and
restarts, and at which point of a compaction a crash does harm; `RestartCounts` what a restart
does to the counts when ids are repeated; `LogContents` what is stored of each call.

**The consistent-hash ring and what is built on it.** `Ring` (arrays, search, walk as
functions), `HashRing` (the object with its loops), `RingProperties` (preference lists,
minimal disruption, uniqueness of the array), `RingLabels` (the labels of the points), `Quorum`
(the gateway's write path), `GatewayAnswers` (its answers, read off lists and replies),
`Replication` (quorum intersection, the primary's fan-out), `Primary` (the node's write path:
what its answers say about copies, derived from its log), `Cluster` (the logs of all nodes
together), `ScatterGather` (the merge of reads). The hash is a parameter; nothing is assumed about it except where a lemma says that
two nodes share no hash.

**Epoch fencing.** `Epoch` (the fencer and the epoch table with their files), `Fencing` (the
control plane, gateways with separate load, compare and store, and nodes, over a network that
delays, repeats, reorders and loses messages, with crashes), `FencingProperties` (what they
keep), `FencingProgress` (which epoch reaches whom).

**Membership.** `Membership` (the member table and gossip queue), `MembershipProperties`
(incarnations, suspicion and death), `Knowledge` (who is known, what is passed on), `Gossip` (a
network of processes and the bound on its traffic).

**Overload.** `RateLimit`, `LimiterMap`, `Breaker`.

`Sorting` states what Go's sort gives: a sorted permutation, nothing about ties. `Wrappers`
has the optional value and the iteration order of maps.

## Where the code does less than one may expect

Each of these is a lemma with an input that shows it, and a lemma with the exact condition
under which the code does keep the promise.

- A restart loses entries whose id was accepted twice, which happens when an id comes back
  after the TTL (`LogProperties.ReopenLosesReacceptedId`); the log survives if and only if the
  retained ids are distinct (`LogProperties.ReopenExact`), and the counts survive if and only if
  the repeats, and all that stands before them, have left the window
  (`RestartCounts.RestartedCountsExact`).
- After such a restart the id may be accepted once more inside the TTL
  (`LogProperties.ReopenForgetsReacceptedId`), because its first entry is the one remembered;
  that happens if and only if the first retained entry has expired and a later one has not
  (`LogProperties.RestartVerdictExact`).
- A crash between the rename of a snapshot and the truncation of the WAL makes the next start
  apply all retained entries again; a crash anywhere else in a compaction does no harm (both
  `Recovery.CompactionCrashExact`).
- An entry with an out-of-order timestamp may be counted too long
  (`AggregateProperties.OutOfOrderIsOvercounted`); the counts are exact if and only if no old
  entry stands behind one that is still in the window
  (`AggregateProperties.WindowedCountsExact`, `Recovery.AcceptedWritesCounted`).
- The comment in the merge of joins says that incarnations keep dead members from coming back.
  A join that fills in a missing HTTP address resets the incarnation, so stale gossip can
  (`MembershipProperties.UnsettledResurrects`); `MembershipProperties.ResurrectionExact` says
  which gossip does, `MembershipProperties.IncarnationDrops` that nothing else resets one.
- A primary that failed to replicate answers a repeated request with 200, without a quorum of
  acknowledged copies (`Primary.DuplicateSkipsQuorum`). A success means w of them if and only if
  the request that stored the entry was answered 201 or, when another primary posted it here, if
  w - 1 nodes besides that primary have it, this one included
  (`Primary.SuccessMeansCopiesExact`, `Primary.FailOverKeepsTwoCopies`). An answer may be lost, so
  more logs may hold the entry than have acknowledged it; which ones do is exact in
  `Cluster.HoldersExact`.
- The epoch of a gateway may go back (`FencingProperties.GatewayMayGoBack`), exactly by storing
  an older epoch last or by a crash (`FencingProperties.GatewayNeverBackExact`). Nodes stay
  safe.
- Epochs of a second partition reach the same fencer and may exceed the default epoch
  (`FencingProperties.PartitionsMix`), exactly by a reshard whose epoch gets past it
  (`FencingProperties.DurableEpochBounds`).
- A node that cannot write its epoch file may accept an older epoch after a crash
  (`FencingProperties.LostPersistRegresses`), exactly if the file is behind at the crash
  (`FencingProperties.CrashForgets`).

Where a comment and the code disagree the model follows the code: the comment on fail-over says
that it waits for a confirmed death, the code asks whether the primary is suspected
(`Quorum.HandleEvent`).

## Model

| member | source | states |
|---|---|---|
| `Dedup.DedupSet.Seen` | internal/log/log.go:272-276 | a lookup first forgets exactly the ids whose second is at or before now - ttl, and answers whether the id is among the rest; the two maps stay mutual inverses |
| `Dedup.DedupSet.Add` | internal/log/log.go:278-290 | a new id goes to the bucket of its second in both maps at once; a known id keeps its old second |
| `Dedup.DedupSet.Evict` | internal/log/log.go:292-303 | for every order of ranging over the buckets, exactly the expired ids and buckets go, and the maps stay mutual inverses |
| `EventLog.Log.constructor` | internal/log/log.go:48-84 | opening a log on a disk gives the log that the disk alone determines: base from the snapshot, first occurrences of the WAL renumbered, their ids remembered and evicted |
| `EventLog.Log.ReplayWal` | internal/log/log.go:67-79 | the start-up loop over the WAL computes the replay of all records |
| `EventLog.Log.SetNoIdempotent` | internal/log/log.go:208-212 | sets the flag and touches nothing else |
| `EventLog.Log.Append` | internal/log/log.go:110-134 | entry, verdict, offset, dedup table and WAL record of one append, duplicates and the non-idempotent mode included |
| `EventLog.Log.AppendBatch` | internal/log/log.go:138-175 | a batch at one time leaves the log, the dedup table and the WAL, and gives every caller the entry and the flag, that appending the elements one after another would; duplicates inside the batch included |
| `EventLog.Log.Since` | internal/log/log.go:177-188 | a reader gets the retained tail of the clamped offset, nothing past the head |
| `EventLog.Log.Head` | internal/log/log.go:190-194 | the head is the base offset plus the number of retained entries |
| `EventLog.Log.Compact` | internal/log/log.go:214-256 | snapshot, base, retained entries and rewritten WAL after a compaction at any offset, with the unsigned subtraction of the original |
| `LogProperties.DedupExact` | internal/log/log.go:110-134 | for every call sequence with a clock that does not run back: a call is accepted if and only if no earlier accepted call (and no entry of the initial table) with its id is less than the TTL old |
| `LogProperties.DedupWindow` | internal/log/log.go:110-118 | the Unix seconds of two accepted calls with the same id differ by at least 300 |
| `LogProperties.DedupWindowNanos` | internal/log/log.go:272-303 | in nanoseconds, over every run: two accepted calls with one id are more than 299 seconds apart, a call all of whose accepted predecessors are 300 seconds old or more is accepted, and in between whole Unix seconds decide |
| `LogProperties.TableStaysJustified` | internal/log/log.go:272-290 | over every run, each second in the dedup table is that of an accepted call or was there at the start |
| `LogProperties.TableStaysKept` | internal/log/log.go:272-303 | over every run, each accepted call is still in the table at its second or has expired |
| `LogProperties.BucketsDetermined` | internal/log/log.go:258-262 | the id table alone determines the buckets, so equal tables mean equal dedup sets |
| `LogProperties.BucketsStayBounded` | internal/log/log.go:292-303 | after every run of appends with a clock that does not run back, however many ids come in, the dedup set has at most 300 buckets |
| `LogProperties.AppendsExtend` | internal/log/log.go:110-175 | any run of appends keeps the offsets contiguous and the base, and extends the retained log by exactly the entries the callers were given |
| `LogProperties.SinceExact` | internal/log/log.go:177-188 | a read from an offset is exactly the retained entries with that offset or a later one, in order |
| `LogProperties.CompactionKeepsHead` | internal/log/log.go:233-238 | a compaction keeps the head if and only if its point lies between base offset and head |
| `LogProperties.CompactionInvisible` | internal/log/log.go:214-256 | a compaction between base and head keeps offsets contiguous, and readers at or past its point get the same entries with the same offsets |
| `LogProperties.AppendsStayDurable` | internal/log/log.go:126-132 | between any two appends the WAL equals the retained entries and the snapshot is untouched |
| `LogProperties.ReplayKeepsDistinct` | internal/log/log.go:67-79 | replaying a WAL with distinct ids gives back exactly its records |
| `LogProperties.ReplayDropsRepeats` | internal/log/log.go:72-77 | replaying a WAL with a repeated id always loses an entry |
| `LogProperties.ReopenExact` | internal/log/log.go:48-84 | reopening keeps the base, never advances the head, and keeps the head if and only if the retained ids are distinct; then all entries come back |
| `LogProperties.ReopenRemembers` | internal/log/log.go:67-80 | whatever ids the log retains: after a restart an id is refused if and only if the first retained entry with it is within the TTL at the time of the call |
| `LogProperties.ReopenRemembersDistinct` | internal/log/log.go:67-80 | with distinct retained ids, if and only if a retained entry with it is within the TTL |
| `LogProperties.RestartVerdictExact` | internal/log/log.go:67-80 | after any run of appends to a new log with a clock that does not run back, a call is refused if and only if a retained entry with its id is within the TTL, and a restart changes that answer if and only if one is but the first one is not |
| `LogProperties.ReopenLosesReacceptedId` | internal/log/log.go:68-76 | a concrete run in which an id accepted again after the TTL makes a restart lose an entry |
| `LogProperties.ReopenForgetsReacceptedId` | internal/log/log.go:72-77 | the same run, after which a restart accepts the id a third time one second later |
| `LogContents.AppendsRecord` | internal/log/log.go:110-134 | over every run of appends the log, and the WAL, grow by exactly the accepted calls in order, each with the id, key, value and time of the call and the next offset |
| `LogContents.AcceptedAtExact` | internal/log/log.go:113-118 | the positions of the accepted calls, in increasing order |
| `LogContents.RepliesRecord` | internal/log/log.go:110-134 | an accepted caller is told the entry with its own id, key, value and time and its offset; a refused one the zero entry |
| `LogContents.SinceRecords` | internal/log/log.go:177-188 | after any run of appends a reader from the old head on gets the accepted calls from that offset on, field by field |
| `LogContents.RestartRecords` | internal/log/log.go:48-84 | a restart of a log that was new gives the accepted calls back to readers, field by field, if their ids are distinct |
| `LogContents.ReopenedTableExact` | internal/log/log.go:76-80 | right after a restart an id is remembered if and only if its first WAL record is within the TTL, with the second of that record |
| `LogContents.BatchRecords` | internal/log/log.go:138-175 | a batch stores its accepted elements in order, each with its own id, key and value and the time of the batch |
| `LogContents.NonIdempotentTakesAll` | internal/log/log.go:113-118 | without idempotence every call is taken, whatever its id |
| `LogContents.NonIdempotentForgetsNothing` | internal/log/log.go:278-290 | without idempotence no id is evicted, and each keeps the second of its first call |
| `Aggregate.Aggregate.Apply` | internal/aggregate/aggregate.go:40-44 | counts and timeline after an entry, whatever they were; if they agreed before they agree afterwards |
| `Aggregate.Aggregate.Counts` | internal/aggregate/aggregate.go:46-53 | the answer is the counts after the eviction, those of the evicted timeline if they agreed before |
| `Aggregate.Aggregate.TopK` | internal/aggregate/aggregate.go:55-73 | for every map order and tie-break: min(topK, keys) entries with distinct keys and exact counts, most frequent first, and no omitted key more frequent than a returned one |
| `Aggregate.Aggregate.Rebuild` | internal/aggregate/aggregate.go:75-81 | rebuilding is applying all entries to an empty aggregate |
| `Aggregate.Aggregate.Snapshot` | internal/aggregate/aggregate.go:83-98 | a snapshot holds the evicted timeline and the counts of that moment |
| `Aggregate.Aggregate.LoadSnapshot` | internal/aggregate/aggregate.go:100-109 | loading makes a consistent aggregate if and only if the stored counts are those of the stored timeline |
| `Aggregate.Aggregate.Evict` | internal/aggregate/aggregate.go:111-122 | drops the leading old elements and uncounts each of them; counts and timeline that agreed still agree |
| `Aggregate.CountsExact` | internal/aggregate/aggregate.go:115-117 | a count map agrees with a timeline if and only if every key reads as its frequency and exactly the keys with positive frequency are present |
| `Aggregate.CountsDropFirst` | internal/aggregate/aggregate.go:114-119 | the count of the oldest key is positive, so the unsigned decrement does not wrap, and lowering it with deletion at zero gives the counts of the rest |
| `Aggregate.EvictionKeepsCounts` | internal/aggregate/aggregate.go:111-122 | an eviction of any length keeps counts and timeline in agreement |
| `Aggregate.ApplyKeepsCounts` | internal/aggregate/aggregate.go:40-44 | applying an entry, with the eviction before it, keeps counts and timeline in agreement |
| `Aggregate.HeadIsTopK` | internal/aggregate/aggregate.go:61-71 | the front of any sorted listing of a count map is a true top-K |
| `AggregateProperties.EvictedTrailing` | internal/aggregate/aggregate.go:111-122 | an eviction gives the same from a timeline as from the whole history it is a rest of |
| `AggregateProperties.RunTrails` | internal/aggregate/aggregate.go:40-53 | over every run of applies and evictions, in any order of times, the timeline is the history without elements older than the window at the latest time |
| `AggregateProperties.EvictedExactUnlessBuried` | internal/aggregate/aggregate.go:111-122 | dropping from the front counts every key as looking at every element does if and only if no old element stands behind one that is still in the window |
| `AggregateProperties.WindowedCountsExact` | internal/aggregate/aggregate.go:40-53 | for every history in any order of times and any evictions in between, the counts at a time t that no step is past never miss an entry of the window; they are the numbers of entries applied inside the window, with absent keys exactly those with none, if and only if no entry that has left the window was applied after one still in it |
| `AggregateProperties.WindowedCountsInOrder` | internal/aggregate/aggregate.go:40-53 | with times that do not run back the counts are always exact |
| `AggregateProperties.OutOfOrderIsOvercounted` | internal/aggregate/aggregate.go:114-119 | a concrete history with an out-of-order timestamp that the window counts too often |
| `Partition.Partition.constructor` | internal/partition/partition.go:62-109 | start-up on a disk gives the log and the timeline that the disk alone determines, and counts that agree with the timeline if those of the snapshot did |
| `Partition.ReplayInto` | internal/partition/partition.go:107-109 | the start-up loop applies all retained entries in order |
| `Partition.Partition.ServeApply` | internal/partition/partition.go:113-122 | one turn of the loop takes one waiting write, or up to batchMax of them, and leaves the state and gives the answers of serving those writes one by one |
| `Partition.Partition.ApplyOne` | internal/partition/partition.go:117-121 | the unbatched branch: append, count if accepted, answer |
| `Partition.Partition.ApplyBatch` | internal/partition/partition.go:152-177 | a batch leaves the log and the aggregate, and gives the answers in order, that the unbatched loop would at the same time |
| `Partition.Partition.Drain` | internal/partition/partition.go:153-163 | draining takes the first waiting writes up to the batch size, in order, and leaves the others |
| `Partition.Partition.CountAndReply` | internal/partition/partition.go:171-176 | the second loop of a batch counts exactly the accepted entries and answers every caller with its own result |
| `Partition.Partition.Query` | internal/partition/partition.go:124-128 | counts and top-K of the evicted timeline, each at its own clock reading |
| `Partition.Partition.LogSince` | internal/partition/partition.go:130-131 | a tail read answers from the log and changes nothing |
| `Partition.Partition.Head` | internal/partition/partition.go:136-137 | a head read answers from the log and changes nothing |
| `Partition.Partition.Compact` | internal/partition/partition.go:139-144 | a log of at least 10000 entries moves into a snapshot taken at its head; a shorter one is left alone |
| `Partition.LogOfApplies` | internal/partition/partition.go:152-177 | the log of a run of writes does not depend on the aggregate, so appending first and counting later is the same |
| `LogContents.ServedRecords` | internal/partition/partition.go:152-177 | the writes of one turn that are accepted stand in the log in order, each with its own id, key and value |
| `LogContents.StartedMode` | internal/partition/partition.go:96-101 | a partition has the mode it is started with over every run of writes, and without idempotence takes every one |
| `Recovery.QueryUnobservable` | internal/partition/partition.go:124-128 | a query leaves nothing in front of the timeline that has left the window, and changes no count reported at or after its times |
| `Recovery.CompactionBoundsLog` | internal/partition/partition.go:139-144 | a compaction leaves no entries in the log if there were 10000 or more, and changes nothing if there were fewer |
| `Recovery.WriteRecoverable` | internal/partition/partition.go:117-121 | a write keeps the invariant that disk and live timeline agree on every window from now on |
| `Recovery.CompactRecoverable` | internal/partition/partition.go:139-144 | a compaction keeps the invariant and the head |
| `Recovery.RestartRecoverable` | internal/partition/partition.go:95-109 | a restart with distinct ids gives the same base, entries and disk, and the invariant again |
| `Recovery.RunRecoverable` | internal/partition/partition.go:95-146 | the invariant holds after every admissible run of writes, batches, queries, compactions and restarts from an empty disk |
| `Recovery.RecoveredLogExact` | internal/partition/partition.go:95-146 | after every such run, a restart keeps the base; it keeps the head if and only if the retained ids are distinct, and then every tail read answers as before |
| `Recovery.RecoveredCountsExact` | internal/partition/partition.go:103-109 | after every such run with distinct retained ids, a restarted partition reports the same counts as the live one at every later time |
| `RestartCounts.RestartedCountsExact` | internal/partition/partition.go:95-146 | over every such run, whatever ids the log retains and in whatever order its times are: a restart reports the same counts at a time t no command is past if and only if every retained entry whose id had come before has left the window by then, together with everything on the disk in front of it |
| `RestartCounts.RestartedCountsInOrder` | internal/partition/partition.go:95-146 | while no accepted write is buried behind a younger one, if and only if every such entry has left the window |
| `RestartCounts.ForgettingExact` | internal/log/log.go:67-79 | the counts of a timeline followed by a WAL and of the timeline followed by what a replay keeps of it are equal if and only if an eviction has dropped every repeat |
| `RestartCounts.ReplaySplits` | internal/log/log.go:67-79 | what the replay of a WAL keeps and the entries it forgets as repeats add up to the WAL, for every key and window |
| `Recovery.DiskTrailsAccepted` | internal/partition/partition.go:95-146 | over every such run the disk forgets only accepted writes that have left every window from now on |
| `Recovery.HeadNeverDecreases` | internal/partition/partition.go:95-146 | the head never goes back over any such run |
| `Recovery.CompactionCrashExact` | internal/log/log.go:225-251 | with distinct retained ids, a process that dies inside a compaction recovers head and counts if and only if it does not die between the rename of the snapshot and the truncation of the WAL; there the next start moves the head by all retained entries and applies them a second time |
| `Recovery.AcceptedWritesCounted` | internal/partition/partition.go:95-146 | end to end, across compactions and restarts and for any clock: the counts at time t miss no accepted write of the window, and are the accepted writes of the whole run inside the window, each once, if and only if no accepted write that has left the window came after one still in it |
| `Recovery.AcceptedWritesCountedInOrder` | internal/partition/partition.go:95-146 | with a clock that does not run back every accepted write in the window is counted exactly once |
| `HashRing.HashRing.constructor` | internal/ring/ring.go:23-47 | a new ring holds each given node once, exactly the points of its nodes, both arrays sorted |
| `HashRing.HashRing.Add` | internal/ring/ring.go:49-68 | adding keeps a ring and adds exactly the node; a known node changes nothing |
| `HashRing.HashRing.Remove` | internal/ring/ring.go:70-87 | removing keeps a ring and deletes exactly the node and its points, keeping the order of the rest |
| `HashRing.HashRing.Owner` | internal/ring/ring.go:89-100 | the owner is the node of the first point at or past the hash, wrapping around; none in an empty ring |
| `HashRing.HashRing.Replicas` | internal/ring/ring.go:102-127 | the walk returns the front of the key's preference list, for every replication factor |
| `HashRing.HashRing.Nodes` | internal/ring/ring.go:129-135 | the nodes of the ring in order |
| `HashRing.Search` | internal/ring/ring.go:112-114 | the bisection finds the first point at or past the hash |
| `HashRing.Walk` | internal/ring/ring.go:116-126 | the wrap-around loop ends within one lap and collects distinct nodes in the order the lap meets them |
| `RingLabels.DecimalReadsBack` | internal/ring/ring.go:38 | the numeral of a virtual point reads back as its number |
| `RingLabels.NoLeadingZero` | internal/ring/ring.go:38 | ... and starts with a zero only if the number is zero |
| `RingLabels.LabelsApart` | internal/ring/ring.go:36-41 | no two virtual points share a label, neither of one node nor of two |
| `RingLabels.PointsHaveLabels` | internal/ring/ring.go:36-41 | a node's points stand exactly at the hashes of its name, a hash sign and the numbers below 150 |
| `RingLabels.FullNumberOfPoints` | internal/ring/ring.go:36-41 | in a ring whose labels the hash keeps apart every node has exactly 150 points with 150 different hashes |
| `RingLabels.KeepsApartIsTieFree` | internal/ring/ring.go:43-45 | such a ring has no ties between nodes, so its node set determines it |
| `RingProperties.LapSeesAllNodes` | internal/ring/ring.go:118-125 | one lap meets every ring node and nothing else, so a preference list has each node once |
| `RingProperties.ReplicasCorrect` | internal/ring/ring.go:102-127 | min(rf, nodes) distinct ring nodes, the owner first, and the list for a smaller factor is a front part of that for a larger one |
| `RingProperties.OwnerIsFirst` | internal/ring/ring.go:89-100 | the owner of a key is the first node it prefers |
| `RingProperties.LapWithout` | internal/ring/ring.go:80-86 | searching and wrapping on the filtered array is filtering the lap of the original one |
| `RingProperties.PreferenceWithout` | internal/ring/ring.go:70-127 | minimal disruption: after a removal every key prefers the remaining nodes in the old order, whatever the hash ties |
| `RingProperties.ReplicasAfterRemove` | internal/ring/ring.go:70-127 | after a removal the surviving replicas of a key stay in front in their order, and a replica list without the node is unchanged |
| `RingProperties.WithoutIsRing` | internal/ring/ring.go:70-87 | the filtered arrays are a ring of the other nodes |
| `RingProperties.RingDetermined` | internal/ring/ring.go:23-87 | without a hash shared by two nodes, any two rings of one node set have the same arrays, however they came about |
| `RingProperties.ArrangementUnique` | internal/ring/ring.go:43-45 | the sorted array is unique if and only if no two nodes share a hash |
| `RingProperties.RemoveUndoesAdd` | internal/ring/ring.go:49-87 | removing a node that was added restores both arrays |
| `RingProperties.AddOnlyInserts` | internal/ring/ring.go:49-68 | adding a node only inserts it into preference lists; a key's owner stays or becomes the new node |
| `Quorum.Collect` | cmd/gateway/main.go:383-409 | the loop that stops early reaches the verdict of waiting for every replica, for every order of arrival |
| `Quorum.Send` | cmd/gateway/main.go:372-410 | one attempt, by a single post or by fan-out, yields the primary's status and whether enough replicas acknowledged; an empty ring panics |
| `Quorum.PreferIdle` | cmd/gateway/main.go:355-362 | the first replica that is not overloaded changes places with the primary |
| `Quorum.IdleFirstPermutes` | cmd/gateway/main.go:355-362 | the change of places keeps the replicas the same and distinct, and puts an idle one in front whenever there is one |
| `Quorum.FindSuccessor` | cmd/gateway/main.go:439-445 | fail-over picks the first replica that is not the dead primary |
| `Quorum.HandleEvent` | cmd/gateway/main.go:354-467 | the answer to a write, with the retry, the fail-over search and its fallback each reading the ring for itself, is decided by one attempt and does not depend on the order in which replies arrive |
| `Quorum.SuccessIsQuorum` | cmd/gateway/main.go:354-467 | the gateway answers success if and only if in the deciding attempt at least w distinct replicas (one, when the primary replicates) acknowledged, the addressed primary among them |
| `GatewayAnswers.FirstAttemptAddresses` | cmd/gateway/main.go:354-372 | the first attempt posts to all replicas with the first idle one as primary, or to the first alone when primaries replicate |
| `GatewayAnswers.SecondAttemptAddresses` | cmd/gateway/main.go:424-451 | the second attempt addresses the first other node of the search exactly when primaries replicate, the primary is suspected, the epoch was bumped and there is such a node; otherwise the list read afresh |
| `GatewayAnswers.AnswerExact` | cmd/gateway/main.go:354-467 | the answer to every write, read off the lists and the replies: that of the first attempt, unless it fell short with its primary at 409 or silent; then that of the second |
| `GatewayAnswers.SuccessExact` | cmd/gateway/main.go:417-467 | success if and only if the first attempt had its quorum with the primary, or it fell short with its primary at 409 or silent and the second had a quorum with its own |
| `GatewayAnswers.RetrySucceeds` | cmd/gateway/main.go:419-452 | a concrete write whose first post fails and whose second is answered 201 |
| `Replication.WritesShareReplica` | cmd/gateway/main.go:354-467 | with a fixed ring and 2w > rf, any two writes to one key that were answered with success share a replica that acknowledged both |
| `Replication.TargetsExact` | cmd/node/main.go:271-279 | the primary posts to exactly the replicas other than itself that it believes alive, or all of them when it knows nothing about liveness, in the order of the list |
| `Replication.FanOutReplicate` | cmd/node/main.go:263-298 | the primary's fan-out, which stops early, succeeds if and only if at least w - 1 of the replicas other than itself that it believes alive acknowledge |
| `Replication.AwaitAcks` | cmd/node/main.go:287-297 | the waiting loop gives the verdict of waiting for everyone |
| `Primary.Primary.HandleEvent` | cmd/node/main.go:240-260 | one write at its primary: log and timeline afterwards, and the status, 200 for a duplicate, 201 for a fresh entry that is replicated, 503 otherwise, with the offset of the entry or of the zero entry |
| `Primary.Primary.HandleReplicate` | cmd/node/main.go:344-345 | a replicated write is applied like any other and answered 204, known or not |
| `Primary.AnswerExact` | cmd/node/main.go:240-260 | the answer to every event of a run, in both modes: 200 if and only if its id was accepted less than the TTL before; else 201, except that a primary that replicates says 503 when fewer than w - 1 live other replicas acknowledge |
| `Primary.CreatedMeansQuorum` | cmd/node/main.go:240-259 | in every run a 201 of the primary means a fresh entry with at least w distinct acknowledged copies, its own among them, the others on replicas of the key |
| `Primary.SuccessMeansStored` | cmd/node/main.go:240-245 | whenever a node answers 200, 201 or 204, its log has accepted the id with this submission or less than the TTL before, or had it from the start |
| `Primary.SuccessMeansCopiesExact` | cmd/node/main.go:240-260 | for every run of events and posted writes, every w and every replica lists: when an event is answered with success, the submission that stored its entry is found in the run, and the entry has at least w acknowledged copies if and only if the event is fresh or w - 1 nodes besides that submission's primary have it; for an event of this node, if and only if it was answered 201; for a posted write there are two at once, and w if and only if its primary heard from w - 1 targets, or would have but for this node's answer |
| `Primary.GatewayCreatedMeansQuorum` | cmd/gateway/main.go:354-467 | when primaries replicate, a success of the gateway is the status of the primary it ends with, and a 201 of the gateway means w acknowledged copies |
| `Primary.RetryHidesFailure` | cmd/node/main.go:241-245 | in every run with a clock that does not run back, after a stored event was answered 503 every later event with its id inside the TTL is refused by the log and answered 200, and the entry has fewer than w acknowledged copies |
| `Primary.DuplicateSkipsQuorum` | cmd/node/main.go:241-245 | a concrete run from an empty log: a repeated request after a failed fan-out is answered 200 with no acknowledged copy but the primary's |
| `Primary.FailOverKeepsTwoCopies` | cmd/node/main.go:316-346 | a concrete run from an empty log: an entry posted by a primary that then dies, and the repeated event answered 200 here with two copies |
| `Cluster.NextPlaces` | cmd/node/main.go:240-346 | every step of the cluster, an event, a post, an answer or a restart, keeps the logs holding exactly what was placed in them, and no node loses an entry |
| `Cluster.HoldersExact` | cmd/node/main.go:240-346 | over all runs with delayed, repeated and lost posts and answers and with restarts: the nodes whose logs hold an id are exactly the primaries that took it as new and the targets their posts have reached; every node that answered with success is among them |
| `Cluster.CreatedMeansLogs` | cmd/node/main.go:250-259 | over all runs, after a primary answered 201 at least w nodes hold the entry in their logs from there on, the primary among them |
| `Cluster.DuplicateMeansPlaced` | cmd/node/main.go:241-245 | over all runs a 200 means that the node holds the entry, and that two nodes do if it never took the id as new itself; it means w nodes if and only if the entry was placed on w |
| `Cluster.PostedTo` | cmd/node/main.go:271-286 | the post of a new write can reach exactly the live replicas other than its primary, and that of a duplicate nobody |
| `Cluster.PostIsHeard` | cmd/node/main.go:250-259 | a new write is answered 503 before and 201 after its one other replica was reached and heard, with w = 2 |
| `Cluster.RestartedNodeRemembers` | internal/log/log.go:67-80 | a node that starts again remembers exactly the ids whose first WAL record is within the TTL, in the mode it is started with, and its disk is as it was |
| `ScatterGather.Merge` | cmd/gateway/main.go:506-517 | the merge loop computes the owners' contributions, for every order of ranging over the reports |
| `ScatterGather.AddReport` | cmd/gateway/main.go:512-516 | one report adds exactly the keys its node owns |
| `ScatterGather.CountedOnce` | cmd/gateway/main.go:506-517 | the merged map holds a key if and only if its owner answered and reported it, with exactly the owner's count |
| `ScatterGather.UnownedNotCounted` | cmd/gateway/main.go:506-517 | a key whose owner was not asked is not in the result |
| `ScatterGather.OnlyOwnersMatter` | cmd/gateway/main.go:506-517 | the result for a key depends on its owner's report alone: neither the order of the nodes nor replica copies change it |
| `Epoch.BigEndianRoundTrip` | internal/epoch/epoch.go:49-52 | decoding the big-endian bytes of a number gives it back |
| `Epoch.PersistThenLoad` | internal/epoch/epoch.go:15-28 | loading a persisted epoch gives it back |
| `Epoch.Fencer.constructor` | internal/epoch/epoch.go:15-28 | a restarted fencer knows the epoch of the file; a missing or short file reads as zero |
| `Epoch.Fencer.Check` | internal/epoch/epoch.go:30-41 | an older epoch is refused with the one seen; an equal or newer one is accepted, and a newer one adopted and written out |
| `Epoch.EpochStore.constructor` | cmd/controlplane/main.go:21-34 | a restarted control plane holds the table of the file |
| `Epoch.EpochStore.Bump` | cmd/controlplane/main.go:61-68 | a bump raises one partition in memory and in the file and returns the new epoch |
| `FencingProperties.NextFenced` | cmd/node/main.go:178-192 | every step of the system, unless it is a crash of a node whose file is behind, keeps each node's last accepted epoch known and newest |
| `FencingProperties.AcceptedNeverDecrease` | internal/epoch/epoch.go:30-41 | over every run with crashes of any process and any messages, in which no node crashes while its file is behind what it knows, an epoch accepted by a node later is never older than one it accepted before |
| `FencingProperties.CrashForgets` | internal/epoch/epoch.go:49-55 | after every such run, a crash of a node makes it let an epoch older than its last accepted one through if and only if its file is behind |
| `FencingProperties.WritesMakeCrashesSafe` | internal/epoch/epoch.go:49-55 | if every write of an epoch file succeeds, no crash in the run finds a file behind |
| `FencingProperties.NextCovered` | cmd/gateway/main.go:47-57 | an orderly step keeps every epoch in gateways, pending stores, messages and nodes covered by the control plane's table, which is on disk, if and only if it is not a write past the gateways with an epoch that was never issued |
| `FencingProperties.RunCovered` | cmd/controlplane/main.go:61-68 | over all orderly runs, with delayed, repeated, reordered and lost messages and crashes, everything stays covered if and only if no such write comes |
| `FencingProperties.NextWithinDefault` | cmd/controlplane/main.go:170-177 | while every epoch is within the durable default epoch, an orderly step breaks that bound if and only if it is a reshard of another partition whose epoch gets past the default one, or a write past the gateways with such an epoch |
| `FencingProperties.DurableEpochBounds` | cmd/controlplane/main.go:233-249 | over all orderly runs, the durable default epoch bounds the epoch of every gateway, message and node all the way if and only if no step is of that kind |
| `FencingProperties.GatewayDrops` | cmd/gateway/main.go:269-271 | a step lowers the epoch of a gateway if and only if it stores an older epoch than the gateway has, or is a crash of a gateway that has one |
| `FencingProperties.GatewayNeverBackExact` | cmd/gateway/main.go:269-271 | over all runs, the epoch of a gateway never goes back if and only if no step of the run is of that kind |
| `FencingProperties.GatewayMayGoBack` | cmd/gateway/main.go:269-271 | an orderly run in which a gateway's epoch goes back, since load, compare and store are separate |
| `FencingProperties.PartitionsMix` | cmd/controlplane/main.go:170-177 | an orderly run with another partition in which a node gets ahead of the default epoch |
| `FencingProperties.LostPersistRegresses` | internal/epoch/epoch.go:49-55 | a run in which a node that cannot write its file accepts an older epoch after a crash |
| `FencingProperties.ConflictHeals` | cmd/gateway/main.go:311-318 | a gateway whose stale write is refused learns the node's epoch and gets through with it |
| `FencingProgress.StartedGatewayWrites` | cmd/gateway/main.go:136-142 | a gateway that starts with the answer to its poll holds the control plane's epoch of that moment, and its next write brings it to the node |
| `FencingProgress.StartedAlone` | cmd/gateway/main.go:136-142 | one that starts without the control plane has epoch zero and no store pending |
| `FencingProgress.BumpTakesEffect` | cmd/gateway/main.go:249-273 | after a bump the gateway that asked for it stores the new epoch, its next write brings the node there, and the table on disk has it |
| `FencingProgress.OlderIsRefused` | cmd/node/main.go:178-192 | a node refuses every write with an older epoch, keeps its state and tells the newer one |
| `FencingProgress.StaleReplyIgnored` | cmd/gateway/main.go:47-57 | a reply or refusal that names nothing newer leaves the gateway as it is |
| `FencingProgress.ReplicaHearsEpoch` | cmd/node/main.go:300-316 | a replicated write carries the epoch of the write it replicates |
| `FencingProgress.ReshardReachesNode` | cmd/controlplane/main.go:155-180 | a reshard raises the epoch of its partition and brings it to the node that loads it |
| `FencingProgress.BumpSurvivesExact` | cmd/controlplane/main.go:61-68 | a bump outlives a crash of the control plane if and only if the table was written out |
| `Membership.Member.constructor` | internal/membership/membership.go:122-129 | a new process knows itself and its seeds, all alive, the seeds without an address |
| `Membership.Member.MergeEvents` | internal/membership/membership.go:265-322 | merging a message is merging its events one after another, into table and queue |
| `Membership.Member.MergeEvent` | internal/membership/membership.go:267-321 | table and queue after one event, for every branch |
| `Membership.Member.DrainEvents` | internal/membership/membership.go:324-337 | a message carries the oldest four queued events, which leave the queue |
| `Membership.Member.HandleMsg` | internal/membership/membership.go:222-263 | what a message leaves behind, and the ack of a ping with the self join in front, whatever steps other goroutines take between its locked sections |
| `Membership.Member.ProbeFailed` | internal/membership/membership.go:396-402 | an unconfirmed probe turns an alive member into a suspect from that time on |
| `Membership.Member.CheckSuspects` | internal/membership/membership.go:413-425 | for some order of the table, exactly the suspects past the timeout die and their deaths are queued |
| `MembershipProperties.MessageIsSteps` | internal/membership/membership.go:222-263 | handling a message, with any steps of other goroutines in between, is a run of the single steps the properties speak about |
| `MembershipProperties.IncarnationDrops` | internal/membership/membership.go:272-302 | an incarnation drops if and only if a join with an older one fills in a missing HTTP address |
| `MembershipProperties.RevivalRaises` | internal/membership/membership.go:239-246 | a member that is down becomes alive only with a strictly higher incarnation, and a dead one never becomes a suspect |
| `MembershipProperties.SuspicionExact` | internal/membership/membership.go:392-402 | over every run, a member is a suspect since time t0 if and only if a probe at t0 found it alive in the table and unreachable, and no ack, newer join, news of its death or timeout has come since |
| `MembershipProperties.DeathExact` | internal/membership/membership.go:305-319 | over every run, a step declares a member dead if and only if it brings news of the death no older than what is known, or checks more than the timeout after an unconfirmed probe that nothing has refuted since; the death is then queued with the member's incarnation |
| `MembershipProperties.NewsIsRelayed` | internal/membership/membership.go:265-322 | after a whole message, every member it introduced or changed is queued with the incarnation now in the table, and a death it brought is queued as one |
| `Knowledge.KnownExact` | internal/membership/membership.go:271-279 | over every run a member is known if and only if it was at the start or a live join about it has come |
| `Knowledge.FirstJoinExact` | internal/membership/membership.go:273-302 | after every run the first live join about an unknown member leaves it alive with the join's HTTP address and incarnation, and is queued one hop shorter |
| `Knowledge.EntryExact` | internal/membership/membership.go:265-425 | status, suspicion time, HTTP address and incarnation of a known member after any step, including that steps about others change nothing |
| `Knowledge.QueueFifo` | internal/membership/membership.go:302-337 | over every run what messages took, followed by what is left, is what was queued at the start followed by all that was put in, each event with its TTL and incarnation |
| `Knowledge.AckCarries` | internal/membership/membership.go:229-237 | the answer to a ping carries the own join with both addresses, full TTL and present incarnation, and then exactly what leaves the queue |
| `Knowledge.TravelsTtlHops` | internal/membership/membership.go:265-302 | along any line of processes that do not know a member, the first TTL of them learn of it from one join, and no other does |
| `MembershipProperties.IncarnationMonotone` | internal/membership/membership.go:265-322 | over every run that does not fill in its address, a member's incarnation never decreases, and leaving death raises it |
| `MembershipProperties.UniformIsSettled` | internal/membership/membership.go:280-287 | two conditions on the joins of a run that keep the address-filling branch from being taken |
| `MembershipProperties.StaleGossipIgnored` | internal/membership/membership.go:288-292 | over every such run, gossip no newer than a member's death leaves the dead member exactly as it is |
| `MembershipProperties.ResurrectionExact` | internal/membership/membership.go:280-297 | over every run of gossip no newer than a member's death, the member comes back if and only if its HTTP address was unknown and, after the first join that names one, there is a join newer than that one |
| `MembershipProperties.UnsettledResurrects` | internal/membership/membership.go:280-297 | a concrete run from a new process in which stale gossip resurrects a dead seed |
| `Gossip.MergeLowers` | internal/membership/membership.go:265-322 | merging an event queues strictly less than the event could still cause |
| `Gossip.DrainKeeps` | internal/membership/membership.go:324-337 | draining moves what is still to come from the queue into the message, no more |
| `Gossip.ReceiveThenAnswer` | internal/membership/membership.go:222-237 | the two steps of a ping without anything in between are the handling of the message |
| `Gossip.ReceiveThenRefute` | internal/membership/membership.go:239-246 | so is the handling of an ack |
| `Gossip.AnnouncementIntroduces` | internal/membership/membership.go:138-142 | a process that announces itself is known, alive and with its HTTP address, where the announcement arrives |
| `Gossip.PingCarries` | internal/membership/membership.go:471-494 | a ping carries the oldest queued events, at most four, which leave the queue |
| `Gossip.SuspectDies` | internal/membership/membership.go:396-425 | a member that a probe found unreachable dies with the first check past the timeout, and its death is queued with a full TTL |
| `Gossip.NextBounded` | internal/membership/membership.go:222-427 | every step of the network, pings, acks, ping-reqs and relayed acks with their locked sections apart, keeps receipts and what is still to come within eleven times the originated events |
| `Gossip.GossipBounded` | internal/membership/membership.go:222-427 | over every run without packet duplication, at most eventTTL + 1 events are received for each event originated |
| `RateLimit.Bucket.constructor` | internal/ratelimit/ratelimit.go:16-23 | a new bucket is full |
| `RateLimit.Bucket.Allow` | internal/ratelimit/ratelimit.go:25-36 | verdict and tokens of one call |
| `RateLimit.Bucket.IsFull` | internal/ratelimit/ratelimit.go:38-45 | the fullness test, and the refill it causes |
| `RateLimit.TokensAreLeastHeadroom` | internal/ratelimit/ratelimit.go:25-36 | over every call sequence the tokens at a call are the least headroom burst + rate * elapsed - admissions over all earlier reference points |
| `RateLimit.AllowExact` | internal/ratelimit/ratelimit.go:25-36 | a call is refused if and only if admitting it would exceed burst + rate * elapsed admissions since some earlier call, the call itself or the creation |
| `RateLimit.WindowBound` | internal/ratelimit/ratelimit.go:25-36 | any stretch of calls of length T that admits anything admits at most burst + rate * T |
| `LimiterMap.LimiterMap.Allow` | internal/ratelimit/ratelimit.go:60-73 | a call meets the bucket of its key, made full if missing, and touches no other |
| `LimiterMap.LimiterMap.Sweep` | internal/ratelimit/ratelimit.go:75-87 | for every order and a clock reading per bucket, a sweep refills all buckets and deletes exactly the full ones |
| `LimiterMap.SweepUnobservable` | internal/ratelimit/ratelimit.go:60-87 | for every rate, burst and run in time order, every caller gets the answer it would get if no bucket were ever deleted |
| `LimiterMap.SweepLeavesExact` | internal/ratelimit/ratelimit.go:75-87 | over every run in time order a key has a bucket after a sweep if and only if it has been called and the bucket of its own calls is not full when the sweep comes to it |
| `LimiterMap.KeysIndependent` | internal/ratelimit/ratelimit.go:60-87 | end to end: a call is answered as the token bucket of its own key alone would, whatever the other keys and sweeps |
| `Breaker.Breaker.constructor` | internal/breaker/breaker.go:25-27 | a new breaker is closed without failures |
| `Breaker.Breaker.Allow` | internal/breaker/breaker.go:29-46 | verdict and state of one call |
| `Breaker.Breaker.Success` | internal/breaker/breaker.go:48-53 | a success closes the breaker and forgets failures |
| `Breaker.Breaker.Failure` | internal/breaker/breaker.go:55-64 | a failure counts, and opens the breaker at the threshold or after a probe |
| `Breaker.AdmissionsSpaced` | internal/breaker/breaker.go:29-64 | after the breaker opened and until a success, each admission is at least a cooldown after the opening and the one before it, whatever late failures arrive |
| `Breaker.AdmissionBound` | internal/breaker/breaker.go:29-64 | a stretch of length T from the opening admits at most T / cooldown calls |
| `Breaker.AdmissionBoundWithin` | internal/breaker/breaker.go:29-64 | any part of it of length T admits at most 1 + T / cooldown calls |
| `Breaker.SingleProbe` | internal/breaker/breaker.go:33-63 | an open breaker admits a call if and only if the cooldown is over, then exactly that one until it is answered; success reopens the way, failure starts a new cooldown |
| `Breaker.OpensAtThreshold` | internal/breaker/breaker.go:55-64 | a new breaker is closed until it has met threshold failures without a success in between, and opens with the failure that completes them |
| `Breaker.LateFailures` | internal/breaker/breaker.go:55-64 | failures that arrive while the breaker is open reopen it with each completed group of threshold of them, so the cooldown runs from the last of the last completed group |
| `Breaker.SuccessErases` | internal/breaker/breaker.go:48-53 | after a success, whenever it comes, the breaker admits exactly what a new one would |

## Left out

- EventLog.Log.Compact: writes snapshot and WAL in one step and takes every file operation to succeed; the disks that a crash inside it leaves are those of Recovery.CompactionCrashExact.
- EventLog.Log.Append: takes a written record as durable; the 100 ms sync window, torn or over-long WAL lines and failing writes are not modelled.
- EventLog.Log.constructor: records that do not parse and errors other than a missing file are not modelled; ids that a compaction dropped are forgotten at a restart, as in the original.
- LogProperties.RestartVerdictExact: speaks about logs without compactions; after one, ReopenRemembers still says what a restart refuses.
- EventLog.Log.Head: offsets are unbounded numbers; results that need it assume a head below 2^64, and only the subtraction in Compact wraps.
- Aggregate.Aggregate.Apply: the increment is unbounded, a count of 2^64 is out of reach; the decrement is modelled with its wrap-around and shown not to meet it.
- Aggregate.Aggregate.TopK: a negative topK, with which the original panics, is excluded by the type.
- Partition.Partition.constructor: the methods that follow it require counts that agree with the timeline, which a start from a snapshot with false counts does not give; every snapshot the model writes has true ones. A partition without data directory also reads a snapshot.json that happens to lie in the working directory, which is not modelled.
- Recovery.RecoveredCountsExact: assumes distinct retained ids; RestartCounts.RestartedCountsExact does not.
- Recovery.RunRecoverable: a restart inside a run meets distinct retained ids; RecoveredLogExact and RestartCounts.RestartedCountsExact say what any other restart, after such a run, loses.
- HashRing.HashRing.constructor: strings are compared by characters; the FNV hash and the quality of the distribution are not modelled.
- Quorum.HandleEvent: starts after admission and parsing; the statuses that count as success are the four the original checks, so a 2xx outside them, which no node sends, is not called a success.
- Quorum.SuccessIsQuorum: speaks about one request; a write answered 503 may still reach replicas later.
- Cluster.HoldersExact: speaks about nodes with a data directory and without compactions; an entry that a compaction moves into a snapshot leaves the log.
- Replication.WritesShareReplica: needs the same ring for both writes and both attempts; ring changes between writes can move the replicas.
- Primary.Primary.HandleEvent: starts at the partition, after the epoch check, shedding, parsing and the reshard gate, which may answer before it; one write at a time, since the batches of the loop leave the same state.
- Primary.SuccessMeansCopiesExact: speaks about entries stored in the run, since nothing is known of the fan-out of those the log started with; counts the copies that the storing submission accounts for, Cluster.HoldersExact all of them; takes the primary's address to be its own name on the ring.
- FencingProperties.AcceptedNeverDecrease: is about the epoch comparison on arrival; a write that passed it may be applied after a newer epoch was accepted, because the queue comes later.
- FencingProperties.RunCovered: assumes that the control plane's writes succeed and that its 64-bit counter does not wrap; so does DurableEpochBounds.
- Membership.Member.HandleMsg: `recv` puts the source address into an ack, so the `from` of a message is what it has become there; the channel of join and death notifications, the waiting for acks and the sockets are not part of this model; the choice of probe targets is an input.
- Gossip.GossipBounded: assumes that the network does not duplicate packets and that all processes run this code.
- RateLimit.AllowExact: uses reals, so floating-point rounding is not modelled.
- LimiterMap.LimiterMap.Allow: is one step; in the original a sweep may delete the bucket between lookup and use, and the call then spends from a bucket nobody else sees.
- Live reshard (internal/reshard and most of its handlers): only its epoch step is modelled; its status flags would add easy members.
- HTTP handlers, JSON, flags, health polling, overload hints, load shedding and goroutine start-up: plumbing around the modelled state changes.
- bench, demo, deploy and docs: load tests, scripts and infrastructure.
