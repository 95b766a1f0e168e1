# A verified model of p2panda's core protocols

p2panda is a toolkit for peer-to-peer applications on append-only logs. This project models the parts of it whose
guarantees span many calls, interleavings or network messages, and proves those guarantees in Dafny 4.11.
`dafny verify dfyconfig.toml` checks everything.

| file | what it models |
|---|---|
| `Orderer.dfy` | the in-memory causal orderer of the encryption crate |
| `SqliteOrderer.dfy`, `SqliteDrain.dfy`, `SqliteRuns.dfy`, `LeftBehind.dfy` | the persisted orderer of the stream and store crates, over its two SQL tables |
| `Graph.dfy`, `Bubbles.dfy`, `Resolver.dfy` | graph search, concurrency bubbles of the auth operation graph, and the resolver's pass over them |
| `Transactions.dfy`, `Forge.dfy`, `ForgeJobs.dfy` | transaction permits of the SQLite store as an interleaving of atomic steps, and log writers on top |
| `Logs.dfy`, `Cursor.dfy`, `Sync.dfy`, `SyncNetwork.dfy` | log heights, cursors, sync streams and sessions, and any number of nodes syncing |
| `Codec.dfy` | the length-prefixed framing codec under any fragmentation |
| `Dedup.dfy` | the deduplication ring buffer |
| `RandomWalk.dfy`, `PsiHash.dfy` | peer sampling and topic discovery |
| `KeyManager.dfy` | pre-keys and the ledger of one-time secrets |
| `Basics.dfy`, `Sequences.dfy` | shared types, and facts about sequences and finite sets used throughout |

## What was found

- The in-memory orderer needs no assumption about cycles: its recursion ends for any dependencies as long as every key
  always comes with the same dependency list, because each nested drain is for a key that became ready later.
- The persisted orderer is complete for every delivery order exactly if the dependency list of every item which can be
  released at all is reduced, that is without repetitions and without dependencies implied by others. The query which
  restores a waiting item's dependencies returns them once per key the item still waits for, while readiness compares a
  count of distinct rows with the length of that list. `SqliteRuns.Run` proves the one half. `LeftBehind.LeaveBehind`
  proves the other: it gives an order of the same deliveries which leaves an item behind in every run.
  `DeliverThree` is the smallest case: an item depending on a and b, then b depending on a, then a.
- Bubbles are linearly ordered, and split history, in any directed graph; acyclicity is only needed for the claim that
  predecessors and successors of an operation share nothing but the operation.
- A completed two-way sync session leaves both nodes with the union of what they offered under the topic, exactly if
  neither node held a log of the other without listing it and without learning a new entry of it: ingest associates a log
  with a topic only when it inserts. `UnlistedLog` names two nodes whose sessions always miss the union. Nodes which list
  every log they hold keep doing so and always reach it.
- Encoding panics exactly for messages between 2^32 bytes and a frame limit set above that, and a serializer which fails
  after it has measured the message leaves the length prefix in the buffer.
- Both discovery parties find the same topics exactly if no foreign topic's hash collides with one of the other party's
  topics, and then they have found the true intersection.
- A call of the walker keeps visited and unvisited nodes apart and does not yield the walker's own id exactly if the call
  carries no report about the walker itself before the first reset.
- One-time ids are unique exactly up to 2^64 of them, after which the counter starts over and the sanity check fails if
  the first id is still live. `remove_expired` also removes pre-keys which are not valid yet, although its documentation
  speaks of expired ones only.

## Model

| member | source | states |
|---|---|---|
| Orderer.Ready | p2panda-encryption/src/ordering.rs:102-106 | true exactly if every dependency is ready, repetitions included |
| Orderer.MarkPending | p2panda-encryption/src/ordering.rs:61-77 | the item is indexed under exactly its dependencies which are not ready, nothing else changes, and the returned flag is always false |
| Orderer.MarkReadyValid | p2panda-encryption/src/ordering.rs:50-59 | marking a key with met dependencies tells whether it is new, keeps the history duplicate-free and causal, the index sound and complete, and leaves only the key's dependents to be visited |
| Orderer.RemovePendingValid | p2panda-encryption/src/ordering.rs:94-100 | dropping the index entry of a ready key loses nothing, and tells whether there was one |
| Orderer.TakeValid | p2panda-encryption/src/ordering.rs:87-92 | taking hands out exactly the first of the queue, nothing only if it is empty, and keeps what was taken and what is queued one causal, duplicate-free history |
| Orderer.ProcessPending | p2panda-encryption/src/ordering.rs:108-135 | terminates without assuming acyclic dependencies; afterwards every received item whose dependencies are met is ready, except those an outer drain still has to visit, and the key's entry is gone |
| Orderer.MarkPendingValid | p2panda-encryption/src/ordering.rs:61-77 | buffering an item with a missing dependency keeps all invariants |
| Orderer.Process | p2panda-encryption/src/data_scheme/test_utils/ordering.rs:129-155 | the caller's step keeps all invariants and only appends to the queue |
| Orderer.Run | p2panda-encryption/src/ordering.rs:50-135 | after any run the ready set is the least closure of what was received, a received item is ready if and only if its dependencies are, what leaves the queue is duplicate-free with every item after all of its dependencies, and once there were as many takes as items after the last delivery exactly the ready set has left it |
| Orderer.ReadyIsLeastClosure | p2panda-encryption/src/ordering.rs:102-135 | a settled orderer holds exactly the least set closed under releasing received items |
| Orderer.RunInTwoOrders | p2panda-encryption/src/ordering.rs:102-135 | two runs which deliver the same items, in any order and with repetitions, end with the same ready set |
| Orderer.CompletePastIsReady | p2panda-encryption/src/ordering.rs:102-135 | an item whose whole acyclic past was received is ready |
| SqliteOrderer.SelectParents | p2panda-store/src/orderer/sqlite.rs:200-264 | the restored dependency list holds each parent once per matching row |
| SqliteOrderer.GetNextPending | p2panda-store/src/orderer/sqlite.rs:200-264 | returns exactly the children indexed under a key, each with its restored list |
| SqliteOrderer.MarkPending | p2panda-store/src/orderer/sqlite.rs:117-198 | adds exactly the product of missing and listed dependencies; the flag tells whether a row was new |
| SqliteOrderer.ReadySubmitted | p2panda-store/src/orderer/sqlite.rs:330-351 | counting recognises met dependencies of a submitted list exactly if the list has no repetition |
| SqliteOrderer.RestoredDeps | p2panda-store/src/orderer/sqlite.rs:200-264 | a restored list repeats every dependency as often as the child has index keys |
| SqliteOrderer.ReadyUniform | p2panda-store/src/orderer/sqlite.rs:330-351 | counting recognises met dependencies of a repeated list exactly if nothing is repeated |
| SqliteDrain.ProcessPending | p2panda-stream/src/orderer/orderer.rs:112-136 | terminates, keeps the tables' invariants, queues what becomes ready in that order, and if the lists of all items which can be released are reduced settles everything the key releases |
| SqliteRuns.Process | p2panda-stream/src/orderer/orderer.rs:94-109 | keeps the invariants; the answer is true exactly for duplicate-free lists of ready dependencies, such an item is queued even if it was taken before, and whatever is released was indexed under no other key |
| SqliteRuns.Run | p2panda-stream/src/orderer/orderer.rs:89-136 | after any run the tables keep their invariants and come from the last step as `SqliteRuns.Process` describes it, the ready table is causal and duplicate-free, what was taken and what is queued are exactly the ready ids with each one after all of its dependencies, if the lists of all items which can be released are reduced the ready table is the least closure of what was received, and once there were as many takes as items after the last delivery all ready ids have left the queue |
| LeftBehind.LeaveBehind | p2panda-stream/src/orderer/orderer.rs:89-136 | for received items with a list which is not reduced, although its item can be released, there is an order of exactly these deliveries no run of which ends with the item ready or with the least closure |
| LeftBehind.LastLeavesBehind | p2panda-stream/src/orderer/orderer.rs:89-136 | whatever the tables are after a run which delivers the repeated or implied item last, the item which lists it is not ready although it can be released |
| LeftBehind.ReleasedIsClosure | p2panda-stream/src/orderer/orderer.rs:94-136 | the items which can be released in some order are exactly those in every closed set, so the least closure |
| LeftBehind.ViolationExists | p2panda-stream/src/orderer/orderer.rs:94-136 | whenever the condition of completeness fails there is an item and a last delivery for which this happens |
| LeftBehind.ImpliedLeftBehind | p2panda-stream/src/orderer/orderer.rs:112-136 | an item which lists a dependency implied by another one is not released when the implied one arrives last |
| LeftBehind.DeliverThree | p2panda-stream/src/orderer/orderer.rs:94-136 | after every run of three concrete deliveries an item is left behind although everything below it was received |
| SqliteRuns.QueuedTake | p2panda-store/src/orderer/sqlite.rs:266-308 | taking hands out exactly the first id of the queue, nothing only if it is empty, and leaves both tables otherwise alone |
| SqliteRuns.QueuedMark | p2panda-store/src/orderer/sqlite.rs:22-115 | marking an id with ready dependencies, new or again, queues it and tells whether it had to, and keeps the queue duplicate-free and in dependency order |
| Graph.Dfs | p2panda-auth/src/graph.rs:63-76 | visits exactly the reachable nodes, each once |
| Graph.ReachesReversed | p2panda-auth/src/graph.rs:70-76 | reachability in the reversed graph is reachability backwards |
| Graph.HasPath | p2panda-auth/src/graph.rs:117-122 | true exactly if the nodes differ and one reaches the other |
| Graph.IsConcurrent | p2panda-auth/src/graph.rs:127-132 | true exactly if neither node reaches the other |
| Bubbles.ConcurrentOperations | p2panda-auth/src/graph.rs:59-82 | exactly the operations which are neither predecessors nor successors |
| Bubbles.ConcurrentBubble | p2panda-auth/src/graph.rs:13-33 | terminates and collects only operations entangled with the target, all of whose concurrent operations are processed |
| Bubbles.CollectedIsComponent | p2panda-auth/src/graph.rs:13-33 | from a closed processed set the collected bubble is the whole component of its target |
| Bubbles.ConcurrentBubbles | p2panda-auth/src/graph.rs:36-53 | exactly the connected components of at least two operations of the concurrency relation, each once |
| Bubbles.BubblesInTwoOrders | p2panda-auth/src/graph.rs:36-53 | for every node iteration order the result is exactly the bubbles of the graph, each once, and these are the same sets |
| Bubbles.BubblesDisjoint | p2panda-auth/src/graph.rs:36-53 | different bubbles share no operation |
| Bubbles.BubbleSplitsHistory | p2panda-auth/src/graph.rs:36-82 | an operation outside a bubble comes strictly before all of it or strictly after all of it, never both |
| Bubbles.BubblesLinear | p2panda-auth/src/graph.rs:36-82 | of two different bubbles exactly one lies strictly before the other |
| Bubbles.BeforeTransitive | p2panda-auth/src/graph.rs:36-82 | the order of bubbles is transitive |
| Bubbles.SplitBubble | p2panda-auth/src/graph.rs:85-112 | the three parts are exactly the bubble's concurrent operations, all predecessors and all successors |
| Bubbles.SplitComplete | p2panda-auth/src/graph.rs:85-112 | for a bubble and one of its operations the concurrent part equals all operations concurrent with it in the whole graph, the parts cover the bubble, and predecessors and successors share only the target |
| Resolver.Topo | p2panda-auth/src/group/resolver.rs:86-87 | the topological visit lists every node once, after its dependencies |
| Resolver.Process | p2panda-auth/src/group/resolver.rs:74-104 | every operation is applied exactly once and after everything it depends on, and every bubble is applied as one uninterrupted block |
| Resolver.PassBubble | p2panda-auth/src/group/resolver.rs:119-153 | applying a whole bubble at once keeps the applied operations in dependency order |
| Resolver.BubbleUnblocked | p2panda-auth/src/group/resolver.rs:86-101 | when the first operation of a bubble comes up, everything outside which any of its operations depends on was applied |
| Transactions.InvPreserved | p2panda-store/src/sqlite.rs:290-435 | every step of any process or task keeps one permit, an owned slot and an owned lock, and reaches no assertion or panic |
| Transactions.Alone | p2panda-store/src/sqlite.rs:330-335 | whoever holds the permit, a process or a rollback task, holds it alone |
| Transactions.Reachable | p2panda-store/src/sqlite.rs:326-385 | in every reachable state at most one permit is out, a filled slot belongs to it, and the assertion in begin and the panics in commit and rollback were not reached |
| Transactions.Atomicity | p2panda-store/src/sqlite.rs:326-385 | in every interleaving the database is the fold of the committed transactions in commit order, each with all its writes |
| Transactions.NoTraceWithoutCommit | p2panda-store/src/sqlite.rs:355-367 | as long as nobody commits the database does not change, however transactions end |
| Transactions.TaskExcludes | p2panda-store/src/sqlite.rs:418-435 | while a rollback task is pending nobody acquires the permit or begins; no step both takes the transaction and frees the permit, so with a transaction to roll back only the end of the rollback does |
| Transactions.RollbackBeforeBegin | p2panda-store/src/sqlite.rs:418-435 | between dropping a permit and the next begin lies the end of the rollback task, and if there was a transaction the end of its rollback |
| Transactions.PanicsExactly | p2panda-store/src/sqlite.rs:343-377 | the assertion fails exactly on a filled slot and commit and rollback panic exactly on an empty one, so that not reaching them says something |
| Transactions.QueryFindsTransaction | p2panda-store/src/sqlite.rs:290-299 | a query finds a transaction exactly if there is one, which is always so for whoever holds a permit |
| Transactions.DroppedAnywhere | p2panda-store/src/sqlite.rs:418-435 | a process can be dropped at any point; once it has its transaction permit this spawns a task, which has something to roll back exactly if the transaction was still in the slot |
| Transactions.PermitComesBack | p2panda-store/src/sqlite.rs:326-435 | no deadlock: from every state with the invariant at most three steps, none of them a commit, lead to an idle store with the same database |
| Transactions.WholeTransaction | p2panda-store/src/sqlite.rs:290-385 | any process can begin, make any writes and end its transaction, after which the store is idle with exactly these writes committed, or none of them |
| Forge.GapFree | p2panda/src/forge.rs:74-90 | a fork-free log holds every sequence number up to its highest |
| Forge.InsertForkFree | p2panda/src/forge.rs:75-106 | inserting an entry which continues the log keeps it free of forks and gaps, for any hash function |
| Forge.PlanIsOk | p2panda/src/forge.rs:75-106 | the header built from the latest entry continues the log below the sequence number limit |
| Forge.WritesIffContinues | p2panda-stream/src/ingest/operation.rs:80-194 | a created operation is always written, a received one exactly if it is not stored yet and continues its log |
| Forge.WriteOk | p2panda-stream/src/ingest/operation.rs:142-194 | each planned write keeps the logs fork-free and the rest of the plan valid |
| Forge.InvPreserved | p2panda-store/src/macros.rs:18-26 | every step of any number of writers, including failures at any point, keeps logs and open transactions fork-free |
| Forge.LogsStayForkFree | p2panda/src/forge.rs:58-120 | in every interleaving of creating and ingesting writers every committed log has no forks, no gaps and correct backlinks |
| Forge.CommitsWholeJobs | p2panda/src/forge.rs:74-117 | in every run each commit changes the database by exactly one job, its entry together with the association of its log with the topic, and no other step changes it |
| Forge.PlanApplied | p2panda-stream/src/ingest/operation.rs:178-191 | applying all writes of a job adds one entry for its author and log, and the association exactly if there is a topic |
| ForgeJobs.UndisturbedJob | p2panda/src/forge.rs:58-120 | below the sequence number limit a job which nobody disturbs gets through whoever else waits: a created operation ends up at the end of its log, unless its hash is taken, a received one exactly if it is new and continues its log, otherwise the database is unchanged and the permit is back |
| ForgeJobs.FailsAnywhere | p2panda-store/src/sqlite.rs:355-435 | wherever a process is in its transaction its query or commit can fail and it can be dropped, so the guarantees above are about all of that |
| Logs.DiffExact | p2panda-core/src/logs.rs:69-121 | the ranges denote exactly the local entries missing at the remote, and none of them is empty |
| Logs.CompareLogs | p2panda-core/src/logs.rs:94-117 | the inner loop enters exactly the logs which are missing or behind, and the author only if there are any |
| Logs.Compare | p2panda-core/src/logs.rs:69-121 | returns the diff of both height maps; an unknown author is listed even without logs |
| Logs.HeightsEqual | p2panda-core/src/logs.rs:69-121 | heights with the same authors and entries are the same map |
| Cursor.StateVector.LogHeight | p2panda-core/src/cursor.rs:42-44 | the height of a log tells which of its entries the cursor has |
| Cursor.StateVector.Compare | p2panda-core/src/cursor.rs:47-49 | the ranges the cursor misses to reach the other heights |
| Cursor.StateVector.Advance | p2panda-core/src/cursor.rs:52-64 | adds exactly the entries up to the given height and never moves back |
| Cursor.AdvancedByDenotes | p2panda-core/src/cursor.rs:52-64 | a run of moves denotes the union of the start and everything moved to |
| Cursor.AdvanceOrderIrrelevant | p2panda-core/src/cursor.rs:52-64 | any order and repetition of the same moves gives the same state |
| Cursor.CatchUp | p2panda-core/src/cursor.rs:47-64 | advancing to the end of every missing range reaches the join, after which no range is left |
| Sync.GetLogHeights | p2panda-store/src/logs/sqlite/mod.rs:121-163 | the highest entry of each listed log of an author, or none if there is no entry |
| Sync.LogHeights | p2panda-sync/src/api.rs:18-35 | heights of exactly the listed logs, or the error of a failing query |
| Sync.HeightsDenote | p2panda-sync/src/api.rs:18-35 | in a gap-free store the heights denote exactly its entries |
| Sync.SliceExact | p2panda-store/src/logs/sqlite/mod.rs:35-53 | exactly the stored entries of a log within the bounds, in ascending order |
| Sync.LogEntriesExact | p2panda-store/src/logs/sqlite/mod.rs:35-53 | exactly the stored entries after the exclusive start and up to the inclusive end, either of which may be open, in ascending order |
| Sync.Flatten | p2panda-sync/src/api.rs:49-54 | lists every range once, whatever the iteration order |
| Sync.StreamCutOff | p2panda-sync/src/api.rs:58-75 | the stream is all entries of the ranges, or a prefix of them followed by one error and nothing else |
| Sync.BreaksFirst | p2panda-sync/src/api.rs:49-75 | before the error come exactly the entries of the ranges before the first broken one and those it got to itself |
| Sync.LogRanges | p2panda-sync/src/api.rs:41-78 | such a stream, with an error exactly if the query of some range breaks |
| Sync.EnumeratesAsked | p2panda-core/src/logs.rs:69-121 | the ranges queried for an answer are exactly those from what was announced of a log to the top of what is offered, where that is higher |
| Sync.AnswerExact | p2panda-sync/examples/sync_w_live_mode.rs:106-116 | the answer to an announcement holds exactly the sender's listed entries which were not announced |
| Sync.AnswerDeliverable | p2panda-sync/examples/sync_w_live_mode.rs:106-116 | every prefix of the answer can be ingested by whoever still has what was announced |
| Sync.IngestGapFree | p2panda-stream/src/ingest/operation.rs:79-194 | ingest accepts exactly what keeps a gap-free store gap-free |
| Sync.ProcessAnnouncement | p2panda-sync/examples/sync_w_live_mode.rs:106-116 | the stream is deliverable, holds nothing but listed entries, and without an error completes the receiver to the union |
| Sync.Receive | p2panda-sync/examples/sync_w_live_mode.rs:180-191 | everything received is ingested without rejection, and exactly the logs with a new entry become associated |
| Sync.Session | p2panda-sync/examples/sync_w_live_mode.rs:145-217 | both stores stay gap-free and within the union even if any of the queries or streams fails; it completes exactly if no asked query fails and no asked range breaks, and then both sides are updated by all the other offered |
| Sync.SessionConverges | p2panda-sync/examples/sync_w_live_mode.rs:145-217 | both sides offer the union afterwards if and only if every offered log was already listed or brought something new |
| Sync.SessionReachesMaximum | p2panda-sync/examples/sync_w_live_mode.rs:145-217 | both sides then announce the pointwise maximum of their former heights |
| Sync.UnlistedLog | p2panda-stream/src/ingest/operation.rs:79-90 | two nodes which no completed session makes offer the same, because one holds the log without listing it |
| Sync.ListingNodesConverge | p2panda-sync/examples/sync_w_live_mode.rs:119-217 | nodes which list every log they hold keep doing so and always end a completed session with the union of their entries |
| SyncNetwork.InvPreserved | p2panda-sync/src/api.rs:41-78 | every step of any number of nodes keeps stores gap-free, announcements true and streams deliverable, and no ingest is rejected |
| SyncNetwork.RunSafe | p2panda-sync/examples/sync_w_live_mode.rs:145-217 | this holds in every state of every run, with stale announcements and cut-off streams |
| SyncNetwork.DeliveredAnswer | p2panda-sync/examples/sync_w_live_mode.rs:145-217 | once a complete answer has been delivered its receiver holds everything the sender offered when answering |
| SyncNetwork.IngestUpdates | p2panda-stream/src/ingest/operation.rs:79-194 | an accepted entry is inserted and its log associated exactly if the entry is new |
| SyncNetwork.ListsAllStays | p2panda-stream/src/ingest/operation.rs:79-194 | in every run a node which lists every log it holds does so ever after |
| SyncNetwork.CanPublish | p2panda/src/forge.rs:58-120 | a node can always publish the next entry of a log, or associate a log, and then offers it |
| SyncNetwork.StreamEnds | p2panda-sync/src/api.rs:58-75 | a stream can be given up at any time without touching anything else, and an entry which cannot be ingested does not go unnoticed |
| SyncNetwork.StreamArrives | p2panda-sync/examples/sync_w_live_mode.rs:180-191 | a stream which is not cut off can be delivered to its end and brings exactly its entries |
| SyncNetwork.CanCatchUp | p2panda-sync/examples/sync_w_live_mode.rs:145-217 | from every state with the invariant any node can announce, be answered by any other and end with exactly what that one offered added |
| Codec.LengthRoundTrip | p2panda-net/src/codec.rs:79 | the four prefix bytes of a length are read as that length |
| Codec.BytesRoundTrip | p2panda-net/src/codec.rs:106-107 | any four bytes are the prefix of the length they are read as |
| Codec.BigEndian | p2panda-net/src/codec.rs:79-107 | the place value of each prefix byte, in both directions |
| Codec.Encode | p2panda-net/src/codec.rs:67-89 | appends the measured length and what the serializer writes exactly if the length passes the checks, also when writing fails halfway, with the exact condition of every error and of the panic |
| Codec.Decode | p2panda-net/src/codec.rs:99-121 | takes the first frame's item from the front and consumes nothing in all other cases |
| Codec.FirstMeaning | p2panda-net/src/codec.rs:99-121 | what decode answers in terms of frames: a whole frame, one which fails to decode, fewer than four bytes or a proper prefix of an allowed frame, or a length above the limit |
| Codec.ParseConcat | p2panda-net/src/codec.rs:99-121 | decoding in two goes is decoding at once, for arbitrary bytes |
| Codec.FramedRead.Read | p2panda-net/src/codec.rs:126-134 | repeated decoding after a read yields all items of the buffered bytes and keeps the rest |
| Codec.ReadAll | p2panda-net/src/codec.rs:99-121 | every way of cutting a byte stream, valid or not, into chunks yields the items of the whole stream |
| Codec.EncodedParse | p2panda-net/src/codec.rs:67-121 | encoded messages decode to themselves with nothing left |
| Codec.EncodedPrefix | p2panda-net/src/codec.rs:113-115 | of a part of the stream only whole messages are decoded, in order and without error |
| Codec.WriteAll | p2panda-net/src/codec.rs:67-89 | succeeds exactly if all messages fit, and then appends their frames in order |
| Codec.ReceiveAll | p2panda-net/src/codec.rs:67-121 | messages within the limit arrive unchanged and in order for every fragmentation, leaving an empty buffer |
| Dedup.DeduplicationBuffer.constructor | p2panda-sync/src/dedup.rs:31-36 | an empty buffer of any capacity; one of none remembers as many items as its queue holds once it has grown |
| Dedup.DeduplicationBuffer.Insert | p2panda-sync/src/dedup.rs:44-61 | set and queue stay equal, duplicate-free and the window over the accepted items; an item is added exactly if it is not in the window |
| Dedup.DeduplicationBuffer.Contains | p2panda-sync/src/dedup.rs:64-66 | true exactly for items in the window |
| Dedup.InsertAll | p2panda-sync/src/dedup.rs:44-61 | the answers of a whole run of inserts, for every capacity |
| Dedup.RefusedWhileRecent | p2panda-sync/src/dedup.rs:44-61 | an item is refused exactly while fewer items than the capacity were accepted since it was |
| Dedup.RepeatsAreFar | p2panda-sync/src/dedup.rs:44-61 | two acceptances of the same item are more than the capacity apart |
| RandomWalk.RandomWalker.Reset | p2panda-discovery/src/random_walk.rs:94-115 | all known nodes but ourselves are unvisited again, leftovers included, unless the store fails |
| RandomWalk.RandomWalker.RandomBootstrapNode | p2panda-discovery/src/random_walk.rs:118-159 | what the first decisive answer of the store leads to: a bootstrap node other than ourselves, any unvisited node, nothing, or an error |
| RandomWalk.BootstrapMeaning | p2panda-discovery/src/random_walk.rs:118-159 | a node is a drawn one other than ourselves or an unvisited one; none means that we are the only bootstrap node or nobody is unvisited |
| RandomWalk.RandomWalker.MergePrevious | p2panda-discovery/src/random_walk.rs:172-180 | exactly the reported nodes which were not visited are added |
| RandomWalk.RandomWalker.MarkVisited | p2panda-discovery/src/random_walk.rs:183-187 | the node moves to the visited ones |
| RandomWalk.RandomWalker.NextNode | p2panda-discovery/src/random_walk.rs:199-236 | which results are possible, and the whole new state as a function of the old one, the call and the result |
| RandomWalk.CallIsClean | p2panda-discovery/src/random_walk.rs:199-236 | visited and unvisited stay disjoint and our id is neither yielded nor unvisited, if and only if we were not reported before being marked as visited |
| RandomWalk.ReportedBeforeBegin | p2panda-discovery/src/random_walk.rs:199-236 | if the first call carries a report about ourselves and does not start over we can be yielded, and are if the report names nobody else |
| RandomWalk.StartsOver | p2panda-discovery/src/random_walk.rs:199-236 | without a report, with nothing left or by chance the walk starts over, with nothing visited but ourselves and the node yielded; otherwise an unvisited node joins the visited ones |
| RandomWalk.YieldedOncePerRound | p2panda-discovery/src/random_walk.rs:199-236 | between two times the same node is yielded the walk has started over |
| RandomWalk.RoundCovered | p2panda-discovery/src/random_walk.rs:199-236 | when a call finds nothing left the visited nodes are exactly those on a path from the start of the round through the reports made since |
| RandomWalk.KnownReporters | p2panda-discovery/src/random_walk.rs:94-187 | if all these reports come from known nodes the start is ourselves, what was left over, the known nodes and the bootstrap node |
| RandomWalk.SplitFlat | p2panda-discovery/src/random_walk.rs:199-236 | the rounds joined together are all nodes yielded, in order |
| RandomWalk.SplitCount | p2panda-discovery/src/random_walk.rs:199-236 | there are as many rounds as the walk has started over |
| RandomWalk.RoundsAreFresh | p2panda-discovery/src/random_walk.rs:199-236 | the nodes of each round are distinct, never ourselves, and the last round's are what was visited |
| RandomWalk.ReachIsPaths | p2panda-discovery/src/random_walk.rs:172-187 | the least set closed under reports is the set of nodes on a path |
| RandomWalk.Walk | p2panda-discovery/src/random_walk.rs:199-236 | a walk follows the calls until the first store error; its rounds are the yielded nodes split exactly where the walk starts over, each without repetition and without ourselves, and every round found exhausted has covered what its reports reach |
| PsiHash.Hashed | p2panda-discovery/src/psi_hash.rs:330-339 | the hashes sent are exactly those of the own topics |
| PsiHash.ComputeIntersection | p2panda-discovery/src/psi_hash.rs:314-327 | exactly the local topics whose hash is among the remote ones |
| PsiHash.CombineSalt | p2panda-discovery/src/psi_hash.rs:363-369 | both halves followed by the byte of the direction |
| PsiHash.SaltInjective | p2panda-discovery/src/psi_hash.rs:357-369 | different halves or directions never share a salt |
| PsiHash.SaltLayout | p2panda-discovery/src/psi_hash.rs:363-369 | 32 bytes of each half in this order, then 0 for Alice's direction and 1 for Bob's |
| PsiHash.ReplayFindsNothing | p2panda-discovery/src/psi_hash.rs:357-369 | a party which gets its own hashes back, whatever half comes with them, finds nothing, if hashes under different salts never meet |
| PsiHash.MatchingIsCommon | p2panda-discovery/src/psi_hash.rs:314-327 | matching hashes always finds the common topics, and nothing else if and only if no foreign topic collides |
| PsiHash.RunAlice | p2panda-discovery/src/psi_hash.rs:168-241 | against any stream the initiator ends with a result exactly for the two expected messages in order, with an error otherwise, and sends what its steps say |
| PsiHash.RunBob | p2panda-discovery/src/psi_hash.rs:243-310 | against any stream the accepter ends with a result exactly for the three expected messages in order, with an error otherwise, and sends what its steps say |
| PsiHash.RunSafe | p2panda-discovery/src/psi_hash.rs:168-310 | every run with faults at any point has at most six moves, never deadlocks, and whoever succeeds has the matching topics and the other's nodes |
| PsiHash.RunWithoutFaults | p2panda-discovery/src/psi_hash.rs:168-310 | without faults every run goes on until both parties have succeeded after six moves |
| PsiHash.Agreement | p2panda-discovery/src/psi_hash.rs:168-369 | both parties have the same topics if and only if there is no collision in either direction, and then they have the true intersection |
| KeyManager.ValidInside | p2panda-encryption/src/key_bundle/lifetime.rs:44-58 | a lifetime is valid strictly between its ends, at neither of them, and never without a clock |
| KeyManager.LatestPreKey | p2panda-encryption/src/key_bundle/prekey.rs:78-121 | a valid pre-key which no valid one outlives, the first of several, or none if none is valid |
| KeyManager.Latest | p2panda-encryption/src/key_manager.rs:60-69 | the stored bundle of that pre-key; its lookup cannot fail |
| KeyManager.UsableAfterExpiry | p2panda-encryption/src/key_manager.rs:188-226 | after removing expired keys a pre-key secret is found exactly if it was stored and is valid, a one-time secret exactly if it was live and its pre-key is valid, and it is the one issued under that id |
| KeyManager.IssuedAndUsed | p2panda-encryption/src/key_manager.rs:229-301 | after rotating in a pre-key which expires last, a one-time bundle can be issued for it, its secret is handed out under that id once, and it survives a removal at that time |
| KeyManager.PreKeysHeld | p2panda-encryption/src/key_manager.rs:188-301 | in every run the bundle and secret found under a pre-key are those of the last one rotated in under it, until a removal finds it not valid |
| KeyManager.RotatedStays | p2panda-encryption/src/key_manager.rs:218-237 | the secret of a rotated pre-key is found as long as nothing is rotated in under the same key and every removal finds it valid |
| KeyManager.ExpiryKeepsLatest | p2panda-encryption/src/key_manager.rs:92-99 | removing expired keys does not change which pre-key is the latest |
| KeyManager.RotatedIsLatest | p2panda-encryption/src/key_manager.rs:229-237 | a rotated pre-key which is valid and expires last is the latest, and all others stay |
| KeyManager.GenerateOneTimeBundle | p2panda-encryption/src/key_manager.rs:251-284 | issues the next id for the latest pre-key, or reports exactly which check failed |
| KeyManager.Starts | p2panda-encryption/src/key_manager.rs:141-168 | a new manager holds exactly the given pre-keys, and its books are in order |
| KeyManager.ExpireKeeps | p2panda-encryption/src/key_manager.rs:188-200 | removing expired keys only moves ids from live to expired, and live secrets still refer to stored pre-keys |
| KeyManager.UseKeeps | p2panda-encryption/src/key_manager.rs:293-301 | using a secret moves its id from live to used and hands out the secret issued under that id |
| KeyManager.InvPreserved | p2panda-encryption/src/key_manager.rs:188-301 | every operation keeps issued ids split into live, used and expired ones |
| KeyManager.RunAccounted | p2panda-encryption/src/key_manager.rs:141-301 | this holds after every run from an initial state |
| KeyManager.NextIdFresh | p2panda-encryption/src/key_manager.rs:263-281 | the next id is fresh exactly until 2^64 ids were issued, and the sanity check fails exactly if then the first id is still live |
| KeyManager.IssuedOnce | p2panda-encryption/src/key_manager.rs:251-284 | no id is issued twice |
| KeyManager.HandedOutOnce | p2panda-encryption/src/key_manager.rs:293-301 | an id which was used or has expired is refused ever after |

## Left out

- The group state which the auth resolver computes, its strong-remove filter and its authority graphs: `Resolver.Process` shows in which order operations are applied, not what applying them does.
- Resolver.Topo: stands for the library's topological visit and requires an acyclic graph, which the operation graph is by construction.
- Spaces, message and data encryption schemes, signatures, hashing and serialisation: hash functions, payload encodings and random values are parameters, with the assumptions stated where they are needed.
- The membership guards of the auth crate: each is settled by reading one branch.
- The comparison of conditioned access levels, which is not a lawful order: it is not modelled.
- Forge.LogsStayForkFree: holds while sequence numbers stay below 2^32; a log at the limit would wrap or panic. Pruning flags and the out-of-order buffer of ingest are not modelled, and the two queries before a write are one step, between which nobody else can write.
- Transactions: queries which bypass the transaction, and the library's behaviour when a commit fails, beyond "nothing was written".
- Sync.Session: live mode after a session, where operations are sent without an announcement, is not modelled; streams are read from the store as it was when they were created, which makes no difference because ranges are bounded and logs only grow.
- Sync: an entry is identified by author, log and sequence number, so two nodes never hold different entries under the same identity; `Forge.LogsStayForkFree` is about that.
- Codec.Encode: lengths are mathematical integers, so an address space smaller than a frame is not modelled.
- Codec.FramedRead.Read: the treatment of bytes left at the end of a stream is the library's.
- Dedup.DeduplicationBuffer.constructor: how large a queue without room becomes when it grows is a parameter, and larger allocations than requested are a larger capacity.
- RandomWalk.RandomWalker.RandomBootstrapNode: works on a finite list of draws, so the probability with which sampling ends, and reset probabilities, are not modelled.
- RandomWalk.Walk: starts with a call without a previous report; `RandomWalk.CallIsClean` says when the guarantees hold without that.
- PsiHash: which nodes are shared is a parameter; errors of the local topics or the store are faults which can occur at any time.
- KeyManager: one clock reading per call; signatures and public keys of bundles are not modelled.
- Hybrid timestamps, transport infos, watchers, networking, SQL migrations, builders and examples other than the sync session: small state or input and output.
