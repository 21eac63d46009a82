# A verified model of SOPMQ

SOPMQ is a replicated message queue. A client publish goes to a quorum of the three replicas of
its queue. Each replica enqueues the message, bumps its own clock and replies with its view of
the three replica clocks. The coordinator stamps the message with the component-wise maximum of
two replies, and every replica orders its queue by a majority comparison of stamps. This project
models that protocol and the data structures under it in Dafny and proves what they promise.
`dafny verify dfyconfig.toml` checks all of it.

| file | what it models |
|---|---|
| `Clocks.dfy` | one node's (generation, clock) order, vector clocks, their maximum and majority comparison |
| `Quorum.dfy` | `quorum_logic<RF, Context>` as a step system and as the re-entrant class |
| `Ring.dfy` | the consistent-hashing ring: lookup, adding a node, the quorum of an operation |
| `MessageQueue.dfy`, `QueueRuns.dfy` | `message_queue` as a value, and every run of its operations |
| `QueueOrder.dfy` | the order and the contents of the queue in every run |
| `QueueTimes.dfy` | times, expiry, index and byte count, from the operations of the run |
| `QueueManager.dfy` | the `message_queue` class and `queue_manager`, proved against those values |
| `Publish.dfy` | the publish protocol as a step system over nodes, coordinators and queues |
| `PublishCoordinators.dfy` | what every step keeps at the coordinators |
| `PublishLocal.dfy` | every queue of every replica is a run of one message queue |
| `PublishHistory.dfy` | what calls, clocks, views and replies are, from the actions of the run |
| `PublishOrder.dfy` | what every step keeps of the clocks, and the order of stamps |
| `PublishQueues.dfy` | what the replicas list, and in which order |
| `PublishSteps.dfy` | the steps of one publish, as continuations of a run |
| `PublishProgress.dfy` | which publishes can still be stamped |
| `PublishLimits.dfy` | runs in which stamps tie, form a cycle, or follow a restart that goes back |
| `LocalNode.dfy` | the publish step of a replica on its own objects |
| `Bits.dfy`, `UInt128.dfy`, `Radix.dfy` | 128-bit arithmetic on two halves, parsing and printing |
| `Framing.dfy` | the length-prefixed wire format and its incremental reader |
| `Regex.dfy`, `Filter.dfy` | the simple regex matcher, test filter and sharding of the bundled test framework |

The main results:

- **Stamp order.** In every run in which no node's own clock goes back, whichever quorums answered and
  whatever failed, restarted or interleaved, a publish stamped before another one of its queue was
  first delivered anywhere has the lesser stamp (`PublishOrder.StampsFollowPublishOrder`). A clock goes
  back exactly when its counter wraps or a restart resumes behind it (`PublishOrder.ForwardIff`), and
  one such restart suffices for a tie (`PublishLimits.RestartBackTies`). A node's view of a peer may be
  arbitrarily stale and may even go back; it must not run ahead of the peer.
- **Queue order.** With stamps from a set of clocks, every run of a queue stays sorted if and only if
  the majority comparison is a weak order on the set (`QueueOrder.SortedInEveryRunIff`); this holds
  for clocks that are pairwise comparable and fails for the cycles the comparison has. In every run of
  the protocol, overlapping publishes or not, `peekAll` on a replica is sorted by stamp whenever it
  holds for the stamps that reached the queue there (`PublishQueues.PeekAllInClockOrder`), and two such
  replicas agree on all messages whose stamps do not tie (`ReplicasAgree`). When publishes come one at a time it
  always holds, and the order is that of publishing (`PeekAllInPublishOrder`). For every ring and key
  there are overlapping publishes that tie, with two replicas listing them in opposite order
  (`PublishLimits.OverlapTies`), and ones that form a cycle, with a claim leaving a queue out of order
  (`OverlapInverts`). Where a search tree puts a key under an order with cycles depends on its shape,
  so the model allows every position at which a search can end; with the hint that the code gives that
  is the end whenever the stamp is not less than the last.
- **Queue contents.** Every queue of every replica is a run of one queue
  (`PublishLocal.QueueRunsLocally`), and lists exactly the messages whose stamp arrived while they
  waited and that have been neither claimed nor expired since (`PublishQueues.PeekAllListsDue`).
- **History.** In every run of the protocol a call counts as a success or a failure exactly when that
  answer came, a failure leads to exactly one of a retry and a give-up
  (`PublishHistory.CallsStandAsAnswered`, `FailureLeadsOn`), and a reply gives the number of messages the
  node had received and what it had been told of its peers (`ReplyReports`). In every run of a queue a
  waiting message expires exactly when its age since the call that stored it exceeds the time to live of
  the first message (`QueueTimes.WaitingExpiresIff`).
- **Progress.** From every reachable state a publish can still be stamped if and only if it has not
  been given up and the launches still owed go to nodes (`PublishProgress.CanBeStampedIff`).
- **Quorum accounting.** For every RF and every interleaving of immediate and later answers each
  launch ends as exactly one success, outstanding call or call of the fail function, no replica
  is called twice, and the node array is never indexed past its end.
- **Ring.** Three cyclically consecutive replicas, one exchanged replica at most when a node joins,
  and intersecting first pairs.
- **Conservation.** No message is lost, doubled or altered in a queue, and the byte count is exact.
- **uint128.** Every operator refines arithmetic modulo 2^128; division, printing and parsing are exact,
  the latter for every string.

Where code and documentation disagree the code is followed:

- `ring.h:59-61` says the third node is tried after the first two. The bound in `can_continue`
  (`quorum_logic.h:56`) allows this only while `run()` is still launching calls:
  `QuorumProtocol.LastReplicaContacted` gives the exact condition.
- `expire_messages` stops at the first message that has not expired "since these are in order".
  That holds when stamps arrive in clock order (`QueueRuns.NothingExpiredStays`) and not in general
  (`QueueRuns.ExpiredCanStay`); `QueueRuns.NoneLeftIff` gives the exact condition.
- The index keeps the entries of expired messages (`QueueRuns.IndexAgreesIff`).
- `test/src/test-ring.cpp:31-35` expects a null node from an empty ring; the code throws.
- `do_stamp_message` is empty; a stamp step is a call of `queue_manager::stamp_message` at a node
  whose reply was counted.
- `claim` does not compile as written; the model removes the entry that the index leads to.

Clocks, liveness, shuffles and the times of operations are parameters; one pass of `expire_messages`
reads the clock anew for every message it looks at. A node's clock carries its own id.

## Model

| member | source | states |
|---|---|---|
| `Clocks.NodeLess` | node/src/node_clock.cpp:44-63 | comparing different nodes throws; otherwise less means not greater and not equal, so `>` is its mirror image |
| `Clocks.EarlierByNumber` | node/src/node_clock.cpp:51-55 | the order is that of the numbers with the generation in front of the 64-bit clock |
| `Clocks.LessThan` | node/src/vector_clock.h:139-174 | the nested loop with its two counters computes the comparison `Less` |
| `Clocks.LessIsMajority` | node/src/vector_clock.h:142-173 | with distinct ids, less means more nodes strictly behind than strictly ahead, as a fact about the two id-to-clock maps |
| `Clocks.LessIgnoresEntryOrder` | node/src/vector_clock.h:142-173 | permuting the entries of either clock changes no comparison |
| `Clocks.LessIrreflexiveAndAsymmetric` | node/src/vector_clock.h:139-174 | no clock is less than itself and no two are less than each other |
| `Clocks.LessOnComparable` | node/src/vector_clock.h:139-174 | on component-comparable clocks the majority comparison is the strict component order |
| `Clocks.LessTotalOnChains` | node/src/vector_clock.h:139-174 | a strict total order on every set of pairwise comparable clocks |
| `Clocks.MajorityCycle` | node/src/vector_clock.h:139-174 | three clocks of one quorum that form a cycle: not transitive in general |
| `Clocks.ChainIsWeakOrder` | node/src/vector_clock.h:139-174 | pairwise comparable clocks are ordered as a sorted container needs |
| `Clocks.MajorityTie` | node/src/vector_clock.h:139-174 | two clocks each ahead of the other on one replica tie |
| `Clocks.GreaterMirrorsLess` | node/src/vector_clock.h:176-180 | operator> is the mirror of operator< exactly when the clocks are equal or the vote is no tie |
| `Clocks.TwoComponentsDecide` | node/src/vector_clock.h:156-173 | two strictly later components of three outvote the third, in both directions |
| `Clocks.Max` | node/src/vector_clock.h:103-121 | the join of clocks of one quorum; clocks of different quorums throw |
| `Clocks.JoinIsLeastUpperBound` | node/src/vector_clock.h:99-121 | max is the least upper bound of the component order |
| `Clocks.JoinIsSemilattice` | node/src/vector_clock.h:99-121 | max is commutative, associative and idempotent |
| `Clocks.JoinDominates` | node/src/vector_clock.h:99-121 | each argument equals the result or is majority-less than it |
| `QuorumProtocol.StepKeepsInv` | node/src/quorum_logic.h:52-123 | every launch, success and failure keeps the accounting, the distinctness of calls and the bound on the next index |
| `QuorumProtocol.LaunchesConserved` | node/src/quorum_logic.h:68-115 | successes + outstanding calls + launches owed + fail calls = RF - RF/2 in every run |
| `QuorumProtocol.OutcomeOfRun` | node/src/quorum_logic.h:95-123 | odd RF: success and the fail function exclude each other, a finished run has exactly one, success is reported at most once; even RF: never a quorum |
| `QuorumProtocol.CallsDistinctAndInBounds` | node/src/quorum_logic.h:68-115 | no position is called twice, none at or past RF, and run() never indexes past the end |
| `QuorumProtocol.LastReplicaContacted` | node/src/quorum_logic.h:52-74 | the last replica is called if and only if RF is odd, run() is done and RF/2 calls failed before its last launch |
| `QuorumProtocol.RetriedIff` | node/src/quorum_logic.h:52-63 | in every run a failed call leads to exactly one of another call and a fail call; the former exactly while failures leave a quorum and retries leave spare nodes or owed launches, with RF 3 only for the first failure before the last launch |
| `QuorumProtocol.StandsAsAnswered` | node/src/quorum_logic.h:95-115 | for every RF and run a call is a success or a failure exactly when that answer came, and outstanding exactly when it was made and none came |
| `QuorumProtocol.BackupNotTried` | node/src/quorum_logic.h:52-115 | a run of three replicas in which one late failure gives up with the third never called |
| `QuorumProtocol.QuorumLogic.constructor` | node/src/quorum_logic.h:42-46 | no node called, succeeded or failed yet |
| `QuorumProtocol.QuorumLogic.OperationHasSucceeded` | node/src/quorum_logic.h:120-123 | true exactly when more than RF/2 calls succeeded |
| `QuorumProtocol.QuorumLogic.NodeSuccess` | node/src/quorum_logic.h:95-98 | takes the success step and appends the node |
| `QuorumProtocol.QuorumLogic.RecordFailure` | node/src/quorum_logic.h:103-107 | takes the failure step, leaves all other calls as they were, and leads to a retry or a fail call as can_continue decides |
| `QuorumProtocol.QuorumLogic.NodeFailed` | node/src/quorum_logic.h:103-115 | with re-entrant failures: every further call is handled as it answers, fail calls are counted, all other calls stay |
| `QuorumProtocol.QuorumLogic.CallNode` | node/src/quorum_logic.h:72-109 | a call that answers before it returns is handled, and so are all calls that its failure leads to |
| `QuorumProtocol.QuorumLogic.Run` | node/src/quorum_logic.h:68-74 | nothing is owed afterwards, the state is one of an event sequence, and each call stands as it answered |
| `Ring.UpperBound` | node/src/ring.cpp:169-179 | the first position above the key |
| `Ring.ReplicasAreCyclic` | node/src/ring.cpp:99-121 | on the circle of keys: the last node at or before the key and the first two after it |
| `Ring.PrimaryServesRange` | node/src/ring.cpp:84-97 | a node is primary if and only if it has the greatest start not above the key, or the greatest of all if there is none |
| `Ring.ReplicasDistinct` | node/src/ring.cpp:99-121 | with three nodes the replicas are three different ring nodes |
| `Ring.SortedIsUnique` | node/src/ring.cpp:51-57 | the ring depends only on the set of nodes, not on the order in which they joined |
| `Ring.InsertKeepsOrder` | node/src/ring.cpp:55-55 | adding keeps the order and adds exactly the node |
| `Ring.AddMovesAtMostOne` | node/src/ring.cpp:51-57 | a key's replica set stays or exchanges exactly one replica for the new node |
| `Ring.AddMovesArc` | node/src/ring.cpp:51-57 | a key's primary becomes the new node if and only if it lies between the new start and the next node; all others keep theirs |
| `Ring.FindQuorum` | node/src/ring.cpp:123-167 | for every shuffle: fails exactly with fewer than two live entries; otherwise exactly the live replicas, none twice, with three nodes the first two present and all in the order of the shuffle |
| `Ring.CollectLive` | node/src/ring.cpp:131-140 | the loop puts the live nodes to the front in order |
| `Ring.Compress` | node/src/ring.cpp:148-164 | removes repeats and nothing else |
| `Ring.QuorumsIntersect` | node/src/ring.h:58-65 | the pairs tried first by any two operations on a key share a replica |
| `Ring.UnavailableWithThree` | node/src/ring.cpp:142-146 | with three nodes live entries are live replicas, so a quorum is refused exactly below two of them |
| `Ring.UnavailableWithTwo` | node/src/ring.cpp:142-146 | with two nodes a quorum is refused exactly when the primary is down |
| `Ring.NodeRing.CheckNoConflict` | node/src/ring.cpp:59-82 | id conflict first, then range conflict, none exactly when both are free |
| `Ring.NodeRing.AddNode` | node/src/ring.cpp:51-57 | both maps gain the node and keep holding the same nodes, or a conflict leaves them alone |
| `Ring.NodeRing.FindNodesForKey` | node/src/ring.cpp:99-121 | the replicas; an empty ring throws |
| `Ring.NodeRing.FindQuorumForOperation` | node/src/ring.cpp:123-167 | the quorum contract on the ring object, order of the shuffle included |
| `MessageQueues.SlotExists` | node/src/message_queue.h:170-180 | the container always has a position for a stamp, transitive order or not |
| `MessageQueues.ExpiredFront` | node/src/message_queue.h:202-214 | the longest expired prefix |
| `MessageQueues.EnqueueCountsIff` | node/src/message_queue.h:147-148 | an enqueue keeps the byte count right if and only if its id is not waiting for a stamp, or its size is 0 in 32 bits |
| `QueueRuns.BytesConserved` | node/src/message_queue.h:137-229 | in every run memory_size is what is held plus what duplicate enqueues leaked, modulo 2^32 |
| `QueueRuns.MessagesConserved` | node/src/message_queue.h:137-229 | without reuse of ids every message is in exactly one of unstamped, queued and gone with its own content, and the byte count is exact |
| `QueueRuns.TotalCountOfRun` | node/src/message_queue.h:244-247 | without reuse of ids total_count is the number of messages sent less those claimed or expired |
| `QueueRuns.IndexAgreesIff` | node/src/message_queue.h:182-214 | queued messages are indexed at their own entry; the index agrees exactly until a stamped message expires, and claim follows an erased iterator exactly for such ids |
| `QueueRuns.IndexKeepsExpired` | node/src/message_queue.h:202-214 | a run whose index holds a message that is gone |
| `QueueRuns.TtlOfFirstMessage` | node/src/message_queue.h:139-143 | in every run the time to live is that of the first message enqueued |
| `QueueRuns.ExpireKeepsExactly` | node/src/message_queue.h:196-229 | removes every unstamped message that has expired when it is looked at, and exactly the longest prefix of such queued ones |
| `QueueRuns.NoneLeftIff` | node/src/message_queue.h:202-214 | nothing that had expired when the pass began stays queued if and only if none of it stood behind a message that had not expired when looked at |
| `QueueRuns.NothingExpiredStays` | node/src/message_queue.h:196-229 | nothing that had expired when the pass began stays, in any run whose stamps arrive in clock order |
| `QueueRuns.ExpiredCanStay` | node/src/message_queue.h:209-213 | an out-of-order run in which an expired message stays |
| `QueueOrder.RunInClockOrder` | node/src/message_queue.h:170-180 | stamped from a set on which the comparison is a weak order, the queue is sorted in every run, ties in order of stamping |
| `QueueOrder.ChainInClockOrder` | node/src/message_queue.h:170-180 | in particular when the stamps are pairwise comparable |
| `QueueOrder.SortedInEveryRunIff` | node/src/message_queue.h:170-180 | every run over a set of clocks stays sorted if and only if the comparison is a weak order on the set |
| `QueueOrder.PassedOverInverts` | node/src/message_queue.h:170-180 | where a clock passes over a third, a claim can leave two neighbours inverted |
| `QueueOrder.CycleInverts` | node/src/message_queue.h:170-180 | the cycle of the majority comparison does so |
| `QueueOrder.EntriesFromStamps` | node/src/message_queue.h:157-180 | every queued message carries the clock and the time of the stamp that moved it, and the content that waited then |
| `QueueOrder.ListedIff` | node/src/message_queue.h:271-283 | peekAll lists a message if and only if it was stamped while it waited and has been neither claimed nor expired since |
| `QueueTimes.WaitingIsStored` | node/src/message_queue.h:147-148 | in every run a waiting message holds the content and the time of the call that stored it, whatever was enqueued under its id since |
| `QueueTimes.WaitingExpiresIff` | node/src/message_queue.h:216-228 | a pass removes a waiting message if and only if the time since that call exceeds the first time to live, in nanoseconds |
| `QueueTimes.QueuedExpireIff` | node/src/message_queue.h:200-214 | a pass takes the queued messages up to the first that was stamped no longer ago than that |
| `QueueTimes.MemoryOfRun` | node/src/queued_message.h:114-127 | without reuse of ids memory_size is 72 bytes for each message held plus the lengths of their contents, modulo 2^32 |
| `QueueTimes.IndexIsFirstStamp` | node/src/message_queue.h:182-189 | an id is indexed exactly when it was stamped and not claimed since, at the entry of the first such stamp |
| `QueueManager.MessageQueue.EnqueueMessage` | node/src/message_queue.h:137-149 | the new state is that of `Enqueue`, whose stored time and content `QueueTimes.WaitingIsStored` gives |
| `QueueManager.MessageQueue.StampMessage` | node/src/message_queue.h:157-191 | found or not, and the state of `Stamp` at some position a search can end in |
| `QueueManager.MessageQueue.ExpireQueued` | node/src/message_queue.h:200-214 | the first loop erases the expired front and its bytes, reading the clock once for each entry it looks at |
| `QueueManager.MessageQueue.ExpireUnstamped` | node/src/message_queue.h:216-228 | the second loop erases all expired unstamped messages and their bytes, in any order of visits and with a reading of the clock for each |
| `QueueManager.MessageQueue.ExpireMessages` | node/src/message_queue.h:196-229 | the new state is that of `Expire` under the readings of the clock |
| `QueueManager.MessageQueue.ClaimMessage` | node/src/message_queue.h:288-299 | the new state is that of `Claim`; fails exactly for an id whose index entry was erased |
| `QueueManager.MessageQueue.PeekAll` | node/src/message_queue.h:271-283 | the queued messages in order |
| `QueueManager.Manager.GetQueue` | node/src/queue_manager.h:59-79 | finds the queue of a key or adds an empty one, every key keeping its own |
| `QueueManager.Manager.EnqueueMessage` | node/src/queue_manager.h:84-90 | enqueues at the key and leaves all other queues unchanged |
| `QueueManager.Manager.StampMessage` | node/src/queue_manager.h:96-101 | stamps at the key and leaves all other queues unchanged |
| `LocalNode.LocalNodeOperations.SendProxyPublish` | node/src/local_node_operations.cpp:57-87 | enqueues, bumps its own clock, reports its view of the three replica clocks; other queues stay |
| `PublishProtocol.BumpAdvancesIff` | node/src/local_node_operations.cpp:66-67 | a clock moves forward if and only if its counter does not wrap; a new generation that counts from zero is later if and only if its number does not wrap |
| `PublishCoordinators.StepTidy` | node/src/csauthenticated.cpp:95-191 | every step, wrapping or not, keeps calls, replies and stamps accounted for, only adds to a publish, and never changes a stamp; which step does what to a call is in `PublishHistory` |
| `PublishCoordinators.StampedIff` | node/src/csauthenticated.cpp:112-143 | in every run a publish is stamped exactly when two replies were counted, with their maximum; never stamped and given up; one of them when all calls are answered |
| `PublishLocal.QueueRunsLocally` | node/src/queue_manager.h:59-101 | every queue of every replica in every run is the queue after the operations that reached it since the last restart |
| `PublishLocal.LocalStamps` | node/src/csauthenticated.cpp:131-143 | those operations stamp with the stamps of the coordinators |
| `PublishLocal.LocalSentOnce` | node/src/csauthenticated.cpp:123-143 | and never enqueue a message twice |
| `PublishHistory.CoordinatorRunsLocally` | node/src/csauthenticated.cpp:112-177 | in every run the quorum logic of a publish is that of its launches, replies and failures, in their order |
| `PublishHistory.CallsStandAsAnswered` | node/src/csauthenticated.cpp:123-173 | in every run a call counts as a success exactly when its reply came, as a failure exactly when its failure came, and is outstanding exactly when it was made and neither came |
| `PublishHistory.FailureLeadsOn` | node/src/csauthenticated.cpp:151-171 | a failure takes the call out of the outstanding ones and leads to exactly one of a call to the next target and a fail call, the former exactly for the first failure while a launch is owed |
| `PublishHistory.GoesOnIff` | node/src/csauthenticated.cpp:123-177 | when a launch, a reply and a failure can come, from the actions of the run |
| `PublishHistory.ArrivesIff` | node/src/csauthenticated.cpp:123-143 | when a message and a stamp can reach a replica: the message once for each call made, the stamp once it exists and the reply was counted |
| `PublishHistory.ReachedIff` | node/src/local_node_operations.cpp:57-64 | a call has reached its replica exactly when a delivery of it took place |
| `PublishHistory.LogIsFirstDeliveries` | node/src/local_node_operations.cpp:57-64 | the log of a run lists its publishes in the order of their first deliveries |
| `PublishHistory.BegunAs` | node/src/csauthenticated.cpp:102-112 | a publish keeps the queue and the targets it was begun with |
| `PublishHistory.ClockCounts` | node/src/node_clock.h:43-47 | a node's clock is the one it started at plus the number of messages delivered to it since, modulo 2^64 |
| `PublishHistory.ViewIsLastTold` | node/src/local_node_operations.cpp:74-81 | a node's view of a peer is the last one it was told since it started, and zero before |
| `PublishHistory.ReplyReports` | node/src/local_node_operations.cpp:66-81 | in every run a reply names the three replicas of the queue and gives, as of its delivery, the count of the called node and what it had been told of the others |
| `PublishOrder.ForwardIff` | node/src/node_clock.h:39-47 | a step leaves all clocks in place or moves them forward if and only if a delivery does not wrap and a restart does not resume behind |
| `PublishOrder.StepKeeps` | node/src/csauthenticated.cpp:95-191 | every step keeps: views behind their peers, replies behind the clocks, own components past the floor, stamps equal to the join of two replies, histories under their floor |
| `PublishOrder.RunKeeps` | node/src/csauthenticated.cpp:95-191 | the same in every reachable state |
| `PublishOrder.PriorDecides` | node/src/csauthenticated.cpp:131-143 | a publish in another's history has the lesser stamp, and not the other way round |
| `PublishOrder.StampsFollowPublishOrder` | node/src/csauthenticated.cpp:123-143 | stamped before the other's first delivery implies the lesser stamp, in every run and for every quorum |
| `PublishQueues.PeekAllInClockOrder` | node/src/message_queue.h:271-283 | in every run in which the comparison orders the stamps that reached a queue on a replica, peekAll there is sorted by stamp, ties in order of arrival, each message under the stamp its coordinator computed |
| `PublishQueues.ReplicasAgree` | node/src/message_queue.h:271-283 | then two replicas list any two messages they share in the same order unless the stamps tie |
| `PublishQueues.PeekAllListsDue` | node/src/message_queue.h:271-283 | peekAll on a replica lists exactly the messages stamped there while they waited and neither claimed nor expired since its last restart |
| `PublishQueues.ReplicaConserves` | node/src/message_queue.h:137-229 | what came to a replica since its last restart is waiting, listed or gone, exactly once; its byte count and index are right |
| `PublishQueues.LogDecides` | node/src/csauthenticated.cpp:131-143 | one at a time, stamps of a queue are ordered like first deliveries |
| `PublishQueues.LogOrdersStamps` | node/src/vector_clock.h:139-174 | one at a time, the comparison is a weak order on the stamps of a queue |
| `PublishQueues.PeekAllInPublishOrder` | node/src/message_queue.h:271-283 | one at a time, peekAll lists messages in publish order, each under the stamp its coordinator computed |
| `PublishQueues.ReplicasAgreeOneAtATime` | node/src/message_queue.h:271-283 | one at a time, any two replicas list the messages they share in the same order |
| `PublishLimits.OverlapTies` | node/src/csauthenticated.cpp:123-143 | for every ring and key a run in which two publishes get stamps that tie and two replicas list them in opposite order |
| `PublishLimits.OverlapInverts` | node/src/csauthenticated.cpp:123-143 | for every ring and key a run of deliveries, replies and one refreshed view in which three stamps form a cycle and a claim leaves a replica's queue out of order |
| `PublishLimits.RestartBackTies` | node/src/node_clock.h:39-47 | for every ring and key a run in which one restart in the old generation lets a later publish tie with an earlier one |
| `PublishProgress.CanBeStampedIff` | node/src/csauthenticated.cpp:100-177 | from every reachable state some continuation stamps a publish if and only if it has not been given up and every owed launch goes to a node |
| `PublishProgress.StampInReach` | node/src/csauthenticated.cpp:123-177 | such a continuation touches no other publish |
| `PublishProgress.PublishSucceeds` | node/src/csauthenticated.cpp:100-177 | in its turn a publish whose first two replicas answer is stamped, next in the log, and no other publish changes |
| `UInt128.BelowIsLess` | thirdparty/src/uint128.h:185-187 | operator< is the order of the values |
| `UInt128.Add` | thirdparty/src/uint128.h:223-234 | sum modulo 2^128 |
| `UInt128.Complement` | thirdparty/src/uint128.h:200-205 | 2^128 - 1 minus the value |
| `UInt128.Negate` | thirdparty/src/uint128.h:195-198 | negation modulo 2^128 |
| `UInt128.Subtract` | thirdparty/src/uint128.h:236-240 | difference modulo 2^128 |
| `UInt128.ShiftLeft` | thirdparty/src/uint128.h:301-332 | times 2^n modulo 2^128, n being the count modulo 2^32 |
| `UInt128.ShiftRight` | thirdparty/src/uint128.h:334-366 | divided by 2^n, n being the count modulo 2^32 |
| `UInt128.OrAssign` | thirdparty/src/uint128.h:271-275 | or of the halves is or of the values, and a bit is set exactly if it is in either |
| `UInt128.Multiply` | thirdparty/src/uint128.h:242-269 | the shift-and-add loop is the product modulo 2^128 |
| `UInt128.AlignDivisor` | thirdparty/src/uint128.h:48-51 | the first loop moves the divisor up without losing a bit, past half the numerator |
| `UInt128.OrSetsPlace` | thirdparty/src/uint128.h:56-56 | each `\|=` into the answer is addition |
| `UInt128.DivideStep` | thirdparty/src/uint128.h:53-61 | one round keeps numerator = answer * divisor + rest, with the rest below twice the shifted divisor |
| `UInt128.Divide` | thirdparty/src/uint128.h:35-66 | n = q*d + r with r < d for every n and d > 0; d = 0 throws |
| `Radix.Parse` | thirdparty/src/uint128.h:100-169 | sign, prefix, and the number that the longest run of digits stands for, modulo 2^128 |
| `Radix.DigitByCode` | thirdparty/src/uint128.h:134-156 | what is a digit and which, by character codes, and nothing else |
| `Radix.ReadingIgnoresCase` | thirdparty/src/uint128.h:130-162 | every string reads the same in upper and in lower case |
| `Radix.AccumulateIsReading` | thirdparty/src/uint128.h:130-162 | the accumulating loop is that number for every string: leading zeros, either case, overflow and trailing text included |
| `Radix.ToString` | thirdparty/src/uint128.h:377-402 | the text of the number, buffer bound and terminator included |
| `Radix.PrintsExactlyIff` | thirdparty/src/uint128.h:386-401 | what is printed is digits and denotes the number if and only if it has at most 127 of them, then without a leading zero |
| `Radix.PrintsEveryNumber` | thirdparty/src/uint128.h:377-402 | lower-case digits, exact and without a leading zero, for every 128-bit number in radix 3 to 36, and in radix 2 if and only if it is below 2^127 |
| `Radix.ParseOfPrint` | thirdparty/src/uint128.h:100-169 | parsing undoes printing: plain in radix 10, behind 0x in radix 16 in either case, behind 0 in radix 8, and negated behind a minus |
| `Radix.MinusNegates` | thirdparty/src/uint128.h:109-114 | a minus in front of any string negates its value modulo 2^128 |
| `Framing.WriteMessage` | shared/src/messageutil.cpp:276-307 | in numbers: two bytes of type and four of length, most significant first and reduced to their width, then the body |
| `Framing.DecodeByNumbers` | shared/src/messageutil.cpp:98-183 | in numbers: types other than 1 to 12 and lengths above the limit are errors, an unfinished frame gives nothing, and a whole one the message that its bytes spell, followed by the rest |
| `Framing.U16RoundTrip` | shared/src/netutil.cpp:85-98 | the 16-bit field decodes to what was encoded, and back |
| `Framing.U32RoundTrip` | shared/src/netutil.cpp:70-83 | the 32-bit field decodes to what was encoded |
| `Framing.U32BytesRoundTrip` | shared/src/netutil.cpp:70-83 | four bytes encode back to themselves |
| `Framing.DecodeOfEncode` | shared/src/messageutil.cpp:98-183 | reading the frames of any list of sendable messages gives exactly that list |
| `Framing.DecodeOfPrefix` | shared/src/messageutil.cpp:98-183 | reading a prefix of any bytes gives a prefix of the list, and errors are final |
| `Framing.EncodeOfDecode` | shared/src/messageutil.cpp:98-183 | what is read from any bytes stands in them in its one encoding |
| `Framing.MessageReader.AfterReadMessageType` | shared/src/messageutil.cpp:98-127 | types outside the enumeration are an error, others await the size |
| `Framing.MessageReader.AfterReadMessageSize` | shared/src/messageutil.cpp:129-165 | sizes above the limit are an error, others await the body |
| `Framing.MessageReader.AfterReadMessageContent` | shared/src/messageutil.cpp:167-183 | hands the message on and awaits the next |
| `Framing.MessageReader.Arrive` | shared/src/messageutil.cpp:81-183 | after any sequence of pieces exactly the messages of all bytes so far have been handed on |
| `Regex.ValidateRegex` | gtest-1.7.0/src/gtest-port.cc:257-311 | the loop accepts exactly what `Scan` accepts; NULL is rejected |
| `Regex.ValidIffPattern` | gtest-1.7.0/src/gtest-port.cc:257-311 | accepted if and only if it is the printed form of a pattern of anchors and repeated atoms |
| `Regex.EscapeDecides` | gtest-1.7.0/src/gtest-port.cc:222-224 | the accepted escapes are the punctuation of ASCII, by code, and the eleven names |
| `Regex.AtomDecides` | gtest-1.7.0/src/gtest-port.cc:228-248 | the character test decides the set of characters that an atom stands for, given by literals and codes |
| `Regex.MatchRepetitionAndRegexAtHead` | gtest-1.7.0/src/gtest-port.cc:320-342 | the counting loop terminates with the answer of `MatchRepetition` |
| `Regex.MatchRegexAtHead` | gtest-1.7.0/src/gtest-port.cc:347-373 | the mutual recursion terminates with the answer of `MatchHead` |
| `Regex.HeadDecides` | gtest-1.7.0/src/gtest-port.cc:320-373 | at the head the matcher answers true if and only if a prefix is in the pattern's language |
| `Regex.MatchRegexAnywhere` | gtest-1.7.0/src/gtest-port.cc:383-396 | true if and only if some substring that meets the anchors is in the pattern's language |
| `Filter.PatternIsGlob` | gtest-1.7.0/src/gtest.cc:440-455 | the recursion matches exactly the strings the wildcard pattern up to the first colon stands for |
| `Filter.MatchesFilter` | gtest-1.7.0/src/gtest.cc:457-476 | true if and only if a piece between colons matches |
| `Filter.PiecesJoin` | gtest-1.7.0/src/gtest.cc:457-476 | the pieces hold no colon and joined by colons are the filter |
| `Filter.FilterMatchesTest` | gtest-1.7.0/src/gtest.cc:480-506 | a positive piece and no negative piece; a leading dash selects everything else |
| `Filter.DisabledIff` | gtest-1.7.0/src/gtest.cc:153-153 | the filter for disabled tests picks exactly the names with DISABLED_ at the start or behind a slash |
| `Filter.IsRunnable` | gtest-1.7.0/src/gtest.cc:4473-4492 | enabled, or disabled tests run too, and selected by the filter |
| `Filter.FilterTests` | gtest-1.7.0/src/gtest.cc:4455-4506 | the flags deal the runnable tests out to the shard, a case runs if a test of it does, the count is right |
| `Filter.ShardsPartition` | gtest-1.7.0/src/gtest.cc:4440-4446 | every runnable test runs on exactly one shard, other tests on none |
| `Filter.ShardSize` | gtest-1.7.0/src/gtest.cc:4440-4446 | how many tests each shard gets |
| `Filter.ShardsBalanced` | gtest-1.7.0/src/gtest.cc:4440-4446 | no two shards differ by more than one test |

## Left out

- Sockets, connections, the accept loop and asynchronous callbacks: only the order in which answers and bytes arrive is modelled.
- Cassandra storage, accounts, the challenge handshake, hashing: a queue key is any 128-bit number.
- Protobuf bodies: opaque bytes. The failure detector: liveness is any predicate. The gossiper: a step that refreshes a view.
- PublishOrder.StampsFollowPublishOrder: assumes that no clock goes back in the run. The code shown never sets a generation; that a restart advances it is taken from the comment at `node_clock.h:39-41` and `docs/Node Restart.txt`. A restart step may resume at any clock, and the theorem needs one that is not behind.
- PublishQueues.PeekAllInPublishOrder: assumes so too, because stamps follow publish order only then; the theorems on clock order, contents and progress hold for clocks that go back as well.
- PublishProtocol: message payloads are not tracked from client to replica; a reply whose clock is malformed cannot arise with an unchanged ring and is not modelled; a call to an empty slot of a quorum, which would dereference a null pointer, ends the run.
- QueueManager.MessageQueue.ClaimMessage: for a message that expired after it was stamped the code follows an erased iterator, which is undefined; the model fails and changes nothing.
- `message_queue::peek` and `next_expiry`, which are never instantiated; the expiration heap, whose order is never used; locks.
- QueueManager.MessageQueue: an iterator of the multimap is a handle in its entry.
- UInt128.Add: the compound operators are modelled as methods from values to values; an operand that aliases the target is not captured.
- Radix.ToString: for radix 37 the text stops at the first digit 36; nothing more is proved of it. Float constructors, streaming and std::hash are not modelled.
- Regex.MatchRegexAnywhere: the bound of * and + on counts near the largest size_t, and `RE::FullMatch`.
- Filter.FilterTests: the flags are returned as sequences instead of being stored in the test objects.
- `message_dispatcher`, `endpoint` parsing and the rest of the test framework, which would only add easy members.
