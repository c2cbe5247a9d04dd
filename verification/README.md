# MemDB, verified

MemDB is a leaderless, replicated key-value store. This project models its core in Dafny and proves what the
pieces promise, over all inputs, all runs and all reachable states.

- **Clock and store rule** (`Lamport.dfy`, `ClockRuns.dfy`): Lamport stamps, the lock-free clock under every
  interleaving, and the rule by which one write changes one entry.
- **Replicated SET** (`ReplicatedSet.dfy`): any number of nodes, messages lost, repeated and reordered; last writer
  wins and nodes that received the same writes agree.
- **Compare-and-set** (`Cas.dfy`, `CasRuns.dfy`, `CasCompare.dfy`, `CasQuorums.dfy`, `CasScenarios.dfy`,
  `CasFencing.dfy`): prepare and accept handlers, whole runs with fencing, the comparison behind every round, when a
  request can still succeed, the arithmetic of quorums, and the clusters in which there is one winner per starting
  stamp, in the pattern of section 2.2 of "Paxos Made Simple".
- **PN-counter** (`Counter.dfy`, `CounterNode.dfy`, `CounterProtocol.dfy`, `CounterAgreement.dfy`,
  `CounterScenario.dfy`): the arrays behind one counter, the copies that updates take along, the protocol between
  nodes, and the way on to agreement.
- **Index** (`AvlModel.dfy`, `AvlTree.dfy`, `BucketMap.dfy`): linked AVL nodes that follow a tree value, and the
  bucketed map over them.
- **Operation log** (`Operations.dfy`, `Settling.dfy`, `Compaction.dfy`, `ParallelCompaction.dfy`, `SortedReplay.dfy`, `Codec.dfy`, `LogCodec.dfy`,
  `RequestCodec.dfy`, `OplogFiles.dfy`, `Restore.dfy`, `SegmentSearch.dfy`): replay, compaction in one pass and by a
  merge tree, the byte formats, the files, restoring at start-up and the search over segments.
- **Ring and framing** (`RingModel.dfy`, `Ring.dfy`, `Framing.dfy`): ownership, distances and replicas on a linked
  ring, and packets on a byte stream.
- **Reader/writer lock** (`SharedLock.dfy`): exclusion, who waits for whom, readers inside together, and no deadlock.

`Arithmetic.dfy` and `Sorting.dfy` hold what several modules share. Integers are unbounded unless a module says
otherwise; files and streams are byte sequences; hashes, checksums and compression are parameters, with
uncompressing taken to undo compressing.

Where the code does not do what its names or comments promise, the model follows the code, a lemma gives an input on
which the promise fails, and another says exactly when it holds:

- a CAS has one winner per starting stamp, in every run in which the store reports truthfully to the proposer, if and
  only if the cluster has an even number of nodes or one; when a rejected write may be reported as stored, if and only
  if it has at most one (`FencesExactly`, `TwoWinners`);
- a CAS that fails leaves the proposer's clock alone, so a later one may carry the same stamp with another value
  (`OneStampTwoValues`, `StampsAhead`);
- the answer to a replicated counter update is applied to the copy the update took along. It reaches the stored
  counter if and only if neither has moved to larger arrays since and these have room for the answering node
  (`AnswerCatchesUp`, `HoldsStoredExactly`, `AnswerCopy`, `ThirdAnswerIsLost`), and an outdated copy may know more than
  the stored counter (`CopyGetsAhead`);
- the requests of one counter update share their list of arguments, so all report what was seen of the first receiver
  (UpdateCounterOperator.cpp:38-50, RequestBuilder.cpp:55-98; `OtherReportHides`), and the receiver reads the seen decrements one argument
  too early (ReplicateCounterOperator.cpp:10), so seen increments hide decrements that were missed
  (`DecrementsHidden`); `AnswerCatchesUp` says exactly when increments and decrements catch up, and
  `FirstAskedCatchesUp` when they always do;
- compaction keeps an older operation when a key's timestamps go down, and takes keys that agree up to a zero byte for
  one. In one pass, which is for up to ten operations (the limit is written 10.000), replaying what is kept equals
  replaying the log if and only if no two keys agree so and what is kept of each settles what comes after it
  (`CompactionExactly`, `OutOfOrderLoses`, `TwinLoses`). Timestamps that go down are not always a loss: of 5 and then 3
  the kept one, 5, decides. Longer logs go through a tree that may keep several operations of a key; all their orders
  by timestamp replay as the log if and only if each newest one kept of a key stands for all of the key
  (`TreeExactly`, `TreeLoses`);
- timestamps of 2^31 and more, records above 255 bytes and empty arguments do not survive the log
  (`LargeTimestampIsLost`, `LogRoundTrip`, `RequestRoundTrip`);
- start-up replays the intermediate file before the older segments, and nothing when it is empty
  (`DeletedComesBack`, `RestoredExactly`);
- new nodes of the index tree start with the stored height of an empty tree, so a chain of three is left as it is
  (`ThreeInAChain`, `TrulyBalancedExactly`); depth stays logarithmic (`DepthIsLogarithmic`);
- the segment search never ends above the last segment or between two (`AboveAllNeverEnds`, `SearchEndsExactly`);
- a node that joins the ring below the head is put last (`JoinBelowHeadMisroutes`, `JoinedSortedExactly`,
  `OwnersRightExactly`);
- a ring whose head was taken out is still searched from it, and the node that is gone is found wherever the position
  does not lie between the first and the last of the others (`HeadGoneExactly`);
- packets whose length is a multiple of 1024 are not delivered, and a stream with one of them is never read back
  (`EmptyPacketIsSkipped`, `PacketRoundTrip`, `StreamRoundTrip`).

## Model

| member | source | states |
|---|---|---|
| `Lamport.LamportClock.Update` | core/src/utils/clock/LamportClock.cpp:16-52 | the new counter is the returned value: NONE leaves it; SET_MAX gives the least number that reaches both the counter and the argument; TICK exceeds both and is one above one of them |
| `ClockRuns.NextKeepsInv` | core/src/utils/clock/LamportClock.cpp:31-52 | every load and every compare-exchange of any thread keeps the invariant, never lowers the counter and forgets no finished call |
| `ClockRuns.CounterMonotone` | core/src/utils/clock/LamportClock.cpp:31-52 | along every run the counter never decreases, and finished calls stay finished |
| `ClockRuns.ClockGuarantees` | core/src/utils/clock/LamportClock.cpp:31-52 | in every run every finished call returned the right value for its argument and the counter it replaced, a tick exceeds every value returned before it, and the counter stays at or above every value returned |
| `ClockRuns.StepsMoveExactly` | core/src/utils/clock/LamportClock.cpp:31-52 | at every step of every run: the exchange that finishes a tick leaves the counter above both the counter and the argument and one above one of them, the step that finishes a setMax at the least number that reaches both, and no other step moves it |
| `ClockRuns.NoHigherThanTicked` | core/src/utils/clock/LamportClock.cpp:31-52 | in every run the counter exceeds the greatest value it started with or was handed by at most the number of ticks |
| `ClockRuns.LeftAloneFinishes` | core/src/utils/clock/LamportClock.cpp:31-52 | in every state of every run a waiting call that is left alone finishes with its next load and exchange, with the right value, and an idle thread can call |
| `ReplicatedSet.ApplyHoldsNewest` | core/src/db/AVLTree.h:231-296 | one accepted or rejected write keeps each entry the greatest-stamp write the node has seen for that hash |
| `ReplicatedSet.ClientPutAccepted` | core/src/operators/operations/user/SetOperator.cpp:3-37 | a client write is never rejected by a data entry, and its stamp is above the clock before and equal to the clock after |
| `ReplicatedSet.FreshStampKeepsUnique` | core/src/operators/operations/user/SetOperator.cpp:31-37 | a fresh client stamp differs from every stamp in the cluster |
| `ReplicatedSet.RunKeepsInv` | core/src/db/AVLTree.h:231-296 | stamp uniqueness, clock dominance and newest-wins hold in every state of every run, with messages lost, repeated or reordered |
| `ReplicatedSet.ClientSetWins` | core/src/operators/operations/user/SetOperator.cpp:3-37 | in every run a client SET leaves its value under this node's id, with a stamp above the one it overwrites and never used by any write sent before; the stamp's counter is the new clock, exceeds the old clock and the client's, and is one above one of them; that write is sent, and no other hash, node or message changes |
| `ReplicatedSet.DeliverTeaches` | core/src/db/AVLTree.h:231-296 | in every run a delivered write is held unless a value with a greater stamp is, the key text of the old entry stays, the clock is raised to the stamp exactly as far as needed when the write is taken, and nothing else changes |
| `ReplicatedSet.EntriesAreNewest` | core/src/db/AVLTree.h:273-295 | in every reachable state stamps are unique and each stored entry is the greatest-stamp write that node executed or received |
| `ReplicatedSet.Convergence` | core/src/db/AVLTree.h:231-296 | two nodes that have received the same writes hold the same keys, values and stamps; whole entries are equal when no two keys share a hash |
| `ReplicatedSet.AgreementReachable` | core/src/operators/operations/user/SetOperator.cpp:3-37 | from every state of every run deliveries alone lead to a state in which every node has seen every write ever sent and all read alike; clients can go on writing at every node |
| `CasAcceptor.PrepareRises` | core/src/operators/operations/cas/PrepareCasOperator.cpp:8-30 | handling PREPARE never lowers the promised or the stored stamp |
| `CasAcceptor.AcceptRises` | core/src/operators/operations/cas/AcceptCasOperator.cpp:8-44 | handling ACCEPT never lowers the promised or the stored stamp, whether or not the write is reported as stored |
| `CasAcceptor.SetRises` | core/src/db/AVLTree.h:273-295 | a SET in between never lowers the stored stamp of the key |
| `CasAcceptor.OnGoingPaxosRounds.RegisterNewPromise` | core/src/operators/operations/cas/OnGoingPaxosRounds.cpp:27-33 | the promise table holds the new stamp for the key and is otherwise unchanged |
| `CasAcceptor.OnGoingPaxosRounds.UpdatePromised` | core/src/operators/operations/cas/OnGoingPaxosRounds.cpp:20-25 | throws exactly when the key has no promise yet, and otherwise replaces it, nothing else |
| `CasAcceptor.OnGoingPaxosRounds.UpdateAccepted` | core/src/operators/operations/cas/OnGoingPaxosRounds.cpp:13-18 | throws exactly when the key has no promise yet, and otherwise replaces it |
| `CasAcceptor.CasNode.Prepare` | core/src/operators/operations/cas/PrepareCasOperator.cpp:3-31 | reply and promise table are those of the acceptor rule; a counter is an invalid type; other keys are untouched |
| `CasAcceptor.CasNode.Accept` | core/src/operators/operations/cas/AcceptCasOperator.cpp:3-45 | reply, store, promise and clock are those of the acceptor rule; a counter is an invalid type; other keys are untouched |
| `CasRuns.NextKeepsInv` | core/src/operators/operations/cas/CasOperator.cpp:8-90 | every step of proposers, acceptors and interleaved SETs keeps the fencing invariant |
| `CasRuns.NeverGoesBack` | core/src/operators/operations/cas/AcceptCasOperator.cpp:8-38 | between any two states of a run, promised and stored stamps of every acceptor only go up |
| `CasRuns.Fencing` | core/src/operators/operations/cas/PrepareCasOperator.cpp:8-30 | over whole runs: a node that accepted round a and promised the higher round b, in either order, forces b to start from a's stamp or later |
| `CasRuns.CommittedFenced` | core/src/operators/operations/cas/CasOperator.cpp:8-29 | of two committed rounds with one proposer or a common witness, the higher starts from the lower's write or later |
| `CasRuns.OneWinner` | core/src/operators/operations/cas/CasOperator.cpp:8-29 | of two committed rounds that go up from one starting stamp, the higher shares neither proposer nor a promising acceptor with the lower |
| `CasRuns.NextsDiffer` | core/src/operators/operations/cas/CasOperator.cpp:57-72 | the stamp of a committed round is that of no later round and of no other committed round |
| `CasRuns.StampsNameProposer` | core/src/operators/operations/cas/CasOperator.cpp:101-119 | the stamp of a round carries its proposer's node id |
| `CasCompare.RoundsCompared` | core/src/operators/operations/cas/CasOperator.cpp:8-72 | every round of every reachable state was opened by a PREPARE of a request still in progress, when the proposer stored the value the request expected; the round starts from that value's stamp, carries the request's new value and is stamped above the clock the request began with |
| `CasCompare.MismatchEnds` | core/src/operators/operations/cas/CasOperator.cpp:50-72 | in every run a PREPARE opens a round if and only if the stored value is the expected one; otherwise the request ends and nothing else changes |
| `CasCompare.FinishExactly` | core/src/operators/operations/cas/CasOperator.cpp:18-48 | in every run the proposer ends by storing the new value under the stamp of the round, its clock raised to it, or keeps a greater stamp, and then the round commits only when the store does not report it; nothing else changes |
| `CasCompare.PrepareAnswers` | core/src/operators/operations/cas/PrepareCasOperator.cpp:8-30 | in every run a node refuses PREPARE exactly when it stores something newer than the round starts from or has promised a higher one, and otherwise promises the round; nothing else changes |
| `CasCompare.AcceptAnswers` | core/src/operators/operations/cas/AcceptCasOperator.cpp:8-44 | in every run a node refuses ACCEPT in the same cases, and otherwise stores the value under the stamp of the round unless it stores a greater one; the clock is raised to that stamp; it answers success if it had promised anything and the store reported no rejection; nothing else changes |
| `CasCompare.AnyDelivery` | core/src/operators/operations/cas/CasOperator.cpp:50-90 | in every state of every run every PREPARE, and every ACCEPT once sent, can reach any node but its proposer, now or again; idle nodes can begin, working ones give up, and any SET can come in between |
| `CasCompare.SetLands` | core/src/db/AVLTree.h:273-295 | in every run a client's SET in between always lands, under a stamp one above the greater of the clock and the client's; a replicated one unless a greater stamp is stored, the clock raised to it |
| `CasCompare.CanSucceed` | core/src/operators/operations/cas/CasOperator.cpp:8-90 | from every state an idle node up to date with a quorum of others has a continuation, with truthful store results, in which its request commits and it and all of them hold the new value under the stamp of the round |
| `CasCompare.MayCommitExactly` | core/src/operators/operations/cas/CasOperator.cpp:8-90 | in every state of every run some continuation commits a round from the value an idle node stores, with truthful store results, if and only if a quorum of other nodes store nothing newer |
| `CasQuorums.QuorumsMeet` | core/src/cluster/othernodes/MultipleResponses.cpp:13-18 | two passing answer sets, each with its proposer added, share a node |
| `CasQuorums.CommittedMeet` | core/src/cluster/othernodes/MultipleResponses.cpp:13-18 | in every run, the acceptors of one committed round and the promisers of another, with their proposers, share a node |
| `CasQuorums.WitnessThreshold` | core/src/cluster/othernodes/MultipleResponses.cpp:13-18 | q answers that leave the proposers out force a common witness if and only if 2q exceeds the number of nodes |
| `CasQuorums.CodeQuorumIsOneShort` | core/src/cluster/othernodes/MultipleResponses.cpp:13-18 | the count the code waits for does not by itself make the answers to two proposers share a node; one more always does |
| `CasQuorums.CountsFence` | core/src/operators/operations/cas/CasOperator.cpp:8-29 | committed rounds whose answer counts together exceed the cluster are fenced |
| `CasScenarios.TwoWinners` | core/src/operators/operations/cas/CasOperator.cpp:50-90 | for every cluster of two or more nodes, a run in which two rounds from one stamp both commit and the higher skips the lower's write; truthful when the number of nodes is odd |
| `CasScenarios.OneStampTwoValues` | core/src/operators/operations/cas/CasOperator.cpp:18-29 | for every cluster of three or more nodes, a run in which two rounds carry one stamp and different values, the second commits, and nodes keep either value under that stamp |
| `CasScenarios.StampsAhead` | core/src/operators/operations/cas/CasOperator.cpp:57-72 | in every state that keeps the invariant, a node without a request in progress can still propose under a stamp, in some continuation, if and only if the stamp carries its id and a counter above its clock |
| `CasFencing.RunAcceptorsFence` | core/src/operators/operations/cas/AcceptCasOperator.cpp:15-24 | in every run a node that accepted two rounds forces the higher to start from the lower's write or later |
| `CasFencing.RunProposersFence` | core/src/operators/operations/cas/CasOperator.cpp:28-47 | in every run with truthful store results, so does the proposer of a committed round that accepted a higher one |
| `CasFencing.EvenFences` | core/src/operators/operations/cas/CasOperator.cpp:8-48 | with an even number of nodes and truthful store results, every two committed rounds are fenced |
| `CasFencing.FencesExactly` | core/src/operators/operations/cas/CasOperator.cpp:8-48 | every run of n nodes fences all committed rounds, and has at most one winner per starting stamp, if and only if n is even or one (truthful store results) or n is at most one (any) |
| `CounterArray.CounterArrayIndexMapper.GetIndex` | core/src/db/counters/CounterArrayIndexMapper.cpp:3-11 | slots are given out densely and injectively, and never change |
| `CounterArray.Counter.constructor` | core/src/db/counters/Counter.cpp:3-7 | all slots start at zero |
| `CounterArray.Counter.Increment` | core/src/db/counters/Counter.cpp:9-11 | adds one to this node's increments, returns it, and touches no other node |
| `CounterArray.Counter.Decrement` | core/src/db/counters/Counter.cpp:13-15 | adds one to this node's decrements, returns it, and touches no other node |
| `CounterArray.Counter.MaybeResizeCounters` | core/src/db/counters/Counter.cpp:68-82 | makes room for a slot and keeps every value |
| `CounterArray.Counter.SyncIncrement` | core/src/db/counters/Counter.cpp:17-24 | the other node's increments become the maximum, nothing else changes |
| `CounterArray.Counter.SyncDecrement` | core/src/db/counters/Counter.cpp:26-33 | the other node's decrements become the maximum, nothing else changes |
| `CounterArray.Counter.OnReplicationCounter` | core/src/db/counters/Counter.cpp:48-66 | the sender's increments, or decrements, become the greater of what was known and the value sent, the other count and all other nodes stay; the answer carries this node's own counts exactly where the sender's last seen values are below them, and zero otherwise |
| `CounterArray.Counter.OnReplicationCounterResponse` | core/src/operators/operations/user/UpdateCounterOperator.cpp:58-74 | an answer brings both sides of the view up to it, and nothing else changes |
| `CounterArray.Counter.GetLastSeen` | core/src/db/counters/Counter.cpp:98-107 | reports what is known of a node, or zeros for an id past the arrays; never more than is known |
| `CounterArray.Counter.TotalIsSum` | core/src/db/counters/Counter.cpp:35-46 | the array sums equal the abstract sum over the nodes heard of |
| `CounterArray.Counter.Count` | core/src/db/counters/Counter.cpp:35-46 | the loops compute the sum over all nodes heard of, increments less decrements |
| `CounterProtocol.NextKeepsInv` | core/src/operators/operations/user/UpdateCounterOperator.cpp:3-74 | every step of counting, taking a copy along, sending, merging and answering keeps the invariant, and what stored counters and copies hold only grows |
| `CounterProtocol.RequestTeaches` | core/src/operators/operations/cluster/ReplicateCounterOperator.cpp:5-49 | in every run a delivered request makes what the receiver's stored counter knows of the sender's increments, or decrements, the greater of that and the value sent, leaves the other count, every other node and all updates alone, and is answered with the receiver's own counts exactly where it reported fewer |
| `CounterProtocol.AnswerOnlyTells` | core/src/operators/operations/user/UpdateCounterOperator.cpp:52-74 | in every run an answer leaves what the requester knows of other nodes, and all other nodes, alone; of the answering node it comes to know what it knew or what the node had |
| `CounterProtocol.CopyIsTold` | core/src/operators/operations/user/UpdateCounterOperator.cpp:52-74 | in every run the copy an answer is applied to learns it, resized or not: of the answering node it then knows the greater of what it knew and what it is told, of others what it knew, and no message or count changes |
| `CounterProtocol.CapturedStays` | core/src/operators/operations/user/UpdateCounterOperator.cpp:25-53 | in every run an update goes on with the count and the arrays it was captured with |
| `CounterProtocol.ViewsGrow` | core/src/db/counters/Counter.cpp:84-96 | along every run what stored counters and all copies know only grows, and no arrays hold more of a node than it counted |
| `CounterProtocol.AnswerCatchesUp` | core/src/operators/operations/user/UpdateCounterOperator.cpp:25-74 | a delivered answer brings the stored counter up to the responder's increments at reply time if and only if they were known, or the copy it is applied to still holds the stored arrays with room for the responder and the request reported fewer; likewise for the decrements, by what the receiver read as reported |
| `CounterProtocol.FirstAskedCatchesUp` | core/src/operators/operations/cluster/ReplicateCounterOperator.cpp:5-49 | an answer that reaches the stored counter, from the node whose counts the request reported, always brings the increments up, and the decrements unless the reported increments hide them |
| `CounterProtocol.HoldsStoredExactly` | core/src/db/counters/Counter.cpp:68-82 | in every run and at every later point, the copy an update took along still holds the stored arrays if and only if both have the size the stored arrays had when it was taken |
| `CounterProtocol.OwnSlotAlwaysFits` | core/src/db/counters/Counter.cpp:9-15 | with two slots or more at creation, in every state of every run every node can count and send out what it has counted, and every request and answer can be handled, within the arrays |
| `CounterModel.DecrementsHidden` | core/src/operators/operations/cluster/ReplicateCounterOperator.cpp:8-10 | seen increments whose low half lies above zero and below 2^31 keep a node with at most 2^32 decrements from answering with them |
| `CounterScenario.OtherReportHides` | core/src/operators/operations/user/UpdateCounterOperator.cpp:38-50 | a run of three nodes in which an answer that reaches the stored counter tells it nothing and leaves it behind, because the request reported what was seen of the node asked first |
| `CounterArray.AnswerCopy` | core/src/operators/operations/user/UpdateCounterOperator.cpp:26-74 | an answer to the copy writes one slot as the protocol does, and brings the stored counter up to it if and only if the two share their arrays and these have room for the answering node; they go on sharing exactly when there was room or nothing to write; nothing else changes |
| `CounterArray.ThirdAnswerIsLost` | core/src/operators/operations/user/UpdateCounterOperator.cpp:52-74 | with two slots taken, the answer of a third node arrives in the copy and not in the stored counter |
| `CounterArray.CopyGetsAhead` | core/src/operators/operations/user/UpdateCounterOperator.cpp:38-53 | after the stored counter has moved to larger arrays, an answer to one copy makes another one know more than the stored counter |
| `CounterProtocol.CountIsExactWhenCaughtUp` | core/src/db/counters/Counter.cpp:35-46 | the sums over a node's arrays never exceed all increments and decrements of the run, equal them if and only if the node is caught up with every node, and its count is then exact |
| `CounterAgreement.AgreementReachable` | core/src/operators/operations/user/UpdateCounterOperator.cpp:3-74 | from every state of every run of counters made with a slot for every node there is a way on, without counting, after which every node is caught up with every node and its count is all increments less all decrements |
| `AvlModel.RebalanceBalances` | core/src/db/AVLTree.h:298-319 | one node out of balance by two is balanced again by the right one of the four rotation cases |
| `AvlModel.InsertRebalances` | core/src/db/AVLTree.h:231-296 | below an insertion, rebalancing always applies and restores stored heights and balance |
| `AvlModel.RebalanceSameIndex` | core/src/db/AVLTree.h:298-347 | rotations keep hash order, the set of hashes and every lookup |
| `AvlModel.InsertContents` | core/src/db/AVLTree.h:231-296 | an insertion changes exactly the one entry the stamp rule allows, and keeps hash order |
| `AvlModel.RejectedWriteChangesNothing` | core/src/db/AVLTree.h:264-282 | a rejected write, at the root or below, leaves the whole tree as it was, rebalancing included |
| `AvlModel.WriteLands` | core/src/db/AVLTree.h:231-296 | what a write makes of the entry under its hash, in full: a counter, or a value with a greater stamp where stamps count, stays; otherwise the new value under the old key text, with the sender's stamp or, for a client, one made of the clock; every other hash is untouched |
| `AvlModel.CounterContents` | core/src/db/AVLTree.h:208-229 | inserting a counter keeps hash order and every entry, and adds the counter exactly when its hash is free |
| `AvlModel.BalancedIsBushy` | core/src/db/AVLTree.h:354-367 | a tree of stored height h has at least Fib(h+3)-1 nodes |
| `AvlModel.StoredHeightBoundsDepth` | core/src/db/AVLTree.h:49 | true depth exceeds stored height by at most one |
| `AvlModel.DepthFromHeight` | core/src/db/AVLTree.h:49 | true depth is the stored height, and one more exactly where a way down along the stored heights ends in a node that still has the height it was created with |
| `AvlModel.TrulyBalancedExactly` | core/src/db/AVLTree.h:298-319 | the tree is balanced by its true depths if and only if nowhere a child of greater stored height lags while the other does not |
| `AvlModel.ThreeInAChain` | core/src/db/AVLTree.h:231-296 | three entries put in by increasing hash hang in a chain |
| `AvlModel.DepthIsLogarithmic` | core/src/db/AVLTree.h:85-102 | depth is logarithmic in the number of entries |
| `AvlModel.InOrderListsIndex` | core/src/db/AVLTree.h:104-121 | the in-order walk lists each entry once, in increasing hash order |
| `AvlTree.AvlTree.RotateRight` | core/src/db/AVLTree.h:321-333 | the relinked nodes spell the rotated tree, with the same nodes and the root pointer moved only if it was this node |
| `AvlTree.AvlTree.RotateLeft` | core/src/db/AVLTree.h:335-347 | the relinked nodes spell the rotated tree, with the same nodes and the root pointer moved only if it was this node |
| `AvlTree.AvlTree.Rebalance` | core/src/db/AVLTree.h:298-319 | the relinked nodes spell the rebalanced tree and the root pointer is right |
| `AvlTree.AvlTree.InsertRecursiveData` | core/src/db/AVLTree.h:231-296 | the linked nodes spell the insertion; null is returned exactly when the node itself rejects; clock and reported timestamp follow |
| `AvlTree.AvlTree.AddData` | core/src/db/AVLTree.h:42-57 | contents, balance, order, root and clock after a write; the timestamp reported is that of the stored entry, or zero on a rejection; an error only when the root itself rejects |
| `AvlTree.AvlTree.InsertRecursiveCounter` | core/src/db/AVLTree.h:208-229 | the linked nodes spell the insertion of a counter; null is returned exactly when the node itself has the hash |
| `AvlTree.AvlTree.AddCounter` | core/src/db/AVLTree.h:59-65 | contents, balance and order after a counter is put in; an error only when the root has its hash |
| `AvlTree.AvlTree.Get` | core/src/db/AVLTree.h:85-102 | finds the node of a hash or null, in at most depth plus one steps |
| `AvlTree.AvlTree.GetOrderedByHash` | core/src/db/AVLTree.h:104-121 | every entry, once, in increasing hash order |
| `Bits.RoundUpPowerOfTwo` | core/src/utils/Utils.h:68-83 | the shifts and ors on 32-bit words give the least power of two at or above n for n up to 2^31; zero beyond |
| `Bits.MaskIsModulo` | core/src/utils/Utils.h:63-66 | the bitwise and with a power of two less one is the remainder |
| `BucketMap.BucketMap.constructor` | core/src/db/Map.h:123-131 | for n up to 2^31, as many empty buckets as the least power of two at or above n, so no hash is found; beyond, none |
| `BucketMap.BucketMap.GetBucket` | core/src/db/Map.h:75-77 | the bucket is the hash modulo the number of buckets |
| `BucketMap.BucketMap.PutData` | core/src/db/Map.h:133-152 | over buckets of linked trees: the map changes at one hash only, by the stamp rule; the clock follows; the timestamp reported is that of the stored entry, or zero on a rejection; an error is reported exactly when the root of the bucket rejects; the trees stay apart |
| `BucketMap.BucketMap.Get` | core/src/db/Map.h:202-217 | the entry the map holds under a hash |
| `BucketMap.BucketMap.BucketIterator` | core/src/db/Map.h:96-118 | each bucket yields exactly its entries, once, in hash order |
| `Operations.ReplayAt` | core/src/MemDb.cpp:74-97 | an entry after replay depends on the operations of its own key only |
| `Operations.LastDecides` | core/src/db/AVLTree.h:279-292 | replaying the operations of a key is replaying the last one, from any entry, when that one is the newest |
| `Compaction.SurvivorIsLast` | core/src/persistence/compaction/singlethreaded/SingleThreadedLogCompacter.cpp:10-25 | the operation kept for a key has the last one's timestamp if and only if the last one is the newest |
| `Compaction.Compact` | core/src/persistence/compaction/singlethreaded/SingleThreadedLogCompacter.cpp:3-28 | a pass appends one survivor for all keys that agree up to a zero byte, relative to the timestamps seen before, and records the timestamps it meets first |
| `Compaction.KeepsLastsExactly` | core/src/persistence/compaction/singlethreaded/SingleThreadedLogCompacter.cpp:3-28 | compaction keeps exactly the last operation for each key name, the key up to a zero byte, if and only if each is the newest of its name |
| `Compaction.CompactLog` | core/src/persistence/compaction/singlethreaded/SingleThreadedLogCompacter.cpp:3-28 | the compaction of one log on its own: one survivor for each key name, the last one throughout exactly when those are the newest |
| `Settling.SettlesExactly` | core/src/db/AVLTree.h:279-292 | one operation of a key replays as itself with the later ones, from every entry, if and only if none is newer and: after a SET, the last of its timestamp sets the same value; after a DEL, each SET is followed by a DEL at least as new |
| `Compaction.CompactionExactly` | core/src/persistence/compaction/singlethreaded/SingleThreadedLogCompacter.cpp:3-28 | from every store, replaying the compacted log in any order equals replaying the log if and only if no two keys agree up to a zero byte and the operation kept of each key settles what comes after it |
| `Compaction.SelectionExactly` | core/src/persistence/segments/OplogIndexSegmentWriter.cpp:9-16 | any operations of a log, ordered within each key, replay as the log from every store if and only if for each key the last one kept stands for all |
| `Compaction.CompactionPreservesReplay` | core/src/persistence/compaction/singlethreaded/SingleThreadedLogCompacter.cpp:3-28 | the last operation of each key, in any order, replays as the whole log from any store when each is the newest of its key |
| `Compaction.CompactionsAgree` | core/src/persistence/compaction/OperationLogCompacter.cpp:3-7 | two compactions of a log that keep the last operation of each key name differ in order at most |
| `Compaction.OutOfOrderLoses` | core/src/persistence/compaction/singlethreaded/SingleThreadedLogCompacter.cpp:15-21 | with timestamps 4, 5, 3 the kept operation is 4, and replay differs |
| `Compaction.TwinLoses` | core/src/utils/strings/SimpleString.h:55-57 | of SETs on the keys 1 0 2 and 1 0 3 only the second is kept, and replay loses the first key |
| `ParallelCompaction.Block.Leaf` | core/src/persistence/compaction/multithreaded/MultithreadedCompactionBlock.cpp:49-55 | a leaf holds its share of the log; the last share takes the remainder |
| `ParallelCompaction.CreateBlocksByPhase` | core/src/persistence/compaction/multithreaded/MultithreadedLogCompactor.cpp:14-38 | phase p has 2^p blocks, all different; the last phase holds the shares in order |
| `ParallelCompaction.FillTreeChilds` | core/src/persistence/compaction/multithreaded/MultithreadedLogCompactor.cpp:40-64 | every block above the last phase is linked to the two below it |
| `ParallelCompaction.RootHoldsLog` | core/src/persistence/compaction/multithreaded/MultithreadedLogCompactor.cpp:7-12 | the leaves below the root, in order, hold exactly the log |
| `ParallelCompaction.Log2Bounds` | core/src/persistence/compaction/multithreaded/MultithreadedLogCompactor.cpp:3-12 | the number of phases is one more than the exponent of the greatest power of two within the number of threads |
| `ParallelCompaction.MergedDecides` | core/src/persistence/compaction/multithreaded/MultithreadedCompactionBlock.cpp:19-32 | merging two children keeps only operations of the two, at least one if there are any, and exactly the last of a key name whenever it is the newest |
| `ParallelCompaction.MergeAndCompact` | core/src/persistence/compaction/multithreaded/MultithreadedCompactionBlock.cpp:24-30 | per key name: the survivor of the right child, then what the left child has above it |
| `ParallelCompaction.Get` | core/src/persistence/compaction/multithreaded/MultithreadedCompactionBlock.cpp:8-17 | every block hands up only operations below it; inner blocks hand up exactly the last of each key name whose last is the newest |
| `ParallelCompaction.CompactInParallel` | core/src/persistence/compaction/multithreaded/MultithreadedLogCompactor.cpp:3-12 | for every thread count: for each key name what the tree of shares keeps of the log, which is exactly the last operation when that is the newest |
| `ParallelCompaction.CompactAny` | core/src/persistence/compaction/OperationLogCompacter.cpp:3-7 | up to ten operations the survivors of one pass, beyond what the tree keeps; either way only operations of the log, and the last of a key name when it is the newest |
| `SortedReplay.OrdersExactly` | core/src/persistence/segments/OplogIndexSegmentWriter.cpp:9-16 | whatever operations of a log are kept, all their orders by timestamp replay as the log from every store if and only if each newest one kept of a key stands for all of the key |
| `SortedReplay.TreeExactly` | core/src/persistence/compaction/multithreaded/MultithreadedLogCompactor.cpp:3-12 | for every log and thread count that is so for what the tree keeps, a condition on the log and the thread count alone |
| `SortedReplay.TreeLoses` | core/src/persistence/compaction/multithreaded/MultithreadedCompactionBlock.cpp:19-32 | with one thread, of nine operations on other keys and then timestamps 4, 5, 3 the tree keeps 4, and replay differs |
| `ByteCodec.AppendToBuffer` | core/src/utils/Utils.h:221-229 | the shifting loop appends the big-endian bytes |
| `ByteCodec.BigEndianAt` | core/src/utils/Utils.h:221-229 | the i-th of w bytes is the number divided by 256 to the power w-1-i, modulo 256 |
| `ByteCodec.ParseFromBuffer` | core/src/utils/Utils.h:210-219 | the shifting loop reads a big-endian number of up to four bytes |
| `ByteCodec.U64RoundTrip` | core/src/utils/Utils.h:210-219 | an eight-byte number is read back exactly when it is below 2^31 |
| `LogCodec.FlaggedByteRead` | core/src/messages/request/RequestDeserializer.cpp:73-79 | number modulo 64 and both flags are read back from their shared byte |
| `LogCodec.FlagLayout` | core/src/persistence/serializers/OperationLogSerializer.cpp:23-43 | the shared byte is four times the number, plus two for the first flag, plus one for the second |
| `LogCodec.RecordLayout` | core/src/persistence/serializers/OperationLogSerializer.cpp:23-43 | where every part of a record is: the shared byte, eight bytes of timestamp, the arguments, four zeros |
| `LogCodec.ArgLayout` | core/src/persistence/serializers/OperationLogSerializer.cpp:23-43 | every argument is at its place: its length in four bytes, and its content |
| `LogCodec.ParseRecord` | core/src/messages/request/RequestDeserializer.cpp:22-60 | a record at the front of a buffer is read back, node id apart, exactly when its fields are readable |
| `LogCodec.LogRoundTrip` | core/src/persistence/serializers/OperationLogDeserializer.cpp:3-25 | a log of any length is read back, node ids apart, if and only if every operation is storable: number below 64, timestamp below 2^31, non-empty arguments, record of at most 255 bytes |
| `LogCodec.LargeTimestampIsLost` | core/src/utils/Utils.h:210-219 | an operation stamped 2^31 is written and not read back |
| `LogCodec.RecordsAppend` | core/src/persistence/serializers/OperationLogSerializer.cpp:13-21 | serialising distributes over append |
| `LogCodec.Serialize` | core/src/persistence/serializers/OperationLogSerializer.cpp:23-43 | appends the record, or never ends on an argument of 256 bytes or more |
| `LogCodec.SerializeEach` | core/src/persistence/serializers/OperationLogSerializer.cpp:13-21 | the records of all operations in order |
| `LogCodec.DeserializeOperation` | core/src/messages/request/RequestDeserializer.cpp:22-60 | reads an operation at a position, or leaves the buffer |
| `LogCodec.DeserializeEach` | core/src/persistence/serializers/OperationLogDeserializer.cpp:3-25 | reads a whole log by eight-bit steps |
| `RequestCodec.SerializeRequest` | core/src/messages/request/RequestSerializer.cpp:3-23 | request number, key, operation, optional node id and arguments |
| `RequestCodec.RequestLayout` | core/src/messages/request/RequestSerializer.cpp:3-23 | where every part of a request is: its number, the byte of key length and flags, the key, the byte of operation and flags, the timestamp, the node id when it is sent, the arguments |
| `RequestCodec.DeserializeRequest` | core/src/messages/request/RequestDeserializer.cpp:3-20 | reads a request, or leaves the buffer |
| `RequestCodec.RequestRoundTrip` | core/src/messages/request/RequestDeserializer.cpp:3-60 | reading undoes writing if and only if the key is shorter than 64 bytes, the operation is readable, and the node id is sent or is 1 |
| `OplogFiles.BuildSegment` | core/src/persistence/segments/OplogIndexSegmentWriter.cpp:9-16 | the segment holds sorted operations of the batch, and replays as the batch if and only if for each key the last one kept stands for all; up to ten operations, if and only if no keys agree up to a zero byte and each key is settled; beyond, it holds what the tree keeps, and replays as the batch when each newest one kept of a key stands for all |
| `OplogFiles.Oplog.WriteSegment` | core/src/persistence/segments/OplogIndexSegmentWriter.cpp:9-34 | appends one segment and its descriptor; the files hold one segment per batch, without gaps, each with what is left of its batch |
| `OplogFiles.Oplog.StoredAt` | core/src/persistence/segments/OplogIndexSegmentWriter.cpp:20-31 | every descriptor delimits its own bytes, next to its neighbours' and up to the end of the file, and its minimum and maximum are those of its sorted operations |
| `OplogFiles.Oplog.AddAll` | core/src/persistence/intermediate/IntermediateOplog.cpp:18-28 | everything added is accounted for; a batch is flushed exactly when the intermediate file outgrows the limit; bytesWritten equals the intermediate length and stays within the limit |
| `OplogFiles.Oplog.ReadDescribed` | core/src/persistence/segments/OplogIndexSegmentReader.cpp:45-53 | from any file, the bytes a descriptor delimits are refused when their checksum differs and otherwise uncompressed and read |
| `OplogFiles.Oplog.ReadSegment` | core/src/persistence/segments/OplogIndexSegmentReader.cpp:45-53 | a segment read through its descriptor passes the checksum and is what was written |
| `OplogFiles.Oplog.SegmentsEndAsAdded` | core/src/persistence/segments/OplogIndexSegmentWriter.cpp:9-34 | for every key the segments end as the batches flushed into them do, when keys differ before a zero byte and timestamps of a key never go down |
| `OplogFiles.Oplog.LosesNothing` | core/src/persistence/SingleOperationLog.cpp:74-82 | after any additions in that order and any flushes, the segments in order and then the intermediate file replay as everything ever added, from any store |
| `Restore.OplogIterator.Next` | core/src/persistence/OplogIterator.cpp:24-45 | hands out the intermediate operations first and then the segments, each once |
| `Restore.ApplyOplog` | core/src/MemDb.cpp:74-97 | the restored store is the replay of what the iterator hands out |
| `Restore.SwappedExactly` | core/src/persistence/OplogIterator.cpp:19-32 | the operations of a key in segments and in the intermediate file can be swapped if and only if the last one in segments is harmless |
| `Restore.RestoredExactly` | core/src/persistence/OplogIterator.cpp:19-45 | an empty store restored from a log added to in order equals the replay of everything ever added if and only if the log recovers |
| `Restore.DeletedComesBack` | core/src/persistence/OplogIterator.cpp:24-32 | a log that was added a SET, which it flushed, and then a DEL of the key, brings the key back when applied |
| `SegmentSearch.SearchEndsExactly` | core/src/persistence/segments/OplogIndexSegment.cpp:97-127 | over ordered segments the search ends if and only if the timestamp is inside some segment or before the first |
| `SegmentSearch.AboveAllNeverEnds` | core/src/persistence/segments/OplogIndexSegment.cpp:112-124 | a timestamp above every segment keeps the search going forever |
| `SegmentSearch.ClosingStep` | core/src/persistence/segments/OplogIndexSegment.cpp:112-124 | a round keeps the target between the bounds and gets nearer, also when the bounds do not move |
| `SegmentSearch.BinarySearchByTimestamp` | core/src/persistence/segments/OplogIndexSegment.cpp:97-127 | stays in bounds, ends, and lands on a segment that holds the timestamp, or on the first |
| `SegmentSearch.GetByAfterTimestamp` | core/src/persistence/segments/OplogIndexSegment.cpp:22-27 | gives the segments from one that holds the timestamp on, those after it starting at or after its end, or all of them when there are none, the timestamp is zero or it is before the first; what is omitted ends at or before the timestamp |
| `SegmentSearch.OmitsNothingLater` | core/src/persistence/segments/OplogIndexSegment.cpp:22-27 | the omitted segments of a valid log hold no later operation |
| `SegmentSearch.OrderedLogOrderedIndex` | core/src/persistence/segments/OplogIndexSegmentWriter.cpp:12-26 | operations flushed in timestamp order leave an index in order, as the search needs it |
| `RingModel.OwnersRightExactly` | core/src/cluster/partitions/RingEntries.cpp:146-170 | the lookup finds the owner of every position if and only if the ring is sorted from its head |
| `RingModel.JoinedSortedExactly` | core/src/cluster/partitions/RingEntries.cpp:3-63 | a joining node keeps the ring sorted if and only if its position is new and, in a ring of two or more, above the head's |
| `RingModel.JoinBelowHeadMisroutes` | core/src/cluster/partitions/RingEntries.cpp:57-62 | with 10 and 20 in the ring, adding 5 sends position 25 to it |
| `RingModel.WithoutSorted` | core/src/cluster/partitions/RingEntries.cpp:75-81 | leaving keeps the ring sorted |
| `RingModel.HeadGoneExactly` | core/src/cluster/partitions/RingEntries.cpp:146-170 | with the head taken out, the lookup finds the owner if and only if the position lies from the first of the others up to the last; elsewhere it finds the node that is gone |
| `RingModel.Distances` | core/src/cluster/partitions/RingEntries.cpp:172-217 | the signed distance is a shortest way, the one-way distances are what they say, and sum to the ring size for distinct nodes |
| `RingModel.ClockwiseListed` | core/src/cluster/partitions/RingEntries.cpp:83-100 | the clockwise list holds exactly the nodes at most k steps on, each once |
| `RingModel.CounterClockwiseListed` | core/src/cluster/partitions/RingEntries.cpp:102-120 | the counter-clockwise list holds exactly the nodes at most k steps back, each once |
| `RingModel.NeighborListsDual` | core/src/cluster/partitions/RingEntries.cpp:83-120 | one node lists another clockwise if and only if the other lists it counter-clockwise |
| `RingModel.HoldersExactly` | core/src/cluster/partitions/Partitions.cpp:76-85 | a node accepts a key if and only if it is the owner or within the owner's replica lists |
| `RingModel.KeyIsCovered` | core/src/cluster/partitions/Partitions.cpp:76-85 | every key is accepted by its owner and the owner's clockwise replicas: at least min(n, nodesPerPartition) nodes |
| `Ring.RingEntries.FromEntries` | core/src/cluster/partitions/RingEntries.cpp:223-251 | two or more entries become a sorted circle, links inverse, index exact, head minimal |
| `Ring.RingEntries.Add` | core/src/cluster/partitions/RingEntries.cpp:3-63 | the linked circle becomes the ring with the node joined, or stays when the id is known |
| `Ring.RingEntries.DeleteByNodeId` | core/src/cluster/partitions/RingEntries.cpp:75-81 | the linked circle loses exactly that node; an unknown id is an error; a head that is taken out stays the head and leads to the circle |
| `Ring.RingEntries.GetRingEntryBelongsToPosition` | core/src/cluster/partitions/RingEntries.cpp:146-170 | the walk returns the owner of the ring model, or what the model says of a ring whose head is gone |
| `Ring.RingEntries.GetDistance` | core/src/cluster/partitions/RingEntries.cpp:174-199 | the walk returns the signed shortest distance |
| `Ring.RingEntries.GetDistanceClockwise` | core/src/cluster/partitions/RingEntries.cpp:211-217 | the forward distance |
| `Ring.RingEntries.GetDistanceCounterClockwise` | core/src/cluster/partitions/RingEntries.cpp:202-208 | the backward distance |
| `Ring.RingEntries.GetNeighborsClockwise` | core/src/cluster/partitions/RingEntries.cpp:83-100 | the clockwise list of the ring model |
| `Ring.RingEntries.GetNeighborsCounterClockwise` | core/src/cluster/partitions/RingEntries.cpp:102-120 | the counter-clockwise list of the ring model |
| `Ring.RingEntries.CanHoldKey` | core/src/cluster/partitions/Partitions.cpp:76-85 | whether the node is near enough to the owner |
| `Framing.PacketRoundTrip` | core/src/server/Connection.cpp:56-112 | a packet is read back, using up exactly its bytes, if and only if its length is not a multiple of 1024 |
| `Framing.StreamRoundTrip` | core/src/server/Connection.cpp:128-186 | packets written back to back are read back as that sequence, using up exactly the bytes written, if and only if no length is a multiple of 1024 |
| `Framing.EmptyPacketIsSkipped` | core/src/server/Connection.cpp:64-73 | an empty packet is never delivered |
| `Framing.FrameLayout` | core/src/server/Connection.cpp:128-146 | where the parts of a frame are: the kind, the length in four bytes, the content |
| `Framing.PacketLayout` | core/src/server/Connection.cpp:128-186 | a packet below 1024 bytes is one frame of kind 0; of a longer one there is every 1029 bytes a frame of kind 1 with the next 1024, and at the end one of kind 3 with what is left, possibly nothing |
| `Framing.Connection.WriteSync` | core/src/server/Connection.cpp:128-146 | sends the frames of the packet |
| `Framing.Connection.FragmentPacketAndSend` | core/src/server/Connection.cpp:148-186 | the loop sends the fragments in order |
| `Framing.Connection.ReadPacketContent` | core/src/server/Connection.cpp:64-81 | reads one length and its content, skipping lengths of zero |
| `Framing.Connection.ReadFragmentedPacket` | core/src/server/Connection.cpp:83-112 | reads fragments up to the last and joins them |
| `Framing.Connection.ReadSync` | core/src/server/Connection.cpp:48-62 | reads one packet of either kind |
| `SharedLock.RunKeepsInv` | core/src/utils/threads/SharedLock.cpp:3-31 | in every interleaving of the single mutex and counter steps the invariant holds |
| `SharedLock.MutualExclusion` | core/src/utils/threads/SharedLock.cpp:3-31 | a writer never coexists with a reader or another writer |
| `SharedLock.CountsExact` | core/src/utils/threads/SharedLock.cpp:3-31 | in every state the shared count is the number of readers inside or in transit, and the exclusive count is one exactly when a writer is counted |
| `SharedLock.SomeoneCanStep` | core/src/utils/threads/SharedLock.cpp:3-31 | while a thread waits, some thread that is in a call or holds the lock can step |
| `SharedLock.BlockedExactly` | core/src/utils/threads/SharedLock.cpp:3-31 | in every state of every run a thread is held up if and only if it wants to count and another is inside the counting section, or it wants the lock and a reader or writer has it |
| `SharedLock.ReaderJoins` | core/src/utils/threads/SharedLock.cpp:3-11 | in every state of every run with a reader inside and nobody counting, a thread that asks for the shared lock reads three of its steps later, and all others are where they were |
| `SharedLock.WriterEnters` | core/src/utils/threads/SharedLock.cpp:23-31 | in every state of every run with neither reader nor writer, a thread that asks for the lock writes two of its steps later |
| `SharedLock.AllReadAtOnce` | core/src/utils/threads/SharedLock.cpp:3-21 | for every number of threads there is a run in which all read at once |
| `SharedLock.EveryoneCanLeave` | core/src/utils/threads/SharedLock.cpp:3-31 | from every state of every run there is a way on that brings every thread outside, with both mutexes free and both counts zero |

## Left out

- AVL removal and clear: the removal recurses into the left child for a key on the right, so a proof would be of
  other code. Replayed deletions are modelled by the rule they apply to the entry they find.
- CounterProtocol.NextKeepsInv: building two requests of one update at the same time, which appends to one list
  without a lock, and a request to a node whose slot lies past the captured arrays, where the code reads beyond its
  memory.
- Receivers forwarding replicated writes with a new node id, and CAS stamps, in the replicated SET runs: stamp
  uniqueness does not cover them.
- ReplicatedSet.Convergence: for SET only; a DEL leaves no tombstone, so its order matters.
- CasAcceptor.CasNode.Prepare: a missing key is not modelled, because the handler reads through an empty optional.
- CasAcceptor.CasNode.Accept: as for PREPARE.
- CasAcceptor.OnGoingPaxosRounds.RegisterNewPromise: the state of a promise, which has one value only, and the two
  mutexes of the table.
- CasRuns.NextKeepsInv: for a key every node holds as data and with no DEL on it during the run.
- CounterArray.Counter.Increment: for a counter whose arrays hold this node's slot, as `OwnSlotAlwaysFits` proves of a
  counter made with two slots; the code does not resize here.
- CounterArray.Counter.Decrement: as for increments.
- CounterArray.Counter.OnReplicationCounter: for arrays that hold, or get by this call, room for both nodes' slots.
- CounterArray.Counter.GetLastSeen: for an id whose slot lies within the arrays; past them the code reads beyond its
  memory.
- CounterAgreement.AgreementReachable: for counters made with a slot for every node, which is what the code asks for; a
  request to a node whose slot lies past the captured arrays is not modelled.
- RequestCodec.RequestLayout: for operations with arguments; without them the code reads through an empty pointer.
- Counter operations in the log: replaying them twice counts twice, so logs here hold SET and DEL.
- Operations.LastDecides: keys stand for their hashes, so two keys never share one.
- Compaction.CompactionExactly: for operations that carry one node id, as all operations read back from a log do, and
  keys compared as if a zero byte ended them, which the code does not write after a key it reads.
- Compaction.Compact: the order in which kept operations are appended is left open; the code uses its key order.
- ParallelCompaction.CompactInParallel: for at least one hardware thread; the logarithm of zero has no meaning.
- Restore.ApplyOplog: a segment that fails its checksum is not repaired.
- OplogFiles.Oplog.WriteSegment: sizes are not cut to 32 bits, and the bytes of a descriptor are not modelled.
- OplogFiles.Oplog.AddAll: for storable SET and DEL operations; the queue in front of the intermediate file and failing
  disks are not modelled.
- OplogFiles.Oplog.LosesNothing: one way; out of order, `BuildSegment` says exactly when one segment stands for its
  batch, and a later batch may make up for a loss.
- Reading between two timestamps: two searches and a slice.
- SegmentSearch.BinarySearchByTimestamp: for timestamps on which it ends, which `SearchEndsExactly` settles.
- Ring.RingEntries.DeleteByNodeId: after the head was taken out only lookups are modelled.
- Ring.RingEntries.FromEntries: for two or more entries with different ids and positions; a single entry keeps
  uninitialised links.
- Ring.RingEntries.Add: not on an empty ring, whose first node keeps uninitialised links.
- Partition rebalancing, oplog ids of other nodes and hinted handoff: they mostly send requests.
- Framing.Connection.WriteSync: the socket takes all bytes handed to it, and a lost connection is not reopened.
- 64-bit wrap-around of counters and timestamps, and 16-bit heights.
- The `<=` and `>=` of clocks, which nothing uses.
- Hashing, MD5 (RFC 1321), CRC, zlib (RFC 1950), sockets, thread pools, configuration, authentication, the cluster
  manager and the client.
