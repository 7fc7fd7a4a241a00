# Models of the TKAI control planes

A Dafny 4.11 model of the algorithms inside the in-memory platforms of TKAI, with proofs of what
they guarantee: graph search, four ways of checking dependencies, two schedulers with their
executors, a sliding-window limiter, an event log with consumer offsets, a package store and a
text chunker. `dafny verify dfyconfig.toml` checks all of it.

The state that a platform updates in place is a class with the same fields. Its methods carry the
loops of the original and are proved against specifications over values, about which the run-wide
properties are lemmas. `Valid()` of a class is the invariant every operation keeps.

| file | contents |
|---|---|
| `Graphs.dfy`, `Chains.dfy`, `Sorting.dfy`, `Arithmetic.dfy`, `Wrappers.dfy` | walks, reachability, cycles; bounded chains; stable sorting and filtering; rounding up; optional values |
| `Traversal.dfy`, `ShortestPath.dfy`, `Components.dfy`, `KnowledgeGraph.dfy` | the knowledge graph's store and its searches |
| `ImportCycles.dfy`, `DepthFirst.dfy`, `DependencyResolver.dfy`, `AppStore.dfy`, `TaskOrder.dfy`, `Agreement.dfy` | the dependency checkers and their agreement on one graph |
| `Coordination.dfy`, `TaskExecution.dfy`, `MultiAgent.dfy`, `AutonomousOperations.dfy` | allocation and the retrying executors |
| `RateLimiter.dfy` | the limiter of the API gateway |
| `EventLog.dfy`, `Replaying.dfy`, `AtLeastOnce.dfy`, `AtMostOnce.dfy`, `EventStreaming.dfy` | the log, what a pull takes from it and a replay does, the two delivery guarantees, and the platform of topics and groups |
| `CycleClosing.dfy`, `Marketplace.dfy` | when new dependencies close a cycle; releases, installation, upgrade and rollback |
| `Chunking.dfy` | fixed-size chunks and their round trip |

Inputs stand for what the original takes from its surroundings: the time of a request or event, the
hashed partition of an event, random ids, the outcome of schema, size and secret checks, glob
matching, the outcome of each handler call (a function of the attempted item and of the number of
attempts before it) and the space characters of a text.

## Where the code promises less than it seems to

- A depth-first traversal can miss nodes within its bound. The bounds that are complete for every graph on
  given nodes are exactly those of at most one and of at least their number less one; for a traversal the
  nodes are the entities of its graph, and its start
  (`Traversal.DepthFirstCompleteIff`, with a graph for every bound in between in `Traversal.DepthFirstMisses`).
- The cycle search skips targets that are no keys, so it calls a graph with a missing dependency
  acyclic while the other checkers reject it; `Agreement.CheckersAgree` says exactly when they agree.
- Offsets of a consumer group are kept per partition number, not per topic. Acknowledging loses nothing
  exactly when it is in order within the partition number (`AtLeastOnce.AcknowledgeKeepsIff`,
  `AtLeastOnce.PublishKeepsIff`), and a pattern over several topics breaks that
  (`AtLeastOnce.SharedPartitionLoses`).
- Losing nothing is not yet delivering everything: urgent events are pulled first, so an event before them
  in its partition can starve (`AtLeastOnce.UrgentStarves`). For every limit, between publications, the whole
  backlog is served exactly when no waiting events jam (`AtLeastOnce.ServedIff`), and one pull makes progress
  exactly as `AtLeastOnce.ProgressIff` says. One event at a time that means that in each partition earlier
  offsets are delivered sooner (`AtLeastOnce.OneByOneIff`).
- A replay can move an offset forward past events nobody has acknowledged (`AtLeastOnce.ReplayLoses`);
  `AtLeastOnce.ReplayKeepsIff` says exactly when it does not.
- Registering a group again ends its at-most-once guarantee exactly when it was given something
  (`AtMostOnce.FreshOnceIff`, `AtMostOnce.DeliveredAfterRegistration`), and a replay exactly when it
  reaches a delivered event (`AtMostOnce.ReplayOnceIff`, `AtMostOnce.DeliveredTwice`).
- A negative retry limit makes the autonomous executor pass over everything and report success
  (`AutonomousOperations.ExecutionSafety`), and an id equal to `rollback` has its result replaced by
  the rollback note (`AutonomousOperations.RollbackKeepsIff`).
- The package store checks for cycles over latest releases while an older one may be installed, so
  installed releases can depend on each other (`Marketplace.InstalledCycle`);
  `Marketplace.InstallAcyclicIff` and `Marketplace.RollbackAcyclicIff` say exactly when they come to.
  An empty version string means "latest" to the lookup (`Marketplace.RestoredVersion`).
- Token truncation in the chunker loses text (`Chunking.TruncationLoses`); `Chunking.SplitJoinIff` and
  `Chunking.WithoutOverlapIff` say exactly when the text can be rebuilt.
- A request rejected by a later target of the limiter stays recorded for the earlier targets
  (`RateLimiter.RejectedLeavesRecord`); it leaves no record exactly when no limited target comes before the
  refusing one (`RateLimiter.RejectedTracelessIff`).

## Model

| member | source | states |
|---|---|---|
| `KnowledgeGraph.KnowledgeGraphPlatform.CreateGraph` | knowledge_graph/platform.py:269-279 | succeeds exactly for a new id in the caller's scope, stores the graph and nothing else, and keeps the store invariant |
| `KnowledgeGraph.KnowledgeGraphPlatform.AddEntity` | knowledge_graph/platform.py:292-305 | succeeds exactly when graph, entity and caller share one scope, the id is new and the checks pass; every entity keeps its graph's scope |
| `KnowledgeGraph.KnowledgeGraphPlatform.AddRelationship` | knowledge_graph/platform.py:307-322 | succeeds exactly when both ends lie in the edge's graph, the id is new and the weight is not negative; edge ids stay unique and no edge leaves its graph, although the edge's own scope is stored unchecked |
| `KnowledgeGraph.KnowledgeGraphPlatform.LinksKnown` | knowledge_graph/platform.py:307-322 | in every reachable store both ends of each edge a caller may see are entities of the caller's scope, so no lookup inside a search fails |
| `KnowledgeGraph.KnowledgeGraphPlatform.Adjacency` | knowledge_graph/platform.py:380-386 | the dictionary lists, for every node, exactly the targets of its visible edges, in insertion order |
| `KnowledgeGraph.KnowledgeGraphPlatform.Traverse` | knowledge_graph/platform.py:388-423 | the exact admission condition and, for any bound, the exact visiting order; breadth first it is exactly the ball of radius max_depth, depth first it stays within the bound, is complete under a bound of at most one or of at least the graph's own entities (and the start) less one, and the reachable set under the latter; the result lists, of the visited entities of the wanted type, those from the offset on in visiting order, limit of them as far as there are |
| `KnowledgeGraph.SelectedExact` | knowledge_graph/platform.py:416-423 | selecting by type keeps exactly the visited entities of that type, each at the place given by how many come before it |
| `KnowledgeGraph.KnowledgeGraphPlatform.AdjacentsAmong` | knowledge_graph/platform.py:307-322 | the edges of a graph stay among its own entities, so a search meets those and its start only |
| `KnowledgeGraph.Search` | knowledge_graph/platform.py:407-422 | the frontier loop follows the visiting order of either discipline exactly, terminates, and yields the two order properties |
| `Traversal.Visit` | knowledge_graph/platform.py:411-422 | visiting one frontier entry keeps the invariant: depths rise by at most one, nothing visited is deeper than the frontier, every target above the bound is visited in time or waiting |
| `Traversal.Skip` | knowledge_graph/platform.py:415-416 | dropping a visited or too deep entry keeps that invariant, duplicates in the frontier included |
| `Traversal.WaveDone` | knowledge_graph/platform.py:388-423 | an exhausted breadth-first frontier means exactly the nodes at distance at most max_depth, once each, in non-decreasing distance |
| `Traversal.DeepDone` | knowledge_graph/platform.py:406-423 | under a bound of at least the number of entities less one, an exhausted depth-first frontier means exactly the reachable nodes |
| `Traversal.StrategiesAgree` | knowledge_graph/platform.py:411-414 | under that generous bound both strategies visit the same nodes |
| `Traversal.DepthFirstCompleteIff` | knowledge_graph/platform.py:406-423 | a depth bound lets every depth-first traversal of a graph on the known nodes visit everything within it if and only if it is at most one or at least the number of nodes less one |
| `Traversal.DepthFirstMisses` | knowledge_graph/platform.py:413-416 | for every bound in between, a detour of that length whose last node lies within the bound and is met beyond it |
| `Traversal.CompleteWithin` | knowledge_graph/platform.py:413-422 | tight and generous bounds are complete for every graph |
| `Traversal.VisitsOrdered` | knowledge_graph/platform.py:410-422 | from any frontier the visiting order ends as its strategy promises |
| `Traversal.VisitNext` | knowledge_graph/platform.py:410-422 | one step of the exact visiting order, for any bound |
| `KnowledgeGraph.KnowledgeGraphPlatform.ShortestPath` | knowledge_graph/platform.py:425-446 | a real path from source to target with the fewest edges of any path; empty exactly when the target is unreachable |
| `KnowledgeGraph.FindPath` | knowledge_graph/platform.py:436-446 | the queue loop, marking nodes when they are enqueued, finds a shortest path and terminates |
| `ShortestPath.FrontOf` | knowledge_graph/platform.py:438-445 | along any walk the first node not yet expanded is queued no deeper than its place on the walk, so marking at enqueue time loses no shortest path |
| `ShortestPath.FoundShortest` | knowledge_graph/platform.py:440-441 | a path that leaves the queue at the target is no longer than any walk to it |
| `ShortestPath.Exhausted` | knowledge_graph/platform.py:446 | an empty queue means the target is unreachable |
| `ShortestPath.ExpandNew` | knowledge_graph/platform.py:443-445 | enqueuing an unmarked neighbour keeps the invariant of the expansion |
| `KnowledgeGraph.KnowledgeGraphPlatform.Neighborhood` | knowledge_graph/platform.py:448-469 | the entities are the first 100 of the breadth-first ball and the relationships exactly the visible edges with both ends among them, in insertion order |
| `KnowledgeGraph.KnowledgeGraphPlatform.Analyze` | knowledge_graph/platform.py:613-647 | node and edge counts; the centrality of an entity is the number of visible edges that leave it and that enter it by max(1, nodes - 1); entities ranked by falling centrality with ties in dictionary order; connectivity, the number of types that occur, and communities that partition exactly the graph's entities into connectivity classes |
| `KnowledgeGraph.DegreeCounts` | knowledge_graph/platform.py:621-627 | the two counters of a node count the visible edges that leave it and that enter it |
| `KnowledgeGraph.RankedExact` | knowledge_graph/platform.py:637-639 | ranking by centrality lists every entity once, falling, equally central ones in dictionary order |
| `KnowledgeGraph.KnowledgeGraphPlatform.DegreesSum` | knowledge_graph/platform.py:626-631 | the degrees of a graph's entities sum to twice the number of its edges |
| `Components.Handshake` | knowledge_graph/platform.py:626-627 | the counting argument behind it, for any node list that holds all ends |
| `Components.ConnectedComponents` | knowledge_graph/platform.py:650-667 | whichever root is taken each time: sorted repetition-free lists, pairwise disjoint, covering all nodes, each one a connectivity class |
| `Components.Component` | knowledge_graph/platform.py:658-666 | growing one component leaves the unseen rest closed under the edges and yields one whole class |
| `Components.BuildAdjacency` | knowledge_graph/platform.py:651-654 | the neighbour sets are exactly the edges read in both directions |
| `Components.SameComponentIffConnected` | knowledge_graph/platform.py:650-667 | two nodes share a component if and only if an undirected path joins them |
| `Chains.SettledMeaning` | app_store/service.py:382-394 | the recursion used as specification means: every walk stays among known nodes and has fewer than k edges |
| `Chains.SettledIffSound` | app_store/service.py:382-394 | with a bound of at least the number of nodes that is: everything reachable is present and no reachable cycle |
| `Chains.AllSettledIffSound` | multi_agent/platform.py:428-438 | all nodes settle by such a bound if and only if no dependency is missing and the graph is acyclic |
| `Chains.SettledLevel` | multi_agent/platform.py:428-442 | the round in which a node settles is the length of its longest dependency chain |
| `Graphs.DependenciesFirstSound` | scripts/verify-v10-production.py:132-143 | an order with every successor earlier is closed under reachability and meets no cycle |
| `ImportCycles.Cycles` | scripts/verify-v10-production.py:126-148 | returns the empty list if and only if the graph is acyclic; every entry is a closed walk along real edges with distinct interior nodes, no entry is listed twice, and every cycle of the graph uses the closing edge of some entry |
| `ImportCycles.CycleSearch.Visit` | scripts/verify-v10-production.py:131-143 | restores the active stack, only adds to the shared lists, terminates by keys less active nodes, and completes its node or lists a cycle that its edge closes |
| `ImportCycles.BackEdge` | scripts/verify-v10-production.py:132-135 | meeting an active node closes a cycle along the stack |
| `ImportCycles.EveryCycleCloses` | scripts/verify-v10-production.py:131-148 | once all keys are complete every cycle uses the last edge of a listed one |
| `ImportCycles.KeyCyclesAreAllCycles` | scripts/verify-v10-production.py:140-141 | skipping targets that are no keys loses no cycle |
| `DependencyResolver.Build` | marketplace/dependency.py:14-18 | succeeds if and only if the package ids are distinct, and then maps each id to its descriptor |
| `DependencyResolver.Resolve` | marketplace/dependency.py:28-54 | succeeds if and only if every package reachable over required dependencies is present and that subgraph is acyclic; lists exactly those packages once, dependencies first, root last; a failure names a really missing or cyclic package |
| `DependencyResolver.Resolver.Visit` | marketplace/dependency.py:34-51 | one call finishes its identifier, keeps what was finished, and restores the visiting set |
| `DepthFirst.FinishedSound` | marketplace/dependency.py:53-54 | a finished walk lists exactly what the root reaches and proves it present and acyclic |
| `DepthFirst.JustifiedUnsound` | marketplace/dependency.py:37-44 | a reported failure contradicts that |
| `DepthFirst.Repeats` | marketplace/dependency.py:37-38 | meeting a node of the visiting set exhibits a cycle through it |
| `DepthFirst.Leave` | marketplace/dependency.py:49-51 | finishing a node keeps the walk's invariant |
| `AppStore.ValidateExact` | app_store/service.py:382-394 | accepts if and only if everything reachable is registered, nothing reachable is cyclic and no chain has more edges than maximum_dependency_depth; each rejection is justified |
| `AppStore.ValidateSettles` | app_store/service.py:382-394 | for any visited set of ancestors and any depth: the copied sets never change the verdict, which is a bounded height |
| `AppStore.GenerousBound` | app_store/service.py:235-235 | a bound of at least the number of packages less one rejects no sound package |
| `TaskOrder.OrderedByPriority` | multi_agent/platform.py:423-443 | succeeds if and only if no dependency is missing and the graph is acyclic; the order is a permutation with dependencies first, with tasks of equally long chains by falling priority and, on equal priorities, by ascending id (a proper prefix first, otherwise the smaller character at the first difference) |
| `TaskOrder.PriorityMeaning` | multi_agent/platform.py:433-436 | the same of every order built from the sort key of a round, told by the tasks' fields |
| `Sorting.StringLeqIff` | multi_agent/platform.py:435-435 | comparing two strings character by character is: equal, a proper prefix, or the smaller character at the first difference |
| `TaskOrder.OrderedByPosition` | autonomous_operations/platform.py:435-452 | the same with ties kept in dictionary order |
| `TaskOrder.PriorityRound` | multi_agent/platform.py:429-436 | one sorted round is exactly the unfinished tasks whose dependencies are finished |
| `TaskOrder.PositionRound` | autonomous_operations/platform.py:441-445 | one unsorted round, in dictionary order |
| `TaskOrder.RoundDone` | multi_agent/platform.py:439-442 | draining a round settles exactly the next level and keeps the order sorted |
| `TaskOrder.Stuck` | multi_agent/platform.py:437-438 | an empty round with tasks pending proves a missing dependency or a cycle |
| `TaskOrder.AllDrained` | multi_agent/platform.py:443-443 | an emptied dictionary proves the graph sound and the order complete |
| `TaskOrder.PendingUnique` | multi_agent/platform.py:425-425 | with distinct ids the dictionary holds the tasks themselves in their order |
| `TaskOrder.PendingLists` | multi_agent/platform.py:425-425 | with repeated ids the last task of each id counts |
| `Agreement.CheckersAgree` | scripts/verify-v10-production.py:126-148 | on one graph the two orderings, the resolver from every root and the path-copying validation give one answer, and the cycle search agrees exactly when no dependency is missing or there is a cycle anyway |
| `Agreement.ResolvesEveryRoot` | marketplace/dependency.py:28-54 | resolving every root succeeds if and only if the whole graph is closed and acyclic |
| `Agreement.ValidatesEveryRoot` | app_store/service.py:382-394 | validating every package succeeds on exactly the same graphs under a generous bound |
| `MultiAgent.MultiAgentPlatform.CreateAgent` | multi_agent/platform.py:349-357 | stores an agent exactly when its id is new and it has capabilities |
| `MultiAgent.MultiAgentPlatform.CreateTeam` | multi_agent/platform.py:381-391 | stores a team exactly when it has a coordinator and all members exist |
| `MultiAgent.MultiAgentPlatform.CreatePlan` | multi_agent/platform.py:407-421 | stores a plan exactly when ids are distinct, dependencies exist, the graph is acyclic and risks lie in [0, 1]; so every stored plan stays orderable |
| `MultiAgent.LeastLoaded` | multi_agent/platform.py:468-468 | the candidate with the smallest load, the smaller id on a tie |
| `MultiAgent.Allocate` | multi_agent/platform.py:452-470 | fails exactly when some task has no eligible agent, naming the first; otherwise assigns every task and no other id, each choice the least loaded candidate at its turn |
| `MultiAgent.MultiAgentPlatform.Coordinate` | multi_agent/platform.py:445-473 | over a stored plan in its layered order: every task goes to a member that is planner, executor or custom, ready or running and has the capabilities asked for, of those to the one chosen least often before and then to the smallest id; a failure names a task no member may take |
| `Coordination.GreedyMeaning` | multi_agent/platform.py:468-470 | every other candidate has been chosen more often before, or as often and has the greater id |
| `Coordination.GreedyUnique` | multi_agent/platform.py:454-470 | least-loaded choices with this tie break are unique: the candidates alone determine the assignment |
| `Coordination.LoadsSum` | multi_agent/platform.py:453-470 | the loads sum to the number of tasks |
| `Coordination.Balanced` | multi_agent/platform.py:468-470 | two agents eligible for every task end within one task of each other |
| `Coordination.LargestLoad` | multi_agent/platform.py:468-470 | when the same k agents are eligible for all n tasks the largest load is n / k rounded up |
| `MultiAgent.RunTask` | multi_agent/platform.py:652-664 | the attempts at one task: at most the retry limit plus one, stopping at the first success |
| `MultiAgent.RunTasks` | multi_agent/platform.py:651-664 | results, checkpoints and failure of the whole loop, from the log of its attempts |
| `MultiAgent.RunPlan` | multi_agent/platform.py:650-674 | the record of an execution: completed tasks are a prefix of the order, results and checkpoint i are those of the first i + 1 tasks, rolled back exactly when a failure follows a success |
| `MultiAgent.MultiAgentPlatform.ExecutePlan` | multi_agent/platform.py:634-679 | the plan ends completed or paused, one execution is appended, nothing else changes |
| `MultiAgent.ExecutionSafety` | multi_agent/platform.py:651-664 | no handler runs before every dependency of its task has succeeded; attempts per task are bounded, and a task that is given up has had exactly its retry limit plus one |
| `TaskExecution.AttemptsExhausted` | multi_agent/platform.py:652-664 | an execution gives a task up only after exactly as many attempts as its limit allows |
| `TaskExecution.CompletedPrefix` | multi_agent/platform.py:651-668 | the completed tasks are exactly a prefix of the order, and an execution stops early only at a task whose attempts all failed |
| `TaskExecution.DependenciesSucceedFirst` | multi_agent/platform.py:651-661 | from any dependencies-first order every attempt comes after the success of all dependencies |
| `TaskExecution.AttemptsBounded` | multi_agent/platform.py:652-664 | no task is attempted more often than its limit |
| `TaskExecution.EveryAttemptCounted` | autonomous_operations/platform.py:584-598 | attempts are errors plus successes |
| `AutonomousOperations.AutonomousOperationsPlatform.CreateOperation` | autonomous_operations/platform.py:345-357 | a new id with a non-negative priority is stored, its status the start of its history |
| `AutonomousOperations.AutonomousOperationsPlatform.SetStatus` | autonomous_operations/platform.py:362-380 | moves exactly along TRANSITIONS, otherwise changes nothing |
| `AutonomousOperations.AutonomousOperationsPlatform.AddPolicy` | autonomous_operations/platform.py:396-407 | replaces a policy of the same id in place or appends |
| `AutonomousOperations.AutonomousOperationsPlatform.ConfigureTasks` | autonomous_operations/platform.py:419-433 | stores tasks exactly when ids are distinct, dependencies exist and the graph is acyclic |
| `AutonomousOperations.AutonomousOperationsPlatform.ConfigureSafety` | autonomous_operations/platform.py:454-464 | stores a configuration exactly for a known operation and a maximum risk in [0, 1] |
| `AutonomousOperations.AutonomousOperationsPlatform.SetKillSwitch` | autonomous_operations/platform.py:466-478 | pauses a running operation when switched on and touches no other status |
| `AutonomousOperations.AutonomousOperationsPlatform.RequestApproval` | autonomous_operations/platform.py:489-501 | adds one pending approval |
| `AutonomousOperations.AutonomousOperationsPlatform.DecideApproval` | autonomous_operations/platform.py:503-517 | decides a pending approval once and no other |
| `AutonomousOperations.AutonomousOperationsPlatform.Execute` | autonomous_operations/platform.py:522-633 | admitted exactly outside the kill switch, in a ready or running status and within the risk bound; waits exactly when the operation is supervised, its safety configuration or one of its tasks asks for approval and the approval given is not an approved one of this operation; otherwise leaves the record, counters and status history of the run, the operation completed after success, in rollback after a rolled back execution and paused otherwise |
| `AutonomousOperations.RetryLimit` | autonomous_operations/platform.py:560-576 | the limit of the first enabled retry policy of the operation, zero without one |
| `AutonomousOperations.ArchivedForever` | autonomous_operations/platform.py:259-296 | along TRANSITIONS what is archived stays archived or is deleted, and what is deleted stays so |
| `AutonomousOperations.AutonomousOperationsPlatform.Hold` | autonomous_operations/platform.py:541-554 | an execution without its approval is recorded as waiting and counted, and nothing else changes |
| `AutonomousOperations.AutonomousOperationsPlatform.Carry` | autonomous_operations/platform.py:579-633 | the run behind the approval gate: the operation passes through running to the status of the outcome |
| `AutonomousOperations.Perform` | autonomous_operations/platform.py:580-619 | status, results, errors, checkpoints and attempts of one run, the rollback note included |
| `AutonomousOperations.TrackRun` | autonomous_operations/platform.py:579-619 | every execution moves the operation along TRANSITIONS only |
| `AutonomousOperations.TrackMove` | autonomous_operations/platform.py:259-296 | a move along the table, or none, keeps every status history lawful |
| `AutonomousOperations.ExecutionSafety` | autonomous_operations/platform.py:582-600 | dependencies succeed first, attempts are bounded and used up by a task that is given up, success means the whole order if and only if the retry limit is not negative (or there is nothing to do) |
| `AutonomousOperations.RollbackKeepsIff` | autonomous_operations/platform.py:610-614 | a completed result is kept if and only if the execution was not rolled back or its id is not rollback |
| `AutonomousOperations.AttemptsConserved` | autonomous_operations/platform.py:585-598 | in every execution attempts are errors plus completed tasks |
| `AutonomousOperations.ExecutionsConserved` | autonomous_operations/platform.py:551-616 | in every reachable state successes, failures and waiting executions sum to executions, and rollbacks are among the failures |
| `AutonomousOperations.BumpCounted` | autonomous_operations/platform.py:551-616 | the counters keep saying how the recorded executions ended |
| `RateLimiter.Limiter.EnforceRateLimit` | api_management/platform.py:657-677 | the purged deques decide exactly as counting over the never purged history would: accepted if and only if the request's route, consumer and tenant each have no limit or room in both windows; an accepted request is recorded for each limited one of the three, a rejected one for those before the first refusal |
| `RateLimiter.RecordsOf` | api_management/platform.py:660-677 | which of the three buckets a request is recorded in, route before consumer before tenant; no other bucket changes |
| `RateLimiter.DecideMeaning` | api_management/platform.py:663-677 | the limited buckets before the first refusal gain exactly one entry, no other bucket changes, and nothing refuses if and only if the request is accepted |
| `RateLimiter.AcceptedIff` | api_management/platform.py:671-676 | a request is accepted if and only if its route, its consumer and its tenant, with its api and scope, each have no limit or, over their full history, fewer than per_second + burst entries in the last second and fewer than per_minute in the last minute |
| `RateLimiter.RejectedTracelessIff` | api_management/platform.py:663-677 | a rejected request leaves no record if and only if no limited bucket comes before the first refusing one |
| `RateLimiter.FirstAccepted` | api_management/platform.py:163-177 | under valid limits nothing refuses a request whose buckets are empty |
| `RateLimiter.RejectedLeavesRecord` | api_management/platform.py:663-677 | under the smallest valid limits, a consumer's second request of one moment is rejected and still counts against its own route |
| `RateLimiter.CheckAll` | api_management/platform.py:663-677 | the loop over a request's buckets answers and records as over their whole histories |
| `RateLimiter.CheckBucket` | api_management/platform.py:667-677 | one bucket: the same answer as over its whole history |
| `RateLimiter.Purge` | api_management/platform.py:668-669 | only entries outside the minute window leave, and all of them do |
| `RateLimiter.PurgedCounts` | api_management/platform.py:670-673 | a purged deque counts like the history, in both windows |
| `RateLimiter.DecideWithinLimits` | api_management/platform.py:663-677 | one request keeps every limited bucket within its pace |
| `RateLimiter.EveryWindow` | api_management/platform.py:670-674 | a bucket that kept its pace at every entry keeps it in every window, wherever it ends |
| `RateLimiter.DominatesNext` | api_management/platform.py:663-677 | recorded entries dominate admitted requests in every window of every limited bucket |
| `RateLimiter.WindowsBounded` | api_management/platform.py:657-677 | in every reachable state each 60-second window holds at most requests_per_minute and each 1-second window at most requests_per_second + burst, for recorded entries and admitted requests |
| `RateLimiter.AdmittedBounded` | api_management/platform.py:657-677 | so of the admitted requests with one api and scope at most requests_per_minute fall into any 60-second window and at most requests_per_second + burst into any 1-second window: all of them for the tenant, those of one consumer, those of one route |
| `RateLimiter.AdmittedCount` | api_management/platform.py:660-677 | the entries of a bucket are the admitted requests that share its api, scope and target |
| `EventStreaming.EventStreamingPlatform.CreateTopic` | event_streaming/platform.py:295-304 | a new key gets that many empty partitions |
| `EventStreaming.EventStreamingPlatform.CreateConsumerGroup` | event_streaming/platform.py:373-382 | offsets start at zero for every partition; a further registration disturbs the group exactly when it was given something |
| `EventStreaming.EventStreamingPlatform.PublishEvent` | event_streaming/platform.py:402-450 | the event goes to the end of its bucket with its index as offset, and is the only new one |
| `EventLog.AppendPublishes` | event_streaming/platform.py:428-446 | appending keeps every event's offset equal to its index and publishes exactly one more |
| `EventLog.CandidatesExact` | event_streaming/platform.py:479-491 | the candidates of a pull are exactly the published matching events at or above the offset, each once |
| `EventLog.DeliveredExact` | event_streaming/platform.py:492-500 | a pull delivers published events of the scope from the offsets on whose topic name and payload match, each once, by falling priority, then rising time, partition and offset; at most the limit and at most 1000, none left out while there is room and none that ranks ahead of a delivered one |
| `Sorting.SortStable` | event_streaming/platform.py:492-499 | events with equal keys keep their order |
| `Sorting.SortSorted` | event_streaming/platform.py:492-499 | sorting by a total preorder yields that order |
| `EventStreaming.EventStreamingPlatform.Pull` | event_streaming/platform.py:472-508 | delivers exactly such a batch, told by the fields of the events; an at-most-once group moves its offsets past it, any other group keeps them |
| `AtMostOnce.OncePull` | event_streaming/platform.py:500-505 | a pull of an at-most-once group repeats nothing it delivered before |
| `EventStreaming.EventStreamingPlatform.AtMostOnceRun` | event_streaming/platform.py:472-519 | over every run no event is delivered to a group twice unless a replay or a further registration has set it back below something it was given |
| `AtMostOnce.ReplayOnceIff` | event_streaming/platform.py:550-553 | a replay keeps the guarantee if and only if no replayed event of a tracked partition lies at or below a delivered one |
| `AtMostOnce.FreshOnceIff` | event_streaming/platform.py:373-382 | registering again keeps it if and only if nothing was delivered |
| `AtMostOnce.PullRepeatsIff` | event_streaming/platform.py:479-505 | a pull with room repeats an event if and only if a delivered event is still published, selected and at or above the offset |
| `AtMostOnce.ReplayRepeats` | event_streaming/platform.py:528-555 | a replay that is not clear makes the next pull with room deliver an event again |
| `AtMostOnce.RegistrationRepeats` | event_streaming/platform.py:373-382 | after a further registration the next pull with room delivers every delivered event again that is still published and selected |
| `AtMostOnce.DeliveredAfterRegistration` | event_streaming/platform.py:373-505 | one event pulled, the group registered again, and the event pulled again |
| `AtMostOnce.DeliveredTwice` | event_streaming/platform.py:472-555 | one event pulled, replayed and pulled again |
| `EventStreaming.EventStreamingPlatform.Acknowledge` | event_streaming/platform.py:510-519 | moves the offset of the event's partition up to just behind it, never down |
| `AtLeastOnce.AcknowledgeKeepsIff` | event_streaming/platform.py:516-518 | an acknowledgement loses no event if and only if it is in order within its partition number |
| `AtLeastOnce.PublishKeepsIff` | event_streaming/platform.py:428-446 | a publication loses no event if and only if the new event is not already below the offset |
| `AtLeastOnce.SharedPartitionLoses` | event_streaming/platform.py:480-486 | over several topics, acknowledging an event of one can lose an event of another with the same partition number |
| `AtLeastOnce.UnacknowledgedDelivered` | event_streaming/platform.py:479-500 | while nothing is lost, a pull with room delivers every unacknowledged matching event |
| `AtLeastOnce.StepHealthy` | event_streaming/platform.py:402-519 | one publication, in-order acknowledgement or covering replay keeps a single-topic group healthy |
| `AtLeastOnce.AtLeastOnceRun` | event_streaming/platform.py:402-519 | so does every run of them |
| `AtLeastOnce.ReplayKeepsIff` | event_streaming/platform.py:550-553 | a replay, which may move an offset forward, loses nothing if and only if it covers every unacknowledged matching event of the partitions it moves |
| `AtLeastOnce.ReplayLoses` | event_streaming/platform.py:528-555 | a replay from the second of two events on loses the first |
| `AtLeastOnce.InOrderIffLeast` | event_streaming/platform.py:510-518 | a waiting event can be acknowledged in order if and only if it is the least of its partition |
| `AtLeastOnce.PulledIff` | event_streaming/platform.py:492-500 | the least waiting event of a partition is pulled if and only if fewer waiting events are ahead of it than fit a batch |
| `AtLeastOnce.ProgressIff` | event_streaming/platform.py:492-518 | a pull offers something to acknowledge in order if and only if that holds of some partition |
| `AtLeastOnce.ServedIff` | event_streaming/platform.py:472-518 | for every limit, rounds of pulling and acknowledging in order acknowledge every matching event if and only if no waiting events form a jam, a set each of whose first events has a whole batch of the others ahead of it; what they acknowledge they have delivered |
| `AtLeastOnce.JamForever` | event_streaming/platform.py:492-518 | a jam stays as it is through any number of rounds |
| `AtLeastOnce.FittingJamFree` | event_streaming/platform.py:500-500 | a backlog of one topic that fits a batch cannot jam |
| `AtLeastOnce.OrderlyJamFree` | event_streaming/platform.py:492-499 | nor can one in which earlier offsets are sooner in each partition, whatever the limit |
| `AtLeastOnce.DeliveredInTurn` | event_streaming/platform.py:492-500 | where earlier offsets are sooner, a batch is delivered in an order in which it can be acknowledged |
| `AtLeastOnce.WholeBatchAcknowledged` | event_streaming/platform.py:492-518 | and is acknowledged to its end |
| `AtLeastOnce.RoundsDrain` | event_streaming/platform.py:472-518 | so with any limit from one on every waiting event of an orderly backlog is delivered and acknowledged |
| `AtLeastOnce.OneByOneIff` | event_streaming/platform.py:472-518 | the case of one event at a time: served if and only if in each partition earlier offsets are delivered sooner |
| `AtLeastOnce.OrderlyIff` | event_streaming/platform.py:492-499 | for one topic that holds if and only if among the waiting events of a partition priorities never rise and, where they stay the same, times never fall |
| `AtLeastOnce.OrderlyBuckets` | event_streaming/platform.py:492-499 | in particular when along each bucket of the topic priorities never rise and times never fall |
| `AtLeastOnce.UrgentStarves` | event_streaming/platform.py:492-500 | a routine event behind which an urgent one waits is never delivered in pulls of one, although nothing is lost |
| `AtLeastOnce.FreshGroupServed` | event_streaming/platform.py:373-518 | from registration through any run of publications, acknowledgements in order and covering replays to a backlog without a jam, every matching event is acknowledged, and each one not acknowledged before is delivered |
| `EventStreaming.EventStreamingPlatform.Checkpoint` | event_streaming/platform.py:521-526 | copies the offsets and changes nothing else |
| `EventStreaming.EventStreamingPlatform.Replay` | event_streaming/platform.py:528-555 | returns exactly the events of the group's topic that pass the predicate and lie from the offset on and between start and end, both included, by partition and then offset, puts the tracked offsets at the least replayed ones, and disturbs the group exactly when it is not clear of what was delivered |
| `Replaying.ReplayPositions` | event_streaming/platform.py:550-553 | afterwards every replayed event of a tracked partition is at or above its offset, which is the least of them; other partitions keep theirs |
| `Replaying.ReplayedInOrder` | event_streaming/platform.py:541-549 | what is replayed comes partition after partition, each in the order of its offsets |
| `Replaying.ReplayedExact` | event_streaming/platform.py:541-549 | and is exactly what the bounds and the predicate let through |
| `Marketplace.EnterpriseMarketplace.RegisterPublisher` | marketplace/enterprise_store.py:200-205 | stores a profile under a new id and nothing else |
| `Marketplace.EnterpriseMarketplace.VerifyPublisher` | marketplace/enterprise_store.py:207-211 | marks a known publisher verified and changes nothing else |
| `Marketplace.ChronicleGrows` | marketplace/enterprise_store.py:217-222 | every stored release lists the versions of its package up to its own |
| `Marketplace.EnterpriseMarketplace.Publish` | marketplace/enterprise_store.py:213-224 | appends a release of a known publisher under a new version, its fields as given except for the publisher's verification and the list of the versions so far and its own; installed and restorable releases keep their dependencies installed |
| `Marketplace.VersionExact` | marketplace/enterprise_store.py:398-410 | a given version is found exactly where a stored release carries it, and that release is returned; without one the last release is; the error tells an unknown package from an unknown version |
| `Marketplace.VersionOfLatest` | marketplace/enterprise_store.py:398-410 | without a version the lookup finds the latest release |
| `Marketplace.DependencyOrder` | marketplace/enterprise_store.py:298-314 | succeeds if and only if everything reachable through latest releases exists and is acyclic, and lists exactly that, dependencies first |
| `Marketplace.DependencyWalk.Visit` | marketplace/enterprise_store.py:302-311 | one call finishes its identifier and restores the visiting set |
| `Marketplace.EnterpriseMarketplace.Install` | marketplace/enterprise_store.py:271-281 | succeeds exactly when the release exists, the latest releases below it are sound and its own dependencies are installed; the release returned is stored and carries the given version, or is the last one when none is given; its version is installed and the previous one goes to the history; a failure changes nothing and what it reports is the case, an unknown version exactly when one was given that no stored release carries |
| `Marketplace.EnterpriseMarketplace.Upgrade` | marketplace/enterprise_store.py:283-288 | the same, release and version included, for installed packages only |
| `Marketplace.EnterpriseMarketplace.Rollback` | marketplace/enterprise_store.py:290-296 | restores the last version of the history, fails exactly without one, and returns the restored release unless its version is the empty string |
| `Marketplace.EnterpriseMarketplace.Download` | marketplace/enterprise_store.py:339-345 | returns the last release with one download more, which takes its place, and changes nothing else |
| `Marketplace.InstallConsistent` | marketplace/enterprise_store.py:271-281 | installing keeps every installed and every restorable release's dependencies installed |
| `Marketplace.RollbackConsistent` | marketplace/enterprise_store.py:290-296 | so does rolling back |
| `Marketplace.PackagesConsistent` | marketplace/enterprise_store.py:213-224 | so does any change of the packages that keeps the stored dependencies |
| `Marketplace.SelectedSatisfied` | marketplace/enterprise_store.py:412-420 | the check of install establishes that property for the selected release |
| `Marketplace.RestoredVersion` | marketplace/enterprise_store.py:296-296 | the lookup after a rollback always finds a release, and the restored one exactly when its version is not empty or the latest is empty too |
| `Marketplace.RollbacksUndoInstalls` | marketplace/enterprise_store.py:271-296 | n re-installs of an installed package followed by n rollbacks restore its version and history and leave every other package untouched |
| `CycleClosing.RetargetAcyclicIff` | marketplace/enterprise_store.py:278-279 | giving one node of an acyclic graph other targets closes a cycle if and only if one of them leads back to it |
| `Marketplace.InstallAcyclicIff` | marketplace/enterprise_store.py:271-281 | an installation keeps the installed releases acyclic if and only if none of its dependencies leads back to the package through what was installed |
| `Marketplace.RollbackAcyclicIff` | marketplace/enterprise_store.py:290-296 | the same for the release a rollback restores |
| `Marketplace.PublishKeepsGraph` | marketplace/enterprise_store.py:213-224 | publishing changes no installed dependency |
| `Marketplace.DownloadKeepsGraph` | marketplace/enterprise_store.py:339-345 | nor does a download |
| `Marketplace.UpToDateInstall` | marketplace/enterprise_store.py:298-314 | where everything installed is the latest release the cycle check of the store is enough |
| `Marketplace.InstalledCycle` | marketplace/enterprise_store.py:271-314 | ordinary operations can leave two installed releases that depend on each other |
| `Chunking.Create` | knowledge_platform/contracts.py:62-65 | exactly the limits the constructor admits |
| `Chunking.ChunkText` | knowledge_platform/contracts.py:67-88 | as many chunks as the text length divided by size - overlap, rounded up; the k-th is made of the size characters from k * (size - overlap) on, as far as the text goes, whole within the token limit and else its first words, with its id, index, word count and metadata; next to a full chunk an untruncated one starts with its last overlap characters |
| `Chunking.ChunkMade` | knowledge_platform/contracts.py:72-87 | each chunk told by its place in the text |
| `Chunking.ChunksOverlap` | knowledge_platform/contracts.py:73-87 | a chunk with all of its window starts with the last overlap characters of a full one before it |
| `Chunking.ChunkIdsDistinct` | knowledge_platform/contracts.py:79-79 | the ids of a document's chunks are distinct |
| `Chunking.ChunkCount` | knowledge_platform/contracts.py:72-87 | their number is the text length divided by size - overlap, rounded up |
| `Chunking.SplitJoinIff` | knowledge_platform/contracts.py:72-87 | the first size - overlap characters of each chunk rebuild the text if and only if every window has at most token_limit words, or is longer than the stride and within it starts with no space, has only single blanks and at most token_limit - 1 of them |
| `Chunking.KeepsStrideIff` | knowledge_platform/contracts.py:74-76 | a chunk starts with the stride of its window exactly under that condition on the text |
| `Chunking.RebuiltIff` | knowledge_platform/contracts.py:72-87 | no chunk makes up for what another one loses |
| `Chunking.SplitJoin` | knowledge_platform/contracts.py:72-87 | they do whenever no window has more words than the token limit |
| `Chunking.WithoutOverlapIff` | knowledge_platform/contracts.py:75-76 | without overlap they do exactly then |
| `Chunking.SmallWindowsUntruncated` | knowledge_platform/contracts.py:74-76 | a size within the token limit never takes the truncation branch |
| `Chunking.TruncationLoses` | knowledge_platform/contracts.py:75-76 | a concrete text that truncation does not let rebuild |
| `Chunking.CutShortens` | knowledge_platform/contracts.py:75-76 | the branch strictly shortens every window it is taken for |
| `Chunking.TokensWithinLimit` | knowledge_platform/contracts.py:74-84 | no chunk counts more words than the token limit |
| `Chunking.WordsOfJoin` | knowledge_platform/contracts.py:74-76 | splitting what was joined gives the words back |
| `Chunking.WordsSplit` | knowledge_platform/contracts.py:74-74 | a space separates the words of what stands before and after it |
| `Chunking.WordAlone` | knowledge_platform/contracts.py:74-74 | a text without spaces is one word |

## Left out

- Permission, tenant and workspace checks of the platforms other than the knowledge graph's scopes and the event log's, audit entries, metrics rendering, dashboards and secret filters: single-branch plumbing.
- Aliasing of stored plans, operations, groups and events: they are values here, so a caller that keeps and mutates a record it has stored is not modelled.
- Locks and threads: every operation is one step. Handlers do not call back into the platform.
- The recursion limit of the interpreter: the recursive walks are unbounded here.
- RateLimiter.WindowsBounded: limits are fixed for the run and time does not run backwards; `set_rate_limit` during a run is not a step.
- RateLimiter.Limiter.EnforceRateLimit: a bucket key is a tuple here where the original joins strings with colons; the `concurrency` field of a limit is unused there and absent here.
- API management apart from the limiter: quotas, route matching, the response cache, transformations and subscriptions.
- EventStreaming.EventStreamingPlatform.PublishEvent: schemas, headers and metadata are reduced to one admission flag, and payload and filter values to strings, so a filter for an absent value is not modelled.
- AtLeastOnce.AtLeastOnceRun: steps are publications, acknowledgements and replays; `cleanup`, `delete_topic` and `publish_transaction` are no steps, because removing events ends the link between offset and index.
- Subscription registry, stream lifecycle, dead letters, routing rules and the lag metric of event streaming.
- AutonomousOperations.AutonomousOperationsPlatform.Execute: risk and the timeout check are inputs, the timeout as a possible outcome of an attempt; a retry limit or timeout that is no number is not modelled.
- Objectives, strategies, feedback, learning and recommendations of autonomous operations.
- Agent status changes, messages, delegation, consensus, negotiation and memory references of the multi-agent platform; both platforms share one record type for the units of work, with the fields each of them uses.
- Ontologies, taxonomies, queries, reasoning, similarity, provenance and impact analysis of the knowledge graph.
- Embedding, retrieval and ranking of the chunker's file.
- Package metadata beyond identity, dependencies, verification and history; search, licences, reviews, invoices, usage, checksums, signatures and the download log are absent.
- Installation state, updates and licences of the app store; only its dependency validation is modelled.
- Orchestrator, memory engine, reasoning engine and applications: they delegate to modules that are not part of this model.
