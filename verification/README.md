# Verified model of the event analyses of lib_tool_event

`lib_tool_event` replays a log of runtime events into a model of resource
lifetimes, links the events into a causal graph, orders that graph and looks
for deadlocks, broken call traces and dangerous interleavings. This project
models those parts in Dafny, in the form the C code has, and proves each loop
and method against a declarative specification. The heap, the adjacency lists,
the work arrays of the depth-first search, the arena of trace entries and the
array of matched exits are arrays updated in place; the tables of holds, waits,
entries, findings, producers and schedules are sequences in fields or variables
that methods reassign.

`dafny verify dfyconfig.toml` checks everything. A `hide` statement at the start
of a proof names definitions that the proof does not need.

## What is proved

| Files | Subject | Main results |
|---|---|---|
| `IndexHeap`, `CausalSpec`, `ContextOrder`, `ArcLists`, `CausalOrder` | Kahn's algorithm over array-linked lists and a binary heap | the program orders the nodes exactly when some order keeps every edge and, in every context, the sequence numbers with ties in log order; its order is then the least of these by node index |
| `Graphs`, `SyncReach`, `SyncSpec`, `SyncTheorems`, `SyncPlaces`, `SyncWaits`, `SyncRules`, `SyncEvidence`, `SyncRecords`, `SyncFindings`, `SyncTables`, `SyncOverflows`, `SyncAnalysis` | deadlock and lock-order analysis | the findings of every rule, with both evidence names and the record they stand for, are told exactly from the classes, kinds and identities of the records; the depth-first search decides reachability, the incremental lock-order check decides cycles of the whole run, the edge tables have room exactly below a count over the events, and the tombstoned tables refine stacks |
| `Schedules`, `ScheduleReach`, `ScheduleSearch`, `Interleaving`, `PrefixFindings` | breadth-first walk over event schedules | a counterexample uses the fewest swaps; a drained queue has seen every reachable schedule; a schedule is reachable exactly when it permutes the nodes and every pair in opposite order may be swapped, and keeps the order of every thread; prefixes add wait and join cycles and nothing else |
| `LifecycleSpec`, `LifecycleHistory`, `LifecycleCopies`, `LifecycleAccounting`, `LifecycleExec`, `LifecycleFork`, `LifecyclePending`, `Lifecycle` | lifecycle replay | entries and findings told exactly from the records; what a fork copies; release accounting, rollback of failed execs, commutation of a child's closes with the fork record |
| `CallWords`, `TraceSpec`, `TraceTheorems`, `TraceTable`, `TraceFindings`, `TraceAnalysis` | call traces on a shared arena | the arena refines one stack per context; every finding and every row's counters are told exactly from the calls open before a place; a trace is clean exactly when every context's calls, inherited ones included, can be read throughout and are balanced |
| `CallMatching`, `CallEdges`, `EdgeMeanings`, `Lifetimes`, `Enclosing`, `LogArcs`, `CausalCycles`, `LogOrder`, `LifetimeReplay` | edges of the causal model | every log has exactly one set of call edges that match newest open entries, and the pass builds it; every other edge is told from the records; on nested calls the call edges are bracket matching and the enclosing call is the innermost open one; the causal order of a log is cyclic exactly when its creating records are, or one creates its own process late; lifetime edges agree with the replay except where a record loses what it names |
| `HealthSpec`, `HealthTheorems`, `HealthCounts`, `StreamHealth` | stream health counters | every counter is the number of records it is about; the one-pass verdict is exact for every producer of the stream |
| `JsonGrammar`, `JsonSpec`, `JsonSkip` | bounded JSON skipper | the skipper accepts exactly the values of the grammar that a delimiter follows, up to the nesting bound |

`Events`, `Numerals`, `Wrappers` and `FiniteSets` hold shared types and small facts.

## Where the code differs from what one would expect

- A cyclic graph is not an error status: `build_causal_order` returns 0, sets
  `trouble` and orders nothing. `CausalOrder.BuildCausalOrder` states the status,
  `trouble` and the count separately.
- A failed exec restores entries and findings if and only if nothing of that
  process was provisional before, whatever other processes did in between:
  `LifecycleExec.FailedExecLeavesNoTrace`. If an earlier exec succeeded, its
  provisional effects are still there and the failure undoes those too;
  `LifecycleExec.SuccessfulExecIsRevived` gives such a run.
- A record with sequence number 0 is never flagged by the stream health check,
  so a complete stream has strictly increasing *nonzero* sequence numbers, with
  zeros anywhere between: `HealthTheorems.ZeroSequenceIsUnflagged` gives such a
  stream and `HealthTheorems.VerdictIsExact` the exact condition.
- Threads of the interleaving walk are compared by metadata first, so a schedule
  need not keep the order of an execution context:
  `ScheduleReach.ContextIsReordered` exchanges two nodes of one context with
  different metadata. `ScheduleReach.NodesReversible` says exactly which two nodes
  some schedule shows in the opposite order, and `Schedules.ReachableSchedules`
  keeps the order of threads by that comparison.
- The tables of lock edges and wait edges have one and two places per node, but
  one acquire adds an edge for every other lock its thread holds, and one wait an
  edge for every holder. `SyncTables.TablesSufficeIff` says exactly when the tables
  have room. `SyncOverflows.FourNestedLocks` gives four nodes with six lock edges,
  and `SyncOverflows.FiveReadersFiveWriters` ten nodes with 25 wait edges.
- The trace analysis has one row per node for its contexts, and a fork names two
  contexts: it fails on a log of one fork record (`TraceTable.LoneForkOverflows`),
  and in general exactly when more contexts are named than there are nodes
  (`TraceAnalysis.AnalyzeTrace` with `TraceTable.RowsAreNamedContexts`).
- The arcs of a built model can be cyclic. `CausalCycles.CyclicExactly` says when,
  for every log that numbers the records of a context differently and its calls in
  log order, other records standing anywhere: the fork and spawn records
  create each other's processes in a circle (`LogOrder.CrossedForksAreCyclic`), or
  one names its own process as the child and is not the first record of its context
  (`LogOrder.OwnChildIsCyclic`). A child whose record reaches the log before its
  parent's fork makes no cycle (`LogOrder.FastChildIsOrdered`); it only keeps the
  causal order from being the order of the log (`LogOrder.LogOrderIsCausal`).
- A reallocation without a result ends the life of the block in the causal model,
  but the replay keeps the block live (`LifetimeReplay.LostBlockDisagrees`); a
  replacement or transfer of a resource that names no other does the same.
  `LifetimeReplay.LifetimeEdgeIsRelease` proves that the two readings of a
  descriptor, allocation or resource disagree in these cases and no other.
- Records of the synchronization analysis are matched by text before the first
  `@` of an identity together with the process.

## Model

| member | source | states |
|---|---|---|
| IndexHeap.HeapPush | src/analysis.c:538-567 | after a push the array prefix is heap ordered and holds the old multiset and the new value |
| IndexHeap.HeapPop | src/analysis.c:569-602 | a pop returns a least element and keeps heap order and the multiset of the others |
| ArcLists.AddArc | src/analysis.c:501-536 | the lists stay strictly decreasing in arc index and indegrees stay the number of stored arcs; an arc is stored once; failure exactly for ends out of range or a full table |
| CausalOrder.RemoveArc | src/analysis.c:408-433 | removing an arc lowers one indegree and pushes its target exactly when the target has become ready, never twice |
| CausalOrder.Drain | src/analysis.c:393-435 | emission keeps the least ready node first until no node is ready; the capacity and range branches are not taken |
| CausalOrder.StoreCausalArcs | src/analysis.c:341-378 | the stored arcs are exactly the model's edges without self edges and the chain of every context; the chain is told from the sequence numbers by ContextOrder.ChainFollowsNumbers |
| CausalSpec.SortByContext | src/analysis.c:455-491 | all nodes, by process, then context, then sequence number, then place in the log |
| CausalSpec.AllNeighbourArcs | src/analysis.c:363-378 | neighbours of one context in the sorted sequence are exactly the pairs with nothing of that context between them |
| CausalSpec.GreedyIsLeast | src/analysis.c:393-435 | always taking the least ready node gives the lexicographically least topological order |
| CausalSpec.StuckMeansCyclic | src/analysis.c:436-451 | an order that stops early is a witness of a cycle |
| CausalSpec.TopologicalMeansAcyclic | src/analysis.c:436-451 | a complete order is a witness that there is no cycle |
| CausalOrder.BuildCausalOrder | src/analysis.c:288-453 | for edges in range: trouble exactly when no order of all nodes keeps every edge and the sequence numbers of every context, ties in log order, and nothing is ordered then; otherwise the order is the lexicographically least of these; trouble is also exactly a cycle of the arcs |
| ContextOrder.ChainFollowsNumbers | src/analysis.c:455-491 | the chain leads from one record to another exactly when they are of one context and the first has the smaller number, or the same and the earlier place in the log |
| ContextOrder.TopologicalIffCausal | src/analysis.c:341-378 | the topological orders of the arcs are exactly the orders of all nodes in which edges go forward and the records of a context follow their numbers |
| SyncReach.ExpandNode | src/analysis.c:1144-1165 | every edge is pushed at most once, so the guard on the work array never drops a node |
| SyncReach.SyncReaches | src/analysis.c:1088-1173 | true exactly when start is the target or a directed path leads there |
| SyncSpec.ThreadNamesAreContexts | src/analysis.c:1047-1053 | thread names are equal exactly for equal process and context |
| SyncTheorems.HeldStackLaw | src/analysis.c:1449-1532 | the held locks of a thread are a stack: push on acquire, remove the last occurrence on release, untouched by other events |
| SyncRules.ReleaseOrderExact | src/analysis.c:1476-1531 | P101-SYNC-004 is reported exactly when some release meets a non-empty stack of its thread whose top is another lock |
| SyncRules.ConsumedTwiceExact | src/analysis.c:1400-1422 | P101-SYNC-008 is reported exactly when a terminal attempt follows the end of the same joinable thread |
| SyncRules.EventRulesOverEvents | src/analysis.c:1362-1592 | a rule of single events is reported exactly when, among the locks acquired and not released and the waits begun and not ended by the events before it, some event breaks it |
| SyncFindings.FindingsExact | src/analysis.c:1276-1699 | for each of the nine rules: a finding with two evidence names and a record is reported exactly when that record is the first to show the rule with these names, told from the classes, kinds and identities of the records before it |
| SyncEvidence.AnalysisOnce | src/analysis.c:1175-1274 | no rule is reported twice with the same two names |
| SyncRecords.HeldIsHolding | src/analysis.c:1449-1532 | the locks held before a place of the order are the acquires of mutexes and read-write locks there, less the newest of the same thread and lock at every release |
| SyncRecords.WaitsIsWaiting | src/analysis.c:1533-1616 | the waits unfinished before a place are the acquires of lock waits, condition waits and join waits there, less the newest of the same thread and resource at every release of such a wait |
| SyncTables.TablesSufficeIff | src/analysis.c:1294-1307 | the program's fixed tables have room exactly when the acquires of the event list, each counted with the other locks its thread holds, and the waits begun and not ended, each counted with the acquires of its lock not released, give few enough edges |
| SyncTables.ShallowNestingFits | src/analysis.c:1449-1475 | the lock edges fit while every acquiring thread holds at most one other lock |
| SyncOverflows.NestedLocksOverflow | src/analysis.c:1449-1475 | for any number of nodes that take different locks in one thread the tables have room exactly up to three |
| SyncOverflows.SharedLockOverflow | src/analysis.c:1617-1650 | for any numbers of holders and waiters of one lock the tables have room exactly while their product is at most twice the number of nodes |
| SyncOverflows.FourNestedLocks | src/analysis.c:1449-1475 | four nodes that take different mutexes in one thread give six lock edges, more than the table has places |
| SyncOverflows.FiveReadersFiveWriters | src/analysis.c:1617-1650 | five nodes that hold one read-write lock and five that wait for it give 25 wait edges for 20 places |
| SyncPlaces.HoldsAreHolding | src/analysis.c:1449-1532 | the active entries of the table of holds are exactly the acquires of the event list not yet released |
| SyncPlaces.WaitsAreWaiting | src/analysis.c:1533-1616 | the active entries of the table of waits are exactly the waits of the event list begun and not ended |
| SyncTheorems.LockEdgesAreLockOrder | src/analysis.c:1449-1475 | the accumulated lock edges are the lock-order relation of the whole run |
| SyncTheorems.LockOrderExact | src/analysis.c:1449-1475 | P101-SYNC-001 is reported exactly when the lock-order graph of the whole run has a cycle |
| SyncWaits.WaitCyclesOverEvents | src/analysis.c:1617-1687 | a thread is reported as P101-SYNC-002 exactly when a wait it began has not ended and it lies on a cycle of the graph from waits not ended to acquires not released |
| SyncWaits.JoinCyclesOverEvents | src/analysis.c:1617-1687 | P101-SYNC-003 is reported exactly when the joins of the event list not ended form a cycle, self joins included |
| SyncAnalysis.FindTop | src/analysis.c:1484-1505 | searching the table from its newest entry finds the top of the thread's stack |
| SyncAnalysis.EndLast | src/analysis.c:1516-1531 | clearing one flag removes the newest entry of the thread and lock and nothing else |
| SyncAnalysis.SyncAnalysis.AddFinding | src/analysis.c:1175-1274 | a finding is appended unless one with the same rule and evidence is there |
| SyncAnalysis.SyncAnalysis.AcquireLock | src/analysis.c:1449-1475 | the new state is the specified one: findings of closed cycles, new lock edges, the lock pushed |
| SyncAnalysis.SyncAnalysis.ReleaseLock | src/analysis.c:1476-1531 | the new state is the specified one: finding on a wrong top, last occurrence ended |
| SyncAnalysis.SyncAnalysis.DestroyMutex | src/analysis.c:1362-1395 | the new state is the specified one: holders, then waiters, reported |
| SyncAnalysis.SyncAnalysis.BeginWait | src/analysis.c:1533-1592 | the new state is the specified one: join under a lock, conditions with two mutexes, the wait added |
| SyncAnalysis.SyncAnalysis.EndWait | src/analysis.c:1593-1616 | the newest matching wait is ended, nothing else changes |
| SyncAnalysis.SyncAnalysis.Finish | src/analysis.c:1617-1687 | wait-for and join edges of active entries are collected and cycles reported as specified |
| SyncAnalysis.AnalyzeSynchronization | src/analysis.c:1276-1699 | the tombstoned tables compute the analysis specified on plain sequences; its findings are exactly those that SyncFindings.IsFinding tells from the records, each once |
| Schedules.ReachableSchedules | src/analysis.c:2237-2282 | every schedule reached by eligible swaps is a permutation that respects model edges, leaves other nodes in place and keeps the order of two nodes of one process and context when either has no metadata, and of one process and equal metadata otherwise |
| Schedules.AllowedAreStrangers | src/analysis.c:2238-2258 | the pairs that may be exchanged are synchronization nodes without a direct edge, of different processes, or of different nonempty metadata, or of different contexts where one has no metadata |
| SyncRecords.SyncNodesCanMean | src/analysis.c:2546-2557 | the nodes a schedule may move are exactly those of a class that starts, ends or does something in the synchronization analysis when acquired or released |
| Schedules.ThreadsAreKept | src/analysis.c:2558-2571 | every schedule that swaps reach keeps the order of every thread |
| Schedules.StrangersChangePlaces | src/analysis.c:2238-2282 | two such neighbours of a reachable schedule can be exchanged in one more swap |
| ScheduleReach.ReachedIffAllowed | src/analysis.c:2237-2282 | swaps reach exactly the permutations in which every pair in opposite order may be swapped |
| ScheduleReach.NodesReversible | src/analysis.c:2238-2258 | two nodes appear in opposite order in some schedule exactly when no increasing chain of pairs that may not be swapped leads from one to the other |
| ScheduleReach.ContextIsReordered | src/analysis.c:2558-2571 | two nodes of one context with different metadata change places |
| Schedules.CausalOrderRespectsEdges | src/analysis.c:288-453 | the baseline given by the causal order respects the model's edges |
| ScheduleSearch.RecordedIsReached | src/analysis.c:2226-2352 | every recorded schedule is reached in as many swaps as its parents are deep |
| ScheduleSearch.ReachedIsRecorded | src/analysis.c:2226-2352 | a schedule reached in few enough swaps has been recorded, no deeper than that |
| ScheduleSearch.ReplayGivesSchedule | src/analysis.c:2310-2345 | replaying the recorded swaps from the baseline gives exactly the recorded schedule |
| ScheduleSearch.TraceSwaps | src/analysis.c:2310-2345 | following the parents terminates and yields those swaps in order |
| Interleaving.CollectPrefixKeys | src/analysis.c:2422-2452 | the keys are exactly those of the findings of all prefixes, each once |
| PrefixFindings.PrefixKeysAppear | src/analysis.c:2422-2452 | a key appears in a prefix exactly when some record of the whole order shows it, or, for wait and join cycles only, when a prefix ends with the cycle |
| PrefixFindings.NovelIffAppears | src/analysis.c:2283-2309 | a schedule is a counterexample exactly when a key appears in it, told from the records, that does not appear in the baseline |
| Interleaving.IsEligible | src/analysis.c:2238-2258 | true exactly for two synchronization nodes without a direct edge that are of different processes, or of different nonempty metadata, or of different contexts where one has no metadata |
| Interleaving.ScheduleSeen | src/analysis.c:2594-2611 | true exactly for schedules already recorded |
| Interleaving.ExpandEntry | src/analysis.c:2240-2352 | one entry's neighbours are all recorded unless the bound or a counterexample stops the loop |
| Interleaving.FoundIsNearest | src/analysis.c:2213-2391 | no schedule with a new finding is reached in fewer swaps than the one found |
| Interleaving.DrainedResult | src/analysis.c:2213-2391 | a drained queue has recorded every reachable schedule and none has a new finding |
| Interleaving.RecordedSchedulesAreSound | src/analysis.c:2226-2352 | over a causal order, every recorded schedule is a permutation that respects edges, keeps the order of every thread and leaves other nodes in place |
| Interleaving.SizesFit | src/analysis.c:2167-2185 | the divisions refuse a bound exactly when the tables' sizes in bytes do not fit a size_t |
| Interleaving.Walk | src/analysis.c:2160-2391 | refused exactly without a bound or for tables that do not fit; distinct schedules within the bound; a counterexample is nearest; a drained queue means there is none |
| LifecycleAccounting.ReleasesAreAccounted | src/lifecycle.c:323-346 | release operations replayed equal dead entries not pending an exec plus stray and double release findings, over every run |
| LifecycleExec.FailedExecLeavesNoTrace | src/lifecycle.c:584-677 | a batch of execs with records of other processes in between and its failure have exactly the effect of those other records if and only if nothing of the process was provisional before |
| LifecyclePending.ReplayStays | src/lifecycle.c:584-677 | through records of other processes, forks included, what is provisional for a process stays so |
| LifecycleExec.AttemptIsInvisible | src/lifecycle.c:584-677 | from any state, rolling back after a batch with other records in between is rolling back first and replaying the other records alone |
| LifecycleExec.RollbackFixpoint | src/lifecycle.c:633-677 | rollback changes nothing exactly when nothing of the process is provisional |
| LifecycleExec.SuccessfulExecIsRevived | src/lifecycle.c:584-677 | a descriptor closed by a successful exec is live again after a later failed one |
| LifecycleExec.RollbacksCommute | src/lifecycle.c:633-677 | rollbacks of two processes commute |
| LifecycleFork.ClosesCommuteWithFork | src/lifecycle.c:498-582 | a child's closes before the fork record, repaired by reconciliation, leave the entries and the findings of each key as closes after it |
| LifecycleFork.AlikeSameFindings | src/lifecycle.c:1073-1112 | equal findings for each key are equal multisets of findings |
| Lifecycle.ReconcileRound | src/lifecycle.c:1073-1112 | one round takes the oldest stray release, replays it and adds no stray one |
| LifecycleHistory.ReplayIsHistory | src/lifecycle.c:275-496 | after every prefix without forks and failed execs the entries are the acquisitions in order, each with the record that ended it, if any, and the findings are what each record reports, duplicates, stray and double releases, invalid uses and descriptors inherited over an exec, with the earlier record they name |
| Lifecycle.LifecycleModel.Latest | src/lifecycle.c:769-792 | the search from the newest entry finds the newest entry of the key |
| Lifecycle.LifecycleModel.Release | src/lifecycle.c:1114-1153 | the newest live entry dies, otherwise a double or stray release is reported |
| Lifecycle.LifecycleModel.ReplayResource | src/lifecycle.c:275-373 | acquire, release, replace, transfer and use have the specified effect and fail only at a table limit; a failure leaves exactly the steps before the limit |
| Lifecycle.LifecycleModel.ReplayAllocation | src/lifecycle.c:402-496 | alloc, free and realloc have the specified effect, null pointers included; a failure leaves exactly the steps before the limit |
| Lifecycle.LifecycleModel.TakeStray | src/lifecycle.c:1039-1071 | the oldest stray release of the key is removed from the findings, the others keep their order |
| Lifecycle.LifecycleModel.ReconcileStrays | src/lifecycle.c:1073-1112 | the loop ends with every stray release of the key replayed |
| Lifecycle.LifecycleModel.ReplayFork | src/lifecycle.c:498-582 | between two processes: afterwards the child has an entry for a descriptor exactly when it had one or the parent held it live; new entries are live copies with the parent's origin and size and the fork's site, unless a stray release ended them; older entries and the findings of other keys are unchanged; otherwise nothing happens; failure exactly at a limit or a name that does not fit, with the turns before it made |
| LifecycleCopies.ForkCopies | src/lifecycle.c:498-582 | for every model: which descriptors the child gets, what each copy holds and what stays unchanged, told from the entries and findings before |
| Lifecycle.LifecycleModel.ReplayExec | src/lifecycle.c:584-631 | a close-on-exec descriptor dies provisionally, another live one is reported provisionally |
| Lifecycle.LifecycleModel.RollbackExec | src/lifecycle.c:633-677 | in-place compaction drops exactly the provisional findings of the process and restores its entries |
| Lifecycle.LifecycleModel.Ingest | src/lifecycle.c:191-273 | accepted exactly when the record is admitted, can be replayed and the result fits; the state is then the specified one, and after a failure the one before the step that met the limit; an admitted record reopens a finished model |
| Lifecycle.LifecycleModel.Finish | src/lifecycle.c:679-723 | live entries become leaks once, nothing stays provisional, a second finish changes nothing; a failure stops at the first leak beyond the limit |
| CallWords.MachineDecidesBalance | src/analysis.c:1801-1867 | a stack machine empties its stack exactly on the words of the balanced grammar |
| TraceAnalysis.TraceAnalysis.PushEntry | src/analysis.c:1801-1817 | a pushed entry changes no older entry and no stack, and extends the context's chain |
| TraceAnalysis.TraceAnalysis.Fork | src/analysis.c:1757-1789 | the child shares the parent's chain, without the call to the fork wrapper |
| TraceAnalysis.TraceAnalysis.Lookup | src/analysis.c:1701-1727 | the row of a context is found or added; refused exactly when the table would outgrow the number of nodes |
| TraceAnalysis.TraceAnalysis.Exit | src/analysis.c:1818-1867 | an exit pops a matching top or is reported |
| TraceAnalysis.TraceAnalysis.Observe | src/analysis.c:1751-1867 | after every node the arena is linked backwards, every depth counter is the length of its chain, older entries are unchanged and the stacks are the specified ones |
| TraceAnalysis.AnalyzeTrace | src/analysis.c:1729-1892 | fails exactly when the contexts outnumber the nodes, and otherwise reports exactly what the analysis with one stack per context reports, which is told from the calls open before every exit and at the end |
| TraceFindings.FindingsExact | src/analysis.c:1729-1892 | an exit is reported as unmatched exactly when nothing is open in its context and as mismatched exactly when the newest open call is another; an entry is reported exactly when it is open in some context at the end |
| TraceFindings.RowsAre | src/analysis.c:1751-1867 | a row's stack is the list of calls open in its context, and its counters count those exits |
| TraceFindings.DepthIsGreatest | src/analysis.c:1801-1817 | the depth kept for a context is the greatest number of calls open in it since the last fork into it, or the number open in the parent at that fork |
| TraceTable.RowsAreNamedContexts | src/analysis.c:1701-1727 | the number of rows is the number of contexts that calls and forks name |
| TraceTable.LoneForkOverflows | src/analysis.c:1757-1769 | one fork record alone names two contexts |
| TraceTheorems.StepOnStacks | src/analysis.c:1790-1867 | a call changes only the stack of its own context |
| TraceTheorems.ForkOnStacks | src/analysis.c:1757-1789 | a fork changes only the stack of the child's context |
| TraceTheorems.CleanTraceIffReadable | src/analysis.c:1729-1892 | there is no finding exactly when every context's calls, at a fork those open in the parent without the wrapper's, can be read at every place and end balanced |
| TraceTheorems.CleanTraceIffBalanced | src/analysis.c:1729-1892 | without forks there is no finding exactly when every context's calls form a balanced word on call, file and function |
| CallEdges.BuildCallEdges | src/model.c:867-919 | on every log: an exit has a return edge exactly when an earlier entry of its context and name is unmatched before it, and it comes from the newest such entry; an entry has a parent edge exactly when an earlier entry of its context is unmatched, and it comes from the newest such; the array of exits holds exactly the return edges |
| CallMatching.CallEdgesUnique | src/model.c:867-919 | the records leave only one set of such edges |
| CallEdges.FindActiveEnter | src/model.c:698-730 | the backward search finds the newest unmatched entry of the context, by name if asked |
| CallEdges.EdgesAreMatchingAndForest | src/model.c:867-919 | on every input returns are an injective matching of entries with later exits, and parents form a forest |
| CallEdges.CallEdgesExact | src/model.c:867-919 | on well-nested calls return edges are the bracket matching and parent edges the immediately enclosing calls |
| Lifetimes.FindLifetimeEnd | src/model.c:764-796 | the earliest later record of the process that ends the life, the first one on ties |
| Lifetimes.FindEnclosingCall | src/model.c:732-762 | the newest call of the context that was open at the record |
| Enclosing.EnclosingIsInnermost | src/model.c:732-762 | on well-nested calls and contexts numbered without repeats, calls in log order, the enclosing call of a record is the innermost call open at the record's number, wherever the record stands in the log |
| Enclosing.EnclosingEdges | src/model.c:732-762 | so the model joins a record to the innermost open call and to no other |
| Lifetimes.BuildResourceEdges | src/model.c:921-981 | the edges are exactly the enclosing-call, lifetime and child edges, each once |
| Lifetimes.BuildEdges | src/model.c:218-283 | call edges, then resource edges, all with ends in range, as the causal order asks; every edge means what EdgeMeanings.EdgesMean tells from the records and return edges alone, and everything so told is an edge |
| Lifetimes.BuiltMean | src/model.c:732-981 | enclosing-call, lifetime and child edges are exactly those between a record and the last call around it, a birth and the earliest later end of the same thing, and a fork or spawn and every record of the process it names |
| LogOrder.IdentityIffForward | src/analysis.c:341-378 | the order of the log is topological exactly when every arc leads to a later node |
| CausalCycles.CyclicExactly | src/model.c:921-981 | the arcs of a built model with numbered contexts are cyclic exactly when the creations among fork and spawn records are, or one names its own process and has an earlier record of its context |
| LogOrder.LogOrderIsCausal | src/model.c:218-283 | with numbers that follow the log the causal order is the order of the log exactly when no child's record precedes its creation, and there is then no cycle |
| LogOrder.FastChildIsOrdered | src/model.c:921-981 | a child's record before the fork makes no cycle, and the causal order is not that of the log |
| LogOrder.OwnChildIsCyclic | src/model.c:921-981 | a fork that names its own process as the child makes a cycle |
| LogOrder.CrossedForksAreCyclic | src/model.c:921-981 | two forks that name each other's processes make a cycle |
| LifetimeReplay.ReplayAgrees | src/lifecycle.c:1114-1153 | as long as nothing is acquired while it is live, after every prefix each acquisition has one entry and is released by the first release of its key |
| LifetimeReplay.NotReopenedIffNoDuplicate | src/lifecycle.c:289-321 | without replacements nothing is acquired while it is live exactly when the replay reports no duplicate acquisition |
| LifetimeReplay.LifetimeEdgeIsRelease | src/model.c:837-865 | the lifetime edge of a descriptor, block or resource leads to the record the replay stored as its release, and is missing when the entry is live, if and only if it does not lead to a reallocation without a result or a replacement or transfer that names no other resource |
| LifetimeReplay.DescriptorEdgeIsRelease | src/model.c:837-865 | on descriptors the edge and the stored release always agree |
| LifetimeReplay.LeakIffNotEnded | src/lifecycle.c:679-723 | finishing reports an acquisition as a leak exactly when no record ended it |
| LifetimeReplay.NoLifetimeEdgeIffLeak | src/lifecycle.c:679-723 | a missing edge and a leak report coincide exactly unless the edge leads to a record that loses the acquisition and nothing releases it later; on descriptors always |
| LifetimeReplay.LostBlockDisagrees | src/lifecycle.c:442-482 | a block given to a reallocation without a result has a lifetime edge there and is still reported as a leak |
| HealthTheorems.RisingIffUnflagged | src/event.c:334-347 | no sequence is counted as wrong exactly when the nonzero ones strictly increase |
| HealthTheorems.RowDecides | src/event.c:319-372 | a producer's counters decide whether its records are one complete log |
| HealthTheorems.VerdictIsExact | src/event.c:267-440 | the verdict holds exactly for one valid run whose producers each left a complete log |
| HealthTheorems.ZeroSequenceIsUnflagged | src/event.c:334-347 | a record with sequence 0 does not keep a stream from being complete |
| HealthTheorems.NumberedStreamsIncrease | src/event.c:334-347 | in a complete stream the sequences of every producer are nonzero and strictly increase if and only if no record has sequence 0 |
| HealthCounts.TotalsAreCounts | src/event.c:267-373 | every total is the number of records it is about, each judged by the earlier records of its producer |
| HealthCounts.UnfinishedAreCounted | src/event.c:442-469 | the count of incomplete producers is the number of producer keys whose records do not end in exactly one sound completion |
| HealthCounts.ErrnoIsLast | src/event.c:267-373 | the error number kept is that of the last failed write |
| StreamHealth.StreamHealth.FindOrAddProducer | src/event.c:485-545 | the first row of the key is found, or a new one appended |
| StreamHealth.StreamHealth.Observe | src/event.c:267-373 | the counters and rows after a record are the specified ones; a bad run id only counts |
| StreamHealth.StreamHealth.IncompleteProducers | src/event.c:442-469 | the number of producers of the stream without exactly one sound completion, told from their records |
| StreamHealth.StreamHealth.IsComplete | src/event.c:375-440 | true exactly when the records observed form a complete stream |
| JsonSpec.ValueSound | src/summary.c:743-948 | what is skipped is a value of the grammar within the nesting bound |
| JsonSpec.ValueComplete | src/summary.c:743-948 | a value followed by a delimiter and within the bound is skipped exactly to its end |
| JsonSpec.SkipIsExact | src/summary.c:743-948 | before a delimiter, skipping ends at a place exactly when a value does |
| JsonSpec.NumberComplete | src/summary.c:799-868 | every number of the grammar that a delimiter follows is read to its end |
| JsonSkip.JsonCursor.SkipValue | src/summary.c:743-797 | terminates within the text and its terminator and moves the cursor as specified |
| JsonSkip.JsonCursor.SkipObject | src/summary.c:870-916 | the loop moves the cursor past the object or fails, as specified |
| JsonSkip.JsonCursor.SkipArray | src/summary.c:918-948 | the loop moves the cursor past the array or fails, as specified |
| JsonSkip.JsonCursor.SkipNumber | src/summary.c:799-868 | the cursor moves only past a whole number |
| JsonSkip.JsonCursor.ParseSize | src/summary.c:683-713 | accepts a digit run exactly when its value is at most SIZE_MAX, and returns that value |
| JsonSkip.PrintedNumberReadsBack | src/summary.c:683-713 | the value of a printed number is the number |

## Left out

- Reports, JSON and graph writers, output files and the sanitizer-log scan: formatting and I/O.
- The line reader and the TSV record parser: they rest on record functions of another library.
- The command-line builder and its input files: plumbing around ingest.
- The ownership tables: transitions of another library.
- The resource policy of the analysis (message and identifier lookup, policy counters, status accessors): settled by reading one branch.
- Indented call-trace lines: only findings, stacks and depths are modelled.
- Allocation failure, errno, capacity doubling, copying and freeing of text: allocation succeeds. The limit on nodes and edges of the model is left out with it.
- Truncation of text by fixed-size buffers (192 bytes of evidence text): identities are whole; nodes of the model never hold absent text, so the branches for it in the analyses are left out.
- The library's qsort: any sort by the same comparison; an insertion sort stands for it.
- The flat array of schedules is a sequence of rows.
- Models of SIZE_MAX nodes or more: the code admits at most 1,048,576 nodes, and the largest index marks an absent one.
- Counters wider than a size_t: streams of more than SIZE_MAX records are not modelled, so counters do not wrap around.
- The bound on a run id's length and the test for a null pointer's text are not part of this model; the bound is a parameter and the test an attribute of the record.
- SyncAnalysis.AnalyzeSynchronization: its edge tables grow as needed; what the fixed tables of the program hold is stated by SyncTables.TablesSufficeIff.
- LifetimeReplay.LifetimeEdgeIsRelease: for streams of descriptor, allocation and resource records in which nothing is acquired while it is live. A fork copies entries that no node stands for, an exec closes descriptors without an edge, and resources of the classes `fd` and `allocation` share keys with the other kinds, so there the two readings are not of the same acquisitions.
- Interleaving.CollectPrefixKeys: append_sync_key fails when a finding's text does not fit a key's buffer, and the walk with it; texts fit here, so collecting keys never fails.
- JsonSkip.JsonCursor.ParseString: the string reader is not part of this model; its results are given as tables, so strings are what the reader accepts rather than the grammar of section 7 of RFC 8259.
- JsonSkip.JsonCursor.SkipValue: a failed call leaves the cursor unspecified, as its callers give up.
- The keys of the summaries and the rest of the summary parsers: conjunctions over the skipper and the size parser.
