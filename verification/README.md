# Lock-order tracking: the dependency graph and the deadlock guarantee

This project models the two halves of `tracing-mutex` that its promise rests on, and proves what they
promise.

**The dependency graph** (`src/graph.rs`). `DiGraphs.DiGraph` is the mutable graph with the
Pearce-Kelly dynamic topological sort: mirrored in- and out-edges, one order number per node, a pool of
recycled numbers, the optimistic insertion, the two bounded depth-first searches that share one visited
set, the repair of the affected orders, and the rollback. Hash tables are traversed by picking any
remaining entry, so the results hold for every traversal order. The methods are proved against a relation
between graph values (`Insertion.AddEdgeStep`, `GraphModel.WithoutNode`), and everything else is proved
about that relation: it keeps the invariant, it is total and deterministic, and over whole runs it
refines a labelled edge map that searches from scratch.

**The locking protocol** (`src/lib.rs`, `src/lockapi.rs`). `LockTracking.HeldLocks` and
`LockWrapper.TracingWrapper` are the shadow stack and the wrapper calls. `Protocol` is the transition
system they induce: any number of threads and locks, shared and exclusive modes, blocking and conditional
calls, one step for each indivisible action. Its graph steps are the same relation the graph's methods
are proved to implement, and `WrapperRefinement` shows that each wrapper call is a run of it.

## What is proved

* `add_edge` rejects an edge exactly when its head already reaches its tail; a rejection changes nothing
  and reports a genuine, simple, climbing path; an acceptance adds exactly that edge, keeps an existing
  label, and leaves a topological order that is the only possible repair of the affected orders.
* Both searches list exactly the affected vertices in spite of their pruning, never overlap, and stay
  between the two orders of the edge.
* Answers over any sequence of calls are those of the naive edge map. A list of edges is accepted in full
  exactly when it is acyclic, in whatever order it arrives. As many order numbers are in use as there
  were nodes at the fullest moment.
* Every sequence of calls on the graph has exactly one run. Numbers given back are given out again last
  first, and an accepted edge moves only vertices between its ends, the tail's side down and the head's up.
* The actions of a run determine its state. Read from the actions alone: the live locks are those created
  and not destroyed; a reader gets in exactly when no writer is in, a writer exactly when nobody is, and a
  writer then has the lock alone until it unlocks; the graph holds exactly the dependencies, with their
  data, that accepted requests put there and no destruction took away since.
* No run deadlocks in which no lock is destroyed, whatever the order of release. No run deadlocks in
  which locks are released in reverse order, even if unheld locks are destroyed at any time. Both are
  instances of one condition: of the locks a thread keeps, each still leads to the later ones without the
  destroyed lock. (What a thread keeps is its stack, less the lock of a conditional attempt it may have to
  give up and less a lock it has just given back.) In such runs every wait can also be brought to an end.
* That condition is exact. At any point of any run, whatever calls are in progress, destroying a lock
  leaves no deadlock ahead (none in any future without further destruction) if and only if the condition
  holds; and no state of a run has a deadlock ahead if and only if all its destructions meet the condition.

## Where code and documentation differ

* `src/lib.rs:4-7` says an acyclic graph guarantees freedom from deadlock. The code does not give that
  for a lock that is released out of order and destroyed while later locks are held:
  `Witness.OutOfOrderReleaseAndDestructionDeadlocks` gives such a run, `Witness.BadRun` (hold 0, 1, 2;
  release 1; destroy 1; lock 0 again), with an acyclic graph at its end.
  `Exactness.DestroyIsSafeExactly` says exactly when a destruction does this.
* `src/graph.rs:58` says new nodes are appended to the end of the order. With a recycled number they need
  not be (`NaiveGraph.RecycledOrderIsNotLast`); `GraphModel.FreshNodeIsLast` says exactly when they are.
* `src/graph.rs:109` says `false` is returned on a cycle, and line 113 promises all edge data of the
  would-be cycle. The code returns an error with the data of the existing path; the rejected edge's own
  data is not part of it (`Search.ReportOmitsRejectedEdge`). The model follows the code.
* `src/lib.rs:142-143` counts one mutex id less than there is: the code gives out every number below
  `usize::MAX` (`Enabled.ManyCreations`).

## Model

| member | source | states |
|---|---|---|
| GraphModel.WithNodeKeeps | src/graph.rs:59-80 | creating a node keeps the representation invariant and the topological order and adds no edge |
| GraphModel.WithNodeFresh | src/graph.rs:60-70 | the order given to a new node belongs to no live node; a new number is used only when the pool is empty |
| GraphModel.FreshNodeIsLast | src/graph.rs:58-70 | a new node is last in the order if and only if the pool is empty or every number above the recycled one is pooled |
| GraphModel.RemovedOrderIsReused | src/graph.rs:62-66 | the next new node after a removal gets the removed node's number, and the pool is what it was |
| GraphModel.ReusedInReverse | src/graph.rs:62-91 | as many new nodes as were removed get the removed nodes' numbers, last removed first |
| GraphModel.OrdersPartition | src/graph.rs:59-91 | live orders and pooled orders are disjoint and together are exactly the numbers below the span |
| GraphModel.WithoutNodeKeeps | src/graph.rs:82-104 | removal keeps the invariant and the span, and erases exactly the node and its incident edges |
| GraphModel.WithoutNodeEdges | src/graph.rs:82-104 | the edges left by a removal, labels included, are those that avoid the node |
| GraphModel.ValidIsAcyclic | src/graph.rs:18-20 | a graph that satisfies the invariant has no cycle |
| OrderRepair.RegionsAreApart | src/graph.rs:138-163 | the two affected groups of an acyclic insertion do not meet, contain the two ends, and lie between their orders |
| OrderRepair.FirstGroupSinks | src/graph.rs:222-241 | a repaired vertex of the backward group never moves up |
| OrderRepair.SecondGroupRises | src/graph.rs:222-241 | a repaired vertex of the forward group never moves down |
| OrderRepair.RepairedIsInjective | src/graph.rs:222-241 | the repair gives no two vertices the same order |
| OrderRepair.RepairIsUnique | src/graph.rs:222-241 | only one assignment of the old orders puts the backward group first and keeps the order inside each group |
| OrderRepair.RepairIsTopological | src/graph.rs:138-166 | after the repair every edge climbs, the inserted one and those between affected and unaffected vertices included |
| OrderRepair.AffectedRegionBound | src/graph.rs:138-163 | the affected vertices are at most as many as the orders between the two ends |
| Insertion.EdgeAddedKeeps | src/graph.rs:115-167 | an accepted edge keeps the whole invariant and adds exactly one labelled edge; an existing edge keeps its first label |
| Insertion.AddEdgeStepKeeps | src/graph.rs:115-167 | every call, accepted or rejected, ends in a valid graph |
| Insertion.AddEdgeIsDeterministic | src/graph.rs:115-167 | answer and resulting graph do not depend on the traversal order of the hash tables |
| Insertion.OnlyAffectedMove | src/graph.rs:138-166 | a vertex changes its order only between the ends of a descending edge: down if it leads to the tail, up if the head leads to it |
| Search.ForwardExact | src/graph.rs:140-200 | a completed forward search lists exactly what the head reaches below the bound, and then there is no cycle, although the tail is recognised by its order alone |
| Search.BackwardExact | src/graph.rs:157-220 | the backward search lists exactly what reaches the tail above the bound; the shared visited set prunes nothing |
| Search.SearchesStayInside | src/graph.rs:138-220 | the two lists have no repetition and no common vertex, and are together no longer than the distance of the two orders plus one |
| Search.HitIsGenuine | src/graph.rs:182-199 | an error carries the labels, last first, of a simple climbing path from head to tail of the graph before the call |
| Search.ReportOmitsRejectedEdge | src/graph.rs:107-114 | of the cycle the rejected edge would close, the report has the label of every edge but the rejected one |
| Sorting.SortByKey | src/graph.rs:243-246 | an ascending rearrangement of its input |
| Sorting.DealIsRepair | src/graph.rs:222-241 | dealing the sorted orders out along the two sorted groups is a repair of the two groups |
| DiGraphs.DiGraph.constructor | src/graph.rs:254-259 | a new graph is empty and valid |
| DiGraphs.DiGraph.AddNode | src/graph.rs:59-80 | the whole new state: the node looked up or created, with its order |
| DiGraphs.DiGraph.RemoveNode | src/graph.rs:82-104 | the whole new state, and whether the node was there; the neighbours it looks up exist |
| DiGraphs.DiGraph.AddEdge | src/graph.rs:115-167 | accepts if and only if the head does not reach the tail; a rejection leaves every field as it was and reports a genuine path; the whole new state otherwise |
| DiGraphs.DiGraph.DfsF | src/graph.rs:170-200 | on success a completed, duplicate-free forward search of the bounded region; on an error a path to the vertex at the bound |
| DiGraphs.DiGraph.DfsB | src/graph.rs:203-220 | a completed, duplicate-free backward search of the bounded region |
| DiGraphs.DiGraph.Reorder | src/graph.rs:222-241 | only orders change, and they are the repair of the two lists |
| DiGraphs.DiGraph.Sort | src/graph.rs:243-246 | the same vertices in ascending order |
| Totality.RepairExists | src/graph.rs:222-241 | any two disjoint groups can be repaired |
| Totality.AddEdgeHasOutcome | src/graph.rs:115-167 | every call on a valid graph has an answer and a resulting graph |
| NaiveGraph.StepRefines | src/graph.rs:82-167 | one call changes the edge map as the naive graph does, and answers alike |
| NaiveGraph.RunRefines | src/graph.rs:82-167 | any run of calls answers as the naive graph, and ends valid with the same labelled edges |
| NaiveGraph.RunExists | src/graph.rs:82-167 | every sequence of calls on a new graph has a run |
| NaiveGraph.RunsAgree | src/graph.rs:82-167 | two runs of the same calls give the same answers and go through identical graphs, orders and pool included |
| NaiveGraph.RecycledOrderIsNotLast | src/graph.rs:58-70 | after an edge is added and its tail removed, the next new node comes before the edge's head in the order |
| NaiveGraph.SpanIsPeak | src/graph.rs:59-91 | after any run the numbers handed out are as many as the most nodes ever live at once |
| NaiveGraph.OrdersBelowPeak | src/graph.rs:59-91 | after any run every order is below that peak |
| NaiveGraph.RemovalReopens | src/lib.rs:337-361 | after a removal an edge is accepted if and only if no path against it avoided the removed node |
| NaiveGraph.BatchAccepted | src/graph.rs:296-324 | a list of edges added to an empty graph is accepted in full if and only if it is acyclic |
| NaiveGraph.BatchOrderIsIrrelevant | src/graph.rs:296-324 | a rearranged list is accepted in full if and only if the original is |
| LockTracking.ReleasedSplits | src/lib.rs:199-209 | releasing takes out one entry, the last occurrence, and keeps all others in place |
| LockTracking.HeldThenReleased | src/lib.rs:166-172 | a borrow that is dropped at once restores the stack |
| LockTracking.HeldLocks.MarkHeld | src/lib.rs:179-197 | a dependency from the top only, the id pushed if it is accepted, nothing changed and a genuine cycle reported if not |
| LockTracking.HeldLocks.MarkReleased | src/lib.rs:199-213 | the last occurrence removed; false, in place of the panic, exactly when the id is not on the stack |
| LockWrapper.TracingWrapper.Lock | src/lockapi.rs:58-62 | marked before the inner lock is waited for or taken; nothing changes on a cycle |
| LockWrapper.TracingWrapper.Unlock | src/lockapi.rs:64-68 | the inner lock given back and the mark removed |
| LockWrapper.TracingWrapper.ConditionallyLock | src/lockapi.rs:70-89 | returns the inner result; on failure the stack and the inner lock are exactly as before |
| LockWrapper.Exclusion | src/lockapi.rs:180-198 | after a thread got in, another gets in if and only if both are readers |
| LockWrapper.AcquireThenRelease | src/lockapi.rs:188-202 | giving the inner lock back undoes the taking |
| LockStacks.MarkHeldLabels | src/lib.rs:179-197 | a new dependency carries the data of the request that made it, an old one keeps its own |
| LockStacks.OrderedStackPush | src/lib.rs:181-196 | the one dependency from the top orders the new entry after all entries |
| LockStacks.OrderedStackRelease | src/lib.rs:199-209 | releasing any entry leaves the others ordered |
| LockStacks.HeldIsRejected | src/lib.rs:174-194 | a lock that is on the thread's stack is never accepted again |
| LockStacks.OrderedIsDistinct | src/lib.rs:199-209 | no id is twice on an ordered stack, so the reverse search removes the only occurrence |
| LockStacks.LinkedIsOrdered | src/lib.rs:119-125 | direct dependencies between neighbours order the whole stack |
| ProtocolInvariant.StepKeepsTracked | src/lockapi.rs:58-89 | every step keeps stacks, phases and real holdings in agreement |
| ProtocolInvariant.StepKeepsOrder | src/lib.rs:179-240 | every step keeps the stacks ordered, save the destruction of the only link between two held locks |
| ProtocolInvariant.DropSafeKeepsOrder | src/lib.rs:236-240 | after a destruction the stacks are ordered if and only if every two entries stay connected without the destroyed lock |
| ProtocolInvariant.RunsKeepTracked | src/lockapi.rs:58-89 | every run keeps that agreement |
| ProtocolInvariant.OrderedRunsKeep | src/lib.rs:179-240 | every run whose destructions keep whole stacks ordered keeps the stacks ordered as well |
| ProtocolInvariant.StacksMirrorReality | src/lockapi.rs:58-89 | in every run a thread has got into each lock exactly as often as it is on its stack, save the pending entry; an awaited lock is on top; a release finds its lock, so its panic is never reached |
| ProtocolInvariant.StacksStayOrdered | src/lib.rs:179-213 | in every run whose destructions keep whole stacks ordered, any two entries of a stack are joined by a path in their order, and no id is there twice |
| Enabled.CreateIsPossibleExactly | src/lib.rs:144-152 | an id is left if and only if the counter is below `usize::MAX` |
| Enabled.ManyCreations | src/lib.rs:144-152 | any number of locks up to `usize::MAX` can be created, numbered from 0, and not one more |
| Enabled.DestroyIsPossibleExactly | src/lib.rs:236-240 | a live lock can be destroyed if and only if no thread holds it or is in a call about it, whatever other threads do |
| Enabled.RequestIsPossibleExactly | src/lib.rs:179-197 | a thread can ask for a lock if and only if it is outside all calls and the lock is live |
| Enabled.RequestIsRejectedExactly | src/lib.rs:179-197 | a request changes nothing if the lock leads to the thread's newest one, and otherwise puts the thread into its call |
| Enabled.RunIsDeterministic | src/lockapi.rs:58-89 | the actions of a run determine the state it ends in |
| Enabled.ObedientIsDisciplined | src/lib.rs:4-7 | a run whose every action is allowed where it happens is a run of the discipline |
| History.RunIsRecorded | src/lockapi.rs:58-89 | in every run the inner locks, the calls in progress and the live locks are what the actions say |
| History.GrantIsPossibleExactly | src/lockapi.rs:180-198 | in every run a pending call can be granted if and only if no writer is in, and for a writer nobody at all, by the actions |
| History.UnlockIsPossibleExactly | src/lockapi.rs:64-68 | in every run a thread can unlock exactly what it got into and has not given back |
| History.LiveLocksExactly | src/lib.rs:144-240 | in every run the live locks are those created and not destroyed since, and no id is given out twice |
| History.WritersAreAlone | src/lockapi.rs:180-202 | in every run whoever got in exclusively has the lock alone |
| History.ExclusiveUntilUnlock | src/lockapi.rs:58-68 | from an exclusive grant until the unlock the thread has the lock, no other has it, and no other can get in |
| History.LockAnswersExactly | src/lockapi.rs:58-62 | after any run `lock` panics if and only if the lock leads to the newest held one, and otherwise returns at once if and only if nobody is in the way |
| History.ConditionallyLockAnswersExactly | src/lockapi.rs:70-89 | after any run `conditionally_lock` panics on the same condition, and otherwise succeeds if and only if permitted and nobody is in the way |
| Provenance.StepChangesData | src/lib.rs:179-240 | which dependencies with which data a step adds and takes away |
| Provenance.DependenciesExactly | src/lib.rs:179-240 | in every run a dependency with some data is in the graph if and only if an accepted request put it there with that data and neither lock was destroyed since |
| Connection.StepKeepsTopsLinked | src/lib.rs:179-240 | every step, destruction included, keeps the direct dependency between a lock being acquired and the entry below it |
| Connection.StepKeepsConnection | src/lib.rs:179-240 | every step keeps connected what the threads keep, save the destruction of the only link between two kept locks |
| Connection.DestroyedConnection | src/lib.rs:236-240 | after a destruction what the threads keep is connected if and only if it was without the destroyed lock |
| Connection.RunsKeepTopsLinked | src/lib.rs:179-240 | in every run a lock being acquired has its dependency on the entry below it |
| Connection.ConnectedRunsKeep | src/lib.rs:179-240 | every run whose destructions leave kept locks connected keeps them connected |
| Connection.ConnectedWaiters | src/lib.rs:181-196 | when that holds, everything below an awaited lock leads to it along at least one dependency |
| Connection.OrderedDropsAreConnected | src/lib.rs:236-240 | a run whose destructions keep whole stacks ordered is one whose destructions leave kept locks connected |
| Deadlock.WaitsUpwards | src/lib.rs:4-7 | a thread that holds one lock and waits for another waits for one later in the topological order |
| Deadlock.OrderedIsDeadlockFree | src/lib.rs:4-7 | when waiters are ordered, some thread of any blocked set waits for a lock none of them holds |
| Deadlock.NeverStuck | src/lib.rs:4-7 | while a thread waits and no set of threads is deadlocked, a grant, a refusal or a release is possible |
| Deadlock.ConnectedDropsNeverDeadlock | src/lib.rs:4-7 | no deadlock in any run whose destructions leave kept locks connected |
| Deadlock.OrderedDropsNeverDeadlock | src/lib.rs:4-7 | no deadlock in any run whose destructions keep whole stacks ordered |
| Deadlock.WithoutDestructionNeverDeadlocks | src/lib.rs:4-7 | no deadlock in any run without destruction, for every order of release |
| Deadlock.OrderedIsSafe | src/lib.rs:4-7 | no future without destruction deadlocks from a state with ordered stacks, calls in progress included |
| Deadlock.ConnectedIsSafe | src/lib.rs:4-7 | no future without destruction deadlocks from a state in which kept locks are connected and pending ones linked |
| Deadlock.LifoStepKeepsLinks | src/lib.rs:199-240 | with reverse-order release every step, destruction included, keeps a direct dependency between stack neighbours |
| Deadlock.LifoIsOrdered | src/lib.rs:199-240 | with reverse-order release every destruction of an unheld lock keeps whole stacks ordered |
| Deadlock.LifoNeverDeadlocks | src/lib.rs:4-7 | no deadlock in any run in which every thread unlocks its newest lock only, with destruction of unheld locks at any time |
| Exactness.UnconnectedCanDeadlock | src/lib.rs:179-197 | from a state with two unconnected entries on a running thread's stack a deadlock can be reached, the graph staying valid |
| Exactness.GrantedAtLast | src/lockapi.rs:58-62 | with no deadlock ahead, a waiting thread can be brought to get its lock, its stack and the graph unchanged |
| Exactness.SafeIsConnected | src/lib.rs:4-7 | a state with no deadlock ahead has everything connected that its threads keep, whatever calls are in progress |
| Exactness.SafeExactlyWhenConnected | src/lib.rs:4-7 | when pending locks are linked, no future without destruction deadlocks if and only if everything the threads keep is connected |
| Exactness.ReachableIsSafeExactly | src/lib.rs:4-7 | the same, without hypothesis, for every state that any run reaches |
| Exactness.DestroyIsSafeExactly | src/lib.rs:236-240 | at any point of any run, a destruction leaves no deadlock ahead if and only if everything the threads keep stays connected without the destroyed lock |
| Exactness.SafeRunsExactly | src/lib.rs:4-7 | a run has no deadlock ahead of any of its states if and only if all its destructions leave kept locks connected |
| Witness.OutOfOrderReleaseAndDestructionDeadlocks | src/lib.rs:4-7 | the listed run from the initial state deadlocks with an acyclic graph |
| Progress.ResolvingShrinks | src/lockapi.rs:58-89 | every grant, refusal and release uses up work |
| Progress.ResolvingEnds | src/lockapi.rs:58-89 | such steps, in any order, are never more than the work at hand |
| Progress.EveryWaitEnds | src/lib.rs:4-7 | from any state with no deadlock ahead such steps alone lead to a state where nobody waits |
| Progress.NoRunIsStuck | src/lib.rs:4-7 | the same after every run whose destructions leave kept locks connected |
| WrapperRefinement.LockRefines | src/lockapi.rs:58-62 | a call of `lock` is a request and, if it returns, a grant of the protocol |
| WrapperRefinement.ConditionallyLockRefines | src/lockapi.rs:70-89 | a call of `conditionally_lock` is a request, then a grant or a refusal and an unmark |
| WrapperRefinement.UnlockRefines | src/lockapi.rs:64-68 | a call of `unlock` is an inner unlock and an unmark |

## Left out

- NaiveGraph.RunRefines: compares accept and reject, not the reported path, which may differ between traversal orders; that it is genuine is in `DiGraphs.DiGraph.AddEdge`.
- `Node` is a value inside the node table, updated through the table; the searches list vertices where the original lists references to nodes, so the identity of a node's `Cell` is not modelled.
- `&mut` arguments of the searches (`visited`, `delta_f`, `delta_b`) are passed in and returned, and the standard sorts are a function with the contract of a sort.
- `usize` orders and stack lengths are unbounded numbers; they are bounded by memory in the original. Ids stop at `usize::MAX` of a 64-bit target, where the original panics.
- The atomic counter behind `MutexId::new` and the lazy id: ids are unique.
- Backtraces and message formatting: the data of a dependency is an opaque value, captured without effect.
- Custom cycle handlers: a handler that does not panic lets a lock onto the stack without its dependency. Only the default panic is modelled, as a request that changes nothing.
- `reset_dependencies`: it is `remove_node` on a lock that may be held, and its own documentation gives up the guarantee.
- `Condvar` waits and rwlock upgrades: both can block for a lock that is not on top of the stack.
- Upgradable read locks, downgrades, fairness and bumping: they do not touch the tracking, or forward to the same three wrapper calls.
- Thread-local teardown, leaked guards and poisoning.
- The `std` and `parking_lot` wrapper types, `Once` and its relatives, `Deref`, `Debug`, `From` and the feature flags: they forward to the same protocol.
