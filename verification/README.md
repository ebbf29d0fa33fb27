# FrameKit runtime: a Dafny model

FrameKit is a C++ application host. Its runtime layer consists of small stateful components: a module graph that
decides in which order modules start, a kernel that starts and stops them, an inline execution service, a table of
services, a loop runner with a fixed-step clock, an event bus with deferred queues, a fault policy with budgets, a
platform host and a supervisor of child processes. This project models these components and proves what they keep
over whole runs. Objects whose methods change fields are classes with those fields; whatever lies outside (callbacks,
hosts, launcher, policies, elapsed time) may answer anything. Classes carry ghost histories, and the main results are
statements about those histories.

| file | component |
|---|---|
| `Sequences.dfy`, `StringOrder.dfy`, `Digraph.dfy` | sequences without repetition, the order of `std::set<std::string>`, graphs, consumer-first orders and cycles |
| `ModuleGraph.dfy` | declaration checks, the sorted Kahn loop, the start-up order |
| `ExecutionService.dfy`, `ExecutionRuns.dfy` | the task service, and every interleaving of its critical sections |
| `ServiceTable.dfy` | the phases, registrations and teardown order shared by the service context and the execution service registry |
| `Lifecycle.dfy`, `KernelTrace.dfy`, `Kernel.dfy` | the state machine, what an observer may see of a kernel, and the kernel itself |
| `LoopPolicy.dfy`, `LoopRunner.dfy`, `LoopProperties.dfy` | policy validation, the frame algorithm, and its properties over runs |
| `EventBus.dfy`, `EventBusProperties.dfy` | queues, drain and dispatch, and the exact drain order |
| `FaultPolicy.dfy` | dispositions, 32-bit fault counters and budgets |
| `PlatformHost.dfy` | acquiring and releasing the platform and the window, and tolerating render faults |
| `Supervisor.dfy` | launch with rollback, restart budgets, the child table |

How the parts work together:

- `ModuleGraph.ValidateModuleGraph` is proved against a specification on graphs (`Digraph.LeastTopological`), not
  against another algorithm; the cycle behind a refusal comes from a pigeonhole argument.
- `ExecutionRuns` takes each critical section of the service as one atomic step. The methods of the class are proved
  to be these steps, and the lemmas speak of every interleaving of any number of submitters, cancellers and drains
  with a shutdown. A task that submits, cancels or drains while it runs is one of these interleavings.
- The kernel logs every state entry, callback and shutdown step. `KernelTrace.Allowed` says which event may come next;
  each method of `Kernel.KernelRuntime` may only log what is allowed; and `KernelTrace.AcceptedIsSafe` shows that any
  history of allowed events has the documented shape, cycle after cycle. A cycle's modules are those of its `Resolved`
  event, which the kernel logs with the modules it was configured with (`Kernel.DeclaredOrderIsKept`).
- The loop runner and the fault policy are used by the platform host, whose `Tick` is specified exactly.

## What the code does differently from its documentation

The model follows the code. Where a documented promise fails, a lemma gives a concrete input and another one the exact
condition under which it holds; the other entries are behaviour that a reader of the interfaces would not expect.

- `docs/event-input-semantics.md` says that higher priority classes drain first. The code takes one event of each class
  in turn: `StrictPriorityFails`, `DrainIsByPriorityExactlyWhen`.
- `docs/loop-stage-graph-profiles.md` guarantees `PreRender` and `PostRender` around `Render` when rendering is enabled.
  A headless policy may disable the wrappers alone: `RenderMayRunUnwrapped`, `RenderIsWrappedExactlyWhen`.
- The largest catch-up budget that validation accepts wraps around to no step at all: `LargestBudgetRunsNoStep`,
  `StepCountBounds`.
- A fail-fast runner that overran recovers once its 64-bit accumulator wraps far enough: `FailFastRecoversByWrapping`,
  `AllFailExactlyWhen`.
- The lifecycle table alone permits a rerun without a stop (`TableAllowsRerunWithoutStop`); that no kernel does so
  rests on the frozen service context (`RunsAreSeparated`).
- The supervisor's relaunch erases map entries under the id of the new process, because the identity it was given is a
  reference into the slot it has just overwritten. Entries of replaced children stay behind, so the handshake and
  heartbeat maps cover the table and match it exactly only until a relaunch succeeds (`RelaunchChild`,
  `StaleEntryRemains`).
- The supervisor's stop empties the table even when a child refuses to stop; those that still run are abandoned
  (`StopAll`).

## Model

| member | source | states |
|---|---|---|
| `StringOrder.Trichotomy` | src/module_graph.cpp:113-118 | the order in which the ready set is kept is total |
| `StringOrder.Transitive` | src/module_graph.cpp:113-118 | the order in which the ready set is kept is transitive |
| `StringOrder.LessMeaning` | src/module_graph.cpp:113-127 | one id comes before another exactly if they agree up to some character and there it ends, or has the smaller character |
| `StringOrder.LeastExists` | src/module_graph.cpp:123-125 | every non-empty ready set has a least id, so the loop always has a next one |
| `Digraph.GreedyIsLeast` | src/module_graph.cpp:123-138 | picking the least available id at each step yields the lexicographically least of all consumer-first orders |
| `Digraph.LeastIsUnique` | src/module_graph.cpp:123-158 | there is only one lexicographically least order, so the result is determined |
| `Digraph.TopologicalIsAcyclic` | src/module_graph.cpp:140-147 | a graph that can be ordered has no cycle |
| `Digraph.StuckHasCycle` | src/module_graph.cpp:140-147 | when every remaining module has a remaining consumer, the remaining ones contain a real cycle |
| `ModuleGraph.CollectIds` | src/module_graph.cpp:25-44 | succeeds with exactly the declared ids when no id is empty or repeated; otherwise reports the first bad one |
| `ModuleGraph.CollectDependencies` | src/module_graph.cpp:54-103 | for one module: succeeds with exactly its declared dependencies, or reports its first bad entry |
| `ModuleGraph.BuildAdjacency` | src/module_graph.cpp:46-104 | builds the declared graph when all modules are well declared; otherwise reports the first bad entry of the first bad module |
| `ModuleGraph.CountEach` | src/module_graph.cpp:106-111 | each dependency of one consumer is counted once, nothing else is |
| `ModuleGraph.CountConsumers` | src/module_graph.cpp:106-111 | the indegree of a module is its number of consumers |
| `ModuleGraph.Release` | src/module_graph.cpp:129-137 | lowers the counts of the placed module's dependencies and readies exactly those that reach zero |
| `ModuleGraph.KahnStep` | src/module_graph.cpp:124-137 | placing the least ready id keeps the loop invariant: greedy prefix, exact waiting counts, exact ready set |
| `ModuleGraph.PlaceLeast` | src/module_graph.cpp:124-137 | one turn of the loop keeps the invariant and places one more declared id |
| `ModuleGraph.NothingReady` | src/module_graph.cpp:123-147 | when nothing is ready, all ids are placed exactly if the graph is acyclic, and then in the least order |
| `ModuleGraph.OrderModules` | src/module_graph.cpp:106-138 | the order is complete exactly if the graph is acyclic, and then it is the least consumer-first order |
| `ModuleGraph.ValidateModuleGraph` | src/module_graph.cpp:24-158 | valid exactly if the modules are well declared and acyclic; the base order is the least consumer-first order, the start-up order its reverse; otherwise exactly one error, the first one |
| `ModuleGraph.BaseOrderHasSmallerIds` | src/module_graph.cpp:113-138 | where any other consumer-first order first departs from the base order, the base order has the id that is smaller character by character |
| `ModuleGraph.CleanIsWellDeclared` | src/module_graph.cpp:25-104 | no entry is at fault exactly if ids are non-empty and unique, no module lists itself or repeats an entry, and required dependencies are declared |
| `ModuleGraph.FirstErrorIsUnique` | src/module_graph.cpp:25-147 | only one error can be the first, so the reported code and ids are determined |
| `ModuleGraph.ErrorCodeMeaning` | src/module_graph.cpp:25-147 | what each error code says about the module and the dependency that the error names |
| `ModuleGraph.StartupIsDependenciesFirst` | src/module_graph.cpp:149-150 | the start-up order lists every module once, after all its declared dependencies |
| `ModuleGraph.ListingOrderIsIrrelevant` | src/module_graph.cpp:24-158 | two lists with the same modules get the same verdict and the same orders, however they are arranged |
| `ExecutionService.InlineExecutionService.SubmitTask` | include/framekit/service/execution.hpp:106-133 | a task is queued at the end under a fresh id, or rejected and counted when empty or after shutdown, with nothing else changed |
| `ExecutionService.InlineExecutionService.Cancel` | include/framekit/service/execution.hpp:135-158 | succeeds exactly for a pending task before shutdown, and is the atomic cancel step |
| `ExecutionService.InlineExecutionService.Take` | include/framekit/service/execution.hpp:161-166 | swaps out the whole queue in one step |
| `ExecutionService.InlineExecutionService.MarkRunning` | include/framekit/service/execution.hpp:172-179 | is the atomic start step |
| `ExecutionService.InlineExecutionService.Record` | include/framekit/service/execution.hpp:197-205 | is the atomic finish step, with the matching counter |
| `ExecutionService.InlineExecutionService.Drain` | include/framekit/service/execution.hpp:160-210 | undisturbed, runs exactly the pending tasks in order and returns each with its outcome |
| `ExecutionService.InlineExecutionService.BeginShutdown` | include/framekit/service/execution.hpp:212-230 | cancels exactly what is pending, once, and never fails |
| `ExecutionService.WithoutAt` | include/framekit/service/execution.hpp:141-147 | erasing the first match removes one entry and keeps the order of the others |
| `ExecutionService.CancelAllMeaning` | include/framekit/service/execution.hpp:219-226 | the shutdown loop marks exactly the pending tasks as cancelled |
| `ExecutionRuns.PlacedStep` | include/framekit/service/execution.hpp:106-230 | every critical section keeps the placement: each issued id is pending, held by exactly one drain, or cancelled, with the recorded state that belongs to that place |
| `ExecutionRuns.CountedStep` | include/framekit/service/execution.hpp:106-230 | every critical section keeps the counters: submitted equals pending, taken, running, completed, failed and cancelled together |
| `ExecutionRuns.InvHoldsThroughout` | include/framekit/service/execution.hpp:106-230 | placement and counters are right at every release of the lock, in every interleaving |
| `ExecutionRuns.StepAdvances` | include/framekit/service/execution.hpp:106-230 | no step moves a task back, reissues an id or alters what a drain took |
| `ExecutionRuns.RunAdvances` | include/framekit/service/execution.hpp:106-230 | the same between any two moments of a run |
| `ExecutionRuns.TerminalResultsAreFinal` | include/framekit/service/execution.hpp:106-230 | a completed, failed or cancelled task keeps that result for ever |
| `ExecutionRuns.StartedWasQueued` | include/framekit/service/execution.hpp:170-179 | a drain only starts tasks that are still queued |
| `ExecutionRuns.NoTaskRunsTwice` | include/framekit/service/execution.hpp:160-210 | no task is started twice, however many drains compete |
| `ExecutionRuns.CancelledTasksNeverRun` | include/framekit/service/execution.hpp:135-230 | a task that was cancelled, by a caller or by shutdown, is never started |
| `ExecutionRuns.FinishedAsItThrew` | include/framekit/service/execution.hpp:181-205 | in every interleaving a task that ran is Failed for ever exactly if it threw, else Completed |
| `ExecutionRuns.RejectedCountsRejections` | include/framekit/service/execution.hpp:106-116 | the rejected counter is the number of submissions without a task or after the shutdown |
| `ExecutionRuns.DrainReturnsWhatItTook` | include/framekit/service/execution.hpp:160-210 | a finished drain returns exactly the ids it swapped out, in increasing order, with the recorded results |
| `ExecutionRuns.NothingIsAcceptedAfterShutdown` | include/framekit/service/execution.hpp:106-230 | after shutdown the queue stays empty and no id is issued, while drains that took tasks earlier may still run them |
| `ServiceTable.Table.constructor` | include/framekit/service/context.hpp:40-41 | a new table is open and empty |
| `ServiceTable.Table.Freeze` | include/framekit/service/context.hpp:42-51 | succeeds exactly once per open phase and counts it |
| `ServiceTable.Table.Register` | include/framekit/service/context.hpp:136-178 | accepted exactly while open, for a present service, on a free key or with leave to replace; a replacement keeps its place in the order |
| `ServiceTable.Table.BeginTeardown` | include/framekit/service/context.hpp:53-107 | removes the context-owned entries in reverse order of their first registration and keeps the external ones; a second call changes nothing |
| `ServiceTable.Table.ResetForNextStartCycle` | include/framekit/service/context.hpp:109-119 | refused exactly while frozen; otherwise empties and reopens the table |
| `ServiceTable.SplitByOwnership` | include/framekit/service/context.hpp:75-87 | in whatever order a hash map is walked, the owned keys are collected once each and the external entries kept |
| `ServiceTable.SortIsDescending` | include/framekit/service/context.hpp:89-94 | the sort yields strictly falling sequence numbers |
| `ServiceTable.HistoryInvariant` | include/framekit/service/context.hpp:136-178 | after any registrations and replacements, entries are numbered by first registration |
| `ServiceTable.TeardownOrderIsUnique` | include/framekit/service/context.hpp:75-99 | the teardown order does not depend on the iteration order of the hash map |
| `ServiceTable.TeardownReversesFirstRegistration` | include/framekit/service/context.hpp:53-178 | for any history, any valid teardown order is the reversed first-registration order of the owned keys |
| `ServiceTable.FirstRegisteredInOrder` | include/framekit/service/context.hpp:136-178 | keys are listed in the order of their first registration in the history |
| `ServiceTable.TeardownGoesBackwards` | include/framekit/service/context.hpp:53-178 | of two keys taken down, the one whose first registration came later goes first |
| `ServiceTable.LastTakenDecides` | include/framekit/service/context.hpp:136-178 | who owns an entry is decided by the last registration of its key that was let in |
| `ServiceTable.ShutDownEach` | include/framekit/service/execution.hpp:404-413 | every listed service is told to shut down and awaited even after one fails; the answer is the conjunction |
| `ServiceTable.ShutDownRegistry` | include/framekit/service/execution.hpp:355-416 | owned services are shut down in reverse first-registration order, all of them, once; true exactly if every owned service agreed to both calls |
| `Lifecycle.LifecycleStateMachine.TransitionTo` | src/lifecycle_state_machine.cpp:43-51 | moves and records exactly the legal transitions, so the history stays legal |
| `Lifecycle.PredecessorsOf` | src/lifecycle_state_machine.cpp:7-28 | from which states each state may be entered |
| `Lifecycle.RunningNeedsBootstrap` | src/lifecycle_state_machine.cpp:7-28 | Running is reached only through Bootstrapping and Initializing, from Stopped or Faulted |
| `Lifecycle.TableAllowsRerunWithoutStop` | src/lifecycle_state_machine.cpp:7-28 | the table alone admits a history with two runs and no stop between them |
| `KernelTrace.AcceptedIsSafe` | src/kernel_runtime.cpp:63-280 | any history of allowed events has the cycle shape at every moment: up along the start-up order of the modules the cycle was resolved for, then down in reverse over exactly the started ones, complete at Stopped |
| `KernelTrace.SafeMeaning` | src/kernel_runtime.cpp:63-280 | at every moment of a safe history one description fits the cycle so far, with the modules of its own resolution, and it is complete when Stopped comes next |
| `KernelTrace.FailuresSince` | src/kernel_runtime.cpp:63-280 | no failure is counted between two moments exactly if no bootstrap, initialize, handler, stop or platform callback refused in between |
| `KernelTrace.DependenciesStartFirst` | src/kernel_runtime.cpp:199-212 | within a described cycle a module comes up after each dependency declared in the modules of the cycle's resolution |
| `KernelTrace.StoppedWasStarted` | src/kernel_runtime.cpp:229-244 | within a described cycle only a started module goes down |
| `KernelTrace.ConsumersGoDownFirst` | src/kernel_runtime.cpp:229-244 | within a described cycle a module is stopped after each started consumer declared in the modules of the cycle's resolution is torn down |
| `KernelTrace.CallbacksRunAtMostOnce` | src/kernel_runtime.cpp:179-246 | each phase of each module is called at most once in a cycle |
| `KernelTrace.ConsumersAreNotifiedFirst` | src/kernel_runtime.cpp:229-244 | within a described cycle, with only a stop handler, each module is announced once and after all consumers declared in the modules of the cycle's resolution |
| `KernelTrace.CompleteCyclesStopWhatStarted` | src/kernel_runtime.cpp:224-246 | in a complete cycle a module is stopped (torn down) exactly if its start succeeded |
| `KernelTrace.EndedCyclesStopWhatStarted` | src/kernel_runtime.cpp:107-130 | every cycle that ended in Stopped stopped and tore down exactly what it had started |
| `KernelTrace.ModulesGoUpWhileFrozen` | src/kernel_runtime.cpp:88-101 | modules are brought up only between the freeze of the services and the entry into Running |
| `KernelTrace.CallsAreGoverned` | src/kernel_runtime.cpp:192-212 | every handler call of a safe history belongs to a cycle that was resolved before, and calls one of its modules |
| `KernelTrace.NoModuleStartsBeforeItsDependencies` | src/kernel_runtime.cpp:199-212 | over any safe history, no module is initialized or started before each dependency it declares, in the modules that start used, has started in the same cycle |
| `KernelTrace.EachModuleGoesUpInTurn` | src/kernel_runtime.cpp:199-212 | over any safe history nothing goes up after a failed call of the same cycle, and a module is initialized successfully before it is started |
| `KernelTrace.NoModuleStopsUnlessStarted` | src/kernel_runtime.cpp:229-244 | over any safe history, no module is stopped or torn down unless it was started in the same cycle |
| `KernelTrace.NoModuleStopsBeforeItsConsumers` | src/kernel_runtime.cpp:229-244 | over any safe history, no module is stopped before each consumer that declares it, and was started in the same cycle, is torn down |
| `KernelTrace.TeardownFollowsStop` | src/kernel_runtime.cpp:232-240 | over any safe history a module is torn down only after it was told to stop in the same cycle |
| `KernelTrace.NoModuleIsAnnouncedBeforeItsConsumers` | src/kernel_runtime.cpp:229-244 | over any safe history, the stop of a module is announced only after that of each consumer that declares it |
| `KernelTrace.HistoryRespectsDependencies` | src/kernel_runtime.cpp:63-280 | all orderings within and between modules for every event of a safe history at once |
| `KernelTrace.NoCallbackRunsTwiceInACycle` | src/kernel_runtime.cpp:179-246 | over any safe history, between two calls of the same phase of the same module lies an entry into Stopped |
| `KernelTrace.StoppedExactlyWhatStarted` | src/kernel_runtime.cpp:107-130 | over any safe history, when Stopped is entered a module has been stopped (torn down) in that cycle exactly if its start succeeded |
| `KernelTrace.HistoryIsBalanced` | src/kernel_runtime.cpp:63-280 | both for every event of a safe history at once |
| `KernelTrace.OncePerCycle` | src/kernel_runtime.cpp:63-130 | between two freezes, and between two entries into Running, lies an entry into Stopped |
| `KernelTrace.StatesMonotone` | src/lifecycle_state_machine.cpp:43-51 | a longer history has entered the same states before any further ones |
| `KernelTrace.RunsAreSeparatedByStops` | src/kernel_runtime.cpp:63-130 | two runs are separated by a stop in the sequence of states |
| `Kernel.RunsAreSeparated` | src/kernel_runtime.cpp:63-130 | in the recorded lifecycle history of every reachable kernel two runs are separated by Stopped |
| `Kernel.DeclaredOrderIsKept` | src/kernel_runtime.cpp:63-280 | over any sequence of calls with any callback results: modules go up after their declared dependencies and down after their started consumers, in every cycle of every reachable kernel; the modules meant are those the kernel resolved, and for the current cycle those in its state |
| `Kernel.CyclesAreBalanced` | src/kernel_runtime.cpp:63-280 | in every reachable kernel each callback runs at most once per cycle, and each cycle that ended in Stopped stopped and tore down exactly what it had started |
| `Kernel.StatesBetweenCalls` | src/kernel_runtime.cpp:63-130 | between public calls a kernel is Stopped with services open, Running with services frozen, or Faulted; while services are frozen the started modules are exactly those whose Start succeeded in the current cycle |
| `Kernel.ShutdownTailMeaning` | src/kernel_runtime.cpp:248-277 | event by event: deferred events, the platform steps in order with their answers, services, diagnostics |
| `Kernel.KernelRuntime.PreparedMeaning` | src/kernel_runtime.cpp:68-91 | step by step: bootstrap callback, Initializing, initialize callback, freeze |
| `Kernel.KernelRuntime.constructor` | src/kernel_runtime.cpp:7-55 | a new kernel is stopped and has done nothing |
| `Kernel.KernelRuntime.ConfigureModules` | src/kernel_runtime.cpp:19-30 | accepts exactly the well declared acyclic lists and keeps their start-up order |
| `Kernel.KernelRuntime.RegisterService` | include/framekit/service/context.hpp:136-178 | registrations from outside disturb nothing the kernel relies on |
| `Kernel.KernelRuntime.Enter` | src/lifecycle_state_machine.cpp:43-51 | a state change is traced exactly if the table permits it |
| `Kernel.KernelRuntime.Fault` | src/kernel_runtime.cpp:172-177 | from every state but Stopped the kernel ends up Faulted, entering it once |
| `Kernel.KernelRuntime.RegisterDefaultBootstrapServices` | src/bootstrap_services.cpp:7-15 | fails exactly when the context is not open or already has one of the three services; success adds exactly those, owned by the context |
| `Kernel.KernelRuntime.Bootstrap` | src/kernel_runtime.cpp:68-70 | asks the bootstrap callback once if there is one, else registers the defaults |
| `Kernel.KernelRuntime.AskInitialize` | src/kernel_runtime.cpp:82 | asks the initialize callback once if there is one, and agrees otherwise |
| `Kernel.KernelRuntime.InitializeAndFreeze` | src/kernel_runtime.cpp:77-91 | enters Initializing, asks the initialize callback, freezes; succeeds exactly if the callback agrees and the context was open; the earlier trace is kept in either case |
| `Kernel.KernelRuntime.BootstrapAndFreeze` | src/kernel_runtime.cpp:68-91 | bootstrap, Initializing, initialize and freeze up to the first failure, which leaves service phase and cycle alone |
| `Kernel.KernelRuntime.Prepare` | src/kernel_runtime.cpp:68-91 | reaches Initializing with frozen services and the expected trace, or Faulted with the service phase unchanged and the earlier trace kept |
| `Kernel.KernelRuntime.FreezeServices` | src/kernel_runtime.cpp:88-91 | freezes exactly an open context |
| `Kernel.KernelRuntime.AskUp` | src/kernel_runtime.cpp:200-208 | asks Initialize, then Start; the module counts as started exactly if both agree |
| `Kernel.KernelRuntime.BringUp` | src/kernel_runtime.cpp:200-211 | the list of started modules is the started prefix of the order |
| `Kernel.KernelRuntime.BringUpModules` | src/kernel_runtime.cpp:199-212 | goes along the start-up order and ends at the first failure |
| `Kernel.KernelRuntime.BringUpConfigured` | src/kernel_runtime.cpp:193-214 | with a handler asks it, without one takes all modules as started |
| `Kernel.KernelRuntime.BringUpValidated` | src/kernel_runtime.cpp:192-214 | the order used is the one of the configured modules, from an empty list of started ones |
| `Kernel.KernelRuntime.ExecuteModuleStartupSequence` | src/kernel_runtime.cpp:179-222 | succeeds exactly if no callback failed and the configured modules, if any, are valid; resolves the cycle exactly for valid configured modules, and for those alone, also when it fails |
| `Kernel.KernelRuntime.Launch` | src/kernel_runtime.cpp:93-104 | reaches Running exactly then, else Faulted with the started modules still known; the cycle is that of the configured modules in both cases |
| `Kernel.KernelRuntime.StartFromBootstrapping` | src/kernel_runtime.cpp:68-104 | the whole start after its first transition, with the cycle tied to the configured modules and the earlier trace kept |
| `Kernel.KernelRuntime.Start` | src/kernel_runtime.cpp:63-105 | succeeds exactly if the kernel is not running, none of the callbacks it asked refused, services were open (and the defaults free), and the modules are valid; the steps before the modules come in the fixed order; whatever went up, also before a failure, are the configured modules in their start-up order; trace and lifecycle history only grow, starting with Bootstrapping, also when it fails; a kernel whose services are not open never changes its cycle |
| `Kernel.KernelRuntime.StopAndTearDown` | src/kernel_runtime.cpp:232-240 | Teardown is called even when Stop failed, and both failures count |
| `Kernel.KernelRuntime.AnnounceStop` | src/kernel_runtime.cpp:241-243 | the stop handler hears of the next module in reverse order |
| `Kernel.KernelRuntime.TakeDown` | src/kernel_runtime.cpp:232-243 | one module goes down by handler, by announcement, or silently |
| `Kernel.KernelRuntime.TakeDownNext` | src/kernel_runtime.cpp:230-243 | the next module from the end is recorded and taken down |
| `Kernel.KernelRuntime.StopModules` | src/kernel_runtime.cpp:229-244 | all started modules go down in reverse, whatever fails on the way; fails exactly if a callback did |
| `Kernel.KernelRuntime.RunPlatformStep` | src/kernel_runtime.cpp:266-268 | the answer of a platform step is on the trace |
| `Kernel.KernelRuntime.TearDownPlatform` | src/kernel_runtime.cpp:262-269 | every platform step runs once in order, whatever fails; succeeds exactly if all agreed |
| `Kernel.KernelRuntime.TearDownHost` | src/kernel_runtime.cpp:248-277 | deferred events, platform steps, services, diagnostics, in this order and nothing else |
| `Kernel.KernelRuntime.ExecuteShutdownSequence` | src/kernel_runtime.cpp:224-280 | the modules are down before anything else is torn down; fails exactly if a callback failed |
| `Kernel.KernelRuntime.StopFromStopping` | src/kernel_runtime.cpp:118-129 | reaches Stopped with open services, or Faulted with everything torn down |
| `Kernel.KernelRuntime.StopKernel` | src/kernel_runtime.cpp:107-130 | reaches Stopped exactly if none of the callbacks it asked refused, platform steps included, so from every Faulted state a stop without refusals does; the shutdown order is fixed; trace and lifecycle history only grow |
| `LoopPolicy.ParseInvertsName` | src/loop_stage_graph.cpp:80-96 | exactly the twelve stage names parse, each to its own stage |
| `LoopPolicy.NamesAreDistinct` | src/loop_stage_graph.cpp:12-25 | names tell all stages apart |
| `LoopPolicy.BaselineNames` | src/loop_stage_graph.cpp:12-25 | the baseline order by the names of its stages |
| `LoopPolicy.MayDisableMeaning` | src/loop_policy.cpp:75-87 | the scan accepts exactly lists of render stage names under a headless or deterministic profile |
| `LoopPolicy.ValidPolicyMeaning` | src/loop_policy.cpp:62-101 | all conditions for an acceptable policy, in terms of its fields |
| `LoopPolicy.ValidPoliciesKeepRequiredStages` | src/loop_policy.cpp:62-101 | no accepted policy disables a required stage, and without rendering all three render stages are disabled |
| `LoopRunner.ParseDisabled` | src/loop_stage_graph.cpp:106-116 | succeeds exactly if all names parse, with the set of their stages |
| `LoopRunner.SelectActive` | src/loop_stage_graph.cpp:118-125 | the active stages are the baseline order without the disabled ones |
| `LoopRunner.AcceptedNamesParse` | src/loop_stage_graph.cpp:106-116 | after validation no name fails to parse |
| `LoopRunner.LoopStageGraphRunner.constructor` | src/loop_stage_graph.cpp:98-104 | a new runner is not configured |
| `LoopRunner.LoopStageGraphRunner.Configure` | src/loop_stage_graph.cpp:98-136 | accepts exactly the valid policies and resets the clock |
| `LoopRunner.LoopStageGraphRunner.Advance` | src/loop_stage_graph.cpp:169-207 | steps, dropped steps, drop mode and accumulator are those of the timing specification, with 64-bit and 32-bit wrap-around |
| `LoopRunner.LoopStageGraphRunner.RunSteps` | src/loop_stage_graph.cpp:234-242 | appends the update triple once per step |
| `LoopRunner.LoopStageGraphRunner.RunStages` | src/loop_stage_graph.cpp:212-252 | the trace is that of the active stages, and dropping is reported exactly if a stage was dropped |
| `LoopRunner.LoopStageGraphRunner.ExecuteFrame` | src/loop_stage_graph.cpp:151-255 | exactly when a frame succeeds, with which step counts, trace and accumulator, also in plain numbers: bounded catch-up drops steps only once its budget is used up, every other mode runs one step, an elapsed time of 0 counts as one delta; stages are reported dropped exactly on an overrun in drop mode; a failed frame leaves the last trace |
| `LoopRunner.FixedTimingMeaning` | src/loop_stage_graph.cpp:169-207 | the timing of a fixed-delta frame in plain numbers |
| `LoopProperties.StepsAddUp` | src/loop_stage_graph.cpp:177-203 | in every overrun mode steps run and dropped add up to the clamped quotient |
| `LoopProperties.AccumulatorStaysBelowDelta` | src/loop_stage_graph.cpp:203-207 | after a successful frame less than one delta is left, congruent to what was there |
| `LoopProperties.FrameConservesTime` | src/loop_stage_graph.cpp:169-207 | a frame never gains time, and loses none exactly if it stays within 64-bit time and 32-bit steps |
| `LoopProperties.RunConservesTime` | src/loop_stage_graph.cpp:163-210 | over any run of successful frames delta times the steps plus the accumulator is what was observed plus the frames' advances; equal exactly if every frame stays within the widths |
| `LoopProperties.StepCountBounds` | src/loop_stage_graph.cpp:177-203 | at most 1 + max_catch_up_steps steps, and at least one except exactly for an overrun with the largest budget |
| `LoopProperties.LargestBudgetRunsNoStep` | src/loop_stage_graph.cpp:186-193 | an accepted policy and an elapsed time for which a frame updates nothing |
| `LoopProperties.FailFastFailsAtTwoDeltas` | src/loop_stage_graph.cpp:177-203 | a fail-fast frame fails exactly if two deltas have accumulated; otherwise one step, none dropped |
| `LoopProperties.AllFailExactlyWhen` | src/loop_stage_graph.cpp:163-210 | a run of fail-fast frames fails throughout exactly if after each frame the time accumulated so far, modulo 2^64, is at least two deltas; and then the accumulator holds all of it |
| `LoopProperties.FailFastIsFinal` | src/loop_stage_graph.cpp:163-210 | so after an overrun every later frame fails, as long as the time fits 64 bits |
| `LoopProperties.FailFastRecoversByWrapping` | src/loop_stage_graph.cpp:170-207 | without that bound a runner recovers |
| `LoopProperties.DisabledStagesMeaning` | src/loop_stage_graph.cpp:106-116 | a stage is disabled exactly if its name is listed |
| `LoopProperties.ActiveStagesOfValidPolicy` | src/loop_stage_graph.cpp:98-136 | for every accepted policy the active stages are the baseline with nothing but render stages missing |
| `LoopProperties.StageIsActiveExactlyWhen` | src/loop_stage_graph.cpp:106-125 | under an accepted policy a stage is active exactly if its name is not disabled |
| `LoopProperties.FrameTraceOfValidPolicy` | src/loop_stage_graph.cpp:212-254 | for every accepted policy and elapsed time: the four leading stages, the update triple exactly once per step, deferred events, the enabled and not dropped render stages, EndFrame |
| `LoopProperties.RepeatedUpdates` | src/loop_stage_graph.cpp:234-242 | n steps are PreUpdate, Update, PostUpdate n times over |
| `LoopProperties.RenderStageRunsExactlyWhen` | src/loop_stage_graph.cpp:212-254 | a render stage runs exactly if it is not disabled and the frame does not overrun in drop mode under a profile for which rendering is optional |
| `LoopProperties.RenderIsWrappedExactlyWhen` | src/loop_stage_graph.cpp:212-254 | for every accepted policy, accumulator and elapsed time: Render runs right between PreRender and PostRender exactly if the frame overruns in drop mode under a profile with optional stages, or Render is disabled, or both neighbours are enabled |
| `LoopProperties.RenderMayRunUnwrapped` | src/loop_policy.cpp:62-101 | an accepted policy with rendering enabled whose every frame runs Render without PreRender |
| `EventBus.EventBus.constructor` | src/event_bus.cpp:150-158 | a new bus is empty and holds up to 1024 events, dropping the newest |
| `EventBus.EventBus.PushDeferred` | src/event_bus.cpp:172-200 | accepted exactly below capacity, under the next sequence number; otherwise refused, counted as dropped, or thrown, by policy |
| `EventBus.EventBus.Pop` | src/event_bus.cpp:103-110 | takes the front of one class, if any |
| `EventBus.EventBus.PopRound` | src/event_bus.cpp:112-127 | one high, one normal, one low, ending early only at the limit |
| `EventBus.EventBus.Extract` | src/event_bus.cpp:98-128 | takes exactly the first min(limit, pending) events of the interleaving and leaves the remaining suffixes |
| `EventBus.EventBus.DrainDeferred` | src/event_bus.cpp:97-135 | the same, with the count returned, each event logged as dispatched, and dispatched to the handlers of its type in extraction order |
| `EventBus.EventBus.DispatchEach` | src/event_bus.cpp:130-132 | event after event goes to exactly the handlers that immediate dispatch would run |
| `EventBus.EventBus.DiscardDeferred` | src/event_bus.cpp:137-148 | empties the queues, counts and logs every event |
| `EventBus.EventBus.SetDeferredCapacity` | src/event_bus.cpp:150-153 | lowering the capacity drops nothing |
| `EventBus.EventBus.SetDeferredOverflowPolicy` | src/event_bus.cpp:155-158 | takes effect without touching the queues |
| `EventBus.EventBus.Subscribe` | src/event_bus.cpp:8-29 | appends a handler under a fresh id, or returns 0 for none |
| `EventBus.EventBus.DispatchImmediate` | src/event_bus.cpp:57-84 | which handlers run and whether the event ends up consumed |
| `EventBusProperties.EventPosition` | src/event_bus.cpp:112-128 | the event at index i leaves after exactly the events with smaller index, or equal index and higher class |
| `EventBusProperties.EventAt` | src/event_bus.cpp:112-128 | every place of a drain belongs to one queued event |
| `EventBusProperties.DrainOrder` | src/event_bus.cpp:112-128 | the drain sorts by (index in queue, class) |
| `EventBusProperties.NoClassIsStarved` | src/event_bus.cpp:97-128 | a drain of at least 3(i+1) events extracts index i of every queue |
| `EventBusProperties.DrainIsByPriorityExactlyWhen` | src/event_bus.cpp:97-128 | the documented strict priority holds exactly if no class above the lowest pending one gets to its second event |
| `EventBusProperties.StrictPriorityFails` | src/event_bus.cpp:112-128 | two high events and a normal one leave as high, normal, high |
| `EventBusProperties.ClassesAreFifo` | src/event_bus.cpp:97-208 | over any run: each class leaves in acceptance order, queues hold rising numbers, accepted equals dispatched, discarded and pending together, and pending never exceeds the larger of the capacity and what was pending when it was set |
| `EventBusProperties.WhoSeesAnEvent` | src/event_bus.cpp:57-84 | the handlers that run are, in registration order, exactly the monitors and those before which nobody consumed the event; monitors cannot consume |
| `EventBusProperties.RunsExactlyWhen` | src/event_bus.cpp:57-84 | a handler runs exactly if it is registered at a position that sees the event |
| `FaultPolicy.FaultPolicyRuntime.constructor` | src/fault_policy_runtime.cpp:47-62 | a new policy runtime is not configured and has the default limits |
| `FaultPolicy.FaultPolicyRuntime.Configure` | src/fault_policy_runtime.cpp:47-62 | accepts exactly the valid policies and zeroes the counters; a refusal keeps the old ones |
| `FaultPolicy.FaultPolicyRuntime.Evaluate` | src/fault_policy_runtime.cpp:64-142 | decides by the fault matrix and the class's own counter, and moves only that counter |
| `FaultPolicy.FaultPolicyRuntime.Reset` | src/fault_policy_runtime.cpp:144-147 | zeroes all counters |
| `FaultPolicy.FaultPolicyRuntime.IncrementAndGet` | src/fault_policy_runtime.cpp:173-181 | 32-bit increment of one counter |
| `FaultPolicy.FaultPolicyRuntime.DegradeWithLimit` | src/fault_policy_runtime.cpp:197-216 | degrades exactly within a non-zero limit, escalates otherwise |
| `FaultPolicy.DispositionMatrix` | src/fault_policy_runtime.cpp:64-142 | row by row: which faults are never degraded, and that all others are degraded within the limit of their class and escalated past it |
| `FaultPolicy.CounterIsCountModulo` | src/fault_policy_runtime.cpp:173-181 | after any faults a counter is the number of faults of its class, modulo 2^32 |
| `FaultPolicy.DegradedExactlyWhen` | src/fault_policy_runtime.cpp:64-216 | a fault is degraded exactly if the matrix permits it and its number in its class, modulo 2^32, is within a non-zero limit |
| `FaultPolicy.DegradeBudget` | src/fault_policy_runtime.cpp:64-216 | of fewer than 2^32 faults of a class at most the limit is degraded |
| `FaultPolicy.EscalationIsFinal` | src/fault_policy_runtime.cpp:197-216 | after an escalation no later fault of the class is degraded |
| `FaultPolicy.WrapReopensBudget` | src/fault_policy_runtime.cpp:173-216 | fault number 2^32 of a class is degraded again |
| `PlatformHost.StaysUntilOpposite` | src/platform_host_runtime.cpp:194-320 | what was acquired and not released since is held, and vice versa |
| `PlatformHost.AcquireAndReleaseAlternate` | src/platform_host_runtime.cpp:194-320 | between two successful acquisitions of platform or window lies a successful release |
| `PlatformHost.TicksAppend` | src/platform_host_runtime.cpp:262-288 | one more tick keeps what is known of the ticks before it |
| `PlatformHost.HostedStagesMeaning` | src/platform_host_runtime.cpp:63-186 | the stages of a trace that ask a host are, in order, platform events, input and rendering where the host is there |
| `PlatformHost.PlatformHostRuntime.constructor` | src/platform_host_runtime.cpp:28-32 | a new runtime holds nothing |
| `PlatformHost.PlatformHostRuntime.Configure` | src/platform_host_runtime.cpp:32-192 | accepted exactly with a valid policy while nothing is running or held; only an accepted call resets the budgets and the record of ticks; one refused because something runs or is held touches neither runner nor fault counters |
| `PlatformHost.PlatformHostRuntime.ConfigureIdle` | src/platform_host_runtime.cpp:45-191 | with nothing held, accepts exactly the valid policies and starts fresh budgets |
| `PlatformHost.PlatformHostRuntime.ConfigureParts` | src/platform_host_runtime.cpp:45-60 | runner and fault policy agree on the policy afterwards |
| `PlatformHost.PlatformHostRuntime.Start` | src/platform_host_runtime.cpp:194-260 | succeeds exactly if all it needs is acquired; a failure after the platform is up asks it down again and remembers if that failed |
| `PlatformHost.PlatformHostRuntime.OpenWindow` | src/platform_host_runtime.cpp:233-253 | opens the window or gives the platform back |
| `PlatformHost.PlatformHostRuntime.ReleaseAll` | src/platform_host_runtime.cpp:295-314 | asks for both releases whatever the first answers; succeeds exactly if nothing is held |
| `PlatformHost.PlatformHostRuntime.StopHost` | src/platform_host_runtime.cpp:290-320 | true exactly if nothing is held afterwards |
| `PlatformHost.PlatformHostRuntime.HandleStageFault` | src/platform_host_runtime.cpp:349-380 | the frame fails exactly if the decision is not to degrade |
| `PlatformHost.PlatformHostRuntime.AskHost` | src/platform_host_runtime.cpp:75-179 | the answer of a host to a stage is on record |
| `PlatformHost.PlatformHostRuntime.RunHandler` | src/platform_host_runtime.cpp:63-186 | a stage asks its host once if it is there; the fault is that the host refused, or that one that must be there is missing; which faults fail the frame |
| `PlatformHost.PlatformHostRuntime.RunNextHandler` | src/platform_host_runtime.cpp:63-186 | one more stage of the frame keeps the account of answers and faults |
| `PlatformHost.PlatformHostRuntime.RunHandlers` | src/platform_host_runtime.cpp:63-186 | a frame asks exactly the hosts its trace names; it fails exactly if a stage other than rendering faulted, or a render fault is past the budget |
| `PlatformHost.PlatformHostRuntime.RunFrame` | src/platform_host_runtime.cpp:268-287 | the same for a whole frame, timing included; a late frame asks nobody |
| `PlatformHost.PlatformHostRuntime.RunRecorded` | src/platform_host_runtime.cpp:268-287 | a frame of a running host is recorded with its answer and its faults, which are exactly the refusals of its hosts |
| `PlatformHost.PlatformHostRuntime.Tick` | src/platform_host_runtime.cpp:262-288 | from what the hosts answered: a tick succeeds exactly if the frame is on time, no host but the window host refused, and refusals of the window host, if any, are within the budget of two since Configure (while fewer than 2^32 were counted) under a profile other than the deterministic one; render faults rise by exactly those refusals |
| `PlatformHost.EscalationIsFinalForTicks` | src/platform_host_runtime.cpp:262-380 | between two accepted Configure calls, over any ticks, starts and stops: once the render faults have passed the limit every later tick with a render fault returns false, up to counter wrap, and at most as many ticks as the limit tolerated one |
| `PlatformHost.RunningHoldsWhatItNeeds` | src/platform_host_runtime.cpp:194-320 | a running host has its platform, and its window exactly if a render stage is active; the flags agree with what was acquired and released |
| `Supervisor.MultiprocessRuntime.constructor` | src/multiprocess_runtime.cpp:81-117 | a new supervisor runs nothing |
| `Supervisor.MultiprocessRuntime.LaunchChildren` | src/multiprocess_runtime.cpp:214-292 | launches the non-primary nodes in order up to the first launch that brings nothing; succeeds exactly if there is none, else rolls back |
| `Supervisor.MultiprocessRuntime.LaunchEach` | src/multiprocess_runtime.cpp:269-291 | the same, given a launcher and an empty table |
| `Supervisor.MultiprocessRuntime.LaunchNode` | src/multiprocess_runtime.cpp:270-288 | a primary node is skipped; any other is launched once, and succeeds exactly if that brings a process, which is then the last of the table |
| `Supervisor.MultiprocessRuntime.LaunchOne` | src/multiprocess_runtime.cpp:274-288 | one non-primary node: added if its launch brought a process, else the reason of a rollback |
| `Supervisor.ToLaunchMeaning` | src/multiprocess_runtime.cpp:269-272 | the nodes that are launched are, in order, exactly those that are not primary |
| `Supervisor.MultiprocessRuntime.AddChild` | src/multiprocess_runtime.cpp:285-288 | the new child has fresh entries and continues the topology |
| `Supervisor.MultiprocessRuntime.Rollback` | src/multiprocess_runtime.cpp:234-267 | one StopChild per launched child, last first; left are exactly those whose stop failed, in launch order, with maps keyed by exactly their ids |
| `Supervisor.MultiprocessRuntime.KeepRefusing` | src/multiprocess_runtime.cpp:235-253 | the table shrinks to the children whose stop failed, in launch order |
| `Supervisor.KeepMeaning` | src/multiprocess_runtime.cpp:235-253 | a rollback keeps, in launch order, exactly the children that still run |
| `Supervisor.MultiprocessRuntime.StopAllBackwards` | src/multiprocess_runtime.cpp:235-252 | stops in reverse launch order and collects the refusals in launch order |
| `Supervisor.MultiprocessRuntime.ResetEntries` | src/multiprocess_runtime.cpp:243-264 | fresh entries for exactly the children in the table |
| `Supervisor.MultiprocessRuntime.FindProcessSpec` | src/multiprocess_runtime.cpp:379-388 | finds a node by name and role if there is one |
| `Supervisor.MultiprocessRuntime.Start` | src/multiprocess_runtime.cpp:81-117 | succeeds exactly if it was not running and every launch it needed brought a process; after success the table is the non-primary topology and exactly its processes run; after failure only what could not be rolled back |
| `Supervisor.MultiprocessRuntime.GracefulStopChild` | src/multiprocess_runtime.cpp:412-450 | a successful stop removes exactly that child and its entries; any other outcome leaves the table |
| `Supervisor.MultiprocessRuntime.StopAll` | src/multiprocess_runtime.cpp:154-177 | asks every child once in table order and empties the table whatever they answer; abandoned are exactly the running children that refused |
| `Supervisor.MultiprocessRuntime.StopEach` | src/multiprocess_runtime.cpp:161-163 | every child is asked once in table order; those that still run afterwards are the ones that refused |
| `Supervisor.MultiprocessRuntime.ConsumeRestartBudget` | src/multiprocess_runtime.cpp:390-410 | lets a restart through exactly if the node restarts automatically and has attempts left, and then counts exactly one more |
| `Supervisor.MultiprocessRuntime.RelaunchChild` | src/multiprocess_runtime.cpp:471-539 | asks the old process to stop; if it agrees, exactly one process of its node is launched, and the relaunch succeeds exactly if that brings one; success replaces the slot, keeps name and role and leaves the old entries behind; failure leaves table and maps; maps that matched the table still do exactly if the relaunch failed |
| `Supervisor.MultiprocessRuntime.LaunchReplacement` | src/multiprocess_runtime.cpp:489-531 | once the old process has stopped: one launch, whose process takes the slot |
| `Supervisor.MultiprocessRuntime.RelaunchRecorded` | src/multiprocess_runtime.cpp:464 | what came of a relaunch is what the launcher answered |
| `Supervisor.MultiprocessRuntime.OverwriteSlot` | src/multiprocess_runtime.cpp:513-523 | the slot takes the new process with fresh entries, and every tracked child still has entries |
| `Supervisor.MultiprocessRuntime.RestartAt` | src/multiprocess_runtime.cpp:460-464 | the child spends an attempt exactly if it has budget; without budget nothing about any child changes; with it only this child may change |
| `Supervisor.StaleEntryRemains` | src/multiprocess_runtime.cpp:513-523 | after a successful relaunch the replaced process still has its entries though it is not in the table |
| `Supervisor.MultiprocessRuntime.RestartChild` | src/multiprocess_runtime.cpp:452-469 | all other children keep process, liveness, count and entries; the named child's restart count and the total rise by one exactly if it had budget; with budget and a launcher that agrees to stop it exactly one process is launched, and the restart succeeds exactly if there is one; on success the old id is gone |
| `Supervisor.MultiprocessRuntime.TickChild` | src/multiprocess_runtime.cpp:131-150 | a child is stopped, and an attempt spent, exactly if it is dead, wanted and has budget; otherwise it is left alone, as all other children are |
| `Supervisor.MultiprocessRuntime.TickNext` | src/multiprocess_runtime.cpp:131-151 | the same for a child judged as it was when the tick began |
| `Supervisor.MultiprocessRuntime.TickTo` | src/multiprocess_runtime.cpp:130-151 | one more child: the costs add up and all children not asked so far are left alone |
| `Supervisor.MultiprocessRuntime.TickAll` | src/multiprocess_runtime.cpp:130-151 | the same for the whole table |
| `Supervisor.MultiprocessRuntime.Tick` | src/multiprocess_runtime.cpp:119-152 | asks exactly the dead children that the policy wants restarted and that have budget to stop, in table order; each spends one attempt, and is either refused or followed by exactly one launch, whose process then runs in its slot; every other child keeps its process, liveness, restart count and entries; names and roles stay |
| `Supervisor.MultiprocessRuntime.SetChildHandshakeState` | src/multiprocess_runtime.cpp:294-310 | sets one entry and keeps the table's invariant |
| `Supervisor.MultiprocessRuntime.RecordHeartbeat` | src/multiprocess_runtime.cpp:329-330 | adds one to one entry |
| `Supervisor.LaunchesAreBounded` | src/multiprocess_runtime.cpp:119-539 | from Start to Stop there are at most as many launches as non-primary nodes plus the sum of the automatic restart budgets |
| `Supervisor.EveryProcessIsTracked` | src/multiprocess_runtime.cpp:81-539 | every launched and not successfully stopped process is in the table, each child has its entries, and the table is an ordered part of the non-primary topology |
| `Supervisor.RestartsAreWithinLimits` | src/multiprocess_runtime.cpp:390-410 | at any time no process has been restarted more often than its max_restart_attempts, nor at all without automatic restart |
| `Supervisor.BudgetsAddUp` | src/multiprocess_runtime.cpp:390-410 | what the bounds amount to, one node at a time |
| `Supervisor.RestartingTicksAreBounded` | src/multiprocess_runtime.cpp:119-539 | from Start to Stop at most as many ticks try to restart a child as the automatic restart budgets sum up to, refused stops and failed launches included |
| `Supervisor.SumWithinBudgets` | src/multiprocess_runtime.cpp:390-410 | counts within each node's limit stay within the sum of the limits |
| `Supervisor.SumAfterRestart` | src/multiprocess_runtime.cpp:390-410 | with unique names one more restart raises the total by one |
| `Supervisor.RestartTouches` | src/multiprocess_runtime.cpp:452-539 | replacing one process and its entries cannot be noticed by the other children |
| `Supervisor.SparesStep` | src/multiprocess_runtime.cpp:130-151 | restarting one child after another spares those not asked |
| `Supervisor.OutcomesStep` | src/multiprocess_runtime.cpp:130-151 | what came of earlier attempts of a tick stays so through the later ones |

## Left out

- Kernel.KernelRuntime.HandleDeferredEvents: traces only the moment at which a shutdown drains or discards deferred events, not which of its three policies is chosen; the two operations themselves are in `EventBus`.
- PlatformHost.PlatformHostRuntime.RunHandlers: runs the stage handlers after the runner has produced the frame's trace, in the order of that trace; the handlers do not touch the runner, so the interleaving with it is not modelled.
- PlatformHost.PlatformHostRuntime.Start: does not model the automatic wiring of a native backend, which is a foreign call; hosts are fixed when the runtime is created.
- ModuleGraph.CollectDependencies: walks required and optional entries as one list, in the order of the two original loops.
- EventBus.EventBus.PopRound: the loop body of the drain is a method of its own, with its three pops as calls.
- FaultPolicy.FaultPolicyRuntime.Configure: keeps the counters as a sequence of six 32-bit numbers rather than a fixed array updated in place.
- ServiceTable.Table.Register: one generic table stands for both the service context and the registry; type erasure, weak pointers and lookup of services are not modelled, an expired external service counts as absent.
- Supervisor.MultiprocessRuntime.LaunchChild: the launcher is an oracle that starts a process with the name and role of its spec and an id no tracked child has, or fails.
- Supervisor.MultiprocessRuntime.Tick: the two policies are functions of the process id for the length of a tick; what they are told about exits and missed heartbeats is not modelled.
- Cocoa backend, backend factory, window drawing and native event pumping: foreign calls, represented by arbitrary answers.
- Real process launching, channels, transport configuration and the NetKit examples: interfaces only.
- Wall-clock reads: the elapsed time of a frame is an input.
- Message texts, fault reasons and last-error strings: only success, failure and codes are modelled.
- Input routing, dynamic loading, enumeration and name tables, getters, fake services and default policies: they would only add easy members.
- Scheduler policy configuration and the benchmark harness: nothing that runs depends on them.
- Callbacks that call back into the kernel, the bus, the runner or the supervisor, and callbacks, hosts, teardown steps or specifications that change while a component is in use.
- `RecordStartedModules` of the kernel, which lets a caller replace the list of started modules: it is not combined with configured modules.
- `Unsubscribe` of the event bus and event payloads; the sort of a handler snapshot, which is in order already.
- Wrap-around of 64-bit task ids, event sequence numbers, handler ids and metrics: these counters are unbounded in the model, while the loop accumulator, step counts and fault counters wrap as in the code.
- Strings are compared character by character; bytes and encodings are not modelled.
- Branches for transitions that cannot be refused at their place in `Start` and `Stop`, and for a relaunch whose node is
  not in the topology, which cannot happen for a child in the table.
