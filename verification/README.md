# A2Wave server core: a verified model

This project models the parts of the A2Wave API server whose correctness depends on order:
who holds the one SQLite connection, when a CLI child process may be forgotten, which
execution lease a cancellation reaches, which evaluation starts next, and what a page of a
changing table shows. It proves what these parts promise, for every interleaving, every
chunking of a stream and every input.

`dafny verify dfyconfig.toml` checks the whole project.

## How the model is built

Each stateful component has two layers.

* A **protocol**: an immutable state, the steps the environment and the callers can take, an
  `Enabled` predicate and a `Next` function. Everything that runs between two awaits is one
  step; steps interleave freely. Invariants, ranks and refinement theorems are about these.
* A **class** with the fields that the program updates in place. Each method's contract says
  that it takes exactly the protocol step it stands for (`Now() == Next(old(Now()), step)`)
  and keeps the invariant.

| file | component |
|---|---|
| `Transaction.dfy`, `TransactionTheorems.dfy`, `TransactionCalls.dfy`, `TransactionRunner.dfy` | `withTransaction` and `runExclusive` on one connection and one lock |
| `ProcessLifecycle.dfy`, `CliProcessRunner.dfy` | one CLI process from spawn to verdict; all processes by task id |
| `LineDecoder.dfy` | the incremental line splitter with its oversize fuse; the bounded stderr tail |
| `ExecutionLeases.dfy`, `ExecutionLeaseRegistry.dfy`, `CancelBeforeSpawn.dfy` | execution leases; leases and runner together |
| `EvaluationQueue.dfy`, `EvaluationScheduler.dfy` | evaluation admission, promotion, pausing, crash recovery |
| `TaskPages.dfy`, `TaskStore.dfy`, `Utf16.dfy` | the A2A task store: paging, ownership, sanitising |
| `ResultComposition.dfy` | usage merging and text composition of result frames |
| `EventBuses.dfy`, `Slug.dfy` | scoped event buses; slugs |
| `JsStrings.dfy`, `Common.dfy` | strings of UTF-16 code units; optional values |

In the theorems `st` is the sequence of states of a run and `ev` the steps between them.

## What the proofs found

The model follows the code. Where the code does not do what its comments say, there is a
concrete run that shows it, and a theorem with the exact condition.

* **Late arrivals join a stranger's transaction** (`db/transaction.ts:212-214`). A context
  that calls `withTransaction` while another context's transaction is open runs inside it; its
  call returns normally and the stranger's ROLLBACK erases what it wrote
  (`LateArrivalLosesItsWrite`). The comments describe the branch as one for raw handles only.
  Exactly late arrivals let a second context in (`OneInsideStep`), and a run is serial exactly
  when all its steps are harmless (`SerialExactly`).
* **A nested call that throws keeps its writes** when the outer callback catches the error
  (`CaughtNestedThrowKeepsItsWrite`), as the join has no savepoint. A nested or late write is
  kept exactly when the frame commits or the driver had aborted before it
  (`WriteIsKeptExactly`).
* **Writes after a driver-level abort survive the throw** (`WriteAfterAbortSurvivesTheThrow`):
  the guarded ROLLBACK has nothing to undo. `FrameEndsExactly` says what is left in general.
* **A call nested in a `runExclusive` callback waits on itself forever** (`NestedCallWaitsForItself`,
  `SelfWaitExactly`, `SelfWaitIsForever`).
* **A decode error is not always in the verdict**. On Windows an error recorded between the
  child's `error` event and the settled kill is lost (`LateDecodeErrorIsLost`); it is reported
  exactly when it came before the deciding end event (`DecodeErrorIsVerdictExactly`).
* **A late decode failure can terminate another run** of the same task id, because the
  termination goes by task id (`LateOutputCancelsTheNextRun`, `StrayTerminationExactly`).
* **Binding a task that already runs** lets its child escape cancellation
  (`LateBindingEscapes`), exactly when the child listens to another lease or none and is not
  being terminated anyway (`CancellationMissesExactly`).
* **Admission revives tasks**: the fall-through writes `queued` whatever the status was, so a
  cancelled task comes back (`CancelledTaskComesBack`), exactly when the queue has room
  (`AdmissionRevivesExactly`).
* **Tasks can start out of creation order** in two ways: an admission between a terminal step
  and its schedule call overtakes the queue (`NewcomerOvertakes`), and tasks admitted out of
  order start out of order (`AdmittedOutOfOrder`). `AdmissionBreaksOrderExactly` says which
  admissions break the order, `StartsAreFifo` says it of whole runs.
* **A listing ends early** when no row of a look-ahead window decodes (`StalledListingLosesARow`,
  `EndsEarlyExactly`, `StallsExactly`). It loses exactly the rows still ahead (`ReturnedUnlessCutOff`).
* **A listing can skip a row when sanitising changed an id**, because the token names the
  decoded task and the next query compares row ids (`ChangedIdLosesARow`,
  `DropNeedsChangedId`, `ReturnedExactlyOnce`).
* **A caller scope that sanitising changes locks its own caller out** of what it saved
  (`ReadsBackExactly`) **and hands it to another caller**, whose scope is the sanitised one
  (`SanitisedScopeLeaks`). Callers are separate exactly as long as sanitising leaves their
  scopes alone or makes of them none that a caller can have (`ScopesAreSeparateExactly`,
  `SavesStayInScope`).
* **Failing a row from before sanitising can change its owner**, as its scope is encoded anew
  (`FailingMovesATask`); `FailingKeepsTheOwner` says exactly when it does not.
* **Re-admitting a run id too early** makes `isRunExecutionSettling` answer wrongly
  (`UndisciplinedReadmission`); `CurrentStep` has the exact discipline.

## Model

| member | source | states |
|---|---|---|
| TransactionProtocol.InvariantStep | apps/api/src/db/transaction.ts:164-269 | every step of every context, late arrivals and bare writes included, keeps: waiters and queue agree, one lock frame exactly in the holder, and an open transaction belongs to the holder, who opened it |
| TransactionProtocol.InvariantGrant | apps/api/src/db/transaction.ts:216-217 | whenever the lock lets a waiter in, no transaction is open, so BEGIN never throws |
| TransactionSerializability.SerialEquivalence | apps/api/src/db/transaction.ts:164-231 | at every point of every run of harmless steps, the tables are the units under the lock replayed one after another in grant order without those that threw; a crash would lose only the open one |
| TransactionSerializability.LedgerStep | apps/api/src/db/transaction.ts:164-269 | while tables and serial log agree, a step keeps them in agreement if and only if it is harmless: its statement or abort is the lock holder's inside its open transaction or exclusive write, or the statement changes nothing |
| TransactionSerializability.SerialExactly | apps/api/src/db/transaction.ts:164-269 | a run agrees with its serial log at every point up to n if and only if its first n steps are harmless |
| TransactionSerializability.WellBehavedRunsAreSerial | apps/api/src/db/transaction.ts:200-231 | without late arrivals, bare writes and writes after an abort every interleaving is serial at every point |
| TransactionSerializability.WellBehavedExactly | apps/api/src/db/transaction.ts:200-231 | those three are exactly what can let a second context inside or a statement in from elsewhere: a run has none of them if and only if only the holder is ever inside a callback and every statement and abort is the holder's |
| TransactionSerializability.GuardedExactly | apps/api/src/db/transaction.ts:218-227 | with one context inside, a step is guarded if and only if it is no bare write and no write after an abort |
| TransactionSerializability.OneInsideStep | apps/api/src/db/transaction.ts:200-231 | a step lets a second context in if and only if it is a late arrival |
| TransactionSerializability.FrameEndsExactly | apps/api/src/db/transaction.ts:218-231 | the tables after a frame that returns or throws are those it began with plus, when it commits, every statement of any context since, and otherwise exactly those that ran after the driver had rolled back by itself |
| TransactionSerializability.WriteIsKeptExactly | apps/api/src/db/transaction.ts:200-231 | a write inside a frame, by a nested call that threw or a late arrival that returned as well as by the frame itself, is there afterwards if and only if the frame commits or the write ran after a driver abort |
| TransactionSerializability.LateArrivalLosesItsWrite | apps/api/src/db/transaction.ts:204-214 | a run in which a late arrival's call returns normally and its write is then erased |
| TransactionSerializability.CaughtNestedThrowKeepsItsWrite | apps/api/src/db/transaction.ts:73-77 | a run in which a nested call throws, the outer one commits, and the nested write is kept |
| TransactionSerializability.WriteAfterAbortSurvivesTheThrow | apps/api/src/db/transaction.ts:221-227 | a run in which a frame throws and a write of it stays |
| TransactionCalls.ExclusiveCallIsBare | apps/api/src/db/transaction.ts:261-269 | in every interleaving, a runExclusive call of a context that owns no transaction, from the call on: it is let in with no transaction open, none is open while its callback runs, each statement of its context is durable at once, and its end, by return or throw, changes no rows and frees the lock |
| TransactionCalls.TransactionCallIsAtomic | apps/api/src/db/transaction.ts:185-231 | in every interleaving, a withTransaction call that has to wait: being let in opens a transaction on the tables of that moment; a return leaves the tables, a throw restores those it began with unless the driver had rolled back; then the transaction is over and the lock free |
| TransactionCalls.JoinsExactly | apps/api/src/db/transaction.ts:200-214 | a call runs its callback at once if and only if its context owns a transaction or, for withTransaction, anyone's is open; else it goes to the end of the queue; either way it touches neither tables nor transaction nor lock |
| TransactionCalls.JoinedCallIsTransparent | apps/api/src/db/transaction.ts:200-214 | the end of a call that joined, by return or throw, touches neither tables nor transaction nor lock |
| ExclusiveWrites.ExclusiveWriteSurvives | apps/api/src/db/transaction.ts:261-269 | in every run, what a statement under runExclusive's own lock established holds until a later statement breaks it; no ROLLBACK can |
| TransactionProgress.LockIsFifo | apps/api/src/lib/keyed-mutex.ts:15-30 | who has held the lock, followed by who waits, is at every point who asked, in order |
| TransactionProgress.UnitsInArrivalOrder | apps/api/src/lib/keyed-mutex.ts:15-30 | the serial order of the units is the order in which their contexts called |
| TransactionProgress.SelfWaitExactly | apps/api/src/db/transaction.ts:189-202 | the holder comes to wait on its own lock exactly by a call nested in a runExclusive callback |
| TransactionProgress.NestedCallWaitsForItself | apps/api/src/db/transaction.ts:261-269 | a run in which a transaction opened inside a runExclusive callback queues behind its own context |
| TransactionProgress.SelfWaitIsForever | apps/api/src/db/transaction.ts:261-269 | no continuation of a run ends such a wait |
| TransactionProgress.NoNestingNoSelfWait | apps/api/src/db/transaction.ts:185-231 | runs whose runExclusive callbacks do not nest never get there |
| TransactionProgress.EveryCallReturns | apps/api/src/db/transaction.ts:185-269 | no deadlock: if callbacks only end from here on, then in whatever order, some step is enabled until after exactly Rank steps every call of every context has returned |
| TransactionRunner.SqliteTransactions.WithTransaction | apps/api/src/db/transaction.ts:200-216 | the branches before the first await take the CallTransaction step and keep the invariant |
| TransactionRunner.SqliteTransactions.RunExclusive | apps/api/src/db/transaction.ts:261-269 | likewise for CallExclusive |
| TransactionRunner.SqliteTransactions.LetNextIn | apps/api/src/db/transaction.ts:216-217 | letting the queue's head in is the Grant step, on an idle connection |
| TransactionRunner.SqliteTransactions.Run | apps/api/src/db/transaction.ts:31-36 | a statement takes effect at once on what every context sees |
| TransactionRunner.SqliteTransactions.Return | apps/api/src/db/transaction.ts:218-231 | COMMIT, guarded ROLLBACK and leaving the lock are the Settle step |
| LineSpec.SplitIsSound | apps/api/src/engine/cli-process-runner.ts:121-148 | the reference split cuts at every newline and joins back to the text |
| LineSpec.SplitIsUnique | apps/api/src/engine/cli-process-runner.ts:121-148 | it is the only split that does |
| LineSpec.EventOfLine | apps/api/src/engine/cli-process-runner.ts:121-148 | every complete line of at most the given number of characters is emitted as it is, every longer one reported once with its length, in order |
| LineSpec.EventOfTail | apps/api/src/engine/cli-process-runner.ts:154-160 | at the end the tail is reported if it is too long, emitted if it is not all white space, and else dropped |
| JsStrings.TrimExactly | apps/api/src/engine/cli-process-runner.ts:156 | `trim` takes the white space off both ends and nothing else |
| LineSpec.CharactersConserved | apps/api/src/engine/cli-process-runner.ts:114-160 | characters in equal characters in lines, newlines and oversize reports, plus a dropped blank tail |
| LineDecoding.LineDecoder.ConsumeFragment | apps/api/src/engine/cli-process-runner.ts:125-144 | each branch keeps the fields a function of the whole text consumed so far, and never holds more than the limit |
| LineDecoding.LineDecoder.Consume | apps/api/src/engine/cli-process-runner.ts:121-148 | consuming a chunk extends that text by the chunk, wherever its newlines are |
| LineDecoding.LineDecoder.Flush | apps/api/src/engine/cli-process-runner.ts:154-160 | after flush the callbacks made are exactly those the whole text calls for |
| LineDecoding.DecodeStream | apps/api/src/engine/cli-process-runner.ts:102-161 | for every chunking: the fitting lines in order, each longer line reported once with its full length, then a fitting non-blank tail |
| LineDecoding.BoundedTailIsLast | apps/api/src/engine/cli-process-runner.ts:163-167 | over any sequence of chunks, cutting after every chunk keeps the same last bytes as cutting the whole stream once at its end |
| ProcessLifecycle.InvariantStep | apps/api/src/engine/cli-process-runner.ts:310-491 | every event in every state keeps: termination requested implies timer armed or SIGKILL sent, a deferred close still waits for something that will come, and a verdict never changes |
| ProcessLifecycle.TerminationCompletes | apps/api/src/engine/cli-process-runner.ts:461-491 | once termination is requested, Rank due events (timer, kill attempts, close) bring the verdict in any order on both platforms |
| ProcessLifecycle.SomethingIsDue | apps/api/src/engine/cli-process-runner.ts:416-423 | while a termination has no verdict, some due event is enabled |
| ProcessLifecycle.NothingLeftMeansFinalized | apps/api/src/engine/cli-process-runner.ts:471-490 | timer fired, attempts settled and child closed implies finalized |
| ProcessLifecycle.PosixEscalates | apps/api/src/engine/cli-process-runner.ts:416-425 | a terminated POSIX run that ends by close was sent SIGKILL or its group was seen dead |
| ProcessLifecycle.VerdictByEvents | apps/api/src/engine/cli-process-runner.ts:401-440 | the reported result field by field, from the events alone: a decode failure before the last end event gives spawn-error with the first error and no exit code, else the first request gives timeout or cancelled, else completed or spawn-error; the exit code is that of the close, the error text that of the error event |
| ProcessLifecycle.VerdictIsFirstCause | apps/api/src/engine/cli-process-runner.ts:310-361 | that result is given by the last end event before finalizing, once, and never changes |
| ProcessLifecycle.EndDecidesExactly | apps/api/src/engine/cli-process-runner.ts:416-438 | an end event finalizes at once if and only if nobody asked to end, or no kill is outstanding and it is an error or the group was killed or is dead |
| ProcessLifecycle.KillDecidesExactly | apps/api/src/engine/cli-process-runner.ts:471-490 | a deferred result is given by the timer exactly on POSIX, by a settled kill exactly if it is the latest |
| ProcessLifecycle.KillIsAwaited | apps/api/src/engine/cli-process-runner.ts:416-423 | no result of a terminated run is given while its latest kill has not settled |
| ProcessLifecycle.RequestIsExact | apps/api/src/engine/cli-process-runner.ts:461-480 | the first request records its reason, signals once and arms the timer, later ones change nothing of that |
| ProcessLifecycle.KillsAreCounted | apps/api/src/engine/cli-process-runner.ts:482-491 | on Windows one kill for the first request and one for the timer are awaited, on POSIX none |
| ProcessLifecycle.DecodeErrorIsVerdictExactly | apps/api/src/engine/cli-process-runner.ts:401-440 | a decode error recorded before the verdict is the verdict exactly when it came before the deciding end event |
| ProcessLifecycle.LateDecodeErrorIsLost | apps/api/src/engine/cli-process-runner.ts:427-440 | a Windows run whose decode error is in no verdict |
| RunnerProtocol.RunnerInvariantStep | apps/api/src/engine/cli-process-runner.ts:214-491 | every step keeps: the map holds exactly the accepted runs without verdict, each under its own task id; each process moves only by steps of its own life |
| RunnerProtocol.VerdictsAreFinal | apps/api/src/engine/cli-process-runner.ts:310-336 | in every run of the runner that invariant holds and verdicts given stay |
| RunnerProtocol.TerminatedRunLeaves | apps/api/src/engine/cli-process-runner.ts:461-491 | among all runs interleaved, a terminated run has its verdict and is out of the map after Rank of its own due events |
| RunnerProtocol.StrayTerminationExactly | apps/api/src/engine/cli-process-runner.ts:354-361 | a decode failure changes another run exactly when its own run is finished, it is that run's first failure, and the task id runs again without termination reason |
| RunnerProtocol.LateOutputCancelsTheNextRun | apps/api/src/engine/cli-process-runner.ts:354-361 | a run in which late undecodable output of a finished run cancels the next run of its task id |
| RunnerProtocol.ShutdownReachesAll | apps/api/src/engine/cli-process-runner.ts:456-459 | after shutdown every run without verdict is being terminated |
| CliProcessRunning.CliProcessRunner.RunTask | apps/api/src/engine/cli-process-runner.ts:214-274 | duplicate, aborted and failing starts leave the runner alone; an accepted one is entered under its task id |
| CliProcessRunning.CliProcessRunner.TerminateRun | apps/api/src/engine/cli-process-runner.ts:461-480 | reaches the run active under the task id; keeps the first reason; signals and arms the timer once |
| CliProcessRunning.CliProcessRunner.FinalizeRun | apps/api/src/engine/cli-process-runner.ts:310-335 | gives the verdict once, clears both timers, and removes the map entry if it is this run's |
| CliProcessRunning.CliProcessRunner.OnTimeout | apps/api/src/engine/cli-process-runner.ts:305-308 | the timeout is the protocol step of its own run |
| CliProcessRunning.CliProcessRunner.OnDecodeFailure | apps/api/src/engine/cli-process-runner.ts:354-361 | records the first failure and terminates by task id |
| CliProcessRunning.CliProcessRunner.OnForceKill | apps/api/src/engine/cli-process-runner.ts:471-478 | SIGKILL, then the deferred close unless a kill is outstanding |
| CliProcessRunning.CliProcessRunner.OnAttemptSettled | apps/api/src/engine/cli-process-runner.ts:486-490 | only the latest attempt releases a deferred close |
| CliProcessRunning.CliProcessRunner.OnClose | apps/api/src/engine/cli-process-runner.ts:401-425 | defers or finalizes as the protocol step does, and then reports the decode error, else the termination reason with the exit code, else completed with the exit code |
| CliProcessRunning.CliProcessRunner.OnError | apps/api/src/engine/cli-process-runner.ts:427-440 | likewise for the error event, with its own text and no exit code |
| CliProcessRunning.CliProcessRunner.OnAbort | apps/api/src/engine/cli-process-runner.ts:363-367 | the listeners of one signal, run one after another, terminate every run of that lease without verdict and no other |
| CliProcessRunning.CliProcessRunner.Shutdown | apps/api/src/engine/cli-process-runner.ts:456-459 | the loop over task ids terminates every run without verdict, in any order of the ids |
| LeaseProtocol.InvariantStep | apps/api/src/engine/execution-lease-registry.ts:39-223 | every operation keeps both maps in agreement and the completion and release counts right |
| LeaseProtocol.MapsSayWhatIsLive | apps/api/src/engine/execution-lease-registry.ts:57-109 | in every reachable state run id r maps to lease e exactly when e is live and r's; task t maps to e exactly when e is live and holds t |
| LeaseProtocol.ResolvedAndReleasedOnce | apps/api/src/engine/execution-lease-registry.ts:201-223 | once a lease ended, at every later point its completion was resolved once, and released once if a handler was set then, never otherwise |
| LeaseProtocol.FinishTouchesOwnLeaseOnly | apps/api/src/engine/execution-lease-registry.ts:201-207 | a handle, however stale, leaves every other live lease with its run id and tasks; a finished one does nothing |
| LeaseProtocol.LeaseFieldsStep | apps/api/src/engine/execution-lease-registry.ts:57-117 | of a lease that is there only an accepted task, a cancellation and a finish change run id, tasks, abort flag or end |
| LeaseProtocol.AgentIsFirstNamed | apps/api/src/engine/execution-lease-registry.ts:57-64 | in every run a lease belongs to the agent named first among the calls that reserved it or bound to it |
| LeaseProtocol.CurrentStep | apps/api/src/engine/execution-lease-registry.ts:142-151 | the releases stay current over a step if and only if the step follows the re-admission discipline |
| LeaseProtocol.SettlingTellsTheTruth | apps/api/src/engine/execution-lease-registry.ts:149-151 | under the discipline the predicate is true exactly of ids with a live lease or a release in flight, at most one release per id is in flight, and a release that settles belongs to the id's latest lease |
| LeaseProtocol.UndisciplinedReadmission | apps/api/src/engine/execution-lease-registry.ts:209-222 | a run without the discipline in which a release in flight is forgotten |
| ExecutionLeaseRegistry.LeaseRegistry.GetOrCreate | apps/api/src/engine/execution-lease-registry.ts:57-64 | the live lease with its agent filled in once, or a new one |
| ExecutionLeaseRegistry.LeaseRegistry.ReserveLease | apps/api/src/engine/execution-lease-registry.ts:74-76 | hands out a live lease of the run id |
| ExecutionLeaseRegistry.LeaseRegistry.BindTask | apps/api/src/engine/execution-lease-registry.ts:87-100 | refuses exactly a task of another lease, leaving the run's lease behind and nothing else |
| ExecutionLeaseRegistry.LeaseRegistry.CancelLease | apps/api/src/engine/execution-lease-registry.ts:112-117 | aborts the live lease of the run id, if any |
| ExecutionLeaseRegistry.LeaseRegistry.ForgetTasks | apps/api/src/engine/execution-lease-registry.ts:205-207 | the loop removes exactly the lease's own entries |
| ExecutionLeaseRegistry.LeaseRegistry.FinishLease | apps/api/src/engine/execution-lease-registry.ts:201-223 | finishing is the Finish step and keeps the invariant |
| ExecutionLeaseRegistry.LeaseRegistry.ReleaseSettled | apps/api/src/engine/execution-lease-registry.ts:213-221 | a settled release is the ReleaseSettles step |
| ExecutionLeaseRegistry.LeaseRegistry.CountActive | apps/api/src/engine/execution-lease-registry.ts:154-160 | counts all unfinished leases of the agent, although it walks the map by run id |
| CancelBeforeSpawn.InvariantStep | apps/api/src/engine/execution-lease-registry.ts:86-125 | a step of registry or runner keeps "a child listens to the lease of its task, and an aborted lease was heard" if and only if it does not bind a task past a child that listens to something else |
| CancelBeforeSpawn.StepKeeps | apps/api/src/engine/execution-lease-registry.ts:86-125 | in every run, such bindings included, whoever listens to an aborted lease has heard it |
| CancelBeforeSpawn.CancellationMissesExactly | apps/api/src/engine/execution-lease-registry.ts:86-117 | binding a task and cancelling the run leaves the task a child that nobody terminates if and only if the binding went past that child and nothing was terminating it before |
| CancelBeforeSpawn.AbortedLeaseHasNoFreeChild | apps/api/src/engine/cli-process-runner.ts:234-245 | in every interleaving without such a binding a task of an aborted lease has no child, or one being terminated, and a run of it spawns nothing; binding a running task again to its own lease is allowed |
| CancelBeforeSpawn.CancelledChildLeaves | apps/api/src/engine/cli-process-runner.ts:363-367 | in every interleaving, once a live lease is cancelled each child listening to it has its verdict and is out of the map after Rank of its own due events, whatever happens in between |
| CancelBeforeSpawn.LateBindingEscapes | apps/api/src/engine/execution-lease-registry.ts:86-100 | a run in which a task bound after its start keeps an unterminated child under an aborted lease |
| EvaluationProtocol.AdmissionRevivesExactly | apps/api/src/engine/evaluation-queue.ts:87-102 | admission changes a task that is neither pending nor queued exactly when not paused and the queue has room, and then to queued |
| EvaluationProtocol.CancelledTaskComesBack | apps/api/src/engine/evaluation-queue.ts:97-101 | a cancelled task that admission queues |
| EvaluationProtocol.CapacityHolds | apps/api/src/engine/evaluation-queue.ts:64-125 | in every run, per agent: at most slots running, at most 50 queued, and unpaused with no schedule call owed, tasks are queued only while all slots are full |
| EvaluationProtocol.StartsAreFifo | apps/api/src/engine/evaluation-queue.ts:64-125 | in every run: at every point each task was started at most once, an agent's tasks in creation order, and none that waits is older than one that started, if and only if every admission so far fitted |
| EvaluationProtocol.AdmissionBreaksOrderExactly | apps/api/src/engine/evaluation-queue.ts:87-102 | whatever the creation times, an admission keeps the start order if and only if the queue is full, or no started task of the agent is younger than it and, if it takes a slot, none that waits is older |
| EvaluationProtocol.InOrderMisfitsOvertake | apps/api/src/engine/evaluation-queue.ts:87-94 | of admissions in creation order exactly those that take a slot while others wait do not fit |
| EvaluationProtocol.AdmittedOutOfOrder | apps/api/src/engine/evaluation-queue.ts:64-125 | a run without overtaking in which the younger of two tasks is admitted, and so started, first |
| EvaluationProtocol.NewcomerOvertakes | apps/api/src/engine/evaluation-queue.ts:105-125 | a newcomer admitted before the owed schedule call starts before a task that waits |
| EvaluationProtocol.SecondIsParked | apps/api/src/engine/evaluation-queue.ts:64-103 | the reachable state that overtaking starts from |
| EvaluationScheduler.EvaluationQueue.TryAcquireSlot | apps/api/src/engine/evaluation-queue.ts:64-103 | for a task in any state: acquired if and only if not paused, pending and a slot is free, full if and only if paused or else 50 are queued; exactly that task is set running or queued |
| EvaluationScheduler.EvaluationQueue.SelectOldestQueued | apps/api/src/engine/evaluation-queue-db.ts:66-71 | the min(limit, queued) oldest queued tasks of the agent, oldest first, none twice |
| EvaluationScheduler.EvaluationQueue.ClaimQueuedTasks | apps/api/src/engine/evaluation-queue-db.ts:53-83 | claims exactly the oldest queued tasks that fit the free slots and sets them running, nothing else |
| EvaluationScheduler.EvaluationQueue.ScheduleNext | apps/api/src/engine/evaluation-queue.ts:109-125 | executes each claimed task once, in claim order; paused, does nothing |
| EvaluationScheduler.EvaluationQueue.FailTask | apps/api/src/engine/evaluation-queue-db.ts:126-144 | fails exactly the task and exactly its pending and running result rows, with the reason; every other task and row stays |
| EvaluationScheduler.EvaluationQueue.FailEach | apps/api/src/engine/evaluation-queue.ts:157-177 | failing one after another is failing the set, and the counter is its size |
| EvaluationScheduler.EvaluationQueue.PromoteAll | apps/api/src/engine/evaluation-queue.ts:180-182 | whatever the order of the agents, every agent's oldest queued tasks fill its slots, each executed once |
| EvaluationScheduler.EvaluationQueue.RecoverOnStartup | apps/api/src/engine/evaluation-queue.ts:142-185 | from any table: in-flight tasks are failed with exactly their unsettled rows, then every agent's oldest tasks started once, every other task and row stays, and the returned counts are those numbers |
| EvaluationScheduler.CrashStateIsSettled | apps/api/src/engine/evaluation-queue.ts:133-141 | after failing, nothing is running or pending, exactly the pending and running rows of those tasks are failed with the reason and all other rows stay, queued tasks are untouched and all slots are free |
| Utf16.StripKeepsWellFormedParts | apps/api/src/a2a/sqlite-task-store.ts:88-112 | matching each position with look-around keeps exactly the plain units and adjacent surrogate pairs, in order |
| Utf16.StripTheorem | apps/api/src/a2a/sqlite-task-store.ts:88-112 | one pass gives a well-formed string, is idempotent, and is the identity exactly on well-formed strings |
| Utf16.WellFormedMeansRepresentable | apps/api/src/a2a/sqlite-task-store.ts:88-95 | well-formed is no NUL and no unpaired surrogate at any position |
| Utf16.StrippedIsClean | apps/api/src/a2a/sqlite-task-store.ts:88-112 | one pass leaves no NUL and every surrogate in a high-low pair, by their code ranges, and leaves exactly such strings alone |
| Utf16.StripKeepsOrdinaryUnits | apps/api/src/a2a/sqlite-task-store.ts:88-112 | every unit that is neither NUL nor surrogate is kept, in order |
| TaskOrder.KeyLessExactly | apps/api/src/a2a/sqlite-task-store.ts:260-271 | a key is below another if its timestamp comes before by the first code unit that differs, or at equal timestamps its id does |
| TaskOrder.KeyOrder | apps/api/src/a2a/sqlite-task-store.ts:260-271 | that is a strict total order |
| TaskPages.PageIsNewestFirst | apps/api/src/a2a/sqlite-task-store.ts:267-301 | on a page no timestamp comes before a later one's, at equal timestamps no task id does, and with unchanged ids each row is older than those before it, by its own fields |
| TaskPages.PageTakesNewest | apps/api/src/a2a/sqlite-task-store.ts:267-324 | with unchanged ids a row that was ahead and is not on the page is older than every row on it |
| TaskPages.PagesAreNewestFirst | apps/api/src/a2a/sqlite-task-store.ts:230-328 | the pages of an unchanged table run from the newest to the oldest row |
| TaskPages.SelectedByFields | apps/api/src/a2a/sqlite-task-store.ts:246-271 | a query selects exactly the rows of the caller that pass each filter given and are older than the cursor |
| TaskPages.PageByFields | apps/api/src/a2a/sqlite-task-store.ts:246-295 | no row on a page is of another caller or misses a filter that was given |
| TaskPages.GuardsAreRedundant | apps/api/src/a2a/sqlite-task-store.ts:275-311 | the filters, sort and cursor guard in memory change nothing but to drop rows that do not decode, if and only if the decodable rows of the window are in order and under the cursor by their decoded task ids too |
| TaskPages.WellFormedIdsAlign | apps/api/src/a2a/sqlite-task-store.ts:108-112 | for saved rows, row id and decoded task id agree exactly when the id is well formed |
| TaskPages.OnPageExactly | apps/api/src/a2a/sqlite-task-store.ts:230-328 | when sanitising changed no id and the window does not stall, a decodable matching row below the cursor is on the page exactly when it is not below the token |
| TaskPages.EndsEarlyExactly | apps/api/src/a2a/sqlite-task-store.ts:312-324 | with more rows left than fit, the token is empty exactly when no row of the window passes the guards |
| TaskPages.StallsExactly | apps/api/src/a2a/sqlite-task-store.ts:275-311 | that is: when none of its rows decodes and is under the cursor by task id |
| TaskPages.ReturnedExactlyOnce | apps/api/src/a2a/sqlite-task-store.ts:230-328 | whatever changes between the pages of a finished traversal and whatever sanitising did to ids, a row is on exactly one page, once, if and only if no page drops it (it was ahead, is not on the page, and is not ahead of the token by row and by task), else on none |
| TaskPages.LastPageDropsExactly | apps/api/src/a2a/sqlite-task-store.ts:312-324 | a page without token drops a decodable matching row exactly when its window stalls |
| TaskPages.DropNeedsChangedId | apps/api/src/a2a/sqlite-task-store.ts:260-324 | a page with token drops a decodable matching row only when sanitising changed its id or that of the page's last row |
| TaskPages.ReturnedUnlessCutOff | apps/api/src/a2a/sqlite-task-store.ts:230-328 | when sanitising changed no id: a decodable row unchanged and matching throughout is on exactly one page if and only if the last page's window did not stall above it, else on none |
| TaskPages.ChangedIdLosesARow | apps/api/src/a2a/sqlite-task-store.ts:255-324 | two rows of one age whose ids sanitising makes the same, and a finished traversal that returns only one of them |
| TaskPages.StalledListingLosesARow | apps/api/src/a2a/sqlite-task-store.ts:267-284 | a table whose listing ends before a decodable row |
| TaskPages.PageIsNextStretch | apps/api/src/a2a/sqlite-task-store.ts:312-324 | when all rows decode with their own ids, a page is the next stretch of the list, and its token stands for exactly the rest |
| TaskPages.PagesConcatenate | apps/api/src/a2a/sqlite-task-store.ts:230-328 | with no changes and no changed ids, the pages followed by what a stalled window left unreached are the decodable rows of the whole filtered list in descending order |
| TaskPages.DecodablePagesConcatenate | apps/api/src/a2a/sqlite-task-store.ts:230-328 | and when all rows decode the pages are the whole filtered list |
| TaskPages.TokenEmptyOnlyAtTheEnd | apps/api/src/a2a/sqlite-task-store.ts:319-324 | the token is empty exactly on the last page, and every earlier page is full |
| TaskStore.SqliteTaskStore.Save | apps/api/src/a2a/sqlite-task-store.ts:188-211 | for any table: saves exactly for a scope that is complete and owns the id or finds it free; otherwise changes nothing; keeps a sanitised table sanitised |
| TaskStore.SqliteTaskStore.Load | apps/api/src/a2a/sqlite-task-store.ts:219-228 | gives the task to its own scope only |
| TaskStore.SqliteTaskStore.MarkTaskFailed | apps/api/src/a2a/sqlite-task-store.ts:346-433 | for any table: changes exactly readable, non-terminal rows, legacy ones only with an id; keeps a sanitised table sanitised |
| TaskStore.ReadsBackExactly | apps/api/src/a2a/sqlite-task-store.ts:114-138 | the saved task reads back, sanitised, exactly when the scope was well formed; else its caller can neither load nor save it |
| TaskStore.ScopeExactly | apps/api/src/a2a/sqlite-task-store.ts:28-35 | a caller's scope is tenant and owner without the white space around them; a blank one is refused |
| TaskStore.SavesStayInScope | apps/api/src/a2a/sqlite-task-store.ts:188-211 | a save changes what another scope loads exactly under the saved id and when sanitising makes the caller's scope that other scope |
| TaskStore.ScopesAreSeparateExactly | apps/api/src/a2a/sqlite-task-store.ts:114-138 | a caller's saves show to no other caller if and only if sanitising leaves its scope alone or makes of it a scope that no caller can have |
| TaskStore.SanitisedScopeLeaks | apps/api/src/a2a/sqlite-task-store.ts:88-112 | an owner with a NUL whose task another owner then loads and may overwrite |
| TaskStore.FailingHappensOnce | apps/api/src/a2a/sqlite-task-store.ts:358-432 | a failed task reads failed, sanitised, to the scope that sanitising makes of its owner and to no other, and cannot be failed again |
| TaskStore.CanFailExactly | apps/api/src/a2a/sqlite-task-store.ts:359-411 | exactly readable tasks that are submitted, working or waiting for input can be failed, legacy ones only with an id |
| TaskStore.FailedByFields | apps/api/src/a2a/sqlite-task-store.ts:370-432 | failing writes state and sanitised reason and sanitises the rest, for legacy rows too |
| TaskStore.FailingKeepsTheOwner | apps/api/src/a2a/sqlite-task-store.ts:359-396 | the same callers load the task before and after failing if and only if sanitising leaves its stored scope alone, or that scope is no caller's before and after, or there is none |
| TaskStore.FailingMovesATask | apps/api/src/a2a/sqlite-task-store.ts:359-396 | a row stored for an owner with a NUL that failing takes from that owner and gives to another |
| ResultUsage.MergeResultUsage | apps/api/src/engine/claude-code.ts:255-263 | a field is reported if either side reports it, with the greater of the counts reported |
| ResultUsage.AccumulateUsage | apps/api/src/engine/usage.ts:107-119 | a field is reported if and only if either side reports it, with the sum of the two counts |
| ResultUsage.SumResultUsage | apps/api/src/engine/claude-code.ts:266-273 | each count is that of the legacy usage plus those of all uuids; a field is reported if and only if one of them reports it |
| ResultUsage.SumIsOrderFree | apps/api/src/engine/claude-code.ts:266-273 | the sum does not depend on the order of the entries |
| ResultUsage.TotalsSummarise | apps/api/src/engine/claude-code.ts:893-914 | what is kept per uuid, without uuid and for the model is the least usage above all that was reported there |
| ResultUsage.TotalDependsOnFrameSet | apps/api/src/engine/claude-code.ts:893-914 | two streams with the same set of frames, in any order and with any replays, have the same total |
| ResultUsage.TotalByFields | apps/api/src/engine/claude-code.ts:893-914 | the total read off the frames: without model usage the greatest count among frames without uuid plus, over the uuids, the greatest count among the frames of each; with model usage its greatest count; a field is reported if and only if such a frame reports it |
| ResultText.ComposeResultText | apps/api/src/engine/claude-code.ts:306-325 | the loop computes the composition that the next three rows are about |
| ResultText.EveryTextOccurs | apps/api/src/engine/claude-code.ts:306-325 | every non-blank text occurs, trimmed, in the output |
| ResultText.AppendedTextIsPlaced | apps/api/src/engine/claude-code.ts:309-323 | one more text does nothing if blank, given before or what the output begins with, replaces an output it begins with, and else follows after a blank line |
| ResultText.OnlyGrows | apps/api/src/engine/claude-code.ts:306-325 | appending texts only extends the output |
| ResultText.ReplaysAreIgnored | apps/api/src/engine/claude-code.ts:309-312 | a blank text or a replay can be left out wherever it stands |
| EventBusKeys.KeyIsInjective | apps/api/src/a2a/event-bus-manager.ts:43-45 | two keys are equal exactly when scope and task id are, whatever characters they hold |
| EventBusKeys.KeyReadsBack | apps/api/src/a2a/event-bus-manager.ts:43-45 | before its first colon a key has the length of the scope in decimal, after it scope and task id |
| EventBusKeys.ScopesAreIndependent | apps/api/src/a2a/event-bus-manager.ts:18-46 | after any calls of all scopes, the shared map shows each scope exactly the map that its own calls alone would make |
| EventBusManagers.ScopedBusManager.CreateOrGetByTaskId | apps/api/src/a2a/event-bus-manager.ts:23-28 | returns the bus that was there, or one unlike all others, remembers reuse exactly when it was there, and changes nothing for any other scope or task |
| EventBusManagers.ScopedBusManager.CleanupByTaskId | apps/api/src/a2a/event-bus-manager.ts:34-37 | forgets the bus and its reuse and nothing else |
| Slug.FallbackHash | packages/shared/src/slug.ts:25-30 | the loop with 32-bit wrap-around computes the base-31 polynomial of the code units modulo 2 to the 32 |
| Slug.ComputeSlug | packages/shared/src/slug.ts:12-31 | computes the slug that the next rows are about, fallback included |
| Slug.SlugIsClean | packages/shared/src/slug.ts:12-31 | never empty, no leading, trailing or doubled hyphen, only kept characters |
| Slug.SlugExactly | packages/shared/src/slug.ts:15-23 | a slug is the words of the lower-cased name with one hyphen between any two, or the fallback if it has none |
| Slug.KeptExactly | packages/shared/src/slug.ts:18 | words are made of ASCII digits and lower-case letters and of characters of the four scripts |
| Slug.FallbackReadsBack | packages/shared/src/slug.ts:25-30 | the fallback is "id-" and the hash in lower-case hexadecimal without leading zeros |
| Slug.SlugOfSlug | packages/shared/src/slug.ts:15-23 | a text is its own slug if and only if it is clean in that sense |
| Slug.SlugifyIsIdempotent | packages/shared/src/slug.ts:12-31 | a slug of a slug is that slug |

## Left out

- PostgreSQL transactions, the path without a raw handle, and transactions driven directly on the raw handle (assumed synchronous): they have no interleaving to reason about here.
- Work that a transaction callback starts and does not await: a context is one chain of calls, and a callback ends before its frame does.
- A COMMIT that fails for a reason other than a missing transaction, and a ROLLBACK that throws.
- Lock keys: only the one SQLite key is modelled; the per-agent evaluation lock appears as the atomicity of admission.
- CliProcessRunning.CliProcessRunner.Shutdown: states who is asked to end; awaiting the completions is the environment's part, which TerminatedRunLeaves covers.
- CliProcessRunning.CliProcessRunner.OnAbort: a run is a value in a sequence under its number, so object identity of an active entry is equality of numbers; the same holds for lease entries.
- Real processes, signals, pids, stdin, timers, exit signals, durations, stderr text, cleanup hooks and UTF-8 decoding: chunks arrive decoded, a kill attempt settles as an event, and group liveness is a parameter of the close event.
- Events that fire synchronously inside a kill call, and flushing the decoders inside finalize.
- Worker abort signals and the composed `AbortSignal.any`; draining of leases and releases; the SCM workload lock around reserving.
- A durable release handler that returns nothing for some leases: a set handler always starts a release.
- EvaluationProtocol.CapacityHolds: admission is one atomic step on a pending task and each terminal step owes a schedule call, as the callers arrange; the slot count, 1 in evaluation-queue-db.ts:33, is a parameter.
- EvaluationScheduler.EvaluationQueue.RecoverOnStartup: the `onTaskFailed` callback, database failures and status changes between the loops of recovery are not modelled.
- Deleting evaluation tasks, finish times and update times.
- TaskPages.ReturnedExactlyOnce: one strict order by code units stands for the SQL order, `localeCompare` and `<`; timestamps are normalised strings compared in that order; the page size is at least 1, as the route enforces.
- Of a listing's response, artifacts, total size, token encoding and JSON extraction are left out, encoding and decoding being inverse to each other.
- TaskStore.SqliteTaskStore.Save: timestamps and the periodic cleanup of old rows are left out; a thrown error is the result `false`.
- TaskStore.SqliteTaskStore.MarkTaskFailed: the recovery message is its text; ids, roles and parts of messages are left out.
- ResultUsage.TotalDependsOnFrameSet: reading usage out of the frame's JSON; token counts are natural numbers.
- Routing of result texts by origin and error flag in the `result` case, and all other stream parsing.
- Slug.SlugIsClean: the Unicode script and case tables are parameters, assumed to give ASCII no script and to leave texts without upper case alone.
- The identity of event buses inside the SDK's manager: a bus is a number.
- HTTP routes, the web app, the CLI client, prompt assembly, model probing and environment building: no invariant of their own.
