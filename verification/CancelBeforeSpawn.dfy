// The lease registry and the process runner together: cancelling a lease reaches the
// child of every task bound to it, whether it runs already or was still to be spawned.

module CancelBeforeSpawn {
  import opened Common
  import L = LeaseProtocol
  import P = ProcessLifecycle
  import R = RunnerProtocol

  datatype System = System(leases: L.Registry, runner: R.Runner)

  datatype Step =
    | Lease(lease: L.Step)                       // reserve, bind, finish, releases; not abort
    | CancelLease(runId: string)
    | RunTask(taskId: string, spawns: bool)
    | Process(process: R.Step)                   // events of children, cancel by task, shutdown

  predicate Enabled(s: System, step: Step) {
    match step
    case Lease(l) => !l.Abort? && L.Enabled(s.leases, l)
    case CancelLease(_) => true
    case RunTask(_, _) => true
    case Process(p) => (p.CancelTask? || p.Child? || p.Shutdown?) && R.RunnerEnabled(s.runner, p)
  }

  /** The lease whose signal a run of this task would listen to. */
  function SignalOf(s: L.Registry, taskId: string): Option<nat> {
    if taskId in s.byTask && s.byTask[taskId] < |s.entries| then Some(s.byTask[taskId]) else None
  }

  function Aborted(s: L.Registry, signal: Option<nat>): bool {
    signal.Some? && signal.value < |s.entries| && s.entries[signal.value].aborted
  }

  function Next(s: System, step: Step): System
    requires Enabled(s, step)
  {
    match step
    case Lease(l) => s.(leases := L.Next(s.leases, l))
    case CancelLease(runId) =>
      var aborted := s.(leases := L.Next(s.leases, L.Abort(runId)));
      // The abort event fires the first time only, and runs its listeners at once.
      if runId in s.leases.byRun && !Aborted(s.leases, Some(s.leases.byRun[runId])) then
        aborted.(runner := R.RunnerNext(s.runner, R.AbortSignal(s.leases.byRun[runId])))
      else aborted
    case RunTask(task, spawns) =>
      var signal := SignalOf(s.leases, task);
      s.(runner := R.RunnerNext(s.runner, R.Start(task, signal, Aborted(s.leases, signal), spawns)))
    case Process(p) => s.(runner := R.RunnerNext(s.runner, p))
  }

  /** The run whose process is active under the task, if any. */
  function ChildOf(r: R.Runner, task: string): Option<R.Run> {
    if task in r.active && r.active[task] < |r.runs| then Some(r.runs[r.active[task]]) else None
  }

  /** The registry accepts the task for this run id although its child listens to something else. */
  predicate BindsPastChild(s: System, runId: string, task: string) {
    var e := L.LeaseFor(s.leases, runId);
    && !L.Refuses(s.leases, e, task)
    && ChildOf(s.runner, task).Some? && ChildOf(s.runner, task).value.lease != Some(e)
  }

  /** A binding that reaches a task with a child finds the child listening to that lease already. */
  predicate BindsInTime(s: System, step: Step) {
    step.Lease? && step.lease.Bind? ==> !BindsPastChild(s, step.lease.runId, step.lease.taskId)
  }

  /** Whoever listened to an aborted lease heard it. */
  ghost predicate Heard(s: System) {
    && L.Invariant(s.leases) && R.RunnerInvariant(s.runner)
    && (forall i | 0 <= i < |s.runner.runs| && s.runner.runs[i].lease.Some? ::
          s.runner.runs[i].lease.value < |s.leases.entries|)
    && (forall i | 0 <= i < |s.runner.runs| && s.runner.runs[i].process.finalized.None? ::
          Aborted(s.leases, s.runner.runs[i].lease) ==> s.runner.runs[i].process.terminationReason.Some?)
  }

  /** Every child listens to the lease its task is bound to. */
  ghost predicate Listening(s: System)
    requires R.RunnerInvariant(s.runner)
  {
    forall t | t in s.leases.byTask && t in s.runner.active ::
      s.runner.runs[s.runner.active[t]].lease == Some(s.leases.byTask[t])
  }

  ghost predicate Invariant(s: System) {
    Heard(s) && Listening(s)
  }

  /** Entries stay, with their abort flags, and no task changes its lease. */
  ghost predicate KeepsLeases(s: L.Registry, t: L.Registry) {
    && |s.entries| <= |t.entries|
    && (forall e | 0 <= e < |s.entries| :: t.entries[e].aborted == s.entries[e].aborted)
    && (forall task | task in t.byTask :: task in s.byTask && t.byTask[task] == s.byTask[task])
  }

  lemma FinishKeepsLeases(s: L.Registry, e: nat)
    requires e < |s.entries|
    ensures KeepsLeases(s, L.Finished(s, e))
  {}

  lemma LeaseStepKeeps(s: L.Registry, l: L.Step)
    requires L.Invariant(s) && L.Enabled(s, l) && !l.Abort? && !l.Bind?
    ensures KeepsLeases(s, L.Next(s, l))
  {
    if l.Finish? {
      FinishKeepsLeases(s, l.handle);
    } else if l.Complete? && l.runId in s.byRun {
      FinishKeepsLeases(s, s.byRun[l.runId]);
    }
  }

  /** Binding moves no task but its own, and that one has no child. */
  lemma BindKeeps(s: L.Registry, runId: string, task: string, agentId: Option<string>)
    ensures var t := L.Bound(s, runId, task, agentId);
      && |s.entries| <= |t.entries|
      && (forall e | 0 <= e < |s.entries| :: t.entries[e].aborted == s.entries[e].aborted)
      && (forall other | other in t.byTask && other != task :: other in s.byTask && t.byTask[other] == s.byTask[other])
  {
    var u := L.WithLease(s, runId, agentId);
    assert KeepsLeases(s, u);
  }

  lemma ActiveShrinks(r: R.Runner, step: R.Step)
    requires R.RunnerEnabled(r, step) && !step.Start?
    ensures var t := R.RunnerNext(r, step);
      |t.runs| == |r.runs| && forall task | task in t.active :: task in r.active && t.active[task] == r.active[task]
  {}

  /** A process step starts no run, ends only live ones, and takes no termination request back. */
  lemma ProcessKeeps(r: R.Runner, step: R.Step)
    requires R.RunnerInvariant(r) && R.RunnerEnabled(r, step) && !step.Start?
    ensures var t := R.RunnerNext(r, step);
      && R.RunnerInvariant(t) && |t.runs| == |r.runs|
      && (forall task | task in t.active :: task in r.active && t.active[task] == r.active[task])
      && (forall i | 0 <= i < |r.runs| ::
            && t.runs[i].lease == r.runs[i].lease
            && (t.runs[i].process.finalized.None? ==> r.runs[i].process.finalized.None?)
            && (r.runs[i].process.terminationReason.Some? ==> t.runs[i].process.terminationReason.Some?))
  {
    R.RunnerInvariantStep(r, step);
    ActiveShrinks(r, step);
    var t := R.RunnerNext(r, step);
    forall i | 0 <= i < |r.runs|
      ensures t.runs[i].process.finalized.None? ==> r.runs[i].process.finalized.None?
      ensures r.runs[i].process.terminationReason.Some? ==> t.runs[i].process.terminationReason.Some?
    {
      assert R.Advances(r.runs[i].process, t.runs[i].process);
      R.AdvanceFacts(r.runs[i].process, t.runs[i].process);
    }
  }

  /** The listeners of a lease terminate every run of it that has no verdict. */
  lemma AbortIsHeard(r: R.Runner, e: nat, i: nat)
    requires R.RunnerInvariant(r) && i < |r.runs| && r.runs[i].lease == Some(e)
    ensures var p := R.RunnerNext(r, R.AbortSignal(e)).runs[i].process;
      p.finalized.None? ==> p.terminationReason.Some?
  {
    R.CancelAdvances(r.runs[i]);
  }

  lemma AbortKeepsLeases(s: L.Registry, runId: string)
    requires L.Invariant(s) && runId in s.byRun
    ensures var t, e := L.Next(s, L.Abort(runId)), s.byRun[runId];
      L.Invariant(t) && t.byTask == s.byTask && |t.entries| == |s.entries|
      && forall signal :: Aborted(t, signal) <==> signal == Some(e) || Aborted(s, signal)
  {
    L.InvariantStep(s, L.Abort(runId));
  }

  /** The step keeps what holds in every run, and keeps children listening. */
  ghost predicate Keeps(s: System, t: System)
    requires Heard(s)
  {
    Heard(t) && (Listening(s) ==> Listening(t))
  }

  lemma FirstCancelKeeps(s: System, e: nat, leases: L.Registry)
    requires Heard(s) && L.Invariant(leases) && leases.byTask == s.leases.byTask
    requires |leases.entries| == |s.leases.entries|
    requires forall signal :: Aborted(leases, signal) <==> signal == Some(e) || Aborted(s.leases, signal)
    ensures Keeps(s, System(leases, R.RunnerNext(s.runner, R.AbortSignal(e))))
  {
    ProcessKeeps(s.runner, R.AbortSignal(e));
    forall i | 0 <= i < |s.runner.runs| && s.runner.runs[i].lease == Some(e) {
      AbortIsHeard(s.runner, e, i);
    }
  }

  lemma CancelKeeps(s: System, runId: string)
    requires Heard(s)
    ensures Keeps(s, Next(s, CancelLease(runId)))
  {
    if runId in s.leases.byRun {
      var t, e := Next(s, CancelLease(runId)), s.leases.byRun[runId];
      AbortKeepsLeases(s.leases, runId);
      if Aborted(s.leases, Some(e)) {
        assert t.runner == s.runner;
      } else {
        FirstCancelKeeps(s, e, t.leases);
      }
    }
  }

  /** Where an accepted and a refused binding leave the task, and the run id in either case. */
  lemma BoundTo(s: L.Registry, runId: string, task: string, agentId: Option<string>)
    requires L.Invariant(s)
    ensures var t, e := L.Bound(s, runId, task, agentId), L.LeaseFor(s, runId);
      && L.Invariant(t) && runId in t.byRun && t.byRun[runId] == e
      && t.byTask == if L.Refuses(s, e, task) then s.byTask else s.byTask[task := e]
  {
    L.InvariantStep(s, L.Bind(runId, task, agentId));
    L.BindIsExact(s, runId, task, agentId);
  }

  /** A binding keeps children listening exactly when it does not go past one. */
  lemma BindExactly(s: System, runId: string, task: string, agentId: Option<string>)
    requires Heard(s)
    ensures var t := Next(s, Lease(L.Bind(runId, task, agentId)));
      Heard(t) && (Listening(s) ==> (Listening(t) <==> !BindsPastChild(s, runId, task)))
  {
    BoundTo(s.leases, runId, task, agentId);
    BindKeeps(s.leases, runId, task, agentId);
  }

  lemma LeaseKeeps(s: System, l: L.Step)
    requires Heard(s) && Enabled(s, Lease(l)) && !l.Bind?
    ensures Keeps(s, Next(s, Lease(l)))
  {
    L.InvariantStep(s.leases, l);
    LeaseStepKeeps(s.leases, l);
  }

  lemma RunTaskKeeps(s: System, task: string, spawns: bool)
    requires Heard(s)
    ensures Keeps(s, Next(s, RunTask(task, spawns)))
  {
    var signal := SignalOf(s.leases, task);
    var start := R.Start(task, signal, Aborted(s.leases, signal), spawns);
    R.RunnerInvariantStep(s.runner, start);
    var t := R.RunnerNext(s.runner, start);
    assert t != s.runner ==> t.runs == s.runner.runs + [R.Run(task, signal, P.Spawned(s.runner.platform))];
  }

  /** Every step is heard by whom it concerns, and all but a binding past a child keep children listening. */
  lemma StepKeeps(s: System, step: Step)
    requires Heard(s) && Enabled(s, step)
    ensures Heard(Next(s, step))
    ensures Listening(s) ==> (Listening(Next(s, step)) <==> BindsInTime(s, step))
  {
    match step
    case Lease(l) =>
      if l.Bind? {
        BindExactly(s, l.runId, l.taskId, l.agentId);
      } else {
        LeaseKeeps(s, l);
      }
    case CancelLease(runId) => CancelKeeps(s, runId);
    case RunTask(task, spawns) => RunTaskKeeps(s, task, spawns);
    case Process(p) => ProcessKeeps(s.runner, p);
  }

  /** Every step of registry and runner keeps the invariant, but for a binding past a child, which breaks it. */
  lemma InvariantStep(s: System, step: Step)
    requires Invariant(s) && Enabled(s, step)
    ensures Invariant(Next(s, step)) <==> BindsInTime(s, step)
  {
    StepKeeps(s, step);
  }

  ghost predicate StepAt(st: seq<System>, ev: seq<Step>, i: nat)
    requires |st| == |ev| + 1
  {
    i < |ev| && Enabled(st[i], ev[i]) && st[i + 1] == Next(st[i], ev[i])
  }

  ghost predicate IsRun(st: seq<System>, ev: seq<Step>) {
    && |st| == |ev| + 1
    && st[0].leases == L.EMPTY && st[0].runner.active == map[] && st[0].runner.runs == []
    && forall i: nat | i < |ev| :: StepAt(st, ev, i)
  }

  lemma {:induction false} HeardRun(st: seq<System>, ev: seq<Step>, n: nat)
    requires IsRun(st, ev) && n <= |ev|
    ensures Heard(st[n])
  {
    if n > 0 {
      HeardRun(st, ev, n - 1);
      assert StepAt(st, ev, n - 1);
      StepKeeps(st[n - 1], ev[n - 1]);
    }
  }

  lemma {:induction false} InvariantRun(st: seq<System>, ev: seq<Step>, n: nat)
    requires IsRun(st, ev) && n <= |ev| && forall i: nat | i < n :: BindsInTime(st[i], ev[i])
    ensures Invariant(st[n])
  {
    if n > 0 {
      InvariantRun(st, ev, n - 1);
      assert StepAt(st, ev, n - 1);
      InvariantStep(st[n - 1], ev[n - 1]);
    }
  }

  /**
   * In every interleaving in which no binding goes past a child: a task bound to an
   * aborted lease has no child, or one whose termination is under way, with the
   * force-kill timer armed or SIGKILL already sent.
   */
  lemma AbortedLeaseHasNoFreeChild(st: seq<System>, ev: seq<Step>, n: nat, task: string)
    requires IsRun(st, ev) && n <= |ev| && forall i: nat | i < n :: BindsInTime(st[i], ev[i])
    requires task in st[n].leases.byTask && Aborted(st[n].leases, Some(st[n].leases.byTask[task]))
    ensures task in st[n].runner.active ==>
              st[n].runner.active[task] < |st[n].runner.runs| &&
              var p := st[n].runner.runs[st[n].runner.active[task]].process;
              p.terminationReason.Some? && (p.forceKillTimer || p.forceKillSent)
    ensures forall spawns :: task !in st[n].runner.active ==>
              Next(st[n], RunTask(task, spawns)).runner == st[n].runner
  {
    InvariantRun(st, ev, n);
  }

  // ----- What is cancelled ends ------------------------------------------------------

  /** Run i has its verdict, or gets it after at most `budget` of its due events. */
  ghost predicate Winding(r: R.Runner, i: nat, budget: int) {
    i < |r.runs| && (r.runs[i].process.finalized.None? ==> R.Ending(r, i, budget))
  }

  lemma WindingStep(r: R.Runner, step: R.Step, t: R.Runner, i: nat, budget: int)
    requires R.RunnerInvariant(r) && R.StepsTo(r, step, t) && Winding(r, i, budget)
    ensures Winding(t, i, budget - R.DueNow(step, i))
  {
    if r.runs[i].process.finalized.Some? {
      R.KeepsVerdictsStep(r, step);
      assert R.VerdictStays(r.runs[i].process, t.runs[i].process);
    } else {
      R.EndingStep(r, step, t, i, budget);
    }
  }

  /** Whether the step is a due event of run i. */
  function DueNow(step: Step, i: nat): nat {
    if step.Process? then R.DueNow(step.process, i) else 0
  }

  function DueOf(ev: seq<Step>, i: nat, n: nat): nat
    requires n <= |ev|
  {
    if n == 0 then 0 else DueOf(ev, i, n - 1) + DueNow(ev[n - 1], i)
  }

  lemma SystemWindingStep(s: System, step: Step, t: System, i: nat, budget: int)
    requires R.RunnerInvariant(s.runner) && Winding(s.runner, i, budget)
    requires Enabled(s, step) && t == Next(s, step)
    ensures Winding(t.runner, i, budget - DueNow(step, i))
  {
    match step
    case Lease(_) =>
    case CancelLease(runId) =>
      if t.runner != s.runner {
        WindingStep(s.runner, R.AbortSignal(s.leases.byRun[runId]), t.runner, i, budget);
      }
    case RunTask(task, spawns) =>
      var signal := SignalOf(s.leases, task);
      WindingStep(s.runner, R.Start(task, signal, Aborted(s.leases, signal), spawns), t.runner, i, budget);
    case Process(p) => WindingStep(s.runner, p, t.runner, i, budget);
  }

  lemma {:induction false} WindingRun(st: seq<System>, ev: seq<Step>, i: nat, m: nat, n: nat, budget: int)
    requires IsRun(st, ev) && m <= n <= |ev| && Winding(st[m].runner, i, budget)
    ensures Winding(st[n].runner, i, budget - DueOf(ev, i, n) + DueOf(ev, i, m))
  {
    if n > m {
      WindingRun(st, ev, i, m, n - 1, budget);
      HeardRun(st, ev, n - 1);
      assert StepAt(st, ev, n - 1);
      SystemWindingStep(st[n - 1], ev[n - 1], st[n], i, budget - DueOf(ev, i, n - 1) + DueOf(ev, i, m));
    }
  }

  /** How many due events run i can still need. */
  function RankOf(r: R.Runner, i: nat): nat {
    if i < |r.runs| then P.Rank(r.runs[i].process) else 0
  }

  /** A cancellation sets every child that listens to the lease on its way out. */
  lemma CancelWinds(s: System, runId: string, i: nat)
    requires Heard(s) && runId in s.leases.byRun
    requires i < |s.runner.runs| && s.runner.runs[i].lease == Some(s.leases.byRun[runId])
    ensures var t := Next(s, CancelLease(runId)); Winding(t.runner, i, RankOf(t.runner, i))
  {
    var t := Next(s, CancelLease(runId));
    CancelKeeps(s, runId);
    AbortKeepsLeases(s.leases, runId);
    assert |t.runner.runs| == |s.runner.runs| && t.runner.runs[i].lease == s.runner.runs[i].lease;
  }

  /**
   * What is cancelled ends.  In every interleaving, late bindings included: once a live
   * lease is cancelled, each child that listens to it has its verdict and is out of the
   * map after Rank of its own due events, whatever else happens between them.
   */
  lemma CancelledChildLeaves(st: seq<System>, ev: seq<Step>, runId: string, i: nat, m: nat, n: nat)
    requires IsRun(st, ev) && m < n <= |ev| && ev[m] == CancelLease(runId) && runId in st[m].leases.byRun
    requires i < |st[m].runner.runs| && st[m].runner.runs[i].lease == Some(st[m].leases.byRun[runId])
    requires DueOf(ev, i, n) - DueOf(ev, i, m + 1) >= RankOf(st[m + 1].runner, i)
    ensures i < |st[n].runner.runs| && st[n].runner.runs[i].process.finalized.Some?
    ensures ChildOf(st[n].runner, st[n].runner.runs[i].taskId).Some? ==>
              st[n].runner.active[st[n].runner.runs[i].taskId] != i
  {
    HeardRun(st, ev, m);
    assert StepAt(st, ev, m);
    CancelWinds(st[m], runId, i);
    WindingRun(st, ev, i, m + 1, n, RankOf(st[m + 1].runner, i));
    HeardRun(st, ev, n);
    if st[n].runner.runs[i].process.finalized.None? {
      P.SomethingIsDue(st[n].runner.runs[i].process);
    }
  }

  // ----- What escapes ------------------------------------------------------------------

  /** A task of an aborted lease has a child that nobody terminates. */
  predicate FreeChild(s: System, task: string) {
    && task in s.leases.byTask && Aborted(s.leases, Some(s.leases.byTask[task]))
    && ChildOf(s.runner, task).Some? && ChildOf(s.runner, task).value.process.terminationReason.None?
  }

  lemma NoFreeChild(s: System, task: string)
    requires Invariant(s)
    ensures !FreeChild(s, task)
  {}

  /** A cancellation does not reach a child that listens to something else. */
  lemma CancelMissesChild(s: System, runId: string, task: string)
    requires L.Invariant(s.leases) && R.RunnerInvariant(s.runner) && runId in s.leases.byRun
    requires task in s.leases.byTask && s.leases.byTask[task] == s.leases.byRun[runId]
    requires ChildOf(s.runner, task).Some? && ChildOf(s.runner, task).value.lease != Some(s.leases.byRun[runId])
    ensures ChildOf(Next(s, CancelLease(runId)).runner, task) == ChildOf(s.runner, task)
    ensures FreeChild(Next(s, CancelLease(runId)), task) <==>
            ChildOf(s.runner, task).value.process.terminationReason.None?
  {
    AbortKeepsLeases(s.leases, runId);
  }

  /**
   * Binding and then cancelling leaves the task a free child exactly when the binding
   * went past the child and nothing was terminating it.
   */
  lemma CancellationMissesExactly(s: System, runId: string, task: string, agentId: Option<string>)
    requires Invariant(s)
    ensures var bound := Next(s, Lease(L.Bind(runId, task, agentId)));
      FreeChild(Next(bound, CancelLease(runId)), task) <==>
      BindsPastChild(s, runId, task) && ChildOf(s.runner, task).value.process.terminationReason.None?
  {
    var bound := Next(s, Lease(L.Bind(runId, task, agentId)));
    if BindsPastChild(s, runId, task) {
      BoundTo(s.leases, runId, task, agentId);
      CancelMissesChild(bound, runId, task);
    } else {
      BindExactly(s, runId, task, agentId);
      CancelKeeps(bound, runId);
      NoFreeChild(Next(bound, CancelLease(runId)), task);
    }
  }

  /** Binding a task that runs already lets its child escape the cancellation. */
  lemma LateBindingEscapes() returns (st: seq<System>, ev: seq<Step>)
    ensures ev == [RunTask("task", true), Lease(L.Bind("run", "task", None)), CancelLease("run")]
    ensures IsRun(st, ev)
    ensures "task" in st[3].leases.byTask && Aborted(st[3].leases, Some(st[3].leases.byTask["task"]))
    ensures "task" in st[3].runner.active && |st[3].runner.runs| == 1
            && st[3].runner.runs[0].process.terminationReason.None?
  {
    ev := [RunTask("task", true), Lease(L.Bind("run", "task", None)), CancelLease("run")];
    var s0 := System(L.EMPTY, R.Runner(P.Posix, map[], []));
    var s1 := Next(s0, ev[0]);
    var s2 := Next(s1, ev[1]);
    var s3 := Next(s2, ev[2]);
    st := [s0, s1, s2, s3];
    assert StepAt(st, ev, 0) && StepAt(st, ev, 1) && StepAt(st, ev, 2);
    assert s1.runner.runs == [R.Run("task", None, P.Spawned(P.Posix))];
    assert s2.leases.byTask == map["task" := 0] && s2.leases.byRun == map["run" := 0];
    assert s3.runner.runs[0] == s1.runner.runs[0];
  }
}
