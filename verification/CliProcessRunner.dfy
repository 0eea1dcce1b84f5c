// The owner of all CLI processes: which run is active for which task, and how requests
// by task id reach the life of one process.

module RunnerProtocol {
  import opened Common
  import opened ProcessLifecycle

  /** An accepted run; `lease` is the execution lease whose abort signal it listens to. */
  datatype Run = Run(taskId: string, lease: Option<nat>, process: Process)

  datatype Runner = Runner(platform: Platform, active: map<string, nat>, runs: seq<Run>)

  datatype Step =
    | Start(taskId: string, lease: Option<nat>, aborted: bool, spawns: bool)
    | CancelTask(taskId: string)
    | Child(run: nat, event: Event)      // an event of one accepted run, Cancel excepted
    | AbortSignal(handle: nat)
    | Shutdown

  predicate RunnerEnabled(s: Runner, step: Step) {
    step.Child? ==> step.run < |s.runs| && !step.event.Cancel? && Enabled(s.runs[step.run].process, step.event)
  }

  function WithProcess(s: Runner, i: nat, p: Process): Runner
    requires i < |s.runs|
  {
    s.(runs := s.runs[i := s.runs[i].(process := p)])
  }

  /** Requests go by task id and reach whichever run is active under it. */
  function TerminateTask(s: Runner, taskId: string, reason: TerminationReason): Runner {
    if taskId in s.active && s.active[taskId] < |s.runs| then
      var i := s.active[taskId];
      WithProcess(s, i, Terminate(s.runs[i].process, reason))
    else s
  }

  /** A task that runs already, an aborted lease and a failing spawn all leave the runner alone. */
  function Started(s: Runner, taskId: string, lease: Option<nat>, aborted: bool, spawns: bool): Runner {
    if taskId in s.active || aborted || !spawns then s
    else s.(runs := s.runs + [Run(taskId, lease, Spawned(s.platform))], active := s.active[taskId := |s.runs|])
  }

  /** A run that got its verdict leaves the map, unless the entry is another run's by now. */
  function Retired(s: Runner, i: nat): Runner
    requires i < |s.runs|
  {
    var t := s.runs[i].taskId;
    if s.runs[i].process.finalized.Some? && t in s.active && s.active[t] == i then s.(active := s.active - {t}) else s
  }

  function Handled(s: Runner, i: nat, e: Event): Runner
    requires RunnerEnabled(s, Child(i, e))
  {
    var p := s.runs[i].process;
    if e.Timeout? then
      TerminateTask(WithProcess(s, i, p.(timeoutArmed := false)), s.runs[i].taskId, TimedOut)
    else if e.DecodeFailure? then
      if p.decodeError.Some? then s
      else TerminateTask(WithProcess(s, i, p.(decodeError := Some(e.error))), s.runs[i].taskId, Cancelled)
    else
      Retired(WithProcess(s, i, Next(p, e)), i)
  }

  function CancelledRun(r: Run): Run {
    if r.process.finalized.None? then r.(process := Terminate(r.process, Cancelled)) else r
  }

  function RunnerNext(s: Runner, step: Step): Runner
    requires RunnerEnabled(s, step)
  {
    match step
    case Start(taskId, lease, aborted, spawns) => Started(s, taskId, lease, aborted, spawns)
    case CancelTask(taskId) => TerminateTask(s, taskId, Cancelled)
    case Child(i, e) => Handled(s, i, e)
    case AbortSignal(e) =>
      s.(runs := seq(|s.runs|, i requires 0 <= i < |s.runs| =>
           if s.runs[i].lease == Some(e) then CancelledRun(s.runs[i]) else s.runs[i]))
    case Shutdown =>
      s.(runs := seq(|s.runs|, i requires 0 <= i < |s.runs| => CancelledRun(s.runs[i])))
  }

  /** The map holds exactly the accepted runs that have no verdict yet, under their tasks. */
  ghost predicate RunnerInvariant(s: Runner) {
    && (forall t | t in s.active ::
          s.active[t] < |s.runs| && s.runs[s.active[t]].taskId == t && s.runs[s.active[t]].process.finalized.None?)
    && (forall i | 0 <= i < |s.runs| ::
          && Invariant(s.runs[i].process)
          && (s.runs[i].process.finalized.None? ==> s.runs[i].taskId in s.active && s.active[s.runs[i].taskId] == i))
  }

  /** One step of one process. */
  ghost predicate Advances(p: Process, q: Process) {
    p == q || exists e :: Enabled(p, e) && q == Next(p, e)
  }

  /** Every process moves by the steps of its own life only. */
  ghost predicate RunsAdvance(s: Runner, t: Runner) {
    && |s.runs| <= |t.runs|
    && forall i | 0 <= i < |s.runs| ::
         && Advances(s.runs[i].process, t.runs[i].process)
         && t.runs[i].taskId == s.runs[i].taskId && t.runs[i].lease == s.runs[i].lease
  }

  lemma CancelAdvances(r: Run)
    requires Invariant(r.process)
    ensures Advances(r.process, CancelledRun(r).process) && Invariant(CancelledRun(r).process)
    ensures CancelledRun(r).process.finalized == r.process.finalized
    ensures r.process.finalized.None? ==> CancelledRun(r).process.terminationReason.Some?
  {
    if r.process.finalized.None? {
      assert Enabled(r.process, Cancel);
      InvariantStep(r.process, Cancel);
    }
  }

  lemma ReplaceProcess(s: Runner, i: nat, q: Process)
    requires RunnerInvariant(s) && i < |s.runs| && Invariant(q) && Advances(s.runs[i].process, q)
    requires s.runs[i].process.finalized.Some? ==> q.finalized.Some?
    ensures var t := Retired(WithProcess(s, i, q), i); RunnerInvariant(t) && RunsAdvance(s, t)
  {
    var t, task := Retired(WithProcess(s, i, q), i), s.runs[i].taskId;
    assert forall k | 0 <= k < |s.runs| && k != i :: t.runs[k] == s.runs[k];
    assert t.runs[i] == s.runs[i].(process := q);
  }

  lemma ProcessStep(s: Runner, i: nat, e: Event)
    requires RunnerInvariant(s) && i < |s.runs| && Enabled(s.runs[i].process, e)
    ensures var t := Retired(WithProcess(s, i, Next(s.runs[i].process, e)), i);
      RunnerInvariant(t) && RunsAdvance(s, t)
  {
    InvariantStep(s.runs[i].process, e);
    ReplaceProcess(s, i, Next(s.runs[i].process, e));
  }

  lemma TerminateIsAStep(s: Runner, task: string)
    requires RunnerInvariant(s)
    ensures var t := TerminateTask(s, task, Cancelled); RunnerInvariant(t) && RunsAdvance(s, t)
  {
    if task in s.active {
      ProcessStep(s, s.active[task], Cancel);
    }
  }

  lemma TimeoutIsAStep(s: Runner, i: nat)
    requires RunnerInvariant(s) && RunnerEnabled(s, Child(i, Timeout))
    ensures Handled(s, i, Timeout) == Retired(WithProcess(s, i, Next(s.runs[i].process, Timeout)), i)
  {
    assert s.active[s.runs[i].taskId] == i;
  }

  /** The first decode failure of a run that has its verdict is only recorded there. */
  lemma LateDecodeFailure(s: Runner, i: nat, error: string)
    requires RunnerInvariant(s) && i < |s.runs|
    requires s.runs[i].process.decodeError.None? && s.runs[i].process.finalized.Some?
    ensures var u := WithProcess(s, i, s.runs[i].process.(decodeError := Some(error)));
      RunnerInvariant(u) && RunsAdvance(s, u) && u.active == s.active
      && forall k | 0 <= k < |s.runs| && k != i :: u.runs[k] == s.runs[k]
  {
    var p, e := s.runs[i].process, DecodeFailure(error);
    InvariantStep(p, e);
    assert Enabled(p, e) && Next(p, e) == p.(decodeError := Some(error));
    ReplaceProcess(s, i, Next(p, e));
  }

  /**
   * A decode failure is recorded with the run it happened in, but the termination it
   * asks for reaches the run that is active under the task.
   */
  lemma DecodeFailureIsAStep(s: Runner, i: nat, error: string)
    requires RunnerInvariant(s) && i < |s.runs|
    ensures var t := Handled(s, i, DecodeFailure(error)); RunnerInvariant(t) && RunsAdvance(s, t)
  {
    var p, task := s.runs[i].process, s.runs[i].taskId;
    if p.decodeError.None? && p.finalized.Some? {
      LateDecodeFailure(s, i, error);
      var u := WithProcess(s, i, p.(decodeError := Some(error)));
      TerminateIsAStep(u, task);
      var t := TerminateTask(u, task, Cancelled);
      forall k | 0 <= k < |s.runs| ensures Advances(s.runs[k].process, t.runs[k].process) {
        assert Advances(u.runs[k].process, t.runs[k].process) && Advances(s.runs[k].process, u.runs[k].process);
        assert k == i ==> t.runs[k] == u.runs[k];
      }
    } else {
      DecodeFailureWhileActive(s, i, error);
    }
  }

  lemma DecodeFailureWhileActive(s: Runner, i: nat, error: string)
    requires RunnerInvariant(s) && i < |s.runs|
    requires s.runs[i].process.decodeError.Some? || s.runs[i].process.finalized.None?
    ensures var t := Handled(s, i, DecodeFailure(error)); RunnerInvariant(t) && RunsAdvance(s, t)
  {
    var p, e := s.runs[i].process, DecodeFailure(error);
    if p.decodeError.None? {
      assert s.active[s.runs[i].taskId] == i;
      assert Handled(s, i, e) == WithProcess(s, i, Next(p, e));
      assert Next(p, e).finalized.None?;
      ProcessStep(s, i, e);
    }
  }

  lemma ChildIsAStep(s: Runner, i: nat, e: Event)
    requires RunnerInvariant(s) && RunnerEnabled(s, Child(i, e))
    ensures RunnerInvariant(Handled(s, i, e)) && RunsAdvance(s, Handled(s, i, e))
  {
    if e.DecodeFailure? {
      DecodeFailureIsAStep(s, i, e.error);
    } else {
      if e.Timeout? {
        TimeoutIsAStep(s, i);
      }
      ProcessStep(s, i, e);
    }
  }

  lemma CancelManyIsAStep(s: Runner, t: Runner)
    requires RunnerInvariant(s) && t.active == s.active && |t.runs| == |s.runs|
    requires forall i | 0 <= i < |s.runs| :: t.runs[i] == s.runs[i] || t.runs[i] == CancelledRun(s.runs[i])
    ensures RunnerInvariant(t) && RunsAdvance(s, t)
  {
    forall i | 0 <= i < |s.runs| { CancelAdvances(s.runs[i]); }
  }

  lemma RunnerInvariantStep(s: Runner, step: Step)
    requires RunnerInvariant(s) && RunnerEnabled(s, step)
    ensures RunnerInvariant(RunnerNext(s, step)) && RunsAdvance(s, RunnerNext(s, step))
  {
    match step
    case CancelTask(task) => TerminateIsAStep(s, task);
    case Child(i, e) => ChildIsAStep(s, i, e);
    case Start(_, _, _, _) =>
    case _ => CancelManyIsAStep(s, RunnerNext(s, step));
  }

  ghost predicate StepsTo(s: Runner, step: Step, t: Runner) {
    RunnerEnabled(s, step) && t == RunnerNext(s, step)
  }

  ghost predicate StepAt(st: seq<Runner>, ev: seq<Step>, i: nat)
    requires |st| == |ev| + 1
  {
    i < |ev| && StepsTo(st[i], ev[i], st[i + 1])
  }

  ghost predicate IsRunnerRun(st: seq<Runner>, ev: seq<Step>) {
    && |st| == |ev| + 1 && st[0].active == map[] && st[0].runs == []
    && forall i: nat | i < |ev| :: StepAt(st, ev, i)
  }

  /** Verdicts given stay as they are. */
  ghost predicate KeepsVerdicts(s: Runner, t: Runner) {
    && |s.runs| <= |t.runs|
    && forall i | 0 <= i < |s.runs| :: VerdictStays(s.runs[i].process, t.runs[i].process)
  }

  predicate VerdictStays(p: Process, q: Process) {
    p.finalized.Some? ==> q.finalized == p.finalized
  }

  lemma KeepsVerdictsStep(s: Runner, step: Step)
    requires RunnerInvariant(s) && RunnerEnabled(s, step)
    ensures RunnerInvariant(RunnerNext(s, step)) && KeepsVerdicts(s, RunnerNext(s, step))
  {
    RunnerInvariantStep(s, step);
    var t := RunnerNext(s, step);
    forall i | 0 <= i < |s.runs| ensures VerdictStays(s.runs[i].process, t.runs[i].process) {
      AdvanceFacts(s.runs[i].process, t.runs[i].process);
    }
  }

  lemma KeepsVerdictsAgain(s: Runner, step: Step, from: Runner)
    requires RunnerInvariant(s) && RunnerEnabled(s, step) && KeepsVerdicts(from, s)
    ensures RunnerInvariant(RunnerNext(s, step)) && KeepsVerdicts(from, RunnerNext(s, step))
  {
    KeepsVerdictsStep(s, step);
    KeepsVerdictsCompose(from, s, RunnerNext(s, step));
  }

  lemma {:induction false} RunnerInvariantRun(st: seq<Runner>, ev: seq<Step>, n: nat)
    requires IsRunnerRun(st, ev) && n <= |ev|
    ensures RunnerInvariant(st[n])
  {
    if n > 0 {
      RunnerInvariantRun(st, ev, n - 1);
      assert StepAt(st, ev, n - 1);
      RunnerInvariantStep(st[n - 1], ev[n - 1]);
    }
  }

  /**
   * In every interleaving an accepted run is in the map until it has its verdict and
   * never after, two active runs never share a task, and a verdict given stays.
   */
  lemma {:induction false} VerdictsAreFinal(st: seq<Runner>, ev: seq<Step>, n: nat, k: nat)
    requires IsRunnerRun(st, ev) && n <= k <= |ev|
    ensures RunnerInvariant(st[k]) && KeepsVerdicts(st[n], st[k])
  {
    if k == n {
      RunnerInvariantRun(st, ev, k);
    } else {
      VerdictsAreFinal(st, ev, n, k - 1);
      assert StepAt(st, ev, k - 1);
      KeepsVerdictsAgain(st[k - 1], ev[k - 1], st[n]);
    }
  }

  lemma KeepsVerdictsCompose(s: Runner, t: Runner, u: Runner)
    requires KeepsVerdicts(s, t) && KeepsVerdicts(t, u)
    ensures KeepsVerdicts(s, u)
  {
    forall i | 0 <= i < |s.runs| ensures VerdictStays(s.runs[i].process, u.runs[i].process) {
      assert VerdictStays(s.runs[i].process, t.runs[i].process) && VerdictStays(t.runs[i].process, u.runs[i].process);
    }
  }

  /** The timer, kill attempts and close of run i among the first n steps. */
  function DueOf(ev: seq<Step>, i: nat, n: nat): nat
    requires n <= |ev|
  {
    if n == 0 then 0
    else DueOf(ev, i, n - 1) + DueNow(ev[n - 1], i)
  }

  /** What a step of a process can never do. */
  lemma AdvanceFacts(p: Process, q: Process)
    requires Invariant(p) && Advances(p, q)
    ensures q.finalized.None? ==> p.finalized.None?
    ensures VerdictStays(p, q)
    ensures p.terminationReason.Some? ==> q.terminationReason.Some?
    ensures p.terminationReason.Some? && q.finalized.None? ==> Rank(q) <= Rank(p)
  {
    if p != q {
      var e :| Enabled(p, e) && q == Next(p, e);
      InvariantStep(p, e);
      if p.terminationReason.Some? {
        CompletionStep(p, e);
      }
    }
  }

  /** Whether the step is a due event of run i. */
  function DueNow(step: Step, i: nat): nat {
    if step.Child? && step.run == i && IsDue(step.event) then 1 else 0
  }

  lemma DueInRunner(s: Runner, i: nat, e: Event)
    requires RunnerInvariant(s) && RunnerEnabled(s, Child(i, e)) && IsDue(e)
    requires s.runs[i].process.terminationReason.Some?
    ensures var q := Handled(s, i, e).runs[i].process;
      q.finalized.None? ==> Rank(q) < Rank(s.runs[i].process)
  {
    CompletionStep(s.runs[i].process, e);
  }

  /** Run i is being terminated and gets its verdict after at most `budget` of its due events. */
  ghost predicate Ending(s: Runner, i: nat, budget: int) {
    && i < |s.runs| && s.runs[i].process.terminationReason.Some?
    && (s.runs[i].process.finalized.None? ==> Rank(s.runs[i].process) <= budget)
  }

  lemma EndingStep(s: Runner, step: Step, t: Runner, i: nat, budget: int)
    requires RunnerInvariant(s) && Ending(s, i, budget) && StepsTo(s, step, t)
    ensures Ending(t, i, budget - DueNow(step, i))
  {
    RunnerInvariantStep(s, step);
    AdvanceFacts(s.runs[i].process, t.runs[i].process);
    if DueNow(step, i) == 1 {
      DueInRunner(s, i, step.event);
    }
  }

  /**
   * In every interleaving of all runs: once termination of run i was requested, Rank of
   * its own due events are enough for its verdict, and then it is out of the map.
   */
  lemma {:induction false} TerminatedRunLeaves(st: seq<Runner>, ev: seq<Step>, i: nat, m: nat, n: nat)
    requires IsRunnerRun(st, ev) && m <= n <= |ev| && i < |st[m].runs|
    requires st[m].runs[i].process.terminationReason.Some?
    requires DueOf(ev, i, n) - DueOf(ev, i, m) >= Rank(st[m].runs[i].process)
    ensures i < |st[n].runs| && st[n].runs[i].process.finalized.Some?
    ensures st[n].runs[i].taskId in st[n].active ==> st[n].active[st[n].runs[i].taskId] != i
  {
    RunnerInvariantRun(st, ev, n);
    EndingRun(st, ev, i, m, n, Rank(st[m].runs[i].process));
    if st[n].runs[i].process.finalized.None? {
      SomethingIsDue(st[n].runs[i].process);
    }
  }

  lemma {:induction false} EndingRun(st: seq<Runner>, ev: seq<Step>, i: nat, m: nat, n: nat, budget: int)
    requires IsRunnerRun(st, ev) && m <= n <= |ev| && Ending(st[m], i, budget)
    ensures Ending(st[n], i, budget - DueOf(ev, i, n) + DueOf(ev, i, m))
  {
    if n > m {
      EndingRun(st, ev, i, m, n - 1, budget);
      RunnerInvariantRun(st, ev, n - 1);
      assert StepAt(st, ev, n - 1);
      EndingStep(st[n - 1], ev[n - 1], st[n], i, budget - DueOf(ev, i, n - 1) + DueOf(ev, i, m));
    }
  }

  /**
   * A decode failure touches another run exactly when its own run has its verdict, it
   * is the first failure there, and the task runs again and is not being terminated.
   */
  lemma StrayTerminationExactly(s: Runner, i: nat, error: string)
    requires RunnerInvariant(s) && i < |s.runs|
    ensures (exists k :: 0 <= k < |s.runs| && k != i && Handled(s, i, DecodeFailure(error)).runs[k] != s.runs[k]) <==>
            (var p, task := s.runs[i].process, s.runs[i].taskId;
             p.finalized.Some? && p.decodeError.None? && task in s.active
             && s.runs[s.active[task]].process.terminationReason.None?)
  {
    var p, task := s.runs[i].process, s.runs[i].taskId;
    var t := Handled(s, i, DecodeFailure(error));
    if task in s.active && p.decodeError.None? {
      var k := s.active[task];
      assert s.runs[k].process.terminationReason.None? ==>
          Terminate(s.runs[k].process, Cancelled).terminationReason == Some(Cancelled);
      assert k != i ==> t.runs[k].process == Terminate(s.runs[k].process, Cancelled);
      assert k != i && s.runs[k].process.terminationReason.None? ==> t.runs[k] != s.runs[k];
    }
  }

  lemma Extend(st: seq<Runner>, ev: seq<Step>, step: Step, t: Runner) returns (st': seq<Runner>, ev': seq<Step>)
    requires IsRunnerRun(st, ev) && StepsTo(Last(st), step, t)
    ensures st' == st + [t] && ev' == ev + [step] && IsRunnerRun(st', ev')
  {
    st', ev' := st + [t], ev + [step];
    forall i: nat | i < |ev'| ensures StepAt(st', ev', i) {
      assert i < |ev| ==> StepAt(st, ev, i);
    }
  }

  const FRESH: Run := Run("task", None, Spawned(Posix))
  const GONE: Run := FRESH.(process := Next(Spawned(Posix), Error("gone")))
  const RESTART: Step := Start("task", None, false, true)

  lemma FreshRunStarts(s: Runner)
    requires s.platform == Posix && s.active == map[]
    ensures StepsTo(s, RESTART, Runner(Posix, map["task" := |s.runs|], s.runs + [FRESH]))
  {
    assert s.active["task" := |s.runs|] == map["task" := |s.runs|];
  }

  lemma FirstRunEnds()
    ensures GONE.process.finalized.Some? && GONE.process.decodeError.None?
    ensures StepsTo(Runner(Posix, map["task" := 0], [FRESH]), Child(0, Error("gone")), Runner(Posix, map[], [GONE]))
  {
    assert Spawned(Posix).finalized.None?;
  }

  lemma SecondRunIsHit() returns (t: Runner)
    ensures StepsTo(Runner(Posix, map["task" := 1], [GONE, FRESH]), Child(0, DecodeFailure("bad output")), t)
    ensures |t.runs| == 2 && t.runs[1].process.terminationReason == Some(Cancelled)
  {
    FirstRunEnds();
    t := RunnerNext(Runner(Posix, map["task" := 1], [GONE, FRESH]), Child(0, DecodeFailure("bad output")));
  }

  /**
   * Concretely: the first run of a task ends by an error, the task runs again, and late
   * output of the first run that does not decode cancels the second.
   */
  lemma LateOutputCancelsTheNextRun() returns (st: seq<Runner>, ev: seq<Step>)
    ensures ev == [RESTART] + [Child(0, Error("gone"))] + [RESTART] + [Child(0, DecodeFailure("bad output"))]
    ensures IsRunnerRun(st, ev) && st[3].runs == [GONE, FRESH] && FRESH.process.terminationReason == None
    ensures |st[4].runs| == 2 && st[4].runs[1].process.terminationReason == Some(Cancelled)
  {
    var s0 := Runner(Posix, map[], []);
    FreshRunStarts(s0);
    assert [] + [FRESH] == [FRESH];
    st, ev := Extend([s0], [], RESTART, Runner(Posix, map["task" := 0], [FRESH]));
    FirstRunEnds();
    st, ev := Extend(st, ev, Child(0, Error("gone")), Runner(Posix, map[], [GONE]));
    FreshRunStarts(Last(st));
    assert [GONE] + [FRESH] == [GONE, FRESH];
    st, ev := Extend(st, ev, RESTART, Runner(Posix, map["task" := 1], [GONE, FRESH]));
    var t := SecondRunIsHit();
    st, ev := Extend(st, ev, Child(0, DecodeFailure("bad output")), t);
  }

  /** A run that was just spawned: its timeout runs, and nothing else has happened. */
  predicate IsFresh(r: Run, platform: Platform, taskId: string, lease: Option<nat>) {
    var p := r.process;
    && r.taskId == taskId && r.lease == lease && p.platform == platform && p.timeoutArmed
    && !p.forceKillTimer && !p.forceKillSent && !p.closed && !p.errored && p.outstanding == {}
    && p.terminationReason == None && p.attempt == None && p.pendingClose == None
    && p.decodeError == None && p.finalized == None
  }

  /** A recorded decode error, else a recorded request, else what the end event says. */
  predicate Reports(r: Result, p: Process, otherwise: ExitReason, exitCode: Option<int>, error: Option<string>) {
    if p.decodeError.Some? then r == Result(SpawnError, None, p.decodeError)
    else r == Result(if p.terminationReason.Some? then Ended(p.terminationReason.value) else otherwise, exitCode, error)
  }

  lemma EndReports(s: Runner, i: nat, e: Event)
    requires RunnerEnabled(s, Child(i, e)) && (e.Close? || e.Error?)
    ensures var p, q := s.runs[i].process, Handled(s, i, e).runs[i].process;
      p.finalized.None? && q.finalized.Some? ==>
        if e.Close? then Reports(q.finalized.value, p, Completed, e.exitCode, None)
        else Reports(q.finalized.value, p, SpawnError, None, Some(e.error))
  {}

  /** The state of a shutdown that has not yet come to the tasks in `todo`. */
  function ShutdownExcept(s: Runner, todo: set<string>): Runner {
    s.(runs := seq(|s.runs|, i requires 0 <= i < |s.runs| =>
         if s.runs[i].taskId in todo then s.runs[i] else CancelledRun(s.runs[i])))
  }

  lemma ShutdownTurn(s: Runner, todo: set<string>, t: string)
    requires RunnerInvariant(s) && t in todo && t in s.active
    ensures TerminateTask(ShutdownExcept(s, todo), t, Cancelled) == ShutdownExcept(s, todo - {t})
  {
    var u, v := TerminateTask(ShutdownExcept(s, todo), t, Cancelled), ShutdownExcept(s, todo - {t});
    forall i | 0 <= i < |s.runs| ensures u.runs[i] == v.runs[i] {
      if s.runs[i].taskId == t && i != s.active[t] {
        assert s.runs[i].process.finalized.Some?;
      }
    }
  }

  lemma ShutdownEnds(s: Runner)
    requires RunnerInvariant(s)
    ensures ShutdownExcept(s, s.active.Keys) == s
    ensures ShutdownExcept(s, {}) == RunnerNext(s, Shutdown)
  {
    assert forall i | 0 <= i < |s.runs| && s.runs[i].taskId !in s.active :: s.runs[i].process.finalized.Some?;
    assert ShutdownExcept(s, s.active.Keys).runs == s.runs;
    assert ShutdownExcept(s, {}).runs == RunnerNext(s, Shutdown).runs;
  }

  /** The state of an abort whose listeners have run for the first n runs. */
  function AbortUpTo(s: Runner, lease: nat, n: nat): Runner {
    s.(runs := seq(|s.runs|, i requires 0 <= i < |s.runs| =>
         if i < n && s.runs[i].lease == Some(lease) then CancelledRun(s.runs[i]) else s.runs[i]))
  }

  lemma AbortTurn(s: Runner, lease: nat, n: nat)
    requires RunnerInvariant(s) && n < |s.runs|
    ensures var now, run := AbortUpTo(s, lease, n), s.runs[n];
      AbortUpTo(s, lease, n + 1) ==
      if run.lease == Some(lease) && run.process.finalized.None? then TerminateTask(now, run.taskId, Cancelled) else now
  {
    var now, after, run := AbortUpTo(s, lease, n), AbortUpTo(s, lease, n + 1), s.runs[n];
    assert now.runs[n] == run;
    if run.lease == Some(lease) && run.process.finalized.None? {
      assert s.active[run.taskId] == n;
      assert TerminateTask(now, run.taskId, Cancelled).runs == after.runs;
    } else {
      assert now.runs == after.runs;
    }
  }

  lemma AbortEnds(s: Runner, lease: nat)
    ensures AbortUpTo(s, lease, 0) == s
    ensures AbortUpTo(s, lease, |s.runs|) == RunnerNext(s, AbortSignal(lease))
  {
    assert AbortUpTo(s, lease, 0).runs == s.runs;
    assert AbortUpTo(s, lease, |s.runs|).runs == RunnerNext(s, AbortSignal(lease)).runs;
  }

  /** After shutdown every run still without verdict is being terminated. */
  lemma ShutdownReachesAll(s: Runner, i: nat)
    requires RunnerInvariant(s) && i < |s.runs|
    ensures var p := RunnerNext(s, Shutdown).runs[i].process;
      p.finalized.None? ==> p.terminationReason.Some? && (p.forceKillTimer || p.forceKillSent)
  {
    CancelAdvances(s.runs[i]);
  }
}

module CliProcessRunning {
  import opened Common
  import opened ProcessLifecycle
  import opened RunnerProtocol

  datatype StartOutcome = AlreadyRunning | CancelledBeforeSpawn | SpawnFailed | Accepted(run: nat)

  class CliProcessRunner {
    const platform: Platform
    var activeProcesses: map<string, nat>
    var runs: seq<Run>

    ghost function Now(): Runner
      reads this
    {
      Runner(platform, activeProcesses, runs)
    }

    constructor (platform: Platform)
      ensures RunnerInvariant(Now()) && activeProcesses == map[] && runs == [] && this.platform == platform
    {
      this.platform := platform;
      activeProcesses := map[];
      runs := [];
    }

    method Store(i: nat, p: Process)
      requires i < |runs|
      modifies `runs
      ensures Now() == WithProcess(old(Now()), i, p)
    {
      runs := runs[i := runs[i].(process := p)];
    }

    /** Everything `run` does before its first event; no other code runs in between. */
    method RunTask(taskId: string, lease: Option<nat>, aborted: bool, spawns: bool) returns (outcome: StartOutcome)
      requires RunnerInvariant(Now())
      modifies this
      ensures RunnerInvariant(Now()) && Now() == RunnerNext(old(Now()), Start(taskId, lease, aborted, spawns))
      ensures outcome.Accepted? <==> taskId !in old(activeProcesses) && !aborted && spawns
      ensures outcome.Accepted? ==>
                && outcome.run == |old(runs)| && activeProcesses == old(activeProcesses)[taskId := outcome.run]
                && runs[..outcome.run] == old(runs) && |runs| == outcome.run + 1 && IsFresh(runs[outcome.run], platform, taskId, lease)
      ensures !outcome.Accepted? ==> runs == old(runs) && activeProcesses == old(activeProcesses)
      ensures taskId in old(activeProcesses) <==> outcome == AlreadyRunning
      ensures outcome == CancelledBeforeSpawn ==> aborted
    {
      RunnerInvariantStep(Now(), Start(taskId, lease, aborted, spawns));
      if taskId in activeProcesses {
        return AlreadyRunning;
      }
      if aborted {
        return CancelledBeforeSpawn;
      }
      if !spawns {
        return SpawnFailed;
      }
      outcome := Accepted(|runs|);
      activeProcesses := activeProcesses[taskId := |runs|];
      runs := runs + [Run(taskId, lease, Spawned(platform))];
    }

    method SignalTree(p: Process) returns (q: Process)
      ensures q == StartAttempt(p)
    {
      q := p;
      if p.platform.Windows? {
        q := q.(attempt := Some(p.attempts), outstanding := p.outstanding + {p.attempts}, attempts := p.attempts + 1);
      }
    }

    method TerminateRun(taskId: string, reason: TerminationReason) returns (found: bool)
      requires forall t | t in activeProcesses :: activeProcesses[t] < |runs|
      modifies `runs
      ensures Now() == TerminateTask(old(Now()), taskId, reason)
      ensures found <==> taskId in activeProcesses
    {
      if taskId !in activeProcesses {
        return false;
      }
      var i := activeProcesses[taskId];
      var p := runs[i].process;
      if p.terminationReason.None? {
        p := p.(terminationReason := Some(reason));
      }
      if !p.forceKillTimer && !p.forceKillSent {
        p := SignalTree(p);
        p := p.(forceKillTimer := true);
      }
      Store(i, p);
      found := true;
    }

    method FinalizeRun(i: nat, p: Process, r: Result)
      requires i < |runs|
      modifies `runs, `activeProcesses
      ensures Now() == Retired(WithProcess(old(Now()), i, Finalize(p, r)), i)
    {
      if p.finalized.Some? {
        Store(i, p);
      } else {
        Store(i, p.(finalized := Some(r), timeoutArmed := false, forceKillTimer := false));
      }
      var t := runs[i].taskId;
      if t in activeProcesses && activeProcesses[t] == i {
        activeProcesses := activeProcesses - {t};
      }
    }

    method OnTimeout(i: nat)
      requires RunnerInvariant(Now()) && RunnerEnabled(Now(), Child(i, Timeout))
      modifies `runs
      ensures RunnerInvariant(Now()) && Now() == RunnerNext(old(Now()), Child(i, Timeout))
    {
      RunnerInvariantStep(Now(), Child(i, Timeout));
      Store(i, runs[i].process.(timeoutArmed := false));
      var _ := TerminateRun(runs[i].taskId, TimedOut);
    }

    method OnDecodeFailure(i: nat, error: string)
      requires RunnerInvariant(Now()) && i < |runs|
      modifies `runs
      ensures RunnerInvariant(Now()) && Now() == RunnerNext(old(Now()), Child(i, DecodeFailure(error)))
    {
      RunnerInvariantStep(Now(), Child(i, DecodeFailure(error)));
      if runs[i].process.decodeError.Some? {
        return;
      }
      Store(i, runs[i].process.(decodeError := Some(error)));
      var _ := TerminateRun(runs[i].taskId, Cancelled);
    }

    method OnForceKill(i: nat)
      requires RunnerInvariant(Now()) && RunnerEnabled(Now(), Child(i, ForceKill))
      modifies `runs, `activeProcesses
      ensures RunnerInvariant(Now()) && Now() == RunnerNext(old(Now()), Child(i, ForceKill))
    {
      RunnerInvariantStep(Now(), Child(i, ForceKill));
      var p := runs[i].process.(forceKillTimer := false, forceKillSent := true);
      p := SignalTree(p);
      if p.pendingClose.Some? && p.attempt.None? {
        FinalizeRun(i, p, p.pendingClose.value);
      } else {
        Store(i, p);
      }
    }

    method OnAttemptSettled(i: nat, id: nat)
      requires RunnerInvariant(Now()) && RunnerEnabled(Now(), Child(i, AttemptSettles(id)))
      modifies `runs, `activeProcesses
      ensures RunnerInvariant(Now()) && Now() == RunnerNext(old(Now()), Child(i, AttemptSettles(id)))
    {
      RunnerInvariantStep(Now(), Child(i, AttemptSettles(id)));
      var p := runs[i].process;
      p := p.(outstanding := p.outstanding - {id});
      if p.attempt != Some(id) {
        Store(i, p);
        return;
      }
      p := p.(attempt := None);
      if p.pendingClose.Some? {
        FinalizeRun(i, p, p.pendingClose.value);
      } else {
        Store(i, p);
      }
    }

    method OnClose(i: nat, exitCode: Option<int>, groupAlive: bool)
      requires RunnerInvariant(Now()) && RunnerEnabled(Now(), Child(i, Close(exitCode, groupAlive)))
      modifies `runs, `activeProcesses
      ensures RunnerInvariant(Now()) && Now() == RunnerNext(old(Now()), Child(i, Close(exitCode, groupAlive)))
      ensures old(runs[i].process).finalized.None? && runs[i].process.finalized.Some? ==>
                Reports(runs[i].process.finalized.value, old(runs[i].process), Completed, exitCode, None)
    {
      EndReports(Now(), i, Close(exitCode, groupAlive));
      RunnerInvariantStep(Now(), Child(i, Close(exitCode, groupAlive)));
      var p := runs[i].process;
      var result := if p.decodeError.Some? then Result(SpawnError, None, p.decodeError)
                    else Result(if p.terminationReason.Some? then Ended(p.terminationReason.value) else Completed, exitCode, None);
      assert result == Verdict(p.decodeError, p.terminationReason, Close(exitCode, groupAlive));
      p := p.(closed := true);
      var stillAlive := p.platform.Posix? && groupAlive;
      if p.terminationReason.Some? && (p.attempt.Some? || (!p.forceKillSent && stillAlive)) {
        Store(i, p.(pendingClose := Some(result)));
        return;
      }
      FinalizeRun(i, p, result);
    }

    method OnError(i: nat, error: string)
      requires RunnerInvariant(Now()) && RunnerEnabled(Now(), Child(i, Error(error)))
      modifies `runs, `activeProcesses
      ensures RunnerInvariant(Now()) && Now() == RunnerNext(old(Now()), Child(i, Error(error)))
      ensures old(runs[i].process).finalized.None? && runs[i].process.finalized.Some? ==>
                Reports(runs[i].process.finalized.value, old(runs[i].process), SpawnError, None, Some(error))
    {
      EndReports(Now(), i, Error(error));
      RunnerInvariantStep(Now(), Child(i, Error(error)));
      var p := runs[i].process;
      var result := if p.decodeError.Some? then Result(SpawnError, None, p.decodeError)
                    else Result(if p.terminationReason.Some? then Ended(p.terminationReason.value) else SpawnError, None, Some(error));
      assert result == Verdict(p.decodeError, p.terminationReason, Error(error));
      p := p.(errored := true);
      if p.terminationReason.Some? && p.attempt.Some? {
        Store(i, p.(pendingClose := Some(result)));
        return;
      }
      FinalizeRun(i, p, result);
    }

    /** The abort listeners of every run that listens to the lease. */
    method OnAbort(lease: nat)
      requires RunnerInvariant(Now())
      modifies `runs
      ensures RunnerInvariant(Now()) && Now() == RunnerNext(old(Now()), AbortSignal(lease))
    {
      ghost var s := Now();
      RunnerInvariantStep(s, AbortSignal(lease));
      AbortEnds(s, lease);
      for i := 0 to |runs|
        invariant |runs| == |s.runs| && Now() == AbortUpTo(s, lease, i)
      {
        AbortTurn(s, lease, i);
        assert runs[i] == s.runs[i];
        if runs[i].lease == Some(lease) && runs[i].process.finalized.None? {
          var _ := TerminateRun(runs[i].taskId, Cancelled);
        }
      }
    }

    /** Asks every active process to end; what it then awaits are the completions. */
    method Shutdown()
      requires RunnerInvariant(Now())
      modifies `runs
      ensures RunnerInvariant(Now()) && Now() == RunnerNext(old(Now()), Step.Shutdown)
    {
      RunnerInvariantStep(Now(), Step.Shutdown);
      ghost var s := Now();
      ShutdownEnds(s);
      var todo := activeProcesses.Keys;
      while todo != {}
        invariant todo <= s.active.Keys && Now() == ShutdownExcept(s, todo)
        decreases |todo|
      {
        var t :| t in todo;
        ShutdownTurn(s, todo, t);
        var _ := TerminateRun(t, Cancelled);
        todo := todo - {t};
      }
    }
  }
}
