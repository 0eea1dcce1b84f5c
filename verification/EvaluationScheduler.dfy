// The scheduler and its tables as objects that are updated in place.

module EvaluationScheduler {
  import opened Common
  import opened EvaluationProtocol

  datatype RecoveryStats = RecoveryStats(runningAborted: nat, pendingAborted: nat, queuedPromoted: nat)

  class EvaluationQueue {
    const maxConcurrency: nat
    var tasks: Tasks
    var results: map<string, ResultRow>
    var promotionsPaused: bool
    var executed: seq<string>

    ghost function Now(): Queue
      reads this
    {
      Queue(maxConcurrency, tasks, results, promotionsPaused, executed)
    }

    constructor (maxConcurrency: nat)
      ensures Now() == Queue(maxConcurrency, map[], map[], false, [])
    {
      this.maxConcurrency := maxConcurrency;
      tasks := map[];
      results := map[];
      promotionsPaused := false;
      executed := [];
    }

    method PausePromotions()
      modifies `promotionsPaused
      ensures promotionsPaused
    {
      promotionsPaused := true;
    }

    method CountTasksByStatus(agentId: string, status: Status) returns (count: nat)
      ensures count == |Ids(tasks, agentId, status)|
      ensures count == |set t | t in tasks && tasks[t].agentId == agentId && tasks[t].status == status|
    {
      count := |Ids(tasks, agentId, status)|;
    }

    method UpdateTaskStatus(taskId: string, status: Status)
      modifies `tasks
      ensures tasks == WithStatus(old(tasks), {taskId}, status) && MovesTasks(old(tasks), tasks, {taskId}, status)
    {
      tasks := WithStatus(tasks, {taskId}, status);
    }

    method TryTransitionTaskStatus(taskId: string, from: Status, to: Status) returns (changed: bool)
      modifies `tasks
      ensures changed <==> taskId in old(tasks) && old(tasks)[taskId].status == from
      ensures tasks == if changed then WithStatus(old(tasks), {taskId}, to) else old(tasks)
      ensures MovesTasks(old(tasks), tasks, if changed then {taskId} else {}, to)
    {
      changed := taskId in tasks && tasks[taskId].status == from;
      if changed {
        tasks := WithStatus(tasks, {taskId}, to);
      }
    }

    method TryAcquireSlot(agentId: string, taskId: string) returns (slot: Slot)
      modifies `tasks
      ensures slot == Answer(old(Now()), agentId, taskId) && Now() == Admitted(old(Now()), agentId, taskId)
      ensures slot == Acquired <==>
                && !promotionsPaused && taskId in old(tasks) && old(tasks)[taskId].status == Pending
                && |Ids(old(tasks), agentId, Running)| < maxConcurrency
      ensures slot == QueueFull <==>
                promotionsPaused || (slot != Acquired && |Ids(old(tasks), agentId, Queued)| >= 50)
      ensures MovesTasks(old(tasks), tasks, if slot == QueueFull then {} else {taskId}, if slot == Acquired then Running else Queued)
    {
      if promotionsPaused {
        return QueueFull;
      }
      var running := CountTasksByStatus(agentId, Running);
      if running < maxConcurrency {
        var won := TryTransitionTaskStatus(taskId, Pending, Running);
        if won {
          return Acquired;
        }
      }
      var queued := CountTasksByStatus(agentId, Queued);
      if queued >= EVALUATION_MAX_QUEUE_LENGTH {
        return QueueFull;
      }
      UpdateTaskStatus(taskId, Queued);
      return Parked;
    }

    /** One of the tasks that was created first. */
    method OldestOf(ids: set<string>) returns (oldest: string)
      requires ids != {} && forall t | t in ids :: t in tasks
      ensures oldest in ids && forall t | t in ids :: tasks[oldest].createdAt <= tasks[t].createdAt
    {
      oldest :| oldest in ids;
      var todo := ids - {oldest};
      while todo != {}
        invariant todo <= ids && oldest in ids
        invariant forall t | t in ids && t !in todo :: tasks[oldest].createdAt <= tasks[t].createdAt
        decreases |todo|
      {
        var t :| t in todo;
        if tasks[t].createdAt < tasks[oldest].createdAt {
          oldest := t;
        }
        todo := todo - {t};
      }
    }

    /** The queued rows of the agent ordered by creation time, cut off at the limit. */
    method SelectOldestQueued(agentId: string, limit: nat) returns (rows: seq<string>)
      ensures Oldest(tasks, agentId, limit, rows)
    {
      rows := [];
      var waiting := Ids(tasks, agentId, Queued);
      var todo := waiting;
      while |rows| < limit && todo != {}
        invariant |rows| <= limit && todo <= waiting && |rows| + |todo| == |waiting|
        invariant forall t | t in waiting :: t in rows <==> t !in todo
        invariant forall i | 0 <= i < |rows| :: rows[i] in waiting
        invariant forall i, t | 0 <= i < |rows| && t in todo :: tasks[rows[i]].createdAt <= tasks[t].createdAt
        invariant forall i, j | 0 <= i < j < |rows| ::
                    rows[i] != rows[j] && tasks[rows[i]].createdAt <= tasks[rows[j]].createdAt
        decreases |todo|
      {
        var t := OldestOf(todo);
        assert t !in rows;
        rows := rows + [t];
        todo := todo - {t};
      }
    }

    /** Claims every free slot of the agent for its oldest queued tasks. */
    method ClaimQueuedTasks(agentId: string) returns (claimed: seq<string>)
      modifies `tasks
      ensures Oldest(old(tasks), agentId, Free(old(Now()), agentId), claimed)
      ensures tasks == WithStatus(old(tasks), ToSet(claimed), Running)
      ensures MovesTasks(old(tasks), tasks, ToSet(claimed), Running)
    {
      claimed := [];
      var running := CountTasksByStatus(agentId, Running);
      assert WithStatus(tasks, {}, Running) == tasks && ToSet([]) == {};
      if maxConcurrency <= running {
        return;
      }
      var queued := SelectOldestQueued(agentId, maxConcurrency - running);
      for i := 0 to |queued|
        invariant claimed == queued[..i] && tasks == WithStatus(old(tasks), ToSet(claimed), Running)
      {
        assert queued[i] !in claimed && queued[i] in Ids(old(tasks), agentId, Queued);
        var won := TryTransitionTaskStatus(queued[i], Queued, Running);
        if won {
          ClaimOneMore(old(tasks), claimed, queued[i]);
          claimed := claimed + [queued[i]];
        }
      }
    }

    method ScheduleNext(agentId: string) returns (started: nat)
      modifies `tasks, `executed
      ensures old(promotionsPaused) ==> started == 0 && Now() == old(Now())
      ensures !old(promotionsPaused) ==>
                && |executed| == |old(executed)| + started && old(executed) <= executed
                && Oldest(old(tasks), agentId, Free(old(Now()), agentId), executed[|old(executed)|..])
                && Now() == Promoted(old(Now()), executed[|old(executed)|..])
    {
      if promotionsPaused {
        return 0;
      }
      var claimed := ClaimQueuedTasks(agentId);
      for i := 0 to |claimed|
        invariant executed == old(executed) + claimed[..i]
        invariant tasks == WithStatus(old(tasks), ToSet(claimed), Running)
      {
        executed := executed + [claimed[i]];
      }
      assert claimed[..|claimed|] == claimed && executed == old(executed) + claimed;
      assert executed[|old(executed)|..] == claimed;
      started := |claimed|;
    }

    method FailTask(taskId: string, reason: string)
      modifies `tasks, `results
      ensures Now() == FailAll(old(Now()), {taskId}, reason)
      ensures FailsTasks(old(tasks), tasks, {taskId}, reason)
      ensures SettlesResults(old(results), results, {taskId}, reason)
    {
      if taskId in tasks {
        tasks := tasks[taskId := tasks[taskId].(status := Failed, error := reason)];
      }
      results := map r | r in results ::
        if results[r].taskId == taskId && results[r].status in {Pending, Running}
        then results[r].(status := Failed, error := reason) else results[r];
    }

    /** Fails the tasks one after another; the stats counter grows with each. */
    method FailEach(ids: set<string>) returns (count: nat)
      modifies `tasks, `results
      ensures Now() == FailAll(old(Now()), ids, EVALUATION_RESTART_REASON) && count == |ids|
    {
      count := 0;
      var todo := ids;
      ghost var q := Now();
      FailNone(q);
      assert ids - todo == {};
      while todo != {}
        invariant todo <= ids && count == |ids - todo|
        invariant Now() == FailAll(q, ids - todo, EVALUATION_RESTART_REASON)
        decreases |todo|
      {
        var t :| t in todo;
        FailTask(t, EVALUATION_RESTART_REASON);
        FailTwice(q, ids - todo, {t});
        assert ids - (todo - {t}) == (ids - todo) + {t};
        todo := todo - {t};
        count := count + 1;
      }
      assert ids - todo == ids;
    }

    /** One agent's turn of the promotion. */
    method PromoteAgent(a: string, ghost q: Queue, ghost started: seq<string>, ghost todo: set<string>)
      returns (n: nat, ghost startedNow: seq<string>)
      requires SoFar(q, started, todo, Now()) && a in todo
      modifies `tasks, `executed
      ensures SoFar(q, startedNow, todo - {a}, Now()) && |startedNow| == |started| + n
    {
      ghost var before := executed;
      n := ScheduleNext(a);
      startedNow := started;
      if !q.paused {
        ghost var rows := executed[|before|..];
        PromotionTurn(q, started, todo, a, rows);
        startedNow := started + rows;
      }
    }

    /** Schedules every agent that has queued tasks, in any order of the agents. */
    method PromoteAll() returns (promoted: nat)
      modifies `tasks, `executed
      ensures old(promotionsPaused) ==> promoted == 0 && Now() == old(Now())
      ensures !old(promotionsPaused) ==>
                && |executed| == |old(executed)| + promoted && old(executed) <= executed
                && Now() == Promoted(old(Now()), executed[|old(executed)|..])
                && OldestEverywhere(old(Now()), executed[|old(executed)|..])
    {
      promoted := 0;
      ghost var q := Now();
      ghost var started: seq<string> := [];
      var agents := set t | t in tasks && tasks[t].status == Queued :: tasks[t].agentId;
      var todo := agents;
      NothingStartedYet(q);
      assert executed == q.executed + [];
      while todo != {}
        invariant todo <= agents && |started| == promoted
        invariant SoFar(q, started, todo, Now())
        decreases |todo|
      {
        var a :| a in todo;
        var n;
        n, started := PromoteAgent(a, q, started, todo);
        promoted := promoted + n;
        todo := todo - {a};
      }
      assert executed[|q.executed|..] == started;
      AllAgentsDone(q, started);
    }

    /** The loops over running and then pending tasks, with their counters. */
    method FailInFlight() returns (running: nat, pending: nat)
      modifies `tasks, `results
      ensures Now() == AfterFailing(old(Now()), true)
      ensures running == |WithState(old(tasks), Running)| && pending == |WithState(old(tasks), Pending)|
    {
      ghost var q := Now();
      var wasRunning := WithState(tasks, Running);
      running := FailEach(wasRunning);
      var wasPending := WithState(tasks, Pending);
      assert wasPending == WithState(q.tasks, Pending);
      pending := FailEach(wasPending);
      FailTwice(q, wasRunning, wasPending);
    }

    /**
     * Startup recovery.  Every task that was running or pending is failed with its
     * unsettled result rows; then, unless paused, each agent's oldest queued tasks fill
     * its slots, each handed to the runner once; and the stats count exactly that.
     */
    method RecoverOnStartup(recoverInFlight: bool) returns (stats: RecoveryStats)
      modifies `tasks, `results, `executed
      ensures recoverInFlight ==>
                && stats.runningAborted == |WithState(old(tasks), Running)|
                && stats.pendingAborted == |WithState(old(tasks), Pending)|
      ensures !recoverInFlight ==> stats.runningAborted == stats.pendingAborted == 0
      ensures old(executed) <= executed && |executed| == |old(executed)| + stats.queuedPromoted
      ensures promotionsPaused ==> stats.queuedPromoted == 0
      ensures !promotionsPaused ==> OldestEverywhere(AfterFailing(old(Now()), recoverInFlight), executed[|old(executed)|..])
      ensures Now() == Promoted(AfterFailing(old(Now()), recoverInFlight), executed[|old(executed)|..])
      ensures var ids := if recoverInFlight then InFlight(old(tasks)) else {};
        && Recovers(old(tasks), tasks, ids, ToSet(executed[|old(executed)|..]))
        && SettlesResults(old(results), results, ids, EVALUATION_RESTART_REASON)
    {
      ghost var before := Now();
      var running, pending := 0, 0;
      if recoverInFlight {
        running, pending := FailInFlight();
      }
      ghost var failed := Now();
      var promoted := PromoteAll();
      stats := RecoveryStats(running, pending, promoted);
      ghost var started := executed[|before.executed|..];
      PromotedNothing(failed);
      assert failed.paused ==> started == [];
      RecoveryIsExact(before, recoverInFlight, started);
    }
  }

  lemma ClaimOneMore(tasks: Tasks, claimed: seq<string>, t: string)
    ensures WithStatus(WithStatus(tasks, ToSet(claimed), Running), {t}, Running)
         == WithStatus(tasks, ToSet(claimed + [t]), Running)
  {
    assert ToSet(claimed + [t]) == ToSet(claimed) + {t};
  }

  function InFlight(tasks: Tasks): set<string> {
    set t | t in tasks && (tasks[t].status == Running || tasks[t].status == Pending)
  }

  /** Exactly the named tasks are failed, with the reason; nothing else about any task changes. */
  ghost predicate FailsTasks(before: Tasks, after: Tasks, ids: set<string>, reason: string) {
    && after.Keys == before.Keys
    && forall t | t in before ::
         if t in ids then
           && after[t].status == Failed && after[t].error == reason
           && after[t].agentId == before[t].agentId && after[t].createdAt == before[t].createdAt
         else after[t] == before[t]
  }

  /** Exactly the pending and running result rows of the named tasks are failed, with the reason; all others stay. */
  ghost predicate SettlesResults(
      before: map<string, ResultRow>, after: map<string, ResultRow>, ids: set<string>, reason: string)
  {
    && after.Keys == before.Keys
    && forall r | r in before ::
         if before[r].taskId in ids && (before[r].status == Pending || before[r].status == Running)
         then after[r] == ResultRow(before[r].taskId, Failed, reason)
         else after[r] == before[r]
  }

  lemma FailAllSettles(q: Queue, ids: set<string>, reason: string)
    ensures FailsTasks(q.tasks, FailAll(q, ids, reason).tasks, ids, reason)
    ensures SettlesResults(q.results, FailAll(q, ids, reason).results, ids, reason)
  {}

  /** Exactly the named tasks get the status; nothing else about any task changes. */
  ghost predicate MovesTasks(before: Tasks, after: Tasks, ids: set<string>, status: Status) {
    && after.Keys == before.Keys
    && forall t | t in before ::
         && after[t].agentId == before[t].agentId && after[t].createdAt == before[t].createdAt
         && after[t].error == before[t].error
         && after[t].status == if t in ids then status else before[t].status
  }

  /** The failed tasks say why, the started ones run, and all other tasks are as before. */
  ghost predicate Recovers(before: Tasks, after: Tasks, failed: set<string>, started: set<string>) {
    && after.Keys == before.Keys && failed !! started
    && forall t | t in before ::
         && after[t].agentId == before[t].agentId && after[t].createdAt == before[t].createdAt
         && after[t].status == (if t in failed then Failed else if t in started then Running else before[t].status)
         && after[t].error == (if t in failed then EVALUATION_RESTART_REASON else before[t].error)
         && (t in started ==> before[t].status == Queued)
  }

  lemma PromotedNothing(q: Queue)
    ensures Promoted(q, []) == q
  {
    NothingStartedYet(q);
  }

  lemma StartedWereQueued(q: Queue, started: seq<string>, t: string)
    requires OldestEverywhere(q, started) && t in started
    ensures t in q.tasks && q.tasks[t].status == Queued
  {
    var a := q.tasks[t].agentId;
    assert OldestFor(q, Of(q, started, a), a) && t in Of(q, started, a);
  }

  lemma RecoveryIsExact(q: Queue, recoverInFlight: bool, started: seq<string>)
    requires started == [] || OldestEverywhere(AfterFailing(q, recoverInFlight), started)
    ensures var r := Promoted(AfterFailing(q, recoverInFlight), started);
      var ids := if recoverInFlight then InFlight(q.tasks) else {};
      Recovers(q.tasks, r.tasks, ids, ToSet(started)) && SettlesResults(q.results, r.results, ids, EVALUATION_RESTART_REASON)
  {
    RecoverySettles(q, recoverInFlight);
    forall t | t in started {
      StartedWereQueued(AfterFailing(q, recoverInFlight), started, t);
    }
  }

  /** Recovery fails what was in flight and settles its unsettled result rows, and leaves every other task and row alone. */
  lemma RecoverySettles(q: Queue, recoverInFlight: bool)
    ensures var ids := if recoverInFlight then InFlight(q.tasks) else {};
      && FailsTasks(q.tasks, AfterFailing(q, recoverInFlight).tasks, ids, EVALUATION_RESTART_REASON)
      && SettlesResults(q.results, AfterFailing(q, recoverInFlight).results, ids, EVALUATION_RESTART_REASON)
  {
    if recoverInFlight {
      assert InFlight(q.tasks) == WithState(q.tasks, Running) + WithState(q.tasks, Pending);
      FailAllSettles(q, InFlight(q.tasks), EVALUATION_RESTART_REASON);
    }
  }

  function AfterFailing(q: Queue, recoverInFlight: bool): Queue {
    if recoverInFlight
    then FailAll(q, WithState(q.tasks, Running) + WithState(q.tasks, Pending), EVALUATION_RESTART_REASON)
    else q
  }

  lemma SlotsAreFree(q: Queue, a: string)
    ensures var r := AfterFailing(q, true);
      Ids(r.tasks, a, Queued) == Ids(q.tasks, a, Queued) && Free(r, a) == q.slots
  {
    var r := AfterFailing(q, true);
    assert Ids(r.tasks, a, Running) == {};
  }

  lemma ResultsAreSettled(q: Queue, id: string)
    requires id in q.results && AfterFailing(q, true).results[id].status in {Running, Pending}
    ensures AfterFailing(q, true).results[id] == q.results[id]
    ensures q.results[id].taskId in q.tasks ==> q.tasks[q.results[id].taskId].status !in {Running, Pending}
  {}

  /**
   * From any crash state: after failing, nothing is running or pending, no result row of
   * a task that was is unsettled, queued tasks are untouched, and all slots are free, so
   * that the promotions start min(slots, queued) tasks per agent.
   */
  lemma CrashStateIsSettled(q: Queue, a: string)
    ensures var r := AfterFailing(q, true);
      && WithState(r.tasks, Running) == {} && WithState(r.tasks, Pending) == {}
      && (forall t | t in q.tasks && q.tasks[t].status in {Running, Pending} ::
            r.tasks[t] == q.tasks[t].(status := Failed, error := EVALUATION_RESTART_REASON))
      && (forall t | t in q.tasks && q.tasks[t].status !in {Running, Pending} :: r.tasks[t] == q.tasks[t])
      && (forall id | id in r.results && r.results[id].status in {Running, Pending} ::
            && r.results[id] == q.results[id]
            && (r.results[id].taskId in q.tasks ==> q.tasks[r.results[id].taskId].status !in {Running, Pending}))
      && Ids(r.tasks, a, Queued) == Ids(q.tasks, a, Queued) && Free(r, a) == q.slots
    ensures FailsTasks(q.tasks, AfterFailing(q, true).tasks, InFlight(q.tasks), EVALUATION_RESTART_REASON)
    ensures SettlesResults(q.results, AfterFailing(q, true).results, InFlight(q.tasks), EVALUATION_RESTART_REASON)
  {
    RecoverySettles(q, true);
    SlotsAreFree(q, a);
    forall id | id in q.results && AfterFailing(q, true).results[id].status in {Running, Pending} {
      ResultsAreSettled(q, id);
    }
  }

  lemma FailNone(q: Queue)
    ensures FailAll(q, {}, EVALUATION_RESTART_REASON) == q
  {
    assert FailAll(q, {}, EVALUATION_RESTART_REASON).tasks == q.tasks;
    assert FailAll(q, {}, EVALUATION_RESTART_REASON).results == q.results;
  }

  lemma FailTwice(q: Queue, first: set<string>, second: set<string>)
    ensures FailAll(FailAll(q, first, EVALUATION_RESTART_REASON), second, EVALUATION_RESTART_REASON)
         == FailAll(q, first + second, EVALUATION_RESTART_REASON)
  {}

  /** The started tasks of one agent. */
  function Of(q: Queue, started: seq<string>, a: string): set<string> {
    set t | t in started && t in q.tasks && q.tasks[t].agentId == a
  }

  /** The started tasks are the agent's oldest queued ones, as many as there are free slots. */
  ghost predicate OldestFor(q: Queue, started: set<string>, a: string) {
    var waiting := Ids(q.tasks, a, Queued);
    && started <= waiting
    && |started| == (if Free(q, a) <= |waiting| then Free(q, a) else |waiting|)
    && forall t, u | t in started && u in waiting - started :: q.tasks[t].createdAt <= q.tasks[u].createdAt
  }

  /** Each task is started once, and for every agent it is the right ones. */
  ghost predicate OldestEverywhere(q: Queue, started: seq<string>) {
    Distinct(started) && (forall t | t in started :: t in q.tasks) && forall a :: OldestFor(q, Of(q, started, a), a)
  }

  /** The agents in `todo` have not had their turn. */
  ghost predicate OldestOutside(q: Queue, started: seq<string>, todo: set<string>) {
    && Distinct(started)
    && (forall t | t in started :: t in q.tasks && q.tasks[t].agentId !in todo)
    && forall a | a !in todo :: OldestFor(q, Of(q, started, a), a)
  }

  lemma NothingStartedYet(q: Queue)
    ensures OldestOutside(q, [], set t | t in q.tasks && q.tasks[t].status == Queued :: q.tasks[t].agentId)
    ensures Promoted(q, []) == q
  {
    var agents := set t | t in q.tasks && q.tasks[t].status == Queued :: q.tasks[t].agentId;
    assert forall t | t in q.tasks && q.tasks[t].status == Queued :: q.tasks[t].agentId in agents;
    forall a | a !in agents ensures OldestFor(q, Of(q, [], a), a) {
      assert Of(q, [], a) == {} && Ids(q.tasks, a, Queued) == {};
    }
    assert ToSet([]) == {} && q.executed + [] == q.executed;
  }

  /** What the promotion has come to before the turns of the agents in `todo`. */
  ghost predicate SoFar(q: Queue, started: seq<string>, todo: set<string>, now: Queue) {
    if q.paused then started == [] && now == q
    else now == Promoted(q, started) && OldestOutside(q, started, todo)
  }

  lemma AllAgentsDone(q: Queue, started: seq<string>)
    ensures OldestOutside(q, started, {}) ==> OldestEverywhere(q, started)
  {}

  /** Until its turn comes, an agent's rows are as they were. */
  lemma UntouchedAgent(q: Queue, started: seq<string>, todo: set<string>, a: string)
    requires OldestOutside(q, started, todo) && a in todo
    ensures var now := Promoted(q, started);
      Ids(now.tasks, a, Queued) == Ids(q.tasks, a, Queued) && Ids(now.tasks, a, Running) == Ids(q.tasks, a, Running)
  {}

  /** An agent's turn starts its oldest queued tasks, seen from before all turns. */
  lemma TurnStartsOldest(q: Queue, started: seq<string>, todo: set<string>, a: string, rows: seq<string>)
    requires OldestOutside(q, started, todo) && a in todo
    requires Oldest(Promoted(q, started).tasks, a, Free(Promoted(q, started), a), rows)
    ensures Distinct(rows) && ToSet(rows) <= Ids(q.tasks, a, Queued) && OldestFor(q, ToSet(rows), a)
  {
    UntouchedAgent(q, started, todo, a);
    SeqSetSize(rows);
    var now := Promoted(q, started).tasks;
    assert forall t | t in q.tasks :: now[t].createdAt == q.tasks[t].createdAt;
    forall t, u | t in ToSet(rows) && u in Ids(q.tasks, a, Queued) - ToSet(rows)
      ensures q.tasks[t].createdAt <= q.tasks[u].createdAt
    {
      var i :| 0 <= i < |rows| && rows[i] == t;
      assert u in Ids(now, a, Queued) && u !in rows;
      assert now[rows[i]].createdAt <= now[u].createdAt;
    }
  }

  lemma PromotedTwice(q: Queue, first: seq<string>, second: seq<string>)
    ensures Promoted(Promoted(q, first), second) == Promoted(q, first + second)
  {
    assert q.executed + first + second == q.executed + (first + second);
  }

  lemma PromotionTurn(q: Queue, started: seq<string>, todo: set<string>, a: string, rows: seq<string>)
    requires OldestOutside(q, started, todo) && a in todo
    requires Oldest(Promoted(q, started).tasks, a, Free(Promoted(q, started), a), rows)
    ensures OldestOutside(q, started + rows, todo - {a})
    ensures Promoted(Promoted(q, started), rows) == Promoted(q, started + rows)
  {
    TurnStartsOldest(q, started, todo, a, rows);
    assert forall i | 0 <= i < |rows| :: rows[i] in ToSet(rows) && ToSet(rows) <= Ids(q.tasks, a, Queued);
    TurnKeepsOthers(q, started, todo, a, rows);
    assert Of(q, started + rows, a) == ToSet(rows);
    forall b | b !in todo - {a} ensures OldestFor(q, Of(q, started + rows, b), b) {
      assert b != a ==> Of(q, started + rows, b) == Of(q, started, b);
    }
    PromotedTwice(q, started, rows);
  }

  lemma TurnKeepsOthers(q: Queue, started: seq<string>, todo: set<string>, a: string, rows: seq<string>)
    requires OldestOutside(q, started, todo) && a in todo && Distinct(rows)
    requires forall i | 0 <= i < |rows| :: rows[i] in q.tasks && q.tasks[rows[i]].agentId == a
    ensures Distinct(started + rows)
    ensures forall b | b != a :: Of(q, started + rows, b) == Of(q, started, b)
    ensures forall t | t in started + rows :: t in q.tasks && q.tasks[t].agentId !in todo - {a}
  {
    assert forall t | t in rows :: t in q.tasks && q.tasks[t].agentId == a;
  }
}
