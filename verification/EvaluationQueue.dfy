// The per-agent scheduler of evaluation tasks: admission, promotion, pausing and
// crash recovery over one table of tasks and one of result rows.

module EvaluationProtocol {
  import opened Common

  datatype Status = Pending | Queued | Running | Completed | Failed | Cancelled

  datatype Task = Task(agentId: string, status: Status, createdAt: int, error: string)

  datatype ResultRow = ResultRow(taskId: string, status: Status, error: string)

  type Tasks = map<string, Task>

  const EVALUATION_MAX_QUEUE_LENGTH: nat := 50
  const EVALUATION_RESTART_REASON: string := "Interrupted by a server restart"

  /** `executed` logs the tasks handed to the runner, in order. */
  datatype Queue = Queue(
    slots: nat,
    tasks: Tasks,
    results: map<string, ResultRow>,
    paused: bool,
    executed: seq<string>)

  function Ids(tasks: Tasks, agentId: string, status: Status): set<string> {
    set t | t in tasks && tasks[t].agentId == agentId && tasks[t].status == status
  }

  function WithStatus(tasks: Tasks, ids: set<string>, status: Status): Tasks {
    map t | t in tasks :: if t in ids then tasks[t].(status := status) else tasks[t]
  }

  function ToSet(s: seq<string>): set<string> {
    set t | t in s
  }

  datatype Slot = Acquired | Parked | QueueFull

  /** What admission answers, for a task in any state. */
  function Answer(q: Queue, agentId: string, taskId: string): Slot {
    if q.paused then QueueFull
    else if |Ids(q.tasks, agentId, Running)| < q.slots && taskId in q.tasks && q.tasks[taskId].status == Pending then Acquired
    else if |Ids(q.tasks, agentId, Queued)| >= EVALUATION_MAX_QUEUE_LENGTH then QueueFull
    else Parked
  }

  function Admitted(q: Queue, agentId: string, taskId: string): Queue {
    match Answer(q, agentId, taskId)
    case Acquired => q.(tasks := WithStatus(q.tasks, {taskId}, Running))
    case Parked => q.(tasks := WithStatus(q.tasks, {taskId}, Queued))
    case QueueFull => q
  }

  /**
   * Admission is meant for pending tasks.  A task in another state is changed by it
   * exactly when the queue has room: the fall-through parks it whatever it was, so a
   * task cancelled while it waited for admission comes back.
   */
  lemma AdmissionRevivesExactly(q: Queue, agentId: string, taskId: string)
    requires taskId in q.tasks && q.tasks[taskId].status != Pending && q.tasks[taskId].status != Queued
    ensures Admitted(q, agentId, taskId).tasks[taskId] != q.tasks[taskId] <==>
            !q.paused && |Ids(q.tasks, agentId, Queued)| < EVALUATION_MAX_QUEUE_LENGTH
    ensures Admitted(q, agentId, taskId).tasks[taskId] != q.tasks[taskId] ==>
            Admitted(q, agentId, taskId).tasks[taskId].status == Queued
  {}

  lemma CancelledTaskComesBack(q: Queue)
    requires q == Queue(1, map["t" := Task("a", Cancelled, 0, "")], map[], false, [])
    ensures Admitted(q, "a", "t").tasks["t"].status == Queued
  {
    assert Ids(q.tasks, "a", Queued) == {};
  }

  /** `rows` are the n oldest queued tasks of the agent, or all of them, oldest first. */
  ghost predicate Oldest(tasks: Tasks, agentId: string, n: nat, rows: seq<string>) {
    var waiting := Ids(tasks, agentId, Queued);
    && (forall i | 0 <= i < |rows| :: rows[i] in waiting)
    && (forall i, j | 0 <= i < j < |rows| :: rows[i] != rows[j] && tasks[rows[i]].createdAt <= tasks[rows[j]].createdAt)
    && (forall i, t | 0 <= i < |rows| && t in waiting && t !in rows :: tasks[rows[i]].createdAt <= tasks[t].createdAt)
    && |rows| == if n <= |waiting| then n else |waiting|
  }

  function Free(q: Queue, agentId: string): nat {
    var running := |Ids(q.tasks, agentId, Running)|;
    if running <= q.slots then q.slots - running else 0
  }

  function Promoted(q: Queue, rows: seq<string>): Queue {
    q.(tasks := WithStatus(q.tasks, ToSet(rows), Running), executed := q.executed + rows)
  }

  /** Marks the tasks failed and settles their unsettled result rows. */
  function FailAll(q: Queue, ids: set<string>, reason: string): Queue {
    q.(tasks := map t | t in q.tasks :: if t in ids then q.tasks[t].(status := Failed, error := reason) else q.tasks[t],
       results := map r | r in q.results ::
         if q.results[r].taskId in ids && q.results[r].status in {Pending, Running}
         then q.results[r].(status := Failed, error := reason) else q.results[r])
  }

  function WithState(tasks: Tasks, status: Status): set<string> {
    set t | t in tasks && tasks[t].status == status
  }

  // ----- The scheduler as a step system --------------------------------------------

  datatype Step =
    | Insert(taskId: string, agentId: string, now: int)
    | Admit(taskId: string)
    | Settle(taskId: string, status: Status)            // completed, failed or cancelled
    | Schedule(agentId: string, rows: seq<string>)
    | Pause

  /** `owed` are the agents for which a schedule call still has to be made. */
  datatype System = System(queue: Queue, owed: set<string>)

  ghost predicate Enabled(s: System, step: Step) {
    var q := s.queue;
    match step
    case Insert(t, _, _) => t !in q.tasks
    case Admit(t) => t in q.tasks && q.tasks[t].status == Pending
    case Settle(t, status) =>
      t in q.tasks && q.tasks[t].status in {Pending, Queued, Running} && status in {Completed, Failed, Cancelled}
    case Schedule(a, rows) => if q.paused then rows == [] else Oldest(q.tasks, a, Free(q, a), rows)
    case Pause => true
  }

  function Next(s: System, step: Step): System {
    var q := s.queue;
    match step
    case Insert(t, a, now) => s.(queue := q.(tasks := q.tasks[t := Task(a, Pending, now, "")]))
    case Admit(t) =>
      var a := if t in q.tasks then q.tasks[t].agentId else "";
      var admitted := Admitted(q, a, t);
      s.(queue := if Answer(q, a, t) == Acquired then admitted.(executed := q.executed + [t]) else admitted)
    case Settle(t, status) =>
      if t in q.tasks then System(q.(tasks := WithStatus(q.tasks, {t}, status)), s.owed + {q.tasks[t].agentId}) else s
    case Schedule(a, rows) => System(Promoted(q, rows), s.owed - {a})
    case Pause => s.(queue := q.(paused := true))
  }

  lemma {:induction false} SeqSetSize(s: seq<string>)
    requires Distinct(s)
    ensures |ToSet(s)| == |s|
  {
    if s != [] {
      var init := s[..|s| - 1];
      SeqSetSize(init);
      assert ToSet(s) == ToSet(init) + {s[|s| - 1]};
    }
  }

  predicate CountsFit(slots: nat, excused: bool, running: nat, waiting: nat) {
    running <= slots && waiting <= EVALUATION_MAX_QUEUE_LENGTH && (excused || waiting == 0 || running == slots)
  }

  /** The agent's slots and its queue are within bounds, and nothing waits beside a free slot for good. */
  ghost predicate AgentFits(s: System, a: string) {
    CountsFit(s.queue.slots, s.queue.paused || a in s.owed,
              |Ids(s.queue.tasks, a, Running)|, |Ids(s.queue.tasks, a, Queued)|)
  }

  /** How the ids of one agent in one status change when one task changes its status. */
  lemma IdsAfterOne(tasks: Tasks, t: string, status: Status, a: string, wanted: Status)
    requires t in tasks
    ensures Ids(WithStatus(tasks, {t}, status), a, wanted) ==
            if tasks[t].agentId != a then Ids(tasks, a, wanted)
            else if wanted == status then Ids(tasks, a, wanted) + {t}
            else Ids(tasks, a, wanted) - {t}
  {}

  /** Promoting queued tasks of one agent moves exactly them from the queue to the slots. */
  lemma IdsAfterPromotion(tasks: Tasks, b: string, rows: set<string>, a: string)
    requires rows <= Ids(tasks, b, Queued)
    ensures var after := WithStatus(tasks, rows, Running);
      && Ids(after, a, Running) == Ids(tasks, a, Running) + (if a == b then rows else {})
      && Ids(after, a, Queued) == Ids(tasks, a, Queued) - (if a == b then rows else {})
  {}

  lemma SizesOfMove(running: set<string>, waiting: set<string>, started: set<string>)
    requires started <= waiting && running !! waiting
    ensures |running + started| == |running| + |started|
    ensures |waiting - started| == |waiting| - |started|
  {
    assert waiting == (waiting - started) + started;
  }

  lemma SizesAfterPromotion(tasks: Tasks, a: string, n: nat, rows: seq<string>)
    requires Oldest(tasks, a, n, rows)
    ensures ToSet(rows) <= Ids(tasks, a, Queued)
    ensures |Ids(tasks, a, Running) + ToSet(rows)| == |Ids(tasks, a, Running)| + |rows|
    ensures |Ids(tasks, a, Queued) - ToSet(rows)| == |Ids(tasks, a, Queued)| - |rows|
  {
    SeqSetSize(rows);
    var running, waiting, started := Ids(tasks, a, Running), Ids(tasks, a, Queued), ToSet(rows);
    assert started <= waiting;
    SizesOfMove(running, waiting, started);
  }

  lemma CountsAfterPromotion(tasks: Tasks, a: string, n: nat, rows: seq<string>)
    requires Oldest(tasks, a, n, rows)
    ensures var after := WithStatus(tasks, ToSet(rows), Running);
      && |Ids(after, a, Running)| == |Ids(tasks, a, Running)| + |rows|
      && |Ids(after, a, Queued)| == |Ids(tasks, a, Queued)| - |rows|
  {
    SizesAfterPromotion(tasks, a, n, rows);
    IdsAfterPromotion(tasks, a, ToSet(rows), a);
  }

  lemma FitsAfterOwnSchedule(s: System, a: string, rows: seq<string>)
    requires AgentFits(s, a) && !s.queue.paused && Oldest(s.queue.tasks, a, Free(s.queue, a), rows)
    ensures AgentFits(Next(s, Schedule(a, rows)), a)
  {
    CountsAfterPromotion(s.queue.tasks, a, Free(s.queue, a), rows);
  }

  lemma FitsAfterOtherSchedule(s: System, b: string, rows: seq<string>, a: string)
    requires AgentFits(s, a) && a != b && ToSet(rows) <= Ids(s.queue.tasks, b, Queued)
    ensures AgentFits(Next(s, Schedule(b, rows)), a)
  {
    IdsAfterPromotion(s.queue.tasks, b, ToSet(rows), a);
  }

  lemma FitsAfterSchedule(s: System, b: string, rows: seq<string>, a: string)
    requires AgentFits(s, a) && Enabled(s, Schedule(b, rows))
    ensures AgentFits(Next(s, Schedule(b, rows)), a)
  {
    if s.queue.paused {
      assert Promoted(s.queue, rows).tasks == s.queue.tasks;
    } else if a == b {
      FitsAfterOwnSchedule(s, a, rows);
    } else {
      FitsAfterOtherSchedule(s, b, rows, a);
    }
  }

  lemma FitsAfterOne(s: System, t: string, status: Status, a: string)
    requires AgentFits(s, a) && t in s.queue.tasks
    requires status == Running ==> |Ids(s.queue.tasks, s.queue.tasks[t].agentId, Running)| < s.queue.slots
    requires status == Queued ==> |Ids(s.queue.tasks, s.queue.tasks[t].agentId, Queued)| < EVALUATION_MAX_QUEUE_LENGTH
    requires status in {Queued, Running} ==> s.queue.tasks[t].status == Pending
    requires status == Queued && !s.queue.paused ==> |Ids(s.queue.tasks, s.queue.tasks[t].agentId, Running)| == s.queue.slots
    ensures var after := WithStatus(s.queue.tasks, {t}, status);
      AgentFits(System(s.queue.(tasks := after),
                       if status in {Running, Queued} then s.owed else s.owed + {s.queue.tasks[t].agentId}), a)
  {
    IdsAfterOne(s.queue.tasks, t, status, a, Running);
    IdsAfterOne(s.queue.tasks, t, status, a, Queued);
  }

  lemma FitsStep(s: System, step: Step, a: string)
    requires forall b :: AgentFits(s, b)
    requires Enabled(s, step)
    ensures AgentFits(Next(s, step), a)
  {
    var q := s.queue;
    match step
    case Insert(t, b, now) =>
      var after := Next(s, step).queue.tasks;
      assert Ids(after, a, Running) == Ids(q.tasks, a, Running);
      assert Ids(after, a, Queued) == Ids(q.tasks, a, Queued);
    case Admit(t) =>
      var b := q.tasks[t].agentId;
      assert AgentFits(s, b);
      match Answer(q, b, t) {
        case Acquired => FitsAfterOne(s, t, Running, a);
        case Parked => FitsAfterOne(s, t, Queued, a);
        case QueueFull =>
      }
    case Settle(t, status) => FitsAfterOne(s, t, status, a);
    case Schedule(b, rows) => FitsAfterSchedule(s, b, rows, a);
    case Pause =>
  }

  ghost predicate IsRun(st: seq<System>, ev: seq<Step>) {
    && |st| == |ev| + 1
    && st[0].queue.tasks == map[] && st[0].queue.executed == [] && st[0].owed == {}
    && forall i | 0 <= i < |ev| :: Enabled(st[i], ev[i]) && st[i + 1] == Next(st[i], ev[i])
  }

  /**
   * In every run, for every agent: never more running tasks than slots, never more than
   * 50 queued, and while not paused tasks are queued beside a free slot only until the
   * schedule call that a terminal step owes.
   */
  lemma {:induction false} CapacityHolds(st: seq<System>, ev: seq<Step>, n: nat)
    requires IsRun(st, ev) && n <= |ev|
    ensures forall a :: AgentFits(st[n], a)
    ensures st[n].queue.slots == st[0].queue.slots
  {
    if n > 0 {
      CapacityHolds(st, ev, n - 1);
      forall a ensures AgentFits(st[n], a) {
        FitsStep(st[n - 1], ev[n - 1], a);
      }
    } else {
      assert forall a, status :: Ids(map[], a, status) == {};
    }
  }

  // ----- First in, first started -----------------------------------------------------

  predicate SameAgent(q: Queue, t: string, u: string) {
    t in q.tasks && u in q.tasks && q.tasks[t].agentId == q.tasks[u].agentId
  }

  /** Of two tasks of one agent the first is not the younger one. */
  predicate NotYounger(q: Queue, t: string, u: string) {
    SameAgent(q, t, u) ==> q.tasks[t].createdAt <= q.tasks[u].createdAt
  }

  predicate HasStarted(q: Queue, t: string) {
    t in q.tasks && q.tasks[t].status != Pending && q.tasks[t].status != Queued
  }

  /** Each start happened once, and starts happened in creation order. */
  ghost predicate LogInOrder(q: Queue) {
    forall i, j | 0 <= i < j < |q.executed| ::
      q.executed[i] != q.executed[j] && NotYounger(q, q.executed[i], q.executed[j])
  }

  /** What waits is no older than what started. */
  ghost predicate WaitersBehind(q: Queue) {
    forall i, t | 0 <= i < |q.executed| && t in q.tasks && q.tasks[t].status == Queued :: NotYounger(q, q.executed[i], t)
  }

  ghost predicate StartedInOrder(q: Queue) {
    && (forall i | 0 <= i < |q.executed| :: HasStarted(q, q.executed[i]))
    && LogInOrder(q) && WaitersBehind(q)
  }

  /** No task of q changed its agent or its age, and none that started waits again. */
  ghost predicate KeepsTasks(q: Queue, r: Queue) {
    && (forall t | t in q.tasks ::
          t in r.tasks && r.tasks[t].agentId == q.tasks[t].agentId && r.tasks[t].createdAt == q.tasks[t].createdAt)
    && (forall t | HasStarted(q, t) :: HasStarted(r, t))
  }

  lemma OrderCarriesOver(q: Queue, r: Queue)
    requires StartedInOrder(q) && KeepsTasks(q, r) && r.executed == q.executed
    requires forall t | t in r.tasks && r.tasks[t].status == Queued :: t in q.tasks && q.tasks[t].status == Queued
    ensures StartedInOrder(r)
  {
    forall i, j | 0 <= i < j < |r.executed| ensures r.executed[i] != r.executed[j] && NotYounger(r, r.executed[i], r.executed[j]) {
      assert HasStarted(q, q.executed[i]) && HasStarted(q, q.executed[j]) && NotYounger(q, q.executed[i], q.executed[j]);
    }
    forall i, t | 0 <= i < |r.executed| && t in r.tasks && r.tasks[t].status == Queued ensures NotYounger(r, r.executed[i], t) {
      assert HasStarted(q, q.executed[i]) && NotYounger(q, q.executed[i], t);
    }
  }

  /** No task of its agent that has started is younger than t. */
  ghost predicate BehindStarted(q: Queue, t: string) {
    forall i | 0 <= i < |q.executed| :: NotYounger(q, q.executed[i], t)
  }

  /** No task of its agent that waits is older than t. */
  ghost predicate AheadOfWaiters(q: Queue, t: string)
    requires t in q.tasks
  {
    forall u | u in Ids(q.tasks, q.tasks[t].agentId, Queued) :: q.tasks[t].createdAt <= q.tasks[u].createdAt
  }

  /** What admission does with t leaves it in its place: it starts or waits behind what started, and starts ahead of what waits. */
  ghost predicate AdmissionFits(q: Queue, t: string)
    requires t in q.tasks
  {
    match Answer(q, q.tasks[t].agentId, t)
    case Acquired => BehindStarted(q, t) && AheadOfWaiters(q, t)
    case Parked => BehindStarted(q, t)
    case QueueFull => true
  }

  lemma OrderAfterStart(q: Queue, t: string)
    requires StartedInOrder(q) && t in q.tasks && q.tasks[t].status == Pending
    requires BehindStarted(q, t) && AheadOfWaiters(q, t)
    ensures StartedInOrder(q.(tasks := WithStatus(q.tasks, {t}, Running), executed := q.executed + [t]))
  {
    var r := q.(tasks := WithStatus(q.tasks, {t}, Running));
    OrderCarriesOver(q, r);
    var n := |q.executed|;
    var after := r.(executed := q.executed + [t]);
    assert HasStarted(after, t);
    forall i | 0 <= i < n ensures q.executed[i] != t && NotYounger(after, q.executed[i], t) {
      assert HasStarted(q, q.executed[i]) && NotYounger(q, q.executed[i], t);
    }
    forall i, j | 0 <= i < j < |after.executed|
      ensures after.executed[i] != after.executed[j] && NotYounger(after, after.executed[i], after.executed[j])
    {
      assert j < n ==> NotYounger(r, r.executed[i], r.executed[j]);
    }
    forall i, u | 0 <= i < |after.executed| && u in after.tasks && after.tasks[u].status == Queued
      ensures NotYounger(after, after.executed[i], u)
    {
      if i == n {
        assert SameAgent(q, t, u) ==> u in Ids(q.tasks, q.tasks[t].agentId, Queued);
      } else {
        assert NotYounger(r, r.executed[i], u);
      }
    }
  }

  lemma OrderAfterParking(q: Queue, t: string)
    requires StartedInOrder(q) && t in q.tasks && q.tasks[t].status == Pending && BehindStarted(q, t)
    ensures StartedInOrder(q.(tasks := WithStatus(q.tasks, {t}, Queued)))
  {
    var r := q.(tasks := WithStatus(q.tasks, {t}, Queued));
    forall i | 0 <= i < |q.executed| ensures HasStarted(r, q.executed[i]) {
      assert HasStarted(q, q.executed[i]);
    }
    forall i, u | 0 <= i < |q.executed| && u in r.tasks && r.tasks[u].status == Queued ensures NotYounger(r, q.executed[i], u) {
      assert HasStarted(q, q.executed[i]);
      assert NotYounger(q, q.executed[i], u);
    }
    forall i, j | 0 <= i < j < |q.executed| ensures NotYounger(r, q.executed[i], q.executed[j]) {
      assert HasStarted(q, q.executed[i]) && HasStarted(q, q.executed[j]) && NotYounger(q, q.executed[i], q.executed[j]);
    }
  }

  /** After an admission the log and the waiters say what BehindStarted and AheadOfWaiters say before it. */
  lemma OrderTellsBehind(q: Queue, t: string, status: Status, log: seq<string>)
    requires t in q.tasks && q.executed <= log
    requires status == Queued || (|log| == |q.executed| + 1 && log[|q.executed|] == t)
    requires StartedInOrder(q.(tasks := WithStatus(q.tasks, {t}, status), executed := log))
    ensures BehindStarted(q, t)
  {
    var after := q.(tasks := WithStatus(q.tasks, {t}, status), executed := log);
    forall i | 0 <= i < |q.executed| ensures NotYounger(q, q.executed[i], t) {
      assert log[i] == q.executed[i] && NotYounger(after, after.executed[i], t);
    }
  }

  lemma OrderTellsAhead(q: Queue, t: string)
    requires t in q.tasks && q.tasks[t].status == Pending
    requires StartedInOrder(q.(tasks := WithStatus(q.tasks, {t}, Running), executed := q.executed + [t]))
    ensures AheadOfWaiters(q, t)
  {
    var after := q.(tasks := WithStatus(q.tasks, {t}, Running), executed := q.executed + [t]);
    forall u | u in Ids(q.tasks, q.tasks[t].agentId, Queued) ensures q.tasks[t].createdAt <= q.tasks[u].createdAt {
      assert after.executed[|q.executed|] == t && NotYounger(after, t, u);
    }
  }

  /** An admission keeps the order exactly when it fits, whatever the order of creation and admission. */
  lemma AdmissionBreaksOrderExactly(s: System, t: string)
    requires StartedInOrder(s.queue) && Enabled(s, Admit(t))
    ensures StartedInOrder(Next(s, Admit(t)).queue) <==> AdmissionFits(s.queue, t)
  {
    var q := s.queue;
    match Answer(q, q.tasks[t].agentId, t) {
      case Acquired =>
        if AdmissionFits(q, t) {
          OrderAfterStart(q, t);
        } else if StartedInOrder(Next(s, Admit(t)).queue) {
          OrderTellsBehind(q, t, Running, q.executed + [t]);
          OrderTellsAhead(q, t);
        }
      case Parked =>
        if AdmissionFits(q, t) {
          OrderAfterParking(q, t);
        } else if StartedInOrder(Next(s, Admit(t)).queue) {
          OrderTellsBehind(q, t, Queued, q.executed);
        }
      case QueueFull =>
    }
  }

  /** Tasks of an agent are admitted in creation order. */
  ghost predicate AdmitsInOrder(q: Queue, t: string) {
    forall u | SameAgent(q, t, u) && u != t && q.tasks[u].status != Pending :: q.tasks[u].createdAt < q.tasks[t].createdAt
  }

  /** The admission takes a slot while others wait: it lands between a terminal step and its schedule call. */
  predicate Overtakes(q: Queue, t: string) {
    t in q.tasks && Ids(q.tasks, q.tasks[t].agentId, Queued) != {} &&
    Answer(q, q.tasks[t].agentId, t) == Acquired
  }

  /** An admission that is in creation order fits exactly when it does not overtake. */
  lemma InOrderMisfitsOvertake(q: Queue, t: string)
    requires StartedInOrder(q) && t in q.tasks && q.tasks[t].status == Pending && AdmitsInOrder(q, t)
    ensures AdmissionFits(q, t) <==> !Overtakes(q, t)
  {
    forall i | 0 <= i < |q.executed| ensures NotYounger(q, q.executed[i], t) {
      assert HasStarted(q, q.executed[i]);
    }
    if y :| y in Ids(q.tasks, q.tasks[t].agentId, Queued) {
      assert SameAgent(q, t, y);
    }
  }

  /** Whether it started before or is promoted now, a task has started after the promotion. */
  lemma StartedByPromotion(q: Queue, a: string, n: nat, rows: seq<string>)
    requires StartedInOrder(q) && Oldest(q.tasks, a, n, rows)
    ensures var r := Promoted(q, rows);
      KeepsTasks(q, r) && forall i | 0 <= i < |r.executed| :: HasStarted(r, r.executed[i])
  {
    var r := Promoted(q, rows);
    forall i | 0 <= i < |r.executed| ensures HasStarted(r, r.executed[i]) {
      if i < |q.executed| {
        assert HasStarted(q, q.executed[i]);
      } else {
        assert r.executed[i] == rows[i - |q.executed|];
      }
    }
  }

  lemma LogAfterPromotion(q: Queue, a: string, n: nat, rows: seq<string>)
    requires StartedInOrder(q) && Oldest(q.tasks, a, n, rows)
    ensures LogInOrder(Promoted(q, rows))
  {
    var r, m := Promoted(q, rows), |q.executed|;
    forall i, j | 0 <= i < j < |r.executed|
      ensures r.executed[i] != r.executed[j] && NotYounger(r, r.executed[i], r.executed[j])
    {
      assert i < m ==> HasStarted(q, q.executed[i]);
      assert j < m ==> HasStarted(q, q.executed[j]) && NotYounger(q, q.executed[i], q.executed[j]);
      assert j >= m ==> r.executed[j] == rows[j - m] && rows[j - m] in Ids(q.tasks, a, Queued);
      assert i >= m ==> r.executed[i] == rows[i - m];
      assert i < m <= j ==> NotYounger(q, q.executed[i], rows[j - m]);
    }
  }

  lemma WaitersAfterPromotion(q: Queue, a: string, n: nat, rows: seq<string>)
    requires StartedInOrder(q) && Oldest(q.tasks, a, n, rows)
    ensures WaitersBehind(Promoted(q, rows))
  {
    var r, m := Promoted(q, rows), |q.executed|;
    forall i, t | 0 <= i < |r.executed| && t in r.tasks && r.tasks[t].status == Queued
      ensures NotYounger(r, r.executed[i], t)
    {
      assert t !in rows && q.tasks[t].status == Queued;
      if i < m {
        assert HasStarted(q, q.executed[i]) && NotYounger(q, q.executed[i], t);
      } else {
        assert r.executed[i] == rows[i - m] && rows[i - m] in Ids(q.tasks, a, Queued);
        assert q.tasks[t].agentId == a ==> t in Ids(q.tasks, a, Queued);
      }
    }
  }

  lemma OrderAfterSchedule(s: System, a: string, rows: seq<string>)
    requires StartedInOrder(s.queue) && Enabled(s, Schedule(a, rows))
    ensures StartedInOrder(Next(s, Schedule(a, rows)).queue)
  {
    var q := s.queue;
    if q.paused {
      OrderCarriesOver(q, Promoted(q, rows));
    } else {
      StartedByPromotion(q, a, Free(q, a), rows);
      LogAfterPromotion(q, a, Free(q, a), rows);
      WaitersAfterPromotion(q, a, Free(q, a), rows);
    }
  }

  /** Admissions that do not fit are the only steps that break the order. */
  ghost predicate StepFits(s: System, step: Step)
    requires Enabled(s, step)
  {
    step.Admit? ==> AdmissionFits(s.queue, step.taskId)
  }

  lemma OrderStep(s: System, step: Step)
    requires StartedInOrder(s.queue) && Enabled(s, step)
    ensures StartedInOrder(Next(s, step).queue) <==> StepFits(s, step)
  {
    match step
    case Admit(t) => AdmissionBreaksOrderExactly(s, t);
    case Schedule(a, rows) => OrderAfterSchedule(s, a, rows);
    case _ => OrderCarriesOver(s.queue, Next(s, step).queue);
  }

  ghost predicate InOrderUpTo(st: seq<System>, n: nat)
    requires n < |st|
  {
    forall k: nat | k <= n :: StartedInOrder(st[k].queue)
  }

  ghost predicate StepsFit(st: seq<System>, ev: seq<Step>, n: nat)
    requires IsRun(st, ev) && n <= |ev|
  {
    forall i: nat | i < n :: StepFits(st[i], ev[i])
  }

  lemma InOrderOneMore(st: seq<System>, ev: seq<Step>, n: nat)
    requires IsRun(st, ev) && 0 < n <= |ev| && InOrderUpTo(st, n - 1)
    ensures InOrderUpTo(st, n) <==> StartedInOrder(st[n].queue)
    ensures StepsFit(st, ev, n) <==> StepsFit(st, ev, n - 1) && StepFits(st[n - 1], ev[n - 1])
  {}

  /**
   * In every run: at every point each task was started at most once, the tasks of one
   * agent in creation order, and none that waits is older than one that started, if and
   * only if every admission so far fitted.
   */
  lemma {:induction false} StartsAreFifo(st: seq<System>, ev: seq<Step>, n: nat)
    requires IsRun(st, ev) && n <= |ev|
    ensures InOrderUpTo(st, n) <==> StepsFit(st, ev, n)
  {
    if n > 0 {
      StartsAreFifo(st, ev, n - 1);
      if InOrderUpTo(st, n - 1) {
        OrderStep(st[n - 1], ev[n - 1]);
        InOrderOneMore(st, ev, n);
      }
    }
  }

  function Example(x: Status, y: Status, tasks: Tasks, executed: seq<string>): Queue {
    Queue(1, map["x" := Task("a", x, 1, ""), "y" := Task("a", y, 2, "")] + tasks, map[], false, executed)
  }

  function Alone(status: Status, executed: seq<string>): Queue {
    Queue(1, map["x" := Task("a", status, 1, "")], map[], false, executed)
  }

  const START: System := System(Queue(1, map[], map[], false, []), {})

  ghost predicate Takes(s: System, step: Step, t: System) {
    Enabled(s, step) && t == Next(s, step)
  }

  lemma Extend(st: seq<System>, ev: seq<Step>, step: Step, t: System) returns (st': seq<System>, ev': seq<Step>)
    requires IsRun(st, ev) && Takes(Last(st), step, t)
    ensures st' == st + [t] && ev' == ev + [step] && IsRun(st', ev')
  {
    st', ev' := st + [t], ev + [step];
  }

  lemma FirstIsInserted()
    ensures Takes(START, Insert("x", "a", 1), System(Alone(Pending, []), {}))
  {
    assert START.queue.tasks["x" := Task("a", Pending, 1, "")] == Alone(Pending, []).tasks;
  }

  lemma FirstIsAcquired()
    ensures Takes(System(Alone(Pending, []), {}), Admit("x"), System(Alone(Running, ["x"]), {}))
  {
    var q := Alone(Pending, []);
    assert Ids(q.tasks, "a", Running) == {};
    assert WithStatus(q.tasks, {"x"}, Running) == Alone(Running, []).tasks;
  }

  lemma SecondIsInserted(status: Status, executed: seq<string>)
    ensures Takes(System(Alone(status, executed), {}), Insert("y", "a", 2),
                  System(Example(status, Pending, map[], executed), {}))
  {
    var q := Alone(status, executed);
    assert q.tasks["y" := Task("a", Pending, 2, "")] == Example(status, Pending, map[], executed).tasks;
  }

  lemma SecondHasToWait()
    ensures Takes(System(Example(Running, Pending, map[], ["x"]), {}), Admit("y"),
                  System(Example(Running, Queued, map[], ["x"]), {}))
  {
    var q := Example(Running, Pending, map[], ["x"]);
    assert Ids(q.tasks, "a", Running) == {"x"} && Ids(q.tasks, "a", Queued) == {};
    assert WithStatus(q.tasks, {"y"}, Queued) == Example(Running, Queued, map[], ["x"]).tasks;
  }

  /** One slot: x runs and y is parked. */
  lemma SecondIsParked() returns (st: seq<System>, ev: seq<Step>)
    ensures ev == [Insert("x", "a", 1)] + [Admit("x")] + [Insert("y", "a", 2)] + [Admit("y")]
    ensures IsRun(st, ev) && st[4] == System(Example(Running, Queued, map[], ["x"]), {})
  {
    FirstIsInserted();
    st, ev := Extend([START], [], Insert("x", "a", 1), System(Alone(Pending, []), {}));
    FirstIsAcquired();
    st, ev := Extend(st, ev, Admit("x"), System(Alone(Running, ["x"]), {}));
    SecondIsInserted(Running, ["x"]);
    st, ev := Extend(st, ev, Insert("y", "a", 2), System(Example(Running, Pending, map[], ["x"]), {}));
    SecondHasToWait();
    st, ev := Extend(st, ev, Admit("y"), System(Example(Running, Queued, map[], ["x"]), {}));
  }

  lemma YoungerIsAcquired()
    ensures Takes(System(Example(Pending, Pending, map[], []), {}), Admit("y"),
                  System(Example(Pending, Running, map[], ["y"]), {}))
    ensures !Overtakes(Example(Pending, Pending, map[], []), "y")
  {
    var q := Example(Pending, Pending, map[], []);
    assert Ids(q.tasks, "a", Running) == {} && Ids(q.tasks, "a", Queued) == {};
    assert WithStatus(q.tasks, {"y"}, Running) == Example(Pending, Running, map[], []).tasks;
  }

  lemma OlderHasToWait()
    ensures Takes(System(Example(Pending, Running, map[], ["y"]), {}), Admit("x"),
                  System(Example(Queued, Running, map[], ["y"]), {}))
    ensures !Overtakes(Example(Pending, Running, map[], ["y"]), "x")
  {
    var q := Example(Pending, Running, map[], ["y"]);
    assert Ids(q.tasks, "a", Running) == {"y"} && Ids(q.tasks, "a", Queued) == {};
    assert WithStatus(q.tasks, {"x"}, Queued) == Example(Queued, Running, map[], []).tasks;
  }

  lemma YoungerCompletes()
    ensures Takes(System(Example(Queued, Running, map[], ["y"]), {}), Settle("y", Completed),
                  System(Example(Queued, Completed, map[], ["y"]), {"a"}))
  {
    var q := Example(Queued, Running, map[], ["y"]);
    assert WithStatus(q.tasks, {"y"}, Completed) == Example(Queued, Completed, map[], []).tasks;
  }

  lemma OnlyOlderWaits()
    ensures var q := Example(Queued, Completed, map[], ["y"]);
      Free(q, "a") == 1 && Oldest(q.tasks, "a", 1, ["x"])
  {
    var q := Example(Queued, Completed, map[], ["y"]);
    assert Ids(q.tasks, "a", Running) == {} && Ids(q.tasks, "a", Queued) == {"x"};
  }

  lemma OlderIsPromoted()
    ensures Takes(System(Example(Queued, Completed, map[], ["y"]), {"a"}), Schedule("a", ["x"]),
                  System(Example(Running, Completed, map[], ["y", "x"]), {}))
  {
    var q := Example(Queued, Completed, map[], ["y"]);
    OnlyOlderWaits();
    assert ToSet(["x"]) == {"x"} && ["y"] + ["x"] == ["y", "x"];
    assert WithStatus(q.tasks, {"x"}, Running) == Example(Running, Completed, map[], []).tasks;
  }

  /** One slot: y runs and the older x, admitted after it, is parked. */
  lemma OlderIsParked() returns (st: seq<System>, ev: seq<Step>)
    ensures ev == [Insert("x", "a", 1)] + [Insert("y", "a", 2)] + [Admit("y")] + [Admit("x")]
    ensures IsRun(st, ev) && !Overtakes(st[2].queue, "y") && !Overtakes(st[3].queue, "x")
    ensures st[4] == System(Example(Queued, Running, map[], ["y"]), {})
  {
    FirstIsInserted();
    st, ev := Extend([START], [], Insert("x", "a", 1), System(Alone(Pending, []), {}));
    SecondIsInserted(Pending, []);
    st, ev := Extend(st, ev, Insert("y", "a", 2), System(Example(Pending, Pending, map[], []), {}));
    YoungerIsAcquired();
    st, ev := Extend(st, ev, Admit("y"), System(Example(Pending, Running, map[], ["y"]), {}));
    OlderHasToWait();
    st, ev := Extend(st, ev, Admit("x"), System(Example(Queued, Running, map[], ["y"]), {}));
  }

  /** Nothing overtakes, but y is admitted before the older x: y starts first, x after it. */
  lemma AdmittedOutOfOrder() returns (st: seq<System>, ev: seq<Step>)
    ensures ev == [Insert("x", "a", 1)] + [Insert("y", "a", 2)] + [Admit("y")] + [Admit("x")]
                  + [Settle("y", Completed)] + [Schedule("a", ["x"])]
    ensures IsRun(st, ev) && !Overtakes(st[2].queue, "y") && !Overtakes(st[3].queue, "x")
    ensures st[6] == System(Example(Running, Completed, map[], ["y", "x"]), {})
  {
    st, ev := OlderIsParked();
    YoungerCompletes();
    st, ev := Extend(st, ev, Settle("y", Completed), System(Example(Queued, Completed, map[], ["y"]), {"a"}));
    OlderIsPromoted();
    st, ev := Extend(st, ev, Schedule("a", ["x"]), System(Example(Running, Completed, map[], ["y", "x"]), {}));
  }

  /**
   * A newcomer that slips in takes the freed slot before the task that waits for it:
   * z, created last, is started while y is still queued.
   */
  lemma NewcomerOvertakes(s4: System) returns (s5: System, s6: System, s7: System)
    requires s4 == System(Example(Running, Queued, map[], ["x"]), {})
    ensures Enabled(s4, Settle("x", Completed)) && s5 == Next(s4, Settle("x", Completed))
    ensures Enabled(s5, Insert("z", "a", 3)) && s6 == Next(s5, Insert("z", "a", 3))
    ensures Enabled(s6, Admit("z")) && s7 == Next(s6, Admit("z"))
    ensures s7.queue == Example(Completed, Queued, map["z" := Task("a", Running, 3, "")], ["x", "z"])
  {
    s5 := Next(s4, Settle("x", Completed));
    assert s5.queue.tasks == Example(Completed, Queued, map[], ["x"]).tasks;
    s6 := Next(s5, Insert("z", "a", 3));
    assert Ids(s6.queue.tasks, "a", Running) == {};
    s7 := Next(s6, Admit("z"));
  }
}
