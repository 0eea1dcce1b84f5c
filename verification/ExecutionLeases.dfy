// The registry of execution leases: one live lease per run id, the tasks bound to it,
// and the durable release that outlives it.

module LeaseProtocol {
  import opened Common

  datatype Entry = Entry(
    runId: string,
    taskIds: set<string>,
    agentId: Option<string>,
    aborted: bool,
    finished: bool,
    resolutions: nat)      // how often the completion promise was resolved

  /** Entries are numbered in the order of their creation; a handle is such a number. */
  datatype Registry = Registry(
    entries: seq<Entry>,
    byRun: map<string, nat>,
    byTask: map<string, nat>,
    hasHandler: bool,
    releases: seq<nat>,      // durable releases started so far
    pending: set<nat>,       // those that have not settled
    settling: set<string>)   // what the registry remembers of them

  datatype Step =
    | Reserve(runId: string, agentId: Option<string>)
    | Bind(runId: string, taskId: string, agentId: Option<string>)
    | Abort(runId: string)
    | Finish(handle: nat)
    | Complete(runId: string)
    | ReleaseSettles(handle: nat)
    | SetHandler(present: bool)

  const EMPTY: Registry := Registry([], map[], map[], false, [], {}, {})

  predicate Enabled(s: Registry, step: Step) {
    match step
    case Finish(e) => e < |s.entries|
    case ReleaseSettles(e) => e in s.pending
    case _ => true
  }

  /** The lease that serves the run id: the live one, or the next to be created. */
  function LeaseFor(s: Registry, runId: string): nat {
    if runId in s.byRun then s.byRun[runId] else |s.entries|
  }

  /** The registry once that lease exists. */
  function WithLease(s: Registry, runId: string, agentId: Option<string>): Registry {
    var e := LeaseFor(s, runId);
    if runId !in s.byRun then
      s.(entries := s.entries + [Entry(runId, {}, agentId, false, false, 0)], byRun := s.byRun[runId := e])
    else if e < |s.entries| && s.entries[e].agentId.None? then
      s.(entries := s.entries[e := s.entries[e].(agentId := agentId)])
    else s
  }

  predicate Refuses(s: Registry, e: nat, taskId: string) {
    taskId in s.byTask && s.byTask[taskId] != e
  }

  function WithTask(s: Registry, e: nat, taskId: string): Registry
    requires e < |s.entries|
  {
    s.(entries := s.entries[e := s.entries[e].(taskIds := s.entries[e].taskIds + {taskId})],
       byTask := s.byTask[taskId := e])
  }

  /** A task that belongs to another live lease is refused, after the run's lease was made. */
  function Bound(s: Registry, runId: string, taskId: string, agentId: Option<string>): Registry {
    var t := WithLease(s, runId, agentId);
    var e := LeaseFor(s, runId);
    if e < |t.entries| && !Refuses(t, e, taskId) then WithTask(t, e, taskId) else t
  }

  function WithoutTasks(byTask: map<string, nat>, tasks: set<string>, e: nat): map<string, nat> {
    map t | t in byTask && !(t in tasks && byTask[t] == e) :: byTask[t]
  }

  function Finished(s: Registry, e: nat): Registry
    requires e < |s.entries|
  {
    var entry := s.entries[e];
    if entry.finished then s
    else
      var t := s.(
        entries := s.entries[e := entry.(finished := true, resolutions := entry.resolutions + 1)],
        byRun := if entry.runId in s.byRun && s.byRun[entry.runId] == e then s.byRun - {entry.runId} else s.byRun,
        byTask := WithoutTasks(s.byTask, entry.taskIds, e));
      if s.hasHandler then
        t.(releases := s.releases + [e], pending := s.pending + {e}, settling := s.settling + {entry.runId})
      else t
  }

  function Next(s: Registry, step: Step): Registry
    requires Enabled(s, step)
  {
    match step
    case Reserve(runId, agentId) => WithLease(s, runId, agentId)
    case Bind(runId, taskId, agentId) => Bound(s, runId, taskId, agentId)
    case Abort(runId) =>
      if runId in s.byRun && s.byRun[runId] < |s.entries| then
        var e := s.byRun[runId];
        s.(entries := s.entries[e := s.entries[e].(aborted := true)])
      else s
    case Finish(e) => Finished(s, e)
    case Complete(runId) =>
      if runId in s.byRun && s.byRun[runId] < |s.entries| then Finished(s, s.byRun[runId]) else s
    case ReleaseSettles(e) =>
      var t := s.(pending := s.pending - {e});
      if e < |s.entries| then t.(settling := s.settling - {s.entries[e].runId}) else t
    case SetHandler(present) => s.(hasHandler := present)
  }

  predicate Live(s: Registry, e: nat) {
    e < |s.entries| && !s.entries[e].finished
  }

  /** Both maps say exactly which leases are live, under which run id, with which tasks. */
  ghost predicate MapsAgree(s: Registry) {
    && (forall r | r in s.byRun :: Live(s, s.byRun[r]) && s.entries[s.byRun[r]].runId == r)
    && (forall t | t in s.byTask :: Live(s, s.byTask[t]) && t in s.entries[s.byTask[t]].taskIds)
    && (forall e | 0 <= e < |s.entries| && !s.entries[e].finished ::
          && s.entries[e].runId in s.byRun && s.byRun[s.entries[e].runId] == e
          && forall t | t in s.entries[e].taskIds :: t in s.byTask && s.byTask[t] == e)
  }

  function Count(s: seq<nat>, e: nat): nat {
    multiset(s)[e]
  }

  ghost predicate LedgerAgrees(s: Registry) {
    && (forall e | 0 <= e < |s.entries| ::
          && s.entries[e].resolutions == (if s.entries[e].finished then 1 else 0)
          && Count(s.releases, e) <= s.entries[e].resolutions)
    && (forall e | e in s.releases :: e < |s.entries|)
    && (forall e | e in s.pending :: e in s.releases)
  }

  ghost predicate Invariant(s: Registry) {
    MapsAgree(s) && LedgerAgrees(s)
  }

  /** t differs from s at most in agent ids, abort flags and the handler. */
  ghost predicate SameShape(s: Registry, t: Registry) {
    && t.byRun == s.byRun && t.byTask == s.byTask && t.releases == s.releases
    && t.pending <= s.pending && |t.entries| == |s.entries|
    && forall e | 0 <= e < |s.entries| ::
         t.entries[e].(agentId := None, aborted := false) == s.entries[e].(agentId := None, aborted := false)
  }

  lemma SameShapeKeeps(s: Registry, t: Registry)
    requires Invariant(s) && SameShape(s, t)
    ensures Invariant(t)
  {
    assert forall e | 0 <= e < |s.entries| ::
        t.entries[e].runId == s.entries[e].runId && t.entries[e].taskIds == s.entries[e].taskIds &&
        t.entries[e].finished == s.entries[e].finished && t.entries[e].resolutions == s.entries[e].resolutions;
  }

  lemma NewLeaseKeeps(s: Registry, r: string, a: Option<string>)
    requires Invariant(s) && r !in s.byRun
    ensures Invariant(WithLease(s, r, a))
  {
    var t := WithLease(s, r, a);
    assert forall e | 0 <= e < |s.entries| :: t.entries[e] == s.entries[e];
    assert |s.entries| !in s.releases;
  }

  lemma CreateKeeps(s: Registry, r: string, a: Option<string>)
    requires Invariant(s)
    ensures Invariant(WithLease(s, r, a))
    ensures var e := LeaseFor(s, r); Live(WithLease(s, r, a), e) && WithLease(s, r, a).entries[e].runId == r
  {
    if r !in s.byRun {
      NewLeaseKeeps(s, r, a);
    } else {
      SameShapeKeeps(s, WithLease(s, r, a));
    }
  }

  lemma WithTaskKeeps(s: Registry, e: nat, task: string)
    requires Invariant(s) && Live(s, e) && !Refuses(s, e, task)
    ensures Invariant(WithTask(s, e, task))
  {
    var t := WithTask(s, e, task);
    assert forall d | 0 <= d < |s.entries| :: t.entries[d].(taskIds := {}) == s.entries[d].(taskIds := {});
    assert LedgerAgrees(t);
  }

  /** A refused task leaves the lease of the run behind and changes nothing else. */
  lemma BindIsExact(s: Registry, r: string, task: string, a: Option<string>)
    requires r in s.byRun ==> s.byRun[r] < |s.entries|
    ensures var t, e := WithLease(s, r, a), LeaseFor(s, r);
      && e < |t.entries| && t.byTask == s.byTask
      && Bound(s, r, task, a) == if Refuses(s, e, task) then t else WithTask(t, e, task)
  {}

  lemma BindKeeps(s: Registry, r: string, task: string, a: Option<string>)
    requires Invariant(s)
    ensures Invariant(Bound(s, r, task, a))
  {
    BindIsExact(s, r, task, a);
    CreateKeeps(s, r, a);
    if !Refuses(s, LeaseFor(s, r), task) {
      WithTaskKeeps(WithLease(s, r, a), LeaseFor(s, r), task);
    }
  }

  lemma FinishKeepsMaps(s: Registry, e: nat)
    requires MapsAgree(s) && Live(s, e)
    ensures MapsAgree(Finished(s, e))
  {
    var t := Finished(s, e);
    assert forall d | 0 <= d < |s.entries| && d != e :: t.entries[d] == s.entries[d];
    assert t.byRun == s.byRun - {s.entries[e].runId};
  }

  lemma FinishKeepsLedger(s: Registry, e: nat)
    requires LedgerAgrees(s) && Live(s, e)
    ensures LedgerAgrees(Finished(s, e))
  {
    var t := Finished(s, e);
    forall d | 0 <= d < |s.entries|
      ensures t.entries[d].resolutions == (if t.entries[d].finished then 1 else 0)
      ensures Count(t.releases, d) <= t.entries[d].resolutions
    {
      assert multiset(s.releases + [e])[d] == multiset(s.releases)[d] + if d == e then 1 else 0;
    }
  }

  lemma FinishKeeps(s: Registry, e: nat)
    requires Invariant(s) && e < |s.entries|
    ensures Invariant(Finished(s, e)) && Finished(s, e).entries[e].finished
  {
    if !s.entries[e].finished {
      FinishKeepsMaps(s, e);
      FinishKeepsLedger(s, e);
    }
  }

  /**
   * Every operation keeps the maps in agreement, resolves a lease's completion once,
   * namely when it finishes, and starts at most one release for it, then at once.
   */
  lemma InvariantStep(s: Registry, step: Step)
    requires Invariant(s) && Enabled(s, step)
    ensures Invariant(Next(s, step))
  {
    match step
    case Reserve(r, a) => CreateKeeps(s, r, a);
    case Bind(r, t, a) => BindKeeps(s, r, t, a);
    case Finish(e) => FinishKeeps(s, e);
    case Complete(r) => if r in s.byRun { FinishKeeps(s, s.byRun[r]); }
    case _ => SameShapeKeeps(s, Next(s, step));
  }

  ghost predicate StepAt(st: seq<Registry>, ev: seq<Step>, i: nat)
    requires |st| == |ev| + 1
  {
    i < |ev| && Enabled(st[i], ev[i]) && st[i + 1] == Next(st[i], ev[i])
  }

  ghost predicate IsRun(st: seq<Registry>, ev: seq<Step>) {
    && |st| == |ev| + 1 && st[0] == EMPTY
    && forall i: nat | i < |ev| :: StepAt(st, ev, i)
  }

  lemma {:induction false} InvariantRun(st: seq<Registry>, ev: seq<Step>, n: nat)
    requires IsRun(st, ev) && n <= |ev|
    ensures Invariant(st[n])
  {
    if n > 0 {
      InvariantRun(st, ev, n - 1);
      assert StepAt(st, ev, n - 1);
      InvariantStep(st[n - 1], ev[n - 1]);
    }
  }

  /** In every reachable state, read off one map entry at a time. */
  lemma MapsSayWhatIsLive(st: seq<Registry>, ev: seq<Step>, n: nat, run: string, task: string, e: nat)
    requires IsRun(st, ev) && n <= |ev|
    ensures (run in st[n].byRun && st[n].byRun[run] == e) <==> (Live(st[n], e) && st[n].entries[e].runId == run)
    ensures (task in st[n].byTask && st[n].byTask[task] == e) <==> (Live(st[n], e) && task in st[n].entries[e].taskIds)
  {
    InvariantRun(st, ev, n);
  }

  /** A finished lease stays finished; finishing starts its one release if a handler is there. */
  lemma FinishedOnce(s: Registry, step: Step, e: nat)
    requires Invariant(s) && Enabled(s, step) && e < |s.entries|
    ensures var t := Next(s, step);
      && e < |t.entries|
      && (s.entries[e].finished ==> t.entries[e].finished && Count(t.releases, e) == Count(s.releases, e))
      && (Live(s, e) && !Live(t, e) ==> Count(t.releases, e) == if s.hasHandler then 1 else 0)
  {
    if step.Finish? {
      ReleaseAtFinish(s, step.handle, e);
    } else if step.Complete? && step.runId in s.byRun {
      ReleaseAtFinish(s, s.byRun[step.runId], e);
    }
  }

  lemma ReleaseAtFinish(s: Registry, d: nat, e: nat)
    requires d < |s.entries|
    ensures Count(Finished(s, d).releases, e) ==
            Count(s.releases, e) + if d == e && !s.entries[d].finished && s.hasHandler then 1 else 0
  {
    assert multiset(s.releases + [d])[e] == multiset(s.releases)[e] + if d == e then 1 else 0;
  }

  lemma {:induction false} FinishedStays(st: seq<Registry>, ev: seq<Step>, n: nat, k: nat, e: nat)
    requires IsRun(st, ev) && n <= k <= |ev| && e < |st[n].entries| && st[n].entries[e].finished
    ensures e < |st[k].entries| && st[k].entries[e].finished
    ensures Count(st[k].releases, e) == Count(st[n].releases, e)
  {
    if k > n {
      FinishedStays(st, ev, n, k - 1, e);
      InvariantRun(st, ev, k - 1);
      assert StepAt(st, ev, k - 1);
      FinishedOnce(st[k - 1], ev[k - 1], e);
    }
  }

  /**
   * Each lease is finished once, for good: from then on its completion has been
   * resolved once, and released once if a handler was set at that moment and never
   * otherwise, however many handles finish it again.
   */
  lemma ResolvedAndReleasedOnce(st: seq<Registry>, ev: seq<Step>, n: nat, k: nat, e: nat)
    requires IsRun(st, ev) && n < k <= |ev| && Live(st[n], e) && !Live(st[n + 1], e)
    ensures e < |st[k].entries| && st[k].entries[e].finished && st[k].entries[e].resolutions == 1
    ensures Count(st[k].releases, e) == if st[n].hasHandler then 1 else 0
  {
    InvariantRun(st, ev, n);
    assert StepAt(st, ev, n);
    FinishedOnce(st[n], ev[n], e);
    FinishedStays(st, ev, n + 1, k, e);
    InvariantRun(st, ev, k);
  }

  /** A handle finishes its own lease only: every other live lease keeps its run id and its tasks. */
  lemma FinishTouchesOwnLeaseOnly(s: Registry, e: nat, d: nat)
    requires Invariant(s) && e < |s.entries| && Live(s, d) && d != e
    ensures var t := Finished(s, e);
      && t.entries[d] == s.entries[d] && t.byRun[s.entries[d].runId] == d
      && forall task | task in s.entries[d].taskIds :: t.byTask[task] == d
    ensures s.entries[e].finished ==> Finished(s, e) == s
  {
    FinishKeeps(s, e);
  }

  // ----- Admitting a run id again -------------------------------------------------

  /** `isRunExecutionSettling`. */
  predicate IsSettling(s: Registry, runId: string) {
    runId in s.byRun || runId in s.settling
  }

  predicate CreatesLease(s: Registry, step: Step) {
    (step.Reserve? || step.Bind?) && step.runId !in s.byRun
  }

  /** A run id gets a new lease only once nothing of its previous execution is left. */
  predicate Disciplined(s: Registry, step: Step) {
    CreatesLease(s, step) ==> !IsSettling(s, step.runId)
  }

  predicate Later(s: Registry, e: nat, d: nat) {
    e < d < |s.entries| && s.entries[d].runId == s.entries[e].runId
  }

  /** Something of this lease is still unwinding. */
  predicate Unsettled(s: Registry, e: nat) {
    Live(s, e) || e in s.pending
  }

  /** Whatever is still unwinding for a run id belongs to the latest lease of that id. */
  ghost predicate NoLaterLease(s: Registry) {
    forall e: nat, d: nat | Unsettled(s, e) :: !Later(s, e, d)
  }

  ghost predicate SettlingIsExact(s: Registry) {
    && (forall e | e in s.pending :: e < |s.entries| && s.entries[e].runId in s.settling)
    && (forall r | r in s.settling :: HasPendingRelease(s, r))
  }

  ghost predicate HasLiveLease(s: Registry, r: string) {
    exists e: nat :: Live(s, e) && s.entries[e].runId == r
  }

  ghost predicate HasPendingRelease(s: Registry, r: string) {
    exists e :: e in s.pending && e < |s.entries| && s.entries[e].runId == r
  }

  /** No release is in flight for a run id that has a later lease; `settling` is exact. */
  ghost predicate ReleasesAreCurrent(s: Registry) {
    NoLaterLease(s) && SettlingIsExact(s)
  }

  /** t has the same leases under the same run ids, none of which became unsettled again. */
  ghost predicate NothingRevived(s: Registry, t: Registry) {
    && |t.entries| == |s.entries|
    && (forall d | 0 <= d < |s.entries| :: t.entries[d].runId == s.entries[d].runId)
    && (forall d | 0 <= d < |s.entries| && s.entries[d].finished :: t.entries[d].finished)
    && (forall d | d in t.pending :: Unsettled(s, d))
  }

  lemma LatestCarriesOver(s: Registry, t: Registry)
    requires NothingRevived(s, t) && NoLaterLease(s)
    ensures NoLaterLease(t)
  {
    forall e: nat, d: nat | Unsettled(t, e) ensures !Later(t, e, d) {
      assert Unsettled(s, e) && !Later(s, e, d);
    }
  }

  lemma SettlingCarriesOver(s: Registry, t: Registry)
    requires t.pending == s.pending && t.settling == s.settling && |s.entries| <= |t.entries|
    requires forall d | 0 <= d < |s.entries| :: t.entries[d].runId == s.entries[d].runId
    requires SettlingIsExact(s)
    ensures SettlingIsExact(t)
  {
    forall r | r in t.settling ensures HasPendingRelease(t, r) {
      assert HasPendingRelease(s, r);
      var e :| e in s.pending && e < |s.entries| && s.entries[e].runId == r;
      assert e in t.pending && t.entries[e].runId == r;
    }
  }

  lemma CurrentCarriesOver(s: Registry, t: Registry)
    requires NothingRevived(s, t) && t.pending == s.pending && t.settling == s.settling && ReleasesAreCurrent(s)
    ensures ReleasesAreCurrent(t)
  {
    LatestCarriesOver(s, t);
    SettlingCarriesOver(s, t);
  }

  lemma LatestAfterNewLease(s: Registry, r: string, a: Option<string>)
    requires Invariant(s) && ReleasesAreCurrent(s) && r !in s.byRun
    ensures NoLaterLease(WithLease(s, r, a)) <==> r !in s.settling
  {
    var t, n := WithLease(s, r, a), |s.entries|;
    if r in s.settling {
      assert HasPendingRelease(s, r);
      var e :| e in s.pending && e < |s.entries| && s.entries[e].runId == r;
      assert Unsettled(t, e) && Later(t, e, n);
    } else {
      forall e: nat, d: nat | Unsettled(t, e) ensures !Later(t, e, d) {
        if e < n {
          assert t.entries[e] == s.entries[e];
          assert Unsettled(s, e) && !Later(s, e, d);
        }
      }
    }
  }

  /** Making a lease keeps the releases current exactly when the discipline is followed. */
  lemma CurrentAfterCreate(s: Registry, r: string, a: Option<string>)
    requires Invariant(s) && ReleasesAreCurrent(s)
    ensures ReleasesAreCurrent(WithLease(s, r, a)) <==> r in s.byRun || r !in s.settling
  {
    var t := WithLease(s, r, a);
    if r in s.byRun {
      CurrentCarriesOver(s, t);
    } else {
      LatestAfterNewLease(s, r, a);
      SettlingCarriesOver(s, t);
    }
  }

  lemma CurrentAfterTask(s: Registry, e: nat, task: string)
    requires e < |s.entries|
    ensures ReleasesAreCurrent(WithTask(s, e, task)) <==> ReleasesAreCurrent(s)
  {
    var t := WithTask(s, e, task);
    assert NothingRevived(s, t) && NothingRevived(t, s);
    if ReleasesAreCurrent(s) {
      CurrentCarriesOver(s, t);
    } else if ReleasesAreCurrent(t) {
      CurrentCarriesOver(t, s);
    }
  }

  lemma CurrentAfterBind(s: Registry, r: string, task: string, a: Option<string>)
    ensures ReleasesAreCurrent(Bound(s, r, task, a)) <==> ReleasesAreCurrent(WithLease(s, r, a))
  {
    var t, e := WithLease(s, r, a), LeaseFor(s, r);
    if e < |t.entries| {
      CurrentAfterTask(t, e, task);
    }
  }

  lemma SettlingAfterFinish(s: Registry, e: nat)
    requires SettlingIsExact(s) && e < |s.entries|
    ensures SettlingIsExact(Finished(s, e))
  {
    var t := Finished(s, e);
    assert forall d | 0 <= d < |s.entries| :: t.entries[d].runId == s.entries[d].runId;
    forall r | r in t.settling ensures HasPendingRelease(t, r) {
      if r in s.settling {
        assert HasPendingRelease(s, r);
        var d :| d in s.pending && d < |s.entries| && s.entries[d].runId == r;
        assert d in t.pending && t.entries[d].runId == r;
      } else {
        assert e in t.pending && t.entries[e].runId == r;
      }
    }
  }

  lemma FinishRevivesNothing(s: Registry, e: nat)
    requires e < |s.entries|
    ensures NothingRevived(s, Finished(s, e))
  {
    var t := Finished(s, e);
    forall d | d in t.pending ensures Unsettled(s, d) {
      if d !in s.pending {
        assert d == e && Live(s, e);
      }
    }
  }

  lemma CurrentAfterFinish(s: Registry, e: nat)
    requires ReleasesAreCurrent(s) && e < |s.entries|
    ensures ReleasesAreCurrent(Finished(s, e))
  {
    SettlingAfterFinish(s, e);
    FinishRevivesNothing(s, e);
    LatestCarriesOver(s, Finished(s, e));
  }

  /** Two releases in flight never belong to the same run id. */
  lemma OneReleasePerRun(s: Registry, e: nat, d: nat)
    requires ReleasesAreCurrent(s) && e in s.pending && d in s.pending
    ensures e < |s.entries| && d < |s.entries| && (s.entries[e].runId == s.entries[d].runId ==> e == d)
  {
    assert Unsettled(s, e) && Unsettled(s, d) && !Later(s, e, d) && !Later(s, d, e);
  }

  lemma CurrentAfterSettle(s: Registry, e: nat)
    requires Invariant(s) && ReleasesAreCurrent(s) && e in s.pending
    ensures ReleasesAreCurrent(Next(s, ReleaseSettles(e)))
  {
    var t := Next(s, ReleaseSettles(e));
    LatestCarriesOver(s, t);
    forall d | d in t.pending ensures d < |t.entries| && t.entries[d].runId in t.settling {
      OneReleasePerRun(s, e, d);
    }
    forall r | r in t.settling ensures HasPendingRelease(t, r) {
      assert HasPendingRelease(s, r);
      var d :| d in s.pending && d < |s.entries| && s.entries[d].runId == r;
      assert d in t.pending && t.entries[d].runId == r;
    }
  }

  /** Following the discipline is exactly what keeps the releases current. */
  lemma CurrentStep(s: Registry, step: Step)
    requires Invariant(s) && Enabled(s, step) && ReleasesAreCurrent(s)
    ensures ReleasesAreCurrent(Next(s, step)) <==> Disciplined(s, step)
  {
    match step
    case Reserve(r, a) => CurrentAfterCreate(s, r, a);
    case Bind(r, t, a) => CurrentAfterCreate(s, r, a); CurrentAfterBind(s, r, t, a);
    case Finish(e) => CurrentAfterFinish(s, e);
    case Complete(r) => if r in s.byRun { CurrentAfterFinish(s, s.byRun[r]); }
    case ReleaseSettles(e) => CurrentAfterSettle(s, e);
    case _ => CurrentCarriesOver(s, Next(s, step));
  }

  lemma {:induction false} CurrentRun(st: seq<Registry>, ev: seq<Step>, n: nat)
    requires IsRun(st, ev) && n <= |ev| && forall i | 0 <= i < |ev| :: Disciplined(st[i], ev[i])
    ensures Invariant(st[n]) && ReleasesAreCurrent(st[n])
  {
    if n > 0 {
      CurrentRun(st, ev, n - 1);
      assert StepAt(st, ev, n - 1);
      InvariantStep(st[n - 1], ev[n - 1]);
      CurrentStep(st[n - 1], ev[n - 1]);
    }
  }

  /**
   * Under the discipline, in every run: `isRunExecutionSettling` is true exactly of the
   * run ids with a live lease or a release in flight, at most one release per run id is
   * in flight, and a release that settles belongs to the latest lease of its run id.
   */
  lemma SettlingTellsTheTruth(st: seq<Registry>, ev: seq<Step>, n: nat, r: string)
    requires IsRun(st, ev) && n <= |ev| && forall i | 0 <= i < |ev| :: Disciplined(st[i], ev[i])
    ensures IsSettling(st[n], r) <==> HasLiveLease(st[n], r) || HasPendingRelease(st[n], r)
    ensures forall e, d | e in st[n].pending && d in st[n].pending :: e < |st[n].entries| && d < |st[n].entries| &&
              (st[n].entries[e].runId == st[n].entries[d].runId ==> e == d)
    ensures n < |ev| && ev[n].ReleaseSettles? ==> forall d: nat :: !Later(st[n], ev[n].handle, d)
  {
    CurrentRun(st, ev, n);
    assert n < |ev| ==> StepAt(st, ev, n);
    var s := st[n];
    if r in s.byRun {
      assert Live(s, s.byRun[r]) && s.entries[s.byRun[r]].runId == r;
    }
    forall e, d | e in s.pending && d in s.pending
      ensures e < |s.entries| && d < |s.entries| && (s.entries[e].runId == s.entries[d].runId ==> e == d)
    {
      OneReleasePerRun(s, e, d);
    }
  }

  /** Without it the answer can be wrong: a release in flight that nobody remembers. */
  lemma UndisciplinedReadmission() returns (st: seq<Registry>, ev: seq<Step>)
    ensures ev == [SetHandler(true), Reserve("run", None), Finish(0), Reserve("run", None), Finish(1), ReleaseSettles(0)]
    ensures IsRun(st, ev) && HasPendingRelease(st[6], "run") && !IsSettling(st[6], "run")
  {
    ev := [SetHandler(true), Reserve("run", None), Finish(0), Reserve("run", None), Finish(1), ReleaseSettles(0)];
    var s1 := Next(EMPTY, ev[0]);
    var s2 := Next(s1, ev[1]);
    var s3 := Next(s2, ev[2]);
    var s4 := Next(s3, ev[3]);
    var s5 := Next(s4, ev[4]);
    var s6 := Next(s5, ev[5]);
    st := [EMPTY, s1, s2, s3, s4, s5, s6];
    assert s5.pending == {0, 1} && s6.pending == {1} && s6.entries[1].runId == "run";
  }

  // ----- Whose lease it is --------------------------------------------------------------

  /** The step reserves or binds for the run id that lease e serves, and names an agent. */
  predicate NamesAgent(s: Registry, step: Step, e: nat) {
    (step.Reserve? || step.Bind?) && step.agentId.Some? && LeaseFor(s, step.runId) == e
  }

  /** A fresh lease is live, not cancelled, without tasks, and belongs to the agent it was asked for. */
  lemma FreshLease(s: Registry, runId: string, agentId: Option<string>)
    requires runId !in s.byRun
    ensures var t := WithLease(s, runId, agentId); var e := |s.entries|;
      && |t.entries| == e + 1 && t.byRun == s.byRun[runId := e] && t.byTask == s.byTask
      && t.entries[e].runId == runId && t.entries[e].taskIds == {} && t.entries[e].agentId == agentId
      && !t.entries[e].aborted && !t.entries[e].finished && t.entries[e].resolutions == 0
      && forall d | 0 <= d < e :: t.entries[d] == s.entries[d]
  {}

  predicate AcceptsTask(s: Registry, step: Step, e: nat) {
    step.Bind? && LeaseFor(s, step.runId) == e && (step.taskId in s.byTask ==> s.byTask[step.taskId] == e)
  }

  predicate FinishesLease(s: Registry, step: Step, e: nat) {
    step == Finish(e) || (step.Complete? && step.runId in s.byRun && s.byRun[step.runId] == e)
  }

  predicate CancelsLease(s: Registry, step: Step, e: nat) {
    step.Abort? && step.runId in s.byRun && s.byRun[step.runId] == e
  }

  /** Apart from its agent a lease only changes in these three ways. */
  predicate ChangesBy(x: Entry, y: Entry, cancelled: bool, finished: bool, tasks: set<string>) {
    && y.runId == x.runId && (y.aborted <==> x.aborted || cancelled) && (y.finished <==> x.finished || finished)
    && y.taskIds == x.taskIds + tasks
  }

  lemma ReserveChanges(s: Registry, runId: string, agentId: Option<string>, e: nat)
    requires e < |s.entries|
    ensures e < |WithLease(s, runId, agentId).entries|
    ensures ChangesBy(s.entries[e], WithLease(s, runId, agentId).entries[e], false, false, {})
  {}

  lemma BindChanges(s: Registry, runId: string, task: string, agentId: Option<string>, e: nat)
    requires MapsAgree(s) && e < |s.entries|
    ensures e < |Bound(s, runId, task, agentId).entries|
    ensures ChangesBy(s.entries[e], Bound(s, runId, task, agentId).entries[e], false, false,
                      if AcceptsTask(s, Bind(runId, task, agentId), e) then {task} else {})
  {
    ReserveChanges(s, runId, agentId, e);
    BindIsExact(s, runId, task, agentId);
  }

  /** What a step does to a lease that is there: only an accepted task, a cancellation and a finish of it change it. */
  lemma LeaseFieldsStep(s: Registry, step: Step, e: nat)
    requires Invariant(s) && Enabled(s, step) && e < |s.entries|
    ensures e < |Next(s, step).entries|
    ensures ChangesBy(s.entries[e], Next(s, step).entries[e], CancelsLease(s, step, e), FinishesLease(s, step, e),
                      if AcceptsTask(s, step, e) then {step.taskId} else {})
  {
    match step
    case Reserve(runId, agentId) => ReserveChanges(s, runId, agentId, e);
    case Bind(runId, task, agentId) => BindChanges(s, runId, task, agentId, e);
    case Finish(d) => FinishChanges(s, d, e);
    case Complete(runId) => if runId in s.byRun { FinishChanges(s, s.byRun[runId], e); }
    case _ =>
  }

  lemma FinishChanges(s: Registry, d: nat, e: nat)
    requires d < |s.entries| && e < |s.entries|
    ensures Finished(s, d).entries[e].(finished := false, resolutions := 0) == s.entries[e].(finished := false, resolutions := 0)
    ensures Finished(s, d).entries[e].finished <==> s.entries[e].finished || d == e
  {}

  lemma AgentAfterLease(s: Registry, runId: string, agentId: Option<string>, e: nat)
    requires MapsAgree(s) && e < |WithLease(s, runId, agentId).entries|
    ensures var before := if e < |s.entries| then s.entries[e].agentId else None;
      WithLease(s, runId, agentId).entries[e].agentId ==
      if before.Some? then before else if LeaseFor(s, runId) == e then agentId else None
    ensures e >= |s.entries| ==> LeaseFor(s, runId) == e
  {}

  lemma AgentAfterBind(s: Registry, runId: string, task: string, agentId: Option<string>, e: nat)
    requires MapsAgree(s) && e < |Bound(s, runId, task, agentId).entries|
    ensures e < |WithLease(s, runId, agentId).entries|
    ensures Bound(s, runId, task, agentId).entries[e].agentId == WithLease(s, runId, agentId).entries[e].agentId
  {}

  lemma AgentAfterFinish(s: Registry, d: nat, e: nat)
    requires d < |s.entries| && e < |s.entries|
    ensures |Finished(s, d).entries| == |s.entries| && Finished(s, d).entries[e].agentId == s.entries[e].agentId
  {}

  /** A lease's agent is set by the first step that names one for it and never changes. */
  lemma AgentStep(s: Registry, step: Step, e: nat)
    requires Invariant(s) && Enabled(s, step) && e < |Next(s, step).entries|
    ensures var before := if e < |s.entries| then s.entries[e].agentId else None;
      Next(s, step).entries[e].agentId ==
      if before.Some? then before else if NamesAgent(s, step, e) then step.agentId else None
    ensures e >= |s.entries| ==> (step.Reserve? || step.Bind?) && LeaseFor(s, step.runId) == e
  {
    match step
    case Reserve(runId, agentId) => AgentAfterLease(s, runId, agentId, e);
    case Bind(runId, task, agentId) =>
      AgentAfterBind(s, runId, task, agentId, e);
      AgentAfterLease(s, runId, agentId, e);
    case Finish(d) =>
      if e < |s.entries| { AgentAfterFinish(s, d, e); }
    case Complete(runId) =>
      if runId in s.byRun && e < |s.entries| { AgentAfterFinish(s, s.byRun[runId], e); }
    case _ =>
  }

  ghost predicate FirstToName(st: seq<Registry>, ev: seq<Step>, e: nat, k: nat)
    requires |st| == |ev| + 1
  {
    k < |ev| && NamesAgent(st[k], ev[k], e) && forall m | 0 <= m < k :: !NamesAgent(st[m], ev[m], e)
  }

  lemma {:induction false} AgentUnnamed(st: seq<Registry>, ev: seq<Step>, e: nat, n: nat)
    requires IsRun(st, ev) && n <= |ev| && forall m | 0 <= m < n :: !NamesAgent(st[m], ev[m], e)
    ensures e < |st[n].entries| ==> st[n].entries[e].agentId == None
  {
    if n > 0 {
      AgentUnnamed(st, ev, e, n - 1);
      InvariantRun(st, ev, n - 1);
      assert StepAt(st, ev, n - 1);
      if e < |st[n].entries| {
        AgentStep(st[n - 1], ev[n - 1], e);
      }
    }
  }

  lemma NamedExists(s: Registry, step: Step, e: nat)
    requires Invariant(s) && Enabled(s, step) && NamesAgent(s, step, e)
    ensures e < |Next(s, step).entries|
  {
    CreateKeeps(s, step.runId, step.agentId);
  }

  lemma EntriesGrow(s: Registry, step: Step)
    requires Enabled(s, step)
    ensures |s.entries| <= |Next(s, step).entries|
  {}

  /**
   * In every run, a lease belongs to the agent that was named first among the calls that
   * reserved it or bound to it, and to none as long as no call named one.
   */
  lemma {:induction false} AgentIsFirstNamed(st: seq<Registry>, ev: seq<Step>, e: nat, k: nat, n: nat)
    requires IsRun(st, ev) && k < n <= |ev| && FirstToName(st, ev, e, k)
    ensures e < |st[n].entries| && st[n].entries[e].agentId == ev[k].agentId
  {
    InvariantRun(st, ev, n - 1);
    assert StepAt(st, ev, n - 1);
    if n == k + 1 {
      AgentUnnamed(st, ev, e, k);
      NamedExists(st[k], ev[k], e);
    } else {
      AgentIsFirstNamed(st, ev, e, k, n - 1);
      EntriesGrow(st[n - 1], ev[n - 1]);
    }
    AgentStep(st[n - 1], ev[n - 1], e);
  }
}
