// The lease registry as the process keeps it: maps and sets that every operation
// updates in place.

module ExecutionLeaseRegistry {
  import opened Common
  import opened LeaseProtocol

  class LeaseRegistry {
    var entries: seq<Entry>
    var leasesByRunId: map<string, nat>
    var leasesByTaskId: map<string, nat>
    var hasDurableReleaseHandler: bool
    var releases: seq<nat>
    var pendingDurableReleases: set<nat>
    var settlingRunIds: set<string>

    ghost function Now(): Registry
      reads this
    {
      Registry(entries, leasesByRunId, leasesByTaskId, hasDurableReleaseHandler, releases,
               pendingDurableReleases, settlingRunIds)
    }

    constructor ()
      ensures Now() == EMPTY && Invariant(Now())
    {
      entries := [];
      leasesByRunId := map[];
      leasesByTaskId := map[];
      hasDurableReleaseHandler := false;
      releases := [];
      pendingDurableReleases := {};
      settlingRunIds := {};
    }

    method GetOrCreate(runId: string, agentId: Option<string>) returns (e: nat)
      requires Invariant(Now())
      modifies this
      ensures Now() == WithLease(old(Now()), runId, agentId)
      ensures e == LeaseFor(old(Now()), runId) && e < |entries|
    {
      if runId in leasesByRunId {
        e := leasesByRunId[runId];
        if entries[e].agentId.None? {
          entries := entries[e := entries[e].(agentId := agentId)];
        }
      } else {
        e := |entries|;
        entries := entries + [Entry(runId, {}, agentId, false, false, 0)];
        leasesByRunId := leasesByRunId[runId := e];
      }
    }

    method ReserveLease(runId: string, agentId: Option<string>) returns (handle: nat)
      requires Invariant(Now())
      modifies this
      ensures Invariant(Now()) && Now() == WithLease(old(Now()), runId, agentId)
      ensures handle == LeaseFor(old(Now()), runId) && Live(Now(), handle) && entries[handle].runId == runId
    {
      CreateKeeps(Now(), runId, agentId);
      handle := GetOrCreate(runId, agentId);
    }

    method AddTask(e: nat, taskId: string) returns (refused: bool)
      requires e < |entries|
      modifies `entries, `leasesByTaskId
      ensures refused <==> Refuses(old(Now()), e, taskId)
      ensures Now() == if refused then old(Now()) else WithTask(old(Now()), e, taskId)
    {
      refused := taskId in leasesByTaskId && leasesByTaskId[taskId] != e;
      if !refused {
        entries := entries[e := entries[e].(taskIds := entries[e].taskIds + {taskId})];
        leasesByTaskId := leasesByTaskId[taskId := e];
      }
    }

    /** A refused task leaves the lease of the run behind; nothing else changes. */
    method BindTask(runId: string, taskId: string, agentId: Option<string>) returns (handle: nat, refused: bool)
      requires Invariant(Now())
      modifies this
      ensures Invariant(Now()) && Now() == Bound(old(Now()), runId, taskId, agentId)
      ensures handle == LeaseFor(old(Now()), runId)
      ensures refused <==> taskId in old(leasesByTaskId) && old(leasesByTaskId)[taskId] != handle
      ensures refused ==> Now() == WithLease(old(Now()), runId, agentId)
      ensures !refused ==> taskId in leasesByTaskId && leasesByTaskId[taskId] == handle
    {
      BindIsExact(Now(), runId, taskId, agentId);
      BindKeeps(Now(), runId, taskId, agentId);
      handle := GetOrCreate(runId, agentId);
      refused := AddTask(handle, taskId);
    }

    method CancelLease(runId: string)
      requires Invariant(Now())
      modifies this
      ensures Invariant(Now()) && Now() == Next(old(Now()), Abort(runId))
    {
      InvariantStep(Now(), Abort(runId));
      if runId in leasesByRunId {
        var e := leasesByRunId[runId];
        entries := entries[e := entries[e].(aborted := true)];
      }
    }

    /** Takes the tasks out of the map, as far as they still belong to the lease. */
    method ForgetTasks(tasks: set<string>, e: nat)
      modifies `leasesByTaskId
      ensures leasesByTaskId == WithoutTasks(old(leasesByTaskId), tasks, e)
    {
      var todo := tasks;
      assert WithoutTasks(leasesByTaskId, tasks - todo, e) == leasesByTaskId;
      while todo != {}
        invariant todo <= tasks
        invariant leasesByTaskId == WithoutTasks(old(leasesByTaskId), tasks - todo, e)
        decreases |todo|
      {
        var t :| t in todo;
        if t in leasesByTaskId && leasesByTaskId[t] == e {
          leasesByTaskId := leasesByTaskId - {t};
        }
        todo := todo - {t};
      }
      assert tasks - todo == tasks;
    }

    /** Finishing through a handle, however old the handle is. */
    method FinishLease(e: nat)
      requires Invariant(Now()) && e < |entries|
      modifies this
      ensures Invariant(Now()) && Now() == Next(old(Now()), Finish(e))
    {
      ghost var before := Now();
      var entry := entries[e];
      if entry.finished {
        return;
      }
      entries := entries[e := entry.(finished := true, resolutions := entry.resolutions + 1)];
      if entry.runId in leasesByRunId && leasesByRunId[entry.runId] == e {
        leasesByRunId := leasesByRunId - {entry.runId};
      }
      ForgetTasks(entry.taskIds, e);
      if hasDurableReleaseHandler {
        releases := releases + [e];
        settlingRunIds := settlingRunIds + {entry.runId};
        pendingDurableReleases := pendingDurableReleases + {e};
      }
      assert Now() == Finished(before, e);
      FinishKeeps(before, e);
    }

    method ReleaseSettled(e: nat)
      requires Invariant(Now()) && e in pendingDurableReleases
      modifies `pendingDurableReleases, `settlingRunIds
      ensures Invariant(Now()) && Now() == Next(old(Now()), ReleaseSettles(e))
    {
      InvariantStep(Now(), ReleaseSettles(e));
      pendingDurableReleases := pendingDurableReleases - {e};
      settlingRunIds := settlingRunIds - {entries[e].runId};
    }

    /** The live leases of an agent, whatever their tasks do, consume its capacity. */
    method CountActive(agentId: string) returns (count: nat)
      requires Invariant(Now())
      ensures count == |set e | 0 <= e < |entries| && !entries[e].finished && entries[e].agentId == Some(agentId)|
    {
      count := 0;
      var todo := leasesByRunId.Keys;
      ghost var counted: set<nat> := {};
      while todo != {}
        invariant todo <= leasesByRunId.Keys && count == |counted|
        invariant forall e: nat :: e in counted <==>
                    Live(Now(), e) && entries[e].runId !in todo && entries[e].agentId == Some(agentId)
        decreases |todo|
      {
        var r :| r in todo;
        var e := leasesByRunId[r];
        if entries[e].agentId == Some(agentId) && !entries[e].finished {
          count := count + 1;
          counted := counted + {e};
        }
        todo := todo - {r};
      }
      assert counted == set e | 0 <= e < |entries| && !entries[e].finished && entries[e].agentId == Some(agentId);
    }
  }
}
