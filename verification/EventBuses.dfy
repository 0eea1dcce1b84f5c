// Event buses of many callers in one process-wide map, told apart by a length-prefixed key.

module EventBusKeys {
  import opened JsStrings

  const COLON: CodeUnit := 0x3A

  function Decimal(n: nat): JsString {
    if n < 10 then [0x30 + n] else Decimal(n / 10) + [0x30 + n % 10]
  }

  /** The length of the scope, a colon, the scope and the task id. */
  function BusKey(scope: JsString, taskId: JsString): JsString {
    Decimal(|scope|) + [COLON] + scope + taskId
  }

  function ValueOf(digits: JsString): int {
    if digits == [] then 0 else 10 * ValueOf(digits[..|digits| - 1]) + digits[|digits| - 1] - 0x30
  }

  lemma {:induction false} DecimalFacts(n: nat)
    ensures Decimal(n) != [] && COLON !in Decimal(n) && ValueOf(Decimal(n)) == n
  {
    if n < 10 {
      assert [0x30 + n][..0] == [];
      assert ValueOf([]) == 0;
    } else {
      DecimalFacts(n / 10);
      assert (Decimal(n / 10) + [0x30 + n % 10])[..|Decimal(n / 10)|] == Decimal(n / 10);
    }
  }

  /** The colon after the length is the first one. */
  lemma PrefixEndsAtFirstColon(a: JsString, b: JsString, x: JsString, y: JsString)
    requires COLON !in a && COLON !in b && a + [COLON] + x == b + [COLON] + y
    ensures a == b && x == y
  {
    var left, right := a + [COLON] + x, b + [COLON] + y;
    assert left[|a|] == COLON && right[|b|] == COLON;
    assert forall i | 0 <= i < |a| :: left[i] != COLON;
    assert forall i | 0 <= i < |b| :: right[i] != COLON;
    assert left[..|a|] == a && right[..|b|] == b;
    assert left[|a| + 1..] == x && right[|b| + 1..] == y;
  }

  /** Different scopes or different tasks never share a key, whatever characters they hold. */
  lemma KeyIsInjective(scope: JsString, taskId: JsString, scope': JsString, taskId': JsString)
    ensures BusKey(scope, taskId) == BusKey(scope', taskId') <==> scope == scope' && taskId == taskId'
  {
    if BusKey(scope, taskId) == BusKey(scope', taskId') {
      DecimalFacts(|scope|);
      DecimalFacts(|scope'|);
      assert BusKey(scope, taskId) == Decimal(|scope|) + [COLON] + (scope + taskId);
      assert BusKey(scope', taskId') == Decimal(|scope'|) + [COLON] + (scope' + taskId');
      PrefixEndsAtFirstColon(Decimal(|scope|), Decimal(|scope'|), scope + taskId, scope' + taskId');
      assert (scope + taskId)[..|scope|] == scope && (scope' + taskId')[..|scope'|] == scope';
      assert (scope + taskId)[|scope|..] == taskId && (scope' + taskId')[|scope'|..] == taskId';
    }
  }

  /** A key reads back: before its first colon stands the length of the scope, then scope and task id. */
  lemma KeyReadsBack(scope: JsString, taskId: JsString) returns (digits: JsString)
    ensures BusKey(scope, taskId) == digits + [COLON] + scope + taskId
    ensures digits != [] && COLON !in digits && ValueOf(digits) == |scope|
  {
    digits := Decimal(|scope|);
    DecimalFacts(|scope|);
  }

  // ----- One shared map behaves as one map per scope --------------------------------------

  /** `bus` is the identity a newly made bus would get. */
  datatype Op =
    | Create(scope: JsString, taskId: JsString, bus: nat)
    | Cleanup(scope: JsString, taskId: JsString)

  type Buses = map<JsString, nat>

  function Created(buses: Buses, key: JsString, bus: nat): Buses {
    if key in buses then buses else buses[key := bus]
  }

  function Apply(buses: Buses, op: Op, key: JsString): Buses {
    match op
    case Create(_, _, bus) => Created(buses, key, bus)
    case Cleanup(_, _) => buses - {key}
  }

  /** All scopes in one map, under the length-prefixed keys. */
  function RunShared(ops: seq<Op>): Buses {
    if ops == [] then map[]
    else
      var op := ops[|ops| - 1];
      Apply(RunShared(ops[..|ops| - 1]), op, BusKey(op.scope, op.taskId))
  }

  /** A map of its own for one scope, under the plain task ids, seeing that scope's calls only. */
  function RunOwn(ops: seq<Op>, scope: JsString): Buses {
    if ops == [] then map[]
    else
      var op, before := ops[|ops| - 1], RunOwn(ops[..|ops| - 1], scope);
      if op.scope == scope then Apply(before, op, op.taskId) else before
  }

  lemma {:induction false} ScopesAreIndependent(ops: seq<Op>, scope: JsString, taskId: JsString)
    ensures var key, shared, own := BusKey(scope, taskId), RunShared(ops), RunOwn(ops, scope);
      (key in shared <==> taskId in own) && (key in shared ==> shared[key] == own[taskId])
    decreases |ops|
  {
    if ops != [] {
      var op := ops[|ops| - 1];
      ScopesAreIndependent(ops[..|ops| - 1], scope, taskId);
      KeyIsInjective(scope, taskId, op.scope, op.taskId);
    }
  }
}

module EventBusManagers {
  import opened JsStrings
  import opened EventBusKeys

  /** The process-wide manager: a bus per key, made on first use. */
  class ProcessBusManager {
    var buses: Buses
    var made: nat

    /** Buses are numbered as they are made. */
    ghost predicate Valid()
      reads this
    {
      forall k | k in buses :: buses[k] < made
    }

    constructor ()
      ensures Valid() && buses == map[] && made == 0
    {
      buses := map[];
      made := 0;
    }

    method CreateOrGet(key: JsString) returns (bus: nat)
      requires Valid()
      modifies this
      ensures Valid() && buses == Created(old(buses), key, old(made)) && key in buses && bus == buses[key]
      ensures made == old(made) + if key in old(buses) then 0 else 1
      ensures key in old(buses) ==> buses == old(buses) && bus == old(buses)[key]
      ensures key !in old(buses) ==> forall k | k in old(buses) :: old(buses)[k] != bus
    {
      if key !in buses {
        buses := buses[key := made];
        made := made + 1;
      }
      bus := buses[key];
    }

    method CleanupByKey(key: JsString)
      requires Valid()
      modifies `buses
      ensures Valid() && buses == old(buses) - {key}
    {
      buses := buses - {key};
    }
  }

  /** The view of one caller scope on the shared manager. */
  class ScopedBusManager {
    const scopeKey: JsString
    const shared: ProcessBusManager
    var reusedTaskIds: set<JsString>

    constructor (scopeKey: JsString, shared: ProcessBusManager)
      ensures this.scopeKey == scopeKey && this.shared == shared && reusedTaskIds == {}
    {
      this.scopeKey := scopeKey;
      this.shared := shared;
      reusedTaskIds := {};
    }

    /** A bus that was there already is remembered as reused; no other scope sees a difference. */
    method CreateOrGetByTaskId(taskId: JsString) returns (bus: nat)
      requires shared.Valid()
      modifies this, shared
      ensures shared.Valid()
      ensures var key := BusKey(scopeKey, taskId);
        if key in old(shared.buses) then bus == old(shared.buses)[key] && shared.buses == old(shared.buses)
        else forall k | k in old(shared.buses) :: old(shared.buses)[k] != bus
      ensures shared.buses == Created(old(shared.buses), BusKey(scopeKey, taskId), old(shared.made))
      ensures bus == shared.buses[BusKey(scopeKey, taskId)]
      ensures reusedTaskIds == old(reusedTaskIds) + if BusKey(scopeKey, taskId) in old(shared.buses) then {taskId} else {}
      ensures forall scope, task | scope != scopeKey || task != taskId ::
                (BusKey(scope, task) in shared.buses <==> BusKey(scope, task) in old(shared.buses)) &&
                (BusKey(scope, task) in shared.buses ==> shared.buses[BusKey(scope, task)] == old(shared.buses)[BusKey(scope, task)])
    {
      OthersKeepTheirKeys(scopeKey, taskId);
      if BusKey(scopeKey, taskId) in shared.buses {
        reusedTaskIds := reusedTaskIds + {taskId};
      }
      bus := shared.CreateOrGet(BusKey(scopeKey, taskId));
    }

    method CleanupByTaskId(taskId: JsString)
      requires shared.Valid()
      modifies this, shared
      ensures shared.Valid() && BusKey(scopeKey, taskId) !in shared.buses
      ensures shared.buses == old(shared.buses) - {BusKey(scopeKey, taskId)}
      ensures reusedTaskIds == old(reusedTaskIds) - {taskId}
      ensures forall scope, task | scope != scopeKey || task != taskId ::
                (BusKey(scope, task) in shared.buses <==> BusKey(scope, task) in old(shared.buses)) &&
                (BusKey(scope, task) in shared.buses ==> shared.buses[BusKey(scope, task)] == old(shared.buses)[BusKey(scope, task)])
    {
      OthersKeepTheirKeys(scopeKey, taskId);
      shared.CleanupByKey(BusKey(scopeKey, taskId));
      reusedTaskIds := reusedTaskIds - {taskId};
    }
  }

  lemma OthersKeepTheirKeys(scope: JsString, taskId: JsString)
    ensures forall s: JsString, t: JsString | s != scope || t != taskId :: BusKey(s, t) != BusKey(scope, taskId)
  {
    forall s: JsString, t: JsString | s != scope || t != taskId ensures BusKey(s, t) != BusKey(scope, taskId) {
      KeyIsInjective(s, t, scope, taskId);
    }
  }
}
