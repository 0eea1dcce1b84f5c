// Saving, loading and failing persisted tasks: who may touch which row, and what
// sanitising on the way in means for reading back.

module TaskStore {
  import opened Common
  import opened JsStrings
  import opened Utf16

  datatype Scope = Scope(tenant: JsString, owner: JsString)

  datatype TaskState = Submitted | Working | InputRequired | Completed | Failed | Canceled | Rejected

  datatype Task = Task(id: JsString, contextId: JsString, state: TaskState, text: JsString)

  /** What the data column decodes to: an envelope, a row from before envelopes, or nothing. */
  datatype Data = Envelope(scope: Scope, task: Task) | Legacy(task: Task) | Unreadable

  type Rows = map<JsString, Data>

  predicate IsTerminal(state: TaskState) {
    state in {Completed, Failed, Canceled, Rejected}
  }

  /** The trimmed caller scope; both parts have to be there. */
  function ScopeOf(tenant: JsString, owner: JsString): Option<Scope> {
    if Trim(tenant) == [] || Trim(owner) == [] then None else Some(Scope(Trim(tenant), Trim(owner)))
  }

  function StripTask(t: Task): Task {
    Task(Strip(t.id), Strip(t.contextId), t.state, Strip(t.text))
  }

  function StripScope(scope: Scope): Scope {
    Scope(Strip(scope.tenant), Strip(scope.owner))
  }

  /** Sanitising applies to every string of the envelope, those of the scope included. */
  function Encode(scope: Scope, t: Task): Data {
    Envelope(StripScope(scope), StripTask(t))
  }

  predicate Owned(d: Data, scope: Scope) {
    d.Envelope? && d.scope == scope
  }

  predicate MaySave(rows: Rows, t: Task, scope: Scope) {
    t.id !in rows || Owned(rows[t.id], scope)
  }

  function Loaded(rows: Rows, id: JsString, scope: Scope): Option<Task> {
    if id in rows && Owned(rows[id], scope) then Some(rows[id].task) else None
  }

  predicate CanFail(d: Data) {
    match d
    case Envelope(_, t) => !IsTerminal(t.state)
    case Legacy(t) => !IsTerminal(t.state) && t.id != []
    case Unreadable => false
  }

  function FailedData(d: Data, reason: JsString): Data {
    match d
    case Envelope(scope, t) => Encode(scope, t.(state := Failed, text := reason))
    case Legacy(t) => Legacy(StripTask(t.(state := Failed, text := reason)))
    case Unreadable => d
  }

  predicate WellFormedScope(scope: Scope) {
    WellFormed(scope.tenant) && WellFormed(scope.owner)
  }

  predicate WellFormedTask(t: Task) {
    WellFormed(t.id) && WellFormed(t.contextId) && WellFormed(t.text)
  }

  /** Every envelope in the table can be held by a jsonb column; rows from before sanitising need not. */
  ghost predicate Sanitised(rows: Rows) {
    forall id | id in rows && rows[id].Envelope? :: WellFormedScope(rows[id].scope) && WellFormedTask(rows[id].task)
  }

  lemma EncodeIsSanitised(scope: Scope, t: Task)
    ensures WellFormedScope(Encode(scope, t).scope) && WellFormedTask(Encode(scope, t).task)
    ensures Encode(scope, t).scope == scope <==> WellFormedScope(scope)
    ensures WellFormedTask(t) ==> Encode(scope, t).task == t
  {
    StripTheorem(scope.tenant);
    StripTheorem(scope.owner);
    StripTheorem(t.id);
    StripTheorem(t.contextId);
    StripTheorem(t.text);
  }

  class SqliteTaskStore {
    var rows: Rows

    constructor ()
      ensures rows == map[] && Sanitised(rows)
    {
      rows := map[];
    }

    /** Returns whether the task was saved; otherwise the call throws. */
    method Save(t: Task, tenant: JsString, owner: JsString) returns (saved: bool)
      modifies this
      ensures Sanitised(old(rows)) ==> Sanitised(rows)
      ensures saved <==> ScopeOf(tenant, owner).Some? && MaySave(old(rows), t, ScopeOf(tenant, owner).value)
      ensures rows == if saved then old(rows)[t.id := Encode(ScopeOf(tenant, owner).value, t)] else old(rows)
    {
      var scope := ScopeOf(tenant, owner);
      if scope.None? {
        return false;
      }
      EncodeIsSanitised(scope.value, t);
      if t.id in rows {
        var persisted := rows[t.id];
        if !persisted.Envelope? || persisted.scope != scope.value {
          return false;
        }
      }
      rows := rows[t.id := Encode(scope.value, t)];
      saved := true;
    }

    method Load(id: JsString, tenant: JsString, owner: JsString) returns (task: Option<Task>)
      ensures task == if ScopeOf(tenant, owner).None? then None else Loaded(rows, id, ScopeOf(tenant, owner).value)
    {
      var scope := ScopeOf(tenant, owner);
      if id !in rows || scope.None? {
        return None;
      }
      var data := rows[id];
      if !data.Envelope? || data.scope != scope.value {
        return None;
      }
      return Some(data.task);
    }

    method MarkTaskFailed(id: JsString, reason: JsString) returns (changed: bool)
      modifies this
      ensures Sanitised(old(rows)) ==> Sanitised(rows)
      ensures changed <==> id in old(rows) && CanFail(old(rows)[id])
      ensures rows == if changed then old(rows)[id := FailedData(old(rows)[id], reason)] else old(rows)
    {
      if id !in rows {
        return false;
      }
      match rows[id] {
        case Unreadable => return false;
        case Envelope(scope, t) =>
          if IsTerminal(t.state) {
            return false;
          }
          EncodeIsSanitised(scope, t.(state := Failed, text := reason));
          rows := rows[id := Encode(scope, t.(state := Failed, text := reason))];
        case Legacy(t) =>
          if IsTerminal(t.state) || t.id == [] {
            return false;
          }
          rows := rows[id := Legacy(StripTask(t.(state := Failed, text := reason)))];
      }
      changed := true;
    }
  }

  /**
   * After a save, the caller finds the sanitised task again, and may save it again,
   * exactly when the scope itself was well formed; a scope that sanitising changes
   * locks its own caller out.
   */
  lemma ReadsBackExactly(rows: Rows, t: Task, scope: Scope)
    requires MaySave(rows, t, scope)
    ensures var after := rows[t.id := Encode(scope, t)];
      && (Loaded(after, t.id, scope) == Some(StripTask(t)) <==> WellFormedScope(scope))
      && (Loaded(after, t.id, scope).None? <==> !WellFormedScope(scope))
      && (MaySave(after, t, scope) <==> WellFormedScope(scope))
      && (WellFormedScope(scope) && WellFormedTask(t) ==> Loaded(after, t.id, scope) == Some(t))
  {
    EncodeIsSanitised(scope, t);
  }

  /**
   * A save changes what another scope reads in exactly one place: under the saved id,
   * when that other scope is what sanitising makes of the caller's.
   */
  lemma SavesStayInScope(rows: Rows, t: Task, scope: Scope, id: JsString, other: Scope)
    requires MaySave(rows, t, scope) && other != scope
    ensures Loaded(rows[t.id := Encode(scope, t)], id, other) == Loaded(rows, id, other) <==>
            !(id == t.id && other == StripScope(scope))
  {}

  /** The scopes that calls come with: trimmed, both parts there. */
  predicate IsCaller(scope: Scope) {
    ScopeOf(scope.tenant, scope.owner) == Some(scope)
  }

  /**
   * A caller's saves show to no other caller at all exactly when sanitising leaves its
   * scope alone or makes a scope of it that no caller can have.
   */
  lemma ScopesAreSeparateExactly(rows: Rows, t: Task, scope: Scope)
    requires MaySave(rows, t, scope)
    ensures (forall id, other | other != scope && IsCaller(other) ::
               Loaded(rows[t.id := Encode(scope, t)], id, other) == Loaded(rows, id, other))
            <==> StripScope(scope) == scope || !IsCaller(StripScope(scope))
  {
    forall id, other | other != scope && IsCaller(other) {
      SavesStayInScope(rows, t, scope, id, other);
    }
    if StripScope(scope) != scope && IsCaller(StripScope(scope)) {
      SavesStayInScope(rows, t, scope, t.id, StripScope(scope));
    }
  }

  const SPOILT: Scope := Scope([0x74], [0x62, 0]) // the owner "b" with a NUL behind it
  const CLEAN: Scope := Scope([0x74], [0x62])

  lemma SpoiltBecomesClean()
    ensures IsCaller(SPOILT) && IsCaller(CLEAN) && StripScope(SPOILT) == CLEAN
  {
    PlainEnds([0x74]);
    PlainEnds([0x62]);
    PlainEnds([0x62, 0]);
    StripKeepsWellFormedParts([0x74]);
    StripKeepsWellFormedParts([0x62, 0]);
    assert [0x74][1..] == [] && [0x62, 0][1..] == [0] && [0][1..] == [];
    assert KeepWellFormed([0]) == [];
    assert KeepWellFormed([0x62, 0]) == [0x62] && KeepWellFormed([0x74]) == [0x74];
  }

  /** Concretely: what the spoilt owner saves, the clean one loads and may overwrite, and itself does neither. */
  lemma SanitisedScopeLeaks(t: Task) returns (rows: Rows)
    ensures IsCaller(SPOILT) && IsCaller(CLEAN) && MaySave(map[], t, SPOILT)
    ensures rows == map[t.id := Encode(SPOILT, t)]
    ensures Loaded(rows, t.id, CLEAN) == Some(StripTask(t)) && MaySave(rows, t, CLEAN)
    ensures Loaded(rows, t.id, SPOILT) == None && !MaySave(rows, t, SPOILT)
  {
    SpoiltBecomesClean();
    rows := map[t.id := Encode(SPOILT, t)];
  }

  lemma PlainEnds(s: JsString)
    requires s != [] && !IsSpace(s[0]) && !IsSpace(s[|s| - 1])
    ensures Trim(s) == s
  {}

  /** Failing a task that may be failed shows it failed, to the scope that sanitising makes of its owner, and happens once. */
  lemma FailingHappensOnce(rows: Rows, id: JsString, reason: JsString, scope: Scope)
    requires id in rows && CanFail(rows[id])
    ensures var after := rows[id := FailedData(rows[id], reason)];
      && !CanFail(after[id])
      && (Loaded(after, id, scope).Some? <==> rows[id].Envelope? && scope == StripScope(rows[id].scope))
      && (Loaded(after, id, scope).Some? ==>
            Loaded(after, id, scope).value == StripTask(rows[id].task.(state := Failed, text := reason)))
  {}

  /** The same callers can load the task in both tables. */
  ghost predicate SameReaders(rows: Rows, after: Rows, id: JsString) {
    forall scope | IsCaller(scope) :: Loaded(rows, id, scope).Some? <==> Loaded(after, id, scope).Some?
  }

  /** The stored scope is left alone by sanitising, or is a caller's neither before nor after. */
  predicate KeepsOwner(d: Data) {
    d.Envelope? ==> StripScope(d.scope) == d.scope || (!IsCaller(d.scope) && !IsCaller(StripScope(d.scope)))
  }

  /** Failing keeps a task with the callers that could load it exactly when it keeps the stored owner. */
  lemma FailingKeepsTheOwner(rows: Rows, id: JsString, reason: JsString)
    requires id in rows && CanFail(rows[id])
    ensures SameReaders(rows, rows[id := FailedData(rows[id], reason)], id) <==> KeepsOwner(rows[id])
    ensures (forall scope :: Loaded(rows, id, scope).Some? <==>
                             Loaded(rows[id := FailedData(rows[id], reason)], id, scope).Some?)
            <==> (rows[id].Envelope? ==> WellFormedScope(rows[id].scope))
  {
    var after := rows[id := FailedData(rows[id], reason)];
    if rows[id].Envelope? {
      var scope := rows[id].scope;
      EncodeIsSanitised(scope, rows[id].task);
      assert Loaded(rows, id, scope).Some? && Loaded(after, id, StripScope(scope)).Some?;
      assert Loaded(after, id, scope).Some? <==> StripScope(scope) == scope;
      assert Loaded(rows, id, StripScope(scope)).Some? <==> StripScope(scope) == scope;
    }
  }

  /** Concretely: failing a row stored for the spoilt owner takes it from that owner and gives it to the clean one. */
  lemma FailingMovesATask(t: Task, reason: JsString) returns (rows: Rows, after: Rows)
    requires !IsTerminal(t.state)
    ensures rows == map[t.id := Envelope(SPOILT, t)] && CanFail(rows[t.id])
    ensures after == rows[t.id := FailedData(rows[t.id], reason)] && IsCaller(SPOILT) && IsCaller(CLEAN)
    ensures Loaded(rows, t.id, SPOILT) == Some(t) && Loaded(rows, t.id, CLEAN) == None
    ensures Loaded(after, t.id, SPOILT) == None && Loaded(after, t.id, CLEAN).Some?
  {
    SpoiltBecomesClean();
    rows := map[t.id := Envelope(SPOILT, t)];
    after := rows[t.id := FailedData(rows[t.id], reason)];
  }

  /** Exactly tasks in the three states that still move can be failed, legacy ones only with an id. */
  lemma CanFailExactly(d: Data)
    ensures CanFail(d) <==>
            (d.Envelope? || (d.Legacy? && d.task.id != [])) &&
            (d.task.state == Submitted || d.task.state == Working || d.task.state == InputRequired)
  {}

  /** What failing writes: state and sanitised reason, under the sanitised owner if there is one, all else sanitised. */
  lemma FailedByFields(d: Data, reason: JsString)
    requires CanFail(d)
    ensures var after := FailedData(d, reason);
      && (after.Envelope? <==> d.Envelope?) && (after.Legacy? <==> d.Legacy?)
      && after.task.state == Failed && after.task.text == Strip(reason)
      && after.task.id == Strip(d.task.id) && after.task.contextId == Strip(d.task.contextId)
      && (d.Envelope? ==> after.scope.tenant == Strip(d.scope.tenant) && after.scope.owner == Strip(d.scope.owner))
  {}

  /** A caller's scope is what stands between the white space of tenant and owner; a blank one is refused. */
  lemma ScopeExactly(tenant: JsString, owner: JsString)
    ensures ScopeOf(tenant, owner).None? <==> AllSpace(tenant) || AllSpace(owner)
    ensures ScopeOf(tenant, owner).Some? ==>
              && ScopeOf(tenant, owner).value.tenant == Trim(tenant) && ScopeOf(tenant, owner).value.owner == Trim(owner)
              && IsCaller(ScopeOf(tenant, owner).value)
  {
    var front, back := TrimExactly(tenant);
    front, back := TrimExactly(owner);
    TrimTwice(tenant);
    TrimTwice(owner);
  }

  lemma TrimTwice(s: JsString)
    ensures Trim(Trim(s)) == Trim(s)
  {
    if Trim(s) != [] {
      var front, back := TrimExactly(s);
      PlainEnds(Trim(s));
    }
  }
}
