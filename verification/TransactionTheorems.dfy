// What holds over whole interleavings of the transaction protocol.

/** The final tables are those of the kept units run one after another. */
module TransactionSerializability {
  import opened Common
  import opened TransactionProtocol

  datatype Outcome = Running | Kept | Dropped

  /** One stretch under the lock: a transaction frame with all its nested calls, or one exclusive write. */
  datatype Unit = Unit(ctx: nat, statements: seq<Statement>, outcome: Outcome)

  function CloseLast(units: seq<Unit>, c: nat, outcome: Outcome): seq<Unit> {
    if units == [] || Last(units).ctx != c || Last(units).outcome != Running then units
    else Init(units) + [Last(units).(outcome := outcome)]
  }

  /** The log of units a bystander keeps who never looks at the tables. */
  function Observe(s: State, step: Step, units: seq<Unit>): seq<Unit>
    requires Enabled(s, step)
  {
    match step
    case Grant => units + [Unit(s.queue[0], [], Running)]
    case Execute(c, f) =>
      if units == [] || Last(units).ctx != c || Last(units).outcome != Running then units
      else Init(units) + [Last(units).(statements := Last(units).statements + [f])]
    case DriverAbort(c) => CloseLast(units, c, Dropped)
    case Settle(c, ok) =>
      var top := Top(s.stacks[c]);
      if top.Owner? then CloseLast(units, c, if ok then Kept else Dropped)
      else if top.Writer? then CloseLast(units, c, Kept)
      else units
    case _ => units
  }

  /** The log after the first n steps. */
  ghost function Units(st: seq<State>, ev: seq<Step>, n: nat): seq<Unit>
    requires IsRun(st, ev) && n <= |ev|
  {
    if n == 0 then [] else Observe(st[n - 1], ev[n - 1], Units(st, ev, n - 1))
  }

  ghost function ApplyAll(rows: Rows, statements: seq<Statement>): Rows {
    if statements == [] then rows else Last(statements)(ApplyAll(rows, Init(statements)))
  }

  /** Run the units one after another, skipping the dropped ones. */
  ghost function Replay(rows: Rows, units: seq<Unit>): Rows {
    if units == [] then rows
    else
      var before := Replay(rows, Init(units));
      if Last(units).outcome == Dropped then before else ApplyAll(before, Last(units).statements)
  }

  /** Statements come from the lock holder only, and not after the driver dropped its transaction. */
  predicate Guarded(s: State, step: Step)
    requires Enabled(s, step)
  {
    match step
    case Execute(c, _) => s.holder == Some(c) && (Owns(s.stacks[c]) ==> s.connection.InTransaction?)
    case DriverAbort(c) => s.holder == Some(c)
    case _ => true
  }

  /** The step is guarded, or is a statement that changes nothing. */
  predicate Harmless(s: State, step: Step)
    requires Enabled(s, step)
  {
    Guarded(s, step) || (step.Execute? && step.statement(s.rows) == s.rows)
  }

  ghost predicate AllHarmless(st: seq<State>, ev: seq<Step>, n: nat)
    requires IsRun(st, ev) && n <= |ev|
  {
    forall i | 0 <= i < n :: Harmless(st[i], ev[i])
  }

  ghost predicate LedgerAgrees(rows: Rows, s: State, units: seq<Unit>) {
    && s.rows == Replay(rows, units)
    && (forall k | 0 <= k < |units| - 1 :: units[k].outcome != Running)
    && (s.holder.None? ==> units == [] || Last(units).outcome != Running)
    && (s.holder.Some? ==>
          && units != [] && Last(units).ctx == s.holder.value
          && s.holder.value < |s.stacks|
          && Last(units).outcome == (if Owns(s.stacks[s.holder.value]) && s.connection.Idle? then Dropped else Running))
    && (s.connection.InTransaction? ==> units != [] && s.connection.snapshot == Replay(rows, Init(units)))
  }

  /** A fresh unit changes nothing yet; it can be dropped just when it is a transaction. */
  lemma LedgerOpen(rows: Rows, t: State, c: nat, units: seq<Unit>)
    requires t.rows == Replay(rows, units) && forall k | 0 <= k < |units| :: units[k].outcome != Running
    requires t.holder == Some(c) && c < |t.stacks|
    requires Owns(t.stacks[c]) <==> t.connection.InTransaction?
    requires t.connection.InTransaction? ==> t.connection.snapshot == t.rows
    ensures LedgerAgrees(rows, t, units + [Unit(c, [], Running)])
  {
    var more := units + [Unit(c, [], Running)];
    assert Init(more) == units && Last(more) == Unit(c, [], Running);
    assert Replay(rows, more) == ApplyAll(Replay(rows, units), []);
  }

  lemma LedgerGrant(rows: Rows, s: State, units: seq<Unit>)
    requires Invariant(s) && Enabled(s, Grant) && LedgerAgrees(rows, s, units)
    ensures LedgerAgrees(rows, Granted(s), Observe(s, Grant, units))
  {
    InvariantGrant(s);
    var c := s.queue[0];
    assert c in s.queue && StackFits(s.stacks[c], false, true);
    GrantFits(s.stacks[c], Top(Granted(s).stacks[c]));
    LedgerOpen(rows, Granted(s), c, units);
  }

  lemma LedgerExecute(rows: Rows, s: State, c: nat, f: Statement, units: seq<Unit>)
    requires Invariant(s) && Enabled(s, Execute(c, f)) && Guarded(s, Execute(c, f))
    requires LedgerAgrees(rows, s, units)
    ensures LedgerAgrees(rows, Next(s, Execute(c, f)), Observe(s, Execute(c, f), units))
  {
    var more := Observe(s, Execute(c, f), units);
    assert Init(more) == Init(units);
    assert Init(Last(units).statements + [f]) == Last(units).statements;
  }

  lemma LedgerAbort(rows: Rows, s: State, c: nat, units: seq<Unit>)
    requires Invariant(s) && Enabled(s, DriverAbort(c)) && Guarded(s, DriverAbort(c))
    requires LedgerAgrees(rows, s, units)
    ensures LedgerAgrees(rows, Next(s, DriverAbort(c)), Observe(s, DriverAbort(c), units))
  {
    assert Init(Init(units) + [Last(units).(outcome := Dropped)]) == Init(units);
  }

  /** Closing the last unit gives up the lock and leaves the earlier units alone. */
  lemma LedgerClose(rows: Rows, s: State, t: State, c: nat, outcome: Outcome, units: seq<Unit>)
    requires LedgerAgrees(rows, s, units) && s.holder == Some(c) && outcome != Running
    requires t.holder.None? && t.connection.Idle?
    requires Last(units).outcome == Running ==>
               t.rows == if outcome == Dropped then Replay(rows, Init(units)) else s.rows
    requires Last(units).outcome != Running ==> t.rows == s.rows
    ensures LedgerAgrees(rows, t, CloseLast(units, c, outcome))
  {
    var closed := CloseLast(units, c, outcome);
    assert Init(closed) == Init(units);
    assert |closed| == |units| && forall k | 0 <= k < |units| - 1 :: closed[k] == units[k];
    assert Last(units).outcome != Running ==> closed == units;
  }

  lemma LedgerSettle(rows: Rows, s: State, c: nat, ok: bool, units: seq<Unit>)
    requires Invariant(s) && Enabled(s, Settle(c, ok)) && LedgerAgrees(rows, s, units)
    ensures LedgerAgrees(rows, Settled(s, c, ok), Observe(s, Settle(c, ok), units))
  {
    var top := Top(s.stacks[c]);
    LockFrameExists(s.stacks[c]);
    assert s.stacks[c] == Pop(s.stacks[c]) + [top];
    if top.Owner? || top.Writer? {
      assert s.holder == Some(c) && (top.Writer? ==> s.connection.Idle?);
      LedgerClose(rows, s, Settled(s, c, ok), c, if top.Owner? && !ok then Dropped else Kept, units);
    }
  }

  lemma LedgerCall(rows: Rows, s: State, step: Step, units: seq<Unit>)
    requires Invariant(s) && Enabled(s, step) && (step.CallTransaction? || step.CallExclusive?)
    requires LedgerAgrees(rows, s, units)
    ensures LedgerAgrees(rows, Next(s, step), Observe(s, step, units))
  {
    var c := step.ctx;
    assert forall f: Frame | !f.Owner? :: Owns(s.stacks[c] + [f]) == Owns(s.stacks[c]);
  }

  /** A statement that is not the holder's goes into no unit, so it must change nothing. */
  lemma LedgerStray(rows: Rows, s: State, c: nat, f: Statement, units: seq<Unit>)
    requires Invariant(s) && Enabled(s, Execute(c, f)) && !Guarded(s, Execute(c, f))
    requires LedgerAgrees(rows, s, units)
    ensures Observe(s, Execute(c, f), units) == units
    ensures LedgerAgrees(rows, Next(s, Execute(c, f)), units) <==> f(s.rows) == s.rows
  {}

  /** An abort behind the holder's back leaves the holder's unit running without a transaction. */
  lemma LedgerStrayAbort(rows: Rows, s: State, c: nat, units: seq<Unit>)
    requires Invariant(s) && Enabled(s, DriverAbort(c)) && !Guarded(s, DriverAbort(c))
    requires LedgerAgrees(rows, s, units)
    ensures !LedgerAgrees(rows, Next(s, DriverAbort(c)), Observe(s, DriverAbort(c), units))
  {}

  /** A step keeps tables and log in agreement exactly when it is harmless. */
  lemma LedgerStep(rows: Rows, s: State, step: Step, units: seq<Unit>)
    requires Invariant(s) && Enabled(s, step) && LedgerAgrees(rows, s, units)
    ensures LedgerAgrees(rows, Next(s, step), Observe(s, step, units)) <==> Harmless(s, step)
  {
    match step
    case Grant => LedgerGrant(rows, s, units);
    case CallTransaction(_) => LedgerCall(rows, s, step, units);
    case CallExclusive(_) => LedgerCall(rows, s, step, units);
    case Settle(c, ok) => LedgerSettle(rows, s, c, ok, units);
    case Execute(c, f) =>
      if Guarded(s, step) { LedgerExecute(rows, s, c, f, units); } else { LedgerStray(rows, s, c, f, units); }
    case DriverAbort(c) =>
      if Guarded(s, step) { LedgerAbort(rows, s, c, units); } else { LedgerStrayAbort(rows, s, c, units); }
  }

  /** Tables and log agree at the first n states and at state n. */
  ghost predicate SerialUpTo(st: seq<State>, ev: seq<Step>, n: nat)
    requires IsRun(st, ev) && n <= |ev|
  {
    forall k: nat | k <= n :: LedgerAgrees(st[0].rows, st[k], Units(st, ev, k))
  }

  /** A run is serial all the way exactly when every step of it is harmless. */
  lemma {:induction false} SerialExactly(st: seq<State>, ev: seq<Step>, n: nat)
    requires IsRun(st, ev) && Initial(st[0]) && n <= |ev|
    ensures SerialUpTo(st, ev, n) <==> AllHarmless(st, ev, n)
  {
    if n > 0 {
      SerialExactly(st, ev, n - 1);
      InitialInvariant(st[0]);
      InvariantRun(st, ev, n - 1);
      if SerialUpTo(st, ev, n - 1) {
        LedgerStep(st[0].rows, st[n - 1], ev[n - 1], Units(st, ev, n - 1));
        SerialOneMore(st, ev, n);
      }
    }
  }

  lemma SerialOneMore(st: seq<State>, ev: seq<Step>, n: nat)
    requires IsRun(st, ev) && 0 < n <= |ev| && SerialUpTo(st, ev, n - 1)
    ensures SerialUpTo(st, ev, n) <==> LedgerAgrees(st[0].rows, st[n], Units(st, ev, n))
  {}

  lemma AgreementMeans(rows: Rows, s: State, units: seq<Unit>)
    requires Invariant(s) && LedgerAgrees(rows, s, units)
    ensures s.rows == Replay(rows, units) && forall k | 0 <= k < |units| - 1 :: units[k].outcome != Running
    ensures s.holder.None? ==> Running !in Outcomes(units)
    ensures s.connection.InTransaction? ==>
              units != [] && Last(units).outcome == Running && Durable(s) == Replay(rows, Init(units))
  {}

  /**
   * Serializability.  At every point of every interleaving of harmless steps, the tables
   * are the units run one after another, those that threw skipped; only the last unit
   * can be unfinished, and a crash would leave the tables without it when it is a
   * transaction.
   */
  lemma SerialEquivalence(st: seq<State>, ev: seq<Step>, n: nat)
    requires IsRun(st, ev) && Initial(st[0]) && n <= |ev| && AllHarmless(st, ev, n)
    ensures var units := Units(st, ev, n);
      && st[n].rows == Replay(st[0].rows, units)
      && (forall k | 0 <= k < |units| - 1 :: units[k].outcome != Running)
      && (st[n].holder.None? ==> Running !in Outcomes(units))
      && (st[n].connection.InTransaction? ==>
            units != [] && Last(units).outcome == Running && Durable(st[n]) == Replay(st[0].rows, Init(units)))
  {
    InitialInvariant(st[0]);
    InvariantRun(st, ev, n);
    SerialExactly(st, ev, n);
    AgreementMeans(st[0].rows, st[n], Units(st, ev, n));
  }

  function Outcomes(units: seq<Unit>): seq<Outcome> {
    seq(|units|, i requires 0 <= i < |units| => units[i].outcome)
  }

  // ----- Which interleavings are guarded ----------------------------------------

  /** A context that opened nothing calls withTransaction while a transaction is open. */
  predicate LateArrival(s: State, step: Step)
    requires Enabled(s, step)
  {
    step.CallTransaction? && !Owns(s.stacks[step.ctx]) && s.connection.InTransaction?
  }

  /** A statement issued outside withTransaction and runExclusive. */
  predicate BareWrite(s: State, step: Step)
    requires Enabled(s, step)
  {
    (step.Execute? || step.DriverAbort?) && s.stacks[step.ctx] == []
  }

  /** The callback goes on writing after its transaction was rolled back under it. */
  predicate WriteAfterAbort(s: State, step: Step)
    requires Enabled(s, step)
  {
    step.Execute? && Owns(s.stacks[step.ctx]) && s.connection.Idle?
  }

  predicate IsWellBehaved(s: State, step: Step)
    requires Enabled(s, step)
  {
    !LateArrival(s, step) && !BareWrite(s, step) && !WriteAfterAbort(s, step)
  }

  ghost predicate WellBehaved(st: seq<State>, ev: seq<Step>, n: nat)
    requires IsRun(st, ev) && n <= |ev|
  {
    forall i | 0 <= i < n :: IsWellBehaved(st[i], ev[i])
  }

  /** Only the holder is inside a callback, and its lock frame is its outermost call. */
  ghost predicate OneInside(s: State) {
    forall c | 0 <= c < |s.stacks| && s.stacks[c] != [] ::
      if s.holder == Some(c) then s.stacks[c][0].Owner? || s.stacks[c][0].Writer?
      else |s.stacks[c]| == 1 && s.stacks[c][0].Waiting?
  }

  /** With one context inside, exactly bare writes and writes after an abort are unguarded. */
  lemma GuardedExactly(s: State, step: Step)
    requires Invariant(s) && OneInside(s) && Enabled(s, step)
    ensures Guarded(s, step) <==> !BareWrite(s, step) && !WriteAfterAbort(s, step)
  {
    if !step.Grant? {
      LockFrameExists(s.stacks[step.ctx]);
    }
  }

  /** Two lock frames, if the outermost call and the last one hold the lock each. */
  lemma OutermostAndTop(stack: seq<Frame>)
    ensures |stack| > 1 && stack[0] in {Owner, Writer} && Top(stack) in {Owner, Writer} ==> LockFrames(stack) >= 2
  {
    if |stack| > 1 {
      LockFrameExists(Pop(stack));
      assert stack[0] == Pop(stack)[0];
    }
  }

  /** Exactly a late arrival lets a second context in. */
  lemma OneInsideStep(s: State, step: Step)
    requires Invariant(s) && OneInside(s) && Enabled(s, step)
    ensures OneInside(Next(s, step)) <==> !LateArrival(s, step)
  {
    if step.Grant? {
      InvariantGrant(s);
    } else {
      var c := step.ctx;
      LockFrameExists(s.stacks[c]);
      OutermostAndTop(s.stacks[c]);
    }
  }

  lemma WellBehavedStep(s: State, step: Step)
    requires Invariant(s) && OneInside(s) && Enabled(s, step)
    ensures IsWellBehaved(s, step) <==> Guarded(s, step) && OneInside(Next(s, step))
  {
    GuardedExactly(s, step);
    OneInsideStep(s, step);
  }

  /** So far statements came from the lock holder only and only the holder was inside a callback. */
  ghost predicate Disciplined(st: seq<State>, ev: seq<Step>, n: nat)
    requires IsRun(st, ev) && n <= |ev|
  {
    (forall i | 0 <= i < n :: Guarded(st[i], ev[i])) && forall k: nat | k <= n :: OneInside(st[k])
  }

  /**
   * Late arrivals, bare writes and writes after an abort are exactly what can bring a
   * second context inside or a statement in from elsewhere.
   */
  lemma {:induction false} WellBehavedExactly(st: seq<State>, ev: seq<Step>, n: nat)
    requires IsRun(st, ev) && Initial(st[0]) && n <= |ev|
    ensures WellBehaved(st, ev, n) <==> Disciplined(st, ev, n)
  {
    if n > 0 {
      WellBehavedExactly(st, ev, n - 1);
      InitialInvariant(st[0]);
      InvariantRun(st, ev, n - 1);
      if Disciplined(st, ev, n - 1) {
        WellBehavedStep(st[n - 1], ev[n - 1]);
        DisciplinedOneMore(st, ev, n);
      }
    }
  }

  lemma DisciplinedOneMore(st: seq<State>, ev: seq<Step>, n: nat)
    requires IsRun(st, ev) && 0 < n <= |ev| && Disciplined(st, ev, n - 1)
    ensures Disciplined(st, ev, n) <==> Guarded(st[n - 1], ev[n - 1]) && OneInside(st[n])
  {}

  /** Without late arrivals, bare writes and writes after an abort, every interleaving is serial. */
  lemma WellBehavedRunsAreSerial(st: seq<State>, ev: seq<Step>, n: nat)
    requires IsRun(st, ev) && Initial(st[0]) && n <= |ev| && WellBehaved(st, ev, n)
    ensures SerialUpTo(st, ev, n) && st[n].rows == Replay(st[0].rows, Units(st, ev, n))
  {
    WellBehavedExactly(st, ev, n);
    assert AllHarmless(st, ev, n);
    SerialExactly(st, ev, n);
    assert LedgerAgrees(st[0].rows, st[n], Units(st, ev, n));
  }

  // ----- Rollback ---------------------------------------------------------------

  /** Context c opened its transaction at step i and is still under the lock at state k. */
  ghost predicate FrameSpans(st: seq<State>, ev: seq<Step>, c: nat, i: nat, k: nat)
    requires IsRun(st, ev)
  {
    && i < k <= |ev| && ev[i].Grant? && Invariant(st[i])
    && (forall m | i < m <= k :: st[m].holder == Some(c) && c < |st[m].stacks| && Owns(st[m].stacks[c]))
  }

  /** Whoever issued it, a statement outlives the frame if it is committed with it or ran on the bare connection. */
  predicate IsKept(s: State, step: Step, committed: bool) {
    step.Execute? && (committed || s.connection.Idle?)
  }

  function KeptNow(s: State, step: Step, committed: bool): seq<Statement> {
    if IsKept(s, step, committed) then [step.statement] else []
  }

  /** The statements of any context between steps i and k that outlive the frame. */
  ghost function Remaining(st: seq<State>, ev: seq<Step>, i: nat, k: nat, committed: bool): seq<Statement>
    requires |st| == |ev| + 1 && i < k <= |ev|
    decreases k
  {
    if k == i + 1 then [] else Remaining(st, ev, i, k - 1, committed) + KeptNow(st[k - 1], ev[k - 1], committed)
  }

  /** What the frame has come to: `all` and `bare` are the statements so far and those on the bare connection. */
  ghost predicate Anchored(s: State, rows: Rows, all: seq<Statement>, bare: seq<Statement>) {
    match s.connection
    case InTransaction(snapshot) => snapshot == rows && bare == [] && s.rows == ApplyAll(rows, all)
    case Idle => s.rows == ApplyAll(rows, bare)
  }

  lemma SpanOpens(s: State, t: State, c: nat)
    requires Invariant(s) && Enabled(s, Grant) && t == Next(s, Grant)
    requires t.holder == Some(c) && c < |t.stacks| && Owns(t.stacks[c])
    ensures Invariant(t) && t.connection == InTransaction(s.rows) && Anchored(t, s.rows, [], [])
  {
    InvariantGrant(s);
    assert c in s.queue && StackFits(s.stacks[c], false, true);
    GrantFits(s.stacks[c], Top(t.stacks[c]));
  }

  lemma ApplyOneMore(rows: Rows, statements: seq<Statement>, f: Statement)
    ensures ApplyAll(rows, statements + [f]) == f(ApplyAll(rows, statements))
  {
    assert Init(statements + [f]) == statements;
  }

  /** While c keeps the lock only a statement or an abort can touch the connection. */
  lemma SpanKeepsConnection(s: State, step: Step, t: State, c: nat)
    requires Invariant(s) && Enabled(s, step) && t == Next(s, step)
    requires s.holder == Some(c) && t.holder == Some(c)
    ensures Invariant(t)
    ensures t.connection == (if step.DriverAbort? then Idle else s.connection)
    ensures !step.Execute? && !step.DriverAbort? ==> t.rows == s.rows
  {
    InvariantStep(s, step);
    if step.Settle? {
      PopFits(s.stacks[step.ctx], s.holder == Some(step.ctx));
    }
  }

  lemma SpanStep(s: State, step: Step, t: State, c: nat, rows: Rows, all: seq<Statement>, bare: seq<Statement>)
    requires Invariant(s) && Enabled(s, step) && t == Next(s, step)
    requires s.holder == Some(c) && t.holder == Some(c)
    requires Anchored(s, rows, all, bare)
    ensures Invariant(t) && Anchored(t, rows, all + KeptNow(s, step, true), bare + KeptNow(s, step, false))
  {
    SpanKeepsConnection(s, step, t, c);
    if step.Execute? {
      ApplyOneMore(rows, all, step.statement);
      ApplyOneMore(rows, bare, step.statement);
    }
    assert bare + [] == bare && all + [] == all;
  }

  lemma {:induction false} SnapshotStays(st: seq<State>, ev: seq<Step>, c: nat, i: nat, k: nat)
    requires IsRun(st, ev) && FrameSpans(st, ev, c, i, k)
    ensures Invariant(st[k]) && Anchored(st[k], st[i].rows, Remaining(st, ev, i, k, true), Remaining(st, ev, i, k, false))
  {
    if k == i + 1 {
      SpanOpens(st[i], st[k], c);
    } else {
      SnapshotStays(st, ev, c, i, k - 1);
      var s, all, bare := st[k - 1], Remaining(st, ev, i, k - 1, true), Remaining(st, ev, i, k - 1, false);
      SpanStep(s, ev[k - 1], st[k], c, st[i].rows, all, bare);
    }
  }

  /** The frame ends by a commit: its callback returned and its transaction is still open. */
  predicate Commits(s: State, ok: bool) {
    ok && s.connection.InTransaction?
  }

  /**
   * The end of a transaction frame, exactly, whether its callback returns or throws: the
   * tables are those it began with and on top of them the statements that are kept, which
   * are all of them, nested calls' and late arrivals' included, when it commits, and
   * otherwise only those that ran after the driver itself had rolled it back.
   */
  lemma FrameEndsExactly(st: seq<State>, ev: seq<Step>, c: nat, i: nat, j: nat, ok: bool)
    requires IsRun(st, ev) && j < |ev| && FrameSpans(st, ev, c, i, j)
    requires ev[j] == Settle(c, ok) && Top(st[j].stacks[c]) == Owner
    ensures st[j + 1].holder.None? && st[j + 1].connection.Idle?
    ensures st[j + 1].rows == ApplyAll(st[i].rows, Remaining(st, ev, i, j, Commits(st[j], ok)))
    ensures st[j].connection.InTransaction? && !ok ==> st[j + 1].rows == st[i].rows
    ensures ok ==> st[j + 1].rows == st[j].rows
  {
    SnapshotStays(st, ev, c, i, j);
  }

  // ----- The fate of one statement inside the frame -------------------------------

  ghost predicate Establishes(P: Rows -> bool, f: Statement) {
    forall rows :: P(f(rows))
  }

  /** The statement has no say in whether P holds. */
  ghost predicate Ignores(P: Rows -> bool, f: Statement) {
    forall rows :: P(f(rows)) == P(rows)
  }

  /** Step m establishes P, and no other statement from i to j touches it. */
  ghost predicate OnlyWriter(P: Rows -> bool, ev: seq<Step>, i: nat, m: nat, j: nat) {
    && i < m < j <= |ev| && ev[m].Execute? && Establishes(P, ev[m].statement)
    && forall l | i < l < j && l != m && ev[l].Execute? :: Ignores(P, ev[l].statement)
  }

  lemma KeptDecidesStep(
      P: Rows -> bool, rows: Rows, before: seq<Statement>, s: State, step: Step, writer: bool, committed: bool)
    requires step.Execute? ==> if writer then Establishes(P, step.statement) else Ignores(P, step.statement)
    ensures P(ApplyAll(rows, before + KeptNow(s, step, committed))) <==>
            (writer && IsKept(s, step, committed)) || P(ApplyAll(rows, before))
  {
    if IsKept(s, step, committed) {
      ApplyOneMore(rows, before, step.statement);
    } else {
      assert before + [] == before;
    }
  }

  lemma {:induction false} KeptDecides(
      P: Rows -> bool, st: seq<State>, ev: seq<Step>, i: nat, m: nat, k: nat, j: nat, committed: bool)
    requires |st| == |ev| + 1 && i < k <= j <= |ev| && OnlyWriter(P, ev, i, m, j) && !P(st[i].rows)
    ensures P(ApplyAll(st[i].rows, Remaining(st, ev, i, k, committed))) <==> m < k && IsKept(st[m], ev[m], committed)
    decreases k
  {
    if k > i + 1 {
      KeptDecides(P, st, ev, i, m, k - 1, j, committed);
      KeptDecidesStep(P, st[i].rows, Remaining(st, ev, i, k - 1, committed), st[k - 1], ev[k - 1], m == k - 1, committed);
    }
  }

  /**
   * A write inside a transaction frame, by the frame itself, a nested call that may have
   * thrown, or a late arrival that may have returned long ago, is in the tables after
   * the frame if and only if the frame commits or the write ran after a driver abort.
   */
  lemma WriteIsKeptExactly(
      P: Rows -> bool, st: seq<State>, ev: seq<Step>, c: nat, i: nat, m: nat, j: nat, ok: bool)
    requires IsRun(st, ev) && j < |ev| && FrameSpans(st, ev, c, i, j)
    requires ev[j] == Settle(c, ok) && Top(st[j].stacks[c]) == Owner
    requires OnlyWriter(P, ev, i, m, j) && !P(st[i].rows)
    ensures P(st[j + 1].rows) <==> Commits(st[j], ok) || st[m].connection.Idle?
  {
    FrameEndsExactly(st, ev, c, i, j, ok);
    KeptDecides(P, st, ev, i, m, j, j, Commits(st[j], ok));
  }

  // ----- Where atomicity stops --------------------------------------------------

  function Put(key: string, value: int): Statement {
    (rows: Rows) => rows[key := value]
  }

  const EMPTY: State := State(map[], Idle, None, [], [[], []])
  const OPEN: State := State(map[], InTransaction(map[]), Some(0), [], [[Owner], []])

  lemma Extend(st: seq<State>, ev: seq<Step>, step: Step, t: State) returns (st': seq<State>, ev': seq<Step>)
    requires IsRun(st, ev) && Enabled(Last(st), step) && t == Next(Last(st), step)
    ensures st' == st + [t] && ev' == ev + [step] && IsRun(st', ev')
  {
    st', ev' := st + [t], ev + [step];
  }

  function PushedAt(stacks: seq<seq<Frame>>, c: nat, f: Frame): seq<seq<Frame>>
    requires c < |stacks|
  {
    stacks[c := stacks[c] + [f]]
  }

  function PoppedAt(stacks: seq<seq<Frame>>, c: nat): seq<seq<Frame>>
    requires c < |stacks| && stacks[c] != []
  {
    stacks[c := Pop(stacks[c])]
  }

  /** Context 0 holds the lock with an open transaction on empty tables. */
  lemma OpenTransaction() returns (st: seq<State>, ev: seq<Step>)
    ensures ev == [CallTransaction(0), Grant] && IsRun(st, ev) && Initial(st[0])
    ensures Last(st) == OPEN
  {
    var asked := EMPTY.(queue := [0], stacks := [[Waiting(ForTransaction)], []]);
    assert EMPTY.stacks[0] + [Waiting(ForTransaction)] == asked.stacks[0];
    assert asked.stacks == PushedAt(EMPTY.stacks, 0, Waiting(ForTransaction));
    st, ev := Extend([EMPTY], [], CallTransaction(0), asked);
    assert Enabled(asked, Grant);
    assert Pop(asked.stacks[0]) + [Owner] == [Owner];
    assert OPEN.stacks == asked.stacks[0 := Pop(asked.stacks[0]) + [Owner]];
    st, ev := Extend(st, ev, Grant, OPEN);
  }

  /** A late arrival's call returns normally and the stranger's ROLLBACK erases its write. */
  lemma LateArrivalLosesItsWrite() returns (st: seq<State>, ev: seq<Step>)
    ensures ev == [CallTransaction(0), Grant] + [CallTransaction(1)] + [Execute(1, Put("audit", 1))]
                  + [Settle(1, true)] + [Settle(0, false)]
    ensures IsRun(st, ev) && Initial(st[0])
    ensures "audit" in st[5].rows && "audit" !in st[6].rows
  {
    st, ev := OpenTransaction();
    var joined := OPEN.(stacks := [[Owner], [Joined]]);
    assert OPEN.stacks[1] + [Joined] == joined.stacks[1];
    assert joined.stacks == PushedAt(OPEN.stacks, 1, Joined);
    st, ev := Extend(st, ev, CallTransaction(1), joined);
    st, ev := Extend(st, ev, Execute(1, Put("audit", 1)), joined.(rows := map["audit" := 1]));
    var left := OPEN.(rows := map["audit" := 1]);
    assert left.stacks == PoppedAt(joined.stacks, 1);
    st, ev := Extend(st, ev, Settle(1, true), left);
    assert EMPTY.stacks == PoppedAt(left.stacks, 0);
    st, ev := Extend(st, ev, Settle(0, false), EMPTY);
  }

  /** A nested call that throws keeps its writes when the outer callback catches the error. */
  lemma CaughtNestedThrowKeepsItsWrite() returns (st: seq<State>, ev: seq<Step>)
    ensures ev == [CallTransaction(0), Grant] + [CallTransaction(0)] + [Execute(0, Put("k", 1))]
                  + [Settle(0, false)] + [Settle(0, true)]
    ensures IsRun(st, ev) && Initial(st[0])
    ensures Last(st).holder.None? && "k" in Last(st).rows
  {
    st, ev := OpenTransaction();
    var joined := OPEN.(stacks := [[Owner, Joined], []]);
    assert OPEN.stacks[0] + [Joined] == joined.stacks[0];
    assert joined.stacks == PushedAt(OPEN.stacks, 0, Joined);
    st, ev := Extend(st, ev, CallTransaction(0), joined);
    st, ev := Extend(st, ev, Execute(0, Put("k", 1)), joined.(rows := map["k" := 1]));
    var left := OPEN.(rows := map["k" := 1]);
    assert left.stacks == PoppedAt(joined.stacks, 0);
    st, ev := Extend(st, ev, Settle(0, false), left);
    assert EMPTY.stacks == PoppedAt(left.stacks, 0);
    st, ev := Extend(st, ev, Settle(0, true), EMPTY.(rows := map["k" := 1]));
  }

  /** A callback that writes on after the driver rolled it back leaves a trace although it throws. */
  lemma WriteAfterAbortSurvivesTheThrow() returns (st: seq<State>, ev: seq<Step>)
    ensures ev == [CallTransaction(0), Grant] + [DriverAbort(0)] + [Execute(0, Put("k", 1))] + [Settle(0, false)]
    ensures IsRun(st, ev) && Initial(st[0])
    ensures Last(st).holder.None? && "k" in Last(st).rows
  {
    st, ev := OpenTransaction();
    st, ev := Extend(st, ev, DriverAbort(0), OPEN.(connection := Idle));
    var written := OPEN.(connection := Idle, rows := map["k" := 1]);
    st, ev := Extend(st, ev, Execute(0, Put("k", 1)), written);
    assert EMPTY.stacks == PoppedAt(written.stacks, 0);
    st, ev := Extend(st, ev, Settle(0, false), EMPTY.(rows := map["k" := 1]));
  }
}

/** A write made through runExclusive is never inside anyone's transaction. */
module ExclusiveWrites {
  import opened Common
  import opened TransactionProtocol

  ghost predicate Preserves(P: Rows -> bool, f: Statement) {
    forall rows | P(rows) :: P(f(rows))
  }

  ghost predicate HoldsForGood(P: Rows -> bool, s: State) {
    P(s.rows) && P(Durable(s))
  }

  lemma ExclusiveWriteIsOutside(s: State, c: nat)
    requires Invariant(s) && CanRun(s, c) && s.stacks[c] != [] && Top(s.stacks[c]) == Writer
    ensures s.connection.Idle? && s.holder == Some(c)
  {
    LockFrameExists(s.stacks[c]);
  }

  /** No step but a statement can undo a fact that holds both inside and outside the transaction. */
  lemma FactStep(P: Rows -> bool, s: State, step: Step)
    requires Invariant(s) && Enabled(s, step) && HoldsForGood(P, s)
    requires step.Execute? ==> Preserves(P, step.statement)
    ensures HoldsForGood(P, Next(s, step))
  {
    if step.Grant? {
      InvariantGrant(s);
    } else if step.Settle? {
      LockFrameExists(s.stacks[step.ctx]);
    }
  }

  lemma {:induction false} FactRun(P: Rows -> bool, st: seq<State>, ev: seq<Step>, i: nat, k: nat)
    requires IsRun(st, ev) && Invariant(st[0]) && i <= k <= |ev| && HoldsForGood(P, st[i])
    requires forall m | i <= m < |ev| && ev[m].Execute? :: Preserves(P, ev[m].statement)
    ensures HoldsForGood(P, st[k])
  {
    if k > i {
      FactRun(P, st, ev, i, k - 1);
      InvariantRun(st, ev, k - 1);
      FactStep(P, st[k - 1], ev[k - 1]);
    }
  }

  /**
   * In every interleaving, late arrivals and bare writes included: a statement run by
   * runExclusive under the lock executes with no transaction open, becomes durable at
   * once, and what it established stays until some later statement breaks it.  No
   * ROLLBACK of another context can.
   */
  lemma ExclusiveWriteSurvives(P: Rows -> bool, st: seq<State>, ev: seq<Step>, i: nat, k: nat)
    requires IsRun(st, ev) && Initial(st[0]) && i < k <= |ev|
    requires ev[i].Execute? && st[i].stacks[ev[i].ctx] != [] && Top(st[i].stacks[ev[i].ctx]) == Writer
    requires P(ev[i].statement(st[i].rows))
    requires forall m | i < m < |ev| && ev[m].Execute? :: Preserves(P, ev[m].statement)
    ensures st[i].connection.Idle? && Durable(st[i + 1]) == ev[i].statement(Durable(st[i]))
    ensures P(st[k].rows) && P(Durable(st[k]))
  {
    InitialInvariant(st[0]);
    InvariantRun(st, ev, i);
    ExclusiveWriteIsOutside(st[i], ev[i].ctx);
    FactRun(P, st, ev, i + 1, k);
  }
}

/** Fairness of the lock and absence of deadlock. */
module TransactionProgress {
  import opened Common
  import opened TransactionProtocol
  import S = TransactionSerializability

  /** The call has to wait for the lock. */
  predicate Waits(s: State, step: Step)
    requires Enabled(s, step)
  {
    match step
    case CallTransaction(c) => !Owns(s.stacks[c]) && s.connection.Idle?
    case CallExclusive(c) => !Owns(s.stacks[c])
    case _ => false
  }

  function Asked(s: State, step: Step): seq<nat>
    requires Enabled(s, step)
  {
    if Waits(s, step) then [step.ctx] else []
  }

  function Began(s: State, t: State): seq<nat> {
    if s.holder.None? && t.holder.Some? then [t.holder.value] else []
  }

  /** The contexts that asked for the lock, in the order of their calls. */
  ghost function Arrivals(st: seq<State>, ev: seq<Step>, n: nat): seq<nat>
    requires IsRun(st, ev) && n <= |ev|
  {
    if n == 0 then [] else Arrivals(st, ev, n - 1) + Asked(st[n - 1], ev[n - 1])
  }

  /** The contexts in the order in which they came to hold the lock. */
  ghost function Starts(st: seq<State>, ev: seq<Step>, n: nat): seq<nat>
    requires IsRun(st, ev) && n <= |ev|
  {
    if n == 0 then [] else Starts(st, ev, n - 1) + Began(st[n - 1], st[n])
  }

  lemma QueueStep(s: State, step: Step, started: seq<nat>)
    requires Invariant(s) && Enabled(s, step)
    ensures started + Began(s, Next(s, step)) + Next(s, step).queue == started + s.queue + Asked(s, step)
  {
    if step.Grant? {
      InvariantGrant(s);
    }
  }

  /** First come, first served: who held the lock, followed by who waits, is who asked. */
  lemma {:induction false} LockIsFifo(st: seq<State>, ev: seq<Step>, n: nat)
    requires IsRun(st, ev) && Initial(st[0]) && n <= |ev|
    ensures Starts(st, ev, n) + st[n].queue == Arrivals(st, ev, n)
  {
    InitialInvariant(st[0]);
    if n > 0 {
      LockIsFifo(st, ev, n - 1);
      InvariantRun(st, ev, n - 1);
      QueueStep(st[n - 1], ev[n - 1], Starts(st, ev, n - 1));
    }
  }

  function Contexts(units: seq<S.Unit>): seq<nat> {
    seq(|units|, i requires 0 <= i < |units| => units[i].ctx)
  }

  /** The units of the serial log are numbered in the order in which their contexts asked. */
  lemma {:induction false} UnitsInArrivalOrder(st: seq<State>, ev: seq<Step>, n: nat)
    requires IsRun(st, ev) && Initial(st[0]) && n <= |ev|
    ensures Contexts(S.Units(st, ev, n)) == Starts(st, ev, n)
    ensures Contexts(S.Units(st, ev, n)) <= Arrivals(st, ev, n)
  {
    LockIsFifo(st, ev, n);
    if n > 0 {
      UnitsInArrivalOrder(st, ev, n - 1);
      InitialInvariant(st[0]);
      InvariantRun(st, ev, n - 1);
      UnitsStep(st[n - 1], ev[n - 1], S.Units(st, ev, n - 1));
    }
  }

  lemma UnitsStep(s: State, step: Step, units: seq<S.Unit>)
    requires Invariant(s) && Enabled(s, step)
    ensures Contexts(S.Observe(s, step, units)) == Contexts(units) + Began(s, Next(s, step))
  {
    if step.Grant? {
      InvariantGrant(s);
    }
  }

  // ----- Deadlock -----------------------------------------------------------------

  ghost predicate WaitsForItself(s: State) {
    s.holder.Some? && s.holder.value in s.queue
  }

  /**
   * The holder comes to wait for its own lock exactly when it makes a new call inside a
   * runExclusive callback; inside a transaction every call joins instead.
   */
  lemma SelfWaitExactly(s: State, step: Step)
    requires Invariant(s) && Enabled(s, step) && !WaitsForItself(s)
    ensures WaitsForItself(Next(s, step)) <==>
            (step.CallTransaction? || step.CallExclusive?) && Writer in s.stacks[step.ctx]
  {
    if step.Grant? {
      InvariantGrant(s);
      QueueTail(s.queue);
    } else {
      LockFrameExists(s.stacks[step.ctx]);
    }
  }

  lemma SelfWaitStep(s: State, step: Step)
    requires Invariant(s) && Enabled(s, step) && WaitsForItself(s)
    ensures WaitsForItself(Next(s, step)) && Next(s, step).holder == s.holder
  {
    if step.Settle? {
      LockFrameExists(s.stacks[step.ctx]);
    }
  }

  /** Such a wait never ends. */
  lemma {:induction false} SelfWaitIsForever(st: seq<State>, ev: seq<Step>, i: nat, k: nat)
    requires IsRun(st, ev) && i <= k <= |ev| && Invariant(st[i]) && WaitsForItself(st[i])
    ensures Invariant(st[k]) && WaitsForItself(st[k]) && st[k].holder == st[i].holder
  {
    if k > i {
      SelfWaitIsForever(st, ev, i, k - 1);
      InvariantStep(st[k - 1], ev[k - 1]);
      SelfWaitStep(st[k - 1], ev[k - 1]);
    }
  }

  /** A transaction opened inside a runExclusive callback: the context waits for the lock it holds. */
  lemma NestedCallWaitsForItself() returns (st: seq<State>, ev: seq<Step>)
    ensures ev == [CallExclusive(0), Grant] + [CallTransaction(0)]
    ensures IsRun(st, ev) && Initial(st[0]) && WaitsForItself(st[3]) && st[3].holder == Some(0) && st[3].queue == [0]
  {
    var asked := S.EMPTY.(queue := [0], stacks := [[Waiting(ForExclusive)], []]);
    assert S.EMPTY.stacks[0] + [Waiting(ForExclusive)] == asked.stacks[0];
    assert asked.stacks == S.PushedAt(S.EMPTY.stacks, 0, Waiting(ForExclusive));
    st, ev := S.Extend([S.EMPTY], [], CallExclusive(0), asked);
    var inside := S.EMPTY.(holder := Some(0), stacks := [[Writer], []]);
    assert Pop(asked.stacks[0]) + [Writer] == [Writer];
    assert inside.stacks == asked.stacks[0 := Pop(asked.stacks[0]) + [Writer]];
    st, ev := S.Extend(st, ev, Grant, inside);
    var stuck := inside.(queue := [0], stacks := [[Writer, Waiting(ForTransaction)], []]);
    assert inside.stacks[0] + [Waiting(ForTransaction)] == stuck.stacks[0];
    assert stuck.stacks == S.PushedAt(inside.stacks, 0, Waiting(ForTransaction));
    st, ev := S.Extend(st, ev, CallTransaction(0), stuck);
  }

  /** How many steps a context still needs once its callbacks end. */
  function Weight(stack: seq<Frame>): nat {
    |stack| + if IsWaiting(stack) then 1 else 0
  }

  function Rank(stacks: seq<seq<Frame>>): nat {
    if stacks == [] then 0 else Rank(stacks[..|stacks| - 1]) + Weight(Last(stacks))
  }

  lemma {:induction false} RankUpdate(stacks: seq<seq<Frame>>, c: nat, stack: seq<Frame>)
    requires c < |stacks|
    ensures Rank(stacks[c := stack]) == Rank(stacks) - Weight(stacks[c]) + Weight(stack)
    decreases |stacks|
  {
    var updated := stacks[c := stack];
    if c == |stacks| - 1 {
      assert updated[..|stacks| - 1] == stacks[..|stacks| - 1];
    } else {
      RankUpdate(stacks[..|stacks| - 1], c, stack);
      assert updated[..|stacks| - 1] == stacks[..|stacks| - 1][c := stack];
    }
  }

  lemma {:induction false} RankZero(stacks: seq<seq<Frame>>)
    ensures Rank(stacks) == 0 <==> forall c | 0 <= c < |stacks| :: stacks[c] == []
    decreases |stacks|
  {
    if stacks != [] {
      RankZero(stacks[..|stacks| - 1]);
      assert forall c | 0 <= c < |stacks| - 1 :: stacks[..|stacks| - 1][c] == stacks[c];
    }
  }

  /** The next waiter starts, or some callback ends. */
  predicate IsEnding(step: Step) {
    step.Grant? || step.Settle?
  }

  lemma EndingStep(s: State, step: Step)
    requires Invariant(s) && Enabled(s, step) && IsEnding(step) && !WaitsForItself(s)
    ensures !WaitsForItself(Next(s, step)) && Rank(Next(s, step).stacks) == Rank(s.stacks) - 1
  {
    SelfWaitExactly(s, step);
    var t := Next(s, step);
    var c := if step.Grant? then s.queue[0] else step.ctx;
    if step.Grant? {
      InvariantGrant(s);
      assert c in s.queue;
      assert t.stacks[c] == Pop(s.stacks[c]) + [Top(t.stacks[c])];
    }
    RankUpdate(s.stacks, c, t.stacks[c]);
    assert t.stacks == s.stacks[c := t.stacks[c]];
  }

  lemma SomeEndingEnabled(s: State)
    requires Invariant(s) && !WaitsForItself(s) && Rank(s.stacks) > 0
    ensures SomeEnding(s)
  {
    RankZero(s.stacks);
    if s.holder.Some? {
      var c := s.holder.value;
      LockFrameExists(s.stacks[c]);
      assert Enabled(s, Settle(c, true));
    } else if s.queue != [] {
      assert s.queue[0] in s.queue;
      assert Enabled(s, Grant);
    } else {
      var c :| 0 <= c < |s.stacks| && s.stacks[c] != [];
      assert Enabled(s, Settle(c, true));
    }
  }

  lemma {:induction false} EndingsCountDown(st: seq<State>, ev: seq<Step>, n: nat)
    requires IsRun(st, ev) && n <= |ev| && Invariant(st[0]) && !WaitsForItself(st[0])
    requires forall i | 0 <= i < |ev| :: IsEnding(ev[i])
    ensures Invariant(st[n]) && !WaitsForItself(st[n]) && Rank(st[n].stacks) == Rank(st[0].stacks) - n
  {
    if n > 0 {
      EndingsCountDown(st, ev, n - 1);
      InvariantStep(st[n - 1], ev[n - 1]);
      EndingStep(st[n - 1], ev[n - 1]);
    }
  }

  ghost predicate AllReturned(s: State) {
    forall c | 0 <= c < |s.stacks| :: s.stacks[c] == []
  }

  ghost predicate SomeEnding(s: State) {
    exists step :: IsEnding(step) && Enabled(s, step)
  }

  /**
   * No deadlock.  From any reachable state where no exclusive callback has nested a
   * call, if the callbacks only end from here on, then whatever the order: as long as
   * fewer than Rank steps were taken some step is enabled, and after Rank steps every
   * call of every context has returned.
   */
  lemma EveryCallReturns(st: seq<State>, ev: seq<Step>, n: nat)
    requires IsRun(st, ev) && n <= |ev| && Invariant(st[0]) && !WaitsForItself(st[0])
    requires forall i | 0 <= i < |ev| :: IsEnding(ev[i])
    ensures n <= Rank(st[0].stacks)
    ensures n < Rank(st[0].stacks) ==> SomeEnding(st[n])
    ensures n == Rank(st[0].stacks) <==> AllReturned(st[n])
  {
    EndingsCountDown(st, ev, n);
    RankZero(st[n].stacks);
    if Rank(st[n].stacks) > 0 {
      SomeEndingEnabled(st[n]);
    }
  }

  /** Runs whose runExclusive callbacks do not nest never reach a self-wait. */
  lemma {:induction false} NoNestingNoSelfWait(st: seq<State>, ev: seq<Step>, n: nat)
    requires IsRun(st, ev) && Initial(st[0]) && n <= |ev|
    requires forall i | 0 <= i < |ev| && (ev[i].CallTransaction? || ev[i].CallExclusive?) ::
               Writer !in st[i].stacks[ev[i].ctx]
    ensures Invariant(st[n]) && !WaitsForItself(st[n])
  {
    if n == 0 {
      InitialInvariant(st[0]);
    } else {
      NoNestingNoSelfWait(st, ev, n - 1);
      InvariantStep(st[n - 1], ev[n - 1]);
      SelfWaitExactly(st[n - 1], ev[n - 1]);
    }
  }
}
