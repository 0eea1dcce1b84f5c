// The life of one accepted CLI process, from spawn to verdict, driven by events that
// arrive in any order: termination requests, decode failures, the force-kill timer,
// kill attempts that settle, and the child's own `close` and `error` events.

module ProcessLifecycle {
  import opened Common

  datatype Platform = Posix | Windows

  datatype TerminationReason = TimedOut | Cancelled

  datatype ExitReason = Completed | Ended(cause: TerminationReason) | SpawnError

  datatype Result = Result(reason: ExitReason, exitCode: Option<int>, error: Option<string>)

  datatype Process = Process(
    platform: Platform,
    terminationReason: Option<TerminationReason>,
    timeoutArmed: bool,
    forceKillTimer: bool,        // armed and not yet fired or cleared
    forceKillSent: bool,
    attempt: Option<nat>,        // the kill attempt that closing has to wait for
    outstanding: set<nat>,       // every kill attempt that has not settled
    attempts: nat,
    pendingClose: Option<Result>,
    decodeError: Option<string>,
    closed: bool,
    errored: bool,
    finalized: Option<Result>)

  datatype Event =
    | Timeout
    | Cancel                     // cancel(), an abort signal, or shutdown()
    | DecodeFailure(error: string)
    | ForceKill
    | AttemptSettles(id: nat)
    | Close(exitCode: Option<int>, groupAlive: bool)
    | Error(error: string)

  function Spawned(platform: Platform): Process {
    Process(platform, None, true, false, false, None, {}, 0, None, None, false, false, None)
  }

  /** Timers fire while armed, node emits `close` and `error` once, requests reach active runs only. */
  predicate Enabled(p: Process, e: Event) {
    match e
    case Timeout => p.timeoutArmed
    case Cancel => p.finalized.None?
    case DecodeFailure(_) => true
    case ForceKill => p.forceKillTimer
    case AttemptSettles(id) => id in p.outstanding
    case Close(_, _) => !p.closed
    case Error(_) => !p.errored
  }

  /** Only Windows has to wait for a kill; a POSIX signal is sent and done. */
  function StartAttempt(p: Process): Process {
    match p.platform
    case Posix => p
    case Windows => p.(attempt := Some(p.attempts), outstanding := p.outstanding + {p.attempts}, attempts := p.attempts + 1)
  }

  function Terminate(p: Process, reason: TerminationReason): Process {
    var q := p.(terminationReason := p.terminationReason.Or(Some(reason)));
    if q.forceKillTimer || q.forceKillSent then q else StartAttempt(q).(forceKillTimer := true)
  }

  function Finalize(p: Process, r: Result): Process {
    if p.finalized.Some? then p
    else p.(finalized := Some(r), forceKillTimer := false, timeoutArmed := false)
  }

  function ToExit(reason: Option<TerminationReason>, otherwise: ExitReason): ExitReason {
    if reason.Some? then Ended(reason.value) else otherwise
  }

  /** The verdict an end event carries, given what was recorded when it arrived. */
  function Verdict(decodeError: Option<string>, reason: Option<TerminationReason>, e: Event): Result
    requires e.Close? || e.Error?
  {
    if decodeError.Some? then Result(SpawnError, None, decodeError)
    else match e
      case Close(code, _) => Result(ToExit(reason, Completed), code, None)
      case Error(error) => Result(ToExit(reason, SpawnError), None, Some(error))
  }

  predicate IsEnd(e: Event) {
    e.Close? || e.Error?
  }

  function DecodeErrorOf(e: Event): Option<string> {
    if e.DecodeFailure? then Some(e.error) else None
  }

  /** The termination that an event asks for. */
  function RequestOf(e: Event): Option<TerminationReason> {
    match e
    case Timeout => Some(TimedOut)
    case Cancel => Some(Cancelled)
    case DecodeFailure(_) => Some(Cancelled)
    case _ => None
  }

  function Next(p: Process, e: Event): Process
    requires Enabled(p, e)
  {
    match e
    case Timeout => Terminate(p.(timeoutArmed := false), TimedOut)
    case Cancel => Terminate(p, Cancelled)
    case DecodeFailure(error) =>
      if p.decodeError.Some? then p
      else
        var q := p.(decodeError := Some(error));
        if p.finalized.None? then Terminate(q, Cancelled) else q
    case ForceKill =>
      var q := StartAttempt(p.(forceKillTimer := false, forceKillSent := true));
      if q.pendingClose.Some? && q.attempt.None? then Finalize(q, q.pendingClose.value) else q
    case AttemptSettles(id) =>
      var q := p.(outstanding := p.outstanding - {id});
      if p.attempt != Some(id) then q
      else
        var r := q.(attempt := None);
        if r.pendingClose.Some? then Finalize(r, r.pendingClose.value) else r
    case Close(_, alive) =>
      var q := p.(closed := true);
      var result := Verdict(p.decodeError, p.terminationReason, e);
      if p.terminationReason.Some? && (p.attempt.Some? || (!p.forceKillSent && alive && p.platform.Posix?))
      then q.(pendingClose := Some(result))
      else Finalize(q, result)
    case Error(_) =>
      var q := p.(errored := true);
      var result := Verdict(p.decodeError, p.terminationReason, e);
      if p.terminationReason.Some? && p.attempt.Some? then q.(pendingClose := Some(result))
      else Finalize(q, result)
  }

  ghost predicate Invariant(p: Process) {
    && (p.forceKillTimer ==> p.finalized.None? && !p.forceKillSent)
    && (p.timeoutArmed ==> p.finalized.None?)
    && (p.attempt.Some? ==> p.attempt.value in p.outstanding)
    && (p.platform.Posix? ==> p.outstanding == {} && (p.pendingClose.Some? ==> p.closed))
    && (forall id | id in p.outstanding :: id < p.attempts)
    && (p.finalized.None? ==>
          && (p.terminationReason.Some? ==> p.forceKillTimer || p.forceKillSent)
          && (p.terminationReason.None? ==>
                !p.forceKillTimer && !p.forceKillSent && p.attempt.None? && p.pendingClose.None?)
          && (p.decodeError.Some? ==> p.terminationReason.Some?)
          && (p.closed ==> p.pendingClose.Some?)
          && (p.pendingClose.Some? ==> p.attempt.Some? || p.forceKillTimer))
  }

  lemma RequestKeeps(p: Process, e: Event)
    requires Invariant(p) && Enabled(p, e) && (e.Timeout? || e.Cancel? || e.DecodeFailure?)
    ensures Invariant(Next(p, e)) && Next(p, e).finalized == p.finalized
  {}

  lemma ForceKillKeeps(p: Process)
    requires Invariant(p) && Enabled(p, ForceKill)
    ensures Invariant(Next(p, ForceKill))
  {}

  lemma SettleKeeps(p: Process, id: nat)
    requires Invariant(p) && Enabled(p, AttemptSettles(id))
    ensures Invariant(Next(p, AttemptSettles(id)))
  {}

  lemma EndKeeps(p: Process, e: Event)
    requires Invariant(p) && Enabled(p, e) && IsEnd(e)
    ensures Invariant(Next(p, e))
  {}

  /** Every event, in whatever state it finds the run, keeps the invariant. */
  lemma InvariantStep(p: Process, e: Event)
    requires Invariant(p) && Enabled(p, e)
    ensures Invariant(Next(p, e))
    ensures p.finalized.Some? ==> Next(p, e).finalized == p.finalized
  {
    match e
    case ForceKill => ForceKillKeeps(p);
    case AttemptSettles(id) => SettleKeeps(p, id);
    case Close(_, _) => EndKeeps(p, e);
    case Error(_) => EndKeeps(p, e);
    case _ => RequestKeeps(p, e);
  }

  lemma DecodeErrorStep(p: Process, e: Event)
    requires Enabled(p, e)
    ensures Next(p, e).decodeError == p.decodeError.Or(DecodeErrorOf(e))
  {
    if e.DecodeFailure? {
      assert DecodeErrorOf(e) == Some(e.error);
    } else {
      assert p.decodeError.Or(None) == p.decodeError;
    }
  }

  lemma RequestStep(p: Process, e: Event)
    requires Invariant(p) && Enabled(p, e)
    ensures p.terminationReason.Some? ==> Next(p, e).terminationReason == p.terminationReason
    ensures p.finalized.None? && p.terminationReason.None? ==> Next(p, e).terminationReason == RequestOf(e)
  {}

  /** The first decode error and the first termination request are the ones kept. */
  lemma RecordStep(p: Process, e: Event)
    requires Invariant(p) && Enabled(p, e)
    ensures Next(p, e).decodeError == p.decodeError.Or(DecodeErrorOf(e))
    ensures p.terminationReason.Some? ==> Next(p, e).terminationReason == p.terminationReason
    ensures p.finalized.None? ==> Next(p, e).terminationReason == p.terminationReason.Or(RequestOf(e))
  {
    DecodeErrorStep(p, e);
    RequestStep(p, e);
  }

  ghost predicate IsRun(ps: seq<Process>, ev: seq<Event>) {
    && |ps| == |ev| + 1
    && forall i | 0 <= i < |ev| :: Enabled(ps[i], ev[i]) && ps[i + 1] == Next(ps[i], ev[i])
  }

  lemma {:induction false} InvariantRun(ps: seq<Process>, ev: seq<Event>, i: nat, k: nat)
    requires IsRun(ps, ev) && i <= k <= |ev| && Invariant(ps[i])
    ensures Invariant(ps[k])
    ensures ps[i].finalized.Some? ==> ps[k].finalized == ps[i].finalized
    ensures ps[i].terminationReason.Some? ==> ps[k].terminationReason == ps[i].terminationReason
    ensures ps[i].decodeError.Some? ==> ps[k].decodeError == ps[i].decodeError
  {
    if k > i {
      InvariantRun(ps, ev, i, k - 1);
      InvariantStep(ps[k - 1], ev[k - 1]);
      RecordStep(ps[k - 1], ev[k - 1]);
    }
  }

  // ----- Termination ---------------------------------------------------------------

  /** The events the environment owes: the timer, the kill attempts, and the close. */
  predicate IsDue(e: Event) {
    e.ForceKill? || e.AttemptSettles? || e.Close?
  }

  function DueEvents(ev: seq<Event>, n: nat): nat
    requires n <= |ev|
  {
    if n == 0 then 0 else DueEvents(ev, n - 1) + if IsDue(ev[n - 1]) then 1 else 0
  }

  /** How many due events can still come before the verdict; a timer on Windows brings one more attempt. */
  function Rank(p: Process): nat {
    if p.finalized.Some? then 0
    else
      (if !p.forceKillTimer then 0 else if p.platform.Windows? then 2 else 1)
      + |p.outstanding| + if p.closed then 0 else 1
  }

  lemma RankForceKill(p: Process)
    requires Invariant(p) && Enabled(p, ForceKill)
    ensures var q := Next(p, ForceKill); q.finalized.Some? || Rank(q) <= Rank(p) - 1
  {}

  lemma RankSettle(p: Process, id: nat)
    requires Invariant(p) && Enabled(p, AttemptSettles(id)) && p.finalized.None?
    ensures var q := Next(p, AttemptSettles(id)); q.finalized.Some? || Rank(q) <= Rank(p) - 1
  {}

  /** A due event uses up one; no other event adds one. */
  lemma RankStep(p: Process, e: Event)
    requires Invariant(p) && Enabled(p, e) && p.terminationReason.Some? && p.finalized.None?
    ensures Next(p, e).finalized.Some? || Rank(Next(p, e)) <= Rank(p) - if IsDue(e) then 1 else 0
  {
    match e
    case ForceKill => RankForceKill(p);
    case AttemptSettles(id) => RankSettle(p, id);
    case _ =>
  }

  /** While a termination is under way without verdict, something due is still to come. */
  lemma SomethingIsDue(p: Process)
    requires Invariant(p) && p.terminationReason.Some? && p.finalized.None?
    ensures Rank(p) > 0 && exists e :: IsDue(e) && Enabled(p, e)
  {
    if p.forceKillTimer {
      assert Enabled(p, ForceKill);
    } else if !p.closed {
      assert Enabled(p, Close(None, false));
    } else {
      assert Enabled(p, AttemptSettles(p.attempt.value));
    }
  }

  lemma CompletionStep(p: Process, e: Event)
    requires Invariant(p) && Enabled(p, e) && p.terminationReason.Some?
    ensures Invariant(Next(p, e)) && Next(p, e).terminationReason.Some?
    ensures Next(p, e).finalized.None? ==>
              p.finalized.None? && Rank(Next(p, e)) <= Rank(p) - if IsDue(e) then 1 else 0
  {
    InvariantStep(p, e);
    RequestStep(p, e);
    if p.finalized.None? {
      RankStep(p, e);
    }
  }

  /**
   * Once termination was requested, the run has its verdict after at most Rank due
   * events, in whatever order they come and whatever else happens between them.
   */
  lemma {:induction false} TerminationCompletes(ps: seq<Process>, ev: seq<Event>, n: nat)
    requires IsRun(ps, ev) && Invariant(ps[0]) && ps[0].terminationReason.Some? && n <= |ev|
    ensures Invariant(ps[n]) && ps[n].terminationReason.Some?
    ensures ps[n].finalized.None? ==> Rank(ps[n]) + DueEvents(ev, n) <= Rank(ps[0])
    ensures DueEvents(ev, n) >= Rank(ps[0]) ==> ps[n].finalized.Some?
  {
    if n > 0 {
      TerminationCompletes(ps, ev, n - 1);
      CompletionStep(ps[n - 1], ev[n - 1]);
    }
    if ps[n].finalized.None? {
      SomethingIsDue(ps[n]);
    }
  }

  /** Timer fired, attempts settled, child closed: nothing is left to wait for. */
  lemma NothingLeftMeansFinalized(p: Process)
    requires Invariant(p) && p.terminationReason.Some?
    requires !p.forceKillTimer && p.outstanding == {} && p.closed
    ensures p.finalized.Some?
  {}

  /** A terminated POSIX run that ends by close was force-killed or its group was seen dead. */
  lemma PosixEscalates(p: Process, e: Event)
    requires Invariant(p) && Enabled(p, e) && p.platform.Posix? && p.terminationReason.Some?
    requires p.finalized.None? && Next(p, e).finalized.Some? && !e.Error?
    ensures Next(p, e).closed
    ensures Next(p, e).forceKillSent || (e.Close? && !e.groupAlive)
  {}

  // ----- The verdict ---------------------------------------------------------------

  function FirstDecodeError(ev: seq<Event>, n: nat): Option<string>
    requires n <= |ev|
  {
    if n == 0 then None else FirstDecodeError(ev, n - 1).Or(DecodeErrorOf(ev[n - 1]))
  }

  function FirstRequest(ev: seq<Event>, n: nat): Option<TerminationReason>
    requires n <= |ev|
  {
    if n == 0 then None else FirstRequest(ev, n - 1).Or(RequestOf(ev[n - 1]))
  }

  function VerdictAt(ev: seq<Event>, j: nat): Result
    requires j < |ev| && IsEnd(ev[j])
  {
    Verdict(FirstDecodeError(ev, j), FirstRequest(ev, j), ev[j])
  }

  /** j is the last end event among the first n. */
  predicate LastEnd(ev: seq<Event>, j: nat, n: nat) {
    j < n <= |ev| && IsEnd(ev[j]) && forall i | j < i < n :: !IsEnd(ev[i])
  }

  /** What the state records is what the events so far say, read on their own. */
  lemma {:induction false} RecordsAreFirsts(platform: Platform, ps: seq<Process>, ev: seq<Event>, n: nat)
    requires IsRun(ps, ev) && ps[0] == Spawned(platform) && n <= |ev|
    ensures Invariant(ps[n]) && ps[n].decodeError == FirstDecodeError(ev, n)
    ensures ps[n].finalized.None? ==> ps[n].terminationReason == FirstRequest(ev, n)
  {
    if n > 0 {
      RecordsAreFirsts(platform, ps, ev, n - 1);
      InvariantStep(ps[n - 1], ev[n - 1]);
      RecordStep(ps[n - 1], ev[n - 1]);
    }
  }

  /** Where a deferred or final verdict can come from. */
  lemma VerdictStep(p: Process, e: Event)
    requires Invariant(p) && Enabled(p, e) && p.finalized.None?
    ensures var q := Next(p, e);
      if IsEnd(e) then
        var verdict := Some(Verdict(p.decodeError, p.terminationReason, e));
        if q.finalized.Some? then q.finalized == verdict else q.pendingClose == verdict
      else
        if q.finalized.Some? then q.finalized == p.pendingClose else q.pendingClose == p.pendingClose
  {}

  /** r is the verdict of the last end event among the first n. */
  predicate Decides(ev: seq<Event>, j: nat, n: nat, r: Option<Result>) {
    LastEnd(ev, j, n) && r == Some(VerdictAt(ev, j))
  }

  lemma DecidesStep(ev: seq<Event>, j: nat, n: nat, r: Option<Result>)
    requires n < |ev| && !IsEnd(ev[n]) && Decides(ev, j, n, r)
    ensures Decides(ev, j, n + 1, r)
  {}

  /** A deferred verdict is the one of the last end event so far. */
  lemma {:induction false} DeferredVerdict(platform: Platform, ps: seq<Process>, ev: seq<Event>, n: nat) returns (j: nat)
    requires IsRun(ps, ev) && ps[0] == Spawned(platform) && n <= |ev|
    requires ps[n].finalized.None? && ps[n].pendingClose.Some?
    ensures Decides(ev, j, n, ps[n].pendingClose)
    decreases n, 0
  {
    RecordsAreFirsts(platform, ps, ev, n - 1);
    UnfinalizedBefore(ps, ev, n - 1, n);
    j := LastVerdict(platform, ps, ev, n - 1);
  }

  lemma {:induction false} LastVerdict(platform: Platform, ps: seq<Process>, ev: seq<Event>, n: nat) returns (j: nat)
    requires IsRun(ps, ev) && ps[0] == Spawned(platform) && n < |ev| && ps[n].finalized.None?
    requires ps[n + 1].finalized.Some? || ps[n + 1].pendingClose.Some?
    ensures Decides(ev, j, n + 1, if ps[n + 1].finalized.Some? then ps[n + 1].finalized else ps[n + 1].pendingClose)
    decreases n, 1
  {
    RecordsAreFirsts(platform, ps, ev, n);
    VerdictStep(ps[n], ev[n]);
    if IsEnd(ev[n]) {
      j := n;
    } else {
      j := DeferredVerdict(platform, ps, ev, n);
      DecidesStep(ev, j, n, ps[n].pendingClose);
    }
  }

  /**
   * The verdict of a run is decided by its last end event before it was finalized: the
   * first decode error recorded by then, else the first termination request made by
   * then, else the end event itself.  It is given once and never changes.
   */
  lemma VerdictIsFirstCause(platform: Platform, ps: seq<Process>, ev: seq<Event>, n: nat) returns (j: nat)
    requires IsRun(ps, ev) && ps[0] == Spawned(platform)
    requires n < |ev| && ps[n].finalized.None? && ps[n + 1].finalized.Some?
    ensures LastEnd(ev, j, n + 1) && ps[n + 1].finalized == Some(VerdictAt(ev, j))
    ensures forall k | n < k <= |ev| :: ps[k].finalized == ps[n + 1].finalized
  {
    j := LastVerdict(platform, ps, ev, n);
    RecordsAreFirsts(platform, ps, ev, n + 1);
    forall k | n < k <= |ev| ensures ps[k].finalized == ps[n + 1].finalized {
      InvariantRun(ps, ev, n + 1, k);
    }
  }

  lemma {:induction false} FirstDecodeErrorStays(ev: seq<Event>, j: nat, n: nat)
    requires j <= n <= |ev|
    ensures FirstDecodeError(ev, j).Some? ==> FirstDecodeError(ev, n) == FirstDecodeError(ev, j)
  {
    if j < n {
      FirstDecodeErrorStays(ev, j, n - 1);
    }
  }

  lemma {:induction false} UnfinalizedBefore(ps: seq<Process>, ev: seq<Event>, i: nat, k: nat)
    requires IsRun(ps, ev) && i <= k <= |ev| && Invariant(ps[i]) && ps[k].finalized.None?
    ensures ps[i].finalized.None?
  {
    InvariantRun(ps, ev, i, k);
  }

  /**
   * A decode error recorded before the verdict is the verdict exactly when it was
   * recorded before the deciding end event.
   */
  lemma DecodeErrorIsVerdictExactly(platform: Platform, ps: seq<Process>, ev: seq<Event>, n: nat, j: nat)
    requires IsRun(ps, ev) && ps[0] == Spawned(platform)
    requires n < |ev| && ps[n].finalized.None? && ps[n + 1].finalized.Some?
    requires LastEnd(ev, j, n + 1) && FirstDecodeError(ev, n + 1).Some?
    ensures ps[n + 1].finalized == Some(Result(SpawnError, None, FirstDecodeError(ev, n + 1)))
            <==> FirstDecodeError(ev, j).Some?
  {
    var k := VerdictIsFirstCause(platform, ps, ev, n);
    assert k == j;
    FirstDecodeErrorStays(ev, j, n + 1);
    RecordsAreFirsts(platform, ps, ev, j);
    if j < n {
      UnfinalizedBefore(ps, ev, j, n);
      RecordsAreFirsts(platform, ps, ev, j + 1);
      UnfinalizedBefore(ps, ev, j + 1, n);
      assert ps[j + 1] == Next(ps[j], ev[j]);
    }
  }

  /** Concretely: on Windows a decode error between `error` and the settled kill is not reported. */
  lemma LateDecodeErrorIsLost() returns (ps: seq<Process>, ev: seq<Event>)
    ensures ev == [Cancel, Error("kill failed"), DecodeFailure("bad output"), AttemptSettles(0)]
    ensures IsRun(ps, ev) && ps[0] == Spawned(Windows)
    ensures ps[4].decodeError == Some("bad output")
    ensures ps[4].finalized == Some(Result(Ended(Cancelled), None, Some("kill failed")))
  {
    ev := [Cancel, Error("kill failed"), DecodeFailure("bad output"), AttemptSettles(0)];
    var p0 := Spawned(Windows);
    var p1 := Next(p0, ev[0]);
    var p2 := Next(p1, ev[1]);
    var p3 := Next(p2, ev[2]);
    ps := [p0, p1, p2, p3, Next(p3, ev[3])];
  }

  // ----- The verdict, read off the events ------------------------------------------------

  predicate AsksToEnd(e: Event) {
    e.Timeout? || e.Cancel? || e.DecodeFailure?
  }

  lemma {:induction false} NoDecodeError(ev: seq<Event>, n: nat)
    requires n <= |ev| && forall m | 0 <= m < n :: !ev[m].DecodeFailure?
    ensures FirstDecodeError(ev, n) == None
  {
    if n > 0 {
      NoDecodeError(ev, n - 1);
    }
  }

  lemma {:induction false} DecodeErrorAt(ev: seq<Event>, d: nat, n: nat)
    requires d < n <= |ev| && ev[d].DecodeFailure? && forall m | 0 <= m < d :: !ev[m].DecodeFailure?
    ensures FirstDecodeError(ev, n) == Some(ev[d].error)
  {
    if n == d + 1 {
      NoDecodeError(ev, d);
    } else {
      DecodeErrorAt(ev, d, n - 1);
    }
  }

  lemma {:induction false} NoRequest(ev: seq<Event>, n: nat)
    requires n <= |ev| && forall m | 0 <= m < n :: !AsksToEnd(ev[m])
    ensures FirstRequest(ev, n) == None
  {
    if n > 0 {
      NoRequest(ev, n - 1);
    }
  }

  lemma {:induction false} RequestAt(ev: seq<Event>, r: nat, n: nat)
    requires r < n <= |ev| && AsksToEnd(ev[r]) && forall m | 0 <= m < r :: !AsksToEnd(ev[m])
    ensures FirstRequest(ev, n) == Some(if ev[r].Timeout? then TimedOut else Cancelled)
  {
    if n == r + 1 {
      NoRequest(ev, r);
    } else {
      RequestAt(ev, r, n - 1);
    }
  }

  /**
   * What a run reports, by its events alone.  With j the last end event before the
   * verdict: a decode failure before j makes it a spawn error that carries the first such
   * error and no exit code.  Otherwise a request before j makes it `timeout` or
   * `cancelled`, after the first one.  Otherwise a close is `completed` and an error a
   * spawn error.  Without decode failure a close brings its exit code and no error, an
   * error no exit code and its own text.
   */
  lemma VerdictByEvents(platform: Platform, ps: seq<Process>, ev: seq<Event>, n: nat) returns (j: nat)
    requires IsRun(ps, ev) && ps[0] == Spawned(platform)
    requires n < |ev| && ps[n].finalized.None? && ps[n + 1].finalized.Some?
    ensures j <= n && (ev[j].Close? || ev[j].Error?) && forall m | j < m <= n :: !ev[m].Close? && !ev[m].Error?
    ensures forall d: nat | d < j && ev[d].DecodeFailure? && (forall m | 0 <= m < d :: !ev[m].DecodeFailure?) ::
              ps[n + 1].finalized == Some(Result(SpawnError, None, Some(ev[d].error)))
    ensures forall r: nat | r < j && AsksToEnd(ev[r]) && (forall m | 0 <= m < r :: !AsksToEnd(ev[m]))
                            && (forall m | 0 <= m < j :: !ev[m].DecodeFailure?) ::
              ps[n + 1].finalized.value.reason == Ended(if ev[r].Timeout? then TimedOut else Cancelled)
    ensures (forall m | 0 <= m < j :: !AsksToEnd(ev[m])) ==>
              ps[n + 1].finalized.value.reason == if ev[j].Close? then Completed else SpawnError
    ensures (forall m | 0 <= m < j :: !ev[m].DecodeFailure?) ==>
              && ps[n + 1].finalized.value.exitCode == (if ev[j].Close? then ev[j].exitCode else None)
              && ps[n + 1].finalized.value.error == (if ev[j].Close? then None else Some(ev[j].error))
  {
    j := VerdictIsFirstCause(platform, ps, ev, n);
    forall d: nat | d < j && ev[d].DecodeFailure? && (forall m | 0 <= m < d :: !ev[m].DecodeFailure?)
      ensures FirstDecodeError(ev, j) == Some(ev[d].error)
    {
      DecodeErrorAt(ev, d, j);
    }
    if forall m | 0 <= m < j :: !ev[m].DecodeFailure? {
      NoDecodeError(ev, j);
    }
    forall r: nat | r < j && AsksToEnd(ev[r]) && (forall m | 0 <= m < r :: !AsksToEnd(ev[m]))
      ensures FirstRequest(ev, j) == Some(if ev[r].Timeout? then TimedOut else Cancelled)
    {
      RequestAt(ev, r, j);
    }
    if forall m | 0 <= m < j :: !AsksToEnd(ev[m]) {
      NoRequest(ev, j);
    }
  }

  /** Concretely: a run that timed out and is closed by the kill reports the timeout. */
  lemma TimedOutRunSaysSo() returns (ps: seq<Process>, ev: seq<Event>)
    ensures ev == [Timeout, ForceKill, Close(Some(137), false)] && IsRun(ps, ev) && ps[0] == Spawned(Posix)
    ensures ps[3].finalized == Some(Result(Ended(TimedOut), Some(137), None))
  {
    ev := [Timeout, ForceKill, Close(Some(137), false)];
    var p0 := Spawned(Posix);
    var p1 := Next(p0, ev[0]);
    var p2 := Next(p1, ev[1]);
    ps := [p0, p1, p2, Next(p2, ev[2])];
  }

  // ----- Which event brings the verdict, and what a request does ----------------------------

  /**
   * An end event brings the verdict at once exactly when nobody asked the run to end, or
   * no kill is outstanding and it is an error, or the group was killed or is dead; group
   * liveness is not known on Windows.
   */
  lemma EndDecidesExactly(p: Process, e: Event)
    requires Enabled(p, e) && p.finalized.None? && (e.Close? || e.Error?)
    ensures Next(p, e).finalized.Some? <==>
            p.terminationReason.None? ||
            (p.attempt.None? && (e.Error? || p.forceKillSent || p.platform.Windows? || !e.groupAlive))
    ensures Next(p, e).finalized.None? ==> Next(p, e).pendingClose.Some?
  {}

  /** A settled kill brings a deferred verdict exactly when it is the latest one, the timer exactly on POSIX. */
  lemma KillDecidesExactly(p: Process, e: Event)
    requires Invariant(p) && Enabled(p, e) && p.finalized.None? && (e.ForceKill? || e.AttemptSettles?)
    ensures Next(p, e).finalized.Some? <==>
            p.pendingClose.Some? && if e.ForceKill? then p.platform.Posix? else p.attempt == Some(e.id)
    ensures Next(p, e).finalized.Some? ==> Next(p, e).finalized == p.pendingClose
  {}

  /** No verdict is given while the latest kill has not settled. */
  lemma KillIsAwaited(p: Process, e: Event)
    requires Invariant(p) && Enabled(p, e) && p.finalized.None? && Next(p, e).finalized.Some?
    requires p.terminationReason.Some?
    ensures Next(p, e).attempt.None?
  {}

  /** A request signals once, arms the force-kill timer, and leaves the rest of the run alone. */
  lemma RequestIsExact(p: Process, e: Event)
    requires Invariant(p) && Enabled(p, e) && p.finalized.None? && (e.Timeout? || e.Cancel?)
    ensures var q, first := Next(p, e), p.terminationReason.None?;
      && (first ==> q.forceKillTimer && q.terminationReason == Some(if e.Timeout? then TimedOut else Cancelled))
      && (!first ==> q.forceKillTimer == p.forceKillTimer && q.terminationReason == p.terminationReason)
      && q.attempts == p.attempts + (if first && p.platform.Windows? then 1 else 0)
      && q.outstanding == p.outstanding + (if first && p.platform.Windows? then {p.attempts} else {})
      && q.pendingClose == p.pendingClose && q.decodeError == p.decodeError && q.closed == p.closed
      && q.forceKillSent == p.forceKillSent && q.finalized.None?
  {}

  function ForceKills(ev: seq<Event>, n: nat): nat
    requires n <= |ev|
  {
    if n == 0 then 0 else ForceKills(ev, n - 1) + if ev[n - 1].ForceKill? then 1 else 0
  }

  ghost predicate Signalled(p: Process, kills: nat) {
    && kills == (if p.forceKillSent then 1 else 0)
    && (p.platform.Posix? ==> p.attempts == 0)
    && (p.platform.Windows? ==> p.attempts == kills + if p.terminationReason.Some? then 1 else 0)
    && (p.attempt.Some? ==> p.attempt.value + 1 == p.attempts)
  }

  lemma SignalStep(p: Process, e: Event, kills: nat)
    requires Invariant(p) && Enabled(p, e) && Signalled(p, kills)
    ensures Signalled(Next(p, e), kills + if e.ForceKill? then 1 else 0)
  {
    match e
    case Close(_, _) =>
    case Error(_) =>
    case ForceKill =>
    case _ =>
  }

  /**
   * On Windows one kill is started for the first request and one for the timer, on POSIX
   * none has to be awaited; the timer fires at most once, and closing waits for the latest.
   */
  lemma {:induction false} KillsAreCounted(platform: Platform, ps: seq<Process>, ev: seq<Event>, n: nat)
    requires IsRun(ps, ev) && ps[0] == Spawned(platform) && n <= |ev|
    ensures Invariant(ps[n]) && ps[n].platform == platform && Signalled(ps[n], ForceKills(ev, n))
  {
    if n > 0 {
      KillsAreCounted(platform, ps, ev, n - 1);
      InvariantStep(ps[n - 1], ev[n - 1]);
      SignalStep(ps[n - 1], ev[n - 1], ForceKills(ev, n - 1));
    }
  }
}
