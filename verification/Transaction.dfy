// The SQLite side of `withTransaction` and `runExclusive`: many async contexts
// share one connection, one FIFO lock that does not know its owner, and a
// per-context record of whether the context opened the running transaction.
//
// Everything a context does between two awaits is one step.  Contexts interleave
// freely at steps.

module TransactionProtocol {
  import opened Common

  /** The tables, as every statement on the one connection sees them. */
  type Rows = map<string, int>

  /** A statement reads and rewrites the tables; it runs to completion at once. */
  type Statement = Rows -> Rows

  datatype Purpose = ForTransaction | ForExclusive

  /** One open call on a context's stack; the top of the stack is the last element. */
  datatype Frame =
    | Waiting(purpose: Purpose) // queued on the keyed lock
    | Owner                     // a withTransaction call that issued BEGIN
    | Joined                    // runs its callback directly, with no boundary of its own
    | Writer                    // a runExclusive call that holds the lock

  /** What `sqlite.inTransaction` says, with what a ROLLBACK would restore. */
  datatype Connection = Idle | InTransaction(snapshot: Rows)

  datatype State = State(
    rows: Rows,
    connection: Connection,
    holder: Option<nat>,      // who runs under the keyed lock
    queue: seq<nat>,          // who waits for it, first come first
    stacks: seq<seq<Frame>>)  // the open calls of each context

  datatype Step =
    | CallTransaction(ctx: nat)
    | CallExclusive(ctx: nat)
    | Grant
    | Execute(ctx: nat, statement: Statement)
    | DriverAbort(ctx: nat)        // a statement that rolls the transaction back by itself
    | Settle(ctx: nat, ok: bool)   // the innermost callback returns or throws

  function Top(stack: seq<Frame>): Frame
    requires stack != []
  {
    stack[|stack| - 1]
  }

  function Pop(stack: seq<Frame>): seq<Frame>
    requires stack != []
  {
    stack[..|stack| - 1]
  }

  /** `transactionDepth` is set: some enclosing call of this context issued BEGIN. */
  predicate Owns(stack: seq<Frame>) {
    Owner in stack
  }

  predicate CanRun(s: State, c: nat) {
    c < |s.stacks| && (s.stacks[c] != [] ==> !Top(s.stacks[c]).Waiting?)
  }

  predicate Enabled(s: State, step: Step) {
    match step
    case CallTransaction(c) => CanRun(s, c)
    case CallExclusive(c) => CanRun(s, c)
    case Grant => s.holder.None? && s.queue != [] && s.queue[0] < |s.stacks| && s.stacks[s.queue[0]] != []
    case Execute(c, _) => CanRun(s, c)
    case DriverAbort(c) => CanRun(s, c) && s.connection.InTransaction?
    case Settle(c, _) => CanRun(s, c) && s.stacks[c] != []
  }

  function Push(s: State, c: nat, f: Frame): State
    requires c < |s.stacks|
  {
    s.(stacks := s.stacks[c := s.stacks[c] + [f]])
  }

  function Enqueue(s: State, c: nat, p: Purpose): State
    requires c < |s.stacks|
  {
    Push(s, c, Waiting(p)).(queue := s.queue + [c])
  }

  function Granted(s: State): State
    requires Enabled(s, Grant)
  {
    var c := s.queue[0];
    var rest := Pop(s.stacks[c]);
    var dequeued := s.(queue := s.queue[1..]);
    match Top(s.stacks[c])
    case Waiting(ForTransaction) =>
      // A BEGIN inside an open transaction throws, which rejects the call.
      if s.connection.InTransaction? then dequeued.(stacks := s.stacks[c := rest])
      else dequeued.(holder := Some(c), connection := InTransaction(s.rows), stacks := s.stacks[c := rest + [Owner]])
    case _ =>
      dequeued.(holder := Some(c), stacks := s.stacks[c := rest + [Writer]])
  }

  function Settled(s: State, c: nat, ok: bool): State
    requires Enabled(s, Settle(c, ok))
  {
    var popped := s.(stacks := s.stacks[c := Pop(s.stacks[c])]);
    match Top(s.stacks[c])
    case Writer => popped.(holder := None)
    case Owner =>
      // COMMIT with no open transaction throws and changes nothing; ROLLBACK is guarded.
      var rows := if !ok && s.connection.InTransaction? then s.connection.snapshot else s.rows;
      popped.(holder := None, connection := Idle, rows := rows)
    case _ => popped
  }

  function Next(s: State, step: Step): State
    requires Enabled(s, step)
  {
    match step
    case CallTransaction(c) =>
      if Owns(s.stacks[c]) || s.connection.InTransaction? then Push(s, c, Joined)
      else Enqueue(s, c, ForTransaction)
    case CallExclusive(c) =>
      if Owns(s.stacks[c]) then Push(s, c, Joined) else Enqueue(s, c, ForExclusive)
    case Grant => Granted(s)
    case Execute(_, f) => s.(rows := f(s.rows))
    case DriverAbort(_) => s.(rows := s.connection.snapshot, connection := Idle)
    case Settle(c, ok) => Settled(s, c, ok)
  }

  /** What a crash would leave behind: the rows without the open transaction. */
  function Durable(s: State): Rows {
    if s.connection.InTransaction? then s.connection.snapshot else s.rows
  }

  ghost predicate Initial(s: State) {
    s.connection.Idle? && s.holder.None? && s.queue == [] && forall c | 0 <= c < |s.stacks| :: s.stacks[c] == []
  }

  /** An interleaving: consecutive states joined by enabled steps. */
  ghost predicate IsRun(st: seq<State>, ev: seq<Step>) {
    && |st| == |ev| + 1
    && forall i | 0 <= i < |ev| :: Enabled(st[i], ev[i]) && st[i + 1] == Next(st[i], ev[i])
  }

  // ----- The state invariant --------------------------------------------------

  /** How many of the open calls hold the lock. */
  function LockFrames(stack: seq<Frame>): nat {
    if stack == [] then 0
    else LockFrames(Pop(stack)) + if Top(stack).Owner? || Top(stack).Writer? then 1 else 0
  }

  ghost predicate WaitsOnlyOnTop(stack: seq<Frame>) {
    forall i | 0 <= i < |stack| - 1 :: !stack[i].Waiting?
  }

  predicate IsWaiting(stack: seq<Frame>) {
    stack != [] && Top(stack).Waiting?
  }

  /** A context waits just when its last call does, and has one lock frame just when it holds the lock. */
  ghost predicate StackFits(stack: seq<Frame>, holds: bool, queued: bool) {
    && WaitsOnlyOnTop(stack)
    && (IsWaiting(stack) <==> queued)
    && LockFrames(stack) == if holds then 1 else 0
  }

  ghost predicate Invariant(s: State) {
    && Distinct(s.queue)
    && (forall c | c in s.queue :: c < |s.stacks|)
    && (forall c | 0 <= c < |s.stacks| :: StackFits(s.stacks[c], s.holder == Some(c), c in s.queue))
    && (s.holder.Some? ==> s.holder.value < |s.stacks|)
    && (s.connection.InTransaction? ==> s.holder.Some? && Owns(s.stacks[s.holder.value]))
  }

  lemma {:induction false} LockFrameExists(stack: seq<Frame>)
    ensures LockFrames(stack) == 0 <==> Owner !in stack && Writer !in stack
    ensures LockFrames(stack) == 1 ==> Owner !in stack || Writer !in stack
    decreases |stack|
  {
    if stack != [] {
      LockFrameExists(Pop(stack));
      assert stack == Pop(stack) + [Top(stack)];
    }
  }

  lemma PushFrame(stack: seq<Frame>, f: Frame)
    ensures Pop(stack + [f]) == stack && Top(stack + [f]) == f
    ensures LockFrames(stack + [f]) == LockFrames(stack) + if f.Owner? || f.Writer? then 1 else 0
  {
    assert Pop(stack + [f]) == stack;
  }

  lemma PushFits(stack: seq<Frame>, f: Frame, holds: bool)
    requires StackFits(stack, holds, false) && !f.Owner? && !f.Writer?
    ensures StackFits(stack + [f], holds, f.Waiting?) && (Owns(stack) ==> Owns(stack + [f]))
  {
    PushFrame(stack, f);
  }

  lemma PopFits(stack: seq<Frame>, holds: bool)
    requires StackFits(stack, holds, false) && stack != []
    ensures StackFits(Pop(stack), holds && !Top(stack).Owner? && !Top(stack).Writer?, false)
    ensures Top(stack).Owner? || Top(stack).Writer? ==> holds && !Owns(Pop(stack))
    ensures !Top(stack).Owner? && Owns(stack) ==> Owns(Pop(stack))
    ensures Top(stack).Writer? ==> !Owns(stack)
  {
    LockFrameExists(stack);
    LockFrameExists(Pop(stack));
    assert stack == Pop(stack) + [Top(stack)];
  }

  /** The waiter that is let in comes to hold the lock. */
  lemma GrantFits(stack: seq<Frame>, f: Frame)
    requires StackFits(stack, false, true) && (f.Owner? || f.Writer?)
    ensures StackFits(Pop(stack) + [f], true, false) && (f.Owner? <==> Owns(Pop(stack) + [f]))
  {
    PushFrame(Pop(stack), f);
    LockFrameExists(Pop(stack));
    assert forall i | 0 <= i < |stack| - 1 :: (Pop(stack) + [f])[i] == stack[i];
    assert (Pop(stack) + [f])[|stack| - 1] == f;
  }

  lemma InvariantPush(s: State, c: nat)
    requires Invariant(s) && CanRun(s, c)
    ensures Invariant(Push(s, c, Joined))
  {
    PushFits(s.stacks[c], Joined, s.holder == Some(c));
  }

  lemma QueueGrows(q: seq<nat>, c: nat)
    requires Distinct(q) && c !in q
    ensures Distinct(q + [c]) && forall d :: d in q + [c] <==> d in q || d == c
  {}

  lemma InvariantEnqueue(s: State, c: nat, p: Purpose)
    requires Invariant(s) && CanRun(s, c)
    ensures Invariant(Enqueue(s, c, p))
  {
    PushFits(s.stacks[c], Waiting(p), s.holder == Some(c));
    QueueGrows(s.queue, c);
  }

  /** Taking the head off a queue without repetition removes just that context. */
  lemma QueueTail(q: seq<nat>)
    requires Distinct(q) && q != []
    ensures Distinct(q[1..])
    ensures forall d :: d in q[1..] <==> d in q && d != q[0]
  {
    forall d ensures d in q[1..] <==> d in q && d != q[0] {
      if d in q && d != q[0] {
        var i :| 0 <= i < |q| && q[i] == d;
        assert q[1..][i - 1] == d;
      }
    }
  }

  /** With the lock free, nobody is inside a transaction, so BEGIN never throws. */
  lemma InvariantGrant(s: State)
    requires Invariant(s) && Enabled(s, Grant)
    ensures Invariant(Granted(s))
    ensures s.connection.Idle? && Granted(s).holder == Some(s.queue[0])
    ensures IsWaiting(s.stacks[s.queue[0]])
  {
    var c := s.queue[0];
    assert c in s.queue && StackFits(s.stacks[c], false, true);
    QueueTail(s.queue);
    GrantFits(s.stacks[c], if Top(s.stacks[c]) == Waiting(ForTransaction) then Owner else Writer);
  }

  lemma InvariantSettle(s: State, c: nat, ok: bool)
    requires Invariant(s) && Enabled(s, Settle(c, ok))
    ensures Invariant(Settled(s, c, ok))
  {
    PopFits(s.stacks[c], s.holder == Some(c));
  }

  /** Every step of every context keeps the invariant, late arrivals and bare writes included. */
  lemma InvariantStep(s: State, step: Step)
    requires Invariant(s) && Enabled(s, step)
    ensures Invariant(Next(s, step))
  {
    match step
    case CallTransaction(c) => InvariantPush(s, c); InvariantEnqueue(s, c, ForTransaction);
    case CallExclusive(c) => InvariantPush(s, c); InvariantEnqueue(s, c, ForExclusive);
    case Grant => InvariantGrant(s);
    case Settle(c, ok) => InvariantSettle(s, c, ok);
    case _ =>
  }

  lemma {:induction false} InvariantRun(st: seq<State>, ev: seq<Step>, i: nat)
    requires IsRun(st, ev) && Invariant(st[0]) && i < |st|
    ensures Invariant(st[i])
  {
    if i > 0 {
      InvariantRun(st, ev, i - 1);
      InvariantStep(st[i - 1], ev[i - 1]);
    }
  }

  lemma InitialInvariant(s: State)
    requires Initial(s)
    ensures Invariant(s)
  {}
}
