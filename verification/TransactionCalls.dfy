// What a call of `withTransaction` or `runExclusive` comes to, followed from the call to
// its end through any interleaving.

module TransactionCalls {
  import opened Common
  import opened TransactionProtocol
  import S = TransactionSerializability

  /** The step lets context c in from the queue. */
  predicate LetsIn(s: State, step: Step, c: nat) {
    step.Grant? && s.queue != [] && s.queue[0] == c
  }

  /** Step g is the first after step i that lets context c in. */
  ghost predicate ServedAt(st: seq<State>, ev: seq<Step>, c: nat, i: nat, g: nat)
    requires IsRun(st, ev)
  {
    i < g < |ev| && LetsIn(st[g], ev[g], c) && forall m | i < m < g :: !LetsIn(st[m], ev[m], c)
  }

  /** From step g on to state k context c has more than `depth` calls open. */
  ghost predicate Inside(st: seq<State>, c: nat, depth: nat, g: nat, k: nat) {
    g < k < |st| && forall m | g < m <= k :: c < |st[m].stacks| && |st[m].stacks[c]| > depth
  }

  /** The innermost call of context c ends, and it is the one that has `depth` calls around it. */
  predicate Ends(s: State, step: Step, c: nat, depth: nat) {
    step.Settle? && step.ctx == c && c < |s.stacks| && |s.stacks[c]| == depth + 1
  }

  ghost predicate HasFrame(s: State, c: nat, n: nat, f: Frame) {
    c < |s.stacks| && n < |s.stacks[c]| && s.stacks[c][n] == f
  }

  /** A waiting context stands still until it is let in. */
  lemma WaitStep(s: State, step: Step, c: nat, waiting: seq<Frame>)
    requires Invariant(s) && Enabled(s, step) && !LetsIn(s, step, c)
    requires c < |s.stacks| && s.stacks[c] == waiting && IsWaiting(waiting)
    ensures c < |Next(s, step).stacks| && Next(s, step).stacks[c] == waiting
  {}

  lemma {:induction false} WaitRun(st: seq<State>, ev: seq<Step>, c: nat, i: nat, m: nat, waiting: seq<Frame>)
    requires IsRun(st, ev) && i <= m <= |ev| && Invariant(st[i])
    requires c < |st[i].stacks| && st[i].stacks[c] == waiting && IsWaiting(waiting)
    requires forall l | i <= l < m :: !LetsIn(st[l], ev[l], c)
    ensures Invariant(st[m]) && c < |st[m].stacks| && st[m].stacks[c] == waiting
  {
    if m > i {
      WaitRun(st, ev, c, i, m - 1, waiting);
      InvariantStep(st[m - 1], ev[m - 1]);
      WaitStep(st[m - 1], ev[m - 1], c, waiting);
    }
  }

  lemma QueueCall(s: State, step: Step)
    requires Enabled(s, step) && (step.CallExclusive? || (step.CallTransaction? && s.connection.Idle?))
    requires !Owns(s.stacks[step.ctx])
    ensures var p := if step.CallTransaction? then ForTransaction else ForExclusive;
      Next(s, step).stacks == s.stacks[step.ctx := s.stacks[step.ctx] + [Waiting(p)]]
    ensures IsWaiting(Next(s, step).stacks[step.ctx])
  {}

  lemma GrantServes(s: State, c: nat, below: seq<Frame>, p: Purpose)
    requires Invariant(s) && Enabled(s, Grant) && s.queue[0] == c && s.stacks[c] == below + [Waiting(p)]
    ensures var t := Next(s, Grant);
      && Invariant(t) && s.connection.Idle? && t.rows == s.rows && t.holder == Some(c)
      && t.connection == (if p.ForTransaction? then InTransaction(s.rows) else Idle)
      && t.stacks == s.stacks[c := below + [if p.ForTransaction? then Owner else Writer]]
  {
    InvariantGrant(s);
    PushFrame(below, Waiting(p));
  }

  /** What the queued call finds when it is let in. */
  lemma CallIsServed(st: seq<State>, ev: seq<Step>, i: nat, g: nat)
    requires IsRun(st, ev) && Initial(st[0]) && i < |ev|
    requires ev[i].CallExclusive? || (ev[i].CallTransaction? && st[i].connection.Idle?)
    requires !Owns(st[i].stacks[ev[i].ctx]) && ServedAt(st, ev, ev[i].ctx, i, g)
    ensures var c, n := ev[i].ctx, |st[i].stacks[ev[i].ctx]|;
      && Invariant(st[g]) && Invariant(st[g + 1])
      && st[g].connection.Idle? && st[g + 1].rows == st[g].rows && st[g + 1].holder == Some(c)
      && st[g + 1].connection == (if ev[i].CallTransaction? then InTransaction(st[g].rows) else Idle)
      && HasFrame(st[g + 1], c, n, if ev[i].CallTransaction? then Owner else Writer)
  {
    var c, below := ev[i].ctx, st[i].stacks[ev[i].ctx];
    var p := if ev[i].CallTransaction? then ForTransaction else ForExclusive;
    InitialInvariant(st[0]);
    InvariantRun(st, ev, i);
    InvariantStep(st[i], ev[i]);
    QueueCall(st[i], ev[i]);
    WaitRun(st, ev, c, i + 1, g, below + [Waiting(p)]);
    GrantServes(st[g], c, below, p);
  }

  /** A call's frame stays as it is while calls inside it come and go. */
  lemma FrameStep(s: State, step: Step, t: State, c: nat, n: nat, f: Frame)
    requires Invariant(s) && Enabled(s, step) && t == Next(s, step) && HasFrame(s, c, n, f) && !f.Waiting?
    requires c < |t.stacks| && n < |t.stacks[c]|
    ensures Invariant(t) && HasFrame(t, c, n, f)
  {
    InvariantStep(s, step);
    FrameKept(s, step, c, n, f);
  }

  lemma FrameKept(s: State, step: Step, c: nat, n: nat, f: Frame)
    requires Invariant(s) && Enabled(s, step) && HasFrame(s, c, n, f) && !f.Waiting?
    requires c < |Next(s, step).stacks| && n < |Next(s, step).stacks[c]|
    ensures HasFrame(Next(s, step), c, n, f)
  {
    if step.Grant? {
      InvariantGrant(s);
    }
  }

  ghost predicate StepAt(st: seq<State>, ev: seq<Step>, i: nat)
    requires |st| == |ev| + 1
  {
    i < |ev| && Enabled(st[i], ev[i]) && st[i + 1] == Next(st[i], ev[i])
  }

  lemma {:induction false} FrameSteps(st: seq<State>, ev: seq<Step>, c: nat, n: nat, f: Frame, g: nat, k: nat)
    requires |st| == |ev| + 1 && forall i: nat | i < |ev| :: StepAt(st, ev, i)
    requires g < k <= |ev| && Invariant(st[g + 1]) && HasFrame(st[g + 1], c, n, f) && !f.Waiting?
    requires Inside(st, c, n, g, k)
    ensures Invariant(st[k]) && HasFrame(st[k], c, n, f)
  {
    if k > g + 1 {
      FrameSteps(st, ev, c, n, f, g, k - 1);
      assert StepAt(st, ev, k - 1);
      FrameStep(st[k - 1], ev[k - 1], st[k], c, n, f);
    }
  }

  lemma FrameRun(st: seq<State>, ev: seq<Step>, c: nat, n: nat, f: Frame, g: nat, k: nat)
    requires IsRun(st, ev) && g < k <= |ev| && Invariant(st[g + 1]) && HasFrame(st[g + 1], c, n, f) && !f.Waiting?
    requires Inside(st, c, n, g, k)
    ensures Invariant(st[k]) && HasFrame(st[k], c, n, f)
  {
    FrameSteps(st, ev, c, n, f, g, k);
  }

  /** Whose stack holds a lock frame is the holder; under a Writer there is no transaction. */
  lemma LockFrameTells(s: State, c: nat, n: nat, f: Frame)
    requires Invariant(s) && HasFrame(s, c, n, f) && (f.Owner? || f.Writer?)
    ensures s.holder == Some(c)
    ensures f.Writer? ==> s.connection.Idle?
  {
    LockFrameExists(s.stacks[c]);
    assert f in s.stacks[c];
  }

  lemma EndOfFrame(s: State, c: nat, n: nat, f: Frame, ok: bool)
    requires Invariant(s) && HasFrame(s, c, n, f) && Enabled(s, Settle(c, ok)) && |s.stacks[c]| == n + 1
    ensures var t := Next(s, Settle(c, ok));
      && (f.Writer? ==> t.rows == s.rows && t.connection == s.connection && t.holder.None?)
      && (f.Joined? ==> t.rows == s.rows && t.connection == s.connection && t.holder == s.holder)
  {}

  /**
   * A call of runExclusive by a context that owns no transaction, in every interleaving:
   * it is let in with no transaction open, none is open while its callback runs, each
   * statement of its context is durable at once, and its end, by return or throw, leaves
   * the tables as they are and gives up the lock.
   */
  lemma ExclusiveCallIsBare(st: seq<State>, ev: seq<Step>, c: nat, i: nat, g: nat, k: nat)
    requires IsRun(st, ev) && Initial(st[0]) && i < |ev| && ev[i] == CallExclusive(c) && !Owns(st[i].stacks[c])
    requires ServedAt(st, ev, c, i, g) && k <= |ev| && Inside(st, c, |st[i].stacks[c]|, g, k)
    ensures st[g + 1].rows == st[g].rows
    ensures st[k].connection.Idle? && st[k].holder == Some(c)
    ensures k < |ev| && ev[k].Execute? && ev[k].ctx == c ==>
              st[k + 1].connection.Idle? && st[k + 1].rows == ev[k].statement(st[k].rows)
              && Durable(st[k + 1]) == st[k + 1].rows
    ensures k < |ev| && Ends(st[k], ev[k], c, |st[i].stacks[c]|) ==>
              st[k + 1].connection.Idle? && st[k + 1].rows == st[k].rows && st[k + 1].holder.None?
  {
    var n := |st[i].stacks[c]|;
    CallIsServed(st, ev, i, g);
    FrameRun(st, ev, c, n, Writer, g, k);
    LockFrameTells(st[k], c, n, Writer);
    if k < |ev| && Ends(st[k], ev[k], c, n) {
      EndOfFrame(st[k], c, n, Writer, ev[k].ok);
    }
  }

  /**
   * A call of withTransaction that has to wait, in every interleaving: being let in opens a
   * transaction on the tables as they are at that moment.  When its callback returns the
   * tables stay as they are, when it throws they are those it began with, unless the driver
   * had dropped the transaction before; either way the transaction is over and the lock free.
   */
  lemma TransactionCallIsAtomic(st: seq<State>, ev: seq<Step>, c: nat, i: nat, g: nat, k: nat)
    requires IsRun(st, ev) && Initial(st[0]) && i < |ev| && ev[i] == CallTransaction(c)
    requires !Owns(st[i].stacks[c]) && st[i].connection.Idle?
    requires ServedAt(st, ev, c, i, g) && k <= |ev| && Inside(st, c, |st[i].stacks[c]|, g, k)
    ensures st[g].connection.Idle? && st[g + 1].rows == st[g].rows && st[g + 1].connection == InTransaction(st[g].rows)
    ensures st[k].holder == Some(c) && (st[k].connection.InTransaction? ==> Durable(st[k]) == st[g].rows)
    ensures k < |ev| && Ends(st[k], ev[k], c, |st[i].stacks[c]|) ==>
              && st[k + 1].connection.Idle? && st[k + 1].holder.None?
              && (ev[k].ok ==> st[k + 1].rows == st[k].rows)
              && (!ev[k].ok && st[k].connection.InTransaction? ==> st[k + 1].rows == st[g].rows)
  {
    var n := |st[i].stacks[c]|;
    CallIsServed(st, ev, i, g);
    forall m | g < m <= k ensures st[m].holder == Some(c) && c < |st[m].stacks| && Owns(st[m].stacks[c]) {
      FrameRun(st, ev, c, n, Owner, g, m);
      LockFrameTells(st[m], c, n, Owner);
    }
    FrameRun(st, ev, c, n, Owner, g, k);
    S.SnapshotStays(st, ev, c, g, k);
    if k < |ev| && Ends(st[k], ev[k], c, n) {
      S.FrameEndsExactly(st, ev, c, g, k, ev[k].ok);
    }
  }

  /** Which calls run their callback at once: those of an owner, and withTransaction in anyone's transaction. */
  lemma JoinsExactly(s: State, step: Step)
    requires Enabled(s, step) && (step.CallTransaction? || step.CallExclusive?)
    ensures CanRun(Next(s, step), step.ctx) <==>
            Owner in s.stacks[step.ctx] || (step.CallTransaction? && s.connection.InTransaction?)
    ensures Next(s, step).rows == s.rows && Next(s, step).connection == s.connection && Next(s, step).holder == s.holder
    ensures Next(s, step).queue == if CanRun(Next(s, step), step.ctx) then s.queue else s.queue + [step.ctx]
    ensures CanRun(Next(s, step), step.ctx) ==> HasFrame(Next(s, step), step.ctx, |s.stacks[step.ctx]|, Joined)
  {
    assert Top(s.stacks[step.ctx] + [Joined]) == Joined;
  }

  /** The end of a call that joined, by return or throw, touches neither tables nor transaction nor lock. */
  lemma JoinedCallIsTransparent(st: seq<State>, ev: seq<Step>, c: nat, i: nat, k: nat)
    requires IsRun(st, ev) && Initial(st[0]) && i < k < |ev| && (ev[i] == CallTransaction(c) || ev[i] == CallExclusive(c))
    requires CanRun(st[i + 1], c) && Inside(st, c, |st[i].stacks[c]|, i, k) && Ends(st[k], ev[k], c, |st[i].stacks[c]|)
    ensures st[k + 1].rows == st[k].rows && st[k + 1].connection == st[k].connection && st[k + 1].holder == st[k].holder
  {
    InitialInvariant(st[0]);
    InvariantRun(st, ev, i);
    InvariantStep(st[i], ev[i]);
    JoinsExactly(st[i], ev[i]);
    FrameRun(st, ev, c, |st[i].stacks[c]|, Joined, i, k);
    EndOfFrame(st[k], c, |st[i].stacks[c]|, Joined, ev[k].ok);
  }
}
