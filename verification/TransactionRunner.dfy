// The transaction helper as the object that the process shares: one connection, one
// keyed lock, and the open calls of every context.  Each method is what runs between
// two awaits; its contract is the protocol step it takes.

module TransactionRunner {
  import opened Common
  import opened TransactionProtocol

  class SqliteTransactions {
    var rows: Rows
    var connection: Connection
    var holder: Option<nat>
    var queue: seq<nat>
    var stacks: seq<seq<Frame>>

    ghost function Now(): State
      reads this
    {
      State(rows, connection, holder, queue, stacks)
    }

    constructor (tables: Rows, contexts: nat)
      ensures Initial(Now()) && Invariant(Now()) && rows == tables && |stacks| == contexts
    {
      rows := tables;
      connection := Idle;
      holder := None;
      queue := [];
      stacks := seq(contexts, _ => []);
    }

    /** `withTransaction` up to its first await. */
    method WithTransaction(c: nat)
      requires Invariant(Now()) && Enabled(Now(), CallTransaction(c))
      modifies this
      ensures Invariant(Now()) && Now() == Next(old(Now()), CallTransaction(c))
    {
      InvariantStep(Now(), CallTransaction(c));
      if Owns(stacks[c]) {
        stacks := stacks[c := stacks[c] + [Joined]];
      } else if connection.InTransaction? {
        stacks := stacks[c := stacks[c] + [Joined]];
      } else {
        stacks := stacks[c := stacks[c] + [Waiting(ForTransaction)]];
        queue := queue + [c];
      }
    }

    /** `runExclusive` up to its first await. */
    method RunExclusive(c: nat)
      requires Invariant(Now()) && Enabled(Now(), CallExclusive(c))
      modifies this
      ensures Invariant(Now()) && Now() == Next(old(Now()), CallExclusive(c))
    {
      InvariantStep(Now(), CallExclusive(c));
      if Owns(stacks[c]) {
        stacks := stacks[c := stacks[c] + [Joined]];
      } else {
        stacks := stacks[c := stacks[c] + [Waiting(ForExclusive)]];
        queue := queue + [c];
      }
    }

    /** The keyed lock lets its next waiter in; the BEGIN it issues never throws. */
    method LetNextIn()
      requires Invariant(Now()) && Enabled(Now(), Grant)
      modifies this
      ensures Invariant(Now()) && Now() == Next(old(Now()), Grant)
      ensures old(connection).Idle? && holder == Some(old(queue)[0])
    {
      InvariantStep(Now(), Grant);
      InvariantGrant(Now());
      var c := queue[0];
      var below := Pop(stacks[c]);
      queue := queue[1..];
      holder := Some(c);
      if Top(stacks[c]) == Waiting(ForTransaction) {
        connection := InTransaction(rows);
        stacks := stacks[c := below + [Owner]];
      } else {
        stacks := stacks[c := below + [Writer]];
      }
    }

    /** A statement on the shared connection, awaited by context c. */
    method Run(c: nat, statement: Statement)
      requires Invariant(Now()) && Enabled(Now(), Execute(c, statement))
      modifies this`rows
      ensures Invariant(Now()) && Now() == Next(old(Now()), Execute(c, statement))
    {
      rows := statement(rows);
    }

    /** The innermost callback of context c returns or throws. */
    method Return(c: nat, ok: bool)
      requires Invariant(Now()) && Enabled(Now(), Settle(c, ok))
      modifies this
      ensures Invariant(Now()) && Now() == Next(old(Now()), Settle(c, ok))
    {
      InvariantStep(Now(), Settle(c, ok));
      var top := Top(stacks[c]);
      stacks := stacks[c := Pop(stacks[c])];
      if top.Owner? {
        if ok {
          connection := Idle; // COMMIT
        } else if connection.InTransaction? {
          rows, connection := connection.snapshot, Idle; // ROLLBACK
        }
        holder := None;
      } else if top.Writer? {
        holder := None;
      }
    }
  }
}
