/**
  The shared database session: the committed tables plus the statements
  executed since the last commit or rollback. Reads through the session see
  its own pending statements.
 */
module Store {
  import opened Tables

  /** Which external call of an operation raises, counting its statements, commits,
      `getLastID` reads and uploads from 0 in the order the operation makes them. */
  datatype Fault = NoFault | FaultAt(call: nat)

  /** Call `k` raises. */
  predicate Fails(fault: Fault, k: nat) {
    fault == FaultAt(k)
  }

  /** No call up to and including `k` raises. */
  predicate Passes(fault: Fault, k: nat) {
    !(fault.FaultAt? && fault.call <= k)
  }

  class Session {
    var committed: Tables
    var pending: seq<Change>

    /** What a read through this session sees. */
    function View(): Tables
      reads this
    {
      ApplyAll(committed, pending)
    }

    constructor (initial: Tables)
      ensures committed == initial && pending == []
    {
      committed := initial;
      pending := [];
    }

    /** `session.execute(statement)` for an INSERT, UPDATE or DELETE. */
    method Execute(c: Change)
      modifies this
      ensures committed == old(committed) && pending == old(pending) + [c]
      ensures View() == Apply(old(View()), c)
    {
      ApplyAllAppend(committed, pending, c);
      pending := pending + [c];
    }

    /** `session.commit()`: the pending statements become durable. */
    method Commit()
      modifies this
      ensures committed == old(View()) && pending == []
    {
      committed := View();
      pending := [];
    }

    /** `session.rollback()`: the pending statements are discarded. */
    method Rollback()
      modifies this
      ensures committed == old(committed) && pending == []
    {
      pending := [];
    }
  }
}
