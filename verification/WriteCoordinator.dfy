/** The state that write coordination keeps under its mutex, and its three critical sections. */
module WriteCoordinator {
  import opened Outcomes

  type OpId = nat

  datatype Coordinator = Coordinator(active: Option<OpId>, pending: seq<OpId>, totalWrites: nat, contended: nat)

  datatype Acquired = Granted | Queued | Rejected

  /** Entry of `acquire_write_coordination`: backpressure, immediate grant, or a place in the queue. */
  function TryAcquire(c: Coordinator, op: OpId, maxPending: nat): (Coordinator, Acquired) {
    if |c.pending| >= maxPending then (c, Rejected)
    else if c.active.None? then (c.(active := Some(op), totalWrites := c.totalWrites + 1), Granted)
    else (c.(pending := c.pending + [op], contended := c.contended + 1), Queued)
  }

  /** A notified waiter marks itself active, whoever is active by then. */
  function Activate(c: Coordinator, op: OpId): Coordinator {
    c.(active := Some(op), totalWrites := c.totalWrites + 1)
  }

  /** `WriteCoordinationGuard::drop`: clears its own mark and pops the waiter to notify. */
  function Release(c: Coordinator, op: OpId): (Coordinator, Option<OpId>) {
    var cleared := if c.active == Some(op) then c.(active := None) else c;
    if c.pending == [] then (cleared, None)
    else (cleared.(pending := c.pending[1..]), Some(c.pending[0]))
  }

  class Coordination {
    var activeWriter: Option<OpId>
    var pendingWrites: seq<OpId>
    var totalWrites: nat
    var contendedWrites: nat
    const maxPendingWrites: nat

    function State(): Coordinator
      reads this
    {
      Coordinator(activeWriter, pendingWrites, totalWrites, contendedWrites)
    }

    constructor (maxPendingWrites: nat)
      ensures State() == Coordinator(None, [], 0, 0) && this.maxPendingWrites == maxPendingWrites
    {
      activeWriter, pendingWrites, totalWrites, contendedWrites := None, [], 0, 0;
      this.maxPendingWrites := maxPendingWrites;
    }

    method AcquireOrQueue(op: OpId) returns (outcome: Acquired)
      modifies this
      ensures (State(), outcome) == TryAcquire(old(State()), op, maxPendingWrites)
    {
      if |pendingWrites| >= maxPendingWrites {
        return Rejected;
      }
      if activeWriter.None? {
        activeWriter := Some(op);
        totalWrites := totalWrites + 1;
        return Granted;
      }
      pendingWrites := pendingWrites + [op];
      contendedWrites := contendedWrites + 1;
      return Queued;
    }

    method WakeUp(op: OpId)
      modifies this
      ensures State() == Activate(old(State()), op)
    {
      activeWriter := Some(op);
      totalWrites := totalWrites + 1;
    }

    method DropGuard(op: OpId) returns (notify: Option<OpId>)
      modifies this
      ensures (State(), notify) == Release(old(State()), op)
    {
      if activeWriter.Some? {
        if activeWriter.value == op {
          activeWriter := None;
        }
      }
      notify := None;
      if pendingWrites != [] {
        notify := Some(pendingWrites[0]);
        pendingWrites := pendingWrites[1..];
      }
    }
  }
}
