/** When writers can go on: from which states of a run some continuation grants another guard. */
module ConcurrentLiveness {
  import opened Outcomes
  import opened WriteCoordinator
  import opened ConcurrentRuns

  /** Some continuation grants a guard. */
  ghost predicate MayGrant<I(!new), E(!new)>(setup: Setup<I, E>, w: World<I, E>) {
    exists evs: seq<Event<E>> :: Run(setup, w, evs).granted != w.granted
  }

  /**
   * A writer is marked active that holds no guard (its drop did not get the lock), nobody is about to take one,
   * and the guards that are left will all notify cancelled waiters.
   */
  predicate Stuck<I, E>(w: World<I, E>) {
    && w.notified == {} && w.coord.active.Some? && w.coord.active.value !in w.guards
    && |w.guards| <= |w.coord.pending|
    && forall i :: 0 <= i < |w.guards| ==> w.coord.pending[i] in w.cancelled
  }

  // Stuck for good

  lemma StuckDrop<I, E>(setup: Setup<I, E>, w: World<I, E>, ev: Event<E>)
    requires Stuck(w) && Enabled(w, ev) && (ev.DropGuard? || ev.DropGuardLockHeld?)
    ensures Stuck(Step(setup, w, ev)) && Step(setup, w, ev).granted == w.granted
  {
    assert w.guards == (w.guards - {ev.op}) + {ev.op};
    assert |w.guards - {ev.op}| == |w.guards| - 1;
  }

  lemma StuckAcquire<I, E>(setup: Setup<I, E>, w: World<I, E>, op: OpId)
    requires Stuck(w) && Enabled(w, Acquire(op))
    ensures Stuck(Step(setup, w, Acquire(op))) && Step(setup, w, Acquire(op)).granted == w.granted
  {
  }

  lemma StuckOther<I, E>(w: World<I, E>, r: World<I, E>)
    requires Stuck(w) && r.notified == {} && r.coord == w.coord && r.guards == w.guards && w.cancelled <= r.cancelled
    ensures Stuck(r)
  {
  }

  lemma StuckStep<I, E>(setup: Setup<I, E>, w: World<I, E>, ev: Event<E>)
    requires Stuck(w)
    ensures Stuck(Do(setup, w, ev)) && Do(setup, w, ev).granted == w.granted
  {
    if Enabled(w, ev) {
      match ev
      case DropGuard(_) => StuckDrop(setup, w, ev);
      case DropGuardLockHeld(_) => StuckDrop(setup, w, ev);
      case Acquire(op) => StuckAcquire(setup, w, op);
      case Wake(_) =>
      case _ => StuckOther(w, Step(setup, w, ev));
    }
  }

  lemma {:induction false} StuckForever<I, E>(setup: Setup<I, E>, w: World<I, E>, evs: seq<Event<E>>)
    requires Stuck(w)
    ensures Stuck(Run(setup, w, evs)) && Run(setup, w, evs).granted == w.granted
    decreases |evs|
  {
    if evs != [] {
      StuckStep(setup, w, evs[0]);
      StuckForever(setup, Do(setup, w, evs[0]), evs[1..]);
    }
  }

  // What every reachable state offers

  /** An idle coordinator has room in its queue, and one without any room never does anything. */
  ghost predicate RoomInv<I, E>(setup: Setup<I, E>, w: World<I, E>) {
    && w.cancelled <= w.started
    && (w.coord.active.None? && setup.maxPending > 0 ==> |w.coord.pending| < setup.maxPending)
    && (setup.maxPending == 0 ==> w.arrived == [] && w.granted == [])
  }

  lemma RoomStep<I, E>(setup: Setup<I, E>, w: World<I, E>, ev: Event<E>)
    requires QueueInv(setup, w) && RoomInv(setup, w)
    ensures RoomInv(setup, Do(setup, w, ev))
  {
    if ev.Cancel? && Enabled(w, ev) {
      assert ev.op in w.arrived;
    }
  }

  lemma {:induction false} RoomRun<I, E>(setup: Setup<I, E>, w: World<I, E>, evs: seq<Event<E>>)
    requires QueueInv(setup, w) && RoomInv(setup, w)
    ensures QueueInv(setup, Run(setup, w, evs)) && RoomInv(setup, Run(setup, w, evs))
    decreases |evs|
  {
    if evs != [] {
      QueueStep(setup, w, evs[0]);
      RoomStep(setup, w, evs[0]);
      RoomRun(setup, Do(setup, w, evs[0]), evs[1..]);
    }
  }

  lemma FreshOperation(started: set<OpId>) returns (op: OpId)
    ensures op !in started
  {
    op := Above(started);
    assert op in started ==> op < op;
  }

  lemma {:induction false} Above(ops: set<OpId>) returns (bound: OpId)
    ensures forall op :: op in ops ==> op < bound
    decreases |ops|
  {
    if ops == {} {
      bound := 0;
    } else {
      var op :| op in ops;
      var rest := Above(ops - {op});
      bound := if op < rest then rest else op + 1;
      assert forall other :: other in ops ==> other == op || other in ops - {op};
    }
  }

  // Ways to the next guard

  lemma GrantNow<I(!new), E(!new)>(setup: Setup<I, E>, w: World<I, E>, ev: Event<E>)
    requires |Do(setup, w, ev).granted| > |w.granted|
    ensures MayGrant(setup, w)
  {
    var evs := [ev];
    assert evs[1..] == [];
    assert Run(setup, w, evs) == Do(setup, w, ev);
  }

  lemma GrantLater<I(!new), E(!new)>(setup: Setup<I, E>, w: World<I, E>, ev: Event<E>)
    requires Do(setup, w, ev).granted == w.granted && MayGrant(setup, Do(setup, w, ev))
    ensures MayGrant(setup, w)
  {
    var v := Do(setup, w, ev);
    var evs: seq<Event<E>> :| Run(setup, v, evs).granted != v.granted;
    assert ([ev] + evs)[1..] == evs;
    assert Run(setup, w, [ev] + evs) == Run(setup, v, evs);
  }

  lemma WakeGrants<I(!new), E(!new)>(setup: Setup<I, E>, w: World<I, E>, op: OpId)
    requires op in w.notified
    ensures MayGrant(setup, w)
  {
    GrantNow(setup, w, Wake(op));
  }

  lemma FreshGrants<I(!new), E(!new)>(setup: Setup<I, E>, w: World<I, E>)
    requires w.coord.active.None? && |w.coord.pending| < setup.maxPending
    ensures MayGrant(setup, w)
  {
    var op := FreshOperation(w.started);
    GrantNow(setup, w, Acquire(op));
  }

  /** The state in which a guard can be dropped: its writer, if it has one, first discards its copy. */
  function Released<I, E>(setup: Setup<I, E>, w: World<I, E>, op: OpId): World<I, E> {
    Do(setup, if op in w.writers then Do(setup, w, Discard(op)) else w, DropGuard(op))
  }

  lemma ReleaseFirst<I(!new), E(!new)>(setup: Setup<I, E>, w: World<I, E>, op: OpId)
    requires op in w.guards && MayGrant(setup, Released(setup, w, op))
    ensures MayGrant(setup, w)
  {
    var v := if op in w.writers then Do(setup, w, Discard(op)) else w;
    GrantLater(setup, v, DropGuard(op));
    if op in w.writers {
      GrantLater(setup, w, Discard(op));
    }
  }

  lemma ReleasedState<I, E>(setup: Setup<I, E>, w: World<I, E>, op: OpId)
    requires op in w.guards
    ensures var r := Released(setup, w, op);
            && r.granted == w.granted && r.cancelled == w.cancelled && r.guards == w.guards - {op}
            && r.coord == Release(w.coord, op).0
            && (w.coord.pending != [] && w.coord.pending[0] !in w.cancelled ==> w.coord.pending[0] in r.notified)
            && (w.coord.pending == [] || w.coord.pending[0] in w.cancelled ==> r.notified == w.notified)
  {
  }

  lemma ReleasedKeepsInv<I, E>(setup: Setup<I, E>, w: World<I, E>, op: OpId)
    requires QueueInv(setup, w) && RoomInv(setup, w)
    ensures QueueInv(setup, Released(setup, w, op)) && RoomInv(setup, Released(setup, w, op))
  {
    var v := if op in w.writers then Do(setup, w, Discard(op)) else w;
    QueueStep(setup, w, Discard(op));
    RoomStep(setup, w, Discard(op));
    QueueStep(setup, v, DropGuard(op));
    RoomStep(setup, v, DropGuard(op));
  }

  lemma HeadGrants<I(!new), E(!new)>(setup: Setup<I, E>, w: World<I, E>, op: OpId)
    requires op in w.guards && w.coord.pending != [] && w.coord.pending[0] !in w.cancelled
    ensures MayGrant(setup, w)
  {
    ReleasedState(setup, w, op);
    WakeGrants(setup, Released(setup, w, op), w.coord.pending[0]);
    ReleaseFirst(setup, w, op);
  }

  /** With an empty queue, a fresh operation can wait for a guard that is dropped next. */
  lemma EmptyQueueGrants<I(!new), E(!new)>(setup: Setup<I, E>, w: World<I, E>, op: OpId)
    requires RoomInv(setup, w) && setup.maxPending > 0 && op in w.guards && w.coord.pending == []
    requires w.coord.active.Some?
    ensures MayGrant(setup, w)
  {
    var newcomer := FreshOperation(w.started);
    var v := Do(setup, w, Acquire(newcomer));
    assert v.coord.pending == [newcomer];
    HeadGrants(setup, v, op);
    GrantLater(setup, w, Acquire(newcomer));
  }

  lemma NotStuckAfterDrop<I, E>(setup: Setup<I, E>, w: World<I, E>, op: OpId, r: World<I, E>)
    requires !Stuck(w) && op in w.guards && w.coord.pending != [] && w.coord.pending[0] in w.cancelled
    requires w.notified == {} && w.coord.active.Some?
    requires w.coord.active.value in w.guards ==> w.coord.active.value == op
    requires r.guards == w.guards - {op} && r.coord == Release(w.coord, op).0 && r.cancelled == w.cancelled
    requires r.notified == w.notified
    ensures !Stuck(r)
  {
    assert w.guards == (w.guards - {op}) + {op};
    if w.coord.active != Some(op) && |w.guards| <= |w.coord.pending| {
      var i :| 0 <= i < |w.guards| && w.coord.pending[i] !in w.cancelled;
      assert r.coord.pending[i - 1] == w.coord.pending[i];
    }
  }

  lemma {:induction false} FreeGrants<I(!new), E(!new)>(setup: Setup<I, E>, w: World<I, E>)
    requires QueueInv(setup, w) && RoomInv(setup, w) && setup.maxPending > 0 && !Stuck(w)
    ensures MayGrant(setup, w)
    decreases |w.guards|
  {
    if op :| op in w.notified {
      WakeGrants(setup, w, op);
    } else if w.coord.active.None? {
      FreshGrants(setup, w);
    } else {
      assert w.guards != {};
      var op: OpId;
      if w.coord.active.value in w.guards {
        op := w.coord.active.value;
      } else {
        op :| op in w.guards;
      }
      if w.coord.pending == [] {
        EmptyQueueGrants(setup, w, op);
      } else if w.coord.pending[0] !in w.cancelled {
        HeadGrants(setup, w, op);
      } else {
        var r := Released(setup, w, op);
        ReleasedState(setup, w, op);
        ReleasedKeepsInv(setup, w, op);
        NotStuckAfterDrop(setup, w, op, r);
        assert w.guards == (w.guards - {op}) + {op};
        FreeGrants(setup, r);
        ReleaseFirst(setup, w, op);
      }
    }
  }

  lemma NoRoomNoGrant<I, E>(setup: Setup<I, E>, w: World<I, E>, evs: seq<Event<E>>)
    requires QueueInv(setup, w) && RoomInv(setup, w) && setup.maxPending == 0
    ensures Run(setup, w, evs).granted == w.granted
  {
    RoomRun(setup, w, evs);
  }

  lemma MayGrantExactly<I(!new), E(!new)>(setup: Setup<I, E>, w: World<I, E>)
    requires QueueInv(setup, w) && RoomInv(setup, w)
    ensures MayGrant(setup, w) <==> setup.maxPending > 0 && !Stuck(w)
  {
    if setup.maxPending > 0 && !Stuck(w) {
      FreeGrants(setup, w);
    } else {
      forall evs: seq<Event<E>>
        ensures Run(setup, w, evs).granted == w.granted
      {
        if setup.maxPending == 0 {
          NoRoomNoGrant(setup, w, evs);
        } else {
          StuckForever(setup, w, evs);
        }
      }
    }
  }

  /**
   * From every state that a run reaches, some continuation grants a guard if and only if the queue has any room
   * at all and the state is not stuck.
   */
  lemma GrantIsPossibleExactly<I(!new), E(!new)>(setup: Setup<I, E>, evs: seq<Event<E>>)
    ensures var w := Run(setup, Start(setup), evs);
            MayGrant(setup, w) <==> setup.maxPending > 0 && !Stuck(w)
  {
    RoomRun(setup, Start(setup), evs);
    MayGrantExactly(setup, Run(setup, Start(setup), evs));
  }

  /**
   * When the only guard is dropped, another one can be granted if and only if the drop handler's `try_lock`
   * succeeds.
   */
  lemma LostReleaseWedgesExactly<I(!new), E(!new)>(setup: Setup<I, E>, evs: seq<Event<E>>, op: OpId, ev: Event<E>)
    requires var w := Run(setup, Start(setup), evs); Exclusive(w) && op in w.guards && op !in w.writers
    requires ev == DropGuard(op) || ev == DropGuardLockHeld(op)
    ensures var w := Run(setup, Start(setup), evs);
            MayGrant(setup, Do(setup, w, ev)) <==> ev.DropGuard?
  {
    RoomRun(setup, Start(setup), evs);
    var w := Run(setup, Start(setup), evs);
    QueueStep(setup, w, ev);
    RoomStep(setup, w, ev);
    MayGrantExactly(setup, Do(setup, w, ev));
    assert op in w.guards + w.notified;
    assert forall a :: a in w.guards ==> a in w.guards + w.notified && a == op;
    assert w.guards - {op} == {};
    assert op in w.granted;
  }

  // Both kinds of standstill can be reached

  /** Operation 0 holds the guard, 1 and 2 wait, and 1 is cancelled before 0 drops its guard. */
  function CancelledInQueue<E>(): seq<Event<E>> {
    [Acquire(0), Acquire(1), Acquire(2), Cancel(1), DropGuard(0)]
  }

  lemma TwoWait<I, E>(setup: Setup<I, E>)
    requires setup.maxPending >= 2
    ensures Do(setup, Do(setup, Do(setup, Start(setup), Acquire(0)), Acquire(1)), Acquire(2))
         == Start(setup).(coord := Coordinator(Some(0), [1, 2], 1, 2), guards := {0}, started := {0, 1, 2},
                          arrived := [1, 2], granted := [0])
  {
    QueueBehindFirst(setup);
  }

  lemma CancelledHeadSwallows<I, E>(setup: Setup<I, E>, w: World<I, E>)
    requires w == Start(setup).(coord := Coordinator(Some(0), [1, 2], 1, 2), guards := {0}, started := {0, 1, 2},
                                arrived := [1, 2], granted := [0])
    ensures var r := Do(setup, Do(setup, w, Cancel(1)), DropGuard(0));
            Idle(r) && r.coord.pending == [2] && r.granted == [0]
  {
  }

  /** There the last waiter is never granted the guard unless somebody else comes. */
  lemma SwallowedWakeUpIsReachable<I, E>(setup: Setup<I, E>, evs: seq<Event<E>>)
    requires setup.maxPending >= 2 && forall ev :: ev in evs ==> !ev.Acquire?
    ensures var w := Run(setup, Start(setup), CancelledInQueue());
            && w.coord.pending == [2] && 2 !in w.cancelled
            && Run(setup, w, evs).coord.pending == [2] && 2 !in Run(setup, w, evs).granted
  {
    RunFive(setup, Start(setup), Acquire(0), Acquire(1), Acquire(2), Cancel(1), DropGuard(0));
    TwoWait(setup);
    CancelledHeadSwallows(setup, Do(setup, Do(setup, Do(setup, Start(setup), Acquire(0)), Acquire(1)), Acquire(2)));
    QueueWaitsForFreshAcquire(setup, Run(setup, Start(setup), CancelledInQueue()), evs);
  }

  /** A guard dropped while the lock is held blocks the coordinator two steps from the start. */
  lemma LostReleaseIsReachable<I(!new), E(!new)>(setup: Setup<I, E>)
    requires setup.maxPending >= 1
    ensures var w := Do(setup, Do(setup, Start(setup), Acquire(0)), DropGuardLockHeld(0));
            w.granted == [0] && w.guards == {} && !MayGrant(setup, w)
  {
    var w := Do(setup, Do(setup, Start(setup), Acquire(0)), DropGuardLockHeld(0));
    forall evs: seq<Event<E>>
      ensures Run(setup, w, evs).granted == w.granted
    {
      StuckForever(setup, w, evs);
    }
  }
}
