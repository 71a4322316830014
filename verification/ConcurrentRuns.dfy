/** Runs of concurrent writers and readers over the coordinator and the copy-on-write index. */
module ConcurrentRuns {
  import opened Outcomes
  import opened WriteCoordinator
  import Index = CowIndex

  type VersionId = nat

  /** The index contents are abstract: `apply` performs one edit. */
  datatype Setup<!I, !E> = Setup(maxPending: nat, init: I, apply: (I, E) -> I)

  datatype Writer<E> = Writer(version: VersionId, edits: seq<E>)

  datatype World<I, E> = World(
    coord: Coordinator,
    cancelled: set<OpId>,            // waiters whose future was dropped
    notified: set<OpId>,             // notified, not yet marked active
    guards: set<OpId>,               // live guards
    heap: map<VersionId, I>,         // contents of every index version
    nextVersion: VersionId,
    published: VersionId,
    writers: map<OpId, Writer<E>>,   // private copies
    snapshots: set<VersionId>,       // versions readers have taken
    // history
    started: set<OpId>,
    arrived: seq<OpId>,
    popped: seq<OpId>,
    granted: seq<OpId>,
    committed: seq<E>,
    commits: nat)

  datatype Event<E> =
    | Acquire(op: OpId)
    | Wake(op: OpId)
    | Cancel(op: OpId)
    | CloneForWrite(op: OpId)
    | Edit(op: OpId, edit: E)
    | Commit(op: OpId)
    | Discard(op: OpId)
    | DropGuard(op: OpId)
    | DropGuardLockHeld(op: OpId)   // the drop handler's `try_lock` failed
    | Read

  function Start<I, E>(setup: Setup<I, E>): World<I, E> {
    World(Coordinator(None, [], 0, 0), {}, {}, {}, map[0 := setup.init], 1, 0, map[], {}, {}, [], [], [], [], 0)
  }

  predicate Enabled<I, E>(w: World<I, E>, ev: Event<E>) {
    match ev
    case Acquire(op) => op !in w.started
    case Wake(op) => op in w.notified
    case Cancel(op) => op in w.notified || op in w.coord.pending
    case CloneForWrite(op) => op in w.guards && op !in w.writers && w.published in w.heap
    case Edit(op, _) => op in w.writers && w.writers[op].version in w.heap
    case Commit(op) => op in w.writers
    case Discard(op) => op in w.writers
    case DropGuard(op) => op in w.guards && op !in w.writers
    case DropGuardLockHeld(op) => op in w.guards && op !in w.writers
    case Read => true
  }

  function Step<I, E>(setup: Setup<I, E>, w: World<I, E>, ev: Event<E>): World<I, E>
    requires Enabled(w, ev)
  {
    match ev
    case Acquire(op) =>
      var (coord, outcome) := TryAcquire(w.coord, op, setup.maxPending);
      var s := w.(coord := coord, started := w.started + {op});
      (match outcome
       case Granted => s.(guards := w.guards + {op}, granted := w.granted + [op])
       case Queued => s.(arrived := w.arrived + [op])
       case Rejected => s)
    case Wake(op) =>
      w.(coord := Activate(w.coord, op), notified := w.notified - {op}, guards := w.guards + {op},
         granted := w.granted + [op])
    case Cancel(op) => w.(cancelled := w.cancelled + {op}, notified := w.notified - {op})
    case CloneForWrite(op) =>
      w.(heap := w.heap[w.nextVersion := w.heap[w.published]], nextVersion := w.nextVersion + 1,
         writers := w.writers[op := Writer(w.nextVersion, [])])
    case Edit(op, edit) =>
      var writer := w.writers[op];
      w.(heap := w.heap[writer.version := setup.apply(w.heap[writer.version], edit)],
         writers := w.writers[op := writer.(edits := writer.edits + [edit])])
    case Commit(op) =>
      w.(published := w.writers[op].version, committed := w.committed + w.writers[op].edits,
         commits := w.commits + 1, writers := w.writers - {op})
    case Discard(op) => w.(writers := w.writers - {op})
    case DropGuard(op) =>
      var (coord, notify) := Release(w.coord, op);
      var s := w.(coord := coord, guards := w.guards - {op});
      (match notify
       case None => s
       case Some(next) =>
         s.(popped := w.popped + [next],
            notified := if next in w.cancelled then w.notified else w.notified + {next}))
    case DropGuardLockHeld(op) => w.(guards := w.guards - {op})
    case Read => w.(snapshots := w.snapshots + {w.published})
  }

  /** A step of a run: events that cannot happen in a state are skipped. */
  function Do<I, E>(setup: Setup<I, E>, w: World<I, E>, ev: Event<E>): World<I, E> {
    if Enabled(w, ev) then Step(setup, w, ev) else w
  }

  function Run<I, E>(setup: Setup<I, E>, w: World<I, E>, evs: seq<Event<E>>): World<I, E>
    decreases |evs|
  {
    if evs == [] then w else Run(setup, Do(setup, w, evs[0]), evs[1..])
  }

  predicate Distinct<T(==)>(s: seq<T>) {
    forall i, j :: 0 <= i < j < |s| ==> s[i] != s[j]
  }

  // What holds in every run

  ghost predicate QueueInv<I, E>(setup: Setup<I, E>, w: World<I, E>) {
    && |w.coord.pending| <= setup.maxPending
    && w.arrived == w.popped + w.coord.pending
    && w.coord.totalWrites == |w.granted|
    && Distinct(w.arrived) && Distinct(w.granted)
    && (forall op :: op in w.arrived ==> op in w.started)
    && (forall op :: op in w.granted ==> op in w.started)
    && (forall op :: op in w.guards ==> op in w.granted)
    && (forall op :: op in w.notified ==> op in w.popped && op !in w.granted)
    && (forall op :: op in w.coord.pending ==> op !in w.granted)
    && (forall op :: op in w.writers ==> op in w.guards)
  }

  lemma QueueGrant<I, E>(setup: Setup<I, E>, w: World<I, E>, op: OpId)
    requires QueueInv(setup, w) && op !in w.started && TryAcquire(w.coord, op, setup.maxPending).1 == Granted
    ensures QueueInv(setup, Step(setup, w, Acquire(op)))
  {
    assert op !in w.arrived && op !in w.granted && op !in w.guards;
    assert forall p :: p in w.coord.pending ==> p in w.arrived;
    assert forall p :: p in w.popped ==> p in w.arrived;
  }

  lemma QueueWait<I, E>(setup: Setup<I, E>, w: World<I, E>, op: OpId)
    requires QueueInv(setup, w) && op !in w.started && TryAcquire(w.coord, op, setup.maxPending).1 == Queued
    ensures QueueInv(setup, Step(setup, w, Acquire(op)))
  {
    assert op !in w.arrived && op !in w.granted;
    assert w.popped + (w.coord.pending + [op]) == w.arrived + [op];
  }

  lemma QueueAcquire<I, E>(setup: Setup<I, E>, w: World<I, E>, op: OpId)
    requires QueueInv(setup, w) && op !in w.started
    ensures QueueInv(setup, Step(setup, w, Acquire(op)))
  {
    match TryAcquire(w.coord, op, setup.maxPending).1
    case Granted => QueueGrant(setup, w, op);
    case Queued => QueueWait(setup, w, op);
    case Rejected =>
  }

  lemma QueueDrop<I, E>(setup: Setup<I, E>, w: World<I, E>, op: OpId)
    requires QueueInv(setup, w) && op in w.guards && op !in w.writers
    ensures QueueInv(setup, Step(setup, w, DropGuard(op)))
  {
    if w.coord.pending != [] {
      var first, rest := w.coord.pending[0], w.coord.pending[1..];
      assert w.popped + [first] + rest == w.popped + w.coord.pending;
      assert first in w.coord.pending && forall p :: p in rest ==> p in w.coord.pending;
    }
  }

  lemma QueueWake<I, E>(setup: Setup<I, E>, w: World<I, E>, op: OpId)
    requires QueueInv(setup, w) && op in w.notified
    ensures QueueInv(setup, Step(setup, w, Wake(op)))
  {
    var i :| 0 <= i < |w.popped| && w.popped[i] == op;
    forall j | 0 <= j < |w.coord.pending|
      ensures w.coord.pending[j] != op
    {
      assert w.arrived[i] == op && w.arrived[|w.popped| + j] == w.coord.pending[j];
    }
  }

  lemma QueueStep<I, E>(setup: Setup<I, E>, w: World<I, E>, ev: Event<E>)
    requires QueueInv(setup, w)
    ensures QueueInv(setup, Do(setup, w, ev))
  {
    if Enabled(w, ev) {
      match ev
      case Acquire(op) => QueueAcquire(setup, w, op);
      case DropGuard(op) => QueueDrop(setup, w, op);
      case Wake(op) => QueueWake(setup, w, op);
      case _ =>
    }
  }

  lemma {:induction false} QueueRun<I, E>(setup: Setup<I, E>, w: World<I, E>, evs: seq<Event<E>>)
    requires QueueInv(setup, w)
    ensures QueueInv(setup, Run(setup, w, evs))
    decreases |evs|
  {
    if evs != [] {
      QueueStep(setup, w, evs[0]);
      QueueRun(setup, Do(setup, w, evs[0]), evs[1..]);
    }
  }

  /** How many of the events drop a guard. */
  function Drops<E>(evs: seq<Event<E>>): nat
    decreases |evs|
  {
    if evs == [] then 0 else (if evs[0].DropGuard? then 1 else 0) + Drops(evs[1..])
  }

  lemma {:induction false} DropsPop<I, E>(setup: Setup<I, E>, w: World<I, E>, evs: seq<Event<E>>)
    ensures |Run(setup, w, evs).popped| <= |w.popped| + Drops(evs)
    decreases |evs|
  {
    if evs != [] {
      DropsPop(setup, Do(setup, w, evs[0]), evs[1..]);
    }
  }

  /**
   * In every run, whatever the interleaving: waiters are popped in arrival order and each once, a guard drop pops
   * at most one, the queue respects its bound, and the write count is the number of guards granted, one per
   * operation.
   */
  lemma WaitersAreServedInOrder<I, E>(setup: Setup<I, E>, evs: seq<Event<E>>)
    ensures var w := Run(setup, Start(setup), evs);
            && w.popped <= w.arrived && Distinct(w.arrived) && |w.popped| <= Drops(evs)
            && w.arrived[|w.popped|..] == w.coord.pending && |w.coord.pending| <= setup.maxPending
            && w.coord.totalWrites == |w.granted| && Distinct(w.granted)
  {
    QueueRun(setup, Start(setup), evs);
    DropsPop(setup, Start(setup), evs);
    var w := Run(setup, Start(setup), evs);
    assert w.arrived[|w.popped|..] == w.coord.pending;
  }

  /** Cancelled waiters are neither notified nor granted anything, and arrived before. */
  ghost predicate CancelledInv<I, E>(w: World<I, E>) {
    forall op :: op in w.cancelled ==> op !in w.notified && op !in w.granted && op in w.started
  }

  lemma CancelledStep<I, E>(setup: Setup<I, E>, w: World<I, E>, ev: Event<E>)
    requires QueueInv(setup, w) && CancelledInv(w)
    ensures CancelledInv(Do(setup, w, ev))
  {
    if ev.Cancel? && Enabled(w, ev) {
      assert ev.op in w.arrived;
    }
  }

  lemma {:induction false} CancelledRun<I, E>(setup: Setup<I, E>, w: World<I, E>, evs: seq<Event<E>>)
    requires QueueInv(setup, w) && CancelledInv(w)
    ensures CancelledInv(Run(setup, w, evs))
    decreases |evs|
  {
    if evs != [] {
      QueueStep(setup, w, evs[0]);
      CancelledStep(setup, w, evs[0]);
      CancelledRun(setup, Do(setup, w, evs[0]), evs[1..]);
    }
  }

  /** In every run a waiter that gave up while it waited or was about to wake up never gets a guard. */
  lemma CancelledIsNeverGranted<I, E>(setup: Setup<I, E>, before: seq<Event<E>>, op: OpId, after: seq<Event<E>>)
    requires var w := Run(setup, Start(setup), before); op in w.coord.pending || op in w.notified
    ensures var r := Run(setup, Do(setup, Run(setup, Start(setup), before), Cancel(op)), after);
            op !in r.granted && op !in r.guards
  {
    QueueRun(setup, Start(setup), before);
    CancelledRun(setup, Start(setup), before);
    var w := Run(setup, Start(setup), before);
    var c := Do(setup, w, Cancel(op));
    QueueStep(setup, w, Cancel(op));
    CancelledStep(setup, w, Cancel(op));
    QueueRun(setup, c, after);
    CancelledRun(setup, c, after);
    CancelledStays(setup, c, after, op);
  }

  lemma {:induction false} CancelledStays<I, E>(setup: Setup<I, E>, w: World<I, E>, evs: seq<Event<E>>, op: OpId)
    requires op in w.cancelled
    ensures op in Run(setup, w, evs).cancelled
    decreases |evs|
  {
    if evs != [] {
      CancelledStays(setup, Do(setup, w, evs[0]), evs[1..], op);
    }
  }

  // Versions that readers can see never change

  ghost predicate VersionInv<I, E>(w: World<I, E>) {
    && (forall v :: v in w.heap ==> v < w.nextVersion)
    && w.published in w.heap
    && (forall v :: v in w.snapshots ==> v in w.heap)
    && (forall op :: op in w.writers ==>
          w.writers[op].version in w.heap && w.writers[op].version != w.published
          && w.writers[op].version !in w.snapshots)
    && (forall a, b :: a in w.writers && b in w.writers && a != b ==> w.writers[a].version != w.writers[b].version)
  }

  lemma VersionStep<I, E>(setup: Setup<I, E>, w: World<I, E>, ev: Event<E>)
    requires VersionInv(w)
    ensures VersionInv(Do(setup, w, ev))
    ensures w.snapshots <= Do(setup, w, ev).snapshots
    ensures forall v :: v in w.snapshots || v == w.published ==>
              v in Do(setup, w, ev).heap && Do(setup, w, ev).heap[v] == w.heap[v]
  {
  }

  lemma {:induction false} VersionRun<I, E>(setup: Setup<I, E>, w: World<I, E>, evs: seq<Event<E>>)
    requires VersionInv(w)
    ensures VersionInv(Run(setup, w, evs))
    ensures forall v :: v in w.snapshots ==> v in Run(setup, w, evs).heap && Run(setup, w, evs).heap[v] == w.heap[v]
    decreases |evs|
  {
    if evs != [] {
      VersionStep(setup, w, evs[0]);
      VersionRun(setup, Do(setup, w, evs[0]), evs[1..]);
    }
  }

  /** In every run, whatever happens after a reader takes a snapshot, the snapshot keeps its contents. */
  lemma SnapshotsNeverChange<I, E>(setup: Setup<I, E>, before: seq<Event<E>>, after: seq<Event<E>>, v: VersionId)
    requires v in Run(setup, Start(setup), before).snapshots
    ensures var w := Run(setup, Start(setup), before);
            var r := Run(setup, w, after);
            v in w.heap && v in r.heap && r.heap[v] == w.heap[v]
  {
    VersionRun(setup, Start(setup), before);
    VersionRun(setup, Run(setup, Start(setup), before), after);
  }

  /** What a reader takes is what is published then, and that it keeps. */
  lemma ReadersKeepWhatTheyRead<I, E>(setup: Setup<I, E>, before: seq<Event<E>>, after: seq<Event<E>>)
    ensures var w := Run(setup, Start(setup), before);
            var r := Run(setup, Do(setup, w, Read), after);
            && w.published in w.heap && w.published in r.heap
            && r.heap[w.published] == w.heap[w.published]
  {
    VersionRun(setup, Start(setup), before);
    var w := Run(setup, Start(setup), before);
    VersionStep(setup, w, Read);
    VersionRun(setup, Do(setup, w, Read), after);
  }

  // The published index moves as the copy-on-write index does

  function SharedIndex<I, E>(w: World<I, E>): Index.Shared<I>
    requires w.published in w.heap
  {
    Index.Shared(w.heap[w.published], |w.writers.Keys|, w.commits)
  }

  lemma CloneIsIndexOperation<I, E>(setup: Setup<I, E>, w: World<I, E>, op: OpId)
    requires VersionInv(w) && Enabled(w, CloneForWrite(op))
    ensures var r := Step(setup, w, CloneForWrite(op));
            && r.published in r.heap && SharedIndex(r) == Index.Cloned(SharedIndex(w))
            && r.heap[r.writers[op].version] == SharedIndex(w).published
  {
    assert Step(setup, w, CloneForWrite(op)).writers.Keys == w.writers.Keys + {op};
  }

  lemma CommitIsIndexOperation<I, E>(setup: Setup<I, E>, w: World<I, E>, op: OpId)
    requires VersionInv(w) && Enabled(w, Commit(op))
    ensures var r := Step(setup, w, Commit(op));
            && r.published in r.heap && SharedIndex(w).activeWriters > 0
            && SharedIndex(r) == Index.Committed(SharedIndex(w), w.heap[w.writers[op].version])
  {
    assert w.writers.Keys == Step(setup, w, Commit(op)).writers.Keys + {op};
  }

  lemma DiscardIsIndexOperation<I, E>(setup: Setup<I, E>, w: World<I, E>, op: OpId)
    requires VersionInv(w) && Enabled(w, Discard(op))
    ensures var r := Step(setup, w, Discard(op));
            && r.published in r.heap && SharedIndex(w).activeWriters > 0
            && SharedIndex(r) == Index.Discarded(SharedIndex(w))
  {
    assert w.writers.Keys == Step(setup, w, Discard(op)).writers.Keys + {op};
  }

  lemma OthersLeaveIndex<I, E>(setup: Setup<I, E>, w: World<I, E>, ev: Event<E>)
    requires VersionInv(w) && Enabled(w, ev) && !ev.CloneForWrite? && !ev.Commit? && !ev.Discard?
    ensures var r := Step(setup, w, ev); r.published in r.heap && SharedIndex(r) == SharedIndex(w)
  {
    assert ev.Edit? ==> Step(setup, w, ev).writers.Keys == w.writers.Keys;
  }

  // What holds in runs where no fresh acquire is granted while a notification is in flight

  /** The event is not a fresh acquire that would be granted between a notification and its wake-up. */
  predicate Gentle<I, E>(setup: Setup<I, E>, w: World<I, E>, ev: Event<E>) {
    ev.Acquire? && Enabled(w, ev) && TryAcquire(w.coord, ev.op, setup.maxPending).1 == Granted ==> w.notified == {}
  }

  predicate GentleRun<I, E>(setup: Setup<I, E>, w: World<I, E>, evs: seq<Event<E>>)
    decreases |evs|
  {
    evs != [] ==> Gentle(setup, w, evs[0]) && GentleRun(setup, Do(setup, w, evs[0]), evs[1..])
  }

  /** At most one operation holds or is about to take the guard, and a holder is the one marked active. */
  ghost predicate Exclusive<I, E>(w: World<I, E>) {
    && (forall a, b :: a in w.guards + w.notified && b in w.guards + w.notified ==> a == b)
    && (forall op :: op in w.guards ==> w.coord.active == Some(op))
    && (w.notified != {} ==> w.guards == {})
  }

  function ApplyAll<I, E>(setup: Setup<I, E>, index: I, edits: seq<E>): I
    decreases |edits|
  {
    if edits == [] then index else setup.apply(ApplyAll(setup, index, edits[..|edits| - 1]), edits[|edits| - 1])
  }

  /** The published index is the committed edits in order, and the private copy continues from it. */
  ghost predicate Serial<I, E>(setup: Setup<I, E>, w: World<I, E>) {
    && VersionInv(w)
    && w.heap[w.published] == ApplyAll(setup, setup.init, w.committed)
    && (forall op :: op in w.writers ==>
          && op in w.guards
          && w.heap[w.writers[op].version] == ApplyAll(setup, w.heap[w.published], w.writers[op].edits))
  }

  lemma ExclusiveAcquire<I, E>(setup: Setup<I, E>, w: World<I, E>, op: OpId)
    requires Exclusive(w) && Enabled(w, Acquire(op)) && Gentle(setup, w, Acquire(op))
    ensures Exclusive(Step(setup, w, Acquire(op)))
  {
    if TryAcquire(w.coord, op, setup.maxPending).1 == Granted {
      assert w.guards == {};
    }
  }

  lemma ExclusiveWake<I, E>(setup: Setup<I, E>, w: World<I, E>, op: OpId)
    requires Exclusive(w) && Enabled(w, Wake(op))
    ensures Exclusive(Step(setup, w, Wake(op)))
  {
    assert op in w.guards + w.notified && w.guards == {};
    assert forall a :: a in w.notified ==> a in w.guards + w.notified && a == op;
  }

  lemma ExclusiveDrop<I, E>(setup: Setup<I, E>, w: World<I, E>, ev: Event<E>)
    requires Exclusive(w) && Enabled(w, ev) && (ev.DropGuard? || ev.DropGuardLockHeld?)
    ensures Exclusive(Step(setup, w, ev))
  {
    assert ev.op in w.guards + w.notified && w.notified == {};
    assert forall a :: a in w.guards ==> a in w.guards + w.notified && a == ev.op;
  }

  lemma ExclusiveOther<I, E>(w: World<I, E>, r: World<I, E>)
    requires Exclusive(w) && r.guards == w.guards && r.notified <= w.notified && r.coord.active == w.coord.active
    ensures Exclusive(r)
  {
    assert forall op :: op in r.guards + r.notified ==> op in w.guards + w.notified;
  }

  lemma ExclusiveStep<I, E>(setup: Setup<I, E>, w: World<I, E>, ev: Event<E>)
    requires Exclusive(w) && Gentle(setup, w, ev)
    ensures Exclusive(Do(setup, w, ev))
  {
    if Enabled(w, ev) {
      match ev
      case Acquire(op) => ExclusiveAcquire(setup, w, op);
      case Wake(op) => ExclusiveWake(setup, w, op);
      case DropGuard(_) => ExclusiveDrop(setup, w, ev);
      case DropGuardLockHeld(_) => ExclusiveDrop(setup, w, ev);
      case _ => ExclusiveOther(w, Step(setup, w, ev));
    }
  }

  lemma {:induction false} ApplyAllConcat<I, E>(setup: Setup<I, E>, index: I, a: seq<E>, b: seq<E>)
    ensures ApplyAll(setup, index, a + b) == ApplyAll(setup, ApplyAll(setup, index, a), b)
    decreases |b|
  {
    if b == [] {
      assert a + b == a;
    } else {
      ApplyAllConcat(setup, index, a, b[..|b| - 1]);
      assert (a + b)[..|a + b| - 1] == a + b[..|b| - 1];
    }
  }

  lemma SerialStep<I, E>(setup: Setup<I, E>, w: World<I, E>, ev: Event<E>)
    requires Serial(setup, w) && Exclusive(w)
    ensures Serial(setup, Do(setup, w, ev))
  {
    VersionStep(setup, w, ev);
    if Enabled(w, ev) {
      match ev
      case Edit(op, edit) =>
        var edits := w.writers[op].edits;
        assert (edits + [edit])[..|edits|] == edits;
      case Commit(op) =>
        ApplyAllConcat(setup, setup.init, w.committed, w.writers[op].edits);
      case _ =>
    }
  }

  lemma {:induction false} GentleRunIsSerial<I, E>(setup: Setup<I, E>, w: World<I, E>, evs: seq<Event<E>>)
    requires QueueInv(setup, w) && Exclusive(w) && Serial(setup, w) && GentleRun(setup, w, evs)
    ensures Exclusive(Run(setup, w, evs)) && Serial(setup, Run(setup, w, evs))
    decreases |evs|
  {
    if evs != [] {
      QueueStep(setup, w, evs[0]);
      ExclusiveStep(setup, w, evs[0]);
      SerialStep(setup, w, evs[0]);
      GentleRunIsSerial(setup, Do(setup, w, evs[0]), evs[1..]);
    }
  }

  /**
   * In every run without a fresh grant between a notification and its wake-up: at most one guard is live, and
   * the published index is all committed edits applied one after another, none lost.
   */
  lemma WritersAreSerialized<I, E>(setup: Setup<I, E>, evs: seq<Event<E>>)
    requires GentleRun(setup, Start(setup), evs)
    ensures var w := Run(setup, Start(setup), evs);
            && (forall a, b :: a in w.guards && b in w.guards ==> a == b)
            && w.published in w.heap && w.heap[w.published] == ApplyAll(setup, setup.init, w.committed)
  {
    GentleRunIsSerial(setup, Start(setup), evs);
  }

  // The window

  /** A granted fresh acquire keeps exclusion exactly when no notification is in flight. */
  lemma GrantKeepsExclusionExactly<I, E>(setup: Setup<I, E>, w: World<I, E>, op: OpId)
    requires QueueInv(setup, w) && Exclusive(w) && op !in w.started
    requires TryAcquire(w.coord, op, setup.maxPending).1 == Granted
    ensures Exclusive(Step(setup, w, Acquire(op))) <==> w.notified == {}
  {
    if w.notified != {} {
      var waiter :| waiter in w.notified;
      assert waiter in w.started && waiter != op;
    }
  }

  /** Otherwise the notified waiter's wake-up makes a second guard live. */
  lemma WindowGivesTwoGuards<I, E>(setup: Setup<I, E>, w: World<I, E>, op: OpId, waiter: OpId)
    requires QueueInv(setup, w) && op !in w.started && waiter in w.notified
    requires TryAcquire(w.coord, op, setup.maxPending).1 == Granted
    ensures var r := Do(setup, Do(setup, w, Acquire(op)), Wake(waiter));
            op in r.guards && waiter in r.guards && op != waiter && op !in r.writers && waiter !in r.writers
  {
    assert waiter in w.started;
  }

  /** Two guards, both with a clone of the same version: the commit that comes second erases the first. */
  lemma TwoGuardsLoseAnUpdate<I, E>(setup: Setup<I, E>, w: World<I, E>, a: OpId, b: OpId, first: E, second: E)
    requires VersionInv(w) && a != b && a in w.guards && b in w.guards && a !in w.writers && b !in w.writers
    ensures var w1 := Do(setup, Do(setup, w, CloneForWrite(a)), CloneForWrite(b));
            var w2 := Do(setup, Do(setup, w1, Edit(a, first)), Edit(b, second));
            var w3 := Do(setup, Do(setup, w2, Commit(a)), Commit(b));
            && w3.committed == w.committed + [first] + [second]
            && w3.published in w3.heap && w3.heap[w3.published] == setup.apply(w.heap[w.published], second)
  {
    var w1 := Do(setup, Do(setup, w, CloneForWrite(a)), CloneForWrite(b));
    assert w1.writers[a] == Writer(w.nextVersion, []) && w1.writers[b] == Writer(w.nextVersion + 1, []);
    var w2 := Do(setup, Do(setup, w1, Edit(a, first)), Edit(b, second));
    assert w2.writers[a].edits == [first] && w2.writers[b].edits == [second];
  }

  /** A run into the window: operation 1 waits, is notified, and operation 2 comes before it wakes up. */
  function IntoTheWindow<E>(): seq<Event<E>> {
    [Acquire(0), Acquire(1), DropGuard(0), Acquire(2), Wake(1)]
  }

  /** The states on the way, before operation 2 comes and after. */
  lemma QueueBehindFirst<I, E>(setup: Setup<I, E>)
    requires setup.maxPending >= 1
    ensures Do(setup, Do(setup, Start(setup), Acquire(0)), Acquire(1))
         == Start(setup).(coord := Coordinator(Some(0), [1], 1, 1), guards := {0}, started := {0, 1}, arrived := [1],
                          granted := [0])
  {
    var w := Do(setup, Start(setup), Acquire(0));
    assert w == Start(setup).(coord := Coordinator(Some(0), [], 1, 0), guards := {0}, started := {0}, granted := [0]);
  }

  lemma WindowOpens<I, E>(setup: Setup<I, E>, w: World<I, E>)
    requires w.coord == Coordinator(Some(0), [1], 1, 1) && w.guards == {0} && w.notified == {} && w.writers == map[]
    requires w.cancelled == {} && w.started == {0, 1} && setup.maxPending >= 1
    ensures var r := Do(setup, Do(setup, Do(setup, w, DropGuard(0)), Acquire(2)), Wake(1));
            && r.guards == {1, 2} && r.writers == map[] && r.committed == w.committed
            && r.heap == w.heap && r.published == w.published && r.snapshots == w.snapshots
            && r.nextVersion == w.nextVersion
  {
    var r := Do(setup, w, DropGuard(0));
    assert r.coord == Coordinator(None, [], 1, 1) && r.notified == {1} && r.guards == {};
  }

  lemma WindowIsReachable<I, E>(setup: Setup<I, E>)
    requires setup.maxPending >= 1
    ensures var w := Run(setup, Start(setup), IntoTheWindow());
            && w.guards == {1, 2} && w.writers == map[] && w.committed == []
            && VersionInv(w) && w.heap[w.published] == setup.init
  {
    RunFive(setup, Start(setup), Acquire(0), Acquire(1), DropGuard(0), Acquire(2), Wake(1));
    QueueBehindFirst(setup);
    WindowOpens(setup, Do(setup, Do(setup, Start(setup), Acquire(0)), Acquire(1)));
  }

  lemma RunFive<I, E>(setup: Setup<I, E>, w: World<I, E>, a: Event<E>, b: Event<E>, c: Event<E>, d: Event<E>,
                      e: Event<E>)
    ensures Run(setup, w, [a, b, c, d, e])
         == Do(setup, Do(setup, Do(setup, Do(setup, Do(setup, w, a), b), c), d), e)
  {
    RunTwo(setup, w, [a, b, c, d, e]);
    RunTwo(setup, Do(setup, Do(setup, w, a), b), [c, d, e]);
    assert [a, b, c, d, e][2..] == [c, d, e] && [c, d, e][2..] == [e] && [e][1..] == [];
    var v := Do(setup, Do(setup, Do(setup, Do(setup, w, a), b), c), d);
    assert Run(setup, v, [e]) == Do(setup, v, e);
  }

  lemma RunTwo<I, E>(setup: Setup<I, E>, w: World<I, E>, evs: seq<Event<E>>)
    requires |evs| >= 2
    ensures Run(setup, w, evs) == Run(setup, Do(setup, Do(setup, w, evs[0]), evs[1]), evs[2..])
  {
    var v := Do(setup, w, evs[0]);
    assert evs[1..][1..] == evs[2..];
    assert Run(setup, v, evs[1..]) == Run(setup, Do(setup, v, evs[1]), evs[2..]);
  }

  /** From there an update is lost: both edits are committed, and the published index has only the second. */
  lemma UpdateLossIsReachable<I, E>(setup: Setup<I, E>, first: E, second: E)
    requires setup.maxPending >= 1
    ensures var w := Run(setup, Start(setup), IntoTheWindow());
            var w1 := Do(setup, Do(setup, w, CloneForWrite(1)), CloneForWrite(2));
            var w2 := Do(setup, Do(setup, w1, Edit(1, first)), Edit(2, second));
            var w3 := Do(setup, Do(setup, w2, Commit(1)), Commit(2));
            && w3.committed == [first] + [second]
            && w3.published in w3.heap && w3.heap[w3.published] == setup.apply(setup.init, second)
  {
    WindowIsReachable(setup);
    var w := Run(setup, Start(setup), IntoTheWindow());
    TwoGuardsLoseAnUpdate(setup, w, 1, 2, first, second);
    assert w.committed + [first] + [second] == [first] + [second];
  }

  // A waiter that was cancelled

  /** Nobody is active, holds a guard or is about to. */
  predicate Idle<I, E>(w: World<I, E>) {
    w.coord.active.None? && w.guards == {} && w.notified == {}
  }

  lemma {:induction false} QueueWaitsForFreshAcquire<I, E>(setup: Setup<I, E>, w: World<I, E>, evs: seq<Event<E>>)
    requires Idle(w) && forall ev :: ev in evs ==> !ev.Acquire?
    ensures Run(setup, w, evs).granted == w.granted && Run(setup, w, evs).coord.pending == w.coord.pending
    decreases |evs|
  {
    if evs != [] {
      QueueWaitsForFreshAcquire(setup, Do(setup, w, evs[0]), evs[1..]);
    }
  }

  /** A notification sent to a cancelled waiter is lost: the rest of the queue waits for a fresh acquire. */
  lemma CancelledWaiterSwallowsWakeUp<I, E>(setup: Setup<I, E>, w: World<I, E>, op: OpId, evs: seq<Event<E>>)
    requires QueueInv(setup, w) && Exclusive(w) && op in w.guards && op !in w.writers
    requires w.coord.pending != [] && w.coord.pending[0] in w.cancelled
    requires forall ev :: ev in evs ==> !ev.Acquire?
    ensures var r := Run(setup, Do(setup, w, DropGuard(op)), evs);
            r.granted == w.granted && r.coord.pending == w.coord.pending[1..]
  {
    var r := Do(setup, w, DropGuard(op));
    assert Idle(r) by {
      assert forall a :: a in w.guards ==> a == op;
      assert forall a :: a in w.notified ==> a == op;
    }
    QueueWaitsForFreshAcquire(setup, r, evs);
  }

  /** Without fresh acquires, some continuation grants a guard. */
  ghost predicate GoesOnUnaided<I(!new), E(!new)>(setup: Setup<I, E>, w: World<I, E>) {
    exists evs: seq<Event<E>> :: (forall ev :: ev in evs ==> !ev.Acquire?) && Run(setup, w, evs).granted != w.granted
  }

  /** A dropped guard lets the queue go on by itself if and only if the waiter at its head has not been cancelled. */
  lemma DropWakesExactly<I(!new), E(!new)>(setup: Setup<I, E>, w: World<I, E>, op: OpId)
    requires QueueInv(setup, w) && Exclusive(w) && op in w.guards && op !in w.writers && w.coord.pending != []
    ensures GoesOnUnaided(setup, Do(setup, w, DropGuard(op))) <==> w.coord.pending[0] !in w.cancelled
  {
    var r, head := Do(setup, w, DropGuard(op)), w.coord.pending[0];
    if head in w.cancelled {
      forall evs: seq<Event<E>> | forall ev :: ev in evs ==> !ev.Acquire?
        ensures Run(setup, r, evs).granted == r.granted
      {
        CancelledWaiterSwallowsWakeUp(setup, w, op, evs);
      }
    } else {
      var evs: seq<Event<E>> := [Wake(head)];
      assert evs[1..] == [];
      assert Run(setup, r, evs) == Do(setup, r, Wake(head));
      assert |Run(setup, r, evs).granted| == |r.granted| + 1;
    }
  }
}
