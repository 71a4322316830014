/** When queued writes are stored in the order in which they were queued. */
module BatchedWriteOrder {
  import opened Outcomes
  import opened BatchedWrites
  import opened BatchedWriteRuns

  // What has been stored from the queue, batch by batch

  /** The batches some of which has been stored. */
  function Begun(lock: Option<Holding>, locked: seq<seq<Write>>): seq<seq<Write>> {
    if lock.Some? && lock.value.proc.Some? && lock.value.next == 0 && lock.value.stored.None? && locked != []
    then locked[..|locked| - 1]
    else locked
  }

  /** The batches that got the lock are stored one after another, the last one as far as its holder has come. */
  ghost predicate DrainedBy(lock: Option<Holding>, locked: seq<seq<Write>>, drained: seq<Write>) {
    if lock.Some? && lock.value.proc.Some? then
      var n := lock.value.next + (if lock.value.stored.Some? then 1 else 0);
      && locked != [] && locked[|locked| - 1] == lock.value.batch && n <= |lock.value.batch|
      && drained == Flat(locked[..|locked| - 1]) + lock.value.batch[..n]
    else drained == Flat(locked)
  }

  ghost predicate QueueHistory<S>(w: World<S>) {
    && DistinctIds(w.enqueued) && (forall write :: write in w.enqueued ==> write.id in w.ids)
    && (forall batch :: batch in w.locked ==> batch in w.popped)
    && DrainedBy(w.lock, w.locked, w.drained)
  }

  lemma DrainedApply(h: Holding, locked: seq<seq<Write>>, drained: seq<Write>, result: Result<()>)
    requires DrainedBy(Some(h), locked, drained) && h.stored.None? && h.next < |h.batch|
    ensures DrainedBy(Some(h.(stored := Some(result))), locked,
                      if h.proc.Some? then drained + [h.batch[h.next]] else drained)
  {
    var (before, write) := (h.batch[..h.next], h.batch[h.next]);
    assert h.batch[..h.next + 1] == before + [write];
    assert h.proc.Some? ==>
        Flat(locked[..|locked| - 1]) + (before + [write]) == (Flat(locked[..|locked| - 1]) + before) + [write];
  }

  lemma DrainedUnlock(h: Holding, locked: seq<seq<Write>>, drained: seq<Write>)
    requires DrainedBy(Some(h), locked, drained) && h.stored.None? && h.next == |h.batch|
    ensures DrainedBy(None, locked, drained)
  {
    assert h.batch[..|h.batch|] == h.batch;
  }

  lemma DrainedLock(locked: seq<seq<Write>>, drained: seq<Write>, proc: ProcId, batch: seq<Write>)
    requires DrainedBy(None, locked, drained)
    ensures DrainedBy(Some(Holding(Some(proc), batch, 0, None)), locked + [batch], drained)
  {
    assert (locked + [batch])[..|locked|] == locked && batch[..0] == [];
    assert Flat(locked) + [] == Flat(locked);
  }

  lemma DrainedStep<S>(backend: Backend<S>, config: Config, w: World<S>, ev: Event)
    requires Enabled(config, w, ev) && DrainedBy(w.lock, w.locked, w.drained)
    ensures var r := Step(backend, config, w, ev); DrainedBy(r.lock, r.locked, r.drained)
  {
    match ev
    case Apply =>
      DrainedApply(w.lock.value, w.locked, w.drained, Step(backend, config, w, ev).lock.value.stored.value);
    case Unlock => DrainedUnlock(w.lock.value, w.locked, w.drained);
    case Lock(proc) => DrainedLock(w.locked, w.drained, proc, w.waiting[proc]);
    case _ =>
  }

  lemma HistoryStep<S>(backend: Backend<S>, config: Config, w: World<S>, ev: Event)
    requires QueueHistory(w) && Ordered(backend, config, w)
    ensures QueueHistory(Do(backend, config, w, ev))
  {
    if Enabled(config, w, ev) {
      DrainedStep(backend, config, w, ev);
      if ev.Lock? {
        assert w.waiting[ev.proc] in w.popped;
      }
    }
  }

  // Positions in the queue

  /** Batches none of which is empty. */
  predicate NoneEmpty(batches: seq<seq<Write>>) {
    forall i :: 0 <= i < |batches| ==> batches[i] != []
  }

  lemma {:induction false} FlatSplit(batches: seq<seq<Write>>, k: nat)
    requires k < |batches|
    ensures Flat(batches[..k]) + batches[k] <= Flat(batches)
    decreases |batches|
  {
    var n := |batches| - 1;
    if k < n {
      FlatSplit(batches[..n], k);
      assert batches[..n][..k] == batches[..k];
    } else {
      assert batches[..k] + [batches[k]] == batches;
    }
  }

  /** Where batch `k` starts. */
  lemma BatchStart(batches: seq<seq<Write>>, k: nat)
    requires k < |batches| && batches[k] != []
    ensures var p := |Flat(batches[..k])|; p < |Flat(batches)| && Flat(batches)[p] == batches[k][0]
  {
    FlatSplit(batches, k);
    assert (Flat(batches[..k]) + batches[k])[|Flat(batches[..k])|] == batches[k][0];
  }

  /** Different batches of the queue start at different places. */
  lemma StartsDiffer(batches: seq<seq<Write>>, i: nat, j: nat)
    requires NoneEmpty(batches) && i < j <= |batches|
    ensures |Flat(batches[..i])| < |Flat(batches[..j])|
  {
    BatchStart(batches[..j], i);
    assert batches[..j][..i] == batches[..i];
  }

  /** The batch that starts where `k` batches end is batch `k`. */
  lemma StartsAt(popped: seq<seq<Write>>, queue: seq<Write>, k: nat, batch: seq<Write>)
    requires NoneEmpty(popped) && k <= |popped| && batch in popped && DistinctIds(Flat(popped) + queue)
    requires var p := |Flat(popped[..k])|; p < |Flat(popped) + queue| && (Flat(popped) + queue)[p] == batch[0]
    ensures k < |popped| && popped[k] == batch
  {
    var all, p := Flat(popped) + queue, |Flat(popped[..k])|;
    var j :| 0 <= j < |popped| && popped[j] == batch;
    BatchStart(popped, j);
    var q := |Flat(popped[..j])|;
    assert all[q] == batch[0];
    assert p == q;
    if j < k {
      StartsDiffer(popped, j, k);
    } else if k < j {
      StartsDiffer(popped, k, j);
    }
  }

  // Storing in queue order is locking in queue order

  /** The writes include the first one of batch `k`, at its place. */
  ghost predicate Includes(drained: seq<Write>, begun: seq<seq<Write>>, k: nat)
    requires k < |begun|
  {
    var p := |Flat(begun[..k])|;
    p < |drained| && begun[k] != [] && drained[p] == begun[k][0]
  }

  ghost predicate Reaches(drained: seq<Write>, begun: seq<seq<Write>>) {
    drained <= Flat(begun) && forall k :: 0 <= k < |begun| ==> Includes(drained, begun, k)
  }

  lemma FlatReaches(batches: seq<seq<Write>>)
    requires NoneEmpty(batches)
    ensures Reaches(Flat(batches), batches)
  {
    forall k | 0 <= k < |batches|
      ensures Includes(Flat(batches), batches, k)
    {
      BatchStart(batches, k);
    }
  }

  lemma PartReaches(front: seq<seq<Write>>, batch: seq<Write>, n: nat)
    requires NoneEmpty(front) && 0 < n <= |batch|
    ensures Reaches(Flat(front) + batch[..n], front + [batch])
  {
    FlatReaches(front);
    FlatMore(front, batch);
    var drained, begun := Flat(front) + batch[..n], front + [batch];
    forall k | 0 <= k < |begun|
      ensures Includes(drained, begun, k)
    {
      if k < |front| {
        assert Includes(Flat(front), front, k);
        assert begun[..k] == front[..k];
      } else {
        assert begun[..k] == front;
      }
    }
  }

  /** What has been stored from the queue goes into every batch that has been begun, and no further. */
  lemma DrainedReaches(lock: Option<Holding>, locked: seq<seq<Write>>, drained: seq<Write>)
    requires DrainedBy(lock, locked, drained) && NoneEmpty(locked)
    ensures Reaches(drained, Begun(lock, locked))
  {
    if lock.Some? && lock.value.proc.Some? {
      var front, n := locked[..|locked| - 1], lock.value.next + (if lock.value.stored.Some? then 1 else 0);
      if n > 0 {
        PartReaches(front, lock.value.batch, n);
        assert front + [lock.value.batch] == locked;
      } else {
        FlatReaches(front);
        assert drained == Flat(front);
      }
    } else {
      FlatReaches(locked);
    }
  }

  lemma {:induction false} BegunInOrder(popped: seq<seq<Write>>, queue: seq<Write>, drained: seq<Write>,
                                        begun: seq<seq<Write>>, k: nat)
    requires NoneEmpty(popped) && DistinctIds(Flat(popped) + queue) && Reaches(drained, begun) && k <= |begun|
    requires drained <= Flat(popped) + queue && forall batch :: batch in begun ==> batch in popped
    ensures begun[..k] <= popped
  {
    if k > 0 {
      BegunInOrder(popped, queue, drained, begun, k - 1);
      var front, batch := begun[..k - 1], begun[k - 1];
      assert front == popped[..k - 1] && Includes(drained, begun, k - 1);
      assert (Flat(popped) + queue)[|Flat(front)|] == drained[|Flat(front)|];
      StartsAt(popped, queue, k - 1, batch);
      assert begun[..k] == front + [batch];
    }
  }

  lemma StoredInOrderExactly(popped: seq<seq<Write>>, queue: seq<Write>, drained: seq<Write>, begun: seq<seq<Write>>)
    requires NoneEmpty(popped) && DistinctIds(Flat(popped) + queue) && Reaches(drained, begun)
    requires forall batch :: batch in begun ==> batch in popped
    ensures drained <= Flat(popped) + queue <==> begun <= popped
  {
    if drained <= Flat(popped) + queue {
      BegunInOrder(popped, queue, drained, begun, |begun|);
      assert begun[..|begun|] == begun;
    }
    if begun <= popped {
      assert begun == popped[..|begun|];
      if |begun| < |popped| {
        FlatSplit(popped, |begun|);
      } else {
        assert popped[..|begun|] == popped;
      }
    }
  }

  // Which lock acquisitions that takes

  /** The processor that gets the lock has the oldest batch that has not had it yet. */
  ghost predicate TakesOldest<S>(config: Config, w: World<S>, ev: Event) {
    ev.Lock? && Enabled(config, w, ev) ==>
      |w.locked| < |w.popped| && w.waiting[ev.proc] == w.popped[|w.locked|]
  }

  ghost predicate OldestFirstRun<S>(backend: Backend<S>, config: Config, w: World<S>, evs: seq<Event>)
    decreases |evs|
  {
    evs != [] ==>
      TakesOldest(config, w, evs[0]) && OldestFirstRun(backend, config, Do(backend, config, w, evs[0]), evs[1..])
  }

  lemma NoneEmptyWhenOrdered<S>(backend: Backend<S>, config: Config, w: World<S>)
    requires Ordered(backend, config, w)
    ensures NoneEmpty(w.popped)
  {
    forall i | 0 <= i < |w.popped|
      ensures w.popped[i] != []
    {
      assert w.popped[i] in w.popped;
    }
  }

  /** No two batches of the queue are equal. */
  lemma BatchesDiffer(popped: seq<seq<Write>>, queue: seq<Write>, i: nat, j: nat)
    requires NoneEmpty(popped) && DistinctIds(Flat(popped) + queue) && i < j < |popped|
    ensures popped[i] != popped[j]
  {
    BatchStart(popped, i);
    BatchStart(popped, j);
    StartsDiffer(popped, i, j);
    var all, p, q := Flat(popped) + queue, |Flat(popped[..i])|, |Flat(popped[..j])|;
    assert all[p] == popped[i][0] && all[q] == popped[j][0];
  }

  /** A batch just taken from the queue has not been locked. */
  lemma LockOrderPop(locked: seq<seq<Write>>, popped: seq<seq<Write>>, batch: seq<Write>, queue: seq<Write>)
    requires NoneEmpty(popped + [batch]) && DistinctIds(Flat(popped + [batch]) + queue)
    requires forall b :: b in locked ==> b in popped
    ensures locked <= popped + [batch] <==> locked <= popped
  {
    var more, n := popped + [batch], |popped|;
    if locked <= more && |locked| == |more| {
      assert locked[n] == more[n] && locked[n] in popped;
      var i :| 0 <= i < n && popped[i] == batch;
      assert more[i] == more[n];
      BatchesDiffer(more, queue, i, n);
      assert false;
    }
  }

  lemma LockOrderLock(locked: seq<seq<Write>>, popped: seq<seq<Write>>, batch: seq<Write>)
    ensures locked + [batch] <= popped
       <==> locked <= popped && |locked| < |popped| && batch == popped[|locked|]
  {
    if locked + [batch] <= popped {
      assert popped[..|locked| + 1] == locked + [batch];
      assert popped[|locked|] == (locked + [batch])[|locked|];
    }
  }

  /** A step keeps the locked batches in queue order exactly if a lock acquisition in it takes the oldest one. */
  lemma LockOrderStep<S>(backend: Backend<S>, config: Config, w: World<S>, ev: Event)
    requires QueueHistory(w) && Ordered(backend, config, w)
    requires QueueHistory(Do(backend, config, w, ev)) && Ordered(backend, config, Do(backend, config, w, ev))
    ensures var r := Do(backend, config, w, ev);
            r.locked <= r.popped <==> w.locked <= w.popped && TakesOldest(config, w, ev)
  {
    if Enabled(config, w, ev) {
      match ev
      case Pop(_) =>
        var r := Step(backend, config, w, ev);
        NoneEmptyWhenOrdered(backend, config, r);
        LockOrderPop(w.locked, w.popped, w.queue[..BatchSize(config, w.queue)], r.queue);
      case Lock(proc) => LockOrderLock(w.locked, w.popped, w.waiting[proc]);
      case _ =>
    }
  }

  lemma {:induction false} LockOrderRun<S>(backend: Backend<S>, config: Config, w: World<S>, evs: seq<Event>)
    requires QueueHistory(w) && Ordered(backend, config, w)
    ensures var r := Run(backend, config, w, evs);
            && QueueHistory(r) && Ordered(backend, config, r)
            && (r.locked <= r.popped <==> w.locked <= w.popped && OldestFirstRun(backend, config, w, evs))
    decreases |evs|
  {
    if evs != [] {
      HistoryStep(backend, config, w, evs[0]);
      OrderedStep(backend, config, w, evs[0]);
      LockOrderStep(backend, config, w, evs[0]);
      LockOrderRun(backend, config, Do(backend, config, w, evs[0]), evs[1..]);
    }
  }

  /**
   * What has been stored from the queue is a prefix of what was queued if and only if the batches begun so far are
   * the oldest ones in order. If the lock holder has stored something, this is so if and only if every processor
   * that got the lock had the oldest batch not yet held.
   */
  lemma QueueOrderExactly<S>(backend: Backend<S>, config: Config, base: S, evs: seq<Event>)
    ensures var w := Run(backend, config, Start(base), evs);
            && (w.drained <= w.enqueued <==> Begun(w.lock, w.locked) <= w.popped)
            && (w.locked <= w.popped <==> OldestFirstRun(backend, config, Start(base), evs))
            && (Begun(w.lock, w.locked) == w.locked ==>
                  (w.drained <= w.enqueued <==> OldestFirstRun(backend, config, Start(base), evs)))
  {
    LockOrderRun(backend, config, Start(base), evs);
    var w := Run(backend, config, Start(base), evs);
    NoneEmptyWhenOrdered(backend, config, w);
    assert NoneEmpty(w.locked) by {
      assert forall i :: 0 <= i < |w.locked| ==> w.locked[i] in w.locked;
    }
    DrainedReaches(w.lock, w.locked, w.drained);
    StoredInOrderExactly(w.popped, w.queue, w.drained, Begun(w.lock, w.locked));
  }

  // One processor keeps the order, two can break it

  /** No batch is taken from the queue while another one is in flight. */
  predicate OneBatchAtATime<S>(w: World<S>, ev: Event) {
    ev.Pop? ==> w.waiting == map[] && (w.lock.None? || w.lock.value.proc.None?)
  }

  ghost predicate SoleProcessorRun<S>(backend: Backend<S>, config: Config, w: World<S>, evs: seq<Event>)
    decreases |evs|
  {
    evs != [] ==>
      OneBatchAtATime(w, evs[0]) && SoleProcessorRun(backend, config, Do(backend, config, w, evs[0]), evs[1..])
  }

  ghost predicate OneInFlight<S>(w: World<S>) {
    if w.waiting == map[] then w.locked == w.popped
    else
      && (w.lock.None? || w.lock.value.proc.None?)
      && |w.popped| == |w.locked| + 1 && w.locked == w.popped[..|w.locked|]
      && (forall p :: p in w.waiting ==> w.waiting[p] == w.popped[|w.locked|])
      && (forall p, q :: p in w.waiting && q in w.waiting ==> p == q)
  }

  lemma OneInFlightStep<S>(backend: Backend<S>, config: Config, w: World<S>, ev: Event)
    requires OneInFlight(w) && OneBatchAtATime(w, ev)
    ensures OneInFlight(Do(backend, config, w, ev))
  {
    if ev.Lock? && Enabled(config, w, ev) {
      assert w.waiting - {ev.proc} == map[];
      assert w.popped == w.popped[..|w.locked|] + [w.popped[|w.locked|]];
    }
  }

  lemma {:induction false} OneInFlightRun<S>(backend: Backend<S>, config: Config, w: World<S>, evs: seq<Event>)
    requires OneInFlight(w) && SoleProcessorRun(backend, config, w, evs)
    ensures OneInFlight(Run(backend, config, w, evs))
    decreases |evs|
  {
    if evs != [] {
      OneInFlightStep(backend, config, w, evs[0]);
      OneInFlightRun(backend, config, Do(backend, config, w, evs[0]), evs[1..]);
    }
  }

  /** With one batch in flight at a time, queued writes are stored in the order in which they were queued. */
  lemma SoleProcessorKeepsOrder<S>(backend: Backend<S>, config: Config, base: S, evs: seq<Event>)
    requires SoleProcessorRun(backend, config, Start(base), evs)
    ensures var w := Run(backend, config, Start(base), evs); w.drained <= w.enqueued
  {
    OneInFlightRun(backend, config, Start(base), evs);
    QueueOrderExactly(backend, config, base, evs);
  }

  lemma RunSix<S>(backend: Backend<S>, config: Config, w: World<S>, a: Event, b: Event, c: Event, d: Event, e: Event,
                  f: Event)
    ensures var w1 := Do(backend, config, w, a);
            var w2 := Do(backend, config, w1, b);
            var w3 := Do(backend, config, w2, c);
            var w4 := Do(backend, config, w3, d);
            var w5 := Do(backend, config, w4, e);
            Run(backend, config, w, [a, b, c, d, e, f]) == Do(backend, config, w5, f)
  {
    RunThree(backend, config, w, [a, b, c, d, e, f]);
    RunThree(backend, config, Do(backend, config, Do(backend, config, Do(backend, config, w, a), b), c), [d, e, f]);
    assert [a, b, c, d, e, f][3..] == [d, e, f] && [d, e, f][3..] == [];
  }

  lemma RunThree<S>(backend: Backend<S>, config: Config, w: World<S>, evs: seq<Event>)
    requires |evs| >= 3
    ensures Run(backend, config, w, evs)
         == Run(backend, config,
                Do(backend, config, Do(backend, config, Do(backend, config, w, evs[0]), evs[1]), evs[2]), evs[3..])
  {
    var w1 := Do(backend, config, w, evs[0]);
    var w2 := Do(backend, config, w1, evs[1]);
    assert evs[1..][1..] == evs[2..] && evs[2..][1..] == evs[3..];
    assert Run(backend, config, w2, evs[2..]) == Run(backend, config, Do(backend, config, w2, evs[2]), evs[3..]);
    assert Run(backend, config, w1, evs[1..]) == Run(backend, config, w2, evs[2..]);
  }

  /** With batches of any size, two processors can store a later write first, so that the earlier text stays. */
  lemma ProcessorsCanReorder<S>(backend: Backend<S>, config: Config, base: S, a: Write, b: Write)
    requires a.id != b.id && config.maxBatchSize >= 1
    ensures var w := Run(backend, config, Start(base), [Enqueue(a), Pop(1), Enqueue(b), Pop(2), Lock(2), Apply]);
            w.enqueued == [a, b] && w.drained == [b] && w.waiting == map[1 := [a]]
  {
    var start := Start(base);
    var w1 := Do(backend, config, start, Enqueue(a));
    var w2 := Do(backend, config, w1, Pop(1));
    assert w2 == start.(enqueued := [a], ids := {a.id}, waiting := map[1 := [a]], popped := [[a]]) by {
      PopOne(backend, config, w1, 1, a);
    }
    var w3 := Do(backend, config, w2, Enqueue(b));
    var w4 := Do(backend, config, w3, Pop(2));
    assert w4 == start.(enqueued := [a, b], ids := {a.id, b.id}, waiting := map[1 := [a], 2 := [b]],
                        popped := [[a], [b]]) by {
      PopOne(backend, config, w3, 2, b);
    }
    LockAndApply(backend, config, w4, 1, [a], 2, b);
    RunSix(backend, config, start, Enqueue(a), Pop(1), Enqueue(b), Pop(2), Lock(2), Apply);
  }

  lemma PopOne<S>(backend: Backend<S>, config: Config, w: World<S>, proc: ProcId, a: Write)
    requires w.queue == [a] && config.maxBatchSize >= 1 && !Busy(w, proc)
    ensures Do(backend, config, w, Pop(proc))
         == w.(queue := [], waiting := w.waiting[proc := [a]], popped := w.popped + [[a]])
  {
    assert [a][..1] == [a] && [a][1..] == [];
  }

  lemma LockAndApply<S>(backend: Backend<S>, config: Config, w: World<S>, other: ProcId, batch: seq<Write>,
                        proc: ProcId, b: Write)
    requires w.waiting == map[other := batch, proc := [b]] && other != proc && w.lock.None? && w.drained == []
    ensures var r := Do(backend, config, Do(backend, config, w, Lock(proc)), Apply);
            r.enqueued == w.enqueued && r.drained == [b] && r.waiting == map[other := batch]
  {
    assert w.waiting - {proc} == map[other := batch];
  }
}
