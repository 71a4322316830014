/** Runs of the concurrent storage: several batch processors, immediate writers and readers, one lock step at a time. */
module BatchedWriteRuns {
  import opened Outcomes
  import opened TextFormat
  import opened Utf8
  import opened BatchedWrites
  import Log = TextLog
  import TextLogRuns
  import TextExtraction

  type ProcId = nat

  /** Who holds the write lock of the storage: a batch processor, or an immediate write (`proc` is `None`). */
  datatype Holding = Holding(proc: Option<ProcId>, batch: seq<Write>, next: nat, stored: Option<Result<()>>)

  datatype World<S> = World(
    base: S,                           // the storage that was wrapped
    store: S,
    cache: Cache,
    queue: seq<Write>,
    waiting: map<ProcId, seq<Write>>,  // batches taken from the queue, not yet holding the lock
    lock: Option<Holding>,
    // history
    ids: set<nat>,
    enqueued: seq<Write>,
    urgent: seq<Write>,                // immediate writes
    popped: seq<seq<Write>>,
    locked: seq<seq<Write>>,           // batches whose processor got the lock
    held: seq<seq<Write>>,             // what finished lock holders stored
    applied: seq<Write>,
    drained: seq<Write>,               // those of them that came from the queue
    completed: seq<Completion>)

  datatype Event =
    | Enqueue(write: Write)
    | Pop(proc: ProcId)
    | Lock(proc: ProcId)
    | StoreNow(write: Write)
    | Apply
    | Settle(now: nat, cache: Cache)   // updates the cache and sends the result
    | Unlock
    | Touch(doc: DocumentId, now: nat)
    | ClearCache

  function Start<S>(base: S): World<S> {
    World(base, base, map[], [], map[], None, {}, [], [], [], [], [], [], [], [])
  }

  predicate Busy<S>(w: World<S>, proc: ProcId) {
    proc in w.waiting || (w.lock.Some? && w.lock.value.proc == Some(proc))
  }

  ghost predicate Enabled<S>(config: Config, w: World<S>, ev: Event) {
    match ev
    case Enqueue(write) => write.id !in w.ids
    case Pop(proc) => !Busy(w, proc) && w.queue != [] && config.maxBatchSize > 0
    case Lock(proc) => w.lock.None? && proc in w.waiting
    case StoreNow(write) => w.lock.None? && write.id !in w.ids
    case Apply => w.lock.Some? && w.lock.value.stored.None? && w.lock.value.next < |w.lock.value.batch|
    case Settle(now, cache) =>
      && w.lock.Some? && w.lock.value.stored.Some? && w.lock.value.next < |w.lock.value.batch|
      && CacheUpdated(config, w.lock.value, w.cache, now, cache)
    case Unlock => w.lock.Some? && w.lock.value.stored.None? && w.lock.value.next == |w.lock.value.batch|
    case Touch(doc, _) => doc in w.cache
    case ClearCache => true
  }

  /** An immediate write does not clean up the cache. */
  ghost predicate CacheUpdated(config: Config, h: Holding, before: Cache, now: nat, after: Cache)
    requires h.stored.Some? && h.next < |h.batch|
  {
    var w := h.batch[h.next];
    if h.proc.Some? then CacheStep(config, before, w, h.stored.value, now, after)
    else after == if h.stored.value.Ok? then before[w.doc := Metadata(|w.text|, now)] else before
  }

  function BatchSize(config: Config, queue: seq<Write>): nat {
    if |queue| < config.maxBatchSize then |queue| else config.maxBatchSize
  }

  ghost function Step<S>(backend: Backend<S>, config: Config, w: World<S>, ev: Event): World<S>
    requires Enabled(config, w, ev)
  {
    match ev
    case Enqueue(write) => w.(queue := w.queue + [write], enqueued := w.enqueued + [write], ids := w.ids + {write.id})
    case Pop(proc) =>
      var n := BatchSize(config, w.queue);
      w.(queue := w.queue[n..], waiting := w.waiting[proc := w.queue[..n]], popped := w.popped + [w.queue[..n]])
    case Lock(proc) =>
      w.(waiting := w.waiting - {proc}, lock := Some(Holding(Some(proc), w.waiting[proc], 0, None)),
         locked := w.locked + [w.waiting[proc]])
    case StoreNow(write) =>
      w.(lock := Some(Holding(None, [write], 0, None)), ids := w.ids + {write.id}, urgent := w.urgent + [write])
    case Apply =>
      var h := w.lock.value;
      var write := h.batch[h.next];
      var (store, result) := backend.store(w.store, write.doc, write.text);
      w.(store := store, applied := w.applied + [write], lock := Some(h.(stored := Some(result))),
         drained := if h.proc.Some? then w.drained + [write] else w.drained)
    case Settle(_, cache) =>
      var h := w.lock.value;
      w.(cache := cache, lock := Some(h.(next := h.next + 1, stored := None)),
         completed := w.completed + [Completion(h.batch[h.next].id, h.stored.value)])
    case Unlock => w.(lock := None, held := w.held + [w.lock.value.batch])
    case Touch(doc, now) => w.(cache := w.cache[doc := w.cache[doc].(lastAccess := now)])
    case ClearCache => w.(cache := map[])
  }

  /** A step of a run: events that cannot happen in a state are skipped. */
  ghost function Do<S>(backend: Backend<S>, config: Config, w: World<S>, ev: Event): World<S> {
    if Enabled(config, w, ev) then Step(backend, config, w, ev) else w
  }

  ghost function Run<S>(backend: Backend<S>, config: Config, w: World<S>, evs: seq<Event>): World<S>
    decreases |evs|
  {
    if evs == [] then w else Run(backend, config, Do(backend, config, w, evs[0]), evs[1..])
  }

  function Flat(batches: seq<seq<Write>>): seq<Write> {
    if batches == [] then [] else Flat(batches[..|batches| - 1]) + batches[|batches| - 1]
  }

  lemma FlatMore(batches: seq<seq<Write>>, batch: seq<Write>)
    ensures Flat(batches + [batch]) == Flat(batches) + batch
  {
    assert (batches + [batch])[..|batches|] == batches;
  }

  // The queue and the order in which the storage is written

  /** What the current lock holder has stored so far. */
  function Current(lock: Option<Holding>): seq<Write> {
    match lock
    case None => []
    case Some(h) =>
      var n := h.next + (if h.stored.Some? then 1 else 0);
      if n <= |h.batch| then h.batch[..n] else []
  }

  /** The writes whose results have been sent and whose lengths have reached the cache. */
  function Settled(lock: Option<Holding>, applied: seq<Write>): seq<Write> {
    if lock.Some? && lock.value.stored.Some? && applied != [] then applied[..|applied| - 1] else applied
  }

  predicate IsBatch(config: Config, batch: seq<Write>) {
    0 < |batch| <= config.maxBatchSize
  }

  ghost predicate Ordered<S>(backend: Backend<S>, config: Config, w: World<S>) {
    && w.enqueued == Flat(w.popped) + w.queue
    && (forall batch :: batch in w.popped ==> IsBatch(config, batch))
    && (forall p :: p in w.waiting ==> w.waiting[p] in w.popped)
    && (forall batch :: batch in w.held ==> batch in w.popped || IsUrgent(w.urgent, batch))
    && (w.lock.Some? ==>
          && w.lock.value.next + (if w.lock.value.stored.Some? then 1 else 0) <= |w.lock.value.batch|
          && (if w.lock.value.proc.Some? then w.lock.value.batch in w.popped
              else IsUrgent(w.urgent, w.lock.value.batch)))
  }

  /** One immediate write. */
  predicate IsUrgent(urgent: seq<Write>, batch: seq<Write>) {
    |batch| == 1 && batch[0] in urgent
  }

  ghost predicate Serial<S>(backend: Backend<S>, w: World<S>) {
    && SerialHistory(w.lock, w.held, w.applied)
    && SerialEffect(backend, w.base, w.store, w.lock, w.applied, w.completed)
  }

  predicate SerialHistory(lock: Option<Holding>, held: seq<seq<Write>>, applied: seq<Write>) {
    && (lock.Some? ==> lock.value.next + (if lock.value.stored.Some? then 1 else 0) <= |lock.value.batch|)
    && applied == Flat(held) + Current(lock)
  }

  predicate SerialEffect<S(==)>(backend: Backend<S>, base: S, store: S, lock: Option<Holding>, applied: seq<Write>,
                                completed: seq<Completion>)
  {
    && store == StoreAll(backend, base, applied)
    && completed == Completions(backend, base, Settled(lock, applied))
    && (lock.Some? && lock.value.stored.Some? && lock.value.next < |lock.value.batch| ==>
          var write := lock.value.batch[lock.value.next];
          && applied != [] && applied[|applied| - 1] == write
          && backend.store(StoreAll(backend, base, Settled(lock, applied)), write.doc, write.text).1
             == lock.value.stored.value)
  }

  lemma TakenInOrder(popped: seq<seq<Write>>, queue: seq<Write>, n: nat)
    requires n <= |queue|
    ensures Flat(popped + [queue[..n]]) + queue[n..] == Flat(popped) + queue
  {
    var batch, rest := queue[..n], queue[n..];
    assert queue == batch + rest;
    FlatMore(popped, batch);
    assert (Flat(popped) + batch) + rest == Flat(popped) + (batch + rest);
  }

  lemma BatchIsNext(config: Config, popped: seq<seq<Write>>, batch: seq<Write>)
    requires (forall b :: b in popped ==> IsBatch(config, b)) && IsBatch(config, batch)
    ensures forall b :: b in popped + [batch] ==> IsBatch(config, b)
    ensures forall b :: b in popped ==> b in popped + [batch]
    ensures batch in popped + [batch]
  {
    assert (popped + [batch])[|popped|] == batch;
  }

  lemma OrderedPop<S>(backend: Backend<S>, config: Config, w: World<S>, ev: Event)
    requires Ordered(backend, config, w) && Enabled(config, w, ev) && ev.Pop?
    ensures Ordered(backend, config, Step(backend, config, w, ev))
  {
    TakenInOrder(w.popped, w.queue, BatchSize(config, w.queue));
    BatchIsNext(config, w.popped, w.queue[..BatchSize(config, w.queue)]);
  }

  lemma OrderedLock<S>(backend: Backend<S>, config: Config, w: World<S>, ev: Event)
    requires Ordered(backend, config, w) && Enabled(config, w, ev) && (ev.Lock? || ev.Unlock? || ev.StoreNow?)
    ensures Ordered(backend, config, Step(backend, config, w, ev))
  {
  }

  lemma OrderedStep<S>(backend: Backend<S>, config: Config, w: World<S>, ev: Event)
    requires Ordered(backend, config, w)
    ensures Ordered(backend, config, Do(backend, config, w, ev))
  {
    if Enabled(config, w, ev) {
      match ev
      case Pop(_) => OrderedPop(backend, config, w, ev);
      case Lock(_) => OrderedLock(backend, config, w, ev);
      case Unlock => OrderedLock(backend, config, w, ev);
      case StoreNow(_) => OrderedLock(backend, config, w, ev);
      case _ =>
    }
  }

  lemma HistoryApply(lock: Option<Holding>, held: seq<seq<Write>>, applied: seq<Write>, result: Result<()>)
    requires SerialHistory(lock, held, applied)
    requires lock.Some? && lock.value.stored.None? && lock.value.next < |lock.value.batch|
    ensures SerialHistory(Some(lock.value.(stored := Some(result))), held,
                          applied + [lock.value.batch[lock.value.next]])
  {
    var h := lock.value;
    var (before, write) := (h.batch[..h.next], h.batch[h.next]);
    assert h.batch[..h.next + 1] == before + [write];
    assert Flat(held) + (before + [write]) == (Flat(held) + before) + [write];
  }

  lemma HistoryUnlock(lock: Option<Holding>, held: seq<seq<Write>>, applied: seq<Write>)
    requires SerialHistory(lock, held, applied)
    requires lock.Some? && lock.value.stored.None? && lock.value.next == |lock.value.batch|
    ensures SerialHistory(None, held + [lock.value.batch], applied)
  {
    var batch := lock.value.batch;
    assert batch[..|batch|] == batch;
    FlatMore(held, batch);
    assert (Flat(held) + batch) + [] == Flat(held) + batch;
  }

  lemma HistoryLock(held: seq<seq<Write>>, applied: seq<Write>, h: Holding)
    requires SerialHistory(None, held, applied) && h.next == 0 && h.stored.None?
    ensures SerialHistory(Some(h), held, applied)
  {
    assert h.batch[..0] == [];
  }

  lemma SerialHistoryStep<S>(backend: Backend<S>, config: Config, w: World<S>, ev: Event)
    requires Enabled(config, w, ev) && SerialHistory(w.lock, w.held, w.applied)
    ensures var r := Step(backend, config, w, ev); SerialHistory(r.lock, r.held, r.applied)
  {
    match ev
    case Apply =>
      HistoryApply(w.lock, w.held, w.applied, Step(backend, config, w, ev).lock.value.stored.value);
    case Unlock =>
      HistoryUnlock(w.lock, w.held, w.applied);
    case Lock(proc) =>
      HistoryLock(w.held, w.applied, Holding(Some(proc), w.waiting[proc], 0, None));
    case StoreNow(write) =>
      HistoryLock(w.held, w.applied, Holding(None, [write], 0, None));
    case _ =>
  }

  lemma EffectApply<S>(backend: Backend<S>, base: S, store: S, h: Holding, applied: seq<Write>, write: Write,
                       completed: seq<Completion>)
    requires SerialEffect(backend, base, store, Some(h), applied, completed) && h.stored.None?
    requires h.next < |h.batch| && write == h.batch[h.next]
    ensures var (t, result) := backend.store(store, write.doc, write.text);
            SerialEffect(backend, base, t, Some(h.(stored := Some(result))), applied + [write], completed)
  {
    assert (applied + [write])[..|applied|] == applied;
  }

  lemma EffectSettle<S>(backend: Backend<S>, base: S, store: S, h: Holding, applied: seq<Write>,
                        completed: seq<Completion>)
    requires SerialEffect(backend, base, store, Some(h), applied, completed) && h.stored.Some? && h.next < |h.batch|
    ensures SerialEffect(backend, base, store, Some(h.(next := h.next + 1, stored := None)), applied,
                         completed + [Completion(h.batch[h.next].id, h.stored.value)])
  {
  }

  lemma SerialEffectStep<S>(backend: Backend<S>, config: Config, w: World<S>, ev: Event)
    requires Enabled(config, w, ev) && SerialEffect(backend, w.base, w.store, w.lock, w.applied, w.completed)
    ensures var r := Step(backend, config, w, ev);
            SerialEffect(backend, r.base, r.store, r.lock, r.applied, r.completed)
  {
    match ev
    case Apply =>
      var h := w.lock.value;
      EffectApply(backend, w.base, w.store, h, w.applied, h.batch[h.next], w.completed);
    case Settle(_, _) => EffectSettle(backend, w.base, w.store, w.lock.value, w.applied, w.completed);
    case _ =>
  }

  lemma SerialStep<S>(backend: Backend<S>, config: Config, w: World<S>, ev: Event)
    requires Serial(backend, w)
    ensures Serial(backend, Do(backend, config, w, ev))
    ensures Do(backend, config, w, ev).base == w.base
  {
    if Enabled(config, w, ev) {
      SerialHistoryStep(backend, config, w, ev);
      SerialEffectStep(backend, config, w, ev);
    }
  }

  lemma {:induction false} RunIsSerial<S>(backend: Backend<S>, config: Config, w: World<S>, evs: seq<Event>)
    requires Ordered(backend, config, w) && Serial(backend, w)
    ensures var r := Run(backend, config, w, evs);
            Ordered(backend, config, r) && Serial(backend, r) && r.base == w.base
    decreases |evs|
  {
    if evs != [] {
      OrderedStep(backend, config, w, evs[0]);
      SerialStep(backend, config, w, evs[0]);
      RunIsSerial(backend, config, Do(backend, config, w, evs[0]), evs[1..]);
    }
  }

  /**
   * In every run, with any number of batch processors: the queue is taken apart in order into batches of at most
   * the configured size, and the storage is written by whole lock holds one after another, each of them one such
   * batch or one immediate write, never interleaved. Each write reports what it did at its place in that order.
   */
  lemma BatchesAreNeverInterleaved<S>(backend: Backend<S>, config: Config, base: S, evs: seq<Event>)
    ensures var w := Run(backend, config, Start(base), evs);
            && w.enqueued == Flat(w.popped) + w.queue
            && (forall batch :: batch in w.popped ==> 0 < |batch| <= config.maxBatchSize)
            && (forall proc :: proc in w.waiting ==> w.waiting[proc] in w.popped)
            && (forall batch :: batch in w.held ==> batch in w.popped || IsUrgent(w.urgent, batch))
            && w.applied == Flat(w.held) + Current(w.lock)
            && w.store == StoreAll(backend, base, w.applied)
            && w.completed == Completions(backend, base, Settled(w.lock, w.applied))
            && (w.lock.None? ==> Settled(w.lock, w.applied) == w.applied == Flat(w.held))
  {
    RunIsSerial(backend, config, Start(base), evs);
  }

  // Cache coherence

  /** Each cached length is that of the text the storage returns. */
  ghost predicate Mirrors<S(!new)>(backend: Backend<S>, s: S, cache: Cache) {
    forall doc :: doc in cache ==> backend.get(s, doc).Ok? && |backend.get(s, doc).value| == cache[doc].length
  }

  /** In good states a store changes what its own document returns, if it is accepted, and nothing else. */
  ghost predicate Isolated<S(!new)>(backend: Backend<S>, good: S -> bool) {
    && (forall s, doc, text :: good(s) ==> good(backend.store(s, doc, text).0))
    && (forall s, doc, text, other {:trigger backend.get(backend.store(s, doc, text).0, other)} :: good(s) ==>
          backend.get(backend.store(s, doc, text).0, other)
          == if backend.store(s, doc, text).1.Ok? && other == doc then Ok(text) else backend.get(s, other))
  }

  lemma {:induction false} StoreAllIsGood<S(!new)>(backend: Backend<S>, good: S -> bool, s: S, ws: seq<Write>)
    requires Isolated(backend, good) && good(s)
    ensures good(StoreAll(backend, s, ws))
  {
    if ws != [] {
      StoreAllIsGood(backend, good, s, ws[..|ws| - 1]);
    }
  }

  lemma CacheUpdateMirrors<S(!new)>(backend: Backend<S>, good: S -> bool, config: Config, s: S, h: Holding,
                                    before: Cache, now: nat, after: Cache)
    requires Isolated(backend, good) && good(s) && Mirrors(backend, s, before)
    requires h.stored.Some? && h.next < |h.batch| && CacheUpdated(config, h, before, now, after)
    requires h.stored.value == backend.store(s, h.batch[h.next].doc, h.batch[h.next].text).1
    ensures Mirrors(backend, backend.store(s, h.batch[h.next].doc, h.batch[h.next].text).0, after)
  {
  }

  lemma SettledStep<S>(backend: Backend<S>, config: Config, w: World<S>, ev: Event)
    requires Enabled(config, w, ev)
    ensures var r := Step(backend, config, w, ev);
            && Settled(r.lock, r.applied) == (if ev.Settle? then w.applied else Settled(w.lock, w.applied))
            && (ev.Settle? || r.cache == w.cache || ev.Touch? || ev.ClearCache?)
  {
    if ev.Apply? {
      assert (w.applied + [w.lock.value.batch[w.lock.value.next]])[..|w.applied|] == w.applied;
    }
  }

  lemma MirrorsSettle<S(!new)>(backend: Backend<S>, good: S -> bool, config: Config, w: World<S>, ev: Event)
    requires Isolated(backend, good) && good(w.base) && Serial(backend, w)
    requires Mirrors(backend, StoreAll(backend, w.base, Settled(w.lock, w.applied)), w.cache)
    requires ev.Settle? && Enabled(config, w, ev)
    ensures Mirrors(backend, StoreAll(backend, w.base, w.applied), ev.cache)
  {
    var settled := Settled(w.lock, w.applied);
    StoreAllIsGood(backend, good, w.base, settled);
    CacheUpdateMirrors(backend, good, config, StoreAll(backend, w.base, settled), w.lock.value, w.cache, ev.now,
                       ev.cache);
  }

  lemma MirrorsStep<S(!new)>(backend: Backend<S>, good: S -> bool, config: Config, w: World<S>, ev: Event)
    requires Isolated(backend, good) && good(w.base) && Serial(backend, w)
    requires Mirrors(backend, StoreAll(backend, w.base, Settled(w.lock, w.applied)), w.cache)
    ensures var r := Do(backend, config, w, ev);
            Mirrors(backend, StoreAll(backend, w.base, Settled(r.lock, r.applied)), r.cache)
  {
    if Enabled(config, w, ev) {
      SettledStep(backend, config, w, ev);
      if ev.Settle? {
        MirrorsSettle(backend, good, config, w, ev);
      }
    }
  }

  lemma {:induction false} MirrorsRun<S(!new)>(backend: Backend<S>, good: S -> bool, config: Config, w: World<S>,
                                               evs: seq<Event>)
    requires Isolated(backend, good) && good(w.base) && Serial(backend, w)
    requires Mirrors(backend, StoreAll(backend, w.base, Settled(w.lock, w.applied)), w.cache)
    ensures var r := Run(backend, config, w, evs);
            Mirrors(backend, StoreAll(backend, w.base, Settled(r.lock, r.applied)), r.cache)
    decreases |evs|
  {
    if evs != [] {
      SerialStep(backend, config, w, evs[0]);
      MirrorsStep(backend, good, config, w, evs[0]);
      MirrorsRun(backend, good, config, Do(backend, config, w, evs[0]), evs[1..]);
    }
  }

  // What the cache holds

  /**
   * How a step changes the cache. An accepted write is cached; if the cache then exceeds its size, a batch
   * processor keeps half that many of its entries, none accessed earlier than one that goes.
   */
  lemma CacheChangesExactly<S>(backend: Backend<S>, config: Config, w: World<S>, ev: Event)
    requires Enabled(config, w, ev)
    ensures var after := Step(backend, config, w, ev).cache;
            match ev
            case Settle(now, _) =>
              var h := w.lock.value;
              var write := h.batch[h.next];
              var cached := w.cache[write.doc := Metadata(|write.text|, now)];
              if h.stored.value.Err? then after == w.cache
              else if h.proc.None? || |cached| <= config.cacheSize then after == cached
              else
                && |after| == config.cacheSize / 2
                && (forall doc :: doc in after ==> doc in cached && after[doc] == cached[doc])
                && (forall kept, gone :: kept in after && gone in cached && gone !in after ==>
                      cached[gone].lastAccess <= cached[kept].lastAccess)
            case Touch(doc, now) =>
              && doc in after && after[doc] == Metadata(w.cache[doc].length, now)
              && after - {doc} == w.cache - {doc}
            case ClearCache => after == map[]
            case _ => after == w.cache
    ensures Do(backend, config, w, ClearCache).cache == map[]
  {
  }

  lemma GrownCache(before: Cache, doc: DocumentId, m: Metadata)
    ensures |before[doc := m]| == if doc in before then |before| else |before| + 1
  {
    assert before[doc := m].Keys == before.Keys + {doc};
  }

  /** Immediate writes that have yet to enter the cache. */
  function Entering(lock: Option<Holding>): nat {
    if lock.Some? && lock.value.proc.None? && lock.value.next == 0 then 1 else 0
  }

  lemma BoundStep<S>(backend: Backend<S>, config: Config, w: World<S>, ev: Event)
    requires Ordered(backend, config, w)
    requires |w.cache| + Entering(w.lock) <= config.cacheSize + |w.urgent|
    ensures var r := Do(backend, config, w, ev);
            |r.cache| + Entering(r.lock) <= config.cacheSize + |r.urgent|
  {
    if Enabled(config, w, ev) {
      CacheChangesExactly(backend, config, w, ev);
      match ev
      case Settle(now, _) =>
        var h := w.lock.value;
        GrownCache(w.cache, h.batch[h.next].doc, Metadata(|h.batch[h.next].text|, now));
      case Touch(doc, now) =>
        GrownCache(w.cache, doc, Metadata(w.cache[doc].length, now));
      case _ =>
    }
  }

  lemma {:induction false} BoundRun<S>(backend: Backend<S>, config: Config, w: World<S>, evs: seq<Event>)
    requires Ordered(backend, config, w)
    requires |w.cache| + Entering(w.lock) <= config.cacheSize + |w.urgent|
    ensures var r := Run(backend, config, w, evs); |r.cache| <= config.cacheSize + |r.urgent|
    decreases |evs|
  {
    if evs != [] {
      BoundStep(backend, config, w, evs[0]);
      OrderedStep(backend, config, w, evs[0]);
      BoundRun(backend, config, Do(backend, config, w, evs[0]), evs[1..]);
    }
  }

  /**
   * In every run the cache exceeds its size by at most one entry for each immediate write, as these do not clean
   * it up; without them it never does.
   */
  lemma CacheIsBounded<S>(backend: Backend<S>, config: Config, base: S, evs: seq<Event>)
    ensures var w := Run(backend, config, Start(base), evs); |w.cache| <= config.cacheSize + |w.urgent|
  {
    BoundRun(backend, config, Start(base), evs);
  }

  // Where a queued write is

  datatype Place = Queued | Taken(proc: ProcId) | Held | Completed

  predicate Has(ws: seq<Write>, id: nat) {
    exists i :: 0 <= i < |ws| && ws[i].id == id
  }

  predicate DistinctIds(ws: seq<Write>) {
    forall i, j :: 0 <= i < j < |ws| ==> ws[i].id != ws[j].id
  }

  predicate Sent(done: seq<Completion>, id: nat) {
    exists i :: 0 <= i < |done| && done[i].id == id
  }

  predicate SentOnce(done: seq<Completion>) {
    forall i, j :: 0 <= i < j < |done| ==> done[i].id != done[j].id
  }

  predicate At<S>(w: World<S>, id: nat, place: Place) {
    match place
    case Queued => Has(w.queue, id)
    case Taken(proc) => proc in w.waiting && Has(w.waiting[proc], id)
    case Held => w.lock.Some? && w.lock.value.next <= |w.lock.value.batch|
                 && Has(w.lock.value.batch[w.lock.value.next..], id)
    case Completed => Sent(w.completed, id)
  }

  ghost predicate OnePlaceEach<S(!new)>(w: World<S>) {
    && (forall id :: id in w.ids <==> exists place :: At(w, id, place))
    && (forall id, a, b :: At(w, id, a) && At(w, id, b) ==> a == b)
    && DistinctIds(w.queue)
    && (forall proc :: proc in w.waiting ==> DistinctIds(w.waiting[proc]))
    && (w.lock.Some? ==> DistinctIds(w.lock.value.batch) && w.lock.value.next <= |w.lock.value.batch|)
    && SentOnce(w.completed)
  }

  lemma SplitIds(ws: seq<Write>, n: nat)
    requires n <= |ws| && DistinctIds(ws)
    ensures DistinctIds(ws[..n]) && DistinctIds(ws[n..])
    ensures forall id :: Has(ws, id) <==> Has(ws[..n], id) || Has(ws[n..], id)
    ensures forall id :: !(Has(ws[..n], id) && Has(ws[n..], id))
  {
    forall id
      ensures Has(ws, id) <==> Has(ws[..n], id) || Has(ws[n..], id)
    {
      if Has(ws, id) {
        var i :| 0 <= i < |ws| && ws[i].id == id;
        if i < n {
          assert ws[..n][i].id == id;
        } else {
          assert ws[n..][i - n].id == id;
        }
      }
    }
  }

  ghost predicate OnlyOnePlace<S(!new)>(w: World<S>) {
    forall id, a, b :: At(w, id, a) && At(w, id, b) ==> a == b
  }

  /** Between the states the ids in `moved` come to be in one place, and the others stay where they are. */
  ghost predicate Moves<S(!new)>(w: World<S>, r: World<S>, moved: nat -> bool, to: Place) {
    && (forall id, place :: At(r, id, place) ==> At(w, id, place) || (moved(id) && place == to))
    && (forall id, place :: At(w, id, place) ==> At(r, id, place) || moved(id))
    && (forall id, place :: At(w, id, place) && At(r, id, place) ==> !moved(id) || place == to)
    && (forall id :: moved(id) ==> At(r, id, to))
  }

  lemma MovesKeep<S(!new)>(w: World<S>, r: World<S>, moved: nat -> bool, to: Place)
    requires Moves(w, r, moved, to) && OnlyOnePlace(w)
    requires forall id :: id in w.ids <==> exists place :: At(w, id, place)
    requires forall id :: id in r.ids <==> id in w.ids || moved(id)
    ensures OnlyOnePlace(r)
    ensures forall id :: id in r.ids <==> exists place :: At(r, id, place)
  {
    forall id
      ensures id in r.ids <==> exists place :: At(r, id, place)
    {
      if moved(id) {
        assert At(r, id, to);
      } else if id in w.ids {
        var place :| At(w, id, place);
        assert At(r, id, place);
      }
    }
  }

  lemma MoreIds(ws: seq<Write>, w: Write)
    ensures forall id :: Has(ws + [w], id) <==> Has(ws, id) || id == w.id
  {
    assert (ws + [w])[|ws|] == w;
    forall i | 0 <= i < |ws|
      ensures (ws + [w])[i].id == ws[i].id && Has(ws + [w], ws[i].id)
    {
    }
  }

  /** A fresh id is nowhere. */
  lemma FreshIsNowhere<S(!new)>(w: World<S>, id: nat)
    requires OnePlaceEach(w) && id !in w.ids
    ensures forall place :: !At(w, id, place)
    ensures !Has(w.queue, id)
  {
    assert At(w, id, Queued) ==> id in w.ids;
  }

  lemma PlaceEnqueue<S(!new)>(backend: Backend<S>, config: Config, w: World<S>, write: Write)
    requires OnePlaceEach(w) && write.id !in w.ids
    ensures OnePlaceEach(Step(backend, config, w, Enqueue(write)))
  {
    var r := Step(backend, config, w, Enqueue(write));
    MoreIds(w.queue, write);
    FreshIsNowhere(w, write.id);
    MovesKeep(w, r, (id: nat) => id == write.id, Queued);
  }

  lemma PlaceStoreNow<S(!new)>(backend: Backend<S>, config: Config, w: World<S>, write: Write)
    requires OnePlaceEach(w) && write.id !in w.ids && w.lock.None?
    ensures OnePlaceEach(Step(backend, config, w, StoreNow(write)))
  {
    var r := Step(backend, config, w, StoreNow(write));
    assert [write][0..] == [write];
    MoreIds([], write);
    assert [] + [write] == [write];
    FreshIsNowhere(w, write.id);
    MovesKeep(w, r, (id: nat) => id == write.id, Held);
  }

  lemma PlacePop<S(!new)>(backend: Backend<S>, config: Config, w: World<S>, proc: ProcId)
    requires OnePlaceEach(w) && Enabled(config, w, Pop(proc))
    ensures OnePlaceEach(Step(backend, config, w, Pop(proc)))
  {
    var r := Step(backend, config, w, Pop(proc));
    var batch := w.queue[..BatchSize(config, w.queue)];
    SplitIds(w.queue, |batch|);
    assert forall id :: Has(batch, id) ==> At(w, id, Queued);
    MovesKeep(w, r, (id: nat) => Has(batch, id), Taken(proc));
  }

  lemma PlaceLock<S(!new)>(backend: Backend<S>, config: Config, w: World<S>, proc: ProcId)
    requires OnePlaceEach(w) && Enabled(config, w, Lock(proc))
    ensures OnePlaceEach(Step(backend, config, w, Lock(proc)))
  {
    var r := Step(backend, config, w, Lock(proc));
    var batch := w.waiting[proc];
    assert batch[0..] == batch;
    assert forall id :: Has(batch, id) ==> At(w, id, Taken(proc));
    MovesKeep(w, r, (id: nat) => Has(batch, id), Held);
  }

  lemma NextHeld(batch: seq<Write>, next: nat)
    requires DistinctIds(batch) && next < |batch|
    ensures forall id :: Has(batch[next..], id) <==> id == batch[next].id || Has(batch[next + 1..], id)
    ensures !Has(batch[next + 1..], batch[next].id)
  {
    var rest := batch[next..];
    assert rest[1..] == batch[next + 1..] && rest[..1] == [batch[next]];
    SplitIds(batch, next);
    SplitIds(rest, 1);
    MoreIds([], batch[next]);
    assert [] + [batch[next]] == [batch[next]];
  }

  lemma MoreSent(done: seq<Completion>, c: Completion)
    requires SentOnce(done) && !Sent(done, c.id)
    ensures SentOnce(done + [c])
    ensures forall id :: Sent(done + [c], id) <==> Sent(done, id) || id == c.id
  {
    assert (done + [c])[|done|] == c;
    forall i | 0 <= i < |done|
      ensures (done + [c])[i].id == done[i].id != c.id && Sent(done + [c], done[i].id)
    {
    }
  }

  lemma PlaceSettle<S(!new)>(backend: Backend<S>, config: Config, w: World<S>, ev: Event)
    requires OnePlaceEach(w) && ev.Settle? && Enabled(config, w, ev)
    ensures OnePlaceEach(Step(backend, config, w, ev))
  {
    var r := Step(backend, config, w, ev);
    var h := w.lock.value;
    var done := h.batch[h.next].id;
    NextHeld(h.batch, h.next);
    assert At(w, done, Held);
    assert !At(w, done, Completed);
    MoreSent(w.completed, Completion(done, h.stored.value));
    MovesKeep(w, r, (id: nat) => id == done, Completed);
  }

  lemma PlaceStays<S(!new)>(backend: Backend<S>, config: Config, w: World<S>, ev: Event)
    requires OnePlaceEach(w) && Enabled(config, w, ev)
    requires ev.Apply? || ev.Unlock? || ev.Touch? || ev.ClearCache?
    ensures OnePlaceEach(Step(backend, config, w, ev))
  {
    var r := Step(backend, config, w, ev);
    assert forall id, place :: At(r, id, place) <==> At(w, id, place);
  }

  lemma PlaceStep<S(!new)>(backend: Backend<S>, config: Config, w: World<S>, ev: Event)
    requires OnePlaceEach(w)
    ensures OnePlaceEach(Do(backend, config, w, ev))
  {
    if Enabled(config, w, ev) {
      match ev
      case Enqueue(write) => PlaceEnqueue(backend, config, w, write);
      case Pop(proc) => PlacePop(backend, config, w, proc);
      case Lock(proc) => PlaceLock(backend, config, w, proc);
      case StoreNow(write) => PlaceStoreNow(backend, config, w, write);
      case Settle(_, _) => PlaceSettle(backend, config, w, ev);
      case _ => PlaceStays(backend, config, w, ev);
    }
  }

  lemma {:induction false} PlaceRun<S(!new)>(backend: Backend<S>, config: Config, w: World<S>, evs: seq<Event>)
    requires OnePlaceEach(w)
    ensures OnePlaceEach(Run(backend, config, w, evs))
    decreases |evs|
  {
    if evs != [] {
      PlaceStep(backend, config, w, evs[0]);
      PlaceRun(backend, config, Do(backend, config, w, evs[0]), evs[1..]);
    }
  }

  /**
   * Writes are neither lost nor duplicated: at every moment each accepted write is in exactly one place, which is
   * the queue, one batch in flight, or the list of those that got their one result.
   */
  lemma EachWriteIsInOnePlace<S(!new)>(backend: Backend<S>, config: Config, base: S, evs: seq<Event>, id: nat)
    ensures var w := Run(backend, config, Start(base), evs);
            && (id in w.ids <==> exists place :: At(w, id, place))
            && (forall a, b :: At(w, id, a) && At(w, id, b) ==> a == b)
            && SentOnce(w.completed)
  {
    PlaceRun(backend, config, Start(base), evs);
  }

  // Stopping the background processor

  /** A flush takes one batch, so it empties the queue exactly when the queue fits into one. */
  lemma FlushEmptiesExactly<S>(backend: Backend<S>, config: Config, w: World<S>, proc: ProcId)
    requires proc !in w.waiting && (w.lock.Some? ==> w.lock.value.proc != Some(proc))
    ensures Do(backend, config, w, Pop(proc)).queue == [] <==> |w.queue| <= config.maxBatchSize
  {
  }

  lemma {:induction false} QueuedStays<S>(backend: Backend<S>, config: Config, w: World<S>, evs: seq<Event>, id: nat)
    requires Has(w.queue, id) && forall ev :: ev in evs ==> !ev.Pop?
    ensures Has(Run(backend, config, w, evs).queue, id)
    decreases |evs|
  {
    if evs != [] {
      if evs[0].Enqueue? {
        MoreIds(w.queue, evs[0].write);
      }
      QueuedStays(backend, config, Do(backend, config, w, evs[0]), evs[1..], id);
    }
  }

  /** After the last flush, writes behind that batch stay in the queue and never get a result. */
  lemma FlushStrandsTheRest<S(!new)>(backend: Backend<S>, config: Config, w: World<S>, proc: ProcId, evs: seq<Event>,
                                     i: nat)
    requires OnePlaceEach(w) && !Busy(w, proc) && config.maxBatchSize <= i < |w.queue|
    requires forall ev :: ev in evs ==> !ev.Pop?
    ensures var r := Run(backend, config, Do(backend, config, w, Pop(proc)), evs);
            At(r, w.queue[i].id, Queued) && !At(r, w.queue[i].id, Completed)
  {
    var flushed := Do(backend, config, w, Pop(proc));
    if config.maxBatchSize > 0 {
      assert flushed.queue[i - config.maxBatchSize] == w.queue[i];
    }
    assert Has(flushed.queue, w.queue[i].id);
    QueuedStays(backend, config, flushed, evs, w.queue[i].id);
    PlaceStep(backend, config, w, Pop(proc));
    PlaceRun(backend, config, flushed, evs);
  }

  // Results for the text storage

  ghost predicate Sound(s: Log.Store) {
    exists l :: TextLogRuns.Represents(s, l)
  }

  lemma StorageIsIsolated()
    ensures Isolated(TextBackend(), s => Sound(s))
  {
    var backend := TextBackend();
    forall s, doc, text | Sound(s)
      ensures Sound(backend.store(s, doc, text).0)
    {
      var l :| TextLogRuns.Represents(s, l);
      if |text| <= s.limit {
        TextLogRuns.StoreRepresents(s, l, doc, text);
      }
    }
    forall s, doc, text, other {:trigger backend.get(backend.store(s, doc, text).0, other)} | Sound(s)
      ensures backend.get(backend.store(s, doc, text).0, other)
           == if backend.store(s, doc, text).1.Ok? && other == doc then Ok(text) else backend.get(s, other)
    {
      var l :| TextLogRuns.Represents(s, l);
      TextLogRuns.StoreIsolation(s, l, doc, text, other);
    }
  }

  /**
   * Around a storage in any state its own operations reach, cached lengths are those of the texts stored by the
   * writes whose results are out, and while no write is being stored those are all of them.
   */
  lemma CacheMirrorsStorage(config: Config, base: Log.Store, evs: seq<Event>)
    requires Sound(base)
    ensures var w := Run(TextBackend(), config, Start(base), evs);
            var settled := StoreAll(TextBackend(), base, Settled(w.lock, w.applied));
            && Mirrors(TextBackend(), settled, w.cache)
            && (w.lock.None? || w.lock.value.stored.None? ==> settled == w.store)
  {
    StorageIsIsolated();
    RunIsSerial(TextBackend(), config, Start(base), evs);
    MirrorsRun(TextBackend(), s => Sound(s), config, Start(base), evs);
  }

  /**
   * So the early range check never refuses a range that the storage would accept, while no writer holds its lock.
   * While one does, no reader can ask it; then a refused range can be in bounds only of the text just stored.
   */
  lemma EarlyCheckRefusesOnlyBadRanges(config: Config, base: Log.Store, evs: seq<Event>, doc: DocumentId, start: nat,
                                       length: nat)
    requires Sound(base)
    requires Refuses(Run(TextBackend(), config, Start(base), evs).cache, doc, start, length)
    ensures var w := Run(TextBackend(), config, Start(base), evs);
            && (w.lock.None? ==> Log.ExtractSubstring(w.store, doc, start, length).Err?)
            && (Log.ExtractSubstring(w.store, doc, start, length).Ok? ==>
                  && w.lock.Some? && w.lock.value.stored.Some? && w.lock.value.stored.value.Ok?
                  && w.lock.value.next < |w.lock.value.batch| && w.lock.value.batch[w.lock.value.next].doc == doc)
            && Log.ExtractSubstring(StoreAll(TextBackend(), base, Settled(w.lock, w.applied)), doc, start, length).Err?
  {
    CacheMirrorsStorage(config, base, evs);
    RunIsSerial(TextBackend(), config, Start(base), evs);
    var w := Run(TextBackend(), config, Start(base), evs);
    var settled := StoreAll(TextBackend(), base, Settled(w.lock, w.applied));
    RefusedOutOfBounds(settled, w.cache, doc, start, length);
    StoreIsPending(TextBackend(), w);
    if w.lock.Some? && w.lock.value.stored.Some? {
      StorageIsIsolated();
      StoreAllIsGood(TextBackend(), s => Sound(s), base, Settled(w.lock, w.applied));
      var write := w.lock.value.batch[w.lock.value.next];
      OtherWritesDoNotMatter(settled, w.store, w.lock.value.stored.value, w.cache, write, doc, start, length);
    }
  }

  /** For a cached document the early check is exact: it refuses just the ranges that end behind the stored text. */
  lemma EarlyCheckExactly(config: Config, base: Log.Store, evs: seq<Event>, doc: DocumentId, start: nat, length: nat)
    requires Sound(base)
    requires var w := Run(TextBackend(), config, Start(base), evs); w.lock.None? && doc in w.cache
    ensures var w := Run(TextBackend(), config, Start(base), evs);
            && Log.GetText(w.store, doc).Ok?
            && (Refuses(w.cache, doc, start, length) <==> start + length > |Log.GetText(w.store, doc).value|)
  {
    CacheMirrorsStorage(config, base, evs);
    var w := Run(TextBackend(), config, Start(base), evs);
    assert TextBackend().get(w.store, doc) == Log.GetText(w.store, doc);
  }

  /** The storage is the settled one, or one write ahead of it. */
  lemma StoreIsPending<S>(backend: Backend<S>, w: World<S>)
    requires Serial(backend, w)
    ensures var settled := StoreAll(backend, w.base, Settled(w.lock, w.applied));
            if w.lock.Some? && w.lock.value.stored.Some? then
              && w.lock.value.next < |w.lock.value.batch|
              && var write := w.lock.value.batch[w.lock.value.next];
                 backend.store(settled, write.doc, write.text) == (w.store, w.lock.value.stored.value)
            else w.store == settled
  {
  }

  lemma RefusedOutOfBounds(s: Log.Store, cache: Cache, doc: DocumentId, start: nat, length: nat)
    requires Mirrors(TextBackend(), s, cache) && Refuses(cache, doc, start, length)
    ensures Log.GetText(s, doc).Ok? && start + length > |Log.GetText(s, doc).value|
    ensures Log.ExtractSubstring(s, doc, start, length).Err?
  {
    assert TextBackend().get(s, doc) == Log.GetText(s, doc);
    if Log.ExtractSubstring(s, doc, start, length).Ok? {
      TextExtraction.ExtractReadsText(s, doc, start, length);
    }
  }

  lemma OtherWritesDoNotMatter(s: Log.Store, t: Log.Store, result: Result<()>, cache: Cache, write: Write,
                               doc: DocumentId, start: nat, length: nat)
    requires Sound(s) && Mirrors(TextBackend(), s, cache) && Refuses(cache, doc, start, length)
    requires TextBackend().store(s, write.doc, write.text) == (t, result)
    ensures result.Err? || write.doc != doc ==> Log.ExtractSubstring(t, doc, start, length).Err?
  {
    var l :| TextLogRuns.Represents(s, l);
    TextLogRuns.StoreIsolation(s, l, write.doc, write.text, doc);
    RefusedOutOfBounds(s, cache, doc, start, length);
    if Log.ExtractSubstring(t, doc, start, length).Ok? {
      TextExtraction.ExtractReadsText(t, doc, start, length);
    }
  }

  lemma BackendIsStorage(s: Log.Store, doc: DocumentId, text: Text)
    requires s.WellFormed()
    ensures TextBackend().store(s, doc, text) == Log.StoreText(s, doc, text)
    ensures TextBackend().get(s, doc) == Log.GetText(s, doc)
  {
  }

  lemma {:induction false} LastAcceptedOf<S(!new)>(backend: Backend<S>, good: S -> bool, base: S,
                                                   applied: seq<Write>, i: nat, doc: DocumentId, n: nat)
    requires Isolated(backend, good) && good(base) && i < n <= |applied| && applied[i].doc == doc
    requires backend.store(StoreAll(backend, base, applied[..i]), doc, applied[i].text).1.Ok?
    requires forall k :: i < k < n && applied[k].doc == doc ==>
               backend.store(StoreAll(backend, base, applied[..k]), doc, applied[k].text).1.Err?
    ensures backend.get(StoreAll(backend, base, applied[..n]), doc) == Ok(applied[i].text)
    decreases n
  {
    var k := n - 1;
    var (s, write) := (StoreAll(backend, base, applied[..k]), applied[k]);
    StoreAllIsGood(backend, good, base, applied[..k]);
    NextWrite(backend, base, applied, k);
    assert backend.get(backend.store(s, write.doc, write.text).0, doc)
        == if backend.store(s, write.doc, write.text).1.Ok? && doc == write.doc then Ok(write.text)
           else backend.get(s, doc);
    if i < k {
      LastAcceptedOf(backend, good, base, applied, i, doc, k);
    }
  }

  /** What has been stored, by batches or immediately, reads back: the last accepted write of a document decides. */
  lemma LastAcceptedIsRead(config: Config, base: Log.Store, evs: seq<Event>, w: World<Log.Store>, i: nat)
    requires Sound(base) && w == Run(TextBackend(), config, Start(base), evs) && i < |w.applied|
    requires TextBackend().store(StoreAll(TextBackend(), base, w.applied[..i]), w.applied[i].doc, w.applied[i].text).1
             == Ok(())
    requires forall k :: i < k < |w.applied| && w.applied[k].doc == w.applied[i].doc ==>
               TextBackend().store(StoreAll(TextBackend(), base, w.applied[..k]), w.applied[i].doc,
                                   w.applied[k].text).1.Err?
    ensures Log.GetText(w.store, w.applied[i].doc) == Ok(w.applied[i].text)
  {
    RunIsSerial(TextBackend(), config, Start(base), evs);
    StorageIsIsolated();
    LastAcceptedOf(TextBackend(), s => Sound(s), base, w.applied, i, w.applied[i].doc, |w.applied|);
    assert w.applied[..|w.applied|] == w.applied;
    assert TextBackend().get(w.store, w.applied[i].doc) == Log.GetText(w.store, w.applied[i].doc);
  }

  // No write is stuck

  lemma {:induction false} OldestOf(cache: Cache) returns (oldest: DocumentId)
    requires cache != map[]
    ensures oldest in cache && forall doc :: doc in cache ==> cache[oldest].lastAccess <= cache[doc].lastAccess
    decreases |cache|
  {
    var some :| some in cache;
    var rest := cache - {some};
    assert forall doc :: doc in cache ==> doc == some || doc in rest;
    oldest := some;
    if rest != map[] {
      assert cache.Keys == rest.Keys + {some};
      var other := OldestOf(rest);
      if cache[other].lastAccess < cache[some].lastAccess {
        oldest := other;
      }
    }
  }

  lemma {:induction false} CleanUpIsPossible(cache: Cache, target: nat) returns (after: Cache)
    ensures Cleaned(cache, after, target)
    decreases |cache|
  {
    after := cache;
    if |cache| > target {
      var oldest := OldestOf(cache);
      assert cache.Keys == (cache - {oldest}).Keys + {oldest};
      after := CleanUpIsPossible(cache - {oldest}, target);
    }
  }

  lemma SettleIsPossible<S>(config: Config, w: World<S>) returns (cache: Cache)
    requires w.lock.Some? && w.lock.value.stored.Some? && w.lock.value.next < |w.lock.value.batch|
    ensures Enabled(config, w, Settle(0, cache))
  {
    var h := w.lock.value;
    var write := h.batch[h.next];
    cache := w.cache;
    if h.stored.value.Ok? {
      cache := w.cache[write.doc := Metadata(|write.text|, 0)];
      if h.proc.Some? && |cache| > config.cacheSize {
        cache := CleanUpIsPossible(cache, config.cacheSize / 2);
      }
    }
  }

  /** Some continuation leaves no write waiting anywhere. */
  ghost predicate MayFinish<S(!new)>(backend: Backend<S>, config: Config, w: World<S>) {
    exists evs :: Finished(Run(backend, config, w, evs), w.ids)
  }

  predicate Finished<S>(w: World<S>, ids: set<nat>) {
    w.queue == [] && w.waiting == map[] && w.lock.None? && w.ids == ids
  }

  lemma FinishLater<S(!new)>(backend: Backend<S>, config: Config, w: World<S>, ev: Event)
    requires Do(backend, config, w, ev).ids == w.ids && MayFinish(backend, config, Do(backend, config, w, ev))
    ensures MayFinish(backend, config, w)
  {
    var v := Do(backend, config, w, ev);
    var evs :| Finished(Run(backend, config, v, evs), v.ids);
    assert ([ev] + evs)[1..] == evs;
    assert Run(backend, config, w, [ev] + evs) == Run(backend, config, v, evs);
  }

  /** Steps that the holder of the lock still has to take. */
  function Outstanding(lock: Option<Holding>): nat {
    match lock
    case None => 0
    case Some(h) =>
      if h.next + (if h.stored.Some? then 1 else 0) <= |h.batch|
      then 1 + 2 * (|h.batch| - h.next) - (if h.stored.Some? then 1 else 0) else 0
  }

  /** The step leads on: to fewer writes in the queue, fewer batches waiting, or fewer steps for the lock holder. */
  ghost predicate LeadsOn<S>(w: World<S>, r: World<S>) {
    && r.ids == w.ids && |r.queue| <= |w.queue|
    && (|r.queue| == |w.queue| ==> |r.waiting| <= |w.waiting|)
    && (|r.queue| == |w.queue| && |r.waiting| == |w.waiting| ==> Outstanding(r.lock) < Outstanding(w.lock))
  }

  lemma HolderGoesOn<S>(backend: Backend<S>, config: Config, w: World<S>) returns (ev: Event)
    requires Ordered(backend, config, w) && w.lock.Some?
    ensures LeadsOn(w, Do(backend, config, w, ev))
  {
    var h := w.lock.value;
    if h.stored.Some? {
      var cache := SettleIsPossible(config, w);
      ev := Settle(0, cache);
    } else if h.next < |h.batch| {
      ev := Apply;
    } else {
      ev := Unlock;
    }
  }

  lemma SomeoneGoesOn<S>(backend: Backend<S>, config: Config, w: World<S>) returns (ev: Event)
    requires w.lock.None? && config.maxBatchSize > 0 && !Finished(w, w.ids)
    ensures LeadsOn(w, Do(backend, config, w, ev))
  {
    if w.waiting != map[] {
      var proc :| proc in w.waiting;
      ev := Lock(proc);
      assert w.waiting.Keys == (w.waiting - {proc}).Keys + {proc};
    } else {
      ev := Pop(0);
    }
  }

  lemma {:induction false} CanFinish<S(!new)>(backend: Backend<S>, config: Config, w: World<S>)
    requires Ordered(backend, config, w) && config.maxBatchSize > 0
    ensures MayFinish(backend, config, w)
    decreases |w.queue|, |w.waiting|, Outstanding(w.lock)
  {
    if Finished(w, w.ids) {
      assert Run(backend, config, w, []) == w;
    } else {
      var ev: Event;
      if w.lock.Some? {
        ev := HolderGoesOn(backend, config, w);
      } else {
        ev := SomeoneGoesOn(backend, config, w);
      }
      OrderedStep(backend, config, w, ev);
      CanFinish(backend, config, Do(backend, config, w, ev));
      FinishLater(backend, config, w, ev);
    }
  }

  /**
   * From every state that a run reaches, some continuation gives every write taken on its result, whatever the
   * processors and the lock holder were doing.
   */
  lemma EveryWriteCanComplete<S(!new)>(backend: Backend<S>, config: Config, base: S, evs: seq<Event>)
      returns (more: seq<Event>)
    requires config.maxBatchSize > 0
    ensures var w := Run(backend, config, Start(base), evs);
            forall id :: id in w.ids ==> Sent(Run(backend, config, w, more).completed, id)
  {
    RunIsSerial(backend, config, Start(base), evs);
    PlaceRun(backend, config, Start(base), evs);
    var w := Run(backend, config, Start(base), evs);
    CanFinish(backend, config, w);
    more :| Finished(Run(backend, config, w, more), w.ids);
    PlaceRun(backend, config, w, more);
    AllCompleted(Run(backend, config, w, more));
  }

  lemma AllCompleted<S(!new)>(w: World<S>)
    requires OnePlaceEach(w) && Finished(w, w.ids)
    ensures forall id :: id in w.ids ==> Sent(w.completed, id)
  {
    forall id | id in w.ids
      ensures Sent(w.completed, id)
    {
      var place :| At(w, id, place);
      assert place == Completed;
    }
  }
}
