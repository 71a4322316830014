/** The concurrent storage wrapper: a write queue emptied in batches, and a cache of text lengths. */
module BatchedWrites {
  import opened Bytes
  import opened Outcomes
  import opened TextFormat
  import opened Utf8
  import opened Sorting
  import Log = TextLog
  import DocumentTextStorage

  datatype Config = Config(maxBatchSize: nat, cacheSize: nat)

  /** A queued write; `id` stands for its completion channel. */
  datatype Write = Write(id: nat, doc: DocumentId, text: Text)

  datatype Completion = Completion(id: nat, result: Result<()>)

  datatype Metadata = Metadata(length: nat, lastAccess: nat)

  type Cache = map<DocumentId, Metadata>

  /** A text store as its users see it. */
  datatype Backend<!S> = Backend(store: (S, DocumentId, Text) -> (S, Result<()>), get: (S, DocumentId) -> Result<Text>)

  function TextBackend(): Backend<Log.Store> {
    Backend((s: Log.Store, doc: DocumentId, text: Text) =>
              if s.WellFormed() then Log.StoreText(s, doc, text) else (s, Err(Corruption)),
            (s, doc) => Log.GetText(s, doc))
  }

  /** The store after the writes, one after another. */
  function StoreAll<S>(backend: Backend<S>, s: S, ws: seq<Write>): S {
    if ws == [] then s
    else
      var w := ws[|ws| - 1];
      backend.store(StoreAll(backend, s, ws[..|ws| - 1]), w.doc, w.text).0
  }

  /** What each of the writes reports. */
  function Completions<S>(backend: Backend<S>, s: S, ws: seq<Write>): (r: seq<Completion>)
    ensures |r| == |ws|
  {
    if ws == [] then []
    else
      var (w, rest) := (ws[|ws| - 1], ws[..|ws| - 1]);
      Completions(backend, s, rest) + [Completion(w.id, backend.store(StoreAll(backend, s, rest), w.doc, w.text).1)]
  }

  // The metadata cache

  /** Least recently accessed entries go first; which of several equally old ones goes is not determined. */
  ghost predicate Cleaned(before: Cache, after: Cache, target: nat) {
    if |before| <= target then after == before
    else
      && |after| == target
      && (forall doc :: doc in after ==> doc in before && after[doc] == before[doc])
      && (forall kept, gone :: kept in after && gone in before && gone !in after ==>
            before[gone].lastAccess <= before[kept].lastAccess)
  }

  /** The cache after a batched write with the given result. */
  ghost predicate CacheStep(config: Config, before: Cache, w: Write, result: Result<()>, now: nat, after: Cache) {
    if result.Err? then after == before
    else
      var cached := before[w.doc := Metadata(|w.text|, now)];
      if |cached| > config.cacheSize then Cleaned(cached, after, config.cacheSize / 2) else after == cached
  }

  /** The caches before, between and after the writes. */
  ghost predicate CacheTrail(config: Config, trail: seq<Cache>, ws: seq<Write>, done: seq<Completion>,
                             clock: nat -> nat)
  {
    && |trail| == |ws| + 1 && |done| == |ws|
    && forall i {:trigger ws[i]} :: 0 <= i < |ws| ==>
         CacheStep(config, trail[i], ws[i], done[i].result, clock(i), trail[i + 1])
  }

  /** The writes, stored at the given times, lead from one cache to the other. */
  ghost predicate CacheFollows(config: Config, before: Cache, ws: seq<Write>, done: seq<Completion>, clock: nat -> nat,
                               after: Cache)
  {
    exists trail :: CacheTrail(config, trail, ws, done, clock) && trail[0] == before && trail[|ws|] == after
  }

  /** The early range check: the range ends behind the cached length. */
  predicate Refuses(cache: Cache, doc: DocumentId, start: nat, length: nat) {
    doc in cache && start + length > cache[doc].length
  }

  /** The entries list the cached documents outside `rest`, each once, with their access times. */
  ghost predicate Lists(entries: seq<(DocumentId, nat)>, cache: Cache, rest: set<DocumentId>) {
    && |entries| == |cache| - |rest|
    && forall doc, time ::
         multiset(entries)[(doc, time)] == if doc in cache.Keys - rest && time == cache[doc].lastAccess then 1 else 0
  }

  lemma ListsMore(entries: seq<(DocumentId, nat)>, cache: Cache, rest: set<DocumentId>, id: DocumentId)
    requires Lists(entries, cache, rest) && rest <= cache.Keys && id in rest
    ensures Lists(entries + [(id, cache[id].lastAccess)], cache, rest - {id})
  {
  }

  lemma CountedOnce<T>(s: seq<T>, i: nat)
    requires i < |s| && multiset(s)[s[i]] == 1
    ensures s[i] !in s[..i]
  {
    assert s == s[..i] + ([s[i]] + s[i + 1..]);
    assert multiset(s) == multiset(s[..i]) + (multiset{s[i]} + multiset(s[i + 1..]));
    assert multiset(s[..i])[s[i]] == 0;
  }

  /** What is left when the first `n` listed documents are removed. */
  ghost predicate Without(kept: Cache, cache: Cache, entries: seq<(DocumentId, nat)>) {
    && |kept| == |cache| - |entries|
    && (forall doc :: doc in kept ==> doc in cache && kept[doc] == cache[doc])
    && (forall doc :: doc in cache ==> (doc in kept <==> (doc, cache[doc].lastAccess) !in entries))
  }

  lemma RemoveNext(kept: Cache, cache: Cache, entries: seq<(DocumentId, nat)>, n: nat)
    requires Lists(entries, cache, {}) && n < |entries| && Without(kept, cache, entries[..n])
    ensures Without(kept - {entries[n].0}, cache, entries[..n + 1])
  {
    var (doc, time) := entries[n];
    assert entries[n] in multiset(entries);
    CountedOnce(entries, n);
    assert entries[..n + 1] == entries[..n] + [entries[n]];
    assert doc in kept && kept.Keys == (kept - {doc}).Keys + {doc};
  }

  lemma WithoutOldest(kept: Cache, cache: Cache, entries: seq<(DocumentId, nat)>, n: nat,
                      age: ((DocumentId, nat)) -> real)
    requires Lists(entries, cache, {}) && n <= |entries| && Without(kept, cache, entries[..n])
    requires Ascending(entries, age) && forall e :: age(e) == e.1 as real
    ensures forall last, gone :: last in kept && gone in cache && gone !in kept ==>
              cache[gone].lastAccess <= cache[last].lastAccess
  {
    forall last, gone | last in kept && gone in cache && gone !in kept
      ensures cache[gone].lastAccess <= cache[last].lastAccess
    {
      var oldest, newer := (gone, cache[gone].lastAccess), (last, cache[last].lastAccess);
      assert newer in multiset(entries);
      var i :| 0 <= i < n && entries[i] == oldest;
      var j :| 0 <= j < |entries| && entries[j] == newer;
      assert n <= j;
      assert age(entries[i]) <= age(entries[j]);
    }
  }

  /** Bytes that storing the texts may add to the data file. */
  function Room(ws: seq<Write>): nat {
    if ws == [] then 0 else 8 + |ws[0].text| + Room(ws[1..])
  }

  lemma {:induction false} RoomForPrefix(ws: seq<Write>, n: nat)
    requires n <= |ws|
    ensures Room(ws[..n]) <= Room(ws)
    decreases n
  {
    if n > 0 {
      RoomForPrefix(ws[1..], n - 1);
      assert ws[..n][1..] == ws[1..][..n - 1];
    }
  }

  lemma StoreTakesRoom(s: Log.Store, doc: DocumentId, text: Text)
    requires s.WellFormed()
    ensures Log.StoreText(s, doc, text).0.nextText <= s.nextText + 8 + |text|
  {
  }

  /** Doing the next write of a batch. */
  lemma NextWrite<S>(backend: Backend<S>, s: S, ws: seq<Write>, i: nat)
    requires i < |ws|
    ensures StoreAll(backend, s, ws[..i + 1]) == backend.store(StoreAll(backend, s, ws[..i]), ws[i].doc, ws[i].text).0
    ensures Completions(backend, s, ws[..i + 1])
         == Completions(backend, s, ws[..i])
            + [Completion(ws[i].id, backend.store(StoreAll(backend, s, ws[..i]), ws[i].doc, ws[i].text).1)]
  {
    assert ws[..i + 1][..i] == ws[..i];
  }

  lemma CacheFollowsNext(config: Config, before: Cache, ws: seq<Write>, i: nat, done: seq<Completion>,
                         clock: nat -> nat, mid: Cache, c: Completion, after: Cache)
    requires i < |ws| && CacheFollows(config, before, ws[..i], done, clock, mid)
    requires CacheStep(config, mid, ws[i], c.result, clock(i), after)
    ensures CacheFollows(config, before, ws[..i + 1], done + [c], clock, after)
  {
    var trail :| CacheTrail(config, trail, ws[..i], done, clock) && trail[0] == before && trail[i] == mid;
    assert forall k :: 0 <= k < i ==> ws[..i][k] == ws[..i + 1][k];
    assert CacheTrail(config, trail + [after], ws[..i + 1], done + [c], clock);
  }

  class ConcurrentStorage {
    const storage: DocumentTextStorage.Storage
    const config: Config
    var queue: seq<Write>
    var cache: Cache

    constructor (storage: DocumentTextStorage.Storage, config: Config)
      ensures this.storage == storage && this.config == config && queue == [] && cache == map[]
    {
      this.storage, this.config := storage, config;
      queue, cache := [], map[];
    }

    ghost predicate Valid()
      reads this, storage, storage.indexFile, storage.dataFile
    {
      storage.Valid()
    }

    /** Removes the least recently accessed entries down to the target. */
    static method CleanupMetadataCache(cache: Cache, target: nat) returns (kept: Cache)
      ensures Cleaned(cache, kept, target)
      ensures |kept| == if |cache| <= target then |cache| else target
      ensures forall doc :: doc in kept ==> doc in cache && kept[doc] == cache[doc]
      ensures forall last, gone :: last in kept && gone in cache && gone !in kept ==>
                cache[gone].lastAccess <= cache[last].lastAccess
    {
      if |cache| <= target {
        return cache;
      }
      var entries: seq<(DocumentId, nat)> := [];
      var ids := cache.Keys;
      while ids != {}
        invariant ids <= cache.Keys && Lists(entries, cache, ids)
        decreases ids
      {
        var id :| id in ids;
        ListsMore(entries, cache, ids, id);
        entries := entries + [(id, cache[id].lastAccess)];
        ids := ids - {id};
      }
      var age := (e: (DocumentId, nat)) => e.1 as real;
      SortByIsStableSort(entries, age);
      entries := SortBy(entries, age);
      kept := cache;
      var excess := |cache| - target;
      for i := 0 to excess
        invariant Lists(entries, cache, {}) && Without(kept, cache, entries[..i])
      {
        RemoveNext(kept, cache, entries, i);
        kept := kept - {entries[i].0};
      }
      WithoutOldest(kept, cache, entries, excess, age);
    }

    /** `store_text_batched` puts the write on the queue, and processes a batch when the queue is full. */
    method StoreTextBatched(w: Write, clock: nat -> nat) returns (done: seq<Completion>)
      requires Valid() && storage.nextTextOffset + Room(queue + [w]) < U64_LIMIT
      modifies this, storage, storage.indexFile, storage.dataFile
      ensures Valid()
      ensures BatchDone(old(storage.State()), old(cache), old(queue) + [w],
                        if |old(queue)| + 1 >= config.maxBatchSize then config.maxBatchSize else 0, done, clock)
    {
      queue := queue + [w];
      done := [];
      if |queue| >= config.maxBatchSize {
        done := ProcessWriteBatch(clock);
      } else {
        NothingDone(storage.State(), cache, clock);
      }
    }

    /** The first `max` writes of the queue, or all of them if there are fewer, have been carried out. */
    ghost predicate BatchDone(s: Log.Store, before: Cache, waiting: seq<Write>, max: nat, done: seq<Completion>,
                              clock: nat -> nat)
      reads this, storage, storage.indexFile, storage.dataFile
    {
      var n := if |waiting| < max then |waiting| else max;
      && queue == waiting[n..]
      && storage.State() == StoreAll(TextBackend(), s, waiting[..n])
      && done == Completions(TextBackend(), s, waiting[..n])
      && CacheFollows(config, before, waiting[..n], done, clock, cache)
    }

    lemma NothingDone(s: Log.Store, before: Cache, clock: nat -> nat)
      ensures CacheFollows(config, before, [], [], clock, before)
    {
      assert CacheTrail(config, [before], [], [], clock);
    }

    method ProcessWriteBatch(clock: nat -> nat) returns (done: seq<Completion>)
      requires Valid() && storage.nextTextOffset + Room(queue) < U64_LIMIT
      modifies this, storage, storage.indexFile, storage.dataFile
      ensures Valid()
      ensures BatchDone(old(storage.State()), old(cache), old(queue), config.maxBatchSize, done, clock)
    {
      RoomForPrefix(queue, if |queue| < config.maxBatchSize then |queue| else config.maxBatchSize);
      var batch := TakeBatch();
      done := ProcessAll(batch, clock);
    }

    method TakeBatch() returns (batch: seq<Write>)
      modifies this`queue
      ensures |batch| == if |old(queue)| < config.maxBatchSize then |old(queue)| else config.maxBatchSize
      ensures batch == old(queue)[..|batch|] && queue == old(queue)[|batch|..]
    {
      batch := [];
      while |batch| < config.maxBatchSize && queue != []
        invariant old(queue) == batch + queue && |batch| <= config.maxBatchSize
        decreases |queue|
      {
        batch, queue := batch + [queue[0]], queue[1..];
      }
    }

    /** An accepted write is cached; a cache that has become too large is halved. */
    method CacheWrite(w: Write, result: Result<()>, now: nat)
      modifies this`cache
      ensures CacheStep(config, old(cache), w, result, now, cache)
      ensures var cached := old(cache)[w.doc := Metadata(|w.text|, now)];
              if result.Err? then cache == old(cache)
              else if |cached| <= config.cacheSize then cache == cached
              else |cache| == config.cacheSize / 2
                   && forall doc :: doc in cache ==> doc in cached && cache[doc] == cached[doc]
    {
      if result.Ok? {
        cache := cache[w.doc := Metadata(|w.text|, now)];
        if |cache| > config.cacheSize {
          cache := CleanupMetadataCache(cache, config.cacheSize / 2);
        }
      }
    }

    method ProcessAll(batch: seq<Write>, clock: nat -> nat) returns (done: seq<Completion>)
      requires Valid() && storage.nextTextOffset + Room(batch) < U64_LIMIT
      modifies this`cache, storage, storage.indexFile, storage.dataFile
      ensures Valid()
      ensures storage.State() == StoreAll(TextBackend(), old(storage.State()), batch)
      ensures done == Completions(TextBackend(), old(storage.State()), batch)
      ensures CacheFollows(config, old(cache), batch, done, clock, cache)
    {
      ghost var s := storage.State();
      done := [];
      NothingDone(s, cache, clock);
      assert batch[..0] == [];
      for i := 0 to |batch|
        invariant Valid() && storage.nextTextOffset + Room(batch[i..]) < U64_LIMIT
        invariant storage.indexFile == old(storage.indexFile) || fresh(storage.indexFile)
        invariant storage.dataFile == old(storage.dataFile) || fresh(storage.dataFile)
        invariant storage.State() == StoreAll(TextBackend(), s, batch[..i])
        invariant done == Completions(TextBackend(), s, batch[..i])
        invariant CacheFollows(config, old(cache), batch[..i], done, clock, cache)
      {
        var w := batch[i];
        assert batch[i..][1..] == batch[i + 1..];
        StoreTakesRoom(storage.State(), w.doc, w.text);
        NextWrite(TextBackend(), s, batch, i);
        ghost var mid := cache;
        var result := storage.StoreText(w.doc, w.text);
        CacheWrite(w, result, clock(i));
        CacheFollowsNext(config, old(cache), batch, i, done, clock, mid, Completion(w.id, result), cache);
        done := done + [Completion(w.id, result)];
      }
      assert batch[..|batch|] == batch;
    }

    method StoreTextImmediate(doc: DocumentId, text: Text, now: nat) returns (r: Result<()>)
      requires Valid() && storage.nextTextOffset + 8 + |text| < U64_LIMIT
      modifies this`cache, storage, storage.indexFile, storage.dataFile
      ensures Valid()
      ensures (storage.State(), r) == Log.StoreText(old(storage.State()), doc, text)
      ensures cache == if r.Ok? then old(cache)[doc := Metadata(|text|, now)] else old(cache)
    {
      r := storage.StoreText(doc, text);
      if r.Ok? {
        cache := cache[doc := Metadata(|text|, now)];
      }
    }

    /** Reading a text also refreshes the access time of its cache entry. */
    method GetText(doc: DocumentId, now: nat) returns (r: Result<Text>)
      requires Valid()
      modifies this`cache
      ensures r == Log.GetText(storage.State(), doc)
      ensures cache == if doc in old(cache) then old(cache)[doc := old(cache)[doc].(lastAccess := now)] else old(cache)
    {
      if doc in cache {
        cache := cache[doc := cache[doc].(lastAccess := now)];
      }
      r := storage.GetText(doc);
    }

    method ExtractTextSubstring(doc: DocumentId, start: nat, length: nat) returns (r: Result<Text>)
      requires Valid() && start < U32_LIMIT && length < U32_LIMIT
      ensures r == if doc in cache && start + length > cache[doc].length then Err(InvalidInput("range"))
                   else Log.ExtractSubstring(storage.State(), doc, start, length)
    {
      if doc in cache && start + length > cache[doc].length {
        return Err(InvalidInput("range"));
      }
      r := storage.ExtractTextSubstring(doc, start, length);
    }
  }
}
