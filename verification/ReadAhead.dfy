/** What the read-ahead buffer computes, a bounded cache with expiry that evicts the least recently used text. */
module ReadAhead {
  import opened Bytes
  import opened Outcomes
  import opened TextFormat
  import opened Utf8

  datatype CachedText = CachedText(text: Text, createdAt: nat, accessCount: nat)

  datatype Buffer = Buffer(entries: map<DocumentId, CachedText>, order: seq<DocumentId>)

  datatype Limits = Limits(maxSize: nat, ttl: nat)

  /** A creation time that lies ahead of the clock counts as no time elapsed. */
  predicate Expired(e: CachedText, now: nat, ttl: nat) {
    e.createdAt <= now && now - e.createdAt > ttl
  }

  // Sequences of document ids

  function Retain(order: seq<DocumentId>, gone: set<DocumentId>): seq<DocumentId> {
    if order == [] then []
    else if order[|order| - 1] in gone then Retain(order[..|order| - 1], gone)
    else Retain(order[..|order| - 1], gone) + [order[|order| - 1]]
  }

  /** Removes the first occurrence. */
  function RemoveFirst(order: seq<DocumentId>, id: DocumentId): seq<DocumentId> {
    if order == [] then []
    else if order[0] == id then order[1..]
    else [order[0]] + RemoveFirst(order[1..], id)
  }

  predicate Distinct(order: seq<DocumentId>) {
    forall i, j :: 0 <= i < j < |order| ==> order[i] != order[j]
  }

  lemma {:induction false} RetainKeeps(order: seq<DocumentId>, gone: set<DocumentId>)
    ensures forall id :: id in Retain(order, gone) <==> id in order && id !in gone
    ensures Distinct(order) ==> Distinct(Retain(order, gone))
  {
    if order != [] {
      RetainKeeps(order[..|order| - 1], gone);
      assert order == order[..|order| - 1] + [order[|order| - 1]];
    }
  }

  lemma {:induction false} RetainTwice(order: seq<DocumentId>, a: set<DocumentId>, b: set<DocumentId>)
    ensures Retain(Retain(order, a), b) == Retain(order, a + b)
  {
    if order != [] {
      var (front, last) := (order[..|order| - 1], order[|order| - 1]);
      RetainTwice(front, a, b);
      if last !in a {
        assert (Retain(front, a) + [last])[..|Retain(front, a)|] == Retain(front, a);
      }
    }
  }

  lemma {:induction false} RetainAll(order: seq<DocumentId>, gone: set<DocumentId>)
    requires forall id :: id in gone ==> id !in order
    ensures Retain(order, gone) == order
  {
    if order != [] {
      RetainAll(order[..|order| - 1], gone);
      assert order == order[..|order| - 1] + [order[|order| - 1]];
    }
  }

  lemma {:induction false} RemoveFirstIsRetain(order: seq<DocumentId>, id: DocumentId)
    requires Distinct(order)
    ensures RemoveFirst(order, id) == Retain(order, {id})
    decreases |order|
  {
    if order != [] {
      assert order == [order[0]] + order[1..];
      RetainSplit([order[0]], order[1..], {id});
      assert Retain([order[0]], {id}) == if order[0] == id then [] else [order[0]];
      if order[0] == id {
        RetainAll(order[1..], {id});
      } else {
        RemoveFirstIsRetain(order[1..], id);
      }
    }
  }

  lemma {:induction false} RetainSplit(a: seq<DocumentId>, b: seq<DocumentId>, gone: set<DocumentId>)
    ensures Retain(a + b, gone) == Retain(a, gone) + Retain(b, gone)
    decreases |b|
  {
    if b == [] {
      assert a + b == a;
    } else {
      assert (a + b)[..|a + b| - 1] == a + b[..|b| - 1];
      RetainSplit(a, b[..|b| - 1], gone);
    }
  }

  function Members(order: seq<DocumentId>): set<DocumentId> {
    set id | id in order
  }

  lemma {:induction false} DistinctSize(order: seq<DocumentId>)
    requires Distinct(order)
    ensures |Members(order)| == |order|
  {
    if order != [] {
      var (front, last) := (order[..|order| - 1], order[|order| - 1]);
      DistinctSize(front);
      assert Members(order) == Members(front) + {last};
      assert last !in front;
    }
  }

  // The operations

  function Get(b: Buffer, limits: Limits, id: DocumentId, now: nat): (Buffer, Option<Text>) {
    if id !in b.entries then (b, None)
    else
      var e := b.entries[id];
      if Expired(e, now, limits.ttl)
      then (Buffer(b.entries - {id}, Retain(b.order, {id})), None)
      else
        var touched := e.(accessCount := e.accessCount + 1);
        (Buffer(b.entries[id := touched], RemoveFirst(b.order, id) + [id]), Some(e.text))
  }

  /** How many documents `put` evicts, given those it may evict. */
  function Evicted(size: nat, maxSize: nat, candidates: nat): (n: nat)
    ensures n <= candidates
  {
    if size < maxSize then 0
    else if size - maxSize + 1 < candidates then size - maxSize + 1
    else candidates
  }

  function Put(b: Buffer, limits: Limits, id: DocumentId, text: Text, now: nat): Buffer {
    var others := if id in b.entries then Retain(b.order, {id}) else b.order;
    var n := Evicted(|b.entries|, limits.maxSize, |others|);
    Buffer((b.entries - Members(others[..n]))[id := CachedText(text, now, 0)], others[n..] + [id])
  }

  function ExpiredIds(b: Buffer, limits: Limits, now: nat): set<DocumentId> {
    set id | id in b.entries && Expired(b.entries[id], now, limits.ttl)
  }

  function CleanupExpired(b: Buffer, limits: Limits, now: nat): Buffer {
    Buffer(b.entries - ExpiredIds(b, limits, now), Retain(b.order, ExpiredIds(b, limits, now)))
  }

  // The invariant

  /** The order lists each of the documents once. */
  ghost predicate Covers(ids: set<DocumentId>, order: seq<DocumentId>) {
    Distinct(order) && forall id :: id in order <==> id in ids
  }

  ghost predicate Consistent(b: Buffer, limits: Limits) {
    Covers(b.entries.Keys, b.order) && |b.entries.Keys| <= Max(limits.maxSize, 1)
  }

  lemma CoversSize(ids: set<DocumentId>, order: seq<DocumentId>)
    requires Covers(ids, order)
    ensures |ids| == |order|
  {
    DistinctSize(order);
    assert Members(order) == ids;
  }

  lemma CoversDrop(ids: set<DocumentId>, order: seq<DocumentId>, gone: set<DocumentId>)
    requires Covers(ids, order)
    ensures Covers(ids - gone, Retain(order, gone))
    ensures gone !! ids ==> Retain(order, gone) == order
  {
    RetainKeeps(order, gone);
    if gone !! ids {
      RetainAll(order, gone);
    }
  }

  lemma CoversAdd(ids: set<DocumentId>, order: seq<DocumentId>, id: DocumentId)
    requires Covers(ids, order) && id !in ids
    ensures Covers(ids + {id}, order + [id])
  {
  }

  lemma CoversEvict(ids: set<DocumentId>, order: seq<DocumentId>, n: nat)
    requires Covers(ids, order) && n <= |order|
    ensures Covers(ids - Members(order[..n]), order[n..])
  {
    assert order == order[..n] + order[n..];
    forall i | n <= i < |order|
      ensures order[i] !in Members(order[..n])
    {
    }
  }

  lemma CoversMove(ids: set<DocumentId>, order: seq<DocumentId>, id: DocumentId)
    requires Covers(ids, order) && id in ids
    ensures Covers(ids, RemoveFirst(order, id) + [id])
  {
    CoversDrop(ids, order, {id});
    RemoveFirstIsRetain(order, id);
    CoversAdd(ids - {id}, Retain(order, {id}), id);
    assert ids - {id} + {id} == ids;
  }

  lemma GetIsConsistent(b: Buffer, limits: Limits, id: DocumentId, now: nat)
    requires Consistent(b, limits)
    ensures Consistent(Get(b, limits, id, now).0, limits)
  {
    if id in b.entries {
      var r := Get(b, limits, id, now).0;
      if Expired(b.entries[id], now, limits.ttl) {
        CoversDrop(b.entries.Keys, b.order, {id});
        assert r.entries.Keys == b.entries.Keys - {id};
      } else {
        CoversMove(b.entries.Keys, b.order, id);
        assert r.entries.Keys == b.entries.Keys;
      }
    }
  }

  /** Putting evicts the first `n` of the other documents in order of access. */
  ghost predicate Puts(b: Buffer, id: DocumentId, new_: CachedText, others: seq<DocumentId>, n: nat, r: Buffer) {
    && n <= |others| && others == Retain(b.order, {id}) && Covers(b.entries.Keys - {id}, others)
    && r.order == others[n..] + [id]
    && r.entries == (b.entries - Members(others[..n]))[id := new_]
  }

  lemma PutPuts(b: Buffer, limits: Limits, id: DocumentId, text: Text, now: nat)
      returns (others: seq<DocumentId>, n: nat)
    requires Consistent(b, limits)
    ensures Puts(b, id, CachedText(text, now, 0), others, n, Put(b, limits, id, text, now))
    ensures |others| == |b.entries.Keys| - if id in b.entries then 1 else 0
    ensures n == Evicted(|b.entries.Keys|, limits.maxSize, |others|)
  {
    others := Retain(b.order, {id});
    n := Evicted(|b.entries.Keys|, limits.maxSize, |others|);
    CoversDrop(b.entries.Keys, b.order, {id});
    CoversSize(b.entries.Keys - {id}, others);
  }

  lemma PutsCovers(b: Buffer, id: DocumentId, new_: CachedText, others: seq<DocumentId>, n: nat, r: Buffer)
    requires Puts(b, id, new_, others, n, r)
    ensures Covers(r.entries.Keys, r.order) && |r.entries.Keys| == |others| - n + 1
  {
    var kept := b.entries.Keys - {id} - Members(others[..n]);
    CoversEvict(b.entries.Keys - {id}, others, n);
    CoversAdd(kept, others[n..], id);
    assert r.entries.Keys == kept + {id};
    CoversSize(r.entries.Keys, r.order);
  }

  lemma PutIsConsistent(b: Buffer, limits: Limits, id: DocumentId, text: Text, now: nat)
    requires Consistent(b, limits)
    ensures Consistent(Put(b, limits, id, text, now), limits)
  {
    var others, n := PutPuts(b, limits, id, text, now);
    PutsCovers(b, id, CachedText(text, now, 0), others, n, Put(b, limits, id, text, now));
  }

  lemma CleanupIsConsistent(b: Buffer, limits: Limits, now: nat)
    requires Consistent(b, limits)
    ensures Consistent(CleanupExpired(b, limits, now), limits)
  {
    var gone := ExpiredIds(b, limits, now);
    CoversDrop(b.entries.Keys, b.order, gone);
    assert (b.entries - gone).Keys == b.entries.Keys - gone;
    SubsetSize(b.entries.Keys - gone, b.entries.Keys);
  }

  lemma SubsetSize(a: set<DocumentId>, b: set<DocumentId>)
    requires a <= b
    ensures |a| <= |b|
  {
    assert b == a + (b - a);
  }

  // Runs

  datatype Op =
    | PutOp(id: DocumentId, text: Text, now: nat)
    | GetOp(id: DocumentId, now: nat)
    | CleanupOp(now: nat)
    | ClearOp

  /** The buffer, with the last text put for each document, its time, and when each document was last used. */
  datatype Tracked = Tracked(buffer: Buffer, put: map<DocumentId, (Text, nat)>, used: map<DocumentId, nat>, steps: nat)

  const EMPTY: Buffer := Buffer(map[], [])

  function Step(limits: Limits, t: Tracked, op: Op): Tracked {
    match op
    case PutOp(id, text, now) =>
      Tracked(Put(t.buffer, limits, id, text, now), t.put[id := (text, now)], t.used[id := t.steps], t.steps + 1)
    case GetOp(id, now) =>
      var (buffer, text) := Get(t.buffer, limits, id, now);
      Tracked(buffer, t.put, if text.Some? then t.used[id := t.steps] else t.used, t.steps + 1)
    case CleanupOp(now) => t.(buffer := CleanupExpired(t.buffer, limits, now), steps := t.steps + 1)
    case ClearOp => t.(buffer := EMPTY, steps := t.steps + 1)
  }

  function Run(limits: Limits, ops: seq<Op>): Tracked {
    if ops == [] then Tracked(EMPTY, map[], map[], 0)
    else Step(limits, Run(limits, ops[..|ops| - 1]), ops[|ops| - 1])
  }

  /** Buffered texts are the last ones put. */
  ghost predicate Fresh(entries: map<DocumentId, CachedText>, put: map<DocumentId, (Text, nat)>) {
    forall id :: id in entries ==> id in put && put[id] == (entries[id].text, entries[id].createdAt)
  }

  /** The access order goes from the least to the most recently used. */
  ghost predicate ByUse(order: seq<DocumentId>, used: map<DocumentId, nat>, steps: nat) {
    && (forall i :: 0 <= i < |order| ==> order[i] in used && used[order[i]] < steps)
    && (forall i, j :: 0 <= i < j < |order| ==> used[order[i]] < used[order[j]])
  }

  ghost predicate Inv(limits: Limits, t: Tracked) {
    && Consistent(t.buffer, limits) && Fresh(t.buffer.entries, t.put)
    && ByUse(t.buffer.order, t.used, t.steps)
  }

  lemma {:induction false} ByUseRetain(order: seq<DocumentId>, gone: set<DocumentId>, used: map<DocumentId, nat>,
                                       steps: nat)
    requires ByUse(order, used, steps)
    ensures ByUse(Retain(order, gone), used, steps)
  {
    if order != [] {
      var (front, last) := (order[..|order| - 1], order[|order| - 1]);
      ByUseRetain(front, gone, used, steps);
      RetainKeeps(front, gone);
      assert forall id :: id in front ==> used[id] < used[last];
    }
  }

  lemma ByUseAppend(order: seq<DocumentId>, id: DocumentId, used: map<DocumentId, nat>, steps: nat)
    requires ByUse(order, used, steps) && id !in order
    ensures ByUse(order + [id], used[id := steps], steps + 1)
  {
  }

  lemma ByUseTouch(order: seq<DocumentId>, id: DocumentId, used: map<DocumentId, nat>, steps: nat)
    requires ByUse(order, used, steps) && Distinct(order)
    ensures ByUse(RemoveFirst(order, id) + [id], used[id := steps], steps + 1)
  {
    ByUseRetain(order, {id}, used, steps);
    RemoveFirstIsRetain(order, id);
    RetainKeeps(order, {id});
    ByUseAppend(Retain(order, {id}), id, used, steps);
  }

  lemma GetKeepsInv(limits: Limits, t: Tracked, id: DocumentId, now: nat)
    requires Inv(limits, t)
    ensures Inv(limits, Step(limits, t, GetOp(id, now)))
  {
    var b := t.buffer;
    GetIsConsistent(b, limits, id, now);
    if id in b.entries {
      if Expired(b.entries[id], now, limits.ttl) {
        ByUseRetain(b.order, {id}, t.used, t.steps);
      } else {
        ByUseTouch(b.order, id, t.used, t.steps);
      }
    }
  }

  lemma PutsByUse(b: Buffer, id: DocumentId, new_: CachedText, others: seq<DocumentId>, n: nat, r: Buffer,
                  used: map<DocumentId, nat>, steps: nat)
    requires Puts(b, id, new_, others, n, r) && ByUse(b.order, used, steps)
    ensures ByUse(r.order, used[id := steps], steps + 1)
  {
    ByUseRetain(b.order, {id}, used, steps);
    ByUseAppend(others[n..], id, used, steps);
  }

  lemma PutsFresh(b: Buffer, id: DocumentId, new_: CachedText, others: seq<DocumentId>, n: nat, r: Buffer,
                  put: map<DocumentId, (Text, nat)>)
    requires Puts(b, id, new_, others, n, r) && Fresh(b.entries, put)
    ensures Fresh(r.entries, put[id := (new_.text, new_.createdAt)])
  {
  }

  lemma PutKeepsInv(limits: Limits, t: Tracked, id: DocumentId, text: Text, now: nat)
    requires Inv(limits, t)
    ensures Inv(limits, Step(limits, t, PutOp(id, text, now)))
  {
    var others, n := PutPuts(t.buffer, limits, id, text, now);
    var (new_, r) := (CachedText(text, now, 0), Put(t.buffer, limits, id, text, now));
    PutIsConsistent(t.buffer, limits, id, text, now);
    PutsByUse(t.buffer, id, new_, others, n, r, t.used, t.steps);
    PutsFresh(t.buffer, id, new_, others, n, r, t.put);
  }

  lemma StepKeepsInv(limits: Limits, t: Tracked, op: Op)
    requires Inv(limits, t)
    ensures Inv(limits, Step(limits, t, op))
  {
    match op
    case PutOp(id, text, now) => PutKeepsInv(limits, t, id, text, now);
    case GetOp(id, now) => GetKeepsInv(limits, t, id, now);
    case CleanupOp(now) =>
      CleanupIsConsistent(t.buffer, limits, now);
      ByUseRetain(t.buffer.order, ExpiredIds(t.buffer, limits, now), t.used, t.steps);
    case ClearOp =>
  }

  /**
   * In every reachable state the access order lists exactly the buffered documents, each once and in order of use,
   * the size respects the bound, and each text is the last one put for its document.
   */
  lemma {:induction false} RunKeepsInv(limits: Limits, ops: seq<Op>)
    ensures Inv(limits, Run(limits, ops))
  {
    if ops != [] {
      RunKeepsInv(limits, ops[..|ops| - 1]);
      StepKeepsInv(limits, Run(limits, ops[..|ops| - 1]), ops[|ops| - 1]);
    }
  }

  /** A hit returns the last text put for the document, which has not expired. */
  lemma HitIsLastPut(limits: Limits, ops: seq<Op>, id: DocumentId, now: nat)
    ensures var t := Run(limits, ops);
            var hit := Get(t.buffer, limits, id, now).1;
            hit.Some? ==> id in t.put && hit.value == t.put[id].0
                          && !(t.put[id].1 <= now && now - t.put[id].1 > limits.ttl)
  {
    RunKeepsInv(limits, ops);
  }

  /**
   * `put` makes the document readable, leaves the entries it does not evict as they are, and evicts only documents
   * used less recently than every other one it keeps.
   */
  lemma PutEvictsLeastRecentlyUsed(limits: Limits, ops: seq<Op>, id: DocumentId, text: Text, now: nat)
    ensures var t := Run(limits, ops);
            var r := Put(t.buffer, limits, id, text, now);
            && Get(r, limits, id, now).1 == Some(text)
            && KeepsTheRest(t.buffer, id, r) && EvictsByUse(t.buffer, id, r, t.used)
  {
    RunKeepsInv(limits, ops);
    var t := Run(limits, ops);
    var others, n := PutPuts(t.buffer, limits, id, text, now);
    var r := Put(t.buffer, limits, id, text, now);
    PutsEvicts(t.buffer, id, CachedText(text, now, 0), others, n, r, t.used, t.steps);
  }

  ghost predicate KeepsTheRest(b: Buffer, id: DocumentId, r: Buffer) {
    forall kept :: kept in r.entries && kept != id ==> kept in b.entries && r.entries[kept] == b.entries[kept]
  }

  ghost predicate EvictsByUse(b: Buffer, id: DocumentId, r: Buffer, used: map<DocumentId, nat>) {
    forall gone, kept :: gone in b.entries && gone !in r.entries && kept in r.entries && kept != id ==>
      gone in used && kept in used && used[gone] < used[kept]
  }

  lemma PutsEvicts(b: Buffer, id: DocumentId, new_: CachedText, others: seq<DocumentId>, n: nat, r: Buffer,
                   used: map<DocumentId, nat>, steps: nat)
    requires Puts(b, id, new_, others, n, r) && ByUse(b.order, used, steps)
    ensures r.entries[id] == new_ && KeepsTheRest(b, id, r) && EvictsByUse(b, id, r, used)
  {
    ByUseRetain(b.order, {id}, used, steps);
    forall gone, kept | gone in b.entries && gone !in r.entries && kept in r.entries && kept != id
      ensures gone in used && kept in used && used[gone] < used[kept]
    {
      assert gone in others && kept in others;
      var i :| 0 <= i < n && others[i] == gone;
      var j :| 0 <= j < |others| && others[j] == kept;
      assert i < n <= j;
    }
  }

  lemma PutsEvictsMany(b: Buffer, id: DocumentId, new_: CachedText, others: seq<DocumentId>, n: nat, r: Buffer)
    requires Puts(b, id, new_, others, n, r)
    ensures |b.entries.Keys - r.entries.Keys| == n
  {
    var gone := Members(others[..n]);
    DistinctSize(others[..n]);
    assert forall other :: other in gone ==> other in others;
    assert b.entries.Keys - r.entries.Keys == gone;
  }

  /** How many documents `put` evicts from a buffer that keeps its invariant. */
  lemma PutEvictsExactly(b: Buffer, limits: Limits, id: DocumentId, text: Text, now: nat)
    requires Consistent(b, limits) && limits.maxSize >= 1
    ensures |b.entries.Keys - Put(b, limits, id, text, now).entries.Keys|
         == if |b.entries.Keys| < limits.maxSize || b.entries.Keys == {id} then 0 else 1
  {
    var others, n := PutPuts(b, limits, id, text, now);
    PutsEvictsMany(b, id, CachedText(text, now, 0), others, n, Put(b, limits, id, text, now));
    OnlyMember(b.entries.Keys, id);
  }

  lemma OnlyMember(ids: set<DocumentId>, id: DocumentId)
    ensures ids == {id} <==> id in ids && |ids| == 1
  {
    if id in ids {
      assert ids == {id} + (ids - {id});
    }
  }

  // How long a text stays

  /** Least recently used of all buffered documents but `put`. */
  ghost predicate Oldest(t: Tracked, id: DocumentId, put: DocumentId) {
    && id in t.buffer.entries && id in t.used
    && forall other :: other in t.buffer.entries && other != id && other != put ==>
         other in t.used && t.used[id] < t.used[other]
  }

  lemma OldestIsFirst(t: Tracked, id: DocumentId, put: DocumentId, others: seq<DocumentId>)
    requires Covers(t.buffer.entries.Keys - {put}, others) && ByUse(others, t.used, t.steps) && id != put
    requires id in t.buffer.entries
    ensures others != [] && (Oldest(t, id, put) <==> others[0] == id)
  {
    assert id in others;
    var i :| 0 <= i < |others| && others[i] == id;
    if i > 0 {
      assert others[0] in others;
    } else {
      forall other | other in t.buffer.entries && other != id && other != put
        ensures other in t.used && t.used[id] < t.used[other]
      {
        assert other in others;
      }
    }
  }

  /** A put evicts a document if and only if the buffer is full and it is the least recently used of the others. */
  lemma EvictedExactly(limits: Limits, t: Tracked, put: DocumentId, text: Text, now: nat, id: DocumentId)
    requires Inv(limits, t) && limits.maxSize >= 1 && id in t.buffer.entries && id != put
    ensures id !in Put(t.buffer, limits, put, text, now).entries
       <==> |t.buffer.entries.Keys| >= limits.maxSize && Oldest(t, id, put)
  {
    var others, n := PutPuts(t.buffer, limits, put, text, now);
    ByUseRetain(t.buffer.order, {put}, t.used, t.steps);
    OldestIsFirst(t, id, put, others);
    assert n == if |t.buffer.entries.Keys| >= limits.maxSize then 1 else 0;
    assert n == 1 ==> others[..1] == [others[0]];
    assert id !in Put(t.buffer, limits, put, text, now).entries <==> id in others[..n];
  }

  /**
   * What an operation leaves in a buffer of a reached state: a text goes when the buffer is cleared, when it is
   * found to have expired, or when it is the least recently used one as another is put into a full buffer.
   */
  lemma BufferedExactly(limits: Limits, ops: seq<Op>, op: Op, id: DocumentId)
    requires limits.maxSize >= 1
    ensures var t := Run(limits, ops);
            id in Step(limits, t, op).buffer.entries <==>
              match op
              case PutOp(put, _, _) =>
                id == put
                || (id in t.buffer.entries && !(|t.buffer.entries.Keys| >= limits.maxSize && Oldest(t, id, put)))
              case GetOp(got, now) =>
                id in t.buffer.entries && id in t.put && !(got == id && now > t.put[id].1 + limits.ttl)
              case CleanupOp(now) => id in t.buffer.entries && id in t.put && now <= t.put[id].1 + limits.ttl
              case ClearOp => false
  {
    RunKeepsInv(limits, ops);
    var t := Run(limits, ops);
    if op.PutOp? {
      PutEvictsLeastRecentlyUsed(limits, ops, op.id, op.text, op.now);
      if id in t.buffer.entries && id != op.id {
        EvictedExactly(limits, t, op.id, op.text, op.now, id);
      }
    }
  }

  /**
   * A reached buffer serves exactly the texts it holds that are not older than the time to live, and counts each
   * time it does.
   */
  lemma HitExactly(limits: Limits, ops: seq<Op>, id: DocumentId, now: nat)
    ensures var t := Run(limits, ops); var (b, text) := Get(t.buffer, limits, id, now);
            && text == (if id in t.buffer.entries && id in t.put && now <= t.put[id].1 + limits.ttl
                        then Some(t.put[id].0) else None)
            && (text.Some? ==>
                  && id in t.buffer.entries && id in b.entries
                  && b.entries[id].accessCount == t.buffer.entries[id].accessCount + 1)
  {
    RunKeepsInv(limits, ops);
  }

  /** The documents that the operations put or ask for. */
  function Users(ops: seq<Op>): set<DocumentId> {
    if ops == [] then {}
    else
      var op := ops[|ops| - 1];
      Users(ops[..|ops| - 1]) + if op.PutOp? || op.GetOp? then {op.id} else {}
  }

  /** The operation neither replaces nor clears the text, nor comes when it has expired. */
  predicate LeavesAlone(limits: Limits, op: Op, id: DocumentId, time: nat) {
    match op
    case PutOp(put, _, _) => put != id
    case GetOp(got, now) => got != id || now <= time + limits.ttl
    case CleanupOp(now) => now <= time + limits.ttl
    case ClearOp => false
  }

  /** The text is buffered, and only the users have been used since. */
  ghost predicate Stays(t: Tracked, id: DocumentId, text: Text, time: nat, users: set<DocumentId>) {
    && id in t.buffer.entries && id in t.put && t.put[id] == (text, time) && id in t.used
    && forall other :: other in t.buffer.entries && other != id && other !in users ==>
         other in t.used && t.used[other] < t.used[id]
  }

  lemma StaysStep(limits: Limits, ops: seq<Op>, op: Op, id: DocumentId, text: Text, time: nat,
                  users: set<DocumentId>, more: set<DocumentId>)
    requires limits.maxSize >= 1 && LeavesAlone(limits, op, id, time)
    requires Stays(Run(limits, ops), id, text, time, users)
    requires more == users + (if op.PutOp? || op.GetOp? then {op.id} else {}) && |more - {id}| + 2 <= limits.maxSize
    ensures Stays(Step(limits, Run(limits, ops), op), id, text, time, more)
  {
    var t := Run(limits, ops);
    RunKeepsInv(limits, ops);
    BufferedExactly(limits, ops, op, id);
    if op.PutOp? && Oldest(t, id, op.id) {
      assert t.buffer.entries.Keys <= {id} + (more - {id});
      SubsetSize(t.buffer.entries.Keys, {id} + (more - {id}));
    }
    forall other | other in Step(limits, t, op).buffer.entries && other != id && other !in more
      ensures other in t.buffer.entries
    {
      BufferedExactly(limits, ops, op, other);
    }
  }

  lemma RunNext(limits: Limits, ops: seq<Op>, op: Op)
    ensures Run(limits, ops + [op]) == Step(limits, Run(limits, ops), op)
  {
    assert (ops + [op])[..|ops|] == ops;
  }

  lemma StaysAfterPut(limits: Limits, before: seq<Op>, id: DocumentId, text: Text, time: nat)
    ensures Stays(Run(limits, before + [PutOp(id, text, time)]), id, text, time, {})
  {
    RunNext(limits, before, PutOp(id, text, time));
    RunKeepsInv(limits, before);
    RunKeepsInv(limits, before + [PutOp(id, text, time)]);
    var t, r := Run(limits, before), Run(limits, before + [PutOp(id, text, time)]);
    PutEvictsLeastRecentlyUsed(limits, before, id, text, time);
    assert r.put[id] == (text, time) && r.used[id] == t.steps;
    forall other | other in r.buffer.entries && other != id
      ensures other in r.used && r.used[other] < r.used[id]
    {
      assert other in t.buffer.entries && other in t.buffer.order;
    }
  }

  lemma UsersNext(ops: seq<Op>, op: Op, id: DocumentId)
    ensures Users(ops + [op]) == Users(ops) + if op.PutOp? || op.GetOp? then {op.id} else {}
    ensures |Users(ops) - {id}| <= |Users(ops + [op]) - {id}|
  {
    assert (ops + [op])[..|ops|] == ops;
    SubsetSize(Users(ops) - {id}, Users(ops + [op]) - {id});
  }

  lemma RunMore(limits: Limits, ops: seq<Op>, front: seq<Op>, op: Op)
    ensures Run(limits, ops + (front + [op])) == Step(limits, Run(limits, ops + front), op)
  {
    RunNext(limits, ops + front, op);
    assert ops + (front + [op]) == (ops + front) + [op];
  }

  lemma StaysNext(limits: Limits, ops: seq<Op>, front: seq<Op>, op: Op, id: DocumentId, text: Text, time: nat,
                  users: set<DocumentId>, more: set<DocumentId>, r: Tracked)
    requires LeavesAlone(limits, op, id, time) && Stays(Run(limits, ops + front), id, text, time, users)
    requires users == Users(front) && more == Users(front + [op]) && |more - {id}| + 2 <= limits.maxSize
    requires r == Run(limits, ops + (front + [op]))
    ensures Stays(r, id, text, time, more)
  {
    UsersNext(front, op, id);
    StaysStep(limits, ops + front, op, id, text, time, users, more);
    RunMore(limits, ops, front, op);
  }

  lemma {:induction false} StaysDuring(limits: Limits, ops: seq<Op>, id: DocumentId, text: Text, time: nat,
                                       after: seq<Op>)
    requires Stays(Run(limits, ops), id, text, time, {})
    requires forall op :: op in after ==> LeavesAlone(limits, op, id, time)
    requires |Users(after) - {id}| + 2 <= limits.maxSize
    ensures Stays(Run(limits, ops + after), id, text, time, Users(after))
  {
    if after == [] {
      assert ops + after == ops;
    } else {
      var (front, last) := (after[..|after| - 1], after[|after| - 1]);
      assert after == front + [last];
      UsersNext(front, last, id);
      StaysDuring(limits, ops, id, text, time, front);
      StaysNext(limits, ops, front, last, id, text, time, Users(front), Users(after), Run(limits, ops + after));
    }
  }

  /**
   * A text that was put stays readable until it expires, as long as at least two fewer other documents are used
   * after it than the buffer holds: one place is its own, and one text may go because another is put again.
   */
  lemma TextStaysBuffered(limits: Limits, before: seq<Op>, id: DocumentId, text: Text, time: nat, after: seq<Op>,
                          now: nat)
    requires forall op :: op in after ==> LeavesAlone(limits, op, id, time)
    requires |Users(after) - {id}| + 2 <= limits.maxSize && now <= time + limits.ttl
    ensures Get(Run(limits, before + [PutOp(id, text, time)] + after).buffer, limits, id, now).1 == Some(text)
  {
    var put := before + [PutOp(id, text, time)];
    StaysAfterPut(limits, before, id, text, time);
    StaysDuring(limits, put, id, text, time, after);
    HitExactly(limits, put + after, id, now);
  }

  /** Putting a document again evicts another one exactly when the buffer is full and holds more than that document. */
  lemma PutAgainEvictsAnother(b: Buffer, limits: Limits, id: DocumentId, text: Text, now: nat)
    requires Consistent(b, limits) && limits.maxSize >= 1 && id in b.entries
    ensures (exists other :: other in b.entries && other !in Put(b, limits, id, text, now).entries)
       <==> |b.entries.Keys| == limits.maxSize && limits.maxSize > 1
  {
    PutEvictsExactly(b, limits, id, text, now);
    OnlyMember(b.entries.Keys, id);
    SomeMissing(b.entries, Put(b, limits, id, text, now).entries);
  }

  lemma SomeMissing(a: map<DocumentId, CachedText>, b: map<DocumentId, CachedText>)
    ensures |a.Keys - b.Keys| > 0 <==> exists other :: other in a && other !in b
  {
    var gone := a.Keys - b.Keys;
    assert forall other :: other in gone <==> other in a && other !in b;
    if gone == {} {
      assert |gone| == 0;
    } else {
      var other :| other in gone;
      assert |gone - {other}| == |gone| - 1;
    }
  }

  /** What is left after the first `i` of the candidates have been evicted. */
  function LeftOver(before: map<DocumentId, CachedText>, others: seq<DocumentId>, i: nat): map<DocumentId, CachedText>
    requires i <= |others|
  {
    before - Members(others[..i])
  }

  lemma EvictFirst(before: map<DocumentId, CachedText>, others: seq<DocumentId>)
    ensures LeftOver(before, others, 0) == before
  {
    assert Members(others[..0]) == {};
  }

  lemma EvictNext(before: map<DocumentId, CachedText>, others: seq<DocumentId>, i: nat,
                  left: map<DocumentId, CachedText>)
    requires Distinct(others) && i < |others| && others[i] in before && left == LeftOver(before, others, i)
    ensures left - {others[i]} == LeftOver(before, others, i + 1)
    ensures |left - {others[i]}| == |left| - 1
  {
    assert Members(others[..i + 1]) == Members(others[..i]) + {others[i]};
    assert left.Keys == (left - {others[i]}).Keys + {others[i]};
  }
}
