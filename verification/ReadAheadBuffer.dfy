/** The read-ahead buffer, changed in place. */
module ReadAheadBuffers {
  import opened Outcomes
  import opened TextFormat
  import opened Utf8
  import opened ReadAhead

  class ReadAheadBuffer {
    var entries: map<DocumentId, CachedText>
    var accessOrder: seq<DocumentId>
    const limits: Limits

    ghost predicate Valid()
      reads this
    {
      Consistent(State(), limits)
    }

    function State(): Buffer
      reads this
    {
      Buffer(entries, accessOrder)
    }

    constructor (maxSize: nat, ttl: nat)
      ensures Valid() && State() == EMPTY && limits == Limits(maxSize, ttl)
    {
      entries, accessOrder := map[], [];
      limits := Limits(maxSize, ttl);
    }

    method Get(id: DocumentId, now: nat) returns (text: Option<Text>)
      requires Valid()
      modifies this
      ensures Valid() && (State(), text) == ReadAhead.Get(old(State()), limits, id, now)
    {
      GetIsConsistent(State(), limits, id, now);
      if id !in entries {
        return None;
      }
      var entry := entries[id];
      if Expired(entry, now, limits.ttl) {
        entries := entries - {id};
        accessOrder := Retain(accessOrder, {id});
        return None;
      }
      entries := entries[id := entry.(accessCount := entry.accessCount + 1)];
      accessOrder := RemoveFirst(accessOrder, id);
      accessOrder := accessOrder + [id];
      return Some(entry.text);
    }

    method Put(id: DocumentId, text: Text, now: nat)
      requires Valid()
      modifies this
      ensures Valid() && State() == ReadAhead.Put(old(State()), limits, id, text, now)
    {
      PutIsConsistent(State(), limits, id, text, now);
      CoversDrop(entries.Keys, accessOrder, {id});
      if id in entries {
        accessOrder := Retain(accessOrder, {id});
      }
      EvictAtCapacity();
      entries := entries[id := CachedText(text, now, 0)];
      accessOrder := accessOrder + [id];
    }

    /** Evicts documents from the front of the access order until there is room for one more, if there are any. */
    method EvictAtCapacity()
      requires Distinct(accessOrder) && forall id :: id in accessOrder ==> id in entries
      modifies this
      ensures var n := Evicted(|old(entries)|, limits.maxSize, |old(accessOrder)|);
              && accessOrder == old(accessOrder)[n..]
              && entries == LeftOver(old(entries), old(accessOrder), n)
    {
      ghost var others, before := accessOrder, entries;
      ghost var i: nat := 0;
      EvictFirst(before, others);
      while |entries| >= limits.maxSize
        invariant i <= |others| && accessOrder == others[i..] && entries == LeftOver(before, others, i)
        invariant |entries| == |before| - i && i <= Evicted(|before|, limits.maxSize, |others|)
        decreases |accessOrder|
      {
        if accessOrder == [] {
          break;
        }
        EvictOldest(before, others, i);
        i := i + 1;
      }
    }

    method EvictOldest(ghost before: map<DocumentId, CachedText>, ghost others: seq<DocumentId>, ghost i: nat)
      requires Distinct(others) && i < |others| && others[i] in before
      requires accessOrder == others[i..] && entries == LeftOver(before, others, i)
      modifies this
      ensures accessOrder == others[i + 1..] && entries == LeftOver(before, others, i + 1)
      ensures |entries| == |old(entries)| - 1
    {
      EvictNext(before, others, i, entries);
      entries := entries - {accessOrder[0]};
      accessOrder := accessOrder[1..];
    }

    method CleanupExpired(now: nat) returns (removed: nat)
      requires Valid()
      modifies this
      ensures Valid() && State() == ReadAhead.CleanupExpired(old(State()), limits, now)
      ensures removed == |ExpiredIds(old(State()), limits, now)|
    {
      CleanupIsConsistent(State(), limits, now);
      var originalLength := |entries|;
      var expired := ExpiredIds(State(), limits, now);
      RemoveAll(expired);
      assert old(entries).Keys == entries.Keys + expired;
      return originalLength - |entries|;
    }

    method RemoveAll(ids: set<DocumentId>)
      modifies this
      ensures entries == old(entries) - ids && accessOrder == Retain(old(accessOrder), ids)
    {
      var todo := ids;
      RetainAll(accessOrder, {});
      assert ids - todo == {};
      while todo != {}
        invariant todo <= ids
        invariant entries == old(entries) - (ids - todo)
        invariant accessOrder == Retain(old(accessOrder), ids - todo)
        decreases todo
      {
        var id :| id in todo;
        RetainTwice(old(accessOrder), ids - todo, {id});
        assert ids - (todo - {id}) == (ids - todo) + {id};
        entries := entries - {id};
        accessOrder := Retain(accessOrder, {id});
        todo := todo - {id};
      }
      assert ids - todo == ids;
    }

    method Clear()
      modifies this
      ensures Valid() && State() == EMPTY
    {
      entries, accessOrder := map[], [];
    }
  }
}
