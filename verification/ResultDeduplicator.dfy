/** The result deduplicator, whose seen sets and statistics persist across calls. */
module ResultDeduplicators {
  import opened Sorting
  import opened Deduplication

  function DocumentKey(): SearchResult -> nat {
    (r: SearchResult) => r.doc
  }

  /** The values list the best results of the documents outside `rest`. */
  ghost predicate Collected(values: Results, best: map<nat, SearchResult>, rest: set<nat>) {
    && |values| == |best| - |rest| && DistinctKeys(values, DocumentKey())
    && forall r :: r in values <==> r.doc in best.Keys - rest && best[r.doc] == r
  }

  lemma CollectMore(values: Results, best: map<nat, SearchResult>, rest: set<nat>, doc: nat)
    requires Collected(values, best, rest) && doc in rest && rest <= best.Keys && best[doc].doc == doc
    ensures Collected(values + [best[doc]], best, rest - {doc})
  {
  }

  lemma {:induction false} BestIsFiledUnderItsDocument(results: Results)
    ensures forall doc :: doc in Best(results) ==> Best(results)[doc].doc == doc
  {
    if results != [] {
      BestIsFiledUnderItsDocument(results[..|results| - 1]);
    }
  }

  lemma {:induction false} BestIsSmall(results: Results)
    ensures |Best(results)| <= |results|
  {
    if results != [] {
      BestIsSmall(results[..|results| - 1]);
    }
  }

  lemma SortedCollection(results: Results, values: Results, out: Results)
    requires Collected(values, Best(results), {}) && out == SortByScore(values)
    ensures BestPerDocument(results, out) && |out| <= |results|
  {
    SortByIsStableSort(values, Descending());
    PermutationKeepsDistinctKeys(values, out, DocumentKey());
    assert forall r :: r in out <==> r in multiset(out);
    assert forall r :: r in values <==> r in multiset(values);
    BestIsSmall(results);
  }

  class ResultDeduplicator {
    const policy: Policy
    var seenPostings: set<(nat, nat)>
    var seenExact: set<nat>
    var totalProcessed: nat
    var duplicatesRemoved: nat
    var uniqueResults: nat

    function State(): DedupState
      reads this
    {
      DedupState(seenPostings, seenExact, totalProcessed, duplicatesRemoved, uniqueResults)
    }

    constructor (policy: Policy)
      ensures this.policy == policy && State() == INITIAL
    {
      this.policy := policy;
      seenPostings, seenExact := {}, {};
      totalProcessed, duplicatesRemoved, uniqueResults := 0, 0, 0;
    }

    method Deduplicate(hash: Hash, results: Results) returns (unique: Results)
      modifies this
      ensures Call(policy, hash, old(State()), results, unique, State())
      ensures !policy.NoPolicy? ==> forall i, j :: 0 <= i < j < |unique| ==> unique[i].score >= unique[j].score
    {
      ghost var before := State();
      match policy {
        case NoPolicy => unique := results;
        case ByDocumentId => unique := DeduplicateByDocumentId(results);
        case ByDocumentAndPosition => unique := DeduplicateByPosition(results);
        case Exact => unique := DeduplicateExact(hash, results);
      }
      totalProcessed := totalProcessed + |results|;
      uniqueResults := uniqueResults + |unique|;
      duplicatesRemoved := duplicatesRemoved + (|results| - |unique|);
      if policy != NoPolicy {
        CallReturnsBestFirst(policy, hash, before, results, unique, State());
      }
    }

    method DeduplicateByDocumentId(results: Results) returns (unique: Results)
      ensures BestPerDocument(results, unique) && |unique| <= |results|
    {
      var best: map<nat, SearchResult> := map[];
      for i := 0 to |results|
        invariant best == Best(results[..i])
      {
        assert results[..i + 1][..i] == results[..i];
        var result := results[i];
        if result.doc !in best || result.score > best[result.doc].score {
          best := best[result.doc := result];
        }
      }
      assert results[..|results|] == results;
      BestIsFiledUnderItsDocument(results);
      unique := [];
      var docs := best.Keys;
      while docs != {}
        invariant docs <= best.Keys && Collected(unique, best, docs)
        decreases docs
      {
        var doc :| doc in docs;
        CollectMore(unique, best, docs, doc);
        unique := unique + [best[doc]];
        docs := docs - {doc};
      }
      SortedCollection(results, unique, SortByScore(unique));
      unique := SortByScore(unique);
    }

    method DeduplicateByPosition(results: Results) returns (unique: Results)
      modifies this`seenPostings
      ensures unique == SortByScore(KeepNew(results, PositionKey(), old(seenPostings)))
      ensures seenPostings == old(seenPostings) + KeysOf(results, PositionKey())
    {
      unique, seenPostings := KeepUnseen(results, PositionKey(), seenPostings);
      unique := SortByScore(unique);
    }

    method DeduplicateExact(hash: Hash, results: Results) returns (unique: Results)
      modifies this`seenExact
      ensures unique == SortByScore(KeepNew(results, Fingerprint(hash), old(seenExact)))
      ensures seenExact == old(seenExact) + KeysOf(results, Fingerprint(hash))
    {
      unique, seenExact := KeepUnseen(results, Fingerprint(hash), seenExact);
      unique := SortByScore(unique);
    }

    /** The loop that the two policies share, over their own keys. */
    static method KeepUnseen<K(==)>(results: Results, key: SearchResult -> K, seen: set<K>)
        returns (unique: Results, now: set<K>)
      ensures unique == KeepNew(results, key, seen)
      ensures now == seen + KeysOf(results, key)
    {
      unique, now := [], seen;
      assert results[0..] == results && seen + KeysOf(results[..0], key) == seen;
      for i := 0 to |results|
        invariant KeepNew(results, key, seen) == unique + KeepNew(results[i..], key, now)
        invariant now == seen + KeysOf(results[..i], key)
      {
        var k := key(results[i]);
        assert results[i..][1..] == results[i + 1..];
        assert results[..i + 1] == results[..i] + [results[i]];
        KeysOfMore(results[..i], results[i], key);
        if k !in now {
          now := now + {k};
          unique := unique + [results[i]];
        }
      }
      assert results[..|results|] == results && unique + [] == unique;
    }
  }
}
