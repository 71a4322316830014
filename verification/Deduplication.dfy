/** Deduplication of search results under four policies, over series of calls. */
module Deduplication {
  import opened Sorting

  datatype SearchResult = SearchResult(doc: nat, start: nat, length: nat, score: real, vector: seq<real>)

  datatype Policy = NoPolicy | ByDocumentId | ByDocumentAndPosition | Exact

  type Results = seq<SearchResult>

  function Position(r: SearchResult): (nat, nat) {
    (r.doc, r.start)
  }

  function Descending(): SearchResult -> real {
    (r: SearchResult) => -r.score
  }

  function SortByScore(results: Results): Results {
    SortBy(results, Descending())
  }

  // Keeping what has not been seen

  /** The results whose keys are new, in order. */
  function KeepNew<K>(results: Results, key: SearchResult -> K, seen: set<K>): (kept: Results)
    ensures |kept| <= |results|
  {
    if results == [] then []
    else if key(results[0]) in seen then KeepNew(results[1..], key, seen)
    else [results[0]] + KeepNew(results[1..], key, seen + {key(results[0])})
  }

  function KeysOf<K>(results: Results, key: SearchResult -> K): set<K> {
    set r | r in results :: key(r)
  }

  /** No earlier result has the same key. */
  predicate IsFirst<K(==)>(results: Results, key: SearchResult -> K, i: nat)
    requires i < |results|
  {
    forall j :: 0 <= j < i ==> key(results[j]) != key(results[i])
  }

  /** The first result for each key, in order. */
  function Firsts<K(==)>(results: Results, key: SearchResult -> K): Results {
    if results == [] then []
    else
      var front := results[..|results| - 1];
      if IsFirst(results, key, |results| - 1) then Firsts(front, key) + [results[|results| - 1]] else Firsts(front, key)
  }

  predicate DistinctKeys<K(==)>(results: Results, key: SearchResult -> K) {
    forall i, j :: 0 <= i < j < |results| ==> key(results[i]) != key(results[j])
  }

  lemma {:induction false} KeepNewConcat<K>(a: Results, b: Results, key: SearchResult -> K, seen: set<K>)
    ensures KeepNew(a + b, key, seen) == KeepNew(a, key, seen) + KeepNew(b, key, seen + KeysOf(a, key))
    decreases |a|
  {
    if a == [] {
      assert a + b == b && seen + KeysOf(a, key) == seen;
    } else {
      assert a == [a[0]] + a[1..];
      assert (a + b)[1..] == a[1..] + b;
      var now := if key(a[0]) in seen then seen else seen + {key(a[0])};
      KeepNewConcat(a[1..], b, key, now);
      assert now + KeysOf(a[1..], key) == seen + KeysOf(a, key);
    }
  }

  /** What is kept of everything together is the first result for each key. */
  lemma {:induction false} KeepNewIsFirsts<K>(results: Results, key: SearchResult -> K)
    ensures KeepNew(results, key, {}) == Firsts(results, key)
  {
    if results != [] {
      var (front, last) := (results[..|results| - 1], results[|results| - 1]);
      KeepNewIsFirsts(front, key);
      assert results == front + [last];
      KeepNewConcat(front, [last], key, {});
      assert {} + KeysOf(front, key) == KeysOf(front, key);
      assert KeepNew([last], key, KeysOf(front, key)) == if key(last) in KeysOf(front, key) then [] else [last];
      assert key(last) in KeysOf(front, key) <==> !IsFirst(results, key, |results| - 1);
    }
  }

  lemma KeysOfMore<K>(results: Results, r: SearchResult, key: SearchResult -> K)
    ensures KeysOf(results + [r], key) == KeysOf(results, key) + {key(r)}
  {
    assert forall s :: s in results + [r] <==> s in results || s == r;
  }

  lemma {:induction false} FirstsAreDistinct<K>(results: Results, key: SearchResult -> K)
    ensures DistinctKeys(Firsts(results, key), key)
    ensures KeysOf(Firsts(results, key), key) == KeysOf(results, key)
  {
    if results != [] {
      var (front, last) := (results[..|results| - 1], results[|results| - 1]);
      FirstsAreDistinct(front, key);
      assert results == front + [last];
      KeysOfMore(front, last, key);
      KeysOfMore(Firsts(front, key), last, key);
      assert key(last) in KeysOf(front, key) <==> !IsFirst(results, key, |results| - 1);
      forall i | 0 <= i < |Firsts(front, key)|
        ensures key(Firsts(front, key)[i]) in KeysOf(front, key)
      {
        assert key(Firsts(front, key)[i]) in KeysOf(Firsts(front, key), key);
      }
    }
  }

  lemma {:induction false} FirstsExactly<K>(results: Results, key: SearchResult -> K, r: SearchResult)
    ensures r in Firsts(results, key) <==>
              exists p :: 0 <= p < |results| && results[p] == r && forall k :: 0 <= k < p ==> key(results[k]) != key(r)
  {
    if results != [] {
      var (front, last) := (results[..|results| - 1], results[|results| - 1]);
      FirstsExactly(front, key, r);
      assert forall p :: 0 <= p < |front| ==> results[p] == front[p];
      if IsFirst(results, key, |front|) && last == r {
        assert results[|front|] == r;
      }
    }
  }

  /** A kept result is the first of its key, and that is new. */
  lemma {:induction false} KeptFrom<K>(results: Results, key: SearchResult -> K, seen: set<K>, i: nat)
      returns (p: nat)
    requires i < |KeepNew(results, key, seen)|
    ensures p < |results| && results[p] == KeepNew(results, key, seen)[i]
    ensures IsFirst(results, key, p) && key(results[p]) !in seen
    decreases |results|
  {
    if key(results[0]) in seen {
      p := KeptFrom(results[1..], key, seen, i);
      FirstOfRest(results, key, p);
      p := p + 1;
    } else if i > 0 {
      p := KeptFrom(results[1..], key, seen + {key(results[0])}, i - 1);
      FirstOfRest(results, key, p);
      p := p + 1;
    } else {
      p := 0;
    }
  }

  lemma FirstOfRest<K>(results: Results, key: SearchResult -> K, p: nat)
    requires p + 1 < |results| && IsFirst(results[1..], key, p) && key(results[0]) != key(results[p + 1])
    ensures IsFirst(results, key, p + 1)
  {
    forall k | 0 <= k < p + 1
      ensures key(results[k]) != key(results[p + 1])
    {
      assert k > 0 ==> results[k] == results[1..][k - 1];
    }
  }

  lemma {:induction false} KeptInOrder<K>(results: Results, key: SearchResult -> K, seen: set<K>, i: nat, j: nat)
      returns (p: nat, q: nat)
    requires i < j < |KeepNew(results, key, seen)|
    ensures p < q < |results| && IsFirst(results, key, p) && IsFirst(results, key, q)
    ensures results[p] == KeepNew(results, key, seen)[i] && results[q] == KeepNew(results, key, seen)[j]
    decreases |results|
  {
    if key(results[0]) in seen {
      var _ := KeptFrom(results[1..], key, seen, i);
      var _ := KeptFrom(results[1..], key, seen, j);
      p, q := KeptInOrder(results[1..], key, seen, i, j);
      FirstOfRest(results, key, p);
      FirstOfRest(results, key, q);
      p, q := p + 1, q + 1;
    } else {
      var now := seen + {key(results[0])};
      var _ := KeptFrom(results[1..], key, now, j - 1);
      if i > 0 {
        var _ := KeptFrom(results[1..], key, now, i - 1);
        p, q := KeptInOrder(results[1..], key, now, i - 1, j - 1);
        FirstOfRest(results, key, p);
        FirstOfRest(results, key, q);
        p, q := p + 1, q + 1;
      } else {
        q := KeptFrom(results[1..], key, now, j - 1);
        FirstOfRest(results, key, q);
        p, q := 0, q + 1;
      }
    }
  }

  // Keeping the best result of each document

  /** The best result so far for each document; a later one replaces it only with a strictly higher score. */
  function Best(results: Results): map<nat, SearchResult> {
    if results == [] then map[]
    else
      var (best, r) := (Best(results[..|results| - 1]), results[|results| - 1]);
      if r.doc !in best || r.score > best[r.doc].score then best[r.doc := r] else best
  }

  /** The result is the first of the highest-scoring ones of its document. */
  ghost predicate IsBest(results: Results, i: nat)
    requires i < |results|
  {
    && (forall j :: 0 <= j < |results| && results[j].doc == results[i].doc ==> results[j].score <= results[i].score)
    && (forall j :: 0 <= j < i && results[j].doc == results[i].doc ==> results[j].score < results[i].score)
  }

  /** One result per document, namely the first of its highest-scoring ones. */
  lemma {:induction false} BestIsBest(results: Results, doc: nat) returns (i: nat)
    ensures doc in Best(results) <==> exists r :: r in results && r.doc == doc
    ensures doc in Best(results) ==>
              i < |results| && results[i] == Best(results)[doc] && results[i].doc == doc && IsBest(results, i)
  {
    i := 0;
    if results != [] {
      var (front, last) := (results[..|results| - 1], results[|results| - 1]);
      i := BestIsBest(front, doc);
      assert results == front + [last];
      if last.doc == doc && (doc !in Best(front) || last.score > Best(front)[doc].score) {
        i := |results| - 1;
        forall j | 0 <= j < i && results[j].doc == doc
          ensures results[j].score < last.score
        {
          assert front[j] in front;
        }
      } else if doc in Best(front) {
        assert results[i] == front[i];
        forall j | 0 <= j < |results| && results[j].doc == doc
          ensures results[j].score <= results[i].score
        {
          if j < |front| {
            assert results[j] == front[j];
          }
        }
        assert forall j :: 0 <= j < i ==> results[j] == front[j];
      }
    }
  }

  /** The output lists the best result of each document, highest scores first. */
  ghost predicate BestPerDocument(results: Results, out: Results) {
    && Ascending(out, Descending()) && DistinctKeys(out, (r: SearchResult) => r.doc)
    && |out| == |Best(results)|
    && forall r :: r in out <==> r.doc in Best(results) && Best(results)[r.doc] == r
  }

  // One call

  datatype DedupState = DedupState(
    seenPostings: set<(nat, nat)>, seenExact: set<nat>, processed: nat, removed: nat, unique: nat)

  const INITIAL: DedupState := DedupState({}, {}, 0, 0, 0)

  /** Rounds to the nearest integer, halves away from zero. */
  function Round(x: real): int {
    if x >= 0.0 then (x + 0.5).Floor else -((0.5 - x).Floor)
  }

  function Quantized(vector: seq<real>): (r: seq<int>)
    ensures |r| == |vector|
  {
    seq(|vector|, i requires 0 <= i < |vector| => Round(vector[i] * 1000000.0))
  }

  /** A number rounds to the integer it is closest to, and one half-way between two to the one farther from zero. */
  lemma RoundExactly(x: real, n: int)
    ensures Round(x) == n <==>
              if n > 0 then n as real - 0.5 <= x < n as real + 0.5
              else if n < 0 then n as real - 0.5 < x <= n as real + 0.5
              else -0.5 < x < 0.5
  {
  }

  /** The hash is a deterministic function of document, start, length and quantised vector. */
  type Hash = (nat, nat, nat, seq<int>) -> nat

  function Fingerprint(hash: Hash): SearchResult -> nat {
    (r: SearchResult) => hash(r.doc, r.start, r.length, Quantized(r.vector))
  }

  function PositionKey(): SearchResult -> (nat, nat) {
    (r: SearchResult) => Position(r)
  }

  function Record(s: DedupState, processed: nat, unique: nat): DedupState
    requires unique <= processed
  {
    s.(processed := s.processed + processed, unique := s.unique + unique, removed := s.removed + (processed - unique))
  }

  /** What one call to `deduplicate` may return, and the state it leaves. */
  ghost predicate Call(policy: Policy, hash: Hash, s: DedupState, results: Results, out: Results, r: DedupState) {
    && |out| <= |results|
    && match policy
       case NoPolicy => out == results && r == Record(s, |results|, |out|)
       case ByDocumentId => BestPerDocument(results, out) && r == Record(s, |results|, |out|)
       case ByDocumentAndPosition =>
         && out == SortByScore(KeepNew(results, PositionKey(), s.seenPostings))
         && r == Record(s.(seenPostings := s.seenPostings + KeysOf(results, PositionKey())), |results|, |out|)
       case Exact =>
         && out == SortByScore(KeepNew(results, Fingerprint(hash), s.seenExact))
         && r == Record(s.(seenExact := s.seenExact + KeysOf(results, Fingerprint(hash))), |results|, |out|)
  }

  /** Whatever is deduplicated, the best scores come first. */
  lemma CallReturnsBestFirst(policy: Policy, hash: Hash, s: DedupState, results: Results, out: Results, r: DedupState)
    requires Call(policy, hash, s, results, out, r) && !policy.NoPolicy?
    ensures forall i, j :: 0 <= i < j < |out| ==> out[i].score >= out[j].score
  {
    match policy {
      case ByDocumentId =>
      case ByDocumentAndPosition => SortByIsStableSort(KeepNew(results, PositionKey(), s.seenPostings), Descending());
      case Exact => SortByIsStableSort(KeepNew(results, Fingerprint(hash), s.seenExact), Descending());
    }
    assert Ascending(out, Descending());
    forall i, j | 0 <= i < j < |out|
      ensures out[i].score >= out[j].score
    {
      assert Descending()(out[i]) <= Descending()(out[j]);
    }
  }

  /** The results at two places of the output are the first ones of their keys in the input, in the same order. */
  ghost predicate ComeInOrder<K(!new)>(results: Results, key: SearchResult -> K, a: SearchResult, b: SearchResult) {
    exists p, q :: 0 <= p < q < |results| && results[p] == a && results[q] == b
                   && IsFirst(results, key, p) && IsFirst(results, key, q)
  }

  lemma TiesInOrder<K(!new)>(results: Results, key: SearchResult -> K, seen: set<K>, out: Results, i: nat, j: nat)
    requires out == SortByScore(KeepNew(results, key, seen)) && i < j < |out| && out[i].score == out[j].score
    ensures ComeInOrder(results, key, out[i], out[j])
  {
    var p, q := SortByTies(KeepNew(results, key, seen), Descending(), i, j);
    p, q := KeptInOrder(results, key, seen, p, q);
  }

  /** Under the two policies that remember what they have seen, equal scores stay in input order. */
  lemma EqualScoresKeepInputOrder(policy: Policy, hash: Hash, s: DedupState, results: Results, out: Results,
                                  r: DedupState, i: nat, j: nat)
    requires Call(policy, hash, s, results, out, r) && (policy.ByDocumentAndPosition? || policy.Exact?)
    requires i < j < |out| && out[i].score == out[j].score
    ensures policy.ByDocumentAndPosition? ==>
              ComeInOrder(results, (x: SearchResult) => (x.doc, x.start), out[i], out[j])
    ensures policy.Exact? ==>
              ComeInOrder(results, (x: SearchResult) => hash(x.doc, x.start, x.length, Quantized(x.vector)),
                          out[i], out[j])
  {
    if policy.Exact? {
      TiesInOrder(results, Fingerprint(hash), s.seenExact, out, i, j);
      SameOrder(results, Fingerprint(hash), (x: SearchResult) => hash(x.doc, x.start, x.length, Quantized(x.vector)),
                out[i], out[j]);
    } else {
      TiesInOrder(results, PositionKey(), s.seenPostings, out, i, j);
      SameOrder(results, PositionKey(), (x: SearchResult) => (x.doc, x.start), out[i], out[j]);
    }
  }

  lemma SameOrder<K(!new)>(results: Results, key: SearchResult -> K, same: SearchResult -> K, a: SearchResult,
                           b: SearchResult)
    requires ComeInOrder(results, key, a, b) && forall r :: key(r) == same(r)
    ensures ComeInOrder(results, same, a, b)
  {
    var p, q :| 0 <= p < q < |results| && results[p] == a && results[q] == b
                && IsFirst(results, key, p) && IsFirst(results, key, q);
    assert IsFirst(results, same, p) && IsFirst(results, same, q);
  }

  // Series of calls

  datatype Exchange = Exchange(input: Results, output: Results)

  ghost predicate Series(policy: Policy, hash: Hash, calls: seq<Exchange>, states: seq<DedupState>) {
    && |states| == |calls| + 1 && states[0] == INITIAL
    && forall i {:trigger calls[i]} :: 0 <= i < |calls| ==>
         Call(policy, hash, states[i], calls[i].input, calls[i].output, states[i + 1])
  }

  function Inputs(calls: seq<Exchange>): Results {
    if calls == [] then [] else Inputs(calls[..|calls| - 1]) + calls[|calls| - 1].input
  }

  function Outputs(calls: seq<Exchange>): Results {
    if calls == [] then [] else Outputs(calls[..|calls| - 1]) + calls[|calls| - 1].output
  }

  lemma SeriesFront(policy: Policy, hash: Hash, calls: seq<Exchange>, states: seq<DedupState>)
    requires Series(policy, hash, calls, states) && calls != []
    ensures Series(policy, hash, calls[..|calls| - 1], states[..|calls|])
    ensures var n := |calls| - 1; Call(policy, hash, states[n], calls[n].input, calls[n].output, states[n + 1])
  {
    assert forall i :: 0 <= i < |calls| - 1 ==> calls[..|calls| - 1][i] == calls[i];
  }

  /**
   * Over any series of calls under any policy, what was processed is what was returned plus what was removed, and
   * both are counted exactly. Without a policy everything is returned as it came.
   */
  lemma {:induction false} ProcessedIsUniquePlusRemoved(policy: Policy, hash: Hash, calls: seq<Exchange>,
                                                        states: seq<DedupState>)
    requires Series(policy, hash, calls, states)
    ensures var s := states[|calls|];
            && s.processed == s.unique + s.removed
            && s.processed == |Inputs(calls)| && s.unique == |Outputs(calls)|
            && (policy.NoPolicy? ==> Outputs(calls) == Inputs(calls))
    decreases |calls|
  {
    if calls != [] {
      SeriesFront(policy, hash, calls, states);
      ProcessedIsUniquePlusRemoved(policy, hash, calls[..|calls| - 1], states[..|calls|]);
    }
  }

  /** Each output is sorted and keeps, of its input, the results whose keys no earlier call has seen. */
  ghost predicate Keyed<K(!new)>(calls: seq<Exchange>, key: SearchResult -> K)
    decreases |calls|
  {
    calls != [] ==>
      var (front, last) := (calls[..|calls| - 1], calls[|calls| - 1]);
      Keyed(front, key) && last.output == SortByScore(KeepNew(last.input, key, KeysOf(Inputs(front), key)))
  }

  lemma {:induction false} KeyedKeepsFirsts<K(!new)>(calls: seq<Exchange>, key: SearchResult -> K)
    requires Keyed(calls, key)
    ensures multiset(Outputs(calls)) == multiset(KeepNew(Inputs(calls), key, {}))
    decreases |calls|
  {
    if calls != [] {
      var (front, last) := (calls[..|calls| - 1], calls[|calls| - 1]);
      KeyedKeepsFirsts(front, key);
      KeepNewConcat(Inputs(front), last.input, key, {});
      assert {} + KeysOf(Inputs(front), key) == KeysOf(Inputs(front), key);
      SortByIsStableSort(KeepNew(last.input, key, KeysOf(Inputs(front), key)), Descending());
    }
  }

  lemma KeysOfConcat<K>(a: Results, b: Results, key: SearchResult -> K)
    ensures KeysOf(a + b, key) == KeysOf(a, key) + KeysOf(b, key)
  {
    assert forall r :: r in a + b <==> r in a || r in b;
  }

  lemma PositionCall(hash: Hash, s: DedupState, call: Exchange, r: DedupState, seen: set<(nat, nat)>)
    requires Call(ByDocumentAndPosition, hash, s, call.input, call.output, r) && s.seenPostings == seen
    ensures call.output == SortByScore(KeepNew(call.input, PositionKey(), seen))
    ensures r.seenPostings == seen + KeysOf(call.input, PositionKey())
  {
  }

  lemma {:induction false} PositionSeriesIsKeyed(hash: Hash, calls: seq<Exchange>, states: seq<DedupState>)
    requires Series(ByDocumentAndPosition, hash, calls, states)
    ensures Keyed(calls, PositionKey())
    ensures states[|calls|].seenPostings == KeysOf(Inputs(calls), PositionKey())
    decreases |calls|
  {
    if calls != [] {
      var (front, last) := (calls[..|calls| - 1], calls[|calls| - 1]);
      SeriesFront(ByDocumentAndPosition, hash, calls, states);
      PositionSeriesIsKeyed(hash, front, states[..|calls|]);
      PositionCall(hash, states[|calls| - 1], last, states[|calls|], KeysOf(Inputs(front), PositionKey()));
      KeysOfConcat(Inputs(front), last.input, PositionKey());
    }
  }

  lemma ExactCall(hash: Hash, s: DedupState, call: Exchange, r: DedupState, seen: set<nat>)
    requires Call(Exact, hash, s, call.input, call.output, r) && s.seenExact == seen
    ensures call.output == SortByScore(KeepNew(call.input, Fingerprint(hash), seen))
    ensures r.seenExact == seen + KeysOf(call.input, Fingerprint(hash))
  {
  }

  lemma {:induction false} ExactSeriesIsKeyed(hash: Hash, calls: seq<Exchange>, states: seq<DedupState>)
    requires Series(Exact, hash, calls, states)
    ensures Keyed(calls, Fingerprint(hash))
    ensures states[|calls|].seenExact == KeysOf(Inputs(calls), Fingerprint(hash))
    decreases |calls|
  {
    if calls != [] {
      var (front, last) := (calls[..|calls| - 1], calls[|calls| - 1]);
      SeriesFront(Exact, hash, calls, states);
      ExactSeriesIsKeyed(hash, front, states[..|calls|]);
      ExactCall(hash, states[|calls| - 1], last, states[|calls|], KeysOf(Inputs(front), Fingerprint(hash)));
      KeysOfConcat(Inputs(front), last.input, Fingerprint(hash));
    }
  }

  lemma {:induction false} DistinctKeysCount<K>(s: Results, key: SearchResult -> K, r: SearchResult)
    requires DistinctKeys(s, key)
    ensures multiset(s)[r] <= 1
  {
    if s != [] {
      var (front, last) := (s[..|s| - 1], s[|s| - 1]);
      DistinctKeysCount(front, key, r);
      assert s == front + [last];
      if last == r {
        assert r !in front;
        assert r !in multiset(front);
      }
    }
  }

  lemma CountTwice(s: Results, i: nat, j: nat)
    requires i < j < |s| && s[i] == s[j]
    ensures multiset(s)[s[i]] >= 2
  {
    assert s == s[..j] + ([s[j]] + s[j + 1..]);
    assert s[..j][i] == s[i];
    assert s[i] in multiset(s[..j]);
    assert multiset(s) == multiset(s[..j]) + (multiset{s[j]} + multiset(s[j + 1..]));
  }

  lemma PermutationKeepsDistinctKeys<K>(s: Results, t: Results, key: SearchResult -> K)
    requires DistinctKeys(s, key) && multiset(s) == multiset(t)
    ensures DistinctKeys(t, key)
  {
    forall i, j | 0 <= i < j < |t|
      ensures key(t[i]) != key(t[j])
    {
      assert t[i] in multiset(s) && t[j] in multiset(s);
      if t[i] == t[j] {
        CountTwice(t, i, j);
        DistinctKeysCount(s, key, t[i]);
        assert false;
      }
      var k :| 0 <= k < |s| && s[k] == t[i];
      var l :| 0 <= l < |s| && s[l] == t[j];
      assert k != l;
    }
  }

  lemma KeyedNeverRepeats<K(!new)>(calls: seq<Exchange>, key: SearchResult -> K)
    requires Keyed(calls, key)
    ensures DistinctKeys(Outputs(calls), key)
    ensures multiset(Outputs(calls)) == multiset(Firsts(Inputs(calls), key))
  {
    KeyedKeepsFirsts(calls, key);
    KeepNewIsFirsts(Inputs(calls), key);
    FirstsAreDistinct(Inputs(calls), key);
    PermutationKeepsDistinctKeys(Firsts(Inputs(calls), key), Outputs(calls), key);
  }

  lemma PermutationKeepsMembers(a: Results, b: Results)
    requires multiset(a) == multiset(b)
    ensures forall r :: r in a <==> r in b
  {
    forall r
      ensures r in a <==> r in b
    {
      assert r in a <==> r in multiset(a);
      assert r in b <==> r in multiset(b);
    }
  }

  /** The result is the first one for its document and start. */
  lemma FirstPosition(results: Results, r: SearchResult)
    ensures r in Firsts(results, PositionKey()) <==>
              exists p :: 0 <= p < |results| && results[p] == r
                          && forall k :: 0 <= k < p ==> results[k].doc != r.doc || results[k].start != r.start
  {
    FirstsExactly(results, PositionKey(), r);
    if p :| 0 <= p < |results| && results[p] == r
            && forall k :: 0 <= k < p ==> results[k].doc != r.doc || results[k].start != r.start {
      assert forall k :: 0 <= k < p ==> PositionKey()(results[k]) != PositionKey()(r);
    }
    if p :| 0 <= p < |results| && results[p] == r
            && forall k :: 0 <= k < p ==> PositionKey()(results[k]) != PositionKey()(r) {
      forall k | 0 <= k < p
        ensures results[k].doc != r.doc || results[k].start != r.start
      {
        assert PositionKey()(results[k]) != PositionKey()(r);
      }
    }
  }

  lemma PositionsDiffer(results: Results)
    requires DistinctKeys(results, PositionKey())
    ensures forall i, j :: 0 <= i < j < |results| ==>
              results[i].doc != results[j].doc || results[i].start != results[j].start
  {
    forall i, j | 0 <= i < j < |results|
      ensures results[i].doc != results[j].doc || results[i].start != results[j].start
    {
      assert PositionKey()(results[i]) != PositionKey()(results[j]);
    }
  }

  /**
   * Over a whole series of by-position calls no (document, start) pair is returned twice, and what is returned is
   * the first result for each pair among all inputs.
   */
  lemma PositionsNeverRepeat(hash: Hash, calls: seq<Exchange>, states: seq<DedupState>)
    requires Series(ByDocumentAndPosition, hash, calls, states)
    ensures var outs := Outputs(calls);
            forall i, j :: 0 <= i < j < |outs| ==> outs[i].doc != outs[j].doc || outs[i].start != outs[j].start
    ensures var ins := Inputs(calls);
            forall r :: r in Outputs(calls) <==>
              exists p :: 0 <= p < |ins| && ins[p] == r
                          && forall k :: 0 <= k < p ==> ins[k].doc != r.doc || ins[k].start != r.start
  {
    PositionSeriesIsKeyed(hash, calls, states);
    KeyedNeverRepeats(calls, PositionKey());
    PositionsDiffer(Outputs(calls));
    PermutationKeepsMembers(Outputs(calls), Firsts(Inputs(calls), PositionKey()));
    FirstPositions(Inputs(calls));
  }

  lemma FirstPositions(ins: Results)
    ensures forall r :: r in Firsts(ins, PositionKey()) <==>
              exists p :: 0 <= p < |ins| && ins[p] == r
                          && forall k :: 0 <= k < p ==> ins[k].doc != r.doc || ins[k].start != r.start
  {
    forall r
      ensures r in Firsts(ins, PositionKey()) <==>
                exists p :: 0 <= p < |ins| && ins[p] == r
                            && forall k :: 0 <= k < p ==> ins[k].doc != r.doc || ins[k].start != r.start
    {
      FirstPosition(ins, r);
    }
  }

  /** Each call returns, of its input, what no earlier call has seen. */
  lemma CallsReturnTheirShare(hash: Hash, calls: seq<Exchange>, states: seq<DedupState>, i: nat)
    requires i < |calls|
    ensures Series(ByDocumentAndPosition, hash, calls, states) ==>
              multiset(calls[i].output)
              == multiset(KeepNew(calls[i].input, PositionKey(), KeysOf(Inputs(calls[..i]), PositionKey())))
    ensures Series(Exact, hash, calls, states) ==>
              multiset(calls[i].output)
              == multiset(KeepNew(calls[i].input, Fingerprint(hash), KeysOf(Inputs(calls[..i]), Fingerprint(hash))))
  {
    if Series(ByDocumentAndPosition, hash, calls, states) {
      SeriesUpTo(ByDocumentAndPosition, hash, calls, states, i);
      PositionSeriesIsKeyed(hash, calls[..i], states[..i + 1]);
      PositionCall(hash, states[i], calls[i], states[i + 1], states[i].seenPostings);
      SortByIsStableSort(KeepNew(calls[i].input, PositionKey(), states[i].seenPostings), Descending());
    }
    if Series(Exact, hash, calls, states) {
      SeriesUpTo(Exact, hash, calls, states, i);
      ExactSeriesIsKeyed(hash, calls[..i], states[..i + 1]);
      ExactCall(hash, states[i], calls[i], states[i + 1], states[i].seenExact);
      SortByIsStableSort(KeepNew(calls[i].input, Fingerprint(hash), states[i].seenExact), Descending());
    }
  }

  lemma SeriesUpTo(policy: Policy, hash: Hash, calls: seq<Exchange>, states: seq<DedupState>, i: nat)
    requires Series(policy, hash, calls, states) && i <= |calls|
    ensures Series(policy, hash, calls[..i], states[..i + 1])
  {
    assert forall k :: 0 <= k < i ==> calls[..i][k] == calls[k];
  }

  /** The same over a series of exact calls, for the fingerprints of the results. */
  lemma FingerprintsNeverRepeat(hash: Hash, calls: seq<Exchange>, states: seq<DedupState>)
    requires Series(Exact, hash, calls, states)
    ensures DistinctKeys(Outputs(calls), Fingerprint(hash))
    ensures multiset(Outputs(calls)) == multiset(Firsts(Inputs(calls), Fingerprint(hash)))
    ensures forall r :: r in Outputs(calls) <==>
              exists p :: 0 <= p < |Inputs(calls)| && Inputs(calls)[p] == r
                          && forall k :: 0 <= k < p ==> Fingerprint(hash)(Inputs(calls)[k]) != Fingerprint(hash)(r)
  {
    ExactSeriesIsKeyed(hash, calls, states);
    KeyedNeverRepeats(calls, Fingerprint(hash));
    PermutationKeepsMembers(Outputs(calls), Firsts(Inputs(calls), Fingerprint(hash)));
    forall r
      ensures r in Firsts(Inputs(calls), Fingerprint(hash)) <==>
                exists p :: 0 <= p < |Inputs(calls)| && Inputs(calls)[p] == r
                            && forall k :: 0 <= k < p ==> Fingerprint(hash)(Inputs(calls)[k]) != Fingerprint(hash)(r)
    {
      FirstsExactly(Inputs(calls), Fingerprint(hash), r);
    }
  }

  // What the exact policy takes for the same result

  /** What the fingerprint is computed from. */
  function Identity(): SearchResult -> (nat, nat, nat, seq<int>) {
    (r: SearchResult) => (r.doc, r.start, r.length, Quantized(r.vector))
  }

  /** The hash tells apart all results that differ in document, start, length or quantised vector. */
  ghost predicate NoCollision(hash: Hash, results: Results) {
    forall r, q :: r in results && q in results && Fingerprint(hash)(r) == Fingerprint(hash)(q) ==>
      Identity()(r) == Identity()(q)
  }

  lemma SameIdentity(hash: Hash, r: SearchResult, q: SearchResult)
    requires Identity()(r) == Identity()(q)
    ensures Fingerprint(hash)(r) == Fingerprint(hash)(q)
  {
  }

  lemma {:induction false} FirstsWithoutCollision(hash: Hash, results: Results)
    requires NoCollision(hash, results)
    ensures Firsts(results, Fingerprint(hash)) == Firsts(results, Identity())
  {
    if results != [] {
      var n := |results| - 1;
      FirstsWithoutCollision(hash, results[..n]);
      forall j | 0 <= j < n
        ensures Fingerprint(hash)(results[j]) == Fingerprint(hash)(results[n])
           <==> Identity()(results[j]) == Identity()(results[n])
      {
        if Identity()(results[j]) == Identity()(results[n]) {
          SameIdentity(hash, results[j], results[n]);
        }
      }
    }
  }

  lemma KeysOfPermutation<K>(a: Results, b: Results, key: SearchResult -> K)
    requires multiset(a) == multiset(b)
    ensures KeysOf(a, key) == KeysOf(b, key)
  {
    assert forall r :: r in a <==> r in multiset(a);
    assert forall r :: r in b <==> r in multiset(b);
  }

  /** Returned results with the same fingerprint are the same. */
  lemma NoCollisionAmongDistinct(hash: Hash, inputs: Results, outputs: Results)
    requires DistinctKeys(outputs, Fingerprint(hash)) && KeysOf(outputs, Identity()) == KeysOf(inputs, Identity())
    ensures NoCollision(hash, inputs)
  {
    forall r, q | r in inputs && q in inputs && Fingerprint(hash)(r) == Fingerprint(hash)(q)
      ensures Identity()(r) == Identity()(q)
    {
      assert Identity()(r) in KeysOf(outputs, Identity()) && Identity()(q) in KeysOf(outputs, Identity());
      var r1 :| r1 in outputs && Identity()(r1) == Identity()(r);
      var q1 :| q1 in outputs && Identity()(q1) == Identity()(q);
      SameIdentity(hash, r1, r);
      SameIdentity(hash, q1, q);
      var i :| 0 <= i < |outputs| && outputs[i] == r1;
      var j :| 0 <= j < |outputs| && outputs[j] == q1;
      assert i == j;
    }
  }

  /**
   * Over a series of exact calls, every document, start, length and quantised vector of the inputs is represented
   * in the outputs if and only if the hash does not collide on the inputs; then what is returned is the first
   * result for each of them.
   */
  lemma ExactLosesNothingExactly(hash: Hash, calls: seq<Exchange>, states: seq<DedupState>)
    requires Series(Exact, hash, calls, states)
    ensures KeysOf(Outputs(calls), Identity()) == KeysOf(Inputs(calls), Identity())
       <==> NoCollision(hash, Inputs(calls))
    ensures NoCollision(hash, Inputs(calls)) ==>
              multiset(Outputs(calls)) == multiset(Firsts(Inputs(calls), Identity()))
  {
    FingerprintsNeverRepeat(hash, calls, states);
    if NoCollision(hash, Inputs(calls)) {
      FirstsWithoutCollision(hash, Inputs(calls));
      FirstsAreDistinct(Inputs(calls), Identity());
      KeysOfPermutation(Outputs(calls), Firsts(Inputs(calls), Identity()), Identity());
    } else if KeysOf(Outputs(calls), Identity()) == KeysOf(Inputs(calls), Identity()) {
      NoCollisionAmongDistinct(hash, Inputs(calls), Outputs(calls));
    }
  }

  /** Components that are whole millionths are told apart. */
  lemma MillionthsAreExact(v: seq<real>, i: nat, n: int)
    requires i < |v| && v[i] == n as real / 1000000.0
    ensures Quantized(v)[i] == n
  {
    assert v[i] * 1000000.0 == n as real;
    RoundExactly(n as real, n);
  }

  lemma SameQuantization(v: seq<real>, w: seq<real>, i: nat)
    requires Quantized(v) == Quantized(w) && i < |v|
    ensures |v| == |w| && -0.000001 < v[i] - w[i] < 0.000001
  {
    assert |Quantized(v)| == |Quantized(w)|;
    assert Quantized(v)[i] == Quantized(w)[i];
    RoundExactly(v[i] * 1000000.0, Round(v[i] * 1000000.0));
    RoundExactly(w[i] * 1000000.0, Round(w[i] * 1000000.0));
  }

  /**
   * Without a collision, for every result in the inputs one with the same document, start and length is returned
   * whose vector differs from its own by less than a millionth in each component.
   */
  lemma ExactDropsOnlyNearDuplicates(hash: Hash, calls: seq<Exchange>, states: seq<DedupState>, r: SearchResult)
    requires Series(Exact, hash, calls, states) && NoCollision(hash, Inputs(calls)) && r in Inputs(calls)
    ensures exists q :: q in Outputs(calls) && q.doc == r.doc && q.start == r.start && q.length == r.length
                        && |q.vector| == |r.vector|
                        && forall i :: 0 <= i < |r.vector| ==> -0.000001 < q.vector[i] - r.vector[i] < 0.000001
  {
    ExactLosesNothingExactly(hash, calls, states);
    assert Identity()(r) in KeysOf(Outputs(calls), Identity());
    var q :| q in Outputs(calls) && Identity()(q) == Identity()(r);
    forall i | 0 <= i < |r.vector|
      ensures |q.vector| == |r.vector| && -0.000001 < q.vector[i] - r.vector[i] < 0.000001
    {
      SameQuantization(q.vector, r.vector, i);
    }
    assert |Quantized(q.vector)| == |Quantized(r.vector)|;
  }

  /** A by-document call returns one result for each document, the first of its highest-scoring ones. */
  lemma DocumentsKeepTheirBest(hash: Hash, s: DedupState, results: Results, out: Results, r: DedupState)
    requires Call(ByDocumentId, hash, s, results, out, r)
    ensures DistinctKeys(out, (x: SearchResult) => x.doc)
    ensures forall x :: x in results ==> exists y :: y in out && y.doc == x.doc
    ensures forall y :: y in out ==> exists i :: 0 <= i < |results| && results[i] == y && IsBest(results, i)
  {
    forall x | x in results
      ensures exists y :: y in out && y.doc == x.doc
    {
      var i := BestIsBest(results, x.doc);
      assert Best(results)[x.doc] in out;
    }
    forall y | y in out
      ensures exists i :: 0 <= i < |results| && results[i] == y && IsBest(results, i)
    {
      var i := BestIsBest(results, y.doc);
    }
  }
}
