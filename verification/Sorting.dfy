/** Stable sorting by a numeric key, as the standard library's `sort_by` does it. */
module Sorting {

  predicate Ascending<T>(s: seq<T>, key: T -> real) {
    forall i, j :: 0 <= i < j < |s| ==> key(s[i]) <= key(s[j])
  }

  /** Each element is at most its successor. */
  predicate Stepwise<T>(s: seq<T>, key: T -> real) {
    |s| > 1 ==> key(s[0]) <= key(s[1]) && Stepwise(s[1..], key)
  }

  lemma {:induction false} StepwiseIsAscending<T>(s: seq<T>, key: T -> real)
    requires Stepwise(s, key)
    ensures Ascending(s, key)
    decreases |s|
  {
    if |s| > 1 {
      var rest := s[1..];
      StepwiseIsAscending(rest, key);
      forall i, j | 0 <= i < j < |s|
        ensures key(s[i]) <= key(s[j])
      {
        assert s[j] == rest[j - 1] && key(rest[0]) <= key(rest[j - 1]);
        if i > 0 {
          assert s[i] == rest[i - 1];
        }
      }
    }
  }

  function Insert<T>(x: T, s: seq<T>, key: T -> real): (r: seq<T>)
    ensures |r| == |s| + 1
  {
    if s == [] || key(x) <= key(s[0]) then [x] + s else [s[0]] + Insert(x, s[1..], key)
  }

  function SortBy<T>(s: seq<T>, key: T -> real): (r: seq<T>)
    ensures |r| == |s|
  {
    if s == [] then [] else Insert(s[0], SortBy(s[1..], key), key)
  }

  /** The elements whose key is `k`, in order. */
  function WithKey<T>(s: seq<T>, key: T -> real, k: real): seq<T> {
    if s == [] then []
    else if key(s[0]) == k then [s[0]] + WithKey(s[1..], key, k)
    else WithKey(s[1..], key, k)
  }

  lemma {:induction false} InsertSorts<T>(x: T, s: seq<T>, key: T -> real)
    requires Stepwise(s, key)
    ensures Stepwise(Insert(x, s, key), key)
    ensures Insert(x, s, key)[0] == x || (s != [] && Insert(x, s, key)[0] == s[0])
    decreases |s|
  {
    var r := Insert(x, s, key);
    if s == [] || key(x) <= key(s[0]) {
      assert r[1..] == s;
    } else {
      var rest := s[1..];
      InsertSorts(x, rest, key);
      assert r[1..] == Insert(x, rest, key);
    }
  }

  lemma {:induction false} InsertAdds<T>(x: T, s: seq<T>, key: T -> real)
    ensures multiset(Insert(x, s, key)) == multiset(s) + multiset{x}
    decreases |s|
  {
    if s != [] && key(x) > key(s[0]) {
      InsertAdds(x, s[1..], key);
      assert s == [s[0]] + s[1..];
    }
  }

  lemma {:induction false} InsertIsStable<T>(x: T, s: seq<T>, key: T -> real, k: real)
    ensures WithKey(Insert(x, s, key), key, k) == WithKey([x] + s, key, k)
    decreases |s|
  {
    if s != [] && key(x) > key(s[0]) {
      var rest := s[1..];
      InsertIsStable(x, rest, key, k);
      assert Insert(x, s, key)[1..] == Insert(x, rest, key);
      assert ([x] + s)[1..] == s && ([x] + rest)[1..] == rest;
    }
  }

  /** Sorting yields an ascending permutation that keeps the order of elements with equal keys. */
  lemma SortByIsStableSort<T>(s: seq<T>, key: T -> real)
    ensures Ascending(SortBy(s, key), key) && multiset(SortBy(s, key)) == multiset(s)
    ensures forall k :: WithKey(SortBy(s, key), key, k) == WithKey(s, key, k)
  {
    SortBySteps(s, key);
    StepwiseIsAscending(SortBy(s, key), key);
    forall k
      ensures WithKey(SortBy(s, key), key, k) == WithKey(s, key, k)
    {
      SortByKeepsTies(s, key, k);
    }
  }

  lemma {:induction false} SortBySteps<T>(s: seq<T>, key: T -> real)
    ensures Stepwise(SortBy(s, key), key) && multiset(SortBy(s, key)) == multiset(s)
    decreases |s|
  {
    if s != [] {
      SortBySteps(s[1..], key);
      InsertSorts(s[0], SortBy(s[1..], key), key);
      InsertAdds(s[0], SortBy(s[1..], key), key);
      assert s == [s[0]] + s[1..];
    }
  }

  lemma {:induction false} SortByKeepsTies<T>(s: seq<T>, key: T -> real, k: real)
    ensures WithKey(SortBy(s, key), key, k) == WithKey(s, key, k)
    decreases |s|
  {
    if s != [] {
      var sorted := SortBy(s[1..], key);
      SortByKeepsTies(s[1..], key, k);
      InsertIsStable(s[0], sorted, key, k);
      assert ([s[0]] + sorted)[1..] == sorted;
    }
  }

  /** Elements with the same key keep their order among those with that key. */
  lemma {:induction false} WithKeyInOrder<T>(s: seq<T>, key: T -> real, k: real, i: nat, j: nat)
      returns (p: nat, q: nat)
    requires i < j < |s| && key(s[i]) == k == key(s[j])
    ensures p < q < |WithKey(s, key, k)| && WithKey(s, key, k)[p] == s[i] && WithKey(s, key, k)[q] == s[j]
    decreases |s|
  {
    if i > 0 {
      p, q := WithKeyInOrder(s[1..], key, k, i - 1, j - 1);
      if key(s[0]) == k {
        p, q := p + 1, q + 1;
      }
    } else {
      q := WithKeyHas(s[1..], key, k, j - 1);
      p, q := 0, q + 1;
    }
  }

  lemma {:induction false} WithKeyHas<T>(s: seq<T>, key: T -> real, k: real, i: nat) returns (p: nat)
    requires i < |s| && key(s[i]) == k
    ensures p < |WithKey(s, key, k)| && WithKey(s, key, k)[p] == s[i]
    decreases |s|
  {
    p := 0;
    if i > 0 {
      p := WithKeyHas(s[1..], key, k, i - 1);
      if key(s[0]) == k {
        p := p + 1;
      }
    }
  }

  lemma {:induction false} WithKeyFrom<T>(s: seq<T>, key: T -> real, k: real, p: nat) returns (i: nat)
    requires p < |WithKey(s, key, k)|
    ensures i < |s| && s[i] == WithKey(s, key, k)[p]
    decreases |s|
  {
    if key(s[0]) != k {
      i := WithKeyFrom(s[1..], key, k, p);
      i := i + 1;
    } else if p > 0 {
      i := WithKeyFrom(s[1..], key, k, p - 1);
      i := i + 1;
    } else {
      i := 0;
    }
  }

  lemma {:induction false} WithKeyFromInOrder<T>(s: seq<T>, key: T -> real, k: real, p: nat, q: nat)
      returns (i: nat, j: nat)
    requires p < q < |WithKey(s, key, k)|
    ensures i < j < |s| && s[i] == WithKey(s, key, k)[p] && s[j] == WithKey(s, key, k)[q]
    decreases |s|
  {
    if key(s[0]) != k {
      i, j := WithKeyFromInOrder(s[1..], key, k, p, q);
      i, j := i + 1, j + 1;
    } else if p > 0 {
      i, j := WithKeyFromInOrder(s[1..], key, k, p - 1, q - 1);
      i, j := i + 1, j + 1;
    } else {
      j := WithKeyFrom(s[1..], key, k, q - 1);
      i, j := 0, j + 1;
    }
  }

  /** Two elements with equal keys come from two in the same order before sorting. */
  lemma SortByTies<T>(s: seq<T>, key: T -> real, i: nat, j: nat) returns (p: nat, q: nat)
    requires i < j < |SortBy(s, key)| && key(SortBy(s, key)[i]) == key(SortBy(s, key)[j])
    ensures p < q < |s| && s[p] == SortBy(s, key)[i] && s[q] == SortBy(s, key)[j]
  {
    var k := key(SortBy(s, key)[i]);
    p, q := WithKeyInOrder(SortBy(s, key), key, k, i, j);
    SortByKeepsTies(s, key, k);
    p, q := WithKeyFromInOrder(s, key, k, p, q);
  }
}
