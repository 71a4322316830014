/** The Bloom filter: bits packed into 64-bit words, and the set of bit positions they stand for. */
module BloomFilters {
  import opened Outcomes
  import opened TextFormat

  type Word = bv64

  /** The hash functions are deterministic and otherwise unknown: `hash(id, i)` is hash `i` of a document. */
  datatype Params = Params(size: nat, hashes: nat, hash: (DocumentId, nat) -> nat) {
    predicate Valid() {
      size >= 1 && 1 <= hashes <= 10
    }

    function WordCount(): nat {
      (size + 63) / 64
    }
  }

  // One word

  function Up(x: Word): Word {
    x << 1
  }

  /** The word whose only set bit is bit `p`. */
  function Mask(p: nat): Word {
    if p == 0 then 1 else Up(Mask(p - 1))
  }

  predicate Meets(x: Word, m: Word) {
    x & m != 0
  }

  predicate HasBit(x: Word, p: nat) {
    Meets(x, Mask(p))
  }

  lemma ShiftedTogether(a: Word, b: Word)
    ensures (a << 1) & (b << 1) == (a & b) << 1 && 1 & (b << 1) == 0
  {
  }

  lemma {:induction false} MasksAreDisjoint(p: nat, q: nat)
    requires p < q
    ensures Mask(p) & Mask(q) == 0
  {
    ShiftedTogether(if p == 0 then 0 else Mask(p - 1), Mask(q - 1));
    if p > 0 {
      MasksAreDisjoint(p - 1, q - 1);
    }
  }

  lemma Higher(p: nat, m: Word)
    requires Mask(p) == m
    ensures Mask(p + 1) == Up(m)
  {
  }

  lemma UpFour(m: Word)
    ensures Up(Up(Up(Up(m)))) == m << 4
  {
  }

  lemma FourHigher(p: nat, m: Word)
    requires Mask(p) == m
    ensures Mask(p + 4) == m << 4
  {
    Higher(p, m);
    Higher(p + 1, Up(m));
    Higher(p + 2, Up(Up(m)));
    Higher(p + 3, Up(Up(Up(m))));
    UpFour(m);
  }

  lemma HighestMask()
    ensures Mask(63) == 0x8000_0000_0000_0000
  {
    assert Mask(3) == 8 by {
      assert Mask(1) == 2 && Mask(2) == 4;
    }
    FourHigher(3, 0x8); FourHigher(7, 0x80); FourHigher(11, 0x800);
    FourHigher(15, 0x8000); FourHigher(19, 0x80000); FourHigher(23, 0x800000);
    FourHigher(27, 0x8000000); FourHigher(31, 0x80000000); FourHigher(35, 0x800000000);
    FourHigher(39, 0x8000000000); FourHigher(43, 0x80000000000); FourHigher(47, 0x800000000000);
    FourHigher(51, 0x8000000000000); FourHigher(55, 0x80000000000000); FourHigher(59, 0x800000000000000);
  }

  lemma {:induction false} MaskIsNotZero(p: nat)
    requires p < 64
    ensures Mask(p) != 0
    decreases 63 - p
  {
    if p == 63 {
      HighestMask();
    } else {
      MaskIsNotZero(p + 1);
    }
  }

  lemma AndDistributes(x: Word, y: Word, m: Word)
    ensures (x | y) & m == (x & m) | (y & m)
  {
  }

  lemma OrIsZero(c: Word, a: Word, b: Word)
    requires c == a | b
    ensures c == 0 <==> a == 0 && b == 0
  {
  }

  lemma OrMeets(x: Word, y: Word, m: Word)
    ensures Meets(x | y, m) <==> Meets(x, m) || Meets(y, m)
  {
    AndDistributes(x, y, m);
    OrIsZero((x | y) & m, x & m, y & m);
  }

  lemma OrHasBits(x: Word, y: Word, q: nat)
    ensures HasBit(x | y, q) <==> HasBit(x, q) || HasBit(y, q)
  {
    OrMeets(x, y, Mask(q));
  }

  lemma MaskHasBit(p: nat, q: nat)
    requires p < 64 && q < 64
    ensures HasBit(Mask(p), q) <==> p == q
  {
    if p < q {
      MasksAreDisjoint(p, q);
    } else if q < p {
      MasksAreDisjoint(q, p);
      AndLaws(Mask(p), Mask(q));
    } else {
      MaskIsNotZero(p);
      AndLaws(Mask(p), Mask(q));
    }
  }

  lemma SetBitHasBits(x: Word, p: nat, q: nat)
    requires p < 64 && q < 64
    ensures HasBit(x | Mask(p), q) <==> HasBit(x, q) || p == q
  {
    OrHasBits(x, Mask(p), q);
    MaskHasBit(p, q);
  }

  lemma AndLaws(x: Word, y: Word)
    ensures x & y == y & x && x & x == x && 0 & x == 0
  {
  }

  lemma OrAssociates(x: Word, y: Word, z: Word)
    ensures x | (y | z) == (x | y) | z
  {
  }

  lemma Associates(x: Word, y: Word, z: Word, op: (Word, Word) -> Word)
    requires forall a, b {:trigger op(a, b)} :: op(a, b) == a | b
    ensures op(x, op(y, z)) == op(op(x, y), z)
  {
    OrAssociates(x, y, z);
  }

  lemma JoinAssociates(x: Word, y: Word, z: Word)
    ensures Join()(x, Join()(y, z)) == Join()(Join()(x, y), z)
  {
    Associates(x, y, z, Join());
  }

  lemma OrZero(x: Word)
    ensures x | 0 == x
  {
  }

  // Many words

  predicate IsSet(words: seq<Word>, j: nat)
    requires j < 64 * |words|
  {
    HasBit(words[j / 64], j % 64)
  }

  /** The positions of the bits that are set. */
  function Bits(words: seq<Word>): set<nat> {
    set j | 0 <= j < 64 * |words| && IsSet(words, j)
  }

  function SetBit(words: seq<Word>, j: nat): (r: seq<Word>)
    requires j < 64 * |words|
    ensures |r| == |words|
  {
    Update(words, j / 64, Mask(j % 64), Join())
  }

  function Zip<W>(a: seq<W>, b: seq<W>, op: (W, W) -> W): (r: seq<W>)
    requires |a| == |b|
    ensures |r| == |a|
  {
    seq(|a|, i requires 0 <= i < |a| => op(a[i], b[i]))
  }

  function Update<W>(a: seq<W>, k: nat, m: W, op: (W, W) -> W): (r: seq<W>)
    requires k < |a|
    ensures |r| == |a|
  {
    a[k := op(a[k], m)]
  }

  /** Bitwise disjunction, as a function value. */
  function Join(): (Word, Word) -> Word {
    (x, y) => x | y
  }

  function Or(a: seq<Word>, b: seq<Word>): (r: seq<Word>)
    requires |a| == |b|
    ensures |r| == |a|
  {
    Zip(a, b, Join())
  }

  function Blank(n: nat): (r: seq<Word>)
    ensures |r| == n
  {
    seq(n, _ => 0)
  }

  lemma SetBitAdds(words: seq<Word>, j: nat)
    requires j < 64 * |words|
    ensures Bits(SetBit(words, j)) == Bits(words) + {j}
  {
    forall q: nat | q < 64 * |words|
      ensures IsSet(SetBit(words, j), q) <==> IsSet(words, q) || q == j
    {
      if q / 64 == j / 64 {
        SetBitHasBits(words[q / 64], j % 64, q % 64);
      }
    }
  }

  lemma OrUnites(a: seq<Word>, b: seq<Word>)
    requires |a| == |b|
    ensures Bits(Or(a, b)) == Bits(a) + Bits(b)
  {
    forall q: nat | q < 64 * |a|
      ensures IsSet(Or(a, b), q) <==> IsSet(a, q) || IsSet(b, q)
    {
      OrHasBits(a[q / 64], b[q / 64], q % 64);
    }
  }

  lemma BlankHasNoBits(n: nat)
    ensures Bits(Blank(n)) == {}
  {
    forall q: nat | q < 64 * n
      ensures !IsSet(Blank(n), q)
    {
      AndLaws(Mask(q % 64), 0);
      AndLaws(0, Mask(q % 64));
    }
  }

  // Filters

  function Position(p: Params, id: DocumentId, i: nat): (j: nat)
    requires p.Valid()
    ensures j < p.size <= 64 * p.WordCount()
  {
    p.hash(id, i) % p.size
  }

  /** The positions of the first `n` hashes of a document. */
  function Positions(p: Params, id: DocumentId, n: nat): set<nat>
    requires p.Valid()
  {
    if n == 0 then {} else Positions(p, id, n - 1) + {Position(p, id, n - 1)}
  }

  /** Sets the bits of the first `n` hashes of a document. */
  function SetBits(p: Params, words: seq<Word>, id: DocumentId, n: nat): (r: seq<Word>)
    requires p.Valid() && |words| == p.WordCount()
    ensures |r| == |words|
  {
    if n == 0 then words else SetBit(SetBits(p, words, id, n - 1), Position(p, id, n - 1))
  }

  predicate AllSet(p: Params, words: seq<Word>, id: DocumentId, n: nat)
    requires p.Valid() && |words| == p.WordCount()
  {
    n == 0 || (AllSet(p, words, id, n - 1) && IsSet(words, Position(p, id, n - 1)))
  }

  datatype Filter = Filter(words: seq<Word>, count: nat)

  /** The filter that results from inserting the documents one after another. */
  function FilterOf(p: Params, ids: seq<DocumentId>): (f: Filter)
    requires p.Valid()
    ensures |f.words| == p.WordCount() && f.count == |ids|
  {
    if ids == [] then Filter(Blank(p.WordCount()), 0)
    else
      var f := FilterOf(p, ids[..|ids| - 1]);
      Filter(SetBits(p, f.words, ids[|ids| - 1], p.hashes), f.count + 1)
  }

  predicate Lookup(p: Params, f: Filter, id: DocumentId)
    requires p.Valid() && |f.words| == p.WordCount()
  {
    AllSet(p, f.words, id, p.hashes)
  }

  /** How a filter came about; the merged filter has a history of its own. */
  datatype History =
    | Created
    | Inserted(before: History, id: DocumentId)
    | Merged(before: History, other: History)
    | Cleared(before: History)

  function Built(p: Params, h: History): (f: Filter)
    requires p.Valid()
    ensures |f.words| == p.WordCount()
  {
    match h
    case Created => Filter(Blank(p.WordCount()), 0)
    case Inserted(before, id) =>
      var f := Built(p, before);
      Filter(SetBits(p, f.words, id, p.hashes), f.count + 1)
    case Merged(before, other) =>
      var f, g := Built(p, before), Built(p, other);
      Filter(Or(f.words, g.words), f.count + g.count)
    case Cleared(before) => Filter(Blank(p.WordCount()), 0)
  }

  /** The documents inserted since the last clear, those of merged filters included. */
  function Live(h: History): seq<DocumentId> {
    match h
    case Created => []
    case Inserted(before, id) => Live(before) + [id]
    case Merged(before, other) => Live(before) + Live(other)
    case Cleared(before) => []
  }

  lemma ZipUpdate<W>(a: seq<W>, b: seq<W>, k: nat, m: W, op: (W, W) -> W)
    requires |a| == |b| && k < |a| && op(a[k], op(b[k], m)) == op(op(a[k], b[k]), m)
    ensures Zip(a, Update(b, k, m, op), op) == Update(Zip(a, b, op), k, m, op)
  {
  }

  lemma OrSetBit(a: seq<Word>, b: seq<Word>, j: nat)
    requires |a| == |b| && j < 64 * |a|
    ensures Or(a, SetBit(b, j)) == SetBit(Or(a, b), j)
  {
    JoinAssociates(a[j / 64], b[j / 64], Mask(j % 64));
    ZipUpdate(a, b, j / 64, Mask(j % 64), Join());
  }

  lemma {:induction false} OrSetBits(p: Params, a: seq<Word>, b: seq<Word>, id: DocumentId, n: nat)
    requires p.Valid() && |a| == |b| == p.WordCount()
    ensures Or(a, SetBits(p, b, id, n)) == SetBits(p, Or(a, b), id, n)
  {
    if n > 0 {
      OrSetBits(p, a, b, id, n - 1);
      OrSetBit(a, SetBits(p, b, id, n - 1), Position(p, id, n - 1));
    }
  }

  lemma OrBlank(a: seq<Word>)
    ensures Or(a, Blank(|a|)) == a
  {
    forall i | 0 <= i < |a|
      ensures a[i] | 0 == a[i]
    {
      OrZero(a[i]);
    }
  }

  /** Merging the filters of two sequences of documents is inserting one sequence after the other. */
  lemma {:induction false} MergeIsConcatenation(p: Params, s: seq<DocumentId>, t: seq<DocumentId>)
    requires p.Valid()
    ensures FilterOf(p, s + t)
         == Filter(Or(FilterOf(p, s).words, FilterOf(p, t).words), FilterOf(p, s).count + FilterOf(p, t).count)
    decreases |t|
  {
    if t == [] {
      assert s + t == s;
      OrBlank(FilterOf(p, s).words);
    } else {
      var (rest, id) := (t[..|t| - 1], t[|t| - 1]);
      MergeIsConcatenation(p, s, rest);
      assert (s + t)[..|s + t| - 1] == s + rest;
      OrSetBits(p, FilterOf(p, s).words, FilterOf(p, rest).words, id, p.hashes);
    }
  }

  /** Whatever its history, a filter is the one its live documents give. */
  lemma {:induction false} HistoryIsItsLiveDocuments(p: Params, h: History)
    requires p.Valid()
    ensures Built(p, h) == FilterOf(p, Live(h))
  {
    match h
    case Created =>
    case Inserted(before, id) =>
      HistoryIsItsLiveDocuments(p, before);
      assert (Live(before) + [id])[..|Live(before)|] == Live(before);
    case Merged(before, other) =>
      HistoryIsItsLiveDocuments(p, before);
      HistoryIsItsLiveDocuments(p, other);
      MergeIsConcatenation(p, Live(before), Live(other));
    case Cleared(before) =>
  }

  // The set of positions that a filter stands for

  function PositionsOf(p: Params, ids: seq<DocumentId>): set<nat>
    requires p.Valid()
  {
    if ids == [] then {} else PositionsOf(p, ids[..|ids| - 1]) + Positions(p, ids[|ids| - 1], p.hashes)
  }

  lemma {:induction false} SetBitsAdds(p: Params, words: seq<Word>, id: DocumentId, n: nat)
    requires p.Valid() && |words| == p.WordCount()
    ensures Bits(SetBits(p, words, id, n)) == Bits(words) + Positions(p, id, n)
  {
    if n > 0 {
      SetBitsAdds(p, words, id, n - 1);
      SetBitAdds(SetBits(p, words, id, n - 1), Position(p, id, n - 1));
    }
  }

  lemma {:induction false} FilterStandsForPositions(p: Params, ids: seq<DocumentId>)
    requires p.Valid()
    ensures Bits(FilterOf(p, ids).words) == PositionsOf(p, ids)
  {
    if ids == [] {
      BlankHasNoBits(p.WordCount());
    } else {
      var rest := ids[..|ids| - 1];
      FilterStandsForPositions(p, rest);
      SetBitsAdds(p, FilterOf(p, rest).words, ids[|ids| - 1], p.hashes);
    }
  }

  lemma {:induction false} AllSetExactly(p: Params, words: seq<Word>, id: DocumentId, n: nat)
    requires p.Valid() && |words| == p.WordCount()
    ensures AllSet(p, words, id, n) <==> Positions(p, id, n) <= Bits(words)
  {
    if n > 0 {
      AllSetExactly(p, words, id, n - 1);
      assert Position(p, id, n - 1) in Positions(p, id, n);
    }
  }

  lemma LookupIsCover(p: Params, h: History, id: DocumentId)
    requires p.Valid()
    ensures Lookup(p, Built(p, h), id) <==> Positions(p, id, p.hashes) <= PositionsOf(p, Live(h))
  {
    HistoryIsItsLiveDocuments(p, h);
    FilterStandsForPositions(p, Live(h));
    AllSetExactly(p, Built(p, h).words, id, p.hashes);
  }

  lemma {:induction false} PositionsExactly(p: Params, id: DocumentId, n: nat, j: nat)
    requires p.Valid()
    ensures j in Positions(p, id, n) <==> exists i :: 0 <= i < n && p.hash(id, i) % p.size == j
  {
    if n > 0 {
      PositionsExactly(p, id, n - 1, j);
    }
  }

  /** One of the hashes of one of the documents leads to the position. */
  ghost predicate Hit(p: Params, ids: seq<DocumentId>, j: nat)
    requires p.Valid()
  {
    exists live, i :: live in ids && 0 <= i < p.hashes && p.hash(live, i) % p.size == j
  }

  lemma {:induction false} PositionsOfExactly(p: Params, ids: seq<DocumentId>, j: nat)
    requires p.Valid()
    ensures j in PositionsOf(p, ids) <==> Hit(p, ids, j)
  {
    if ids != [] {
      var (rest, last) := (ids[..|ids| - 1], ids[|ids| - 1]);
      PositionsOfExactly(p, rest, j);
      PositionsExactly(p, last, p.hashes, j);
      assert ids == rest + [last];
    }
  }

  /**
   * After any history a lookup succeeds exactly when each hash of the document falls on the position of some hash
   * of some live document.
   */
  lemma LookupExactly(p: Params, h: History, id: DocumentId)
    requires p.Valid()
    ensures Lookup(p, Built(p, h), id) <==>
              forall i :: 0 <= i < p.hashes ==> Hit(p, Live(h), p.hash(id, i) % p.size)
  {
    LookupIsCover(p, h, id);
    var covered := PositionsOf(p, Live(h));
    forall i | 0 <= i < p.hashes
      ensures p.hash(id, i) % p.size in Positions(p, id, p.hashes)
      ensures Hit(p, Live(h), p.hash(id, i) % p.size) <==> p.hash(id, i) % p.size in covered
    {
      PositionsExactly(p, id, p.hashes, p.hash(id, i) % p.size);
      PositionsOfExactly(p, Live(h), p.hash(id, i) % p.size);
    }
    forall j | j in Positions(p, id, p.hashes)
      ensures exists i :: 0 <= i < p.hashes && p.hash(id, i) % p.size == j
    {
      PositionsExactly(p, id, p.hashes, j);
    }
  }

  lemma {:induction false} LiveIsCovered(p: Params, ids: seq<DocumentId>, id: DocumentId)
    requires p.Valid() && id in ids
    ensures Positions(p, id, p.hashes) <= PositionsOf(p, ids)
  {
    if ids[|ids| - 1] != id {
      LiveIsCovered(p, ids[..|ids| - 1], id);
    }
  }

  /** After any history of inserts, merges and clears, no live document is missed. */
  lemma NoFalseNegatives(p: Params, h: History, id: DocumentId)
    requires p.Valid() && id in Live(h)
    ensures Lookup(p, Built(p, h), id)
  {
    LookupIsCover(p, h, id);
    LiveIsCovered(p, Live(h), id);
  }

  // How many bits are set

  /** How many of the lowest `n` bits are set; for all 64 of them, `count_ones`. */
  function Ones(x: Word, n: nat): nat {
    if n == 0 then 0 else Ones(x, n - 1) + (if HasBit(x, n - 1) then 1 else 0)
  }

  function CountBits(words: seq<Word>): nat {
    if words == [] then 0 else CountBits(words[..|words| - 1]) + Ones(words[|words| - 1], 64)
  }

  function BitsBelow(words: seq<Word>, n: nat): set<nat>
    requires n <= 64 * |words|
  {
    set j | 0 <= j < n && IsSet(words, j)
  }

  lemma OneMoreBit(words: seq<Word>, n: nat)
    requires n < 64 * |words|
    ensures |BitsBelow(words, n + 1)| == |BitsBelow(words, n)| + if IsSet(words, n) then 1 else 0
  {
    assert BitsBelow(words, n + 1) == BitsBelow(words, n) + (if IsSet(words, n) then {n} else {});
  }

  lemma {:induction false} OnesOfWord(words: seq<Word>, i: nat, n: nat)
    requires i < |words| && n <= 64
    ensures |BitsBelow(words, 64 * i + n)| == |BitsBelow(words, 64 * i)| + Ones(words[i], n)
  {
    if n > 0 {
      var j := 64 * i + n - 1;
      assert j / 64 == i && j % 64 == n - 1;
      OnesOfWord(words, i, n - 1);
      OneMoreBit(words, j);
    }
  }

  lemma {:induction false} CountIsNumberOfBits(words: seq<Word>, i: nat)
    requires i <= |words|
    ensures CountBits(words[..i]) == |BitsBelow(words, 64 * i)|
  {
    if i > 0 {
      CountIsNumberOfBits(words, i - 1);
      OnesOfWord(words, i - 1, 64);
      assert words[..i][..i - 1] == words[..i - 1];
    }
  }

  lemma {:induction false} AtMostBelow(s: set<nat>, n: nat)
    requires forall j :: j in s ==> j < n
    ensures |s| <= n
    decreases n
  {
    if n > 0 {
      AtMostBelow(s - {n - 1}, n - 1);
    } else {
      assert s == {};
    }
  }

  lemma {:induction false} PositionsAreFew(p: Params, id: DocumentId, n: nat)
    requires p.Valid()
    ensures |Positions(p, id, n)| <= n && forall j :: j in Positions(p, id, n) ==> j < p.size
  {
    if n > 0 {
      PositionsAreFew(p, id, n - 1);
    }
  }

  lemma {:induction false} PositionsOfAreFew(p: Params, ids: seq<DocumentId>)
    requires p.Valid()
    ensures |PositionsOf(p, ids)| <= p.hashes * |ids|
    ensures forall j :: j in PositionsOf(p, ids) ==> j < p.size
  {
    if ids == [] {
      OneMoreTime(p.hashes, 0);
    } else {
      var rest, id := ids[..|ids| - 1], ids[|ids| - 1];
      PositionsOfAreFew(p, rest);
      PositionsAreFew(p, id, p.hashes);
      UnionIsAtMostSum(PositionsOf(p, rest), Positions(p, id, p.hashes));
      OneMoreTime(p.hashes, |rest|);
    }
  }

  lemma OneMoreTime(k: nat, n: nat)
    ensures k * (n + 1) == k * n + k && k * 0 == 0
  {
  }

  lemma UnionIsAtMostSum(a: set<nat>, b: set<nat>)
    ensures |a + b| <= |a| + |b|
  {
    assert a + b == a + (b - a);
    assert b == (b - a) + (a * b);
  }

  /**
   * After any history no bit at or above the size is set, so the number of set bits is at most the size, and it is
   * at most the number of hashes times the number of insertions. No word more than needed is kept.
   */
  lemma BitCountBounds(p: Params, h: History)
    requires p.Valid()
    ensures var f := Built(p, h);
            && (forall j :: j in Bits(f.words) ==> j < p.size)
            && CountBits(f.words) == |Bits(f.words)|
            && CountBits(f.words) <= p.size && CountBits(f.words) <= p.hashes * f.count
            && 64 * |f.words| - 64 < p.size <= 64 * |f.words|
  {
    var words := Built(p, h).words;
    HistoryIsItsLiveDocuments(p, h);
    FilterStandsForPositions(p, Live(h));
    PositionsOfAreFew(p, Live(h));
    AtMostBelow(Bits(words), p.size);
    CountIsNumberOfBits(words, |words|);
    assert words[..|words|] == words && BitsBelow(words, 64 * |words|) == Bits(words);
  }

  // The filter itself

  class BloomFilter {
    const params: Params
    const bitArray: array<Word>
    var insertedCount: nat

    ghost predicate Valid()
      reads this, bitArray
    {
      params.Valid() && bitArray.Length == params.WordCount()
    }

    ghost function State(): Filter
      reads this, bitArray
    {
      Filter(bitArray[..], insertedCount)
    }

    constructor (params: Params)
      requires params.Valid()
      ensures Valid() && fresh(bitArray) && this.params == params
      ensures State() == Built(params, Created)
    {
      this.params := params;
      bitArray := new Word[params.WordCount()](_ => 0);
      insertedCount := 0;
      new;
      assert bitArray[..] == Blank(params.WordCount());
    }

    method Insert(id: DocumentId)
      requires Valid()
      modifies this, bitArray
      ensures Valid()
      ensures State() == Filter(SetBits(params, old(bitArray[..]), id, params.hashes), old(insertedCount) + 1)
    {
      for i := 0 to params.hashes
        invariant bitArray[..] == SetBits(params, old(bitArray[..]), id, i) && insertedCount == old(insertedCount)
      {
        var bit := params.hash(id, i) % params.size;
        bitArray[bit / 64] := bitArray[bit / 64] | Mask(bit % 64);
      }
      insertedCount := insertedCount + 1;
    }

    method Contains(id: DocumentId) returns (found: bool)
      requires Valid()
      ensures found <==> Lookup(params, State(), id)
    {
      for i := 0 to params.hashes
        invariant AllSet(params, bitArray[..], id, i)
      {
        var bit := params.hash(id, i) % params.size;
        if !HasBit(bitArray[bit / 64], bit % 64) {
          NotAllSet(params, bitArray[..], id, i, params.hashes);
          return false;
        }
      }
      return true;
    }

    method Merge(other: BloomFilter) returns (r: Result<()>)
      requires Valid() && other.Valid() && other.bitArray != bitArray
      modifies this, bitArray
      ensures Valid()
      ensures r.Ok? <==> params.size == other.params.size && params.hashes == other.params.hashes
      ensures State() == if r.Ok? then Filter(Or(old(bitArray[..]), other.bitArray[..]),
                                              old(insertedCount) + other.insertedCount)
                         else old(State())
    {
      if params.size != other.params.size || params.hashes != other.params.hashes {
        return Err(Error.Config);
      }
      for i := 0 to bitArray.Length
        invariant forall k :: 0 <= k < i ==> bitArray[k] == Join()(old(bitArray[..])[k], other.bitArray[k])
        invariant forall k :: i <= k < bitArray.Length ==> bitArray[k] == old(bitArray[..])[k]
        invariant insertedCount == old(insertedCount)
      {
        bitArray[i] := Join()(bitArray[i], other.bitArray[i]);
      }
      insertedCount := insertedCount + other.insertedCount;
      return Ok(());
    }

    method Clear()
      requires Valid()
      modifies this, bitArray
      ensures Valid() && State() == Filter(Blank(params.WordCount()), 0)
    {
      for i := 0 to bitArray.Length
        invariant bitArray[..i] == Blank(i)
      {
        bitArray[i] := 0;
      }
      insertedCount := 0;
    }

    method CountSetBits() returns (n: nat)
      requires Valid()
      ensures n == CountBits(bitArray[..]) == |Bits(bitArray[..])|
    {
      n := 0;
      for i := 0 to bitArray.Length
        invariant n == CountBits(bitArray[..i])
      {
        assert bitArray[..i + 1][..i] == bitArray[..i];
        n := n + Ones(bitArray[i], 64);
      }
      assert bitArray[..bitArray.Length] == bitArray[..];
      CountIsNumberOfBits(bitArray[..], bitArray.Length);
      assert BitsBelow(bitArray[..], 64 * bitArray.Length) == Bits(bitArray[..]);
    }
  }

  lemma {:induction false} NotAllSet(p: Params, words: seq<Word>, id: DocumentId, i: nat, n: nat)
    requires p.Valid() && |words| == p.WordCount() && i < n && !IsSet(words, Position(p, id, i))
    ensures !AllSet(p, words, id, n)
    decreases n
  {
    if n > i + 1 {
      NotAllSet(p, words, id, i, n - 1);
    }
  }
}
