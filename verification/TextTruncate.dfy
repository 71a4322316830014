/** Truncation to the last valid block: what it keeps, when it changes nothing, and which texts it loses. */
module TextTruncate {
  import opened Bytes
  import opened Outcomes
  import opened TextFormat
  import opened Utf8
  import opened TextLog
  import opened TextLogRuns
  import opened TextScan

  // The kept blocks are the longest readable chain

  /** Blocks read one after the other, each starting where the previous one says. */
  ghost predicate IsChain(read: BlockReader, end: nat, offset: nat, spans: seq<Span>)
    decreases |spans|
  {
    spans == [] ||
    (&& offset == spans[0].offset < end
     && read(offset) == Ok(spans[0].length)
     && IsChain(read, end, AlignUp(offset + 4 + spans[0].length), spans[1..]))
  }

  /** The kept blocks form a chain, and every chain is a prefix of them. */
  lemma {:induction false} KeepsLongestChain(read: BlockReader, end: nat, offset: nat, spans: seq<Span>)
    ensures IsChain(read, end, offset, ValidPrefix(read, end, offset))
    ensures IsChain(read, end, offset, spans) ==> spans <= ValidPrefix(read, end, offset)
    decreases if offset < end then end - offset else 0
  {
    var kept := ValidPrefix(read, end, offset);
    if kept != [] {
      var next := AlignUp(offset + 4 + kept[0].length);
      var rest := ValidPrefix(read, end, next);
      assert kept == [kept[0]] + rest && kept[1..] == rest;
      KeepsLongestChain(read, end, next, if spans == [] then [] else spans[1..]);
      if spans != [] && IsChain(read, end, offset, spans) {
        assert spans == [spans[0]] + spans[1..];
      }
    }
  }

  /** What truncation keeps, on any file: the longest chain of readable blocks behind the header. */
  lemma TruncateKeepsLongestChain(s: Store, spans: seq<Span>)
    requires s.WellFormed()
    ensures IsChain(Reader(s.data, s.limit), s.nextText, DATA_HEADER_SIZE, Kept(s))
    ensures IsChain(Reader(s.data, s.limit), s.nextText, DATA_HEADER_SIZE, spans) ==> spans <= Kept(s)
    ensures if Truncate(s).2 == 1 then Truncate(s).1 == PrefixEnd(Kept(s)) else Truncate(s).0 == s
  {
    KeepsLongestChain(Reader(s.data, s.limit), s.nextText, DATA_HEADER_SIZE, spans);
  }

  /** Where the block after `spans` starts, when the first one starts at `offset`. */
  function ChainEnd(offset: nat, spans: seq<Span>): (end: nat)
    ensures end >= offset
    decreases |spans|
  {
    if spans == [] then offset else ChainEnd(AlignUp(offset + 4 + spans[0].length), spans[1..])
  }

  lemma {:induction false} PrefixEndIsChainEnd(read: BlockReader, end: nat, offset: nat, spans: seq<Span>)
    requires IsChain(read, end, offset, spans) && spans != []
    ensures PrefixEnd(spans) == ChainEnd(offset, spans)
    decreases |spans|
  {
    if |spans| > 1 {
      PrefixEndIsChainEnd(read, end, AlignUp(offset + 4 + spans[0].length), spans[1..]);
    }
  }

  // Cutting the file at the end of a chain does not disturb the chain

  /** Two files agree behind the header and below `hi`. */
  ghost predicate Agree(a: seq<byte>, b: seq<byte>, hi: nat) {
    hi <= |a| && hi <= |b| && forall k :: DATA_HEADER_SIZE <= k < hi ==> a[k] == b[k]
  }

  lemma AgreeSlices(a: seq<byte>, b: seq<byte>, hi: nat, i: nat, j: nat)
    requires Agree(a, b, hi) && DATA_HEADER_SIZE <= i <= j <= hi
    ensures a[i..j] == b[i..j]
  {
  }

  /** Blocks read by `a` and ending by `hi` are read by `b`; no block read by `a` ends behind `size`. */
  ghost predicate ReadsOn(a: BlockReader, b: BlockReader, hi: nat, size: nat) {
    forall offset: nat :: offset >= DATA_HEADER_SIZE && a(offset).Ok? ==>
      var end := offset + 4 + a(offset).value;
      end <= size && (end <= hi ==> b(offset) == a(offset))
  }

  lemma AgreeingReaders(a: seq<byte>, b: seq<byte>, limit: nat, hi: nat)
    requires Agree(a, b, hi)
    ensures ReadsOn(Reader(a, limit), Reader(b, limit), hi, |a|)
  {
    forall offset: nat | offset >= DATA_HEADER_SIZE && TryReadBlock(a, limit, offset).Ok?
      ensures var end := offset + 4 + TryReadBlock(a, limit, offset).value;
              end <= |a| && (end <= hi ==> TryReadBlock(b, limit, offset) == TryReadBlock(a, limit, offset))
    {
      var end := offset + 4 + TryReadBlock(a, limit, offset).value;
      if end <= hi {
        AgreeSlices(a, b, hi, offset, offset + 4);
        AgreeSlices(a, b, hi, offset + 4, end);
      }
    }
  }

  /** Scanning a file cut at the end of a chain finds that chain and stops there. */
  lemma {:induction false} CutKeepsChain(a: BlockReader, b: BlockReader, end: nat, hi: nat, size: nat, offset: nat,
                                         spans: seq<Span>)
    requires IsChain(a, end, offset, spans) && DATA_HEADER_SIZE <= offset
    requires ReadsOn(a, b, hi, size) && (hi == size || ChainEnd(offset, spans) <= hi)
    ensures ValidPrefix(b, ChainEnd(offset, spans), offset) == spans
    decreases |spans|
  {
    if spans != [] {
      var next := AlignUp(offset + 4 + spans[0].length);
      assert b(offset) == a(offset);
      CutKeepsChain(a, b, end, hi, size, next, spans[1..]);
      assert spans == [spans[0]] + spans[1..];
    }
  }

  lemma TruncatedAgrees(s: Store)
    requires s.WellFormed() && Truncate(s).2 == 1
    ensures var r := Truncate(s).0; var hi := if r.nextText < |s.data| then r.nextText else |s.data|;
            Agree(s.data, r.data, hi) && |r.data| == r.nextText
  {
    var r := Truncate(s).0;
    var cut := Resized(s.data, r.nextText);
    forall k | DATA_HEADER_SIZE <= k < r.nextText && k < |s.data|
      ensures s.data[k] == r.data[k]
    {
      assert r.data[k] == cut[k];
    }
  }

  /** Truncating again returns the same offset and loses nothing. */
  lemma TruncateIsIdempotent(s: Store)
    requires s.WellFormed()
    ensures Truncate(Truncate(s).0) == (Truncate(s).0, Truncate(s).1, 0)
  {
    var (r, point, lost) := Truncate(s);
    if lost == 1 {
      var a, b := Reader(s.data, s.limit), Reader(r.data, s.limit);
      var hi := if point < |s.data| then point else |s.data|;
      TruncatedAgrees(s);
      AgreeingReaders(s.data, r.data, s.limit, hi);
      KeepsLongestChain(a, s.nextText, DATA_HEADER_SIZE, []);
      if Kept(s) != [] {
        PrefixEndIsChainEnd(a, s.nextText, DATA_HEADER_SIZE, Kept(s));
      }
      CutKeepsChain(a, b, s.nextText, hi, |s.data|, DATA_HEADER_SIZE, Kept(s));
    }
  }

  // Reopening a truncated storage

  lemma TruncateKeepsHeaders(s: Store)
    requires s.WellFormed() && HeadersOnDisk(s)
    ensures HeadersOnDisk(Truncate(s).0)
  {
    TruncateCases(s);
    if Truncate(s).2 == 1 {
      var r := Truncate(s).0;
      SpliceReads(Resized(s.data, r.nextText), 0, EncodeDataHeader(r.totalText, r.nextText));
    }
  }

  /** Reopening finds the truncated storage, apart from the limit; with that restored nothing is left to truncate. */
  lemma ReopenAfterTruncate(s: Store, now: nat)
    requires s.WellFormed() && HeadersOnDisk(s) && Fits(s)
    requires s.totalText < U64_LIMIT && INDEX_HEADER_SIZE <= s.nextEntry < U64_LIMIT
    ensures var r := Truncate(s).0;
            Open(r.index, r.data, now) == Ok(r.(limit := DEFAULT_LIMIT))
    ensures var r := Open(Truncate(s).0.index, Truncate(s).0.data, now).value.(limit := s.limit);
            r.WellFormed() && r.nextText == Truncate(s).1 && Truncate(r) == (r, Truncate(s).1, 0)
  {
    var r := Truncate(s).0;
    TruncateCases(s);
    TruncateKeepsHeaders(s);
    assert Fits(r) && r.totalText < U64_LIMIT && r.nextEntry == s.nextEntry;
    OpenWithHeaders(r, now);
    TruncateIsIdempotent(s);
    assert r.(limit := DEFAULT_LIMIT).(limit := s.limit) == r;
  }

  lemma ReadTextAgrees(a: seq<byte>, b: seq<byte>, hi: nat, offset: nat, length: nat)
    requires Agree(a, b, hi) && DATA_HEADER_SIZE <= offset && offset + 4 + length <= hi
    ensures ReadText(a, offset, length) == ReadText(b, offset, length)
  {
    AgreeSlices(a, b, hi, offset, offset + 4);
    AgreeSlices(a, b, hi, offset + 4, offset + 4 + length);
  }

  /** A text wholly inside the kept prefix reads exactly as before, on any file. */
  lemma TruncateKeepsReads(s: Store, offset: nat, length: nat)
    requires s.WellFormed() && DATA_HEADER_SIZE <= offset
    requires offset + 4 + length <= Truncate(s).1 && offset + 4 + length <= |s.data|
    ensures ReadText(Truncate(s).0.data, offset, length) == ReadText(s.data, offset, length)
  {
    if Truncate(s).2 == 1 {
      var r := Truncate(s).0;
      TruncatedAgrees(s);
      ReadTextAgrees(s.data, r.data, if r.nextText < |s.data| then r.nextText else |s.data|, offset, length);
    }
  }

  // Truncating a written file

  /** The blocks before the first that the scanner refuses: an empty one or one over the limit. */
  function ReadableFront(blocks: seq<Block>, limit: nat): (n: nat)
    ensures n <= |blocks|
    ensures forall i :: 0 <= i < n ==> 0 < |blocks[i].text| <= limit
    ensures n < |blocks| ==> blocks[n].text == [] || |blocks[n].text| > limit
  {
    if blocks == [] || blocks[0].text == [] || |blocks[0].text| > limit then 0
    else 1 + ReadableFront(blocks[1..], limit)
  }

  function Spans(blocks: seq<Block>): (spans: seq<Span>)
    ensures |spans| == |blocks|
    ensures forall i :: 0 <= i < |spans| ==> spans[i] == Span(blocks[i].offset, |blocks[i].text|)
  {
    if blocks == [] then [] else [Span(blocks[0].offset, |blocks[0].text|)] + Spans(blocks[1..])
  }

  lemma FrontOfTail(rest: seq<Block>, limit: nat)
    requires ReadableFront(rest, limit) > 0
    ensures ReadableFront(rest, limit) == 1 + ReadableFront(rest[1..], limit)
    ensures Spans(rest[..ReadableFront(rest, limit)])
         == [Span(rest[0].offset, |rest[0].text|)] + Spans(rest[1..][..ReadableFront(rest[1..], limit)])
  {
    var n := ReadableFront(rest, limit);
    assert rest[..n] == [rest[0]] + rest[1..][..n - 1];
  }

  /** Reading the first of the written blocks. */
  lemma PrefixOfFirst(read: BlockReader, limit: nat, end: nat, offset: nat, rest: seq<Block>)
    requires WrittenFrom(read, limit, end, offset, rest)
    ensures if ReadableFront(rest, limit) == 0 then ValidPrefix(read, end, offset) == []
            else ValidPrefix(read, end, offset)
                 == [Span(rest[0].offset, |rest[0].text|)] + ValidPrefix(read, end, AlignUp(rest[0].End()))
  {
    if ReadableFront(rest, limit) > 0 {
      assert offset < end && read(offset) == Ok(|rest[0].text|);
    }
  }

  lemma {:induction false} PrefixOfWritten(read: BlockReader, limit: nat, end: nat, offset: nat, rest: seq<Block>)
    requires WrittenFrom(read, limit, end, offset, rest)
    ensures ValidPrefix(read, end, offset) == Spans(rest[..ReadableFront(rest, limit)])
    decreases |rest|
  {
    PrefixOfFirst(read, limit, end, offset, rest);
    if ReadableFront(rest, limit) > 0 {
      PrefixOfWritten(read, limit, end, AlignUp(rest[0].End()), rest[1..]);
      FrontOfTail(rest, limit);
    }
  }

  lemma PrefixEndOfSpans(blocks: seq<Block>, n: nat)
    requires n <= |blocks|
    ensures PrefixEnd(Spans(blocks[..n])) == AlignUp(EndOf(blocks[..n]))
  {
    AlignUpIsAligned(DATA_HEADER_SIZE);
    if n > 0 {
      assert Spans(blocks[..n])[n - 1] == Span(blocks[n - 1].offset, |blocks[n - 1].text|);
    }
  }

  lemma PrefixOfFile(data: seq<byte>, limit: nat, blocks: seq<Block>)
    requires Chained(blocks) && DataHolds(data, blocks)
    requires forall b :: b in blocks ==> |b.text| < U32_LIMIT
    ensures var kept := ValidPrefix(Reader(data, limit), EndOf(blocks), DATA_HEADER_SIZE);
            |kept| == ReadableFront(blocks, limit) && PrefixEnd(kept) == AlignUp(EndOf(blocks[..|kept|]))
  {
    FileIsWritten(data, limit, blocks);
    PrefixOfWritten(Reader(data, limit), limit, EndOf(blocks), DATA_HEADER_SIZE, blocks);
    PrefixEndOfSpans(blocks, ReadableFront(blocks, limit));
  }

  lemma CutPoint(blocks: seq<Block>, n: nat)
    requires Chained(blocks) && n <= |blocks|
    ensures n == |blocks| ==> AlignUp(EndOf(blocks[..n])) >= EndOf(blocks)
    ensures n < |blocks| ==> AlignUp(EndOf(blocks[..n])) == blocks[n].offset
  {
    assert n == |blocks| ==> blocks[..n] == blocks;
  }

  /** On a written file, truncation cuts exactly where the first unreadable block starts, if there is one. */
  lemma TruncateCutsAtFirstUnreadable(s: Store, l: Log)
    requires Represents(s, l) && forall b :: b in l.blocks ==> |b.text| < U32_LIMIT
    ensures var n := ReadableFront(l.blocks, s.limit);
            && (n == |l.blocks| ==> Truncate(s) == (s, s.nextText, 0))
            && (n < |l.blocks| ==> Truncate(s).1 == l.blocks[n].offset && Truncate(s).2 == 1)
  {
    var n := ReadableFront(l.blocks, s.limit);
    PrefixOfFile(s.data, s.limit, l.blocks);
    CutPoint(l.blocks, n);
    TruncateCases(s);
    if n < |l.blocks| {
      assert l.blocks[n] in l.blocks;
    }
  }

  /** The number of entries reported lost is right if and only if at most one block is lost. */
  lemma TruncateReportsExactly(s: Store, l: Log)
    requires Represents(s, l) && forall b :: b in l.blocks ==> |b.text| < U32_LIMIT
    ensures var lost := |l.blocks| - ReadableFront(l.blocks, s.limit);
            Truncate(s).2 == lost <==> lost <= 1
  {
    TruncateCutsAtFirstUnreadable(s, l);
  }

  /** Texts take less room than the blocks that hold them, and none only where there is no block. */
  lemma {:induction false} TextIsLessThanRoom(blocks: seq<Block>, n: nat, m: nat)
    requires Chained(blocks) && n <= m <= |blocks|
    ensures TextTotal(blocks[..n]) <= TextTotal(blocks[..m])
    ensures n < m ==> blocks[n].offset + (TextTotal(blocks[..m]) - TextTotal(blocks[..n])) < blocks[m - 1].End()
    decreases m
  {
    if n < m {
      var b := blocks[m - 1];
      assert blocks[..m] == blocks[..m - 1] + [b];
      TextTotalMore(blocks[..m - 1], b);
      TextIsLessThanRoom(blocks, n, m - 1);
      if n < m - 1 {
        ChainedOrder(blocks, m - 2, m - 1);
      }
    }
  }

  lemma CutRecords(s: Store, l: Log, n: nat)
    requires Represents(s, l) && forall b :: b in l.blocks ==> |b.text| < U32_LIMIT
    requires n == ReadableFront(l.blocks, s.limit) < |l.blocks|
    ensures l.blocks[n].offset < s.nextText
    ensures Truncate(s).0.totalText
         == if s.totalText >= s.nextText - l.blocks[n].offset then s.totalText - (s.nextText - l.blocks[n].offset)
            else l.blocks[n].offset - DATA_HEADER_SIZE
  {
    assert l.blocks[n] in l.blocks;
    TruncateCutsAtFirstUnreadable(s, l);
    TruncateCases(s);
  }

  /**
   * A truncation that cuts takes prefixes and padding for text: the total it records is right if and only if it
   * keeps nothing.
   */
  lemma TruncateCountsExactly(s: Store, l: Log, n: nat)
    requires Represents(s, l) && forall b :: b in l.blocks ==> |b.text| < U32_LIMIT
    requires s.totalText == TextTotal(l.blocks) && n == ReadableFront(l.blocks, s.limit) < |l.blocks|
    ensures Truncate(s).0.totalText == TextTotal(l.blocks[..n]) <==> n == 0
  {
    CutRecords(s, l, n);
    LostText(l.blocks, n);
    KeptText(l.blocks, n);
    CountAfterCut(s.totalText, TextTotal(l.blocks[..n]), s.nextText - l.blocks[n].offset,
                  l.blocks[n].offset - DATA_HEADER_SIZE, Truncate(s).0.totalText, n);
  }

  lemma CountAfterCut(total: nat, kept: nat, removed: nat, room: nat, left: nat, n: nat)
    requires kept <= total && total - kept < removed && kept <= room
    requires kept == room <==> n == 0
    requires room == 0 <==> n == 0
    requires left == if total >= removed then total - removed else room
    ensures left == kept <==> n == 0
  {
  }

  lemma LostText(blocks: seq<Block>, n: nat)
    requires Chained(blocks) && n < |blocks|
    ensures TextTotal(blocks[..n]) <= TextTotal(blocks)
    ensures TextTotal(blocks) - TextTotal(blocks[..n]) < EndOf(blocks) - blocks[n].offset
  {
    TextIsLessThanRoom(blocks, n, |blocks|);
    WholeText(blocks);
  }

  lemma WholeText(blocks: seq<Block>)
    ensures TextTotal(blocks[..|blocks|]) == TextTotal(blocks)
    ensures blocks != [] ==> EndOf(blocks) == blocks[|blocks| - 1].End()
  {
    assert blocks[..|blocks|] == blocks;
  }

  /** The texts before block `n` are shorter than the room before it, if there are any. */
  lemma KeptText(blocks: seq<Block>, n: nat)
    requires Chained(blocks) && n < |blocks|
    ensures blocks[n].offset >= DATA_HEADER_SIZE && TextTotal(blocks[..n]) <= blocks[n].offset - DATA_HEADER_SIZE
    ensures TextTotal(blocks[..n]) == blocks[n].offset - DATA_HEADER_SIZE <==> n == 0
    ensures blocks[n].offset == DATA_HEADER_SIZE <==> n == 0
  {
    FirstOffset(blocks);
    if n > 0 {
      TextIsLessThanRoom(blocks, 0, n);
      assert blocks[..0] == [];
      ChainedOrder(blocks, n - 1, n);
    }
  }

  /** After accepted stores only, with the limit not lowered below a stored text, truncation changes nothing. */
  lemma TruncateKeepsCleanStorage(s: Store, l: Log)
    requires Represents(s, l)
    requires forall b :: b in l.blocks ==> b.Accepted() && |b.text| <= s.limit
    ensures Truncate(s) == (s, s.nextText, 0)
  {
    TruncateCutsAtFirstUnreadable(s, l);
    assert forall i :: 0 <= i < |l.blocks| ==> l.blocks[i] in l.blocks;
  }

  /** A document keeps its text through truncation if its latest block lies before the cut, and else loses it. */
  lemma TruncateSplitsAtCut(s: Store, l: Log, doc: DocumentId)
    requires Represents(s, l) && doc in Latest(l.blocks)
    ensures var b := Latest(l.blocks)[doc];
            GetText(Truncate(s).0, doc)
            == (if b.End() <= Truncate(s).1 then Ok(b.text) else Err(TextCorruption(ExceedsFile)))
  {
    var b := Latest(l.blocks)[doc];
    LatestIsAccepted(l.blocks, doc);
    GetTextIsLatest(s, l, doc);
    FindIsLastFor(s.index, AcceptedEntries(l.blocks), doc);
    LastForIsLatest(l.blocks, doc);
    if b.End() <= Truncate(s).1 {
      TruncateKeepsReads(s, b.offset, |b.text|);
    } else if Truncate(s).2 == 1 {
      TruncatedAgrees(s);
    }
  }

  lemma FrontReaches(blocks: seq<Block>, limit: nat, k: nat)
    requires k < |blocks|
    ensures k < ReadableFront(blocks, limit) <==> forall i :: 0 <= i <= k ==> 0 < |blocks[i].text| <= limit
  {
    var n := ReadableFront(blocks, limit);
    if n <= k {
      assert !(0 < |blocks[n].text| <= limit);
    }
  }

  /** Blocks before block `n` end before it starts, and no other does. */
  lemma BeforeBlock(blocks: seq<Block>, n: nat, k: nat)
    requires Chained(blocks) && n < |blocks| && k < |blocks|
    ensures k < n ==> blocks[k].End() <= blocks[n].offset
    ensures k >= n ==> blocks[n].offset <= blocks[k].offset < blocks[k].End()
  {
    if k < n {
      ChainedOrder(blocks, k, n);
    } else if n < k {
      ChainedOrder(blocks, n, k);
    }
  }

  /** The cut lies behind block `k` exactly if all blocks up to it are non-empty and within the limit. */
  lemma CutBehind(s: Store, l: Log, k: nat)
    requires Represents(s, l) && forall b :: b in l.blocks ==> |b.text| < U32_LIMIT
    requires k < |l.blocks|
    ensures l.blocks[k].End() <= Truncate(s).1 <==> forall i :: 0 <= i <= k ==> 0 < |l.blocks[i].text| <= s.limit
    ensures l.blocks[k].End() <= Truncate(s).1 || Truncate(s).1 <= l.blocks[k].offset
  {
    var n := ReadableFront(l.blocks, s.limit);
    TruncateCutsAtFirstUnreadable(s, l);
    FrontReaches(l.blocks, s.limit, k);
    if n < |l.blocks| {
      BeforeBlock(l.blocks, n, k);
    } else {
      assert l.blocks[k] in l.blocks;
    }
  }

  /**
   * A document whose latest text is block `k` keeps it through truncation if and only if no block up to and
   * including that one is empty or over the limit.
   */
  lemma TruncateLosesExactly(s: Store, l: Log, doc: DocumentId, k: nat)
    requires Represents(s, l) && forall b :: b in l.blocks ==> |b.text| < U32_LIMIT
    requires k < |l.blocks| && doc in Latest(l.blocks) && Latest(l.blocks)[doc] == l.blocks[k]
    ensures GetText(Truncate(s).0, doc) == Ok(l.blocks[k].text)
       <==> forall i :: 0 <= i <= k ==> 0 < |l.blocks[i].text| <= s.limit
  {
    CutBehind(s, l, k);
    TruncateSplitsAtCut(s, l, doc);
  }

  // Two ways truncation loses or mixes up accepted texts

  lemma {:induction false} FrontStopsAtEmpty(blocks: seq<Block>, limit: nat, k: nat)
    requires k < |blocks| && blocks[k].text == []
    ensures ReadableFront(blocks, limit) <= k
  {
    if k > 0 {
      FrontStopsAtEmpty(blocks[1..], limit, k - 1);
    }
  }

  lemma TextAfterEmptyIsLost(s: Store, l: Log, k: nat)
    requires Represents(s, l) && forall b :: b in l.blocks ==> |b.text| < U32_LIMIT
    requires k + 2 == |l.blocks| && l.blocks[k].text == [] && l.blocks[k + 1].Accepted()
    ensures var b := l.blocks[k + 1];
            GetText(s, b.doc) == Ok(b.text) && GetText(Truncate(s).0, b.doc) == Err(TextCorruption(ExceedsFile))
  {
    var b := l.blocks[k + 1];
    assert Latest(l.blocks)[b.doc] == b;
    GetTextIsLatest(s, l, b.doc);
    FrontStopsAtEmpty(l.blocks, s.limit, k);
    TruncateCutsAtFirstUnreadable(s, l);
    ChainedOrder(l.blocks, ReadableFront(l.blocks, s.limit), k + 1);
    TruncateSplitsAtCut(s, l, b.doc);
  }

  /** The log after an empty text and another one. */
  function EmptyThenText(l: Log, empty: DocumentId, doc: DocumentId, text: Text): Log {
    var blocks := l.blocks + [NextBlock(l.blocks, empty, [])];
    l.(blocks := blocks + [NextBlock(blocks, doc, text)])
  }

  lemma EmptyThenTextRepresents(s: Store, l: Log, empty: DocumentId, doc: DocumentId, text: Text)
    requires Represents(s, l) && |text| <= s.limit
    ensures Represents(StoreText(StoreText(s, empty, []).0, doc, text).0, EmptyThenText(l, empty, doc, text))
  {
    StoreRepresents(s, l, empty, []);
    StoreRepresents(StoreText(s, empty, []).0, l.(blocks := l.blocks + [NextBlock(l.blocks, empty, [])]), doc, text);
  }

  lemma EmptyIsRejected(s: Store, empty: DocumentId)
    requires s.WellFormed()
    ensures StoreText(s, empty, []) == (AppendText(s, []), Err(InvalidInput("text")))
  {
  }

  lemma EmptyThenTextBlocks(l: Log, empty: DocumentId, doc: DocumentId, text: Text)
    ensures var l2 := EmptyThenText(l, empty, doc, text); var k := |l.blocks|;
            && |l2.blocks| == k + 2 && l2.blocks[k].text == []
            && l2.blocks[k + 1].doc == doc && l2.blocks[k + 1].text == text
            && (forall b :: b in l2.blocks ==> b in l.blocks || b.text == [] || b.text == text)
  {
  }

  /**
   * A text stored after an (always rejected) empty one is accepted and reads back, until truncation discards it.
   */
  lemma TruncateLosesTextAfterEmptyStore(s: Store, l: Log, empty: DocumentId, doc: DocumentId, text: Text, r: Store)
    requires Represents(s, l) && s.limit < U32_LIMIT && forall b :: b in l.blocks ==> |b.text| < U32_LIMIT
    requires |text| <= s.limit && EmptyThenText(l, empty, doc, text).blocks[|l.blocks| + 1].Accepted()
    requires r == StoreText(StoreText(s, empty, []).0, doc, text).0
    ensures GetText(r, doc) == Ok(text) && GetText(Truncate(r).0, doc) == Err(TextCorruption(ExceedsFile))
  {
    var l2 := EmptyThenText(l, empty, doc, text);
    assert Represents(r, l2) by { EmptyThenTextRepresents(s, l, empty, doc, text); }
    EmptyThenTextBlocks(l, empty, doc, text);
    TextAfterEmptyIsLost(r, l2, |l.blocks|);
  }

  // Storing after a truncation

  /** After a store at a cut, a document with an old entry reads whatever is at that place now. */
  lemma LookupAfterStore(c: Store, a: Store, r: Store, es: seq<Entry>, e: Entry, stale: Entry)
    requires c.entryCount == |es| && IndexHolds(a.index, es) && r.entryCount == |es| + 1
    requires EntryAppended(a, r, e, |es|) && e.Valid() && forall i :: 0 <= i < |es| ==> es[i].Valid()
    requires LastFor(es, stale.doc) == Some(stale) && stale.doc != e.doc
    ensures GetText(r, stale.doc) == ReadText(r.data, stale.offset, stale.length)
  {
    IndexHoldsMore(a, r, es, e);
    FindIsLastFor(r.index, es + [e], stale.doc);
    LastForAppend(es, e, stale.doc);
  }

  /** The block at an offset decides which length can be read there. */
  lemma ReadsOnlyItsLength(data: seq<byte>, b: Block, length: nat)
    requires BlockAt(data, b) && |b.text| < U32_LIMIT
    ensures ReadText(data, b.offset, length).Ok? <==> length == |b.text|
  {
    BlockPrefix(data, b);
    ReadBlock(data, b);
  }

  /** A truncated storage: the index as before, the data cut at an aligned offset. */
  ghost predicate CutFrom(s: Store, c: Store) {
    c.WellFormed()
    && c == s.(data := c.data, nextText := c.nextText, totalText := c.totalText, limit := c.limit)
  }

  /** Storing into it: what any document with an old entry reads as afterwards. */
  lemma StoreAfterCut(s: Store, es: seq<Entry>, c: Store, stale: Entry, doc: DocumentId, text: Text, r: Store)
    requires s.WellFormed() && s.entryCount == |es| && s.nextEntry == SlotOffset(|es|) && IndexHolds(s.index, es)
    requires CutFrom(s, c) && forall i :: 0 <= i < |es| ==> es[i].Valid()
    requires LastFor(es, stale.doc) == Some(stale) && doc != stale.doc
    requires StoreText(c, doc, text) == (r, Ok(()))
    ensures GetText(r, stale.doc) == ReadText(r.data, stale.offset, stale.length)
    ensures GetText(c, stale.doc) == ReadText(c.data, stale.offset, stale.length)
    ensures TextAppended(c, AppendText(c, text), text) && r.data == AppendText(c, text).data
  {
    var e := Entry(doc, AlignUp(c.nextText), |text|);
    var a := AppendText(c, text);
    AppendTextWrites(c, text);
    AppendEntryWrites(a, e, |es|);
    LookupAfterStore(c, a, AppendEntry(a, e), es, e, stale);
    FindIsLastFor(c.index, es, stale.doc);
  }

  /** What truncation leaves, with a limit that may be raised again. */
  lemma TruncateCutsFrom(s: Store, c: Store)
    requires s.WellFormed() && c == Truncate(s).0.(limit := c.limit)
    ensures CutFrom(s, c) && c.nextText == Truncate(s).1
  {
    TruncateCases(s);
  }

  lemma TruncatedBlockStays(s: Store, l: Log, c: Store, b: Block)
    requires Represents(s, l) && c == Truncate(s).0.(limit := c.limit) && b in l.blocks && b.End() <= Truncate(s).1
    ensures BlockAt(c.data, b) && b.End() <= c.nextText
  {
    TruncateCases(s);
    if Truncate(s).2 == 1 {
      TruncatedAgrees(s);
      AgreeSlices(s.data, c.data, c.nextText, b.offset, b.End());
    }
  }

  /**
   * A store after a truncation leaves a document alone whose latest text is block `k`, if no block up to and
   * including that one is empty or over the limit.
   */
  lemma StoreAfterTruncateIsolates(s: Store, l: Log, c: Store, doc: DocumentId, text: Text, r: Store,
                                   other: DocumentId, k: nat)
    requires Represents(s, l) && forall b :: b in l.blocks ==> |b.text| < U32_LIMIT
    requires c == Truncate(s).0.(limit := c.limit) && StoreText(c, doc, text) == (r, Ok(())) && other != doc
    requires k < |l.blocks| && other in Latest(l.blocks) && Latest(l.blocks)[other] == l.blocks[k]
    requires forall i :: 0 <= i <= k ==> 0 < |l.blocks[i].text| <= s.limit
    ensures GetText(s, other) == GetText(c, other) == GetText(r, other) == Ok(l.blocks[k].text)
  {
    var b := l.blocks[k];
    GetTextIsLatest(s, l, other);
    LastForIsLatest(l.blocks, other);
    LatestIsAccepted(l.blocks, other);
    CutBehind(s, l, k);
    TruncateCutsFrom(s, c);
    TruncatedBlockStays(s, l, c, b);
    StoreAfterCut(s, AcceptedEntries(l.blocks), c, b.AsEntry(), doc, text, r);
    ReadBlock(c.data, b);
    ReadBlock(r.data, b);
  }

  /** A document without a text has none after the truncation and the store either. */
  lemma StoreAfterTruncateFindsNothing(s: Store, l: Log, c: Store, doc: DocumentId, text: Text, r: Store,
                                       other: DocumentId)
    requires Represents(s, l) && c == Truncate(s).0.(limit := c.limit)
    requires StoreText(c, doc, text) == (r, Ok(())) && other != doc && other !in Latest(l.blocks)
    ensures GetText(s, other) == GetText(c, other) == GetText(r, other) == Err(NotFound)
  {
    LastForIsLatest(l.blocks, other);
    TruncateCutsFrom(s, c);
    FindIsLastFor(s.index, AcceptedEntries(l.blocks), other);
    StoreFindsNothing(s, AcceptedEntries(l.blocks), c, doc, text, r, other);
  }

  lemma StoreFindsNothing(s: Store, es: seq<Entry>, c: Store, doc: DocumentId, text: Text, r: Store, other: DocumentId)
    requires s.WellFormed() && s.entryCount == |es| && s.nextEntry == SlotOffset(|es|) && IndexHolds(s.index, es)
    requires CutFrom(s, c) && forall i :: 0 <= i < |es| ==> es[i].Valid()
    requires LastFor(es, other) == None && doc != other && StoreText(c, doc, text) == (r, Ok(()))
    ensures GetText(c, other) == GetText(r, other) == Err(NotFound)
  {
    var e, a := Entry(doc, AlignUp(c.nextText), |text|), AppendText(c, text);
    AppendEntryWrites(a, e, |es|);
    FindIsLastFor(c.index, es, other);
    FindsNothing(a, r, es, e, other);
  }

  lemma FindsNothing(a: Store, r: Store, es: seq<Entry>, e: Entry, other: DocumentId)
    requires IndexHolds(a.index, es) && EntryAppended(a, r, e, |es|) && r.entryCount == |es| + 1
    requires e.Valid() && e.doc != other && LastFor(es, other) == None && forall i :: 0 <= i < |es| ==> es[i].Valid()
    ensures GetText(r, other) == Err(NotFound)
  {
    IndexHoldsMore(a, r, es, e);
    FindIsLastFor(r.index, es + [e], other);
    LastForAppend(es, e, other);
  }

  lemma LatestOffsetIsAligned(l: Log, doc: DocumentId)
    requires Chained(l.blocks) && doc in Latest(l.blocks)
    ensures AlignUp(Latest(l.blocks)[doc].offset) == Latest(l.blocks)[doc].offset
  {
    LatestIsAccepted(l.blocks, doc);
    var i :| 0 <= i < |l.blocks| && l.blocks[i] == Latest(l.blocks)[doc];
    AlignUpIsAligned(EndOf(l.blocks[..i]));
    AlignUpIsAligned(l.blocks[i].offset);
  }

  /**
   * Truncation leaves the index alone. When it cuts at the latest text of a document (one over a lowered limit),
   * a text stored next is what that document reads as if and only if it has the length of the lost one.
   */
  lemma TruncateThenStoreAliases(s: Store, l: Log, c: Store, stale: DocumentId, doc: DocumentId, text: Text, r: Store)
    requires Represents(s, l) && forall b :: b in l.blocks ==> |b.text| < U32_LIMIT
    requires var n := ReadableFront(l.blocks, s.limit);
             n < |l.blocks| && stale in Latest(l.blocks) && Latest(l.blocks)[stale] == l.blocks[n]
    requires c == Truncate(s).0.(limit := c.limit) && StoreText(c, doc, text) == (r, Ok(())) && doc != stale
    ensures GetText(s, stale) == Ok(Latest(l.blocks)[stale].text) && GetText(c, stale).Err?
    ensures GetText(r, stale).Ok? <==> |text| == |Latest(l.blocks)[stale].text|
    ensures GetText(r, stale).Ok? ==> GetText(r, stale) == Ok(text)
  {
    var b := Latest(l.blocks)[stale];
    GetTextIsLatest(s, l, stale);
    LatestIsAccepted(l.blocks, stale);
    LatestOffsetIsAligned(l, stale);
    LastForIsLatest(l.blocks, stale);
    TruncateCutsAtFirstUnreadable(s, l);
    TruncateCutsFrom(s, c);
    TruncatedAgrees(s);
    StoreAfterCut(s, AcceptedEntries(l.blocks), c, b.AsEntry(), doc, text, r);
    ReadsOnlyItsLength(r.data, Block(doc, b.offset, text), |b.text|);
    ReadBlock(r.data, Block(doc, b.offset, text));
  }

  /** The data file behind a block appended at its end is zero. */
  lemma AppendTextBlank(c: Store, text: Text, i: nat)
    requires c.WellFormed() && |c.data| <= c.nextText
    requires AppendText(c, text).nextText <= i && i + 4 <= |AppendText(c, text).data|
    ensures FromLE(AppendText(c, text).data[i..i + 4]) == 0
  {
    assert AppendText(c, text).data[i..i + 4] == Zeros(4);
    ZerosReadAsZero(4);
  }

  /** A lost text that lay behind the end of the one stored next does not read at all. */
  lemma LostBehindStaysLost(s: Store, l: Log, c: Store, stale: DocumentId, doc: DocumentId, text: Text, r: Store)
    requires Represents(s, l) && Truncate(s).2 == 1 && stale in Latest(l.blocks) && doc != stale
    requires c == Truncate(s).0.(limit := c.limit) && StoreText(c, doc, text) == (r, Ok(()))
    requires AlignUp(c.nextText) + 4 + |text| <= Latest(l.blocks)[stale].offset
    ensures GetText(r, stale).Err?
  {
    var b := Latest(l.blocks)[stale];
    LatestIsAccepted(l.blocks, stale);
    LostReadsAtItsPlace(s, l, c, stale, doc, text, r);
    BlankDoesNotRead(c, text, b.offset, |b.text|);
  }

  lemma BlankDoesNotRead(c: Store, text: Text, offset: nat, length: nat)
    requires c.WellFormed() && |c.data| <= c.nextText && AppendText(c, text).nextText <= offset && length > 0
    ensures ReadText(AppendText(c, text).data, offset, length).Err?
  {
    if offset + 4 <= |AppendText(c, text).data| {
      AppendTextBlank(c, text, offset);
    }
  }

  /** The data file from a block appended at its end on: the block, then zeros. */
  function Tail(length: nat, text: seq<byte>): seq<byte> {
    BlockBytes(text) + Zeros(GrownLength(length, AlignUp(length) + 4 + |text|, MIB) - (AlignUp(length) + 4 + |text|))
  }

  lemma AppendTextTail(c: Store, text: Text, a: Store)
    requires c.WellFormed() && |c.data| == c.nextText && a == AppendText(c, text) && TextAppended(c, a, text)
    ensures a.data[AlignUp(c.nextText)..] == Tail(c.nextText, text)
  {
    var start, end := AlignUp(c.nextText), a.nextText;
    assert BlockAt(a.data, Block(0, start, text));
    assert a.data[start..] == a.data[start..end] + a.data[end..];
    AppendTextZeros(c, text, a);
  }

  lemma AppendTextZeros(c: Store, text: Text, a: Store)
    requires c.WellFormed() && |c.data| <= c.nextText && a == AppendText(c, text) && a.nextText <= |a.data|
    ensures a.data[a.nextText..] == Zeros(|a.data| - a.nextText)
  {
  }

  lemma ReadTextShifted(data: seq<byte>, start: nat, tail: seq<byte>, i: nat, length: nat)
    requires start <= |data| && data[start..] == tail
    ensures ReadText(data, start + i, length) == ReadText(tail, i, length)
  {
    if i + 4 + length <= |tail| {
      SliceShifted(data, start, tail, i, i + 4);
      SliceShifted(data, start, tail, i + 4, i + 4 + length);
    }
  }

  lemma SliceShifted(data: seq<byte>, start: nat, tail: seq<byte>, i: nat, j: nat)
    requires start <= |data| && data[start..] == tail && i <= j <= |tail|
    ensures data[start + i..start + j] == tail[i..j]
  {
    assert forall k :: i <= k < j ==> data[start + k] == tail[k];
  }

  lemma LostReadsAtItsPlace(s: Store, l: Log, c: Store, stale: DocumentId, doc: DocumentId, text: Text, r: Store)
    requires Represents(s, l) && Truncate(s).2 == 1 && stale in Latest(l.blocks) && doc != stale
    requires c == Truncate(s).0.(limit := c.limit) && StoreText(c, doc, text) == (r, Ok(()))
    ensures c.WellFormed() && |c.data| == c.nextText
    ensures var b := Latest(l.blocks)[stale];
            GetText(r, stale) == ReadText(AppendText(c, text).data, b.offset, |b.text|)
  {
    LatestIsAccepted(l.blocks, stale);
    LastForIsLatest(l.blocks, stale);
    TruncateCutsFrom(s, c);
    TruncatedAgrees(s);
    StoreAfterCut(s, AcceptedEntries(l.blocks), c, Latest(l.blocks)[stale].AsEntry(), doc, text, r);
  }

  /**
   * What any lost text reads as after the next store: whatever the stored block, followed by zeros, holds at its
   * place. Only the stored text and the place of the lost one decide.
   */
  lemma LostReadsFromStored(s: Store, l: Log, c: Store, stale: DocumentId, doc: DocumentId, text: Text, r: Store,
                            b: Block, i: nat)
    requires Represents(s, l) && Truncate(s).2 == 1 && stale in Latest(l.blocks) && doc != stale
    requires c == Truncate(s).0.(limit := c.limit) && StoreText(c, doc, text) == (r, Ok(()))
    requires b == Latest(l.blocks)[stale] && b.offset == AlignUp(c.nextText) + i
    ensures GetText(r, stale) == ReadText(Tail(c.nextText, text), i, |b.text|)
  {
    LostReadsAtItsPlace(s, l, c, stale, doc, text, r);
    EqualReads(c, text, b, i, GetText(r, stale));
  }

  lemma EqualReads(c: Store, text: Text, b: Block, i: nat, got: Result<Text>)
    requires c.WellFormed() && |c.data| == c.nextText && b.offset == AlignUp(c.nextText) + i
    requires got == ReadText(AppendText(c, text).data, b.offset, |b.text|)
    ensures got == ReadText(Tail(c.nextText, text), i, |b.text|)
  {
    ReadFromTail(c, text, i, |b.text|);
  }

  lemma ReadFromTail(c: Store, text: Text, i: nat, length: nat)
    requires c.WellFormed() && |c.data| == c.nextText
    ensures ReadText(AppendText(c, text).data, AlignUp(c.nextText) + i, length)
         == ReadText(Tail(c.nextText, text), i, length)
  {
    var a := AppendText(c, text);
    AppendTextWrites(c, text);
    AppendTextTail(c, text, a);
    ReadTextShifted(a.data, AlignUp(c.nextText), Tail(c.nextText, text), i, length);
  }
}
