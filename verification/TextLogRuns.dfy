/** Runs of the storage, and the reference log of blocks that they refine. */
module TextLogRuns {
  import opened Bytes
  import opened Outcomes
  import opened TextFormat
  import opened Utf8
  import opened TextLog

  datatype Op =
    | StoreOp(doc: DocumentId, text: Text)
    | StoreSafeOp(doc: DocumentId, text: Text)
    | SetLimit(limit: nat)
    | Reopen(now: nat)

  function Step(s: Store, op: Op): (r: Store)
    requires s.WellFormed()
  {
    match op
    case StoreOp(doc, text) => StoreText(s, doc, text).0
    case StoreSafeOp(doc, text) => StoreTextSafe(s, doc, text).0
    case SetLimit(limit) => s.(limit := limit)
    case Reopen(now) =>
      match Open(s.index, s.data, now)
      case Ok(reopened) => if reopened.WellFormed() then reopened else s
      case Err(_) => s
  }

  function Run(s: Store, ops: seq<Op>): (r: Store)
    requires s.WellFormed()
    ensures r.WellFormed()
  {
    if ops == [] then s else Step(Run(s, ops[..|ops| - 1]), ops[|ops| - 1])
  }

  /** The cached counters fit the widths of their header fields. */
  predicate Fits(s: Store) {
    s.entryCount < U32_LIMIT && s.nextText < U64_LIMIT
  }

  predicate RunFits(s: Store, ops: seq<Op>)
    requires s.WellFormed()
  {
    ops != [] ==> RunFits(s, ops[..|ops| - 1]) && Fits(Run(s, ops[..|ops| - 1]))
  }

  // The reference log

  datatype Block = Block(doc: DocumentId, offset: nat, text: Text) {
    function AsEntry(): Entry {
      Entry(doc, offset, |text|)
    }

    function End(): nat {
      offset + 4 + |text|
    }

    predicate Accepted() {
      AsEntry().Valid()
    }
  }

  datatype Log = Log(blocks: seq<Block>, limit: nat)

  function EndOf(blocks: seq<Block>): nat {
    if blocks == [] then DATA_HEADER_SIZE else blocks[|blocks| - 1].End()
  }

  function NextBlock(blocks: seq<Block>, doc: DocumentId, text: Text): Block {
    Block(doc, AlignUp(EndOf(blocks)), text)
  }

  /** Every text within the size limit becomes a block; only accepted blocks are visible to readers. */
  function LogStep(l: Log, op: Op): Log {
    match op
    case StoreOp(doc, text) =>
      if |text| > l.limit then l else l.(blocks := l.blocks + [NextBlock(l.blocks, doc, text)])
    case StoreSafeOp(doc, text) =>
      if |text| > l.limit || 0 in text then l else l.(blocks := l.blocks + [NextBlock(l.blocks, doc, text)])
    case SetLimit(limit) => l.(limit := limit)
    case Reopen(_) => l.(limit := DEFAULT_LIMIT)
  }

  function LogRun(l: Log, ops: seq<Op>): Log {
    if ops == [] then l else LogStep(LogRun(l, ops[..|ops| - 1]), ops[|ops| - 1])
  }

  /** The index entries of the accepted blocks, in order. */
  function AcceptedEntries(blocks: seq<Block>): (es: seq<Entry>)
    ensures forall i :: 0 <= i < |es| ==> es[i].Valid()
  {
    if blocks == [] then []
    else
      var b := blocks[|blocks| - 1];
      AcceptedEntries(blocks[..|blocks| - 1]) + (if b.Accepted() then [b.AsEntry()] else [])
  }

  /** The last accepted block of each document. */
  function Latest(blocks: seq<Block>): map<DocumentId, Block> {
    if blocks == [] then map[]
    else
      var b := blocks[|blocks| - 1];
      var before := Latest(blocks[..|blocks| - 1]);
      if b.Accepted() then before[b.doc := b] else before
  }

  lemma {:induction false} LatestIsAccepted(blocks: seq<Block>, doc: DocumentId)
    requires doc in Latest(blocks)
    ensures Latest(blocks)[doc] in blocks && Latest(blocks)[doc].Accepted() && Latest(blocks)[doc].doc == doc
  {
    var n := |blocks| - 1;
    if blocks[n].Accepted() && blocks[n].doc == doc {
    } else {
      LatestIsAccepted(blocks[..n], doc);
    }
  }

  // Representation of the log by the files

  /** Blocks follow each other at the next multiple of four. */
  predicate Chained(blocks: seq<Block>) {
    forall i :: 0 <= i < |blocks| ==> blocks[i].offset == AlignUp(EndOf(blocks[..i]))
  }

  predicate BlockAt(data: seq<byte>, b: Block) {
    && DATA_HEADER_SIZE <= b.offset && b.End() <= |data|
    && data[b.offset..b.End()] == BlockBytes(b.text)
  }

  predicate DataHolds(data: seq<byte>, blocks: seq<Block>) {
    forall b :: b in blocks ==> BlockAt(data, b) && b.End() <= EndOf(blocks)
  }

  predicate IndexHolds(index: seq<byte>, es: seq<Entry>) {
    && SlotOffset(|es|) <= |index|
    && forall i :: 0 <= i < |es| ==> Slot(index, i) == es[i]
  }

  predicate HeadersOnDisk(s: Store)
    requires s.WellFormed()
  {
    && s.index[..INDEX_HEADER_SIZE] == EncodeIndexHeader(s.entryCount, s.nextEntry)
    && s.data[..DATA_HEADER_SIZE] == EncodeDataHeader(s.totalText, s.nextText)
  }

  predicate Represents(s: Store, l: Log) {
    && s.WellFormed()
    && s.limit == l.limit
    && Chained(l.blocks)
    && DATA_HEADER_SIZE <= EndOf(l.blocks) == s.nextText <= |s.data| <= 2 * s.nextText + MIB
    && s.totalText <= s.nextText
    && DataHolds(s.data, l.blocks)
    && s.entryCount == |AcceptedEntries(l.blocks)|
    && s.nextEntry == SlotOffset(s.entryCount)
    && IndexHolds(s.index, AcceptedEntries(l.blocks))
    && HeadersOnDisk(s)
  }

  // Effects of the two appends on the bytes

  /** What `AppendText` does, without its layout: old blocks stay, the new one is in place. */
  ghost predicate TextAppended(s: Store, r: Store, text: Text) {
    var start := AlignUp(s.nextText);
    && r == s.(data := r.data, nextText := start + 4 + |text|, totalText := s.totalText + |text|)
    && DATA_HEADER_SIZE <= |r.data| == GrownLength(|s.data|, r.nextText, MIB)
    && r.data[..DATA_HEADER_SIZE] == EncodeDataHeader(r.totalText, r.nextText)
    && (forall doc :: BlockAt(r.data, Block(doc, start, text)))
    && (forall b :: BlockAt(s.data, b) && b.End() <= s.nextText ==> BlockAt(r.data, b))
  }

  lemma SpliceTail(s: seq<byte>, offset: nat, a: seq<byte>, b: seq<byte>)
    requires offset + |a| + |b| <= |s|
    ensures Splice(s, offset, a + b)[offset + |a|..offset + |a| + |b|] == b
  {
    SpliceReads(s, offset, a + b);
    var r := Splice(s, offset, a + b);
    assert r[offset + |a|..offset + |a| + |b|] == r[offset..offset + |a + b|][|a|..];
  }

  lemma PlacedBlock(data: seq<byte>, offset: nat, padding: nat, text: seq<byte>)
    ensures PlaceBlock(data, offset, padding, text)[offset + padding..offset + padding + 4 + |text|] == BlockBytes(text)
  {
    SpliceTail(Resized(data, GrownLength(|data|, offset + padding + 4 + |text|, MIB)), offset, Zeros(padding),
               BlockBytes(text));
  }

  lemma PlacedKeeps(data: seq<byte>, offset: nat, padding: nat, text: seq<byte>, i: nat, j: nat)
    requires i <= j <= offset && j <= |data|
    ensures PlaceBlock(data, offset, padding, text)[i..j] == data[i..j]
  {
    var grown := Resized(data, GrownLength(|data|, offset + padding + 4 + |text|, MIB));
    ResizedKeeps(data, |grown|, i, j);
    SpliceKeeps(grown, offset, Zeros(padding) + BlockBytes(text), i, j);
  }

  lemma HeaderKeeps(data: seq<byte>, total: nat, next: nat, i: nat, j: nat)
    requires DATA_HEADER_SIZE <= i <= j <= |data|
    ensures WithDataHeader(data, total, next)[i..j] == data[i..j]
  {
    SpliceKeeps(data, 0, EncodeDataHeader(total, next), i, j);
  }

  lemma HeaderReads(data: seq<byte>, total: nat, next: nat)
    requires |data| >= DATA_HEADER_SIZE
    ensures WithDataHeader(data, total, next)[..DATA_HEADER_SIZE] == EncodeDataHeader(total, next)
  {
    SpliceReads(data, 0, EncodeDataHeader(total, next));
  }

  lemma AppendTextKeeps(s: Store, text: Text, i: nat, j: nat)
    requires s.WellFormed() && DATA_HEADER_SIZE <= i <= j <= s.nextText && j <= |s.data|
    ensures AppendText(s, text).data[i..j] == s.data[i..j]
  {
    var padding := AlignUp(s.nextText) - s.nextText;
    PlacedKeeps(s.data, s.nextText, padding, text, i, j);
    HeaderKeeps(PlaceBlock(s.data, s.nextText, padding, text), s.totalText + |text|,
                s.nextText + padding + 4 + |text|, i, j);
  }

  lemma AppendTextBlock(s: Store, text: Text)
    requires s.WellFormed()
    ensures var r := AppendText(s, text);
            && r.data[AlignUp(s.nextText)..r.nextText] == BlockBytes(text)
            && r.data[..DATA_HEADER_SIZE] == EncodeDataHeader(r.totalText, r.nextText)
  {
    var start := AlignUp(s.nextText);
    var r, placed := AppendText(s, text), PlaceBlock(s.data, s.nextText, start - s.nextText, text);
    PlacedBlock(s.data, s.nextText, start - s.nextText, text);
    HeaderKeeps(placed, r.totalText, r.nextText, start, r.nextText);
    HeaderReads(placed, r.totalText, r.nextText);
  }

  lemma AppendTextWrites(s: Store, text: Text)
    requires s.WellFormed()
    ensures TextAppended(s, AppendText(s, text), text)
  {
    AppendTextBlock(s, text);
    forall b | BlockAt(s.data, b) && b.End() <= s.nextText
      ensures BlockAt(AppendText(s, text).data, b)
    {
      AppendTextKeeps(s, text, b.offset, b.End());
    }
  }

  /** What `AppendEntry` does to the slots: only slot `k`, at the old next offset, changes. */
  ghost predicate EntryAppended(s: Store, r: Store, e: Entry, k: int) {
    && s.nextEntry == INDEX_HEADER_SIZE + k * ENTRY_SIZE
    && r == s.(index := r.index, entryCount := s.entryCount + 1, nextEntry := s.nextEntry + ENTRY_SIZE)
    && INDEX_HEADER_SIZE <= |r.index| == GrownLength(|s.index|, r.nextEntry, 32 * 1024)
    && r.index[..INDEX_HEADER_SIZE] == EncodeIndexHeader(r.entryCount, r.nextEntry)
    && (k >= 0 ==> Slot(r.index, k) == e)
    && (forall i: nat :: i != k && InFile(s.index, i) ==> Slot(r.index, i) == Slot(s.index, i))
  }

  predicate InFile(index: seq<byte>, i: nat) {
    SlotOffset(i) + ENTRY_SIZE <= |index|
  }

  lemma AppendEntryKeeps(s: Store, e: Entry, i: nat, j: nat)
    requires s.WellFormed()
    requires INDEX_HEADER_SIZE <= i <= j <= |s.index|
    requires j <= s.nextEntry || s.nextEntry + ENTRY_SIZE <= i
    ensures |AppendEntry(s, e).index| >= j && AppendEntry(s, e).index[i..j] == s.index[i..j]
  {
    var end := s.nextEntry + ENTRY_SIZE;
    var grown := Resized(s.index, GrownLength(|s.index|, end, 32 * 1024));
    var written := Splice(grown, s.nextEntry, EncodeEntry(e));
    ResizedKeeps(s.index, |grown|, i, j);
    SpliceKeeps(grown, s.nextEntry, EncodeEntry(e), i, j);
    SpliceKeeps(written, 0, EncodeIndexHeader(s.entryCount + 1, end), i, j);
  }

  lemma AppendEntryHeader(s: Store, e: Entry)
    requires s.WellFormed()
    ensures var r := AppendEntry(s, e);
            r.index[..INDEX_HEADER_SIZE] == EncodeIndexHeader(r.entryCount, r.nextEntry)
  {
    var end := s.nextEntry + ENTRY_SIZE;
    var grown := Resized(s.index, GrownLength(|s.index|, end, 32 * 1024));
    SpliceReads(Splice(grown, s.nextEntry, EncodeEntry(e)), 0, EncodeIndexHeader(s.entryCount + 1, end));
  }

  lemma AppendEntryBytes(s: Store, e: Entry)
    requires s.WellFormed() && s.nextEntry >= INDEX_HEADER_SIZE
    ensures |AppendEntry(s, e).index| >= s.nextEntry + ENTRY_SIZE
    ensures AppendEntry(s, e).index[s.nextEntry..s.nextEntry + ENTRY_SIZE] == EncodeEntry(e)
  {
    var end := s.nextEntry + ENTRY_SIZE;
    var grown := Resized(s.index, GrownLength(|s.index|, end, 32 * 1024));
    var written := Splice(grown, s.nextEntry, EncodeEntry(e));
    SpliceReads(grown, s.nextEntry, EncodeEntry(e));
    SpliceKeeps(written, 0, EncodeIndexHeader(s.entryCount + 1, end), s.nextEntry, end);
  }

  lemma AppendEntryWrites(s: Store, e: Entry, k: int)
    requires s.WellFormed() && e.Valid()
    requires k >= -1 && s.nextEntry == INDEX_HEADER_SIZE + k * ENTRY_SIZE
    ensures EntryAppended(s, AppendEntry(s, e), e, k)
  {
    var r := AppendEntry(s, e);
    AppendEntryHeader(s, e);
    if k >= 0 {
      AppendEntryBytes(s, e);
      EntryRoundTrip(e);
    }
    forall i: nat | i != k && InFile(s.index, i)
      ensures Slot(r.index, i) == Slot(s.index, i)
    {
      AppendEntryKeeps(s, e, SlotOffset(i), SlotOffset(i) + ENTRY_SIZE);
    }
  }

  // The representation is established and kept

  lemma CreateRepresents(limit: nat)
    ensures Represents(Create(limit), Log([], limit))
  {
    SpliceReads(Zeros(INDEX_HEADER_SIZE + 1000 * ENTRY_SIZE), 0, EncodeIndexHeader(0, INDEX_HEADER_SIZE));
    SpliceReads(Zeros(DATA_HEADER_SIZE + MIB), 0, EncodeDataHeader(0, DATA_HEADER_SIZE));
  }

  lemma ChainedAppend(blocks: seq<Block>, doc: DocumentId, text: Text)
    requires Chained(blocks)
    ensures Chained(blocks + [NextBlock(blocks, doc, text)])
  {
    var more := blocks + [NextBlock(blocks, doc, text)];
    forall i | 0 <= i < |more|
      ensures more[i].offset == AlignUp(EndOf(more[..i]))
    {
      assert more[..i] == blocks[..i];
      assert i == |blocks| ==> blocks[..i] == blocks;
    }
  }

  lemma DataHoldsMore(s: Store, a: Store, blocks: seq<Block>, b: Block)
    requires DataHolds(s.data, blocks) && EndOf(blocks) == s.nextText
    requires TextAppended(s, a, b.text) && b == NextBlock(blocks, b.doc, b.text)
    ensures DataHolds(a.data, blocks + [b])
  {
    forall c | c in blocks + [b]
      ensures BlockAt(a.data, c) && c.End() <= EndOf(blocks + [b])
    {
      if c in blocks {
        assert BlockAt(s.data, c);
      } else {
        assert BlockAt(a.data, Block(b.doc, AlignUp(s.nextText), b.text));
      }
    }
  }

  lemma IndexHoldsMore(a: Store, r: Store, es: seq<Entry>, e: Entry)
    requires IndexHolds(a.index, es) && EntryAppended(a, r, e, |es|)
    ensures IndexHolds(r.index, es + [e])
  {
    forall i | 0 <= i < |es|
      ensures Slot(r.index, i) == es[i]
    {
      assert InFile(a.index, i);
    }
  }

  lemma AcceptedAppend(blocks: seq<Block>, b: Block)
    ensures AcceptedEntries(blocks + [b]) == AcceptedEntries(blocks) + (if b.Accepted() then [b.AsEntry()] else [])
    ensures Latest(blocks + [b]) == if b.Accepted() then Latest(blocks)[b.doc := b] else Latest(blocks)
  {
    assert (blocks + [b])[..|blocks|] == blocks;
  }

  /** What appending a block without an entry leaves. */
  lemma BlockAppended(s: Store, l: Log, a: Store, b: Block)
    requires Represents(s, l) && b == NextBlock(l.blocks, b.doc, b.text)
    requires a.WellFormed() && TextAppended(s, a, b.text)
    ensures var blocks := l.blocks + [b];
            && Chained(blocks) && DataHolds(a.data, blocks) && EndOf(blocks) == a.nextText
            && a.nextText <= |a.data| <= 2 * a.nextText + MIB && a.totalText <= a.nextText
  {
    ChainedAppend(l.blocks, b.doc, b.text);
    DataHoldsMore(s, a, l.blocks, b);
  }

  /** A rejected block: written, but not indexed. */
  lemma RejectedRepresents(s: Store, l: Log, a: Store, b: Block)
    requires Represents(s, l) && b == NextBlock(l.blocks, b.doc, b.text) && !b.Accepted()
    requires a.WellFormed() && TextAppended(s, a, b.text)
    ensures Represents(a, l.(blocks := l.blocks + [b]))
  {
    BlockAppended(s, l, a, b);
    AcceptedAppend(l.blocks, b);
    assert AcceptedEntries(l.blocks) + [] == AcceptedEntries(l.blocks);
  }

  /** An accepted block: written and indexed, `s` to `a` to `r`. */
  lemma AcceptedRepresents(s: Store, l: Log, a: Store, r: Store, b: Block)
    requires Represents(s, l) && b == NextBlock(l.blocks, b.doc, b.text) && b.Accepted()
    requires a.WellFormed() && r.WellFormed() && TextAppended(s, a, b.text)
    requires EntryAppended(a, r, b.AsEntry(), s.entryCount)
    ensures Represents(r, l.(blocks := l.blocks + [b]))
  {
    BlockAppended(s, l, a, b);
    AcceptedAppend(l.blocks, b);
    IndexHoldsMore(a, r, AcceptedEntries(l.blocks), b.AsEntry());
  }

  lemma StoreRepresents(s: Store, l: Log, doc: DocumentId, text: Text)
    requires Represents(s, l) && |text| <= s.limit
    ensures Represents(StoreText(s, doc, text).0, l.(blocks := l.blocks + [NextBlock(l.blocks, doc, text)]))
  {
    var b := NextBlock(l.blocks, doc, text);
    var a := AppendText(s, text);
    AppendTextWrites(s, text);
    if b.Accepted() {
      AppendEntryWrites(a, b.AsEntry(), a.entryCount);
      AcceptedRepresents(s, l, a, AppendEntry(a, b.AsEntry()), b);
    } else {
      RejectedRepresents(s, l, a, b);
    }
  }

  /** What opening finds when the cached header fields are on disk. */
  lemma OpenWithHeaders(s: Store, now: nat)
    requires s.WellFormed() && HeadersOnDisk(s) && Fits(s) && s.totalText < U64_LIMIT && s.nextEntry < U64_LIMIT
    ensures Open(s.index, s.data, now)
         == if s.nextEntry < INDEX_HEADER_SIZE then Err(Corruption) else Ok(s.(limit := DEFAULT_LIMIT))
  {
    IndexHeaderRoundTrip(s.entryCount, s.nextEntry, s.index[INDEX_HEADER_SIZE..], now);
    DataHeaderRoundTrip(s.totalText, s.nextText, s.data[DATA_HEADER_SIZE..], now);
    assert s.index == s.index[..INDEX_HEADER_SIZE] + s.index[INDEX_HEADER_SIZE..];
    assert s.data == s.data[..DATA_HEADER_SIZE] + s.data[DATA_HEADER_SIZE..];
  }

  /** Reopening finds exactly the state that was closed, apart from the limit. */
  lemma OpenRestores(s: Store, l: Log, now: nat)
    requires Represents(s, l) && Fits(s)
    ensures Open(s.index, s.data, now) == Ok(s.(limit := DEFAULT_LIMIT))
  {
    AcceptedBelowNext(l.blocks);
    OpenWithHeaders(s, now);
  }

  lemma LimitRepresents(s: Store, l: Log, limit: nat)
    requires Represents(s, l)
    ensures Represents(s.(limit := limit), l.(limit := limit))
  {
  }

  lemma StepRepresents(s: Store, l: Log, op: Op)
    requires Represents(s, l) && Fits(s)
    ensures Represents(Step(s, op), LogStep(l, op))
  {
    match op
    case StoreOp(doc, text) =>
      if |text| <= s.limit {
        StoreRepresents(s, l, doc, text);
      }
    case StoreSafeOp(doc, text) =>
      if |text| <= s.limit && 0 !in text {
        StoreRepresents(s, l, doc, text);
      }
    case SetLimit(limit) =>
      LimitRepresents(s, l, limit);
    case Reopen(now) =>
      OpenRestores(s, l, now);
      LimitRepresents(s, l, DEFAULT_LIMIT);
  }

  lemma {:induction false} RunRepresents(limit: nat, ops: seq<Op>)
    requires RunFits(Create(limit), ops)
    ensures Represents(Run(Create(limit), ops), LogRun(Log([], limit), ops))
  {
    if ops == [] {
      CreateRepresents(limit);
    } else {
      RunRepresents(limit, ops[..|ops| - 1]);
      StepRepresents(Run(Create(limit), ops[..|ops| - 1]), LogRun(Log([], limit), ops[..|ops| - 1]), ops[|ops| - 1]);
    }
  }

  // Reading

  /** The last entry for `doc`. */
  function LastFor(es: seq<Entry>, doc: DocumentId): Option<Entry> {
    if es == [] then None
    else if es[|es| - 1].doc == doc then Some(es[|es| - 1])
    else LastFor(es[..|es| - 1], doc)
  }

  lemma {:induction false} FindIsLastFor(index: seq<byte>, es: seq<Entry>, doc: DocumentId)
    requires IndexHolds(index, es) && forall i :: 0 <= i < |es| ==> es[i].Valid()
    ensures FindLatestBelow(index, |es|, doc) == Ok(LastFor(es, doc))
  {
    if es != [] {
      FindIsLastFor(index, es[..|es| - 1], doc);
    }
  }

  lemma LastForAppend(es: seq<Entry>, e: Entry, doc: DocumentId)
    ensures LastFor(es + [e], doc) == if e.doc == doc then Some(e) else LastFor(es, doc)
  {
    assert (es + [e])[..|es|] == es;
  }

  lemma {:induction false} LastForIsLatest(blocks: seq<Block>, doc: DocumentId)
    ensures LastFor(AcceptedEntries(blocks), doc)
         == if doc in Latest(blocks) then Some(Latest(blocks)[doc].AsEntry()) else None
  {
    if blocks != [] {
      var before, b := blocks[..|blocks| - 1], blocks[|blocks| - 1];
      LastForIsLatest(before, doc);
      LastForAppend(AcceptedEntries(before), b.AsEntry(), doc);
      assert AcceptedEntries(before) + [] == AcceptedEntries(before);
    }
  }

  /** Reading back a block that the data file holds. */
  lemma ReadBlock(data: seq<byte>, b: Block)
    requires BlockAt(data, b) && |b.text| < U32_LIMIT
    ensures ReadText(data, b.offset, |b.text|) == Ok(b.text)
  {
    BlockPrefix(data, b);
  }

  lemma SliceParts(data: seq<byte>, offset: nat, a: seq<byte>, b: seq<byte>)
    requires offset + |a| + |b| <= |data| && data[offset..offset + |a| + |b|] == a + b
    ensures data[offset..offset + |a|] == a && data[offset + |a|..offset + |a| + |b|] == b
  {
    var ab := data[offset..offset + |a| + |b|];
    assert ab[..|a|] == a && ab[|a|..] == b;
  }

  lemma BlockPrefix(data: seq<byte>, b: Block)
    requires BlockAt(data, b) && |b.text| < U32_LIMIT
    ensures FromLE(data[b.offset..b.offset + 4]) == |b.text|
    ensures data[b.offset + 4..b.End()] == b.text
  {
    SliceParts(data, b.offset, ToLE(|b.text|, 4), b.text);
    Widths();
    FromLEToLE(|b.text|, 4);
  }

  lemma {:induction false} AcceptedBelowNext(blocks: seq<Block>)
    requires Chained(blocks)
    ensures 5 * |AcceptedEntries(blocks)| <= EndOf(blocks)
  {
    if blocks != [] {
      var n := |blocks| - 1;
      assert Chained(blocks[..n]) by {
        forall i | 0 <= i < n
          ensures blocks[..n][i].offset == AlignUp(EndOf(blocks[..n][..i]))
        {
          assert blocks[..n][..i] == blocks[..i];
        }
      }
      AcceptedBelowNext(blocks[..n]);
    }
  }

  lemma GetTextIsLatest(s: Store, l: Log, doc: DocumentId)
    requires Represents(s, l)
    ensures GetText(s, doc)
         == if doc in Latest(l.blocks) then Ok(Latest(l.blocks)[doc].text) else Err(NotFound)
  {
    FindIsLastFor(s.index, AcceptedEntries(l.blocks), doc);
    LastForIsLatest(l.blocks, doc);
    if doc in Latest(l.blocks) {
      LatestIsAccepted(l.blocks, doc);
      ReadBlock(s.data, Latest(l.blocks)[doc]);
    }
  }

  /** The safe read also refuses texts over the size limit, which may have been lowered since. */
  lemma GetTextSafeIsLatest(s: Store, l: Log, doc: DocumentId)
    requires Represents(s, l)
    ensures GetTextSafe(s, doc)
         == if doc !in Latest(l.blocks) then Err(NotFound)
            else if |Latest(l.blocks)[doc].text| > s.limit then Err(TextCorruption(OverLimit))
            else Ok(Latest(l.blocks)[doc].text)
  {
    FindIsLastFor(s.index, AcceptedEntries(l.blocks), doc);
    LastForIsLatest(l.blocks, doc);
    if doc in Latest(l.blocks) {
      LatestIsAccepted(l.blocks, doc);
      ReadBlock(s.data, Latest(l.blocks)[doc]);
    }
  }

  /**
   * Reopening resets the limit: a text that could be read safely before still can if and only if it is within the
   * default limit of 10 MiB.
   */
  lemma ReopenKeepsSafeReadExactly(s: Store, l: Log, doc: DocumentId, now: nat)
    requires Represents(s, l) && Fits(s) && GetTextSafe(s, doc).Ok?
    ensures Open(s.index, s.data, now).Ok?
    ensures var r := Open(s.index, s.data, now).value; var text := GetTextSafe(s, doc).value;
            && GetText(r, doc) == Ok(text)
            && (GetTextSafe(r, doc) == Ok(text) <==> |text| <= 10 * 1024 * 1024)
            && (|text| > 10 * 1024 * 1024 ==> forall start, length :: ExtractSubstring(r, doc, start, length).Err?)
  {
    OpenRestores(s, l, now);
    LimitRepresents(s, l, DEFAULT_LIMIT);
    GetTextSafeIsLatest(s, l, doc);
    ReopenedReads(s.(limit := DEFAULT_LIMIT), l.(limit := DEFAULT_LIMIT), doc);
  }

  lemma ReopenedReads(r: Store, l: Log, doc: DocumentId)
    requires Represents(r, l) && doc in Latest(l.blocks)
    ensures var text := Latest(l.blocks)[doc].text;
            && GetText(r, doc) == Ok(text)
            && (GetTextSafe(r, doc) == Ok(text) <==> |text| <= r.limit)
            && (|text| > r.limit ==> GetTextSafe(r, doc).Err?)
  {
    GetTextIsLatest(r, l, doc);
    GetTextSafeIsLatest(r, l, doc);
  }

  lemma {:induction false} FoundIsValid(index: seq<byte>, n: nat, doc: DocumentId)
    requires FindLatestBelow(index, n, doc).Ok? && FindLatestBelow(index, n, doc).value.Some?
    ensures FindLatestBelow(index, n, doc).value.value.Valid() && FindLatestBelow(index, n, doc).value.value.doc == doc
  {
    if Slot(index, n - 1).doc != doc {
      FoundIsValid(index, n - 1, doc);
    }
  }

  /** On any files, the safe read is the plain read, but for a text over the limit that lies within the data file. */
  lemma SafeReadIsPlainRead(s: Store, doc: DocumentId)
    ensures GetTextSafe(s, doc)
         == match FindLatestBelow(s.index, s.entryCount, doc)
            case Ok(Some(e)) =>
              if e.length > s.limit && e.offset + 4 + e.length <= |s.data| then Err(TextCorruption(OverLimit))
              else GetText(s, doc)
            case _ => GetText(s, doc)
  {
    if FindLatestBelow(s.index, s.entryCount, doc).Ok? && FindLatestBelow(s.index, s.entryCount, doc).value.Some? {
      FoundIsValid(s.index, s.entryCount, doc);
    }
  }

  /** How much text the blocks hold. */
  function TextTotal(blocks: seq<Block>): nat {
    if blocks == [] then 0 else TextTotal(blocks[..|blocks| - 1]) + |blocks[|blocks| - 1].text|
  }

  /** After every run the recorded total is the length of all texts written, rejected ones included. */
  lemma {:induction false} RunCountsText(limit: nat, ops: seq<Op>)
    requires RunFits(Create(limit), ops)
    ensures Run(Create(limit), ops).totalText == TextTotal(LogRun(Log([], limit), ops).blocks)
  {
    if ops != [] {
      var (before, op) := (ops[..|ops| - 1], ops[|ops| - 1]);
      RunCountsText(limit, before);
      RunRepresents(limit, before);
      StepCountsText(Run(Create(limit), before), LogRun(Log([], limit), before), op);
    }
  }

  lemma StoreCountsText(s: Store, doc: DocumentId, text: Text)
    requires s.WellFormed()
    ensures StoreText(s, doc, text).0.totalText == s.totalText + if |text| > s.limit then 0 else |text|
  {
  }

  lemma StepCountsText(s: Store, l: Log, op: Op)
    requires Represents(s, l) && Fits(s) && s.totalText == TextTotal(l.blocks)
    ensures Step(s, op).totalText == TextTotal(LogStep(l, op).blocks)
  {
    match op
    case StoreOp(doc, text) =>
      StoreCountsText(s, doc, text);
      TextTotalMore(l.blocks, NextBlock(l.blocks, doc, text));
    case StoreSafeOp(doc, text) =>
      StoreCountsText(s, doc, text);
      TextTotalMore(l.blocks, NextBlock(l.blocks, doc, text));
    case SetLimit(_) =>
    case Reopen(now) => OpenRestores(s, l, now);
  }

  lemma TextTotalMore(blocks: seq<Block>, b: Block)
    ensures TextTotal(blocks + [b]) == TextTotal(blocks) + |b.text|
  {
    assert (blocks + [b])[..|blocks|] == blocks;
  }

  // Main results

  /** The append-only log refines a map: every run reads back the last accepted text of each document. */
  lemma LogRefinesMap(limit: nat, ops: seq<Op>, doc: DocumentId)
    requires RunFits(Create(limit), ops)
    ensures var latest := Latest(LogRun(Log([], limit), ops).blocks);
            GetText(Run(Create(limit), ops), doc) == (if doc in latest then Ok(latest[doc].text) else Err(NotFound))
  {
    RunRepresents(limit, ops);
    GetTextIsLatest(Run(Create(limit), ops), LogRun(Log([], limit), ops), doc);
  }

  /** A store is visible to its own document alone, and a rejected store to none. */
  lemma StoreIsolation(s: Store, l: Log, doc: DocumentId, text: Text, other: DocumentId)
    requires Represents(s, l)
    ensures var (r, outcome) := StoreText(s, doc, text);
            GetText(r, other) == if outcome.Ok? && other == doc then Ok(text) else GetText(s, other)
  {
    var (r, outcome) := StoreText(s, doc, text);
    if |text| <= s.limit {
      var b := NextBlock(l.blocks, doc, text);
      assert outcome.Ok? <==> b.Accepted();
      StoreRepresents(s, l, doc, text);
      AcceptedAppend(l.blocks, b);
      GetTextIsLatest(s, l, other);
      GetTextIsLatest(r, l.(blocks := l.blocks + [b]), other);
    }
  }

  /** When a store is accepted, in terms of the state before the call, and what it reports and leaves otherwise. */
  lemma AcceptedExactly(s: Store, doc: DocumentId, text: Text)
    requires s.WellFormed()
    ensures var (r, outcome) := StoreText(s, doc, text);
            && (outcome.Ok? <==>
                  0 < |text| <= s.limit && |text| <= 104857600 && AlignUp(s.nextText) + |text| <= 1000000000000)
            && (|text| > s.limit ==> r == s && outcome == Err(DocumentTooLarge(|text|, s.limit)))
            && (|text| <= s.limit && outcome.Err? ==>
                  outcome == Err(InvalidInput("text")) && r.index == s.index && r.nextText > s.nextText)
  {
  }

  /** A safe store refuses a text with a null byte, unless it is too large anyway, and changes nothing. */
  lemma SafeStoreExactly(s: Store, doc: DocumentId, text: Text)
    requires s.WellFormed()
    ensures var (r, outcome) := StoreTextSafe(s, doc, text);
            && (outcome.Ok? <==>
                  && 0 < |text| <= s.limit && |text| <= 104857600 && AlignUp(s.nextText) + |text| <= 1000000000000
                  && forall i :: 0 <= i < |text| ==> text[i] != 0)
            && (|text| > s.limit ==> r == s && outcome == Err(DocumentTooLarge(|text|, s.limit)))
            && (|text| <= s.limit ==>
                  if exists i :: 0 <= i < |text| && text[i] == 0
                  then r == s && outcome == Err(InvalidInput("document_text"))
                  else (r, outcome) == StoreText(s, doc, text))
  {
    if 0 in text {
      var i :| 0 <= i < |text| && text[i] == 0;
    }
    AcceptedExactly(s, doc, text);
  }

  function Resizes(s: Store, ops: seq<Op>): nat
    requires s.WellFormed()
  {
    if ops == [] then 0
    else
      var before := Run(s, ops[..|ops| - 1]);
      Resizes(s, ops[..|ops| - 1]) + if |Run(s, ops).data| != |before.data| then 1 else 0
  }

  /**
   * A file grows only when the block or entry does not fit, and then by a slack of 1 MiB or 32 KiB behind it, or
   * to twice its length, whichever is more.
   */
  lemma StoreGrowsExactly(s: Store, doc: DocumentId, text: Text)
    requires s.WellFormed()
    ensures var r := StoreText(s, doc, text).0;
            && |r.data| == (if r.nextText <= |s.data| || r == s then |s.data|
                            else Max(r.nextText + 1048576, 2 * |s.data|))
            && |r.index| == (if r.nextEntry <= |s.index| || r.nextEntry == s.nextEntry then |s.index|
                             else Max(r.nextEntry + 32768, 2 * |s.index|))
  {
    AppendTextWrites(s, text);
  }

  lemma StoreGrowth(s: Store, doc: DocumentId, text: Text)
    requires s.WellFormed()
    ensures |StoreText(s, doc, text).0.data| == |s.data| || |StoreText(s, doc, text).0.data| >= 2 * |s.data|
  {
    StoreGrowsExactly(s, doc, text);
  }

  lemma StepGrowth(s: Store, l: Log, op: Op)
    requires Represents(s, l) && Fits(s)
    ensures |Step(s, op).data| == |s.data| || |Step(s, op).data| >= 2 * |s.data|
  {
    match op
    case StoreOp(doc, text) => StoreGrowth(s, doc, text);
    case StoreSafeOp(doc, text) => StoreGrowth(s, doc, text);
    case SetLimit(_) =>
    case Reopen(now) => OpenRestores(s, l, now);
  }

  lemma Factor(first: nat, before: nat, after: nat, f: nat, g: nat)
    requires before >= f * first
    requires (after == before && g == f) || (after >= 2 * before && g == 2 * f)
    ensures after >= g * first
  {
    assert 2 * f * first == 2 * (f * first);
  }

  lemma ResizesStep(s0: Store, ops: seq<Op>)
    requires s0.WellFormed() && ops != []
    ensures var before := ops[..|ops| - 1];
            if |Run(s0, ops).data| == |Run(s0, before).data| then Resizes(s0, ops) == Resizes(s0, before)
            else Resizes(s0, ops) == Resizes(s0, before) + 1
  {
  }

  lemma {:induction false} ResizesDouble(limit: nat, ops: seq<Op>)
    requires RunFits(Create(limit), ops)
    ensures |Run(Create(limit), ops).data| >= Pow2(Resizes(Create(limit), ops)) * |Create(limit).data|
  {
    if ops != [] {
      var s0, before := Create(limit), ops[..|ops| - 1];
      ResizesDouble(limit, before);
      RunRepresents(limit, before);
      StepGrowth(Run(s0, before), LogRun(Log([], limit), before), ops[|ops| - 1]);
      ResizesStep(s0, ops);
      Factor(|s0.data|, |Run(s0, before).data|, |Run(s0, ops).data|,
             Pow2(Resizes(s0, before)), Pow2(Resizes(s0, ops)));
    }
  }

  /** The data file stays within a constant factor of what it holds, and every resize at least doubles it. */
  lemma GrowthBound(limit: nat, ops: seq<Op>)
    requires RunFits(Create(limit), ops)
    ensures var s := Run(Create(limit), ops);
            && s.nextText <= |s.data| <= 2 * s.nextText + MIB
            && |s.data| >= Pow2(Resizes(Create(limit), ops)) * |Create(limit).data|
  {
    RunRepresents(limit, ops);
    ResizesDouble(limit, ops);
  }
}
