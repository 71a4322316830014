/** What the operations of the document text storage compute, as functions on the two files and cached headers. */
module TextLog {
  import opened Bytes
  import opened Outcomes
  import opened TextFormat
  import opened Utf8

  const MIB := 1024 * 1024
  const DEFAULT_LIMIT := 10 * MIB

  datatype Store = Store(
    index: seq<byte>,
    data: seq<byte>,
    entryCount: nat,
    nextEntry: nat,
    nextText: nat,
    totalText: nat,
    limit: nat)
  {
    /** What every opened or created storage satisfies: both headers fit and no offset points into one. */
    predicate WellFormed() {
      && |index| >= INDEX_HEADER_SIZE
      && |data| >= DATA_HEADER_SIZE
      && nextEntry >= FILE_HEADER_SIZE
      && FILE_HEADER_SIZE + ENTRY_SIZE * entryCount <= nextEntry
      && nextText >= DATA_HEADER_SIZE
    }
  }

  function WithIndexHeader(index: seq<byte>, entryCount: nat, nextEntry: nat): (r: seq<byte>)
    requires |index| >= INDEX_HEADER_SIZE
    ensures |r| == |index|
  {
    Splice(index, 0, EncodeIndexHeader(entryCount, nextEntry))
  }

  function WithDataHeader(data: seq<byte>, totalText: nat, nextText: nat): (r: seq<byte>)
    requires |data| >= DATA_HEADER_SIZE
    ensures |r| == |data|
  {
    Splice(data, 0, EncodeDataHeader(totalText, nextText))
  }

  /** `create`: 1000 entries of index and 1 MiB of text behind the headers. */
  function Create(limit: nat): (s: Store)
    ensures s.WellFormed()
  {
    Store(
      WithIndexHeader(Zeros(INDEX_HEADER_SIZE + 1000 * ENTRY_SIZE), 0, INDEX_HEADER_SIZE),
      WithDataHeader(Zeros(DATA_HEADER_SIZE + MIB), 0, DATA_HEADER_SIZE),
      0, INDEX_HEADER_SIZE, DATA_HEADER_SIZE, 0, limit)
  }

  /** `open` at the time `now`: headers come from the files and the limit falls back to its default. */
  function Open(index: seq<byte>, data: seq<byte>, now: nat): Result<Store> {
    match ReadIndexHeader(index, now)
    case Err(e) => Err(e)
    case Ok((entryCount, nextEntry)) =>
      match ReadDataHeader(data, now)
      case Err(e) => Err(e)
      case Ok((totalText, nextText)) =>
        Ok(Store(index, data, entryCount, nextEntry, nextText, totalText, DEFAULT_LIMIT))
  }

  // Writing

  /** File length after making room for `required` bytes, growing by at least `slack` and at least doubling. */
  function GrownLength(length: nat, required: nat, slack: nat): (r: nat)
    ensures r >= length && r >= required
  {
    if required > length then Max(required + slack, 2 * length) else length
  }

  /** A text block: length prefix, then the text. */
  function BlockBytes(text: seq<byte>): (b: seq<byte>)
    ensures |b| == 4 + |text|
  {
    ToLE(|text| % U32_LIMIT, 4) + text
  }

  /** The data file after making room and writing alignment padding and a block at `offset`. */
  function PlaceBlock(data: seq<byte>, offset: nat, padding: nat, text: seq<byte>): (r: seq<byte>)
    ensures |r| == GrownLength(|data|, offset + padding + 4 + |text|, MIB)
  {
    var end := offset + padding + 4 + |text|;
    Splice(Resized(data, GrownLength(|data|, end, MIB)), offset, Zeros(padding) + BlockBytes(text))
  }

  /** `append_text_data`; the block starts at `AlignUp(s.nextText)`. */
  function AppendText(s: Store, text: seq<byte>): (r: Store)
    requires s.WellFormed()
    ensures r.WellFormed()
  {
    var padding := AlignUp(s.nextText) - s.nextText;
    var end := s.nextText + padding + 4 + |text|;
    var placed := PlaceBlock(s.data, s.nextText, padding, text);
    s.(data := WithDataHeader(placed, s.totalText + |text|, end),
       nextText := end,
       totalText := s.totalText + |text|)
  }

  /** `append_index_entry`: the entry goes to the cached next offset, then the header is rewritten. */
  function AppendEntry(s: Store, e: Entry): (r: Store)
    requires s.WellFormed()
    ensures r.WellFormed()
  {
    var end := s.nextEntry + ENTRY_SIZE;
    var grown := Resized(s.index, GrownLength(|s.index|, end, 32 * 1024));
    var written := Splice(grown, s.nextEntry, EncodeEntry(e));
    s.(index := WithIndexHeader(written, s.entryCount + 1, end),
       entryCount := s.entryCount + 1,
       nextEntry := end)
  }

  /** `store_text`. A text that is rejected only by its index entry has already been written as a block. */
  function StoreText(s: Store, doc: DocumentId, text: Text): (r: (Store, Result<()>))
    requires s.WellFormed()
    ensures r.0.WellFormed()
  {
    if |text| > s.limit then (s, Err(DocumentTooLarge(|text|, s.limit)))
    else
      var entry := Entry(doc, AlignUp(s.nextText), |text|);
      var appended := AppendText(s, text);
      if entry.Valid() then (AppendEntry(appended, entry), Ok(()))
      else (appended, Err(InvalidInput("text")))
  }

  /** `store_text_safe`: as `store_text`, after refusing null bytes. */
  function StoreTextSafe(s: Store, doc: DocumentId, text: Text): (r: (Store, Result<()>))
    requires s.WellFormed()
    ensures r.0.WellFormed()
  {
    if |text| > s.limit then (s, Err(DocumentTooLarge(|text|, s.limit)))
    else if 0 in text then (s, Err(InvalidInput("document_text")))
    else StoreText(s, doc, text)
  }

  // Reading

  function SlotOffset(i: nat): nat {
    INDEX_HEADER_SIZE + i * ENTRY_SIZE
  }

  /** The entry stored at slot `i`, where `offset_for_entry` looks for it. */
  function Slot(index: seq<byte>, i: nat): Entry
    requires SlotOffset(i) + ENTRY_SIZE <= |index|
  {
    DecodeEntry(index[SlotOffset(i)..SlotOffset(i) + ENTRY_SIZE])
  }

  /** The backward search of `find_latest_document_entry` over the slots below `n`. */
  function FindLatestBelow(index: seq<byte>, n: nat, doc: DocumentId): Result<Option<Entry>> {
    if n == 0 then Ok(None)
    else if SlotOffset(n - 1) + ENTRY_SIZE > |index| then Err(MemoryMapping)
    else
      var e := Slot(index, n - 1);
      if !e.Valid() then Err(TextCorruption(BadEntry))
      else if e.doc == doc then Ok(Some(e))
      else FindLatestBelow(index, n - 1, doc)
  }

  /** `read_text_at_offset`. */
  function ReadText(data: seq<byte>, offset: nat, length: nat): (r: Result<Text>)
    ensures r.Ok? ==> |r.value| == length < U32_LIMIT && offset + 4 + length <= |data|
  {
    if offset + 4 + length > |data| then Err(TextCorruption(ExceedsFile))
    else
      var prefix := data[offset..offset + 4];
      FromLEBound(prefix); Widths();
      if FromLE(prefix) != length then Err(TextCorruption(LengthMismatch))
      else
        var text := data[offset + 4..offset + 4 + length];
        if ValidUtf8(text) then Ok(text) else Err(TextCorruption(BadUtf8))
  }

  /** `get_text`. */
  function GetText(s: Store, doc: DocumentId): Result<Text> {
    match FindLatestBelow(s.index, s.entryCount, doc)
    case Err(e) => Err(e)
    case Ok(None) => Err(NotFound)
    case Ok(Some(e)) => ReadText(s.data, e.offset, e.length)
  }

  /** `get_text_safe`: also refuses entries over the size limit, and empty text. */
  function GetTextSafe(s: Store, doc: DocumentId): Result<Text> {
    match FindLatestBelow(s.index, s.entryCount, doc)
    case Err(e) => Err(e)
    case Ok(None) => Err(NotFound)
    case Ok(Some(e)) =>
      if e.offset + e.length + 4 > |s.data| then Err(TextCorruption(ExceedsFile))
      else if e.length > s.limit then Err(TextCorruption(OverLimit))
      else
        match ReadText(s.data, e.offset, e.length)
        case Err(error) => Err(error)
        case Ok(text) => if text == [] then Err(TextCorruption(EmptyText)) else Ok(text)
  }

  /** `extract_text_substring`, after the text has been fetched. */
  function Extract(text: Text, start: nat, length: nat): Result<Text>
  {
    if length == 0 || start + length > |text| then Err(InvalidRange(start, length, |text|))
    else if !IsCharBoundary(text, start) || !IsCharBoundary(text, start + length)
    then Err(InvalidRange(start, length, |text|))
    else
      SliceIsText(text, start, start + length);
      Ok(text[start..start + length])
  }

  /** `extract_text_substring`. */
  function ExtractSubstring(s: Store, doc: DocumentId, start: nat, length: nat): Result<Text> {
    match GetTextSafe(s, doc)
    case Err(e) => Err(e)
    case Ok(text) => Extract(text, start, length)
  }

  // Recovery

  datatype Span = Span(offset: nat, length: nat)

  /** `try_read_text_block_at_offset`; yields the length of the block. */
  function TryReadBlock(data: seq<byte>, limit: nat, offset: nat): (r: Result<nat>)
    ensures r.Ok? ==> 0 < r.value <= limit && offset + 4 + r.value <= |data|
  {
    if offset + 4 > |data| then Err(TextCorruption(ExceedsFile))
    else
      var length := FromLE(data[offset..offset + 4]);
      if length == 0 then Err(TextCorruption(ZeroLength))
      else if length > limit then Err(TextCorruption(OverLimit))
      else if offset + 4 + length > |data| then Err(TextCorruption(ExceedsFile))
      else if !ValidUtf8(data[offset + 4..offset + 4 + length]) then Err(TextCorruption(BadUtf8))
      else Ok(length)
  }

  /** Reading blocks of one file under one limit. */
  type BlockReader = nat -> Result<nat>

  function Reader(data: seq<byte>, limit: nat): BlockReader {
    (offset: nat) => TryReadBlock(data, limit, offset)
  }

  /**
   * The blocks the rebuild scan reads from `offset` on: it jumps over each block it can read, gives up at a
   * block running past the file, and otherwise tries again four bytes later.
   */
  function ScanBlocks(read: BlockReader, end: nat, offset: nat): seq<Span>
    decreases if offset < end then end - offset else 0
  {
    if offset >= end then []
    else
      match read(offset)
      case Ok(length) => [Span(offset, length)] + ScanBlocks(read, end, AlignUp(offset + 4 + length))
      case Err(e) =>
        if e == TextCorruption(ExceedsFile) then [] else ScanBlocks(read, end, offset + 4)
  }

  /** The entries that rebuild appends: one per readable block that validates, each under a new identifier. */
  function EntriesOf(spans: seq<Span>, newId: nat -> DocumentId): seq<Entry> {
    if spans == [] then []
    else
      var e := Entry(newId(spans[0].offset), spans[0].offset, spans[0].length);
      (if e.Valid() then [e] else []) + EntriesOf(spans[1..], newId)
  }

  function Recovered(s: Store, newId: nat -> DocumentId): seq<Entry> {
    EntriesOf(ScanBlocks(Reader(s.data, s.limit), s.nextText, DATA_HEADER_SIZE), newId)
  }

  function AppendEntries(s: Store, es: seq<Entry>): (r: Store)
    requires s.WellFormed()
    ensures r.WellFormed()
    decreases |es|
  {
    if es == [] then s else AppendEntries(AppendEntry(s, es[0]), es[1..])
  }

  /** The cached index header as the rebuild resets it: the next offset is the size of the *file* header. */
  function ResetIndex(s: Store): (r: Store)
    requires s.WellFormed()
    ensures r.WellFormed()
  {
    s.(entryCount := 0, nextEntry := FILE_HEADER_SIZE)
  }

  /** `rebuild_index_from_data`; new identifiers are drawn from `newId`. */
  function Rebuild(s: Store, newId: nat -> DocumentId): (r: Store)
    requires s.WellFormed()
    ensures r.WellFormed()
  {
    if s.nextText <= DATA_HEADER_SIZE then ResetIndex(s)
    else
      var r := AppendEntries(ResetIndex(s), Recovered(s, newId));
      r.(index := WithIndexHeader(r.index, r.entryCount, r.nextEntry))
  }

  /** The blocks `truncate_to_last_valid` keeps: those read before the first one that cannot be. */
  function ValidPrefix(read: BlockReader, end: nat, offset: nat): seq<Span>
    decreases if offset < end then end - offset else 0
  {
    if offset >= end then []
    else
      match read(offset)
      case Ok(length) => [Span(offset, length)] + ValidPrefix(read, end, AlignUp(offset + 4 + length))
      case Err(_) => []
  }

  /** Where the block after `spans` starts. */
  function PrefixEnd(spans: seq<Span>): (end: nat) {
    if spans == [] then DATA_HEADER_SIZE
    else var last := spans[|spans| - 1]; AlignUp(last.offset + 4 + last.length)
  }

  /** The blocks that truncation keeps. */
  function Kept(s: Store): seq<Span> {
    ValidPrefix(Reader(s.data, s.limit), s.nextText, DATA_HEADER_SIZE)
  }

  /** The file resized to `point`, which becomes the next offset; the text total loses every removed byte. */
  function CutAt(s: Store, point: nat): (r: Store)
    requires s.WellFormed() && DATA_HEADER_SIZE <= point <= s.nextText
    ensures r.WellFormed()
  {
    var removed := s.nextText - point;
    var total := if s.totalText >= removed then s.totalText - removed else point - DATA_HEADER_SIZE;
    s.(data := WithDataHeader(Resized(s.data, point), total, point), nextText := point, totalText := total)
  }

  /** `truncate_to_last_valid`: the new next offset and the number of entries reported lost. */
  function Truncate(s: Store): (r: (Store, nat, nat))
    requires s.WellFormed()
    ensures r.0.WellFormed()
  {
    var point := PrefixEnd(Kept(s));
    if s.nextText <= DATA_HEADER_SIZE then (s, s.nextText, 0)
    else if point >= s.nextText && Kept(s) != [] then (s, s.nextText, 0)
    else
      PrefixEndBound(Reader(s.data, s.limit), s.nextText, DATA_HEADER_SIZE);
      (CutAt(s, point), point, 1)
  }

  /** The two outcomes of a truncation, by where the kept blocks end. */
  lemma TruncateCases(s: Store)
    requires s.WellFormed()
    ensures if s.nextText <= DATA_HEADER_SIZE || (PrefixEnd(Kept(s)) >= s.nextText && Kept(s) != [])
            then Truncate(s) == (s, s.nextText, 0)
            else DATA_HEADER_SIZE <= PrefixEnd(Kept(s)) <= s.nextText
                 && Truncate(s) == (CutAt(s, PrefixEnd(Kept(s))), PrefixEnd(Kept(s)), 1)
  {
    PrefixEndBound(Reader(s.data, s.limit), s.nextText, DATA_HEADER_SIZE);
  }

  lemma {:induction false} PrefixEndBound(read: BlockReader, end: nat, offset: nat)
    ensures var kept := ValidPrefix(read, end, offset); kept != [] ==> PrefixEnd(kept) > offset
    decreases if offset < end then end - offset else 0
  {
    var kept := ValidPrefix(read, end, offset);
    if kept != [] {
      var next := AlignUp(offset + 4 + kept[0].length);
      var rest := ValidPrefix(read, end, next);
      PrefixEndBound(read, end, next);
      assert kept == [kept[0]] + rest;
    }
  }
}
