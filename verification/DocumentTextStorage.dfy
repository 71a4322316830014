/** The document text storage: two files and their cached headers, changed in place. */
module DocumentTextStorage {
  import opened Bytes
  import opened Outcomes
  import opened TextFormat
  import opened Utf8
  import Log = TextLog
  import opened MappedFile

  datatype OpenResult = Opened(storage: Storage) | OpenFailed(error: Error)

  class Storage {
    var indexFile: array<byte>
    var dataFile: array<byte>
    var entryCount: nat
    var nextEntryOffset: nat
    var nextTextOffset: nat
    var totalTextSize: nat
    var maxDocumentSize: nat

    ghost function State(): Log.Store
      reads this, indexFile, dataFile
    {
      Log.Store(indexFile[..], dataFile[..], entryCount, nextEntryOffset, nextTextOffset, totalTextSize,
                maxDocumentSize)
    }

    ghost predicate Valid()
      reads this, indexFile, dataFile
    {
      indexFile != dataFile && State().WellFormed()
    }

    constructor Create(maxDocumentSize: nat)
      ensures Valid() && fresh(indexFile) && fresh(dataFile)
      ensures State() == Log.Create(maxDocumentSize)
    {
      var index := new byte[INDEX_HEADER_SIZE + 1000 * ENTRY_SIZE](_ => 0);
      var data := new byte[DATA_HEADER_SIZE + Log.MIB](_ => 0);
      assert index[..] == Zeros(INDEX_HEADER_SIZE + 1000 * ENTRY_SIZE);
      assert data[..] == Zeros(DATA_HEADER_SIZE + Log.MIB);
      WriteAt(index, 0, EncodeIndexHeader(0, INDEX_HEADER_SIZE));
      WriteAt(data, 0, EncodeDataHeader(0, DATA_HEADER_SIZE));
      this.indexFile, this.dataFile := index, data;
      this.entryCount, this.nextEntryOffset := 0, INDEX_HEADER_SIZE;
      this.nextTextOffset, this.totalTextSize := DATA_HEADER_SIZE, 0;
      this.maxDocumentSize := maxDocumentSize;
    }

    constructor FromFiles(indexFile: array<byte>, dataFile: array<byte>, index: (nat, nat), data: (nat, nat))
      ensures this.indexFile == indexFile && this.dataFile == dataFile
      ensures State() == Log.Store(indexFile[..], dataFile[..], index.0, index.1, data.1, data.0, Log.DEFAULT_LIMIT)
    {
      this.indexFile, this.dataFile := indexFile, dataFile;
      this.entryCount, this.nextEntryOffset := index.0, index.1;
      this.totalTextSize, this.nextTextOffset := data.0, data.1;
      this.maxDocumentSize := Log.DEFAULT_LIMIT;
    }

    static method Open(indexFile: array<byte>, dataFile: array<byte>, now: nat) returns (r: OpenResult)
      ensures match Log.Open(indexFile[..], dataFile[..], now)
              case Ok(s) => r.Opened? && fresh(r.storage) && r.storage.State() == s
                            && r.storage.indexFile == indexFile && r.storage.dataFile == dataFile
              case Err(e) => r == OpenFailed(e)
    {
      var indexHeader := ReadIndexHeader(indexFile[..], now);
      if indexHeader.Err? {
        return OpenFailed(indexHeader.error);
      }
      var dataHeader := ReadDataHeader(dataFile[..], now);
      if dataHeader.Err? {
        return OpenFailed(dataHeader.error);
      }
      var storage := new Storage.FromFiles(indexFile, dataFile, indexHeader.value, dataHeader.value);
      return Opened(storage);
    }

    /** Rounds up with the mask of the source. */
    static method AlignOffset(offset: nat) returns (aligned: nat)
      requires offset + 3 < U64_LIMIT
      ensures aligned == AlignUp(offset)
    {
      aligned := BitAnd(offset + 3, Not64(3));
      MaskIsAlignUp(offset);
    }

    method WriteDataHeader()
      requires dataFile.Length >= DATA_HEADER_SIZE
      modifies dataFile
      ensures dataFile[..] == Log.WithDataHeader(old(dataFile[..]), totalTextSize, nextTextOffset)
    {
      WriteAt(dataFile, 0, EncodeDataHeader(totalTextSize, nextTextOffset));
    }

    method WriteIndexHeader()
      requires indexFile.Length >= INDEX_HEADER_SIZE
      modifies indexFile
      ensures indexFile[..] == Log.WithIndexHeader(old(indexFile[..]), entryCount, nextEntryOffset)
    {
      WriteAt(indexFile, 0, EncodeIndexHeader(entryCount, nextEntryOffset));
    }

    method AppendTextData(text: seq<byte>) returns (offset: nat)
      requires Valid() && nextTextOffset + 8 + |text| < U64_LIMIT
      modifies this, dataFile
      ensures indexFile == old(indexFile) && (dataFile == old(dataFile) || fresh(dataFile))
      ensures State() == Log.AppendText(old(State()), text)
      ensures Valid() && offset == AlignUp(old(nextTextOffset))
    {
      var alignedOffset := AlignOffset(nextTextOffset);
      var padding := alignedOffset - nextTextOffset;
      dataFile := GrowAndWriteBlock(dataFile, nextTextOffset, padding, text);
      ghost var placed := dataFile[..];
      nextTextOffset := nextTextOffset + padding + 4 + |text|;
      totalTextSize := totalTextSize + |text|;
      assert dataFile[..] == placed;
      WriteDataHeader();
      return alignedOffset;
    }

    method AppendIndexEntry(entry: Entry)
      requires Valid()
      modifies this, indexFile
      ensures dataFile == old(dataFile) && (indexFile == old(indexFile) || fresh(indexFile))
      ensures State() == Log.AppendEntry(old(State()), entry)
      ensures Valid()
    {
      var requiredSize := nextEntryOffset + ENTRY_SIZE;
      indexFile := EnsureLength(indexFile, requiredSize, 32 * 1024);
      WriteAt(indexFile, nextEntryOffset, EncodeEntry(entry));
      entryCount, nextEntryOffset := entryCount + 1, requiredSize;
      WriteIndexHeader();
    }

    method StoreText(doc: DocumentId, text: Text) returns (r: Result<()>)
      requires Valid() && nextTextOffset + 8 + |text| < U64_LIMIT
      modifies this, indexFile, dataFile
      ensures Valid()
      ensures (indexFile == old(indexFile) || fresh(indexFile)) && (dataFile == old(dataFile) || fresh(dataFile))
      ensures (State(), r) == Log.StoreText(old(State()), doc, text)
    {
      if |text| > maxDocumentSize {
        return Err(DocumentTooLarge(|text|, maxDocumentSize));
      }
      var offset := AppendTextData(text);
      var entry := Entry(doc, offset, |text|);
      if !entry.Valid() {
        return Err(InvalidInput("text"));
      }
      AppendIndexEntry(entry);
      return Ok(());
    }

    method StoreTextSafe(doc: DocumentId, text: Text) returns (r: Result<()>)
      requires Valid() && nextTextOffset + 8 + |text| < U64_LIMIT
      modifies this, indexFile, dataFile
      ensures Valid()
      ensures (indexFile == old(indexFile) || fresh(indexFile)) && (dataFile == old(dataFile) || fresh(dataFile))
      ensures (State(), r) == Log.StoreTextSafe(old(State()), doc, text)
    {
      if |text| > maxDocumentSize {
        return Err(DocumentTooLarge(|text|, maxDocumentSize));
      }
      if 0 in text {
        return Err(InvalidInput("document_text"));
      }
      r := StoreText(doc, text);
    }

    /** Searches the index backward, most recent entry first. */
    method FindLatestDocumentEntry(doc: DocumentId) returns (r: Result<Option<Entry>>)
      requires Valid()
      ensures r == Log.FindLatestBelow(State().index, entryCount, doc)
    {
      var i: nat := entryCount;
      while i > 0
        invariant i <= entryCount
        invariant Log.FindLatestBelow(State().index, entryCount, doc) == Log.FindLatestBelow(State().index, i, doc)
      {
        var offset := Log.SlotOffset(i - 1);
        if offset + ENTRY_SIZE > indexFile.Length {
          return Err(MemoryMapping);
        }
        var entry := DecodeEntry(indexFile[offset..offset + ENTRY_SIZE]);
        assert entry == Log.Slot(indexFile[..], i - 1) by {
          assert indexFile[offset..offset + ENTRY_SIZE] == indexFile[..][offset..offset + ENTRY_SIZE];
        }
        if !entry.Valid() {
          return Err(TextCorruption(BadEntry));
        }
        if entry.doc == doc {
          return Ok(Some(entry));
        }
        i := i - 1;
      }
      return Ok(None);
    }

    method ReadTextAtOffset(offset: nat, length: nat) returns (r: Result<Text>)
      requires Valid()
      ensures r == Log.ReadText(State().data, offset, length)
    {
      if offset + 4 + length > dataFile.Length {
        return Err(TextCorruption(ExceedsFile));
      }
      var storedLength := FromLE(dataFile[offset..offset + 4]);
      assert dataFile[offset..offset + 4] == dataFile[..][offset..offset + 4];
      if storedLength != length {
        return Err(TextCorruption(LengthMismatch));
      }
      var text := dataFile[offset + 4..offset + 4 + length];
      assert text == dataFile[..][offset + 4..offset + 4 + length];
      if !ValidUtf8(text) {
        return Err(TextCorruption(BadUtf8));
      }
      return Ok(text);
    }

    method GetText(doc: DocumentId) returns (r: Result<Text>)
      requires Valid()
      ensures r == Log.GetText(State(), doc)
    {
      var found := FindLatestDocumentEntry(doc);
      match found
      case Err(e) => return Err(e);
      case Ok(None) => return Err(NotFound);
      case Ok(Some(entry)) => r := ReadTextAtOffset(entry.offset, entry.length);
    }

    method GetTextSafe(doc: DocumentId) returns (r: Result<Text>)
      requires Valid()
      ensures r == Log.GetTextSafe(State(), doc)
    {
      var found := FindLatestDocumentEntry(doc);
      match found
      case Err(e) => return Err(e);
      case Ok(None) => return Err(NotFound);
      case Ok(Some(entry)) =>
        if entry.offset + entry.length + 4 > dataFile.Length {
          return Err(TextCorruption(ExceedsFile));
        }
        if entry.length > maxDocumentSize {
          return Err(TextCorruption(OverLimit));
        }
        r := ReadTextAtOffset(entry.offset, entry.length);
        if r.Ok? && r.value == [] {
          return Err(TextCorruption(EmptyText));
        }
    }

    method ExtractTextSubstring(doc: DocumentId, start: nat, length: nat) returns (r: Result<Text>)
      requires Valid() && start < U32_LIMIT && length < U32_LIMIT
      ensures r == Log.ExtractSubstring(State(), doc, start, length)
    {
      r := GetTextSafe(doc);
      if r.Ok? {
        r := Log.Extract(r.value, start, length);
      }
    }

    /** `read` gives what reading a block of this storage gives. */
    ghost predicate ReadsBy(read: Log.BlockReader)
      reads this, indexFile, dataFile
    {
      forall offset: nat {:trigger Log.TryReadBlock(State().data, maxDocumentSize, offset)} ::
        Log.TryReadBlock(State().data, maxDocumentSize, offset) == read(offset)
    }

    method TryReadTextBlockAtOffset(offset: nat, ghost read: Log.BlockReader) returns (r: Result<nat>)
      requires Valid() && ReadsBy(read)
      ensures r == read(offset)
      ensures r.Ok? ==> offset + 4 + r.value <= dataFile.Length
    {
      assert Log.TryReadBlock(State().data, maxDocumentSize, offset) == read(offset);
      if offset + 4 > dataFile.Length {
        return Err(TextCorruption(ExceedsFile));
      }
      var length := FromLE(dataFile[offset..offset + 4]);
      assert dataFile[offset..offset + 4] == dataFile[..][offset..offset + 4];
      if length == 0 {
        return Err(TextCorruption(ZeroLength));
      }
      if length > maxDocumentSize {
        return Err(TextCorruption(OverLimit));
      }
      if offset + 4 + length > dataFile.Length {
        return Err(TextCorruption(ExceedsFile));
      }
      var text := dataFile[offset + 4..offset + 4 + length];
      assert text == dataFile[..][offset + 4..offset + 4 + length];
      if !ValidUtf8(text) {
        return Err(TextCorruption(BadUtf8));
      }
      return Ok(length);
    }

    /** Scans the data file and appends an entry for every block it can read and validate. */
    method RebuildIndexFromData(newId: nat -> DocumentId) returns (recovered: nat)
      requires Valid() && dataFile.Length + 3 < U64_LIMIT
      modifies this, indexFile
      ensures Valid() && dataFile == old(dataFile) && (indexFile == old(indexFile) || fresh(indexFile))
      ensures State() == Log.Rebuild(old(State()), newId)
      ensures recovered == if old(nextTextOffset) <= DATA_HEADER_SIZE then 0 else |Log.Recovered(old(State()), newId)|
    {
      entryCount, nextEntryOffset := 0, FILE_HEADER_SIZE;
      recovered := 0;
      if nextTextOffset <= DATA_HEADER_SIZE {
        return;
      }
      ghost var read := Log.Reader(State().data, maxDocumentSize);
      ghost var end := nextTextOffset;
      ghost var rest := (offset: nat) => Rest(read, end, offset, newId);
      RestSteps(read, end, newId);
      recovered := RecoverEntries(newId, read, rest);
      WriteIndexHeader();
    }

    /** The scanning loop of the rebuild; `rest` gives the entries to recover from an offset on. */
    method RecoverEntries(newId: nat -> DocumentId, ghost read: Log.BlockReader, ghost rest: nat -> seq<Entry>)
        returns (recovered: nat)
      requires Valid() && dataFile.Length + 3 < U64_LIMIT
      requires ReadsBy(read) && Recovers(read, nextTextOffset, newId, rest)
      modifies this, indexFile
      ensures dataFile == old(dataFile) && (indexFile == old(indexFile) || fresh(indexFile))
      ensures State() == Log.AppendEntries(old(State()), rest(DATA_HEADER_SIZE))
      ensures Valid() && recovered == |rest(DATA_HEADER_SIZE)|
    {
      var current, end := DATA_HEADER_SIZE, nextTextOffset;
      ghost var now := State();
      ghost var goal := Log.AppendEntries(now, rest(current));
      recovered := 0;
      var more := true;
      while more && current < end
        invariant dataFile == old(dataFile) && (indexFile == old(indexFile) || fresh(indexFile))
        invariant State() == now && Valid() && ReadsBy(read)
        invariant more ==> Log.AppendEntries(now, rest(current)) == goal
        invariant more ==> recovered + |rest(current)| == |rest(DATA_HEADER_SIZE)|
        invariant !more ==> now == goal && recovered == |rest(DATA_HEADER_SIZE)|
        decreases more, if current < end then end - current else 0
      {
        var found: Option<Entry>;
        ghost var offset := current;
        more, found, current := RecoverBlock(current, newId, read);
        RecoverNext(now, read, end, newId, rest, offset);
        if found.Some? {
          now := Log.AppendEntry(now, found.value);
          recovered := recovered + 1;
        }
      }
    }

    /** Tries to recover the block at an offset, and says where to go on, if at all. */
    method RecoverBlock(current: nat, newId: nat -> DocumentId, ghost read: Log.BlockReader)
        returns (more: bool, found: Option<Entry>, next: nat)
      requires Valid() && dataFile.Length + 3 < U64_LIMIT && ReadsBy(read)
      modifies this, indexFile
      ensures dataFile == old(dataFile) && (indexFile == old(indexFile) || fresh(indexFile))
      ensures Valid() && State() == if found.Some? then Log.AppendEntry(old(State()), found.value) else old(State())
      ensures (more, found, next) == RecoveryStep(read, newId, current)
    {
      var block := TryReadTextBlockAtOffset(current, read);
      if block.Err? && block.error == TextCorruption(ExceedsFile) {
        return false, None, current;
      }
      if block.Err? {
        return true, None, current + 4;
      }
      var entry := Entry(newId(current), current, block.value);
      next := AlignOffset(current + 4 + block.value);
      if !entry.Valid() {
        return true, None, next;
      }
      AppendIndexEntry(entry);
      return true, Some(entry), next;
    }

    /** Counts the blocks up to the first unreadable one, and finds where the last of them ends. */
    method ScanValidBlocks(ghost read: Log.BlockReader) returns (valid: nat, scanned: nat, point: nat)
      requires Valid() && dataFile.Length + 3 < U64_LIMIT && ReadsBy(read)
      ensures var kept := Log.ValidPrefix(read, nextTextOffset, DATA_HEADER_SIZE);
              && valid == |kept| && point == Log.PrefixEnd(kept)
              && scanned == valid + if point < nextTextOffset then 1 else 0
    {
      ghost var kept := Log.ValidPrefix(read, nextTextOffset, DATA_HEADER_SIZE);
      var current := DATA_HEADER_SIZE;
      var lastOffset: nat, lastLength: nat := 0, 0;
      valid, scanned := 0, 0;
      while current < nextTextOffset
        invariant valid == scanned
        invariant Scanned(read, nextTextOffset, kept, valid, Log.Span(lastOffset, lastLength), current)
        invariant valid > 0 ==> lastOffset + 4 + lastLength <= dataFile.Length
        decreases if current < nextTextOffset then nextTextOffset - current else 0
      {
        scanned := scanned + 1;
        ScannedStep(read, nextTextOffset, kept, valid, Log.Span(lastOffset, lastLength), current);
        var block, next := BlockAndNext(current, read);
        if block.Err? {
          break;
        }
        lastOffset, lastLength, valid := current, block.value, valid + 1;
        current := next;
      }
      point := DATA_HEADER_SIZE;
      if valid > 0 {
        point := AlignOffset(lastOffset + 4 + lastLength);
      }
    }

    /** Reads the block at an offset and finds where the next one starts. */
    method BlockAndNext(offset: nat, ghost read: Log.BlockReader) returns (block: Result<nat>, next: nat)
      requires Valid() && dataFile.Length + 3 < U64_LIMIT && ReadsBy(read)
      ensures block == read(offset)
      ensures block.Ok? ==> offset + 4 + block.value <= dataFile.Length && next == AlignUp(offset + 4 + block.value)
    {
      block := TryReadTextBlockAtOffset(offset, read);
      next := offset;
      if block.Ok? {
        next := AlignOffset(offset + 4 + block.value);
      }
    }

    /** Cuts the data file behind the last block before the first unreadable one. */
    method TruncateToLastValid() returns (point: nat, lost: nat)
      requires Valid() && dataFile.Length + 3 < U64_LIMIT
      modifies this, dataFile
      ensures (State(), point, lost) == Log.Truncate(old(State()))
      ensures Valid() && indexFile == old(indexFile) && (dataFile == old(dataFile) || fresh(dataFile))
    {
      if nextTextOffset <= DATA_HEADER_SIZE {
        return nextTextOffset, 0;
      }
      Log.TruncateCases(State());
      var valid, scanned, end := ScanValidBlocks(Log.Reader(State().data, maxDocumentSize));
      if end >= nextTextOffset && valid > 0 {
        return nextTextOffset, 0;
      }
      CutAt(end);
      return end, scanned - valid;
    }

    method CutAt(point: nat)
      requires Valid() && DATA_HEADER_SIZE <= point <= nextTextOffset
      modifies this, dataFile
      ensures State() == Log.CutAt(old(State()), point)
      ensures Valid() && indexFile == old(indexFile) && (dataFile == old(dataFile) || fresh(dataFile))
    {
      dataFile := Resize(dataFile, point);
      var removed := nextTextOffset - point;
      nextTextOffset := point;
      if totalTextSize >= removed {
        totalTextSize := totalTextSize - removed;
      } else {
        totalTextSize := point - DATA_HEADER_SIZE;
      }
      WriteDataHeader();
    }
  }

  /** The entries still to be recovered from `offset` on. */
  function Rest(read: Log.BlockReader, end: nat, offset: nat, newId: nat -> DocumentId): seq<Entry> {
    Log.EntriesOf(Log.ScanBlocks(read, end, offset), newId)
  }

  lemma EntriesOfNext(span: Log.Span, rest: seq<Log.Span>, newId: nat -> DocumentId)
    ensures var e := Entry(newId(span.offset), span.offset, span.length); var es := Log.EntriesOf([span] + rest, newId);
            if e.Valid() then es != [] && es[0] == e && es[1..] == Log.EntriesOf(rest, newId)
            else es == Log.EntriesOf(rest, newId)
  {
    assert ([span] + rest)[1..] == rest;
  }

  /** One step of the scan: whether it goes on, the entry it recovers, and where it goes on. */
  function RecoveryStep(read: Log.BlockReader, newId: nat -> DocumentId, offset: nat): (bool, Option<Entry>, nat) {
    match read(offset)
    case Ok(length) =>
      var e := Entry(newId(offset), offset, length);
      (true, if e.Valid() then Some(e) else None, AlignUp(offset + 4 + length))
    case Err(e) => if e == TextCorruption(ExceedsFile) then (false, None, offset) else (true, None, offset + 4)
  }

  /** What is left to recover, before and after one step of the scan. */
  lemma RecoverNext(s: Log.Store, read: Log.BlockReader, end: nat, newId: nat -> DocumentId, rest: nat -> seq<Entry>,
                    offset: nat)
    requires s.WellFormed() && Recovers(read, end, newId, rest) && offset < end
    ensures var (more, found, next) := RecoveryStep(read, newId, offset);
            && (more ==> next > offset)
            && (!more ==> found == None && rest(offset) == [])
            && |rest(offset)| == (if found.Some? then 1 else 0) + (if more then |rest(next)| else 0)
            && Log.AppendEntries(s, rest(offset))
               == (if !more then s
                   else Log.AppendEntries(if found.Some? then Log.AppendEntry(s, found.value) else s, rest(next)))
  {
  }

  /** `rest` satisfies the recursion of the recovery scan. */
  ghost predicate Recovers(read: Log.BlockReader, end: nat, newId: nat -> DocumentId, rest: nat -> seq<Entry>) {
    && (forall offset: nat :: offset >= end ==> rest(offset) == [])
    && (forall offset: nat {:trigger read(offset)} :: offset < end ==>
          match read(offset)
          case Ok(length) =>
            var e := Entry(newId(offset), offset, length);
            var next := rest(AlignUp(offset + 4 + length));
            if e.Valid() then rest(offset) != [] && rest(offset)[0] == e && rest(offset)[1..] == next
            else rest(offset) == next
          case Err(error) =>
            rest(offset) == if error == TextCorruption(ExceedsFile) then [] else rest(offset + 4))
  }

  lemma RestSteps(read: Log.BlockReader, end: nat, newId: nat -> DocumentId)
    ensures Recovers(read, end, newId, (offset: nat) => Rest(read, end, offset, newId))
  {
    forall offset: nat | offset < end && read(offset).Ok?
      ensures var length := read(offset).value;
              var e := Entry(newId(offset), offset, length);
              var es, next := Rest(read, end, offset, newId), Rest(read, end, AlignUp(offset + 4 + length), newId);
              if e.Valid() then es != [] && es[0] == e && es[1..] == next else es == next
    {
      var length := read(offset).value;
      EntriesOfNext(Log.Span(offset, length), Log.ScanBlocks(read, end, AlignUp(offset + 4 + length)), newId);
    }
  }

  function LastOf(spans: seq<Log.Span>, default: Log.Span): Log.Span {
    if spans == [] then default else spans[|spans| - 1]
  }

  /** The scan has read `valid` of the kept blocks, the last one being `last`, and goes on at `current`. */
  ghost predicate Scanned(read: Log.BlockReader, end: nat, kept: seq<Log.Span>, valid: nat, last: Log.Span,
                          current: nat)
  {
    var rest := Log.ValidPrefix(read, end, current);
    && valid + |rest| == |kept|
    && LastOf(kept, Log.Span(0, 0)) == LastOf(rest, last)
    && current == (if valid == 0 then DATA_HEADER_SIZE else AlignUp(last.offset + 4 + last.length))
    && (current >= end ==> valid == |kept| && Log.PrefixEnd(kept) == current)
  }

  /** One step of the scan for the kept blocks. */
  lemma ScannedStep(read: Log.BlockReader, end: nat, kept: seq<Log.Span>, valid: nat, last: Log.Span, current: nat)
    requires Scanned(read, end, kept, valid, last, current) && current < end
    ensures read(current).Err? ==> valid == |kept| && Log.PrefixEnd(kept) == current
    ensures read(current).Ok? ==>
              var next := AlignUp(current + 4 + read(current).value);
              Scanned(read, end, kept, valid + 1, Log.Span(current, read(current).value), next)
  {
  }
}
