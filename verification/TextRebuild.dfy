/**
 * What a rebuild leaves in the index file. The rebuild restarts the index at the size of the standard file
 * header (80) while readers look for entry 0 behind the text index header (112): each recovered entry lands one
 * slot early, and the first one under the header.
 */
module TextRebuild {
  import opened Bytes
  import opened Outcomes
  import opened TextFormat
  import opened Utf8
  import opened TextLog
  import opened TextLogRuns
  import opened TextScan

  // The slots after a rebuild

  /** `k` entries appended after a reset: entry `j` is in slot `j - 1`, later slots are as before. */
  ghost predicate Shifted(s: Store, r: Store, es: seq<Entry>, k: nat)
    requires k <= |es|
  {
    && r == s.(index := r.index, entryCount := k, nextEntry := FILE_HEADER_SIZE + k * ENTRY_SIZE)
    && |s.index| <= |r.index| && (k > 0 ==> r.nextEntry <= |r.index|)
    && (k > 0 ==> r.index[..INDEX_HEADER_SIZE] == EncodeIndexHeader(k, r.nextEntry))
    && (forall i: nat :: i + 1 < k ==> InFile(r.index, i) && Slot(r.index, i) == es[i + 1])
    && (forall i: nat :: k - 1 <= i && InFile(s.index, i) ==> Slot(r.index, i) == Slot(s.index, i))
  }

  lemma ShiftedStep(s: Store, a: Store, r: Store, es: seq<Entry>, k: nat)
    requires k < |es| && |s.index| >= INDEX_HEADER_SIZE
    requires Shifted(s, a, es, k) && EntryAppended(a, r, es[k], k - 1)
    ensures Shifted(s, r, es, k + 1)
  {
    forall i: nat | i + 1 < k + 1
      ensures InFile(r.index, i) && Slot(r.index, i) == es[i + 1]
    {
      assert i + 1 < k ==> InFile(a.index, i) && Slot(a.index, i) == es[i + 1];
    }
  }

  lemma {:induction false} AppendsAreShifted(s: Store, a: Store, es: seq<Entry>, k: nat)
    requires k <= |es| && forall i :: 0 <= i < |es| ==> es[i].Valid()
    requires |s.index| >= INDEX_HEADER_SIZE && a.WellFormed() && Shifted(s, a, es, k)
    ensures Shifted(s, AppendEntries(a, es[k..]), es, |es|)
    decreases |es| - k
  {
    if k < |es| {
      var r := AppendEntry(a, es[k]);
      AppendEntryWrites(a, es[k], k - 1);
      ShiftedStep(s, a, r, es, k);
      AppendsAreShifted(s, r, es, k + 1);
      assert es[k..][1..] == es[k + 1..];
    }
  }

  lemma HeaderRewriteKeepsSlots(index: seq<byte>, entryCount: nat, nextEntry: nat, i: nat)
    requires |index| >= INDEX_HEADER_SIZE && InFile(index, i)
    ensures Slot(WithIndexHeader(index, entryCount, nextEntry), i) == Slot(index, i)
  {
    SpliceKeeps(index, 0, EncodeIndexHeader(entryCount, nextEntry), SlotOffset(i), SlotOffset(i) + ENTRY_SIZE);
  }

  /** Entry `j` in slot `j - 1`, the header of `r` on disk, and all later slots as in `s`. */
  ghost predicate ShiftedIndex(s: Store, r: Store, es: seq<Entry>) {
    && r == s.(index := r.index, entryCount := |es|, nextEntry := FILE_HEADER_SIZE + |es| * ENTRY_SIZE)
    && INDEX_HEADER_SIZE <= |s.index| <= |r.index|
    && r.index[..INDEX_HEADER_SIZE] == EncodeIndexHeader(r.entryCount, r.nextEntry)
    && (forall i: nat :: i + 1 < |es| ==> InFile(r.index, i) && Slot(r.index, i) == es[i + 1])
    && (forall i: nat :: |es| - 1 <= i && InFile(s.index, i) ==> Slot(r.index, i) == Slot(s.index, i))
  }

  lemma RewriteShifted(s: Store, a: Store, r: Store, es: seq<Entry>)
    requires |s.index| >= INDEX_HEADER_SIZE && Shifted(s, a, es, |es|)
    requires r == a.(index := WithIndexHeader(a.index, a.entryCount, a.nextEntry))
    ensures ShiftedIndex(s, r, es)
  {
    SpliceReads(a.index, 0, EncodeIndexHeader(a.entryCount, a.nextEntry));
    forall i: nat | InFile(a.index, i)
      ensures Slot(r.index, i) == Slot(a.index, i)
    {
      HeaderRewriteKeepsSlots(a.index, a.entryCount, a.nextEntry, i);
    }
    forall i: nat | i + 1 < |es|
      ensures InFile(r.index, i) && Slot(r.index, i) == es[i + 1]
    {
      assert InFile(a.index, i) && Slot(a.index, i) == es[i + 1];
    }
  }

  /** After a rebuild, slot `j - 1` holds recovered entry `j`, and the last counted slot is left as it was. */
  lemma RebuiltSlots(s: Store, newId: nat -> DocumentId)
    requires s.WellFormed() && s.nextText > DATA_HEADER_SIZE
    ensures ShiftedIndex(s, Rebuild(s, newId), Recovered(s, newId))
  {
    var es := Recovered(s, newId);
    RecoveryIsSound(s, newId);
    AppendsAreShifted(s, ResetIndex(s), es, 0);
    assert es[0..] == es;
    RewriteShifted(s, AppendEntries(ResetIndex(s), es), Rebuild(s, newId), es);
  }

  // The slots behind those it writes

  function RecoveredCount(s: Store, newId: nat -> DocumentId): nat {
    if s.nextText <= DATA_HEADER_SIZE then 0 else |Recovered(s, newId)|
  }

  /** The file has a slot `n`, and a valid entry in it. */
  predicate ValidSlot(index: seq<byte>, n: nat) {
    InFile(index, n) && Slot(index, n).Valid()
  }

  lemma LastSlotDecides(s: Store, doc: DocumentId)
    requires s.entryCount > 0 && !ValidSlot(s.index, s.entryCount - 1)
    ensures GetText(s, doc)
         == Err(if InFile(s.index, s.entryCount - 1) then TextCorruption(BadEntry) else MemoryMapping)
  {
  }

  /** A slot that comes into the file with the growth for an earlier entry is not valid. */
  lemma AppendEntryBlank(s: Store, e: Entry, i: nat)
    requires s.WellFormed() && s.nextEntry + ENTRY_SIZE <= SlotOffset(i)
    requires !InFile(s.index, i)
    ensures !ValidSlot(AppendEntry(s, e).index, i)
  {
    var end := s.nextEntry + ENTRY_SIZE;
    var grown := Resized(s.index, GrownLength(|s.index|, end, 32 * 1024));
    var written := Splice(grown, s.nextEntry, EncodeEntry(e));
    var (low, high) := (SlotOffset(i), SlotOffset(i) + ENTRY_SIZE);
    if InFile(grown, i) {
      SpliceKeeps(grown, s.nextEntry, EncodeEntry(e), low, high);
      SpliceKeeps(written, 0, EncodeIndexHeader(s.entryCount + 1, end), low, high);
      assert grown[low..high] == Zeros(ENTRY_SIZE);
      ZeroSlotIsInvalid(AppendEntry(s, e).index, i);
    }
  }

  lemma ZeroSlotIsInvalid(index: seq<byte>, i: nat)
    requires InFile(index, i) && index[SlotOffset(i)..SlotOffset(i) + ENTRY_SIZE] == Zeros(ENTRY_SIZE)
    ensures !Slot(index, i).Valid()
  {
    ZerosReadAsZero(8);
    assert Zeros(ENTRY_SIZE)[24..] == Zeros(8);
  }

  /** From slot `k` on, the slots of `r` that are valid are those of `s`. */
  ghost predicate SameBehind(s: seq<byte>, r: seq<byte>, k: nat) {
    forall i: nat :: i >= k ==>
      && (ValidSlot(r, i) <==> ValidSlot(s, i))
      && (ValidSlot(s, i) ==> Slot(r, i) == Slot(s, i))
  }

  lemma AppendKeepsBehind(s: Store, a: Store, e: Entry, k: nat)
    requires a.WellFormed() && e.Valid() && a.nextEntry == FILE_HEADER_SIZE + k * ENTRY_SIZE
    requires SameBehind(s.index, a.index, if k == 0 then 0 else k - 1)
    ensures SameBehind(s.index, AppendEntry(a, e).index, k)
  {
    var r := AppendEntry(a, e);
    AppendEntryWrites(a, e, k - 1);
    forall i: nat | i >= k
      ensures ValidSlot(r.index, i) <==> ValidSlot(s.index, i)
      ensures ValidSlot(s.index, i) ==> Slot(r.index, i) == Slot(s.index, i)
    {
      if !InFile(a.index, i) {
        AppendEntryBlank(a, e, i);
      }
    }
  }

  lemma {:induction false} AppendsKeepBehind(s: Store, a: Store, es: seq<Entry>, k: nat)
    requires k <= |es| && forall i :: 0 <= i < |es| ==> es[i].Valid()
    requires a.WellFormed() && a.nextEntry == FILE_HEADER_SIZE + k * ENTRY_SIZE
    requires SameBehind(s.index, a.index, if k == 0 then 0 else k - 1)
    ensures SameBehind(s.index, AppendEntries(a, es[k..]).index, if |es| == 0 then 0 else |es| - 1)
    decreases |es| - k
  {
    if k < |es| {
      AppendKeepsBehind(s, a, es[k], k);
      AppendsKeepBehind(s, AppendEntry(a, es[k]), es, k + 1);
      assert es[k..][1..] == es[k + 1..];
    }
  }

  lemma RewriteKeepsBehind(s: Store, a: Store, k: nat)
    requires |a.index| >= INDEX_HEADER_SIZE && SameBehind(s.index, a.index, k)
    ensures SameBehind(s.index, WithIndexHeader(a.index, a.entryCount, a.nextEntry), k)
  {
    forall i: nat | i >= k && InFile(a.index, i)
      ensures Slot(WithIndexHeader(a.index, a.entryCount, a.nextEntry), i) == Slot(a.index, i)
    {
      HeaderRewriteKeepsSlots(a.index, a.entryCount, a.nextEntry, i);
    }
  }

  /** Behind the slots it writes, a rebuild leaves the index as it was. */
  lemma RebuiltTail(s: Store, newId: nat -> DocumentId)
    requires s.WellFormed()
    ensures var n := RecoveredCount(s, newId); var r := Rebuild(s, newId);
            && r == s.(index := r.index, entryCount := n, nextEntry := FILE_HEADER_SIZE + n * ENTRY_SIZE)
            && SameBehind(s.index, r.index, if n == 0 then 0 else n - 1)
  {
    if s.nextText > DATA_HEADER_SIZE {
      var es := Recovered(s, newId);
      RebuiltSlots(s, newId);
      RecoveryIsSound(s, newId);
      AppendsKeepBehind(s, ResetIndex(s), es, 0);
      assert es[0..] == es;
      RewriteKeepsBehind(s, AppendEntries(ResetIndex(s), es), if |es| == 0 then 0 else |es| - 1);
    }
  }

  // Lookups in a rebuilt index

  lemma {:induction false} LastForAt(es: seq<Entry>, doc: DocumentId, k: int)
    requires -1 <= k < |es| && (k >= 0 ==> es[k].doc == doc)
    requires forall i :: k < i < |es| ==> es[i].doc != doc
    ensures LastFor(es, doc) == if k >= 0 then Some(es[k]) else None
  {
    if k < |es| - 1 {
      LastForAt(es[..|es| - 1], doc, k);
    }
  }

  /** Fresh identifiers: distinct for distinct recovered blocks, and none that the old index mentions. */
  ghost predicate FreshIds(s: Store, newId: nat -> DocumentId)
    requires s.WellFormed()
  {
    var es := Recovered(s, newId);
    && (forall i, j :: 0 <= i < j < |es| ==> es[i].doc != es[j].doc)
    && (forall i, k: nat :: 0 <= i < |es| && InFile(s.index, k) ==> es[i].doc != Slot(s.index, k).doc)
  }

  /** Searching the recovered entries but the first, followed by a stale one, for the document of entry `i`. */
  lemma FindInShifted(index: seq<byte>, es: seq<Entry>, stale: Entry, i: nat)
    requires i < |es| && IndexHolds(index, es[1..] + [stale]) && stale.Valid()
    requires forall j :: 0 <= j < |es| ==> es[j].Valid() && es[j].doc != stale.doc
    requires forall j :: 0 <= j < |es| && j != i ==> es[j].doc != es[i].doc
    ensures FindLatestBelow(index, |es|, es[i].doc) == Ok(if i == 0 then None else Some(es[i]))
  {
    var seen := es[1..] + [stale];
    FindIsLastFor(index, seen, es[i].doc);
    LastForAt(seen, es[i].doc, i - 1);
  }

  lemma LookupShifted(s: Store, r: Store, es: seq<Entry>, i: nat)
    requires i < |es| && r.data == s.data && r.entryCount == |es| && SameBehind(s.index, r.index, |es| - 1)
    requires forall j: nat :: j + 1 < |es| ==> InFile(r.index, j) && Slot(r.index, j) == es[j + 1]
    requires forall j :: 0 <= j < |es| ==> es[j].Valid()
    requires ValidSlot(s.index, |es| - 1) ==>
               forall j :: 0 <= j < |es| ==> es[j].doc != Slot(s.index, |es| - 1).doc
    requires forall j :: 0 <= j < |es| && j != i ==> es[j].doc != es[i].doc
    ensures GetText(r, es[i].doc)
         == (if !ValidSlot(s.index, |es| - 1)
             then Err(if InFile(r.index, |es| - 1) then TextCorruption(BadEntry) else MemoryMapping)
             else if i == 0 then Err(NotFound)
             else ReadText(s.data, es[i].offset, es[i].length))
  {
    if ValidSlot(s.index, |es| - 1) {
      var stale := Slot(s.index, |es| - 1);
      assert ValidSlot(r.index, |es| - 1) && Slot(r.index, |es| - 1) == stale;
      assert IndexHolds(r.index, es[1..] + [stale]);
      FindInShifted(r.index, es, stale, i);
    } else {
      LastSlotDecides(r, es[i].doc);
    }
  }

  /**
   * Looking a recovered text up by its new identifier after a rebuild, whatever the index file held or lacked
   * before: the first recovered text is gone, the others read back, provided the slot behind the written ones
   * holds a valid entry of the old index; otherwise no lookup succeeds at all.
   */
  lemma RebuiltLookup(s: Store, newId: nat -> DocumentId, es: seq<Entry>, i: nat, r: Store)
    requires s.WellFormed() && s.nextText > DATA_HEADER_SIZE && FreshIds(s, newId)
    requires es == Recovered(s, newId) && r == Rebuild(s, newId) && i < |es|
    ensures GetText(r, es[i].doc)
         == (if !ValidSlot(s.index, |es| - 1)
             then Err(if InFile(r.index, |es| - 1) then TextCorruption(BadEntry) else MemoryMapping)
             else if i == 0 then Err(NotFound)
             else ReadText(s.data, es[i].offset, es[i].length))
  {
    RebuiltSlots(s, newId);
    RebuiltTail(s, newId);
    RecoveryIsSound(s, newId);
    LookupShifted(s, r, es, i);
  }

  /** The rebuilt index serves every recovered text only when there was none to recover. */
  lemma RebuildServesRecoveredExactly(s: Store, newId: nat -> DocumentId)
    requires s.WellFormed() && s.nextText > DATA_HEADER_SIZE && FreshIds(s, newId)
    ensures (forall e :: e in Recovered(s, newId) ==>
               GetText(Rebuild(s, newId), e.doc) == ReadText(s.data, e.offset, e.length))
       <==> Recovered(s, newId) == []
  {
    var es := Recovered(s, newId);
    if es != [] {
      RebuiltLookup(s, newId, es, 0, Rebuild(s, newId));
      RecoveredAt(s, newId, 0, 0);
      assert es[0] in es;
    }
  }

  /** So an index file that holds no valid entry there, such as an empty one, serves none of the recovered texts. */
  lemma RebuildFromLostIndex(s: Store, newId: nat -> DocumentId, e: Entry)
    requires s.WellFormed() && s.nextText > DATA_HEADER_SIZE && FreshIds(s, newId)
    requires |s.index| < SlotOffset(|Recovered(s, newId)|) && e in Recovered(s, newId)
    ensures GetText(Rebuild(s, newId), e.doc).Err?
  {
    var es := Recovered(s, newId);
    var i :| 0 <= i < |es| && es[i] == e;
    RebuiltLookup(s, newId, es, i, Rebuild(s, newId));
  }

  /**
   * What reopening finds after a rebuild of a storage whose headers were on disk: the rebuilt state, unless nothing
   * was recovered, which makes the index unreadable; a rebuild with no data to scan is not written and so undone.
   */
  lemma ReopenAfterRebuild(s: Store, newId: nat -> DocumentId, now: nat)
    requires s.WellFormed() && HeadersOnDisk(s) && Fits(s) && Fits(Rebuild(s, newId))
    requires INDEX_HEADER_SIZE <= s.nextEntry < U64_LIMIT && s.totalText < U64_LIMIT
    ensures var r := Rebuild(s, newId);
            Open(r.index, r.data, now)
            == if s.nextText <= DATA_HEADER_SIZE then Ok(s.(limit := DEFAULT_LIMIT))
               else if Recovered(s, newId) == [] then Err(Corruption)
               else Ok(r.(limit := DEFAULT_LIMIT))
  {
    if s.nextText <= DATA_HEADER_SIZE {
      OpenWithHeaders(s, now);
    } else {
      RebuiltSlots(s, newId);
      OpenWithHeaders(Rebuild(s, newId), now);
    }
  }

  // Storing after a rebuild

  /** Storing into a shifted index: the new entry takes slot `n - 1`, and the search starts at slot `n`. */
  lemma StoreIntoShifted(s: Store, r: Store, n: nat, a: Store, e: Entry, t: Store, text: Text)
    requires r.WellFormed() && r.entryCount == n && r.nextEntry == FILE_HEADER_SIZE + n * ENTRY_SIZE
    requires SameBehind(s.index, r.index, if n == 0 then 0 else n - 1)
    requires a.WellFormed() && TextAppended(r, a, text)
    requires e.Valid() && e == Entry(e.doc, AlignUp(r.nextText), |text|) && t == AppendEntry(a, e)
    ensures SameBehind(s.index, t.index, n) && t.entryCount == n + 1 && t.data == a.data
    ensures n > 0 ==> InFile(t.index, n - 1) && Slot(t.index, n - 1) == e
    ensures ReadText(t.data, e.offset, e.length) == Ok(text)
  {
    AppendKeepsBehind(s, a, e, n);
    AppendEntryWrites(a, e, n - 1);
    ReadBlock(a.data, Block(e.doc, e.offset, text));
  }

  /** Looking up the document just stored, and any document if slot `n` decides. */
  lemma LookupBehindStale(s: Store, t: Store, n: nat, e: Entry, text: Text, any: DocumentId)
    requires SameBehind(s.index, t.index, n) && t.entryCount == n + 1 && e.Valid()
    requires n > 0 ==> InFile(t.index, n - 1) && Slot(t.index, n - 1) == e
    requires ReadText(t.data, e.offset, e.length) == Ok(text)
    ensures !ValidSlot(s.index, n) ==>
              GetText(t, any) == Err(if InFile(t.index, n) then TextCorruption(BadEntry) else MemoryMapping)
    ensures ValidSlot(s.index, n) ==>
              var stale := Slot(s.index, n);
              GetText(t, e.doc)
              == (if stale.doc == e.doc then ReadText(t.data, stale.offset, stale.length)
                  else if n > 0 then Ok(text)
                  else Err(NotFound))
  {
    if !ValidSlot(s.index, n) {
      LastSlotDecides(t, any);
    } else {
      assert InFile(t.index, n) && Slot(t.index, n) == Slot(s.index, n);
      assert FindLatestBelow(t.index, n, e.doc) == if n > 0 then Ok(Some(e)) else Ok(None);
    }
  }

  /**
   * What a text stored after a rebuild reads as. The search starts at the slot behind the recovered entries: if
   * that holds no valid entry of the old index, no lookup succeeds at all.
   */
  lemma StoreAfterRebuild(s: Store, newId: nat -> DocumentId, doc: DocumentId, text: Text, t: Store, any: DocumentId)
    requires s.WellFormed() && StoreText(Rebuild(s, newId), doc, text) == (t, Ok(()))
    ensures var n := RecoveredCount(s, newId);
            && (!ValidSlot(s.index, n) ==>
                  GetText(t, any) == Err(if InFile(t.index, n) then TextCorruption(BadEntry) else MemoryMapping))
            && (ValidSlot(s.index, n) ==>
                  var stale := Slot(s.index, n);
                  GetText(t, doc)
                  == (if stale.doc == doc then ReadText(t.data, stale.offset, stale.length)
                      else if n > 0 then Ok(text)
                      else Err(NotFound)))
  {
    var n, r := RecoveredCount(s, newId), Rebuild(s, newId);
    RebuiltTail(s, newId);
    var e, a := Entry(doc, AlignUp(r.nextText), |text|), AppendText(r, text);
    AppendTextWrites(r, text);
    StoreIntoShifted(s, r, n, a, e, t, text);
    LookupBehindStale(s, t, n, e, text, any);
  }

  // Storages reached by runs

  /** No slot behind the counted ones holds a valid entry. */
  ghost predicate BlankTail(s: Store) {
    forall i: nat :: i >= s.entryCount ==> !ValidSlot(s.index, i)
  }

  lemma CreateHasBlankTail(limit: nat)
    ensures BlankTail(Create(limit))
  {
    var zeros := Zeros(INDEX_HEADER_SIZE + 1000 * ENTRY_SIZE);
    var index := Create(limit).index;
    forall i: nat | InFile(index, i)
      ensures !Slot(index, i).Valid()
    {
      var (low, high) := (SlotOffset(i), SlotOffset(i) + ENTRY_SIZE);
      SpliceKeeps(zeros, 0, EncodeIndexHeader(0, INDEX_HEADER_SIZE), low, high);
      assert zeros[low..high] == Zeros(ENTRY_SIZE);
      assert index[low..high] == zeros[low..high];
      ZeroSlotIsInvalid(index, i);
    }
  }

  lemma StoreKeepsBlankTail(s: Store, doc: DocumentId, text: Text)
    requires s.WellFormed() && s.nextEntry == SlotOffset(s.entryCount) && BlankTail(s)
    ensures BlankTail(StoreText(s, doc, text).0)
  {
    var e, a := Entry(doc, AlignUp(s.nextText), |text|), AppendText(s, text);
    if |text| <= s.limit && e.Valid() {
      AppendKeepsBlankTail(a, e, AppendEntry(a, e));
    }
  }

  lemma AppendKeepsBlankTail(a: Store, e: Entry, t: Store)
    requires a.WellFormed() && a.nextEntry == SlotOffset(a.entryCount) && BlankTail(a) && e.Valid()
    requires t == AppendEntry(a, e)
    ensures BlankTail(t)
  {
    AppendEntryWrites(a, e, a.entryCount);
    forall i: nat | i > a.entryCount
      ensures !ValidSlot(t.index, i)
    {
      assert !ValidSlot(a.index, i);
      if !InFile(a.index, i) {
        AppendEntryBlank(a, e, i);
      }
    }
  }

  lemma {:induction false} RunHasBlankTail(limit: nat, ops: seq<Op>)
    requires RunFits(Create(limit), ops)
    ensures BlankTail(Run(Create(limit), ops))
  {
    if ops == [] {
      CreateHasBlankTail(limit);
    } else {
      var before, op := ops[..|ops| - 1], ops[|ops| - 1];
      var s, l := Run(Create(limit), before), LogRun(Log([], limit), before);
      RunHasBlankTail(limit, before);
      RunRepresents(limit, before);
      StepKeepsBlankTail(s, l, op);
    }
  }

  lemma StepKeepsBlankTail(s: Store, l: Log, op: Op)
    requires Represents(s, l) && Fits(s) && BlankTail(s)
    ensures BlankTail(Step(s, op))
  {
    match op
    case StoreOp(doc, text) => StoreKeepsBlankTail(s, doc, text);
    case StoreSafeOp(doc, text) => StoreKeepsBlankTail(s, doc, text);
    case SetLimit(_) =>
    case Reopen(now) => OpenRestores(s, l, now);
  }

  lemma {:induction false} AcceptedEntryIsBlock(blocks: seq<Block>, i: nat) returns (b: Block)
    requires i < |AcceptedEntries(blocks)|
    ensures b in blocks && b.Accepted() && b.AsEntry() == AcceptedEntries(blocks)[i]
  {
    b := blocks[|blocks| - 1];
    if i < |AcceptedEntries(blocks[..|blocks| - 1])| {
      b := AcceptedEntryIsBlock(blocks[..|blocks| - 1], i);
    }
  }

  /** An indexed text reads the same after another text is appended. */
  lemma IndexedTextSurvives(s: Store, l: Log, r: Store, text: Text, i: nat)
    requires Represents(s, l) && i < |AcceptedEntries(l.blocks)|
    requires r.WellFormed() && r.data == s.data && r.nextText == s.nextText
    ensures var e := AcceptedEntries(l.blocks)[i];
            && ReadText(s.data, e.offset, e.length).Ok?
            && ReadText(AppendText(r, text).data, e.offset, e.length) == ReadText(s.data, e.offset, e.length)
  {
    var b := AcceptedEntryIsBlock(l.blocks, i);
    AppendTextWrites(r, text);
    ReadBlock(s.data, b);
    ReadBlock(AppendText(r, text).data, b);
  }

  /**
   * After any run (which ends in such a storage), a text stored after a rebuild reads back if and only if the
   * rebuild recovered fewer texts than were indexed, so that an old entry is left behind the recovered ones, and
   * that entry is for another document while something was recovered, or leads to the same text.
   */
  lemma StoreAfterRebuildExactly(s: Store, l: Log, newId: nat -> DocumentId, doc: DocumentId, text: Text, t: Store)
    requires Represents(s, l) && BlankTail(s) && StoreText(Rebuild(s, newId), doc, text) == (t, Ok(()))
    ensures var (n, es) := (RecoveredCount(s, newId), AcceptedEntries(l.blocks));
            GetText(t, doc) == Ok(text)
            <==> n < |es| && (if es[n].doc == doc then ReadText(s.data, es[n].offset, es[n].length) == Ok(text)
                              else n > 0)
  {
    var (n, es) := (RecoveredCount(s, newId), AcceptedEntries(l.blocks));
    StoreAfterRebuild(s, newId, doc, text, t, doc);
    RebuiltTail(s, newId);
    if n < |es| {
      assert ValidSlot(s.index, n) && Slot(s.index, n) == es[n];
      IndexedTextSurvives(s, l, Rebuild(s, newId), text, n);
    }
  }

  /**
   * A storage whose next entry goes one slot too early, with nothing valid where the search starts. Its headers are
   * on disk, so that reopening changes nothing but the limit.
   */
  ghost predicate Broken(s: Store) {
    && s.WellFormed() && s.entryCount > 0 && s.nextEntry == FILE_HEADER_SIZE + s.entryCount * ENTRY_SIZE
    && (forall i: nat :: i + 1 >= s.entryCount ==> !ValidSlot(s.index, i))
    && HeadersOnDisk(s) && s.totalText <= s.nextText
  }

  lemma BrokenStore(s: Store, doc: DocumentId, text: Text)
    requires Broken(s)
    ensures Broken(StoreText(s, doc, text).0)
  {
    var e, a := Entry(doc, AlignUp(s.nextText), |text|), AppendText(s, text);
    AppendTextWrites(s, text);
    if |text| <= s.limit && e.Valid() {
      BrokenAppend(a, e, AppendEntry(a, e));
    }
  }

  lemma BrokenAppend(a: Store, e: Entry, t: Store)
    requires a.WellFormed() && a.nextEntry == FILE_HEADER_SIZE + a.entryCount * ENTRY_SIZE && e.Valid()
    requires forall i: nat :: i >= a.entryCount ==> !ValidSlot(a.index, i)
    requires t == AppendEntry(a, e) && a.totalText <= a.nextText
    requires a.data[..DATA_HEADER_SIZE] == EncodeDataHeader(a.totalText, a.nextText)
    ensures Broken(t)
  {
    AppendEntryWrites(a, e, a.entryCount - 1);
    AppendKeepsBehind(a, a, e, a.entryCount);
  }

  lemma BrokenStep(s: Store, op: Op)
    requires Broken(s) && Fits(s)
    ensures Broken(Step(s, op))
  {
    match op
    case StoreOp(doc, text) => BrokenStore(s, doc, text);
    case StoreSafeOp(doc, text) => BrokenStore(s, doc, text);
    case SetLimit(_) =>
    case Reopen(now) => OpenWithHeaders(s, now);
  }

  lemma {:induction false} BrokenForever(s: Store, ops: seq<Op>, any: DocumentId)
    requires Broken(s) && RunFits(s, ops)
    ensures Broken(Run(s, ops)) && GetText(Run(s, ops), any).Err?
  {
    if ops != [] {
      BrokenForever(s, ops[..|ops| - 1], any);
      BrokenStep(Run(s, ops[..|ops| - 1]), ops[|ops| - 1]);
    }
    LastSlotDecides(Run(s, ops), any);
  }

  /**
   * Once a rebuild has recovered everything and a text has been stored, no lookup ever succeeds again, whatever
   * is stored later and however often the storage is reopened.
   */
  lemma StoreAfterFullRebuild(s: Store, l: Log, newId: nat -> DocumentId, doc: DocumentId, text: Text, t: Store,
                              ops: seq<Op>, any: DocumentId)
    requires Represents(s, l) && BlankTail(s) && Scannable(l.blocks, s.limit)
    requires StoreText(Rebuild(s, newId), doc, text) == (t, Ok(())) && RunFits(t, ops)
    ensures GetText(Run(t, ops), any).Err?
  {
    var r := Rebuild(s, newId);
    RecoversAll(s, l, newId);
    RebuiltTail(s, newId);
    AppendTextWrites(r, text);
    BrokenAfterRebuild(s, r, AppendText(r, text), Entry(doc, AlignUp(r.nextText), |text|), t);
    BrokenForever(t, ops, any);
  }

  lemma BrokenAfterRebuild(s: Store, r: Store, a: Store, e: Entry, t: Store)
    requires BlankTail(s) && s.entryCount == r.entryCount == a.entryCount && a.index == r.index
    requires SameBehind(s.index, r.index, if r.entryCount == 0 then 0 else r.entryCount - 1)
    requires a.WellFormed() && a.nextEntry == FILE_HEADER_SIZE + a.entryCount * ENTRY_SIZE && e.Valid()
    requires a.data[..DATA_HEADER_SIZE] == EncodeDataHeader(a.totalText, a.nextText) && a.totalText <= a.nextText
    requires t == AppendEntry(a, e)
    ensures Broken(t)
  {
    forall i: nat | i >= a.entryCount
      ensures !ValidSlot(a.index, i)
    {
      assert !ValidSlot(s.index, i);
    }
    BrokenAppend(a, e, t);
  }

  lemma RecoversAll(s: Store, l: Log, newId: nat -> DocumentId)
    requires Represents(s, l) && Scannable(l.blocks, s.limit)
    ensures RecoveredCount(s, newId) == |AcceptedEntries(l.blocks)| == s.entryCount
    ensures s.nextText > DATA_HEADER_SIZE ==> |Recovered(s, newId)| == s.entryCount
  {
    ScannerInvertsWriter(s, l, newId);
    if s.nextText <= DATA_HEADER_SIZE {
      AcceptedBelowNext(l.blocks);
      assert l.blocks == [];
    }
  }

  /**
   * End to end: the scan finds every indexed text, yet a lookup by recovered identifier fails for the first one
   * and succeeds, with that text, for all others.
   */
  lemma RebuildLosesFirstOnly(s: Store, l: Log, newId: nat -> DocumentId, i: nat)
    requires Represents(s, l) && Scannable(l.blocks, s.limit) && FreshIds(s, newId)
    requires s.nextText > DATA_HEADER_SIZE && i < s.entryCount
    ensures var es := Recovered(s, newId);
            && |es| == s.entryCount
            && GetText(Rebuild(s, newId), es[i].doc)
               == (if i == 0 then Err(NotFound) else ReadText(s.data, es[i].offset, es[i].length))
            && (GetText(Rebuild(s, newId), es[i].doc).Ok? <==> i > 0)
  {
    var es := Recovered(s, newId);
    RecoversAll(s, l, newId);
    RebuiltLookup(s, newId, es, i, Rebuild(s, newId));
    RecoveredAt(s, newId, i, i);
    assert Slot(s.index, |es| - 1) == AcceptedEntries(l.blocks)[|es| - 1];
  }

  /** The smallest case: create, rebuild, store, and the text cannot be read. */
  lemma StoreAfterFirstRebuild(limit: nat, newId: nat -> DocumentId, doc: DocumentId, text: Text)
    requires 0 < |text| <= limit && |text| <= MAX_TEXT_SIZE
    ensures var (t, outcome) := StoreText(Rebuild(Create(limit), newId), doc, text);
            outcome.Ok? && GetText(t, doc) == Err(TextCorruption(BadEntry))
  {
    var t := StoreText(Rebuild(Create(limit), newId), doc, text).0;
    CreateHasBlankTail(limit);
    StoreAfterRebuild(Create(limit), newId, doc, text, t, doc);
    assert |t.index| >= |Create(limit).index|;
  }
}
