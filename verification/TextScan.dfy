/** The rebuild scan: sound on arbitrary bytes, and the inverse of the writer on written files. */
module TextScan {
  import opened Bytes
  import opened Outcomes
  import opened TextFormat
  import opened Utf8
  import opened TextLog
  import opened TextLogRuns

  // Soundness on arbitrary bytes

  /** Spans that were read, aligned, below `end` and one after the other from `from` on. */
  ghost predicate Sound(read: BlockReader, from: nat, end: nat, spans: seq<Span>)
    decreases |spans|
  {
    spans == [] ||
    (&& from <= spans[0].offset < end && spans[0].offset % 4 == 0
     && read(spans[0].offset) == Ok(spans[0].length)
     && Sound(read, spans[0].offset + 4 + spans[0].length, end, spans[1..]))
  }

  lemma SoundFromEarlier(read: BlockReader, early: nat, from: nat, end: nat, spans: seq<Span>)
    requires Sound(read, from, end, spans) && early <= from
    ensures Sound(read, early, end, spans)
  {
  }

  lemma SoundCons(read: BlockReader, from: nat, end: nat, span: Span, rest: seq<Span>)
    requires from <= span.offset < end && span.offset % 4 == 0 && read(span.offset) == Ok(span.length)
    requires Sound(read, span.offset + 4 + span.length, end, rest)
    ensures Sound(read, from, end, [span] + rest)
  {
    assert ([span] + rest)[1..] == rest;
  }

  lemma SoundNext(read: BlockReader, offset: nat, end: nat, length: nat, next: nat, rest: seq<Span>)
    requires offset < end && offset % 4 == 0 && read(offset) == Ok(length)
    requires Sound(read, next, end, rest) && offset + 4 + length <= next
    ensures Sound(read, offset, end, [Span(offset, length)] + rest)
  {
    SoundFromEarlier(read, offset + 4 + length, next, end, rest);
    SoundCons(read, offset, end, Span(offset, length), rest);
  }

  lemma {:induction false} ScanIsSound(read: BlockReader, end: nat, offset: nat)
    requires offset % 4 == 0
    ensures Sound(read, offset, end, ScanBlocks(read, end, offset))
    decreases if offset < end then end - offset else 0
  {
    if offset < end {
      match read(offset)
      case Ok(length) =>
        var next := AlignUp(offset + 4 + length);
        AlignUpIsAligned(offset + 4 + length);
        ScanIsSound(read, end, next);
        SoundNext(read, offset, end, length, next, ScanBlocks(read, end, next));
      case Err(_) =>
        ScanIsSound(read, end, offset + 4);
        SoundFromEarlier(read, offset, offset + 4, end, ScanBlocks(read, end, offset + 4));
    }
  }

  function SpansOf(es: seq<Entry>): (spans: seq<Span>)
    ensures |spans| == |es|
    ensures forall i :: 0 <= i < |es| ==> spans[i] == Span(es[i].offset, es[i].length)
  {
    if es == [] then [] else [Span(es[0].offset, es[0].length)] + SpansOf(es[1..])
  }

  function SpanIf(keep: bool, span: Span): seq<Span> {
    if keep then [span] else []
  }

  lemma SpansOfScanned(span: Span, rest: seq<Span>, newId: nat -> DocumentId, e: Entry)
    requires e == Entry(newId(span.offset), span.offset, span.length)
    ensures SpansOf(EntriesOf([span] + rest, newId)) == SpanIf(e.Valid(), span) + SpansOf(EntriesOf(rest, newId))
  {
    assert ([span] + rest)[1..] == rest;
    var es := EntriesOf(rest, newId);
    assert ([e] + es)[1..] == es && [] + es == es;
  }

  lemma SpansOfIndexed(keep: bool, e: Entry, es: seq<Entry>)
    ensures SpansOf((if keep then [e] else []) + es) == SpanIf(keep, Span(e.offset, e.length)) + SpansOf(es)
  {
    assert ([e] + es)[1..] == es && [] + es == es;
  }

  lemma {:induction false} EntriesAreSound(read: BlockReader, from: nat, end: nat, spans: seq<Span>,
                                           newId: nat -> DocumentId)
    requires Sound(read, from, end, spans)
    ensures Sound(read, from, end, SpansOf(EntriesOf(spans, newId)))
    decreases |spans|
  {
    if spans != [] {
      var (span, rest) := (spans[0], spans[1..]);
      var e := Entry(newId(span.offset), span.offset, span.length);
      var sound := SpansOf(EntriesOf(rest, newId));
      EntriesAreSound(read, span.offset + 4 + span.length, end, rest, newId);
      assert spans == [span] + rest;
      SpansOfScanned(span, rest, newId, e);
      if e.Valid() {
        SoundCons(read, from, end, span, sound);
      } else {
        assert [] + sound == sound;
        SoundFromEarlier(read, from, span.offset + 4 + span.length, end, sound);
      }
    }
  }

  /** What soundness says of any span, and of any two. */
  lemma {:induction false} SoundAt(read: BlockReader, from: nat, end: nat, spans: seq<Span>, i: nat, j: nat)
    requires Sound(read, from, end, spans) && i < |spans| && j < |spans|
    ensures from <= spans[i].offset && read(spans[i].offset) == Ok(spans[i].length)
    ensures i < j ==> spans[i].offset + 4 + spans[i].length <= spans[j].offset
    decreases |spans|
  {
    var next := spans[0].offset + 4 + spans[0].length;
    if i > 0 {
      SoundAt(read, next, end, spans[1..], i - 1, if j > 0 then j - 1 else 0);
    } else if j > 0 {
      SoundAt(read, next, end, spans[1..], j - 1, j - 1);
    }
  }

  lemma {:induction false} EntriesAreValid(spans: seq<Span>, newId: nat -> DocumentId, i: nat)
    requires i < |EntriesOf(spans, newId)|
    ensures EntriesOf(spans, newId)[i].Valid()
    ensures EntriesOf(spans, newId)[i].doc == newId(EntriesOf(spans, newId)[i].offset)
  {
    var e := Entry(newId(spans[0].offset), spans[0].offset, spans[0].length);
    var k := if e.Valid() then 1 else 0;
    if i >= k {
      EntriesAreValid(spans[1..], newId, i - k);
    }
  }

  lemma TryReadIsReadable(data: seq<byte>, limit: nat, offset: nat, length: nat)
    requires TryReadBlock(data, limit, offset) == Ok(length)
    ensures ReadText(data, offset, length).Ok? && length <= limit
  {
  }

  lemma RecoveredAt(s: Store, newId: nat -> DocumentId, i: nat, j: nat)
    requires s.WellFormed() && i < |Recovered(s, newId)| && j < |Recovered(s, newId)|
    ensures var es := Recovered(s, newId);
            && es[i].Valid() && es[i].doc == newId(es[i].offset) && DATA_HEADER_SIZE <= es[i].offset
            && es[i].length <= s.limit && ReadText(s.data, es[i].offset, es[i].length).Ok?
            && (i < j ==> es[i].offset + 4 + es[i].length <= es[j].offset)
  {
    var read := Reader(s.data, s.limit);
    var spans := ScanBlocks(read, s.nextText, DATA_HEADER_SIZE);
    var es := EntriesOf(spans, newId);
    ScanIsSound(read, s.nextText, DATA_HEADER_SIZE);
    EntriesAreSound(read, DATA_HEADER_SIZE, s.nextText, spans, newId);
    SoundAt(read, DATA_HEADER_SIZE, s.nextText, SpansOf(es), i, j);
    EntriesAreValid(spans, newId, i);
    TryReadIsReadable(s.data, s.limit, es[i].offset, es[i].length);
  }

  /**
   * Whatever the data file contains, every recovered entry validates and reads back, offsets strictly increase,
   * and no two recovered blocks overlap.
   */
  lemma RecoveryIsSound(s: Store, newId: nat -> DocumentId)
    requires s.WellFormed()
    ensures var es := Recovered(s, newId);
            && (forall i :: 0 <= i < |es| ==> es[i].Valid() && ReadText(s.data, es[i].offset, es[i].length).Ok?)
            && (forall i, j :: 0 <= i < j < |es| ==>
                  es[i].offset + 4 + es[i].length <= es[j].offset && !es[i].OverlapsWith(es[j]))
  {
    var es := Recovered(s, newId);
    forall i | 0 <= i < |es|
      ensures es[i].Valid() && ReadText(s.data, es[i].offset, es[i].length).Ok?
    {
      RecoveredAt(s, newId, i, i);
    }
    forall i, j | 0 <= i < j < |es|
      ensures es[i].offset + 4 + es[i].length <= es[j].offset && !es[i].OverlapsWith(es[j])
    {
      RecoveredAt(s, newId, i, j);
    }
  }

  // Completeness on arbitrary bytes

  /** The offset lies in one of the blocks or in the padding behind it, but does not start it. */
  ghost predicate Inside(spans: seq<Span>, b: nat) {
    exists i :: 0 <= i < |spans| && spans[i].offset < b < AlignUp(spans[i].offset + 4 + spans[i].length)
  }

  /** An aligned offset outside the blocks before `b` where a block would run past the file. */
  ghost predicate StopsBefore(read: BlockReader, from: nat, spans: seq<Span>, b: nat) {
    exists c: nat :: from <= c < b && c % 4 == 0 && !Inside(spans, c) && read(c) == Err(TextCorruption(ExceedsFile))
  }

  lemma InsideMore(span: Span, rest: seq<Span>, b: nat)
    ensures Inside([span] + rest, b) <==>
              span.offset < b < AlignUp(span.offset + 4 + span.length) || Inside(rest, b)
  {
    var spans := [span] + rest;
    if i :| 0 <= i < |rest| && rest[i].offset < b < AlignUp(rest[i].offset + 4 + rest[i].length) {
      assert spans[i + 1] == rest[i];
    }
    if span.offset < b < AlignUp(span.offset + 4 + span.length) {
      assert spans[0] == span;
    }
  }

  lemma StopsMore(read: BlockReader, span: Span, from: nat, rest: seq<Span>, b: nat)
    requires read(span.offset).Ok? && from == AlignUp(span.offset + 4 + span.length)
    ensures StopsBefore(read, span.offset, [span] + rest, b) <==> StopsBefore(read, from, rest, b)
  {
    forall c: nat | c < b && c % 4 == 0 && read(c) == Err(TextCorruption(ExceedsFile))
      ensures span.offset <= c && !Inside([span] + rest, c) <==> from <= c && !Inside(rest, c)
    {
      InsideMore(span, rest, c);
    }
  }

  lemma StopsLater(read: BlockReader, from: nat, spans: seq<Span>, b: nat)
    requires from % 4 == 0 && read(from) != Err(TextCorruption(ExceedsFile))
    ensures StopsBefore(read, from, spans, b) <==> StopsBefore(read, from + 4, spans, b)
  {
  }

  /** Blocks scanned from an offset on do not start or reach before it. */
  lemma ScannedBehind(read: BlockReader, end: nat, from: nat, b: nat, length: nat)
    requires from % 4 == 0 && b < from
    ensures Span(b, length) !in ScanBlocks(read, end, from) && !Inside(ScanBlocks(read, end, from), b)
  {
    var spans := ScanBlocks(read, end, from);
    ScanIsSound(read, end, from);
    forall i | 0 <= i < |spans|
      ensures spans[i].offset >= from
    {
      SoundAt(read, from, end, spans, i, i);
    }
  }

  lemma FirstIsFound(read: BlockReader, end: nat, from: nat, b: nat, length: nat, next: nat)
    requires from % 4 == 0 && b % 4 == 0 && from <= b < next && next == AlignUp(from + 4 + length)
    requires read(from) == Ok(length) && read(b).Ok?
    ensures var spans := [Span(from, length)] + ScanBlocks(read, end, next);
            Span(b, read(b).value) in spans <==> !Inside(spans, b) && !StopsBefore(read, from, spans, b)
  {
    var rest := ScanBlocks(read, end, next);
    AlignUpIsAligned(from + 4 + length);
    ScannedBehind(read, end, next, b, read(b).value);
    InsideMore(Span(from, length), rest, b);
    if b == from {
      assert ([Span(from, length)] + rest)[0] == Span(b, read(b).value);
    }
  }

  /** A readable block is scanned exactly if it is not inside another and the scan does not stop before it. */
  lemma {:induction false} ScanFindsExactly(read: BlockReader, end: nat, from: nat, b: nat)
    requires from % 4 == 0 && b % 4 == 0 && from <= b < end && read(b).Ok?
    ensures var spans := ScanBlocks(read, end, from);
            Span(b, read(b).value) in spans <==> !Inside(spans, b) && !StopsBefore(read, from, spans, b)
    decreases end - from
  {
    match read(from)
    case Ok(length) =>
      var next := AlignUp(from + 4 + length);
      if b < next {
        FirstIsFound(read, end, from, b, length, next);
      } else {
        AlignUpIsAligned(from + 4 + length);
        InsideMore(Span(from, length), ScanBlocks(read, end, next), b);
        StopsMore(read, Span(from, length), next, ScanBlocks(read, end, next), b);
        ScanFindsExactly(read, end, next, b);
      }
    case Err(e) =>
      if e == TextCorruption(ExceedsFile) {
        assert StopsBefore(read, from, [], b);
      } else {
        ScanFindsExactly(read, end, from + 4, b);
        StopsLater(read, from, ScanBlocks(read, end, from + 4), b);
      }
  }

  /** The offset lies in a recovered block, or in the padding behind it, but does not start it. */
  ghost predicate Covered(es: seq<Entry>, b: nat) {
    exists i :: 0 <= i < |es| && es[i].offset < b < AlignUp(es[i].offset + 4 + es[i].length)
  }

  /** Read as a length within the limit, what the file holds there makes a block that runs past its end. */
  predicate Overruns(data: seq<byte>, limit: nat, c: nat) {
    c + 4 > |data| || (0 < FromLE(data[c..c + 4]) <= limit && c + 4 + FromLE(data[c..c + 4]) > |data|)
  }

  ghost predicate RecoveredThere(es: seq<Entry>, b: nat, length: nat) {
    exists i :: 0 <= i < |es| && es[i].offset == b && es[i].length == length
  }

  /** A readable block that validation refuses hides what lies in it. */
  ghost predicate Refused(s: Store, c: nat, b: nat) {
    exists n :: 0 < n <= s.limit && ReadText(s.data, c, n).Ok? && c <= b < AlignUp(c + 4 + n)
                && (n > MAX_TEXT_SIZE || c + n > MAX_FILE_SIZE)
  }

  lemma OverrunsWhenExceeding(data: seq<byte>, limit: nat, c: nat)
    ensures TryReadBlock(data, limit, c) == Err(TextCorruption(ExceedsFile)) <==> Overruns(data, limit, c)
  {
  }

  lemma ReadableIsTryRead(data: seq<byte>, limit: nat, b: nat, length: nat)
    ensures 0 < length <= limit && ReadText(data, b, length).Ok? <==> TryReadBlock(data, limit, b) == Ok(length)
  {
  }

  /** Which of the scanned blocks become entries. */
  lemma {:induction false} EntryOfSpan(spans: seq<Span>, newId: nat -> DocumentId, offset: nat, length: nat)
    ensures RecoveredThere(EntriesOf(spans, newId), offset, length)
       <==> Span(offset, length) in spans && 0 < length <= MAX_TEXT_SIZE && offset + length <= MAX_FILE_SIZE
  {
    if spans != [] {
      var es := EntriesOf(spans[1..], newId);
      var e := Entry(newId(spans[0].offset), spans[0].offset, spans[0].length);
      EntryOfSpan(spans[1..], newId, offset, length);
      assert Span(offset, length) in spans <==> Span(offset, length) == spans[0] || Span(offset, length) in spans[1..];
      ThereMore(e, es, offset, length);
      assert [] + es == es;
    }
  }

  lemma ThereMore(e: Entry, es: seq<Entry>, offset: nat, length: nat)
    ensures RecoveredThere([e] + es, offset, length)
       <==> (e.offset == offset && e.length == length) || RecoveredThere(es, offset, length)
  {
    assert ([e] + es)[0] == e;
    forall i | 0 <= i < |es|
      ensures ([e] + es)[i + 1] == es[i]
    {
    }
  }

  lemma EntryFromSpan(spans: seq<Span>, newId: nat -> DocumentId, e: Entry) returns (k: nat)
    requires e in EntriesOf(spans, newId)
    ensures k < |spans| && spans[k] == Span(e.offset, e.length)
  {
    assert RecoveredThere(EntriesOf(spans, newId), e.offset, e.length);
    EntryOfSpan(spans, newId, e.offset, e.length);
    k :| 0 <= k < |spans| && spans[k] == Span(e.offset, e.length);
  }

  lemma CoveredIsInside(spans: seq<Span>, newId: nat -> DocumentId, b: nat)
    requires Covered(EntriesOf(spans, newId), b)
    ensures Inside(spans, b)
  {
    var es := EntriesOf(spans, newId);
    var i :| 0 <= i < |es| && es[i].offset < b < AlignUp(es[i].offset + 4 + es[i].length);
    var _ := EntryFromSpan(spans, newId, es[i]);
  }

  /** Inside a scanned block, and inside a recovered one unless validation refused it. */
  lemma InsideIsCovered(spans: seq<Span>, newId: nat -> DocumentId, b: nat) returns (span: Span)
    requires Inside(spans, b)
    ensures span in spans && span.offset < b < AlignUp(span.offset + 4 + span.length)
    ensures 0 < span.length <= MAX_TEXT_SIZE && span.offset + span.length <= MAX_FILE_SIZE ==>
              Covered(EntriesOf(spans, newId), b)
  {
    var k :| 0 <= k < |spans| && spans[k].offset < b < AlignUp(spans[k].offset + 4 + spans[k].length);
    span := spans[k];
    EntryOfSpan(spans, newId, span.offset, span.length);
  }

  lemma SoundIsNotInside(read: BlockReader, from: nat, end: nat, spans: seq<Span>, i: nat)
    requires Sound(read, from, end, spans) && i < |spans| && spans[i].offset % 4 == 0
    ensures !Inside(spans, spans[i].offset)
  {
    forall k | 0 <= k < |spans|
      ensures !(spans[k].offset < spans[i].offset < AlignUp(spans[k].offset + 4 + spans[k].length))
    {
      if k < i {
        SoundAt(read, from, end, spans, k, i);
        AlignUpIsLeast(spans[k].offset + 4 + spans[k].length, spans[i].offset);
      } else if i < k {
        SoundAt(read, from, end, spans, i, k);
      }
    }
  }

  /** Scanned blocks are readable, start at aligned offsets, and do not lie inside one another. */
  lemma ScannedAt(s: Store, span: Span)
    requires s.WellFormed()
    requires var spans := ScanBlocks(Reader(s.data, s.limit), s.nextText, DATA_HEADER_SIZE); span in spans
    ensures DATA_HEADER_SIZE <= span.offset < s.nextText && span.offset % 4 == 0
    ensures 0 < span.length <= s.limit && ReadText(s.data, span.offset, span.length).Ok?
    ensures !Inside(ScanBlocks(Reader(s.data, s.limit), s.nextText, DATA_HEADER_SIZE), span.offset)
  {
    var read := Reader(s.data, s.limit);
    var spans := ScanBlocks(read, s.nextText, DATA_HEADER_SIZE);
    ScanIsSound(read, s.nextText, DATA_HEADER_SIZE);
    var i :| 0 <= i < |spans| && spans[i] == span;
    SoundAt(read, DATA_HEADER_SIZE, s.nextText, spans, i, i);
    SoundIsAligned(read, DATA_HEADER_SIZE, s.nextText, spans, i);
    SoundIsNotInside(read, DATA_HEADER_SIZE, s.nextText, spans, i);
    ReadableIsTryRead(s.data, s.limit, span.offset, span.length);
  }

  lemma {:induction false} SoundIsAligned(read: BlockReader, from: nat, end: nat, spans: seq<Span>, i: nat)
    requires Sound(read, from, end, spans) && i < |spans|
    ensures spans[i].offset < end && spans[i].offset % 4 == 0
    decreases |spans|
  {
    if i > 0 {
      SoundIsAligned(read, spans[0].offset + 4 + spans[0].length, end, spans[1..], i - 1);
    }
  }

  lemma AlignUpIsLeast(x: nat, y: nat)
    requires y % 4 == 0 && x <= y
    ensures AlignUp(x) <= y
  {
    AlignUpIsAligned(x);
  }

  /** The scan stops before `b`, at an offset outside all recovered blocks where a block would overrun the file. */
  ghost predicate OverrunBefore(s: Store, es: seq<Entry>, b: nat) {
    exists c: nat :: DATA_HEADER_SIZE <= c < b && c % 4 == 0 && !Covered(es, c) && Overruns(s.data, s.limit, c)
  }

  /**
   * Whatever the data file contains, a readable block at an aligned offset is recovered, unless it lies in a
   * recovered block, or in one that validation refuses for its size, or behind an offset outside the recovered
   * blocks where a block would overrun the file.
   */
  lemma RecoveryIsComplete(s: Store, newId: nat -> DocumentId, b: nat, length: nat)
    requires s.WellFormed() && DATA_HEADER_SIZE <= b < s.nextText && b % 4 == 0
    requires 0 < length <= s.limit && ReadText(s.data, b, length).Ok?
    ensures var es := Recovered(s, newId);
            || RecoveredThere(es, b, length) || Covered(es, b) || OverrunBefore(s, es, b)
            || exists c: nat :: DATA_HEADER_SIZE <= c <= b && c % 4 == 0 && !Covered(es, c) && Refused(s, c, b)
  {
    var read, es := Reader(s.data, s.limit), Recovered(s, newId);
    var spans := ScanBlocks(read, s.nextText, DATA_HEADER_SIZE);
    ReadableIsTryRead(s.data, s.limit, b, length);
    ScanFindsExactly(read, s.nextText, DATA_HEADER_SIZE, b);
    if Span(b, length) in spans {
      EntryOfSpan(spans, newId, b, length);
      if !RecoveredThere(es, b, length) {
        ScannedIsRefused(s, newId, Span(b, length), b);
      }
    } else if Inside(spans, b) {
      var span := InsideIsCovered(spans, newId, b);
      ScannedAt(s, span);
      if !Covered(es, b) {
        ScannedIsRefused(s, newId, span, b);
      }
    } else {
      StopsWhereOverrun(s, newId, b);
    }
  }

  lemma ScannedIsRefused(s: Store, newId: nat -> DocumentId, span: Span, b: nat)
    requires s.WellFormed() && span.offset <= b < AlignUp(span.offset + 4 + span.length)
    requires span in ScanBlocks(Reader(s.data, s.limit), s.nextText, DATA_HEADER_SIZE)
    requires span.length > MAX_TEXT_SIZE || span.offset + span.length > MAX_FILE_SIZE
    ensures DATA_HEADER_SIZE <= span.offset && span.offset % 4 == 0 && Refused(s, span.offset, b)
    ensures !Covered(Recovered(s, newId), span.offset)
  {
    ScannedAt(s, span);
    if Covered(Recovered(s, newId), span.offset) {
      CoveredIsInside(ScanBlocks(Reader(s.data, s.limit), s.nextText, DATA_HEADER_SIZE), newId, span.offset);
    }
  }

  lemma StopsWhereOverrun(s: Store, newId: nat -> DocumentId, b: nat)
    requires s.WellFormed()
    requires var read := Reader(s.data, s.limit);
             StopsBefore(read, DATA_HEADER_SIZE, ScanBlocks(read, s.nextText, DATA_HEADER_SIZE), b)
    ensures OverrunBefore(s, Recovered(s, newId), b)
  {
    var read := Reader(s.data, s.limit);
    var spans := ScanBlocks(read, s.nextText, DATA_HEADER_SIZE);
    var c: nat :| DATA_HEADER_SIZE <= c < b && c % 4 == 0 && !Inside(spans, c)
                  && read(c) == Err(TextCorruption(ExceedsFile));
    if Covered(Recovered(s, newId), c) {
      CoveredIsInside(spans, newId, c);
    }
    OverrunsWhenExceeding(s.data, s.limit, c);
  }

  lemma AllValidInside(s: Store, newId: nat -> DocumentId, c: nat)
    requires s.WellFormed() && s.limit <= MAX_TEXT_SIZE && |s.data| <= MAX_FILE_SIZE
    ensures Inside(ScanBlocks(Reader(s.data, s.limit), s.nextText, DATA_HEADER_SIZE), c)
       <==> Covered(Recovered(s, newId), c)
  {
    var spans := ScanBlocks(Reader(s.data, s.limit), s.nextText, DATA_HEADER_SIZE);
    if Covered(Recovered(s, newId), c) {
      CoveredIsInside(spans, newId, c);
    }
    if Inside(spans, c) {
      var span := InsideIsCovered(spans, newId, c);
      ScannedAt(s, span);
    }
  }

  lemma NothingIsRefused(s: Store, c: nat, b: nat)
    requires s.limit <= MAX_TEXT_SIZE && |s.data| <= MAX_FILE_SIZE
    ensures !Refused(s, c, b)
  {
  }

  lemma NoOverrunBefore(s: Store, newId: nat -> DocumentId, b: nat, length: nat)
    requires s.WellFormed() && s.limit <= MAX_TEXT_SIZE && |s.data| <= MAX_FILE_SIZE
    requires Span(b, length) in ScanBlocks(Reader(s.data, s.limit), s.nextText, DATA_HEADER_SIZE)
    ensures !Covered(Recovered(s, newId), b) && !OverrunBefore(s, Recovered(s, newId), b)
  {
    var read, es := Reader(s.data, s.limit), Recovered(s, newId);
    ScannedAt(s, Span(b, length));
    ReadableIsTryRead(s.data, s.limit, b, length);
    ScanFindsExactly(read, s.nextText, DATA_HEADER_SIZE, b);
    AllValidInside(s, newId, b);
    forall c: nat | DATA_HEADER_SIZE <= c < b && c % 4 == 0 && !Covered(es, c)
      ensures !Overruns(s.data, s.limit, c)
    {
      AllValidInside(s, newId, c);
      OverrunsWhenExceeding(s.data, s.limit, c);
    }
  }

  /** With limits and files that validation does not exceed, that is all that keeps a block from being recovered. */
  lemma RecoveredExactly(s: Store, newId: nat -> DocumentId, b: nat, length: nat)
    requires s.WellFormed() && s.limit <= MAX_TEXT_SIZE && |s.data| <= MAX_FILE_SIZE
    ensures var es := Recovered(s, newId);
            RecoveredThere(es, b, length) <==>
              && DATA_HEADER_SIZE <= b < s.nextText && b % 4 == 0
              && 0 < length <= s.limit && ReadText(s.data, b, length).Ok?
              && !Covered(es, b) && !OverrunBefore(s, es, b)
  {
    var spans := ScanBlocks(Reader(s.data, s.limit), s.nextText, DATA_HEADER_SIZE);
    EntryOfSpan(spans, newId, b, length);
    if Span(b, length) in spans {
      ScannedAt(s, Span(b, length));
      NoOverrunBefore(s, newId, b, length);
    } else if DATA_HEADER_SIZE <= b < s.nextText && b % 4 == 0 && 0 < length <= s.limit
              && ReadText(s.data, b, length).Ok? {
      RecoveryIsComplete(s, newId, b, length);
      forall c: nat
        ensures !Refused(s, c, b)
      {
        NothingIsRefused(s, c, b);
      }
    }
  }

  // The scanner inverts the writer

  /** The spans of the non-empty blocks. */
  function NonEmptySpans(blocks: seq<Block>): seq<Span> {
    if blocks == [] then []
    else (if blocks[0].text == [] then [] else [Span(blocks[0].offset, |blocks[0].text|)]) + NonEmptySpans(blocks[1..])
  }

  /** What reading a written block gives. */
  function ReadOutcome(text: Text, limit: nat): Result<nat> {
    if text == [] then Err(TextCorruption(ZeroLength))
    else if |text| > limit then Err(TextCorruption(OverLimit))
    else Ok(|text|)
  }

  lemma TryReadWritten(data: seq<byte>, limit: nat, b: Block)
    requires BlockAt(data, b) && |b.text| < U32_LIMIT
    ensures TryReadBlock(data, limit, b.offset) == ReadOutcome(b.text, limit)
  {
    BlockPrefix(data, b);
  }

  /** The written blocks `rest`, the first one at `offset`, each where the one before says. */
  ghost predicate WrittenFrom(read: BlockReader, limit: nat, end: nat, offset: nat, rest: seq<Block>)
    decreases |rest|
  {
    if rest == [] then offset >= end
    else
      && offset == rest[0].offset < end
      && read(offset) == ReadOutcome(rest[0].text, limit)
      && WrittenFrom(read, limit, end, AlignUp(rest[0].End()), rest[1..])
  }

  /** The file holds the blocks from block `i` on. */
  ghost predicate HoldsFrom(data: seq<byte>, blocks: seq<Block>, i: nat) {
    forall j :: i <= j < |blocks| ==>
      BlockAt(data, blocks[j]) && |blocks[j].text| < U32_LIMIT && blocks[j].End() <= EndOf(blocks)
  }

  lemma {:induction false} BlocksAreWritten(data: seq<byte>, limit: nat, blocks: seq<Block>, i: nat)
    requires Chained(blocks) && i <= |blocks| && HoldsFrom(data, blocks, i)
    ensures WrittenFrom(Reader(data, limit), limit, EndOf(blocks), AlignUp(EndOf(blocks[..i])), blocks[i..])
    decreases |blocks| - i
  {
    if i == |blocks| {
      assert blocks[..i] == blocks;
    } else {
      assert blocks[i..][1..] == blocks[i + 1..];
      TryReadWritten(data, limit, blocks[i]);
      BlocksAreWritten(data, limit, blocks, i + 1);
      assert EndOf(blocks[..i + 1]) == blocks[i].End();
    }
  }

  lemma FileIsWritten(data: seq<byte>, limit: nat, blocks: seq<Block>)
    requires Chained(blocks) && DataHolds(data, blocks)
    requires forall b :: b in blocks ==> |b.text| < U32_LIMIT
    ensures WrittenFrom(Reader(data, limit), limit, EndOf(blocks), DATA_HEADER_SIZE, blocks)
  {
    AlignUpIsAligned(DATA_HEADER_SIZE);
    assert forall j :: 0 <= j < |blocks| ==> blocks[j] in blocks;
    BlocksAreWritten(data, limit, blocks, 0);
    assert blocks[0..] == blocks;
  }

  predicate Scannable(blocks: seq<Block>, limit: nat) {
    forall b :: b in blocks ==> |b.text| <= limit && |b.text| < U32_LIMIT
  }

  /** The block reads as written, and `next` is where the following one starts. */
  ghost predicate StepsOn(read: BlockReader, limit: nat, end: nat, b: Block, next: nat) {
    && b.offset < end && b.offset % 4 == 0 && next == AlignUp(b.End())
    && read(b.offset) == ReadOutcome(b.text, limit) && |b.text| <= limit
  }

  lemma ScanOfBlock(read: BlockReader, limit: nat, end: nat, b: Block, next: nat, rest: seq<Block>)
    requires StepsOn(read, limit, end, b, next) && ScanBlocks(read, end, next) == NonEmptySpans(rest)
    ensures ScanBlocks(read, end, b.offset) == NonEmptySpans([b] + rest)
  {
    AlignUpIsAligned(b.offset + 4);
    assert ([b] + rest)[1..] == rest && [] + NonEmptySpans(rest) == NonEmptySpans(rest);
  }

  lemma {:induction false} ScanOfWritten(read: BlockReader, limit: nat, end: nat, offset: nat, rest: seq<Block>)
    requires WrittenFrom(read, limit, end, offset, rest) && offset % 4 == 0
    requires forall b :: b in rest ==> |b.text| <= limit
    ensures ScanBlocks(read, end, offset) == NonEmptySpans(rest)
    decreases |rest|
  {
    if rest != [] {
      var next := AlignUp(rest[0].End());
      AlignUpIsAligned(rest[0].End());
      ScanOfWritten(read, limit, end, next, rest[1..]);
      ScanOfBlock(read, limit, end, rest[0], next, rest[1..]);
      assert [rest[0]] + rest[1..] == rest;
    }
  }

  lemma {:induction false} AcceptedFront(blocks: seq<Block>)
    requires blocks != []
    ensures AcceptedEntries(blocks)
         == (if blocks[0].Accepted() then [blocks[0].AsEntry()] else []) + AcceptedEntries(blocks[1..])
  {
    var n := |blocks| - 1;
    if n > 0 {
      AcceptedFront(blocks[..n]);
      assert blocks[..n][1..] == blocks[1..][..n - 1];
      assert blocks[1..][n - 1] == blocks[n];
    }
  }

  /** Validation keeps, of the non-empty blocks, exactly those the index had accepted. */
  lemma {:induction false} EntriesOfNonEmpty(blocks: seq<Block>, newId: nat -> DocumentId)
    ensures SpansOf(EntriesOf(NonEmptySpans(blocks), newId)) == SpansOf(AcceptedEntries(blocks))
  {
    if blocks != [] {
      var b, rest := blocks[0], NonEmptySpans(blocks[1..]);
      EntriesOfNonEmpty(blocks[1..], newId);
      AcceptedFront(blocks);
      SpansOfIndexed(b.Accepted(), b.AsEntry(), AcceptedEntries(blocks[1..]));
      if b.text != [] {
        SpansOfScanned(Span(b.offset, |b.text|), rest, newId, Entry(newId(b.offset), b.offset, |b.text|));
      } else {
        assert [] + rest == rest;
      }
    }
  }

  /** Rebuilding recovers the places of exactly the indexed texts, in the order they were stored. */
  lemma ScannerInvertsWriter(s: Store, l: Log, newId: nat -> DocumentId)
    requires Represents(s, l) && Scannable(l.blocks, s.limit)
    ensures SpansOf(Recovered(s, newId)) == SpansOf(AcceptedEntries(l.blocks))
  {
    FileIsWritten(s.data, s.limit, l.blocks);
    ScanOfWritten(Reader(s.data, s.limit), s.limit, s.nextText, DATA_HEADER_SIZE, l.blocks);
    EntriesOfNonEmpty(l.blocks, newId);
  }

  lemma {:induction false} AcceptedBlockIndexed(blocks: seq<Block>, b: Block)
    requires b in blocks && b.Accepted()
    ensures b.AsEntry() in AcceptedEntries(blocks)
  {
    var n := |blocks| - 1;
    if b != blocks[n] {
      AcceptedBlockIndexed(blocks[..n], b);
    }
  }

  /** When only empty texts were rejected, recovery is complete exactly if the limit still admits every indexed text. */
  lemma ScannerInvertsWriterExactly(s: Store, l: Log, newId: nat -> DocumentId)
    requires Represents(s, l)
    requires forall b :: b in l.blocks ==> b.Accepted() || b.text == []
    ensures SpansOf(Recovered(s, newId)) == SpansOf(AcceptedEntries(l.blocks))
       <==> forall b :: b in l.blocks ==> |b.text| <= s.limit
  {
    if forall b :: b in l.blocks ==> |b.text| <= s.limit {
      ScannerInvertsWriter(s, l, newId);
    } else {
      var b :| b in l.blocks && |b.text| > s.limit;
      AcceptedBlockIndexed(l.blocks, b);
      var es := AcceptedEntries(l.blocks);
      var i :| 0 <= i < |es| && es[i] == b.AsEntry();
      assert SpansOf(es)[i].length > s.limit;
      if i < |Recovered(s, newId)| {
        RecoveredAt(s, newId, i, i);
        assert SpansOf(Recovered(s, newId))[i].length <= s.limit;
      }
    }
  }

  /** Every limit a run sets is at most `bound`. */
  predicate LimitsWithin(limit: nat, ops: seq<Op>, bound: nat) {
    limit <= bound && forall op :: op in ops && op.SetLimit? ==> op.limit <= bound
  }

  lemma {:induction false} RunRejectsOnlyEmpty(limit: nat, ops: seq<Op>)
    requires LimitsWithin(limit, ops, MAX_TEXT_SIZE)
    requires EndOf(LogRun(Log([], limit), ops).blocks) <= MAX_FILE_SIZE
    ensures var l := LogRun(Log([], limit), ops);
            l.limit <= MAX_TEXT_SIZE && forall b :: b in l.blocks ==> b.Accepted() || b.text == []
  {
    if ops != [] {
      var before := ops[..|ops| - 1];
      var l := LogRun(Log([], limit), before);
      assert EndOf(l.blocks) <= EndOf(LogStep(l, ops[|ops| - 1]).blocks);
      RunRejectsOnlyEmpty(limit, before);
    }
  }

  /**
   * After any run from `create`, rejected empty stores included, the scan recovers exactly what the run had
   * indexed, as long as the limit was never left below a stored text.
   */
  lemma RunIsRecovered(limit: nat, ops: seq<Op>, newId: nat -> DocumentId)
    requires RunFits(Create(limit), ops)
    requires Scannable(LogRun(Log([], limit), ops).blocks, Run(Create(limit), ops).limit)
    ensures SpansOf(Recovered(Run(Create(limit), ops), newId))
         == SpansOf(AcceptedEntries(LogRun(Log([], limit), ops).blocks))
  {
    RunRepresents(limit, ops);
    ScannerInvertsWriter(Run(Create(limit), ops), LogRun(Log([], limit), ops), newId);
  }

  /** With limits of at most 100 MiB, that condition is also necessary. */
  lemma RunIsRecoveredExactly(limit: nat, ops: seq<Op>, newId: nat -> DocumentId)
    requires RunFits(Create(limit), ops) && LimitsWithin(limit, ops, MAX_TEXT_SIZE)
    requires Run(Create(limit), ops).nextText <= MAX_FILE_SIZE
    ensures (SpansOf(Recovered(Run(Create(limit), ops), newId))
               == SpansOf(AcceptedEntries(LogRun(Log([], limit), ops).blocks)))
       <==> (forall b :: b in LogRun(Log([], limit), ops).blocks ==> |b.text| <= Run(Create(limit), ops).limit)
  {
    RunRepresents(limit, ops);
    RunRejectsOnlyEmpty(limit, ops);
    ScannerInvertsWriterExactly(Run(Create(limit), ops), LogRun(Log([], limit), ops), newId);
  }

  // A written file with one damaged text

  lemma {:induction false} ChainedOrder(blocks: seq<Block>, i: nat, j: nat)
    requires Chained(blocks) && i < j < |blocks|
    ensures blocks[i].End() <= blocks[j].offset
    decreases j
  {
    if i < j - 1 {
      ChainedOrder(blocks, i, j - 1);
    }
  }

  /** No block can be read at an aligned offset, and the scan is not stopped before `to` unless it ends there. */
  ghost predicate Unreadable(read: BlockReader, from: nat, to: nat, end: nat) {
    forall c: nat :: from <= c < to && c % 4 == 0 ==>
      read(c).Err? && (read(c) == Err(TextCorruption(ExceedsFile)) ==> to >= end)
  }

  lemma {:induction false} ScanSkips(read: BlockReader, from: nat, to: nat, end: nat)
    requires Unreadable(read, from, to, end) && from <= to && from % 4 == 0 && to % 4 == 0
    ensures ScanBlocks(read, end, from) == ScanBlocks(read, end, to)
    decreases if from < to then to - from else 0
  {
    if from < to && from < end {
      ScanSkips(read, from + 4, to, end);
    }
  }

  /** Only the text of block `k` differs. */
  ghost predicate DamagedText(data: seq<byte>, damaged: seq<byte>, b: Block) {
    && |damaged| == |data|
    && forall i :: 0 <= i < |data| && !(b.offset + 4 <= i < b.End()) ==> damaged[i] == data[i]
  }

  lemma SliceOutside(data: seq<byte>, damaged: seq<byte>, b: Block, lo: nat, hi: nat)
    requires DamagedText(data, damaged, b) && lo <= hi <= |data| && (hi <= b.offset + 4 || b.End() <= lo)
    ensures damaged[lo..hi] == data[lo..hi]
  {
  }

  lemma OtherBlocksStay(data: seq<byte>, damaged: seq<byte>, blocks: seq<Block>, k: nat, j: nat)
    requires Chained(blocks) && DataHolds(data, blocks) && k < |blocks| && j < |blocks| && j != k
    requires DamagedText(data, damaged, blocks[k])
    ensures BlockAt(damaged, blocks[j])
  {
    assert blocks[j] in blocks;
    if j < k {
      ChainedOrder(blocks, j, k);
    } else {
      ChainedOrder(blocks, k, j);
    }
    SliceOutside(data, damaged, blocks[k], blocks[j].offset, blocks[j].End());
  }

  /** The blocks before block `k` read as written. */
  ghost predicate ReadsUpTo(read: BlockReader, limit: nat, end: nat, blocks: seq<Block>, k: nat)
    requires k < |blocks|
  {
    forall j :: 0 <= j < k ==> StepsOn(read, limit, end, blocks[j], blocks[j + 1].offset)
  }

  lemma ChainNext(blocks: seq<Block>, i: nat)
    requires Chained(blocks) && i + 1 < |blocks|
    ensures blocks[i + 1].offset == AlignUp(blocks[i].End())
  {
    assert EndOf(blocks[..i + 1]) == blocks[i].End();
  }

  lemma OffsetIsAligned(blocks: seq<Block>, i: nat)
    requires Chained(blocks) && i < |blocks|
    ensures blocks[i].offset % 4 == 0
  {
    AlignUpIsAligned(EndOf(blocks[..i]));
  }

  lemma AllBut(blocks: seq<Block>, k: nat, i: nat)
    requires i < k < |blocks|
    ensures [blocks[i]] + (blocks[i + 1..k] + blocks[k + 1..]) == blocks[i..k] + blocks[k + 1..]
  {
  }

  lemma {:induction false} ScanOfDamaged(read: BlockReader, limit: nat, end: nat, blocks: seq<Block>, k: nat, i: nat)
    requires i <= k < |blocks| && ReadsUpTo(read, limit, end, blocks, k)
    requires ScanBlocks(read, end, blocks[k].offset) == NonEmptySpans(blocks[k + 1..])
    ensures ScanBlocks(read, end, blocks[i].offset) == NonEmptySpans(blocks[i..k] + blocks[k + 1..])
    decreases k - i
  {
    if i == k {
      assert blocks[k..k] + blocks[k + 1..] == blocks[k + 1..];
    } else {
      ScanOfDamaged(read, limit, end, blocks, k, i + 1);
      ScanOfBlock(read, limit, end, blocks[i], blocks[i + 1].offset, blocks[i + 1..k] + blocks[k + 1..]);
      AllBut(blocks, k, i);
    }
  }

  /**
   * The damaged text is not valid, and none of its bytes at aligned offsets can be taken for the length of a
   * block within the limit.
   */
  ghost predicate PlainlyDamaged(damaged: seq<byte>, limit: nat, b: Block) {
    && b.End() <= |damaged| && !ValidUtf8(damaged[b.offset + 4..b.End()])
    && forall c: nat :: b.offset < c < b.End() && c % 4 == 0 && c + 4 <= |damaged| ==>
         FromLE(damaged[c..c + 4]) == 0 || FromLE(damaged[c..c + 4]) > limit
  }

  /** What reading at an aligned offset of the damaged block gives. */
  lemma DamagedStart(data: seq<byte>, damaged: seq<byte>, limit: nat, b: Block)
    requires BlockAt(data, b) && 0 < |b.text| <= limit && |b.text| < U32_LIMIT
    requires DamagedText(data, damaged, b) && PlainlyDamaged(damaged, limit, b)
    ensures TryReadBlock(damaged, limit, b.offset) == Err(TextCorruption(BadUtf8))
  {
    BlockPrefix(data, b);
    SliceOutside(data, damaged, b, b.offset, b.offset + 4);
  }

  lemma DamagedInner(damaged: seq<byte>, limit: nat, b: Block, c: nat)
    requires PlainlyDamaged(damaged, limit, b) && b.offset < c < b.End() && c % 4 == 0 && c + 4 <= |damaged|
    ensures TryReadBlock(damaged, limit, c).Err?
    ensures TryReadBlock(damaged, limit, c) != Err(TextCorruption(ExceedsFile))
  {
  }

  lemma DamagedIsUnreadable(data: seq<byte>, damaged: seq<byte>, limit: nat, b: Block, end: nat)
    requires BlockAt(data, b) && 0 < |b.text| <= limit && |b.text| < U32_LIMIT
    requires DamagedText(data, damaged, b) && PlainlyDamaged(damaged, limit, b)
    requires AlignUp(b.End()) >= end || AlignUp(b.End()) + 4 <= |data|
    ensures Unreadable(Reader(damaged, limit), b.offset, AlignUp(b.End()), end)
  {
    forall c: nat | b.offset <= c < AlignUp(b.End()) && c % 4 == 0
      ensures var r := Reader(damaged, limit)(c);
              r.Err? && (r == Err(TextCorruption(ExceedsFile)) ==> AlignUp(b.End()) >= end)
    {
      if c == b.offset {
        DamagedStart(data, damaged, limit, b);
      } else if c + 4 <= |damaged| {
        if b.End() <= c {
          AlignUpIsLeast(b.End(), c);
        }
        DamagedInner(damaged, limit, b, c);
      }
    }
  }

  lemma NextBlockFits(data: seq<byte>, blocks: seq<Block>, k: nat)
    requires Chained(blocks) && DataHolds(data, blocks) && k < |blocks|
    ensures AlignUp(blocks[k].End()) >= EndOf(blocks) || AlignUp(blocks[k].End()) + 4 <= |data|
  {
    if k + 1 < |blocks| {
      assert blocks[k + 1] in blocks;
      assert EndOf(blocks[..k + 1]) == blocks[k].End();
    }
  }

  lemma OthersReadAsWritten(data: seq<byte>, damaged: seq<byte>, limit: nat, blocks: seq<Block>, k: nat)
    requires Chained(blocks) && DataHolds(data, blocks) && Scannable(blocks, limit) && k < |blocks|
    requires DamagedText(data, damaged, blocks[k])
    ensures ReadsUpTo(Reader(damaged, limit), limit, EndOf(blocks), blocks, k) && HoldsFrom(damaged, blocks, k + 1)
  {
    forall j | 0 <= j < |blocks| && j != k
      ensures BlockAt(damaged, blocks[j]) && |blocks[j].text| < U32_LIMIT && blocks[j].End() <= EndOf(blocks)
    {
      assert blocks[j] in blocks;
      OtherBlocksStay(data, damaged, blocks, k, j);
    }
    forall j | 0 <= j < k
      ensures StepsOn(Reader(damaged, limit), limit, EndOf(blocks), blocks[j], blocks[j + 1].offset)
    {
      assert blocks[j] in blocks;
      BlockStepsOn(damaged, limit, blocks, j);
    }
  }

  lemma BlockStepsOn(data: seq<byte>, limit: nat, blocks: seq<Block>, j: nat)
    requires Chained(blocks) && j + 1 < |blocks| && BlockAt(data, blocks[j])
    requires |blocks[j].text| < U32_LIMIT && |blocks[j].text| <= limit && blocks[j].End() <= EndOf(blocks)
    ensures StepsOn(Reader(data, limit), limit, EndOf(blocks), blocks[j], blocks[j + 1].offset)
  {
    ChainNext(blocks, j);
    OffsetIsAligned(blocks, j);
    TryReadWritten(data, limit, blocks[j]);
  }

  lemma FirstOffset(blocks: seq<Block>)
    requires Chained(blocks) && blocks != []
    ensures blocks[0].offset == DATA_HEADER_SIZE
  {
    AlignUpIsAligned(DATA_HEADER_SIZE);
    assert blocks[..0] == [];
  }

  lemma ScanBehindDamaged(read: BlockReader, limit: nat, end: nat, blocks: seq<Block>, k: nat)
    requires Chained(blocks) && Scannable(blocks, limit) && k < |blocks|
    requires WrittenFrom(read, limit, end, AlignUp(EndOf(blocks[..k + 1])), blocks[k + 1..])
    requires Unreadable(read, blocks[k].offset, AlignUp(blocks[k].End()), end)
    ensures ScanBlocks(read, end, blocks[k].offset) == NonEmptySpans(blocks[k + 1..])
  {
    var next := AlignUp(blocks[k].End());
    AlignUpIsAligned(blocks[k].End());
    OffsetIsAligned(blocks, k);
    assert EndOf(blocks[..k + 1]) == blocks[k].End();
    assert forall b :: b in blocks[k + 1..] ==> b in blocks;
    ScanOfWritten(read, limit, end, next, blocks[k + 1..]);
    ScanSkips(read, blocks[k].offset, next, end);
  }

  /**
   * One text damaged on disk costs that text only: the scan recovers every other indexed one, before and behind.
   */
  lemma DamagedTextIsSteppedOver(s: Store, l: Log, damaged: seq<byte>, k: nat, newId: nat -> DocumentId)
    requires Represents(s, l) && Scannable(l.blocks, s.limit) && k < |l.blocks|
    requires DamagedText(s.data, damaged, l.blocks[k]) && PlainlyDamaged(damaged, s.limit, l.blocks[k])
    ensures SpansOf(Recovered(s.(data := damaged), newId))
         == SpansOf(AcceptedEntries(l.blocks[..k] + l.blocks[k + 1..]))
  {
    var (b, blocks) := (l.blocks[k], l.blocks);
    assert b in blocks && b.text != [];
    NextBlockFits(s.data, blocks, k);
    DamagedIsUnreadable(s.data, damaged, s.limit, b, EndOf(blocks));
    OthersReadAsWritten(s.data, damaged, s.limit, blocks, k);
    BlocksAreWritten(damaged, s.limit, blocks, k + 1);
    ScanBehindDamaged(Reader(damaged, s.limit), s.limit, s.nextText, blocks, k);
    ScanOfDamaged(Reader(damaged, s.limit), s.limit, s.nextText, blocks, k, 0);
    FirstOffset(blocks);
    assert blocks[0..k] == blocks[..k];
    EntriesOfNonEmpty(blocks[..k] + blocks[k + 1..], newId);
  }
}
