/** On-disk records of the text index and text data files. */
module TextFormat {
  import opened Bytes
  import opened Outcomes

  const FILE_HEADER_SIZE := 80
  const INDEX_HEADER_SIZE := 112
  const DATA_HEADER_SIZE := 104
  const ENTRY_SIZE := 32
  const MAX_TEXT_SIZE := 100 * 1024 * 1024
  const MAX_FILE_SIZE := 1_000_000_000_000

  type DocumentId = d: nat | d < U128_LIMIT witness 0

  datatype Entry = Entry(doc: DocumentId, offset: nat, length: nat) {
    /** `DocumentTextEntry::validate`; the last bound also rules out 64-bit overflow. */
    predicate Valid() {
      0 < length <= MAX_TEXT_SIZE && offset + length <= MAX_FILE_SIZE
    }

    function EndOffset(): Option<nat> {
      if offset + length < U64_LIMIT then Some(offset + length) else None
    }

    /** The byte belongs to the text. */
    predicate Has(x: nat) {
      offset <= x < offset + length
    }

    predicate OverlapsWith(other: Entry) {
      match (EndOffset(), other.EndOffset())
      case (Some(end), Some(otherEnd)) => offset < otherEnd && other.offset < end
      case _ => false
    }
  }

  function EncodeEntry(e: Entry): (b: seq<byte>)
    ensures |b| == ENTRY_SIZE
  {
    ToLE(e.doc, 16) + ToLE(e.offset, 8) + ToLE(e.length, 8)
  }

  function DecodeEntry(b: seq<byte>): Entry
    requires |b| == ENTRY_SIZE
  {
    FromLEBound(b[..16]); Widths();
    Entry(FromLE(b[..16]), FromLE(b[16..24]), FromLE(b[24..]))
  }

  lemma EntryRoundTrip(e: Entry)
    requires e.Valid()
    ensures DecodeEntry(EncodeEntry(e)) == e
  {
    Widths();
    FromLEToLE(e.doc, 16);
    FromLEToLE(e.offset, 8);
    FromLEToLE(e.length, 8);
    var b := EncodeEntry(e);
    assert b[..16] == ToLE(e.doc, 16) && b[16..24] == ToLE(e.offset, 8) && b[24..] == ToLE(e.length, 8);
  }

  /** Two non-empty entries overlap exactly if some byte belongs to both, and neither ends beyond 64 bits. */
  lemma OverlapExactly(a: Entry, b: Entry)
    requires a.length > 0 && b.length > 0
    ensures a.OverlapsWith(b) <==>
              && a.offset + a.length < U64_LIMIT && b.offset + b.length < U64_LIMIT
              && exists x :: a.Has(x) && b.Has(x)
  {
    var x := if a.offset < b.offset then b.offset else a.offset;
    assert a.OverlapsWith(b) ==> a.Has(x) && b.Has(x);
  }

  // Headers. The standard part carries magic, version and sizes; checksum and times read as zero.

  const TEXT_INDEX_MAGIC: seq<byte> := [0x54, 0x49, 0x44, 0x58]
  const TEXT_DATA_MAGIC: seq<byte> := [0x54, 0x44, 0x41, 0x54]

  function FileHeader(magic: seq<byte>, dataOffset: nat): (b: seq<byte>)
    requires |magic| == 4
    ensures |b| == FILE_HEADER_SIZE
  {
    magic + ToLE(1, 4) + ToLE(FILE_HEADER_SIZE, 4) + Zeros(4) + ToLE(dataOffset, 8) + Zeros(56)
  }

  /** Magic bytes, version 1, and `validate_structure` at the time `now`. */
  predicate ValidFileHeader(b: seq<byte>, magic: seq<byte>, now: nat)
    requires |b| >= FILE_HEADER_SIZE
  {
    && b[..4] == magic
    && FromLE(b[4..8]) == 1
    && FromLE(b[8..12]) == FILE_HEADER_SIZE
    && FromLE(b[16..24]) >= FILE_HEADER_SIZE
    && FromLE(b[32..40]) <= FromLE(b[40..48]) <= now
    && b[48..80] == Zeros(32)
  }

  lemma FileHeaderFields(magic: seq<byte>, version: seq<byte>, size: seq<byte>, offset: seq<byte>, rest: seq<byte>)
    requires |magic| == |version| == |size| == 4 && |offset| == 8
    ensures var b := magic + version + size + Zeros(4) + offset + Zeros(56) + rest;
            && b[..4] == magic && b[4..8] == version && b[8..12] == size && b[16..24] == offset
            && b[32..40] == Zeros(8) && b[40..48] == Zeros(8) && b[48..80] == Zeros(32)
  {
  }

  lemma {:induction false} ZerosReadAsZero(n: nat)
    ensures FromLE(Zeros(n)) == 0
  {
    if n > 0 {
      ZerosReadAsZero(n - 1);
      assert Zeros(n)[1..] == Zeros(n - 1);
    }
  }

  lemma FileHeaderIsValid(magic: seq<byte>, dataOffset: nat, rest: seq<byte>, now: nat)
    requires |magic| == 4 && FILE_HEADER_SIZE <= dataOffset < U64_LIMIT
    ensures ValidFileHeader(FileHeader(magic, dataOffset) + rest, magic, now)
  {
    ZerosReadAsZero(8);
    FileHeaderFields(magic, ToLE(1, 4), ToLE(FILE_HEADER_SIZE, 4), ToLE(dataOffset, 8), rest);
    Widths();
    FromLEToLE(1, 4);
    FromLEToLE(FILE_HEADER_SIZE, 4);
    FromLEToLE(dataOffset, 8);
  }

  function EncodeIndexHeader(entryCount: nat, nextEntryOffset: nat): (b: seq<byte>)
    ensures |b| == INDEX_HEADER_SIZE
  {
    FileHeader(TEXT_INDEX_MAGIC, INDEX_HEADER_SIZE)
      + (ToLE(entryCount, 4) + Zeros(4) + ToLE(nextEntryOffset, 8) + Zeros(16))
  }

  function EncodeDataHeader(totalTextSize: nat, nextTextOffset: nat): (b: seq<byte>)
    ensures |b| == DATA_HEADER_SIZE
  {
    FileHeader(TEXT_DATA_MAGIC, DATA_HEADER_SIZE)
      + (ToLE(totalTextSize, 8) + ToLE(nextTextOffset, 8) + Zeros(8))
  }

  /** `read_at(0)` followed by `TextIndexHeader::validate`; yields the count and the next offset. */
  function ReadIndexHeader(file: seq<byte>, now: nat): Result<(nat, nat)> {
    if |file| < INDEX_HEADER_SIZE then Err(MemoryMapping)
    else
      var next := FromLE(file[88..96]);
      if ValidFileHeader(file, TEXT_INDEX_MAGIC, now) && next >= INDEX_HEADER_SIZE && file[96..108] == Zeros(12)
      then Ok((FromLE(file[80..84]), next))
      else Err(Corruption)
  }

  /** `read_at(0)` followed by `TextDataHeader::validate`; yields the text total and the next offset. */
  function ReadDataHeader(file: seq<byte>, now: nat): Result<(nat, nat)> {
    if |file| < DATA_HEADER_SIZE then Err(MemoryMapping)
    else
      var next := FromLE(file[88..96]);
      if ValidFileHeader(file, TEXT_DATA_MAGIC, now) && next >= DATA_HEADER_SIZE && file[96..104] == Zeros(8)
      then Ok((FromLE(file[80..88]), next))
      else Err(Corruption)
  }

  lemma IndexFields(head: seq<byte>, count: seq<byte>, offset: seq<byte>, rest: seq<byte>)
    requires |head| == FILE_HEADER_SIZE && |count| == 4 && |offset| == 8
    ensures var f := head + (count + Zeros(4) + offset + Zeros(16)) + rest;
            f[80..84] == count && f[88..96] == offset && f[96..108] == Zeros(12)
  {
  }

  lemma DataFields(head: seq<byte>, size: seq<byte>, offset: seq<byte>, rest: seq<byte>)
    requires |head| == FILE_HEADER_SIZE && |size| == 8 && |offset| == 8
    ensures var f := head + (size + offset + Zeros(8)) + rest;
            f[80..88] == size && f[88..96] == offset && f[96..104] == Zeros(8)
  {
  }

  /** A written index header reads back, unless its next offset points inside the header. */
  lemma IndexHeaderRoundTrip(entryCount: nat, next: nat, rest: seq<byte>, now: nat)
    requires entryCount < U32_LIMIT && next < U64_LIMIT
    ensures ReadIndexHeader(EncodeIndexHeader(entryCount, next) + rest, now)
         == if next < INDEX_HEADER_SIZE then Err(Corruption) else Ok((entryCount, next))
  {
    var head, count, offset := FileHeader(TEXT_INDEX_MAGIC, INDEX_HEADER_SIZE), ToLE(entryCount, 4), ToLE(next, 8);
    var fields := count + Zeros(4) + offset + Zeros(16);
    var file := head + fields + rest;
    assert ValidFileHeader(file, TEXT_INDEX_MAGIC, now) by {
      FileHeaderIsValid(TEXT_INDEX_MAGIC, INDEX_HEADER_SIZE, fields + rest, now);
      assert file == head + (fields + rest);
    }
    assert FromLE(count) == entryCount && FromLE(offset) == next by {
      Widths();
      FromLEToLE(entryCount, 4);
      FromLEToLE(next, 8);
    }
    IndexFields(head, count, offset, rest);
  }

  lemma DataHeaderRoundTrip(total: nat, next: nat, rest: seq<byte>, now: nat)
    requires total < U64_LIMIT && next < U64_LIMIT
    ensures ReadDataHeader(EncodeDataHeader(total, next) + rest, now)
         == if next < DATA_HEADER_SIZE then Err(Corruption) else Ok((total, next))
  {
    var head, size, offset := FileHeader(TEXT_DATA_MAGIC, DATA_HEADER_SIZE), ToLE(total, 8), ToLE(next, 8);
    var fields := size + offset + Zeros(8);
    var file := head + fields + rest;
    assert ValidFileHeader(file, TEXT_DATA_MAGIC, now) by {
      FileHeaderIsValid(TEXT_DATA_MAGIC, DATA_HEADER_SIZE, fields + rest, now);
      assert file == head + (fields + rest);
    }
    assert FromLE(size) == total && FromLE(offset) == next by {
      Widths();
      FromLEToLE(total, 8);
      FromLEToLE(next, 8);
    }
    DataFields(head, size, offset, rest);
  }

  // Which headers are refused

  /** Which bytes make an index file open, and the counters it then opens with. */
  lemma IndexOpensExactly(file: seq<byte>, now: nat)
    ensures ReadIndexHeader(file, now).Ok? <==>
              && |file| >= 112
              && file[0] == 0x54 && file[1] == 0x49 && file[2] == 0x44 && file[3] == 0x58
              && FromLE(file[4..8]) == 1 && FromLE(file[8..12]) == 80 && FromLE(file[16..24]) >= 80
              && FromLE(file[32..40]) <= FromLE(file[40..48]) <= now
              && (forall i :: 48 <= i < 80 || 96 <= i < 108 ==> file[i] == 0)
              && FromLE(file[88..96]) >= 112
    ensures ReadIndexHeader(file, now).Ok? ==>
              ReadIndexHeader(file, now).value == (FromLE(file[80..84]), FromLE(file[88..96]))
    ensures ReadIndexHeader(file, now).Err? ==>
              ReadIndexHeader(file, now) == if |file| < 112 then Err(MemoryMapping) else Err(Corruption)
  {
  }

  lemma DataOpensExactly(file: seq<byte>, now: nat)
    ensures ReadDataHeader(file, now).Ok? <==>
              && |file| >= 104
              && file[0] == 0x54 && file[1] == 0x44 && file[2] == 0x41 && file[3] == 0x54
              && FromLE(file[4..8]) == 1 && FromLE(file[8..12]) == 80 && FromLE(file[16..24]) >= 80
              && FromLE(file[32..40]) <= FromLE(file[40..48]) <= now
              && (forall i :: 48 <= i < 80 || 96 <= i < 104 ==> file[i] == 0)
              && FromLE(file[88..96]) >= 104
    ensures ReadDataHeader(file, now).Ok? ==>
              ReadDataHeader(file, now).value == (FromLE(file[80..88]), FromLE(file[88..96]))
    ensures ReadDataHeader(file, now).Err? ==>
              ReadDataHeader(file, now) == if |file| < 104 then Err(MemoryMapping) else Err(Corruption)
  {
  }

  lemma ChangedSlice(file: seq<byte>, p: nat, x: byte, i: nat, j: nat)
    requires i <= p < j <= |file| && x != file[p]
    ensures FromLE(file[p := x][i..j]) != FromLE(file[i..j])
  {
    var (changed, slice) := (file[p := x][i..j], file[i..j]);
    assert changed[p - i] == x && slice[p - i] == file[p];
    if FromLE(changed) == FromLE(slice) {
      FromLEInjective(changed, slice);
    }
  }

  /** One changed byte in magic, version, header size, reserved bytes or padding, and a file does not open again. */
  lemma TamperingIsRefused(file: seq<byte>, now: nat, later: nat, p: nat, x: byte)
    requires p < |file| && x != file[p] && (p < 12 || 48 <= p < 80 || 96 <= p < 104)
    ensures ReadIndexHeader(file, now).Ok? ==> ReadIndexHeader(file[p := x], later) == Err(Corruption)
    ensures ReadDataHeader(file, now).Ok? ==> ReadDataHeader(file[p := x], later) == Err(Corruption)
  {
    IndexOpensExactly(file, now);
    IndexOpensExactly(file[p := x], later);
    DataOpensExactly(file, now);
    DataOpensExactly(file[p := x], later);
    if 4 <= p < 8 <= |file| {
      ChangedSlice(file, p, x, 4, 8);
    } else if 8 <= p < 12 <= |file| {
      ChangedSlice(file, p, x, 8, 12);
    }
  }
}
