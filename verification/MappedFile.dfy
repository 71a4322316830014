/** Writing into and resizing the byte buffer of a mapped file. */
module MappedFile {
  import opened Bytes
  import opened TextLog

  /** Copies `bytes` into the file at `offset`. */
  method WriteAt(file: array<byte>, offset: nat, bytes: seq<byte>)
    requires offset + |bytes| <= file.Length
    modifies file
    ensures file[..] == Splice(old(file[..]), offset, bytes)
  {
    forall i | 0 <= i < |bytes| {
      file[offset + i] := bytes[i];
    }
  }

  /** Remaps the file at a new length: the common prefix stays, new space reads as zero. */
  method Resize(file: array<byte>, length: nat) returns (resized: array<byte>)
    ensures fresh(resized) && resized[..] == Resized(file[..], length)
  {
    resized := new byte[length](_ => 0);
    forall i | 0 <= i < length && i < file.Length {
      resized[i] := file[i];
    }
  }

  /** Resizes only when `required` bytes do not fit. */
  method EnsureLength(file: array<byte>, required: nat, slack: nat) returns (grown: array<byte>)
    ensures grown == file || fresh(grown)
    ensures grown[..] == Resized(file[..], GrownLength(file.Length, required, slack))
  {
    grown := file;
    if required > file.Length {
      grown := Resize(file, Max(required + slack, 2 * file.Length));
    }
  }

  /** Writes alignment padding, length prefix and text. */
  method WriteBlock(file: array<byte>, offset: nat, padding: nat, text: seq<byte>)
    requires offset + padding + 4 + |text| <= file.Length
    modifies file
    ensures file[..] == Splice(old(file[..]), offset, Zeros(padding) + BlockBytes(text))
  {
    ghost var before := file[..];
    var prefix := ToLE(|text| % U32_LIMIT, 4);
    if padding > 0 {
      WriteAt(file, offset, Zeros(padding));
    }
    assert file[..] == Splice(before, offset, Zeros(padding));
    WriteAt(file, offset + padding, prefix);
    SpliceAdjacent(before, offset, Zeros(padding), prefix);
    WriteAt(file, offset + padding + 4, text);
    SpliceAdjacent(before, offset, Zeros(padding) + prefix, text);
    assert Zeros(padding) + prefix + text == Zeros(padding) + BlockBytes(text);
  }

  method GrowAndWriteBlock(file: array<byte>, offset: nat, padding: nat, text: seq<byte>) returns (grown: array<byte>)
    modifies file
    ensures grown == file || fresh(grown)
    ensures grown[..] == PlaceBlock(old(file[..]), offset, padding, text)
  {
    grown := EnsureLength(file, offset + padding + 4 + |text|, MIB);
    WriteBlock(grown, offset, padding, text);
  }

  /** Two adjacent writes are one. */
  lemma SpliceAdjacent(s: seq<byte>, offset: nat, a: seq<byte>, b: seq<byte>)
    requires offset + |a| + |b| <= |s|
    ensures Splice(Splice(s, offset, a), offset + |a|, b) == Splice(s, offset, a + b)
  {
  }
}
