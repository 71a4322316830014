/** Substring extraction respects character boundaries and composes. */
module TextExtraction {
  import opened Bytes
  import opened Outcomes
  import opened TextFormat
  import opened Utf8
  import opened TextLog

  /** A range is accepted exactly when it is non-empty, in bounds, and neither of its ends splits a character. */
  lemma ExtractExactly(text: Text, start: nat, length: nat)
    ensures Extract(text, start, length).Ok?
       <==> 0 < length && start + length <= |text| && ValidUtf8(text[..start]) && ValidUtf8(text[..start + length])
    ensures Extract(text, start, length).Ok? ==> Extract(text, start, length).value == text[start..start + length]
  {
    if start + length <= |text| {
      CutAtBoundary(text, start);
      CutAtBoundary(text, start + length);
    }
  }

  lemma ExtractJoins(text: Text, start: nat, first: nat, second: nat)
    requires Extract(text, start, first).Ok? && Extract(text, start + first, second).Ok?
    ensures Extract(text, start, first + second)
         == Ok(Extract(text, start, first).value + Extract(text, start + first, second).value)
  {
    assert text[start..start + first] + text[start + first..start + first + second]
        == text[start..start + first + second];
  }

  /** What a successful extraction says about the stored text. */
  lemma ExtractReadsText(s: Store, doc: DocumentId, start: nat, length: nat)
    requires ExtractSubstring(s, doc, start, length).Ok?
    ensures GetText(s, doc).Ok? && start + length <= |GetText(s, doc).value| < U32_LIMIT
    ensures ExtractSubstring(s, doc, start, length) == Extract(GetText(s, doc).value, start, length)
  {
  }

  /**
   * Two adjacent accepted extractions from a document concatenate to the extraction of the combined range, which
   * is accepted too and whose end still fits 32 bits.
   */
  lemma AdjacentExtractionsJoin(s: Store, doc: DocumentId, start: nat, first: nat, second: nat)
    requires ExtractSubstring(s, doc, start, first).Ok? && ExtractSubstring(s, doc, start + first, second).Ok?
    ensures start + first + second < U32_LIMIT
    ensures ExtractSubstring(s, doc, start, first + second)
         == Ok(ExtractSubstring(s, doc, start, first).value + ExtractSubstring(s, doc, start + first, second).value)
  {
    ExtractReadsText(s, doc, start, first);
    ExtractReadsText(s, doc, start + first, second);
    ExtractJoins(GetText(s, doc).value, start, first, second);
  }
}
