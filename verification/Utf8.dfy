/** UTF-8 well-formedness (section 4 of RFC 3629) and character boundaries of byte strings. */
module Utf8 {
  import opened Bytes

  predicate IsContinuation(b: byte) {
    0x80 <= b < 0xC0
  }

  /** The length of the well-formed character that `s` starts with, or 0 when it starts with none. */
  function FirstCharLength(s: seq<byte>): (n: nat)
    ensures n <= |s| && n <= 4
  {
    if |s| >= 1 && s[0] < 0x80 then 1
    else if |s| >= 2 && 0xC2 <= s[0] < 0xE0 && IsContinuation(s[1]) then 2
    else if |s| >= 3 && ThreeByteHead(s[0], s[1]) && IsContinuation(s[2]) then 3
    else if |s| >= 4 && FourByteHead(s[0], s[1]) && IsContinuation(s[2]) && IsContinuation(s[3]) then 4
    else 0
  }

  /** Three-byte characters, without overlong forms and surrogates. */
  predicate ThreeByteHead(a: byte, b: byte) {
    || (a == 0xE0 && 0xA0 <= b < 0xC0)
    || (0xE1 <= a <= 0xEC && IsContinuation(b))
    || (a == 0xED && 0x80 <= b < 0xA0)
    || (0xEE <= a <= 0xEF && IsContinuation(b))
  }

  /** Four-byte characters, without overlong forms and values above U+10FFFF. */
  predicate FourByteHead(a: byte, b: byte) {
    || (a == 0xF0 && 0x90 <= b < 0xC0)
    || (0xF1 <= a <= 0xF3 && IsContinuation(b))
    || (a == 0xF4 && 0x80 <= b < 0x90)
  }

  predicate ValidUtf8(s: seq<byte>) {
    s == [] || (FirstCharLength(s) > 0 && ValidUtf8(s[FirstCharLength(s)..]))
  }

  type Text = s: seq<byte> | ValidUtf8(s)

  /** `str::is_char_boundary`. */
  predicate IsCharBoundary(s: seq<byte>, i: nat) {
    i == 0 || i == |s| || (i < |s| && !IsContinuation(s[i]))
  }

  // A reference definition: well-formed means "encodes a list of Unicode scalar values"

  type Scalar = c: int | 0 <= c < 0xD800 || 0xE000 <= c < 0x11_0000

  function EncodeScalar(c: Scalar): (s: seq<byte>)
    ensures FirstCharLength(s) == |s| > 0
  {
    if c < 0x80 then [c]
    else if c < 0x800 then [0xC0 + c / 64, 0x80 + c % 64]
    else if c < 0x1_0000 then [0xE0 + c / 64 / 64, 0x80 + c / 64 % 64, 0x80 + c % 64]
    else [0xF0 + c / 64 / 64 / 64, 0x80 + c / 64 / 64 % 64, 0x80 + c / 64 % 64, 0x80 + c % 64]
  }

  function Encode(cs: seq<Scalar>): seq<byte> {
    if cs == [] then [] else EncodeScalar(cs[0]) + Encode(cs[1..])
  }

  function DecodeFirst(s: seq<byte>): (c: Scalar)
    requires FirstCharLength(s) > 0
    ensures EncodeScalar(c) == s[..FirstCharLength(s)]
  {
    var n := FirstCharLength(s);
    var b0: int := s[0];
    if n == 1 then b0
    else if n == 2 then Join64(b0 - 0xC0, s[1] as int - 0x80)
    else if n == 3 then Join64(Join64(b0 - 0xE0, s[1] as int - 0x80), s[2] as int - 0x80)
    else Join64(Join64(Join64(b0 - 0xF0, s[1] as int - 0x80), s[2] as int - 0x80), s[3] as int - 0x80)
  }

  /** A value whose last base-64 digit is `low`. */
  function Join64(high: int, low: int): (c: int)
    requires 0 <= low < 64
    ensures c / 64 == high && c % 64 == low
  {
    high * 64 + low
  }

  function Decode(s: Text): (cs: seq<Scalar>)
    ensures Encode(cs) == s
  {
    if s == [] then []
    else
      var n := FirstCharLength(s);
      var rest := Decode(s[n..]);
      assert s == s[..n] + s[n..];
      [DecodeFirst(s)] + rest
  }

  /** Only the bytes of the first character decide its length. */
  lemma FirstCharOfPrefix(s: seq<byte>, t: seq<byte>)
    requires FirstCharLength(s) > 0
    ensures FirstCharLength(s + t) == FirstCharLength(s)
  {
  }

  /** With `Decode`, this makes well-formedness the same as encoding some list of scalar values. */
  lemma {:induction false} EncodeIsValid(cs: seq<Scalar>)
    ensures ValidUtf8(Encode(cs))
  {
    if cs != [] {
      EncodeIsValid(cs[1..]);
      var head, rest := EncodeScalar(cs[0]), Encode(cs[1..]);
      FirstCharOfPrefix(head, rest);
      assert (head + rest)[|head|..] == rest;
    }
  }

  /** A character in front of well-formed text makes well-formed text, and only of such. */
  lemma ValidCons(head: seq<byte>, tail: seq<byte>)
    requires 0 < FirstCharLength(head) == |head|
    ensures ValidUtf8(head + tail) <==> ValidUtf8(tail)
  {
    FirstCharOfPrefix(head, tail);
    assert (head + tail)[|head|..] == tail;
  }

  /** The first character of a text on its own. */
  lemma FirstCharAlone(s: seq<byte>)
    requires FirstCharLength(s) > 0
    ensures FirstCharLength(s[..FirstCharLength(s)]) == FirstCharLength(s) && !IsContinuation(s[0])
    ensures forall i :: 0 < i < FirstCharLength(s) ==> IsContinuation(s[i])
  {
  }

  lemma FirstCharIncomplete(s: seq<byte>, i: nat)
    requires 0 < i < FirstCharLength(s)
    ensures FirstCharLength(s[..i]) == 0
  {
  }

  /** Cutting well-formed text is safe exactly at the character boundaries. */
  lemma {:induction false} CutAtBoundary(s: seq<byte>, i: nat)
    requires ValidUtf8(s) && i <= |s|
    ensures IsCharBoundary(s, i) <==> ValidUtf8(s[..i])
    ensures IsCharBoundary(s, i) ==> ValidUtf8(s[i..])
    decreases |s|, 1
  {
    if i == |s| {
      assert s[..i] == s;
    } else if i > 0 {
      var n := FirstCharLength(s);
      FirstCharAlone(s);
      if i < n {
        FirstCharIncomplete(s, i);
      } else {
        CutBehindFirst(s, n, i);
      }
    }
  }

  /** Cutting behind the first character is cutting what follows it. */
  lemma CutParts(s: seq<byte>, n: nat, i: nat)
    requires n <= i < |s|
    ensures s[..i] == s[..n] + s[n..][..i - n]
    ensures s[i..] == s[n..][i - n..]
    ensures s[i] == s[n..][i - n]
  {
  }

  lemma BoundaryShifts(s: seq<byte>, n: nat, i: nat)
    requires 0 < n <= i < |s| && FirstCharLength(s[n..]) > 0
    ensures IsCharBoundary(s, i) <==> IsCharBoundary(s[n..], i - n)
  {
    CutParts(s, n, i);
    if i == n {
      FirstCharAlone(s[n..]);
    }
  }

  lemma {:induction false} CutBehindFirst(s: seq<byte>, n: nat, i: nat)
    requires ValidUtf8(s) && 0 < n == FirstCharLength(s) <= i < |s|
    ensures IsCharBoundary(s, i) <==> ValidUtf8(s[..i])
    ensures IsCharBoundary(s, i) ==> ValidUtf8(s[i..])
    decreases |s|, 0
  {
    FirstCharAlone(s);
    CutAtBoundary(s[n..], i - n);
    BoundaryShifts(s, n, i);
    CutParts(s, n, i);
    ValidCons(s[..n], s[n..][..i - n]);
  }

  /** The part of a text between two character boundaries is itself a text. */
  lemma SliceIsText(s: seq<byte>, i: nat, j: nat)
    requires ValidUtf8(s) && i <= j <= |s|
    requires IsCharBoundary(s, i) && IsCharBoundary(s, j)
    ensures ValidUtf8(s[i..j])
  {
    CutAtBoundary(s, j);
    var t := s[..j];
    assert IsCharBoundary(t, i);
    CutAtBoundary(t, i);
    assert t[i..] == s[i..j];
  }
}
