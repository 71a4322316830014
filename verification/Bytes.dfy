/** Bytes, little-endian integers, buffer updates and the bit mask used to align offsets. */
module Bytes {

  type byte = b: int | 0 <= b < 256

  const U32_LIMIT := 0x1_0000_0000
  const U64_LIMIT := 0x1_0000_0000_0000_0000
  const U128_LIMIT := 0x1_0000_0000_0000_0000_0000_0000_0000_0000

  function Max(a: nat, b: nat): nat {
    if a < b then b else a
  }

  function Zeros(n: nat): (s: seq<byte>)
    ensures |s| == n
  {
    seq(n, _ => 0)
  }

  // Little-endian integers

  function Pow256(n: nat): (p: nat)
    ensures p > 0
  {
    if n == 0 then 1 else 256 * Pow256(n - 1)
  }

  /** Byte `i` of `n`, counting from the least significant one. */
  function ByteOf(n: nat, i: nat): byte
    decreases i
  {
    if i == 0 then n % 256 else ByteOf(n / 256, i - 1)
  }

  /** The low `width` bytes of `n`, least significant first. */
  function ToLE(n: nat, width: nat): (s: seq<byte>)
    ensures |s| == width
  {
    seq(width, i requires 0 <= i => ByteOf(n, i))
  }

  function FromLE(s: seq<byte>): nat {
    if |s| == 0 then 0 else s[0] + 256 * FromLE(s[1..])
  }

  lemma {:induction false} FromLEToLE(n: nat, width: nat)
    requires n < Pow256(width)
    ensures FromLE(ToLE(n, width)) == n
  {
    if width > 0 {
      FromLEToLE(n / 256, width - 1);
      assert ToLE(n, width)[1..] == ToLE(n / 256, width - 1);
    }
  }

  lemma {:induction false} FromLEBound(s: seq<byte>)
    ensures FromLE(s) < Pow256(|s|)
  {
    if |s| > 0 {
      FromLEBound(s[1..]);
    }
  }

  /** Different bytes stand for different numbers. */
  lemma {:induction false} FromLEInjective(a: seq<byte>, b: seq<byte>)
    requires |a| == |b| && FromLE(a) == FromLE(b)
    ensures a == b
  {
    if |a| > 0 {
      FromLEInjective(a[1..], b[1..]);
      assert a == [a[0]] + a[1..] && b == [b[0]] + b[1..];
    }
  }

  lemma Widths()
    ensures Pow256(4) == U32_LIMIT && Pow256(8) == U64_LIMIT && Pow256(16) == U128_LIMIT
  {
    assert Pow256(2) == 0x1_0000;
    assert Pow256(4) == 256 * (256 * Pow256(2));
    assert Pow256(6) == 256 * (256 * Pow256(4));
    assert Pow256(8) == 256 * (256 * Pow256(6));
    assert Pow256(10) == 256 * (256 * Pow256(8));
    assert Pow256(12) == 256 * (256 * Pow256(10));
    assert Pow256(14) == 256 * (256 * Pow256(12));
    assert Pow256(16) == 256 * (256 * Pow256(14));
  }

  // Buffers

  /** `s` with the bytes from `offset` on overwritten by `b`. */
  function Splice(s: seq<byte>, offset: nat, b: seq<byte>): (r: seq<byte>)
    requires offset + |b| <= |s|
    ensures |r| == |s|
  {
    seq(|s|, i requires 0 <= i < |s| => if offset <= i < offset + |b| then b[i - offset] else s[i])
  }

  /** A file of length `n` after a resize: a kept prefix, zero-filled growth. */
  function Resized(s: seq<byte>, n: nat): (r: seq<byte>)
    ensures |r| == n
  {
    seq(n, i requires 0 <= i => if i < |s| then s[i] else 0)
  }

  lemma SpliceReads(s: seq<byte>, offset: nat, b: seq<byte>)
    requires offset + |b| <= |s|
    ensures Splice(s, offset, b)[offset..offset + |b|] == b
  {
  }

  lemma SpliceKeeps(s: seq<byte>, offset: nat, b: seq<byte>, i: nat, j: nat)
    requires offset + |b| <= |s|
    requires i <= j <= |s|
    requires j <= offset || offset + |b| <= i
    ensures Splice(s, offset, b)[i..j] == s[i..j]
  {
    forall k | i <= k < j
      ensures Splice(s, offset, b)[k] == s[k]
    {
    }
  }

  lemma ResizedKeeps(s: seq<byte>, n: nat, i: nat, j: nat)
    requires i <= j <= |s| && j <= n
    ensures Resized(s, n)[i..j] == s[i..j]
  {
  }

  // Alignment

  /** The least multiple of 4 that is at least `x`. */
  function AlignUp(x: nat): (r: nat)
    ensures x <= r < x + 4
  {
    if x == 0 then 0 else if x <= 4 then 4 else 4 + AlignUp(x - 4)
  }

  lemma {:induction false} AlignUpIsAligned(x: nat)
    ensures AlignUp(x) % 4 == 0
    ensures AlignUp(x) == (x + 3) / 4 * 4
    ensures x % 4 == 0 ==> AlignUp(x) == x
  {
    if x > 4 {
      AlignUpIsAligned(x - 4);
    }
  }

  /** Bitwise conjunction of two unsigned integers, bit by bit. */
  function BitAnd(a: nat, b: nat): nat
    decreases a
  {
    if a == 0 || b == 0 then 0 else (a % 2) * (b % 2) + 2 * BitAnd(a / 2, b / 2)
  }

  /** Bitwise complement of a 64-bit word. */
  function Not64(x: nat): nat
    requires x < U64_LIMIT
  {
    U64_LIMIT - 1 - x
  }

  function Pow2(n: nat): (p: nat)
    ensures p > 0
  {
    if n == 0 then 1 else 2 * Pow2(n - 1)
  }

  lemma AndOdd(x: nat, half: nat)
    requires half > 0
    ensures BitAnd(x, 2 * half - 1) == x % 2 + 2 * BitAnd(x / 2, half - 1)
  {
    assert (2 * half - 1) % 2 == 1 && (2 * half - 1) / 2 == half - 1;
  }

  lemma {:induction false} AndOnes(x: nat, k: nat)
    requires x < Pow2(k)
    ensures BitAnd(x, Pow2(k) - 1) == x
  {
    if x > 0 {
      AndOnes(x / 2, k - 1);
      AndOdd(x, Pow2(k - 1));
    }
  }

  lemma {:induction false} Pow2Bytes(n: nat)
    ensures Pow2(8 * n) == Pow256(n)
  {
    if n > 0 {
      Pow2Bytes(n - 1);
      var k := 8 * (n - 1);
      assert Pow2(k + 2) == 4 * Pow2(k);
      assert Pow2(k + 4) == 4 * Pow2(k + 2);
      assert Pow2(k + 6) == 4 * Pow2(k + 4);
      assert Pow2(k + 8) == 4 * Pow2(k + 6);
    }
  }

  lemma AndEven(y: nat, m: nat)
    requires m % 2 == 0
    ensures BitAnd(y, m) == 2 * BitAnd(y / 2, m / 2)
  {
  }

  lemma Pow2At62()
    ensures 4 * Pow2(62) == U64_LIMIT
  {
    Pow2Bytes(8);
    Widths();
    assert Pow2(64) == 4 * Pow2(62);
  }

  lemma LowBitsCleared(y: nat, m: nat)
    requires y < U64_LIMIT && m == Not64(3)
    ensures BitAnd(y, m) == y / 4 * 4
  {
    Pow2At62();
    AndEven(y, m);
    AndEven(y / 2, m / 2);
    assert m / 2 / 2 == Pow2(62) - 1 && y / 2 / 2 == y / 4;
    AndOnes(y / 4, 62);
  }

  /** The mask expression `(x + 3) & !3` of the source is the round-up to a multiple of 4. */
  lemma MaskIsAlignUp(x: nat)
    requires x + 3 < U64_LIMIT
    ensures BitAnd(x + 3, Not64(3)) == AlignUp(x)
  {
    AlignUpIsAligned(x);
    LowBitsCleared(x + 3, Not64(3));
  }
}
