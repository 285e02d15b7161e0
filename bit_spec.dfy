/** Reference meanings for validity/selection bitmaps.

    A bitmap is a sequence of bytes; bit `i` lives in byte `i / 8` at bit
    offset `i % 8`, counted from the least significant bit (the same numbering
    as the validity bitmaps of the Apache Arrow Columnar Format). Everything
    here is defined bit by bit, independently of the mask tables and word-wide
    tricks the optimised operations use, so that those operations can be
    proved equal to these definitions.
 */
module BitSpec {

  /** `size_t` arithmetic is carried out modulo 2^64. */
  const SizeModulus: nat := 0x1_0000_0000_0000_0000

  function Pow2(k: nat): (r: nat)
    ensures r >= 1
  {
    if k == 0 then 1 else 2 * Pow2(k - 1)
  }

  /** `n > 0 && (n & (n - 1)) == 0`, stated arithmetically. */
  predicate IsPowerOfTwo(n: nat)
  {
    n == 1 || (n > 1 && n % 2 == 0 && IsPowerOfTwo(n / 2))
  }

  lemma {:induction false} Pow2Add(a: nat, b: nat)
    ensures Pow2(a + b) == Pow2(a) * Pow2(b)
  {
    if b > 0 {
      Pow2Add(a, b - 1);
      assert Pow2(a + b) == 2 * Pow2(a + b - 1);
    }
  }

  lemma {:induction false} Pow2Monotone(a: nat, b: nat)
    requires a < b
    ensures Pow2(a) < Pow2(b)
  {
    if b > a + 1 {
      Pow2Monotone(a, b - 1);
    }
  }

  /** Bit `k` of a byte, least significant bit first. Positions within a
      byte are themselves `bv8` values below 8. */
  predicate BitOf(b: bv8, k: bv8)
    requires k < 8
  {
    (b >> k) & 1 == 1
  }

  /** The position of bit `i` within its byte: `i % 8` as a shift amount. */
  function Offset(i: nat): (k: bv8)
    ensures k < 8
  {
    match i % 8
    case 0 => 0
    case 1 => 1
    case 2 => 2
    case 3 => 3
    case 4 => 4
    case 5 => 5
    case 6 => 6
    case _ => 7
  }

  /** Two bits share a position exactly when their indices agree modulo 8. */
  lemma OffsetInjective(i: nat, j: nat)
    ensures Offset(i) == Offset(j) <==> i % 8 == j % 8
  {
  }

  /** Bit `i` of a bitmap. */
  predicate BitAt(s: seq<bv8>, i: nat)
    requires i / 8 < |s|
  {
    BitOf(s[i / 8], Offset(i))
  }

  /** Bit `m` of byte `k` is bit `8k + m` of the bitmap. */
  lemma BitOfByte(s: seq<bv8>, k: nat, m: nat)
    requires k < |s| && m < 8
    ensures BitAt(s, 8 * k + m) == BitOf(s[k], Offset(m))
  {
    var j := 8 * k + m;
    assert j / 8 == k && j % 8 == m;
  }

  /** A byte is determined by its eight bits. */
  lemma ByteFromBits(a: bv8, b: bv8)
    requires forall m: nat :: m < 8 ==> BitOf(a, Offset(m)) == BitOf(b, Offset(m))
    ensures a == b
  {
    assert BitOf(a, Offset(0)) == BitOf(b, Offset(0));
    assert BitOf(a, Offset(1)) == BitOf(b, Offset(1));
    assert BitOf(a, Offset(2)) == BitOf(b, Offset(2));
    assert BitOf(a, Offset(3)) == BitOf(b, Offset(3));
    assert BitOf(a, Offset(4)) == BitOf(b, Offset(4));
    assert BitOf(a, Offset(5)) == BitOf(b, Offset(5));
    assert BitOf(a, Offset(6)) == BitOf(b, Offset(6));
    assert BitOf(a, Offset(7)) == BitOf(b, Offset(7));
  }

  /** Number of set bits among bits `0 .. k-1` of a byte. */
  function BitsSetBelow(b: bv8, k: nat): (r: nat)
    requires k <= 8
    ensures r <= k
  {
    if k == 0 then 0 else BitsSetBelow(b, k - 1) + (if BitOf(b, Offset(k - 1)) then 1 else 0)
  }

  /** Population count of one byte (`__builtin_popcount` on a `uint8_t`). */
  function PopCount(b: bv8): (r: nat)
    ensures r <= 8
  {
    BitsSetBelow(b, 8)
  }

  /** Every bit of a byte is set in exactly one of `b` and `~b`. */
  lemma {:induction false} BitsSetBelowComplement(b: bv8, k: nat)
    requires k <= 8
    ensures BitsSetBelow(b, k) + BitsSetBelow(!b, k) == k
  {
    if k > 0 {
      BitsSetBelowComplement(b, k - 1);
      assert BitOf(!b, Offset(k - 1)) == !BitOf(b, Offset(k - 1));
    }
  }

  /** The population counts of a byte and its complement add up to 8. */
  lemma PopCountComplement(b: bv8)
    ensures PopCount(b) + PopCount(!b) == 8
  {
    BitsSetBelowComplement(b, 8);
  }

  /** A byte has population count 0 exactly when it is zero. */
  lemma PopCountZero(b: bv8)
    ensures PopCount(b) == 0 <==> b == 0
  {
    if PopCount(b) == 0 {
      BitsSetBelowZero(b, 8);
      ByteFromBits(b, 0);
    }
  }

  /** No bit below `k` is set when `BitsSetBelow` is 0. */
  lemma {:induction false} BitsSetBelowZero(b: bv8, k: nat)
    requires k <= 8 && BitsSetBelow(b, k) == 0
    ensures forall m: nat :: m < k ==> !BitOf(b, Offset(m))
  {
    if k > 0 {
      BitsSetBelowZero(b, k - 1);
    }
  }

  /** Sum of the population counts of bytes `lo .. hi-1`. A 64-bit word read
      over bytes `8w .. 8w+7` has population count `BytesPopCount(s, 8w, 8w+8)`
      whatever the byte order. */
  function BytesPopCount(s: seq<bv8>, lo: nat, hi: nat): nat
    requires lo <= hi <= |s|
    decreases hi - lo
  {
    if lo == hi then 0 else BytesPopCount(s, lo, hi - 1) + PopCount(s[hi - 1])
  }

  /** The reference count: bits `0 .. end-1` examined one at a time. */
  function NaiveCount(s: seq<bv8>, end: nat): nat
    requires (end + 7) / 8 <= |s|
  {
    if end == 0 then 0 else NaiveCount(s, end - 1) + (if BitAt(s, end - 1) then 1 else 0)
  }

  /** Bits `0 .. end-1` of two bitmaps agree one by one. */
  predicate BitsAgree(s1: seq<bv8>, s2: seq<bv8>, end: nat)
    requires (end + 7) / 8 <= |s1| && (end + 7) / 8 <= |s2|
  {
    forall i: nat :: i < end ==> BitAt(s1, i) == BitAt(s2, i)
  }

  /** `after` is `before` with bit `i` forced to `val` and every other bit kept. */
  ghost predicate OnlyBitChanged(before: seq<bv8>, after: seq<bv8>, i: nat, val: bool)
  {
    |after| == |before| && i / 8 < |before| &&
    forall j: nat :: j / 8 < |before| ==> BitAt(after, j) == (if j == i then val else BitAt(before, j))
  }

  // ---------------------------------------------------------------------
  // Counting

  lemma {:induction false} NaiveCountBounded(s: seq<bv8>, end: nat)
    requires (end + 7) / 8 <= |s|
    ensures NaiveCount(s, end) <= end
  {
    if end > 0 {
      NaiveCountBounded(s, end - 1);
    }
  }

  /** Counting bit `8k + m - 1` adds what counting bit `m - 1` of byte `k` adds. */
  lemma NaiveCountByteStep(s: seq<bv8>, k: nat, m: nat)
    requires k < |s| && 0 < m <= 8
    ensures NaiveCount(s, 8 * k + m) - NaiveCount(s, 8 * k + (m - 1)) == BitsSetBelow(s[k], m) - BitsSetBelow(s[k], m - 1)
  {
    BitOfByte(s, k, m - 1);
    assert 8 * k + m - 1 == 8 * k + (m - 1);
  }

  /** Counting bits `8k .. 8k+m-1` one by one is counting the low `m` bits of byte `k`. */
  lemma {:induction false} NaiveCountWithinByte(s: seq<bv8>, k: nat, m: nat)
    requires k < |s| && m <= 8
    ensures NaiveCount(s, 8 * k + m) == NaiveCount(s, 8 * k) + BitsSetBelow(s[k], m)
  {
    if m > 0 {
      NaiveCountWithinByte(s, k, m - 1);
      NaiveCountByteStep(s, k, m);
    } else {
      assert 8 * k + m == 8 * k;
    }
  }

  /** Counting whole bytes by population count equals the naive count. */
  lemma {:induction false} NaiveCountBytes(s: seq<bv8>, n: nat)
    requires n <= |s|
    ensures NaiveCount(s, 8 * n) == BytesPopCount(s, 0, n)
  {
    if n > 0 {
      NaiveCountBytes(s, n - 1);
      NaiveCountWithinByte(s, n - 1, 8);
      assert 8 * (n - 1) + 8 == 8 * n;
    }
  }

  lemma {:induction false} BytesPopCountSplit(s: seq<bv8>, lo: nat, mid: nat, hi: nat)
    requires lo <= mid <= hi <= |s|
    ensures BytesPopCount(s, lo, hi) == BytesPopCount(s, lo, mid) + BytesPopCount(s, mid, hi)
    decreases hi - mid
  {
    if mid < hi {
      BytesPopCountSplit(s, lo, mid, hi - 1);
    }
  }

  // ---------------------------------------------------------------------
  // Equality

  /** Comparing `n` whole bytes is comparing the first `8n` bits. */
  lemma BitsAgreeBytes(s1: seq<bv8>, s2: seq<bv8>, n: nat)
    requires n <= |s1| && n <= |s2|
    ensures BitsAgree(s1, s2, 8 * n) <==> s1[..n] == s2[..n]
  {
    if BitsAgree(s1, s2, 8 * n) {
      forall k | 0 <= k < n
        ensures s1[k] == s2[k]
      {
        forall m: nat | m < 8
          ensures BitOf(s1[k], Offset(m)) == BitOf(s2[k], Offset(m))
        {
          BitOfByte(s1, k, m);
          BitOfByte(s2, k, m);
        }
        ByteFromBits(s1[k], s2[k]);
      }
    }
    if s1[..n] == s2[..n] {
      forall i: nat | i < 8 * n
        ensures BitAt(s1, i) == BitAt(s2, i)
      {
        assert s1[..n][i / 8] == s2[..n][i / 8];
      }
    }
  }

  /** Flipping one bit below `end` breaks agreement on bits `0 .. end-1`. */
  lemma FlippedBitDisagrees(s1: seq<bv8>, s2: seq<bv8>, j: nat, end: nat)
    requires j / 8 < |s1| && OnlyBitChanged(s1, s2, j, !BitAt(s1, j))
    requires j < end && (end + 7) / 8 <= |s1|
    ensures !BitsAgree(s1, s2, end)
  {
    assert BitAt(s2, j) != BitAt(s1, j);
  }

  // ---------------------------------------------------------------------
  // Single-bit updates

  /** A bitmap is determined by the bitmap it came from, the bit forced and its value. */
  lemma OnlyBitChangedUnique(before: seq<bv8>, a1: seq<bv8>, a2: seq<bv8>, i: nat, val: bool)
    requires OnlyBitChanged(before, a1, i, val) && OnlyBitChanged(before, a2, i, val)
    ensures a1 == a2
  {
    forall k | 0 <= k < |a1|
      ensures a1[k] == a2[k]
    {
      forall m: nat | m < 8
        ensures BitOf(a1[k], Offset(m)) == BitOf(a2[k], Offset(m))
      {
        BitOfByte(a1, k, m);
        BitOfByte(a2, k, m);
      }
      ByteFromBits(a1[k], a2[k]);
    }
  }

  /** Replacing byte `i / 8` by a byte that differs from it at most in bit
      `Offset(i)`, where it holds `val`, changes only bit `i`. */
  lemma OnlyBitChangedByByte(before: seq<bv8>, i: nat, nb: bv8, val: bool)
    requires i / 8 < |before|
    requires forall m: bv8 :: m < 8 ==> BitOf(nb, m) == (if m == Offset(i) then val else BitOf(before[i / 8], m))
    ensures OnlyBitChanged(before, before[i / 8 := nb], i, val)
  {
    var after := before[i / 8 := nb];
    forall j: nat | j / 8 < |before|
      ensures BitAt(after, j) == (if j == i then val else BitAt(before, j))
    {
      if j / 8 == i / 8 {
        OffsetInjective(i, j);
        assert j == i <==> Offset(j) == Offset(i);
      }
    }
  }
}
