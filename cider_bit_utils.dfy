/** The free functions of `CiderBitUtils` over raw byte buffers.

    A `const uint8_t*` / `uint8_t*` bitmap is an `array<bv8>`; a `size_t` bit
    index is a `nat`. Every operation is proved against the bit-by-bit
    meanings of `BitSpec`. `index & 0x7` on an unsigned index is written
    `index % 8` and `index >> 3` is written `index / 8`.
 */
module CiderBitUtils {
  import opened BitSpec

  /** `kCiderBitMask`: entry `k` has only bit `k` set. */
  const BitMask: seq<bv8> := [1, 1 << 1, 1 << 2, 1 << 3, 1 << 4, 1 << 5, 1 << 6, 1 << 7]

  /** `kCiderBitReverseMask`: entry `k` has every bit but bit `k` set. */
  const BitReverseMask: seq<bv8> := [!1, !(1 << 1), !(1 << 2), !(1 << 3), !(1 << 4), !(1 << 5), !(1 << 6), !(1 << 7)]

  /** The mask tables are the shifts they are written as: for bit `i`,
      entry `i % 8` is `1 << Offset(i)` and its complement. */
  lemma MaskIsShift(i: nat)
    ensures BitMask[i % 8] == 1 << Offset(i) && BitReverseMask[i % 8] == !(1 << Offset(i))
  {
    var k := Offset(i);
    assert k == 0 || k == 1 || k == 2 || k == 3 || k == 4 || k == 5 || k == 6 || k == 7;
  }

  lemma MaskSelectsBit(b: bv8, i: nat)
    ensures (b & BitMask[i % 8] != 0) == BitOf(b, Offset(i))
  {
    MaskIsShift(i);
  }

  lemma OrMaskBit(b: bv8, i: nat, m: bv8)
    requires m < 8
    ensures BitOf(b | BitMask[i % 8], m) == (m == Offset(i) || BitOf(b, m))
  {
    MaskIsShift(i);
  }

  lemma AndReverseMaskBit(b: bv8, i: nat, m: bv8)
    requires m < 8
    ensures BitOf(b & BitReverseMask[i % 8], m) == (m != Offset(i) && BitOf(b, m))
  {
    MaskIsShift(i);
  }

  /** The branchless formula `(b & ~mask) | (-flag & mask)` with `mask == 1 << k`:
      it ORs the mask in when `flag` holds and clears the masked bit otherwise. */
  function UnifiedByte(b: bv8, k: bv8, flag: bool): (nb: bv8)
    requires k < 8
    ensures nb == if flag then b | (1 << k) else b & !(1 << k)
  {
    var mask: bv8 := 1 << k;
    var f: bv8 := if flag then 1 else 0;
    (b & !mask) | (-f & mask)
  }

  lemma UnifiedByteBit(b: bv8, k: bv8, flag: bool, m: bv8)
    requires k < 8 && m < 8
    ensures BitOf(UnifiedByte(b, k, flag), m) == (if m == k then flag else BitOf(b, m))
  {
  }

  /** `isBitSetAt`: bit `index` through the mask table. */
  function IsBitSetAt(v: array<bv8>, index: nat): (r: bool)
    reads v
    requires index / 8 < v.Length
    ensures r == BitAt(v[..], index)
  {
    MaskSelectsBit(v[index / 8], index);
    v[index / 8] & BitMask[index % 8] != 0
  }

  /** The bitmap `setBitAt` leaves: byte `i / 8` ORed with mask entry `i % 8`.
      Only bit `i` changes, and it becomes set. */
  function SetBitBytes(s: seq<bv8>, i: nat): (r: seq<bv8>)
    requires i / 8 < |s|
    ensures OnlyBitChanged(s, r, i, true)
  {
    var nb := s[i / 8] | BitMask[i % 8];
    assert OnlyBitChanged(s, s[i / 8 := nb], i, true) by {
      forall m: bv8 | m < 8
        ensures BitOf(nb, m) == (if m == Offset(i) then true else BitOf(s[i / 8], m))
      {
        OrMaskBit(s[i / 8], i, m);
      }
      OnlyBitChangedByByte(s, i, nb, true);
    }
    s[i / 8 := nb]
  }

  /** The bitmap `clearBitAt` leaves: byte `i / 8` ANDed with reverse-mask
      entry `i % 8`. Only bit `i` changes, and it becomes clear. */
  function ClearBitBytes(s: seq<bv8>, i: nat): (r: seq<bv8>)
    requires i / 8 < |s|
    ensures OnlyBitChanged(s, r, i, false)
  {
    var nb := s[i / 8] & BitReverseMask[i % 8];
    assert OnlyBitChanged(s, s[i / 8 := nb], i, false) by {
      forall m: bv8 | m < 8
        ensures BitOf(nb, m) == (if m == Offset(i) then false else BitOf(s[i / 8], m))
      {
        AndReverseMaskBit(s[i / 8], i, m);
      }
      OnlyBitChangedByByte(s, i, nb, false);
    }
    s[i / 8 := nb]
  }

  /** `setBitAt`: ORs in the mask; only bit `index` changes, and it becomes set. */
  method SetBitAt(v: array<bv8>, index: nat)
    requires index / 8 < v.Length
    modifies v
    ensures v[..] == SetBitBytes(old(v[..]), index)
    ensures OnlyBitChanged(old(v[..]), v[..], index, true)
  {
    ghost var before := v[..];
    v[index / 8] := v[index / 8] | BitMask[index % 8];
    assert v[..] == before[index / 8 := before[index / 8] | BitMask[index % 8]];
  }

  /** `clearBitAt`: ANDs with the reverse mask; only bit `index` changes, and it becomes clear. */
  method ClearBitAt(v: array<bv8>, index: nat)
    requires index / 8 < v.Length
    modifies v
    ensures v[..] == ClearBitBytes(old(v[..]), index)
    ensures OnlyBitChanged(old(v[..]), v[..], index, false)
  {
    ghost var before := v[..];
    v[index / 8] := v[index / 8] & BitReverseMask[index % 8];
    assert v[..] == before[index / 8 := before[index / 8] & BitReverseMask[index % 8]];
  }

  /** `isBitClearAt` as written: `byte ^ (1 << (index & 7))`, which is true
      whenever the byte is anything other than the single-bit mask. */
  function IsBitClearAt(v: array<bv8>, index: nat): (r: bool)
    reads v
    requires index / 8 < v.Length
    ensures r <==> v[index / 8] != BitMask[index % 8]
  {
    v[index / 8] ^ (1 << (index % 8)) != 0
  }

  lemma XorMaskByte(b: bv8, i: nat)
    ensures ((b ^ (1 << (i % 8)) != 0) != !BitOf(b, Offset(i))) <==> (BitOf(b, Offset(i)) && b & BitReverseMask[i % 8] != 0)
  {
    MaskIsShift(i);
  }

  /** `isBitClearAt` and the negation of `isBitSetAt` differ exactly when bit
      `index` is set together with some other bit of its byte. */
  lemma IsBitClearAtDiffersFromNegation(v: array<bv8>, index: nat)
    requires index / 8 < v.Length
    ensures (IsBitClearAt(v, index) != !IsBitSetAt(v, index))
            <==> (IsBitSetAt(v, index) && v[index / 8] & BitReverseMask[index % 8] != 0)
  {
    XorMaskByte(v[index / 8], index);
  }

  /** A concrete case: byte `0b11` has bit 0 set, yet `isBitClearAt` reports it clear. */
  lemma IsBitClearAtOnSetBit(v: array<bv8>)
    requires v.Length > 0 && v[0] == 3
    ensures IsBitSetAt(v, 0) && IsBitClearAt(v, 0)
  {
  }

  /** The evidently intended `isBitClearAt`: the negation of `isBitSetAt`. */
  function IsBitClear(v: array<bv8>, index: nat): (r: bool)
    reads v
    requires index / 8 < v.Length
    ensures r == !BitAt(v[..], index)
  {
    !IsBitSetAt(v, index)
  }

  /** The bit `setBitAtUnified` actually writes: its byte index goes through
      a `uint8_t`, so only bits below 2048 are addressed as asked. */
  function UnifiedTarget(index: nat): (t: nat)
    ensures t < 2048 && t % 8 == index % 8
    ensures index < 2048 ==> t == index
  {
    8 * ((index / 8) % 256) + index % 8
  }

  /** The bitmap `setBitAtUnified` leaves, as written: the branchless
      set-or-clear applied to byte `(i >> 3) mod 256`. It forces bit
      `UnifiedTarget(i)` to `flag` and changes no other bit. */
  function UnifiedBytes(s: seq<bv8>, i: nat, flag: bool): (r: seq<bv8>)
    requires (i / 8) % 256 < |s|
    ensures OnlyBitChanged(s, r, UnifiedTarget(i), flag)
  {
    var idx := (i / 8) % 256;  // uint8_t idx = index >> 3
    var nb := UnifiedByte(s[idx], Offset(i), flag);
    assert OnlyBitChanged(s, s[idx := nb], UnifiedTarget(i), flag) by {
      var t := UnifiedTarget(i);
      assert t / 8 == idx && Offset(t) == Offset(i);
      forall m: bv8 | m < 8
        ensures BitOf(nb, m) == (if m == Offset(t) then flag else BitOf(s[t / 8], m))
      {
        UnifiedByteBit(s[idx], Offset(i), flag, m);
      }
      OnlyBitChangedByByte(s, t, nb, flag);
    }
    s[idx := nb]
  }

  /** `setBitAtUnified` as written: the branchless set-or-clear on byte
      `(index >> 3) mod 256`. */
  method SetBitAtUnified(v: array<bv8>, index: nat, isNull: bool)
    requires (index / 8) % 256 < v.Length
    modifies v
    ensures v[..] == UnifiedBytes(old(v[..]), index, isNull)
    ensures OnlyBitChanged(old(v[..]), v[..], UnifiedTarget(index), isNull)
    ensures index < 2048 ==> OnlyBitChanged(old(v[..]), v[..], index, isNull)
  {
    ghost var before := v[..];
    var idx := (index / 8) % 256;  // uint8_t idx = index >> 3
    v[idx] := UnifiedByte(v[idx], Offset(index), isNull);
    assert v[..] == before[idx := UnifiedByte(before[idx], Offset(index), isNull)];
  }

  /** Below bit 2048 the branchless update, as written, produces the same
      bitmap as `setBitAt` when the flag is true and `clearBitAt` when it is false. */
  lemma UnifiedMatchesBranching(s: seq<bv8>, i: nat, flag: bool)
    requires i < 2048 && i / 8 < |s|
    ensures UnifiedBytes(s, i, flag) == if flag then SetBitBytes(s, i) else ClearBitBytes(s, i)
  {
    var r := if flag then SetBitBytes(s, i) else ClearBitBytes(s, i);
    assert UnifiedTarget(i) == i;
    OnlyBitChangedUnique(s, UnifiedBytes(s, i, flag), r, i, flag);
  }

  /** Setting bit 2048 through `setBitAtUnified` leaves bit 2048 as it was and sets bit 0. */
  lemma UnifiedMissesBit2048(before: seq<bv8>, after: seq<bv8>)
    requires |before| > 256 && OnlyBitChanged(before, after, UnifiedTarget(2048), true)
    ensures BitAt(after, 2048) == BitAt(before, 2048) && BitAt(after, 0)
  {
    assert UnifiedTarget(2048) == 0;
  }

  /** The evidently intended `setBitAtUnified`, with a `size_t` byte index. */
  method SetBitAtUnifiedWide(v: array<bv8>, index: nat, isNull: bool)
    requires index / 8 < v.Length
    modifies v
    ensures OnlyBitChanged(old(v[..]), v[..], index, isNull)
  {
    ghost var before := v[..];
    var idx := index / 8;
    var nb := UnifiedByte(v[idx], Offset(index), isNull);
    forall m: bv8 | m < 8
      ensures BitOf(nb, m) == (if m == Offset(index) then isNull else BitOf(before[idx], m))
    {
      UnifiedByteBit(before[idx], Offset(index), isNull, m);
    }
    OnlyBitChangedByByte(before, index, nb, isNull);
    v[idx] := nb;
    assert v[..] == before[idx := nb];
  }

  /** Below `end`, bit `i` lies in the buffer, and counting one more bit adds that bit. */
  lemma NaiveCountStep(s: seq<bv8>, i: nat, end: nat)
    requires i < end && (end + 7) / 8 <= |s|
    ensures i / 8 < |s|
    ensures NaiveCount(s, i + 1) == NaiveCount(s, i) + (if BitAt(s, i) then 1 else 0)
  {
  }

  /** The first two tiers of `countSetBits`: 64-bit words, then whole bytes,
      over the first `bytes` bytes; together they give the naive count of the
      first `8 * bytes` bits. */
  method CountWholeBytes(v: array<bv8>, bytes: nat) returns (ans: nat)
    requires bytes <= v.Length
    ensures ans == NaiveCount(v[..], 8 * bytes)
  {
    ghost var s := v[..];
    ans := 0;
    // group by 64: the popcount of 64-bit word i is that of bytes 8i .. 8i+7
    var upper := bytes / 8;
    var i := 0;
    while i < upper
      invariant 0 <= i <= upper && 8 * upper <= |s|
      invariant ans == BytesPopCount(s, 0, 8 * i)
    {
      assert ans + BytesPopCount(s, 8 * i, 8 * i + 8) == BytesPopCount(s, 0, 8 * (i + 1)) by {
        BytesPopCountSplit(s, 0, 8 * i, 8 * i + 8);
      }
      ans := ans + BytesPopCount(v[..], 8 * i, 8 * i + 8);
      i := i + 1;
    }
    // group by 8
    i := upper * 8;
    while i < bytes
      invariant upper * 8 <= i <= bytes <= |s|
      invariant ans == BytesPopCount(s, 0, i)
    {
      ans := ans + PopCount(v[i]);
      i := i + 1;
    }
    NaiveCountBytes(s, bytes);
  }

  /** `countSetBits`: the whole bytes below `end`, then the remaining bits
      one at a time; the result is the naive count. */
  method CountSetBits(v: array<bv8>, end: nat) returns (ans: nat)
    requires (end + 7) / 8 <= v.Length
    ensures ans == NaiveCount(v[..], end)
    ensures ans <= end
  {
    var upper := end / 8;
    ans := CountWholeBytes(v, upper);
    ghost var s := v[..];
    // remaining
    var i := 8 * upper;
    while i < end
      invariant i <= end
      invariant ans == NaiveCount(s, i)
    {
      NaiveCountStep(s, i, end);
      var bit := IsBitSetAt(v, i);
      if bit {
        ans := ans + 1;
      }
      i := i + 1;
    }
    NaiveCountBounded(s, end);
  }

  /** `countUnsetBits`: the complement of `countSetBits` among the first `end` bits. */
  method CountUnsetBits(v: array<bv8>, end: nat) returns (r: nat)
    requires (end + 7) / 8 <= v.Length
    ensures r + NaiveCount(v[..], end) == end
  {
    var setBits := CountSetBits(v, end);
    r := end - setBits;
  }

  /** `CheckBitVectorEq`: `memcmp` over `end / 8` whole bytes, then the tail
      bit by bit. `end` is a C `int`; a negative one is not allowed. */
  method CheckBitVectorEq(vec1: array<bv8>, vec2: array<bv8>, end: int) returns (r: bool)
    requires 0 <= end
    requires (end + 7) / 8 <= vec1.Length && (end + 7) / 8 <= vec2.Length
    ensures r <==> BitsAgree(vec1[..], vec2[..], end)
  {
    var bytes := end / 8;
    BitsAgreeBytes(vec1[..], vec2[..], bytes);
    assert vec1[..][..bytes] == vec1[..bytes] && vec2[..][..bytes] == vec2[..bytes];
    if vec1[..bytes] != vec2[..bytes] {
      return false;
    }
    var i := bytes * 8;
    while i < end
      invariant bytes * 8 <= i <= end
      invariant BitsAgree(vec1[..], vec2[..], i)
    {
      if (IsBitSetAt(vec1, i) && !IsBitSetAt(vec2, i)) || (!IsBitSetAt(vec1, i) && IsBitSetAt(vec2, i)) {
        return false;
      }
      i := i + 1;
    }
    return true;
  }

  /** Bit equality is reflexive and symmetric, as `CheckBitVectorEq` promises. */
  lemma BitsAgreeReflexiveSymmetric(s1: seq<bv8>, s2: seq<bv8>, end: nat)
    requires (end + 7) / 8 <= |s1| && (end + 7) / 8 <= |s2|
    ensures BitsAgree(s1, s1, end)
    ensures BitsAgree(s1, s2, end) == BitsAgree(s2, s1, end)
  {
  }

  /** Byte-wise AND of the first `ceil(n / 8)` bytes is bit-wise AND of the first `n` bits. */
  lemma AndBytesAndsBits(out: seq<bv8>, a: seq<bv8>, b: seq<bv8>, n: nat)
    requires (n + 7) / 8 <= |out| && (n + 7) / 8 <= |a| && (n + 7) / 8 <= |b|
    requires forall k :: 0 <= k < (n + 7) / 8 ==> out[k] == a[k] & b[k]
    ensures forall i: nat :: i < n ==> BitAt(out, i) == (BitAt(a, i) && BitAt(b, i))
  {
    forall i: nat | i < n
      ensures BitAt(out, i) == (BitAt(a, i) && BitAt(b, i))
    {
      assert i / 8 < (n + 7) / 8;
    }
  }

  /** `(bit_num + 7) >> 3` in `size_t` arithmetic: the byte count covering
      `bitNum` bits, except that the addition wraps for the top seven values
      of `size_t` and the count then collapses to 0. */
  function AndLength(bitNum: nat): (len: nat)
    requires bitNum < SizeModulus
    ensures bitNum + 7 < SizeModulus ==> len == (bitNum + 7) / 8
    ensures SizeModulus <= bitNum + 7 ==> len == 0
  {
    ((bitNum + 7) % SizeModulus) / 8
  }

  /** `bitwiseAnd`: `output[i] = a[i] & b[i]` for the first `AndLength(bit_num)`
      bytes; the buffers must not overlap (`__restrict`). */
  method BitwiseAnd(output: array<bv8>, a: array<bv8>, b: array<bv8>, bitNum: nat)
    requires output != a && output != b
    requires bitNum < SizeModulus
    requires AndLength(bitNum) <= output.Length && AndLength(bitNum) <= a.Length && AndLength(bitNum) <= b.Length
    modifies output
    ensures forall k :: 0 <= k < AndLength(bitNum) ==> output[k] == a[k] & b[k]
    ensures forall k :: AndLength(bitNum) <= k < output.Length ==> output[k] == old(output[k])
  {
    var len := ((bitNum + 7) % SizeModulus) / 8;  // size_t len = (bit_num + 7) >> 3
    var i := 0;
    while i < len
      invariant 0 <= i <= len
      invariant forall k :: 0 <= k < i ==> output[k] == a[k] & b[k]
      invariant forall k :: len <= k < output.Length ==> output[k] == old(output[k])
    {
      output[i] := a[i] & b[i];
      i := i + 1;
    }
  }
}
