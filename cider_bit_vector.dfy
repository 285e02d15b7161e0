/** `CiderBitVector<AlignmentFactor>`: an owned byte buffer whose bit count is
    rounded up to a multiple of `8 * AlignmentFactor`.

    The template parameter becomes the constant field `alignmentFactor`, and
    `kAlignmentOffset` the constant field `alignmentOffset`. The `void* data_`
    buffer is an `array?<bv8>`, `null` exactly when `bits_num_` is 0. Allocation
    is `new`; deallocation and the allocator handle are not modelled.
 */
module AlignedBitVector {
  import opened BitSpec
  import CiderBitUtils

  lemma SizeModulusIsPow2()
    ensures Pow2(64) == SizeModulus
  {
    assert Pow2(8) == 256;
    Pow2Add(8, 8);
    assert Pow2(16) == 0x1_0000;
    Pow2Add(16, 16);
    assert Pow2(32) == 0x1_0000_0000;
    Pow2Add(32, 32);
  }

  lemma Pow2Plus3(k: nat)
    ensures Pow2(k + 3) == 8 * Pow2(k)
  {
    assert Pow2(k + 3) == 2 * Pow2(k + 2);
    assert Pow2(k + 2) == 2 * Pow2(k + 1);
  }

  /** A value below the modulus is its own residue. */
  lemma NoWrap(x: int, w: int)
    requires 0 <= x < w
    ensures x % w == x
  {
  }

  lemma DivBounds(n: nat, d: nat)
    requires d > 0
    ensures (n / d) * d <= n < (n / d) * d + d
  {
  }

  /** The whole bytes for `bits` bits, rounded up to a multiple of `factor`. */
  function RoundUpBytes(bits: nat, factor: nat): nat
    requires factor > 0
  {
    ((bits + 7) / 8 + factor - 1) / factor * factor
  }

  lemma RoundUpBytesBounds(bits: nat, factor: nat)
    requires factor > 0
    ensures var r := 8 * RoundUpBytes(bits, factor);
            r % (8 * factor) == 0 && bits <= r < bits + 8 * factor
  {
    var B := (bits + 7) / 8;
    var n := B + factor - 1;
    var q := n / factor;
    DivBounds(n, factor);
    assert B <= q * factor <= n;
    MulAssoc(8, factor, q);
    assert 8 * (q * factor) == (8 * factor) * q;
    MultipleOf(8 * factor, q);
  }

  lemma MulAtLeast(d: int, k: int)
    requires d > 0 && k >= 1
    ensures d * k >= d
  {
    if k > 1 {
      MulAtLeast(d, k - 1);
      assert d * k == d * (k - 1) + d;
    }
  }

  /** Euclidean remainder of a multiple. */
  lemma MultipleOf(d: int, c: int)
    requires d > 0
    ensures (d * c) % d == 0
  {
    var x := d * c;
    var q := x / d;
    var r := x % d;
    assert x == d * q + r;
    assert r == d * (c - q);
    if c - q >= 1 {
      MulAtLeast(d, c - q);
    }
    if q - c >= 1 {
      MulAtLeast(d, q - c);
    }
  }

  lemma MulAssoc(a: int, b: int, c: int)
    ensures (a * b) * c == a * (b * c)
  {
  }

  lemma DivExact(x: int, d: int)
    requires d > 0 && x % d == 0
    ensures x == d * (x / d)
  {
  }

  /** A multiple of `d` reduced modulo a multiple of `d` is still a multiple of `d`. */
  lemma MultipleModMultiple(x: int, d: int, p: int)
    requires d > 0 && p > 0 && x % d == 0
    ensures (x % (d * p)) % d == 0
  {
    var a := x / d;
    assert x == d * a;
    var m := d * p;
    var t := x / m;
    assert x == m * t + x % m;
    assert m * t == d * (p * t);
    assert x % m == d * (a - p * t);
    MultipleOf(d, a - p * t);
  }

  class CiderBitVector {
    /** `kSizeAlignmentFactor`, the template argument. */
    const alignmentFactor: nat
    /** `kAlignmentOffset`, its base-2 logarithm. */
    const alignmentOffset: nat
    /** `bits_num_` */
    var bitsNum: nat
    /** `data_` */
    var data: array?<bv8>

    /** The class invariant: the bit count is aligned, and the buffer holds
        exactly `bitsNum / 8` bytes, or is absent when the count is 0. */
    ghost predicate Valid()
      reads this
    {
      alignmentFactor == Pow2(alignmentOffset) && alignmentOffset < 62 && 8 * alignmentFactor <= SizeModulus &&
      bitsNum < SizeModulus && bitsNum % 8 == 0 && bitsNum % (8 * alignmentFactor) == 0 &&
      (data == null <==> bitsNum == 0) &&
      (data != null ==> data.Length == bitsNum / 8)
    }

    /** The bytes of the buffer. */
    ghost function Contents(): seq<bv8>
      reads this, data
    {
      if data == null then [] else data[..]
    }

    /** `kAlignmentOffset`: shift the factor right until it is zero, counting
        the shifts that left something. For the power of two the
        `static_assert` demands, that count is its logarithm. */
    static method AlignmentOffset(factor: nat) returns (ans: nat)
      requires IsPowerOfTwo(factor)
      ensures Pow2(ans) == factor
    {
      ans := 0;
      var num := factor;
      num := num / 2;
      while num != 0
        invariant num == 0 || IsPowerOfTwo(num)
        invariant if num == 0 then Pow2(ans) == factor else Pow2(ans) * (2 * num) == factor
        decreases num
      {
        ans := ans + 1;
        num := num / 2;
      }
    }

    /** `alignBitsNum`: round a bit count up to whole bytes, then the byte
        count up to a multiple of the factor, all in `size_t` arithmetic. */
    static function AlignBitsNum(expectBits: nat, factor: nat, offset: nat): (r: nat)
      requires expectBits < SizeModulus && 0 < factor < SizeModulus && offset < 64
      ensures r < SizeModulus && r % 8 == 0
    {
      var e1 := (expectBits + 7) % SizeModulus;
      var e2 := e1 / 8;
      var e3 := (e2 + factor - 1) % SizeModulus;
      var e4 := e3 / Pow2(offset);
      var e5 := (e4 * Pow2(offset)) % SizeModulus;
      MultipleModMultiple(e5 * 8, 8, SizeModulus / 8);
      (e5 * 8) % SizeModulus
    }

    /** Away from the top of `size_t` no step of `AlignBitsNum` wraps. */
    static lemma AlignBitsNumNoWrap(bits: nat, factor: nat, offset: nat)
      requires factor == Pow2(offset) && offset < 64 && bits + 8 * factor <= SizeModulus
      ensures AlignBitsNum(bits, factor, offset) == 8 * RoundUpBytes(bits, factor)
    {
      var W := SizeModulus;
      var e1 := (bits + 7) % W;
      NoWrap(bits + 7, W);
      var e2 := e1 / 8;
      var e3 := (e2 + factor - 1) % W;
      NoWrap(e2 + factor - 1, W);
      var e4 := e3 / Pow2(offset);
      var x := e4 * Pow2(offset);
      DivBounds(e3, factor);
      var e5 := x % W;
      NoWrap(x, W);
      NoWrap(e5 * 8, W);
      assert AlignBitsNum(bits, factor, offset) == (e5 * 8) % W;
    }

    /** Away from the top of `size_t`, the aligned count is the least multiple
        of `8 * factor` that is at least the requested count. */
    static lemma AlignBitsNumRoundsUp(bits: nat, factor: nat, offset: nat)
      requires factor == Pow2(offset) && offset < 64 && bits + 8 * factor <= SizeModulus
      ensures var r := AlignBitsNum(bits, factor, offset);
              r % (8 * factor) == 0 && bits <= r < bits + 8 * factor
    {
      AlignBitsNumNoWrap(bits, factor, offset);
      RoundUpBytesBounds(bits, factor);
    }

    /** However large the request, the aligned count is a multiple of `8 * factor`. */
    static lemma AlignBitsNumAligned(bits: nat, factor: nat, offset: nat)
      requires factor == Pow2(offset) && bits < SizeModulus && 8 * factor <= SizeModulus
      ensures offset < 62
      ensures AlignBitsNum(bits, factor, offset) % (8 * factor) == 0
    {
      SizeModulusIsPow2();
      Pow2Plus3(offset);
      if offset + 3 > 64 {
        Pow2Monotone(64, offset + 3);
      }
      var W := SizeModulus;
      var e3 := ((bits + 7) % W / 8 + factor - 1) % W;
      var e4 := e3 / factor;
      var e5 := (e4 * factor) % W;
      assert AlignBitsNum(bits, factor, offset) == (e5 * 8) % W;
      // e5 is a multiple of the factor, since the factor divides 2^64
      var j := 64 - offset;
      Pow2Add(offset, j);
      assert offset + j == 64;
      assert factor * Pow2(j) == W;
      assert e4 * factor == factor * e4;
      MultipleOf(factor, e4);
      MultipleModMultiple(factor * e4, factor, Pow2(j));
      var c := e5 / factor;
      DivExact(e5, factor);
      // so e5 * 8 is a multiple of 8 * factor, which divides 2^64 as well
      MulAssoc(8, factor, c);
      assert e5 * 8 == (8 * factor) * c;
      MultipleOf(8 * factor, c);
      var k := 61 - offset;
      Pow2Add(offset + 3, k);
      assert offset + 3 + k == 64;
      assert Pow2(offset + 3) == 8 * factor;
      assert Pow2(offset + 3) * Pow2(k) == W;
      assert (8 * factor) * Pow2(k) == W;
      MultipleModMultiple(e5 * 8, 8 * factor, Pow2(k));
    }

    /** Within 7 of `SIZE_MAX` the first `+= 7` wraps and the aligned count is 0. */
    static lemma AlignBitsNumWrapsNearMax()
      ensures AlignBitsNum(SizeModulus - 1, 16, 4) == 0
    {
      assert Pow2(4) == 16;
    }

    /** `CiderBitVector(allocator, bits_num, init_val)`; `init_val` defaults to 0 and
        the template argument `AlignmentFactor` to 16, as in the class template. */
    constructor (bits: nat, initVal: bv8 := 0, factor: nat := 16)
      requires IsPowerOfTwo(factor) && 8 * factor <= SizeModulus && bits < SizeModulus
      ensures Valid() && alignmentFactor == factor
      ensures bitsNum == AlignBitsNum(bits, factor, alignmentOffset)
      ensures data != null ==> fresh(data)
      ensures Contents() == seq(bitsNum / 8, _ => initVal)
    {
      var offset := AlignmentOffset(factor);
      AlignBitsNumAligned(bits, factor, offset);
      SizeModulusIsPow2();
      alignmentFactor := factor;
      alignmentOffset := offset;
      var n := AlignBitsNum(bits, factor, offset);
      bitsNum := n;
      if n != 0 {
        data := new bv8[n / 8];
      } else {
        data := null;
      }
      new;
      ResetBits(initVal);
    }

    /** The copy constructor: same count, a fresh buffer holding the same bytes. */
    constructor Copy(rh: CiderBitVector)
      requires rh.Valid()
      ensures Valid()
      ensures alignmentFactor == rh.alignmentFactor && alignmentOffset == rh.alignmentOffset
      ensures bitsNum == rh.bitsNum && Contents() == rh.Contents()
      ensures data != null ==> fresh(data)
    {
      alignmentFactor := rh.alignmentFactor;
      alignmentOffset := rh.alignmentOffset;
      bitsNum := rh.bitsNum;
      if rh.bitsNum != 0 {
        data := new bv8[rh.bitsNum / 8];
      } else {
        data := null;
      }
      new;
      var i := 0;
      while i < bitsNum / 8
        invariant 0 <= i <= bitsNum / 8
        invariant data != null ==> forall k :: 0 <= k < i ==> data[k] == rh.data[k]
        modifies data
      {
        data[i] := rh.data[i];
        i := i + 1;
      }
    }

    /** The move constructor: takes over the buffer and leaves the source empty. */
    constructor Move(rh: CiderBitVector)
      requires rh.Valid()
      modifies rh
      ensures Valid() && rh.Valid()
      ensures alignmentFactor == rh.alignmentFactor && alignmentOffset == rh.alignmentOffset
      ensures bitsNum == old(rh.bitsNum) && data == old(rh.data) && Contents() == old(rh.Contents())
      ensures rh.bitsNum == 0 && rh.data == null
    {
      alignmentFactor := rh.alignmentFactor;
      alignmentOffset := rh.alignmentOffset;
      bitsNum := rh.bitsNum;
      data := rh.data;
      new;
      rh.bitsNum := 0;
      rh.data := null;
    }

    /** Move assignment: a self-move changes nothing; otherwise this takes over
        the source's count and buffer and the source is left empty. */
    method MoveAssign(rh: CiderBitVector)
      requires Valid() && rh.Valid()
      requires rh.alignmentFactor == alignmentFactor && rh.alignmentOffset == alignmentOffset
      modifies this, rh
      ensures Valid() && rh.Valid()
      ensures this == rh ==> bitsNum == old(bitsNum) && data == old(data) && Contents() == old(Contents())
      ensures this != rh ==> bitsNum == old(rh.bitsNum) && data == old(rh.data) && Contents() == old(rh.Contents())
      ensures this != rh ==> rh.bitsNum == 0 && rh.data == null
    {
      if this == rh {
        return;
      }
      bitsNum := rh.bitsNum;
      data := rh.data;
      rh.bitsNum := 0;
      rh.data := null;
    }

    /** `getBitsNum`: the aligned bit count, eight per buffer byte. */
    function GetBitsNum(): (n: nat)
      reads this
      requires Valid()
      ensures n % (8 * alignmentFactor) == 0
      ensures n == 0 <==> data == null
      ensures data != null ==> n == 8 * data.Length
    {
      bitsNum
    }

    /** `resetBits`: every one of the `bitsNum / 8` bytes becomes `val`. */
    method ResetBits(val: bv8)
      requires Valid()
      modifies data
      ensures Valid() && Contents() == seq(bitsNum / 8, _ => val)
    {
      var i := 0;
      while i < bitsNum / 8
        invariant 0 <= i <= bitsNum / 8
        invariant data != null ==> forall k :: 0 <= k < i ==> data[k] == val
      {
        data[i] := val;
        i := i + 1;
      }
    }
  }

  /** Deep-copy isolation: setting a bit in a copy leaves the original's bytes as they were. */
  method CopyIsolatesSource(src: CiderBitVector, index: nat) returns (copy: CiderBitVector)
    requires src.Valid() && index < src.bitsNum
    ensures fresh(copy) && copy.Valid() && copy.bitsNum == src.bitsNum
    ensures src.Contents() == old(src.Contents())
    ensures BitAt(copy.Contents(), index)
    ensures OnlyBitChanged(src.Contents(), copy.Contents(), index, true)
  {
    copy := new CiderBitVector.Copy(src);
    CiderBitUtils.SetBitAt(copy.data, index);
  }
}
