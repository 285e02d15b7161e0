# CiderBitUtils bitmaps, modelled in Dafny

This project models `CiderBitUtils`, the bitmap toolkit of the Cider
execution engine. Cider uses it for validity (null) bitmaps and
selection bitmaps. It has two parts:

- `CiderBitVector<AlignmentFactor>`: an owned byte buffer whose bit count is
  rounded up to a multiple of `8 * AlignmentFactor`. It supports construction,
  deep copy, move, move assignment, reading the bit count and filling every
  byte with one value.
- The free functions on raw `uint8_t` bitmaps: reading, setting and clearing
  one bit through the mask tables; the branchless set-or-clear; counting set
  and unset bits with a three-tier loop; comparing the first `end` bits; and
  the byte-wise AND of two bitmaps.

Bit `i` of a bitmap lives in byte `i / 8`, at position `i % 8` counted from
the least significant bit. This is the numbering of the validity bitmaps of
the Apache Arrow Columnar Format.

Files:

- `bit_spec.dfy`, module `BitSpec`: the reference meanings, defined bit by
  bit. They are `BitAt`, the naive count `NaiveCount`, bit agreement
  `BitsAgree`, and `OnlyBitChanged`, which says a bitmap differs from another
  at most in one given bit, which holds a given value. The module also holds
  the lemmas that connect byte-level facts to these meanings.
- `cider_bit_utils.dfy`, module `CiderBitUtils`: the free functions. Each
  works on an `array<bv8>`. Most are proved equal to the bit-by-bit meaning.
  Two are modelled as written and do not meet it: `IsBitClearAt` is not the
  negation of `IsBitSetAt`, and `SetBitAtUnified` writes the wrong bit from
  bit 2048 on (see "Findings"). Their corrected versions, `IsBitClear` and
  `SetBitAtUnifiedWide`, are proved equal to it. Each single-bit update also
  has a function on `seq<bv8>`, such as `SetBitBytes`, that gives the whole
  bitmap it leaves.
- `cider_bit_vector.dfy`, module `AlignedBitVector`: the class
  `CiderBitVector`. The template argument becomes a constant field, and
  `size_t` arithmetic in `alignBitsNum` is written modulo 2^64.

Structure notes:

- `countSetBits` is one function in the source. Here its first two tiers (64-bit
  words, then whole bytes) are the method `CountWholeBytes`, and
  `CountSetBits` runs the third tier (single bits) after calling it.
- The popcount of a 64-bit word is modelled as the sum of the popcounts of its
  eight bytes. That sum does not depend on byte order.
- The allocator is `new`. A null `data_` is a `null` array, which the class
  invariant `Valid` ties to a bit count of 0.

## Model

| member | source | states |
|---|---|---|
| CiderBitUtils.BitMask | cpp/src/cider/util/CiderBitUtils.h:149-150 | `kCiderBitMask`: the eight single-bit masks `1, 2, 4, …, 128` |
| CiderBitUtils.BitReverseMask | cpp/src/cider/util/CiderBitUtils.h:152-159 | `kCiderBitReverseMask`: the complements of the eight single-bit masks |
| CiderBitUtils.MaskIsShift | cpp/src/cider/util/CiderBitUtils.h:149-159 | entry `i % 8` of `kCiderBitMask` is `1 << (i % 8)`, and the same entry of `kCiderBitReverseMask` is its complement |
| CiderBitUtils.MaskSelectsBit | cpp/src/cider/util/CiderBitUtils.h:161-163 | ANDing a byte with mask entry `i % 8` is non-zero exactly when bit `i % 8` of the byte is set |
| CiderBitUtils.OrMaskBit | cpp/src/cider/util/CiderBitUtils.h:165-167 | ORing in mask entry `i % 8` sets that bit and keeps every other bit of the byte |
| CiderBitUtils.AndReverseMaskBit | cpp/src/cider/util/CiderBitUtils.h:169-171 | ANDing with reverse-mask entry `i % 8` clears that bit and keeps every other bit of the byte |
| CiderBitUtils.IsBitSetAt | cpp/src/cider/util/CiderBitUtils.h:161-163 | `isBitSetAt` returns bit `index` of the bitmap |
| CiderBitUtils.SetBitBytes | cpp/src/cider/util/CiderBitUtils.h:165-167 | the bitmap `setBitAt` leaves differs from its input only in bit `i`, which is set |
| CiderBitUtils.ClearBitBytes | cpp/src/cider/util/CiderBitUtils.h:169-171 | the bitmap `clearBitAt` leaves differs from its input only in bit `i`, which is clear |
| CiderBitUtils.SetBitAt | cpp/src/cider/util/CiderBitUtils.h:165-167 | `setBitAt` leaves the bitmap `SetBitBytes` gives: bit `index` is set and every other bit is unchanged |
| CiderBitUtils.ClearBitAt | cpp/src/cider/util/CiderBitUtils.h:169-171 | `clearBitAt` leaves the bitmap `ClearBitBytes` gives: bit `index` is clear and every other bit is unchanged |
| BitSpec.OnlyBitChangedByByte | cpp/src/cider/util/CiderBitUtils.h:165-171 | rewriting byte `i / 8` with a byte that differs from it at most in bit `i % 8` changes bit `i` of the bitmap and no other bit |
| CiderBitUtils.IsBitClearAt | cpp/src/cider/util/CiderBitUtils.h:173-176 | `isBitClearAt`, as written, is true exactly when byte `index / 8` differs from the single-bit mask of `index` |
| CiderBitUtils.XorMaskByte | cpp/src/cider/util/CiderBitUtils.h:175 | XOR with the single-bit mask disagrees with "bit is clear" exactly when the bit is set and another bit of the byte is set too |
| CiderBitUtils.IsBitClearAtDiffersFromNegation | cpp/src/cider/util/CiderBitUtils.h:173-176 | `isBitClearAt` differs from `!isBitSetAt` exactly when bit `index` is set together with some other bit of its byte |
| CiderBitUtils.IsBitClearAtOnSetBit | cpp/src/cider/util/CiderBitUtils.h:173-176 | on byte `0b11`, bit 0 is set, yet `isBitClearAt` reports bit 0 as clear |
| CiderBitUtils.IsBitClear | cpp/src/cider/util/CiderBitUtils.h:173-176 | the corrected `isBitClearAt` is true exactly when bit `index` is clear |
| CiderBitUtils.UnifiedByte | cpp/src/cider/util/CiderBitUtils.h:182-183 | the branchless byte formula equals ORing in the mask when the flag is true and ANDing with its complement when it is false |
| CiderBitUtils.UnifiedByteBit | cpp/src/cider/util/CiderBitUtils.h:182-183 | `(b & ~mask) \| (-flag & mask)` holds `flag` at the masked position and keeps every other bit of `b` |
| CiderBitUtils.UnifiedTarget | cpp/src/cider/util/CiderBitUtils.h:181 | through the `uint8_t` byte index, the bit written lies below 2048 and has the same position in its byte as `index`; below 2048 it is `index` itself |
| CiderBitUtils.UnifiedBytes | cpp/src/cider/util/CiderBitUtils.h:178-184 | the bitmap `setBitAtUnified` leaves, as written, differs from its input only in bit `UnifiedTarget(i)`, which holds the flag |
| CiderBitUtils.SetBitAtUnified | cpp/src/cider/util/CiderBitUtils.h:178-184 | as written, `setBitAtUnified` leaves the bitmap `UnifiedBytes` gives: it forces bit `UnifiedTarget(index)` to `is_null` and changes no other bit; for `index < 2048` that bit is `index` |
| CiderBitUtils.UnifiedMissesBit2048 | cpp/src/cider/util/CiderBitUtils.h:181 | setting bit 2048 as written leaves bit 2048 as it was and sets bit 0 instead |
| CiderBitUtils.SetBitAtUnifiedWide | cpp/src/cider/util/CiderBitUtils.h:178-184 | with a `size_t` byte index, bit `index` becomes `is_null` and every other bit is unchanged |
| BitSpec.OnlyBitChangedUnique | cpp/src/cider/util/CiderBitUtils.h:178-184 | two bitmaps obtained from the same one by forcing the same bit to the same value are equal |
| CiderBitUtils.UnifiedMatchesBranching | cpp/src/cider/util/CiderBitUtils.h:165-184 | for every bit index below 2048, the as-written branchless update yields exactly the bitmap of `setBitAt` when the flag is true and of `clearBitAt` when it is false |
| BitSpec.PopCount | cpp/src/cider/util/CiderBitUtils.h:199 | `__builtin_popcount` of a byte is at most 8 |
| BitSpec.PopCountComplement | cpp/src/cider/util/CiderBitUtils.h:199 | the popcounts of a byte and of its complement add up to 8 |
| BitSpec.PopCountZero | cpp/src/cider/util/CiderBitUtils.h:199 | a byte has popcount 0 exactly when it is 0 |
| BitSpec.BytesPopCountSplit | cpp/src/cider/util/CiderBitUtils.h:189-193 | the popcount of a range of bytes is the sum of the popcounts of its two halves, so summing 8-byte words sums the bytes |
| BitSpec.NaiveCountByteStep | cpp/src/cider/util/CiderBitUtils.h:198-200 | counting bit `8k + m - 1` adds to the naive count what bit `m - 1` of byte `k` adds to that byte's popcount |
| BitSpec.NaiveCountWithinByte | cpp/src/cider/util/CiderBitUtils.h:198-200 | counting the bits of byte `k` one by one gives that byte's popcount, restricted to its low `m` bits |
| BitSpec.NaiveCountBytes | cpp/src/cider/util/CiderBitUtils.h:189-200 | the byte-popcount sum over the first `n` bytes equals the naive count of the first `8n` bits |
| BitSpec.NaiveCountBounded | cpp/src/cider/util/CiderBitUtils.h:186-209 | the number of set bits among the first `end` bits is at most `end` |
| CiderBitUtils.CountWholeBytes | cpp/src/cider/util/CiderBitUtils.h:186-200 | the word tier and the byte tier together return the naive count of the first `8 * bytes` bits |
| CiderBitUtils.NaiveCountStep | cpp/src/cider/util/CiderBitUtils.h:203-206 | below `end`, bit `i` lies inside the buffer, and counting it adds 1 exactly when it is set |
| CiderBitUtils.CountSetBits | cpp/src/cider/util/CiderBitUtils.h:186-209 | `countSetBits` returns the number of set bits among bits `0 .. end-1`, which is at most `end` |
| CiderBitUtils.CountUnsetBits | cpp/src/cider/util/CiderBitUtils.h:211-213 | set bits plus unset bits among the first `end` bits add up to `end` |
| BitSpec.BitsAgreeBytes | cpp/src/cider/util/CiderBitUtils.h:217-220 | the `memcmp` of the first `n` bytes succeeds exactly when the first `8n` bits agree one by one |
| CiderBitUtils.CheckBitVectorEq | cpp/src/cider/util/CiderBitUtils.h:215-232 | `CheckBitVectorEq` returns true exactly when bits `0 .. end-1` of the two bitmaps agree |
| CiderBitUtils.BitsAgreeReflexiveSymmetric | cpp/src/cider/util/CiderBitUtils.h:215-232 | the relation `CheckBitVectorEq` decides is reflexive and symmetric |
| BitSpec.FlippedBitDisagrees | cpp/src/cider/util/CiderBitUtils.h:222-229 | a bitmap with one bit below `end` flipped does not agree with the original on the first `end` bits |
| CiderBitUtils.AndLength | cpp/src/cider/util/CiderBitUtils.h:238 | `(bit_num + 7) >> 3` in `size_t` is `ceil(bit_num / 8)` when `bit_num + 7` does not wrap, and 0 for the seven largest `bit_num` |
| CiderBitUtils.BitwiseAnd | cpp/src/cider/util/CiderBitUtils.h:234-242 | `bitwiseAnd` writes `a[k] & b[k]` into each of the first `AndLength(bit_num)` output bytes and leaves the rest of the output alone |
| CiderBitUtils.AndBytesAndsBits | cpp/src/cider/util/CiderBitUtils.h:234-242 | when the first `ceil(n / 8)` bytes are ANDed byte-wise, each of the first `n` bits of the output is the AND of the corresponding input bits |
| AlignedBitVector.CiderBitVector.AlignmentOffset | cpp/src/cider/util/CiderBitUtils.h:38-47 | for a power-of-two factor, the count of non-zero right shifts is its base-2 logarithm: `2^ans == factor` |
| AlignedBitVector.CiderBitVector.AlignBitsNum | cpp/src/cider/util/CiderBitUtils.h:135-142 | `alignBitsNum`, computed in `size_t` arithmetic, returns a value below 2^64 that is a multiple of 8 |
| AlignedBitVector.RoundUpBytesBounds | cpp/src/cider/util/CiderBitUtils.h:134-142 | rounding up to whole bytes, and then to a multiple of the factor, gives the least multiple of `8 * factor` that is at least the request |
| AlignedBitVector.CiderBitVector.AlignBitsNumNoWrap | cpp/src/cider/util/CiderBitUtils.h:135-142 | when the request is at least `8 * factor` below 2^64, no step of `alignBitsNum` wraps |
| AlignedBitVector.CiderBitVector.AlignBitsNumRoundsUp | cpp/src/cider/util/CiderBitUtils.h:134-142 | away from the top of `size_t`, the aligned count is a multiple of `8 * factor`, at least the request, and less than the request plus `8 * factor` |
| AlignedBitVector.CiderBitVector.AlignBitsNumAligned | cpp/src/cider/util/CiderBitUtils.h:135-142 | for every request, including ones that wrap, the aligned count is a multiple of `8 * factor` |
| AlignedBitVector.CiderBitVector.AlignBitsNumWrapsNearMax | cpp/src/cider/util/CiderBitUtils.h:136-141 | with factor 16, a request of `2^64 - 1` bits wraps to an aligned count of 0 |
| AlignedBitVector.CiderBitVector.constructor | cpp/src/cider/util/CiderBitUtils.h:34-57 | `init_val` defaults to 0 and the factor to 16; the new vector keeps the class invariant; its bit count is `alignBitsNum(bits_num)`; its buffer is fresh (null when the count is 0), and every byte is `init_val` |
| AlignedBitVector.CiderBitVector.Copy | cpp/src/cider/util/CiderBitUtils.h:63-72 | the copy has the same bit count and the same bytes, held in a fresh buffer |
| AlignedBitVector.CopyIsolatesSource | cpp/src/cider/util/CiderBitUtils.h:63-72 | setting a bit in a deep copy leaves the source's bytes unchanged, and the copy then differs from the source only in that bit |
| AlignedBitVector.CiderBitVector.MoveAssign | cpp/src/cider/util/CiderBitUtils.h:89-104 | a self-move changes nothing; otherwise the target takes over the source's count and buffer, and the source is left with count 0 and a null buffer |
| AlignedBitVector.CiderBitVector.Move | cpp/src/cider/util/CiderBitUtils.h:106-112 | the new vector takes over the source's count and buffer, and the source is left with count 0 and a null buffer |
| AlignedBitVector.CiderBitVector.GetBitsNum | cpp/src/cider/util/CiderBitUtils.h:124 | the bit count is a multiple of `8 * factor`; it is 0 exactly when there is no buffer, and otherwise 8 per buffer byte |
| AlignedBitVector.CiderBitVector.ResetBits | cpp/src/cider/util/CiderBitUtils.h:126-131 | every one of the `bits_num / 8` bytes becomes `val`, and the class invariant is kept |

## Left out

- The allocator: `CiderAllocator`, `AlignAllocator` and the `shared_ptr` handle. Allocation is `new`. The alignment of the buffer's address and allocation failure are not modelled.
- The destructor and every `deallocate` call: Dafny has no explicit deallocation.
- The copy-assignment operator (`cpp/src/cider/util/CiderBitUtils.h:74-87`) is not modelled. It frees `data_` and then copies through that freed pointer without allocating a new buffer. It also falls off the end without returning `*this`. Both are undefined behaviour in C++, so there is no defined behaviour to model.
- `as<T>()`: a `reinterpret_cast` of the buffer. The model reads and writes `data` directly.
- `FORCE_INLINE` and `ENABLE_AVX256`: compiler hints with no effect on results.
- `cpp/src/cider/exec/processor/StatefulProcessor.h` and `cpp/src/cider/exec/nextgen/transformer/Transformer.h` are not part of this model. They only declare interfaces.
- CountSetBits: the 64-bit word read `reinterpret_cast<const uint64_t*>(bit_vector)[i]` is modelled as its eight bytes. The popcount is the same, but the model does not capture the unaligned word load or the read of a whole word.
- CountSetBits: `ans` is a `nat`. It cannot wrap in `size_t` anyway, since it never exceeds `end`.
- CheckBitVectorEq: requires `end >= 0`. For a negative `int` end, the source converts `end / 8` and the comparison `i < end` to `size_t`, and then reads past the buffers. The upper bound of `int` is not modelled.
- CiderBitVector: the factor is a power of two with `8 * factor <= 2^64`, so `kAlignmentOffset < 62`. Larger template arguments are not modelled.
- Bit indices are unbounded `nat`s. A `size_t` index at or above 2^64 does not arise, because the buffers are smaller.

## Findings

| source | as written | input that shows it | evidently intended | confidence | as-written member | corrected member |
|---|---|---|---|---|---|---|
| cpp/src/cider/util/CiderBitUtils.h:173-176 | `isBitClearAt` returns `byte ^ (1 << (index & 7))`, which is non-zero whenever the byte is anything but the single-bit mask | byte `0b11`, index 0: bit 0 is set, yet the result is true | true exactly when bit `index` is clear, the negation of `isBitSetAt` | high; not executed | CiderBitUtils.IsBitClearAtOnSetBit | CiderBitUtils.IsBitClear |
| cpp/src/cider/util/CiderBitUtils.h:181 | `setBitAtUnified` keeps the byte index `index >> 3` in a `uint8_t`, so it is reduced modulo 256 | index 2048 on a bitmap of more than 256 bytes: bit 0 is written and bit 2048 is left as it was | a `size_t` byte index, so that bit `index` is the one written | medium; not executed | CiderBitUtils.UnifiedMissesBit2048 | CiderBitUtils.SetBitAtUnifiedWide |
