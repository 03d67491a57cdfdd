# Compact Hilbert Index in Dafny

This project models the C core of the `hilbert` library. The library computes
the Compact Hilbert Index of a point whose axes can have different bit widths.
The model covers two files:

- `c_src/hilbert.c`: the word-level primitives, the axis mask, the rank packer
  and the indexer loop `chi_point2index`;
- `c_src/bignum.c`: the fixed-size byte buffer ("bignum") that collects the
  index.

Modules, one per file:

- `BitOps` (`bitops.dfy`): the C unsigned types and bit operators.
  - A C `unsigned int` is a `Word`: a natural number below 2^32.
  - A C `unsigned char` / `uint8_t` is a `Byte`: a natural number below 2^8.
  - `^`, `|`, `&`, `>>` and `<<` are defined bit by bit, and every proof reasons
    through `Bit(x, k)`.
  - Fixed-width truncation is written out explicitly as `Trunc(x, width)`.
  - `LeValue(s)` is the number a byte sequence holds, with byte 0 the least
    significant.
- `Primitives` (`primitives.dfy`): `bit_at_int`, `bit_at_char`, `rotl`, `rotr`,
  `gc`, `inverse_gc`, `parity`, `tsb`, `g`, `entry` and `direction`.
- `Masks` (`masks.dfy`): `sum`, `max`, `extract_mask` and `gcr`.
- `Bignum` (`bignum.dfy`): each buffer operation is first specified on
  `seq<Byte>`; the `Bignum` class then performs it in place on its `array<Byte>`.
- `Indexer` (`indexer.dfy`): `bitshift_left` and `chi_point2index`.
  - `Step` specifies one precision level and `Done` all the levels done so far;
    they keep the index `h` without any width limit.
  - The imperative loop keeps `e` and `d` in C variables and the index in a
    `Bignum`, whose value is proved to be `h` truncated to the buffer's width.

Points where the model follows the code:

- **Byte order.** Carries move from byte k to byte k + 1
  (`c_src/bignum.c:33-38`), so byte 0 is the least significant. The
  `uint32_t *` and `uint64_t *` accesses in `bignum_or`, `bignum_xor` and
  `bignum_to_uint64` are read as on a little-endian host: byte k of a word holds
  its bits 8k..8k+7.
- **`bignum_or`** ORs into bytes 0..3, the least significant ones
  (`c_src/bignum.c:54-55`). The comment above it says "most significant 4 bytes".
- **`bignum_xor`** XORs into bytes size-4..size-1, the most significant ones
  (`c_src/bignum.c:44-46`). The comment above it says "least significant 32 bits".
- **Buffer size.** `chi_point2index` allocates `M / 8` bytes, rounded down, with
  at least 4 (`c_src/hilbert.c:186`, `c_src/bignum.c:11-12`). M = sum(ms) is
  computed only to size this buffer, and the loop appends exactly M bits to it
  (`LevelBitsTotal`, `IndexBound`), so the size is evidently meant to hold M bits:
  ⌈M/8⌉ bytes. The model follows the code, proves what the rounded-down size
  loses, and proves the rounded-up size correct (see "## Findings").
- **Limits of the loop.** `bignum_shift_left` takes at most 8 bits
  (`c_src/bignum.c:34`), and the loop reads bit i of every coordinate up to
  m = max(ms). The model of the code as written requires at most 8 active axes
  and coordinates long enough. A corrected chain (`Point2IndexCorrected`) shifts
  by any count and reads missing bytes as 0, and needs neither requirement.
- **Set-bit counts.** `parity`, `tsb` and `g` all count every set bit of the
  word. They compute neither a parity bit nor the "trailing set bits" of the
  published algorithm. The model states the count.
- **Words.** Words are natural numbers below 2^32 rather than `bv32`, and the
  wrap-around is written out where the code depends on it. `entry(-2)` is
  `Entry(WORD_MOD - 2)`.

## Model

| member | source | states |
|---|---|---|
| Primitives.SelectBit | c_src/hilbert.c:83-84 | `(x & (1 << i)) >> i` is bit i of x, as 0 or 1 |
| Primitives.BitAtInt | c_src/hilbert.c:82-85 | `bit_at_int(b, i)` is 1 exactly when bit i of b is set, 0 otherwise |
| Primitives.BitAtChar | c_src/hilbert.c:58-67 | `bit_at_char(b, i)` is bit i % 8 of byte i / 8, which is bit i of the buffer's little-endian value |
| Primitives.BitAtCharExamples | c_src/hilbert.c:270-286 | the six `bit_at_char` test results on the 16-byte buffer |
| Primitives.Rotl | c_src/hilbert.c:87-89 | `rotl(value, shift)` as `(value << shift) OR (value >> (32 - shift))` in 32 bits; RotlBit characterises it as a cyclic rotation |
| Primitives.Rotr | c_src/hilbert.c:91-93 | `rotr(value, shift)` as `(value >> shift) OR (value << (32 - shift))` in 32 bits; RotrBit characterises it as a cyclic rotation |
| Primitives.RotlBit | c_src/hilbert.c:87-89 | bit k of `rotl(v, s)` is bit (k - s) mod 32 of v: a cyclic rotation of the 32 bits |
| Primitives.RotrBit | c_src/hilbert.c:91-93 | bit k of `rotr(v, s)` is bit (k + s) mod 32 of v |
| Primitives.RotlHalves | c_src/hilbert.c:87-89 | bit k of `rotl(v, s)` comes from the left-shifted half or from the right-shifted half, and from nowhere else |
| Primitives.RotrHalves | c_src/hilbert.c:91-93 | the same for `rotr` |
| Primitives.RotationRoundTrip | c_src/hilbert.c:87-93 | `rotr(rotl(v, s), s) == v` and `rotl(rotr(v, s), s) == v` for every word and every shift below 32 |
| Primitives.RotrValue | c_src/hilbert.c:91-93 | `rotr(v, s)` equals `v / 2^s + 2^(32-s) * (v mod 2^s)` |
| Primitives.RotlValue | c_src/hilbert.c:87-89 | `rotl(v, s)` equals `v / 2^(32-s) + 2^s * (v mod 2^(32-s))` |
| Primitives.RotrExample1 | c_src/hilbert.c:221 | `rotr(0b100, 1) == 0b010` |
| Primitives.RotrExample2 | c_src/hilbert.c:222 | `rotr(0b100, 2) == 1` |
| Primitives.RotrExample3 | c_src/hilbert.c:223 | `rotr(1, 1) == 2147483648`: the low bit wraps to bit 31 |
| Primitives.RotlExample | c_src/hilbert.c:224 | `rotl(0b10100, 2) == 0b1010000` |
| Primitives.Gc | c_src/hilbert.c:95-97 | `gc(i)` is `i ^ (i >> 1)`; GcBit and GrayRoundTrip characterise it as an invertible Gray code |
| Primitives.GcBit | c_src/hilbert.c:95-97 | bit k of `gc(i)` is set exactly when bits k and k + 1 of i differ |
| Primitives.GcOfPrefixFold | c_src/hilbert.c:104-109 | the Gray code of `inverse_gc`'s accumulator after its loop has reached j is `g ^ (g >> j)`, so it is g once j = 32 |
| Primitives.InverseGray | c_src/hilbert.c:98-112 | the inverse Gray code: its Gray code is the input |
| Primitives.InverseGc | c_src/hilbert.c:98-112 | the loop of `inverse_gc` returns a word whose Gray code is g, and that word is `InverseGray(g)` |
| Primitives.GcDeterminesBit | c_src/hilbert.c:95-97 | two words with the same Gray code agree on every bit |
| Primitives.GcInjective | c_src/hilbert.c:95-97 | `gc` is injective on words |
| Primitives.GrayRoundTrip | c_src/hilbert.c:95-112 | `inverse_gc(gc(x)) == x` and `gc(inverse_gc(x)) == x` for every word |
| Primitives.InverseGrayOf | c_src/hilbert.c:98-112 | the only word whose Gray code is g is `inverse_gc(g)` |
| Primitives.GcExamples | c_src/hilbert.c:228-230 | `gc(0b0110) == 0b0101`, `gc(0b0111) == 0b0100`, `gc(0b1111) == 0b1000` |
| Primitives.InverseGrayExamples | c_src/hilbert.c:232-235 | the four `inverse_gc` test results |
| Primitives.OnesCardinality | c_src/hilbert.c:129-131 | the bit count is the size of the set of set-bit positions |
| Primitives.Popcount | c_src/hilbert.c:125-134 | a word has at most 32 set bits |
| Primitives.Parity | c_src/hilbert.c:125-134 | `parity(mu)` is the number of set bits of mu |
| Primitives.Tsb | c_src/hilbert.c:144-151 | `tsb(i)` is the number of set bits of i: the same function as `parity` |
| Primitives.G | c_src/hilbert.c:153-155 | `g(i)` is the number of set bits of i |
| Primitives.PopcountNarrow | c_src/hilbert.c:125-134 | a word below 2^w has all its set bits below w, so it has at most w of them |
| Primitives.ParityExamples | c_src/hilbert.c:248-253 | `parity(0) == 0`, `parity(0b1000) == 1`, `parity((unsigned) -1) == 32` |
| Primitives.TsbExamples | c_src/hilbert.c:260-263 | `tsb(0b1111) == 4`, `tsb(0b10001111) == 5` |
| Primitives.Entry | c_src/hilbert.c:136-142 | `entry(i)` is 0 for i = 0 and otherwise the Gray code of `2 * floor((i - 1) / 2)` in unsigned arithmetic; EntryIsGrayOfEvenBelow characterises it |
| Primitives.EntryIsGrayOfEvenBelow | c_src/hilbert.c:136-142 | for i > 0, `entry(i)` is the Gray code of an even number x with x < i <= x + 2 |
| Primitives.GcOfTopRun | c_src/hilbert.c:140 | the Gray code of the word whose bits a..31 are all set has exactly bits a - 1 and 31 set |
| Primitives.EntryExamples | c_src/hilbert.c:241-245 | `entry(6) == 6`, `entry(2) == 0`, `entry(4) == 3`, `entry(0) == 0` |
| Primitives.EntryOfTopCells | c_src/hilbert.c:240-242 | with unsigned wrap-around, `entry(-2) == 2147483650` and `entry(-6) == 2147483652` |
| Primitives.Direction | c_src/hilbert.c:158-165 | `direction(i, n)` is below n, and 0 for i = 0 |
| Masks.TotalConcat | c_src/hilbert.c:29-35 | the sum of a concatenation is the sum of the sums |
| Masks.Sum | c_src/hilbert.c:29-35 | the loop of `sum` returns the sum of the sequence |
| Masks.Largest | c_src/hilbert.c:37-44 | the maximum is an element of the sequence and no element exceeds it |
| Masks.Max | c_src/hilbert.c:37-44 | the loop of `max` returns an element that no element exceeds |
| Masks.MaxExample | c_src/hilbert.c:265-268 | on `{1, 2, 3}` only 3 satisfies the contract of `max` |
| Masks.Mask | c_src/hilbert.c:47-55 | the mask of level i under rotation d; MaskBits states which bits it has |
| Masks.MaskBits | c_src/hilbert.c:47-55 | bit j of the mask is set exactly when j < n and axis (j + d) mod n is wider than i |
| Masks.MaskBound | c_src/hilbert.c:47-55 | the mask is below 2^n |
| Masks.MaskCount | c_src/hilbert.c:47-55 | the mask has one set bit per axis wider than i, whatever the rotation d |
| Masks.MaskTopBits | c_src/hilbert.c:49-53 | after the loop has read axes n-1 down to n-k, bit b of the mask is set exactly when b < k and that axis is wider than i |
| Masks.ExtractStep | c_src/hilbert.c:50-52 | one shift-and-OR of the loop in a w-bit variable adds the next axis below those already read |
| Masks.MaskFits | c_src/hilbert.c:47-55 | with at most 64 axes the `uint64_t` loses no mask bit |
| Masks.ExtractMask | c_src/hilbert.c:47-55 | `extract_mask` returns the mask truncated to 64 bits, which is the whole mask when n <= 64 |
| Masks.ReadAxis | c_src/hilbert.c:50-52 | one iteration of the `extract_mask` loop adds one axis to the mask |
| Masks.CountAboveMonotone | c_src/hilbert.c:193-194 | fewer axes are active at a higher level, so level 0 has the most |
| Masks.CountAboveAll | c_src/hilbert.c:193-194 | when every axis is wider than i, all n axes are active at level i |
| Masks.RotatedCountAbove | c_src/hilbert.c:51 | reading the axes from d onward, cyclically, does not change how many are wider than i |
| Masks.Rank | c_src/hilbert.c:114-123 | the bits of w at the positions mu selects, packed from bit 0 upward; RankBit and RankBound state where each bit lands and how wide the result is |
| Masks.RankBound | c_src/hilbert.c:114-123 | `gcr(n, mu, w)` is below 2 to the number of set bits among mu's low n bits |
| Masks.RankBit | c_src/hilbert.c:114-123 | each bit of w that mu selects lands at its rank among the selected positions |
| Masks.RankFullMask | c_src/hilbert.c:114-123 | when mu's low n bits are all set, `gcr` returns w mod 2^n |
| Masks.RankExample | c_src/hilbert.c:255-258 | `gcr(2, 0b1111, 7) == 3` |
| Masks.ShiftInWord | c_src/hilbert.c:119 | `(r << 1) OR c` in an `unsigned int` loses nothing while r has at most 31 significant bits |
| Masks.Gcr | c_src/hilbert.c:114-123 | the loop of `gcr` packs the bits of w that mu selects, and the result fits in as many bits as mu selects |
| Masks.RankAxis | c_src/hilbert.c:118-119 | one iteration of `gcr` adds position j to the packed bits |
| Bignum.ShlByteBit | c_src/bignum.c:35 | bit k of `(uint8_t)(x << n)` is bit k - n of x for n <= k < 8, and clear otherwise |
| Bignum.CarryBit | c_src/bignum.c:34 | the carry `x >> (8 - n)` holds the top n bits of x in its low n bits |
| Bignum.ByteOf | c_src/bignum.c:54-55 | byte k of a word, as a `uint8_t` view of a `uint32_t` reads it on a little-endian host: bits 8k..8k+7 |
| Bignum.ShlBytes | c_src/bignum.c:30-39 | the bytes after `bignum_shift_left(b, n)`: byte k shifted left by n, OR the top n bits of byte k - 1; ShlBytesValue states its value |
| Bignum.ShlBytesByteBit | c_src/bignum.c:33-38 | after the shift, bit b of byte k is bit b - n of byte k, or a bit carried from the top of byte k - 1 (none into byte 0) |
| Bignum.ShlBytesBit | c_src/bignum.c:30-39 | bit q of the shifted buffer's value is bit q - n of the old value, and clear for q < n |
| Bignum.ShlBytesValue | c_src/bignum.c:30-39 | `bignum_shift_left` turns the value V into V * 2^n mod 2^(8 * size) |
| Bignum.ShlBytesLowBits | c_src/bignum.c:30-39 | after the shift the low n bits of byte 0 are clear |
| Bignum.ShlBytesExample0 | c_src/hilbert.c:299 | the shift test: byte 0 goes from 0b01001000 to 0b01000000 |
| Bignum.ShlBytesExample14 | c_src/hilbert.c:300 | the shift test: byte 14 goes from 0b01000010 to 0b00010000 |
| Bignum.ShlBytesExample15 | c_src/hilbert.c:301 | the shift test: byte 15 goes from 0b00100000 to 0b00000010, the top bits of byte 14 carried in |
| Bignum.OrWord | c_src/bignum.c:50-56 | the bytes after `bignum_or(b, x)`: bytes 0..3 OR the bytes of x, the rest unchanged; OrWordValue states its value |
| Bignum.OrWordBit | c_src/bignum.c:50-56 | each bit of the value after `bignum_or` is that bit of the old value OR'd with that bit of x |
| Bignum.OrWordValue | c_src/bignum.c:50-56 | `bignum_or` ORs x into the least significant 32 bits of the value |
| Bignum.OrWordAgain | c_src/bignum.c:50-56 | `bignum_or` with the same x twice is `bignum_or` once |
| Bignum.AppendBits | c_src/hilbert.c:203-204 | shifting left by k and ORing in r < 2^k appends r to the value, modulo the buffer's width |
| Bignum.ShiftMod | c_src/bignum.c:30-39 | shifting a value already truncated to the width gives the same truncated result as shifting the whole value |
| Bignum.ShiftTwice | c_src/bignum.c:30-39 | shifting by a and then by s, each truncated to the width, is one shift by a + s |
| Bignum.XorWord | c_src/bignum.c:43-47 | the bytes after `bignum_xor(b, x)`: bytes size-4..size-1 XOR the bytes of x, the rest unchanged; XorWordValue states its value |
| Bignum.XorWordBit | c_src/bignum.c:43-47 | each bit of the value after `bignum_xor` is that bit of the old value XOR'd with that bit of x placed at the top 32 bits |
| Bignum.XorWordValue | c_src/bignum.c:43-47 | `bignum_xor` XORs x into the most significant 32 bits of the value |
| Bignum.XorWordAgain | c_src/bignum.c:43-47 | `bignum_xor` with the same x twice restores the buffer |
| Bignum.SetBitBytes | c_src/bignum.c:58-69 | the bytes after `bignum_set_bit(b, pos)`: byte pos / 8 OR `1 << (pos % 8)`; SetBitBit states its value |
| Bignum.SetBitBit | c_src/bignum.c:58-69 | `bignum_set_bit(pos)` sets bit pos of the value and leaves every other bit as it was |
| Bignum.SetBitAgain | c_src/bignum.c:58-69 | setting the same bit twice is setting it once |
| Bignum.LowBytes | c_src/bignum.c:94-96 | the first 8 bytes hold the value modulo 2^64 |
| Bignum.Bignum.constructor | c_src/bignum.c:10-19 | `bignum_alloc(s)` has max(s, 4) bytes, every byte zero, value 0 |
| Bignum.Bignum.Clear | c_src/bignum.c:26-28 | every byte is zero afterwards, the value is 0, and the size is unchanged |
| Bignum.Bignum.ShiftLeft | c_src/bignum.c:30-39 | the carry loop leaves the bytes of `ShlBytes` and the value V * 2^n mod 2^(8 * size) |
| Bignum.Bignum.ShiftLeftBy | c_src/bignum.c:30-39 | a shift by any k bits, as a run of `bignum_shift_left` calls of at most 8 bits, turns V into V * 2^k mod 2^(8 * size) |
| Bignum.Bignum.ShiftChunk | c_src/bignum.c:30-39 | one more call of at most 8 bits keeps the value equal to V * 2^(bits so far) mod 2^(8 * size) |
| Bignum.Bignum.Xor | c_src/bignum.c:43-47 | only bytes size-4..size-1 change, and the value has x XOR'd into its top 32 bits |
| Bignum.Bignum.Or | c_src/bignum.c:50-56 | only bytes 0..3 change, and the value has x OR'd into its low 32 bits |
| Bignum.Bignum.SetBit | c_src/bignum.c:58-69 | bit pos of the value is set and every other bit is unchanged |
| Bignum.Bignum.ToUint64 | c_src/bignum.c:94-96 | the first 8 bytes, read little-endian, are the value modulo 2^64 |
| Indexer.BitshiftLeft | c_src/hilbert.c:167-177 | the first `size` bytes are shifted as `bignum_shift_left` shifts them, with value V * 2^n mod 2^(8 * size), and the bytes beyond are untouched |
| Indexer.ShiftBytes | c_src/hilbert.c:170-176 | the carry loop of `bitshift_left` leaves the shifted bytes below `size` and the other bytes untouched |
| Indexer.ShiftByte | c_src/hilbert.c:171-175 | one iteration shifts byte i, ORs in the carry, returns the bits shifted out, and changes no other byte |
| Indexer.Section | c_src/hilbert.c:195-198 | the cross-section `l` at level i; SectionBit states its bits |
| Indexer.SectionBit | c_src/hilbert.c:195-198 | bit j of the cross-section `l` at level i is bit i of coordinate j, for j < n, and clear above n |
| Indexer.SectionStep | c_src/hilbert.c:196-197 | one iteration of the inner loop ORs bit i of coordinate j in at position j, so the bits j..n-1 are the cross-section |
| Indexer.CrossSection | c_src/hilbert.c:195-198 | the inner loop builds exactly that cross-section |
| Indexer.CrossSectionPadded | c_src/hilbert.c:195-198 | the same loop, reading a bit past a coordinate's last byte as 0, builds the cross-section for coordinates of any length |
| Indexer.Append | c_src/hilbert.c:202 | `(h << k) OR r` with r < 2^k keeps h above k bits and r in them |
| Indexer.AppendValue | c_src/hilbert.c:202 | appending r < 2^k is h * 2^k + r |
| Indexer.Step | c_src/hilbert.c:193-207 | one level keeps d below n, since the new d is `(d + direction + 1) % n` |
| Indexer.Done | c_src/hilbert.c:193-207 | d stays below n after every level |
| Indexer.DoneStep | c_src/hilbert.c:193-207 | each level is one step on the state the levels above it leave |
| Indexer.Precision | c_src/hilbert.c:184 | the number of levels m = max(ms), none when m <= 0 |
| Indexer.Index | c_src/hilbert.c:180-210 | the index of all m levels without a width limit; IndexBound bounds it by 2^M |
| Indexer.BufferSize | c_src/hilbert.c:186 | `bignum_alloc(M / 8)` gives max(M / 8, 4) bytes; IndexFits and FloorSizeDropsBits say when that is enough |
| Indexer.LevelBitsAppend | c_src/hilbert.c:193-203 | an axis of width x takes part in min(max(x, 0), m) levels |
| Indexer.LevelBitsTotal | c_src/hilbert.c:184-203 | over all m levels the bits appended, `parity(mu)` per level, sum to M = sum(ms) |
| Indexer.StepAppends | c_src/hilbert.c:203-204 | level i appends exactly as many bits as there are axes wider than i, below the index so far |
| Indexer.DoneAppendsLevel | c_src/hilbert.c:203-204 | the same, stated on the loop's state after level i |
| Indexer.DoneAppends | c_src/hilbert.c:193-207 | the bits of the upper levels sit above the bits the lower levels append |
| Indexer.IndexBound | c_src/hilbert.c:184-207 | with non-negative widths the index has at most M bits |
| Indexer.IndexFits | c_src/hilbert.c:186 | the `M / 8`-byte buffer holds the whole index when M is a multiple of 8 or at most 32 |
| Indexer.Level | c_src/hilbert.c:194-206 | one level computes k bits of rank r < 2^k, k being the number of axes wider than i, and the next e and d, as `Step` specifies |
| Indexer.Transform | c_src/hilbert.c:199-200 | `w = inverse_gc(rotr(l ^ e, d))` |
| Indexer.MaskedRank | c_src/hilbert.c:194-203 | the mask, `gcr` of w under it, and `parity(mu)`, which equals the number of axes wider than i and bounds the rank |
| Indexer.AppendKept | c_src/hilbert.c:203-204 | shift then OR on the buffer keeps the unbounded index truncated to the buffer's width |
| Indexer.AppendLevel | c_src/hilbert.c:193-207 | one pass of the loop moves e, d and the buffer's value to the state of the next level down |
| Indexer.IndexLevels | c_src/hilbert.c:193-207 | the loop leaves the index of all m levels, truncated to the buffer's width |
| Indexer.Point2Index | c_src/hilbert.c:180-210 | `chi_point2index` returns a buffer of max(4, M / 8) bytes holding the index truncated to that width |
| Indexer.Point2IndexExact | c_src/hilbert.c:186 | that buffer holds the exact index when M is a multiple of 8 or at most 32 |
| Indexer.IndexAtLeast | c_src/hilbert.c:193-204 | a nonzero rank at the top level makes the index at least 2 to the bits the lower levels append |
| Indexer.FloorSizeDropsBits | c_src/hilbert.c:186 | widths (32, 4) and the point (2^31, 0): the 4-byte buffer loses the top bits of the 36-bit index |
| Indexer.ExampleSection | c_src/hilbert.c:195-198 | for the point (2^31, 0) the cross-section at level 31 is 1 |
| Indexer.ExampleRank | c_src/hilbert.c:194-201 | with widths (32, 4) at level 31 only axis 0 is active, and the rank of w = 1 has its low bit set |
| Indexer.FirstLevelOfExample | c_src/hilbert.c:193-204 | level 31 of that point appends a nonzero rank to the empty index |
| Indexer.ExampleTotal | c_src/hilbert.c:185 | widths (32, 4) give M = 36 |
| Indexer.ExampleLevelBits | c_src/hilbert.c:193-203 | levels 30..0 of widths (32, 4) append 35 bits |
| Indexer.AppendLevelCorrected | c_src/hilbert.c:193-207 | one pass of the loop, shifting by any count and reading missing bytes as 0, moves e, d and the buffer to the next level for any shape of input |
| Indexer.IndexLevelsCorrected | c_src/hilbert.c:193-207 | that loop leaves the index of all m levels, truncated to the buffer's width, with no limit on active axes or coordinate lengths |
| Indexer.Point2IndexCorrected | c_src/hilbert.c:180-210 | with ⌈M/8⌉ bytes (at least 4) the buffer holds the exact index for non-negative widths |
| Indexer.IndexFitsRoundedUp | c_src/hilbert.c:186 | every index fits in ⌈M/8⌉ bytes |
| Indexer.NineAxesOverShift | c_src/hilbert.c:203 | nine axes of width 8 make all nine active at levels 7..0, so `parity(mu)` is 9 and `bignum_shift_left` gets a shift over 8 |
| Indexer.ShortAxisReadsPastEnd | c_src/hilbert.c:196-197 | coordinates of 1 and 2 bytes with widths (8, 16) give m = 16, and level 15 reads byte 1 of the 1-byte coordinate |

## Left out

- The Erlang NIF layer (term decoding, binary construction, the function table) is foreign runtime glue, and it is not modelled.
- The minunit test runner is not modelled. Its assertions appear as example lemmas.
- The printing helpers `print_bytes`, `print_bits`, `bignum_print` and `bignum_print_bits` only produce output, and they are not modelled.
- `bignum_free` and the allocation mechanics are not modelled, because the class owns its array. This includes the struct allocated with `size` bytes at `c_src/bignum.c:14`.
- `c_src/bignum.h` is not part of this model. It declares the struct and prototypes only.
- The `floor` on a double in `entry` is modelled as integer division. It acts on an already integral unsigned quotient.
- Masks.Sum: does not model `int` overflow of the C accumulator.
- Indexer.BufferSize: for negative M, C's division truncates toward zero and Dafny's does not. Both quotients are below 4, so the size is 4 either way.
- Primitives.Rotl, Primitives.Rotr: a shift of 0 is the identity. In C it is a shift by 32, which is undefined and happens on the first level, where d = 0.
- Bignum.Bignum.ShiftLeft: requires n <= 8. A larger shift gives C a negative shift count.
- Indexer.BitshiftLeft: requires n <= 8, for the same reason.
- Indexer.Point2Index: requires 1 to 32 axes, one coordinate per axis, and at most 8 axes wider than 0. This keeps every shift count within the words, and `parity(mu)` within the 8-bit shift of `bignum_shift_left`; see "## Findings" for the case of more axes, and `Point2IndexCorrected` for a chain without the limit.
- Indexer.Point2Index: requires every coordinate to hold at least ⌈m/8⌉ bytes. The C loop reads bit i of every axis, even axes narrower than i, and would read out of bounds otherwise; see "## Findings" and `CrossSectionPadded`.
- Indexer.Point2IndexCorrected: requires 1 to 32 axes and one coordinate per axis, because `l` and `mu` are 32-bit words.
- Indexer.CrossSection: `bit_at_char(p[j], i) << j` is an `int` shift, and for j = 31 it reaches the sign bit. The model keeps the 32-bit pattern, which is all `rotr` reads after its conversion to `unsigned int`.
- Bignum.Bignum.ToUint64: requires a buffer of at least 8 bytes, since the C read would otherwise go past the buffer.
- Bignum.Bignum.SetBit: requires pos < 8 * size, since C would otherwise write past the buffer.
- Whether the index has the locality of a Hilbert curve is not modelled, and neither is whether it agrees with the published algorithm. The code promises neither.

## Findings

| source | as written | input that shows it | evidently intended | confidence | as-written member | corrected member |
|---|---|---|---|---|---|---|
| c_src/hilbert.c:186 | `bignum_alloc(M/8)` rounds the byte count down | widths (32, 4) and the point (2^31, 0): M = 36, so the buffer gets 4 bytes (32 bits), but the 36-bit index has a set bit at position 35 or above, which the shifts push out. The Erlang entry point passes widths of `point.size * 8` (`c_src/hilbert.c:341`), so M is a multiple of 8 there and the defect stays latent through it | a buffer of ⌈M/8⌉ bytes, at least 4: M is computed only to size the buffer, and the loop appends exactly M bits | not executed | Indexer.FloorSizeDropsBits | Indexer.Point2IndexCorrected |
| c_src/hilbert.c:203 | `bignum_shift_left(big_h, parity(mu))`, whose carry `>> (8 - n)` (`c_src/bignum.c:34`) has a negative shift count once more than 8 axes are active | nine one-byte coordinates with widths 8 each: at levels 7..0 all nine axes are active and `parity(mu)` is 9 | a shift of the index by any number of bits | not executed | Indexer.NineAxesOverShift | Bignum.Bignum.ShiftLeftBy |
| c_src/hilbert.c:196-197 | `bit_at_char(p[j], i)` for every axis at every level below m = max(ms) | coordinates of 1 and 2 bytes with widths (8, 16): m = 16, and level 15 reads byte 1 of the 1-byte coordinate, past its end | bits past a coordinate's last byte read as 0 | not executed | Indexer.ShortAxisReadsPastEnd | Indexer.CrossSectionPadded |
