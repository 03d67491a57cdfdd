/** Word-level primitives of the compact Hilbert index: single-bit extraction,
    32-bit rotations, the reflected Gray code and its inverse, set-bit counts,
    and the `entry` and `direction` functions of the curve's state machine.

    Every word is an `unsigned int` (`Word`, below 2^32); the C operators are
    those of `BitOps`. Where the C code loops (`inverse_gc`, `parity`, `tsb`)
    the model has a method with the same loop, proved against a function that
    the rest of the model reasons with.
 */
module Primitives {
  import opened BitOps

  // ---------------------------------------------------------------------------
  // bit_at_int, bit_at_char

  /** `(x & (1 << i)) >> i` is bit i of x, as 0 or 1. */
  lemma SelectBit(x: nat, i: nat)
    ensures Shr(And(x, Shl(1, i)), i) == if Bit(x, i) then 1 else 0
  {
    var r := if Bit(x, i) then 1 else 0;
    forall k: nat ensures Bit(Shr(And(x, Shl(1, i)), i), k) == Bit(r, k) {
      BitShr(And(x, Shl(1, i)), i, k);
      BitAnd(x, Shl(1, i), i + k);
      BitShl(1, i, i + k);
      BitsOfOne(k);
      BitZero(k);
    }
    BitsEqual(Shr(And(x, Shl(1, i)), i), r);
  }

  /** `bit_at_int(b, i)`: bit i of a word, for a shift count the C shift allows. */
  function BitAtInt(b: Word, i: nat): (r: nat)
    requires i < 32
    ensures r == if Bit(b, i) then 1 else 0
  {
    SelectBit(b, i);
    Shr(And(b, Shl(1, i)), i)
  }

  /** `bit_at_char(b, i)`: bit i of a byte buffer, read as bit `i % 8` of byte `i / 8`;
      this is bit i of the buffer's little-endian value. */
  function BitAtChar(b: seq<Byte>, i: nat): (r: nat)
    requires i / 8 < |b|
    ensures r == if Bit(b[i / 8], i % 8) then 1 else 0
    ensures r == if Bit(LeValue(b), i) then 1 else 0
  {
    var bitOffset := if i >= 8 then i % 8 else i;
    SelectBit(b[i / 8], bitOffset);
    BitOfLeValue(b, i);
    Shr(And(b[i / 8], Shl(1, bitOffset)), bitOffset)
  }

  /** The `bit_at_char` test: a zeroed 16-byte buffer with bytes 0, 1 and 15 set. */
  lemma BitAtCharExamples(b: seq<Byte>)
    requires |b| == 16 && b[0] == 0xAA && b[1] == 0x02 && b[2] == 0 && b[15] == 0x40
    ensures BitAtChar(b, 0) == 0 && BitAtChar(b, 1) == 1 && BitAtChar(b, 7) == 1
    ensures BitAtChar(b, 8) == 0 && BitAtChar(b, 9) == 1 && BitAtChar(b, 10) == 0
  {
  }

  // ---------------------------------------------------------------------------
  // rotl, rotr

  /** `rotl(value, shift)`. A shift of 0 is the identity: the C expression would
      shift by 32 there, which C leaves undefined. */
  function Rotl(value: Word, shift: nat): Word
    requires shift < 32
  {
    if shift == 0 then value else OrW(ShlW(value, shift), ShrW(value, 32 - shift))
  }

  /** `rotr(value, shift)`, with a shift of 0 the identity as for `Rotl`. */
  function Rotr(value: Word, shift: nat): Word
    requires shift < 32
  {
    if shift == 0 then value else OrW(ShrW(value, shift), ShlW(value, 32 - shift))
  }

  /** `rotl` before the shift amount is reduced: the two halves of the OR. */
  lemma RotlHalves(v: Word, s: nat, k: nat)
    requires 0 < s < 32 && k < 32
    ensures Bit(Rotl(v, s), k) == ((k >= s && Bit(v, k - s)) || Bit(v, 32 - s + k))
  {
    BitOr(Trunc(Shl(v, s), 32), Shr(v, 32 - s), k);
    BitTrunc(Shl(v, s), 32, k);
    BitShl(v, s, k);
    BitShr(v, 32 - s, k);
  }

  /** `rotr` before the shift amount is reduced: the two halves of the OR. */
  lemma RotrHalves(v: Word, s: nat, k: nat)
    requires 0 < s < 32 && k < 32
    ensures Bit(Rotr(v, s), k) == (Bit(v, s + k) || (k >= 32 - s && Bit(v, k - (32 - s))))
  {
    BitOr(Shr(v, s), Trunc(Shl(v, 32 - s), 32), k);
    BitTrunc(Shl(v, 32 - s), 32, k);
    BitShl(v, 32 - s, k);
    BitShr(v, s, k);
  }

  /** Reduction modulo 32 of a bit position below 64. */
  lemma Mod32(a: nat)
    requires a < 64
    ensures a % 32 == if a < 32 then a else a - 32
  {
    if a < 32 {
      ModUnique(a, 0, a, 32);
    } else {
      ModUnique(a, 1, a - 32, 32);
    }
  }

  /** Rotating left by s moves bit k - s (mod 32) to position k. */
  lemma RotlBit(v: Word, s: nat, k: nat)
    requires s < 32 && k < 32
    ensures Bit(Rotl(v, s), k) == Bit(v, (k + 32 - s) % 32)
  {
    Mod32(k + 32 - s);
    if s > 0 {
      RotlHalves(v, s, k);
      if k >= s {
        WordBitAbove(v, 32 - s + k);
      }
    }
  }

  /** Rotating right by s moves bit k + s (mod 32) to position k. */
  lemma RotrBit(v: Word, s: nat, k: nat)
    requires s < 32 && k < 32
    ensures Bit(Rotr(v, s), k) == Bit(v, (k + s) % 32)
  {
    Mod32(k + s);
    if s > 0 {
      RotrHalves(v, s, k);
      if k + s >= 32 {
        WordBitAbove(v, s + k);
      }
    }
  }

  /** A right rotation undoes a left rotation by the same amount, and conversely. */
  lemma RotationRoundTrip(v: Word, s: nat)
    requires s < 32
    ensures Rotr(Rotl(v, s), s) == v
    ensures Rotl(Rotr(v, s), s) == v
  {
    Pow2Word();
    forall k: nat | k < 32
      ensures Bit(Rotr(Rotl(v, s), s), k) == Bit(v, k)
      ensures Bit(Rotl(Rotr(v, s), s), k) == Bit(v, k)
    {
      var up := (k + s) % 32;
      var down := (k + 32 - s) % 32;
      Mod32(k + s);
      Mod32(k + 32 - s);
      Mod32(up + 32 - s);
      Mod32(down + s);
      RotrBit(Rotl(v, s), s, k);
      RotlBit(v, s, up);
      RotlBit(Rotr(v, s), s, k);
      RotrBit(v, s, down);
    }
    LowBitsEqual(Rotr(Rotl(v, s), s), v, 32);
    LowBitsEqual(Rotl(Rotr(v, s), s), v, 32);
  }

  /** The bits of `(v >> s) + 2^(32 - s) * (v mod 2^s)`: the arithmetic form of a rotation. */
  lemma RotatedBits(v: Word, s: nat, k: nat)
    requires s <= 32
    ensures Shr(v, s) < Pow2(32 - s)
    ensures Bit(Shr(v, s) + Pow2(32 - s) * Trunc(v, s), k)
         == if k < 32 - s then Bit(v, s + k) else k < 32 && Bit(v, k - (32 - s))
  {
    forall j: nat | j >= 32 - s ensures !Bit(Shr(v, s), j) {
      BitShr(v, s, j);
      WordBitAbove(v, s + j);
    }
    BoundFromBits(Shr(v, s), 32 - s);
    BitSplit(Shr(v, s), Trunc(v, s), 32 - s, k);
    if k < 32 - s {
      BitShr(v, s, k);
    } else {
      BitTrunc(v, s, k - (32 - s));
    }
  }

  /** `rotr` as arithmetic: the low s bits move to the top. */
  lemma RotrValue(v: Word, s: nat)
    requires s < 32
    ensures Rotr(v, s) == Shr(v, s) + Pow2(32 - s) * Trunc(v, s)
  {
    var x := Shr(v, s) + Pow2(32 - s) * Trunc(v, s);
    forall k: nat ensures Bit(Rotr(v, s), k) == Bit(x, k) {
      RotatedBits(v, s, k);
      if k < 32 {
        RotrBit(v, s, k);
        Mod32(k + s);
      } else {
        WordBitAbove(Rotr(v, s), k);
      }
    }
    BitsEqual(Rotr(v, s), x);
  }

  /** `rotl` as arithmetic: the high s bits move to the bottom. */
  lemma RotlValue(v: Word, s: nat)
    requires s < 32
    ensures Rotl(v, s) == Shr(v, 32 - s) + Pow2(s) * Trunc(v, 32 - s)
  {
    var x := Shr(v, 32 - s) + Pow2(s) * Trunc(v, 32 - s);
    forall k: nat ensures Bit(Rotl(v, s), k) == Bit(x, k) {
      RotatedBits(v, 32 - s, k);
      if k < 32 {
        RotlBit(v, s, k);
        Mod32(k + 32 - s);
      } else {
        WordBitAbove(Rotl(v, s), k);
      }
    }
    BitsEqual(Rotl(v, s), x);
  }

  lemma Pow2Of31()
    ensures Pow2(31) == 2147483648
  {
    Pow2Word();
  }

  /** A rotation's result, once its arithmetic form has been evaluated. */
  lemma RotrIs(v: Word, s: nat, x: nat)
    requires s < 32 && x == Shr(v, s) + Pow2(32 - s) * Trunc(v, s)
    ensures Rotr(v, s) == x
  {
    RotrValue(v, s);
  }

  lemma RotlIs(v: Word, s: nat, x: nat)
    requires s < 32 && x == Shr(v, 32 - s) + Pow2(s) * Trunc(v, 32 - s)
    ensures Rotl(v, s) == x
  {
    RotlValue(v, s);
  }

  lemma RotrExample1()
    ensures Rotr(4, 1) == 2
  {
    RotrIs(4, 1, 2);
  }

  lemma RotrExample2()
    ensures Rotr(4, 2) == 1
  {
    RotrIs(4, 2, 1);
  }

  lemma RotrExample3()
    ensures Rotr(1, 1) == 2147483648
  {
    Pow2Of31();
    RotrIs(1, 1, 2147483648);
  }

  lemma RotlExample()
    ensures Rotl(20, 2) == 80
  {
    Pow2Monotone(5, 30);
    ShrAll(20, 5, 30);
    TruncSmall(20, 30);
    RotlIs(20, 2, 80);
  }

  // ---------------------------------------------------------------------------
  // gc, inverse_gc

  /** `gc(i)`: the reflected binary Gray code of i. */
  function Gc(i: Word): Word
  {
    XorW(i, ShrW(i, 1))
  }

  /** Bit k of a Gray code says whether bits k and k + 1 of the number differ. */
  lemma GcBit(i: Word, k: nat)
    ensures Bit(Gc(i), k) == (Bit(i, k) != Bit(i, k + 1))
  {
    BitXor(i, Shr(i, 1), k);
    BitShr(i, 1, k);
  }

  /** The XOR of `g >> 0`, ..., `g >> (j - 1)`: the value of `inverse_gc`'s
      accumulator once its loop counter has reached j. */
  function PrefixFold(g: Word, j: nat): Word
  {
    if j == 0 then 0 else XorW(PrefixFold(g, j - 1), ShrW(g, j - 1))
  }

  /** The Gray code of the partial fold telescopes to `g ^ (g >> j)`. */
  lemma {:induction false} GcOfPrefixFold(g: Word, j: nat)
    ensures Gc(PrefixFold(g, j)) == Xor(g, Shr(g, j))
  {
    var p := PrefixFold(g, j);
    forall k: nat ensures Bit(Gc(p), k) == Bit(Xor(g, Shr(g, j)), k) {
      GcBit(p, k);
      BitXor(g, Shr(g, j), k);
      BitShr(g, j, k);
      if j == 0 {
        BitZero(k);
        BitZero(k + 1);
      } else {
        var q := PrefixFold(g, j - 1);
        GcOfPrefixFold(g, j - 1);
        GcBit(q, k);
        BitXor(g, Shr(g, j - 1), k);
        BitShr(g, j - 1, k);
        BitXor(q, Shr(g, j - 1), k);
        BitXor(q, Shr(g, j - 1), k + 1);
        BitShr(g, j - 1, k + 1);
      }
    }
    BitsEqual(Gc(p), Xor(g, Shr(g, j)));
  }

  /** A word XOR-ed with a word whose Gray code is `g >> 1` has Gray code g. */
  lemma GcOfXorShift(g: Word, q: Word)
    requires Gc(q) == Shr(g, 1)
    ensures Gc(XorW(g, q)) == g
  {
    var x := XorW(g, q);
    forall k: nat ensures Bit(Gc(x), k) == Bit(g, k) {
      GcBit(x, k);
      GcBit(q, k);
      BitXor(g, q, k);
      BitXor(g, q, k + 1);
      BitShr(g, 1, k);
    }
    BitsEqual(Gc(x), g);
  }

  /** The inverse Gray code: g XOR the inverse code of `g >> 1`, so that bit k
      is the parity of bits k..31 of g. */
  function InverseGray(g: Word): (r: Word)
    ensures Gc(r) == g
    decreases g
  {
    if g == 0 then
      assert Shr(0, 1) == 0;
      XorZero(0);
      0
    else
      var h := ShrW(g, 1);
      assert Shr(g, 1) == Shr(g / 2, 0) == g / 2;
      GcOfXorShift(g, InverseGray(h));
      XorW(g, InverseGray(h))
  }

  /** `inverse_gc(g)`: XOR-folds `g >> j` into the accumulator for j = 1..31. */
  method InverseGc(g: Word) returns (i: Word)
    ensures Gc(i) == g
    ensures i == InverseGray(g)
  {
    XorZero(g);
    i := g;
    var j := 1;
    while j < 32
      invariant 1 <= j <= 32
      invariant i == PrefixFold(g, j)
    {
      i := XorW(i, ShrW(g, j));
      j := j + 1;
    }
    GcOfPrefixFold(g, 32);
    Pow2Word();
    ShrAll(g, 32, 32);
    XorZero(g);
    InverseGrayOf(g, i);
  }

  /** Two words with the same Gray code agree on every bit k below 32: the
      proof recovers the bits from bit 31 down, each from the one above it. */
  lemma {:induction false} GcDeterminesBit(a: Word, b: Word, k: nat)
    requires Gc(a) == Gc(b) && k < 32
    ensures Bit(a, k) == Bit(b, k)
    decreases 32 - k
  {
    GcBit(a, k);
    GcBit(b, k);
    if k == 31 {
      WordBitAbove(a, 32);
      WordBitAbove(b, 32);
    } else {
      GcDeterminesBit(a, b, k + 1);
    }
  }

  lemma GcInjective(a: Word, b: Word)
    requires Gc(a) == Gc(b)
    ensures a == b
  {
    Pow2Word();
    forall k: nat | k < 32 ensures Bit(a, k) == Bit(b, k) {
      GcDeterminesBit(a, b, k);
    }
    LowBitsEqual(a, b, 32);
  }

  /** `inverse_gc(gc(x)) == x` and `gc(inverse_gc(g)) == g`. */
  lemma GrayRoundTrip(x: Word)
    ensures InverseGray(Gc(x)) == x
    ensures Gc(InverseGray(x)) == x
  {
    GcInjective(InverseGray(Gc(x)), x);
  }

  /** The inverse Gray code of g is the one word whose Gray code is g. */
  lemma InverseGrayOf(g: Word, x: Word)
    requires Gc(x) == g
    ensures InverseGray(g) == x
  {
    GrayRoundTrip(x);
  }

  lemma GcExamples()
    ensures Gc(6) == 5 && Gc(7) == 4 && Gc(15) == 8
  {
  }

  lemma InverseGrayExamples()
    ensures InverseGray(5) == 6 && InverseGray(4) == 7
    ensures InverseGray(8) == 15 && InverseGray(1) == 1
  {
    InverseGrayOf(5, 6);
    InverseGrayOf(4, 7);
    InverseGrayOf(8, 15);
    XorZero(1);
    InverseGrayOf(1, 1);
  }

  // ---------------------------------------------------------------------------
  // parity, tsb, g

  /** The number of set bits of x at positions lo..hi-1. */
  function Ones(x: nat, lo: nat, hi: nat): (r: nat)
    ensures lo <= hi ==> r <= hi - lo
    decreases x, hi - lo
  {
    if hi <= lo then 0 else (if Bit(x, lo) then 1 else 0) + Ones(x, lo + 1, hi)
  }

  /** The number of set bits of a word. */
  function Popcount(x: Word): (r: nat)
    ensures r <= 32
  {
    Ones(x, 0, 32)
  }

  /** The positions lo..hi-1 at which x has a set bit. */
  function SetBits(x: nat, lo: nat, hi: nat): set<nat>
  {
    set k: nat | lo <= k < hi && Bit(x, k)
  }

  /** `Ones` is the size of the set of set-bit positions. */
  lemma {:induction false} OnesCardinality(x: nat, lo: nat, hi: nat)
    ensures Ones(x, lo, hi) == |SetBits(x, lo, hi)|
    decreases hi - lo
  {
    if hi <= lo {
      assert SetBits(x, lo, hi) == {};
    } else {
      OnesCardinality(x, lo + 1, hi);
      if Bit(x, lo) {
        assert SetBits(x, lo, hi) == SetBits(x, lo + 1, hi) + {lo};
      } else {
        assert SetBits(x, lo, hi) == SetBits(x, lo + 1, hi);
      }
    }
  }

  lemma {:induction false} OnesSplit(x: nat, lo: nat, mid: nat, hi: nat)
    requires lo <= mid <= hi
    ensures Ones(x, lo, hi) == Ones(x, lo, mid) + Ones(x, mid, hi)
    decreases mid - lo
  {
    if lo < mid {
      OnesSplit(x, lo + 1, mid, hi);
    }
  }

  /** Appending position hi to the counted range adds its bit. */
  lemma OnesExtend(x: nat, lo: nat, hi: nat)
    requires lo <= hi
    ensures Ones(x, lo, hi + 1) == Ones(x, lo, hi) + (if Bit(x, hi) then 1 else 0)
  {
    OnesSplit(x, lo, hi, hi + 1);
  }

  /** A range with no set bit counts zero. */
  lemma {:induction false} OnesNone(x: nat, lo: nat, hi: nat)
    requires forall k: nat :: lo <= k < hi ==> !Bit(x, k)
    ensures Ones(x, lo, hi) == 0
    decreases hi - lo
  {
    if lo < hi { OnesNone(x, lo + 1, hi); }
  }

  /** A range of set bits counts its length. */
  lemma {:induction false} OnesAll(x: nat, lo: nat, hi: nat)
    requires lo <= hi
    requires forall k: nat :: lo <= k < hi ==> Bit(x, k)
    ensures Ones(x, lo, hi) == hi - lo
    decreases hi - lo
  {
    if lo < hi { OnesAll(x, lo + 1, hi); }
  }

  /** The bits of a number below 2^w all lie below w. */
  lemma PopcountNarrow(x: Word, w: nat)
    requires w <= 32 && x < Pow2(w)
    ensures Popcount(x) == Ones(x, 0, w)
    ensures Popcount(x) <= w
  {
    OnesSplit(x, 0, w, 32);
    forall k: nat | w <= k < 32 ensures !Bit(x, k) { BitAboveWidth(x, w, k); }
    OnesNone(x, w, 32);
  }

  /** `parity(mu)`: counts the set bits of mu, examining bits 0..31 in turn. */
  method Parity(mu: Word) returns (s: nat)
    ensures s == Popcount(mu)
  {
    s := 0;
    for i := 0 to 32
      invariant s == Ones(mu, 0, i)
    {
      OnesExtend(mu, 0, i);
      var b := BitAtInt(mu, i);
      if b == 1 {
        s := s + 1;
      }
    }
  }

  /** `tsb(i)`: the same count as `parity`, by its own loop. */
  method Tsb(i: Word) returns (c: nat)
    ensures c == Popcount(i)
  {
    c := 0;
    for j := 0 to 32
      invariant c == Ones(i, 0, j)
    {
      OnesExtend(i, 0, j);
      var b := BitAtInt(i, j);
      if b == 1 {
        c := c + 1;
      }
    }
  }

  /** `g(i)` */
  method G(i: Word) returns (r: nat)
    ensures r == Popcount(i)
  {
    r := Tsb(i);
  }

  /** The `parity` tests. */
  lemma ParityExamples()
    ensures Popcount(0) == 0 && Popcount(8) == 1
    ensures Popcount(WORD_MOD - 1) == 32
  {
    forall k: nat ensures !Bit(0, k) { BitZero(k); }
    OnesNone(0, 0, 32);
    PopcountNarrow(8, 4);
    Pow2Word();
    var ones := WORD_MOD - 1;
    forall k: nat | k < 32 ensures Bit(ones, k) { AllOnes(32, k); }
    OnesAll(ones, 0, 32);
  }

  /** The `tsb` tests. */
  lemma TsbExamples()
    ensures Popcount(15) == 4 && Popcount(143) == 5
  {
    PopcountNarrow(15, 4);
    PopcountNarrow(143, 8);
    assert Ones(143, 4, 8) == 1 by {
      assert Bit(143, 7) && !Bit(143, 6) && !Bit(143, 5) && !Bit(143, 4);
    }
    assert Ones(143, 0, 4) == 4 by {
      assert Bit(143, 0) && Bit(143, 1) && Bit(143, 2) && Bit(143, 3);
    }
    OnesSplit(143, 0, 4, 8);
  }

  // ---------------------------------------------------------------------------
  // entry, direction

  /** `entry(i)`: 0 for i = 0, else the Gray code of `2 * ((i - 1) / 2)` in
      unsigned arithmetic (the `floor` of the source acts on an integral value). */
  function Entry(i: Word): Word
  {
    if i == 0 then 0 else Gc(2 * ((i - 1) / 2))
  }

  /** For i > 0, `entry(i)` is the Gray code of the greatest even number below i. */
  lemma EntryIsGrayOfEvenBelow(i: Word)
    requires i > 0
    ensures InverseGray(Entry(i)) % 2 == 0
    ensures InverseGray(Entry(i)) < i <= InverseGray(Entry(i)) + 2
  {
    var q := (i - 1) / 2;
    var x := 2 * q;
    assert x <= i - 1 <= x + 1 && x % 2 == 0 by {
      assert i - 1 == 2 * q + (i - 1) % 2;
    }
    assert Entry(i) == Gc(x);
    GrayRoundTrip(x);
    assert InverseGray(Entry(i)) == x;
  }

  /** The Gray code of a run of ones from bit a to bit 31 has bits a - 1 and 31. */
  lemma GcOfTopRun(a: nat)
    requires 1 <= a < 32
    ensures Pow2(a) <= WORD_MOD
    ensures Gc(WORD_MOD - Pow2(a)) == Pow2(a - 1) + Pow2(31)
  {
    Pow2Word();
    RunBits(32, a, 0);
    Pow2Monotone(a, 31);
    var x := Gc(WORD_MOD - Pow2(a));
    var y := Pow2(a - 1) + Pow2(31) * 1;
    forall k: nat ensures Bit(x, k) == Bit(y, k) {
      GcOfTopRunBit(a, k);
    }
    BitsEqual(x, y);
  }

  /** One bit of `GcOfTopRun`. */
  lemma GcOfTopRunBit(a: nat, k: nat)
    requires 1 <= a < 32
    ensures Pow2(a) <= WORD_MOD
    ensures Bit(Gc(WORD_MOD - Pow2(a)), k) == Bit(Pow2(a - 1) + Pow2(31) * 1, k)
  {
    Pow2Word();
    RunBits(32, a, 0);
    Pow2Monotone(a, 31);
    GcBit(WORD_MOD - Pow2(a), k);
    RunBits(32, a, k);
    RunBits(32, a, k + 1);
    BitSplit(Pow2(a - 1), 1, 31, k);
    if k < 31 {
      PowBit(a - 1, k);
    } else {
      BitsOfOne(k - 31);
    }
  }

  /** `entry` of the small cells. */
  lemma EntryExamples()
    ensures Entry(6) == 6 && Entry(2) == 0 && Entry(4) == 3 && Entry(0) == 0
  {
  }

  /** `entry` of the cells just below 2^32. */
  lemma EntryOfTopCells()
    ensures Entry(WORD_MOD - 2) == 2147483650
    ensures Entry(WORD_MOD - 6) == 2147483652
  {
    Pow2Of31();
    assert Entry(WORD_MOD - 2) == Gc(WORD_MOD - Pow2(2));
    GcOfTopRun(2);
    assert Entry(WORD_MOD - 6) == Gc(WORD_MOD - Pow2(3));
    GcOfTopRun(3);
  }

  /** `direction(i, n)`: the axis the curve leaves sub-cube i along. `g` counts
      set bits, so this is the popcount of the greatest odd number <= i, mod n. */
  function Direction(i: Word, n: nat): (r: nat)
    requires n >= 1
    ensures r < n
    ensures i == 0 ==> r == 0
  {
    if i == 0 then 0
    else if i % 2 == 0 then Popcount(i - 1) % n
    else Popcount(i) % n
  }
}
