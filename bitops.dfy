/** Unsigned machine integers and the C bit operators on them.

    A C `unsigned int` is modelled as a `Word` (a natural number below 2^32), an
    `unsigned char` / `uint8_t` as a `Byte`. The operators `^`, `|`, `&`, `>>`, `<<`
    are defined bit by bit on naturals; `<<` never loses bits by itself, so a C
    shift of a fixed-width value is written `Trunc(Shl(x, k), width)`. Every
    operator is characterised by what it does to `Bit(x, k)`, and two numbers with
    the same bits are equal (`BitsEqual`); the other modules reason through these
    facts only.
 */
module BitOps {

  function Pow2(k: nat): (r: nat)
    ensures r >= 1
  {
    if k == 0 then 1 else 2 * Pow2(k - 1)
  }

  const WORD_MOD: nat := 0x1_0000_0000

  /** `unsigned int` */
  type Word = x: nat | x < 0x1_0000_0000
  /** `unsigned char`, `uint8_t` */
  type Byte = x: nat | x < 0x100

  /** Bit `k` of `x`, bit 0 being the least significant. */
  predicate Bit(x: nat, k: nat)
  {
    if k == 0 then x % 2 == 1 else Bit(x / 2, k - 1)
  }

  /** `a ^ b` */
  function Xor(a: nat, b: nat): nat
    decreases a + b
  {
    if a == 0 && b == 0 then 0
    else (if a % 2 != b % 2 then 1 else 0) + 2 * Xor(a / 2, b / 2)
  }

  /** `a | b` */
  function Or(a: nat, b: nat): nat
    decreases a + b
  {
    if a == 0 && b == 0 then 0
    else (if a % 2 == 1 || b % 2 == 1 then 1 else 0) + 2 * Or(a / 2, b / 2)
  }

  /** `a & b` */
  function And(a: nat, b: nat): nat
    decreases a + b
  {
    if a == 0 || b == 0 then 0
    else (if a % 2 == 1 && b % 2 == 1 then 1 else 0) + 2 * And(a / 2, b / 2)
  }

  /** `a >> k` (logical shift right) */
  function Shr(a: nat, k: nat): nat
  {
    if k == 0 then a else Shr(a / 2, k - 1)
  }

  /** `a << k` without loss of bits */
  function Shl(a: nat, k: nat): nat
  {
    if k == 0 then a else 2 * Shl(a, k - 1)
  }

  /** The low `w` bits of `a`, i.e. `a mod 2^w`: what a `w`-bit variable keeps. */
  function Trunc(a: nat, w: nat): nat
  {
    if w == 0 then 0 else a % 2 + 2 * Trunc(a / 2, w - 1)
  }

  // ---------------------------------------------------------------------------
  // Bit-level characterisation of every operator

  lemma BitOfEvenPlus(x: nat, c: nat, k: nat)
    requires c <= 1
    ensures Bit(c + 2 * x, k) == if k == 0 then c == 1 else Bit(x, k - 1)
  {
    assert (c + 2 * x) / 2 == x;
  }

  lemma {:induction false} BitZero(k: nat)
    ensures !Bit(0, k)
  {
    if k > 0 { BitZero(k - 1); }
  }

  lemma {:induction false} BitXor(a: nat, b: nat, k: nat)
    ensures Bit(Xor(a, b), k) == (Bit(a, k) != Bit(b, k))
    decreases a + b
  {
    if a == 0 && b == 0 {
      BitZero(k);
    } else {
      BitOfEvenPlus(Xor(a / 2, b / 2), if a % 2 != b % 2 then 1 else 0, k);
      if k > 0 { BitXor(a / 2, b / 2, k - 1); }
    }
  }

  lemma {:induction false} BitOr(a: nat, b: nat, k: nat)
    ensures Bit(Or(a, b), k) == (Bit(a, k) || Bit(b, k))
    decreases a + b
  {
    if a == 0 && b == 0 {
      BitZero(k);
    } else {
      BitOfEvenPlus(Or(a / 2, b / 2), if a % 2 == 1 || b % 2 == 1 then 1 else 0, k);
      if k > 0 { BitOr(a / 2, b / 2, k - 1); }
    }
  }

  lemma {:induction false} BitAnd(a: nat, b: nat, k: nat)
    ensures Bit(And(a, b), k) == (Bit(a, k) && Bit(b, k))
    decreases a + b
  {
    if a == 0 || b == 0 {
      BitZero(k);
    } else {
      BitOfEvenPlus(And(a / 2, b / 2), if a % 2 == 1 && b % 2 == 1 then 1 else 0, k);
      if k > 0 { BitAnd(a / 2, b / 2, k - 1); }
    }
  }

  lemma {:induction false} BitShr(a: nat, s: nat, k: nat)
    ensures Bit(Shr(a, s), k) == Bit(a, s + k)
  {
    if s > 0 { BitShr(a / 2, s - 1, k); }
  }

  lemma {:induction false} BitShl(a: nat, s: nat, k: nat)
    ensures Bit(Shl(a, s), k) == (k >= s && Bit(a, k - s))
  {
    if s > 0 {
      BitOfEvenPlus(Shl(a, s - 1), 0, k);
      if k > 0 { BitShl(a, s - 1, k - 1); }
    }
  }

  lemma {:induction false} BitTrunc(a: nat, w: nat, k: nat)
    ensures Bit(Trunc(a, w), k) == (k < w && Bit(a, k))
  {
    if w == 0 {
      BitZero(k);
    } else {
      BitOfEvenPlus(Trunc(a / 2, w - 1), a % 2, k);
      if k > 0 { BitTrunc(a / 2, w - 1, k - 1); }
    }
  }

  // ---------------------------------------------------------------------------
  // Extensionality and bounds

  /** Two numbers with the same bits are equal. */
  lemma {:induction false} BitsEqual(a: nat, b: nat)
    requires forall k: nat :: Bit(a, k) == Bit(b, k)
    ensures a == b
    decreases a + b
  {
    assert Bit(a, 0) == Bit(b, 0);
    if a != 0 || b != 0 {
      forall k: nat ensures Bit(a / 2, k) == Bit(b / 2, k) {
        assert Bit(a, k + 1) == Bit(b, k + 1);
      }
      BitsEqual(a / 2, b / 2);
    }
  }

  /** A number below 2^w has no bit at or above position w. */
  lemma {:induction false} BitAboveWidth(x: nat, w: nat, k: nat)
    requires x < Pow2(w) && k >= w
    ensures !Bit(x, k)
  {
    if w == 0 {
      assert x == 0;
      BitZero(k);
    } else if k > 0 {
      BitAboveWidth(x / 2, w - 1, k - 1);
    }
  }

  /** A number with no bit at or above position w is below 2^w. */
  lemma {:induction false} BoundFromBits(x: nat, w: nat)
    requires forall k: nat :: k >= w ==> !Bit(x, k)
    ensures x < Pow2(w)
  {
    if w == 0 {
      forall k: nat ensures Bit(x, k) == Bit(0, k) { BitZero(k); }
      BitsEqual(x, 0);
    } else {
      forall k: nat | k >= w - 1 ensures !Bit(x / 2, k) {
        assert !Bit(x, k + 1);
      }
      BoundFromBits(x / 2, w - 1);
    }
  }

  /** Two numbers below 2^w with the same low w bits are equal. */
  lemma LowBitsEqual(a: nat, b: nat, w: nat)
    requires a < Pow2(w) && b < Pow2(w)
    requires forall k: nat :: k < w ==> Bit(a, k) == Bit(b, k)
    ensures a == b
  {
    forall k: nat ensures Bit(a, k) == Bit(b, k) {
      if k >= w {
        BitAboveWidth(a, w, k);
        BitAboveWidth(b, w, k);
      }
    }
    BitsEqual(a, b);
  }

  lemma XorBound(a: nat, b: nat, w: nat)
    requires a < Pow2(w) && b < Pow2(w)
    ensures Xor(a, b) < Pow2(w)
  {
    forall k: nat | k >= w ensures !Bit(Xor(a, b), k) {
      BitXor(a, b, k);
      BitAboveWidth(a, w, k);
      BitAboveWidth(b, w, k);
    }
    BoundFromBits(Xor(a, b), w);
  }

  lemma OrBound(a: nat, b: nat, w: nat)
    requires a < Pow2(w) && b < Pow2(w)
    ensures Or(a, b) < Pow2(w)
  {
    forall k: nat | k >= w ensures !Bit(Or(a, b), k) {
      BitOr(a, b, k);
      BitAboveWidth(a, w, k);
      BitAboveWidth(b, w, k);
    }
    BoundFromBits(Or(a, b), w);
  }

  lemma {:induction false} TruncBound(a: nat, w: nat)
    ensures Trunc(a, w) < Pow2(w)
  {
    if w > 0 { TruncBound(a / 2, w - 1); }
  }

  lemma {:induction false} ShrBound(a: nat, s: nat, w: nat)
    requires a < Pow2(w)
    ensures Shr(a, s) < Pow2(w)
  {
    if s > 0 {
      if w > 0 {
        ShrBound(a / 2, s - 1, w - 1);
        assert Pow2(w - 1) <= Pow2(w);
      } else {
        ShrBound(a / 2, s - 1, w);
      }
    }
  }

  lemma {:induction false} Pow2Monotone(a: nat, b: nat)
    requires a <= b
    ensures Pow2(a) <= Pow2(b)
  {
    if a < b { Pow2Monotone(a, b - 1); }
  }

  lemma {:induction false} Pow2Add(a: nat, b: nat)
    ensures Pow2(a + b) == Pow2(a) * Pow2(b)
  {
    if b > 0 { Pow2Add(a, b - 1); }
  }

  lemma Pow2Word()
    ensures Pow2(32) == WORD_MOD
  {
    Pow2Add(16, 16);
    assert Pow2(16) == 0x1_0000 by { Pow2Add(8, 8); assert Pow2(8) == 256; }
  }

  /** Shifting left multiplies by a power of two. */
  lemma {:induction false} ShlValue(a: nat, s: nat)
    ensures Shl(a, s) == a * Pow2(s)
  {
    if s > 0 { ShlValue(a, s - 1); }
  }

  /** A value that fits is not changed by truncation. */
  /** Truncating zero to any width gives zero. */
  lemma {:induction false} TruncOfZero(w: nat)
    ensures Trunc(0, w) == 0
  {
    if w > 0 {
      TruncOfZero(w - 1);
    }
  }

  lemma TruncSmall(a: nat, w: nat)
    requires a < Pow2(w)
    ensures Trunc(a, w) == a
  {
    TruncBound(a, w);
    forall k: nat | k < w ensures Bit(Trunc(a, w), k) == Bit(a, k) { BitTrunc(a, w, k); }
    LowBitsEqual(Trunc(a, w), a, w);
  }

  /** OR into bits that are clear is addition. */
  lemma {:induction false} OrDisjoint(a: nat, c: nat, s: nat)
    requires c < Pow2(s)
    ensures Or(a * Pow2(s), c) == a * Pow2(s) + c
  {
    if s == 0 {
      assert c == 0;
      forall k: nat ensures Bit(Or(a, 0), k) == Bit(a, k) { BitOr(a, 0, k); BitZero(k); }
      BitsEqual(Or(a, 0), a);
    } else {
      var y := a * Pow2(s - 1);
      assert a * Pow2(s) == 2 * y;
      OrDisjoint(a, c / 2, s - 1);
      assert (2 * y) / 2 == y && (2 * y) % 2 == 0;
      assert Or(2 * y, c) == c % 2 + 2 * Or(y, c / 2);
    }
  }

  lemma BitsOfOne(k: nat)
    ensures Bit(1, k) == (k == 0)
  {
    BitOfEvenPlus(0, 1, k);
    if k > 0 { BitZero(k - 1); }
  }

  /** `a ^ 0 == a` and `0 ^ a == a` */
  lemma XorZero(a: nat)
    ensures Xor(a, 0) == a && Xor(0, a) == a
  {
    forall k: nat ensures Bit(Xor(a, 0), k) == Bit(a, k) && Bit(Xor(0, a), k) == Bit(a, k) {
      BitXor(a, 0, k);
      BitXor(0, a, k);
      BitZero(k);
    }
    BitsEqual(Xor(a, 0), a);
    BitsEqual(Xor(0, a), a);
  }

  /** Shifting a number below 2^w right by w or more leaves nothing. */
  lemma ShrAll(a: nat, w: nat, s: nat)
    requires a < Pow2(w) && s >= w
    ensures Shr(a, s) == 0
  {
    forall k: nat ensures Bit(Shr(a, s), k) == Bit(0, k) {
      BitShr(a, s, k);
      BitAboveWidth(a, w, s + k);
      BitZero(k);
    }
    BitsEqual(Shr(a, s), 0);
  }

  lemma {:induction false} ShrSucc(a: nat, s: nat)
    ensures Shr(a, s + 1) == Shr(a, s) / 2
  {
    if s > 0 { ShrSucc(a / 2, s - 1); }
  }

  lemma MulAtLeast(x: nat, m: nat)
    requires x >= 1
    ensures x * m >= m
  {
    assert x * m == m + (x - 1) * m;
  }

  /** The remainder is determined by any decomposition `a == q * m + r` with `r < m`. */
  lemma ModUnique(a: nat, q: nat, r: nat, m: nat)
    requires 0 <= r < m && a == q * m + r
    ensures a % m == r && a / m == q
  {
    var q' := a / m;
    var r' := a % m;
    assert a == q' * m + r';
    if q' > q {
      assert (q' - q) * m == r - r';
      MulAtLeast(q' - q, m);
    } else if q' < q {
      assert (q - q') * m == r' - r;
      MulAtLeast(q - q', m);
    }
  }

  /** Dividing by `2p` is halving and then dividing by `p`; the remainder splits likewise. */
  lemma ModDouble(a: nat, p: nat)
    requires p >= 1
    ensures a % (2 * p) == a % 2 + 2 * ((a / 2) % p)
    ensures a / (2 * p) == (a / 2) / p
  {
    var q := (a / 2) / p;
    var r := (a / 2) % p;
    assert a / 2 == q * p + r;
    assert a == q * (2 * p) + (a % 2 + 2 * r);
    ModUnique(a, q, a % 2 + 2 * r, 2 * p);
  }

  /** Truncation to w bits is reduction modulo 2^w. */
  lemma {:induction false} TruncMod(a: nat, w: nat)
    ensures Trunc(a, w) == a % Pow2(w)
  {
    if w > 0 {
      TruncMod(a / 2, w - 1);
      ModDouble(a, Pow2(w - 1));
    }
  }

  /** Two right shifts add up. */
  lemma ShrShr(a: nat, s: nat, t: nat)
    ensures Shr(Shr(a, s), t) == Shr(a, s + t)
  {
    forall k: nat ensures Bit(Shr(Shr(a, s), t), k) == Bit(Shr(a, s + t), k) {
      BitShr(Shr(a, s), t, k);
      BitShr(a, s, t + k);
      BitShr(a, s + t, k);
    }
    BitsEqual(Shr(Shr(a, s), t), Shr(a, s + t));
  }

  /** Shifting right divides by a power of two. */
  lemma {:induction false} ShrValue(a: nat, s: nat)
    ensures Shr(a, s) == a / Pow2(s)
  {
    if s > 0 {
      ShrValue(a / 2, s - 1);
      ModDouble(a, Pow2(s - 1));
    }
  }

  /** Bit k of 2^a is set exactly when k == a. */
  lemma {:induction false} PowBit(a: nat, k: nat)
    ensures Bit(Pow2(a), k) == (k == a)
  {
    if a == 0 {
      BitsOfOne(k);
    } else {
      BitOfEvenPlus(Pow2(a - 1), 0, k);
      if k > 0 { PowBit(a - 1, k - 1); }
    }
  }

  /** The bits of `x + 2^m * y`, for `x < 2^m`, are those of x below m and those of y above. */
  lemma {:induction false} BitSplit(x: nat, y: nat, m: nat, k: nat)
    requires x < Pow2(m)
    ensures Bit(x + Pow2(m) * y, k) == if k < m then Bit(x, k) else Bit(y, k - m)
  {
    if m > 0 {
      var z := x / 2 + Pow2(m - 1) * y;
      assert Pow2(m) * y == 2 * (Pow2(m - 1) * y);
      assert x + Pow2(m) * y == x % 2 + 2 * z;
      BitOfEvenPlus(z, x % 2, k);
      if k > 0 {
        BitSplit(x / 2, y, m - 1, k - 1);
      }
    }
  }

  /** `2^w - 1` has exactly the bits below w. */
  lemma {:induction false} AllOnes(w: nat, k: nat)
    ensures Bit(Pow2(w) - 1, k) == (k < w)
  {
    if w == 0 {
      BitZero(k);
    } else {
      assert Pow2(w) - 1 == 1 + 2 * (Pow2(w - 1) - 1);
      BitOfEvenPlus(Pow2(w - 1) - 1, 1, k);
      if k > 0 { AllOnes(w - 1, k - 1); }
    }
  }

  /** `2^w - 2^a` has exactly the bits from a up to w - 1. */
  lemma {:induction false} RunBits(w: nat, a: nat, k: nat)
    requires a <= w
    ensures Pow2(a) <= Pow2(w)
    ensures Bit(Pow2(w) - Pow2(a), k) == (a <= k < w)
  {
    Pow2Monotone(a, w);
    if a == 0 {
      AllOnes(w, k);
    } else {
      RunBits(w - 1, a - 1, if k == 0 then 0 else k - 1);
      BitOfEvenPlus(Pow2(w - 1) - Pow2(a - 1), 0, k);
    }
  }

  /** `a | 0 == a` and `0 | a == a` */
  lemma OrZero(a: nat)
    ensures Or(a, 0) == a && Or(0, a) == a
  {
    forall k: nat ensures Bit(Or(a, 0), k) == Bit(a, k) && Bit(Or(0, a), k) == Bit(a, k) {
      BitOr(a, 0, k);
      BitOr(0, a, k);
      BitZero(k);
    }
    BitsEqual(Or(a, 0), a);
    BitsEqual(Or(0, a), a);
  }

  /** OR-ing the same value twice is OR-ing it once. */
  lemma OrAgain(a: nat, b: nat)
    ensures Or(Or(a, b), b) == Or(a, b)
  {
    forall k: nat ensures Bit(Or(Or(a, b), b), k) == Bit(Or(a, b), k) {
      BitOr(Or(a, b), b, k);
      BitOr(a, b, k);
    }
    BitsEqual(Or(Or(a, b), b), Or(a, b));
  }

  /** XOR-ing the same value twice restores the original. */
  lemma XorAgain(a: nat, b: nat)
    ensures Xor(Xor(a, b), b) == a
  {
    forall k: nat ensures Bit(Xor(Xor(a, b), b), k) == Bit(a, k) {
      BitXor(Xor(a, b), b, k);
      BitXor(a, b, k);
    }
    BitsEqual(Xor(Xor(a, b), b), a);
  }

  // ---------------------------------------------------------------------------
  // Little-endian byte sequences

  /** The number a little-endian byte sequence denotes: byte 0 is the least significant. */
  function LeValue(s: seq<Byte>): nat
  {
    if |s| == 0 then 0 else s[0] + 256 * LeValue(s[1..])
  }

  lemma Pow2Byte()
    ensures Pow2(8) == 256
  {
  }

  /** Bit q of the value is bit q % 8 of byte q / 8. */
  lemma {:induction false} BitOfLeValue(s: seq<Byte>, q: nat)
    requires q < 8 * |s|
    ensures Bit(LeValue(s), q) == Bit(s[q / 8], q % 8)
  {
    Pow2Byte();
    BitSplit(s[0], LeValue(s[1..]), 8, q);
    if q >= 8 {
      BitOfLeValue(s[1..], q - 8);
    }
  }

  lemma {:induction false} LeValueBound(s: seq<Byte>)
    ensures LeValue(s) < Pow2(8 * |s|)
  {
    if |s| > 0 {
      LeValueBound(s[1..]);
      Pow2Add(8, 8 * (|s| - 1));
      Pow2Byte();
      assert 8 + 8 * (|s| - 1) == 8 * |s|;
      assert LeValue(s) <= 255 + 256 * (Pow2(8 * (|s| - 1)) - 1);
    }
  }

  // ---------------------------------------------------------------------------
  // Word-width results of the operators

  function XorW(a: Word, b: Word): (r: Word)
    ensures r == Xor(a, b)
  {
    Pow2Word();
    XorBound(a, b, 32);
    Xor(a, b)
  }

  function OrW(a: Word, b: Word): (r: Word)
    ensures r == Or(a, b)
  {
    Pow2Word();
    OrBound(a, b, 32);
    Or(a, b)
  }

  /** No bit of a word lies at or above position 32. */
  lemma WordBitAbove(v: Word, k: nat)
    requires k >= 32
    ensures !Bit(v, k)
  {
    Pow2Word();
    BitAboveWidth(v, 32, k);
  }

  function ShrW(a: Word, s: nat): (r: Word)
    ensures r == Shr(a, s)
  {
    Pow2Word();
    ShrBound(a, s, 32);
    Shr(a, s)
  }

  /** `a << s` on an `unsigned int`: the bits shifted past position 31 are lost. */
  function ShlW(a: Word, s: nat): (r: Word)
    ensures r == Trunc(Shl(a, s), 32)
  {
    Pow2Word();
    TruncBound(Shl(a, s), 32);
    Trunc(Shl(a, s), 32)
  }
}
