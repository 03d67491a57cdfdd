/** The fixed-size byte buffer of c_src/bignum.c ("bignum").

    Byte 0 is the least significant: a left shift carries bits from byte k into
    byte k + 1, and the 32-bit and 64-bit loads and stores through `uint32_t *`
    and `uint64_t *` are read as on a little-endian host, where byte k of a word holds
    its bits 8k..8k+7. The value of the buffer is therefore `LeValue(b[..])`.
    Each operation is first specified on `seq<Byte>`, and lemmas state what it
    does to the value; the class then performs it in place on its array.
 */
module Bignum {
  import opened BitOps

  // ---------------------------------------------------------------------------
  // Byte arithmetic

  /** `(uint8_t)(x << n)` */
  function ShlByte(x: Byte, n: nat): Byte
  {
    Pow2Byte();
    TruncBound(Shl(x, n), 8);
    Trunc(Shl(x, n), 8)
  }

  lemma ShlByteBit(x: Byte, n: nat, k: nat)
    ensures Bit(ShlByte(x, n), k) == (n <= k < 8 && Bit(x, k - n))
  {
    BitTrunc(Shl(x, n), 8, k);
    BitShl(x, n, k);
  }

  /** What a byte passes to the next one in a left shift by n: `x >> (8 - n)`. */
  function Carry(x: Byte, n: nat): Byte
    requires n <= 8
  {
    Pow2Byte();
    ShrBound(x, 8 - n, 8);
    Shr(x, 8 - n)
  }

  lemma CarryBit(x: Byte, n: nat, k: nat)
    requires n <= 8
    ensures Bit(Carry(x, n), k) == (k < n && Bit(x, k + 8 - n))
  {
    Pow2Byte();
    BitShr(x, 8 - n, k);
    if k >= n {
      BitAboveWidth(x, 8, k + 8 - n);
    }
  }

  function OrB(a: Byte, b: Byte): (r: Byte)
    ensures r == Or(a, b)
  {
    Pow2Byte();
    OrBound(a, b, 8);
    Or(a, b)
  }

  function XorB(a: Byte, b: Byte): (r: Byte)
    ensures r == Xor(a, b)
  {
    Pow2Byte();
    XorBound(a, b, 8);
    Xor(a, b)
  }

  /** Byte k of x on a little-endian host: bits 8k..8k+7. */
  function ByteOf(x: nat, k: nat): Byte
  {
    Pow2Byte();
    TruncBound(Shr(x, 8 * k), 8);
    Trunc(Shr(x, 8 * k), 8)
  }

  lemma ByteOfBit(x: nat, k: nat, j: nat)
    ensures Bit(ByteOf(x, k), j) == (j < 8 && Bit(x, 8 * k + j))
  {
    BitTrunc(Shr(x, 8 * k), 8, j);
    BitShr(x, 8 * k, j);
  }

  lemma LeValueZeros(s: seq<Byte>)
    requires forall k :: 0 <= k < |s| ==> s[k] == 0
    ensures LeValue(s) == 0
  {
    if |s| > 0 {
      LeValueZeros(s[1..]);
    }
  }

  /** Bit q of a buffer's value, located as byte q / 8, bit q % 8. */
  lemma LeBit(s: seq<Byte>, q: nat, k: nat, b: nat)
    requires q == 8 * k + b && b < 8 && k < |s|
    ensures Bit(LeValue(s), q) == Bit(s[k], b)
  {
    ModUnique(q, k, b, 8);
    BitOfLeValue(s, q);
  }

  /** No bit at or above 8 * |s| is set in the value of s. */
  lemma LeBitAbove(s: seq<Byte>, q: nat)
    requires q >= 8 * |s|
    ensures !Bit(LeValue(s), q)
  {
    LeValueBound(s);
    BitAboveWidth(LeValue(s), 8 * |s|, q);
  }

  // ---------------------------------------------------------------------------
  // shift_left

  /** What byte k receives from byte k - 1 in a left shift by n. */
  function CarryInto(s: seq<Byte>, n: nat, k: nat): Byte
    requires n <= 8 && k <= |s|
  {
    if k == 0 then 0 else Carry(s[k - 1], n)
  }

  /** The bytes after `bignum_shift_left(b, n)`: each byte shifted left, with the
      top n bits of the byte below carried in. */
  function ShlBytes(s: seq<Byte>, n: nat): (r: seq<Byte>)
    requires n <= 8
    ensures |r| == |s|
  {
    seq(|s|, k requires 0 <= k < |s| => OrB(ShlByte(s[k], n), CarryInto(s, n, k)))
  }

  /** Bit b of byte k after the shift: bit b - n of byte k, or a bit carried
      from the top of byte k - 1. */
  lemma ShlBytesByteBit(s: seq<Byte>, n: nat, k: nat, b: nat)
    requires n <= 8 && k < |s|
    ensures Bit(ShlBytes(s, n)[k], b) ==
      ((n <= b < 8 && Bit(s[k], b - n)) || (k > 0 && b < n && Bit(s[k - 1], b + 8 - n)))
  {
    var c := CarryInto(s, n, k);
    assert ShlBytes(s, n)[k] == Or(ShlByte(s[k], n), c);
    BitOr(ShlByte(s[k], n), c, b);
    ShlByteBit(s[k], n, b);
    if k == 0 {
      BitZero(b);
    } else {
      CarryBit(s[k - 1], n, b);
    }
  }

  /** Bit q of the shifted buffer is bit q - n of the original. */
  lemma ShlBytesBit(s: seq<Byte>, n: nat, q: nat)
    requires n <= 8 && q < 8 * |s|
    ensures Bit(LeValue(ShlBytes(s, n)), q) == (q >= n && Bit(LeValue(s), q - n))
  {
    var k, b := q / 8, q % 8;
    assert q == 8 * k + b;
    var r := ShlBytes(s, n);
    if b >= n {
      assert Bit(LeValue(r), q) == Bit(LeValue(s), q - n) by {
        LeBit(r, q, k, b);
        ShlBytesByteBit(s, n, k, b);
        LeBit(s, q - n, k, b - n);
      }
    } else if k > 0 {
      assert Bit(LeValue(r), q) == Bit(LeValue(s), q - n) by {
        LeBit(r, q, k, b);
        ShlBytesByteBit(s, n, k, b);
        LeBit(s, q - n, k - 1, b + 8 - n);
      }
    } else {
      assert !Bit(LeValue(r), q) by {
        LeBit(r, q, k, b);
        ShlBytesByteBit(s, n, k, b);
      }
    }
  }

  /** `bignum_shift_left` multiplies the value by 2^n, losing what passes the top byte. */
  lemma ShlBytesValue(s: seq<Byte>, n: nat)
    requires n <= 8
    ensures LeValue(ShlBytes(s, n)) == (LeValue(s) * Pow2(n)) % Pow2(8 * |s|)
  {
    var v := LeValue(ShlBytes(s, n));
    var t := Trunc(Shl(LeValue(s), n), 8 * |s|);
    forall q: nat | q < 8 * |s| ensures Bit(v, q) == Bit(t, q) {
      ShlBytesBit(s, n, q);
      BitTrunc(Shl(LeValue(s), n), 8 * |s|, q);
      BitShl(LeValue(s), n, q);
    }
    LeValueBound(ShlBytes(s, n));
    TruncBound(Shl(LeValue(s), n), 8 * |s|);
    LowBitsEqual(v, t, 8 * |s|);
    TruncMod(Shl(LeValue(s), n), 8 * |s|);
    ShlValue(LeValue(s), n);
  }

  /** After the shift the low n bits of byte 0 are clear, ready for the next OR. */
  lemma ShlBytesLowBits(s: seq<Byte>, n: nat, b: nat)
    requires n <= 8 && |s| > 0 && b < n
    ensures !Bit(ShlBytes(s, n)[0], b)
  {
    BitOr(ShlByte(s[0], n), 0, b);
    ShlByteBit(s[0], n, b);
    BitZero(b);
  }

  lemma ShlByteOf(x: Byte, n: nat, v: Byte)
    requires v == (x * Pow2(n)) % 256
    ensures ShlByte(x, n) == v
  {
    ShlValue(x, n);
    TruncMod(Shl(x, n), 8);
    Pow2Byte();
  }

  lemma CarryOf(x: Byte, n: nat, v: Byte)
    requires n <= 8 && v == x / Pow2(8 - n)
    ensures Carry(x, n) == v
  {
    ShrValue(x, 8 - n);
  }

  /** The shift test, a 16-byte buffer shifted left by 3: byte 0. */
  lemma ShlBytesExample0(s: seq<Byte>)
    requires |s| == 16 && s[0] == 0x48
    ensures ShlBytes(s, 3)[0] == 0x40
  {
    assert Pow2(3) == 8;
    ShlByteOf(0x48, 3, 0x40);
    OrZero(0x40);
  }

  /** The shift test: byte 14 gets nothing from the empty byte 13. */
  lemma ShlBytesExample14(s: seq<Byte>)
    requires |s| == 16 && s[13] == 0 && s[14] == 0x42
    ensures ShlBytes(s, 3)[14] == 0x10
  {
    assert Pow2(3) == 8 && Pow2(5) == 32;
    ShlByteOf(0x42, 3, 0x10);
    CarryOf(0, 3, 0);
    OrZero(0x10);
  }

  /** The shift test: byte 15 loses its own bit and receives the top bits of byte 14. */
  lemma ShlBytesExample15(s: seq<Byte>)
    requires |s| == 16 && s[14] == 0x42 && s[15] == 0x20
    ensures ShlBytes(s, 3)[15] == 0x02
  {
    assert Pow2(3) == 8 && Pow2(5) == 32;
    ShlByteOf(0x20, 3, 0);
    CarryOf(0x42, 3, 2);
    OrZero(2);
  }

  // ---------------------------------------------------------------------------
  // or, xor

  /** The bytes after `bignum_or(b, x)`: x is OR-ed into bytes 0..3, the least
      significant ones. */
  function OrWord(s: seq<Byte>, x: Word): (r: seq<Byte>)
    requires |s| >= 4
    ensures |r| == |s|
  {
    seq(|s|, k requires 0 <= k < |s| => if k < 4 then OrB(s[k], ByteOf(x, k)) else s[k])
  }

  /** `bignum_or` ORs x into the value. */
  lemma OrWordValue(s: seq<Byte>, x: Word)
    requires |s| >= 4
    ensures LeValue(OrWord(s, x)) == Or(LeValue(s), x)
  {
    var r := OrWord(s, x);
    forall q: nat ensures Bit(LeValue(r), q) == Bit(Or(LeValue(s), x), q) {
      OrWordBit(s, x, q);
    }
    BitsEqual(LeValue(r), Or(LeValue(s), x));
  }

  /** Bit q of `OrWordValue`. */
  lemma OrWordBit(s: seq<Byte>, x: Word, q: nat)
    requires |s| >= 4
    ensures Bit(LeValue(OrWord(s, x)), q) == Bit(Or(LeValue(s), x), q)
  {
    var r := OrWord(s, x);
    BitOr(LeValue(s), x, q);
    if q < 8 * |s| {
      var k, b := q / 8, q % 8;
      LeBit(r, q, k, b);
      LeBit(s, q, k, b);
      if k < 4 {
        BitOr(s[k], ByteOf(x, k), b);
        ByteOfBit(x, k, b);
      } else {
        WordBitAbove(x, q);
      }
    } else {
      LeBitAbove(r, q);
      LeBitAbove(s, q);
      WordBitAbove(x, q);
    }
  }

  /** ORing the same word twice is ORing it once. */
  lemma OrWordAgain(s: seq<Byte>, x: Word)
    requires |s| >= 4
    ensures OrWord(OrWord(s, x), x) == OrWord(s, x)
  {
    forall k | 0 <= k < 4 {
      OrAgain(s[k], ByteOf(x, k));
    }
  }

  /** Appending k bits r to a value kept modulo 2^width, as `bignum_shift_left`
      followed by `bignum_or` does, gives the value with r appended, modulo
      2^width, as long as the k new bits fit in the buffer. */
  lemma AppendBits(h: nat, k: nat, r: nat, width: nat)
    requires r < Pow2(k) && k <= width
    ensures Or(((h % Pow2(width)) * Pow2(k)) % Pow2(width), r) == (h * Pow2(k) + r) % Pow2(width)
  {
    var a := Trunc(h, width);
    TruncMod(h, width);
    ShlValue(a, k);
    TruncMod(Shl(a, k), width);
    TruncMod(h * Pow2(k) + r, width);
    assert h * Pow2(k) + r == r + Pow2(k) * h;
    var lhs := Or(Trunc(Shl(a, k), width), r);
    var rhs := Trunc(h * Pow2(k) + r, width);
    forall q: nat ensures Bit(lhs, q) == Bit(rhs, q) {
      BitOr(Trunc(Shl(a, k), width), r, q);
      BitTrunc(Shl(a, k), width, q);
      BitShl(a, k, q);
      BitTrunc(h * Pow2(k) + r, width, q);
      BitSplit(r, h, k, q);
      if q >= k {
        BitTrunc(h, width, q - k);
        BitAboveWidth(r, k, q);
      }
    }
    BitsEqual(lhs, rhs);
  }

  /** Shifting left by s a value kept modulo 2^width is shifting the whole
      value, modulo 2^width. */
  lemma ShiftMod(h: nat, s: nat, width: nat)
    requires s <= width
    ensures ((h % Pow2(width)) * Pow2(s)) % Pow2(width) == (h * Pow2(s)) % Pow2(width)
  {
    AppendBits(h, s, 0, width);
    OrZero(((h % Pow2(width)) * Pow2(s)) % Pow2(width));
  }

  /** A shift by a then a shift by s, each keeping the value modulo 2^width, is
      a shift by a + s. */
  lemma ShiftTwice(v: nat, a: nat, s: nat, width: nat)
    requires s <= width
    ensures ((v * Pow2(a)) % Pow2(width) * Pow2(s)) % Pow2(width) == (v * Pow2(a + s)) % Pow2(width)
  {
    ShiftMod(v * Pow2(a), s, width);
    Pow2Add(a, s);
    MulAssoc(v, Pow2(a), Pow2(s));
  }

  lemma MulAssoc(x: nat, y: nat, z: nat)
    ensures x * y * z == x * (y * z)
  {
  }

  /** The bytes after `bignum_xor(b, x)`: x is XOR-ed into bytes size-4..size-1,
      the most significant ones. */
  function XorWord(s: seq<Byte>, x: Word): (r: seq<Byte>)
    requires |s| >= 4
    ensures |r| == |s|
  {
    seq(|s|, k requires 0 <= k < |s| =>
      if k >= |s| - 4 then XorB(s[k], ByteOf(x, k - (|s| - 4))) else s[k])
  }

  /** `bignum_xor` XORs x into the top 32 bits of the value. */
  lemma XorWordValue(s: seq<Byte>, x: Word)
    requires |s| >= 4
    ensures LeValue(XorWord(s, x)) == Xor(LeValue(s), Shl(x, 8 * (|s| - 4)))
  {
    var r := XorWord(s, x);
    var t := 8 * (|s| - 4);
    forall q: nat ensures Bit(LeValue(r), q) == Bit(Xor(LeValue(s), Shl(x, t)), q) {
      XorWordBit(s, x, q);
    }
    BitsEqual(LeValue(r), Xor(LeValue(s), Shl(x, t)));
  }

  /** Bit q of `XorWordValue`. */
  lemma XorWordBit(s: seq<Byte>, x: Word, q: nat)
    requires |s| >= 4
    ensures Bit(LeValue(XorWord(s, x)), q) == Bit(Xor(LeValue(s), Shl(x, 8 * (|s| - 4))), q)
  {
    var r := XorWord(s, x);
    var t := 8 * (|s| - 4);
    BitXor(LeValue(s), Shl(x, t), q);
    BitShl(x, t, q);
    if q < 8 * |s| {
      var k, b := q / 8, q % 8;
      LeBit(r, q, k, b);
      LeBit(s, q, k, b);
      if k >= |s| - 4 {
        BitXor(s[k], ByteOf(x, k - (|s| - 4)), b);
        ByteOfBit(x, k - (|s| - 4), b);
        assert q - t == 8 * (k - (|s| - 4)) + b;
      }
    } else {
      LeBitAbove(r, q);
      LeBitAbove(s, q);
      WordBitAbove(x, q - t);
    }
  }

  /** XORing the same word twice restores the buffer. */
  lemma XorWordAgain(s: seq<Byte>, x: Word)
    requires |s| >= 4
    ensures XorWord(XorWord(s, x), x) == s
  {
    forall k | |s| - 4 <= k < |s| {
      XorAgain(s[k], ByteOf(x, k - (|s| - 4)));
    }
  }

  // ---------------------------------------------------------------------------
  // set_bit, to_uint64

  /** The bytes after `bignum_set_bit(b, pos)`. */
  function SetBitBytes(s: seq<Byte>, pos: nat): (r: seq<Byte>)
    requires pos < 8 * |s|
    ensures |r| == |s|
  {
    s[pos / 8 := OrB(s[pos / 8], ShlByte(1, pos % 8))]
  }

  /** `bignum_set_bit` sets bit pos of the value and leaves every other bit as it was. */
  lemma SetBitBit(s: seq<Byte>, pos: nat, q: nat)
    requires pos < 8 * |s|
    ensures Bit(LeValue(SetBitBytes(s, pos)), q) == (q == pos || Bit(LeValue(s), q))
  {
    var r := SetBitBytes(s, pos);
    if q < 8 * |s| {
      var k, b := q / 8, q % 8;
      LeBit(r, q, k, b);
      LeBit(s, q, k, b);
      if k == pos / 8 {
        BitOr(s[k], ShlByte(1, pos % 8), b);
        ShlByteBit(1, pos % 8, b);
        if b >= pos % 8 {
          BitsOfOne(b - pos % 8);
        }
      }
    } else {
      LeBitAbove(r, q);
      LeBitAbove(s, q);
    }
  }

  /** Setting the same bit twice is setting it once. */
  lemma SetBitAgain(s: seq<Byte>, pos: nat)
    requires pos < 8 * |s|
    ensures SetBitBytes(SetBitBytes(s, pos), pos) == SetBitBytes(s, pos)
  {
    OrAgain(s[pos / 8], ShlByte(1, pos % 8));
  }

  /** The first 8 bytes hold the low 64 bits of the value. */
  lemma LowBytes(s: seq<Byte>)
    requires |s| >= 8
    ensures LeValue(s[..8]) == LeValue(s) % Pow2(64)
  {
    forall q: nat | q < 64 ensures Bit(LeValue(s[..8]), q) == Bit(Trunc(LeValue(s), 64), q) {
      LeBit(s[..8], q, q / 8, q % 8);
      LeBit(s, q, q / 8, q % 8);
      BitTrunc(LeValue(s), 64, q);
    }
    LeValueBound(s[..8]);
    TruncBound(LeValue(s), 64);
    LowBitsEqual(LeValue(s[..8]), Trunc(LeValue(s), 64), 64);
    TruncMod(LeValue(s), 64);
  }

  // ---------------------------------------------------------------------------
  // The buffer

  class Bignum {
    var b: array<Byte>
    /** `uint32_t size`: the number of bytes. */
    var size: nat

    predicate Valid()
      reads this
    {
      b.Length == size && size >= 4
    }

    /** The number the buffer holds, byte 0 least significant. */
    function Value(): nat
      reads this, b
    {
      LeValue(b[..])
    }

    /** `bignum_alloc(requested)`: at least 4 bytes, all zero. */
    constructor(requested: int)
      ensures Valid() && fresh(b)
      ensures size == if requested < 4 then 4 else requested
      ensures forall k :: 0 <= k < size ==> b[k] == 0
      ensures Value() == 0
    {
      var n := if requested < 4 then 4 else requested;
      b := new Byte[n];
      size := n;
      new;
      Clear();
    }

    /** `bignum_clear`: every byte zero; the size is unchanged. */
    method Clear()
      requires Valid()
      modifies b
      ensures Valid()
      ensures forall k :: 0 <= k < size ==> b[k] == 0
      ensures Value() == 0
    {
      forall k | 0 <= k < b.Length {
        b[k] := 0;
      }
      LeValueZeros(b[..]);
    }

    /** `bignum_shift_left(n)`, for a shift of at most 8 bits. */
    method ShiftLeft(n: nat)
      requires Valid() && n <= 8
      modifies b
      ensures Valid()
      ensures b[..] == ShlBytes(old(b[..]), n)
      ensures Value() == (old(Value()) * Pow2(n)) % Pow2(8 * size)
    {
      ghost var s := b[..];
      ghost var r := ShlBytes(s, n);
      var prevOverflow: Byte := 0;
      var i := 0;
      while i <= size - 1
        invariant 0 <= i <= size
        invariant forall k :: 0 <= k < i ==> b[k] == r[k]
        invariant forall k :: i <= k < size ==> b[k] == s[k]
        invariant prevOverflow == CarryInto(s, n, i)
      {
        var nextOverflow := Carry(b[i], n);
        b[i] := ShlByte(b[i], n);
        b[i] := OrB(b[i], prevOverflow);
        assert b[i] == r[i];
        prevOverflow := nextOverflow;
        i := i + 1;
      }
      assert b[..] == r;
      ShlBytesValue(s, n);
    }

    /** A left shift by any number of bits, as `bignum_shift_left` calls of at
        most 8 bits each. */
    method ShiftLeftBy(k: nat)
      requires Valid()
      modifies b
      ensures Valid()
      ensures Value() == (old(Value()) * Pow2(k)) % Pow2(8 * size)
    {
      ghost var v := Value();
      LeValueBound(b[..]);
      TruncSmall(v, 8 * size);
      TruncMod(v, 8 * size);
      var done := 0;
      while done < k
        invariant done <= k && Valid()
        invariant Value() == (v * Pow2(done)) % Pow2(8 * size)
      {
        var s := if k - done < 8 then k - done else 8;
        ShiftChunk(v, done, s);
        done := done + s;
      }
    }

    /** One call of `ShiftLeftBy`'s loop: s more bits, at most 8. */
    method ShiftChunk(ghost v: nat, ghost done: nat, s: nat)
      requires Valid() && s <= 8 && Value() == (v * Pow2(done)) % Pow2(8 * size)
      modifies b
      ensures Valid() && Value() == (v * Pow2(done + s)) % Pow2(8 * size)
    {
      ShiftLeft(s);
      ShiftTwice(v, done, s, 8 * size);
    }

    /** `bignum_xor(x)`: a 32-bit XOR into bytes size-4..size-1. */
    method Xor(x: Word)
      requires Valid()
      modifies b
      ensures Valid()
      ensures b[..] == XorWord(old(b[..]), x)
      ensures Value() == BitOps.Xor(old(Value()), Shl(x, 8 * (size - 4)))
    {
      ghost var s := b[..];
      var i := size - 4;
      forall k | 0 <= k < 4 {
        b[i + k] := XorB(b[i + k], ByteOf(x, k));
      }
      assert b[..] == XorWord(s, x);
      XorWordValue(s, x);
    }

    /** `bignum_or(x)`: a 32-bit OR into bytes 0..3. */
    method Or(x: Word)
      requires Valid()
      modifies b
      ensures Valid()
      ensures b[..] == OrWord(old(b[..]), x)
      ensures Value() == BitOps.Or(old(Value()), x)
    {
      ghost var s := b[..];
      forall k | 0 <= k < 4 {
        b[k] := OrB(b[k], ByteOf(x, k));
      }
      assert b[..] == OrWord(s, x);
      OrWordValue(s, x);
    }

    /** `bignum_set_bit(pos)`, for a bit inside the buffer. */
    method SetBit(pos: nat)
      requires Valid() && pos < 8 * size
      modifies b
      ensures Valid()
      ensures b[..] == SetBitBytes(old(b[..]), pos)
      ensures forall q: nat {:trigger Bit(Value(), q)} ::
        Bit(Value(), q) == (q == pos || Bit(old(Value()), q))
    {
      ghost var s := b[..];
      var byteOffset := pos / 8;
      var bitOffset := pos;
      if pos >= 8 {
        bitOffset := pos % 8;
      }
      assert bitOffset == pos % 8;
      var mask := ShlByte(1, bitOffset);
      b[byteOffset] := OrB(b[byteOffset], mask);
      assert b[..] == SetBitBytes(s, pos);
      forall q: nat ensures Bit(Value(), q) == (q == pos || Bit(LeValue(s), q)) {
        SetBitBit(s, pos, q);
      }
    }

    /** `bignum_to_uint64`: the first 8 bytes read as one little-endian word, that
        is, the low 64 bits of the value. */
    function ToUint64(): (r: nat)
      requires Valid() && size >= 8
      reads this, b
      ensures r == Value() % Pow2(64)
    {
      LowBytes(b[..]);
      assert b[..][..8] == b[..8];
      LeValue(b[..8])
    }
  }
}
