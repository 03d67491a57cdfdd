/** `chi_point2index` (c_src/hilbert.c): the Compact Hilbert Index of a point,
    built level by level into a bignum, and `bitshift_left`.

    The loop is specified by `Step` (one precision level) and `Done` (levels
    top - 1 down to i) over an unbounded accumulator `h`; the method keeps the
    same state in C variables and a `Bignum` buffer, whose value is `h` cut to
    the buffer's width.
 */
module Indexer {
  import opened BitOps
  import opened Primitives
  import opened Masks
  import Bignum

  // ---------------------------------------------------------------------------
  // bitshift_left

  /** `bitshift_left(b, size, n)`: the ripple-carry shift of `bignum_shift_left`
      applied to the first `size` bytes of a plain byte array. */
  method BitshiftLeft(b: array<Byte>, size: nat, n: nat)
    requires size <= b.Length && n <= 8
    modifies b
    ensures b[..size] == Bignum.ShlBytes(old(b[..size]), n)
    ensures b[size..] == old(b[size..])
    ensures LeValue(b[..size]) == (LeValue(old(b[..size])) * Pow2(n)) % Pow2(8 * size)
  {
    ghost var s := b[..size];
    ShiftBytes(b, size, n);
    assert b[..size] == Bignum.ShlBytes(s, n);
    assert b[size..] == old(b[size..]);
    Bignum.ShlBytesValue(s, n);
  }

  /** The loop of `bitshift_left`, byte by byte from the lowest. */
  method ShiftBytes(b: array<Byte>, size: nat, n: nat)
    requires size <= b.Length && n <= 8
    modifies b
    ensures forall k :: 0 <= k < size ==> b[k] == Bignum.ShlBytes(old(b[..size]), n)[k]
    ensures forall k :: size <= k < b.Length ==> b[k] == old(b[k])
  {
    ghost var s := b[..size];
    ghost var r := Bignum.ShlBytes(s, n);
    var prevOverflow: Byte := 0;
    var i := 0;
    while i <= size - 1
      invariant 0 <= i <= size
      invariant forall k :: 0 <= k < i ==> b[k] == r[k]
      invariant forall k :: i <= k < b.Length ==> b[k] == old(b[k])
      invariant prevOverflow == Bignum.CarryInto(s, n, i)
    {
      prevOverflow := ShiftByte(b, i, n, prevOverflow);
      i := i + 1;
    }
  }

  /** One iteration of `bitshift_left`: byte i is shifted left by n with the
      carry from below ORed in; the bits shifted out are the next carry. */
  method ShiftByte(b: array<Byte>, i: nat, n: nat, prevOverflow: Byte) returns (nextOverflow: Byte)
    requires i < b.Length && n <= 8
    modifies b
    ensures b[i] == Bignum.OrB(Bignum.ShlByte(old(b[i]), n), prevOverflow)
    ensures nextOverflow == Bignum.Carry(old(b[i]), n)
    ensures forall k :: 0 <= k < b.Length && k != i ==> b[k] == old(b[k])
  {
    nextOverflow := Bignum.Carry(b[i], n);
    b[i] := Bignum.ShlByte(b[i], n);
    b[i] := Bignum.OrB(b[i], prevOverflow);
  }

  // ---------------------------------------------------------------------------
  // The cross-section of a level

  /** Bit i of coordinates j, j + 1, ..., n - 1, coordinate j's at bit 0. */
  function SectionFrom(p: seq<seq<Byte>>, i: nat, j: nat): nat
    decreases |p| - j
  {
    if j >= |p| then 0 else (if Bit(LeValue(p[j]), i) then 1 else 0) + 2 * SectionFrom(p, i, j + 1)
  }

  lemma {:induction false} SectionFromBit(p: seq<seq<Byte>>, i: nat, j: nat, k: nat)
    ensures Bit(SectionFrom(p, i, j), k) == (j + k < |p| && Bit(LeValue(p[j + k]), i))
    decreases |p| - j
  {
    if j >= |p| {
      BitZero(k);
    } else {
      BitOfEvenPlus(SectionFrom(p, i, j + 1), if Bit(LeValue(p[j]), i) then 1 else 0, k);
      if k > 0 {
        SectionFromBit(p, i, j + 1, k - 1);
      }
    }
  }

  /** `l` at level i: bit j is bit i of coordinate j. */
  function Section(p: seq<seq<Byte>>, i: nat): (l: Word)
    requires |p| <= 32
  {
    forall k: nat | k >= |p| ensures !Bit(SectionFrom(p, i, 0), k) {
      SectionFromBit(p, i, 0, k);
    }
    BoundFromBits(SectionFrom(p, i, 0), |p|);
    Pow2Monotone(|p|, 32);
    Pow2Word();
    SectionFrom(p, i, 0)
  }

  lemma SectionBit(p: seq<seq<Byte>>, i: nat, k: nat)
    requires |p| <= 32
    ensures Bit(Section(p, i), k) == (k < |p| && Bit(LeValue(p[k]), i))
  {
    SectionFromBit(p, i, 0, k);
  }

  /** ORing `c << j` into a cross-section that holds coordinates j + 1 .. n - 1,
      c being bit i of coordinate j, adds coordinate j. */
  lemma SectionStep(p: seq<seq<Byte>>, i: nat, j: nat, lv: nat, c: nat)
    requires j < |p| && c == (if Bit(LeValue(p[j]), i) then 1 else 0)
    requires forall k: nat {:trigger Bit(lv, k)} :: Bit(lv, k) == (j < k < |p| && Bit(LeValue(p[k]), i))
    ensures forall k: nat {:trigger Bit(Or(lv, Shl(c, j)), k)} ::
      Bit(Or(lv, Shl(c, j)), k) == (j <= k < |p| && Bit(LeValue(p[k]), i))
  {
    forall k: nat ensures Bit(Or(lv, Shl(c, j)), k) == (j <= k < |p| && Bit(LeValue(p[k]), i)) {
      BitOr(lv, Shl(c, j), k);
      BitShl(c, j, k);
      if k >= j {
        BitsOfOne(k - j);
        BitZero(k - j);
      }
    }
  }

  /** The inner loop of `chi_point2index`: for j from n - 1 down to 0,
      `l |= bit_at_char(p[j], i) << j`. Every coordinate must hold byte i / 8. */
  method CrossSection(p: seq<seq<Byte>>, i: nat) returns (l: Word)
    requires |p| <= 32
    requires forall j :: 0 <= j < |p| ==> i / 8 < |p[j]|
    ensures l == Section(p, i)
  {
    var lv: nat := 0;
    var j: int := |p| - 1;
    forall k: nat ensures !Bit(lv, k) {
      BitZero(k);
    }
    while j >= 0
      invariant -1 <= j < |p|
      invariant forall k: nat {:trigger Bit(lv, k)} ::
        Bit(lv, k) == (j < k < |p| && Bit(LeValue(p[k]), i))
    {
      var c := BitAtChar(p[j], i);
      SectionStep(p, i, j, lv, c);
      lv := Or(lv, Shl(c, j));
      j := j - 1;
    }
    forall k: nat ensures Bit(lv, k) == Bit(Section(p, i), k) {
      SectionBit(p, i, k);
    }
    BitsEqual(lv, Section(p, i));
    l := lv;
  }

  /** The inner loop with the bits past a coordinate's last byte read as 0, as
      if every coordinate were padded with zero bytes: the cross-section of
      coordinates of any lengths. */
  method CrossSectionPadded(p: seq<seq<Byte>>, i: nat) returns (l: Word)
    requires |p| <= 32
    ensures l == Section(p, i)
  {
    var lv: nat := 0;
    var j: int := |p| - 1;
    forall k: nat ensures !Bit(lv, k) {
      BitZero(k);
    }
    while j >= 0
      invariant -1 <= j < |p|
      invariant forall k: nat {:trigger Bit(lv, k)} ::
        Bit(lv, k) == (j < k < |p| && Bit(LeValue(p[k]), i))
    {
      var c := 0;
      if i / 8 < |p[j]| {
        c := BitAtChar(p[j], i);
      } else {
        Bignum.LeBitAbove(p[j], i);
      }
      SectionStep(p, i, j, lv, c);
      lv := Or(lv, Shl(c, j));
      j := j - 1;
    }
    forall k: nat ensures Bit(lv, k) == Bit(Section(p, i), k) {
      SectionBit(p, i, k);
    }
    BitsEqual(lv, Section(p, i));
    l := lv;
  }

  // ---------------------------------------------------------------------------
  // The level loop, specified

  /** The loop state: entry point `e`, direction `d`, and the index so far `h`,
      kept without any width limit. */
  datatype State = State(e: Word, d: nat, h: nat)

  /** What `chi_point2index` needs of its inputs to stay within its word and
      shift widths: n in 1..32 axes, and one coordinate per axis. */
  predicate Shape(p: seq<seq<Byte>>, ms: seq<int>)
  {
    1 <= |ms| <= 32 && |p| == |ms|
  }

  /** `(h << k) | r` on an unbounded h: for r < 2^k, r appended to h as k new
      low bits. Shifting them out gives h back, keeping them gives r. */
  function Append(h: nat, k: nat, r: nat): (v: nat)
    ensures r < Pow2(k) ==> Shr(v, k) == h && Trunc(v, k) == r
  {
    if r < Pow2(k) then AppendSplit(h, k, r); Or(Shl(h, k), r) else Or(Shl(h, k), r)
  }

  lemma AppendSplit(h: nat, k: nat, r: nat)
    requires r < Pow2(k)
    ensures Shr(Or(Shl(h, k), r), k) == h && Trunc(Or(Shl(h, k), r), k) == r
  {
    var v := Or(Shl(h, k), r);
    forall j: nat ensures Bit(Shr(v, k), j) == Bit(h, j) {
      BitShr(v, k, j);
      BitOr(Shl(h, k), r, k + j);
      BitShl(h, k, k + j);
      BitAboveWidth(r, k, k + j);
    }
    BitsEqual(Shr(v, k), h);
    forall j: nat ensures Bit(Trunc(v, k), j) == Bit(r, j) {
      BitTrunc(v, k, j);
      BitOr(Shl(h, k), r, j);
      BitShl(h, k, j);
      if j >= k { BitAboveWidth(r, k, j); }
    }
    BitsEqual(Trunc(v, k), r);
  }

  /** Appending r below 2^k is multiplying by 2^k and adding. */
  lemma AppendValue(h: nat, k: nat, r: nat)
    requires r < Pow2(k)
    ensures Append(h, k, r) == h * Pow2(k) + r
  {
    ShlValue(h, k);
    OrDisjoint(h, r, k);
  }

  /** `a % n` on non-negative C ints. */
  function Wrap(a: nat, n: nat): (r: nat)
    requires n >= 1
    ensures r < n
  {
    a % n
  }

  /** One level i of the loop: mask, cross-section, transform, rank, append,
      then the new entry point and direction. */
  function Step(p: seq<seq<Byte>>, ms: seq<int>, i: nat, s: State): (r: State)
    requires Shape(p, ms) && s.d < |ms|
    ensures r.d < |ms|
  {
    var n := |ms|;
    var mu := Mask(ms, i, s.d);
    var t := Rotr(XorW(Section(p, i), s.e), s.d);
    var w := InverseGray(t);
    var rank := Rank(mu, w, 0, n);
    State(XorW(s.e, Rotl(Entry(w), s.d)),
          Wrap(s.d + Direction(w, n) + 1, n),
          Append(s.h, CountAbove(ms, i), rank))
  }

  /** The state of the loop of `chi_point2index` once levels top - 1 down to i
      are done, starting from e = d = 0 and an empty index. `Done`, `After`
      and `Apply` are one recursion split in three, so that a proof about the
      loop sees `Step` only where it asks for it, through `DoneStep`. */
  function Done(p: seq<seq<Byte>>, ms: seq<int>, top: nat, i: nat): (r: State)
    requires Shape(p, ms)
    ensures r.d < |ms|
    decreases top - i, 2
  {
    if i >= top then State(0, 0, 0) else After(p, ms, top, i)
  }

  function After(p: seq<seq<Byte>>, ms: seq<int>, top: nat, i: nat): (r: State)
    requires Shape(p, ms) && i < top
    ensures r.d < |ms|
    decreases top - i, 1
  {
    Apply(p, ms, top, i)
  }

  function Apply(p: seq<seq<Byte>>, ms: seq<int>, top: nat, i: nat): (r: State)
    requires Shape(p, ms) && i < top
    ensures r.d < |ms|
    decreases top - i, 0
  {
    Step(p, ms, i, Done(p, ms, top, i + 1))
  }

  /** Level i is done on the state the levels above it leave. */
  lemma DoneStep(p: seq<seq<Byte>>, ms: seq<int>, top: nat, i: nat)
    requires Shape(p, ms) && i < top
    ensures Done(p, ms, top, i) == Step(p, ms, i, Done(p, ms, top, i + 1))
  {
    assert Done(p, ms, top, i) == After(p, ms, top, i) == Apply(p, ms, top, i);
  }

  /** The number of levels: the precision m = max(ms), none when m <= 0. */
  function Precision(ms: seq<int>): nat
    requires |ms| >= 1
  {
    if Largest(ms) <= 0 then 0 else Largest(ms)
  }

  /** The compact Hilbert index of point p, without any width limit. */
  function Index(p: seq<seq<Byte>>, ms: seq<int>): nat
    requires Shape(p, ms)
  {
    Done(p, ms, Precision(ms), 0).h
  }

  /** `bignum_alloc(M / 8)`: the buffer size, at least 4 bytes. For a negative M
      C's truncating division and Dafny's differ, but both give less than 4. */
  function BufferSize(total: int): nat
  {
    if total / 8 < 4 then 4 else total / 8
  }

  // ---------------------------------------------------------------------------
  // How many bits the index has

  /** The number of bits levels top - 1 .. 0 append. */
  function LevelBits(ms: seq<int>, top: nat): nat
  {
    if top == 0 then 0 else LevelBits(ms, top - 1) + CountAbove(ms, top - 1)
  }

  /** Width x clamped to the levels 0 .. top - 1. */
  function Clamp(x: int, top: nat): nat
  {
    if x <= 0 then 0 else if x >= top then top else x
  }

  lemma {:induction false} LevelBitsNone(top: nat)
    ensures LevelBits([], top) == 0
  {
    if top > 0 {
      LevelBitsNone(top - 1);
    }
  }

  /** An axis of width x takes part in min(x, top) of the levels below top. */
  lemma {:induction false} LevelBitsAppend(s: seq<int>, x: int, top: nat)
    ensures LevelBits(s + [x], top) == LevelBits(s, top) + Clamp(x, top)
  {
    if top > 0 {
      LevelBitsAppend(s, x, top - 1);
      assert (s + [x])[..|s + [x]| - 1] == s;
    }
  }

  /** Summed over the levels, the bits appended are the sum of the widths. */
  lemma {:induction false} LevelBitsTotal(ms: seq<int>, top: nat)
    requires forall a :: 0 <= a < |ms| ==> 0 <= ms[a] <= top
    ensures LevelBits(ms, top) == Total(ms)
    decreases |ms|
  {
    if |ms| == 0 {
      LevelBitsNone(top);
    } else {
      var init := ms[..|ms| - 1];
      LevelBitsTotal(init, top);
      assert init + [ms[|ms| - 1]] == ms;
      LevelBitsAppend(init, ms[|ms| - 1], top);
    }
  }

  /** Level i appends CountAbove(ms, i) bits: shifting them out of the new
      index gives the old one. */
  lemma StepAppends(p: seq<seq<Byte>>, ms: seq<int>, i: nat, s: State)
    requires Shape(p, ms) && s.d < |ms|
    ensures Shr(Step(p, ms, i, s).h, CountAbove(ms, i)) == s.h
  {
    var mu := Mask(ms, i, s.d);
    var w := InverseGray(Rotr(XorW(Section(p, i), s.e), s.d));
    RankBound(mu, w, 0, |ms|);
    MaskCount(ms, i, s.d);
  }

  /** Level i appends CountAbove(ms, i) bits to what the levels above it left. */
  lemma DoneAppendsLevel(p: seq<seq<Byte>>, ms: seq<int>, top: nat, i: nat)
    requires Shape(p, ms) && i < top
    ensures Shr(Done(p, ms, top, i).h, CountAbove(ms, i)) == Done(p, ms, top, i + 1).h
  {
    DoneStep(p, ms, top, i);
    StepAppends(p, ms, i, Done(p, ms, top, i + 1));
  }

  /** Levels top - 1 .. i leave their bits above the LevelBits(ms, i) bits that
      levels i - 1 .. 0 append. */
  lemma {:induction false} DoneAppends(p: seq<seq<Byte>>, ms: seq<int>, top: nat, i: nat)
    requires Shape(p, ms) && i <= top
    ensures Shr(Done(p, ms, top, 0).h, LevelBits(ms, i)) == Done(p, ms, top, i).h
    decreases i
  {
    if i > 0 {
      DoneAppends(p, ms, top, i - 1);
      DoneAppendsLevel(p, ms, top, i - 1);
      ShrShr(Done(p, ms, top, 0).h, LevelBits(ms, i - 1), CountAbove(ms, i - 1));
    }
  }

  /** A number whose bits at and above w are all clear is below 2^w. */
  lemma ShrZeroBound(x: nat, w: nat)
    requires Shr(x, w) == 0
    ensures x < Pow2(w)
  {
    forall k: nat | k >= w ensures !Bit(x, k) {
      BitShr(x, w, k - w);
      BitZero(k - w);
    }
    BoundFromBits(x, w);
  }

  /** With non-negative widths the index has at most M = sum(ms) bits. */
  lemma IndexBound(p: seq<seq<Byte>>, ms: seq<int>)
    requires Shape(p, ms)
    requires forall a :: 0 <= a < |ms| ==> ms[a] >= 0
    ensures Total(ms) >= 0 && Index(p, ms) < Pow2(Total(ms))
  {
    TotalNonNegative(ms);
    LevelBitsTotal(ms, Precision(ms));
    DoneAppends(p, ms, Precision(ms), Precision(ms));
    ShrZeroBound(Index(p, ms), LevelBits(ms, Precision(ms)));
  }

  /** The buffer holds the whole index when M is a whole number of bytes or at
      most 32 bits. */
  lemma IndexFits(p: seq<seq<Byte>>, ms: seq<int>)
    requires Shape(p, ms)
    requires forall a :: 0 <= a < |ms| ==> ms[a] >= 0
    requires Total(ms) % 8 == 0 || Total(ms) <= 32
    ensures Trunc(Index(p, ms), 8 * BufferSize(Total(ms))) == Index(p, ms)
  {
    IndexBound(p, ms);
    Pow2Monotone(Total(ms), 8 * BufferSize(Total(ms)));
    TruncSmall(Index(p, ms), 8 * BufferSize(Total(ms)));
  }

  lemma {:induction false} TotalNonNegative(ms: seq<int>)
    requires forall a :: 0 <= a < |ms| ==> ms[a] >= 0
    ensures Total(ms) >= 0
    decreases |ms|
  {
    if |ms| > 0 {
      TotalNonNegative(ms[..|ms| - 1]);
    }
  }

  // ---------------------------------------------------------------------------
  // The level loop, in place

  /** The word-level work of one level i of `chi_point2index`: the mask, the
      cross-section, the transform, the rank, and the next entry point and
      direction. Its results are those of `Step`, whatever the index so far. */
  method Level(p: seq<seq<Byte>>, ms: seq<int>, i: nat, l: Word, e: Word, d: nat, ghost h: nat)
    returns (k: nat, r: Word, e': Word, d': nat)
    requires Shape(p, ms) && d < |ms| && l == Section(p, i)
    ensures k == CountAbove(ms, i) && r < Pow2(k)
    ensures Step(p, ms, i, State(e, d, h)) == State(e', d', Append(h, k, r))
  {
    var w := Transform(l, e, d);
    var mu;
    mu, k, r := MaskedRank(ms, i, d, w);
    e' := XorW(e, Rotl(Entry(w), d));
    d' := Wrap(d + Direction(w, |ms|) + 1, |ms|);
    StepOf(p, ms, i, State(e, d, h), mu, w);
  }

  /** The cross-section l, with e XORed in and rotated right by d, taken out
      of Gray code. */
  method Transform(l: Word, e: Word, d: nat) returns (w: Word)
    requires d < 32
    ensures Gc(w) == Rotr(XorW(l, e), d)
    ensures w == InverseGray(Rotr(XorW(l, e), d))
  {
    var t := Rotr(XorW(l, e), d);
    w := InverseGc(t);
  }

  /** The mask of level i and the bits of w it selects, packed: as many bits
      as there are axes wider than i. */
  method MaskedRank(ms: seq<int>, i: nat, d: nat, w: Word) returns (mu: nat, k: nat, r: Word)
    requires 1 <= |ms| <= 32
    ensures mu == Mask(ms, i, d)
    ensures k == CountAbove(ms, i) && r == Rank(mu, w, 0, |ms|) && r < Pow2(k)
  {
    var n := |ms|;
    mu := ExtractMask(n, ms, i, d);
    MaskBound(ms, i, d);
    Pow2Monotone(n, 32);
    Pow2Word();
    var muw: Word := mu;
    r := Gcr(n, muw, w);
    k := Parity(muw);
    PopcountNarrow(muw, n);
    MaskCount(ms, i, d);
  }

  /** `Step` spelled out for a given mask and transformed cross-section. */
  lemma StepOf(p: seq<seq<Byte>>, ms: seq<int>, i: nat, s: State, mu: nat, w: Word)
    requires Shape(p, ms) && s.d < |ms|
    requires mu == Mask(ms, i, s.d) && w == InverseGray(Rotr(XorW(Section(p, i), s.e), s.d))
    ensures Step(p, ms, i, s) == State(XorW(s.e, Rotl(Entry(w), s.d)), Wrap(s.d + Direction(w, |ms|) + 1, |ms|),
                                       Append(s.h, CountAbove(ms, i), Rank(mu, w, 0, |ms|)))
  {
  }

  /** What `bignum_shift_left` by k and `bignum_or` with r leave in a buffer
      of `width` bits that held h cut to `width` bits. */
  lemma AppendKept(h: nat, k: nat, r: nat, width: nat, v: nat)
    requires r < Pow2(k) && k <= width
    requires v == Or((Trunc(h, width) * Pow2(k)) % Pow2(width), r)
    ensures v == Trunc(Append(h, k, r), width)
  {
    TruncMod(h, width);
    AppendValue(h, k, r);
    Bignum.AppendBits(h, k, r, width);
    TruncMod(Append(h, k, r), width);
  }

  /** One pass of the loop of `chi_point2index`: level i's rank is shifted into
      `big`, and e and d move on, as `Step` says. */
  method AppendLevel(p: seq<seq<Byte>>, ms: seq<int>, top: nat, i: nat, e: Word, d: nat, ghost h: nat, big: Bignum.Bignum)
    returns (e': Word, d': nat, ghost h': nat)
    requires Shape(p, ms) && i < top && State(e, d, h) == Done(p, ms, top, i + 1)
    requires forall j :: 0 <= j < |p| ==> top <= 8 * |p[j]|
    requires CountAbove(ms, 0) <= 8
    requires big.Valid() && big.Value() == Trunc(h, 8 * big.size)
    modifies big.b
    ensures big.Valid() && big.Value() == Trunc(h', 8 * big.size)
    ensures State(e', d', h') == Done(p, ms, top, i)
  {
    CountAboveMonotone(ms, 0, i);
    DoneStep(p, ms, top, i);
    var l := CrossSection(p, i);
    var k, r;
    k, r, e', d' := Level(p, ms, i, l, e, d, h);
    ghost var width := 8 * big.size;
    Pow2Monotone(k, width);
    big.ShiftLeft(k);
    big.Or(r);
    AppendKept(h, k, r, width, big.Value());
    h' := Append(h, k, r);
  }

  /** The loop of `chi_point2index` over levels top - 1 down to 0, appending
      each level's rank to `big`, which starts out zero. */
  method IndexLevels(p: seq<seq<Byte>>, ms: seq<int>, top: nat, big: Bignum.Bignum)
    requires Shape(p, ms) && big.Valid() && big.Value() == 0
    requires forall j :: 0 <= j < |p| ==> top <= 8 * |p[j]|
    requires CountAbove(ms, 0) <= 8
    modifies big.b
    ensures big.Valid()
    ensures big.Value() == Trunc(Done(p, ms, top, 0).h, 8 * big.size)
  {
    var e: Word := 0;
    var d: nat := 0;
    ghost var h: nat := 0;
    var i: int := top - 1;
    TruncSmall(0, 8 * big.size);
    while i >= 0
      invariant -1 <= i < top
      invariant big.Valid()
      invariant State(e, d, h) == Done(p, ms, top, i + 1)
      invariant big.Value() == Trunc(h, 8 * big.size)
    {
      e, d, h := AppendLevel(p, ms, top, i, e, d, h, big);
      i := i - 1;
    }
  }

  /** `chi_point2index(p, ms, n)` as written: the buffer has M / 8 bytes (at
      least 4), M being the sum of the widths, and holds the index cut to its
      width. */
  method Point2Index(p: seq<seq<Byte>>, ms: seq<int>) returns (big: Bignum.Bignum)
    requires Shape(p, ms)
    requires forall j :: 0 <= j < |p| ==> Precision(ms) <= 8 * |p[j]|
    requires CountAbove(ms, 0) <= 8
    ensures fresh(big) && big.Valid()
    ensures big.size == BufferSize(Total(ms))
    ensures big.Value() == Trunc(Index(p, ms), 8 * big.size)
  {
    var m := Max(ms);
    var total := Sum(ms);
    big := new Bignum.Bignum(total / 8);
    assert big.size == BufferSize(Total(ms));
    IndexLevels(p, ms, if m <= 0 then 0 else m, big);
  }

  /** The buffer of `Point2Index` holds the whole index whenever M is a whole
      number of bytes or at most 32 bits. */
  lemma Point2IndexExact(p: seq<seq<Byte>>, ms: seq<int>, v: nat, size: nat)
    requires Shape(p, ms)
    requires forall a :: 0 <= a < |ms| ==> ms[a] >= 0
    requires Total(ms) % 8 == 0 || Total(ms) <= 32
    requires size == BufferSize(Total(ms)) && v == Trunc(Index(p, ms), 8 * size)
    ensures v == Index(p, ms)
  {
    IndexFits(p, ms);
  }

  /** One pass of the corrected loop: the cross-section reads the bits past a
      coordinate's last byte as 0, and the level's bits are shifted in however
      many there are. */
  method AppendLevelCorrected(p: seq<seq<Byte>>, ms: seq<int>, top: nat, i: nat, e: Word, d: nat, ghost h: nat, big: Bignum.Bignum)
    returns (e': Word, d': nat, ghost h': nat)
    requires Shape(p, ms) && i < top && State(e, d, h) == Done(p, ms, top, i + 1)
    requires big.Valid() && big.Value() == Trunc(h, 8 * big.size)
    modifies big.b
    ensures big.Valid() && big.Value() == Trunc(h', 8 * big.size)
    ensures State(e', d', h') == Done(p, ms, top, i)
  {
    DoneStep(p, ms, top, i);
    var l := CrossSectionPadded(p, i);
    var k, r;
    k, r, e', d' := Level(p, ms, i, l, e, d, h);
    ghost var width := 8 * big.size;
    big.ShiftLeftBy(k);
    big.Or(r);
    AppendKept(h, k, r, width, big.Value());
    h' := Append(h, k, r);
  }

  /** The corrected loop over levels top - 1 down to 0. */
  method IndexLevelsCorrected(p: seq<seq<Byte>>, ms: seq<int>, top: nat, big: Bignum.Bignum)
    requires Shape(p, ms) && big.Valid() && big.Value() == 0
    modifies big.b
    ensures big.Valid()
    ensures big.Value() == Trunc(Done(p, ms, top, 0).h, 8 * big.size)
  {
    var e: Word := 0;
    var d: nat := 0;
    ghost var h: nat := 0;
    var i: int := top - 1;
    TruncSmall(0, 8 * big.size);
    while i >= 0
      invariant -1 <= i < top
      invariant big.Valid()
      invariant State(e, d, h) == Done(p, ms, top, i + 1)
      invariant big.Value() == Trunc(h, 8 * big.size)
    {
      e, d, h := AppendLevelCorrected(p, ms, top, i, e, d, h, big);
      i := i - 1;
    }
  }

  /** `chi_point2index` corrected: a buffer of ceil(M / 8) bytes (at least 4),
      coordinates of any lengths, and any number of active axes per level. The
      buffer then holds the whole index. */
  method Point2IndexCorrected(p: seq<seq<Byte>>, ms: seq<int>) returns (big: Bignum.Bignum)
    requires Shape(p, ms)
    ensures fresh(big) && big.Valid()
    ensures big.size == BufferSize(Total(ms) + 7)
    ensures (forall a :: 0 <= a < |ms| ==> ms[a] >= 0) ==> big.Value() == Index(p, ms)
  {
    var m := Max(ms);
    var total := Sum(ms);
    big := new Bignum.Bignum((total + 7) / 8);
    assert big.size == BufferSize(Total(ms) + 7);
    IndexLevelsCorrected(p, ms, if m <= 0 then 0 else m, big);
    if forall a :: 0 <= a < |ms| ==> ms[a] >= 0 {
      IndexFitsRoundedUp(p, ms);
    }
  }

  /** With ceil(M / 8) bytes the buffer holds every index. */
  lemma IndexFitsRoundedUp(p: seq<seq<Byte>>, ms: seq<int>)
    requires Shape(p, ms)
    requires forall a :: 0 <= a < |ms| ==> ms[a] >= 0
    ensures Trunc(Index(p, ms), 8 * BufferSize(Total(ms) + 7)) == Index(p, ms)
  {
    IndexBound(p, ms);
    var total := Total(ms);
    assert total <= 8 * BufferSize(total + 7);
    Pow2Monotone(total, 8 * BufferSize(total + 7));
    TruncSmall(Index(p, ms), 8 * BufferSize(total + 7));
  }

  // ---------------------------------------------------------------------------
  // The buffer size rounded down

  /** The point (2^31, 0): at level 31 the cross-section is 1. */
  lemma ExampleSection(p: seq<seq<Byte>>)
    requires p == [[0, 0, 0, 0x80], [0, 0, 0, 0]]
    ensures Section(p, 31) == 1
  {
    var l := Section(p, 31);
    forall k: nat ensures Bit(l, k) == Bit(1, k) {
      SectionBit(p, 31, k);
      BitsOfOne(k);
      if k == 0 {
        BitOfLeValue(p[0], 31);
        TopBitOfByte();
      } else if k == 1 {
        Bignum.LeValueZeros(p[1]);
        BitZero(31);
      }
    }
    BitsEqual(l, 1);
  }

  lemma TopBitOfByte()
    ensures Bit(0x80, 7)
  {
    assert Bit(1, 0);
    assert Bit(2, 1);
    assert Bit(4, 2);
    assert Bit(8, 3);
    assert Bit(16, 4);
    assert Bit(32, 5);
    assert Bit(64, 6);
  }

  /** Widths (32, 4) at level 31: only the first axis is active, and the rank
      of w = 1 has its low bit set. */
  lemma ExampleRank(ms: seq<int>)
    requires ms == [32, 4]
    ensures Bit(Rank(Mask(ms, 31, 0), 1, 0, 2), 0)
  {
    MaskBits(ms, 31, 0, 0);
    RankBit(Mask(ms, 31, 0), 1, 0, 2, 0);
    BitsOfOne(0);
  }

  /** Level 31 of the point (2^31, 0) with widths (32, 4) appends a nonzero
      rank to the empty index. */
  lemma FirstLevelOfExample(p: seq<seq<Byte>>, ms: seq<int>)
    requires p == [[0, 0, 0, 0x80], [0, 0, 0, 0]] && ms == [32, 4]
    ensures Shape(p, ms)
    ensures Step(p, ms, 31, State(0, 0, 0)).h >= 1
  {
    ExampleSection(p);
    XorZero(1);
    InverseGrayExamples();
    ExampleRank(ms);
    var rank := Rank(Mask(ms, 31, 0), 1, 0, 2);
    var k := CountAbove(ms, 31);
    BitOr(Shl(0, k), rank, 0);
    BitZero(0);
    assert Bit(Append(0, k, rank), 0);
  }

  /** A number with a set bit at or above w is at least 2^w. */
  lemma ShrPositive(x: nat, w: nat)
    requires Shr(x, w) >= 1
    ensures x >= Pow2(w)
  {
    ShrValue(x, w);
    MulAtLeast(x / Pow2(w), Pow2(w));
  }

  /** With widths (32, 4), M = 36 and `bignum_alloc(M / 8)` gives 4 bytes, 32
      bits, while the index of the point (2^31, 0) needs 36: its top bits are
      lost. */
  lemma FloorSizeDropsBits(p: seq<seq<Byte>>, ms: seq<int>)
    requires p == [[0, 0, 0, 0x80], [0, 0, 0, 0]] && ms == [32, 4]
    ensures Shape(p, ms) && Total(ms) == 36 && BufferSize(Total(ms)) == 4
    ensures Trunc(Index(p, ms), 8 * BufferSize(Total(ms))) != Index(p, ms)
  {
    assert Largest(ms) == 32 by {
      assert ms[0] <= Largest(ms);
    }
    ExampleTotal(ms);
    FirstLevelOfExample(p, ms);
    IndexAtLeast(p, ms);
    ExampleLevelBits(ms);
    Pow2Monotone(32, 35);
    TruncBound(Index(p, ms), 32);
  }

  /** When the top level appends a nonzero rank, the index is at least 2 to
      the number of bits the levels below it append. */
  lemma IndexAtLeast(p: seq<seq<Byte>>, ms: seq<int>)
    requires Shape(p, ms) && Precision(ms) >= 1
    requires Step(p, ms, Precision(ms) - 1, State(0, 0, 0)).h >= 1
    ensures Index(p, ms) >= Pow2(LevelBits(ms, Precision(ms) - 1))
  {
    var top := Precision(ms);
    DoneAppends(p, ms, top, top - 1);
    DoneStep(p, ms, top, top - 1);
    ShrPositive(Index(p, ms), LevelBits(ms, top - 1));
  }

  lemma ExampleTotal(ms: seq<int>)
    requires ms == [32, 4]
    ensures Total(ms) == 36
  {
    assert ms[..1] == [32];
    assert Total([32]) == 32 by {
      assert [32][..0] == [];
    }
    assert Total(ms) == Total(ms[..1]) + 4;
  }

  /** Levels 30 .. 0 of widths (32, 4) append 35 bits. */
  lemma ExampleLevelBits(ms: seq<int>)
    requires |ms| == 2 && ms[0] == 32 && ms[1] == 4
    ensures LevelBits(ms, 31) == 35
  {
    assert ms == [] + [ms[0]] + [ms[1]];
    LevelBitsNone(31);
    LevelBitsAppend([], ms[0], 31);
    LevelBitsAppend([ms[0]], ms[1], 31);
  }

  // ---------------------------------------------------------------------------
  // More than 8 active axes, coordinates of different lengths

  /** Nine one-byte coordinates, widths (8, ..., 8) as a caller passing byte
      lengths gives them: at each level all nine axes are active, so
      `parity(mu)`, the count handed to `bignum_shift_left`, is 9, and the
      `8 - n` of that function is negative. */
  lemma NineAxesOverShift(ms: seq<int>, i: nat, d: nat)
    requires |ms| == 9 && forall a :: 0 <= a < |ms| ==> ms[a] == 8
    requires i < 8
    ensures CountAbove(ms, i) == 9
    ensures Mask(ms, i, d) < WORD_MOD && Popcount(Mask(ms, i, d)) == 9
  {
    CountAboveAll(ms, i);
    MaskCount(ms, i, d);
    MaskBound(ms, i, d);
    Pow2Monotone(9, 32);
    Pow2Word();
    PopcountNarrow(Mask(ms, i, d), 9);
  }

  /** Coordinates of one and two bytes, widths (8, 16) as a caller passing byte
      lengths gives them: m = 16, and level 15 < m reads byte 15 / 8 = 1 of the
      one-byte coordinate, past its end. */
  lemma ShortAxisReadsPastEnd(p: seq<seq<Byte>>, ms: seq<int>)
    requires p == [[0], [0, 0]] && ms == [8, 16]
    ensures Shape(p, ms) && Precision(ms) == 16
    ensures 15 < Precision(ms) && 15 / 8 >= |p[0]|
  {
    assert ms[1] <= Largest(ms);
  }
}
