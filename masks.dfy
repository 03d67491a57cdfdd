/** The per-level helpers of the indexer loop: `sum` and `max` of the axis
    widths, the axis mask `extract_mask`, and the rank packer `gcr`
    (c_src/hilbert.c). Axis widths are C `int`s; the indexer only ever passes
    non-negative ones.
 */
module Masks {
  import opened BitOps
  import opened Primitives

  // ---------------------------------------------------------------------------
  // sum, max

  /** The sum of a sequence of integers. */
  function Total(a: seq<int>): int
  {
    if |a| == 0 then 0 else Total(a[..|a| - 1]) + a[|a| - 1]
  }

  lemma {:induction false} TotalConcat(a: seq<int>, b: seq<int>)
    ensures Total(a + b) == Total(a) + Total(b)
    decreases |b|
  {
    if |b| > 0 {
      assert (a + b)[..|a + b| - 1] == a + b[..|b| - 1];
      TotalConcat(a, b[..|b| - 1]);
    } else {
      assert a + b == a;
    }
  }

  /** `sum(a, s)`. The C accumulator is an `int`; overflow is not modelled. */
  method Sum(a: seq<int>) returns (r: int)
    ensures r == Total(a)
  {
    r := 0;
    for i := 0 to |a|
      invariant r == Total(a[..i])
    {
      assert a[..i + 1][..i] == a[..i];
      r := r + a[i];
    }
    assert a[..|a|] == a;
  }

  /** The largest element of a non-empty sequence. */
  function Largest(a: seq<int>): (m: int)
    requires |a| >= 1
    ensures m in a
    ensures forall k :: 0 <= k < |a| ==> a[k] <= m
  {
    if |a| == 1 then a[0]
    else
      var rest := Largest(a[..|a| - 1]);
      assert forall k :: 0 <= k < |a| - 1 ==> a[..|a| - 1][k] == a[k];
      if a[|a| - 1] > rest then a[|a| - 1] else rest
  }

  /** `max(a, s)`: the largest element; the C code reads `a[0]`, so `a` is non-empty. */
  method Max(a: seq<int>) returns (m: int)
    requires |a| >= 1
    ensures m in a
    ensures forall k :: 0 <= k < |a| ==> a[k] <= m
    ensures m == Largest(a)
  {
    m := a[0];
    for i := 1 to |a|
      invariant m in a[..i]
      invariant forall k :: 0 <= k < i ==> a[k] <= m
    {
      if a[i] > m {
        m := a[i];
      }
    }
    assert a[..|a|] == a;
    var big := Largest(a);
    assert big in a;
  }

  /** The `max` test: the contract of `Max` on `{1, 2, 3}` admits only 3. */
  lemma MaxExample(m: int)
    requires m in [1, 2, 3] && forall k :: 0 <= k < 3 ==> [1, 2, 3][k] <= m
    ensures m == 3
  {
    assert [1, 2, 3][2] <= m;
  }

  // ---------------------------------------------------------------------------
  // extract_mask

  /** The mask of level i under rotation d: bit j is set when axis (j + d) mod n
      is wider than i. */
  function Mask(ms: seq<int>, i: int, d: nat): nat
  {
    MaskTop(ms, i, d, |ms|)
  }

  /** Bit j of the mask is set exactly when j < n and axis (j + d) mod n is wider than i. */
  lemma MaskBits(ms: seq<int>, i: int, d: nat, k: nat)
    ensures Bit(Mask(ms, i, d), k) == (k < |ms| && ms[(k + d) % |ms|] > i)
  {
    MaskTopBits(ms, i, d, |ms|, k);
  }

  /** The mask has n bits. */
  lemma MaskBound(ms: seq<int>, i: int, d: nat)
    ensures Mask(ms, i, d) < Pow2(|ms|)
  {
    forall k: nat | k >= |ms| ensures !Bit(Mask(ms, i, d), k) {
      MaskBits(ms, i, d, k);
    }
    BoundFromBits(Mask(ms, i, d), |ms|);
  }

  lemma {:induction false} TruncTrunc(x: nat, a: nat, b: nat)
    requires b <= a
    ensures Trunc(Trunc(x, a), b) == Trunc(x, b)
  {
    forall k: nat ensures Bit(Trunc(Trunc(x, a), b), k) == Bit(Trunc(x, b), k) {
      BitTrunc(Trunc(x, a), b, k);
      BitTrunc(x, a, k);
      BitTrunc(x, b, k);
    }
    BitsEqual(Trunc(Trunc(x, a), b), Trunc(x, b));
  }

  lemma TruncDouble(x: nat, c: nat, w: nat)
    requires c <= 1
    ensures Trunc(c + 2 * x, w + 1) == c + 2 * Trunc(x, w)
  {
    ModUnique(c + 2 * x, x, c, 2);
  }

  lemma ShlOne(y: nat)
    ensures Shl(y, 1) == 2 * y
  {
  }

  /** One step of `extract_mask` on a (w + 1)-bit variable: shift left, then OR in c. */
  lemma MaskStep(x: nat, c: nat, w: nat)
    requires c <= 1
    ensures Or(Trunc(Shl(Trunc(x, w + 1), 1), w + 1), c) == Trunc(c + 2 * x, w + 1)
  {
    var y := Trunc(x, w + 1);
    ShlOne(y);
    TruncDouble(y, 0, w);
    TruncTrunc(x, w + 1, w);
    TruncDouble(x, c, w);
    assert Pow2(1) == 2;
    OrDisjoint(Trunc(x, w), c, 1);
  }

  /** The mask bits of the last k entries n - k, ..., n - 1, entry n - k at bit 0:
      what `extract_mask` holds once it has read k axes. */
  function MaskTop(ms: seq<int>, i: int, d: nat, k: nat): nat
    requires k <= |ms|
  {
    if k == 0 then 0
    else (if ms[(|ms| - k + d) % |ms|] > i then 1 else 0) + 2 * MaskTop(ms, i, d, k - 1)
  }

  /** Bit b of `MaskTop(k)` stands for entry n - k + b. */
  lemma {:induction false} MaskTopBits(ms: seq<int>, i: int, d: nat, k: nat, b: nat)
    requires k <= |ms|
    ensures Bit(MaskTop(ms, i, d, k), b) == (b < k && ms[(|ms| - k + b + d) % |ms|] > i)
  {
    if k == 0 {
      BitZero(b);
    } else {
      var c := if ms[(|ms| - k + d) % |ms|] > i then 1 else 0;
      BitOfEvenPlus(MaskTop(ms, i, d, k - 1), c, b);
      if b > 0 {
        MaskTopBits(ms, i, d, k - 1, b - 1);
      }
    }
  }

  /** One iteration of the `extract_mask` loop on a w-bit variable keeps the
      mask of the axes read so far. */
  lemma ExtractStep(ms: seq<int>, i: int, d: nat, j: nat, mu: nat, w: nat)
    requires j < |ms| && w >= 1 && mu == Trunc(MaskTop(ms, i, d, |ms| - 1 - j), w)
    ensures Trunc(MaskTop(ms, i, d, |ms| - j), w)
              == if ms[(j + d) % |ms|] > i then Or(Trunc(Shl(mu, 1), w), 1) else Trunc(Shl(mu, 1), w)
  {
    var c := if ms[(j + d) % |ms|] > i then 1 else 0;
    MaskStep(MaskTop(ms, i, d, |ms| - 1 - j), c, w - 1);
    OrZero(Trunc(Shl(mu, 1), w));
  }

  /** A mask of at most 64 axes fits the `uint64_t`. */
  lemma MaskFits(ms: seq<int>, i: int, d: nat)
    requires |ms| <= 64
    ensures Trunc(Mask(ms, i, d), 64) == Mask(ms, i, d)
  {
    MaskBound(ms, i, d);
    Pow2Monotone(|ms|, 64);
    TruncSmall(Mask(ms, i, d), 64);
  }

  /** `extract_mask(n, ms, i, d)`: builds the mask from axis n - 1 down to axis 0
      in a `uint64_t`, which keeps the low 64 bits. */
  method ExtractMask(n: nat, ms: seq<int>, i: int, d: nat) returns (mu: nat)
    requires |ms| == n
    ensures mu == Trunc(Mask(ms, i, d), 64)
    ensures n <= 64 ==> mu == Mask(ms, i, d)
  {
    mu := 0;
    var j: int := n - 1;
    TruncOfZero(64);
    while j >= 0
      invariant -1 <= j < n
      invariant mu == Trunc(MaskTop(ms, i, d, n - 1 - j), 64)
    {
      mu := ReadAxis(ms, i, d, j, mu);
      j := j - 1;
    }
    if n <= 64 {
      MaskFits(ms, i, d);
    }
  }

  /** One iteration of `extract_mask`: shift the `uint64_t` left and OR in
      whether axis (j + d) mod n is wider than i. */
  method ReadAxis(ms: seq<int>, i: int, d: nat, j: nat, mu: nat) returns (mu': nat)
    requires j < |ms| && mu == Trunc(MaskTop(ms, i, d, |ms| - 1 - j), 64)
    ensures mu' == Trunc(MaskTop(ms, i, d, |ms| - j), 64)
  {
    ExtractStep(ms, i, d, j, mu, 64);
    mu' := Trunc(Shl(mu, 1), 64);
    if ms[(j + d) % |ms|] > i {
      mu' := Or(mu', 1);
    }
  }

  // ---------------------------------------------------------------------------
  // Counting the axes of a level

  /** The number of axes wider than i. */
  function CountAbove(ms: seq<int>, i: int): (r: nat)
    ensures r <= |ms|
  {
    if |ms| == 0 then 0
    else CountAbove(ms[..|ms| - 1], i) + (if ms[|ms| - 1] > i then 1 else 0)
  }

  /** Fewer axes are wider than a higher level. */
  lemma {:induction false} CountAboveMonotone(ms: seq<int>, i: int, j: int)
    requires i <= j
    ensures CountAbove(ms, j) <= CountAbove(ms, i)
    decreases |ms|
  {
    if |ms| > 0 {
      CountAboveMonotone(ms[..|ms| - 1], i, j);
    }
  }

  /** With every axis wider than i, all of them count. */
  lemma {:induction false} CountAboveAll(ms: seq<int>, i: int)
    requires forall a :: 0 <= a < |ms| ==> ms[a] > i
    ensures CountAbove(ms, i) == |ms|
    decreases |ms|
  {
    if |ms| > 0 {
      CountAboveAll(ms[..|ms| - 1], i);
    }
  }

  lemma {:induction false} CountAboveConcat(a: seq<int>, b: seq<int>, i: int)
    ensures CountAbove(a + b, i) == CountAbove(a, i) + CountAbove(b, i)
    decreases |b|
  {
    if |b| > 0 {
      assert (a + b)[..|a + b| - 1] == a + b[..|b| - 1];
      CountAboveConcat(a, b[..|b| - 1], i);
    } else {
      assert a + b == a;
    }
  }

  /** A number whose low n bits mark the elements of s above i has that many of them set. */
  lemma {:induction false} OnesCountAbove(x: nat, s: seq<int>, i: int)
    requires forall k :: 0 <= k < |s| ==> (Bit(x, k) <==> s[k] > i)
    ensures Ones(x, 0, |s|) == CountAbove(s, i)
    decreases |s|
  {
    if |s| > 0 {
      var init := s[..|s| - 1];
      OnesCountAbove(x, init, i);
      OnesExtend(x, 0, |s| - 1);
    }
  }

  /** Reading a sequence from position d onward, cyclically. */
  function Rotated(ms: seq<int>, d: nat): (r: seq<int>)
    ensures |r| == |ms|
  {
    if |ms| == 0 then [] else ms[d % |ms|..] + ms[..d % |ms|]
  }

  lemma RotatedAt(ms: seq<int>, d: nat, k: nat)
    requires k < |ms|
    ensures Rotated(ms, d)[k] == ms[(k + d) % |ms|]
  {
    var n := |ms|;
    var q, e := d / n, d % n;
    assert d == q * n + e;
    if k < n - e {
      ModUnique(k + d, q, k + e, n);
    } else {
      assert k + d == (q + 1) * n + (k + e - n);
      ModUnique(k + d, q + 1, k + e - n, n);
    }
  }

  /** Rotating the axes does not change how many are wider than i. */
  lemma RotatedCountAbove(ms: seq<int>, d: nat, i: int)
    ensures CountAbove(Rotated(ms, d), i) == CountAbove(ms, i)
  {
    if |ms| > 0 {
      var e := d % |ms|;
      CountAboveConcat(ms[e..], ms[..e], i);
      CountAboveConcat(ms[..e], ms[e..], i);
      assert ms[..e] + ms[e..] == ms;
    }
  }

  /** The mask of level i has one bit for every axis wider than i, whatever the
      rotation d. */
  lemma MaskCount(ms: seq<int>, i: int, d: nat)
    ensures Ones(Mask(ms, i, d), 0, |ms|) == CountAbove(ms, i)
  {
    var r := Rotated(ms, d);
    forall k | 0 <= k < |r| ensures Bit(Mask(ms, i, d), k) <==> r[k] > i {
      MaskBits(ms, i, d, k);
      RotatedAt(ms, d, k);
    }
    OnesCountAbove(Mask(ms, i, d), r, i);
    RotatedCountAbove(ms, d, i);
  }

  // ---------------------------------------------------------------------------
  // gcr

  /** The bits of w at the positions lo..hi-1 that mu selects, packed together,
      the lowest selected position in bit 0. */
  function Rank(mu: nat, w: nat, lo: nat, hi: nat): nat
    decreases mu, w, hi - lo
  {
    if hi <= lo then 0
    else if Bit(mu, lo) then (if Bit(w, lo) then 1 else 0) + 2 * Rank(mu, w, lo + 1, hi)
    else Rank(mu, w, lo + 1, hi)
  }

  /** The packed bits fit in as many bits as mu selects. */
  lemma {:induction false} RankBound(mu: nat, w: nat, lo: nat, hi: nat)
    ensures Rank(mu, w, lo, hi) < Pow2(Ones(mu, lo, hi))
    decreases hi - lo
  {
    if lo < hi {
      RankBound(mu, w, lo + 1, hi);
    }
  }

  /** Each selected bit of w lands at its rank among the selected positions. */
  lemma {:induction false} RankBit(mu: nat, w: nat, lo: nat, hi: nat, p: nat)
    requires lo <= p < hi && Bit(mu, p)
    ensures Bit(Rank(mu, w, lo, hi), Ones(mu, lo, p)) == Bit(w, p)
    decreases p - lo
  {
    var b := if Bit(w, lo) then 1 else 0;
    if p == lo {
      BitOfEvenPlus(Rank(mu, w, lo + 1, hi), b, 0);
    } else {
      RankBit(mu, w, lo + 1, hi, p);
      if Bit(mu, lo) {
        BitOfEvenPlus(Rank(mu, w, lo + 1, hi), b, Ones(mu, lo, p));
      }
    }
  }

  /** With every position selected, the packed bits are `w >> lo` cut to hi - lo bits. */
  lemma {:induction false} RankFullFrom(mu: nat, w: nat, lo: nat, hi: nat)
    requires lo <= hi
    requires forall k :: lo <= k < hi ==> Bit(mu, k)
    ensures Rank(mu, w, lo, hi) == Trunc(Shr(w, lo), hi - lo)
    decreases hi - lo
  {
    if lo < hi {
      RankFullFrom(mu, w, lo + 1, hi);
      ShrSucc(w, lo);
      BitShr(w, lo, 0);
    }
  }

  /** With the low n bits of mu all set, `gcr` returns `w mod 2^n`. */
  lemma RankFullMask(mu: nat, w: nat, n: nat)
    requires forall k :: 0 <= k < n ==> Bit(mu, k)
    ensures Rank(mu, w, 0, n) == w % Pow2(n)
  {
    RankFullFrom(mu, w, 0, n);
    TruncMod(w, n);
  }

  /** The `gcr` test. */
  lemma RankExample()
    ensures Rank(15, 7, 0, 2) == 3
  {
    assert Bit(15, 0) && Bit(15, 1);
    RankFullMask(15, 7, 2);
  }

  lemma RankFrom(mu: nat, w: nat, j: nat, hi: nat)
    requires j < hi
    ensures Rank(mu, w, j, hi) ==
      if Bit(mu, j) then (if Bit(w, j) then 1 else 0) + 2 * Rank(mu, w, j + 1, hi)
      else Rank(mu, w, j + 1, hi)
  {
  }

  /** `(r << 1) | c` in a width-bit variable, when r has k < width bits. */
  lemma ShiftInBit(r: nat, c: nat, k: nat, width: nat)
    requires r < Pow2(k) && k < width && c <= 1
    ensures Or(Trunc(Shl(r, 1), width), c) == c + 2 * r
  {
    ShlOne(r);
    Pow2Monotone(k + 1, width);
    TruncSmall(2 * r, width);
    assert Pow2(1) == 2;
    OrDisjoint(r, c, 1);
  }

  /** Shifting a word of at most 31 significant bits left by one and ORing in
      a bit c loses nothing. */
  lemma ShiftInWord(r: Word, c: nat, k: nat)
    requires r < Pow2(k) && k <= 31 && c <= 1
    ensures OrW(ShlW(r, 1), c) == c + 2 * r
  {
    ShiftInBit(r, c, k, 32);
  }

  /** `gcr(n, mu, w)`: walks j from n - 1 down to 0 and, where mu has bit j,
      shifts bit j of w into the result. */
  method Gcr(n: nat, mu: Word, w: Word) returns (r: Word)
    requires n <= 32
    ensures r == Rank(mu, w, 0, n)
    ensures r < Pow2(Ones(mu, 0, n))
  {
    r := 0;
    var j: int := n - 1;
    while j >= 0
      invariant -1 <= j < n
      invariant r == Rank(mu, w, j + 1, n)
    {
      r := RankAxis(n, mu, w, j, r);
      j := j - 1;
    }
    RankBound(mu, w, 0, n);
  }

  /** One iteration of `gcr`: when mu has bit j, shift the result left and OR
      in bit j of w. */
  method RankAxis(n: nat, mu: Word, w: Word, j: nat, r: Word) returns (r': Word)
    requires j < n <= 32 && r == Rank(mu, w, j + 1, n)
    ensures r' == Rank(mu, w, j, n)
  {
    RankFrom(mu, w, j, n);
    r' := r;
    if BitAtInt(mu, j) == 1 {
      RankBound(mu, w, j + 1, n);
      ShiftInWord(r, BitAtInt(w, j), Ones(mu, j + 1, n));
      r' := OrW(ShlW(r, 1), BitAtInt(w, j));
    }
  }
}
