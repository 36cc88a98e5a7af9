/**
 Powers of two, and the three integer operations the allocators are built on: the size class of a
 request (`next_power_of_two().trailing_zeros()`), the number of trailing zeros, and the shift right.
 Shifts and masks on machine words are written as division and remainder by a power of two.
 */
module Bits {

  function Pow2(k: nat): (p: nat)
    ensures p >= 1
  {
    if k == 0 then 1 else 2 * Pow2(k - 1)
  }

  lemma {:induction false} Pow2Add(a: nat, b: nat)
    ensures Pow2(a + b) == Pow2(a) * Pow2(b)
  {
    if a != 0 {
      Pow2Add(a - 1, b);
      MulAssoc(2, Pow2(a - 1), Pow2(b));
    }
  }

  lemma MulAssoc(a: int, b: int, c: int)
    ensures a * (b * c) == (a * b) * c
  {
  }

  lemma {:induction false} Pow2Monotone(a: nat, b: nat)
    requires a <= b
    ensures Pow2(a) <= Pow2(b)
    ensures a < b ==> 2 * Pow2(a) <= Pow2(b)
  {
    if a < b {
      Pow2Monotone(a, b - 1);
    }
  }

  predicate IsSizeClass(n: nat, c: nat)
  {
    n <= Pow2(c) && (c > 0 ==> Pow2(c - 1) < n)
  }

  lemma {:induction false} SizeClassExists(n: nat)
    ensures exists c: nat :: IsSizeClass(n, c)
  {
    if n <= 1 {
      assert IsSizeClass(n, 0);
    } else {
      SizeClassExists((n + 1) / 2);
      var c: nat :| IsSizeClass((n + 1) / 2, c);
      assert IsSizeClass(n, c + 1);
    }
  }

  lemma SizeClassUnique(n: nat, c: nat, d: nat)
    requires IsSizeClass(n, c) && IsSizeClass(n, d)
    ensures c == d
  {
    if c < d {
      Pow2Monotone(c, d - 1);
    } else if d < c {
      Pow2Monotone(d, c - 1);
    }
  }

  /** `n.next_power_of_two().trailing_zeros()`: the least exponent whose power reaches `n`. */
  function SizeClass(n: nat): (c: nat)
    ensures IsSizeClass(n, c)
  {
    SizeClassExists(n);
    assert forall c: nat, d: nat :: IsSizeClass(n, c) && IsSizeClass(n, d) ==> c == d by {
      forall c: nat, d: nat | IsSizeClass(n, c) && IsSizeClass(n, d)
        ensures c == d
      {
        SizeClassUnique(n, c, d);
      }
    }
    var c: nat :| IsSizeClass(n, c);
    c
  }

  lemma SizeClassAtMost(n: nat, c: nat)
    ensures SizeClass(n) <= c <==> n <= Pow2(c)
  {
    if SizeClass(n) <= c {
      Pow2Monotone(SizeClass(n), c);
    } else {
      Pow2Monotone(c, SizeClass(n) - 1);
    }
  }

  /** The exponent of the greatest power of two that is at most `n`, as the tiling loops compute it. */
  function FloorClass(n: nat): (c: nat)
    requires n > 0
    ensures Pow2(c) <= n < 2 * Pow2(c)
  {
    var c := SizeClass(n);
    if n == Pow2(c) then c else c - 1
  }

  lemma FloorClassAtLeast(n: nat, k: nat)
    requires Pow2(k) <= n
    ensures FloorClass(n) >= k
  {
    if FloorClass(n) < k {
      Pow2Monotone(FloorClass(n), k);
    }
  }

  lemma FloorClassAtMost(n: nat, k: nat)
    requires 0 < n <= Pow2(k)
    ensures FloorClass(n) <= k
  {
    if FloorClass(n) > k {
      Pow2Monotone(k, FloorClass(n));
    }
  }

  lemma SizeClassOfPow2(k: nat)
    ensures SizeClass(Pow2(k)) == k
  {
    if k > 0 {
      Pow2Monotone(k - 1, k);
    }
    SizeClassUnique(Pow2(k), SizeClass(Pow2(k)), k);
  }

  /** `x >> k`, one bit at a time. */
  function Shr(x: nat, k: nat): (r: nat)
  {
    if k == 0 then x else Shr(x / 2, k - 1)
  }

  lemma MulDouble(h: int, p: int, q: int)
    requires q == 2 * p
    ensures h * q == 2 * (h * p)
  {
  }

  /** The numbers that shift to `h` are exactly the `2^k` numbers from `h * 2^k`. */
  lemma {:induction false} ShrInterval(x: nat, k: nat, h: nat)
    ensures Shr(x, k) == h <==> h * Pow2(k) <= x < (h + 1) * Pow2(k)
  {
    if k != 0 {
      ShrInterval(x / 2, k - 1, h);
      MulDouble(h, Pow2(k - 1), Pow2(k));
      MulDouble(h + 1, Pow2(k - 1), Pow2(k));
    }
  }

  lemma DivModUnique(x: nat, p: nat, q: nat)
    requires q * p <= x < (q + 1) * p
    ensures x / p == q && x % p == x - q * p
  {
    var d := x / p;
    assert x == d * p + x % p;
    MulOrder(d, q, p);
    MulOrder(q, d, p);
  }

  lemma MulOrder(a: int, b: int, p: int)
    requires p > 0
    ensures a < b ==> a * p + p <= b * p
    ensures (b - a) * p == b * p - a * p
  {
    MulDistribute(a, b - a, p);
    MulAtLeast(b - a, p);
  }

  lemma MulAtLeast(d: int, p: int)
    requires p > 0
    ensures d >= 1 ==> d * p >= p
  {
  }

  lemma {:induction false} ShrAdd(x: nat, a: nat, b: nat)
    ensures Shr(Shr(x, a), b) == Shr(x, a + b)
  {
    if a != 0 {
      ShrAdd(x / 2, a - 1, b);
    }
  }

  /** Shifting by one more is halving. */
  lemma ShrStep(x: nat, k: nat)
    ensures Shr(x, k + 1) == Shr(x, k) / 2
  {
    ShrAdd(x, k, 1);
    assert Shr(Shr(x, k), 1) == Shr(Shr(x, k) / 2, 0);
  }

  lemma {:induction false} ShrIsLess(x: nat, k: nat)
    ensures Shr(x, k) <= x
    ensures x > 0 && k > 0 ==> Shr(x, k) < x
  {
    if k != 0 {
      ShrIsLess(x / 2, k - 1);
    }
  }

  /** `x` is a multiple of `2^k`: its low `k` bits are zero. */
  ghost predicate Aligned(x: nat, k: nat)
  {
    exists q: nat :: Multiple(q, k) == x
  }

  function Multiple(q: nat, k: nat): nat
  {
    q * Pow2(k)
  }

  lemma AlignedShr(x: nat, k: nat)
    ensures Aligned(x, k) <==> Shr(x, k) * Pow2(k) == x
  {
    if q: nat :| Multiple(q, k) == x {
      MulOrder(q, q + 1, Pow2(k));
      ShrInterval(x, k, q);
    }
    assert Multiple(Shr(x, k), k) == Shr(x, k) * Pow2(k);
  }

  /** The sources test alignment with the mask `x & (2^k - 1)`. */
  lemma AlignedIff(x: nat, k: nat)
    ensures Aligned(x, k) <==> x % Pow2(k) == 0
  {
    AlignedShr(x, k);
    ShrInterval(x, k, Shr(x, k));
    DivModUnique(x, Pow2(k), Shr(x, k));
  }

  lemma AlignedMultiple(h: nat, k: nat)
    ensures Aligned(h * Pow2(k), k)
    ensures Shr(h * Pow2(k), k) == h
  {
    MulOrder(h, h + 1, Pow2(k));
    ShrInterval(h * Pow2(k), k, h);
    assert Multiple(h, k) == h * Pow2(k);
  }

  lemma AlignedPow2(k: nat)
    ensures Aligned(Pow2(k), k) && Shr(Pow2(k), k) == 1
  {
    AlignedMultiple(1, k);
  }

  lemma AlignedLess(x: nat, j: nat, k: nat)
    requires j <= k && Aligned(x, k)
    ensures Aligned(x, j)
  {
    var q: nat :| Multiple(q, k) == x;
    Pow2Add(k - j, j);
    MulAssoc(q, Pow2(k - j), Pow2(j));
    assert Multiple(q * Pow2(k - j), j) == x;
  }

  lemma AlignedSum(x: nat, y: nat, k: nat)
    requires Aligned(x, k) && Aligned(y, k)
    ensures Aligned(x + y, k)
    ensures Shr(x + y, k) == Shr(x, k) + Shr(y, k)
  {
    var a: nat :| Multiple(a, k) == x;
    var b: nat :| Multiple(b, k) == y;
    MultipleSum(a, b, k);
    ShrMultiple(a, k);
    ShrMultiple(b, k);
    ShrMultiple(a + b, k);
  }

  lemma MultipleSum(a: nat, b: nat, k: nat)
    ensures Multiple(a + b, k) == Multiple(a, k) + Multiple(b, k)
  {
    MulDistribute(a, b, Pow2(k));
  }

  lemma ShrMultiple(a: nat, k: nat)
    ensures Shr(Multiple(a, k), k) == a
  {
    AlignedMultiple(a, k);
  }

  lemma AlignedDifference(x: nat, y: nat, k: nat)
    requires Aligned(x, k) && Aligned(y, k) && y <= x
    ensures Aligned(x - y, k)
    ensures y < x ==> y + Pow2(k) <= x
  {
    var a: nat :| Multiple(a, k) == x;
    var b: nat :| Multiple(b, k) == y;
    MulOrder(a, b, Pow2(k));
    MulOrder(b, a, Pow2(k));
    assert Multiple(a - b, k) == x - y;
  }

  lemma AlignUpExists(x: nat, k: nat)
    ensures exists r: nat :: x <= r < x + Pow2(k) && Aligned(r, k)
  {
    var q := Shr(x, k);
    ShrInterval(x, k, q);
    MulOrder(q, q + 1, Pow2(k));
    AlignedMultiple(q, k);
    AlignedMultiple(q + 1, k);
    var r := if q * Pow2(k) == x then x else (q + 1) * Pow2(k);
    assert x <= r < x + Pow2(k) && Aligned(r, k);
  }

  /** The first multiple of `2^k` from `x` on. */
  ghost function AlignUp(x: nat, k: nat): (r: nat)
    ensures x <= r < x + Pow2(k) && Aligned(r, k)
  {
    AlignUpExists(x, k);
    var r: nat :| x <= r < x + Pow2(k) && Aligned(r, k);
    r
  }

  lemma AlignUpIsFirst(x: nat, k: nat, y: nat)
    requires x <= y < AlignUp(x, k)
    ensures !Aligned(y, k)
  {
    if Aligned(y, k) {
      AlignedDifference(AlignUp(x, k), y, k);
    }
  }

  lemma MulDistribute(a: int, b: int, p: int)
    ensures (a + b) * p == a * p + b * p
  {
  }

  const WORD_BITS: nat := 64

  /** `usize::trailing_zeros`; the word width on zero. */
  function TrailingZeros(x: nat): (r: nat)
    ensures x > 0 ==> Aligned(x, r) && !Aligned(x, r + 1)
    ensures x == 0 ==> r == WORD_BITS
  {
    if x == 0 then WORD_BITS
    else if x % 2 == 1 then
      AlignedOdd(x);
      0
    else
      var r := TrailingZeros(x / 2);
      AlignedDouble(x / 2, r);
      AlignedDouble(x / 2, r + 1);
      r + 1
  }

  lemma AlignedOdd(x: nat)
    requires x % 2 == 1
    ensures Aligned(x, 0) && !Aligned(x, 1)
  {
    AlignedShr(x, 0);
    AlignedShr(x, 1);
    assert Shr(x, 1) == Shr(x / 2, 0);
  }

  lemma AlignedDouble(y: nat, k: nat)
    ensures Aligned(2 * y, k + 1) <==> Aligned(y, k)
  {
    hide Aligned;
    AlignedShr(y, k);
    AlignedShr(2 * y, k + 1);
    MulAssoc(2, Shr(y, k), Pow2(k));
  }

  lemma AlignedZero(k: nat)
    ensures Aligned(0, k)
  {
    assert Multiple(0, k) == 0;
  }

  lemma TrailingZerosAtLeast(x: nat, k: nat)
    requires Aligned(x, k) && (x == 0 ==> k <= WORD_BITS)
    ensures TrailingZeros(x) >= k
  {
    if x > 0 && TrailingZeros(x) < k {
      AlignedLess(x, TrailingZeros(x) + 1, k);
    }
  }

  /** The size class both tiling loops release next: as large as length and alignment of the start allow. */
  function TileClass(start: nat, units: nat): (c: nat)
    requires units > 0
    ensures Aligned(start, c) && Pow2(c) <= units
  {
    var f := FloorClass(units);
    var z := TrailingZeros(start);
    var c := if f <= z then f else z;
    assert Aligned(start, c) by {
      if start > 0 {
        AlignedLess(start, c, z);
      } else {
        AlignedZero(c);
      }
    }
    assert Pow2(c) <= units by {
      Pow2Monotone(c, f);
    }
    c
  }

  /** No larger class aligns the start and fits the length; a word has no more than `WORD_BITS` zeros to count. */
  lemma TileClassIsLargest(start: nat, units: nat, k: nat)
    requires units > 0 && Aligned(start, k) && Pow2(k) <= units && (start > 0 || k <= WORD_BITS)
    ensures k <= TileClass(start, units)
  {
    FloorClassAtLeast(units, k);
    TrailingZerosAtLeast(start, k);
  }

  /** Tiling a range whose ends are multiples of `2^lo`, below `2^hi`, keeps to classes from `lo` to `hi`. */
  lemma TileBounds(start: nat, units: nat, lo: nat, hi: nat)
    requires units > 0 && (start > 0 || lo <= WORD_BITS) && start + units <= Pow2(hi)
    requires Aligned(start, lo) && Aligned(units, lo)
    ensures lo <= FloorClass(units) && lo <= TrailingZeros(start)
    ensures lo <= TileClass(start, units) <= hi
    ensures Aligned(start + Pow2(TileClass(start, units)), lo)
    ensures Aligned(units - Pow2(TileClass(start, units)), lo)
  {
    AlignedZero(lo);
    AlignedDifference(units, 0, lo);
    FloorClassAtLeast(units, lo);
    TrailingZerosAtLeast(start, lo);
    FloorClassAtMost(units, hi);
    var t := TileClass(start, units);
    AlignedPow2(t);
    AlignedLess(Pow2(t), lo, t);
    AlignedSum(start, Pow2(t), lo);
    AlignedDifference(units, Pow2(t), lo);
  }
}
