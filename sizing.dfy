/** How IgushArray sizes itself: `_reserve(n)` picks the segment size (the
    integer square root of n, at least 1), the number of segments (n divided
    by the segment size, rounded up, at least 1) and the capacity, their
    product. Also the test that decides whether `resize`, `assign` and range
    `insert` rebuild the array with fresh sizes or work in place. */
module Sizing {

  /** The larger of n and 1: `_reserve` never sizes for fewer than one
      element. */
  function AtLeastOne(n: nat): nat {
    if n == 0 then 1 else n
  }

  /** The integer square root, the largest r with r * r <= n. It stands for
      `(size_type) sqrt((double) n)`. */
  function Isqrt(n: nat): nat
  {
    if n == 0 then 0
    else
      var r := Isqrt(n - 1);
      if (r + 1) * (r + 1) <= n then r + 1 else r
  }

  /** Isqrt(n) is the largest r with r * r <= n. */
  lemma {:induction false} IsqrtBounds(n: nat)
    ensures Isqrt(n) * Isqrt(n) <= n < (Isqrt(n) + 1) * (Isqrt(n) + 1)
  {
    if n > 0 {
      IsqrtBounds(n - 1);
      var r := Isqrt(n - 1);
      assert (r + 2) * (r + 2) == (r + 1) * (r + 1) + 2 * r + 3;
    }
  }

  lemma SquareMonotone(a: nat, b: nat)
    requires a <= b
    ensures a * a <= b * b
  {
    assert a * a <= a * b <= b * b;
  }

  /** The bound r * r <= n < (r + 1) * (r + 1) singles out one r, so Isqrt is
      the square root and nothing else. */
  lemma IsqrtUnique(n: nat, r: nat)
    requires r * r <= n < (r + 1) * (r + 1)
    ensures Isqrt(n) == r
  {
    var s := Isqrt(n);
    IsqrtBounds(n);
    if s < r {
      SquareMonotone(s + 1, r);
    } else if s > r {
      SquareMonotone(r + 1, s);
    }
  }

  /** `ceil((double) n / d)`: n divided by d, rounded up. */
  function CeilDiv(n: nat, d: nat): (q: nat)
    requires 1 <= d
    ensures n <= q * d < n + d
  {
    var q := (n + d - 1) / d;
    assert (n + d - 1) - d < q * d <= n + d - 1;
    q
  }

  /** The three numbers `_reserve` computes. */
  datatype Sizes = Sizes(deqSize: nat, vecSize: nat, capacity: nat)

  /** `_reserve(n)`: the segment size is the integer square root of n (1 when
      that is 0), the segment count is n over the segment size rounded up (1
      when that is 0), and the capacity is their product, the least multiple
      of the segment size that holds max(n, 1) elements. */
  function ReserveSizes(n: nat): (z: Sizes)
    ensures 1 <= z.deqSize && 1 <= z.vecSize
  {
    var root := Isqrt(n);
    var ds := if root == 0 then 1 else root;
    var quot := CeilDiv(n, ds);
    var vs := if quot == 0 then 1 else quot;
    Sizes(ds, vs, vs * ds)
  }

  /** What `_reserve` promises of its sizes: the capacity is the product of
      the segment count and size, the segment size is the integer square
      root of max(n, 1), and the capacity is the least multiple of the
      segment size holding max(n, 1) elements. */
  lemma ReserveSizesFacts(n: nat)
    ensures ReserveSizes(n).capacity == ReserveSizes(n).vecSize * ReserveSizes(n).deqSize
    ensures ReserveSizes(n).deqSize * ReserveSizes(n).deqSize <= AtLeastOne(n)
    ensures AtLeastOne(n) < (ReserveSizes(n).deqSize + 1) * (ReserveSizes(n).deqSize + 1)
    ensures AtLeastOne(n) <= ReserveSizes(n).capacity < AtLeastOne(n) + ReserveSizes(n).deqSize
  {
    var z := ReserveSizes(n);
    IsqrtBounds(n);
    var quot := CeilDiv(n, z.deqSize);
  }

  /** Reserving 100 elements gives ten segments of ten. */
  lemma ReserveHundred()
    ensures ReserveSizes(100) == Sizes(10, 10, 100)
  {
    IsqrtUnique(100, 10);
  }

  lemma MulMonotone(a: nat, b: nat, c: nat)
    requires a <= b
    ensures a * c <= b * c
  {
  }

  lemma MulCancelLess(a: nat, b: nat, c: nat)
    requires a * c < b * c
    ensures a < b
  {
    if a >= b {
      MulMonotone(b, a, c);
    }
  }

  /** A multiple of ds that lies below (ds + 1) squared plus ds is at most
      ds * ds + 2 * ds: it is the product of ds and a factor at most ds + 2. */
  lemma MultipleBound(vs: nat, ds: nat, m: nat)
    requires 1 <= ds && m < (ds + 1) * (ds + 1) && vs * ds < m + ds
    ensures vs <= ds + 2 && vs * ds < (ds + 1) * (ds + 1)
  {
    assert (ds + 1) * (ds + 1) == ds * ds + 2 * ds + 1;
    assert (ds + 3) * ds == ds * ds + 3 * ds;
    MulCancelLess(vs, ds + 3, ds);
    MulMonotone(vs, ds + 2, ds);
    assert (ds + 2) * ds == ds * ds + 2 * ds;
  }

  lemma CeilDivExact(q: nat, d: nat)
    requires 1 <= d
    ensures CeilDiv(q * d, d) == q
  {
    var r := CeilDiv(q * d, d);
    if r < q {
      MulMonotone(r + 1, q, d);
    } else if r > q {
      MulMonotone(q + 1, r, d);
    }
  }

  /** No elements take no segments. */
  lemma CeilDivZero(d: nat)
    requires 1 <= d
    ensures CeilDiv(0, d) == 0
  {
    var q := CeilDiv(0, d);
    if q >= 1 {
      MulMonotone(1, q, d);
    }
  }

  /** One segment holds 1 to d elements. */
  lemma CeilDivOne(n: nat, d: nat)
    requires 1 <= n <= d
    ensures CeilDiv(n, d) == 1
  {
    var q := CeilDiv(n, d);
    if q == 0 {
    } else if q >= 2 {
      MulMonotone(2, q, d);
    }
  }

  /** d more elements take one more segment. */
  lemma CeilDivStep(n: nat, d: nat)
    requires 1 <= d
    ensures CeilDiv(n + d, d) == CeilDiv(n, d) + 1
  {
    var q, r := CeilDiv(n, d), CeilDiv(n + d, d);
    assert (q + 1) * d == q * d + d;
    assert (r + 1) * d == r * d + d;
    assert (q + 2) * d == q * d + d + d;
    if r < q + 1 {
      MulMonotone(r + 1, q + 1, d);
    } else if r > q + 1 {
      MulMonotone(q + 2, r, d);
    }
  }

  /** Reserving the capacity that a reservation produced reproduces the same
      sizes: the copy constructor, which reserves the source's capacity, gets
      the source's segment size and segment count back. */
  lemma {:induction false} ReserveSizesStable(n: nat)
    ensures ReserveSizes(ReserveSizes(n).capacity) == ReserveSizes(n)
  {
    var z := ReserveSizes(n);
    var ds, vs, cap := z.deqSize, z.vecSize, z.capacity;
    ReserveSizesFacts(n);
    MultipleBound(vs, ds, AtLeastOne(n));
    IsqrtUnique(cap, ds);
    CeilDivExact(vs, ds);
  }

  /** `enum ReserveMode {NO, IF_NEEDED, YES}`. */
  datatype ReserveMode = No | IfNeeded | Yes

  /** The enumerator's integer value. */
  function Ordinal(mode: ReserveMode): nat {
    match mode
    case No => 0
    case IfNeeded => 1
    case Yes => 2
  }

  /** The rebuild test of `resize` and `assign` as written,
      `(n > _capacity && reserve_mode) == IF_NEEDED || reserve_mode == YES`:
      the mode converts to bool (non-zero), the conjunction converts back to 0
      or 1, and 1 is IF_NEEDED. It rebuilds exactly when n overflows the
      capacity under a mode other than NO, or when the mode is YES. */
  function RebuildAsWritten(n: nat, capacity: nat, mode: ReserveMode): (b: bool)
    ensures b <==> (n > capacity && mode != No) || mode == Yes
  {
    (if n > capacity && Ordinal(mode) != 0 then 1 else 0) == Ordinal(IfNeeded) || mode == Yes
  }

  /** The rebuild test of range `insert`,
      `(total_new_size > _capacity && reserve_mode == IF_NEEDED) || reserve_mode == YES`.
      It decides every case as the test of `resize` and `assign` does. */
  function RebuildOnInsert(total: nat, capacity: nat, mode: ReserveMode): (b: bool)
    ensures b == RebuildAsWritten(total, capacity, mode)
  {
    (total > capacity && mode == IfNeeded) || mode == Yes
  }
}
