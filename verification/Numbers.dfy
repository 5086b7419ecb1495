/** Machine integers as bounded mathematical ones, and the two roundings the program uses. */
module Numbers {
  const U64_MAX: nat := 0xFFFF_FFFF_FFFF_FFFF
  const TWO_64: nat := 0x1_0000_0000_0000_0000
  const TWO_128: nat := 0x1_0000_0000_0000_0000_0000_0000_0000_0000

  type u8 = x: nat | x < 0x100
  type u16 = x: nat | x < 0x1_0000
  type u32 = x: nat | x < 0x1_0000_0000
  type u64 = x: nat | x < 0x1_0000_0000_0000_0000
  type u128 = x: nat | x < 0x1_0000_0000_0000_0000_0000_0000_0000_0000

  datatype Option<+T> = None | Some(value: T)

  function Min(a: nat, b: nat): nat {
    if a <= b then a else b
  }

  /** `saturating_sub` */
  function SatSub(a: nat, b: nat): nat {
    if a <= b then 0 else a - b
  }

  /** `saturating_add` on u64 */
  function SatAdd(a: u64, b: u64): u64 {
    if a + b <= U64_MAX then a + b else U64_MAX
  }

  /** `as u64` from a wider unsigned type */
  function Low64(x: nat): u64 {
    x % TWO_64
  }

  /** `a * b / d` in 128 bits */
  function MulDiv(a: nat, b: nat, d: nat): nat
    requires d > 0
  {
    a * b / d
  }

  /** `div_ceil` */
  function DivCeil(n: nat, d: nat): nat
    requires d > 0
  {
    if n % d == 0 then n / d else n / d + 1
  }

  /** Products with a common factor are ordered as the other factors are. */
  lemma Scale(d: nat, a: int, b: int)
    ensures a <= b ==> d * a <= d * b
    ensures a < b ==> d * a + d <= d * b
  {
    var k := b - a;
    assert d * b == d * a + d * k;
    if k >= 1 {
      assert d * k == d + d * (k - 1);
    }
  }

  lemma Distribute(a: int, b: int, c: int)
    ensures (a + b) * c == a * c + b * c
    ensures c * (a + b) == a * c + b * c
  {
  }

  lemma DistributeMinus(a: int, b: int, c: int)
    ensures (a - b) * c == a * c - b * c
    ensures c * (a - b) == a * c - b * c
  {
  }

  lemma FloorBounds(n: nat, d: nat)
    requires d > 0
    ensures d * (n / d) <= n < d * (n / d) + d
  {
    assert n == d * (n / d) + n % d;
  }

  /** A quotient is at least q exactly when the dividend is at least q divisors. */
  lemma FloorAtLeast(n: nat, d: nat, q: nat)
    requires d > 0
    ensures n / d >= q <==> n >= d * q
  {
    FloorBounds(n, d);
    Scale(d, q, n / d);
    Scale(d, n / d, q);
  }

  lemma FloorMonotone(m: nat, n: nat, d: nat)
    requires d > 0 && m <= n
    ensures m / d <= n / d
  {
    FloorBounds(m, d);
    FloorAtLeast(n, d, m / d);
  }

  /** Taking w divisors away lowers the quotient by w. */
  lemma FloorShift(n: nat, d: nat, w: nat)
    requires d > 0 && d * w <= n
    ensures (n - d * w) / d == n / d - w
  {
    FloorAtLeast(n, d, w);
    FloorBounds(n, d);
    FloorBounds(n - d * w, d);
    var q, r := n / d - w, (n - d * w) / d;
    assert d * (q + w) == d * q + d * w;
    Scale(d, q, r);
    Scale(d, r, q);
  }

  lemma CeilBounds(n: nat, d: nat)
    requires d > 0
    ensures n <= d * DivCeil(n, d) < n + d
    ensures DivCeil(n, d) == 0 <==> n == 0
  {
    assert n == d * (n / d) + n % d;
    assert d * (n / d + 1) == d * (n / d) + d;
    Scale(d, DivCeil(n, d), 0);
  }

  /** A ceiling is at most q exactly when q divisors cover the dividend. */
  lemma CeilAtMost(n: nat, d: nat, q: nat)
    requires d > 0
    ensures DivCeil(n, d) <= q <==> n <= d * q
  {
    CeilBounds(n, d);
    Scale(d, DivCeil(n, d), q);
    Scale(d, q, DivCeil(n, d));
  }

  /** Two multiples of d around n, the first less than d above it, are ordered. */
  lemma CeilOrder(a: nat, b: nat, d: nat, n: nat)
    requires d > 0 && d * a < n + d && n <= d * b
    ensures a <= b
  {
    Scale(d, b + 1, a);
    Distribute(b, 1, d);
  }

  /** Rounding two parts up separately costs at most one unit more than rounding their sum. */
  lemma CeilOfSum(m: nat, n: nat, d: nat)
    requires d > 0
    ensures DivCeil(m + n, d) <= DivCeil(m, d) + DivCeil(n, d) <= DivCeil(m + n, d) + 1
  {
    hide DivCeil;
    CeilBounds(m, d);
    CeilBounds(n, d);
    CeilBounds(m + n, d);
    CeilOrder(DivCeil(m + n, d), DivCeil(m, d) + DivCeil(n, d), d, m + n);
    CeilOrder(DivCeil(m, d) + DivCeil(n, d), DivCeil(m + n, d) + 1, d, m + n + d);
    Distribute(DivCeil(m, d), DivCeil(n, d), d);
    Distribute(DivCeil(m + n, d), 1, d);
  }

  lemma MulDivOfZero(b: nat, d: nat)
    requires d > 0
    ensures MulDiv(0, b, d) == 0
  {
  }

  lemma MulDivCommutes(a: nat, b: nat, d: nat)
    requires d > 0
    ensures MulDiv(a, b, d) == MulDiv(b, a, d)
  {
    assert a * b == b * a;
  }

  lemma MulDivAtLeast(a: nat, b: nat, d: nat, q: nat)
    requires d > 0
    ensures MulDiv(a, b, d) >= q <==> a * b >= d * q
  {
    FloorAtLeast(a * b, d, q);
  }

  lemma MulDivBounds(a: nat, b: nat, d: nat)
    requires d > 0
    ensures d * MulDiv(a, b, d) <= a * b < d * MulDiv(a, b, d) + d
  {
    FloorBounds(a * b, d);
  }

  lemma MulDivMonotone(a1: nat, a2: nat, b: nat, d: nat)
    requires d > 0 && a1 <= a2
    ensures MulDiv(a1, b, d) <= MulDiv(a2, b, d)
  {
    Scale(b, a1, a2);
    FloorMonotone(a1 * b, a2 * b, d);
  }

  /** Scaling by a ratio of at most one does not increase. */
  lemma MulDivAtMost(a: nat, b: nat, d: nat)
    requires d > 0 && b <= d
    ensures MulDiv(a, b, d) <= a
  {
    Scale(a, b, d);
    MulDivAtLeast(a, b, d, a + 1);
    assert d * (a + 1) == a * d + d;
  }

  /** Scaling by a ratio and back never exceeds the start. */
  lemma MulDivRoundTrip(a: nat, b: nat, d: nat, x: nat)
    requires b > 0 && d > 0 && x <= MulDiv(a, b, d)
    ensures MulDiv(x, d, b) <= a
  {
    MulDivAtLeast(a, b, d, x);
    MulDivAtLeast(x, d, b, a + 1);
    assert b * (a + 1) == a * b + b;
    assert d * x == x * d;
  }

  lemma Regroup(a: int, b: int, c: int)
    ensures (a * b) * c == a * (b * c)
    ensures a * (b * c) == b * (a * c)
  {
  }

  function Pow2(k: nat): (p: nat)
    ensures p >= 1
  {
    if k == 0 then 1 else 2 * Pow2(k - 1)
  }

  lemma {:induction false} Pow2Monotone(j: nat, k: nat)
    requires j <= k
    ensures Pow2(j) <= Pow2(k)
    ensures j < k ==> 2 * Pow2(j) <= Pow2(k)
    decreases k
  {
    if j < k {
      Pow2Monotone(j, k - 1);
    }
  }

  lemma {:induction false} Pow2Sum(j: nat, k: nat)
    ensures Pow2(j + k) == Pow2(j) * Pow2(k)
  {
    if j > 0 {
      Pow2Sum(j - 1, k);
      Regroup(2, Pow2(j - 1), Pow2(k));
    }
  }

  lemma Pow2Values()
    ensures Pow2(6) == 64 && Pow2(7) == 128
    ensures Pow2(63) == 0x8000_0000_0000_0000 && Pow2(64) == TWO_64
  {
    assert Pow2(1) == 2 && Pow2(4) == 16;
    hide Pow2;
    Pow2Sum(1, 1);
    Pow2Sum(4, 2);
    Pow2Sum(6, 1);
    Pow2Sum(4, 4);
    Pow2Sum(8, 8);
    Pow2Sum(16, 16);
    Pow2Sum(32, 32);
    Pow2Sum(1, 63);
  }
}
