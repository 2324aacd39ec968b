/** Powers of two, masking and circular indices.  Every structure of the library
    reduces an index with `i & (capacity - 1)`; the models write `i % capacity`,
    and `MaskIsModulo` is what makes the two the same. */
module Bits {

  /** A power of two: 1, 2, 4, 8, ... */
  predicate PowerOfTwo(n: nat) {
    n == 1 || (n >= 2 && n % 2 == 0 && PowerOfTwo(n / 2))
  }

  /** Bitwise `&` of two naturals. */
  function BitAnd(a: nat, b: nat): (r: nat)
  {
    if a == 0 || b == 0 then 0
    else 2 * BitAnd(a / 2, b / 2) + (a % 2) * (b % 2)
  }

  /** Bitwise `|` of two naturals. */
  function BitOr(a: nat, b: nat): (r: nat)
  {
    if a == 0 && b == 0 then 0
    else 2 * BitOr(a / 2, b / 2) + (if a % 2 == 1 || b % 2 == 1 then 1 else 0)
  }

  lemma HalvesOfModulo(i: nat, m: nat)
    requires m > 0
    ensures (i % (2 * m)) / 2 == (i / 2) % m
    ensures (i % (2 * m)) % 2 == i % 2
  {
    var q, r := i / (2 * m), i % (2 * m);
    assert i == 2 * (m * q) + r;
    assert i / 2 == m * q + r / 2;
    ModuloUnique(i / 2, m, q, r / 2);
  }

  lemma MultipleIsLarge(m: int, k: int)
    requires m > 0
    ensures k != 0 ==> m * k >= m || m * k <= -m
  {
    if k >= 1 { assert m * k == m + m * (k - 1); }
    if k <= -1 { assert m * k == m * (k + 1) - m; }
  }

  lemma ModuloUnique(x: int, m: nat, q: int, r: nat)
    requires m > 0 && r < m && x == m * q + r
    ensures x % m == r && x / m == q
  {
    var q', r' := x / m, x % m;
    assert x == m * q' + r';
    assert m * (q - q') == m * q - m * q';
    MultipleIsLarge(m, q - q');
  }

  /** `i & (n - 1)` is `i % n` for every power of two `n`. */
  lemma {:induction false} MaskIsModulo(i: nat, n: nat)
    requires PowerOfTwo(n)
    ensures BitAnd(i, n - 1) == i % n
  {
    if n == 1 {
    } else if i == 0 {
    } else {
      MaskIsModulo(i / 2, n / 2);
      HalvesOfModulo(i, n / 2);
      assert (n - 1) / 2 == n / 2 - 1 && (n - 1) % 2 == 1;
      var r := i % n;
      assert r == 2 * (r / 2) + r % 2;
    }
  }

  /** Two indices closer than `n` and different fall on different slots. */
  lemma DistinctSlots(i: int, j: int, n: nat)
    requires n > 0 && i < j < i + n
    ensures i % n != j % n
  {
    var qi, qj := i / n, j / n;
    assert i == n * qi + i % n && j == n * qj + j % n;
    if i % n == j % n {
      assert n * (qj - qi) == n * qj - n * qi;
      MultipleIsLarge(n, qj - qi);
    }
  }

  lemma WrapOnce(i: int, n: nat)
    requires n > 0
    ensures (i + n) % n == i % n
  {
    var q := i / n;
    assert i + n == n * (q + 1) + i % n;
    ModuloUnique(i + n, n, q + 1, i % n);
  }

  /** Two different indices on the same slot are a whole lap apart. */
  lemma LapApart(i: int, j: int, n: nat)
    requires n > 0 && i < j && i % n == j % n
    ensures i + n <= j
  {
    if j < i + n { DistinctSlots(i, j, n); }
  }

  lemma {:induction false} AndByBit(a: nat, b: nat, x: nat, y: nat)
    requires x < 2 && y < 2
    ensures BitAnd(2 * a + x, 2 * b + y) == 2 * BitAnd(a, b) + (if x == 1 && y == 1 then 1 else 0)
  {
    assert (2 * a + x) / 2 == a && (2 * b + y) / 2 == b;
  }

  lemma {:induction false} OrByBit(a: nat, b: nat, x: nat, y: nat)
    requires x < 2 && y < 2
    ensures BitOr(2 * a + x, 2 * b + y) == 2 * BitOr(a, b) + (if x == 1 || y == 1 then 1 else 0)
  {
    assert (2 * a + x) / 2 == a && (2 * b + y) / 2 == b;
  }

  lemma {:induction false} OrZero(a: nat)
    ensures BitOr(a, 0) == a
  {
    if a > 0 { OrZero(a / 2); }
  }

  function Power(k: nat): (p: nat)
    ensures p >= 1
  {
    if k == 0 then 1 else 2 * Power(k - 1)
  }

  lemma {:induction false} PowerIsPowerOfTwo(k: nat)
    ensures PowerOfTwo(Power(k))
  {
    if k > 0 {
      PowerIsPowerOfTwo(k - 1);
      assert Power(k) / 2 == Power(k - 1);
    }
  }

  lemma {:induction false} PowerGrows(j: nat, k: nat)
    requires j <= k
    ensures Power(j) <= Power(k)
    decreases k
  {
    if j < k { PowerGrows(j, k - 1); }
  }

  lemma {:induction false} PowerFiveMore(k: nat)
    ensures Power(k + 5) == 32 * Power(k)
  {
    assert Power(k + 1) == 2 * Power(k);
    assert Power(k + 2) == 2 * Power(k + 1);
    assert Power(k + 3) == 2 * Power(k + 2);
    assert Power(k + 4) == 2 * Power(k + 3);
  }

  lemma {:induction false} PowerThirty()
    ensures Power(30) == 0x4000_0000
  {
    PowerFiveMore(0); PowerFiveMore(5); PowerFiveMore(10);
    PowerFiveMore(15); PowerFiveMore(20); PowerFiveMore(25);
  }

  /** Subtraction of wrapped counters is subtraction of the counters. */
  lemma WrappedDifference(a: nat, b: nat, n: nat)
    requires n > 0 && b <= a < b + n
    ensures (a % n - b % n) % n == a - b
  {
    var qa, qb := a / n, b / n;
    assert a == n * qa + a % n && b == n * qb + b % n;
    assert n * (qb - qa) == n * qb - n * qa;
    assert a % n - b % n == n * (qb - qa) + (a - b);
    ModuloUnique(a % n - b % n, n, qb - qa, a - b);
  }

  /** The least power of two that is at least `v`. */
  function NextPowerOfTwo(v: nat): (p: nat)
    requires v >= 1
    ensures PowerOfTwo(p) && v <= p < 2 * v
  {
    if v == 1 then 1 else 2 * NextPowerOfTwo((v + 1) / 2)
  }

  lemma {:induction false} NextPowerIsLeast(v: nat, q: nat)
    requires 1 <= v <= q && PowerOfTwo(q)
    ensures NextPowerOfTwo(v) <= q
  {
    if v > 1 { NextPowerIsLeast((v + 1) / 2, q / 2); }
  }

  lemma {:induction false} LargePowerDivisible(n: nat)
    requires PowerOfTwo(n) && n >= 4
    ensures n % 4 == 0
  {
    assert PowerOfTwo(n / 2) && PowerOfTwo(n / 2 / 2);
  }

  lemma {:induction false} PowersDivide(n: nat, w: nat)
    requires PowerOfTwo(n) && PowerOfTwo(w) && n <= w
    ensures w % n == 0
  {
    if n > 1 {
      PowersDivide(n / 2, w / 2);
      HalvesOfModulo(w, n / 2);
      var r := w % n;
      assert r / 2 == 0 && r % 2 == 0;
    }
  }

  lemma ModuloByBit(x: nat, h: nat)
    requires h > 0
    ensures x % (2 * h) == 2 * ((x / 2) % h) + x % 2
  {
    HalvesOfModulo(x, h);
  }

  /** `x & ~(a - 1)`, in words of `w` values, clears the part below `a`. */
  lemma {:induction false} ClearLowBits(x: nat, a: nat, w: nat)
    requires PowerOfTwo(a) && PowerOfTwo(w) && a <= w && x < w
    ensures BitAnd(x, w - a) == x - x % a
  {
    if a == 1 {
      MaskIsModulo(x, w);
      ModuloUnique(x, w, 0, x);
    } else {
      var y, h, v := x / 2, a / 2, w / 2;
      ClearLowBits(y, h, v);
      AndByBit(y, v - h, x % 2, 0);
      ModuloByBit(x, h);
      assert 2 * y + x % 2 == x && 2 * (v - h) + 0 == w - a;
    }
  }

  // ---------------------------------------------------------------------------
  // Multiples
  // ---------------------------------------------------------------------------

  lemma MultipleDifference(x: nat, y: nat, a: nat)
    requires a > 0 && x % a == 0 && y % a == 0 && y <= x
    ensures (x - y) % a == 0 && (x - y) / a * a == x - y
    ensures y < x ==> y + a <= x
  {
    var p, q := x / a, y / a;
    var k := p - q;
    assert a * k == a * p - a * q;
    ModuloUnique(x - y, a, k, 0);
    assert k * a == a * k;
    MultipleIsLarge(a, k);
  }

  lemma MultipleSum(x: nat, y: nat, a: nat)
    requires a > 0 && x % a == 0 && y % a == 0
    ensures (x + y) % a == 0
  {
    var p, q := x / a, y / a;
    assert x == a * p && y == a * q;
    assert a * (p + q) == a * p + a * q;
    ModuloUnique(x + y, a, p + q, 0);
  }

  lemma MultipleOfMultiple(x: nat, b: nat, a: nat)
    requires a > 0 && b > 0 && x % b == 0 && b % a == 0
    ensures x % a == 0
  {
    var p, q := x / b, b / a;
    assert x == b * p && b == a * q;
    assert (a * q) * p == a * (q * p);
    ModuloUnique(x, a, q * p, 0);
  }

  lemma WrapThenReduce(x: int, n: nat, w: nat)
    requires n > 0 && w > 0 && w % n == 0
    ensures (x % w) % n == x % n
  {
    var t, q, r := w / n, x / w, x % w;
    var q2, r2 := r / n, r % n;
    assert w == n * t && x == w * q + r && r == n * q2 + r2;
    assert (n * t) * q == n * (t * q);
    assert n * (t * q) + n * q2 == n * (t * q + q2);
    ModuloUnique(x, n, t * q + q2, r2);
  }

  lemma ScaledMultiple(p: nat, b: nat, f: nat)
    requires b > 0 && f > 0 && p % b == 0
    ensures f * b > 0 && (f * p) % (f * b) == 0
  {
    var q := p / b;
    assert p == b * q;
    assert f * (b * q) == (f * b) * q;
    MultipleIsLarge(f, b);
    ModuloUnique(f * p, f * b, q, 0);
  }

  /** A multiple at or above `n` is at or above the first one. */
  lemma LeastMultiple(n: nat, r: nat, m: nat, a: nat)
    requires a > 0 && r % a == 0 && n <= r < n + a && m % a == 0 && n <= m
    ensures r <= m
  {
    if m < r { MultipleDifference(r, m, a); }
  }
}
