/** `_next_power_of_2`, the bit-smearing round-up, and the masked slot arithmetic of the hash
    table. */
module Rounding {
  import opened Bits
  import RobinHood

  /** `x >> k`. */
  function Shr(x: nat, k: nat): nat
    decreases k
  {
    if k == 0 then x else Shr(x / 2, k - 1)
  }

  /** `x | (x >> k)`. */
  function Smear(x: nat, k: nat): nat {
    BitOr(x, Shr(x, k))
  }

  /** The source's routine: `v--`, six smears, `v++`. */
  function NextPow2(v: nat): nat
    requires v >= 1
  {
    Smear(Smear(Smear(Smear(Smear(Smear(v - 1, 1), 2), 4), 8), 16), 32) + 1
  }

  /** `k` one bits. */
  function Ones(k: nat): nat {
    if k == 0 then 0 else 2 * Ones(k - 1) + 1
  }

  lemma {:induction false} OnesAndOne(k: nat)
    ensures Ones(k) + 1 == Power(k)
  {
    if k > 0 { OnesAndOne(k - 1); }
  }

  lemma {:induction false} ShrShr(x: nat, i: nat, j: nat)
    ensures Shr(Shr(x, i), j) == Shr(x, i + j)
    decreases i
  {
    if i > 0 { ShrShr(x / 2, i - 1, j); }
  }

  lemma {:induction false} ShrZero(k: nat)
    ensures Shr(0, k) == 0
  {
    if k > 0 { ShrZero(k - 1); }
  }

  lemma {:induction false} OrHalf(x: nat, y: nat)
    ensures BitOr(x, y) / 2 == BitOr(x / 2, y / 2)
  {}

  lemma {:induction false} OrShr(x: nat, y: nat, k: nat)
    ensures Shr(BitOr(x, y), k) == BitOr(Shr(x, k), Shr(y, k))
    decreases k
  {
    if k > 0 {
      OrHalf(x, y);
      OrShr(x / 2, y / 2, k - 1);
    }
  }

  lemma {:induction false} ShrOnes(a: nat, b: nat)
    ensures Shr(Ones(a + b), b) == Ones(a)
    decreases b
  {
    if b > 0 { ShrOnes(a, b - 1); }
  }

  /** Or-ing ones below a number whose upper part is all ones leaves only ones. */
  lemma {:induction false} FillOnes(x: nat, m: nat, k: nat)
    requires Shr(x, m) == Ones(k)
    ensures BitOr(x, Ones(m)) == Ones(m + k)
    decreases m
  {
    if m == 0 {
      OrZero(x);
    } else {
      FillOnes(x / 2, m - 1, k);
      OrByBit(x / 2, Ones(m - 1), x % 2, 1);
    }
  }

  /** `x` has `len` bits and its top `m` bits are ones. */
  ghost predicate TopOnes(x: nat, len: nat, m: nat) {
    1 <= m <= len && Shr(x, len - m) == Ones(m)
  }

  /** A smear by `m` doubles the run of leading ones. */
  lemma SmearDoubles(x: nat, len: nat, m: nat)
    requires TopOnes(x, len, m)
    ensures TopOnes(Smear(x, m), len, if 2 * m <= len then 2 * m else len)
  {
    if 2 * m <= len {
      var j := len - 2 * m;
      OrShr(x, Shr(x, m), j);
      ShrShr(x, m, j);
      ShrShr(x, j, m);
      FillOnes(Shr(x, j), m, m);
    } else {
      var k := len - m;
      ShrShr(x, k, m - k);
      ShrOnes(k, m - k);
      FillOnes(x, k, m);
    }
  }

  /** Once all bits are ones, further smears change nothing. */
  lemma SmearSettles(len: nat, m: nat)
    requires 1 <= len <= m
    ensures Smear(Ones(len), m) == Ones(len)
  {
    ShrOnes(0, len);
    ShrShr(Ones(len), len, m - len);
    ShrZero(m - len);
    OrZero(Ones(len));
  }

  /** The next smear of the source, whose shift has reached `m`. */
  lemma SmearNext(x: nat, len: nat, m: nat)
    requires 1 <= m && TopOnes(x, len, if m <= len then m else len)
    ensures TopOnes(Smear(x, m), len, if 2 * m <= len then 2 * m else len)
  {
    if m <= len { SmearDoubles(x, len, m); } else { SmearSettles(len, m); }
  }

  /** The number of bits of `x`. */
  function Length(x: nat): nat {
    if x == 0 then 0 else 1 + Length(x / 2)
  }

  lemma {:induction false} LengthTop(x: nat)
    requires x >= 1
    ensures Length(x) >= 1 && Shr(x, Length(x) - 1) == 1
  {
    if x > 1 { LengthTop(x / 2); }
  }

  lemma {:induction false} LengthBound(x: nat, k: nat)
    requires x < Power(k)
    ensures Length(x) <= k
    decreases k
  {
    if x > 0 { LengthBound(x / 2, k - 1); }
  }

  lemma {:induction false} RoundsToLength(v: nat, len: nat)
    requires v >= 2 && len >= 1 && Shr(v - 1, len - 1) == 1
    ensures NextPowerOfTwo(v) == Power(len)
    decreases len
  {
    if len > 1 {
      assert (v + 1) / 2 - 1 == (v - 1) / 2;
      if (v + 1) / 2 == 1 { ShrZero(len - 2); }
      RoundsToLength((v + 1) / 2, len - 1);
    }
  }

  /** For every `v` from 1 to 2^63 the routine returns the least power of two not below `v`. */
  lemma {:induction false} NextPow2Correct(v: nat)
    requires 1 <= v <= Power(63)
    ensures PowerOfTwo(NextPow2(v)) && v <= NextPow2(v)
    ensures forall q :: v <= q && PowerOfTwo(q) ==> NextPow2(v) <= q
  {
    NextPow2Rounds(v);
    forall q | v <= q && PowerOfTwo(q) ensures NextPow2(v) <= q { NextPowerIsLeast(v, q); }
  }

  /** The first three smears, and the last three. */
  lemma SmearThrice(x: nat, len: nat, m: nat)
    requires 1 <= m && TopOnes(x, len, if m <= len then m else len)
    ensures TopOnes(Smear(Smear(Smear(x, m), 2 * m), 4 * m), len, if 8 * m <= len then 8 * m else len)
  {
    SmearNext(x, len, m);
    SmearNext(Smear(x, m), len, 2 * m);
    SmearNext(Smear(Smear(x, m), 2 * m), len, 4 * m);
  }

  lemma SmearAll(x: nat, len: nat)
    requires TopOnes(x, len, 1) && len <= 64
    ensures Smear(Smear(Smear(Smear(Smear(Smear(x, 1), 2), 4), 8), 16), 32) == Ones(len)
  {
    SmearThrice(x, len, 1);
    var y := Smear(Smear(Smear(x, 1), 2), 4);
    SmearThrice(y, len, 8);
    assert TopOnes(Smear(Smear(Smear(y, 8), 16), 32), len, len);
  }

  lemma {:induction false} NextPow2Rounds(v: nat)
    requires 1 <= v <= Power(64)
    ensures NextPow2(v) == NextPowerOfTwo(v)
  {
    if v == 1 {
      SmearOfZero();
    } else {
      var x, len := v - 1, Length(v - 1);
      LengthTop(x);
      LengthBound(x, 64);
      SmearAll(x, len);
      OnesAndOne(len);
      RoundsToLength(v, len);
    }
  }

  lemma {:induction false} SmearOfZero()
    ensures forall k: nat :: Smear(0, k) == 0
  {
    forall k: nat ensures Smear(0, k) == 0 { ShrZero(k); }
  }

  // ---------------------------------------------------------------------------
  // Masked slots
  // ---------------------------------------------------------------------------

  lemma MaskedNext(slot: nat, n: nat, w: nat)
    requires PowerOfTwo(n) && PowerOfTwo(w) && n <= w && slot < n
    ensures BitAnd((slot + 1) % w, n - 1) == RobinHood.Next(slot, n)
  {
    PowersDivide(n, w);
    MaskIsModulo((slot + 1) % w, n);
    WrapThenReduce(slot + 1, n, w);
    if slot + 1 == n { ModuloUnique(n, n, 1, 0); } else { ModuloUnique(slot + 1, n, 0, slot + 1); }
  }

  lemma MaskedDist(hash: nat, slot: nat, n: nat, w: nat)
    requires PowerOfTwo(n) && PowerOfTwo(w) && n <= w && slot < n
    ensures BitAnd((slot - hash % n) % w, n - 1) == RobinHood.Dist(hash, slot, n)
  {
    var home := hash % n;
    PowersDivide(n, w);
    MaskIsModulo((slot - home) % w, n);
    WrapThenReduce(slot - home, n, w);
    if slot >= home { ModuloUnique(slot - home, n, 0, slot - home); }
    else { ModuloUnique(slot - home, n, -1, slot - home + n); }
  }

  /** In words of `w` values (2^64 in the source) the masked expressions of the hash table are the
      circular slots and the true circular distance, wrapped subtraction included. */
  lemma MaskedSlots(hash: nat, slot: nat, n: nat, w: nat)
    requires PowerOfTwo(n) && PowerOfTwo(w) && n <= w && slot < n
    ensures BitAnd(hash, n - 1) == hash % n
    ensures BitAnd((slot + 1) % w, n - 1) == RobinHood.Next(slot, n)
    ensures BitAnd((slot - hash % n) % w, n - 1) == RobinHood.Dist(hash, slot, n)
  {
    MaskIsModulo(hash, n);
    MaskedNext(slot, n, w);
    MaskedDist(hash, slot, n, w);
  }

  /** The width of the words the table computes in: 2^64 values, the source's `size_t`; a table that
      would not fit in them is given words that do. */
  function WordFor(n: nat): nat {
    if n <= Power(64) then Power(64) else n
  }

  lemma {:induction false} WordIsWide(n: nat)
    requires PowerOfTwo(n)
    ensures PowerOfTwo(WordFor(n)) && n <= WordFor(n)
  {
    PowerIsPowerOfTwo(64);
  }

  /** `hash & mask`. */
  method Home(hash: nat, n: nat) returns (slot: nat)
    requires PowerOfTwo(n)
    ensures slot == hash % n
  {
    MaskIsModulo(hash, n);
    slot := BitAnd(hash, n - 1);
  }

  /** `(slot + 1) & mask`. */
  method StepOn(slot: nat, n: nat) returns (next: nat)
    requires PowerOfTwo(n) && slot < n
    ensures next == RobinHood.Next(slot, n)
  {
    WordIsWide(n);
    MaskedSlots(0, slot, n, WordFor(n));
    next := BitAnd((slot + 1) % WordFor(n), n - 1);
  }

  /** `_probe_distance`. */
  method Probe(hash: nat, slot: nat, n: nat) returns (d: nat)
    requires PowerOfTwo(n) && slot < n
    ensures d == RobinHood.Dist(hash, slot, n)
  {
    WordIsWide(n);
    MaskedSlots(hash, slot, n, WordFor(n));
    var home := Home(hash, n);
    d := BitAnd((slot - home) % WordFor(n), n - 1);
  }

  /** A power of two above 2^k is at least the next one. */
  lemma {:induction false} PowerAbove(p: nat, k: nat)
    requires PowerOfTwo(p) && p > Power(k)
    ensures p >= Power(k + 1)
  {
    PowerIsPowerOfTwo(k);
    PowersDivide(Power(k), p);
    ModuloUnique(Power(k), Power(k), 1, 0);
    MultipleDifference(p, Power(k), Power(k));
  }

  /** In 64 bits the routine wraps to 0 exactly above 2^63. */
  lemma {:induction false} NextPow2WrapsExactlyWhen(v: nat)
    requires 1 <= v < Power(64)
    ensures NextPow2(v) % Power(64) == if v <= Power(63) then NextPowerOfTwo(v) else 0
    ensures NextPow2(v) % Power(64) == 0 <==> v > Power(63)
  {
    NextPow2Rounds(v);
    var p, w := NextPowerOfTwo(v), Power(64);
    assert w == 2 * Power(63);
    if v <= Power(63) {
      PowerIsPowerOfTwo(63);
      NextPowerIsLeast(v, Power(63));
      ModuloUnique(p, w, 0, p);
    } else {
      PowerAbove(p, 63);
      PowerIsPowerOfTwo(64);
      NextPowerIsLeast(v, w);
      ModuloUnique(p, w, 1, 0);
    }
  }

  /** `_next_power_of_2` on 64-bit words. */
  method RoundUp(v: nat) returns (p: nat)
    requires 1 <= v < Power(64)
    ensures p == if v <= Power(63) then NextPowerOfTwo(v) else 0
  {
    NextPow2WrapsExactlyWhen(v);
    p := NextPow2(v) % Power(64);
  }

  lemma {:induction false} BytesFit(v: nat, k: nat)
    requires 1 <= v <= Power(k)
    ensures (32 * NextPowerOfTwo(v)) % Power(k + 6) > 0
  {
    var p, w := NextPowerOfTwo(v), Power(k + 6);
    PowerIsPowerOfTwo(k);
    NextPowerIsLeast(v, Power(k));
    PowerFiveMore(k + 1);
    assert Power(k + 1) == 2 * Power(k);
    ModuloUnique(32 * p, w, 0, 32 * p);
  }

  lemma {:induction false} BytesVanish(v: nat, k: nat)
    requires v > Power(k)
    ensures (32 * NextPowerOfTwo(v)) % Power(k + 6) == 0
  {
    var p, b := NextPowerOfTwo(v), Power(k + 1);
    PowerAbove(p, k);
    PowerIsPowerOfTwo(k + 1);
    PowersDivide(b, p);
    PowerFiveMore(k + 1);
    ScaledMultiple(p, b, 32);
  }

  /** The byte count of a bucket array, 32 times a rounded capacity in words of k + 6 bits, is 0 exactly
      above 2^k buckets; the source's words have 64 bits. */
  lemma {:induction false} BytesVanishExactlyWhen(v: nat, p: nat, k: nat)
    requires 1 <= v && p == if v <= Power(k + 5) then NextPowerOfTwo(v) else 0
    ensures (32 * p) % Power(k + 6) == 0 <==> v > Power(k)
    ensures v <= Power(k) ==> p == NextPowerOfTwo(v)
  {
    PowerGrows(k, k + 5);
    if v <= Power(k) {
      BytesFit(v, k);
    } else if v <= Power(k + 5) {
      BytesVanish(v, k);
    } else {
      ModuloUnique(32 * p, Power(k + 6), 0, 0);
    }
  }
}
