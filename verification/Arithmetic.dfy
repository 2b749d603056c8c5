/**
 Bitwise operations on natural numbers, bit by bit.
 */
module Bits {
  function Pow2(k: nat): (p: nat)
    ensures p > 0
  {
    if k == 0 then 1 else 2 * Pow2(k - 1)
  }

  predicate Bit(v: nat, k: nat) {
    if k == 0 then v % 2 == 1 else Bit(v / 2, k - 1)
  }

  function Or(a: nat, b: nat): nat {
    if a == 0 && b == 0 then 0
    else 2 * Or(a / 2, b / 2) + if a % 2 == 1 || b % 2 == 1 then 1 else 0
  }

  function And(a: nat, b: nat): nat {
    if a == 0 || b == 0 then 0
    else 2 * And(a / 2, b / 2) + if a % 2 == 1 && b % 2 == 1 then 1 else 0
  }

  /** Shifting right by `i`. */
  function Shr(v: nat, i: nat): nat {
    if i == 0 then v else Shr(v / 2, i - 1)
  }

  lemma {:induction false} ShrIsDivision(v: nat, i: nat)
    ensures Shr(v, i) == v / Pow2(i)
  {
    if i > 0 {
      ShrIsDivision(v / 2, i - 1);
      HalvesCompose(v, Pow2(i - 1));
    }
  }

  lemma {:induction false} HalvesCompose(v: nat, d: nat)
    requires d > 0
    ensures v / 2 / d == v / (2 * d)
  {
    DivisionParts(v / 2, d);
    DoubledParts(v, d, v / 2 / d, v / 2 % d);
  }

  lemma {:induction false} DivisionParts(v: nat, d: nat)
    requires d > 0
    ensures v == d * (v / d) + v % d
  {
  }

  lemma {:induction false} DoubledParts(v: nat, d: nat, q: nat, r: nat)
    requires r < d && v / 2 == d * q + r
    ensures v / (2 * d) == q
  {
    Regroup(q, d);
    DivisionUnique(v, 2 * d, q, 2 * r + v % 2);
  }

  lemma MultipleBound(d: int, t: int)
    requires d >= 0
    ensures t >= 1 ==> d * t >= d
    ensures t <= -1 ==> d * t <= -d
  {
  }

  lemma DivisionUnique(v: nat, d: nat, q: nat, r: nat)
    requires r < d && v == d * q + r
    ensures v / d == q && v % d == r
  {
    var q', r' := v / d, v % d;
    assert v == d * q' + r';
    assert d * (q - q') == r' - r;
    MultipleBound(d, q - q');
  }

  lemma DivisionCompose(n: nat, a: nat, b: nat)
    requires a > 0 && b > 0
    ensures a * b > 0 && n / a / b == n / (a * b)
  {
    DivisionParts(n, a);
    DivisionParts(n / a, b);
    Composed(n, a, b, n / a, n % a, n / a / b, n / a % b);
  }

  lemma Composed(n: nat, a: nat, b: nat, q: nat, r: nat, p: nat, t: nat)
    requires n == a * q + r && r < a && q == b * p + t && t < b
    ensures a * b > 0 && n / (a * b) == p
  {
    NestedParts(n, a, b, q, r, p, t);
    DivisionUnique(n, a * b, p, a * t + r);
  }

  lemma NestedParts(n: nat, a: nat, b: nat, q: nat, r: nat, p: nat, t: nat)
    requires n == a * q + r && r < a && q == b * p + t && t < b
    ensures n == a * b * p + (a * t + r) && a * t + r < a * b
  {
    assert a * q == a * (b * p) + a * t;
    assert a * (b * p) == a * b * p;
    assert a * (t + 1) == a * t + a;
    MultipleBound(a, b - t);
    assert a * b == a * t + a * (b - t);
  }

  lemma FloorMultiple(v: nat, d: nat)
    requires d > 0
    ensures (v / d * d) % d == 0 && v / d * d <= v < v / d * d + d
  {
    var q := v / d;
    assert v == d * q + v % d;
    DivisionUnique(d * q, d, q, 0);
  }

  lemma {:induction false} ZeroHasNoBits(k: nat)
    ensures !Bit(0, k)
  {
    if k > 0 {
      ZeroHasNoBits(k - 1);
    }
  }

  lemma {:induction false} OrHalves(a: nat, b: nat)
    ensures Or(a, b) / 2 == Or(a / 2, b / 2)
    ensures Or(a, b) % 2 == 1 <==> a % 2 == 1 || b % 2 == 1
  {
  }

  lemma {:induction false} BitOfOr(a: nat, b: nat, k: nat)
    ensures Bit(Or(a, b), k) <==> Bit(a, k) || Bit(b, k)
  {
    OrHalves(a, b);
    if k > 0 {
      BitOfOr(a / 2, b / 2, k - 1);
    }
  }

  lemma {:induction false} BitOfShr(v: nat, i: nat, k: nat)
    ensures Bit(Shr(v, i), k) <==> Bit(v, k + i)
  {
    if i > 0 {
      BitOfShr(v / 2, i - 1, k);
    }
  }

  lemma {:induction false} PowMonotone(a: nat, b: nat)
    requires a <= b
    ensures Pow2(a) <= Pow2(b)
    ensures a < b ==> 2 * Pow2(a) <= Pow2(b)
    decreases b
  {
    if a < b {
      PowMonotone(a, b - 1);
    }
  }

  lemma {:induction false} HighBitsClear(v: nat, w: nat, k: nat)
    requires v < Pow2(w) && w <= k
    ensures !Bit(v, k)
    decreases w
  {
    if w == 0 {
      ZeroHasNoBits(k);
    } else {
      HighBitsClear(v / 2, w - 1, k - 1);
    }
  }

  /** The position of the highest bit. */
  lemma {:induction false} TopBit(v: nat) returns (p: nat)
    requires v > 0
    ensures Pow2(p) <= v < Pow2(p + 1) && Bit(v, p)
    ensures forall k :: k > p ==> !Bit(v, k)
  {
    if v == 1 {
      p := 0;
    } else {
      var q := TopBit(v / 2);
      p := q + 1;
    }
    forall k | k > p ensures !Bit(v, k) {
      HighBitsClear(v, p + 1, k);
    }
  }

  /** All bits up to `p` and no others: one less than a power of two. */
  lemma {:induction false} AllOnes(x: nat, p: nat)
    requires forall k: nat :: Bit(x, k) <==> k <= p
    ensures x + 1 == Pow2(p + 1)
  {
    assert Bit(x, 0);
    if p == 0 {
      if x / 2 > 0 {
        var q := TopBit(x / 2);
        assert Bit(x, q + 1);
      }
    } else {
      forall k: nat ensures Bit(x / 2, k) <==> k <= p - 1 {
        assert Bit(x, k + 1) == Bit(x / 2, k);
      }
      AllOnes(x / 2, p - 1);
    }
  }

  lemma {:induction false} AndSelf(a: nat)
    ensures And(a, a) == a
  {
    if a > 0 {
      AndSelf(a / 2);
    }
  }

  ghost predicate IsPow2(c: nat) {
    exists k: nat :: c == Pow2(k)
  }

  lemma {:induction false} Pow2Halves(c: nat)
    requires c > 1
    ensures IsPow2(c) <==> c % 2 == 0 && IsPow2(c / 2)
  {
    if IsPow2(c) {
      var k: nat :| c == Pow2(k);
      assert c / 2 == Pow2(k - 1);
    }
    if c % 2 == 0 && IsPow2(c / 2) {
      var k: nat :| c / 2 == Pow2(k);
      assert c == Pow2(k + 1);
    }
  }

  /** Clearing the lowest bit leaves nothing exactly for powers of two. */
  lemma {:induction false} PowerOfTwoTest(c: nat)
    requires c > 0
    ensures And(c - 1, c) == 0 <==> IsPow2(c)
  {
    if c == 1 {
      assert c == Pow2(0);
    } else {
      Pow2Halves(c);
      if c % 2 == 0 {
        PowerOfTwoTest(c / 2);
        assert (c - 1) / 2 == c / 2 - 1;
      } else {
        AndSelf(c / 2);
        assert (c - 1) / 2 == c / 2;
      }
    }
  }

  /** Masking with the complement of 2^k - 1 in `w` bits rounds down to a multiple of 2^k. */
  lemma {:induction false} MaskRoundsDown(v: nat, k: nat, w: nat)
    requires k <= w && v < Pow2(w)
    ensures Pow2(k) <= Pow2(w) && And(v, Pow2(w) - Pow2(k)) == v / Pow2(k) * Pow2(k)
  {
    MaskIsShift(v, k, w);
    ShrIsDivision(v, k);
  }

  lemma {:induction false} MaskIsShift(v: nat, k: nat, w: nat)
    requires k <= w && v < Pow2(w)
    ensures Pow2(k) <= Pow2(w) && And(v, Pow2(w) - Pow2(k)) == Shr(v, k) * Pow2(k)
    decreases w
  {
    PowMonotone(k, w);
    if k == 0 {
      AllOnesMask(v, w);
    } else {
      MaskIsShift(v / 2, k - 1, w - 1);
      MaskStep(v, Pow2(w - 1), Pow2(k - 1), Shr(v / 2, k - 1));
    }
  }

  lemma {:induction false} MaskStep(v: nat, top: nat, d: nat, shifted: nat)
    requires d <= top && And(v / 2, top - d) == shifted * d
    ensures And(v, 2 * top - 2 * d) == shifted * (2 * d)
  {
    AndEven(v, top - d);
    assert 2 * (top - d) == 2 * top - 2 * d;
    Regroup(shifted, d);
  }

  lemma {:induction false} AndEven(v: nat, half: nat)
    ensures And(v, 2 * half) == 2 * And(v / 2, half)
  {
  }

  lemma {:induction false} Regroup(q: nat, d: nat)
    ensures 2 * (q * d) == q * (2 * d)
  {
  }

  lemma {:induction false} AllOnesMask(v: nat, w: nat)
    requires v < Pow2(w)
    ensures And(v, Pow2(w) - 1) == v
  {
    if w > 0 {
      AllOnesMask(v / 2, w - 1);
    }
  }
}

/**
 The fixed-width arithmetic of the services: rounding up to a power of two, aligning an
 address to its page, and the Fibonacci kernel in its two integer types.
 */
module Arithmetic {
  import opened Bits
  import opened Widths

  // ----- ceil_pow2

  /** Each bit of `x` is set exactly when one of the `i` bits of `v` from there up is. */
  ghost predicate Smeared(v: nat, x: nat, i: nat) {
    forall k: nat :: Bit(x, k) <==> Covered(v, k, i)
  }

  ghost predicate Covered(v: nat, k: nat, i: nat) {
    exists j: nat :: k <= j < k + i && Bit(v, j)
  }

  lemma {:induction false} SmearDoubles(v: nat, x: nat, i: nat)
    requires Smeared(v, x, i)
    ensures Smeared(v, Or(x, Shr(x, i)), 2 * i)
  {
    var y := Or(x, Shr(x, i));
    forall k: nat ensures Bit(y, k) <==> Covered(v, k, 2 * i) {
      BitOfOr(x, Shr(x, i), k);
      BitOfShr(x, i, k);
      assert Bit(y, k) <==> Covered(v, k, i) || Covered(v, k + i, i);
    }
  }

  /** Smearing over the whole width fills in everything below the highest bit. */
  lemma {:induction false} FullySmeared(v: nat, x: nat, i: nat, w: nat)
    requires Smeared(v, x, i) && v < Pow2(w) && w <= i
    ensures v == 0 ==> x == 0
    ensures v > 0 ==> exists p: nat :: Pow2(p) <= v < Pow2(p + 1) && x + 1 == Pow2(p + 1)
  {
    if v == 0 {
      if x > 0 {
        var p := TopBit(x);
        assert Covered(v, p, i);
        var j: nat :| p <= j < p + i && Bit(v, j);
        ZeroHasNoBits(j);
      }
    } else {
      var p := TopBit(v);
      forall k: nat ensures Bit(x, k) <==> k <= p {
        assert Bit(x, k) <==> Covered(v, k, i);
        if p >= w {
          HighBitsClear(v, w, p);
        }
      }
      AllOnes(x, p);
    }
  }

  ghost predicate LeastPowerFrom(v: nat, r: nat) {
    IsPow2(r) && v <= r && forall k: nat :: v <= Pow2(k) ==> r <= Pow2(k)
  }

  lemma {:induction false} NextPowerIsLeast(v: nat, p: nat)
    requires Pow2(p) < v <= Pow2(p + 1)
    ensures LeastPowerFrom(v, Pow2(p + 1))
  {
    forall k: nat | v <= Pow2(k) ensures Pow2(p + 1) <= Pow2(k) {
      if k <= p {
        PowMonotone(k, p);
      } else {
        PowMonotone(p + 1, k);
      }
    }
  }

  /** An increment that wraps at `top`. */
  function Incremented(x: nat, top: nat): nat
    requires top > 0
  {
    if x + 1 >= top then (x + 1) % top else x + 1
  }

  lemma IncrementWraps(top: nat)
    requires top > 0
    ensures Incremented(top - 1, top) == 0
  {
  }

  /** For every width: the least power of two from `v` up, if that fits in `w` bits and `v` is
      not zero; otherwise both the decrement and the increment wrap, and the result is zero. */
  method CeilPow2(v: nat, w: nat) returns (r: nat)
    requires w > 0 && v < Pow2(w)
    ensures 1 <= v <= Pow2(w - 1) ==> LeastPowerFrom(v, r)
    ensures !(1 <= v <= Pow2(w - 1)) ==> r == 0
  {
    ghost var p: nat := 0;
    var start: nat := if v == 0 then Pow2(w) - 1 else v - 1;
    var x: nat, i := start, 1;
    while i < w
      invariant Smeared(start, x, i) && i > 0
      decreases w - i
    {
      SmearDoubles(start, x, i);
      x := Or(x, Shr(x, i));
      i := 2 * i;
    }
    FullySmeared(start, x, i, w);
    r := Incremented(x, Pow2(w));
    IncrementWraps(Pow2(w));
    if start == 0 {
      assert Pow2(0) == 1;
      PowMonotone(0, w);
    } else {
      p :| Pow2(p) <= start < Pow2(p + 1) && x + 1 == Pow2(p + 1);
      Rounded(start, p, w);
      if v > 0 {
        NextPowerIsLeast(v, p);
      }
    }
  }

  lemma {:induction false} Rounded(start: nat, p: nat, w: nat)
    requires w > 0 && Pow2(p) <= start < Pow2(p + 1) && start < Pow2(w)
    ensures start < Pow2(w - 1) ==> Pow2(p + 1) < Pow2(w)
    ensures start >= Pow2(w - 1) ==> Pow2(p + 1) == Pow2(w)
  {
    if p + 1 < w {
      PowMonotone(p + 1, w - 1);
    } else if p + 1 > w {
      PowMonotone(w, p);
    }
  }

  // ----- page_align_mut

  /** For addresses of `w` bits and a page size that is a power of two, the aligned address is
      the start of the page. */
  lemma {:induction false} PageAlign(address: nat, k: nat, w: nat)
    requires k <= w && address < Pow2(w)
    ensures Pow2(k) <= Pow2(w)
    ensures var aligned := And(address, Pow2(w) - Pow2(k));
            aligned % Pow2(k) == 0 && aligned <= address < aligned + Pow2(k)
  {
    MaskRoundsDown(address, k, w);
    FloorMultiple(address, Pow2(k));
  }

  // ----- fib_kernel

  function Fib(n: nat): nat {
    if n < 2 then n else Fib(n - 1) + Fib(n - 2)
  }

  /** The kernel's second variable after `t` passes; it starts one place before Fib(0). */
  function Passed(t: nat): int {
    if t == 0 then 1 else Fib(t - 1)
  }

  function PassedBefore(t: nat): int {
    if t == 0 then -1 else Passed(t - 1)
  }

  lemma PassedStep(t: nat)
    ensures PassedBefore(t) + Passed(t) == Passed(t + 1)
  {
  }

  const I64_MAX := 0x7FFF_FFFF_FFFF_FFFF

  lemma WrappedSum(a: int, b: int)
    ensures (a % TWO64 + b % TWO64) % TWO64 == (a + b) % TWO64
  {
  }

  /** The unsigned kernel computes Fib(n) modulo 2^64. Its 32-bit counter can pass `n` only if
      `n` is not the largest value. */
  method FibUnsigned(n: nat) returns (r: nat)
    requires n < 0xFFFF_FFFF
    ensures r == Fib(n) % TWO64
  {
    var n1, n2 := TWO64 - 1, 1;
    var i: nat := 0;
    while i <= n
      invariant i <= n + 1
      invariant n1 == PassedBefore(i) % TWO64 && n2 == Passed(i) % TWO64
    {
      PassedStep(i);
      WrappedSum(PassedBefore(i), Passed(i));
      var sum := (n1 + n2) % TWO64;
      n1 := n2;
      n2 := sum;
      i := i + 1;
    }
    r := n2;
  }

  datatype Checked = Value(v: int) | Overflow

  lemma {:induction false} FibGrows(a: nat, b: nat)
    requires a <= b
    ensures Fib(a) <= Fib(b)
    decreases b
  {
    if a < b {
      FibGrows(a, b - 1);
    }
  }

  /** Ten steps of the recurrence at once. */
  lemma {:induction false} TenFurther(n: nat)
    ensures Fib(n + 10) == 34 * Fib(n) + 55 * Fib(n + 1)
    ensures Fib(n + 11) == 55 * Fib(n) + 89 * Fib(n + 1)
  {
    assert Fib(n + 4) == 2 * Fib(n) + 3 * Fib(n + 1);
    assert Fib(n + 5) == 3 * Fib(n) + 5 * Fib(n + 1);
    assert Fib(n + 8) == 2 * Fib(n + 4) + 3 * Fib(n + 5);
    assert Fib(n + 9) == 3 * Fib(n + 4) + 5 * Fib(n + 5);
  }

  function Tens(j: nat): (nat, nat) {
    if j == 0 then (0, 1)
    else
      var (a, b) := Tens(j - 1);
      (34 * a + 55 * b, 55 * a + 89 * b)
  }

  lemma {:induction false} TensAreFib(j: nat)
    ensures Tens(j) == (Fib(10 * j), Fib(10 * j + 1))
  {
    if j > 0 {
      TensAreFib(j - 1);
      TenFurther(10 * (j - 1));
    }
  }

  /** Fib(92) and Fib(93), on either side of the largest signed 64-bit integer. The index is
      kept a variable so that the numbers are reached through Tens, ten at a time, and not by
      unrolling Fib on a literal. */
  lemma {:induction false} LastThatFits(j: nat)
    requires j == 9
    ensures Fib(10 * j + 2) <= I64_MAX < Fib(10 * j + 3)
  {
    TensAreFib(j);
    NinetiethPair();
  }

  lemma NinetiethPair()
    ensures Tens(9) == (2880067194370816120, 4660046610375530309)
  {
    assert Tens(3) == (832040, 1346269);
    assert Tens(6) == (1548008755920, 2504730781961);
  }

  /** A 64-bit signed integer holds Fib(n) exactly up to n = 92. */
  lemma {:induction false} FitsUpTo92(n: nat)
    ensures Fib(n) <= I64_MAX <==> n <= 92
  {
    var j: nat :| j == 9;
    LastThatFits(j);
    if n <= 10 * j + 2 {
      FibGrows(n, 10 * j + 2);
    } else {
      FibGrows(10 * j + 3, n);
    }
  }

  /** The signed kernel with checked additions is exact for n up to 92 and overflows for all
      larger n. */
  method FibSigned(n: nat) returns (r: Checked)
    ensures n <= 92 ==> r == Value(Fib(n))
    ensures n > 92 ==> r == Overflow
  {
    var n1, n2 := -1, 1;
    var i: nat := 0;
    while i <= n
      invariant i <= n + 1 && i <= 93
      invariant n1 == PassedBefore(i) && n2 == Passed(i)
    {
      PassedStep(i);
      FitsUpTo92(i);
      var sum := n1 + n2;
      if sum > I64_MAX {
        return Overflow;
      }
      n1 := n2;
      n2 := sum;
      i := i + 1;
    }
    r := Value(n2);
  }
}
