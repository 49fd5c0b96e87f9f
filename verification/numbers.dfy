/** Euclid's gcd, lcm and trial-division prime factorisation (src/comp/numbers.h),
    together with the divisibility facts their contracts need. */
module Numbers {
  import Basic

  // ---------------------------------------------------------------------------
  // Divisibility
  // ---------------------------------------------------------------------------

  /** `d` divides `x`; 0 divides only 0. */
  predicate Divides(d: nat, x: int) {
    if d == 0 then x == 0 else x % d == 0
  }

  predicate CommonDivisor(d: nat, x: int, y: int) {
    Divides(d, x) && Divides(d, y)
  }

  /** `g` is the greatest common divisor of `a` and `b`: a common divisor that
      every common divisor divides. */
  ghost predicate IsGcd(g: nat, a: int, b: int) {
    CommonDivisor(g, a, b) && forall d: nat :: CommonDivisor(d, a, b) ==> Divides(d, g)
  }

  lemma MulAtLeast(d: int, m: int)
    requires d > 0 && m >= 1
    ensures d * m >= d
  {
  }

  lemma MulStrict(d: int, lo: int, hi: int)
    requires d > 0 && lo < hi
    ensures d * hi >= d * lo + d
  {
    MulAtLeast(d, hi - lo);
    assert d * (hi - lo) == d * hi - d * lo;
  }

  /** Euclidean division is unique: any `q`, `r` with `x == d*q + r` and `0 <= r < d` are `x / d` and `x % d`. */
  lemma DivModUnique(x: int, d: int, q: int, r: int)
    requires d > 0 && x == d * q + r && 0 <= r < d
    ensures x / d == q && x % d == r
  {
    var q0 := x / d;
    if q > q0 {
      MulStrict(d, q0, q);
      assert false;
    } else if q < q0 {
      MulStrict(d, q, q0);
      assert false;
    }
  }

  lemma DividesMultiple(d: nat, k: int)
    ensures Divides(d, d * k)
  {
    if d > 0 {
      DivModUnique(d * k, d, k, 0);
    }
  }

  lemma DividesQuotient(d: nat, x: int)
    requires d > 0 && Divides(d, x)
    ensures x == d * (x / d)
  {
  }

  lemma DividesLinear(d: nat, x: int, y: int, u: int, v: int)
    requires Divides(d, x) && Divides(d, y)
    ensures Divides(d, x * u + y * v)
  {
    if d > 0 {
      var a, b := x / d, y / d;
      assert x * u + y * v == d * (a * u + b * v) by {
        assert x == d * a && y == d * b;
      }
      DividesMultiple(d, a * u + b * v);
    }
  }

  lemma DividesTransitive(a: nat, b: nat, c: int)
    requires Divides(a, b) && Divides(b, c)
    ensures Divides(a, c)
  {
    if b > 0 && a > 0 {
      var k, l := b / a, c / b;
      assert c == a * (k * l) by {
        assert b == a * k && c == b * l;
      }
      DividesMultiple(a, k * l);
    }
  }

  lemma DividesBounded(d: nat, x: int)
    requires Divides(d, x) && x > 0
    ensures 0 < d <= x
  {
    if d > 0 {
      var k := x / d;
      assert x == d * k;
      if k <= 0 {
        MulNonPositive(d, k);
        assert false;
      }
      MulAtLeast(d, k);
    }
  }

  lemma MulNonPositive(d: int, k: int)
    requires d > 0 && k <= 0
    ensures d * k <= 0
  {
  }

  lemma DividesAntisymmetric(a: nat, b: nat)
    requires Divides(a, b) && Divides(b, a)
    ensures a == b
  {
    if a > 0 && b > 0 {
      DividesBounded(a, b);
      DividesBounded(b, a);
    }
  }

  lemma DividesSelf(d: nat)
    ensures Divides(d, d) && Divides(d, 0)
  {
    DividesMultiple(d, 1);
    DividesMultiple(d, 0);
  }

  /** One step of Euclid keeps the common divisors: those of (x, y) are those of (x % y, y). */
  lemma CommonDivisorMod(d: nat, x: int, y: int)
    requires y > 0
    ensures CommonDivisor(d, x % y, y) <==> CommonDivisor(d, x, y)
  {
    var q := x / y;
    assert x % y == x * 1 + y * (-q);
    assert x == (x % y) * 1 + y * q;
    if CommonDivisor(d, x, y) {
      DividesLinear(d, x, y, 1, -q);
    }
    if CommonDivisor(d, x % y, y) {
      DividesLinear(d, x % y, y, 1, q);
    }
  }

  lemma IsGcdUnique(g1: nat, g2: nat, a: int, b: int)
    requires IsGcd(g1, a, b) && IsGcd(g2, a, b)
    ensures g1 == g2
  {
    assert Divides(g1, g2);
    assert Divides(g2, g1);
    DividesAntisymmetric(g1, g2);
  }

  // ---------------------------------------------------------------------------
  // gcd
  // ---------------------------------------------------------------------------

  /** Reference definition: the textbook remainder recursion. */
  function EuclidGcd(a: nat, b: nat): nat
    decreases b
  {
    if b == 0 then a else EuclidGcd(b, a % b)
  }

  lemma {:induction false} EuclidGcdIsGcd(a: nat, b: nat)
    ensures IsGcd(EuclidGcd(a, b), a, b)
    decreases b
  {
    DividesSelf(a);
    if b > 0 {
      EuclidGcdIsGcd(b, a % b);
      var g := EuclidGcd(a, b);
      forall d: nat
        ensures CommonDivisor(d, b, a % b) <==> CommonDivisor(d, a, b)
      {
        CommonDivisorMod(d, a, b);
      }
      assert CommonDivisor(g, b, a % b);
    }
  }

  /** Bezout's identity: the gcd is an integer combination of its arguments. */
  lemma {:induction false} Bezout(a: nat, b: nat) returns (x: int, y: int)
    ensures a * x + b * y == EuclidGcd(a, b)
    decreases b
  {
    if b == 0 {
      x, y := 1, 0;
    } else {
      var x', y' := Bezout(b, a % b);
      var q := a / b;
      assert a % b == a - b * q;
      x, y := y', x' - q * y';
      calc {
        a * x + b * y;
        a * y' + b * x' - b * q * y';
        b * x' + (a - b * q) * y';
        b * x' + (a % b) * y';
      }
    }
  }

  /** If `d` is coprime to `a` and divides `a * k`, it divides `k`. */
  lemma CoprimeDivides(d: nat, a: nat, k: int)
    requires IsGcd(1, a, d) && Divides(d, a * k)
    ensures Divides(d, k)
  {
    EuclidGcdIsGcd(a, d);
    IsGcdUnique(1, EuclidGcd(a, d), a, d);
    var x, y := Bezout(a, d);
    DividesSelf(d);
    DividesLinear(d, a * k, d, x, k * y);
    assert (a * k) * x + d * (k * y) == k * (a * x + d * y);
  }

  /** (x, y) has exactly the common divisors of (a, b). */
  ghost predicate SameDivisors(x: int, y: int, a: int, b: int) {
    forall d: nat :: CommonDivisor(d, x, y) <==> CommonDivisor(d, a, b)
  }

  lemma SameDivisorsSwap(x: int, y: int, a: int, b: int)
    requires SameDivisors(x, y, a, b)
    ensures SameDivisors(y, x, a, b)
  {
  }

  /** One remainder step of the `gcd` loop keeps the common divisors. */
  lemma GcdStep(x: int, y: int, a: int, b: int)
    requires y > 0 && SameDivisors(x, y, a, b)
    ensures SameDivisors(x % y, y, a, b)
  {
    forall d: nat
      ensures CommonDivisor(d, x % y, y) <==> CommonDivisor(d, x, y)
    {
      CommonDivisorMod(d, x, y);
    }
  }

  /** Once one side is zero, the other side is the gcd. */
  lemma GcdDone(x: nat, y: nat, a: int, b: int)
    requires x == 0 || y == 0
    requires SameDivisors(x, y, a, b)
    ensures IsGcd(x + y, a, b)
  {
    DividesSelf(x + y);
    assert CommonDivisor(x + y, x, y);
    forall d: nat | CommonDivisor(d, a, b)
      ensures Divides(d, x + y)
    {
      assert CommonDivisor(d, x, y);
    }
  }

  /** `gcd`: repeated remainders until one side is zero, then the sum of the two.
      For non-negative arguments the result is their greatest common divisor
      (so gcd(a, 0) == a); when either argument is non-positive the loop is never
      entered and the sum is returned as is. */
  method Gcd(a: int, b: int) returns (r: int)
    ensures a >= 0 && b >= 0 ==> r >= 0 && IsGcd(r, a, b)
    ensures a <= 0 || b <= 0 ==> r == a + b
  {
    var lhs, rhs := a, b;
    while lhs > 0 && rhs > 0
      invariant a <= 0 || b <= 0 ==> lhs == a && rhs == b
      invariant a >= 0 && b >= 0 ==> lhs >= 0 && rhs >= 0 && SameDivisors(lhs, rhs, a, b)
      decreases lhs + rhs
    {
      if lhs > rhs {
        GcdStep(lhs, rhs, a, b);
        lhs := lhs % rhs;
      } else {
        SameDivisorsSwap(lhs, rhs, a, b);
        GcdStep(rhs, lhs, a, b);
        SameDivisorsSwap(rhs % lhs, lhs, a, b);
        rhs := rhs % lhs;
      }
    }
    r := lhs + rhs;
    if a >= 0 && b >= 0 {
      GcdDone(lhs, rhs, a, b);
    }
  }

  // ---------------------------------------------------------------------------
  // lcm
  // ---------------------------------------------------------------------------

  /** A positive multiple of `d` is `d` times a positive cofactor. */
  lemma Cofactor(d: nat, x: int)
    requires x > 0 && Divides(d, x)
    ensures d > 0 && x / d > 0 && x == d * (x / d)
  {
    DividesBounded(d, x);
    DividesQuotient(d, x);
    if x / d <= 0 {
      MulNonPositive(d, x / d);
      assert false;
    }
  }

  /** Scaling both sides keeps divisibility. */
  lemma DividesScaled(c: nat, d: nat, x: int)
    requires Divides(d, x)
    ensures Divides(c * d, c * x)
  {
    if d > 0 {
      var k := x / d;
      DividesQuotient(d, x);
      assert c * x == (c * d) * k;
      DividesMultiple(c * d, k);
    } else {
      assert c * d == 0 && c * x == 0;
    }
  }

  lemma MulAtMostSelf(g: int, h: int)
    requires g > 0 && h >= 1 && g * h <= g
    ensures h == 1
  {
    if h > 1 {
      MulStrict(g, 1, h);
      assert false;
    }
  }

  /** The cofactors of the gcd are coprime. */
  lemma GcdCofactorsCoprime(a: nat, b: nat, g: nat)
    requires a > 0 && b > 0 && IsGcd(g, a, b)
    ensures g > 0 && IsGcd(1, a / g, b / g)
  {
    Cofactor(g, a);
    Cofactor(g, b);
    var a', b' := a / g, b / g;
    var g' := EuclidGcd(a', b');
    EuclidGcdIsGcd(a', b');
    DividesScaled(g, g', a');
    DividesScaled(g, g', b');
    assert Divides(g * g', g);
    Cofactor(g', a');
    Cofactor(g * g', g);
    MulAtMostSelf(g, g');
    DividesSelf(1);
    forall d: nat | CommonDivisor(d, a', b')
      ensures Divides(d, 1)
    {
    }
  }

  /** Every common multiple of `a` and `b` is a multiple of `a / gcd * b`. */
  lemma LcmIsLeast(a: nat, b: nat, g: nat, m: int)
    requires a > 0 && b > 0 && IsGcd(g, a, b) && Divides(a, m) && Divides(b, m)
    ensures g > 0 && Divides(a / g * b, m)
  {
    GcdCofactorsCoprime(a, b, g);
    Cofactor(g, a);
    Cofactor(g, b);
    var a', b' := a / g, b / g;
    var k, l := m / a, m / b;
    DividesQuotient(a, m);
    DividesQuotient(b, m);
    // g * (a' * k) == g * (b' * l), so b' divides a' * k
    assert a' * k == b' * l by {
      CancelLeft(g, a' * k, b' * l);
    }
    DividesMultiple(b', l);
    CoprimeDivides(b', a', k);
    var t := k / b';
    DividesQuotient(b', k);
    assert m == (a' * b) * t by {
      assert m == a * k;
      assert a * k == (g * a') * (b' * t);
      assert (g * a') * (b' * t) == (a' * (g * b')) * t;
    }
    DividesMultiple(a' * b, t);
  }

  lemma CancelLeft(g: int, x: int, y: int)
    requires g > 0 && g * x == g * y
    ensures x == y
  {
    if x < y {
      MulStrict(g, x, y);
      assert false;
    } else if y < x {
      MulStrict(g, y, x);
      assert false;
    }
  }

  /** The gcd of two numbers, not both zero, is positive. */
  lemma GcdPositive(a: nat, b: nat, g: nat)
    requires a + b > 0 && IsGcd(g, a, b)
    ensures g > 0
  {
    if a > 0 {
      DividesBounded(g, a);
    } else {
      DividesBounded(g, b);
    }
  }

  /** `a / g * b` is a common multiple of `a` and `b`. */
  lemma LcmIsCommonMultiple(a: nat, b: nat, g: nat)
    requires a > 0 && b > 0 && IsGcd(g, a, b)
    ensures g > 0 && Divides(a, a / g * b) && Divides(b, a / g * b)
  {
    Cofactor(g, a);
    Cofactor(g, b);
    var a', b' := a / g, b / g;
    assert a' * b == a * b' by {
      assert a' * b == a' * (g * b');
      assert a * b' == (g * a') * b';
    }
    DividesMultiple(a, b');
    DividesMultiple(b, a');
  }

  /** `lcm`: `a / gcd(a, b) * b`. The division needs a non-zero gcd, so not both
      arguments may be zero. The result is a common multiple that divides every
      common multiple; it is 0 when either argument is 0. */
  method Lcm(a: int, b: int) returns (r: int)
    requires a >= 0 && b >= 0 && a + b > 0
    ensures r >= 0 && Divides(a, r) && Divides(b, r)
    ensures forall m :: Divides(a, m) && Divides(b, m) ==> Divides(r, m)
    ensures a == 0 || b == 0 ==> r == 0
  {
    var g := Gcd(a, b);
    GcdPositive(a, b, g);
    r := a / g * b;
    if a == 0 || b == 0 {
      assert r == 0;
      DividesSelf(a);
      DividesSelf(b);
    } else {
      LcmIsCommonMultiple(a, b, g);
      forall m | Divides(a, m) && Divides(b, m)
        ensures Divides(r, m)
      {
        LcmIsLeast(a, b, g, m);
      }
    }
  }

  /** The repository's `gcd` and `lcm` test: gcd(6, 9) == 3, gcd(25, 1) == 1,
      lcm(7, 6) == 42 and lcm(15, 6) == 30, each pinned down by the contracts
      of `Gcd` and `Lcm` alone. */
  method GcdLcmExamples() returns (g1: int, g2: int, l1: int, l2: int)
    ensures g1 == 3 && g2 == 1 && l1 == 42 && l2 == 30
  {
    g1 := Gcd(6, 9);
    GcdOfSixNine(g1);
    g2 := Gcd(25, 1);
    DividesBounded(g2, 1);
    l1 := Lcm(7, 6);
    LcmPinned(l1, 7, 6, 42);
    l2 := Lcm(15, 6);
    LcmPinned(l2, 15, 6, 30);
  }

  lemma GcdOfSixNine(g: int)
    requires g >= 0 && IsGcd(g, 6, 9)
    ensures g == 3
  {
    assert CommonDivisor(3, 6, 9);
    DividesBounded(g, 6);
    var q := g / 3;
    assert g == 3 * q;
    assert 1 <= q <= 2;
  }

  /** A common multiple of a and b that divides the common multiple n, and is
      a multiple of a, is n when no smaller multiple of a is a multiple of b. */
  lemma LcmPinned(l: int, a: nat, b: nat, n: int)
    requires a > 0 && b > 0 && n > 0 && Divides(a, n) && Divides(b, n)
    requires l >= 0 && Divides(a, l) && Divides(b, l)
    requires forall m :: Divides(a, m) && Divides(b, m) ==> Divides(l, m)
    requires forall q :: 1 <= q < n / a ==> (a * q) % b != 0
    ensures l == n
  {
    assert Divides(l, n);
    DividesBounded(l, n);
    Cofactor(a, l);
    var q := l / a;
    DividesQuotient(a, n);
    if q < n / a {
      assert false;
    } else if q > n / a {
      MulStrict(a, n / a, q);
      assert false;
    }
  }

  // ---------------------------------------------------------------------------
  // Prime decomposition
  // ---------------------------------------------------------------------------

  predicate IsPrime(p: int) {
    p >= 2 && forall d :: 2 <= d < p ==> p % d != 0
  }

  /** One entry of the result: `prime` raised to `power`. */
  datatype Factor = Factor(prime: int, power: nat)

  /** The number a decomposition stands for: the product of prime^power. */
  function Product(fs: seq<Factor>): int {
    if fs == [] then 1 else Product(fs[..|fs| - 1]) * Basic.IntPower(fs[|fs| - 1].prime, fs[|fs| - 1].power)
  }

  /** n has no divisor in [2, i). */
  predicate NoFactorBelow(n: int, i: int) {
    forall d :: 2 <= d < i ==> n % d != 0
  }

  lemma PowerPositive(x: int, k: nat)
    requires x >= 1
    ensures Basic.IntPower(x, k) >= 1
  {
    if k > 0 {
      PowerPositive(x, k - 1);
      MulAtLeast(Basic.IntPower(x, k - 1), x);
    }
  }

  /** A divisor of a number that divides `n` divides `n`, so a number without small factors
      keeps none after dividing out some of its factors. */
  lemma NoFactorBelowQuotient(n: int, m: int, c: int, i: int)
    requires n == c * m && NoFactorBelow(n, i)
    ensures NoFactorBelow(m, i)
  {
    forall d | 2 <= d < i
      ensures m % d != 0
    {
      if m % d == 0 {
        DividesQuotient(d, m);
        assert n == d * (c * (m / d));
        DividesMultiple(d, c * (m / d));
      }
    }
  }

  /** The first divisor found by trial division is prime. */
  lemma SmallestFactorIsPrime(n: int, i: int)
    requires 2 <= i && n % i == 0 && NoFactorBelow(n, i)
    ensures IsPrime(i)
  {
    forall d | 2 <= d < i
      ensures i % d != 0
    {
      if i % d == 0 {
        DividesTransitive(d, i, n);
      }
    }
  }

  lemma MulMonotone(i: int, d: int, e: int)
    requires 0 <= i <= d && i <= e
    ensures i * i <= d * e
  {
    assert i * i <= i * e;
    assert i * e <= d * e;
  }

  /** A proper divisor `d` of a number without factors below `i` pairs with a
      cofactor that has none either, so `i * i` cannot exceed the number. */
  lemma FactorPairAtLeastSquare(n: int, d: int, i: int)
    requires 2 <= i && 2 <= d < n && n % d == 0 && NoFactorBelow(n, i)
    ensures i * i <= n
  {
    var e := n / d;
    DividesQuotient(d, n);
    assert n == d * e;
    assert e > 1 by {
      if e <= 1 {
        MulStrict(d, e, 2);
        assert false;
      }
    }
    DividesMultiple(e, d);
    assert e * d == n;
    assert n % e == 0;
    assert d >= i && e >= i;
    MulMonotone(i, d, e);
  }

  /** What is left after trial division up to sqrt(n) is prime. */
  lemma LeftoverIsPrime(n: int, i: int)
    requires n > 1 && i >= 2 && i * i > n && NoFactorBelow(n, i)
    ensures IsPrime(n) && n >= i
  {
    assert n % n == 0;
    assert n >= i;
    forall d | 2 <= d < n
      ensures n % d != 0
    {
      if n % d == 0 {
        FactorPairAtLeastSquare(n, d, i);
        assert false;
      }
    }
  }

  lemma ProductAppend(fs: seq<Factor>, f: Factor)
    ensures Product(fs + [f]) == Product(fs) * Basic.IntPower(f.prime, f.power)
  {
    assert (fs + [f])[..|fs|] == fs;
  }

  /** One pass of the inner loop: `n0 == i^power * n` still holds after dividing `n` by `i`. */
  lemma DivideStep(n0: int, i: int, power: nat, n: int)
    requires i >= 2 && n >= 1 && n % i == 0 && n0 == Basic.IntPower(i, power) * n
    ensures n0 == Basic.IntPower(i, power + 1) * (n / i) && 1 <= n / i < n
  {
    var q := n / i;
    DividesQuotient(i, n);
    assert q >= 1 by {
      if q <= 0 {
        MulNonPositive(i, q);
        assert false;
      }
    }
    MulStrict(q, 1, i);
    assert Basic.IntPower(i, power + 1) * q == Basic.IntPower(i, power) * (i * q);
  }

  /** The inner loop of `prime_decomposition`: divide `i` out of `n0` as often as
      it goes (at least once). */
  method DivideOut(n0: int, i: int) returns (power: nat, n: int)
    requires i >= 2 && n0 >= 1 && n0 % i == 0
    ensures power >= 1 && 1 <= n < n0 && n % i != 0
    ensures n0 == Basic.IntPower(i, power) * n
  {
    assert n0 == Basic.IntPower(i, 0) * n0;
    DivideStep(n0, i, 0, n0);
    power := 1;
    n := n0 / i;
    while n % i == 0
      invariant power >= 1 && 1 <= n < n0
      invariant n0 == Basic.IntPower(i, power) * n
      decreases n
    {
      DivideStep(n0, i, power, n);
      power := power + 1;
      n := n / i;
    }
  }

  /** Appending `i^power` to the decomposition keeps `product * rest == number`. */
  lemma AppendFactor(ret: seq<Factor>, i: int, power: nat, n: int, rest: int, number: int)
    requires Product(ret) * n == number && n == Basic.IntPower(i, power) * rest
    ensures Product(ret + [Factor(i, power)]) * rest == number
  {
    ProductAppend(ret, Factor(i, power));
    MulRegroup(Product(ret), Basic.IntPower(i, power), rest, n, number);
  }

  lemma MulRegroup(p: int, q: int, rest: int, n: int, number: int)
    requires p * n == number && n == q * rest
    ensures (p * q) * rest == number
  {
  }

  /** `prime_decomposition`: trial division by increasing `i` while `i * i` does
      not exceed what is left of the number. Each divisor found is divided out as
      often as it goes, and a leftover above 1 is a final prime with power 1.
      For `number >= 1` the result multiplies back to `number`; below 2 it is empty.
      The primes are strictly increasing and every power is at least 1. */
  method PrimeDecomposition(number: int) returns (ret: seq<Factor>)
    ensures number >= 1 ==> Product(ret) == number
    ensures number <= 1 ==> ret == []
    ensures forall k :: 0 <= k < |ret| ==> IsPrime(ret[k].prime) && ret[k].power >= 1
    ensures forall k, l :: 0 <= k < l < |ret| ==> ret[k].prime < ret[l].prime
  {
    var n := number;
    ret := [];
    var i := 2;
    while i * i <= n
      invariant 2 <= i
      invariant number >= 1 ==> n >= 1 && Product(ret) * n == number
      invariant number <= 1 ==> n == number && ret == []
      invariant NoFactorBelow(n, i)
      invariant forall k :: 0 <= k < |ret| ==> IsPrime(ret[k].prime) && ret[k].power >= 1 && ret[k].prime < i
      invariant forall k, l :: 0 <= k < l < |ret| ==> ret[k].prime < ret[l].prime
      decreases n - i + 1
    {
      MulAtLeast(i, i);
      assert n >= 2 && number >= 1;
      if n % i == 0 {
        SmallestFactorIsPrime(n, i);
        var power, rest := DivideOut(n, i);
        NoFactorBelowQuotient(n, rest, Basic.IntPower(i, power), i);
        AppendFactor(ret, i, power, n, rest, number);
        ret := ret + [Factor(i, power)];
        n := rest;
      }
      i := i + 1;
    }
    if n > 1 {
      LeftoverIsPrime(n, i);
      ProductAppend(ret, Factor(n, 1));
      ret := ret + [Factor(n, 1)];
    }
  }
}
