/** Fermat's little theorem, which makes division by multiplication with
    b^(M-2) correct in `modulo_int_t` for a prime modulus M.

    The proof goes through the binomial theorem for (a + 1)^n and the fact that
    the prime p divides every inner binomial coefficient C(p, k), 0 < k < p. */
module Fermat {
  import Basic
  import Numbers

  /** Binomial coefficients by Pascal's rule; C(n, k) == 0 for k > n. */
  function Binom(n: nat, k: nat): nat {
    if k == 0 then 1
    else if n == 0 then 0
    else Binom(n - 1, k - 1) + Binom(n - 1, k)
  }

  /** The partial binomial sum C(n, 0) + C(n, 1) a + ... + C(n, j) a^j. */
  function BinSum(a: int, n: nat, j: nat): int {
    if j == 0 then 1 else BinSum(a, n, j - 1) + Binom(n, j) * Basic.IntPower(a, j)
  }

  lemma {:induction false} BinomAbove(n: nat, k: nat)
    requires k > n
    ensures Binom(n, k) == 0
  {
    if n > 0 {
      BinomAbove(n - 1, k - 1);
      BinomAbove(n - 1, k);
    }
  }

  lemma {:induction false} BinomDiagonal(n: nat)
    ensures Binom(n, n) == 1
  {
    if n > 0 {
      BinomDiagonal(n - 1);
      BinomAbove(n - 1, n);
    }
  }

  lemma {:induction false} BinomOne(n: nat)
    ensures Binom(n, 1) == n
  {
    if n > 0 {
      BinomOne(n - 1);
    }
  }

  lemma AbsorbArith(k: int, n: int, a: int, b: int, c: int, d: int)
    requires a == c + d && (k - 1) * a == (n - 1) * c && k * b == (n - 1) * d
    ensures k * (a + b) == n * a
  {
    calc {
      k * (a + b);
      (k - 1) * a + a + k * b;
      (n - 1) * c + a + (n - 1) * d;
      (n - 1) * (c + d) + a;
      n * a;
    }
  }

  /** The absorption identity k C(n, k) == n C(n - 1, k - 1). */
  lemma {:induction false} BinomAbsorb(n: nat, k: nat)
    requires 1 <= k <= n
    ensures k * Binom(n, k) == n * Binom(n - 1, k - 1)
  {
    if k == 1 {
      BinomOne(n);
    } else if k == n {
      BinomDiagonal(n);
      BinomDiagonal(n - 1);
    } else {
      // 2 <= k <= n - 1
      BinomAbsorb(n - 1, k - 1);
      BinomAbsorb(n - 1, k);
      var a, b := Binom(n - 1, k - 1), Binom(n - 1, k);
      var c, d := Binom(n - 2, k - 2), Binom(n - 2, k - 1);
      assert Binom(n, k) == a + b;
      assert a == c + d;
      AbsorbArith(k, n, a, b, c, d);
    }
  }

  lemma StepArith(a: int, s: int, s': int, c: int, c': int, x: int)
    requires (a + 1) * s == s' + c' * x
    ensures (a + 1) * (s + c * x) == s' + (c' + c) * x + c * (a * x)
  {
    calc {
      (a + 1) * (s + c * x);
      (a + 1) * s + (a + 1) * (c * x);
      s' + c' * x + (a + 1) * (c * x);
      s' + (c' + c) * x + c * (a * x);
    }
  }

  /** One induction step of the binomial theorem, on the partial sums. */
  lemma {:induction false} BinSumStep(a: int, n: nat, j: nat)
    requires j <= n
    ensures (a + 1) * BinSum(a, n, j) == BinSum(a, n + 1, j) + Binom(n, j) * Basic.IntPower(a, j + 1)
  {
    if j > 0 {
      BinSumStep(a, n, j - 1);
      var c, c', x := Binom(n, j), Binom(n, j - 1), Basic.IntPower(a, j);
      var s, s' := BinSum(a, n, j - 1), BinSum(a, n + 1, j - 1);
      assert Binom(n + 1, j) == c' + c;
      assert Basic.IntPower(a, j + 1) == a * x;
      assert BinSum(a, n, j) == s + c * x;
      assert BinSum(a, n + 1, j) == s' + (c' + c) * x;
      StepArith(a, s, s', c, c', x);
    }
  }

  /** The binomial theorem: (a + 1)^n is the full binomial sum. */
  lemma {:induction false} BinomialTheorem(a: int, n: nat)
    ensures Basic.IntPower(a + 1, n) == BinSum(a, n, n)
  {
    if n > 0 {
      BinomialTheorem(a, n - 1);
      BinSumStep(a, n - 1, n - 1);
      BinomDiagonal(n - 1);
      BinomDiagonal(n);
    }
  }

  /** Every k in (0, p) is coprime to the prime p. */
  lemma CoprimeBelowPrime(p: nat, k: nat)
    requires Numbers.IsPrime(p) && 0 < k < p
    ensures Numbers.IsGcd(1, k, p)
  {
    Numbers.DividesSelf(1);
    assert Numbers.Divides(1, k) && Numbers.Divides(1, p);
    forall d: nat | Numbers.CommonDivisor(d, k, p)
      ensures Numbers.Divides(d, 1)
    {
      Numbers.DividesBounded(d, k);
    }
  }

  /** p divides C(p, k) for 0 < k < p. */
  lemma PrimeDividesBinom(p: nat, k: nat)
    requires Numbers.IsPrime(p) && 0 < k < p
    ensures Numbers.Divides(p, Binom(p, k))
  {
    BinomAbsorb(p, k);
    Numbers.DividesMultiple(p, Binom(p - 1, k - 1));
    CoprimeBelowPrime(p, k);
    Numbers.CoprimeDivides(p, k, Binom(p, k));
  }

  /** Modulo p the inner part of the binomial sum vanishes. */
  lemma {:induction false} BinSumInnerVanishes(a: int, p: nat, j: nat)
    requires Numbers.IsPrime(p) && j < p
    ensures Numbers.Divides(p, BinSum(a, p, j) - 1)
  {
    if j == 0 {
      Numbers.DividesSelf(p);
    } else {
      BinSumInnerVanishes(a, p, j - 1);
      PrimeDividesBinom(p, j);
      Numbers.DividesLinear(p, BinSum(a, p, j - 1) - 1, Binom(p, j), 1, Basic.IntPower(a, j));
    }
  }

  /** The "freshman's dream": (a + 1)^p == a^p + 1 modulo p. */
  lemma FreshmansDream(a: int, p: nat)
    requires Numbers.IsPrime(p)
    ensures Numbers.Divides(p, Basic.IntPower(a + 1, p) - Basic.IntPower(a, p) - 1)
  {
    var inner := BinSum(a, p, p - 1) - 1;
    BinSumInnerVanishes(a, p, p - 1);
    assert Numbers.Divides(p, inner);
    DreamEquation(a, p);
  }

  /** (a + 1)^p - a^p is the binomial sum without its last term. */
  lemma DreamEquation(a: int, p: nat)
    requires p >= 1
    ensures Basic.IntPower(a + 1, p) - Basic.IntPower(a, p) - 1 == BinSum(a, p, p - 1) - 1
  {
    BinomialTheorem(a, p);
    BinomDiagonal(p);
    assert BinSum(a, p, p) == BinSum(a, p, p - 1) + 1 * Basic.IntPower(a, p);
  }

  /** a^p == a modulo p, for every a >= 0. */
  lemma {:induction false} FermatPower(a: nat, p: nat)
    requires Numbers.IsPrime(p)
    ensures Numbers.Divides(p, Basic.IntPower(a, p) - a)
  {
    if a == 0 {
      assert Basic.IntPower(0, p) == 0 * Basic.IntPower(0, p - 1);
      Numbers.DividesSelf(p);
    } else {
      FermatPower(a - 1, p);
      FreshmansDream(a - 1, p);
      Numbers.DividesLinear(p, Basic.IntPower(a - 1, p) - (a - 1),
        Basic.IntPower(a, p) - Basic.IntPower(a - 1, p) - 1, 1, 1);
    }
  }

  /** Fermat's little theorem: a^(p-1) == 1 modulo p when p does not divide a. */
  lemma FermatLittle(a: nat, p: nat)
    requires Numbers.IsPrime(p) && a % p != 0
    ensures Numbers.Divides(p, Basic.IntPower(a, p - 1) - 1)
  {
    FermatPower(a, p);
    assert Basic.IntPower(a, p) - a == a * (Basic.IntPower(a, p - 1) - 1);
    var g := Numbers.EuclidGcd(a, p);
    Numbers.EuclidGcdIsGcd(a, p);
    CoprimeToPrime(a, p);
    Numbers.CoprimeDivides(p, a, Basic.IntPower(a, p - 1) - 1);
  }

  /** A number the prime p does not divide is coprime to p. */
  lemma CoprimeToPrime(a: nat, p: nat)
    requires Numbers.IsPrime(p) && a % p != 0
    ensures Numbers.IsGcd(1, a, p)
  {
    Numbers.DividesSelf(1);
    assert Numbers.Divides(1, a) && Numbers.Divides(1, p);
    forall d: nat | Numbers.CommonDivisor(d, a, p)
      ensures Numbers.Divides(d, 1)
    {
      Numbers.DividesBounded(d, p);
    }
  }
}
