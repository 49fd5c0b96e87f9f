/** Integers modulo a fixed positive modulus (src/comp/modulo.h).

    `modulo_int_t<Type, Modulo>` keeps one representative `x`. Every way of
    building a value normalises it into [0, Modulo), and the arithmetic keeps it
    there; `==` compares representatives, which is datatype equality here. */
module Modulo {
  import Basic
  import Numbers
  import Fermat

  /** The template argument `Modulo`. */
  type Modulus = m: int | m > 0 witness 1

  /** A value of `modulo_int_t`: its representative. */
  datatype ModInt = ModInt(x: int)

  /** The representative is normalised. */
  predicate Valid(m: Modulus, a: ModInt) {
    0 <= a.x < m
  }

  function ValidFn(m: Modulus): ModInt -> bool {
    (a: ModInt) => Valid(m, a)
  }

  /** C++ `%` truncates toward zero: the remainder takes the sign of the dividend. */
  function TruncRem(a: int, m: Modulus): int {
    if a >= 0 then a % m else -((-a) % m)
  }

  lemma ModAddMultiple(z: int, k: int, m: Modulus)
    ensures (m * k + z) % m == z % m
  {
    var q := z / m;
    assert z == m * q + z % m;
    assert m * k + z == m * (k + q) + z % m;
    Numbers.DivModUnique(m * k + z, m, k + q, z % m);
  }

  /** Reducing a factor first does not change the product modulo m. */
  lemma ModMulMod(x: int, y: int, m: Modulus)
    ensures ((x % m) * y) % m == (x * y) % m
  {
    var q := x / m;
    assert x == m * q + x % m;
    assert x * y == m * (q * y) + (x % m) * y;
    ModAddMultiple((x % m) * y, q * y, m);
  }

  /** The normalising constructor `modulo_int_t (Type arg)`: the truncating
      remainder, moved up by `Modulo` when it is negative. The result is the
      representative of `arg`'s residue class in [0, Modulo). */
  function FromInt(m: Modulus, arg: int): (r: ModInt)
    ensures Valid(m, r)
    ensures r.x == arg % m
  {
    var t := TruncRem(arg, m);
    TruncRemShift(arg, m);
    ModInt(if t < 0 then t + m else t)
  }

  /** Moving a negative truncating remainder up by m gives the Euclidean one. */
  lemma TruncRemShift(arg: int, m: Modulus)
    ensures var t := TruncRem(arg, m); (if t < 0 then t + m else t) == arg % m
  {
    if arg < 0 {
      var s := (-arg) % m;
      var q := (-arg) / m;
      assert -arg == m * q + s;
      if s > 0 {
        assert arg == m * (-q - 1) + (m - s);
        Numbers.DivModUnique(arg, m, -q - 1, m - s);
      } else {
        assert arg == m * (-q) + 0;
        Numbers.DivModUnique(arg, m, -q, 0);
      }
    }
  }

  /** The default constructor value-initialises the representative to 0. */
  function Zero(): (r: ModInt)
    ensures forall m: Modulus :: Valid(m, r) && r == FromInt(m, 0)
  {
    ModInt(0)
  }

  /** `basic::identity<modulo_int_t>` converts 1, so it is the residue of 1. */
  function Identity(m: Modulus): (r: ModInt)
    ensures Valid(m, r) && r.x == 1 % m
    ensures forall a :: Valid(m, a) ==> Mul(m, r, a) == a && Mul(m, a, r) == a
  {
    IdentityNeutral(m);
    FromInt(m, 1)
  }

  lemma IdentityNeutral(m: Modulus)
    ensures forall a :: Valid(m, a) ==> Mul(m, FromInt(m, 1), a) == a && Mul(m, a, FromInt(m, 1)) == a
  {
    var one := FromInt(m, 1);
    forall a | Valid(m, a)
      ensures Mul(m, one, a) == a && Mul(m, a, one) == a
    {
      ModMulMod(1, a.x, m);
      Numbers.DivModUnique(a.x, m, 0, a.x);
      assert a.x * one.x == one.x * a.x;
    }
  }

  /** `operator+=`: add, then subtract `Modulo` once if the sum reached it. */
  function Add(m: Modulus, a: ModInt, b: ModInt): (r: ModInt)
    ensures Valid(m, a) && Valid(m, b) ==> Valid(m, r) && r.x == (a.x + b.x) % m
  {
    var s := a.x + b.x;
    OneSubtraction(s, m);
    ModInt(if s >= m then s - m else s)
  }

  /** A sum of two representatives needs at most one subtraction of m. */
  lemma OneSubtraction(s: int, m: Modulus)
    ensures 0 <= s < 2 * m ==> (if s >= m then s - m else s) == s % m
  {
    if 0 <= s < 2 * m {
      if s >= m {
        Numbers.DivModUnique(s, m, 1, s - m);
      } else {
        Numbers.DivModUnique(s, m, 0, s);
      }
    }
  }

  /** `operator-=`: subtract, then add `Modulo` once if the difference went negative. */
  function Sub(m: Modulus, a: ModInt, b: ModInt): (r: ModInt)
    ensures Valid(m, a) && Valid(m, b) ==> Valid(m, r) && r.x == (a.x - b.x) % m
  {
    var s := a.x - b.x;
    OneAddition(s, m);
    ModInt(if s < 0 then s + m else s)
  }

  /** A difference of two representatives needs at most one addition of m. */
  lemma OneAddition(s: int, m: Modulus)
    ensures 0 <= s + m && s < m ==> (if s < 0 then s + m else s) == s % m
  {
    if 0 <= s + m && s < m {
      if s < 0 {
        Numbers.DivModUnique(s, m, -1, s + m);
      } else {
        Numbers.DivModUnique(s, m, 0, s);
      }
    }
  }

  /** `operator*=`: multiply, then reduce if the product reached `Modulo`. */
  function Mul(m: Modulus, a: ModInt, b: ModInt): (r: ModInt)
    ensures Valid(m, a) && Valid(m, b) ==> Valid(m, r) && r.x == (a.x * b.x) % m
    ensures a.x >= 0 && b.x >= 0 ==> 0 <= r.x < m
  {
    var p := a.x * b.x;
    ReduceProduct(p, m);
    ModInt(if p >= m then TruncRem(p, m) else p)
  }

  lemma ReduceProduct(p: int, m: Modulus)
    ensures p >= 0 ==> (if p >= m then TruncRem(p, m) else p) == p % m
  {
    if 0 <= p < m {
      Numbers.DivModUnique(p, m, 0, p);
    }
  }

  /** `*=` and the identity make the normalised values a monoid, which is what
      `basic::pow` needs. */
  function ModMonoid(m: Modulus): Basic.Monoid<ModInt> {
    Basic.Monoid((a: ModInt, b: ModInt) => Mul(m, a, b), Identity(m))
  }

  /** `*=` is associative on normalised values. */
  lemma MulAssoc(m: Modulus, a: ModInt, b: ModInt, c: ModInt)
    requires Valid(m, a) && Valid(m, b) && Valid(m, c)
    ensures Mul(m, Mul(m, a, b), c) == Mul(m, a, Mul(m, b, c))
  {
    var x, y, z := a.x, b.x, c.x;
    ModMulMod(x * y, z, m);
    ModMulMod(y * z, x, m);
    assert (x * y) * z == (y * z) * x;
    assert x * ((y * z) % m) == ((y * z) % m) * x;
  }

  lemma ModMonoidLawful(m: Modulus)
    ensures Basic.Lawful(ModMonoid(m), ValidFn(m))
  {
    var mo := ModMonoid(m);
    forall a, b, c | Valid(m, a) && Valid(m, b) && Valid(m, c)
      ensures mo.mul(mo.mul(a, b), c) == mo.mul(a, mo.mul(b, c))
    {
      MulAssoc(m, a, b, c);
    }
  }

  /** `pow` in the modular monoid is the residue of the integer power. */
  lemma {:induction false} ModPower(m: Modulus, b: ModInt, k: nat)
    requires Valid(m, b)
    ensures Basic.Power(ModMonoid(m), b, k).x == Basic.IntPower(b.x, k) % m
  {
    if k > 0 {
      ModPower(m, b, k - 1);
      ModMonoidLawful(m);
      Basic.PowerValid(ModMonoid(m), ValidFn(m), b, k - 1);
      var t := Basic.IntPower(b.x, k - 1);
      ModMulMod(t, b.x, m);
      assert b.x * (t % m) == (t % m) * b.x;
      assert b.x * t == t * b.x;
    }
  }

  /** b * b^(m-2) is 1 modulo a prime m, for b not divisible by m. */
  lemma InverseTimes(m: Modulus, a: ModInt, b: ModInt)
    requires Numbers.IsPrime(m) && Valid(m, a) && Valid(m, b) && b.x != 0
    ensures (a.x * Basic.IntPower(b.x, m - 2) * b.x) % m == a.x
  {
    var e := Basic.IntPower(b.x, m - 1);
    var pw := Basic.IntPower(b.x, m - 2);
    Fermat.FermatLittle(b.x, m);
    Numbers.DividesQuotient(m, e - 1);
    PowerPred(b.x, m - 1);
    Regroup(a.x, pw, b.x, e);
    TimesOneMod(a.x, e, (e - 1) / m, m);
  }

  lemma Regroup(x: int, p: int, y: int, e: int)
    requires p * y == e
    ensures x * p * y == x * e
  {
  }

  lemma PowerPred(x: int, k: nat)
    requires k >= 1
    ensures Basic.IntPower(x, k - 1) * x == Basic.IntPower(x, k)
  {
  }

  /** Multiplying by a number that is 1 modulo m changes nothing. */
  lemma TimesOneMod(x: int, e: int, t: int, m: Modulus)
    requires 0 <= x < m && e - 1 == m * t
    ensures (x * e) % m == x
  {
    assert x * e == m * (x * t) + x;
    ModAddMultiple(x, x * t, m);
    Numbers.DivModUnique(x, m, 0, x);
  }

  /** `operator/=`: multiply by `pow(other, Modulo - 2)`. The operands are
      normalised, as every constructor leaves them. For a prime modulus and a
      non-zero divisor this is the inverse of `*`: (a / b) * b == a. */
  method Div(m: Modulus, a: ModInt, b: ModInt) returns (r: ModInt)
    requires Valid(m, a) && Valid(m, b)
    ensures Valid(m, r)
    ensures Numbers.IsPrime(m) && b.x != 0 ==> Mul(m, r, b) == a
  {
    ModMonoidLawful(m);
    var inv := Basic.Pow(ModMonoid(m), ValidFn(m), b, m - 2);
    if m >= 2 {
      Basic.PowerValid(ModMonoid(m), ValidFn(m), b, m - 2);
    }
    assert Valid(m, inv);
    r := Mul(m, a, inv);
    if Numbers.IsPrime(m) && b.x != 0 {
      ModPower(m, b, m - 2);
      DivideAssoc(m, a, b, Basic.IntPower(b.x, m - 2));
    }
  }

  /** (a * (p mod m)) * b == a * p * b modulo m. */
  lemma DivideAssoc(m: Modulus, a: ModInt, b: ModInt, p: int)
    requires Numbers.IsPrime(m) && Valid(m, a) && Valid(m, b) && b.x != 0 && p == Basic.IntPower(b.x, m - 2)
    ensures Mul(m, Mul(m, a, ModInt(p % m)), b) == a
  {
    ModMulMod(p, a.x, m);
    assert a.x * (p % m) == (p % m) * a.x;
    ModMulMod(a.x * p, b.x, m);
    InverseTimes(m, a, b);
  }

  /** For a prime modulus, multiplication by a non-zero value is injective, so
      the quotient `Div` produces is the only one. */
  lemma QuotientUnique(m: Modulus, r: ModInt, r': ModInt, b: ModInt)
    requires Numbers.IsPrime(m) && Valid(m, r) && Valid(m, r') && Valid(m, b) && b.x != 0
    requires Mul(m, r, b) == Mul(m, r', b)
    ensures r == r'
  {
    var d := r.x - r'.x;
    assert r.x * b.x - r'.x * b.x == b.x * d;
    SameResidue(r.x * b.x, r'.x * b.x, m);
    Fermat.CoprimeBelowPrime(m, b.x);
    Numbers.CoprimeDivides(m, b.x, d);
    if d != 0 {
      if d > 0 {
        Numbers.DividesBounded(m, d);
      } else {
        Numbers.DividesLinear(m, d, 0, -1, 0);
        Numbers.DividesBounded(m, -d);
      }
      assert false;
    }
  }

  /** Equal residues differ by a multiple of m. */
  lemma SameResidue(x: int, y: int, m: Modulus)
    requires x % m == y % m
    ensures Numbers.Divides(m, x - y)
  {
    assert x == m * (x / m) + x % m;
    assert y == m * (y / m) + y % m;
    assert x - y == m * (x / m - y / m);
    Numbers.DividesMultiple(m, x / m - y / m);
  }

  lemma ThirteenIsPrime()
    ensures Numbers.IsPrime(13)
  {
    forall d | 2 <= d < 13
      ensures 13 % d != 0
    {
      assert d in {2, 3, 4, 5, 6, 7, 8, 9, 10, 11, 12};
    }
  }

  /** The modulo-13 sequence of the repository's test: 6 + 3 == 9, + 4 == 0,
      - 5 == 8, 8 - 15 == 6, 8 * 3 == 11, 8 * 2 == 3, 3^3 == 3^6 == 1. */
  lemma ArithmeticExamples()
    ensures Add(13, FromInt(13, 6), FromInt(13, 3)) == ModInt(9)
    ensures Add(13, ModInt(9), FromInt(13, 4)) == ModInt(0)
    ensures Sub(13, ModInt(0), FromInt(13, 5)) == ModInt(8)
    ensures Sub(13, ModInt(8), FromInt(13, 15)) == ModInt(6)
    ensures Mul(13, ModInt(8), FromInt(13, 3)) == ModInt(11)
    ensures Mul(13, ModInt(8), FromInt(13, 2)) == ModInt(3)
    ensures Basic.Power(ModMonoid(13), ModInt(3), 3) == ModInt(1)
    ensures Basic.Power(ModMonoid(13), ModInt(3), 6) == ModInt(1)
  {
  }

  /** 3 / 3 == 1 and 3 / 4 == 4 modulo 13: any quotient `Div` can return is these. */
  lemma DivisionExamples(q1: ModInt, q2: ModInt)
    requires Valid(13, q1) && Mul(13, q1, ModInt(3)) == ModInt(3)
    requires Valid(13, q2) && Mul(13, q2, ModInt(4)) == ModInt(3)
    ensures q1 == ModInt(1) && q2 == ModInt(4)
  {
    ThirteenIsPrime();
    QuotientUnique(13, q1, ModInt(1), ModInt(3));
    QuotientUnique(13, q2, ModInt(4), ModInt(4));
  }
}
