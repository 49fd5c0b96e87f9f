/** Exponentiation by squaring (src/comp/basic.h).

    `basic::pow` is generic over any type with `operator*=` and an `identity<T>`
    specialisation. Here that interface is an explicit `Monoid`: the
    multiplication and its unit. The result is compared with `Power`, the
    naive "multiply `p` times onto the unit" definition. */
module Basic {

  /** The multiplication (`operator*=`) and unit (`identity<T>::value`) that `pow` relies on. */
  datatype Monoid<!T> = Monoid(mul: (T, T) -> T, one: T)

  /** The laws `pow` needs on the values `valid` admits: they contain the unit,
      are closed under the multiplication, which is associative there, and the
      unit is neutral on both sides. */
  ghost predicate Lawful<T(!new)>(m: Monoid<T>, valid: T -> bool) {
    && valid(m.one)
    && (forall a, b {:trigger m.mul(a, b)} :: valid(a) && valid(b) ==> valid(m.mul(a, b)))
    && (forall a, b, c {:trigger m.mul(m.mul(a, b), c)} :: valid(a) && valid(b) && valid(c) ==>
          m.mul(m.mul(a, b), c) == m.mul(a, m.mul(b, c)))
    && (forall a {:trigger m.mul(m.one, a)} :: valid(a) ==> m.mul(m.one, a) == a)
    && (forall a {:trigger m.mul(a, m.one)} :: valid(a) ==> m.mul(a, m.one) == a)
  }

  /** Reference definition: `val` multiplied `p` times onto the unit. */
  function Power<T>(m: Monoid<T>, val: T, p: nat): T {
    if p == 0 then m.one else m.mul(val, Power(m, val, p - 1))
  }

  /** val^p on unbounded integers. */
  function IntPower(val: int, p: nat): int {
    if p == 0 then 1 else val * IntPower(val, p - 1)
  }

  /** `identity<T>` for integral `T` is 1 and the multiplication is `*`. */
  function IntMonoid(): Monoid<int> {
    Monoid((a: int, b: int) => a * b, 1)
  }

  /** Every integer is a valid operand of integer `pow`. */
  function AnyInt(): int -> bool {
    (x: int) => true
  }

  lemma IntMonoidLawful()
    ensures Lawful(IntMonoid(), AnyInt())
  {
    var m := IntMonoid();
    forall a: int, b: int, c: int
      ensures m.mul(m.mul(a, b), c) == m.mul(a, m.mul(b, c))
    {
      assert (a * b) * c == a * (b * c);
    }
  }

  lemma {:induction false} IntMonoidPower(val: int, p: nat)
    ensures Power(IntMonoid(), val, p) == IntPower(val, p)
  {
    if p > 0 {
      IntMonoidPower(val, p - 1);
    }
  }

  lemma {:induction false} PowerValid<T(!new)>(m: Monoid<T>, valid: T -> bool, x: T, k: nat)
    requires Lawful(m, valid) && valid(x)
    ensures valid(Power(m, x, k))
  {
    if k > 0 {
      PowerValid(m, valid, x, k - 1);
    }
  }

  lemma {:induction false} PowerAdd<T(!new)>(m: Monoid<T>, valid: T -> bool, x: T, a: nat, b: nat)
    requires Lawful(m, valid) && valid(x)
    ensures Power(m, x, a + b) == m.mul(Power(m, x, a), Power(m, x, b))
  {
    PowerValid(m, valid, x, b);
    if a > 0 {
      PowerAdd(m, valid, x, a - 1, b);
      PowerValid(m, valid, x, a - 1);
      assert Power(m, x, a + b) == m.mul(x, Power(m, x, a - 1 + b));
    }
  }

  /** Squaring the base halves the exponent: the even branch of `pow`. */
  lemma {:induction false} PowerSquare<T(!new)>(m: Monoid<T>, valid: T -> bool, x: T, k: nat)
    requires Lawful(m, valid) && valid(x)
    ensures Power(m, m.mul(x, x), k) == Power(m, x, 2 * k)
  {
    if k > 0 {
      PowerSquare(m, valid, x, k - 1);
      PowerValid(m, valid, x, 2 * k - 2);
      calc {
        Power(m, m.mul(x, x), k);
        m.mul(m.mul(x, x), Power(m, x, 2 * k - 2));
        m.mul(x, m.mul(x, Power(m, x, 2 * k - 2)));
        { assert Power(m, x, 2 * k - 1) == m.mul(x, Power(m, x, 2 * k - 2)); }
        m.mul(x, Power(m, x, 2 * k - 1));
      }
    }
  }

  /** `basic::pow`: square-and-multiply. A non-positive exponent never enters
      the loop, so the result is the unit. The loop keeps
      `ret * mult^pw == val^p` and `pw` strictly decreases. */
  method Pow<T(!new)>(m: Monoid<T>, ghost valid: T -> bool, val: T, p: int) returns (ret: T)
    requires Lawful(m, valid) && valid(val)
    ensures p >= 0 ==> ret == Power(m, val, p)
    ensures p <= 0 ==> ret == m.one
  {
    var mult := val;
    ret := m.one;
    var pw := p;
    if p > 0 {
      PowerValid(m, valid, val, p);
    }
    while pw > 0
      invariant p <= 0 ==> pw == p && ret == m.one
      invariant p > 0 ==> pw >= 0 && valid(ret) && valid(mult)
      invariant p > 0 ==> m.mul(ret, Power(m, mult, pw)) == Power(m, val, p)
      decreases pw
    {
      PowerValid(m, valid, mult, pw - 1);
      if pw % 2 == 1 {
        pw := pw - 1;
        ret := m.mul(ret, mult);
      } else {
        PowerSquare(m, valid, mult, pw / 2);
        mult := m.mul(mult, mult);
        pw := pw / 2;
      }
    }
    if p > 0 {
      assert m.mul(ret, m.one) == Power(m, val, p);
    }
  }

  /** `basic::pow` on integers: val^p, and 1 for p <= 0. */
  method PowInt(val: int, p: int) returns (r: int)
    ensures p >= 0 ==> r == IntPower(val, p)
    ensures p <= 0 ==> r == 1
  {
    IntMonoidLawful();
    r := Pow(IntMonoid(), AnyInt(), val, p);
    if p >= 0 {
      IntMonoidPower(val, p);
    }
  }

  /** The values the repository's tests expect: 3^3, 5^0 and 25^1. */
  lemma PowExamples()
    ensures IntPower(3, 3) == 27 && IntPower(5, 0) == 1 && IntPower(25, 1) == 25
  {
  }

  /** The repository's `pow` test run through `pow` itself: 3^3 == 27,
      5^0 == 1 and 25^1 == 25. */
  method PowIntExamples() returns (a: int, b: int, c: int)
    ensures a == 27 && b == 1 && c == 25
  {
    a := PowInt(3, 3);
    b := PowInt(5, 0);
    c := PowInt(25, 1);
    PowExamples();
  }
}
