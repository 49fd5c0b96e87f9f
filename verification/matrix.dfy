/** Dense integer matrices (src/comp/matrix.h).

    A matrix is its dimensions and a rectangular sequence of rows, the
    `multi_vector<T, 2>` of the source. Sums are element-wise, products are
    row-by-column sums accumulated over k = 0 .. m-1, and `identity` is the
    square unit matrix of the argument's size. */
module Matrix {
  import Basic

  datatype Matrix = Matrix(n: nat, m: nat, data: seq<seq<int>>)

  /** `data` really is `n` rows of `m` entries. */
  predicate Rect(a: Matrix) {
    |a.data| == a.n && forall i :: 0 <= i < a.n ==> |a.data[i]| == a.m
  }

  predicate SameShape(a: Matrix, b: Matrix) {
    Rect(a) && Rect(b) && a.n == b.n && a.m == b.m
  }

  /** `matrix (n, m)`: every entry value-initialised to 0. */
  function Zeros(n: nat, m: nat): (r: Matrix)
    ensures Rect(r) && r.n == n && r.m == m
    ensures forall i, j :: 0 <= i < n && 0 <= j < m ==> r.data[i][j] == 0
  {
    Matrix(n, m, seq(n, i => seq(m, j => 0)))
  }

  /** `operator+=` / `operator+`: entry-wise sum of two matrices of one shape. */
  function Add(a: Matrix, b: Matrix): (r: Matrix)
    requires SameShape(a, b)
    ensures SameShape(r, a)
    ensures forall i, j :: 0 <= i < a.n && 0 <= j < a.m ==> r.data[i][j] == a.data[i][j] + b.data[i][j]
  {
    Matrix(a.n, a.m, seq(a.n, i requires 0 <= i < a.n =>
      seq(a.m, j requires 0 <= j < a.m => a.data[i][j] + b.data[i][j])))
  }

  /** `operator-=` / `operator-`: entry-wise difference. */
  function Sub(a: Matrix, b: Matrix): (r: Matrix)
    requires SameShape(a, b)
    ensures SameShape(r, a)
    ensures forall i, j :: 0 <= i < a.n && 0 <= j < a.m ==> r.data[i][j] == a.data[i][j] - b.data[i][j]
  {
    Matrix(a.n, a.m, seq(a.n, i requires 0 <= i < a.n =>
      seq(a.m, j requires 0 <= j < a.m => a.data[i][j] - b.data[i][j])))
  }

  /** Two rectangular matrices of one shape with the same entries are equal. */
  lemma Extensionality(a: Matrix, b: Matrix)
    requires SameShape(a, b)
    requires forall i, j :: 0 <= i < a.n && 0 <= j < a.m ==> a.data[i][j] == b.data[i][j]
    ensures a == b
  {
    forall i | 0 <= i < a.n
      ensures a.data[i] == b.data[i]
    {
    }
  }

  /** Subtraction undoes addition: (A + B) - B == A. */
  lemma AddSubCancel(a: Matrix, b: Matrix)
    requires SameShape(a, b)
    ensures Sub(Add(a, b), b) == a
  {
    Extensionality(Sub(Add(a, b), b), a);
  }

  /** Addition undoes subtraction: (A - B) + B == A. */
  lemma SubAddCancel(a: Matrix, b: Matrix)
    requires SameShape(a, b)
    ensures Add(Sub(a, b), b) == a
  {
    Extensionality(Add(Sub(a, b), b), a);
  }

  /** Addition is commutative, so (A + B) - A == B as well. */
  lemma AddCommutes(a: Matrix, b: Matrix)
    requires SameShape(a, b)
    ensures Add(a, b) == Add(b, a)
  {
    Extensionality(Add(a, b), Add(b, a));
  }

  /** Sum over k < len of a[i][k] * b[k][j]: the inner loop of `operator*`. */
  function Dot(a: Matrix, b: Matrix, i: nat, j: nat, len: nat): int
    requires Rect(a) && Rect(b) && i < a.n && j < b.m && len <= a.m && len <= b.n
  {
    if len == 0 then 0 else Dot(a, b, i, j, len - 1) + a.data[i][len - 1] * b.data[len - 1][j]
  }

  /** `operator*`: an `n x m` matrix times an `m x p` matrix is `n x p`, entry
      (i, j) the sum of a[i][k] * b[k][j]. */
  function Mul(a: Matrix, b: Matrix): (r: Matrix)
    requires Rect(a) && Rect(b) && a.m == b.n
    ensures Rect(r) && r.n == a.n && r.m == b.m
    ensures forall i, j :: 0 <= i < a.n && 0 <= j < b.m ==> r.data[i][j] == Dot(a, b, i, j, a.m)
  {
    Matrix(a.n, b.m, seq(a.n, i requires 0 <= i < a.n =>
      seq(b.m, j requires 0 <= j < b.m => Dot(a, b, i, j, a.m))))
  }

  /** `operator*=`: both operands square and of the same size; the result is
      the product, again of that size. */
  function MulAssign(a: Matrix, b: Matrix): (r: Matrix)
    requires Rect(a) && Rect(b) && a.m == a.n && b.m == b.n && b.n == a.n
    ensures SameShape(r, a)
    ensures forall i, j :: 0 <= i < a.n && 0 <= j < a.n ==> r.data[i][j] == Dot(a, b, i, j, a.n)
    ensures a.n > 0 && b == Identity(a) ==> r == a
  {
    if a.n > 0 then
      MulIdentityRight(a, a);
      Mul(a, b)
    else
      Mul(a, b)
  }

  /** `basic::identity<matrix<T>>`: the square unit matrix of the argument's
      size, which must be square and non-empty. */
  function Identity(mat: Matrix): (r: Matrix)
    requires Rect(mat) && mat.n == mat.m && mat.n > 0
    ensures SameShape(r, mat)
    ensures forall i, j :: 0 <= i < mat.n && 0 <= j < mat.n ==> r.data[i][j] == (if i == j then 1 else 0)
  {
    Matrix(mat.n, mat.n, seq(mat.n, i => seq(mat.n, j => if i == j then 1 else 0)))
  }

  /** Against a unit column only the diagonal term survives. */
  lemma {:induction false} DotIdentityRight(a: Matrix, e: Matrix, i: nat, j: nat, len: nat)
    requires Rect(a) && Rect(e) && e.n == a.m && e.m == a.m && i < a.n && j < a.m && len <= a.m
    requires forall x, y :: 0 <= x < e.n && 0 <= y < e.n ==> e.data[x][y] == (if x == y then 1 else 0)
    ensures Dot(a, e, i, j, len) == (if j < len then a.data[i][j] else 0)
  {
    if len > 0 {
      DotIdentityRight(a, e, i, j, len - 1);
    }
  }

  lemma {:induction false} DotIdentityLeft(e: Matrix, a: Matrix, i: nat, j: nat, len: nat)
    requires Rect(a) && Rect(e) && e.n == a.n && e.m == a.n && i < a.n && j < a.m && len <= a.n
    requires forall x, y :: 0 <= x < e.n && 0 <= y < e.n ==> e.data[x][y] == (if x == y then 1 else 0)
    ensures Dot(e, a, i, j, len) == (if i < len then a.data[i][j] else 0)
  {
    if len > 0 {
      DotIdentityLeft(e, a, i, j, len - 1);
    }
  }

  /** M * I == M. */
  lemma MulIdentityRight(a: Matrix, mat: Matrix)
    requires Rect(a) && Rect(mat) && mat.n == mat.m && mat.n == a.m && a.m > 0
    ensures Mul(a, Identity(mat)) == a
  {
    var e := Identity(mat);
    forall i, j | 0 <= i < a.n && 0 <= j < a.m
      ensures Mul(a, e).data[i][j] == a.data[i][j]
    {
      DotIdentityRight(a, e, i, j, a.m);
    }
    Extensionality(Mul(a, e), a);
  }

  /** I * M == M. */
  lemma MulIdentityLeft(mat: Matrix, a: Matrix)
    requires Rect(a) && Rect(mat) && mat.n == mat.m && mat.n == a.n && a.n > 0
    ensures Mul(Identity(mat), a) == a
  {
    var e := Identity(mat);
    forall i, j | 0 <= i < a.n && 0 <= j < a.m
      ensures Mul(e, a).data[i][j] == a.data[i][j]
    {
      DotIdentityLeft(e, a, i, j, a.n);
    }
    Extensionality(Mul(e, a), a);
  }

  /** Sum over j < len of v[j] * a[j][i]: the inner loop of vector-times-matrix. */
  function VecDot(v: seq<int>, a: Matrix, i: nat, len: nat): int
    requires Rect(a) && |v| == a.n && i < a.m && len <= a.n
  {
    if len == 0 then 0 else VecDot(v, a, i, len - 1) + v[len - 1] * a.data[len - 1][i]
  }

  /** `std::vector<T> * matrix`: a row vector of length n times an `n x m`
      matrix is a row vector of length m. */
  function VecMul(v: seq<int>, a: Matrix): (r: seq<int>)
    requires Rect(a) && |v| == a.n
    ensures |r| == a.m
  {
    seq(a.m, i requires 0 <= i < a.m => VecDot(v, a, i, a.n))
  }

  /** The vector as a one-row matrix. */
  function RowMatrix(v: seq<int>): (r: Matrix)
    ensures Rect(r) && r.n == 1 && r.m == |v|
  {
    Matrix(1, |v|, [v])
  }

  lemma {:induction false} VecDotIsDot(v: seq<int>, a: Matrix, i: nat, len: nat)
    requires Rect(a) && |v| == a.n && i < a.m && len <= a.n
    ensures VecDot(v, a, i, len) == Dot(RowMatrix(v), a, 0, i, len)
  {
    if len > 0 {
      VecDotIsDot(v, a, i, len - 1);
    }
  }

  /** Vector-times-matrix is the one row of the one-row matrix product. */
  lemma VecMulIsRowProduct(v: seq<int>, a: Matrix)
    requires Rect(a) && |v| == a.n
    ensures VecMul(v, a) == Mul(RowMatrix(v), a).data[0]
  {
    forall i | 0 <= i < a.m
      ensures VecMul(v, a)[i] == Mul(RowMatrix(v), a).data[0][i]
    {
      VecDotIsDot(v, a, i, a.n);
    }
  }

  /** `operator==` compares the stored data. */
  predicate Equal(a: Matrix, b: Matrix) {
    a.data == b.data
  }

  /** For non-empty rectangular matrices, equal data means equal matrices. */
  lemma EqualIsIdentity(a: Matrix, b: Matrix)
    requires Rect(a) && Rect(b) && a.n > 0
    ensures Equal(a, b) <==> a == b
  {
    if Equal(a, b) {
      assert |a.data[0]| == a.m && |b.data[0]| == b.m;
    }
  }

  /** The matrices of the repository's tests. */
  function M1(): Matrix { Matrix(3, 3, [[2, 0, 0], [0, 2, 0], [0, 0, 2]]) }
  function M2(): Matrix { Matrix(3, 3, [[0, 1, 1], [1, 0, 1], [1, 1, 0]]) }
  function M3(): Matrix { Matrix(3, 3, [[2, 1, 1], [1, 2, 1], [1, 1, 2]]) }

  lemma SumExamples()
    ensures SameShape(M1(), M2()) && SameShape(M3(), M1())
    ensures Add(M1(), M2()) == M3()
    ensures Sub(M3(), M1()) == M2()
    ensures Sub(M3(), M2()) == M1()
  {
    Extensionality(Add(M1(), M2()), M3());
    Extensionality(Sub(M3(), M1()), M2());
    Extensionality(Sub(M3(), M2()), M1());
  }

  lemma ProductExample()
    ensures Rect(Matrix(2, 3, [[1, 2, 3], [4, 5, 6]])) && Rect(Matrix(3, 2, [[7, 8], [9, 10], [11, 12]]))
    ensures Mul(Matrix(2, 3, [[1, 2, 3], [4, 5, 6]]), Matrix(3, 2, [[7, 8], [9, 10], [11, 12]]))
      == Matrix(2, 2, [[58, 64], [139, 154]])
    ensures Mul(M2(), Identity(M2())) == M2()
  {
    var a, b := Matrix(2, 3, [[1, 2, 3], [4, 5, 6]]), Matrix(3, 2, [[7, 8], [9, 10], [11, 12]]);
    var c := Matrix(2, 2, [[58, 64], [139, 154]]);
    assert Dot(a, b, 0, 0, 3) == 58 && Dot(a, b, 0, 1, 3) == 64;
    assert Dot(a, b, 1, 0, 3) == 139 && Dot(a, b, 1, 1, 3) == 154;
    Extensionality(Mul(a, b), c);
    MulIdentityRight(M2(), M2());
  }

  // ---------------------------------------------------------------------------
  // `basic::pow` on 2 x 2 matrices: the Fibonacci test
  // ---------------------------------------------------------------------------

  predicate Square2(a: Matrix) {
    Rect(a) && a.n == 2 && a.m == 2
  }

  function Square2Fn(): Matrix -> bool {
    (a: Matrix) => Square2(a)
  }

  /** `*=` and `identity` on 2 x 2 matrices, the instance `pow` uses. */
  function Mat2Monoid(): Basic.Monoid<Matrix> {
    Basic.Monoid((a: Matrix, b: Matrix) => if Square2(a) && Square2(b) then Mul(a, b) else a,
      Identity(Zeros(2, 2)))
  }

  lemma Dot2(a: Matrix, b: Matrix, i: nat, j: nat)
    requires Square2(a) && Square2(b) && i < 2 && j < 2
    ensures Dot(a, b, i, j, 2) == a.data[i][0] * b.data[0][j] + a.data[i][1] * b.data[1][j]
  {
    assert Dot(a, b, i, j, 1) == a.data[i][0] * b.data[0][j];
  }

  /** The product of 2 x 2 matrices is associative. */
  lemma Mul2Assoc(a: Matrix, b: Matrix, c: Matrix)
    requires Square2(a) && Square2(b) && Square2(c)
    ensures Mul(Mul(a, b), c) == Mul(a, Mul(b, c))
  {
    var ab, bc := Mul(a, b), Mul(b, c);
    forall i, j | 0 <= i < 2 && 0 <= j < 2
      ensures Mul(ab, c).data[i][j] == Mul(a, bc).data[i][j]
    {
      Dot2(ab, c, i, j);
      Dot2(a, bc, i, j);
      Dot2(a, b, i, 0);
      Dot2(a, b, i, 1);
      Dot2(b, c, 0, j);
      Dot2(b, c, 1, j);
      Assoc2Arith(a.data[i][0], a.data[i][1], b.data[0][0], b.data[0][1], b.data[1][0], b.data[1][1],
        c.data[0][j], c.data[1][j]);
    }
    Extensionality(Mul(ab, c), Mul(a, bc));
  }

  lemma Assoc2Arith(a0: int, a1: int, b00: int, b01: int, b10: int, b11: int, c0: int, c1: int)
    ensures (a0 * b00 + a1 * b10) * c0 + (a0 * b01 + a1 * b11) * c1
         == a0 * (b00 * c0 + b01 * c1) + a1 * (b10 * c0 + b11 * c1)
  {
  }

  lemma Mat2MonoidLawful()
    ensures Basic.Lawful(Mat2Monoid(), Square2Fn())
  {
    var mo := Mat2Monoid();
    forall a, b, c | Square2(a) && Square2(b) && Square2(c)
      ensures mo.mul(mo.mul(a, b), c) == mo.mul(a, mo.mul(b, c))
    {
      Mul2Assoc(a, b, c);
    }
    forall a | Square2(a)
      ensures mo.mul(mo.one, a) == a && mo.mul(a, mo.one) == a
    {
      MulIdentityLeft(Zeros(2, 2), a);
      MulIdentityRight(a, Zeros(2, 2));
    }
  }

  function Fib(k: nat): nat {
    if k < 2 then k else Fib(k - 1) + Fib(k - 2)
  }

  function FibMatrix(): Matrix {
    Matrix(2, 2, [[0, 1], [1, 1]])
  }

  /** [[F(k-1), F(k)], [F(k), F(k+1)]]. */
  function FibAt(k: nat): Matrix
    requires k >= 1
  {
    Matrix(2, 2, [[Fib(k - 1), Fib(k)], [Fib(k), Fib(k + 1)]])
  }

  /** Multiplying by [[0, 1], [1, 1]] moves the closed form one step on. */
  lemma FibStep(k: nat)
    requires k >= 2
    ensures Square2(FibAt(k - 1)) && Mul(FibMatrix(), FibAt(k - 1)) == FibAt(k)
  {
    var f, p, r := FibMatrix(), FibAt(k - 1), FibAt(k);
    assert Fib(k + 1) == Fib(k) + Fib(k - 1);
    assert Fib(k) == Fib(k - 1) + Fib(k - 2);
    forall i, j | 0 <= i < 2 && 0 <= j < 2
      ensures Mul(f, p).data[i][j] == r.data[i][j]
    {
      Dot2(f, p, i, j);
    }
    Extensionality(Mul(f, p), r);
  }

  /** The k-th power of [[0, 1], [1, 1]] is [[F(k-1), F(k)], [F(k), F(k+1)]]. */
  lemma {:induction false} FibPower(k: nat)
    requires k >= 1
    ensures Basic.Power(Mat2Monoid(), FibMatrix(), k) == FibAt(k)
  {
    var f := FibMatrix();
    if k == 1 {
      MulIdentityRight(f, Zeros(2, 2));
      assert FibAt(1) == f;
    } else {
      FibPower(k - 1);
      FibStep(k);
      assert Basic.Power(Mat2Monoid(), f, k) == Mat2Monoid().mul(f, FibAt(k - 1));
    }
  }

  /** (1, 1) times the k-th power starts with F(k + 1). */
  lemma FibRow(k: nat)
    ensures Square2(Basic.Power(Mat2Monoid(), FibMatrix(), k))
    ensures VecMul([1, 1], Basic.Power(Mat2Monoid(), FibMatrix(), k))[0] == Fib(k + 1)
  {
    var p := Basic.Power(Mat2Monoid(), FibMatrix(), k);
    if k == 0 {
      assert p == Identity(Zeros(2, 2));
    } else {
      FibPower(k);
    }
    assert VecDot([1, 1], p, 0, 1) == p.data[0][0];
  }

  /** `basic::pow (m, i - 1)` on [[0, 1], [1, 1]]: the monoid power. */
  method FibMatrixPow(k: nat) returns (p: Matrix)
    ensures p == Basic.Power(Mat2Monoid(), FibMatrix(), k)
  {
    Mat2MonoidLawful();
    assert Square2Fn()(FibMatrix());
    p := Basic.Pow(Mat2Monoid(), Square2Fn(), FibMatrix(), k);
  }

  /** The Fibonacci routine of the repository's test: the first entry of
      (1, 1) * [[0, 1], [1, 1]]^(i-1), computed with `basic::pow`. */
  method FibViaPow(i: int) returns (r: int)
    requires i >= 1
    ensures r == Fib(i)
  {
    var p := FibMatrixPow(i - 1);
    FibRow(i - 1);
    r := VecMul([1, 1], p)[0];
  }

  /** Squaring [[F(n-1), F(n)], [F(n), F(n+1)]] gives the closed form at 2n. */
  lemma FibSquare(n: nat)
    requires n >= 1
    ensures Square2(FibAt(n)) && Mul(FibAt(n), FibAt(n)) == FibAt(2 * n)
  {
    var mo, f := Mat2Monoid(), FibMatrix();
    Mat2MonoidLawful();
    assert Square2Fn()(f);
    Basic.PowerAdd(mo, Square2Fn(), f, n, n);
    FibPower(n);
    FibPower(2 * n);
  }

  /** The doubling identities behind `pow`'s squaring step. */
  lemma FibDoubling(n: nat)
    requires n >= 1
    ensures Fib(2 * n) == Fib(n) * (Fib(n - 1) + Fib(n + 1))
    ensures Fib(2 * n + 1) == Fib(n) * Fib(n) + Fib(n + 1) * Fib(n + 1)
  {
    var a := FibAt(n);
    FibSquare(n);
    Dot2(a, a, 0, 1);
    Dot2(a, a, 1, 1);
    DoublingArith(Fib(n - 1), Fib(n), Fib(n + 1));
  }

  lemma DoublingArith(x: int, y: int, z: int)
    ensures x * y + y * z == y * (x + z)
  {
  }

  /** Fibonacci numbers n and n + 1 by repeated doubling, in as many steps as
      n has bits: the pair the matrix power holds, computed from the top. */
  function FibFast(n: nat): (r: (int, int))
    ensures r == (Fib(n), Fib(n + 1))
    decreases n
  {
    if n == 0 then (0, 1)
    else
      var m := n / 2;
      var h := FibFast(m);
      var lo := h.0 * (2 * h.1 - h.0);
      var hi := h.0 * h.0 + h.1 * h.1;
      FibFastStep(n, m, h.0, h.1, lo, hi);
      if n % 2 == 0 then (lo, hi) else (hi, lo + hi)
  }

  /** One doubling step: from F(m) and F(m + 1) to F(n) and F(n + 1) for
      n = 2m or n = 2m + 1. */
  lemma FibFastStep(n: nat, m: nat, a: int, b: int, lo: int, hi: int)
    requires n / 2 == m && a == Fib(m) && b == Fib(m + 1)
    requires lo == a * (2 * b - a) && hi == a * a + b * b
    ensures (if n % 2 == 0 then (lo, hi) else (hi, lo + hi)) == (Fib(n), Fib(n + 1))
  {
    FibPairStep(m, a, b, lo, hi);
    assert n == 2 * m || n == 2 * m + 1;
  }

  lemma FibPairStep(m: nat, a: int, b: int, lo: int, hi: int)
    requires a == Fib(m) && b == Fib(m + 1)
    requires lo == a * (2 * b - a) && hi == a * a + b * b
    ensures Fib(2 * m) == lo && Fib(2 * m + 1) == hi && Fib(2 * m + 2) == lo + hi
  {
    if m >= 1 {
      FibDoubling(m);
      assert Fib(m + 1) == Fib(m) + Fib(m - 1);
      DoubleStepArith(Fib(m - 1), a, b, Fib(2 * m), lo);
    }
    assert Fib(2 * m + 2) == Fib(2 * m + 1) + Fib(2 * m);
  }

  lemma DoubleStepArith(x: int, a: int, b: int, f: int, lo: int)
    requires b == a + x && f == a * (x + b) && lo == a * (2 * b - a)
    ensures f == lo
  {
  }

  /** The values the repository's test expects from its `fib`, the last two
      taken modulo 10^9 + 7, reached by doubling: 62 from 31, 15, 7 and 3;
      200 from 100, 50, 25, 12, 6 and 3. */
  lemma FibTestValues()
    ensures Fib(1) == 1 && Fib(2) == 1 && Fib(3) == 2
    ensures Fib(50) == 12586269025 && Fib(62) == 4052739537881
    ensures Fib(100) % 1000000007 == 687995182 && Fib(200) % 1000000007 == 349361645
  {
    FibPairStep(0, 0, 1, 0, 1);
    FibPairStep(1, 1, 1, 1, 2);
    FibPairStep(3, 2, 3, 8, 13);
    FibPairStep(7, 13, 21, 377, 610);
    FibPairStep(15, 610, 987, 832040, 1346269);
    FibPairStep(31, 1346269, 2178309, 4052739537881, 6557470319842);
    FibPairStep(6, 8, 13, 144, 233);
    FibPairStep(12, 144, 233, 46368, 75025);
    FibPairStep(25, 75025, 121393, 12586269025, 20365011074);
    FibPairStep(50, 12586269025, 20365011074, 354224848179261915075, 573147844013817084101);
    FibPairStep(100, 354224848179261915075, 573147844013817084101,
      280571172992510140037611932413038677189525, 453973694165307953197296969697410619233826);
  }
}
