/** Signed base-`DigitSize` long numbers (src/comp/longnum.h).

    A number is a sign and a little-endian digit vector. The loops of the
    source (the integral constructor, `operator+`, `operator*`) are written as
    tail-recursive functions, one call per loop iteration, carrying the loop's
    variables as parameters. */
module LongNum {
  import Basic
  import Numbers

  /** The template argument `DigitSize`; the constructor's `number /= DigitSize`
      loop only terminates for a base of at least 2. */
  type Base = b: int | b >= 2 witness 2

  datatype Sign = Plus | Minus

  datatype LongNum = LongNum(digits: seq<int>, sign: Sign)

  function Negate(s: Sign): Sign {
    if s == Plus then Minus else Plus
  }

  function Pow(b: Base, k: nat): int {
    Basic.IntPower(b, k)
  }

  // ---------------------------------------------------------------------------
  // Digits and their value
  // ---------------------------------------------------------------------------

  /** Every stored digit is in [0, DigitSize): what `assign_digit` checks. */
  predicate DigitsValid(ds: seq<int>, b: Base) {
    forall i :: 0 <= i < |ds| ==> 0 <= ds[i] < b
  }

  /** Valid digits without trailing zeros: the shape `shrink_to_fit` leaves. */
  predicate Canonical(ds: seq<int>, b: Base) {
    DigitsValid(ds, b) && (ds == [] || ds[|ds| - 1] != 0)
  }

  /** The magnitude the digits stand for, least significant first. */
  function Mag(ds: seq<int>, b: Base): int {
    if ds == [] then 0 else ds[0] + b * Mag(ds[1..], b)
  }

  /** The signed value. */
  function Value(x: LongNum, b: Base): int {
    if x.sign == Minus then -Mag(x.digits, b) else Mag(x.digits, b)
  }

  /** The magnitude of the lowest `i` digit positions. */
  function Low(ds: seq<int>, i: nat, b: Base): int {
    Mag(ds[..if i < |ds| then i else |ds|], b)
  }

  function Zeros(k: nat): seq<int> {
    seq(k, _ => 0)
  }

  lemma PowPositive(b: Base, k: nat)
    ensures Pow(b, k) >= 1
  {
    Numbers.PowerPositive(b, k);
  }

  lemma PowStep(b: Base, k: nat)
    ensures Pow(b, k + 1) == b * Pow(b, k)
  {
  }

  /** Appending a digit adds it at weight b^|ds|. */
  lemma {:induction false} MagAppend(ds: seq<int>, v: int, b: Base)
    ensures Mag(ds + [v], b) == Mag(ds, b) + v * Pow(b, |ds|)
  {
    if ds != [] {
      assert (ds + [v])[1..] == ds[1..] + [v];
      MagAppend(ds[1..], v, b);
      PowStep(b, |ds| - 1);
      MulDistrib(b, Mag(ds[1..], b), v * Pow(b, |ds| - 1));
    }
  }

  lemma MulDistrib(b: int, x: int, y: int)
    ensures b * (x + y) == b * x + b * y
  {
  }

  lemma {:induction false} MagZeros(k: nat, b: Base)
    ensures Mag(Zeros(k), b) == 0
  {
    if k > 0 {
      assert Zeros(k)[1..] == Zeros(k - 1);
      MagZeros(k - 1, b);
    }
  }

  lemma {:induction false} MagConcatZeros(ds: seq<int>, k: nat, b: Base)
    ensures Mag(ds + Zeros(k), b) == Mag(ds, b)
  {
    if ds == [] {
      assert ds + Zeros(k) == Zeros(k);
      MagZeros(k, b);
    } else {
      assert (ds + Zeros(k))[1..] == ds[1..] + Zeros(k);
      MagConcatZeros(ds[1..], k, b);
    }
  }

  /** Valid digits stand for a value in [0, b^|ds|). */
  lemma {:induction false} MagBounds(ds: seq<int>, b: Base)
    requires DigitsValid(ds, b)
    ensures 0 <= Mag(ds, b) < Pow(b, |ds|)
  {
    if ds != [] {
      MagBounds(ds[1..], b);
      PowStep(b, |ds| - 1);
      DigitBound(ds[0], Mag(ds[1..], b), Pow(b, |ds| - 1), b);
    }
  }

  /** One more digit below a bounded value stays below the next power. */
  lemma DigitBound(d: int, m: int, p: int, b: int)
    requires 0 <= d < b && 0 <= m < p
    ensures 0 <= d + b * m < b * p
  {
    MulMono(b, m, p - 1);
  }

  /** A stored digit of valid digits is in range. */
  lemma DigitInRange(ds: seq<int>, i: nat, b: Base)
    requires DigitsValid(ds, b)
    ensures 0 <= Digit(ds, i) < b
  {
  }

  lemma MulMono(b: int, x: int, y: int)
    requires b >= 0 && x <= y
    ensures b * x <= b * y
  {
  }

  lemma LowStep(ds: seq<int>, i: nat, b: Base)
    ensures Low(ds, i + 1, b) == Low(ds, i, b) + Digit(ds, i) * Pow(b, i)
  {
    if i < |ds| {
      assert ds[..i + 1] == ds[..i] + [ds[i]];
      MagAppend(ds[..i], ds[i], b);
    }
  }

  lemma LowAll(ds: seq<int>, i: nat, b: Base)
    requires i >= |ds|
    ensures Low(ds, i, b) == Mag(ds, b)
  {
    assert ds[..|ds|] == ds;
  }

  // ---------------------------------------------------------------------------
  // digit, assign_digit, shrink_to_fit
  // ---------------------------------------------------------------------------

  /** `digit (i)`: the stored digit, or 0 past the end. */
  function Digit(ds: seq<int>, i: nat): (r: int)
    ensures i >= |ds| ==> r == 0
    ensures i < |ds| ==> r == ds[i]
  {
    if i < |ds| then ds[i] else 0
  }

  /** `assign_digit (i, value)`: grow with zeros to at least `i + 1` digits,
      then store `value` at `i`. The source asserts `value < DigitSize`. */
  function AssignDigit(ds: seq<int>, i: nat, v: int, b: Base): (r: seq<int>)
    requires v < b
    ensures |r| == if |ds| < i + 1 then i + 1 else |ds|
    ensures r[i] == v
    ensures forall k :: 0 <= k < |r| && k != i ==> r[k] == Digit(ds, k)
  {
    var grown := if |ds| < i + 1 then ds + Zeros(i + 1 - |ds|) else ds;
    grown[i := v]
  }

  /** Writing at or past the end appends (after zero padding): the magnitude
      grows by `v * b^i`. */
  lemma AssignPastEnd(ds: seq<int>, i: nat, v: int, b: Base)
    requires v < b && |ds| <= i
    ensures AssignDigit(ds, i, v, b) == ds + Zeros(i - |ds|) + [v]
    ensures Mag(AssignDigit(ds, i, v, b), b) == Mag(ds, b) + v * Pow(b, i)
  {
    var padded := ds + Zeros(i - |ds|);
    assert AssignDigit(ds, i, v, b) == padded + [v];
    MagAppend(padded, v, b);
    MagConcatZeros(ds, i - |ds|, b);
  }

  /** `shrink_to_fit`: pop trailing zero digits. */
  function ShrinkToFit(ds: seq<int>): (r: seq<int>)
    ensures |r| <= |ds| && r == ds[..|r|]
    ensures forall k :: |r| <= k < |ds| ==> ds[k] == 0
    ensures r == [] || r[|r| - 1] != 0
  {
    if ds != [] && ds[|ds| - 1] == 0 then ShrinkToFit(ds[..|ds| - 1]) else ds
  }

  /** Dropping trailing zeros keeps the magnitude and yields canonical digits. */
  lemma ShrinkKeepsMag(ds: seq<int>, b: Base)
    ensures Mag(ShrinkToFit(ds), b) == Mag(ds, b)
    ensures DigitsValid(ds, b) ==> Canonical(ShrinkToFit(ds), b)
  {
    var r := ShrinkToFit(ds);
    assert ds == r + Zeros(|ds| - |r|);
    MagConcatZeros(r, |ds| - |r|, b);
  }

  // ---------------------------------------------------------------------------
  // The integral constructor
  // ---------------------------------------------------------------------------

  /** Reference: the base-b digits of n, least significant first. */
  function ToDigits(n: nat, b: Base): seq<int>
    decreases n
  {
    if n == 0 then [] else [n % b] + ToDigits(n / b, b)
  }

  /** The constructor's loop: while `number > 0`, store `number % DigitSize`
      at `cur_digit`, divide, advance. */
  function CtorLoop(number: int, cur: nat, acc: seq<int>, b: Base): seq<int>
    requires |acc| == cur
    decreases if number > 0 then number else 0
  {
    if number <= 0 then acc
    else
      DivStep(number, b);
      AssignAtEnd(acc, number % b, b);
      CtorLoop(number / b, cur + 1, AssignDigit(acc, cur, number % b, b), b)
  }

  /** Division by the base of a positive number: a digit and a smaller
      non-negative quotient. */
  lemma DivStep(n: int, b: Base)
    requires n > 0
    ensures 0 <= n / b < n && 0 <= n % b < b && n == n % b + b * (n / b)
  {
  }

  /** Writing just past the end appends. */
  lemma AssignAtEnd(ds: seq<int>, v: int, b: Base)
    requires v < b
    ensures AssignDigit(ds, |ds|, v, b) == ds + [v]
  {
    assert Zeros(1) == [0];
  }

  lemma ConcatAssoc(a: seq<int>, b: seq<int>, c: seq<int>)
    ensures (a + b) + c == a + (b + c)
  {
  }

  /** A digit in front of canonical digits is canonical, unless it is a lone
      zero. */
  lemma CanonicalCons(d: int, rest: seq<int>, b: Base)
    requires 0 <= d < b && Canonical(rest, b) && (rest == [] ==> d != 0)
    ensures Canonical([d] + rest, b) && ([d] + rest)[1..] == rest
  {
    var ds := [d] + rest;
    forall i | 0 <= i < |ds|
      ensures 0 <= ds[i] < b
    {
      if i > 0 {
        assert ds[i] == rest[i - 1];
      }
    }
  }

  lemma {:induction false} CtorLoopDigits(number: nat, acc: seq<int>, b: Base)
    ensures CtorLoop(number, |acc|, acc, b) == acc + ToDigits(number, b)
    decreases number
  {
    if number > 0 {
      var d, q := number % b, number / b;
      DivStep(number, b);
      AssignAtEnd(acc, d, b);
      CtorLoopDigits(q, acc + [d], b);
      assert CtorLoop(number, |acc|, acc, b) == CtorLoop(q, |acc| + 1, acc + [d], b);
      assert ToDigits(number, b) == [d] + ToDigits(q, b);
      ConcatAssoc(acc, [d], ToDigits(q, b));
    }
  }

  lemma {:induction false} ToDigitsCanonical(n: nat, b: Base)
    ensures Canonical(ToDigits(n, b), b) && Mag(ToDigits(n, b), b) == n
    decreases n
  {
    if n > 0 {
      var d, q := n % b, n / b;
      DivStep(n, b);
      ToDigitsCanonical(q, b);
      var rest := ToDigits(q, b);
      assert ToDigits(n, b) == [d] + rest;
      CanonicalCons(d, rest, b);
      assert Mag([d] + rest, b) == d + b * q;
    }
  }

  /** Canonical digits are the base-b digits of their magnitude: the
      representation is unique. */
  lemma {:induction false} CanonicalIsToDigits(ds: seq<int>, b: Base)
    requires Canonical(ds, b)
    ensures Mag(ds, b) >= 0 && ds == ToDigits(Mag(ds, b), b)
  {
    MagBounds(ds, b);
    if ds != [] {
      var rest := ds[1..];
      assert Canonical(rest, b) by {
        if rest != [] {
          assert rest[|rest| - 1] == ds[|ds| - 1];
        }
      }
      CanonicalIsToDigits(rest, b);
      var n := Mag(ds, b);
      MagBounds(rest, b);
      if rest == [] {
        assert n == ds[0] && n > 0;
      } else {
        CanonicalPositive(rest, b);
        Numbers.MulAtLeast(b, Mag(rest, b));
      }
      Numbers.DivModUnique(n, b, Mag(rest, b), ds[0]);
      assert ds == [n % b] + ToDigits(n / b, b);
    }
  }

  lemma {:induction false} CanonicalPositive(ds: seq<int>, b: Base)
    requires Canonical(ds, b) && ds != []
    ensures Mag(ds, b) > 0
  {
    var rest := ds[1..];
    MagBounds(ds, b);
    MagBounds(rest, b);
    if rest != [] {
      assert Canonical(rest, b) by {
        assert rest[|rest| - 1] == ds[|ds| - 1];
      }
      CanonicalPositive(rest, b);
      Numbers.MulAtLeast(b, Mag(rest, b));
    }
  }

  /** Two canonical digit vectors are equal exactly when their magnitudes are. */
  lemma CanonicalUnique(ds1: seq<int>, ds2: seq<int>, b: Base)
    requires Canonical(ds1, b) && Canonical(ds2, b)
    ensures ds1 == ds2 <==> Mag(ds1, b) == Mag(ds2, b)
  {
    CanonicalIsToDigits(ds1, b);
    CanonicalIsToDigits(ds2, b);
  }

  /** The integral constructor: the canonical base-b digits of |number|, and
      the minus sign exactly for a negative number. */
  function FromInt(number: int, b: Base): (r: LongNum)
    ensures Canonical(r.digits, b)
    ensures r.sign == Minus <==> number < 0
    ensures Value(r, b) == number
  {
    var sign := if number < 0 then Minus else Plus;
    var n := if number < 0 then -number else number;
    CtorLoopDigits(n, [], b);
    ToDigitsCanonical(n, b);
    assert [] + ToDigits(n, b) == ToDigits(n, b);
    LongNum(CtorLoop(n, 0, [], b), sign)
  }

  /** `operator==`: compares the digit vectors only, so for canonical numbers
      it holds exactly when the magnitudes agree, whatever the signs. */
  predicate Equal(x: LongNum, y: LongNum) {
    x.digits == y.digits
  }

  lemma EqualIffSameMagnitude(x: LongNum, y: LongNum, b: Base)
    requires Canonical(x.digits, b) && Canonical(y.digits, b)
    ensures Equal(x, y) <==> Mag(x.digits, b) == Mag(y.digits, b)
  {
    CanonicalUnique(x.digits, y.digits, b);
  }

  // ---------------------------------------------------------------------------
  // operator+ as written
  // ---------------------------------------------------------------------------

  /** The loop of `operator+`, iterations `i .. count - 1`, carrying the result
      digits and `mem`. Same signs: add with carry. Opposite signs: subtract,
      and on a negative position add `DigitSize` and set `mem = -1`; `mem` is
      never set back to 0. */
  function AddLoop(x: seq<int>, y: seq<int>, same: bool, i: nat, count: nat, acc: seq<int>, mem: int, b: Base)
    : (seq<int>, int)
    requires DigitsValid(x, b) && DigitsValid(y, b) && i <= count
    requires if same then 0 <= mem <= 1 else -1 <= mem <= 0
    decreases count - i
  {
    if i == count then (acc, mem)
    else if same then
      var sum := mem + Digit(x, i) + Digit(y, i);
      CarryBound(mem, Digit(x, i), Digit(y, i), b);
      AddLoop(x, y, same, i + 1, count, AssignDigit(acc, i, sum % b, b), sum / b, b)
    else
      var sum := mem + Digit(x, i) - Digit(y, i);
      if sum < 0 then
        AddLoop(x, y, same, i + 1, count, AssignDigit(acc, i, sum + b, b), -1, b)
      else
        AddLoop(x, y, same, i + 1, count, AssignDigit(acc, i, sum, b), mem, b)
  }

  lemma CarryBound(mem: int, dx: int, dy: int, b: Base)
    requires 0 <= mem <= 1 && 0 <= dx < b && 0 <= dy < b
    ensures 0 <= (mem + dx + dy) / b <= 1
  {
    var s := mem + dx + dy;
    if s >= b {
      Numbers.DivModUnique(s, b, 1, s - b);
    } else {
      Numbers.DivModUnique(s, b, 0, s);
    }
  }

  function Max(a: nat, b: nat): nat {
    if a < b then b else a
  }

  /** `operator+` as written: `max(digit_count) + 1` iterations of the loop,
      the left operand's sign, negated when opposite signs end with `mem == -1`,
      then `shrink_to_fit`. */
  function Add(x: LongNum, y: LongNum, b: Base): (r: LongNum)
    requires DigitsValid(x.digits, b) && DigitsValid(y.digits, b)
    ensures Canonical(r.digits, b)
    ensures x.sign == y.sign ==> r.sign == x.sign && Value(r, b) == Value(x, b) + Value(y, b)
    ensures x.sign != y.sign && NoBorrow(x.digits, y.digits) ==>
      r.sign == x.sign && Value(r, b) == Value(x, b) + Value(y, b)
    ensures x.sign == y.sign ==> r == AddCorrected(x, y, b)
  {
    var same := x.sign == y.sign;
    var (ds, mem) := AddRun(x.digits, y.digits, same, b);
    var sign := if !same && mem == -1 then Negate(x.sign) else x.sign;
    AddResult(x, y, b);
    LongNum(ShrinkToFit(ds), sign)
  }

  /** The loop of `operator+` from its start: `max(digit_count) + 1`
      positions, nothing assigned, `mem == 0`. */
  function AddRun(x: seq<int>, y: seq<int>, same: bool, b: Base): (seq<int>, int)
    requires DigitsValid(x, b) && DigitsValid(y, b)
  {
    AddLoop(x, y, same, 0, Max(|x|, |y|) + 1, [], 0, b)
  }

  /** The run's digits are valid, and with opposite signs `mem` ends at 0 or -1. */
  lemma AddRunValid(x: seq<int>, y: seq<int>, same: bool, b: Base)
    requires DigitsValid(x, b) && DigitsValid(y, b)
    ensures DigitsValid(AddRun(x, y, same, b).0, b)
    ensures !same ==> -1 <= AddRun(x, y, same, b).1 <= 0
  {
    AddLoopValid(x, y, same, 0, Max(|x|, |y|) + 1, [], 0, b);
  }

  /** No digit position of `x` is below the matching digit of `y`: the
      opposite-sign loop never borrows. */
  ghost predicate NoBorrow(x: seq<int>, y: seq<int>) {
    forall i: nat :: Digit(x, i) >= Digit(y, i)
  }

  /** Carry addition: `acc` and the carry always stand for the sum of the low
      parts of the operands. */
  lemma {:induction false} AddLoopSame(x: seq<int>, y: seq<int>, i: nat, count: nat, acc: seq<int>, mem: int, b: Base)
    requires DigitsValid(x, b) && DigitsValid(y, b) && i <= count && 0 <= mem <= 1
    requires |acc| == i && DigitsValid(acc, b)
    requires Mag(acc, b) + mem * Pow(b, i) == Low(x, i, b) + Low(y, i, b)
    ensures var (ds, m) := AddLoop(x, y, true, i, count, acc, mem, b);
      |ds| == count && DigitsValid(ds, b) && 0 <= m <= 1 &&
      Mag(ds, b) + m * Pow(b, count) == Low(x, count, b) + Low(y, count, b)
    decreases count - i
  {
    if i < count {
      var dx, dy := Digit(x, i), Digit(y, i);
      var sum := mem + dx + dy;
      CarryBound(mem, dx, dy, b);
      var acc' := AssignDigit(acc, i, sum % b, b);
      AssignPastEnd(acc, i, sum % b, b);
      LowStep(x, i, b);
      LowStep(y, i, b);
      CarryStep(Mag(acc, b), mem, dx, dy, sum, Pow(b, i), b);
      PowStep(b, i);
      AddLoopSame(x, y, i + 1, count, acc', sum / b, b);
    }
  }

  /** The arithmetic of one carry step: the new digit at weight p and the new
      carry at weight b*p together account for mem*p plus the two digits. */
  lemma CarryStep(m: int, mem: int, dx: int, dy: int, sum: int, p: int, b: Base)
    requires sum == mem + dx + dy
    ensures m + (sum % b) * p + (sum / b) * (b * p) == m + mem * p + dx * p + dy * p
  {
    assert sum == (sum / b) * b + sum % b;
    assert (sum / b) * (b * p) == ((sum / b) * b) * p;
    assert (sum % b) * p + ((sum / b) * b) * p == sum * p;
  }

  /** Subtraction while no position borrows: `acc` stands for the difference of
      the low parts and `mem` stays 0. */
  lemma {:induction false} AddLoopNoBorrow(x: seq<int>, y: seq<int>, i: nat, count: nat, acc: seq<int>, b: Base)
    requires DigitsValid(x, b) && DigitsValid(y, b) && i <= count && NoBorrow(x, y)
    requires |acc| == i && DigitsValid(acc, b)
    requires Mag(acc, b) == Low(x, i, b) - Low(y, i, b)
    ensures |AddLoop(x, y, false, i, count, acc, 0, b).0| == count
    ensures DigitsValid(AddLoop(x, y, false, i, count, acc, 0, b).0, b)
    ensures AddLoop(x, y, false, i, count, acc, 0, b).1 == 0
    ensures Mag(AddLoop(x, y, false, i, count, acc, 0, b).0, b) == Low(x, count, b) - Low(y, count, b)
    decreases count - i
  {
    if i < count {
      var dx, dy := Digit(x, i), Digit(y, i);
      assert dx >= dy;
      DigitInRange(x, i, b);
      DigitInRange(y, i, b);
      PlaceDigit(acc, i, dx - dy, b);
      LowStep(x, i, b);
      LowStep(y, i, b);
      DiffStep(Low(x, i, b), Low(y, i, b), dx, dy, Pow(b, i));
      AddLoopNoBorrow(x, y, i + 1, count, AssignDigit(acc, i, dx - dy, b), b);
    }
  }

  /** Writing a valid digit just past the end of valid digits appends it. */
  lemma PlaceDigit(acc: seq<int>, i: nat, v: int, b: Base)
    requires |acc| == i && DigitsValid(acc, b) && 0 <= v < b
    ensures AssignDigit(acc, i, v, b) == acc + [v]
    ensures DigitsValid(acc + [v], b)
    ensures Mag(acc + [v], b) == Mag(acc, b) + v * Pow(b, i)
  {
    AssignPastEnd(acc, i, v, b);
  }

  /** Writing a valid digit at or past the end of valid digits. */
  lemma PadDigit(acc: seq<int>, i: nat, v: int, b: Base)
    requires |acc| <= i && DigitsValid(acc, b) && 0 <= v < b
    ensures |AssignDigit(acc, i, v, b)| == i + 1
    ensures DigitsValid(AssignDigit(acc, i, v, b), b)
    ensures Mag(AssignDigit(acc, i, v, b), b) == Mag(acc, b) + v * Pow(b, i)
  {
    AssignPastEnd(acc, i, v, b);
  }

  lemma DiffStep(lx: int, ly: int, dx: int, dy: int, p: int)
    ensures lx - ly + (dx - dy) * p == (lx + dx * p) - (ly + dy * p)
  {
  }

  /** The two cases `Add` is exact for. */
  lemma AddResult(x: LongNum, y: LongNum, b: Base)
    requires DigitsValid(x.digits, b) && DigitsValid(y.digits, b)
    ensures var run := AddRun(x.digits, y.digits, x.sign == y.sign, b);
      var sign := if x.sign != y.sign && run.1 == -1 then Negate(x.sign) else x.sign;
      var r := LongNum(ShrinkToFit(run.0), sign);
      && Canonical(r.digits, b)
      && (x.sign == y.sign ==> r.sign == x.sign && Value(r, b) == Value(x, b) + Value(y, b))
      && (x.sign != y.sign && NoBorrow(x.digits, y.digits) ==>
            r.sign == x.sign && Value(r, b) == Value(x, b) + Value(y, b))
  {
    var run := AddRun(x.digits, y.digits, x.sign == y.sign, b);
    AddRunValid(x.digits, y.digits, x.sign == y.sign, b);
    ShrinkKeepsMag(run.0, b);
    var sign := if x.sign != y.sign && run.1 == -1 then Negate(x.sign) else x.sign;
    var r := LongNum(ShrinkToFit(run.0), sign);
    if x.sign == y.sign {
      SameSignMag(x.digits, y.digits, b);
      ValueOfSum(x, y, r, b);
    } else if NoBorrow(x.digits, y.digits) {
      NoBorrowMag(x.digits, y.digits, b);
      ValueOfSum(x, y, r, b);
    }
  }

  /** A result with the left operand's sign and the magnitudes added (equal
      signs) or subtracted (opposite signs) has the sum as its value. */
  lemma ValueOfSum(x: LongNum, y: LongNum, r: LongNum, b: Base)
    requires r.sign == x.sign
    requires Mag(r.digits, b) == if x.sign == y.sign then Mag(x.digits, b) + Mag(y.digits, b) else Mag(x.digits, b) - Mag(y.digits, b)
    ensures Value(r, b) == Value(x, b) + Value(y, b)
  {
  }

  /** Same signs: the loop's digits stand for the sum of the magnitudes. */
  lemma SameSignMag(x: seq<int>, y: seq<int>, b: Base)
    requires DigitsValid(x, b) && DigitsValid(y, b)
    ensures Mag(AddRun(x, y, true, b).0, b) == Mag(x, b) + Mag(y, b)
  {
    var total := Max(|x|, |y|);
    var run := AddRun(x, y, true, b);
    LowAll(x, total + 1, b);
    LowAll(y, total + 1, b);
    assert Low(x, 0, b) == 0 && Low(y, 0, b) == 0;
    AddLoopSame(x, y, 0, total + 1, [], 0, b);
    FinalCarryZero(x, y, run.0, run.1, total, b);
  }

  /** Opposite signs without a borrow: the digits stand for the difference of
      the magnitudes and `mem` ends at 0. */
  lemma NoBorrowMag(x: seq<int>, y: seq<int>, b: Base)
    requires DigitsValid(x, b) && DigitsValid(y, b) && NoBorrow(x, y)
    ensures var run := AddRun(x, y, false, b);
      run.1 == 0 && Mag(run.0, b) == Mag(x, b) - Mag(y, b)
  {
    var total := Max(|x|, |y|);
    LowAll(x, total + 1, b);
    LowAll(y, total + 1, b);
    assert Low(x, 0, b) == 0 && Low(y, 0, b) == 0;
    AddLoopNoBorrow(x, y, 0, total + 1, [], b);
  }

  /** The carry out of the extra last position is 0. */
  lemma FinalCarryZero(x: seq<int>, y: seq<int>, ds: seq<int>, mem: int, total: nat, b: Base)
    requires DigitsValid(x, b) && DigitsValid(y, b) && DigitsValid(ds, b)
    requires |x| <= total && |y| <= total && 0 <= mem <= 1
    requires Mag(ds, b) + mem * Pow(b, total + 1) == Mag(x, b) + Mag(y, b)
    ensures mem == 0
  {
    MagBounds(x, b);
    MagBounds(y, b);
    MagBounds(ds, b);
    PowMono(b, |x|, total);
    PowMono(b, |y|, total);
    var p := Pow(b, total);
    PowStep(b, total);
    MulMono(p, 2, b);
    assert Mag(x, b) + Mag(y, b) < p * b;
    NoCarry(Mag(ds, b), mem, Mag(x, b) + Mag(y, b), Pow(b, total + 1));
  }

  lemma {:induction false} PowMono(b: Base, i: nat, j: nat)
    requires i <= j
    ensures Pow(b, i) <= Pow(b, j)
    decreases j
  {
    if i < j {
      PowMono(b, i, j - 1);
      PowStep(b, j - 1);
      PowPositive(b, j - 1);
      Numbers.MulAtLeast(Pow(b, j - 1), b);
    }
  }

  /** Whatever the signs, the loop produces `count` valid digits. */
  lemma {:induction false} AddLoopValid(x: seq<int>, y: seq<int>, same: bool, i: nat, count: nat, acc: seq<int>, mem: int, b: Base)
    requires DigitsValid(x, b) && DigitsValid(y, b) && i <= count
    requires if same then 0 <= mem <= 1 else -1 <= mem <= 0
    requires |acc| == i && DigitsValid(acc, b)
    ensures |AddLoop(x, y, same, i, count, acc, mem, b).0| == count
    ensures DigitsValid(AddLoop(x, y, same, i, count, acc, mem, b).0, b)
    ensures !same ==> -1 <= AddLoop(x, y, same, i, count, acc, mem, b).1 <= 0
    decreases count - i
  {
    if i < count {
      var dx, dy := Digit(x, i), Digit(y, i);
      if same {
        var sum := mem + dx + dy;
        CarryBound(mem, dx, dy, b);
        AssignPastEnd(acc, i, sum % b, b);
        AddLoopValid(x, y, same, i + 1, count, AssignDigit(acc, i, sum % b, b), sum / b, b);
      } else {
        var sum := mem + dx - dy;
        if sum < 0 {
          AssignPastEnd(acc, i, sum + b, b);
          AddLoopValid(x, y, same, i + 1, count, AssignDigit(acc, i, sum + b, b), -1, b);
        } else {
          AssignPastEnd(acc, i, sum, b);
          AddLoopValid(x, y, same, i + 1, count, AssignDigit(acc, i, sum, b), mem, b);
        }
      }
    }
  }

  /** 20 + (-1) in base 10: position 0 borrows, `mem` stays -1 for every later
      position, and the result is -919 instead of 19. */
  lemma MixedSignBorrowCounterexample()
    ensures Add(FromInt(20, 10), FromInt(-1, 10), 10) == LongNum([9, 1, 9], Minus)
    ensures Value(Add(FromInt(20, 10), FromInt(-1, 10), 10), 10) == -919 != 20 + -1
  {
    DigitsOfSmall();
    BorrowRun();
    assert ShrinkToFit([9, 1, 9]) == [9, 1, 9];
  }

  /** The digits of the small numbers the examples use. */
  lemma DigitsOfSmall()
    ensures FromInt(20, 10) == LongNum([0, 2], Plus)
    ensures FromInt(-1, 10) == LongNum([1], Minus)
    ensures FromInt(1, 10) == LongNum([1], Plus)
    ensures FromInt(255, 10) == LongNum([5, 5, 2], Plus)
    ensures FromInt(-12, 10) == LongNum([2, 1], Minus)
  {
    LeadingDigit(2, 10);
    LeadingDigit(1, 10);
    assert [0, 2][1..] == [2] && [2, 1][1..] == [1];
    assert [5, 5, 2][1..] == [5, 2] && [5, 2][1..] == [2];
    DigitsOf(20, [0, 2], 10);
    DigitsOf(-1, [1], 10);
    DigitsOf(1, [1], 10);
    DigitsOf(255, [5, 5, 2], 10);
    DigitsOf(-12, [2, 1], 10);
  }

  lemma LeadingDigit(d: int, b: Base)
    ensures Mag([d], b) == d
  {
    assert [d][1..] == [];
  }

  /** The constructor's digits of n are the canonical digits of |n|. */
  lemma DigitsOf(n: int, ds: seq<int>, b: Base)
    requires Canonical(ds, b) && Mag(ds, b) == (if n < 0 then -n else n)
    ensures FromInt(n, b).digits == ds
  {
    CanonicalUnique(FromInt(n, b).digits, ds, b);
  }

  /** The loop of `operator+` on the digits of 20 and -1. */
  lemma BorrowRun()
    ensures AddLoop([0, 2], [1], false, 0, 3, [], 0, 10) == ([9, 1, 9], -1)
  {
    var x, y := [0, 2], [1];
    assert AssignDigit([], 0, 9, 10) == [9];
    assert AssignDigit([9], 1, 1, 10) == [9, 1];
    assert AssignDigit([9, 1], 2, 9, 10) == [9, 1, 9];
    assert AddLoop(x, y, false, 2, 3, [9, 1], -1, 10) == ([9, 1, 9], -1);
    assert AddLoop(x, y, false, 1, 3, [9], -1, 10) == ([9, 1, 9], -1);
  }

  // ---------------------------------------------------------------------------
  // operator+ corrected
  // ---------------------------------------------------------------------------

  /** The opposite-sign loop with the borrow reset to 0 after a position that
      does not go negative. */
  function SubLoop(x: seq<int>, y: seq<int>, i: nat, count: nat, acc: seq<int>, mem: int, b: Base)
    : (seq<int>, int)
    requires DigitsValid(x, b) && DigitsValid(y, b) && i <= count && -1 <= mem <= 0
    decreases count - i
  {
    if i == count then (acc, mem)
    else
      var sum := mem + Digit(x, i) - Digit(y, i);
      if sum < 0 then SubLoop(x, y, i + 1, count, AssignDigit(acc, i, sum + b, b), -1, b)
      else SubLoop(x, y, i + 1, count, AssignDigit(acc, i, sum, b), 0, b)
  }

  /** Borrow subtraction: `acc` minus the pending borrow stands for the
      difference of the low parts. */
  lemma {:induction false} SubLoopDiff(x: seq<int>, y: seq<int>, i: nat, count: nat, acc: seq<int>, mem: int, b: Base)
    requires DigitsValid(x, b) && DigitsValid(y, b) && i <= count && -1 <= mem <= 0
    requires |acc| == i && DigitsValid(acc, b)
    requires Mag(acc, b) + mem * Pow(b, i) == Low(x, i, b) - Low(y, i, b)
    ensures |SubLoop(x, y, i, count, acc, mem, b).0| == count
    ensures DigitsValid(SubLoop(x, y, i, count, acc, mem, b).0, b)
    ensures -1 <= SubLoop(x, y, i, count, acc, mem, b).1 <= 0
    ensures Mag(SubLoop(x, y, i, count, acc, mem, b).0, b) + SubLoop(x, y, i, count, acc, mem, b).1 * Pow(b, count)
      == Low(x, count, b) - Low(y, count, b)
    decreases count - i
  {
    if i < count {
      var dx, dy := Digit(x, i), Digit(y, i);
      DigitInRange(x, i, b);
      DigitInRange(y, i, b);
      var sum := mem + dx - dy;
      LowStep(x, i, b);
      LowStep(y, i, b);
      PowStep(b, i);
      var p := Pow(b, i);
      if sum < 0 {
        PlaceDigit(acc, i, sum + b, b);
        BorrowStep(Mag(acc, b), mem, dx, dy, Low(x, i, b), Low(y, i, b), p, b);
        SubLoopDiff(x, y, i + 1, count, AssignDigit(acc, i, sum + b, b), -1, b);
      } else {
        PlaceDigit(acc, i, sum, b);
        PlainStep(Mag(acc, b), mem, dx, dy, Low(x, i, b), Low(y, i, b), p, Pow(b, i + 1));
        SubLoopDiff(x, y, i + 1, count, AssignDigit(acc, i, sum, b), 0, b);
      }
    }
  }

  /** The arithmetic of a position that does not borrow. */
  lemma PlainStep(m: int, mem: int, dx: int, dy: int, lx: int, ly: int, p: int, q: int)
    requires m + mem * p == lx - ly
    ensures m + (mem + dx - dy) * p + 0 * q == (lx + dx * p) - (ly + dy * p)
  {
    assert (mem + dx - dy) * p == mem * p + dx * p - dy * p;
  }

  /** The arithmetic of a borrowing position. */
  lemma BorrowStep(m: int, mem: int, dx: int, dy: int, lx: int, ly: int, p: int, b: int)
    requires m + mem * p == lx - ly
    ensures m + (mem + dx - dy + b) * p + -1 * (b * p) == (lx + dx * p) - (ly + dy * p)
  {
    assert (mem + dx - dy + b) * p == mem * p + dx * p - dy * p + b * p;
  }

  /** `operator+` with the borrow reset: same signs add as before; opposite
      signs subtract with borrow, and when the subtraction ends in a borrow
      (|x| < |y|) they subtract the other way round and take y's sign. */
  function AddCorrected(x: LongNum, y: LongNum, b: Base): (r: LongNum)
    requires DigitsValid(x.digits, b) && DigitsValid(y.digits, b)
    ensures Canonical(r.digits, b)
    ensures Value(r, b) == Value(x, b) + Value(y, b)
    ensures x.sign == y.sign ==> r.sign == x.sign
  {
    if x.sign == y.sign then
      AddResult(x, y, b);
      var (ds, mem) := AddRun(x.digits, y.digits, true, b);
      LongNum(ShrinkToFit(ds), x.sign)
    else
      var (ds, mem) := SubRun(x.digits, y.digits, b);
      SubResult(x, y, b);
      if mem == -1 then
        var (ds', _) := SubRun(y.digits, x.digits, b);
        LongNum(ShrinkToFit(ds'), Negate(x.sign))
      else
        LongNum(ShrinkToFit(ds), x.sign)
  }

  /** The opposite-sign branch of `AddCorrected` is exact. */
  lemma SubResult(x: LongNum, y: LongNum, b: Base)
    requires DigitsValid(x.digits, b) && DigitsValid(y.digits, b) && x.sign != y.sign
    ensures var run := SubRun(x.digits, y.digits, b);
      var back := SubRun(y.digits, x.digits, b);
      var r := if run.1 == -1 then LongNum(ShrinkToFit(back.0), Negate(x.sign)) else LongNum(ShrinkToFit(run.0), x.sign);
      Canonical(r.digits, b) && Value(r, b) == Value(x, b) + Value(y, b)
  {
    var run := SubRun(x.digits, y.digits, b);
    var back := SubRun(y.digits, x.digits, b);
    SubMag(x.digits, y.digits, b);
    SubMag(y.digits, x.digits, b);
    var r := if run.1 == -1 then LongNum(ShrinkToFit(back.0), Negate(x.sign)) else LongNum(ShrinkToFit(run.0), x.sign);
    if run.1 == -1 {
      ShrinkKeepsMag(back.0, b);
      ValueOfSum(y, x, r, b);
    } else {
      ShrinkKeepsMag(run.0, b);
      ValueOfSum(x, y, r, b);
    }
  }

  /** The subtraction loop from its start: `max(digit_count) + 1` positions,
      nothing assigned, no borrow. */
  function SubRun(x: seq<int>, y: seq<int>, b: Base): (seq<int>, int)
    requires DigitsValid(x, b) && DigitsValid(y, b)
  {
    SubLoop(x, y, 0, Max(|x|, |y|) + 1, [], 0, b)
  }

  /** Borrow subtraction of the magnitudes: without a final borrow the digits
      are the difference; a final borrow means the left magnitude is smaller. */
  lemma SubMag(x: seq<int>, y: seq<int>, b: Base)
    requires DigitsValid(x, b) && DigitsValid(y, b)
    ensures var run := SubRun(x, y, b);
      && DigitsValid(run.0, b) && (run.1 == 0 || run.1 == -1)
      && (run.1 == 0 ==> Mag(run.0, b) == Mag(x, b) - Mag(y, b))
      && (run.1 == -1 ==> Mag(x, b) < Mag(y, b))
  {
    var total := Max(|x|, |y|);
    var run := SubRun(x, y, b);
    LowAll(x, total + 1, b);
    LowAll(y, total + 1, b);
    assert Low(x, 0, b) == 0 && Low(y, 0, b) == 0;
    SubLoopDiff(x, y, 0, total + 1, [], 0, b);
    MagBounds(run.0, b);
  }

  /** `operator-` as written: the right operand with its sign negated, added
      with the as-written `operator+`. Exact when the signs differ (the `+`
      then adds magnitudes), and for equal signs when no digit position
      borrows. */
  function Sub(x: LongNum, y: LongNum, b: Base): (r: LongNum)
    requires DigitsValid(x.digits, b) && DigitsValid(y.digits, b)
    ensures Canonical(r.digits, b)
    ensures x.sign != y.sign ==> r.sign == x.sign && Value(r, b) == Value(x, b) - Value(y, b)
    ensures x.sign == y.sign && NoBorrow(x.digits, y.digits) ==>
      r.sign == x.sign && Value(r, b) == Value(x, b) - Value(y, b)
  {
    var other := LongNum(y.digits, Negate(y.sign));
    Add(x, other, b)
  }

  /** 20 - 1 in base 10 is 20 + (-1) in the as-written `operator+`: -919
      instead of 19. */
  lemma SubBorrowCounterexample()
    ensures Value(Sub(FromInt(20, 10), FromInt(1, 10), 10), 10) == -919
    ensures Value(SubCorrected(FromInt(20, 10), FromInt(1, 10), 10), 10) == 19
  {
    DigitsOfSmall();
    MixedSignBorrowCounterexample();
  }

  /** `operator-` over the corrected `operator+`: the exact difference. */
  function SubCorrected(x: LongNum, y: LongNum, b: Base): (r: LongNum)
    requires DigitsValid(x.digits, b) && DigitsValid(y.digits, b)
    ensures Canonical(r.digits, b)
    ensures Value(r, b) == Value(x, b) - Value(y, b)
  {
    var other := LongNum(y.digits, Negate(y.sign));
    AddCorrected(x, other, b)
  }

  // ---------------------------------------------------------------------------
  // operator*
  // ---------------------------------------------------------------------------

  /** The inner loop of `operator*`: digit `di` of the left operand times the
      right operand's digits, written at positions `i + j`, with carry `mem`;
      returns the digits and the carry. */
  function MulRow(di: int, y: seq<int>, i: nat, j: nat, count: nat, acc: seq<int>, mem: int, b: Base)
    : (seq<int>, int)
    requires 0 <= di < b && DigitsValid(y, b) && j <= count && 0 <= mem < b
    decreases count - j
  {
    if j == count then (acc, mem)
    else
      var sum := di * Digit(y, j) + mem;
      MulCarryBound(di, Digit(y, j), mem, b);
      MulRow(di, y, i, j + 1, count, AssignDigit(acc, i + j, sum % b, b), sum / b, b)
  }

  lemma MulCarryBound(d: int, e: int, mem: int, b: Base)
    requires 0 <= d < b && 0 <= e < b && 0 <= mem < b
    ensures 0 <= d * e + mem && (d * e + mem) / b < b
  {
    var s := d * e + mem;
    assert d * e <= (b - 1) * (b - 1) by {
      MulMono(d, e, b - 1);
      MulMono(b - 1, d, b - 1);
      assert d * (b - 1) == (b - 1) * d;
    }
    assert s < b * b;
    Numbers.DivModUnique(s, b, s / b, s % b);
    if s / b >= b {
      MulMono(b, b, s / b);
      assert false;
    }
  }

  /** The row loop's digits and carry stand for `di * y * b^i`. */
  lemma {:induction false} MulRowValue(di: int, y: seq<int>, i: nat, j: nat, count: nat, acc: seq<int>, mem: int, b: Base)
    requires 0 <= di < b && DigitsValid(y, b) && j <= count && 0 <= mem < b
    requires |acc| <= i + j && DigitsValid(acc, b)
    requires Mag(acc, b) + mem * Pow(b, i + j) == di * Low(y, j, b) * Pow(b, i)
    ensures DigitsValid(MulRow(di, y, i, j, count, acc, mem, b).0, b)
    ensures |MulRow(di, y, i, j, count, acc, mem, b).0| <= i + count
    ensures 0 <= MulRow(di, y, i, j, count, acc, mem, b).1 < b
    ensures Mag(MulRow(di, y, i, j, count, acc, mem, b).0, b) + MulRow(di, y, i, j, count, acc, mem, b).1 * Pow(b, i + count)
      == di * Low(y, count, b) * Pow(b, i)
    decreases count - j
  {
    if j < count {
      var sum := di * Digit(y, j) + mem;
      RowInvStep(di, y, i, j, acc, mem, b);
      MulRowValue(di, y, i, j + 1, count, AssignDigit(acc, i + j, sum % b, b), sum / b, b);
    }
  }

  /** One pass of the row loop keeps its invariant one position further on. */
  lemma RowInvStep(di: int, y: seq<int>, i: nat, j: nat, acc: seq<int>, mem: int, b: Base)
    requires 0 <= di < b && DigitsValid(y, b) && 0 <= mem < b
    requires |acc| <= i + j && DigitsValid(acc, b)
    requires Mag(acc, b) + mem * Pow(b, i + j) == di * Low(y, j, b) * Pow(b, i)
    ensures var sum := di * Digit(y, j) + mem; var acc' := AssignDigit(acc, i + j, sum % b, b);
      && 0 <= sum / b < b && |acc'| <= i + j + 1 && DigitsValid(acc', b)
      && Mag(acc', b) + (sum / b) * Pow(b, i + j + 1) == di * Low(y, j + 1, b) * Pow(b, i)
  {
    RowDigitStep(di, y, i, j, acc, mem, b);
    RowValueStep(di, y, i, j, acc, mem, b);
  }

  /** The digit a row pass writes and the carry it keeps are in range. */
  lemma RowDigitStep(di: int, y: seq<int>, i: nat, j: nat, acc: seq<int>, mem: int, b: Base)
    requires 0 <= di < b && DigitsValid(y, b) && 0 <= mem < b
    requires |acc| <= i + j && DigitsValid(acc, b)
    ensures var sum := di * Digit(y, j) + mem; var acc' := AssignDigit(acc, i + j, sum % b, b);
      && 0 <= sum / b < b && |acc'| <= i + j + 1 && DigitsValid(acc', b)
  {
    var dy := Digit(y, j);
    DigitInRange(y, j, b);
    MulCarryBound(di, dy, mem, b);
    PadDigit(acc, i + j, (di * dy + mem) % b, b);
  }

  /** The value a row pass adds is the next digit's share of `di * y * b^i`. */
  lemma RowValueStep(di: int, y: seq<int>, i: nat, j: nat, acc: seq<int>, mem: int, b: Base)
    requires 0 <= di < b && DigitsValid(y, b) && 0 <= mem < b
    requires |acc| <= i + j && DigitsValid(acc, b)
    requires Mag(acc, b) + mem * Pow(b, i + j) == di * Low(y, j, b) * Pow(b, i)
    ensures var sum := di * Digit(y, j) + mem; var acc' := AssignDigit(acc, i + j, sum % b, b);
      Mag(acc', b) + (sum / b) * Pow(b, i + j + 1) == di * Low(y, j + 1, b) * Pow(b, i)
  {
    var dy := Digit(y, j);
    DigitInRange(y, j, b);
    var sum := di * dy + mem;
    MulCarryBound(di, dy, mem, b);
    var acc' := AssignDigit(acc, i + j, sum % b, b);
    PadDigit(acc, i + j, sum % b, b);
    LowStep(y, j, b);
    PowStep(b, i + j);
    PowAdd(b, i, j);
    RowCombine(Mag(acc, b), Mag(acc', b), mem, di, dy, sum, Low(y, j, b), Low(y, j + 1, b),
      Pow(b, i), Pow(b, j), Pow(b, i + j), Pow(b, i + j + 1), b);
  }

  /** The row invariant one position on, in terms of the quantities involved. */
  lemma RowCombine(m: int, m': int, mem: int, di: int, dy: int, sum: int, low: int, low1: int,
                   pi: int, pj: int, p: int, p1: int, b: Base)
    requires sum == di * dy + mem && p == pi * pj && p1 == b * p
    requires m' == m + (sum % b) * p && low1 == low + dy * pj
    requires m + mem * p == di * low * pi
    ensures m' + (sum / b) * p1 == di * low1 * pi
  {
    RowStep(m, mem, di, dy, sum, low, pi, pj, p, p1, b);
  }

  lemma {:induction false} PowAdd(b: Base, i: nat, j: nat)
    ensures Pow(b, i + j) == Pow(b, i) * Pow(b, j)
    decreases j
  {
    if j > 0 {
      PowAdd(b, i, j - 1);
      PowStep(b, i + j - 1);
      PowStep(b, j - 1);
    }
  }

  /** The arithmetic of one row step, at weight p == pi * pj and p1 == b * p. */
  lemma RowStep(m: int, mem: int, di: int, dy: int, sum: int, low: int, pi: int, pj: int, p: int, p1: int, b: Base)
    requires sum == di * dy + mem && p == pi * pj && p1 == b * p
    requires m + mem * p == di * low * pi
    ensures m + (sum % b) * p + (sum / b) * p1 == di * (low + dy * pj) * pi
  {
    assert sum == (sum / b) * b + sum % b;
    assert (sum % b) * p + (sum / b) * (b * p) == sum * p;
    assert sum * p == di * dy * p + mem * p;
    assert di * (low + dy * pj) * pi == di * low * pi + di * dy * (pi * pj);
  }

  /** A non-negative carry at weight p on top of a non-negative part, adding
      up to less than p, is 0. */
  lemma NoCarry(part: int, m: int, v: int, p: int)
    requires part >= 0 && m >= 0 && p >= 1 && part + m * p == v && v < p
    ensures m == 0
  {
    if m > 0 {
      Numbers.MulAtLeast(p, m);
      assert false;
    }
  }

  /** A digit times a value below b^k is below b^(k+1). */
  lemma DigitTimesBound(di: int, my: int, pk: int, b: Base)
    requires 0 <= di < b && 0 <= my < pk
    ensures di * my < b * pk
  {
    MulMono(di, my, pk - 1);
    MulMono(pk - 1, di, b - 1);
    assert di * (pk - 1) == (pk - 1) * di;
  }

  /** The final carry of a row is 0, so the row stands for exactly `di * y * b^i`. */
  lemma RowExact(di: int, y: seq<int>, i: nat, b: Base)
    requires 0 <= di < b && DigitsValid(y, b)
    ensures DigitsValid(MulRow(di, y, i, 0, |y| + 1, [], 0, b).0, b)
    ensures Mag(MulRow(di, y, i, 0, |y| + 1, [], 0, b).0, b) == di * Mag(y, b) * Pow(b, i)
  {
    assert Low(y, 0, b) == 0;
    MulRowValue(di, y, i, 0, |y| + 1, [], 0, b);
    var (ds, m) := MulRow(di, y, i, 0, |y| + 1, [], 0, b);
    LowAll(y, |y| + 1, b);
    MagBounds(ds, b);
    MagBounds(y, b);
    var my := Mag(y, b);
    var pi := Pow(b, i);
    var big := Pow(b, i + |y| + 1);
    PowStep(b, |y|);
    PowAdd(b, i, |y| + 1);
    PowPositive(b, i);
    DigitTimesBound(di, my, Pow(b, |y|), b);
    StrictScale(di * my, Pow(b, |y| + 1), pi);
    assert di * my * pi < big;
    NoCarry(Mag(ds, b), m, di * my * pi, big);
  }

  lemma StrictScale(x: int, y: int, p: int)
    requires x < y && p >= 1
    ensures x * p < p * y
  {
    Numbers.MulStrict(p, x, y);
  }

  /** The outer loop of `operator*`: add the shifted row of each left digit
      into `ret` with `+=`, the as-written `operator+` on two positive numbers. */
  function MulLoop(x: seq<int>, y: seq<int>, i: nat, ret: LongNum, b: Base): LongNum
    requires DigitsValid(x, b) && DigitsValid(y, b) && i <= |x| && DigitsValid(ret.digits, b)
    decreases |x| - i
  {
    if i == |x| then ret
    else
      var row := MulRow(Digit(x, i), y, i, 0, |y| + 1, [], 0, b).0;
      RowExact(Digit(x, i), y, i, b);
      ShrinkKeepsMag(row, b);
      var summand := LongNum(ShrinkToFit(row), Plus);
      MulLoop(x, y, i + 1, Add(ret, summand, b), b)
  }

  lemma {:induction false} MulLoopValue(x: seq<int>, y: seq<int>, i: nat, ret: LongNum, b: Base)
    requires DigitsValid(x, b) && DigitsValid(y, b) && i <= |x| && Canonical(ret.digits, b)
    requires ret.sign == Plus && Mag(ret.digits, b) == Low(x, i, b) * Mag(y, b)
    ensures var r := MulLoop(x, y, i, ret, b);
      Canonical(r.digits, b) && r.sign == Plus && Mag(r.digits, b) == Mag(x, b) * Mag(y, b)
    decreases |x| - i
  {
    if i == |x| {
      LowAll(x, i, b);
    } else {
      var di := Digit(x, i);
      DigitInRange(x, i, b);
      var row := MulRow(di, y, i, 0, |y| + 1, [], 0, b).0;
      RowExact(di, y, i, b);
      ShrinkKeepsMag(row, b);
      var summand := LongNum(ShrinkToFit(row), Plus);
      var ret' := Add(ret, summand, b);
      assert Mag(ret'.digits, b) == Mag(ret.digits, b) + Mag(summand.digits, b);
      LowStep(x, i, b);
      AccumulateRow(Low(x, i, b), Low(x, i + 1, b), di, Pow(b, i), Mag(y, b));
      MulLoopValue(x, y, i + 1, ret', b);
    }
  }

  lemma AccumulateRow(lx: int, lx1: int, di: int, p: int, my: int)
    requires lx1 == lx + di * p
    ensures lx1 * my == lx * my + di * my * p
  {
  }

  /** `operator*`: sum of shifted rows, then the sign is plus exactly when the
      operand signs agree. The result is the product. */
  function Mul(x: LongNum, y: LongNum, b: Base): (r: LongNum)
    requires DigitsValid(x.digits, b) && DigitsValid(y.digits, b)
    ensures Canonical(r.digits, b)
    ensures r.sign == Plus <==> x.sign == y.sign
    ensures Value(r, b) == Value(x, b) * Value(y, b)
  {
    var ret := MulLoop(x.digits, y.digits, 0, FromInt(0, b), b);
    MulFacts(x, y, b);
    LongNum(ret.digits, if x.sign == y.sign then Plus else Minus)
  }

  /** The loop of `operator*` started from `self ret = 0` yields the product
      of the magnitudes; with the sign set, the value is the product. */
  lemma MulFacts(x: LongNum, y: LongNum, b: Base)
    requires DigitsValid(x.digits, b) && DigitsValid(y.digits, b)
    ensures var ret := MulLoop(x.digits, y.digits, 0, FromInt(0, b), b);
      var r := LongNum(ret.digits, if x.sign == y.sign then Plus else Minus);
      Canonical(r.digits, b) && Value(r, b) == Value(x, b) * Value(y, b)
  {
    var zero := FromInt(0, b);
    ZeroDigits(b);
    LowZero(x.digits, b);
    MulLoopValue(x.digits, y.digits, 0, zero, b);
    var ret := MulLoop(x.digits, y.digits, 0, zero, b);
    MulValue(x, y, LongNum(ret.digits, if x.sign == y.sign then Plus else Minus), b);
  }

  lemma LowZero(ds: seq<int>, b: Base)
    ensures Low(ds, 0, b) == 0
  {
    assert ds[..0] == [];
  }

  /** Magnitudes multiplied, and the sign plus exactly for equal signs: the
      value is the product. */
  lemma MulValue(x: LongNum, y: LongNum, r: LongNum, b: Base)
    requires r.sign == (if x.sign == y.sign then Plus else Minus)
    requires Mag(r.digits, b) == Mag(x.digits, b) * Mag(y.digits, b)
    ensures Value(r, b) == Value(x, b) * Value(y, b)
  {
    ProductSign(Mag(x.digits, b), Mag(y.digits, b), x.sign == Minus, y.sign == Minus);
  }

  /** `self ret = 0` has no digits. */
  lemma ZeroDigits(b: Base)
    ensures FromInt(0, b) == LongNum([], Plus)
  {
    CanonicalUnique(FromInt(0, b).digits, [], b);
  }

  lemma ProductSign(mx: int, my: int, nx: bool, ny: bool)
    ensures (if nx == ny then mx * my else -(mx * my)) == (if nx then -mx else mx) * (if ny then -my else my)
  {
  }

  // ---------------------------------------------------------------------------
  // The repository's test, in base 10
  // ---------------------------------------------------------------------------

  /** x == n for a canonical x means the digits of x are those of n. */
  lemma EqualsInt(x: LongNum, n: int, b: Base)
    requires Canonical(x.digits, b) && (Value(x, b) == n || Value(x, b) == -n)
    ensures Equal(x, FromInt(n, b))
  {
    MagBounds(x.digits, b);
    CanonicalUnique(x.digits, FromInt(n, b).digits, b);
  }

  /** The test's sums and differences, with `+` and `-` as written: none of
      them borrows, so the as-written operators give the exact values. */
  lemma Examples()
    ensures var x, y := FromInt(255, 10), FromInt(65, 10);
      Equal(Add(x, y, 10), FromInt(320, 10))
    ensures var x, y := FromInt(255, 10), FromInt(-12, 10);
      && Equal(Add(x, y, 10), FromInt(243, 10))
      && Equal(Sub(x, y, 10), FromInt(267, 10))
      && Equal(Sub(x, x, 10), FromInt(0, 10))
      && Equal(Add(x, x, 10), FromInt(510, 10))
    ensures var x := FromInt(255, 10);
      var xx := Add(x, x, 10);
      var xxx := Add(xx, x, 10);
      Equal(Add(xxx, x, 10), FromInt(1020, 10))
  {
    var x, y, z := FromInt(255, 10), FromInt(65, 10), FromInt(-12, 10);
    DigitsOfSmall();
    assert NoBorrow(x.digits, z.digits) by {
      forall i: nat ensures Digit(x.digits, i) >= Digit(z.digits, i) {
      }
    }
    assert NoBorrow(x.digits, x.digits);
    EqualsInt(Add(x, y, 10), 320, 10);
    EqualsInt(Add(x, z, 10), 243, 10);
    EqualsInt(Sub(x, z, 10), 267, 10);
    EqualsInt(Sub(x, x, 10), 0, 10);
    EqualsInt(Add(x, x, 10), 510, 10);
    var xx := Add(x, x, 10);
    var xxx := Add(xx, x, 10);
    EqualsInt(Add(xxx, x, 10), 1020, 10);
  }

}
