/** A bit set indexed by the ordinals of an enumeration
    (src/enum_containers/enum_bitset.h).

    `enum_bitset<EnumT>` is a `std::bitset<COUNT>`; an enumerator is cast to its
    ordinal, which is below COUNT. The set is a sequence of COUNT booleans, and
    every operation is a pure function producing the new set, so the operands
    of `&`, `|`, `^` and `~` are unchanged by construction. */
module EnumBitset {

  type Bits = seq<bool>

  /** `enum_bitset ()`: COUNT bits, all clear. */
  function Empty(count: nat): (r: Bits)
    ensures |r| == count && forall i :: 0 <= i < count ==> !r[i]
  {
    seq(count, i => false)
  }

  /** `size`: COUNT. */
  function Size(b: Bits): nat {
    |b|
  }

  /** `test` and `operator[]` (read). */
  function Test(b: Bits, i: nat): bool
    requires i < |b|
  {
    b[i]
  }

  /** `set (index, value)`: bit `index` becomes `value`, no other bit changes. */
  function Set(b: Bits, i: nat, v: bool := true): (r: Bits)
    requires i < |b|
    ensures |r| == |b| && Test(r, i) == v
    ensures forall j :: 0 <= j < |b| && j != i ==> r[j] == b[j]
  {
    b[i := v]
  }

  /** `reset (index)`: clears one bit. */
  function Reset(b: Bits, i: nat): (r: Bits)
    requires i < |b|
    ensures |r| == |b| && !Test(r, i)
    ensures forall j :: 0 <= j < |b| && j != i ==> r[j] == b[j]
  {
    b[i := false]
  }

  /** `flip (index)`: complements one bit. */
  function Flip(b: Bits, i: nat): (r: Bits)
    requires i < |b|
    ensures |r| == |b| && Test(r, i) == !Test(b, i)
    ensures forall j :: 0 <= j < |b| && j != i ==> r[j] == b[j]
  {
    b[i := !b[i]]
  }

  /** `set ()`: every bit set. */
  function SetAll(b: Bits): (r: Bits)
    ensures |r| == |b| && forall i :: 0 <= i < |b| ==> r[i]
  {
    seq(|b|, i => true)
  }

  /** `reset ()`: every bit clear. */
  function ResetAll(b: Bits): (r: Bits)
    ensures |r| == |b| && forall i :: 0 <= i < |r| ==> !r[i]
    ensures None(r)
  {
    seq(|b|, i => false)
  }

  /** `flip ()`: every bit complemented. */
  function FlipAll(b: Bits): (r: Bits)
    ensures |r| == |b| && forall i :: 0 <= i < |b| ==> r[i] == !b[i]
  {
    seq(|b|, i requires 0 <= i < |b| => !b[i])
  }

  /** `operator~`: a flipped copy. */
  function Not(b: Bits): (r: Bits)
    ensures |r| == |b| && forall i :: 0 <= i < |b| ==> r[i] == !b[i]
  {
    var ret := b;
    FlipAll(ret)
  }

  /** `&=` / `&`: pointwise conjunction of two sets of one size. */
  function And(a: Bits, b: Bits): (r: Bits)
    requires |a| == |b|
    ensures |r| == |a| && forall i :: 0 <= i < |a| ==> r[i] == (a[i] && b[i])
  {
    seq(|a|, i requires 0 <= i < |a| => a[i] && b[i])
  }

  /** `|=` / `|`: pointwise disjunction. */
  function Or(a: Bits, b: Bits): (r: Bits)
    requires |a| == |b|
    ensures |r| == |a| && forall i :: 0 <= i < |a| ==> r[i] == (a[i] || b[i])
  {
    seq(|a|, i requires 0 <= i < |a| => a[i] || b[i])
  }

  /** `^=` / `^`: pointwise exclusive or. */
  function Xor(a: Bits, b: Bits): (r: Bits)
    requires |a| == |b|
    ensures |r| == |a| && forall i :: 0 <= i < |a| ==> r[i] == (a[i] != b[i])
  {
    seq(|a|, i requires 0 <= i < |a| => a[i] != b[i])
  }

  /** The initializer-list constructor: `set` on each listed enumerator in turn. */
  function FromList(count: nat, list: seq<nat>): (r: Bits)
    requires forall k :: 0 <= k < |list| ==> list[k] < count
    ensures |r| == count
    ensures forall i :: 0 <= i < count ==> (r[i] <==> i in list)
  {
    if list == [] then Empty(count)
    else
      var prev := FromList(count, list[..|list| - 1]);
      assert forall i :: i in list <==> i in list[..|list| - 1] || i == list[|list| - 1] by {
        assert list == list[..|list| - 1] + [list[|list| - 1]];
      }
      Set(prev, list[|list| - 1])
  }

  /** `count`: the number of set bits. */
  function Count(b: Bits): nat {
    if b == [] then 0 else Count(b[..|b| - 1]) + (if b[|b| - 1] then 1 else 0)
  }

  /** `all`, `any`, `none` of `std::bitset`. */
  predicate All(b: Bits) {
    forall i :: 0 <= i < |b| ==> b[i]
  }

  predicate Any(b: Bits) {
    exists i :: 0 <= i < |b| && b[i]
  }

  predicate None(b: Bits) {
    !Any(b)
  }

  lemma {:induction false} CountBounded(b: Bits)
    ensures Count(b) <= Size(b)
  {
    if b != [] {
      CountBounded(b[..|b| - 1]);
    }
  }

  /** `all` holds exactly when every bit is counted. */
  lemma {:induction false} AllIffFullCount(b: Bits)
    ensures All(b) <==> Count(b) == Size(b)
  {
    if b != [] {
      var init := b[..|b| - 1];
      AllIffFullCount(init);
      CountBounded(init);
      assert All(b) <==> All(init) && b[|b| - 1] by {
        if All(init) && b[|b| - 1] {
          forall i | 0 <= i < |b|
            ensures b[i]
          {
            if i < |b| - 1 {
              assert b[i] == init[i];
            }
          }
        }
      }
    }
  }

  /** `none` holds exactly when no bit is counted, and `any` is its negation. */
  lemma {:induction false} NoneIffZeroCount(b: Bits)
    ensures None(b) <==> Count(b) == 0
    ensures Any(b) <==> Count(b) > 0
  {
    if b != [] {
      var init := b[..|b| - 1];
      NoneIffZeroCount(init);
      assert Any(b) <==> Any(init) || b[|b| - 1] by {
        if Any(init) {
          var i :| 0 <= i < |init| && init[i];
          assert b[i];
        }
        if Any(b) && !b[|b| - 1] {
          var i :| 0 <= i < |b| && b[i];
          assert init[i];
        }
      }
    }
  }

  /** Complementing twice restores the set. */
  lemma NotInvolution(b: Bits)
    ensures Not(Not(b)) == b
  {
  }

  /** The complement has the uncounted bits. */
  lemma {:induction false} CountNot(b: Bits)
    ensures Count(Not(b)) == Size(b) - Count(b)
  {
    if b != [] {
      var init := b[..|b| - 1];
      CountNot(init);
      CountBounded(init);
      assert Not(b)[..|b| - 1] == Not(init);
    }
  }

  /** Ordinals of `weather` in the repository's test. */
  const Sunny: nat := 0
  const Rainy: nat := 1
  const Overcast: nat := 2

  /** The repository's test, step by step, on a 3-bit set; the middle part
      is `WeatherOperators`. */
  lemma WeatherExample()
    ensures var bs := Set(Set(Empty(3), Sunny), Overcast);
      && Size(bs) == 3 && Test(bs, Sunny) && !Test(bs, Rainy) && Test(bs, Overcast)
      && !All(bs) && !None(bs) && Any(bs) && Count(bs) == 2
      && All(Set(bs, Rainy)) && !None(Set(bs, Rainy)) && Any(Set(bs, Rainy)) && Count(Set(bs, Rainy)) == 3
      && !All(ResetAll(bs)) && None(ResetAll(bs)) && !Any(ResetAll(bs)) && Count(ResetAll(bs)) == 0
    ensures And(FromList(3, [Overcast, Sunny]), FromList(3, [Sunny, Rainy]))[Sunny]
    ensures All(Or(FromList(3, [Overcast, Sunny]), FromList(3, [Sunny, Rainy])))
    ensures !Xor(FromList(3, [Overcast, Sunny]), FromList(3, [Sunny, Rainy]))[Sunny]
    ensures var bs := ResetAll(Set(Set(Set(Empty(3), Sunny), Overcast), Rainy));
      var other := Set(bs, Sunny);
      var bs1 := And(other, ResetAll(other));
      var other1 := SetAll(ResetAll(other));
      var bs2 := Or(bs1, other1);
      var bs4 := Xor(Reset(Set(bs2, Overcast, false), Sunny), Flip(other1, Rainy));
      && bs != other && None(bs1) && All(bs2) && All(bs4)
      && None(Not(bs4)) && All(FlipAll(Not(bs4)))
  {
    WeatherOperators();
    var bs := Set(Set(Empty(3), Sunny), Overcast);
    assert bs == [true, false, true];
    assert bs[..2] == [true, false] && bs[..2][..1] == [true];
    AllIffFullCount(Set(bs, Rainy));
    assert Set(bs, Rainy) == [true, true, true];
    NoneIffZeroCount(ResetAll(bs));
    assert ResetAll(bs) == [false, false, false];
    assert !All(bs) by { assert !bs[1]; }
    assert Any(bs) by { assert bs[0]; }
  }

  /** The middle of the repository's test: a copy differing in one bit, `&=`
      with a cleared set, `|=` with a full one, single-bit `set`, `reset` and
      `flip`, `^=`, `~` and `flip ()`. After `bs = other` the two are equal, so
      `bs &= other` starts from `other`. */
  lemma WeatherOperators()
    ensures var bs := ResetAll(Set(Set(Set(Empty(3), Sunny), Overcast), Rainy));
      var other := Set(bs, Sunny);
      var bs1 := And(other, ResetAll(other));
      var other1 := SetAll(ResetAll(other));
      var bs2 := Or(bs1, other1);
      var bs3 := Reset(Set(bs2, Overcast, false), Sunny);
      var other2 := Flip(other1, Rainy);
      var bs4 := Xor(bs3, other2);
      && bs != other && None(bs1) && All(bs2) && All(bs4)
      && None(Not(bs4)) && All(FlipAll(Not(bs4)))
  {
    var bs := ResetAll(Set(Set(Set(Empty(3), Sunny), Overcast), Rainy));
    assert bs == [false, false, false];
    var other := Set(bs, Sunny);
    assert other == [true, false, false];
    var bs1 := And(other, ResetAll(other));
    assert bs1 == [false, false, false];
    var other1 := SetAll(ResetAll(other));
    assert other1 == [true, true, true];
    var bs2 := Or(bs1, other1);
    var bs3 := Reset(Set(bs2, Overcast, false), Sunny);
    assert bs3 == [false, true, false];
    var other2 := Flip(other1, Rainy);
    assert other2 == [true, false, true];
    var bs4 := Xor(bs3, other2);
    assert bs4 == [true, true, true];
    assert Not(bs4) == [false, false, false];
  }
}
