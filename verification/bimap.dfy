/** Two maps kept side by side (src/bimap/bimap.h).

    `bimap<A, B>` holds `a_to_b` and `b_to_a`. Every insertion goes into both,
    with `std::map::insert` semantics: a key that is already present keeps its
    old value. Nothing keeps the two maps mutually consistent once keys
    collide (see `CollisionBreaksSymmetry`). */
module Bimap {

  datatype Option<T> = None | Some(value: T)

  /** `at` either returns the mapped value or throws `std::out_of_range`. */
  datatype Lookup<T> = Found(value: T) | OutOfRange

  datatype Bimap<A, B> = Bimap(aToB: map<A, B>, bToA: map<B, A>)

  /** The default constructor: both maps empty. */
  function Empty<A, B>(): (r: Bimap<A, B>)
    ensures r.aToB == map[] && r.bToA == map[]
  {
    Bimap(map[], map[])
  }

  /** `std::map::insert`: adds the pair only when the key is new. */
  function MapInsert<K, V>(m: map<K, V>, k: K, v: V): (r: map<K, V>)
    ensures k in r && r[k] == (if k in m then m[k] else v)
    ensures r.Keys == m.Keys + {k}
    ensures forall x :: x in m && x != k ==> r[x] == m[x]
  {
    if k in m then m else m[k := v]
  }

  /** `insert (pair<A, B>)`: a -> b into `a_to_b`, b -> a into `b_to_a`. */
  function Insert<A, B>(bm: Bimap<A, B>, a: A, b: B): Bimap<A, B> {
    Bimap(MapInsert(bm.aToB, a, b), MapInsert(bm.bToA, b, a))
  }

  /** `insert (pair<B, A>)`: the reverse orientation, `b_to_a` first. */
  function InsertReversed<A, B>(bm: Bimap<A, B>, b: B, a: A): (r: Bimap<A, B>)
    ensures r == Insert(bm, a, b)
  {
    var bToA := MapInsert(bm.bToA, b, a);
    Bimap(MapInsert(bm.aToB, a, b), bToA)
  }

  /** The initializer-list constructor over `pair<A, B>`: each pair in turn
      goes straight into the two maps. */
  function FromPairs<A, B>(ps: seq<(A, B)>): Bimap<A, B> {
    if ps == [] then Empty()
    else
      var bm := FromPairs(ps[..|ps| - 1]);
      var (a, b) := ps[|ps| - 1];
      Bimap(MapInsert(bm.aToB, a, b), MapInsert(bm.bToA, b, a))
  }

  /** The initializer-list constructor over `pair<B, A>`. */
  function FromReversedPairs<A, B>(ps: seq<(B, A)>): Bimap<A, B> {
    if ps == [] then Empty()
    else
      var bm := FromReversedPairs(ps[..|ps| - 1]);
      var (b, a) := ps[|ps| - 1];
      Bimap(MapInsert(bm.aToB, a, b), MapInsert(bm.bToA, b, a))
  }

  /** Successive `insert` calls, first pair first. */
  function InsertAll<A, B>(bm: Bimap<A, B>, ps: seq<(A, B)>): Bimap<A, B>
    decreases |ps|
  {
    if ps == [] then bm else InsertAll(Insert(bm, ps[0].0, ps[0].1), ps[1..])
  }

  function InsertAllReversed<A, B>(bm: Bimap<A, B>, ps: seq<(B, A)>): Bimap<A, B>
    decreases |ps|
  {
    if ps == [] then bm else InsertAllReversed(InsertReversed(bm, ps[0].0, ps[0].1), ps[1..])
  }

  lemma {:induction false} InsertAllSnoc<A, B>(bm: Bimap<A, B>, ps: seq<(A, B)>, a: A, b: B)
    ensures InsertAll(bm, ps + [(a, b)]) == Insert(InsertAll(bm, ps), a, b)
    decreases |ps|
  {
    if ps != [] {
      assert (ps + [(a, b)])[1..] == ps[1..] + [(a, b)];
      InsertAllSnoc(Insert(bm, ps[0].0, ps[0].1), ps[1..], a, b);
    }
  }

  lemma {:induction false} InsertAllReversedSnoc<A, B>(bm: Bimap<A, B>, ps: seq<(B, A)>, b: B, a: A)
    ensures InsertAllReversed(bm, ps + [(b, a)]) == InsertReversed(InsertAllReversed(bm, ps), b, a)
    decreases |ps|
  {
    if ps != [] {
      assert (ps + [(b, a)])[1..] == ps[1..] + [(b, a)];
      InsertAllReversedSnoc(InsertReversed(bm, ps[0].0, ps[0].1), ps[1..], b, a);
    }
  }

  /** The constructor is the same as inserting the listed pairs one by one. */
  lemma {:induction false} FromPairsIsInsertAll<A, B>(ps: seq<(A, B)>)
    ensures FromPairs(ps) == InsertAll(Empty(), ps)
  {
    if ps != [] {
      var init, last := ps[..|ps| - 1], ps[|ps| - 1];
      FromPairsIsInsertAll(init);
      assert ps == init + [last];
      InsertAllSnoc(Empty(), init, last.0, last.1);
    }
  }

  lemma {:induction false} FromReversedPairsIsInsertAll<A, B>(ps: seq<(B, A)>)
    ensures FromReversedPairs(ps) == InsertAllReversed(Empty(), ps)
  {
    if ps != [] {
      var init, last := ps[..|ps| - 1], ps[|ps| - 1];
      FromReversedPairsIsInsertAll(init);
      assert ps == init + [last];
      InsertAllReversedSnoc(Empty(), init, last.0, last.1);
    }
  }

  /** `toBvalue`: the value mapped from `a`, or none. */
  function ToBValue<A, B>(bm: Bimap<A, B>, a: A): (r: Option<B>)
    ensures r.Some? <==> a in bm.aToB
    ensures r.Some? ==> r.value == bm.aToB[a]
  {
    if a in bm.aToB then Some(bm.aToB[a]) else None
  }

  /** `toAvalue`: the value mapped from `b`, or none. */
  function ToAValue<A, B>(bm: Bimap<A, B>, b: B): (r: Option<A>)
    ensures r.Some? <==> b in bm.bToA
    ensures r.Some? ==> r.value == bm.bToA[b]
  {
    if b in bm.bToA then Some(bm.bToA[b]) else None
  }

  /** `value (const A &)`: the same lookup as `toBvalue`. */
  function ValueOfA<A, B>(bm: Bimap<A, B>, a: A): (r: Option<B>)
    ensures r.Some? <==> a in bm.aToB
    ensures r.Some? ==> r.value == bm.aToB[a]
  {
    var it := if a in bm.aToB then Some(bm.aToB[a]) else None;
    it
  }

  /** `value (const B &)`: the same lookup as `toAvalue`. */
  function ValueOfB<A, B>(bm: Bimap<A, B>, b: B): (r: Option<A>)
    ensures r.Some? <==> b in bm.bToA
    ensures r.Some? ==> r.value == bm.bToA[b]
  {
    var it := if b in bm.bToA then Some(bm.bToA[b]) else None;
    it
  }

  /** `at (const A &)`: the mapped value, or `out_of_range` for an absent key. */
  function AtA<A, B>(bm: Bimap<A, B>, a: A): (r: Lookup<B>)
    ensures r.OutOfRange? <==> a !in bm.aToB
    ensures r.Found? ==> ToBValue(bm, a) == Some(r.value)
  {
    if a in bm.aToB then Found(bm.aToB[a]) else OutOfRange
  }

  /** `at (const B &)`. */
  function AtB<A, B>(bm: Bimap<A, B>, b: B): (r: Lookup<A>)
    ensures r.OutOfRange? <==> b !in bm.bToA
    ensures r.Found? ==> ToAValue(bm, b) == Some(r.value)
  {
    if b in bm.bToA then Found(bm.bToA[b]) else OutOfRange
  }

  /** `size`: the number of keys of `a_to_b`. */
  function Size<A, B>(bm: Bimap<A, B>): nat {
    |bm.aToB|
  }

  /** After `insert ({a, b})`, a fresh `a` maps to `b` and a fresh `b` maps
      back to `a`; every other lookup is as before. */
  lemma InsertLookups<A, B>(bm: Bimap<A, B>, a: A, b: B)
    ensures ToBValue(Insert(bm, a, b), a) == (if a in bm.aToB then ToBValue(bm, a) else Some(b))
    ensures ToAValue(Insert(bm, a, b), b) == (if b in bm.bToA then ToAValue(bm, b) else Some(a))
    ensures forall x :: x != a ==> ToBValue(Insert(bm, a, b), x) == ToBValue(bm, x)
    ensures forall y :: y != b ==> ToAValue(Insert(bm, a, b), y) == ToAValue(bm, y)
  {
  }

  /** `size` grows by one exactly when the `A` key is new. */
  lemma InsertSize<A, B>(bm: Bimap<A, B>, a: A, b: B)
    ensures Size(Insert(bm, a, b)) == (if a in bm.aToB then Size(bm) else Size(bm) + 1)
  {
    if a !in bm.aToB {
      assert Insert(bm, a, b).aToB.Keys == bm.aToB.Keys + {a};
    }
  }

  /** The two maps can disagree: after inserting (1, 2) and then (1, 3), the
      value 3 maps back to 1 while 1 still maps to 2. */
  lemma CollisionBreaksSymmetry()
    ensures var bm := Insert(Insert(Empty<int, int>(), 1, 2), 1, 3);
      ToAValue(bm, 3) == Some(1) && ToBValue(bm, 1) == Some(2)
  {
  }

  /** The repository's tests: {{3, "abc"}, {7, "dbe"}} answers at("abc") == 3,
      throws for "asdasd" and gives at(7) == "dbe"; a string to optional-int
      bimap given the reversed pair (nullopt, "936") and then ("addd", 123) has
      size 2, value(nullopt) == "936", toBvalue("addd") == 123 and nothing for
      "asdsadsa" or 12233; {{8, 88}, {117, 48}} with (7, 777) inserted answers
      toAvalue(88) == 8, toBvalue(117) == 48, and nothing for 1327. */
  lemma Examples()
    ensures var m := FromPairs([(3, "abc"), (7, "dbe")]);
      AtB(m, "abc") == Found(3) && AtB(m, "asdasd") == OutOfRange && AtA(m, 7) == Found("dbe")
    ensures var m := Insert(FromPairs([(8, 88), (117, 48)]), 7, 777);
      ToAValue(m, 88) == Some(8) && ToBValue(m, 117) == Some(48) && ToBValue(m, 1327) == None && Size(m) == 3
    ensures var m := Insert(InsertReversed(Empty<string, Option<int>>(), None, "936"), "addd", Some(123));
      && Size(m) == 2 && ValueOfB(m, None) == Some("936") && ToBValue(m, "addd") == Some(Some(123))
      && ToBValue(m, "asdsadsa") == None && ToAValue(m, Some(12233)) == None
  {
    StringKeyExample();
    OptionalKeyExample();
    IntKeyExample();
  }

  /** The first test: the list constructor, then `at` both ways. */
  lemma StringKeyExample()
    ensures var m := FromPairs([(3, "abc"), (7, "dbe")]);
      AtB(m, "abc") == Found(3) && AtB(m, "asdasd") == OutOfRange && AtA(m, 7) == Found("dbe")
  {
    assert [(3, "abc"), (7, "dbe")][..1] == [(3, "abc")];
    assert [(3, "abc")][..0] == [];
  }

  /** The last test: the list constructor, one insert, then lookups. */
  lemma IntKeyExample()
    ensures var m := Insert(FromPairs([(8, 88), (117, 48)]), 7, 777);
      ToAValue(m, 88) == Some(8) && ToBValue(m, 117) == Some(48) && ToBValue(m, 1327) == None && Size(m) == 3
  {
    var m2 := FromPairs([(8, 88), (117, 48)]);
    assert [(8, 88), (117, 48)][..1] == [(8, 88)];
    assert [(8, 88)][..0] == [];
    assert m2.aToB == map[8 := 88, 117 := 48];
    assert Insert(m2, 7, 777).aToB.Keys == {8, 117, 7};
  }

  /** The middle test: a reversed insert with the optional key `nullopt`, then
      a plain insert. */
  lemma OptionalKeyExample()
    ensures var m := Insert(InsertReversed(Empty<string, Option<int>>(), None, "936"), "addd", Some(123));
      && Size(m) == 2 && ValueOfB(m, None) == Some("936") && ToBValue(m, "addd") == Some(Some(123))
      && ToBValue(m, "asdsadsa") == None && ToAValue(m, Some(12233)) == None
  {
    var e := Empty<string, Option<int>>();
    var m1 := InsertReversed(e, None, "936");
    assert m1 == Bimap(map["936" := None], map[None := "936"]);
    var m := Insert(m1, "addd", Some(123));
    assert "addd" != "936";
    assert m.aToB == map["936" := None, "addd" := Some(123)];
    assert m.bToA == map[None := "936", Some(123) := "addd"];
    assert m.aToB.Keys == {"936", "addd"};
  }
}
