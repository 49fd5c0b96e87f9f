/** The rank query of the order-statistics plugin (`indexation_plugin::tree_t::index`
    in src/comp/btree.h). */
module Indexation {
  import opened BTree

  /** `static_cast<std::size_t> (-1)` with a 64-bit `size_t`: the answer for
      an absent key. */
  const NotFound: int := 0x1_0000_0000_0000_0000 - 1

  /** The `index` loop from `current` with `index_so_far == acc`: a smaller
      key goes left and adds nothing; a larger key goes right and adds the
      left subtree's count and one; an equal key adds the left subtree's
      count and stops. Falling off the tree gives `NotFound`. */
  function IndexFrom(t: Tree, k: int, acc: int): int
    decreases t
  {
    match t
    case Leaf => NotFound
    case Node(_, l, x, r, _) =>
      if k < x then IndexFrom(l, k, acc)
      else if x < k then IndexFrom(r, k, acc + CountOf(l) + 1)
      else acc + CountOf(l)
  }

  /** `index (key)`. */
  function Index(t: Tree, k: int): int {
    IndexFrom(t, k, 0)
  }

  predicate StrictlySorted(s: seq<int>) {
    forall i, j :: 0 <= i < j < |s| ==> s[i] < s[j]
  }

  /** Where a key can be in a sorted node's symmetric order. */
  lemma NodeKeys(s: seq<int>, sl: seq<int>, x: int, sr: seq<int>, k: int)
    requires s == sl + [x] + sr && Sorted(s)
    ensures Sorted(sl) && Sorted(sr)
    ensures k < x ==> (k in s <==> k in sl)
    ensures x < k ==> (k in s <==> k in sr)
  {
    SortedNode(sl, x, sr);
    assert s == [] + sl + ([x] + sr);
    SortedParts([], sl, [x] + sr);
    assert s == (sl + [x]) + sr + [];
    SortedParts(sl + [x], sr, []);
    assert k in s <==> k in sl || k == x || k in sr;
  }

  /** On a counted search tree, the loop finds a position of the key in the
      symmetric order (offset by `acc`), or reports the key absent. */
  lemma {:induction false} IndexFromSpec(t: Tree, k: int, acc: int)
    requires Sorted(InOrder(t)) && Counted(t)
    ensures k !in InOrder(t) ==> IndexFrom(t, k, acc) == NotFound
    ensures k in InOrder(t) ==>
      var i := IndexFrom(t, k, acc) - acc;
      0 <= i < |InOrder(t)| && InOrder(t)[i] == k
    decreases t
  {
    match t
    case Leaf =>
    case Node(_, l, x, r, _) =>
      var sl, sr := InOrder(l), InOrder(r);
      var s := InOrder(t);
      assert s == sl + [x] + sr;
      NodeKeys(s, sl, x, sr, k);
      if k < x {
        IndexFromSpec(l, k, acc);
        if k in s {
          var i := IndexFrom(t, k, acc) - acc;
          assert s[i] == sl[i];
        }
      } else if x < k {
        CountedSize(l);
        IndexFromSpec(r, k, acc + CountOf(l) + 1);
        if k in s {
          var i := IndexFrom(t, k, acc) - acc;
          assert s[i] == sr[i - |sl| - 1];
        }
      } else {
        CountedSize(l);
        assert s[|sl|] == x;
      }
  }

  /** `index` on a counted search tree: a position of the key, or `NotFound`
      when the key is absent. */
  lemma IndexSpec(t: Tree, k: int)
    requires Sorted(InOrder(t)) && Counted(t)
    ensures k !in InOrder(t) ==> Index(t, k) == NotFound
    ensures k in InOrder(t) ==> 0 <= Index(t, k) < |InOrder(t)| && InOrder(t)[Index(t, k)] == k
  {
    IndexFromSpec(t, k, 0);
  }

  /** With distinct keys, `index` is the rank: the number of keys smaller
      than the one asked for. */
  lemma IndexIsRank(t: Tree, k: int)
    requires StrictlySorted(InOrder(t)) && Counted(t) && k in InOrder(t)
    ensures forall j :: 0 <= j < |InOrder(t)| ==> (InOrder(t)[j] < k <==> j < Index(t, k))
  {
    var s := InOrder(t);
    assert Sorted(s);
    IndexSpec(t, k);
  }

  /** The tree the repository's test holds after inserting 3, 7, 5, 6 and
      erasing 5, written out directly for any three keys a < b < c: all black,
      b on top (`IndexExamples.EraseTop` derives it from those steps). The
      ranks are 0, 1 and 2, and any other key is absent. */
  lemma IndexExample(a: int, b: int, c: int, other: int)
    requires a < b < c && other != a && other != b && other != c
    ensures var t := Node(Black, Node(Black, Leaf, a, Leaf, 1), b, Node(Black, Leaf, c, Leaf, 1), 3);
      Index(t, a) == 0 && Index(t, b) == 1 && Index(t, c) == 2 && Index(t, other) == NotFound
  {
    var l, r := Node(Black, Leaf, a, Leaf, 1), Node(Black, Leaf, c, Leaf, 1);
    var t0 := Node(Black, l, b, r, 3);
    assert CountOf(Leaf) == 0 && CountOf(l) == 1;
    if other < b {
      assert Index(t0, other) == IndexFrom(l, other, 0);
      if other < a {
        assert IndexFrom(l, other, 0) == IndexFrom(Leaf, other, 0);
      } else {
        assert IndexFrom(l, other, 0) == IndexFrom(Leaf, other, 1);
      }
    } else {
      assert Index(t0, other) == IndexFrom(r, other, 2);
      if other < c {
        assert IndexFrom(r, other, 2) == IndexFrom(Leaf, other, 2);
      } else {
        assert IndexFrom(r, other, 2) == IndexFrom(Leaf, other, 3);
      }
    }
    assert IndexFrom(l, a, 0) == 0 && IndexFrom(r, c, 2) == 2;
  }
}
