/** The repository's `indexed_rb_tree` test: the keys 3, 7, 5, 6 inserted in
    that order, 5 erased, then 100, 150 and 200 inserted, with the rank of
    a key asked after each step. Written for any keys a < b < c < d < x < y < z
    (3 < 5 < 6 < 7 < 100 < 150 < 200). The shapes are derived step by step up
    to the erase, which shows that `erase` as written does not fail there;
    after it the insertions are followed through their contract alone. */
module IndexExamples {
  import opened BTree
  import opened RbTree
  import opened Indexation
  import opened RbTreeExamples

  /** After a, d, b and c: b black on top, a black on its left, d black on
      its right with c red below it. */
  function I4(a: int, b: int, c: int, d: int): Tree {
    Node(Black, B(a), b, Node(Black, R(c), d, Leaf, 2), 4)
  }

  /** After erasing b: c black over a and d, both black. */
  function I3(a: int, c: int, d: int): Tree {
    Node(Black, B(a), c, B(d), 3)
  }

  /** The path to where b goes: left of d, right of a. */
  function PathBetween(a: int, d: int): seq<Frame> {
    [Frame(Left, Red, d, Leaf, 2), Frame(Right, Black, a, Leaf, 3)]
  }

  /** b descends right, then left, and lands red there. */
  lemma PreinsertBetween(a: int, b: int, d: int)
    requires a < b < d
    ensures Preinsert(T2(a, d), b) == Zipper(R(b), PathBetween(a, d))
  {
    var z0 := Zipper(T2(a, d), []);
    var d1 := Down(z0, Right);
    assert d1 == Zipper(R(d), [Frame(Right, Black, a, Leaf, 2)]);
    var d2 := Down(d1, Left);
    var path2 := [Frame(Left, Red, d, Leaf, 1), Frame(Right, Black, a, Leaf, 2)];
    assert d2 == Zipper(Leaf, path2);
    assert Descend(z0, b) == Descend(d1, b) == Descend(d2, b) == d2;
    var path := PathBetween(a, d);
    assert path2[1..] == [path2[1]];
    assert AddCount(path2[1..], 1) == path[1..];
    assert AddCount(path2, 1) == [path[0]] + AddCount(path2[1..], 1) == path;
  }

  /** The red parent d with no uncle, b on its left and d right of a: d is
      rotated up over b, then a over b, and b, now on top, turns black. */
  lemma RotateBetween(a: int, b: int, d: int)
    requires a < b < d
    ensures InsertRotated(Zipper(R(b), PathBetween(a, d))) == T3(a, b, d)
  {
    var path := PathBetween(a, d);
    var z := Zipper(R(b), path);
    // The parent d is rotated away from b.
    var zp := Up(z);
    assert zp == Zipper(Node(Red, R(b), d, Leaf, 2), path[1..]);
    var rp := Node(Red, Leaf, b, R(d), 2);
    assert RotTree(zp.focus, Right) == rp;
    AddCountZero(path[1..]);
    assert RotateAt(zp, Right) == Zipper(rp, path[1..]);
    var z1 := Down(RotateAt(zp, Right), Right);
    // Then the root a, away from b's side.
    assert Up(z1) == Zipper(rp, path[1..]);
    var zg := Up(Up(z1));
    assert zg == Zipper(Node(Black, Leaf, a, rp, 3), []);
    var rg := Node(Red, B(a), b, R(d), 3);
    assert RotTree(zg.focus, Left) == rg;
    assert RotateAt(zg, Left) == Zipper(rg, []);
    assert SwapColors(rg, Left) == T3(a, b, d);
  }

  /** b lands between the root a and its red child d; the rotations put b
      on top. */
  lemma InsertBetween(a: int, b: int, d: int)
    requires a < b < d
    ensures WellFormed(T2(a, d)) && Insert(T2(a, d), b) == T3(a, b, d)
  {
    InsertSecond(a, d);
    var z := Zipper(R(b), PathBetween(a, d));
    PreinsertBetween(a, b, d);
    PreinsertInv(T2(a, d), b);
    InsertRotation(z);
    RotateBetween(a, b, d);
    assert InsertFixup(z) == InsertRotated(z);
  }

  /** c lands left of the red d, whose sibling a is red too: both turn
      black, and b, the root, stays black. */
  lemma InsertInner(a: int, b: int, c: int, d: int)
    requires a < b < c < d
    ensures WellFormed(T3(a, b, d)) && Insert(T3(a, b, d), c) == I4(a, b, c, d)
  {
    LeafFacts();
    InsertBetween(a, b, d);
    var t := T3(a, b, d);
    var z0 := Zipper(t, []);
    var d1 := Down(z0, Right);
    assert d1 == Zipper(R(d), [Frame(Right, Black, b, R(a), 3)]);
    var d2 := Down(d1, Left);
    var path2 := [Frame(Left, Red, d, Leaf, 1), Frame(Right, Black, b, R(a), 3)];
    assert d2 == Zipper(Leaf, path2);
    assert Descend(z0, c) == Descend(d1, c) == Descend(d2, c) == d2;
    var path := [Frame(Left, Red, d, Leaf, 2), Frame(Right, Black, b, R(a), 4)];
    assert path2[1..] == [path2[1]];
    assert AddCount(path2[1..], 1) == path[1..];
    assert AddCount(path2, 1) == [path[0]] + AddCount(path2[1..], 1) == path;
    var z := Preinsert(t, c);
    assert z == Zipper(R(c), path);
    PreinsertInv(t, c);
    var g2 := Node(Red, B(a), b, Node(Black, R(c), d, Leaf, 2), 4);
    assert path[2..] == [];
    InsertRecolor(z);
    assert InsertFixup(z) == InsertFixup(Zipper(g2, []));
    assert InsertFixup(Zipper(g2, [])) == Paint(g2, Black);
  }

  /** b, at the root, has two children: it takes the key of its predecessor
      a, and that black leaf is unlinked, leaving its slot a black node
      short. */
  lemma EraseTopStart(a: int, b: int, c: int, d: int)
    requires a < b < c < d
    ensures WellFormed(I4(a, b, c, d))
    ensures Preerase(I4(a, b, c, d), b) == Present(Zipper(B(a), [Frame(Left, Black, a, Node(Black, R(c), d, Leaf, 2), 4)]))
    ensures var z := Zipper(Leaf, [Frame(Left, Black, a, Node(Black, R(c), d, Leaf, 2), 3)]);
      ReplaceWithChild(Preerase(I4(a, b, c, d), b).node) == z && EraseInv(z)
  {
    InsertInner(a, b, c, d);
    var t := I4(a, b, c, d);
    var nd := Node(Black, R(c), d, Leaf, 2);
    var z0 := Zipper(t, []);
    assert Find(z0, b) == z0;
    var p1 := Down(z0, Left);
    assert p1 == Zipper(B(a), [Frame(Left, Black, b, nd, 4)]);
    assert Rightmost(p1) == p1;
    var z2 := Zipper(Node(Black, B(a), a, nd, 4), []);
    var m := Down(z2, Left);
    assert m == Zipper(B(a), [Frame(Left, Black, a, nd, 4)]);
    assert Rightmost(m) == m;
    assert Preerase(t, b) == Present(m);
    ReplaceWithChildIs(m);
    assert ReplaceWithChild(m) == Zipper(Leaf, [Frame(Left, Black, a, nd, 3)]);
    EraseStartKeys(t, b);
    EraseStartShape(m);
  }

  /** The sibling d has the red near nephew c, which is rotated up over d
      and then over a, and ends black on top. */
  lemma EraseTopFix(a: int, c: int, d: int)
    requires a < c < d
    ensures var z := Zipper(Leaf, [Frame(Left, Black, a, Node(Black, R(c), d, Leaf, 2), 3)]);
      BlackSiblingStep(z) == Finish(I3(a, c, d))
  {
    var nd := Node(Black, R(c), d, Leaf, 2);
    var z := Zipper(Leaf, [Frame(Left, Black, a, nd, 3)]);
    // The near nephew c is rotated up over d.
    var zs := Zipper(nd, [Frame(Right, Black, a, Leaf, 3)]);
    assert Down(Up(z), Right) == zs;
    assert RotTree(nd, Right) == Node(Red, Leaf, c, B(d), 2);
    AddCountZero(zs.path);
    assert RotateAt(zs, Right) == Zipper(Node(Red, Leaf, c, B(d), 2), zs.path);
    var sc := Node(Black, Leaf, c, R(d), 2);
    assert SwapColors(Node(Red, Leaf, c, B(d), 2), Right) == sc;
    var zp1 := Zipper(Node(Black, Leaf, a, sc, 3), []);
    assert Up(Zipper(sc, zs.path)) == zp1;
    // Then a is rotated towards the empty slot.
    assert RotTree(zp1.focus, Left) == Node(Black, B(a), c, R(d), 3);
    assert RotateAt(zp1, Left) == Zipper(Node(Black, B(a), c, R(d), 3), []);
    assert SwapColors(Node(Black, B(a), c, R(d), 3), Left) == Node(Black, B(a), c, R(d), 3);
  }

  /** `erase (b)` as written succeeds and leaves c black over a and d. */
  lemma EraseTop(a: int, b: int, c: int, d: int)
    requires a < b < c < d
    ensures WellFormed(I4(a, b, c, d)) && Erase(I4(a, b, c, d), b, true) == Done(I3(a, c, d), 1)
  {
    EraseTopStart(a, b, c, d);
    EraseTopFix(a, c, d);
    var z := Zipper(Leaf, [Frame(Left, Black, a, Node(Black, R(c), d, Leaf, 2), 3)]);
    assert EraseFixup(z, true) == Done(I3(a, c, d), 1);
  }

  /** A key no smaller than every key of the tree goes in at the end of the
      order. */
  lemma InsertLast(t: Tree, k: int)
    requires WellFormed(t) && AllLe(InOrder(t), k)
    ensures InOrder(Insert(t, k)) == InOrder(t) + [k]
  {
    InsertSortedSplit(InOrder(t), [], k);
    assert InOrder(t) + [] == InOrder(t);
  }

  /** After the erase, three larger keys x < y < z go in at the end of the
      order. */
  lemma OrderAfterErase(a: int, c: int, d: int, x: int, y: int, z: int)
    requires a < c < d < x < y < z && WellFormed(I3(a, c, d))
    ensures InOrder(Insert(Insert(Insert(I3(a, c, d), x), y), z)) == [a, c, d, x, y, z]
  {
    var u := I3(a, c, d);
    assert InOrder(B(a)) == [a] && InOrder(B(d)) == [d];
    assert InOrder(u) == [a, c, d];
    InsertLast(u, x);
    var u1 := Insert(u, x);
    assert InOrder(u1) == [a, c, d, x];
    InsertLast(u1, y);
    var u2 := Insert(u1, y);
    assert InOrder(u2) == [a, c, d, x, y];
    InsertLast(u2, z);
  }

  /** With six keys in increasing order, the fifth has rank 4. */
  lemma RankOfFifth(t: Tree, a: int, c: int, d: int, x: int, y: int, z: int)
    requires WellFormed(t) && InOrder(t) == [a, c, d, x, y, z]
    requires a < c < d < x < y < z
    ensures Index(t, y) == 4
  {
    var s := InOrder(t);
    assert StrictlySorted(s);
    assert s[4] == y;
    IndexIsRank(t, y);
    assert s[3] < y;
  }

  /** ... and y's rank is 4. */
  lemma IndexAfterErase(a: int, c: int, d: int, x: int, y: int, z: int)
    requires a < c < d < x < y < z && WellFormed(I3(a, c, d))
    ensures Index(Insert(Insert(Insert(I3(a, c, d), x), y), z), y) == 4
  {
    var t := Insert(Insert(Insert(I3(a, c, d), x), y), z);
    OrderAfterErase(a, c, d, x, y, z);
    RankOfFifth(t, a, c, d, x, y, z);
  }

  /** The ranks the test asks for before the erase, on the shapes the
      insertions give. */
  lemma RanksBeforeErase(a: int, b: int, c: int, d: int)
    requires a < b < c < d
    ensures Index(B(a), a) == 0 && Index(T2(a, d), d) == 1 && Index(T3(a, b, d), b) == 1
    ensures Index(I4(a, b, c, d), c) == 2 && Index(I4(a, b, c, d), a) == 0
  {
    assert CountOf(Leaf) == 0 && CountOf(R(a)) == 1 && CountOf(B(a)) == 1;
    assert Index(T2(a, d), d) == IndexFrom(R(d), d, 1) == 1;
    assert Index(I4(a, b, c, d), c) == IndexFrom(Node(Black, R(c), d, Leaf, 2), c, 2) == IndexFrom(R(c), c, 2);
    assert Index(I4(a, b, c, d), a) == IndexFrom(B(a), a, 0);
  }

  /** The test: after `clear`, inserting a, d, b, c gives the ranks 0, 1, 1,
      then 2 for c and 0 for a; `erase (b)` succeeds and leaves c and d at
      ranks 1 and 2; after inserting x, y, z the rank of y is 4. */
  lemma IndexedExample(t: Tree, a: int, b: int, c: int, d: int, x: int, y: int, z: int)
    requires a < b < c < d < x < y < z
    ensures WellFormed(Clear(t))
    ensures
      var t1 := Insert(Clear(t), a);
      Index(t1, a) == 0 &&
      var t2 := Insert(t1, d);
      Index(t2, d) == 1 &&
      var t3 := Insert(t2, b);
      Index(t3, b) == 1 &&
      var t4 := Insert(t3, c);
      Index(t4, c) == 2 && Index(t4, a) == 0 &&
      var o := Erase(t4, b, true);
      o.Done? && Index(o.tree, c) == 1 && Index(o.tree, d) == 2 &&
      var t7 := Insert(Insert(Insert(o.tree, x), y), z);
      Index(t7, y) == 4
  {
    InsertFirst(a);
    InsertSecond(a, d);
    InsertBetween(a, b, d);
    InsertInner(a, b, c, d);
    EraseTop(a, b, c, d);
    RanksBeforeErase(a, b, c, d);
    IndexExample(a, c, d, b);
    IndexAfterErase(a, c, d, x, y, z);
  }
}
