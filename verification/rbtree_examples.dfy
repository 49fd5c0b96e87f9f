/** The red-black trees of the repository's `rb_tree` test. First the keys 5,
    11, 3, 16, 12 inserted in that order, written for any five keys
    a < b < c < d < e (3 < 5 < 11 < 12 < 16). Each insertion is one lemma;
    together they give the tree the test walks: b black on top, a black on
    its left, d black on its right with c and e red below it. Then, after
    `clear`, the same five and 7, 66, 15, 10 inserted and 12, 3, 66 erased,
    one lemma per step again, down to the second tree the test walks. */
module RbTreeExamples {
  import opened BTree
  import opened RbTree

  function B(k: int): Tree { Node(Black, Leaf, k, Leaf, 1) }
  function R(k: int): Tree { Node(Red, Leaf, k, Leaf, 1) }

  function T1(b: int): Tree { B(b) }
  function T2(b: int, c: int): Tree { Node(Black, Leaf, b, R(c), 2) }
  function T3(a: int, b: int, c: int): Tree { Node(Black, R(a), b, R(c), 3) }
  function T4(a: int, b: int, c: int, e: int): Tree {
    Node(Black, B(a), b, Node(Black, Leaf, c, R(e), 2), 4)
  }
  function T5(a: int, b: int, c: int, d: int, e: int): Tree {
    Node(Black, B(a), b, Node(Black, R(c), d, R(e), 3), 5)
  }

  /** The first key becomes a black root. */
  lemma InsertFirst(b: int)
    ensures WellFormed(Leaf) && Insert(Leaf, b) == T1(b)
  {
    LeafFacts();
    var z := Preinsert(Leaf, b);
    assert z == Zipper(R(b), []);
    assert InsertFixup(z) == Paint(R(b), Black);
  }

  /** A larger key hangs red to the right of the black root. */
  lemma InsertSecond(b: int, c: int)
    requires b < c
    ensures WellFormed(T1(b)) && Insert(T1(b), c) == T2(b, c)
  {
    LeafFacts();
    assert InOrder(T1(b)) == [b];
    var z0 := Zipper(T1(b), []);
    var d := Down(z0, Right);
    assert d == Zipper(Leaf, [Frame(Right, Black, b, Leaf, 1)]);
    assert Descend(z0, c) == Descend(d, c) == d;
    var z := Preinsert(T1(b), c);
    assert z == Zipper(R(c), [Frame(Right, Black, b, Leaf, 2)]);
    PreinsertInv(T1(b), c);
    assert InsertFixup(z) == Root(z);
  }

  /** A smaller key hangs red to the left. */
  lemma InsertThird(a: int, b: int, c: int)
    requires a < b < c
    ensures WellFormed(T2(b, c)) && Insert(T2(b, c), a) == T3(a, b, c)
  {
    LeafFacts();
    InsertSecond(b, c);
    var z0 := Zipper(T2(b, c), []);
    var d := Down(z0, Left);
    assert d == Zipper(Leaf, [Frame(Left, Black, b, R(c), 2)]);
    assert Descend(z0, a) == Descend(d, a) == d;
    var z := Preinsert(T2(b, c), a);
    assert z == Zipper(R(a), [Frame(Left, Black, b, R(c), 3)]);
    PreinsertInv(T2(b, c), a);
    assert InsertFixup(z) == Root(z);
  }

  /** The fourth key meets a red parent with a red uncle: both turn black,
      the grandparent red, and the grandparent, being the root, black again. */
  lemma InsertFourth(a: int, b: int, c: int, e: int)
    requires a < b < c < e
    ensures WellFormed(T3(a, b, c)) && Insert(T3(a, b, c), e) == T4(a, b, c, e)
  {
    LeafFacts();
    InsertThird(a, b, c);
    var z0 := Zipper(T3(a, b, c), []);
    var d1 := Down(z0, Right);
    assert d1 == Zipper(R(c), [Frame(Right, Black, b, R(a), 3)]);
    var d2 := Down(d1, Right);
    assert d2 == Zipper(Leaf, [Frame(Right, Red, c, Leaf, 1), Frame(Right, Black, b, R(a), 3)]);
    assert Descend(z0, e) == Descend(d1, e) == Descend(d2, e) == d2;
    assert d2.path[1..] == [Frame(Right, Black, b, R(a), 3)];
    assert AddCount(d2.path[1..], 1) == [Frame(Right, Black, b, R(a), 4)];
    var z := Preinsert(T3(a, b, c), e);
    assert z == Zipper(R(e), [Frame(Right, Red, c, Leaf, 2), Frame(Right, Black, b, R(a), 4)]);
    PreinsertInv(T3(a, b, c), e);
    var g2 := Node(Red, B(a), b, Node(Black, Leaf, c, R(e), 2), 4);
    var up := Zipper(g2, []);
    assert z.path[2..] == [];
    InsertRecolor(z);
    assert InsertFixup(z) == InsertFixup(up);
    assert InsertFixup(up) == Paint(g2, Black);
  }

  /** The path to where the fifth key goes: left of e, below c, below b. */
  function Path5(a: int, b: int, c: int, e: int): seq<Frame> {
    [Frame(Left, Red, e, Leaf, 2), Frame(Right, Black, c, Leaf, 3), Frame(Right, Black, b, B(a), 5)]
  }

  /** The fifth key descends right, right, left and lands red there, every
      count on the way up one larger. */
  lemma PreinsertFifth(a: int, b: int, c: int, d: int, e: int)
    requires a < b < c < d < e
    ensures Preinsert(T4(a, b, c, e), d) == Zipper(R(d), Path5(a, b, c, e))
  {
    var t := T4(a, b, c, e);
    var z0 := Zipper(t, []);
    var d1 := Down(z0, Right);
    assert d1 == Zipper(Node(Black, Leaf, c, R(e), 2), [Frame(Right, Black, b, B(a), 4)]);
    var d2 := Down(d1, Right);
    assert d2 == Zipper(R(e), [Frame(Right, Black, c, Leaf, 2), Frame(Right, Black, b, B(a), 4)]);
    var d3 := Down(d2, Left);
    var path3 := [Frame(Left, Red, e, Leaf, 1), Frame(Right, Black, c, Leaf, 2), Frame(Right, Black, b, B(a), 4)];
    assert d3 == Zipper(Leaf, path3);
    assert Descend(z0, d) == Descend(d1, d) == Descend(d2, d) == Descend(d3, d) == d3;
    var path := Path5(a, b, c, e);
    assert path3[1..][1..] == path3[2..] == [Frame(Right, Black, b, B(a), 4)];
    assert AddCount(path3[2..], 1) == path[2..];
    assert AddCount(path3[1..], 1) == [path[1]] + AddCount(path3[2..], 1) == path[1..];
    assert AddCount(path3, 1) == [path[0]] + AddCount(path3[1..], 1) == path;
  }

  /** The red parent e with no uncle, d on its left and e right of c: the two
      rotations and the colour swap put d on top of c and e. */
  lemma RotateFifth(a: int, b: int, c: int, d: int, e: int)
    requires a < b < c < d < e
    ensures var z := Zipper(R(d), Path5(a, b, c, e));
      InsertRotated(z) == T5(a, b, c, d, e)
  {
    var path := Path5(a, b, c, e);
    var z := Zipper(R(d), path);
    // The parent is rotated away from the new node.
    var zp := Up(z);
    assert zp == Zipper(Node(Red, R(d), e, Leaf, 2), path[1..]);
    var rp := Node(Red, Leaf, d, R(e), 2);
    assert RotTree(zp.focus, Right) == rp;
    AddCountZero(path[1..]);
    assert RotateAt(zp, Right) == Zipper(rp, path[1..]);
    var z1 := Down(RotateAt(zp, Right), Right);
    // Then the grandparent, away from the node's side.
    var zg := Up(Up(z1));
    assert Up(z1) == Zipper(rp, path[1..]);
    assert zg == Zipper(Node(Black, Leaf, c, rp, 3), path[2..]);
    var rg := Node(Red, B(c), d, R(e), 3);
    assert RotTree(zg.focus, Left) == rg;
    AddCountZero(path[2..]);
    assert RotateAt(zg, Left) == Zipper(rg, path[2..]);
    assert SwapColors(rg, Left) == Node(Black, R(c), d, R(e), 3);
    assert InsertRotated(z) == Root(Zipper(Node(Black, R(c), d, R(e), 3), path[2..]));
  }

  /** The fifth key meets a red parent with no uncle, on the other side from
      its parent: the parent is rotated, then the grandparent, and the new
      top swaps colours with the old grandparent. */
  lemma InsertFifth(a: int, b: int, c: int, d: int, e: int)
    requires a < b < c < d < e
    ensures WellFormed(T4(a, b, c, e)) && Insert(T4(a, b, c, e), d) == T5(a, b, c, d, e)
  {
    InsertFourth(a, b, c, e);
    var t := T4(a, b, c, e);
    var z := Zipper(R(d), Path5(a, b, c, e));
    PreinsertFifth(a, b, c, d, e);
    PreinsertInv(t, d);
    InsertRotation(z);
    RotateFifth(a, b, c, d, e);
    assert InsertFixup(z) == InsertRotated(z);
  }

  /** The tree the test walks after inserting 5, 11, 3, 16 and 12. */
  lemma InsertExample(a: int, b: int, c: int, d: int, e: int)
    requires a < b < c < d < e
    ensures WellFormed(Leaf)
    ensures
      var t1 := Insert(Leaf, b);
      var t2 := Insert(t1, c);
      var t3 := Insert(t2, a);
      var t4 := Insert(t3, e);
      Insert(t4, d) == T5(a, b, c, d, e)
  {
    InsertFirst(b);
    InsertSecond(b, c);
    InsertThird(a, b, c);
    InsertFourth(a, b, c, e);
    InsertFifth(a, b, c, d, e);
  }

  // ---------------------------------------------------------------------------
  // The second walk of the test: 7, 66, 15 and 10 inserted after the first
  // five keys, then 12, 3 and 66 erased. With a, b, c, d, e the first five
  // keys as above, the new ones are f = 7, g = 66, h = 15 and i = 10, so
  // a < b < f < i < c < d < h < e < g.
  // ---------------------------------------------------------------------------

  predicate Ordered9(a: int, b: int, c: int, d: int, e: int, f: int, g: int, h: int, i: int) {
    a < b < f < i < c < d < h < e < g
  }

  /** After f: c and e black, d red. */
  function T6(a: int, b: int, c: int, d: int, e: int, f: int): Tree {
    Node(Black, B(a), b, Node(Red, Node(Black, R(f), c, Leaf, 2), d, B(e), 4), 6)
  }
  /** After g, right of e. */
  function T7(a: int, b: int, c: int, d: int, e: int, f: int, g: int): Tree {
    Node(Black, B(a), b, Node(Red, Node(Black, R(f), c, Leaf, 2), d, Node(Black, Leaf, e, R(g), 2), 5), 7)
  }
  /** After h, left of e. */
  function T8(a: int, b: int, c: int, d: int, e: int, f: int, g: int, h: int): Tree {
    Node(Black, B(a), b, Node(Red, Node(Black, R(f), c, Leaf, 2), d, Node(Black, R(h), e, R(g), 3), 6), 8)
  }
  /** After i: i black over f and c. */
  function T9(a: int, b: int, c: int, d: int, e: int, f: int, g: int, h: int, i: int): Tree {
    Node(Black, B(a), b, Node(Red, Node(Black, R(f), i, R(c), 3), d, Node(Black, R(h), e, R(g), 3), 7), 9)
  }

  /** f lands left of the red c, whose sibling e is red too: c and e turn
      black, d red, and d's parent b is black. */
  lemma InsertSixth(a: int, b: int, c: int, d: int, e: int, f: int)
    requires a < b < f < c < d < e
    ensures WellFormed(T5(a, b, c, d, e)) && Insert(T5(a, b, c, d, e), f) == T6(a, b, c, d, e, f)
  {
    LeafFacts();
    InsertFifth(a, b, c, d, e);
    var t := T5(a, b, c, d, e);
    var z0 := Zipper(t, []);
    var d1 := Down(z0, Right);
    assert d1 == Zipper(Node(Black, R(c), d, R(e), 3), [Frame(Right, Black, b, B(a), 5)]);
    var d2 := Down(d1, Left);
    assert d2 == Zipper(R(c), [Frame(Left, Black, d, R(e), 3), Frame(Right, Black, b, B(a), 5)]);
    var d3 := Down(d2, Left);
    var path3 := [Frame(Left, Red, c, Leaf, 1), Frame(Left, Black, d, R(e), 3), Frame(Right, Black, b, B(a), 5)];
    assert d3 == Zipper(Leaf, path3);
    assert Descend(z0, f) == Descend(d1, f) == Descend(d2, f) == Descend(d3, f) == d3;
    var path := [Frame(Left, Red, c, Leaf, 2), Frame(Left, Black, d, R(e), 4), Frame(Right, Black, b, B(a), 6)];
    assert path3[1..][1..] == path3[2..] == [Frame(Right, Black, b, B(a), 5)];
    assert AddCount(path3[2..], 1) == path[2..];
    assert AddCount(path3[1..], 1) == [path[1]] + AddCount(path3[2..], 1) == path[1..];
    assert AddCount(path3, 1) == [path[0]] + AddCount(path3[1..], 1) == path;
    var z := Preinsert(t, f);
    assert z == Zipper(R(f), path);
    PreinsertInv(t, f);
    var g2 := Node(Red, Node(Black, R(f), c, Leaf, 2), d, B(e), 4);
    InsertRecolor(z);
    assert InsertFixup(z) == InsertFixup(Zipper(g2, path[2..]));
    assert InsertFixup(Zipper(g2, path[2..])) == Root(Zipper(g2, path[2..]));
  }

  /** g lands right of the black e. */
  lemma InsertSeventh(a: int, b: int, c: int, d: int, e: int, f: int, g: int)
    requires a < b < f < c < d < e < g
    ensures WellFormed(T6(a, b, c, d, e, f)) && Insert(T6(a, b, c, d, e, f), g) == T7(a, b, c, d, e, f, g)
  {
    LeafFacts();
    InsertSixth(a, b, c, d, e, f);
    var t := T6(a, b, c, d, e, f);
    var l := Node(Black, R(f), c, Leaf, 2);
    var z0 := Zipper(t, []);
    var d1 := Down(z0, Right);
    assert d1 == Zipper(Node(Red, l, d, B(e), 4), [Frame(Right, Black, b, B(a), 6)]);
    var d2 := Down(d1, Right);
    assert d2 == Zipper(B(e), [Frame(Right, Red, d, l, 4), Frame(Right, Black, b, B(a), 6)]);
    var d3 := Down(d2, Right);
    var path3 := [Frame(Right, Black, e, Leaf, 1), Frame(Right, Red, d, l, 4), Frame(Right, Black, b, B(a), 6)];
    assert d3 == Zipper(Leaf, path3);
    assert Descend(z0, g) == Descend(d1, g) == Descend(d2, g) == Descend(d3, g) == d3;
    var path := [Frame(Right, Black, e, Leaf, 2), Frame(Right, Red, d, l, 5), Frame(Right, Black, b, B(a), 7)];
    assert path3[1..][1..] == path3[2..] == [Frame(Right, Black, b, B(a), 6)];
    assert AddCount(path3[2..], 1) == path[2..];
    assert AddCount(path3[1..], 1) == [path[1]] + AddCount(path3[2..], 1) == path[1..];
    assert AddCount(path3, 1) == [path[0]] + AddCount(path3[1..], 1) == path;
    var z := Preinsert(t, g);
    assert z == Zipper(R(g), path);
    PreinsertInv(t, g);
    assert InsertFixup(z) == Root(z);
    var u := Up(z);
    assert u == Zipper(Node(Black, Leaf, e, R(g), 2), path[1..]);
    assert Up(Up(u)) == Zipper(T7(a, b, c, d, e, f, g), []);
  }

  /** h lands left of the black e. */
  lemma InsertEighth(a: int, b: int, c: int, d: int, e: int, f: int, g: int, h: int)
    requires a < b < f < c < d < h < e < g
    ensures WellFormed(T7(a, b, c, d, e, f, g)) && Insert(T7(a, b, c, d, e, f, g), h) == T8(a, b, c, d, e, f, g, h)
  {
    LeafFacts();
    InsertSeventh(a, b, c, d, e, f, g);
    var t := T7(a, b, c, d, e, f, g);
    var l := Node(Black, R(f), c, Leaf, 2);
    var z0 := Zipper(t, []);
    var d1 := Down(z0, Right);
    assert d1 == Zipper(Node(Red, l, d, Node(Black, Leaf, e, R(g), 2), 5), [Frame(Right, Black, b, B(a), 7)]);
    var d2 := Down(d1, Right);
    assert d2 == Zipper(Node(Black, Leaf, e, R(g), 2), [Frame(Right, Red, d, l, 5), Frame(Right, Black, b, B(a), 7)]);
    var d3 := Down(d2, Left);
    var path3 := [Frame(Left, Black, e, R(g), 2), Frame(Right, Red, d, l, 5), Frame(Right, Black, b, B(a), 7)];
    assert d3 == Zipper(Leaf, path3);
    assert Descend(z0, h) == Descend(d1, h) == Descend(d2, h) == Descend(d3, h) == d3;
    var path := [Frame(Left, Black, e, R(g), 3), Frame(Right, Red, d, l, 6), Frame(Right, Black, b, B(a), 8)];
    assert path3[1..][1..] == path3[2..] == [Frame(Right, Black, b, B(a), 7)];
    assert AddCount(path3[2..], 1) == path[2..];
    assert AddCount(path3[1..], 1) == [path[1]] + AddCount(path3[2..], 1) == path[1..];
    assert AddCount(path3, 1) == [path[0]] + AddCount(path3[1..], 1) == path;
    var z := Preinsert(t, h);
    assert z == Zipper(R(h), path);
    PreinsertInv(t, h);
    assert InsertFixup(z) == Root(z);
    var u := Up(z);
    assert u == Zipper(Node(Black, R(h), e, R(g), 3), path[1..]);
    assert Up(Up(u)) == Zipper(T8(a, b, c, d, e, f, g, h), []);
  }

  /** The path to where the ninth key goes: right of f, below c, d and b. */
  function Path9(a: int, b: int, d: int, e: int, c: int, f: int, g: int, h: int): seq<Frame> {
    [Frame(Right, Red, f, Leaf, 2), Frame(Left, Black, c, Leaf, 3),
     Frame(Left, Red, d, Node(Black, R(h), e, R(g), 3), 7), Frame(Right, Black, b, B(a), 9)]
  }

  /** The ninth key descends right, left, left, right and lands red there,
      every count on the way up one larger. */
  lemma PreinsertNinth(a: int, b: int, c: int, d: int, e: int, f: int, g: int, h: int, i: int)
    requires Ordered9(a, b, c, d, e, f, g, h, i)
    ensures Preinsert(T8(a, b, c, d, e, f, g, h), i) == Zipper(R(i), Path9(a, b, d, e, c, f, g, h))
  {
    var t := T8(a, b, c, d, e, f, g, h);
    var ne := Node(Black, R(h), e, R(g), 3);
    var z0 := Zipper(t, []);
    var d1 := Down(z0, Right);
    assert d1 == Zipper(Node(Red, Node(Black, R(f), c, Leaf, 2), d, ne, 6), [Frame(Right, Black, b, B(a), 8)]);
    var d2 := Down(d1, Left);
    assert d2 == Zipper(Node(Black, R(f), c, Leaf, 2), [Frame(Left, Red, d, ne, 6), Frame(Right, Black, b, B(a), 8)]);
    var d3 := Down(d2, Left);
    assert d3 == Zipper(R(f), [Frame(Left, Black, c, Leaf, 2), Frame(Left, Red, d, ne, 6), Frame(Right, Black, b, B(a), 8)]);
    var d4 := Down(d3, Right);
    var path4 := [Frame(Right, Red, f, Leaf, 1), Frame(Left, Black, c, Leaf, 2), Frame(Left, Red, d, ne, 6), Frame(Right, Black, b, B(a), 8)];
    assert d4 == Zipper(Leaf, path4);
    assert Descend(z0, i) == Descend(d1, i) == Descend(d2, i) == Descend(d3, i) == Descend(d4, i) == d4;
    var path := Path9(a, b, d, e, c, f, g, h);
    assert path4[3..] == [Frame(Right, Black, b, B(a), 8)];
    assert path4[2..][1..] == path4[3..] && path4[1..][1..] == path4[2..];
    assert AddCount(path4[3..], 1) == path[3..];
    assert AddCount(path4[2..], 1) == [path[2]] + AddCount(path4[3..], 1) == path[2..];
    assert AddCount(path4[1..], 1) == [path[1]] + AddCount(path4[2..], 1) == path[1..];
    assert AddCount(path4, 1) == [path[0]] + AddCount(path4[1..], 1) == path;
  }

  /** The red parent f with no uncle, i on its right and f left of c: the
      two rotations and the colour swap put i on top of f and c. */
  lemma RotateNinth(a: int, b: int, c: int, d: int, e: int, f: int, g: int, h: int, i: int)
    requires Ordered9(a, b, c, d, e, f, g, h, i)
    ensures var z := Zipper(R(i), Path9(a, b, d, e, c, f, g, h));
      InsertRotated(z) == T9(a, b, c, d, e, f, g, h, i)
  {
    var path := Path9(a, b, d, e, c, f, g, h);
    var z := Zipper(R(i), path);
    // The parent is rotated away from the new node.
    var zp := Up(z);
    assert zp == Zipper(Node(Red, Leaf, f, R(i), 2), path[1..]);
    var rp := Node(Red, R(f), i, Leaf, 2);
    assert RotTree(zp.focus, Left) == rp;
    AddCountZero(path[1..]);
    assert RotateAt(zp, Left) == Zipper(rp, path[1..]);
    var z1 := Down(RotateAt(zp, Left), Left);
    // Then the grandparent, away from the node's side.
    var zg := Up(Up(z1));
    assert Up(z1) == Zipper(rp, path[1..]);
    assert zg == Zipper(Node(Black, rp, c, Leaf, 3), path[2..]);
    var rg := Node(Red, R(f), i, B(c), 3);
    assert RotTree(zg.focus, Right) == rg;
    AddCountZero(path[2..]);
    assert RotateAt(zg, Right) == Zipper(rg, path[2..]);
    assert SwapColors(rg, Right) == Node(Black, R(f), i, R(c), 3);
    assert path[2..][1..] == path[3..];
    assert InsertRotated(z) == Root(Zipper(Node(Black, R(f), i, R(c), 3), path[2..]));
  }

  /** The ninth key meets a red parent with no uncle, on the other side
      from its parent: the mirror image of the fifth. */
  lemma InsertNinth(a: int, b: int, c: int, d: int, e: int, f: int, g: int, h: int, i: int)
    requires Ordered9(a, b, c, d, e, f, g, h, i)
    ensures WellFormed(T8(a, b, c, d, e, f, g, h))
    ensures Insert(T8(a, b, c, d, e, f, g, h), i) == T9(a, b, c, d, e, f, g, h, i)
  {
    InsertEighth(a, b, c, d, e, f, g, h);
    var t := T8(a, b, c, d, e, f, g, h);
    var z := Zipper(R(i), Path9(a, b, d, e, c, f, g, h));
    PreinsertNinth(a, b, c, d, e, f, g, h, i);
    PreinsertInv(t, i);
    InsertRotation(z);
    RotateNinth(a, b, c, d, e, f, g, h, i);
    assert InsertFixup(z) == InsertRotated(z);
  }

  /** After erasing d: its predecessor c took its place. */
  function E1(a: int, b: int, c: int, e: int, f: int, g: int, h: int, i: int): Tree {
    Node(Black, B(a), b, Node(Red, Node(Black, R(f), i, Leaf, 2), c, Node(Black, R(h), e, R(g), 3), 6), 8)
  }
  /** After erasing a: f black over b and i, red below c. */
  function E2(b: int, c: int, e: int, f: int, g: int, h: int, i: int): Tree {
    Node(Black, Node(Red, B(b), f, B(i), 3), c, Node(Black, R(h), e, R(g), 3), 7)
  }
  /** After erasing g: the tree the test expects, 11B[7R[5B, 10B], 16B[15R]]. */
  function E3(b: int, c: int, e: int, f: int, h: int, i: int): Tree {
    Node(Black, Node(Red, B(b), f, B(i), 3), c, Node(Black, R(h), e, Leaf, 2), 6)
  }

  /** Where the predecessor c of d sits once it has been copied up into d's
      node: right of i, below the node now keyed c, below b. */
  function PathC(a: int, b: int, c: int, e: int, f: int, g: int, h: int, i: int): seq<Frame> {
    [Frame(Right, Black, i, R(f), 3), Frame(Left, Red, c, Node(Black, R(h), e, R(g), 3), 7), Frame(Right, Black, b, B(a), 9)]
  }

  /** d has two children: `preerase` gives it the key of its predecessor c,
      the rightmost node of its left subtree, and returns that leaf. */
  lemma PreeraseFirst(a: int, b: int, c: int, d: int, e: int, f: int, g: int, h: int, i: int)
    requires Ordered9(a, b, c, d, e, f, g, h, i)
    ensures Preerase(T9(a, b, c, d, e, f, g, h, i), d) == Present(Zipper(R(c), PathC(a, b, c, e, f, g, h, i)))
  {
    var t := T9(a, b, c, d, e, f, g, h, i);
    var ne, ni := Node(Black, R(h), e, R(g), 3), Node(Black, R(f), i, R(c), 3);
    var z0 := Zipper(t, []);
    var zd := Down(z0, Right);
    assert zd == Zipper(Node(Red, ni, d, ne, 7), [Frame(Right, Black, b, B(a), 9)]);
    assert Find(z0, d) == Find(zd, d) == zd;
    // The predecessor of d.
    var p1 := Down(zd, Left);
    assert p1 == Zipper(ni, [Frame(Left, Red, d, ne, 7), Frame(Right, Black, b, B(a), 9)]);
    var p2 := Down(p1, Right);
    assert p2.focus == R(c);
    assert Rightmost(p1) == Rightmost(p2) == p2;
    // The node found takes c, and the walk repeats down to the leaf c.
    var z2 := Zipper(Node(Red, ni, c, ne, 7), zd.path);
    var q1 := Down(z2, Left);
    assert q1 == Zipper(ni, [Frame(Left, Red, c, ne, 7), Frame(Right, Black, b, B(a), 9)]);
    var m := Down(q1, Right);
    assert m == Zipper(R(c), PathC(a, b, c, e, f, g, h, i));
    assert Rightmost(q1) == Rightmost(m) == m;
  }

  /** The red leaf c is unlinked; every count above it drops by one. */
  lemma UnlinkFirst(a: int, b: int, c: int, e: int, f: int, g: int, h: int, i: int)
    ensures Root(ReplaceWithChild(Zipper(R(c), PathC(a, b, c, e, f, g, h, i)))) == E1(a, b, c, e, f, g, h, i)
  {
    var ne := Node(Black, R(h), e, R(g), 3);
    var mpath := PathC(a, b, c, e, f, g, h, i);
    var m := Zipper(R(c), mpath);
    var path := [Frame(Right, Black, i, R(f), 2), Frame(Left, Red, c, ne, 6), Frame(Right, Black, b, B(a), 8)];
    assert mpath[1..][1..] == mpath[2..] == [Frame(Right, Black, b, B(a), 9)];
    assert AddCount(mpath[2..], -1) == path[2..];
    assert AddCount(mpath[1..], -1) == [path[1]] + AddCount(mpath[2..], -1) == path[1..];
    assert AddCount(mpath, -1) == [path[0]] + AddCount(mpath[1..], -1) == path;
    ReplaceWithChildIs(m);
    var z := ReplaceWithChild(m);
    assert z == Zipper(Leaf, path);
    var u := Up(z);
    assert u == Zipper(Node(Black, R(f), i, Leaf, 2), path[1..]);
    assert Up(Up(u)) == Zipper(E1(a, b, c, e, f, g, h, i), []);
  }

  /** Erasing d, which has two children: its predecessor c takes its place
      and that red leaf is unlinked. */
  lemma EraseFirst(a: int, b: int, c: int, d: int, e: int, f: int, g: int, h: int, i: int)
    requires Ordered9(a, b, c, d, e, f, g, h, i)
    ensures WellFormed(T9(a, b, c, d, e, f, g, h, i))
    ensures Erase(T9(a, b, c, d, e, f, g, h, i), d, true) == Done(E1(a, b, c, e, f, g, h, i), 1)
  {
    InsertNinth(a, b, c, d, e, f, g, h, i);
    PreeraseFirst(a, b, c, d, e, f, g, h, i);
    UnlinkFirst(a, b, c, e, f, g, h, i);
  }

  /** The subtree right of b after erasing d: c red over i and e. */
  function RightOfB(c: int, e: int, f: int, g: int, h: int, i: int): Tree {
    Node(Red, Node(Black, R(f), i, Leaf, 2), c, Node(Black, R(h), e, R(g), 3), 6)
  }

  /** a is a black leaf: it is unlinked, and its slot is a black node short
      of its sibling c. */
  lemma EraseSecondStart(a: int, b: int, c: int, d: int, e: int, f: int, g: int, h: int, i: int)
    requires Ordered9(a, b, c, d, e, f, g, h, i)
    ensures WellFormed(E1(a, b, c, e, f, g, h, i))
    ensures var m := Zipper(B(a), [Frame(Left, Black, b, RightOfB(c, e, f, g, h, i), 8)]);
      Preerase(E1(a, b, c, e, f, g, h, i), a) == Present(m)
    ensures var z := Zipper(Leaf, [Frame(Left, Black, b, RightOfB(c, e, f, g, h, i), 7)]);
      ReplaceWithChild(Preerase(E1(a, b, c, e, f, g, h, i), a).node) == z && EraseInv(z)
  {
    EraseFirst(a, b, c, d, e, f, g, h, i);
    var t := E1(a, b, c, e, f, g, h, i);
    var rs := RightOfB(c, e, f, g, h, i);
    var z0 := Zipper(t, []);
    var m := Down(z0, Left);
    assert m == Zipper(B(a), [Frame(Left, Black, b, rs, 8)]);
    assert Find(z0, a) == Find(m, a) == m;
    assert Preerase(t, a) == Present(m);
    ReplaceWithChildIs(m);
    assert ReplaceWithChild(m) == Zipper(Leaf, [Frame(Left, Black, b, rs, 7)]);
    EraseStartKeys(t, a);
    EraseStartShape(m);
  }

  /** The red sibling c is rotated up over b; then b's new sibling i has the
      red near nephew f, which is rotated up over i and then over b. */
  lemma EraseSecondFix(b: int, c: int, e: int, f: int, g: int, h: int, i: int)
    ensures var z := Zipper(Leaf, [Frame(Left, Black, b, RightOfB(c, e, f, g, h, i), 7)]);
      var z1 := Zipper(Leaf, [Frame(Left, Red, b, Node(Black, R(f), i, Leaf, 2), 3), Frame(Left, Black, c, Node(Black, R(h), e, R(g), 3), 7)]);
      RedSibling(z) == z1 && BlackSiblingStep(z1) == Finish(E2(b, c, e, f, g, h, i))
  {
    var ne, s := Node(Black, R(h), e, R(g), 3), Node(Black, R(f), i, Leaf, 2);
    var z := Zipper(Leaf, [Frame(Left, Black, b, RightOfB(c, e, f, g, h, i), 7)]);
    // The red sibling c is rotated up over b.
    var zp := Zipper(Node(Red, Leaf, b, Node(Black, s, c, ne, 6), 7), []);
    assert RotTree(zp.focus, Left) == Node(Black, Node(Red, Leaf, b, s, 3), c, ne, 7);
    var cpath := [Frame(Left, Black, c, ne, 7)];
    var z1 := Zipper(Leaf, [Frame(Left, Red, b, s, 3)] + cpath);
    assert RedSibling(z) == z1;
    // The near nephew f is rotated up over i.
    var zs := Zipper(s, [Frame(Right, Red, b, Leaf, 3)] + cpath);
    assert Down(Up(z1), Right) == zs;
    assert RotTree(s, Right) == Node(Red, Leaf, f, B(i), 2);
    AddCountZero(zs.path);
    assert RotateAt(zs, Right) == Zipper(Node(Red, Leaf, f, B(i), 2), zs.path);
    var sf := Node(Black, Leaf, f, R(i), 2);
    assert SwapColors(Node(Red, Leaf, f, B(i), 2), Right) == sf;
    var zp1 := Zipper(Node(Red, Leaf, b, sf, 3), cpath);
    assert Up(Zipper(sf, zs.path)) == zp1;
    // Then b is rotated towards the empty slot.
    assert RotTree(zp1.focus, Left) == Node(Black, R(b), f, R(i), 3);
    AddCountZero(cpath);
    assert RotateAt(zp1, Left) == Zipper(Node(Black, R(b), f, R(i), 3), cpath);
    assert SwapColors(Node(Black, R(b), f, R(i), 3), Left) == Node(Red, B(b), f, R(i), 3);
  }

  /** Erasing the black leaf a: the loop's red-sibling case, then its
      near-nephew case, complete the tree. */
  lemma EraseSecond(a: int, b: int, c: int, d: int, e: int, f: int, g: int, h: int, i: int)
    requires Ordered9(a, b, c, d, e, f, g, h, i)
    ensures WellFormed(E1(a, b, c, e, f, g, h, i))
    ensures Erase(E1(a, b, c, e, f, g, h, i), a, true) == Done(E2(b, c, e, f, g, h, i), 1)
  {
    EraseSecondStart(a, b, c, d, e, f, g, h, i);
    EraseSecondFix(b, c, e, f, g, h, i);
    var z := Zipper(Leaf, [Frame(Left, Black, b, RightOfB(c, e, f, g, h, i), 7)]);
    assert EraseFixup(z, true) == Done(E2(b, c, e, f, g, h, i), 1);
  }

  /** g is a red leaf: it is unlinked. */
  lemma EraseThird(a: int, b: int, c: int, d: int, e: int, f: int, g: int, h: int, i: int)
    requires Ordered9(a, b, c, d, e, f, g, h, i)
    ensures WellFormed(E2(b, c, e, f, g, h, i))
    ensures Erase(E2(b, c, e, f, g, h, i), g, true) == Done(E3(b, c, e, f, h, i), 1)
  {
    EraseSecond(a, b, c, d, e, f, g, h, i);
    var t := E2(b, c, e, f, g, h, i);
    var nl := Node(Red, B(b), f, B(i), 3);
    var z0 := Zipper(t, []);
    var d1 := Down(z0, Right);
    assert d1 == Zipper(Node(Black, R(h), e, R(g), 3), [Frame(Right, Black, c, nl, 7)]);
    var mpath := [Frame(Right, Black, e, R(h), 3), Frame(Right, Black, c, nl, 7)];
    var m := Down(d1, Right);
    assert m == Zipper(R(g), mpath);
    assert Find(z0, g) == Find(d1, g) == Find(m, g) == m;
    assert Preerase(t, g) == Present(m);
    var path := [Frame(Right, Black, e, R(h), 2), Frame(Right, Black, c, nl, 6)];
    assert mpath[1..] == [mpath[1]];
    assert AddCount(mpath[1..], -1) == path[1..];
    assert AddCount(mpath, -1) == [path[0]] + AddCount(mpath[1..], -1) == path;
    ReplaceWithChildIs(m);
    var z := ReplaceWithChild(m);
    assert z == Zipper(Leaf, path);
    assert Up(Up(z)) == Zipper(E3(b, c, e, f, h, i), []);
  }

  /** The test's second walk: after `clear`, the nine keys inserted in the
      test's order, then d, a and g erased, each found once and none making
      `erase` as written fail, leave c black on top, f red on its left with
      b and i black below it, and e black on its right with h red on its
      left. */
  lemma EraseExample(t: Tree, a: int, b: int, c: int, d: int, e: int, f: int, g: int, h: int, i: int)
    requires Ordered9(a, b, c, d, e, f, g, h, i)
    ensures WellFormed(Clear(t))
    ensures
      var t5 := Insert(Insert(Insert(Insert(Insert(Clear(t), b), c), a), e), d);
      var t9 := Insert(Insert(Insert(Insert(t5, f), g), h), i);
      var o1 := Erase(t9, d, true);
      o1.Done? && o1.erased == 1 &&
      var o2 := Erase(o1.tree, a, true);
      o2.Done? && o2.erased == 1 &&
      var o3 := Erase(o2.tree, g, true);
      o3 == Done(E3(b, c, e, f, h, i), 1)
  {
    InsertExample(a, b, c, d, e);
    InsertSixth(a, b, c, d, e, f);
    InsertSeventh(a, b, c, d, e, f, g);
    InsertEighth(a, b, c, d, e, f, g, h);
    InsertNinth(a, b, c, d, e, f, g, h, i);
    EraseFirst(a, b, c, d, e, f, g, h, i);
    EraseSecond(a, b, c, d, e, f, g, h, i);
    EraseThird(a, b, c, d, e, f, g, h, i);
  }
}
