/** The red-black balancer of src/comp/btree.h (`rb_tree_container`): the
    fix-up loops of `insert` and `erase`, over the zipper of the structural
    engine. */
module RbTree {
  import opened BTree

  // ---------------------------------------------------------------------------
  // Colours and the red-black invariants
  // ---------------------------------------------------------------------------

  /** `child_color`: an absent child counts as black. */
  function ColorOf(t: Tree): Color {
    if t.Leaf? then Black else t.color
  }

  /** `paint`. */
  function Paint(t: Tree, c: Color): (r: Tree)
    requires t.Node?
    ensures r.Node? && r.color == c && r.left == t.left && r.right == t.right
    ensures r.key == t.key && r.count == t.count
  {
    t.(color := c)
  }

  /** The number of black nodes on the leftmost path (absent nodes not
      counted). */
  function BH(t: Tree): nat {
    match t
    case Leaf => 0
    case Node(c, l, _, _, _) => BH(l) + (if c == Black then 1 else 0)
  }

  /** Every path from a node down to an absent child meets as many black
      nodes. */
  predicate Balanced(t: Tree) {
    match t
    case Leaf => true
    case Node(_, l, _, r, _) => Balanced(l) && Balanced(r) && BH(l) == BH(r)
  }

  /** No red node has a red child. */
  predicate RedOk(t: Tree) {
    match t
    case Leaf => true
    case Node(c, l, _, r, _) =>
      RedOk(l) && RedOk(r) && (c == Red ==> ColorOf(l) == Black && ColorOf(r) == Black)
  }

  predicate IsRedBlack(t: Tree) {
    RedOk(t) && Balanced(t) && ColorOf(t) == Black
  }

  /** The invariant of `indexed_rb_tree`: red-black, keys in order, counts
      right. */
  predicate WellFormed(t: Tree) {
    IsRedBlack(t) && Sorted(InOrder(t)) && Counted(t)
  }

  function Bump(c: Color, h: nat): nat {
    if c == Black then h + 1 else h
  }

  /** The path is balanced for a focus of black height `h`. */
  predicate PathBalanced(path: seq<Frame>, h: nat)
    decreases |path|
  {
    path == [] ||
    (Balanced(path[0].sibling) && BH(path[0].sibling) == h && PathBalanced(path[1..], Bump(path[0].color, h)))
  }

  /** A frame's own red condition on its other child. */
  predicate FrameRedOk(f: Frame) {
    RedOk(f.sibling) && (f.color == Red ==> ColorOf(f.sibling) == Black)
  }

  /** The path has no red-red edge, for a focus of colour `hc`. */
  predicate PathRedOk(path: seq<Frame>, hc: Color)
    decreases |path|
  {
    path == [] ||
    (FrameRedOk(path[0]) && (path[0].color == Red ==> hc == Black) && PathRedOk(path[1..], path[0].color))
  }

  /** The root (the last frame) is black. */
  predicate RootBlack(path: seq<Frame>) {
    path == [] || path[|path| - 1].color == Black
  }

  lemma BalancedAttach(f: Frame, t: Tree)
    ensures Balanced(Attach(f, t)) <==> Balanced(t) && Balanced(f.sibling) && BH(t) == BH(f.sibling)
    ensures Balanced(Attach(f, t)) ==> BH(Attach(f, t)) == Bump(f.color, BH(t))
  {
  }

  lemma {:induction false} PlugBalanced(t: Tree, path: seq<Frame>)
    ensures Balanced(Plug(t, path)) <==> Balanced(t) && PathBalanced(path, BH(t))
    decreases |path|
  {
    if path != [] {
      BalancedAttach(path[0], t);
      PlugBalanced(Attach(path[0], t), path[1..]);
    }
  }

  lemma {:induction false} PlugRedOk(t: Tree, path: seq<Frame>)
    ensures RedOk(Plug(t, path)) <==> RedOk(t) && PathRedOk(path, ColorOf(t))
    decreases |path|
  {
    if path != [] {
      PlugRedOk(Attach(path[0], t), path[1..]);
    }
  }

  lemma {:induction false} PlugColor(t: Tree, path: seq<Frame>)
    ensures path != [] ==> ColorOf(Plug(t, path)) == path[|path| - 1].color
    ensures path == [] ==> ColorOf(Plug(t, path)) == ColorOf(t)
    decreases |path|
  {
    if path != [] {
      PlugColor(Attach(path[0], t), path[1..]);
    }
  }

  /** The hooks' walk changes no colour and no sibling. */
  lemma {:induction false} AddCountColors(path: seq<Frame>, d: int, h: nat, hc: Color)
    ensures PathBalanced(AddCount(path, d), h) <==> PathBalanced(path, h)
    ensures PathRedOk(AddCount(path, d), hc) <==> PathRedOk(path, hc)
    ensures RootBlack(AddCount(path, d)) <==> RootBlack(path)
    decreases |path|
  {
    AddCountKeys(path, d);
    if path != [] {
      var r := AddCount(path, d);
      assert r[1..] == AddCount(path[1..], d);
      AddCountColors(path[1..], d, Bump(path[0].color, h), path[0].color);
    }
  }

  lemma PlugTwo(t: Tree, path: seq<Frame>)
    requires |path| >= 2
    ensures Plug(t, path) == Plug(Attach(path[1], Attach(path[0], t)), path[2..])
  {
    assert path[1..][0] == path[1] && path[1..][1..] == path[2..];
  }

  /** The whole tree is well formed exactly when its pieces are. */
  lemma WellFormedPlug(t: Tree, path: seq<Frame>)
    requires RedOk(t) && Balanced(t) && PathBalanced(path, BH(t)) && PathRedOk(path, ColorOf(t))
    requires RootBlack(path) && (path == [] ==> ColorOf(t) == Black)
    requires Sorted(InOrder(Plug(t, path))) && Counted(Plug(t, path))
    ensures WellFormed(Plug(t, path))
  {
    PlugBalanced(t, path);
    PlugRedOk(t, path);
    PlugColor(t, path);
  }

  // ---------------------------------------------------------------------------
  // insert
  // ---------------------------------------------------------------------------

  /** The invariant of the `insert` loop: `current` is a red node whose
      subtree is valid; the only possible violation is that its parent is red
      too; the root is black unless it is `current`. */
  predicate InsertInv(z: Zipper) {
    z.focus.Node? && z.focus.color == Red && RedOk(z.focus) && Balanced(z.focus) &&
    PathBalanced(z.path, BH(z.focus)) && RootBlack(z.path) &&
    (z.path != [] ==> FrameRedOk(z.path[0]) && PathRedOk(z.path[1..], z.path[0].color)) &&
    Sorted(InOrder(Root(z))) && Counted(Root(z))
  }

  /** The `insert` loop. With no parent, `current` is painted black; with a
      black parent, the tree is done. With a red parent and a red uncle, the
      parent and the uncle turn black, the grandparent red, and the loop goes
      on from the grandparent. Otherwise, if `current` and its parent hang on
      different sides, the parent is rotated down and the two swap roles;
      then the grandparent is rotated down away from `current` and it swaps
      colours with the parent. */
  function InsertFixup(z: Zipper): (r: Tree)
    requires InsertInv(z)
    ensures WellFormed(r) && InOrder(r) == InOrder(Root(z))
    decreases |z.path|
  {
    if z.path == [] then
      InsertAtRoot(z);
      Paint(z.focus, Black)
    else if z.path[0].color == Black then
      InsertBlackParent(z);
      Root(z)
    else if |z.path| == 1 then
      assert false;
      Root(z)
    else
      var parent, grand := z.path[0], z.path[1];
      var uncle := grand.sibling;
      if uncle.Node? && uncle.color == Red then
        var g2 := Attach(grand.(color := Red, sibling := Paint(uncle, Black)), Attach(parent.(color := Black), z.focus));
        InsertRecolor(z);
        InsertFixup(Zipper(g2, z.path[2..]))
      else
        InsertRotation(z);
        InsertRotated(z)
  }

  /** The last case of the loop: when `current` and its parent hang on
      different sides, the parent is rotated away from `current` and the two
      swap roles; then the grandparent is rotated away from `current` and
      swaps colours with its new parent. The tree is then complete. */
  function InsertRotated(z: Zipper): Tree
    requires |z.path| >= 2 && z.focus.Node?
  {
    var parent := z.path[0];
    var z1 :=
      if parent.dir != z.path[1].dir then
        var zp := Up(z);
        RotTreeShape(zp.focus, Other(parent.dir));
        Down(RotateAt(zp, Other(parent.dir)), Other(parent.dir))
      else z;
    var d := z1.path[0].dir;
    var zg := Up(Up(z1));
    RotTreeShape(zg.focus, Other(d));
    var zr := RotateAt(zg, Other(d));
    Root(Zipper(SwapColors(zr.focus, Other(d)), zr.path))
  }

  /** `std::swap` of the colours of a node and of its child in direction
      `d`. */
  function SwapColors(t: Tree, d: Dir): (r: Tree)
    requires t.Node? && Child(t, d).Node?
    ensures r.Node? && r.color == Child(t, d).color && Child(r, d).Node? && Child(r, d).color == t.color
  {
    WithChild(t.(color := Child(t, d).color), d, Paint(Child(t, d), t.color))
  }

  /** Recolouring keeps the keys and the counts. */
  lemma PaintKeys(t: Tree, c: Color)
    requires t.Node?
    ensures InOrder(Paint(t, c)) == InOrder(t) && Size(Paint(t, c)) == Size(t)
    ensures Counted(Paint(t, c)) <==> Counted(t)
  {
  }

  lemma SwapColorsKeys(t: Tree, d: Dir)
    requires t.Node? && Child(t, d).Node?
    ensures InOrder(SwapColors(t, d)) == InOrder(t) && Size(SwapColors(t, d)) == Size(t)
    ensures Counted(SwapColors(t, d)) <==> Counted(t)
    ensures SwapColors(t, d).count == t.count
  {
    var c := Child(t, d);
    PaintKeys(c, t.color);
    if d == Left {
      assert InOrder(SwapColors(t, d)) == InOrder(Paint(c, t.color)) + [t.key] + InOrder(t.right);
    } else {
      assert InOrder(SwapColors(t, d)) == InOrder(t.left) + [t.key] + InOrder(Paint(c, t.color));
    }
  }

  /** `rotate`, in the closed form `RotateIsRotTree` proves the step by
      step `Rotate` equal to: the rotated subtree in the slot, its change of
      count walked up the path. */
  function RotateAt(z: Zipper, dir: Dir): (r: Zipper)
    requires z.focus.Node? && Child(z.focus, Other(dir)).Node?
    ensures r.focus == RotTree(z.focus, dir) && |r.path| == |z.path|
  {
    var t := RotTree(z.focus, dir);
    Zipper(t, AddCount(z.path, t.count - z.focus.count))
  }

  lemma RotateAtIsRotate(z: Zipper, dir: Dir)
    requires z.focus.Node? && Child(z.focus, Other(dir)).Node?
    ensures RotateAt(z, dir) == Rotate(z, dir)
  {
    RotateIsRotTree(z, dir);
  }

  /** On a counted subtree, a rotation changes no count above it. */
  lemma RotateLocal(z: Zipper, dir: Dir)
    requires z.focus.Node? && Child(z.focus, Other(dir)).Node? && Counted(z.focus)
    ensures RotateAt(z, dir) == Zipper(RotTree(z.focus, dir), z.path)
    ensures Counted(RotTree(z.focus, dir)) && InOrder(RotTree(z.focus, dir)) == InOrder(z.focus)
    ensures Size(RotTree(z.focus, dir)) == Size(z.focus)
  {
    RotTreeKeys(z.focus, dir);
    AddCountZero(z.path);
  }

  /** Replacing a subtree by one with the same keys and size keeps the whole
      tree's keys and counts. */
  lemma SameKeysPlug(t: Tree, u: Tree, path: seq<Frame>)
    requires InOrder(u) == InOrder(t) && (Counted(t) ==> Counted(u))
    ensures InOrder(Plug(u, path)) == InOrder(Plug(t, path))
    ensures Counted(Plug(t, path)) ==> Counted(Plug(u, path))
  {
    PlugInOrder(t, path);
    PlugInOrder(u, path);
    PlugCounted(t, path);
    PlugCounted(u, path);
  }

  lemma InsertAtRoot(z: Zipper)
    requires InsertInv(z) && z.path == []
    ensures WellFormed(Paint(z.focus, Black)) && InOrder(Paint(z.focus, Black)) == InOrder(Root(z))
  {
    PaintKeys(z.focus, Black);
  }

  lemma InsertBlackParent(z: Zipper)
    requires InsertInv(z) && z.path != [] && z.path[0].color == Black
    ensures WellFormed(Root(z))
  {
    WellFormedPlug(z.focus, z.path);
  }

  /** Under the loop invariant, a red parent is not the root, the
      grandparent is black, and the levels above are valid for a subtree one
      black node higher. */
  lemma InsertTwoLevels(z: Zipper)
    requires InsertInv(z) && |z.path| >= 2 && z.path[0].color == Red
    ensures var g := Attach(z.path[1], Attach(z.path[0], z.focus)); var rest := z.path[2..];
      && TwoLevels(z.focus, z.path[0], z.path[1])
      && PathBalanced(rest, BH(z.focus) + 1) && PathRedOk(rest, Black) && RootBlack(rest)
      && Root(z) == Plug(g, rest) && Counted(g) && PathCounted(rest, Size(g))
  {
    var parent, grand, rest := z.path[0], z.path[1], z.path[2..];
    PlugTwo(z.focus, z.path);
    assert z.path[1..][0] == grand && z.path[1..][1..] == rest;
    assert PathBalanced(z.path[1..], BH(z.focus));
    PlugCounted(Attach(grand, Attach(parent, z.focus)), rest);
    if rest != [] {
      assert rest[|rest| - 1] == z.path[|z.path| - 1];
    }
  }

  /** The red-uncle case on the two levels it touches: a red subtree of one
      more black height. */
  lemma InsertRecolorLocal(c: Tree, parent: Frame, grand: Frame)
    requires TwoLevels(c, parent, grand) && grand.sibling.Node? && grand.sibling.color == Red
    ensures var g := Attach(grand, Attach(parent, c));
      var g2 := Attach(grand.(color := Red, sibling := Paint(grand.sibling, Black)), Attach(parent.(color := Black), c));
      && g2.color == Red && RedOk(g2) && Balanced(g2) && BH(g2) == BH(c) + 1
      && InOrder(g2) == InOrder(g) && (Counted(g) ==> Counted(g2))
  {
    var h := BH(c);
    var uncle := grand.sibling;
    var p1 := Attach(parent, c);
    var g := Attach(grand, p1);
    var p2 := Attach(parent.(color := Black), c);
    var u2 := Paint(uncle, Black);
    var g2 := Attach(grand.(color := Red, sibling := u2), p2);
    assert InOrder(p2) == InOrder(p1) && Size(p2) == Size(p1);
    PaintKeys(uncle, Black);
    assert InOrder(g2) == InOrder(g);
    if Counted(g) {
      assert Counted(p1);
      assert Counted(g2);
    }
    assert BH(u2) == h + 1 && Balanced(u2);
    BalancedAttach(parent.(color := Black), c);
    BalancedAttach(grand.(color := Red, sibling := u2), p2);
    assert RedOk(u2);
    assert RedOk(p2);
  }

  /** The red-uncle case keeps the loop invariant, two levels up. */
  lemma InsertRecolor(z: Zipper)
    requires InsertInv(z) && |z.path| >= 2 && z.path[0].color == Red
    requires z.path[1].sibling.Node? && z.path[1].sibling.color == Red
    ensures var parent, grand := z.path[0], z.path[1];
      var g2 := Attach(grand.(color := Red, sibling := Paint(grand.sibling, Black)), Attach(parent.(color := Black), z.focus));
      InsertInv(Zipper(g2, z.path[2..])) && InOrder(Root(Zipper(g2, z.path[2..]))) == InOrder(Root(z))
  {
    var parent, grand, rest := z.path[0], z.path[1], z.path[2..];
    var g := Attach(grand, Attach(parent, z.focus));
    var g2 := Attach(grand.(color := Red, sibling := Paint(grand.sibling, Black)), Attach(parent.(color := Black), z.focus));
    InsertTwoLevels(z);
    InsertRecolorLocal(z.focus, parent, grand);
    SameKeysPlug(g, g2, rest);
    PlugCounted(g, rest);
  }

  /** The rotation case on the two levels it touches, zipper form reduced to
      a subtree form. */
  lemma InsertRotatedLocal(z: Zipper) returns (g: Tree, l: Tree)
    requires |z.path| >= 2 && z.focus.Node?
    requires Counted(Attach(z.path[1], Attach(z.path[0], z.focus)))
    ensures g == Attach(z.path[1], Attach(z.path[0], z.focus))
    ensures InsertRotated(z) == Plug(l, z.path[2..])
    ensures z.path[0].dir != z.path[1].dir ==>
      var p2 := RotTree(Attach(z.path[0], z.focus), Other(z.path[0].dir));
      l == SwapColors(RotTree(Attach(z.path[1], p2), Other(z.path[1].dir)), Other(z.path[1].dir))
    ensures z.path[0].dir == z.path[1].dir ==>
      l == SwapColors(RotTree(g, Other(z.path[1].dir)), Other(z.path[1].dir))
  {
    var parent, grand := z.path[0], z.path[1];
    g := Attach(grand, Attach(parent, z.focus));
    if parent.dir != grand.dir {
      l := InsertRotatedTriangle(z);
    } else {
      l := InsertRotatedStraight(z);
    }
  }

  lemma InsertRotatedTriangle(z: Zipper) returns (l: Tree)
    requires |z.path| >= 2 && z.focus.Node? && z.path[0].dir != z.path[1].dir
    requires Counted(Attach(z.path[1], Attach(z.path[0], z.focus)))
    ensures InsertRotated(z) == Plug(l, z.path[2..])
    ensures var p2 := RotTree(Attach(z.path[0], z.focus), Other(z.path[0].dir));
      l == SwapColors(RotTree(Attach(z.path[1], p2), Other(z.path[1].dir)), Other(z.path[1].dir))
  {
    var parent, grand := z.path[0], z.path[1];
    assert Counted(Attach(parent, z.focus));
    var zp := Up(z);
    RotateLocal(zp, Other(parent.dir));
    var p2 := RotTree(Attach(parent, z.focus), Other(parent.dir));
    RotTreeShape(Attach(parent, z.focus), Other(parent.dir));
    var z1 := Down(RotateAt(zp, Other(parent.dir)), Other(parent.dir));
    assert z1.path[1..] == z.path[1..];
    var zg := Up(Up(z1));
    assert zg == Zipper(Attach(grand, p2), z.path[2..]);
    assert Counted(Attach(grand, p2));
    RotateLocal(zg, Other(grand.dir));
    l := SwapColors(RotTree(Attach(grand, p2), Other(grand.dir)), Other(grand.dir));
  }

  lemma InsertRotatedStraight(z: Zipper) returns (l: Tree)
    requires |z.path| >= 2 && z.focus.Node? && z.path[0].dir == z.path[1].dir
    requires Counted(Attach(z.path[1], Attach(z.path[0], z.focus)))
    ensures InsertRotated(z) == Plug(l, z.path[2..])
    ensures var g := Attach(z.path[1], Attach(z.path[0], z.focus));
      l == SwapColors(RotTree(g, Other(z.path[1].dir)), Other(z.path[1].dir))
  {
    var grand := z.path[1];
    var g := Attach(grand, Attach(z.path[0], z.focus));
    var zg := Up(Up(z));
    assert zg == Zipper(g, z.path[2..]);
    RotateLocal(zg, Other(grand.dir));
    l := SwapColors(RotTree(g, Other(grand.dir)), Other(grand.dir));
  }

  /** What the loop invariant says about the two levels above a red node
      with a red parent. */
  predicate TwoLevels(c: Tree, parent: Frame, grand: Frame) {
    c.Node? && c.color == Red && RedOk(c) && Balanced(c) &&
    parent.color == Red && FrameRedOk(parent) && Balanced(parent.sibling) && BH(parent.sibling) == BH(c) &&
    grand.color == Black && RedOk(grand.sibling) && Balanced(grand.sibling) && BH(grand.sibling) == BH(c)
  }

  /** The straight case: one rotation of the grandparent and a colour swap
      give a valid subtree of the grandparent's black height. */
  lemma InsertStraightLocal(c: Tree, parent: Frame, grand: Frame)
    requires TwoLevels(c, parent, grand) && ColorOf(grand.sibling) == Black && parent.dir == grand.dir
    ensures var g := Attach(grand, Attach(parent, c));
      var l := SwapColors(RotTree(g, Other(grand.dir)), Other(grand.dir));
      && RedOk(l) && Balanced(l) && BH(l) == BH(c) + 1 && l.color == Black
      && InOrder(l) == InOrder(g) && (Counted(g) ==> Counted(l))
  {
    var g := Attach(grand, Attach(parent, c));
    RotTreeShape(g, Other(grand.dir));
    RotTreeKeys(g, Other(grand.dir));
    SwapColorsKeys(RotTree(g, Other(grand.dir)), Other(grand.dir));
  }

  /** The triangle case: two rotations and a colour swap. */
  lemma InsertTriangleLocal(c: Tree, parent: Frame, grand: Frame)
    requires TwoLevels(c, parent, grand) && ColorOf(grand.sibling) == Black && parent.dir != grand.dir
    ensures var p2 := RotTree(Attach(parent, c), Other(parent.dir));
      var l := SwapColors(RotTree(Attach(grand, p2), Other(grand.dir)), Other(grand.dir));
      && RedOk(l) && Balanced(l) && BH(l) == BH(c) + 1 && l.color == Black
      && InOrder(l) == InOrder(Attach(grand, Attach(parent, c)))
      && (Counted(Attach(grand, Attach(parent, c))) ==> Counted(l))
  {
    var p1 := Attach(parent, c);
    var p2 := RotTree(p1, Other(parent.dir));
    RotTreeShape(p1, Other(parent.dir));
    RotTreeShape(Attach(grand, p2), Other(grand.dir));
    RotTreeKeys(p1, Other(parent.dir));
    assert InOrder(Attach(grand, p2)) == InOrder(Attach(grand, p1));
    if Counted(Attach(grand, p1)) {
      assert Counted(p1);
      assert Counted(Attach(grand, p2));
    }
    RotTreeKeys(Attach(grand, p2), Other(grand.dir));
    SwapColorsKeys(RotTree(Attach(grand, p2), Other(grand.dir)), Other(grand.dir));
  }

  /** The rotation case ends the loop with a well-formed tree holding the
      same keys. */
  lemma InsertRotation(z: Zipper)
    requires InsertInv(z) && |z.path| >= 2 && z.path[0].color == Red
    requires !(z.path[1].sibling.Node? && z.path[1].sibling.color == Red)
    ensures WellFormed(InsertRotated(z)) && InOrder(InsertRotated(z)) == InOrder(Root(z))
  {
    InsertTwoLevels(z);
    var g, l := InsertRotatedShape(z);
    ReplacedValid(g, l, z.path[2..]);
  }

  /** The rotation case on the two levels it touches: a valid black subtree
      one black node higher than the red node, with the same keys. */
  lemma InsertRotatedShape(z: Zipper) returns (g: Tree, l: Tree)
    requires |z.path| >= 2 && TwoLevels(z.focus, z.path[0], z.path[1])
    requires !(z.path[1].sibling.Node? && z.path[1].sibling.color == Red)
    requires Counted(Attach(z.path[1], Attach(z.path[0], z.focus)))
    ensures g == Attach(z.path[1], Attach(z.path[0], z.focus))
    ensures InsertRotated(z) == Plug(l, z.path[2..])
    ensures RedOk(l) && Balanced(l) && ColorOf(l) == Black && BH(l) == BH(z.focus) + 1
    ensures InOrder(l) == InOrder(g) && Counted(l)
  {
    var parent, grand := z.path[0], z.path[1];
    g, l := InsertRotatedLocal(z);
    if parent.dir != grand.dir {
      InsertTriangleLocal(z.focus, parent, grand);
    } else {
      InsertStraightLocal(z.focus, parent, grand);
    }
  }

  /** A subtree that fits the path, with the keys of `g`, put in `g`'s
      place in a valid tree. */
  lemma ReplacedValid(g: Tree, l: Tree, rest: seq<Frame>)
    requires RedOk(l) && Balanced(l) && (rest == [] ==> ColorOf(l) == Black)
    requires PathBalanced(rest, BH(l)) && PathRedOk(rest, ColorOf(l)) && RootBlack(rest)
    requires InOrder(l) == InOrder(g) && Counted(l)
    requires Sorted(InOrder(Plug(g, rest))) && Counted(Plug(g, rest))
    ensures WellFormed(Plug(l, rest)) && InOrder(Plug(l, rest)) == InOrder(Plug(g, rest))
  {
    SameKeysPlug(g, l, rest);
    WellFormedPlug(l, rest);
  }

  /** `insert`: `preinsert`, then the fix-up loop from the new red node. */
  function Insert(t: Tree, k: int): (r: Tree)
    requires WellFormed(t)
    ensures WellFormed(r) && InOrder(r) == InsertSorted(InOrder(t), k)
  {
    PreinsertInv(t, k);
    InsertFixup(Preinsert(t, k))
  }

  /** The new node hangs in a slot of a valid tree, so the loop starts with
      its invariant. */
  lemma PreinsertInv(t: Tree, k: int)
    requires WellFormed(t)
    ensures InsertInv(Preinsert(t, k)) && InOrder(Root(Preinsert(t, k))) == InsertSorted(InOrder(t), k)
  {
    PreinsertSpec(t, k);
    InsertSortedSorted(InOrder(t), k);
    if t.Node? {
      var dz := Descend(Zipper(t, []), k);
      assert Preinsert(t, k).path == AddCount(dz.path, 1);
      PreinsertColors(dz.path, k);
    }
  }

  /** A new red node in a slot of a red-black tree, with the counts on its
      path bumped, keeps black heights and leaves at most the one red-red
      edge above it. */
  lemma PreinsertColors(path: seq<Frame>, k: int)
    requires IsRedBlack(Plug(Leaf, path))
    ensures var p := AddCount(path, 1);
      PathBalanced(p, BH(NewNode(k))) && RootBlack(p) &&
      (p != [] ==> FrameRedOk(p[0]) && PathRedOk(p[1..], p[0].color))
  {
    var p := AddCount(path, 1);
    PlugBalanced(Leaf, path);
    PlugRedOk(Leaf, path);
    PlugColor(Leaf, path);
    AddCountColors(path, 1, 0, Black);
    AddCountColors(path, 1, 0, Red);
    assert PathRedOk(p, Black);
  }

  // ---------------------------------------------------------------------------
  // erase
  // ---------------------------------------------------------------------------

  /** The invariant of the `erase` loop: the slot in focus (`n`, possibly
      absent) holds a black or absent subtree that is one black node short of
      its sibling; everything else is valid. */
  predicate EraseInv(z: Zipper) {
    ColorOf(z.focus) == Black && RedOk(z.focus) && Balanced(z.focus) &&
    PathBalanced(z.path, BH(z.focus) + 1) && PathRedOk(z.path, Black) && RootBlack(z.path) &&
    Sorted(InOrder(Root(z))) && Counted(Root(z))
  }

  /** A red sibling `s`: `p` and `s` swap colours, `p` is rotated towards
      `n`, and the focus returns to `n`, one level deeper, under the
      now-red `p` with a new sibling. */
  function RedSibling(z: Zipper): (r: Zipper)
    requires z.path != [] && z.path[0].sibling.Node?
    ensures |r.path| == |z.path| + 1 && r.path[0].color == z.path[0].sibling.color
  {
    var f := z.path[0];
    var s := f.sibling;
    var zp := Zipper(Attach(f.(color := s.color, sibling := Paint(s, f.color)), z.focus), z.path[1..]);
    RotTreeShape(zp.focus, f.dir);
    Down(Down(RotateAt(zp, f.dir), f.dir), f.dir)
  }

  /** One pass of the loop with a black sibling `s`. */
  datatype Step = Finish(tree: Tree) | Ascend(up: Zipper)

  /** Both nephews black: a black `p` gives its blackness away by painting
      `s` red and the loop moves up to `p`; a red `p` swaps colours with `s`
      and the tree is complete. Otherwise a red near nephew is first rotated
      up over `s` (the two swap colours), then `p` is rotated towards `n`,
      `p` and `s` swap colours and the far nephew is painted black. */
  function BlackSiblingStep(z: Zipper): (r: Step)
    requires z.path != [] && z.path[0].sibling.Node?
    ensures r.Ascend? ==> z.path[0].color == Black && |r.up.path| == |z.path| - 1
  {
    var f := z.path[0];
    var d := f.dir;
    var s := f.sibling;
    if ColorOf(s.left) == Black && ColorOf(s.right) == Black then
      if f.color == Black then
        Ascend(Zipper(Attach(f.(sibling := Paint(s, Red)), z.focus), z.path[1..]))
      else
        Finish(Root(Zipper(Attach(f.(color := s.color, sibling := Paint(s, f.color)), z.focus), z.path[1..])))
    else
      var zp := Up(z);
      var zp1 :=
        if ColorOf(Child(s, d)) == Red then
          var zs := Down(zp, Other(d));
          RotTreeShape(zs.focus, Other(d));
          var zr := RotateAt(zs, Other(d));
          AddCountKeys(zs.path, zr.focus.count - zs.focus.count);
          Up(Zipper(SwapColors(zr.focus, Other(d)), zr.path))
        else zp;
      RotTreeShape(zp1.focus, d);
      var zr := RotateAt(zp1, d);
      var top := SwapColors(zr.focus, d);
      Finish(Root(Zipper(WithChild(top, Other(d), Paint(Child(top, Other(d)), Black)), zr.path)))
  }

  /** Under the loop invariant the sibling exists: it is one black node
      higher than the slot. */
  lemma EraseSibling(z: Zipper)
    requires EraseInv(z) && z.path != []
    ensures z.path[0].sibling.Node? && BH(z.path[0].sibling) == BH(z.focus) + 1
    ensures Root(z) == Plug(Attach(z.path[0], z.focus), z.path[1..])
    ensures PathBalanced(z.path[1..], Bump(z.path[0].color, BH(z.focus) + 1))
    ensures PathRedOk(z.path[1..], z.path[0].color) && RootBlack(z.path[1..])
    ensures Counted(Attach(z.path[0], z.focus)) && PathCounted(z.path[1..], Size(Attach(z.path[0], z.focus)))
  {
    PlugCounted(Attach(z.path[0], z.focus), z.path[1..]);
    var rest := z.path[1..];
    if rest != [] {
      assert rest[|rest| - 1] == z.path[|z.path| - 1];
    }
  }

  /** The red-sibling step, on the levels it touches. */
  lemma RedSiblingShape(z: Zipper)
    requires z.path != [] && z.path[0].sibling.Node? && Counted(Attach(z.path[0], z.focus))
    ensures var f := z.path[0]; var s := f.sibling; var r := RedSibling(z);
      && r.focus == z.focus && r.path[2..] == z.path[1..]
      && r.path[0].dir == f.dir && r.path[0].color == s.color && r.path[0].sibling == Child(s, f.dir)
      && r.path[1].color == f.color && r.path[1].sibling == Child(s, Other(f.dir))
      && InOrder(Root(r)) == InOrder(Root(z)) && (Counted(Root(z)) ==> Counted(Root(r)))
  {
    var f := z.path[0];
    var s := f.sibling;
    var p1 := Attach(f.(color := s.color, sibling := Paint(s, f.color)), z.focus);
    var zp := Zipper(p1, z.path[1..]);
    PaintKeys(s, f.color);
    assert InOrder(p1) == InOrder(Attach(f, z.focus));
    assert Counted(p1);
    RotTreeShape(p1, f.dir);
    RotateLocal(zp, f.dir);
    var z1 := Down(RotateAt(zp, f.dir), f.dir);
    assert z1.path[1..] == z.path[1..];
    var r := Down(z1, f.dir);
    assert r.path[1..] == z1.path;
    assert r.path[2..] == z.path[1..];
    SameKeysPlug(Attach(f, z.focus), RotTree(p1, f.dir), z.path[1..]);
    PlugCounted(Attach(f, z.focus), z.path[1..]);
  }

  /** The red-sibling step keeps the loop invariant and leaves a black
      sibling under a red parent. */
  lemma EraseRedSibling(z: Zipper)
    requires EraseInv(z) && z.path != [] && z.path[0].sibling.Node? && z.path[0].sibling.color == Red
    ensures var r := RedSibling(z);
      && EraseInv(r) && InOrder(Root(r)) == InOrder(Root(z))
      && r.path[0].color == Red && r.path[0].sibling.Node? && r.path[0].sibling.color == Black
  {
    RedSiblingFacts(z);
    RedSiblingShape(z);
    var h := BH(z.focus);
    RedSiblingBalanced(z, h);
    RedSiblingRedOk(z);
    RedSiblingRootBlack(z);
    EraseInvIntro(RedSibling(z), z);
  }

  /** A zipper with the same focus and keys as one meeting the erase
      invariant, correct counts and a balanced, red-correct path with a black
      root meets it too. */
  lemma EraseInvIntro(r: Zipper, z: Zipper)
    requires EraseInv(z) && r.focus == z.focus
    requires InOrder(Root(r)) == InOrder(Root(z)) && Counted(Root(r))
    requires PathBalanced(r.path, BH(z.focus) + 1) && PathRedOk(r.path, Black) && RootBlack(r.path)
    ensures EraseInv(r)
  {
  }

  /** What the red-sibling case knows before rotating: the parent is black,
      and the sibling and the rest of the path are red-black. */
  lemma RedSiblingFacts(z: Zipper)
    requires EraseInv(z) && z.path != [] && z.path[0].sibling.Node? && z.path[0].sibling.color == Red
    ensures Counted(Attach(z.path[0], z.focus)) && z.path[0].color == Black
    ensures Balanced(z.path[0].sibling) && RedOk(z.path[0].sibling) && BH(z.path[0].sibling) == BH(z.focus) + 1
    ensures PathBalanced(z.path[1..], BH(z.focus) + 2) && PathRedOk(z.path[1..], Black) && RootBlack(z.path[1..])
  {
    EraseSibling(z);
    assert z.path[0].color == Black;
  }

  /** A red node of a red-black tree has black, balanced children of its own
      black height. */
  lemma RedChildren(s: Tree, d: Dir)
    requires s.Node? && s.color == Red && Balanced(s) && RedOk(s)
    ensures Balanced(Child(s, d)) && BH(Child(s, d)) == BH(s)
    ensures RedOk(Child(s, d)) && ColorOf(Child(s, d)) == Black
    ensures BH(s) >= 1 ==> Child(s, d).Node?
  {
  }

  /** After the red-sibling rotation the path is balanced for the same focus:
      the sibling's children, of black height h + 1, become the two new
      frames' siblings. */
  lemma RedSiblingBalanced(z: Zipper, h: nat)
    requires z.path != [] && z.path[0].sibling.Node? && z.path[0].sibling.color == Red
    requires Counted(Attach(z.path[0], z.focus)) && z.path[0].color == Black
    requires Balanced(z.path[0].sibling) && RedOk(z.path[0].sibling) && BH(z.path[0].sibling) == h + 1
    requires PathBalanced(z.path[1..], h + 2)
    ensures PathBalanced(RedSibling(z).path, h + 1)
  {
    RedSiblingShape(z);
    var f := z.path[0];
    var s := f.sibling;
    var r := RedSibling(z);
    RedChildren(s, f.dir);
    RedChildren(s, Other(f.dir));
    assert r.path[1..][1..] == z.path[1..];
    assert PathBalanced(r.path[1..][1..], h + 2);
    assert PathBalanced(r.path[1..], h + 1);
  }

  /** After the red-sibling rotation the path has no red-red edge: the new
      red parent's sibling is a black nephew. */
  lemma RedSiblingRedOk(z: Zipper)
    requires z.path != [] && z.path[0].sibling.Node? && z.path[0].sibling.color == Red
    requires Counted(Attach(z.path[0], z.focus)) && z.path[0].color == Black
    requires Balanced(z.path[0].sibling) && RedOk(z.path[0].sibling) && BH(z.path[0].sibling) >= 1
    requires PathRedOk(z.path[1..], Black)
    ensures PathRedOk(RedSibling(z).path, Black)
    ensures RedSibling(z).path[0].sibling.Node? && RedSibling(z).path[0].sibling.color == Black
  {
    RedSiblingShape(z);
    var f := z.path[0];
    var s := f.sibling;
    var r := RedSibling(z);
    RedChildren(s, f.dir);
    RedChildren(s, Other(f.dir));
    assert r.path[1..][1..] == z.path[1..];
    assert PathRedOk(r.path[1..][1..], Black);
    assert PathRedOk(r.path[1..], Red);
  }

  /** The rotation keeps the root frame, or makes the old black parent the
      root frame. */
  lemma RedSiblingRootBlack(z: Zipper)
    requires z.path != [] && z.path[0].sibling.Node? && Counted(Attach(z.path[0], z.focus))
    requires z.path[0].color == Black && RootBlack(z.path[1..])
    ensures RootBlack(RedSibling(z).path)
  {
    RedSiblingShape(z);
    var r := RedSibling(z);
    if z.path[1..] == [] {
      assert |r.path| == 2;
    } else {
      assert r.path[|r.path| - 1] == z.path[1..][|z.path[1..]| - 1];
    }
  }

  /** Both nephews black under a black parent: the loop moves up with its
      invariant. */
  lemma EraseAscend(z: Zipper)
    requires EraseInv(z) && z.path != [] && z.path[0].sibling.Node? && z.path[0].sibling.color == Black
    requires ColorOf(z.path[0].sibling.left) == Black && ColorOf(z.path[0].sibling.right) == Black
    requires z.path[0].color == Black
    ensures BlackSiblingStep(z).Ascend?
    ensures EraseInv(BlackSiblingStep(z).up) && InOrder(Root(BlackSiblingStep(z).up)) == InOrder(Root(z))
  {
    EraseSibling(z);
    var f := z.path[0];
    var s := f.sibling;
    var p1 := Attach(f.(sibling := Paint(s, Red)), z.focus);
    PaintKeys(s, Red);
    assert InOrder(p1) == InOrder(Attach(f, z.focus));
    assert Counted(p1);
    BalancedAttach(f.(sibling := Paint(s, Red)), z.focus);
    assert RedOk(Paint(s, Red));
    SameKeysPlug(Attach(f, z.focus), p1, z.path[1..]);
  }

  /** Both nephews black under a red parent: one colour swap completes the
      tree. */
  lemma EraseRecolor(z: Zipper)
    requires EraseInv(z) && z.path != [] && z.path[0].sibling.Node? && z.path[0].sibling.color == Black
    requires ColorOf(z.path[0].sibling.left) == Black && ColorOf(z.path[0].sibling.right) == Black
    requires z.path[0].color == Red
    ensures BlackSiblingStep(z).Finish?
    ensures WellFormed(BlackSiblingStep(z).tree) && InOrder(BlackSiblingStep(z).tree) == InOrder(Root(z))
  {
    EraseSibling(z);
    var f := z.path[0];
    var s := f.sibling;
    var p1 := Attach(f.(color := Black, sibling := Paint(s, Red)), z.focus);
    PaintKeys(s, Red);
    assert InOrder(p1) == InOrder(Attach(f, z.focus));
    assert Counted(p1);
    BalancedAttach(f.(color := Black, sibling := Paint(s, Red)), z.focus);
    assert RedOk(Paint(s, Red));
    SameKeysPlug(Attach(f, z.focus), p1, z.path[1..]);
    assert PathRedOk(z.path[1..], Black);
    WellFormedPlug(p1, z.path[1..]);
  }

  /** The last rotation of the loop, on a subtree: `p` rotated towards `n`,
      `p` and `s` swap colours, the far nephew painted black. */
  function FarFix(t: Tree, d: Dir): (r: Tree)
    requires t.Node? && Child(t, Other(d)).Node? && Child(Child(t, Other(d)), Other(d)).Node?
  {
    RotTreeShape(t, d);
    var top := SwapColors(RotTree(t, d), d);
    WithChild(top, Other(d), Paint(Child(top, Other(d)), Black))
  }

  /** What the loop invariant says about `p`, `s` and the nephews when a
      nephew is red. */
  predicate RedNephew(c: Tree, f: Frame) {
    ColorOf(c) == Black && RedOk(c) && Balanced(c) &&
    f.sibling.Node? && f.sibling.color == Black && RedOk(f.sibling) && Balanced(f.sibling) &&
    BH(f.sibling) == BH(c) + 1 &&
    !(ColorOf(f.sibling.left) == Black && ColorOf(f.sibling.right) == Black)
  }

  /** The red far nephew: one rotation completes the subtree with `p`'s
      colour and black height. */
  lemma EraseFarLocal(c: Tree, f: Frame)
    requires RedNephew(c, f) && ColorOf(Child(f.sibling, f.dir)) != Red
    ensures Child(Child(Attach(f, c), Other(f.dir)), Other(f.dir)).Node?
    ensures var l := FarFix(Attach(f, c), f.dir);
      && RedOk(l) && Balanced(l) && BH(l) == Bump(f.color, BH(c) + 1) && l.color == f.color
  {
    var d := f.dir;
    var t := Attach(f, c);
    RotTreeShape(t, d);
    var rt := RotTree(t, d);
    var top := SwapColors(rt, d);
    BalancedAttach(f, c);
    assert Child(f.sibling, Other(d)).color == Red;
    var far := Child(f.sibling, Other(d));
    assert BH(far) == BH(c) && Balanced(far) && RedOk(far);
    assert BH(Child(f.sibling, d)) == BH(c);
    assert Child(top, Other(d)) == far;
  }

  /** The red near nephew: it is rotated up over `s` first, then the far
      case applies. */
  lemma EraseNearLocal(c: Tree, f: Frame)
    requires RedNephew(c, f) && ColorOf(Child(f.sibling, f.dir)) == Red
    ensures var d := f.dir; var s := f.sibling;
      Child(s, d).Node? &&
      var s2 := SwapColors(RotTree(s, Other(d)), Other(d));
      var l := FarFix(Attach(f.(sibling := s2), c), d);
      && RedOk(l) && Balanced(l) && BH(l) == Bump(f.color, BH(c) + 1) && l.color == f.color
  {
    var d := f.dir;
    var s := f.sibling;
    var near := Child(s, d);
    assert near.Node? && near.color == Red;
    RotTreeShape(s, Other(d));
    var s2 := SwapColors(RotTree(s, Other(d)), Other(d));
    var h := BH(c);
    var nl, nr, far := Child(near, d), Child(near, Other(d)), Child(s, Other(d));
    assert BH(near) == h && BH(far) == h && Balanced(far) && RedOk(far);
    assert RedOk(near) && Balanced(near);
    assert BH(near.left) == h && BH(near.right) == h;
    assert ColorOf(near.left) == Black && ColorOf(near.right) == Black;
    assert Balanced(nl) && Balanced(nr) && RedOk(nl) && RedOk(nr);
    assert BH(nl) == h && BH(nr) == h && ColorOf(nl) == Black && ColorOf(nr) == Black;
    assert Child(s2, d) == nl && s2.color == Black;
    var s3 := Child(s2, Other(d));
    assert s3.Node? && Child(s3, Other(d)) == far && Child(s3, d) == nr;
    var t := Attach(f.(sibling := s2), c);
    RotTreeShape(t, d);
    var top := SwapColors(RotTree(t, d), d);
    var l := WithChild(top, Other(d), Paint(Child(top, Other(d)), Black));
    var pl := Child(l, d);
    var sl := Child(l, Other(d));
    assert pl.Node? && pl.color == Black && Child(pl, d) == c && Child(pl, Other(d)) == nl;
    assert sl.Node? && sl.color == Black && Child(sl, d) == nr && Child(sl, Other(d)) == far;
    assert RedOk(pl) && Balanced(pl) && BH(pl) == h + 1;
    assert RedOk(sl) && Balanced(sl) && BH(sl) == h + 1;
    assert l.color == f.color;
  }

  lemma FarFixKeys(t: Tree, d: Dir)
    requires t.Node? && Child(t, Other(d)).Node? && Child(Child(t, Other(d)), Other(d)).Node?
    ensures InOrder(FarFix(t, d)) == InOrder(t) && (Counted(t) ==> Counted(FarFix(t, d)))
  {
    RotTreeShape(t, d);
    RotTreeKeys(t, d);
    var top := SwapColors(RotTree(t, d), d);
    SwapColorsKeys(RotTree(t, d), d);
    var far := Child(top, Other(d));
    PaintKeys(far, Black);
    var l := WithChild(top, Other(d), Paint(far, Black));
    if d == Left {
      assert InOrder(l) == InOrder(top.left) + [top.key] + InOrder(Paint(far, Black));
    } else {
      assert InOrder(l) == InOrder(Paint(far, Black)) + [top.key] + InOrder(top.right);
    }
  }

  /** A red nephew ends the loop with a well-formed tree holding the same
      keys. */
  lemma EraseRotation(z: Zipper)
    requires EraseInv(z) && z.path != [] && z.path[0].sibling.Node? && z.path[0].sibling.color == Black
    requires !(ColorOf(z.path[0].sibling.left) == Black && ColorOf(z.path[0].sibling.right) == Black)
    ensures BlackSiblingStep(z).Finish?
    ensures WellFormed(BlackSiblingStep(z).tree) && InOrder(BlackSiblingStep(z).tree) == InOrder(Root(z))
  {
    EraseSibling(z);
    var f := z.path[0];
    assert RedNephew(z.focus, f);
    var l := EraseRotatedShape(z);
    ReplacedValid(Attach(f, z.focus), l, z.path[1..]);
  }

  /** The rotation cases on the two levels they touch: a valid subtree with
      the parent's colour and black height, and the same keys. */
  lemma EraseRotatedShape(z: Zipper) returns (l: Tree)
    requires z.path != [] && RedNephew(z.focus, z.path[0]) && Counted(Attach(z.path[0], z.focus))
    ensures BlackSiblingStep(z) == Finish(Plug(l, z.path[1..]))
    ensures RedOk(l) && Balanced(l) && ColorOf(l) == z.path[0].color
    ensures BH(l) == Bump(z.path[0].color, BH(z.focus) + 1)
    ensures InOrder(l) == InOrder(Attach(z.path[0], z.focus)) && Counted(l)
  {
    if ColorOf(Child(z.path[0].sibling, z.path[0].dir)) == Red {
      l := EraseRotatedNear(z);
    } else {
      l := EraseRotatedFar(z);
    }
  }

  /** The red near nephew: the sibling is rotated away from `n` first. */
  lemma EraseRotatedNear(z: Zipper) returns (l: Tree)
    requires z.path != [] && RedNephew(z.focus, z.path[0]) && Counted(Attach(z.path[0], z.focus))
    requires ColorOf(Child(z.path[0].sibling, z.path[0].dir)) == Red
    ensures BlackSiblingStep(z) == Finish(Plug(l, z.path[1..]))
    ensures RedOk(l) && Balanced(l) && ColorOf(l) == z.path[0].color
    ensures BH(l) == Bump(z.path[0].color, BH(z.focus) + 1)
    ensures InOrder(l) == InOrder(Attach(z.path[0], z.focus)) && Counted(l)
  {
    var f := z.path[0];
    l := NearZipper(z);
    EraseNearLocal(z.focus, f);
  }

  /** The two rotations of the near-nephew case, zipper form reduced to a
      subtree form. */
  lemma NearZipper(z: Zipper) returns (l: Tree)
    requires z.path != [] && z.path[0].sibling.Node? && Counted(Attach(z.path[0], z.focus))
    requires !(ColorOf(z.path[0].sibling.left) == Black && ColorOf(z.path[0].sibling.right) == Black)
    requires ColorOf(Child(z.path[0].sibling, z.path[0].dir)) == Red
    ensures BlackSiblingStep(z) == Finish(Plug(l, z.path[1..]))
    ensures InOrder(l) == InOrder(Attach(z.path[0], z.focus)) && Counted(l)
    ensures var f := z.path[0]; var d := f.dir; var s := f.sibling;
      Child(s, d).Node? &&
      var s2 := SwapColors(RotTree(s, Other(d)), Other(d));
      l == FarFix(Attach(f.(sibling := s2), z.focus), d)
  {
    var f := z.path[0];
    var d := f.dir;
    var s := f.sibling;
    var p := Attach(f, z.focus);
    var zp := Up(z);
    assert Counted(s);
    var zs := Down(zp, Other(d));
    RotTreeShape(s, Other(d));
    RotateLocal(zs, Other(d));
    var s2 := SwapColors(RotTree(s, Other(d)), Other(d));
    SwapColorsKeys(RotTree(s, Other(d)), Other(d));
    var zp1 := Up(Zipper(s2, zs.path));
    var p2 := Attach(f.(sibling := s2), z.focus);
    assert zp1 == Zipper(p2, z.path[1..]);
    assert InOrder(p2) == InOrder(p) && Counted(p2);
    RotTreeShape(p2, d);
    RotateLocal(zp1, d);
    l := FarFix(p2, d);
    FarFixKeys(p2, d);
  }

  /** The red far nephew: one rotation of the parent. */
  lemma EraseRotatedFar(z: Zipper) returns (l: Tree)
    requires z.path != [] && RedNephew(z.focus, z.path[0]) && Counted(Attach(z.path[0], z.focus))
    requires ColorOf(Child(z.path[0].sibling, z.path[0].dir)) != Red
    ensures BlackSiblingStep(z) == Finish(Plug(l, z.path[1..]))
    ensures RedOk(l) && Balanced(l) && ColorOf(l) == z.path[0].color
    ensures BH(l) == Bump(z.path[0].color, BH(z.focus) + 1)
    ensures InOrder(l) == InOrder(Attach(z.path[0], z.focus)) && Counted(l)
  {
    var f := z.path[0];
    var p := Attach(f, z.focus);
    EraseFarLocal(z.focus, f);
    RotTreeShape(p, f.dir);
    RotateLocal(Up(z), f.dir);
    l := FarFix(p, f.dir);
    FarFixKeys(p, f.dir);
  }

  /** The `erase` loop. `asWritten` keeps the source's behaviour when the
      blackness deficit reaches the root: `n->sibling ()` on the parentless
      root dereferences its missing parent (btree.h line 462). Otherwise the
      loop stops there, as its own `p == nullptr` test intends. */
  function EraseFixup(z: Zipper, asWritten: bool): (r: Outcome)
    requires EraseInv(z)
    ensures !asWritten ==> r.Done?
    ensures r.Done? ==> WellFormed(r.tree) && InOrder(r.tree) == InOrder(Root(z)) && r.erased == 1
    decreases |z.path|
  {
    if z.path == [] then
      Done(Root(z), 1)
    else
      EraseSibling(z);
      var z1 := if z.path[0].sibling.color == Red then RedSibling(z) else z;
      EraseStep(z, z1);
      match BlackSiblingStep(z1)
      case Finish(t) => Done(t, 1)
      case Ascend(u) =>
        if asWritten && u.path == [] then Crash
        else EraseFixup(u, asWritten)
  }

  /** One pass of the loop keeps its invariant or completes the tree. */
  lemma EraseStep(z: Zipper, z1: Zipper)
    requires EraseInv(z) && z.path != [] && z.path[0].sibling.Node?
    requires z1 == if z.path[0].sibling.color == Red then RedSibling(z) else z
    ensures EraseInv(z1) && z1.path != [] && z1.path[0].sibling.Node? && InOrder(Root(z1)) == InOrder(Root(z))
    ensures BlackSiblingStep(z1).Finish? ==>
      WellFormed(BlackSiblingStep(z1).tree) && InOrder(BlackSiblingStep(z1).tree) == InOrder(Root(z))
    ensures BlackSiblingStep(z1).Ascend? ==>
      z1 == z && EraseInv(BlackSiblingStep(z1).up) && InOrder(Root(BlackSiblingStep(z1).up)) == InOrder(Root(z))
  {
    if z.path[0].sibling.color == Red {
      EraseRedSibling(z);
    }
    EraseSibling(z1);
    var f := z1.path[0];
    var s := f.sibling;
    assert s.color == Black;
    if ColorOf(s.left) == Black && ColorOf(s.right) == Black {
      if f.color == Black {
        EraseAscend(z1);
      } else {
        EraseRecolor(z1);
      }
    } else {
      EraseRotation(z1);
    }
  }

  /** A black slot weakens no red condition of the path. */
  lemma PathRedOkBlack(path: seq<Frame>, c: Color)
    requires PathRedOk(path, c)
    ensures PathRedOk(path, Black)
  {
  }

  /** `preerase` copies a key but recolours and relinks nothing. */
  lemma PreeraseRedBlack(t: Tree, k: int)
    requires IsRedBlack(t) && Preerase(t, k).Present?
    ensures IsRedBlack(Root(Preerase(t, k).node))
  {
    var z := Find(Zipper(t, []), k);
    if ChildCount(z.focus) > 1 {
      var pred := Rightmost(Down(z, Left)).focus;
      var n2 := Rekey(z.focus, pred.key);
      PlugBalanced(z.focus, z.path);
      PlugRedOk(z.focus, z.path);
      PlugColor(z.focus, z.path);
      PlugBalanced(n2, z.path);
      PlugRedOk(n2, z.path);
      PlugColor(n2, z.path);
    }
  }

  /** `preerase` and `replace_with_child` remove one occurrence of the key
      and keep the order and the counts. */
  lemma EraseStartKeys(t: Tree, k: int)
    requires WellFormed(t) && Preerase(t, k).Present?
    ensures k in InOrder(t)
    ensures var m := Preerase(t, k).node; var z := ReplaceWithChild(m);
      && IsRedBlack(Root(m))
      && InOrder(Root(z)) == RemoveOne(InOrder(t), k) && Sorted(InOrder(Root(z))) && Counted(Root(z))
  {
    var m := Preerase(t, k).node;
    PreeraseSpec(t, k);
    PreeraseRedBlack(t, k);
    ReplaceWithChildKeys(m);
    RemoveOneSorted(InOrder(t), k);
  }

  /** What unlinking a node with at most one child leaves, colour-wise: a red
      node leaves a valid tree; a black node with a red child leaves a valid
      tree once the child is painted black; otherwise the loop starts with
      its invariant on the empty slot. */
  lemma EraseStartShape(m: Zipper)
    requires m.focus.Node? && ChildCount(m.focus) <= 1 && IsRedBlack(Root(m))
    requires Sorted(InOrder(Root(ReplaceWithChild(m)))) && Counted(Root(ReplaceWithChild(m)))
    ensures var z := ReplaceWithChild(m);
      && (m.focus.color == Red ==> WellFormed(Root(z)))
      && (m.focus.color == Black && z.focus.Node? && z.focus.color == Red ==>
            var r := Root(Zipper(Paint(z.focus, Black), z.path));
            WellFormed(r) && InOrder(r) == InOrder(Root(z)))
      && (m.focus.color == Black && !(z.focus.Node? && z.focus.color == Red) ==> EraseInv(z))
  {
    EraseStartFacts(m);
    var n, c := m.focus, SingleChild(m.focus);
    var d := CountOf(c) - n.count;
    var z := ReplaceWithChild(m);
    if n.color == Red {
      EraseStartValid(c, m.path, d, 0);
    } else if c.Node? && c.color == Red {
      PaintKeys(c, Black);
      SameKeysPlug(c, Paint(c, Black), z.path);
      EraseStartValid(Paint(c, Black), m.path, d, 1);
    } else {
      AddCountColors(m.path, d, 1, Black);
    }
  }

  /** The colour facts about a node with at most one child in a red-black
      tree: a red one has no children; a black one has either none or a
      single red child with no children of its own. */
  lemma EraseStartFacts(m: Zipper)
    requires m.focus.Node? && ChildCount(m.focus) <= 1 && IsRedBlack(Root(m))
    ensures var n, c := m.focus, SingleChild(m.focus);
      && ReplaceWithChild(m) == Zipper(c, AddCount(m.path, CountOf(c) - n.count))
      && PathBalanced(m.path, BH(n)) && PathRedOk(m.path, Black) && RootBlack(m.path)
      && (n.color == Red ==> c == Leaf && BH(n) == 0)
      && (n.color == Black && c.Node? && c.color == Red ==>
            Balanced(c) && RedOk(c) && BH(c) == 0 && BH(n) == 1)
      && (n.color == Black && !(c.Node? && c.color == Red) ==> c == Leaf && BH(n) == 1)
  {
    ReplaceWithChildIs(m);
    PlugBalanced(m.focus, m.path);
    PlugRedOk(m.focus, m.path);
    PlugColor(m.focus, m.path);
    PathRedOkBlack(m.path, m.focus.color);
    var n := m.focus;
    assert BH(n.left) == BH(n.right);
  }

  /** A black subtree of black height `h` in a slot of black height `h`
      below a path whose counts changed by `d`: the tree is valid. */
  lemma EraseStartValid(u: Tree, path: seq<Frame>, d: int, h: nat)
    requires RedOk(u) && Balanced(u) && ColorOf(u) == Black && BH(u) == h
    requires PathBalanced(path, h) && PathRedOk(path, Black) && RootBlack(path)
    requires Sorted(InOrder(Plug(u, AddCount(path, d)))) && Counted(Plug(u, AddCount(path, d)))
    ensures WellFormed(Plug(u, AddCount(path, d)))
  {
    AddCountColors(path, d, h, Black);
    WellFormedPlug(u, AddCount(path, d));
  }

  /** `rb_tree_container::erase`: `preerase`; a red node is simply unlinked;
      a black one is replaced by its child, painted black if red, and
      otherwise the loop repairs the missing black node. `asWritten` keeps
      the source's behaviour when the unlinked node is the root:
      `m->sibling ()` and `replace_with_child` ask the root for its
      direction from a parent it does not have (btree.h lines 219 and 431).
      Otherwise the root is unlinked like any other node. */
  function Erase(t: Tree, k: int, asWritten: bool): (r: Outcome)
    requires WellFormed(t)
    ensures !asWritten ==> r.Done?
    ensures r.Done? ==>
      && WellFormed(r.tree) && InOrder(r.tree) == RemoveOne(InOrder(t), k)
      && r.erased == (if k in InOrder(t) then 1 else 0)
    ensures k !in InOrder(t) ==> r == Done(t, 0)
  {
    match Preerase(t, k)
    case Absent =>
      PreeraseSpec(t, k);
      Done(t, 0)
    case Present(m) =>
      EraseStartKeys(t, k);
      EraseStartShape(m);
      if asWritten && m.path == [] then Crash
      else if m.focus.color == Red then Done(Root(ReplaceWithChild(m)), 1)
      else
        var z := ReplaceWithChild(m);
        if z.focus.Node? && z.focus.color == Red then Done(Root(Zipper(Paint(z.focus, Black), z.path)), 1)
        else EraseFixup(z, asWritten)
  }

  /** Where the loop as written does not fail, it does what the corrected
      loop does. */
  lemma {:induction false} EraseFixupAgrees(z: Zipper)
    requires EraseInv(z)
    ensures EraseFixup(z, true).Done? ==> EraseFixup(z, true) == EraseFixup(z, false)
    decreases |z.path|
  {
    if z.path != [] {
      EraseSibling(z);
      var z1 := if z.path[0].sibling.color == Red then RedSibling(z) else z;
      EraseStep(z, z1);
      if BlackSiblingStep(z1).Ascend? {
        var u := BlackSiblingStep(z1).up;
        if u.path != [] {
          EraseFixupAgrees(u);
        }
      }
    }
  }

  /** Where `erase` as written does not fail, it does what the corrected
      `erase` does. */
  lemma EraseAgrees(t: Tree, k: int)
    requires WellFormed(t)
    ensures Erase(t, k, true).Done? ==> Erase(t, k, true) == Erase(t, k, false)
  {
    if Preerase(t, k).Present? {
      var m := Preerase(t, k).node;
      EraseStartKeys(t, k);
      EraseStartShape(m);
      var z := ReplaceWithChild(m);
      if m.focus.color == Black && !(z.focus.Node? && z.focus.color == Red) {
        EraseFixupAgrees(z);
      }
    }
  }

  lemma LeafFacts()
    ensures InOrder(Leaf) == [] && Size(Leaf) == 0 && Counted(Leaf) && CountOf(Leaf) == 0
    ensures BH(Leaf) == 0 && Balanced(Leaf) && RedOk(Leaf) && ColorOf(Leaf) == Black
  {
  }

  /** `clear`: the tree drops every node and is a valid red-black tree
      again, into which inserting a key gives the one-node black tree and
      from which erasing removes nothing, also as written. */
  function Clear(t: Tree): (r: Tree)
    ensures InOrder(r) == [] && WellFormed(r)
    ensures forall k :: Insert(r, k) == Node(Black, Leaf, k, Leaf, 1)
    ensures forall k :: Erase(r, k, true) == Done(Leaf, 0)
  {
    Leaf
  }

  /** Counterexample: erasing the only key of a one-node tree. The node is
      the root, so `erase` as written fails; the corrected one leaves the
      empty tree. */
  lemma EraseRootFails(k: int)
    ensures WellFormed(Node(Black, Leaf, k, Leaf, 1))
    ensures Erase(Node(Black, Leaf, k, Leaf, 1), k, true) == Crash
    ensures Erase(Node(Black, Leaf, k, Leaf, 1), k, false) == Done(Leaf, 1)
  {
    var t := Node(Black, Leaf, k, Leaf, 1);
    LeafFacts();
    assert InOrder(t) == [k] && Size(t) == 1 && Counted(t);
    assert Preerase(t, k) == Present(Zipper(t, []));
  }

  /** Counterexample: in an all-black tree b[a, c], erasing c leaves a
      blackness deficit that the loop as written carries up to the root,
      where it fails; the corrected loop stops there, with a painted red. */
  lemma EraseDeficitAtRootFails(a: int, b: int, c: int)
    requires a < b < c
    ensures var t := Node(Black, Node(Black, Leaf, a, Leaf, 1), b, Node(Black, Leaf, c, Leaf, 1), 3);
      && WellFormed(t)
      && Erase(t, c, true) == Crash
      && Erase(t, c, false) == Done(Node(Black, Node(Red, Leaf, a, Leaf, 1), b, Leaf, 2), 1)
  {
    var t := Node(Black, Node(Black, Leaf, a, Leaf, 1), b, Node(Black, Leaf, c, Leaf, 1), 3);
    LeafFacts();
    assert WellFormed(t) by {
      var l, r := Node(Black, Leaf, a, Leaf, 1), Node(Black, Leaf, c, Leaf, 1);
      assert InOrder(l) == [a] && InOrder(r) == [c];
      assert InOrder(t) == [a, b, c];
      assert RedOk(l) && RedOk(r) && BH(l) == 1 && BH(r) == 1 && Balanced(l) && Balanced(r);
      assert Counted(l) && Counted(r) && Size(l) == 1 && Size(r) == 1;
    }
    var m := Zipper(Node(Black, Leaf, c, Leaf, 1), [Frame(Right, Black, b, Node(Black, Leaf, a, Leaf, 1), 3)]);
    assert Down(Zipper(t, []), Right) == m;
    assert Find(m, c) == m;
    assert Find(Zipper(t, []), c) == m;
    assert Preerase(t, c) == Present(m);
    var z := Zipper(Leaf, [Frame(Right, Black, b, Node(Black, Leaf, a, Leaf, 1), 2)]);
    assert ReplaceWithChild(m) == z by {
      ReplaceWithChildIs(m);
    }
    var u := Zipper(Node(Black, Node(Red, Leaf, a, Leaf, 1), b, Leaf, 2), []);
    assert BlackSiblingStep(z) == Ascend(u);
    assert EraseInv(z) by {
      assert Root(z) == Node(Black, Node(Black, Leaf, a, Leaf, 1), b, Leaf, 2);
      assert InOrder(Node(Black, Leaf, a, Leaf, 1)) == [a];
      assert InOrder(Root(z)) == [a, b];
      assert Counted(Node(Black, Leaf, a, Leaf, 1)) && Size(Node(Black, Leaf, a, Leaf, 1)) == 1;
      assert Counted(Root(z));
      assert z.path[1..] == [];
    }
    EraseStep(z, z);
    assert EraseFixup(u, false) == Done(Root(u), 1);
  }
}
