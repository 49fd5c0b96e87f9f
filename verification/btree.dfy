/** The structural engine of the search tree in src/comp/btree.h
    (`btree_container`) together with the subtree counts kept by
    `indexation_plugin`.

    A node is a datatype value: its colour (`m_color`, read only by the
    red-black layer), its children, its key and its stored `m_node_count`.
    Parent pointers are replaced by a zipper: the focus is the subtree rooted
    at the node a pointer designates, and the path lists the nodes above it,
    nearest first, each with the child slot the focus hangs from. Ownership
    (`unique_ptr`) has no counterpart: every operation returns the new tree.

    Counts are stored, not derived: `TakeOut` and `AppendChild` change them
    exactly as `before_takeout` and `on_new_child` do, by walking the path.
    That they always equal the subtree sizes (`Counted`) is a theorem. */
module BTree {

  datatype Color = Red | Black

  /** `direction_t`. */
  datatype Dir = Left | Right

  /** `other_direction`. */
  function Other(d: Dir): (r: Dir)
    ensures r != d
  {
    if d == Left then Right else Left
  }

  datatype Tree =
    | Leaf
    | Node(color: Color, left: Tree, key: int, right: Tree, count: int)

  /** `child (direction)`. */
  function Child(t: Tree, d: Dir): Tree
    requires t.Node?
  {
    if d == Left then t.left else t.right
  }

  function WithChild(t: Tree, d: Dir, c: Tree): (r: Tree)
    requires t.Node?
    ensures r.Node? && Child(r, d) == c && Child(r, Other(d)) == Child(t, Other(d))
    ensures r.color == t.color && r.key == t.key && r.count == t.count
  {
    if d == Left then t.(left := c) else t.(right := c)
  }

  /** `node_count ()` of a child that may be absent, as `index` reads it. */
  function CountOf(t: Tree): int {
    if t.Leaf? then 0 else t.count
  }

  /** The keys in symmetric order. */
  function InOrder(t: Tree): seq<int> {
    match t
    case Leaf => []
    case Node(_, l, k, r, _) => InOrder(l) + [k] + InOrder(r)
  }

  function Size(t: Tree): nat {
    |InOrder(t)|
  }

  /** The plugin's invariant: every stored count is the size of its subtree. */
  predicate Counted(t: Tree) {
    match t
    case Leaf => true
    case Node(_, l, _, r, n) => Counted(l) && Counted(r) && n == 1 + Size(l) + Size(r)
  }

  predicate Sorted(s: seq<int>) {
    forall i, j :: 0 <= i < j < |s| ==> s[i] <= s[j]
  }

  lemma CountedSize(t: Tree)
    requires Counted(t)
    ensures CountOf(t) == Size(t)
  {
  }

  // ---------------------------------------------------------------------------
  // Zipper: the nodes above a pointer
  // ---------------------------------------------------------------------------

  /** A node seen from its child in direction `dir`: everything about the
      node except that child. */
  datatype Frame = Frame(dir: Dir, color: Color, key: int, sibling: Tree, count: int)

  datatype Zipper = Zipper(focus: Tree, path: seq<Frame>)

  function Attach(f: Frame, t: Tree): (r: Tree)
    ensures r.Node? && Child(r, f.dir) == t && Child(r, Other(f.dir)) == f.sibling
    ensures r.color == f.color && r.key == f.key && r.count == f.count
  {
    if f.dir == Left then Node(f.color, t, f.key, f.sibling, f.count)
    else Node(f.color, f.sibling, f.key, t, f.count)
  }

  function Plug(t: Tree, path: seq<Frame>): (r: Tree)
    ensures path == [] ==> r == t
    ensures |path| == 1 ==> r == Attach(path[0], t)
    decreases |path|
  {
    if path == [] then t else Plug(Attach(path[0], t), path[1..])
  }

  /** The whole tree (`m_root`). */
  function Root(z: Zipper): Tree {
    Plug(z.focus, z.path)
  }

  /** `parent ()`. */
  function Up(z: Zipper): (r: Zipper)
    requires z.path != []
    ensures Root(r) == Root(z) && |r.path| == |z.path| - 1
  {
    Zipper(Attach(z.path[0], z.focus), z.path[1..])
  }

  /** `child (d)`. */
  function Down(z: Zipper, d: Dir): (r: Zipper)
    requires z.focus.Node?
    ensures |r.path| == |z.path| + 1 && Root(r) == Root(z) && r.path[1..] == z.path && r.path[0].dir == d
    ensures r.focus == Child(z.focus, d) && Up(r) == z
  {
    var n := z.focus;
    var r := Zipper(Child(n, d), [Frame(d, n.color, n.key, Child(n, Other(d)), n.count)] + z.path);
    assert r.path[1..] == z.path;
    r
  }

  /** Keys of the path that precede the focus in symmetric order. */
  function PathPrefix(path: seq<Frame>): seq<int>
    decreases |path|
  {
    if path == [] then []
    else PathPrefix(path[1..]) + (if path[0].dir == Right then InOrder(path[0].sibling) + [path[0].key] else [])
  }

  /** Keys of the path that follow the focus in symmetric order. */
  function PathSuffix(path: seq<Frame>): seq<int>
    decreases |path|
  {
    if path == [] then []
    else (if path[0].dir == Left then [path[0].key] + InOrder(path[0].sibling) else []) + PathSuffix(path[1..])
  }

  lemma {:induction false} PlugInOrder(t: Tree, path: seq<Frame>)
    ensures InOrder(Plug(t, path)) == PathPrefix(path) + InOrder(t) + PathSuffix(path)
    decreases |path|
  {
    if path != [] {
      var f := path[0];
      PlugInOrder(Attach(f, t), path[1..]);
    }
  }

  // ---------------------------------------------------------------------------
  // The plugin's hooks
  // ---------------------------------------------------------------------------

  /** A frame whose stored count has moved by `d`. */
  function Recount(f: Frame, d: int): Frame {
    f.(count := f.count + d)
  }

  /** The walk of `on_new_child` (d > 0) or `before_takeout` (d < 0): every
      node on the path gains d. */
  function AddCount(path: seq<Frame>, d: int): (r: seq<Frame>)
    ensures |r| == |path|
    decreases |path|
  {
    if path == [] then []
    else [Recount(path[0], d)] + AddCount(path[1..], d)
  }

  /** Two walks add up to one. */
  lemma AddCountAdd(path: seq<Frame>, a: int, b: int)
    ensures AddCount(AddCount(path, a), b) == AddCount(path, a + b)
  {
    var p1 := AddCount(path, a);
    AddCountKeys(path, a);
    AddCountKeys(p1, b);
    AddCountKeys(path, a + b);
  }

  lemma {:induction false} AddCountZero(path: seq<Frame>)
    ensures AddCount(path, 0) == path
    decreases |path|
  {
    if path != [] {
      AddCountZero(path[1..]);
    }
  }

  /** The hooks change counts only: the keys around the focus stay. */
  lemma {:induction false} AddCountKeys(path: seq<Frame>, d: int)
    ensures PathPrefix(AddCount(path, d)) == PathPrefix(path)
    ensures PathSuffix(AddCount(path, d)) == PathSuffix(path)
    ensures forall i :: 0 <= i < |path| ==> AddCount(path, d)[i] == Recount(path[i], d)
    decreases |path|
  {
    if path != [] {
      var r := AddCount(path, d);
      assert r[1..] == AddCount(path[1..], d);
      AddCountKeys(path[1..], d);
    }
  }

  /** The counts stored on a path are right for a focus of `n` nodes. */
  predicate PathCounted(path: seq<Frame>, n: int)
    decreases |path|
  {
    path == [] ||
    (Counted(path[0].sibling) && path[0].count == 1 + n + Size(path[0].sibling) &&
     PathCounted(path[1..], path[0].count))
  }

  lemma {:induction false} PlugCounted(t: Tree, path: seq<Frame>)
    ensures Counted(Plug(t, path)) <==> Counted(t) && PathCounted(path, Size(t))
    decreases |path|
  {
    if path != [] {
      var f := path[0];
      PlugCounted(Attach(f, t), path[1..]);
    }
  }

  /** After a focus of `n` nodes is replaced by one of `m`, the hooks' walk
      by `m - n` leaves the path's counts right. */
  lemma {:induction false} AddCountCounted(path: seq<Frame>, n: int, m: int)
    requires PathCounted(path, n)
    ensures PathCounted(AddCount(path, m - n), m)
    decreases |path|
  {
    if path != [] {
      var r := AddCount(path, m - n);
      assert r[1..] == AddCount(path[1..], m - n);
      AddCountCounted(path[1..], path[0].count, path[0].count + m - n);
    }
  }

  /** Replacing the focus and walking the difference of the sizes up the
      path keeps every count right and the surrounding keys in place. */
  lemma Replace(t: Tree, u: Tree, path: seq<Frame>)
    requires Counted(Plug(t, path)) && Counted(u)
    ensures Counted(Plug(u, AddCount(path, Size(u) - Size(t))))
    ensures InOrder(Plug(u, AddCount(path, Size(u) - Size(t)))) == PathPrefix(path) + InOrder(u) + PathSuffix(path)
  {
    PlugCounted(t, path);
    AddCountCounted(path, Size(t), Size(u));
    PlugCounted(u, AddCount(path, Size(u) - Size(t)));
    PlugInOrder(u, AddCount(path, Size(u) - Size(t)));
    AddCountKeys(path, Size(u) - Size(t));
  }

  /** `take_out`: the focus leaves its slot, every node above loses its count
      (`before_takeout`); the slot is left empty. At the root, `tree_t::take_out`
      moves `m_root` out and there is nobody to notify. */
  function TakeOut(z: Zipper): (r: (Tree, Zipper))
    requires z.focus.Node?
    ensures r.0 == z.focus && r.1.focus == Leaf && |r.1.path| == |z.path|
  {
    (z.focus, Zipper(Leaf, AddCount(z.path, -z.focus.count)))
  }

  /** `append_child`: the slot must be empty; the node moves in and every
      node above gains its count (`on_new_child`). Storing into `m_root`
      notifies nobody. */
  function AppendChild(z: Zipper, n: Tree): (r: Zipper)
    requires z.focus == Leaf && n.Node?
    ensures r.focus == n && |r.path| == |z.path|
  {
    Zipper(n, AddCount(z.path, n.count))
  }

  /** Putting back what was taken out restores the counts. */
  lemma TakeOutAppend(z: Zipper)
    requires z.focus.Node?
    ensures AppendChild(TakeOut(z).1, TakeOut(z).0) == z
  {
    AddCountAdd(z.path, -z.focus.count, z.focus.count);
    AddCountZero(z.path);
  }

  // ---------------------------------------------------------------------------
  // rotate
  // ---------------------------------------------------------------------------

  /** `rotate (node, dir)`, step by step: the node is taken out, its child in
      the other direction (the heritor) is taken out of it, the heritor's
      child in direction `dir` (if any) moves over to the node, the node
      becomes the heritor's child in direction `dir`, and the heritor takes
      the node's old slot. The result is focused on that slot. */
  function Rotate(z: Zipper, dir: Dir): Zipper
    requires z.focus.Node? && Child(z.focus, Other(dir)).Node?
  {
    var (hanging, slot) := TakeOut(z);
    var (heritor, inNode) := TakeOut(Down(Zipper(hanging, []), Other(dir)));
    var (node2, heritor2) :=
      if Child(heritor, dir).Node? then
        var (b, inHeritor) := TakeOut(Down(Zipper(heritor, []), dir));
        (Root(AppendChild(inNode, b)), Root(inHeritor))
      else (Root(inNode), heritor);
    var hung := AppendChild(Down(Zipper(heritor2, []), dir), node2);
    AppendChild(slot, Root(hung))
  }

  /** Reference definition of a rotation, written out per direction: the
      relinking of a textbook rotation, with each moved node's count changed
      by the counts that left and joined it. */
  function RotTree(t: Tree, dir: Dir): (r: Tree)
    requires t.Node? && Child(t, Other(dir)).Node?
    ensures r.Node?
  {
    if dir == Left then
      var Node(c, a, x, h, n) := t;
      var Node(c2, b, y, cc, m) := h;
      var n2 := n - m + CountOf(b);
      Node(c2, Node(c, a, x, b, n2), y, cc, m - CountOf(b) + n2)
    else
      var Node(c, h, x, a, n) := t;
      var Node(c2, cc, y, b, m) := h;
      var n2 := n - m + CountOf(b);
      Node(c2, cc, y, Node(c, b, x, a, n2), m - CountOf(b) + n2)
  }

  /** The shape of a rotation in either direction: the heritor on top, the
      rotated node below it on side `dir`, the heritor's inner child moved
      over to the node. */
  lemma RotTreeShape(t: Tree, dir: Dir)
    requires t.Node? && Child(t, Other(dir)).Node?
    ensures var h := Child(t, Other(dir)); var r := RotTree(t, dir);
      && r.color == h.color && r.key == h.key
      && Child(r, Other(dir)) == Child(h, Other(dir))
      && Child(r, dir).Node? && Child(r, dir).color == t.color && Child(r, dir).key == t.key
      && Child(Child(r, dir), dir) == Child(t, dir) && Child(Child(r, dir), Other(dir)) == Child(h, dir)
  {
  }

  /** `rotate` replaces the focus by the rotated subtree and walks the change
      of its count up the path. */
  lemma RotateIsRotTree(z: Zipper, dir: Dir)
    requires z.focus.Node? && Child(z.focus, Other(dir)).Node?
    ensures Rotate(z, dir) == Zipper(RotTree(z.focus, dir), AddCount(z.path, RotTree(z.focus, dir).count - z.focus.count))
  {
    var r := RotTree(z.focus, dir);
    AddCountAdd(z.path, -z.focus.count, r.count);
  }

  /** A rotation keeps the keys in order and, on a counted subtree, keeps
      every count right and the subtree's own count unchanged. */
  lemma RotTreeKeys(t: Tree, dir: Dir)
    requires t.Node? && Child(t, Other(dir)).Node?
    ensures InOrder(RotTree(t, dir)) == InOrder(t)
    ensures Counted(t) ==> Counted(RotTree(t, dir)) && RotTree(t, dir).count == t.count
  {
    if dir == Left {
      var Node(c, a, x, h, n) := t;
      var Node(c2, b, y, cc, m) := h;
      assert InOrder(t) == InOrder(a) + [x] + (InOrder(b) + [y] + InOrder(cc));
      if Counted(t) {
        assert Counted(h);
        CountedSize(b);
      }
    } else {
      var Node(c, h, x, a, n) := t;
      var Node(c2, cc, y, b, m) := h;
      assert InOrder(t) == (InOrder(cc) + [y] + InOrder(b)) + [x] + InOrder(a);
      if Counted(t) {
        assert Counted(h);
        CountedSize(b);
      }
    }
  }

  /** `rotate` keeps the whole tree's keys in order and its counts right; the
      path above the rotated slot is unchanged. */
  lemma RotatePreserves(z: Zipper, dir: Dir)
    requires z.focus.Node? && Child(z.focus, Other(dir)).Node?
    ensures InOrder(Root(Rotate(z, dir))) == InOrder(Root(z))
    ensures Counted(Root(z)) ==> Counted(Root(Rotate(z, dir))) && Rotate(z, dir).path == z.path
  {
    RotateIsRotTree(z, dir);
    RotTreeKeys(z.focus, dir);
    var r := RotTree(z.focus, dir);
    PlugInOrder(r, AddCount(z.path, r.count - z.focus.count));
    PlugInOrder(z.focus, z.path);
    AddCountKeys(z.path, r.count - z.focus.count);
    if Counted(Root(z)) {
      PlugCounted(z.focus, z.path);
      CountedSize(z.focus);
      AddCountZero(z.path);
      PlugCounted(r, z.path);
    }
  }

  // ---------------------------------------------------------------------------
  // child_count, single_child, replace_with_child
  // ---------------------------------------------------------------------------

  /** `child_count`. */
  function ChildCount(t: Tree): (r: nat)
    requires t.Node?
    ensures r <= 2 && (r == 0 <==> t.left.Leaf? && t.right.Leaf?)
  {
    (if t.left.Node? then 1 else 0) + (if t.right.Node? then 1 else 0)
  }

  /** `single_child`: the left child if present, else the right one (possibly
      none). */
  function SingleChild(t: Tree): (r: Tree)
    requires t.Node? && ChildCount(t) <= 1
    ensures InOrder(t) == InOrder(r) + [t.key] || InOrder(t) == [t.key] + InOrder(r)
    ensures Size(r) == Size(t) - 1
  {
    if t.left.Node? then t.left else t.right
  }

  /** `replace_with_child`: the node is taken out of its slot; if it had a
      child, that child is taken out of it and appended in its place. This is
      the function without the `direction_from_parent` call at line 219, which
      fails on the root; the callers decide what happens there. */
  function ReplaceWithChild(z: Zipper): (r: Zipper)
    requires z.focus.Node? && ChildCount(z.focus) <= 1
    ensures |r.path| == |z.path|
  {
    var (node, slot) := TakeOut(z);
    if ChildCount(node) == 0 then slot
    else
      var d := if node.left.Node? then Left else Right;
      var (c, _) := TakeOut(Down(Zipper(node, []), d));
      AppendChild(slot, c)
  }

  /** The focus is replaced by its single child (or by nothing) and the path
      walks the difference of the counts: the node's count goes, the child's
      comes back. */
  lemma ReplaceWithChildIs(z: Zipper)
    requires z.focus.Node? && ChildCount(z.focus) <= 1
    ensures ReplaceWithChild(z) == Zipper(SingleChild(z.focus), AddCount(z.path, CountOf(SingleChild(z.focus)) - z.focus.count))
  {
    var c := SingleChild(z.focus);
    AddCountAdd(z.path, -z.focus.count, CountOf(c));
  }

  /** Removing a node with at most one child: the tree stays counted, the
      path's frames keep their keys, and the node's key drops out of the
      symmetric order. */
  lemma ReplaceWithChildKeys(z: Zipper)
    requires z.focus.Node? && ChildCount(z.focus) <= 1 && Counted(Root(z))
    ensures Counted(Root(ReplaceWithChild(z)))
    ensures ReplaceWithChild(z).focus == SingleChild(z.focus)
    ensures InOrder(Root(ReplaceWithChild(z))) == PathPrefix(z.path) + InOrder(SingleChild(z.focus)) + PathSuffix(z.path)
    ensures forall i :: 0 <= i < |z.path| ==> ReplaceWithChild(z).path[i] == Recount(z.path[i], -1)
  {
    var c := SingleChild(z.focus);
    var r := ReplaceWithChild(z);
    ReplaceWithChildIs(z);
    PlugCounted(z.focus, z.path);
    CountedSize(z.focus);
    CountedSize(c);
    var d := Size(c) - Size(z.focus);
    assert d == -1 && r == Zipper(c, AddCount(z.path, d));
    Replace(z.focus, c, z.path);
    AddCountKeys(z.path, d);
  }

  // ---------------------------------------------------------------------------
  // preinsert
  // ---------------------------------------------------------------------------

  /** A node as `create_node` makes it: red (`m_color`'s default), no
      children, count 1. */
  function NewNode(k: int): (r: Tree)
    ensures Counted(r) && InOrder(r) == [k]
  {
    Node(Red, Leaf, k, Leaf, 1)
  }

  /** The `preinsert` loop: left on a smaller key, right otherwise (so equal
      keys go right), until the slot is empty. */
  function Descend(z: Zipper, k: int): (r: Zipper)
    ensures r.focus == Leaf && Root(r) == Root(z)
    decreases z.focus
  {
    if z.focus.Leaf? then z
    else if k < z.focus.key then Descend(Down(z, Left), k)
    else Descend(Down(z, Right), k)
  }

  /** `preinsert`: a new root in an empty tree, otherwise a new node appended
      in the empty slot the descent reaches. The result is focused on the new
      node. */
  function Preinsert(t: Tree, k: int): (r: Zipper)
    ensures r.focus == NewNode(k)
  {
    if t.Leaf? then Zipper(NewNode(k), [])
    else AppendChild(Descend(Zipper(t, []), k), NewNode(k))
  }

  /** Reference: the sorted sequence with `k` placed after every key not
      greater than it. */
  function InsertSorted(s: seq<int>, k: int): (r: seq<int>)
    ensures |r| == |s| + 1
  {
    if s == [] then [k]
    else if k < s[0] then [k] + s
    else [s[0]] + InsertSorted(s[1..], k)
  }

  predicate AllLe(s: seq<int>, k: int) {
    forall i :: 0 <= i < |s| ==> s[i] <= k
  }

  predicate AllGt(s: seq<int>, k: int) {
    forall i :: 0 <= i < |s| ==> s[i] > k
  }

  predicate AllLt(s: seq<int>, k: int) {
    forall i :: 0 <= i < |s| ==> s[i] < k
  }

  lemma SortedParts(a: seq<int>, b: seq<int>, c: seq<int>)
    requires Sorted(a + b + c)
    ensures Sorted(b)
  {
    forall i, j | 0 <= i < j < |b|
      ensures b[i] <= b[j]
    {
      assert b[i] == (a + b + c)[|a| + i] && b[j] == (a + b + c)[|a| + j];
    }
  }

  /** In a sorted node, the left keys are at most the key and the right keys
      at least it. */
  lemma SortedNode(l: seq<int>, k: int, r: seq<int>)
    requires Sorted(l + [k] + r)
    ensures AllLe(l, k) && forall i :: 0 <= i < |r| ==> r[i] >= k
  {
    var s := l + [k] + r;
    forall i | 0 <= i < |l|
      ensures l[i] <= k
    {
      assert l[i] == s[i] && k == s[|l|];
    }
    forall i | 0 <= i < |r|
      ensures r[i] >= k
    {
      assert r[i] == s[|l| + 1 + i] && k == s[|l|];
    }
  }

  /** The descent keeps every key before the focus at most `k` and every key
      after it greater than `k`. */
  lemma {:induction false} DescendSplits(z: Zipper, k: int)
    requires Sorted(InOrder(Root(z)))
    requires AllLe(PathPrefix(z.path), k) && AllGt(PathSuffix(z.path), k)
    ensures var r := Descend(z, k);
      AllLe(PathPrefix(r.path), k) && AllGt(PathSuffix(r.path), k)
    decreases z.focus
  {
    if z.focus.Node? {
      var d := if k < z.focus.key then Left else Right;
      StepKeys(z, d);
      var n := z.focus;
      var e := Down(z, d);
      if d == Left {
        forall i | 0 <= i < |PathSuffix(e.path)|
          ensures PathSuffix(e.path)[i] > k
        {
          var a, b := [n.key] + InOrder(n.right), PathSuffix(z.path);
          assert PathSuffix(e.path)[i] == (a + b)[i];
          if i >= |a| {
            assert (a + b)[i] == b[i - |a|];
          } else if i > 0 {
            assert a[i] == InOrder(n.right)[i - 1];
          }
        }
      } else {
        forall i | 0 <= i < |PathPrefix(e.path)|
          ensures PathPrefix(e.path)[i] <= k
        {
          var a, b := PathPrefix(z.path), InOrder(n.left) + [n.key];
          assert PathPrefix(e.path)[i] == (a + b)[i];
          if i >= |a| {
            assert (a + b)[i] == b[i - |a|];
            if i - |a| < |InOrder(n.left)| {
              assert b[i - |a|] == InOrder(n.left)[i - |a|];
            }
          }
        }
      }
      DescendSplits(e, k);
    }
  }

  /** One step down: the keys that join the path, and how they compare with
      the node's key when the tree is sorted. */
  lemma StepKeys(z: Zipper, d: Dir)
    requires z.focus.Node? && Sorted(InOrder(Root(z)))
    ensures d == Left ==> PathSuffix(Down(z, d).path) == [z.focus.key] + InOrder(z.focus.right) + PathSuffix(z.path)
    ensures d == Left ==> PathPrefix(Down(z, d).path) == PathPrefix(z.path)
    ensures d == Right ==> PathPrefix(Down(z, d).path) == PathPrefix(z.path) + (InOrder(z.focus.left) + [z.focus.key])
    ensures d == Right ==> PathSuffix(Down(z, d).path) == PathSuffix(z.path)
    ensures AllLe(InOrder(z.focus.left), z.focus.key)
    ensures forall i :: 0 <= i < |InOrder(z.focus.right)| ==> InOrder(z.focus.right)[i] >= z.focus.key
    ensures Sorted(InOrder(z.focus))
  {
    var n := z.focus;
    PlugInOrder(z.focus, z.path);
    SortedParts(PathPrefix(z.path), InOrder(n), PathSuffix(z.path));
    SortedNode(InOrder(n.left), n.key, InOrder(n.right));
    var e := Down(z, d);
    assert e.path[1..] == z.path;
  }

  /** Splitting a sequence at `k` (keys at most `k` first, greater ones
      after) and putting `k` in between is `InsertSorted`. */
  lemma {:induction false} InsertSortedSplit(a: seq<int>, b: seq<int>, k: int)
    requires AllLe(a, k) && AllGt(b, k)
    ensures InsertSorted(a + b, k) == a + [k] + b
    decreases |a|
  {
    if a == [] {
      assert a + b == b;
      if b != [] {
        assert b[0] > k;
      }
    } else {
      var s := a + b;
      assert s[0] == a[0] && s[1..] == a[1..] + b;
      InsertSortedSplit(a[1..], b, k);
    }
  }

  /** `preinsert` adds the key where `InsertSorted` puts it and keeps the
      counts right. */
  lemma PreinsertSpec(t: Tree, k: int)
    requires Sorted(InOrder(t)) && Counted(t)
    ensures InOrder(Root(Preinsert(t, k))) == InsertSorted(InOrder(t), k)
    ensures Counted(Root(Preinsert(t, k)))
  {
    if t.Node? {
      var z := Descend(Zipper(t, []), k);
      DescendSplits(Zipper(t, []), k);
      var pre, suf := PathPrefix(z.path), PathSuffix(z.path);
      PlugInOrder(Leaf, z.path);
      assert InOrder(t) == pre + suf;
      InsertSortedSplit(pre, suf, k);
      PreinsertSlot(k, z.path);
      assert Preinsert(t, k) == Zipper(NewNode(k), AddCount(z.path, 1));
    }
  }

  /** A new node in an empty slot: the counts above it grow by one and its
      key lands between the keys before and after the slot. */
  lemma PreinsertSlot(k: int, path: seq<Frame>)
    requires Counted(Plug(Leaf, path))
    ensures InOrder(Plug(NewNode(k), AddCount(path, 1))) == PathPrefix(path) + [k] + PathSuffix(path)
    ensures Counted(Plug(NewNode(k), AddCount(path, 1)))
  {
    var u := NewNode(k);
    assert Size(u) - Size(Leaf) == 1;
    Replace(Leaf, u, path);
  }

  predicate AllGe(s: seq<int>, k: int) {
    forall i :: 0 <= i < |s| ==> s[i] >= k
  }

  lemma SortedTail(s: seq<int>)
    requires Sorted(s) && s != []
    ensures Sorted(s[1..]) && AllGe(s[1..], s[0])
  {
    forall i | 0 <= i < |s[1..]|
      ensures s[1..][i] >= s[0]
    {
      assert s[1..][i] == s[i + 1];
    }
  }

  lemma SortedCons(h: int, t: seq<int>)
    requires Sorted(t) && AllGe(t, h)
    ensures Sorted([h] + t)
  {
    var s := [h] + t;
    forall i, j | 0 <= i < j < |s|
      ensures s[i] <= s[j]
    {
      assert s[j] == t[j - 1];
      if i > 0 {
        assert s[i] == t[i - 1];
      }
    }
  }

  /** Inserting a key not below a bound keeps every element above the bound. */
  lemma {:induction false} InsertSortedGe(s: seq<int>, k: int, x: int)
    requires AllGe(s, x) && x <= k
    ensures AllGe(InsertSorted(s, k), x)
    decreases |s|
  {
    if s != [] && k >= s[0] {
      InsertSortedGe(s[1..], k, x);
      var r, tail := InsertSorted(s, k), InsertSorted(s[1..], k);
      assert r == [s[0]] + tail;
      forall i | 0 <= i < |r|
        ensures r[i] >= x
      {
        if i > 0 {
          assert r[i] == tail[i - 1];
        }
      }
    }
  }

  lemma {:induction false} InsertSortedSorted(s: seq<int>, k: int)
    requires Sorted(s)
    ensures Sorted(InsertSorted(s, k))
    ensures multiset(InsertSorted(s, k)) == multiset(s) + multiset{k}
    decreases |s|
  {
    if s == [] {
    } else if k < s[0] {
      SortedTail(s);
      assert AllGe(s, k);
      SortedCons(k, s);
    } else {
      SortedTail(s);
      InsertSortedSorted(s[1..], k);
      InsertSortedGe(s[1..], k, s[0]);
      SortedCons(s[0], InsertSorted(s[1..], k));
      assert s == [s[0]] + s[1..];
    }
  }

  // ---------------------------------------------------------------------------
  // preerase
  // ---------------------------------------------------------------------------

  /** What `preerase` hands to the erase step: nothing, or the node to
      unlink. */
  datatype Target = Absent | Present(node: Zipper)

  /** A node that takes over another key, as `preerase` copies the
      predecessor's key into the node it found. */
  function Rekey(t: Tree, k: int): Tree
    requires t.Node?
  {
    t.(key := k)
  }

  /** The search loop of `preerase`: left on a smaller key, right on a greater
      one, stop on an equal key or an empty slot. */
  function Find(z: Zipper, k: int): (r: Zipper)
    ensures Root(r) == Root(z) && (r.focus.Node? ==> r.focus.key == k)
    decreases z.focus
  {
    if z.focus.Leaf? then z
    else if k < z.focus.key then Find(Down(z, Left), k)
    else if k > z.focus.key then Find(Down(z, Right), k)
    else z
  }

  /** The predecessor loop: right while there is a right child. */
  function Rightmost(z: Zipper): (r: Zipper)
    requires z.focus.Node?
    ensures r.focus.Node? && r.focus.right.Leaf? && Root(r) == Root(z)
    decreases z.focus
  {
    if z.focus.right.Node? then Rightmost(Down(z, Right)) else z
  }

  /** `preerase`: none if the key is absent; the found node if it has at most
      one child; otherwise the found node takes the key of its in-order
      predecessor (the rightmost node of its left subtree), and that
      predecessor is returned. */
  function Preerase(t: Tree, k: int): (r: Target)
    ensures r.Present? ==> r.node.focus.Node? && ChildCount(r.node.focus) <= 1
  {
    if t.Leaf? then Absent
    else
      var z := Find(Zipper(t, []), k);
      if z.focus.Leaf? then Absent
      else if ChildCount(z.focus) <= 1 then Present(z)
      else
        var pred := Rightmost(Down(z, Left)).focus;
        var z2 := Zipper(Rekey(z.focus, pred.key), z.path);
        Present(Rightmost(Down(z2, Left)))
  }

  /** Reference: `s` without its first occurrence of `k` (unchanged if there
      is none). */
  function RemoveOne(s: seq<int>, k: int): (r: seq<int>)
    ensures k !in s ==> r == s
    ensures k in s ==> |r| == |s| - 1
  {
    if s == [] then []
    else if s[0] == k then s[1..]
    else [s[0]] + RemoveOne(s[1..], k)
  }

  /** Removing an element keeps every remaining one above a bound. */
  lemma {:induction false} RemoveOneGe(s: seq<int>, k: int, x: int)
    requires AllGe(s, x)
    ensures AllGe(RemoveOne(s, k), x)
    decreases |s|
  {
    if s != [] && s[0] != k {
      RemoveOneGe(s[1..], k, x);
      var r, tail := RemoveOne(s, k), RemoveOne(s[1..], k);
      forall i | 0 <= i < |r|
        ensures r[i] >= x
      {
        if i > 0 {
          assert r[i] == tail[i - 1];
        }
      }
    }
  }

  /** Removing one occurrence keeps a sequence sorted. */
  lemma {:induction false} RemoveOneSorted(s: seq<int>, k: int)
    requires Sorted(s)
    ensures Sorted(RemoveOne(s, k))
    decreases |s|
  {
    if s != [] {
      SortedTail(s);
      if s[0] != k {
        RemoveOneSorted(s[1..], k);
        RemoveOneGe(s[1..], k, s[0]);
        SortedCons(s[0], RemoveOne(s[1..], k));
      }
    }
  }

  /** In a sorted sequence, removing any occurrence of `k` removes the first. */
  lemma {:induction false} SortedRemoveAt(s: seq<int>, i: int, k: int)
    requires Sorted(s) && 0 <= i < |s| && s[i] == k
    ensures s[..i] + s[i + 1..] == RemoveOne(s, k)
    decreases |s|
  {
    if s[0] == k {
      RemoveInRun(s, i);
    } else {
      SortedTail(s);
      SortedRemoveAt(s[1..], i - 1, k);
      SliceCons(s, i);
    }
  }

  /** Where the first and the i-th elements of a sorted sequence agree, all
      between agree too, so dropping the i-th is dropping the first. */
  lemma RemoveInRun(s: seq<int>, i: int)
    requires Sorted(s) && 0 <= i < |s| && s[0] == s[i]
    ensures s[..i] + s[i + 1..] == s[1..]
  {
    var a := s[..i] + s[i + 1..];
    forall x | 0 <= x < |a|
      ensures a[x] == s[1..][x]
    {
      if x < i {
        assert s[0] <= s[x] <= s[x + 1] <= s[i];
      }
    }
  }

  lemma SliceCons(s: seq<int>, i: int)
    requires 0 < i < |s|
    ensures s[..i] + s[i + 1..] == [s[0]] + (s[1..][..i - 1] + s[1..][i..])
  {
    assert s[..i] == [s[0]] + s[1..][..i - 1];
    assert s[i + 1..] == s[1..][i..];
  }

  /** The search keeps every key before the focus below `k` and every key
      after it above `k`; so when it ends in an empty slot, `k` is absent. */
  lemma {:induction false} FindSplits(z: Zipper, k: int)
    requires Sorted(InOrder(Root(z)))
    requires AllLt(PathPrefix(z.path), k) && AllGt(PathSuffix(z.path), k)
    ensures var r := Find(z, k);
      AllLt(PathPrefix(r.path), k) && AllGt(PathSuffix(r.path), k)
    decreases z.focus
  {
    if z.focus.Node? && z.focus.key != k {
      var d := if k < z.focus.key then Left else Right;
      StepKeys(z, d);
      var n := z.focus;
      var e := Down(z, d);
      if d == Left {
        forall i | 0 <= i < |PathSuffix(e.path)|
          ensures PathSuffix(e.path)[i] > k
        {
          var a, b := [n.key] + InOrder(n.right), PathSuffix(z.path);
          assert PathSuffix(e.path)[i] == (a + b)[i];
          if i >= |a| {
            assert (a + b)[i] == b[i - |a|];
          } else if i > 0 {
            assert a[i] == InOrder(n.right)[i - 1];
          }
        }
      } else {
        forall i | 0 <= i < |PathPrefix(e.path)|
          ensures PathPrefix(e.path)[i] < k
        {
          var a, b := PathPrefix(z.path), InOrder(n.left) + [n.key];
          assert PathPrefix(e.path)[i] == (a + b)[i];
          if i >= |a| {
            assert (a + b)[i] == b[i - |a|];
            if i - |a| < |InOrder(n.left)| {
              assert b[i - |a|] == InOrder(n.left)[i - |a|];
            }
          }
        }
      }
      FindSplits(e, k);
    }
  }

  /** The descent to the predecessor: the keys of the starting subtree are
      the keys that join the path's prefix followed by the final focus's. */
  lemma {:induction false} RightmostKeys(z: Zipper) returns (mid: seq<int>)
    requires z.focus.Node?
    ensures PathPrefix(Rightmost(z).path) == PathPrefix(z.path) + mid
    ensures InOrder(z.focus) == mid + InOrder(Rightmost(z).focus)
    ensures PathSuffix(Rightmost(z).path) == PathSuffix(z.path)
    decreases z.focus
  {
    var n := z.focus;
    if n.right.Node? {
      var d := Down(z, Right);
      DownRightKeys(z);
      var m := RightmostKeys(d);
      var rz := Rightmost(d);
      assert Rightmost(z) == rz;
      var lk := InOrder(n.left) + [n.key];
      mid := lk + m;
      ConcatAssoc(PathPrefix(z.path), lk, m);
      ConcatAssoc(lk, m, InOrder(rz.focus));
    } else {
      mid := [];
      assert [] + InOrder(n) == InOrder(n);
      assert PathPrefix(z.path) + [] == PathPrefix(z.path);
    }
  }

  lemma ConcatAssoc(a: seq<int>, b: seq<int>, c: seq<int>)
    ensures (a + b) + c == a + (b + c)
  {
  }

  /** Going right moves the node's key and left subtree into the prefix. */
  lemma DownRightKeys(z: Zipper)
    requires z.focus.Node?
    ensures PathPrefix(Down(z, Right).path) == PathPrefix(z.path) + (InOrder(z.focus.left) + [z.focus.key])
    ensures PathSuffix(Down(z, Right).path) == PathSuffix(z.path)
  {
    assert Down(z, Right).path[1..] == z.path;
  }

  /** `preerase` on a found node with at most one child: that node goes. */
  lemma PreeraseAtMostOne(s: seq<int>, pre: seq<int>, n: Tree, suf: seq<int>, k: int)
    requires n.Node? && n.key == k && ChildCount(n) <= 1
    requires Sorted(s) && s == pre + InOrder(n) + suf
    ensures pre + InOrder(SingleChild(n)) + suf == RemoveOne(s, k)
  {
    var c := InOrder(SingleChild(n));
    if InOrder(n) == c + [k] {
      ConcatAssoc(pre, c + [k], suf);
      ConcatAssoc(pre, c, [k]);
      ConcatAssoc(pre + c + [k], [], suf);
      RemoveAtConcat(pre + c, k, suf);
      SortedRemoveAt(s, |pre + c|, k);
    } else {
      ConcatAssoc(pre, [k] + c, suf);
      ConcatAssoc(pre, [k], c);
      ConcatAssoc(pre + [k], c, suf);
      RemoveAtConcat(pre, k, c + suf);
      ConcatAssoc(pre, c, suf);
      SortedRemoveAt(s, |pre|, k);
    }
  }

  /** Dropping the element between two parts leaves the parts. */
  lemma RemoveAtConcat(a: seq<int>, x: int, b: seq<int>)
    ensures var s := a + [x] + b; |a| < |s| && s[|a|] == x && s[..|a|] + s[|a| + 1..] == a + b
  {
    var s := a + [x] + b;
    assert s[..|a|] == a;
    assert s[|a| + 1..] == b;
  }

  /** `preerase` on a found node with two children: the node takes its
      predecessor's key and the predecessor goes. */
  lemma PreeraseTwo(z: Zipper, k: int)
    requires z.focus.Node? && z.focus.key == k && ChildCount(z.focus) == 2
    requires Sorted(InOrder(Root(z))) && Counted(Root(z))
    ensures var pred := Rightmost(Down(z, Left)).focus;
      var r := Rightmost(Down(Zipper(Rekey(z.focus, pred.key), z.path), Left));
      Counted(Root(r)) &&
      PathPrefix(r.path) + InOrder(SingleChild(r.focus)) + PathSuffix(r.path) == RemoveOne(InOrder(Root(z)), k)
  {
    var i := PreeraseTwoShape(z);
    SortedRemoveAt(InOrder(Root(z)), i, k);
    var pred := Rightmost(Down(z, Left)).focus;
    CountedKeyChange(z, pred.key);
  }

  /** The keys after `preerase` on a node with two children: the tree's keys
      without the one at the node. */
  lemma PreeraseTwoShape(z: Zipper) returns (i: nat)
    requires z.focus.Node? && ChildCount(z.focus) == 2
    ensures var s := InOrder(Root(z));
      var pred := Rightmost(Down(z, Left)).focus;
      var r := Rightmost(Down(Zipper(Rekey(z.focus, pred.key), z.path), Left));
      i < |s| && s[i] == z.focus.key &&
      PathPrefix(r.path) + InOrder(SingleChild(r.focus)) + PathSuffix(r.path) == s[..i] + s[i + 1..] &&
      Root(r) == Root(Zipper(Rekey(z.focus, pred.key), z.path))
  {
    var n := z.focus;
    var pre, suf := PathPrefix(z.path), PathSuffix(z.path);
    PlugInOrder(n, z.path);
    var s := InOrder(Root(z));
    var pred := Rightmost(Down(z, Left)).focus;
    var z2 := Zipper(Rekey(n, pred.key), z.path);
    var d2 := Down(z2, Left);
    RightmostSameShape(Down(z, Left), d2);
    var r := Rightmost(d2);
    assert d2.path[1..] == z.path;
    assert PathPrefix(d2.path) == pre;
    assert PathSuffix(d2.path) == [pred.key] + InOrder(n.right) + suf;
    var mid := RightmostKeys(d2);
    var c := SingleChild(r.focus);
    assert InOrder(r.focus) == InOrder(c) + [pred.key];
    i := DropAfter(s, pre, InOrder(n.left), mid, InOrder(c), pred.key, n.key, InOrder(n.right), suf,
      PathPrefix(r.path), PathSuffix(r.path));
  }

  lemma DropAfter(s: seq<int>, pre: seq<int>, l: seq<int>, mid: seq<int>, c: seq<int>, x: int, k: int, rt: seq<int>, suf: seq<int>, p: seq<int>, q: seq<int>) returns (i: nat)
    requires s == pre + (l + [k] + rt) + suf && l == mid + (c + [x])
    requires p == pre + mid && q == [x] + rt + suf
    ensures i < |s| && s[i] == k && p + c + q == s[..i] + s[i + 1..]
  {
    i := |pre| + |l|;
    var a, b := pre + mid + c + [x], rt + suf;
    DropAfterSplit(s, pre, l, mid, c, x, k, rt, suf);
    RemoveAtConcat(a, k, b);
    DropAfterJoin(pre, mid, c, x, rt, suf);
  }

  lemma DropAfterSplit(s: seq<int>, pre: seq<int>, l: seq<int>, mid: seq<int>, c: seq<int>, x: int, k: int, rt: seq<int>, suf: seq<int>)
    requires s == pre + (l + [k] + rt) + suf && l == mid + (c + [x])
    ensures s == (pre + mid + c + [x]) + [k] + (rt + suf)
  {
  }

  lemma DropAfterJoin(pre: seq<int>, mid: seq<int>, c: seq<int>, x: int, rt: seq<int>, suf: seq<int>)
    ensures (pre + mid) + c + ([x] + rt + suf) == (pre + mid + c + [x]) + (rt + suf)
  {
  }

  /** Changing a key leaves the counts right. */
  lemma CountedKeyChange(z: Zipper, k: int)
    requires z.focus.Node? && Counted(Root(z))
    ensures Counted(Root(Zipper(Rekey(z.focus, k), z.path)))
  {
    PlugCounted(z.focus, z.path);
    PlugCounted(Rekey(z.focus, k), z.path);
  }

  /** What `preerase` leaves behind: when the key is present, the returned
      node `m` has at most one child, and removing `m`'s key from the tree as
      `preerase` left it gives the old symmetric order without one
      occurrence of `k`; the counts are untouched. */
  lemma PreeraseSpec(t: Tree, k: int)
    requires Sorted(InOrder(t)) && Counted(t)
    ensures Preerase(t, k).Absent? <==> k !in InOrder(t)
    ensures Preerase(t, k).Present? ==>
      var z := Preerase(t, k).node;
      Counted(Root(z)) &&
      PathPrefix(z.path) + InOrder(SingleChild(z.focus)) + PathSuffix(z.path) == RemoveOne(InOrder(t), k)
  {
    if t.Node? {
      var z := Find(Zipper(t, []), k);
      FindKeys(t, k);
      if z.focus.Leaf? {
        PreeraseMissing(t, k);
      } else {
        PreeraseFound(t, k);
      }
    }
  }

  /** The search splits the keys into those before, at and after where it
      stops. */
  lemma FindKeys(t: Tree, k: int)
    requires Sorted(InOrder(t))
    ensures var z := Find(Zipper(t, []), k);
      && InOrder(t) == PathPrefix(z.path) + InOrder(z.focus) + PathSuffix(z.path)
      && AllLt(PathPrefix(z.path), k) && AllGt(PathSuffix(z.path), k)
  {
    var z := Find(Zipper(t, []), k);
    FindSplits(Zipper(t, []), k);
    PlugInOrder(z.focus, z.path);
  }

  /** The search falls off the tree: the key is absent and `preerase` finds
      nothing. */
  lemma PreeraseMissing(t: Tree, k: int)
    requires t.Node? && Sorted(InOrder(t))
    requires Find(Zipper(t, []), k).focus.Leaf?
    ensures Preerase(t, k).Absent? && k !in InOrder(t)
  {
    FindMissing(t, k);
  }

  /** A search for `k` that falls off a search tree shows `k` is absent. */
  lemma FindMissing(t: Tree, k: int)
    requires Sorted(InOrder(t)) && Find(Zipper(t, []), k).focus.Leaf?
    ensures k !in InOrder(t)
  {
    var z := Find(Zipper(t, []), k);
    FindSplits(Zipper(t, []), k);
    PlugInOrder(z.focus, z.path);
    NotInSplit(InOrder(t), PathPrefix(z.path), PathSuffix(z.path), k);
  }

  /** The search stops at a node holding the key: `preerase` returns the
      node to remove. */
  lemma PreeraseFound(t: Tree, k: int)
    requires t.Node? && Sorted(InOrder(t)) && Counted(t)
    requires Find(Zipper(t, []), k).focus.Node?
    ensures Preerase(t, k).Present? && k in InOrder(t)
    ensures var z := Preerase(t, k).node;
      Counted(Root(z)) &&
      PathPrefix(z.path) + InOrder(SingleChild(z.focus)) + PathSuffix(z.path) == RemoveOne(InOrder(t), k)
  {
    var z := Find(Zipper(t, []), k);
    FindKeys(t, k);
    var pre, suf := PathPrefix(z.path), PathSuffix(z.path);
    var s := InOrder(t);
    InSplit(pre, z.focus, suf);
    assert Root(z) == t;
    if ChildCount(z.focus) <= 1 {
      PlugCounted(z.focus, z.path);
      PreeraseAtMostOne(s, pre, z.focus, suf, k);
    } else {
      PreeraseTwo(z, k);
    }
  }

  /** A key above everything on the left and below everything on the right
      is in neither part. */
  lemma NotInSplit(s: seq<int>, pre: seq<int>, suf: seq<int>, k: int)
    requires AllLt(pre, k) && AllGt(suf, k) && s == pre + suf
    ensures k !in s
  {
    forall i | 0 <= i < |s|
      ensures s[i] != k
    {
      if i < |pre| {
        assert s[i] == pre[i];
      } else {
        assert s[i] == suf[i - |pre|];
      }
    }
  }

  /** A node's key is among the keys of any sequence built around it. */
  lemma InSplit(pre: seq<int>, n: Tree, suf: seq<int>)
    requires n.Node?
    ensures n.key in pre + InOrder(n) + suf
  {
    var i := |pre| + |InOrder(n.left)|;
    assert (pre + InOrder(n) + suf)[i] == n.key;
  }

  /** The predecessor loop only looks at the shape, not the keys above. */
  lemma {:induction false} RightmostSameShape(a: Zipper, b: Zipper)
    requires a.focus.Node? && a.focus == b.focus && |a.path| == |b.path|
    ensures Rightmost(a).focus == Rightmost(b).focus
    ensures |Rightmost(a).path| - |a.path| == |Rightmost(b).path| - |b.path|
    decreases a.focus
  {
    if a.focus.right.Node? {
      RightmostSameShape(Down(a, Right), Down(b, Right));
    }
  }

  // ---------------------------------------------------------------------------
  // erase and clear of the plain search tree
  // ---------------------------------------------------------------------------

  /** What an erase does: it fails (the assertion in `direction_from_parent`,
      or a null dereference when assertions are off), or it returns the new
      tree and the number of removed keys. */
  datatype Outcome = Crash | Done(tree: Tree, erased: nat)

  /** `btree_container::erase`: `preerase`, then `replace_with_child`. As
      written, its first step asks the node for its direction from its
      parent and so fails on the root; with `asWritten` false the root
      branch that `replace_with_child` already has runs instead, and the
      single child (or nothing) becomes the root. */
  function BstErase(t: Tree, k: int, asWritten: bool): (r: Outcome)
    ensures r.Crash? <==> asWritten && Preerase(t, k).Present? && Preerase(t, k).node.path == []
  {
    match Preerase(t, k)
    case Absent => Done(t, 0)
    case Present(z) =>
      if z.path == [] then
        if asWritten then Crash else Done(SingleChild(z.focus), 1)
      else Done(Root(ReplaceWithChild(z)), 1)
  }

  /** The corrected `erase` removes one occurrence of the key and keeps the
      order and the counts; the code as written, when it does not fail,
      gives the same result. For an absent key both return 0 and leave the
      tree as it was. */
  lemma BstEraseSpec(t: Tree, k: int)
    requires Sorted(InOrder(t)) && Counted(t)
    ensures BstErase(t, k, false).Done?
    ensures var r := BstErase(t, k, false);
      InOrder(r.tree) == RemoveOne(InOrder(t), k) && Counted(r.tree) &&
      r.erased == (if k in InOrder(t) then 1 else 0)
    ensures BstErase(t, k, true).Done? ==> BstErase(t, k, true) == BstErase(t, k, false)
    ensures k !in InOrder(t) ==> BstErase(t, k, true) == BstErase(t, k, false) == Done(t, 0)
  {
    PreeraseSpec(t, k);
    if Preerase(t, k).Present? {
      var z := Preerase(t, k).node;
      if z.path != [] {
        ReplaceWithChildKeys(z);
      }
    }
  }

  /** Erasing the only key: the code as written fails; corrected, the tree
      becomes empty. */
  lemma BstEraseRootFails(k: int)
    ensures BstErase(Node(Black, Leaf, k, Leaf, 1), k, true) == Crash
    ensures BstErase(Node(Black, Leaf, k, Leaf, 1), k, false) == Done(Leaf, 1)
  {
    var t := Node(Black, Leaf, k, Leaf, 1);
    assert Find(Zipper(t, []), k) == Zipper(t, []);
  }
}
