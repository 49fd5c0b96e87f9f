/** A lazy-propagation segment tree (src/comp/segtree.h), instantiated as in
    the repository's test: `int` values, `+` as the query operation and an
    additive update (`add_op`).

    The source keeps the nodes in two heap-ordered arrays, node `i` having
    children `2i+1` and `2i+2`. Here a node is a datatype value holding its
    `m_tree` and `m_lazy` entries and its children; the node's range
    [lo, hi] is not stored but passed down as in the source's recursion (its `from` and `to`).
    `SegmentBounds` relates the recursion to the array indices. Every
    operation that mutates the arrays (including `query`, which pushes pending
    updates down) returns the new tree. */
module SegTree {

  datatype Seg =
    | Leaf(val: int, lazy: int)
    | Node(val: int, lazy: int, left: Seg, right: Seg)

  /** `from + (to - from) / 2`; the operands are non-negative, so C++ and
      Dafny division agree. */
  function Mid(lo: int, hi: int): int {
    lo + (hi - lo) / 2
  }

  // ---------------------------------------------------------------------------
  // The test's update operation
  // ---------------------------------------------------------------------------

  /** `add_op::is_null`. */
  predicate IsNull(op: int) {
    op == 0
  }

  /** `add_op::apply`: a range of `len` elements each gaining `op`. */
  function Apply(op: int, prev: int, len: int): int {
    prev + len * op
  }

  /** `operator+ (add_op, add_op)`: stacking two pending updates. */
  function Compose(a: int, b: int): int {
    a + b
  }

  // ---------------------------------------------------------------------------
  // Shape, node invariant and the abstract array
  // ---------------------------------------------------------------------------

  /** The value a node stands for once its own pending update is applied. */
  function Actual(t: Seg, len: int): int {
    Apply(t.lazy, t.val, len)
  }

  /** The tree built over [lo, hi]: a leaf for a one-element range, else a
      node split at `Mid`, and every node's value is the sum of its children's
      actual values. */
  predicate Valid(t: Seg, lo: int, hi: int)
    decreases hi - lo
  {
    lo <= hi &&
    if lo == hi then t.Leaf?
    else
      var mid := Mid(lo, hi);
      t.Node? && Valid(t.left, lo, mid) && Valid(t.right, mid + 1, hi) &&
      t.val == Actual(t.left, mid - lo + 1) + Actual(t.right, hi - mid)
  }

  /** The elements below a node, `acc` being the updates pending above it. */
  function Elements(t: Seg, acc: int): seq<int> {
    match t
    case Leaf(v, lz) => [v + lz + acc]
    case Node(_, lz, l, r) => Elements(l, acc + lz) + Elements(r, acc + lz)
  }

  function Sum(s: seq<int>): int {
    if s == [] then 0 else Sum(s[..|s| - 1]) + s[|s| - 1]
  }

  /** Sum of the elements of `e` (element k at position base + k) whose
      position lies in [l, r]. */
  function RangeSum(e: seq<int>, base: int, l: int, r: int): int {
    if e == [] then 0
    else
      var p := base + |e| - 1;
      RangeSum(e[..|e| - 1], base, l, r) + (if l <= p <= r then e[|e| - 1] else 0)
  }

  /** `e` with `v` added to the elements at positions in [l, r]. */
  function AddRange(e: seq<int>, base: int, l: int, r: int, v: int): (s: seq<int>)
    ensures |s| == |e|
  {
    seq(|e|, k requires 0 <= k < |e| => e[k] + (if l <= base + k <= r then v else 0))
  }

  lemma {:induction false} ElementsLength(t: Seg, lo: int, hi: int, acc: int)
    requires Valid(t, lo, hi)
    ensures |Elements(t, acc)| == hi - lo + 1
    decreases hi - lo
  {
    if lo < hi {
      var mid := Mid(lo, hi);
      ElementsLength(t.left, lo, mid, acc + t.lazy);
      ElementsLength(t.right, mid + 1, hi, acc + t.lazy);
    }
  }

  /** A pending update above a node adds to each of its elements. */
  lemma {:induction false} ElementsShift(t: Seg, acc: int, v: int)
    ensures Elements(t, acc + v) == seq(|Elements(t, acc)|, k requires 0 <= k < |Elements(t, acc)| => Elements(t, acc)[k] + v)
  {
    match t
    case Leaf(_, _) =>
    case Node(_, lz, l, r) =>
      ElementsShift(l, acc + lz, v);
      ElementsShift(r, acc + lz, v);
      assert acc + v + lz == acc + lz + v;
  }

  /** The elements of a valid node add up to its actual value plus the
      updates pending above it. */
  lemma {:induction false} ElementsSum(t: Seg, lo: int, hi: int, acc: int)
    requires Valid(t, lo, hi)
    ensures Sum(Elements(t, acc)) == Actual(t, hi - lo + 1) + acc * (hi - lo + 1)
    decreases hi - lo
  {
    if lo < hi {
      var mid := Mid(lo, hi);
      Children(t, lo, hi);
      var a := acc + t.lazy;
      var el, er := Elements(t.left, a), Elements(t.right, a);
      assert Elements(t, acc) == el + er;
      ElementsSum(t.left, lo, mid, a);
      ElementsSum(t.right, mid + 1, hi, a);
      SumAppend(el, er);
      SumArith(Sum(el), Sum(er), Actual(t.left, mid - lo + 1), Actual(t.right, hi - mid), t.val, t.lazy, acc,
        mid - lo + 1, hi - mid, hi - lo + 1);
    }
  }

  lemma SumArith(sl: int, sr: int, al: int, ar: int, val: int, lz: int, acc: int, n1: int, n2: int, n: int)
    requires sl == al + (acc + lz) * n1 && sr == ar + (acc + lz) * n2 && val == al + ar && n == n1 + n2
    ensures sl + sr == val + n * lz + acc * n
  {
  }

  /** Adding `op` to both children adds `n1 * op + n2 * op` to their sum. */
  lemma AddScaled(val: int, op: int, n1: int, n2: int)
    ensures val + n1 * op + n2 * op == val + (n1 + n2) * op
  {
  }

  lemma {:induction false} SumAppend(a: seq<int>, b: seq<int>)
    ensures Sum(a + b) == Sum(a) + Sum(b)
    decreases |b|
  {
    if b != [] {
      var ab := a + b;
      assert ab[..|ab| - 1] == a + b[..|b| - 1];
      assert ab[|ab| - 1] == b[|b| - 1];
      SumAppend(a, b[..|b| - 1]);
    } else {
      assert a + b == a;
    }
  }

  lemma {:induction false} RangeSumAppend(e1: seq<int>, e2: seq<int>, base: int, l: int, r: int)
    ensures RangeSum(e1 + e2, base, l, r) == RangeSum(e1, base, l, r) + RangeSum(e2, base + |e1|, l, r)
    decreases |e2|
  {
    if e2 != [] {
      var e := e1 + e2;
      assert e[..|e| - 1] == e1 + e2[..|e2| - 1];
      assert e[|e| - 1] == e2[|e2| - 1];
      assert base + |e| - 1 == base + |e1| + |e2| - 1;
      RangeSumAppend(e1, e2[..|e2| - 1], base, l, r);
    } else {
      assert e1 + e2 == e1;
    }
  }

  /** No position of `e` in [l, r]: nothing is summed. */
  lemma {:induction false} RangeSumDisjoint(e: seq<int>, base: int, l: int, r: int)
    requires l > base + |e| - 1 || r < base
    ensures RangeSum(e, base, l, r) == 0
  {
    if e != [] {
      RangeSumDisjoint(e[..|e| - 1], base, l, r);
    }
  }

  /** Every position of `e` in [l, r]: everything is summed. */
  lemma {:induction false} RangeSumCovered(e: seq<int>, base: int, l: int, r: int)
    requires l <= base && base + |e| - 1 <= r
    ensures RangeSum(e, base, l, r) == Sum(e)
  {
    if e != [] {
      RangeSumCovered(e[..|e| - 1], base, l, r);
    }
  }

  lemma AddRangeAppend(e1: seq<int>, e2: seq<int>, base: int, l: int, r: int, v: int)
    ensures AddRange(e1 + e2, base, l, r, v) == AddRange(e1, base, l, r, v) + AddRange(e2, base + |e1|, l, r, v)
  {
  }

  // ---------------------------------------------------------------------------
  // construct
  // ---------------------------------------------------------------------------

  /** `construct`: a leaf takes `initial_data[from]`; an internal node starts
      from the zero-initialised slot and adds both children's results. */
  function Construct(data: seq<int>, lo: int, hi: int): (t: Seg)
    requires 0 <= lo <= hi < |data|
    ensures Valid(t, lo, hi) && t.lazy == 0
    ensures Elements(t, 0) == data[lo..hi + 1]
    decreases hi - lo
  {
    if lo == hi then Leaf(data[lo], 0)
    else
      var mid := Mid(lo, hi);
      var l := Construct(data, lo, mid);
      var r := Construct(data, mid + 1, hi);
      assert data[lo..hi + 1] == data[lo..mid + 1] + data[mid + 1..hi + 1];
      Node(0 + l.val + r.val, 0, l, r)
  }

  // ---------------------------------------------------------------------------
  // update_lazy
  // ---------------------------------------------------------------------------

  /** A child receiving its parent's pending update. */
  function Push(t: Seg, op: int): (r: Seg)
    ensures forall acc :: Elements(r, acc) == Elements(t, acc + op)
  {
    t.(lazy := Compose(t.lazy, op))
  }

  lemma PushValid(t: Seg, op: int, lo: int, hi: int)
    requires Valid(t, lo, hi)
    ensures Valid(Push(t, op), lo, hi)
    ensures Actual(Push(t, op), hi - lo + 1) == Actual(t, hi - lo + 1) + (hi - lo + 1) * op
  {
    var n := hi - lo + 1;
    assert n * (t.lazy + op) == n * t.lazy + n * op;
  }

  /** `update_lazy`: a pending update is applied to the node's value and, for
      an internal node, stacked onto both children; then it is cleared. */
  function UpdateLazy(t: Seg, lo: int, hi: int): (r: Seg)
    requires Valid(t, lo, hi)
    ensures Valid(r, lo, hi) && r.lazy == 0
    ensures r.val == Actual(t, hi - lo + 1)
    ensures forall acc :: Elements(r, acc) == Elements(t, acc)
  {
    if IsNull(t.lazy) then t
    else if lo == hi then Leaf(Apply(t.lazy, t.val, hi - lo + 1), 0)
    else
      PushDown(t, lo, hi);
      Node(Apply(t.lazy, t.val, hi - lo + 1), 0, Push(t.left, t.lazy), Push(t.right, t.lazy))
  }

  /** An internal node's pending update applied to its value and stacked onto
      both children: the node stays valid and stands for the same elements. */
  lemma PushDown(t: Seg, lo: int, hi: int)
    requires lo < hi && Valid(t, lo, hi)
    ensures var r := Node(Apply(t.lazy, t.val, hi - lo + 1), 0, Push(t.left, t.lazy), Push(t.right, t.lazy));
      Valid(r, lo, hi) && forall acc :: Elements(r, acc) == Elements(t, acc)
  {
    var mid := Mid(lo, hi);
    PushValid(t.left, t.lazy, lo, mid);
    PushValid(t.right, t.lazy, mid + 1, hi);
    AddScaled(t.val, t.lazy, mid - lo + 1, hi - mid);
    var r := Node(Apply(t.lazy, t.val, hi - lo + 1), 0, Push(t.left, t.lazy), Push(t.right, t.lazy));
    forall acc
      ensures Elements(r, acc) == Elements(t, acc)
    {
      assert Elements(r, acc) == Elements(t.left, acc + t.lazy) + Elements(t.right, acc + t.lazy);
    }
  }

  // ---------------------------------------------------------------------------
  // query_impl / query
  // ---------------------------------------------------------------------------

  /** `query_impl`: after `update_lazy`, a node outside [reqFrom, reqTo]
      yields `ValueType{}` (0), a node inside yields its value, and any other
      node yields `0 + left + right`. Returns the result and the tree with the
      pending updates pushed down. */
  function QueryImpl(t: Seg, reqFrom: int, reqTo: int, lo: int, hi: int): (res: (int, Seg))
    requires Valid(t, lo, hi)
    ensures Valid(res.1, lo, hi) && res.1.lazy == 0
    ensures Elements(res.1, 0) == Elements(t, 0)
    ensures res.0 == RangeSum(Elements(t, 0), lo, reqFrom, reqTo)
    decreases hi - lo, 1
  {
    var t1 := UpdateLazy(t, lo, hi);
    if lo > hi || reqFrom > hi || reqTo < lo then
      ElementsLength(t, lo, hi, 0);
      RangeSumDisjoint(Elements(t, 0), lo, reqFrom, reqTo);
      (0, t1)
    else if reqFrom <= lo && reqTo >= hi then
      QueryCovered(t, t1, reqFrom, reqTo, lo, hi);
      (t1.val, t1)
    else
      QueryStraddling(t1, reqFrom, reqTo, lo, hi)
  }

  /** The last branch of `query_impl`, on a node whose pending update is
      already pushed down: `0 + left + right` over the two halves, and the
      node rebuilt from its children's pushed-down versions. */
  function QueryStraddling(t1: Seg, reqFrom: int, reqTo: int, lo: int, hi: int): (res: (int, Seg))
    requires lo < hi && Valid(t1, lo, hi) && t1.lazy == 0
    ensures Valid(res.1, lo, hi) && res.1.lazy == 0
    ensures Elements(res.1, 0) == Elements(t1, 0)
    ensures res.0 == RangeSum(Elements(t1, 0), lo, reqFrom, reqTo)
    decreases hi - lo, 0
  {
    var mid := Mid(lo, hi);
    Children(t1, lo, hi);
    var left := QueryImpl(t1.left, reqFrom, reqTo, lo, mid);
    var right := QueryImpl(t1.right, reqFrom, reqTo, mid + 1, hi);
    QueryNode(t1, left.0, left.1, right.0, right.1, reqFrom, reqTo, lo, hi);
    (0 + left.0 + right.0, Node(t1.val, 0, left.1, right.1))
  }

  /** The children of a valid internal node are valid over the two halves. */
  lemma Children(t: Seg, lo: int, hi: int)
    requires lo < hi && Valid(t, lo, hi)
    ensures t.Node? && Valid(t.left, lo, Mid(lo, hi)) && Valid(t.right, Mid(lo, hi) + 1, hi)
  {
  }

  /** A node straddling the request: its answer is the sum of its children's,
      and it is rebuilt from their pushed-down versions. */
  lemma QueryNode(t1: Seg, a: int, l: Seg, b: int, r: Seg, reqFrom: int, reqTo: int, lo: int, hi: int)
    requires lo < hi && Valid(t1, lo, hi) && t1.lazy == 0
    requires Valid(l, lo, Mid(lo, hi)) && l.lazy == 0 && Elements(l, 0) == Elements(t1.left, 0)
    requires Valid(r, Mid(lo, hi) + 1, hi) && r.lazy == 0 && Elements(r, 0) == Elements(t1.right, 0)
    requires a == RangeSum(Elements(t1.left, 0), lo, reqFrom, reqTo)
    requires b == RangeSum(Elements(t1.right, 0), Mid(lo, hi) + 1, reqFrom, reqTo)
    ensures Valid(Node(t1.val, 0, l, r), lo, hi)
    ensures Elements(Node(t1.val, 0, l, r), 0) == Elements(t1, 0)
    ensures 0 + a + b == RangeSum(Elements(t1, 0), lo, reqFrom, reqTo)
  {
    QuerySplit(t1, t1, a, b, reqFrom, reqTo, lo, hi);
    Rebuild(t1, l, r, lo, hi);
  }

  /** A node inside the request answers with its value. */
  lemma QueryCovered(t: Seg, t1: Seg, reqFrom: int, reqTo: int, lo: int, hi: int)
    requires Valid(t, lo, hi) && reqFrom <= lo && hi <= reqTo
    requires t1.val == Actual(t, hi - lo + 1)
    ensures t1.val == RangeSum(Elements(t, 0), lo, reqFrom, reqTo)
  {
    ElementsLength(t, lo, hi, 0);
    RangeSumCovered(Elements(t, 0), lo, reqFrom, reqTo);
    ElementsSum(t, lo, hi, 0);
  }

  /** A node straddling the request adds its children's answers. */
  lemma QuerySplit(t: Seg, t1: Seg, a: int, b: int, reqFrom: int, reqTo: int, lo: int, hi: int)
    requires lo < hi && Valid(t1, lo, hi) && t1.lazy == 0
    requires Elements(t1, 0) == Elements(t, 0)
    requires a == RangeSum(Elements(t1.left, 0), lo, reqFrom, reqTo)
    requires b == RangeSum(Elements(t1.right, 0), Mid(lo, hi) + 1, reqFrom, reqTo)
    ensures 0 + a + b == RangeSum(Elements(t, 0), lo, reqFrom, reqTo)
  {
    var mid := Mid(lo, hi);
    ElementsLength(t1.left, lo, mid, 0);
    RangeSplit(Elements(t, 0), Elements(t1.left, 0), Elements(t1.right, 0), lo, mid, reqFrom, reqTo);
  }

  /** Replacing the children of a node by valid ones with the same elements
      keeps the node valid and its elements unchanged. */
  lemma Rebuild(t1: Seg, l: Seg, r: Seg, lo: int, hi: int)
    requires lo < hi && Valid(t1, lo, hi) && t1.lazy == 0
    requires Valid(l, lo, Mid(lo, hi)) && l.lazy == 0 && Elements(l, 0) == Elements(t1.left, 0)
    requires Valid(r, Mid(lo, hi) + 1, hi) && r.lazy == 0 && Elements(r, 0) == Elements(t1.right, 0)
    ensures Valid(Node(t1.val, 0, l, r), lo, hi)
    ensures Elements(Node(t1.val, 0, l, r), 0) == Elements(t1, 0)
  {
    var mid := Mid(lo, hi);
    SameElementsSameValue(l, t1.left, lo, mid);
    SameElementsSameValue(r, t1.right, mid + 1, hi);
    NodeValid(t1.val, l, r, lo, hi);
  }

  lemma RangeSplit(e: seq<int>, el: seq<int>, er: seq<int>, lo: int, mid: int, reqFrom: int, reqTo: int)
    requires e == el + er && |el| == mid - lo + 1
    ensures RangeSum(e, lo, reqFrom, reqTo) == RangeSum(el, lo, reqFrom, reqTo) + RangeSum(er, mid + 1, reqFrom, reqTo)
  {
    RangeSumAppend(el, er, lo, reqFrom, reqTo);
  }

  /** A node with valid children whose value is their sum is valid. */
  lemma NodeValid(val: int, l: Seg, r: Seg, lo: int, hi: int)
    requires lo < hi && Valid(l, lo, Mid(lo, hi)) && Valid(r, Mid(lo, hi) + 1, hi)
    requires val == Actual(l, Mid(lo, hi) - lo + 1) + Actual(r, hi - Mid(lo, hi))
    ensures Valid(Node(val, 0, l, r), lo, hi)
  {
  }

  /** Two valid nodes over one range with the same elements stand for the
      same value. */
  lemma SameElementsSameValue(t: Seg, u: Seg, lo: int, hi: int)
    requires Valid(t, lo, hi) && Valid(u, lo, hi) && Elements(t, 0) == Elements(u, 0)
    ensures Actual(t, hi - lo + 1) == Actual(u, hi - lo + 1)
  {
    ElementsSum(t, lo, hi, 0);
    ElementsSum(u, lo, hi, 0);
  }

  // ---------------------------------------------------------------------------
  // update_impl / update
  // ---------------------------------------------------------------------------

  /** `update_impl`: after `update_lazy`, a node outside [updFrom, updTo] is
      left alone; a node inside takes `op` at once and stacks it onto its
      children; any other node recurses and recomputes its value from its
      children. */
  function UpdateImpl(t: Seg, updFrom: int, updTo: int, op: int, lo: int, hi: int): (r: Seg)
    requires Valid(t, lo, hi)
    ensures Valid(r, lo, hi) && r.lazy == 0
    ensures Elements(r, 0) == AddRange(Elements(t, 0), lo, updFrom, updTo, op)
    decreases hi - lo, 1
  {
    var t1 := UpdateLazy(t, lo, hi);
    if lo > hi || updFrom > hi || updTo < lo then
      ElementsLength(t, lo, hi, 0);
      assert Elements(t, 0) == AddRange(Elements(t, 0), lo, updFrom, updTo, op);
      t1
    else if updFrom <= lo && hi <= updTo then
      if lo == hi then
        Leaf(Apply(op, t1.val, hi - lo + 1), 0)
      else
        UpdateCovered(t, t1, updFrom, updTo, op, lo, hi);
        Node(Apply(op, t1.val, hi - lo + 1), 0, Push(t1.left, op), Push(t1.right, op))
    else
      UpdateStraddling(t1, updFrom, updTo, op, lo, hi)
  }

  /** The last branch of `update_impl`, on a node whose pending update is
      already pushed down: both halves are updated and the node's value
      recomputed from theirs. */
  function UpdateStraddling(t1: Seg, updFrom: int, updTo: int, op: int, lo: int, hi: int): (r: Seg)
    requires lo < hi && Valid(t1, lo, hi) && t1.lazy == 0
    ensures Valid(r, lo, hi) && r.lazy == 0
    ensures Elements(r, 0) == AddRange(Elements(t1, 0), lo, updFrom, updTo, op)
    decreases hi - lo, 0
  {
    var mid := Mid(lo, hi);
    Children(t1, lo, hi);
    var l := UpdateImpl(t1.left, updFrom, updTo, op, lo, mid);
    var r := UpdateImpl(t1.right, updFrom, updTo, op, mid + 1, hi);
    UpdateSplit(t1, t1, l, r, updFrom, updTo, op, lo, hi);
    Node(l.val + r.val, 0, l, r)
  }

  /** An internal node inside the update range takes the whole update and
      hands it on to its children. */
  lemma UpdateCovered(t: Seg, t1: Seg, updFrom: int, updTo: int, op: int, lo: int, hi: int)
    requires lo < hi && updFrom <= lo && hi <= updTo
    requires Valid(t1, lo, hi) && t1.lazy == 0 && Elements(t1, 0) == Elements(t, 0)
    ensures var r := Node(Apply(op, t1.val, hi - lo + 1), 0, Push(t1.left, op), Push(t1.right, op));
      Valid(r, lo, hi) && Elements(r, 0) == AddRange(Elements(t, 0), lo, updFrom, updTo, op)
  {
    CoveredValid(t1, op, lo, hi);
    CoveredElements(t1, Apply(op, t1.val, hi - lo + 1), updFrom, updTo, op, lo, hi);
  }

  /** Taking `op` at a node and pushing it onto both children keeps the node
      invariant. */
  lemma CoveredValid(t1: Seg, op: int, lo: int, hi: int)
    requires lo < hi && Valid(t1, lo, hi) && t1.lazy == 0
    ensures Valid(Node(Apply(op, t1.val, hi - lo + 1), 0, Push(t1.left, op), Push(t1.right, op)), lo, hi)
  {
    var mid := Mid(lo, hi);
    PushValid(t1.left, op, lo, mid);
    PushValid(t1.right, op, mid + 1, hi);
    AddScaled(t1.val, op, mid - lo + 1, hi - mid);
  }

  /** Pushing `op` onto both children adds it to every element below. */
  lemma CoveredElements(t1: Seg, val: int, updFrom: int, updTo: int, op: int, lo: int, hi: int)
    requires lo < hi && updFrom <= lo && hi <= updTo && Valid(t1, lo, hi) && t1.lazy == 0
    ensures Elements(Node(val, 0, Push(t1.left, op), Push(t1.right, op)), 0)
      == AddRange(Elements(t1, 0), lo, updFrom, updTo, op)
  {
    var mid := Mid(lo, hi);
    var el, er := Elements(t1.left, 0), Elements(t1.right, 0);
    ElementsShift(t1.left, 0, op);
    ElementsShift(t1.right, 0, op);
    assert Elements(Node(val, 0, Push(t1.left, op), Push(t1.right, op)), 0) == Shift(el, op) + Shift(er, op);
    ElementsLength(t1.left, lo, mid, 0);
    ElementsLength(t1.right, mid + 1, hi, 0);
    ShiftAppend(el, er, op);
    AddRangeCovering(el + er, lo, updFrom, updTo, op);
  }

  /** Every element raised by `v`. */
  function Shift(e: seq<int>, v: int): (s: seq<int>)
    ensures |s| == |e| && forall k :: 0 <= k < |e| ==> s[k] == e[k] + v
  {
    seq(|e|, k requires 0 <= k < |e| => e[k] + v)
  }

  lemma ShiftAppend(e1: seq<int>, e2: seq<int>, v: int)
    ensures Shift(e1 + e2, v) == Shift(e1, v) + Shift(e2, v)
  {
  }

  /** An update range covering every position raises every element. */
  lemma AddRangeCovering(e: seq<int>, base: int, l: int, r: int, v: int)
    requires l <= base && base + |e| <= r + 1
    ensures AddRange(e, base, l, r, v) == Shift(e, v)
  {
  }

  /** A node straddling the update range recomputes its value from its
      updated children. */
  lemma UpdateSplit(t: Seg, t1: Seg, l: Seg, r: Seg, updFrom: int, updTo: int, op: int, lo: int, hi: int)
    requires lo < hi && Valid(t1, lo, hi) && t1.lazy == 0
    requires Elements(t1, 0) == Elements(t, 0)
    requires Valid(l, lo, Mid(lo, hi)) && l.lazy == 0
    requires Elements(l, 0) == AddRange(Elements(t1.left, 0), lo, updFrom, updTo, op)
    requires Valid(r, Mid(lo, hi) + 1, hi) && r.lazy == 0
    requires Elements(r, 0) == AddRange(Elements(t1.right, 0), Mid(lo, hi) + 1, updFrom, updTo, op)
    ensures Valid(Node(l.val + r.val, 0, l, r), lo, hi)
    ensures Elements(Node(l.val + r.val, 0, l, r), 0) == AddRange(Elements(t, 0), lo, updFrom, updTo, op)
  {
    var mid := Mid(lo, hi);
    ElementsLength(t1.left, lo, mid, 0);
    AddRangeAppend(Elements(t1.left, 0), Elements(t1.right, 0), lo, updFrom, updTo, op);
  }

  // ---------------------------------------------------------------------------
  // The public interface
  // ---------------------------------------------------------------------------

  datatype SegmentTree = SegmentTree(n: int, root: Seg)

  predicate TreeValid(st: SegmentTree) {
    st.n >= 1 && Valid(st.root, 0, st.n - 1)
  }

  /** The abstract array the tree stands for. */
  function Contents(st: SegmentTree): seq<int>
    requires TreeValid(st)
  {
    Elements(st.root, 0)
  }

  /** The constructor (`init`): `m_n` is the input size and the nodes are
      built over [0, n - 1]. */
  function Init(data: seq<int>): (st: SegmentTree)
    requires |data| >= 1
    ensures TreeValid(st) && st.n == |data|
    ensures Contents(st) == data
  {
    assert data[0..|data|] == data;
    SegmentTree(|data|, Construct(data, 0, |data| - 1))
  }

  /** `query (from, to)`: the sum of the elements at positions in
      [lo, hi]; the abstract array is unchanged. */
  function Query(st: SegmentTree, lo: int, hi: int): (res: (int, SegmentTree))
    requires TreeValid(st)
    ensures TreeValid(res.1) && res.1.n == st.n
    ensures Contents(res.1) == Contents(st)
    ensures res.0 == RangeSum(Contents(st), 0, lo, hi)
  {
    var (v, root) := QueryImpl(st.root, lo, hi, 0, st.n - 1);
    (v, SegmentTree(st.n, root))
  }

  /** `update (from, to, op)`: `op` is added to every element at a position in
      [lo, hi]; every other element is unchanged. */
  function Update(st: SegmentTree, lo: int, hi: int, op: int): (r: SegmentTree)
    requires TreeValid(st)
    ensures TreeValid(r) && r.n == st.n
    ensures |Contents(r)| == |Contents(st)|
    ensures forall k :: 0 <= k < |Contents(st)| ==>
      Contents(r)[k] == Contents(st)[k] + (if lo <= k <= hi then op else 0)
  {
    SegmentTree(st.n, UpdateImpl(st.root, lo, hi, op, 0, st.n - 1))
  }

  /** Reference: the sum of `a[lo..hi]`, clipped to the array. */
  lemma RangeSumIsSliceSum(a: seq<int>, lo: int, hi: int)
    requires 0 <= lo <= hi < |a|
    ensures RangeSum(a, 0, lo, hi) == Sum(a[lo..hi + 1])
  {
    assert a == a[..lo] + a[lo..hi + 1] + a[hi + 1..];
    RangeSumAppend(a[..lo] + a[lo..hi + 1], a[hi + 1..], 0, lo, hi);
    RangeSumAppend(a[..lo], a[lo..hi + 1], 0, lo, hi);
    RangeSumDisjoint(a[..lo], 0, lo, hi);
    RangeSumCovered(a[lo..hi + 1], lo, lo, hi);
    RangeSumDisjoint(a[hi + 1..], hi + 1, lo, hi);
  }

  // ---------------------------------------------------------------------------
  // Array indices
  // ---------------------------------------------------------------------------

  function Pow2(k: nat): nat {
    if k == 0 then 1 else 2 * Pow2(k - 1)
  }

  /** The array slots the construction recursion visits from node `index`
      over [lo, hi]; `query_impl` and `update_impl` follow the same
      recursion and stop early, so they visit a subset. */
  function Visited(lo: int, hi: int, index: int): set<int>
    requires lo <= hi
    decreases hi - lo
  {
    if lo == hi then {index}
    else
      var mid := Mid(lo, hi);
      {index} + Visited(lo, mid, 2 * index + 1) + Visited(mid + 1, hi, 2 * index + 2)
  }

  /** A node at depth d (index in [2^d - 1, 2^(d+1) - 2]) whose range has at
      most 2^j elements only leads to slots below 2^(d+j+1) - 1. */
  lemma {:induction false} VisitedBelow(lo: int, hi: int, index: int, d: nat, j: nat, i: int)
    requires lo <= hi && hi - lo + 1 <= Pow2(j)
    requires Pow2(d) - 1 <= index <= 2 * Pow2(d) - 2
    requires i in Visited(lo, hi, index)
    ensures 0 <= i < 2 * Pow2(d + j) - 1
    decreases hi - lo
  {
    PowMono(d, d + j);
    if lo < hi && i != index {
      var mid := Mid(lo, hi);
      var j' := j - 1;
      assert Pow2(j) == 2 * Pow2(j');
      HalfBounds(lo, hi, Pow2(j'));
      ChildIndex(index, d);
      var d' := d + 1;
      assert Pow2(d' + j') == Pow2(d + j) by {
        assert d' + j' == d + j;
      }
      if i in Visited(lo, mid, 2 * index + 1) {
        VisitedBelow(lo, mid, 2 * index + 1, d', j', i);
      } else {
        VisitedBelow(mid + 1, hi, 2 * index + 2, d', j', i);
      }
    }
  }

  /** The children of a node at depth d are at depth d + 1. */
  lemma ChildIndex(index: int, d: nat)
    requires Pow2(d) - 1 <= index <= 2 * Pow2(d) - 2
    ensures Pow2(d + 1) - 1 <= 2 * index + 1 && 2 * index + 2 <= 2 * Pow2(d + 1) - 2
  {
    assert Pow2(d + 1) == 2 * Pow2(d);
  }

  /** Both halves of a range of at most 2p elements have at most p. */
  lemma HalfBounds(lo: int, hi: int, p: int)
    requires lo < hi && hi - lo + 1 <= 2 * p
    ensures lo <= Mid(lo, hi) < hi && Mid(lo, hi) - lo + 1 <= p && hi - Mid(lo, hi) <= p
  {
  }

  lemma {:induction false} PowMono(a: nat, b: nat)
    requires a <= b
    ensures Pow2(a) <= Pow2(b)
    decreases b
  {
    if a < b {
      PowMono(a, b - 1);
    }
  }

  /** For n >= 1 and any 2^k >= n (the source takes the least such k) every
      slot the recursion over [0, n - 1] touches is below the array size
      2^(k+1) - 1, the size `init` gives both arrays. */
  lemma SegmentBounds(n: int, k: nat, i: int)
    requires n >= 1 && n <= Pow2(k) && i in Visited(0, n - 1, 0)
    ensures 0 <= i < 2 * Pow2(k) - 1
  {
    VisitedBelow(0, n - 1, 0, 0, k, i);
  }

  // ---------------------------------------------------------------------------
  // The repository's test
  // ---------------------------------------------------------------------------

  /** The elements of a five-element array summed over [l, r]. */
  lemma RangeSumOfFive(x0: int, x1: int, x2: int, x3: int, x4: int, l: int, r: int)
    ensures RangeSum([x0, x1, x2, x3, x4], 0, l, r) ==
      (if l <= 0 <= r then x0 else 0) + (if l <= 1 <= r then x1 else 0) + (if l <= 2 <= r then x2 else 0) +
      (if l <= 3 <= r then x3 else 0) + (if l <= 4 <= r then x4 else 0)
  {
    var e := [x0, x1, x2, x3, x4];
    assert e[..4] == [x0, x1, x2, x3];
    assert e[..4][..3] == [x0, x1, x2];
    assert e[..4][..3][..2] == [x0, x1];
    assert e[..4][..3][..2][..1] == [x0];
    assert e[..4][..3][..2][..1][..0] == [];
    assert RangeSum([x0], 0, l, r) == (if l <= 0 <= r then x0 else 0);
    assert RangeSum([x0, x1], 0, l, r) == RangeSum([x0], 0, l, r) + (if l <= 1 <= r then x1 else 0);
    assert RangeSum([x0, x1, x2], 0, l, r) == RangeSum([x0, x1], 0, l, r) + (if l <= 2 <= r then x2 else 0);
    assert RangeSum([x0, x1, x2, x3], 0, l, r) == RangeSum([x0, x1, x2], 0, l, r) + (if l <= 3 <= r then x3 else 0);
  }

  /** A five-element array with `v` added over [l, r]. */
  lemma AddRangeOfFive(x0: int, x1: int, x2: int, x3: int, x4: int, l: int, r: int, v: int)
    ensures AddRange([x0, x1, x2, x3, x4], 0, l, r, v) ==
      [x0 + (if l <= 0 <= r then v else 0), x1 + (if l <= 1 <= r then v else 0), x2 + (if l <= 2 <= r then v else 0),
       x3 + (if l <= 3 <= r then v else 0), x4 + (if l <= 4 <= r then v else 0)]
  {
  }

  /** `update` leaves the contents equal to `AddRange` of the old ones. */
  lemma UpdateContents(st: SegmentTree, lo: int, hi: int, op: int)
    requires TreeValid(st)
    ensures Contents(Update(st, lo, hi, op)) == AddRange(Contents(st), 0, lo, hi, op)
  {
    var a, b := Contents(Update(st, lo, hi, op)), AddRange(Contents(st), 0, lo, hi, op);
    forall k | 0 <= k < |a|
      ensures a[k] == b[k]
    {
    }
  }

  /** A query on a tree over five elements. */
  lemma QueryFive(t: SegmentTree, x0: int, x1: int, x2: int, x3: int, x4: int, l: int, r: int)
    requires TreeValid(t) && Contents(t) == [x0, x1, x2, x3, x4]
    ensures TreeValid(Query(t, l, r).1) && Contents(Query(t, l, r).1) == [x0, x1, x2, x3, x4]
    ensures Query(t, l, r).0 ==
      (if l <= 0 <= r then x0 else 0) + (if l <= 1 <= r then x1 else 0) + (if l <= 2 <= r then x2 else 0) +
      (if l <= 3 <= r then x3 else 0) + (if l <= 4 <= r then x4 else 0)
  {
    RangeSumOfFive(x0, x1, x2, x3, x4, l, r);
  }

  /** An update on a tree over five elements. */
  lemma UpdateFive(t: SegmentTree, x0: int, x1: int, x2: int, x3: int, x4: int, l: int, r: int, v: int)
    requires TreeValid(t) && Contents(t) == [x0, x1, x2, x3, x4]
    ensures TreeValid(Update(t, l, r, v))
    ensures Contents(Update(t, l, r, v)) ==
      [x0 + (if l <= 0 <= r then v else 0), x1 + (if l <= 1 <= r then v else 0), x2 + (if l <= 2 <= r then v else 0),
       x3 + (if l <= 3 <= r then v else 0), x4 + (if l <= 4 <= r then v else 0)]
  {
    UpdateContents(t, l, r, v);
    AddRangeOfFive(x0, x1, x2, x3, x4, l, r, v);
  }

  /** The first half of the repository's test: two queries, an update of
      [0, 3] by 3 and two more queries. */
  lemma ExamplesFirst(t0: SegmentTree)
    requires TreeValid(t0) && Contents(t0) == [1, 2, 3, 4, 5]
    ensures var (q1, t1) := Query(t0, 0, 2);
      var (q2, t2) := Query(t1, 1, 4);
      var t3 := Update(t2, 0, 3, 3);
      var (q3, t4) := Query(t3, 0, 1);
      var (q4, t5) := Query(t4, 0, 4);
      q1 == 6 && q2 == 14 && q3 == 9 && q4 == 27 && TreeValid(t5) && Contents(t5) == [4, 5, 6, 7, 5]
  {
    var (q1, t1) := Query(t0, 0, 2);
    QueryFive(t0, 1, 2, 3, 4, 5, 0, 2);
    var (q2, t2) := Query(t1, 1, 4);
    QueryFive(t1, 1, 2, 3, 4, 5, 1, 4);
    var t3 := Update(t2, 0, 3, 3);
    UpdateFive(t2, 1, 2, 3, 4, 5, 0, 3, 3);
    var (q3, t4) := Query(t3, 0, 1);
    QueryFive(t3, 4, 5, 6, 7, 5, 0, 1);
    QueryFive(t4, 4, 5, 6, 7, 5, 0, 4);
  }

  /** The second half: an update of everything by -1, two queries, an update
      of [4, 4] by 1000 and a last query. */
  lemma ExamplesSecond(t5: SegmentTree)
    requires TreeValid(t5) && Contents(t5) == [4, 5, 6, 7, 5]
    ensures var t6 := Update(t5, 0, 4, -1);
      var (q5, t7) := Query(t6, 3, 3);
      var (q6, t8) := Query(t7, 0, 4);
      var t9 := Update(t8, 4, 4, 1000);
      var (q7, _) := Query(t9, 0, 4);
      q5 == 6 && q6 == 22 && q7 == 1022
  {
    var t6 := Update(t5, 0, 4, -1);
    UpdateFive(t5, 4, 5, 6, 7, 5, 0, 4, -1);
    var (q5, t7) := Query(t6, 3, 3);
    QueryFive(t6, 3, 4, 5, 6, 4, 3, 3);
    var (q6, t8) := Query(t7, 0, 4);
    QueryFive(t7, 3, 4, 5, 6, 4, 0, 4);
    var t9 := Update(t8, 4, 4, 1000);
    UpdateFive(t8, 3, 4, 5, 6, 4, 4, 4, 1000);
    QueryFive(t9, 3, 4, 5, 6, 1004, 0, 4);
  }

  /** The repository's test: any tree over [1, 2, 3, 4, 5] (as `Init`
      builds) answers the test's queries and updates as expected. */
  lemma Examples(t0: SegmentTree)
    requires TreeValid(t0) && Contents(t0) == [1, 2, 3, 4, 5]
    ensures var (q1, t1) := Query(t0, 0, 2);
      var (q2, t2) := Query(t1, 1, 4);
      var t3 := Update(t2, 0, 3, 3);
      var (q3, t4) := Query(t3, 0, 1);
      var (q4, t5) := Query(t4, 0, 4);
      var t6 := Update(t5, 0, 4, -1);
      var (q5, t7) := Query(t6, 3, 3);
      var (q6, t8) := Query(t7, 0, 4);
      var t9 := Update(t8, 4, 4, 1000);
      var (q7, _) := Query(t9, 0, 4);
      q1 == 6 && q2 == 14 && q3 == 9 && q4 == 27 && q5 == 6 && q6 == 22 && q7 == 1022
  {
    ExamplesFirst(t0);
    var (q1, t1) := Query(t0, 0, 2);
    var (q2, t2) := Query(t1, 1, 4);
    var (q3, t4) := Query(Update(t2, 0, 3, 3), 0, 1);
    ExamplesSecond(Query(t4, 0, 4).1);
  }
}
