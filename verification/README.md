# Toolbox competitive-programming core, modelled in Dafny

This project models the algorithmic core of the Toolbox C++ header library:

- the search tree of `src/comp/btree.h`;
- its red-black balancer;
- its order-statistics plugin (`indexed_rb_tree::index`);
- the lazy segment tree of `src/comp/segtree.h`;
- the long numbers of `src/comp/longnum.h`;
- matrices (`src/comp/matrix.h`);
- square-and-multiply `pow` (`src/comp/basic.h`);
- modular integers (`src/comp/modulo.h`);
- gcd, lcm and prime factorisation (`src/comp/numbers.h`);
- the two-map `bimap` (`src/bimap/bimap.h`);
- the enum-indexed bit set (`src/enum_containers/enum_bitset.h`).

Every entity is an immutable datatype. Every operation is a function, or a method where the source is a loop best kept as a loop, that returns the new value.

Each module follows one header:

| file | module | models |
|---|---|---|
| btree.dfy | `BTree` | `btree_container` and the counts of `indexation_plugin::node_t` |
| rbtree.dfy | `RbTree` | `rb_tree_container`: the `insert` and `erase` fix-up loops |
| rbtree_examples.dfy | `RbTreeExamples` | the two walks of the repository's `rb_tree` test, step by step |
| index_examples.dfy | `IndexExamples` | the repository's `indexed_rb_tree` test, step by step |
| indexation.dfy | `Indexation` | `indexation_plugin::tree_t::index` |
| segtree.dfy | `SegTree` | `segment_tree` with `int` values, `+` and additive updates |
| longnum.dfy | `LongNum` | `longnum<DigitType, DigitSize>` for any base of at least 2 |
| matrix.dfy | `Matrix` | `matrix<int>` and `identity<matrix<T>>` |
| basic.dfy | `Basic` | `basic::pow` over any monoid |
| modulo.dfy | `Modulo` | `modulo_int_t<Type, Modulo>` |
| fermat.dfy | `Fermat` | Fermat's little theorem, which `operator/=` relies on |
| numbers.dfy | `Numbers` | `gcd`, `lcm`, `prime_decomposition` |
| bimap.dfy | `Bimap` | `bimap<A, B>` over `std::map` |
| enum_bitset.dfy | `EnumBitset` | `ebc::enum_bitset<EnumT>` |

## Design of the tree model

A tree node holds its colour, children, key and the stored `m_node_count`.

Parent pointers become a zipper: a focus subtree plus the path of frames above it, nearest first.

The counts are stored, not derived. `TakeOut` and `AppendChild` walk the path exactly as `before_takeout` and `on_new_child` do. That every count equals its subtree's size (`Counted`) is proved, not assumed.

A rotation is modelled step by step, as `rotate` relinks the nodes (`BTree.Rotate`). It is also given in closed form (`RbTree.RotateAt`), and the two are proved equal.

The fix-up loops are recursive functions whose measure is the path length. Their preconditions are the loop invariants. Their postconditions are the red-black properties, sortedness, correct counts and the resulting key sequence.

`erase` and `BstErase` take a flag `asWritten`:

- With the flag set, they follow the source, including the failures listed under Findings.
- With the flag clear, they run the evidently intended code.
- `EraseAgrees` and `BstEraseSpec` prove that whenever the code as written does not fail, it gives exactly the corrected result.

Case 3 of `erase` tests the near nephew, `child_color (n_direction)`, at btree.h:470. The model follows that test, and the proofs show it is the correct one.

## Model

| member | source | states |
|---|---|---|
| BTree.Other | src/comp/btree.h:27-30 | the other direction is never the given one |
| BTree.Up | src/comp/btree.h:122-123 | moving to the parent keeps the whole tree and shortens the path by one |
| BTree.Down | src/comp/btree.h:120-121 | moving to a child keeps the whole tree, focuses that child, and moving up again undoes it |
| BTree.TakeOut | src/comp/btree.h:170-176 | taking a node out leaves an empty slot and returns exactly the subtree that hung there |
| BTree.AppendChild | src/comp/btree.h:178-185 | appending into an empty slot puts the node there at the same depth |
| BTree.TakeOutAppend | src/comp/btree.h:170-185 | `before_takeout` followed by `on_new_child` of the same node restores every count on the path |
| BTree.Replace | src/comp/btree.h:51-69 | replacing a subtree and walking its change of size up the path keeps every count correct and splices its keys in place |
| BTree.PlugCounted | src/comp/btree.h:51-69 | a tree is counted exactly when the focus is and every node on the path stores the size of its subtree |
| BTree.RotateIsRotTree | src/comp/btree.h:229-245 | the relinking `rotate` performs yields the textbook rotation, with the count change walked up the path |
| BTree.RotTreeShape | src/comp/btree.h:229-245 | after a rotation the heritor is on top, the old node below it on side `dir`, and the heritor's inner child has moved to the old node |
| BTree.RotTreeKeys | src/comp/btree.h:229-245 | a rotation keeps the symmetric order of the keys and the node's total count, and keeps the counts correct |
| BTree.RotatePreserves | src/comp/btree.h:229-245 | `rotate` keeps the whole tree's key order, and when counts are correct it leaves every count above the node unchanged |
| BTree.ChildCount | src/comp/btree.h:136-142 | `child_count` is at most two and is zero exactly for a node without children |
| BTree.SingleChild | src/comp/btree.h:144-153 | the single child holds all keys of the node but the node's own, on one side of it |
| BTree.ReplaceWithChildIs | src/comp/btree.h:216-228 | `replace_with_child` puts the single child in the node's slot and lowers every count above by the node's count less the child's |
| BTree.ReplaceWithChildKeys | src/comp/btree.h:216-228 | after `replace_with_child` the tree's keys are the old ones without the node's key, every ancestor's count drops by one, and counts stay correct |
| BTree.NewNode | src/comp/btree.h:264-268 | a created node is a counted one-key subtree |
| BTree.Descend | src/comp/btree.h:278-302 | the `preinsert` walk ends on an empty slot of the same tree |
| BTree.DescendSplits | src/comp/btree.h:292-301 | during the walk, the keys before the slot are at most the new key and those after are greater |
| BTree.Preinsert | src/comp/btree.h:262-305 | `preinsert` returns the new node as the focus |
| BTree.PreinsertSpec | src/comp/btree.h:262-305 | `preinsert` on a sorted counted tree puts the key after every key not greater than it and keeps counts correct |
| BTree.InsertSortedSorted | src/comp/btree.h:262-305 | the reference insertion keeps a sequence sorted and adds exactly one occurrence of the key |
| BTree.Find | src/comp/btree.h:313-322 | the `preerase` search stays in the same tree and stops on a node holding the key or on an empty slot |
| BTree.FindSplits | src/comp/btree.h:313-322 | the search keeps keys smaller than the key before the focus and larger ones after it |
| BTree.Rightmost | src/comp/btree.h:331-333 | the predecessor walk ends on a node without a right child |
| BTree.Preerase | src/comp/btree.h:307-337 | the node `preerase` returns has at most one child |
| BTree.PreeraseSpec | src/comp/btree.h:307-337 | `preerase` finds nothing exactly when the key is absent; otherwise removing the node it returns removes one occurrence of the key |
| BTree.RemoveOneSorted | src/comp/btree.h:307-337 | removing one occurrence keeps a sequence sorted |
| BTree.BstErase | src/comp/btree.h:247-256 | as written, `erase` fails exactly when the node to remove is the root |
| BTree.BstEraseSpec | src/comp/btree.h:216-256 | corrected `erase` removes one occurrence of the key, keeps counts correct and returns 1 or 0; as written, when it does not fail, it gives the same; for an absent key both return 0 and leave the tree exactly as it was |
| BTree.BstEraseRootFails | src/comp/btree.h:216-227 | erasing the only key fails as written; corrected, it leaves the empty tree |
| RbTree.Paint | src/comp/btree.h:368 | `paint` changes the colour and nothing else |
| RbTree.SwapColors | src/comp/btree.h:415 | swapping the colours of a node and its child exchanges exactly those two colours |
| RbTree.SwapColorsKeys | src/comp/btree.h:415 | a colour swap keeps keys and counts |
| RbTree.PlugBalanced | src/comp/btree.h:346-371 | a tree has equal black heights on every path exactly when the focus does and every frame's sibling matches the height at that level |
| RbTree.PlugRedOk | src/comp/btree.h:346-371 | a tree has no red node with a red child exactly when the focus has none and no frame on the path creates one |
| RbTree.RotateAtIsRotate | src/comp/btree.h:229-245 | the closed form used by the fix-ups is the step-by-step `rotate` |
| RbTree.InsertAtRoot | src/comp/btree.h:388-392 | when the current node has no parent, painting it black gives a valid red-black tree |
| RbTree.InsertBlackParent | src/comp/btree.h:394-395 | when the parent is black the tree is already a valid red-black tree |
| RbTree.InsertRecolor | src/comp/btree.h:397-406 | with a red uncle, recolouring and moving to the grandparent restores the loop invariant two levels up and keeps the keys |
| RbTree.InsertRotation | src/comp/btree.h:408-416 | with a black or absent uncle, the one or two rotations and the colour swap give a valid red-black tree with the same keys |
| RbTree.InsertFixup | src/comp/btree.h:385-418 | from the loop invariant, the insert loop ends in a valid red-black tree, sorted and counted, with the same keys |
| RbTree.PreinsertInv | src/comp/btree.h:384 | `preinsert` into a valid tree establishes the insert loop's invariant |
| RbTree.Insert | src/comp/btree.h:381-418 | `insert` keeps the tree a valid sorted, counted red-black tree and adds the key in order |
| RbTree.RedSibling | src/comp/btree.h:446-451 | the red-sibling case moves the deficient node one level down, under a parent coloured as the old sibling |
| RbTree.EraseRedSibling | src/comp/btree.h:446-451 | the red-sibling case keeps the erase invariant and the keys and leaves a black sibling under a red parent |
| RbTree.BlackSiblingStep | src/comp/btree.h:453-480 | the loop moves up only from a black parent, one level at a time |
| RbTree.EraseAscend | src/comp/btree.h:456-464 | both nephews black under a black parent: painting the sibling red moves the deficit to the parent and keeps the invariant and the keys |
| RbTree.EraseRecolor | src/comp/btree.h:467-468 | both nephews black under a red parent: swapping their colours completes a valid tree with the same keys |
| RbTree.EraseRotation | src/comp/btree.h:470-480 | a red nephew: the optional rotation of the sibling, then the rotation of the parent and the recolouring, complete a valid tree with the same keys |
| RbTree.EraseStep | src/comp/btree.h:446-480 | one pass of the erase loop either completes a valid tree or moves up with the invariant, keeping the keys |
| RbTree.EraseFixup | src/comp/btree.h:440-481 | from the invariant, the erase loop ends in a valid red-black tree with the same keys; corrected, it never fails |
| RbTree.PreeraseRedBlack | src/comp/btree.h:335 | copying the predecessor's key up keeps the colours valid |
| RbTree.EraseStartKeys | src/comp/btree.h:423-433 | when `preerase` finds a node the key is present, the colours are still valid, and replacing the node by its child removes one occurrence of the key and keeps the tree sorted and counted |
| RbTree.EraseStartShape | src/comp/btree.h:427-438 | removing a red node, or a black one with a red child painted black, leaves a valid tree; otherwise the erase loop's invariant holds |
| RbTree.Erase | src/comp/btree.h:420-483 | `erase` keeps a valid sorted, counted red-black tree, removes one occurrence of the key and returns 1 or 0; corrected, it never fails; for an absent key it returns 0 and leaves the tree, colours and counts included, as it was |
| RbTree.Clear | src/comp/btree.h:203-206 | `clear` leaves a valid red-black tree with no keys, on which `insert` gives the one-node black tree and `erase` removes nothing |
| RbTree.EraseFixupAgrees | src/comp/btree.h:440-481 | the erase loop as written, when it does not fail, gives the corrected loop's result |
| RbTree.EraseAgrees | src/comp/btree.h:420-483 | `erase` as written, when it does not fail, gives the corrected result |
| RbTree.EraseRootFails | src/comp/btree.h:429-433 | erasing the only key of a one-node tree fails as written and leaves the empty tree when corrected |
| RbTree.EraseDeficitAtRootFails | src/comp/btree.h:456-463 | erasing a leaf of an all-black three-node tree fails as written; corrected, it gives the two-node tree with a red child |
| RbTreeExamples.InsertExample | test/comp/btree.cpp:50-59 | inserting five keys in the test's order gives the tree the test walks, with its colours |
| RbTreeExamples.InsertSixth | test/comp/btree.cpp:61-62 | inserting 7: a red parent with a red uncle is recoloured, and the tree is the expected one |
| RbTreeExamples.InsertSeventh | test/comp/btree.cpp:61-62 | inserting 66 under a black parent adds a red leaf and nothing else changes but the counts |
| RbTreeExamples.InsertEighth | test/comp/btree.cpp:61-62 | inserting 15 under a black parent adds a red leaf and nothing else changes but the counts |
| RbTreeExamples.InsertNinth | test/comp/btree.cpp:61-62 | inserting 10: a red parent with no uncle on the other side gives two rotations, and the tree is the expected one |
| RbTreeExamples.EraseFirst | test/comp/btree.cpp:64-65 | erasing 12, which has two children, takes its predecessor 11's key and unlinks that red leaf; `erase` as written does not fail and removes one key |
| RbTreeExamples.EraseSecond | test/comp/btree.cpp:64-65 | erasing the black leaf 3 runs the loop's red-sibling case and then its near-nephew case, and gives the expected tree; `erase` as written does not fail |
| RbTreeExamples.EraseThird | test/comp/btree.cpp:64-65 | erasing the red leaf 66 unlinks it and gives the tree the test walks |
| RbTreeExamples.EraseExample | test/comp/btree.cpp:60-73 | after `clear`, the test's nine insertions and three erasures each erase one key, none fails as written, and the result is 11B[7R[5B, 10B], 16B[15R]] with the colours the test checks |
| IndexExamples.InsertBetween | test/comp/btree.cpp:84 | inserting 5 between 3 and the red 7 rotates twice and puts 5 black on top |
| IndexExamples.InsertInner | test/comp/btree.cpp:86 | inserting 6 under the red 7 with the red uncle 3 recolours both, 5 staying the black root |
| IndexExamples.RanksBeforeErase | test/comp/btree.cpp:80-88 | on the trees the insertions give, `index` returns the ranks the test asks for: 0, 1, 1, then 2 for 6 and 0 for 3 |
| IndexExamples.EraseTop | test/comp/btree.cpp:89 | erasing the root 5 as written does not fail: 3 is copied up, and the near-nephew rotation leaves 6 black over 3 and 7 |
| IndexExamples.IndexAfterErase | test/comp/btree.cpp:92-95 | after inserting 100, 150 and 200 into that tree, `index (150)` is 4, derived from `insert`'s contract and `IndexIsRank` |
| IndexExamples.IndexedExample | test/comp/btree.cpp:79-95 | the whole test: after `clear`, every rank it asks for holds and `erase (5)` as written succeeds |
| Indexation.IndexFromSpec | src/comp/btree.h:79-99 | the `index` loop from an accumulated offset returns the offset plus a position of the key in symmetric order, or `size_t(-1)` when the key is absent |
| Indexation.IndexSpec | src/comp/btree.h:77-100 | `index` on a sorted, counted tree returns a position holding the key, or `size_t(-1)` exactly when the key is absent |
| Indexation.IndexIsRank | src/comp/btree.h:77-100 | with distinct keys, `index` is the number of keys smaller than the one asked for |
| Indexation.IndexExample | test/comp/btree.cpp:89-91 | on the three-node tree the test leaves after erasing 5, the ranks are 0, 1, 2 and other keys are absent |
| SegTree.Construct | src/comp/segtree.h:119-130 | `construct` builds a valid subtree without pending updates whose leaves are the data on [from, to] |
| SegTree.Push | src/comp/segtree.h:78-79 | adding an update to a node's pending update adds it to every element below |
| SegTree.PushValid | src/comp/segtree.h:78-79 | a pushed update keeps the subtree valid and raises its sum by length times the update |
| SegTree.UpdateLazy | src/comp/segtree.h:69-83 | `update_lazy` applies a node's pending update to its sum and pushes it to the children, leaving every element unchanged |
| SegTree.QueryImpl | src/comp/segtree.h:43-61 | `query_impl` returns the sum of the elements in the intersection of the ranges and leaves the elements unchanged |
| SegTree.QueryStraddling | src/comp/segtree.h:56-60 | on a node only partly inside the request, the sum of the two halves' answers is the sum over the intersection, and the rebuilt node holds the same elements |
| SegTree.UpdateImpl | src/comp/segtree.h:85-111 | `update_impl` adds the update to exactly the elements in the intersection of the ranges and keeps the tree valid |
| SegTree.UpdateStraddling | src/comp/segtree.h:106-110 | on a node only partly inside the update, updating both halves and recombining adds the update to exactly the elements in the intersection |
| SegTree.Init | src/comp/segtree.h:132-139 | `init` builds a valid tree holding exactly the data |
| SegTree.Query | src/comp/segtree.h:63-67 | `query (from, to)` is the sum of the elements with index in [from, to] and leaves the contents unchanged |
| SegTree.Update | src/comp/segtree.h:113-117 | `update (from, to, op)` adds `op` to each element with index in [from, to] and to no other |
| SegTree.UpdateContents | src/comp/segtree.h:113-117 | `update` agrees with the element-wise reference `AddRange` |
| SegTree.RangeSumIsSliceSum | src/comp/segtree.h:63-67 | the range sum over a valid range is the sum of that slice |
| SegTree.SegmentBounds | src/comp/segtree.h:136 | every heap index the recursion visits is below the array size `2^(k+1) - 1` when n is at most `2^k` |
| SegTree.Examples | test/comp/segtree.cpp:18-32 | the test's queries and updates on [1, 2, 3, 4, 5] give 6, 14, 9, 27, 6, 22 and 1022 |
| LongNum.Digit | src/comp/longnum.h:130 | a digit past the end reads as 0 |
| LongNum.AssignDigit | src/comp/longnum.h:131-137 | `assign_digit` grows the vector with zeros as needed, sets the digit and changes no other |
| LongNum.ShrinkToFit | src/comp/longnum.h:139-143 | `shrink_to_fit` removes exactly the trailing zeros |
| LongNum.ShrinkKeepsMag | src/comp/longnum.h:139-143 | removing trailing zeros keeps the magnitude and makes the digits canonical |
| LongNum.CtorLoopDigits | src/comp/longnum.h:38-43 | the constructor loop appends the base-b digits of the number |
| LongNum.ToDigitsCanonical | src/comp/longnum.h:38-43 | the digits of n are canonical and their value is n |
| LongNum.CanonicalIsToDigits | src/comp/longnum.h:38-43 | every canonical digit vector is the digits of its value |
| LongNum.FromInt | src/comp/longnum.h:28-44 | the integral constructor gives canonical digits, a minus sign exactly for negative numbers, and the number's value |
| LongNum.EqualIffSameMagnitude | src/comp/longnum.h:46-49 | `==` on canonical numbers holds exactly when the magnitudes agree, whatever the signs |
| LongNum.Add | src/comp/longnum.h:80-110 | as written, `+` is exact for equal signs, and for opposite signs when no digit position borrows; for equal signs it is the corrected `+` |
| LongNum.MixedSignBorrowCounterexample | src/comp/longnum.h:95-107 | 20 + (-1) in base 10 gives -919 as written |
| LongNum.AddCorrected | src/comp/longnum.h:80-110 | `+` with the borrow reset gives canonical digits and the exact sum |
| LongNum.Sub | src/comp/longnum.h:118-122 | as written, `-` (the negated right operand added with `+` as written) is exact for opposite signs, and for equal signs when no digit position borrows |
| LongNum.SubBorrowCounterexample | src/comp/longnum.h:118-122 | 20 - 1 in base 10 gives -919 as written and 19 corrected |
| LongNum.SubCorrected | src/comp/longnum.h:118-122 | `-` over the corrected `+` is the exact difference |
| LongNum.MulRowValue | src/comp/longnum.h:57-64 | the inner loop of `*` writes one digit times the other operand, shifted by the digit's position |
| LongNum.MulLoopValue | src/comp/longnum.h:55-67 | the outer loop of `*` accumulates the product of the magnitudes |
| LongNum.Mul | src/comp/longnum.h:51-72 | `*` gives canonical digits, the exact product, and a plus sign exactly when the signs agree |
| LongNum.Examples | test/comp/longnum.cpp:6-14 | the test's sums and differences of 255, 65 and -12 with `+` and `-` as written, which borrow nowhere and so give 320, 243, 267, 0, 510 and 1020 |
| Matrix.Zeros | src/comp/matrix.h:13 | a new n x m matrix is rectangular and all zero |
| Matrix.Add | src/comp/matrix.h:17-25 | `+` is the element-wise sum of same-shape matrices |
| Matrix.Sub | src/comp/matrix.h:27-35 | `-` is the element-wise difference of same-shape matrices |
| Matrix.AddSubCancel | src/comp/matrix.h:17-35 | subtracting what was added gives back the matrix |
| Matrix.SubAddCancel | src/comp/matrix.h:17-35 | adding back what was subtracted gives back the matrix |
| Matrix.AddCommutes | src/comp/matrix.h:17-25 | `+` is commutative |
| Matrix.Mul | src/comp/matrix.h:44-53 | the product is n x p with each element the row-by-column sum |
| Matrix.MulAssign | src/comp/matrix.h:37-42 | `*=` on square matrices of one size keeps the size, sets each element to the row-by-column sum, and leaves the matrix unchanged when the right operand is the unit matrix |
| Matrix.Identity | src/comp/matrix.h:88-97 | `identity` is the unit matrix of the argument's size |
| Matrix.MulIdentityRight | src/comp/matrix.h:44-53 | a matrix times the unit matrix is itself |
| Matrix.MulIdentityLeft | src/comp/matrix.h:44-53 | the unit matrix times a matrix is that matrix |
| Matrix.VecMul | src/comp/matrix.h:55-63 | a row vector times a matrix has one entry per column |
| Matrix.VecMulIsRowProduct | src/comp/matrix.h:55-63 | a vector times a matrix is the one-row matrix product |
| Matrix.EqualIsIdentity | src/comp/matrix.h:75 | `==` on rectangular matrices with at least one row is equality |
| Matrix.Mul2Assoc | src/comp/matrix.h:44-53 | the product of 2 x 2 matrices is associative |
| Matrix.Mat2MonoidLawful | src/comp/matrix.h:44-53 | 2 x 2 matrices with the product and `identity` satisfy the laws `pow` relies on |
| Matrix.FibPower | test/comp/matrix.cpp:26-30 | the k-th power of [[0, 1], [1, 1]] holds Fibonacci numbers k-1, k and k+1 |
| Matrix.FibViaPow | test/comp/matrix.cpp:26-33 | the test's `fib`, a vector times a matrix power, is the Fibonacci number |
| Matrix.FibSquare | src/comp/basic.h:26-28 | squaring the closed form [[F(n-1), F(n)], [F(n), F(n+1)]], as `pow`'s even branch does, gives the closed form at 2n |
| Matrix.FibDoubling | src/comp/basic.h:26-28 | the doubling identities F(2n) = F(n)(F(n-1) + F(n+1)) and F(2n+1) = F(n)^2 + F(n+1)^2 that the squaring step carries out |
| Matrix.FibFast | src/comp/basic.h:15-31 | Fibonacci numbers n and n + 1 computed by halving n, one squaring per bit, equal the Fibonacci numbers |
| Matrix.FibTestValues | test/comp/matrix.cpp:31-44 | the Fibonacci numbers the test expects: F(1), F(2), F(3), F(50), F(62) exactly, F(100) and F(200) modulo 10^9 + 7 |
| Matrix.SumExamples | test/comp/matrix.cpp:6-13 | the test's sums and differences |
| Matrix.ProductExample | test/comp/matrix.cpp:14-24 | the test's products |
| Basic.Pow | src/comp/basic.h:14-32 | for a lawful monoid, `pow` is the value multiplied onto the unit as many times as the exponent, and the unit for a non-positive exponent |
| Basic.PowInt | src/comp/basic.h:9-32 | integer `pow` is val^p, and 1 for p <= 0 |
| Basic.PowerSquare | src/comp/basic.h:26-28 | squaring the base and halving an even exponent keeps the power |
| Basic.PowerAdd | src/comp/basic.h:22-24 | a power of a sum of exponents is the product of the powers |
| Basic.IntMonoidLawful | src/comp/basic.h:9-12 | integers with `*` and identity 1 satisfy the laws `pow` relies on |
| Basic.PowExamples | test/comp/basic.cpp:4-7 | 3^3 = 27, 5^0 = 1, 25^1 = 25 |
| Basic.PowIntExamples | test/comp/basic.cpp:4-7 | the integer `pow` itself returns 27, 1 and 25 on the test's arguments |
| Modulo.FromInt | src/comp/modulo.h:12 | the constructor stores the residue in [0, M), also for negative arguments |
| Modulo.TruncRemShift | src/comp/modulo.h:12 | C++'s truncating `%` followed by adding M to a negative result is the residue |
| Modulo.Zero | src/comp/modulo.h:13 | the default value is the residue 0 for every modulus |
| Modulo.Identity | src/comp/modulo.h:69-75 | `identity` is valid and neutral for `*` on both sides |
| Modulo.Add | src/comp/modulo.h:15-22 | `+` keeps values in range and is the sum modulo M |
| Modulo.Sub | src/comp/modulo.h:24-31 | `-` keeps values in range and is the difference modulo M |
| Modulo.Mul | src/comp/modulo.h:33-40 | `*` keeps values in range and is the product modulo M |
| Modulo.MulAssoc | src/comp/modulo.h:33-40 | `*` is associative |
| Modulo.ModMonoidLawful | src/comp/modulo.h:33-40 | residues with `*` and `identity` satisfy the laws `pow` relies on |
| Modulo.ModPower | src/comp/modulo.h:44 | `pow` on residues is the integer power reduced modulo M |
| Modulo.Div | src/comp/modulo.h:42-47 | for a prime modulus and a non-zero divisor, the quotient times the divisor is the dividend |
| Modulo.QuotientUnique | src/comp/modulo.h:42-47 | for a prime modulus, the quotient is the only residue with that property |
| Modulo.ArithmeticExamples | test/comp/modulo.cpp:4-19 | the test's sums, differences, products and powers modulo 13 |
| Modulo.DivisionExamples | test/comp/modulo.cpp:21-22 | the only residues that solve the test's two divisions are 1 and 4 |
| Fermat.FermatPower | src/comp/modulo.h:44 | p divides a^p - a for a prime p |
| Fermat.FermatLittle | src/comp/modulo.h:44 | a^(p-1) is 1 modulo a prime p that does not divide a, so b^(M-2) is the inverse of b |
| Numbers.EuclidGcdIsGcd | src/comp/numbers.h:6-16 | the reference Euclid function gives the greatest common divisor |
| Numbers.CommonDivisorMod | src/comp/numbers.h:10-13 | one reduction step of the loop keeps the common divisors |
| Numbers.Gcd | src/comp/numbers.h:6-16 | for non-negative arguments `gcd` is the greatest common divisor; when an argument is not positive the loop does not run and the sum comes back |
| Numbers.Bezout | src/comp/numbers.h:6-16 | the gcd is an integer combination of the arguments |
| Numbers.LcmIsLeast | src/comp/numbers.h:18-22 | a / gcd * b divides every common multiple |
| Numbers.Lcm | src/comp/numbers.h:18-22 | `lcm` is a common multiple that divides every common multiple, and 0 when an argument is 0 |
| Numbers.GcdLcmExamples | test/comp/numbers.cpp:4-9 | `gcd (6, 9)` is 3, `gcd (25, 1)` is 1, `lcm (7, 6)` is 42 and `lcm (15, 6)` is 30, pinned down by the two contracts |
| Numbers.SmallestFactorIsPrime | src/comp/numbers.h:35-37 | the first divisor the trial division meets is prime |
| Numbers.DivideOut | src/comp/numbers.h:39-45 | the inner loop divides out the highest power of the factor |
| Numbers.LeftoverIsPrime | src/comp/numbers.h:48-49 | what remains above 1 after the trial loop is a prime at least as large as every factor tried |
| Numbers.PrimeDecomposition | src/comp/numbers.h:31-51 | `prime_decomposition` gives strictly increasing primes with positive powers whose product is the number, and nothing for numbers up to 1 |
| Bimap.MapInsert | src/bimap/bimap.h:37-38 | `std::map::insert` adds an absent key and leaves a present key's value alone |
| Bimap.InsertReversed | src/bimap/bimap.h:42-46 | inserting a reversed pair is inserting the pair |
| Bimap.InsertLookups | src/bimap/bimap.h:35-39 | after `insert`, both lookups of the inserted keys give the old value when present and the new one otherwise, and other lookups are unchanged |
| Bimap.InsertSize | src/bimap/bimap.h:63 | `insert` raises `size` by one exactly when the A-key was absent |
| Bimap.FromPairsIsInsertAll | src/bimap/bimap.h:16-23 | the list constructor is the inserts of its pairs in order |
| Bimap.FromReversedPairsIsInsertAll | src/bimap/bimap.h:26-33 | the reversed-list constructor is the inserts of its reversed pairs in order |
| Bimap.ToBValue | src/bimap/bimap.h:61 | `toBvalue` finds a value exactly for stored A-keys |
| Bimap.ToAValue | src/bimap/bimap.h:60 | `toAvalue` finds a value exactly for stored B-keys |
| Bimap.ValueOfA | src/bimap/bimap.h:54-55 | `value` on an A-key finds something exactly when the key is stored in `a_to_b`, and then the value stored for it |
| Bimap.ValueOfB | src/bimap/bimap.h:57-58 | `value` on a B-key finds something exactly when the key is stored in `b_to_a`, and then the value stored for it |
| Bimap.AtA | src/bimap/bimap.h:48-49 | `at` on an A-key throws `out_of_range` exactly for absent keys and otherwise gives the stored value |
| Bimap.AtB | src/bimap/bimap.h:51-52 | `at` on a B-key throws `out_of_range` exactly for absent keys and otherwise gives the stored value |
| Bimap.CollisionBreaksSymmetry | src/bimap/bimap.h:35-39 | inserting (1, 2) and then (1, 3) leaves 3 mapped to 1 but 1 still mapped to 2 |
| Bimap.Examples | test/bimap/bimap_test.cpp:8-31 | the lookups and sizes of all three tests, including the reversed insert with the `nullopt` key |
| Bimap.OptionalKeyExample | test/bimap/bimap_test.cpp:14-24 | a reversed insert of (nullopt, "936") and an insert of ("addd", 123) give size 2, value(nullopt) == "936", toBvalue("addd") == 123, and nothing for the absent keys |
| EnumBitset.Empty | src/enum_containers/enum_bitset.h:16-17 | a new set has COUNT bits, all clear |
| EnumBitset.Set | src/enum_containers/enum_bitset.h:79-82 | `set (i, v)` makes bit i equal v and changes no other |
| EnumBitset.Reset | src/enum_containers/enum_bitset.h:89-92 | `reset (i)` clears bit i and changes no other |
| EnumBitset.Flip | src/enum_containers/enum_bitset.h:99-102 | `flip (i)` inverts bit i and changes no other |
| EnumBitset.SetAll | src/enum_containers/enum_bitset.h:84-87 | `set ()` sets every bit |
| EnumBitset.ResetAll | src/enum_containers/enum_bitset.h:94-97 | `reset ()` keeps the size and clears every bit, so `none` holds |
| EnumBitset.FlipAll | src/enum_containers/enum_bitset.h:104-107 | `flip ()` inverts every bit |
| EnumBitset.Not | src/enum_containers/enum_bitset.h:56-60 | `~` keeps the size and complements every bit |
| EnumBitset.And | src/enum_containers/enum_bitset.h:62-65 | `&` is bitwise and |
| EnumBitset.Or | src/enum_containers/enum_bitset.h:67-70 | `\|` is bitwise or |
| EnumBitset.Xor | src/enum_containers/enum_bitset.h:72-75 | `^` is bitwise exclusive or |
| EnumBitset.FromList | src/enum_containers/enum_bitset.h:19-22 | the list constructor sets exactly the listed enumerators |
| EnumBitset.CountBounded | src/enum_containers/enum_bitset.h:45-46 | `count` is at most `size` |
| EnumBitset.AllIffFullCount | src/enum_containers/enum_bitset.h:42-46 | `all` holds exactly when `count` equals `size` |
| EnumBitset.NoneIffZeroCount | src/enum_containers/enum_bitset.h:43-45 | `none` holds exactly when `count` is 0, and `any` exactly when it is positive |
| EnumBitset.NotInvolution | src/enum_containers/enum_bitset.h:56-60 | `~` twice gives back the set |
| EnumBitset.CountNot | src/enum_containers/enum_bitset.h:56-60 | `~` turns `count` into `size` minus `count` |
| EnumBitset.WeatherExample | test/enum_containers/enum_bitset_test.cpp:13-61 | the whole test on three enumerators: every `all`, `none`, `any`, `count` and `test` check after each set, reset and bitwise operation |
| EnumBitset.WeatherOperators | test/enum_containers/enum_bitset_test.cpp:37-56 | the copy differs in one bit; `&=` with a cleared set gives none; `\|=` with a full set gives all; after single-bit set, reset and flip, `^=` gives all, `~` none and `flip ()` all |

## Left out

- Memory and ownership (`unique_ptr`, parent pointers, `std::move`) have no counterpart. Nodes are values, and a zipper stands for a pointer into the tree.
- The iterator-free plugin machinery (the variadic `Plugins...` and the CRTP casts) is not modelled. The tree always carries the counts of `indexation_plugin`, and `rb_tree` without the plugin is the same tree with the counts ignored.
- Indexation.IndexFrom: `size_t` is taken to be 64 bits, so `NotFound` is 2^64 - 1. Counts never wrap, because a tree cannot hold 2^64 nodes.
- Indexation.IndexIsRank: stated for distinct keys only. With duplicates, `index` returns the position of some occurrence, which `IndexSpec` states.
- RbTree.EraseFixup: the value of `c = n->single_child()` at line 460 is never used. With assertions on, that call fails whenever the new `n` has two children. The model drops the dead assignment rather than modelling the debug-build assertion.
- Keys are integers compared with `<`; `ArgType` overloads and perfect forwarding are not modelled.
- Modulo: the stream operators `<<` and `>>` (I/O) are left out.
- Modulo.Mul: products are unbounded, so overflow of `Type` is not modelled. With `long long` and 1000000007 the product of two residues fits.
- Modulo.Div: the result is proved correct only for a prime modulus and a non-zero divisor. Otherwise the source computes some residue too, which the model returns without a promise.
- Numbers.Lcm: requires non-negative arguments, not both zero. `gcd (0, 0)` is 0 and the source then divides by zero. The loop's behaviour on negative arguments is modelled by `Gcd` but not carried into `lcm`. Integers are unbounded, so the overflow of `a / gcd * b` in `IntType` is not modelled; the result is promised only where it fits.
- Basic.PowInt: integers are unbounded, so `val^p` is promised exactly. With `int` the source's `ret *= mult` and `mult *= mult` overflow once the power no longer fits, and the model does not follow that.
- Numbers.PrimeDecomposition: `IntType` overflow of `i * i` is not modelled. The test's values for 255 and 32 (test/comp/numbers.cpp:11-30) are not derived: the contract fixes the factors only up to the uniqueness of prime factorisation, which is not proved.
- Matrix: the matrix-times-vector `operator*` (lines 65-73) is left out. It sizes its result with `rhs.n ()` on a `std::vector`, which has no such member, so it does not compile once instantiated.
- Matrix: the ordering operators `<`, `<=`, `>` and `>=` compare the storage lexicographically and are not modelled. Elements are `int`, without overflow.
- Matrix.FibViaPow: the test's `modulo_int` matrix variant is not modelled as a computation; Matrix.FibTestValues states only the values it expects, F(100) and F(200) modulo 10^9 + 7.
- LongNum.Add: as written, opposite signs give the exact sum only when no digit position borrows. With a borrow the result is wrong (see Findings), so the contract promises nothing there.
- LongNum.Sub: as written, `-` is `+` on the negated right operand, so equal signs give the exact difference only when no digit position borrows (see Findings); `SubCorrected` is the exact difference.
- LongNum: `DigitType` is unbounded. The overflow of `digit * digit + mem`, and of `-number` for the most negative integer, are not modelled.
- LongNum: `assign_digit`'s assertion `value < DigitSize` is a precondition. `operator*=`, `+=` and `-=` are the same functions as `*`, `+` and `-`. The `ret += ...` of `operator*` uses `+` as written, which adds two non-negative numbers and so is exact there.
- SegTree: values, query operation and update are fixed to the test's `int`, `std::plus<>` and `add_op`. The other instantiations are not modelled.
- SegTree.Query, SegTree.QueryImpl, SegTree.Update, SegTree.UpdateImpl: the model's values are unbounded integers, not the source's `int`. So the `int` overflow of node sums and of `range_length * val` in `add_op::apply` is not modelled. The exact sums are promised only where every node sum fits in an `int`.
- SegTree.Init: requires at least one element. For an empty vector the source takes `log2 (0)`.
- SegTree.SegmentBounds: the array size is stated as `2^(k+1) - 1` for any k with n at most 2^k. The floating-point `ceil (log2 (n))` that chooses k is not modelled.
- EnumBitset: enumerators are their ordinals, below COUNT. `std::bitset` throws `out_of_range` for a larger position, and the model makes that a precondition. `operator[]`'s proxy reference is modelled as `Set` and `Test`.
- Bimap: `unordered_map` instances behave as `std::map` for every modelled operation. The overloads that only exist when the two types differ are modelled under distinct names (`AtA`, `AtB`, `ValueOfA`, `ValueOfB`, `InsertReversed`).
- Bimap: nothing keeps the two maps consistent when keys collide. The model keeps that behaviour (`CollisionBreaksSymmetry`) rather than assuming consistency.
- The remaining headers (`enum_vector.h`, `overload.h`, `multi_vector.h`, `remap_rvalues_for.h`) are not part of this model.

## Findings

| source | as written | input that shows it | evidently intended | confidence | as-written member | corrected member |
|---|---|---|---|---|---|---|
| src/comp/btree.h:218-219 | `replace_with_child` first calls `direction_from_parent ()`, which asserts that the node has a parent. The `if (parent)` branch that follows is therefore unreachable for the root | a one-node tree holding k; `erase (k)` on the plain search tree | the root's single child, or nothing, becomes the root, as lines 226-227 already do | not executed | BTree.BstEraseRootFails | BTree.BstEraseSpec |
| src/comp/btree.h:429-432 | the red-black `erase` asks a black node without a parent for its `sibling ()` and `direction_from_parent ()`, dereferencing the null parent | a one-node tree holding k; `erase (k)` | the tree becomes empty, or the red child becomes the black root | not executed | RbTree.EraseRootFails | RbTree.Erase |
| src/comp/btree.h:459-463 | when the deficit moves up to the root, `n->sibling ()` and `n->direction_from_parent ()` run on the parentless root before the loop's `p == nullptr` test | the all-black tree b[a, c] with a < b < c, reachable by inserting 1, 2, 3, 4 and erasing 4; then `erase (c)` | the loop stops at the root, leaving b[a red] | not executed | RbTree.EraseDeficitAtRootFails | RbTree.EraseFixup |
| src/comp/longnum.h:97-104 | opposite-sign `+` sets `mem = -1` on a borrow but never clears it, and on a final borrow only flips the sign of the complemented digits | `longnum<int, 10> (20) + longnum<int, 10> (-1)` gives -919 | 19: subtract with the borrow cleared, and on a final borrow subtract the other way round | not executed | LongNum.MixedSignBorrowCounterexample | LongNum.AddCorrected |
| src/comp/longnum.h:118-122 | `operator-` negates the right operand's sign and calls the as-written `operator+`, so it inherits the borrow bug | `longnum<int, 10> (20) - longnum<int, 10> (1)` gives -919 | 19: the difference through the corrected `+` | not executed | LongNum.SubBorrowCounterexample | LongNum.SubCorrected |
