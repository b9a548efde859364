# vptree-rs: vantage-point tree construction, bounded k-nearest collection, small median

This project models the core of the `vptree` Rust crate in Dafny and proves
properties of the model.

- `VPNode::new` builds a vantage-point tree by divide and conquer:
  - it picks a vantage point with `select_vantage_point` and removes it with `swap_remove`;
  - it tags every other item with its distance to the vantage point and sorts the items by that tag;
  - it cuts them at `(n + 1) / 2`, where `n` counts the vantage point;
  - it records `mu`, the last inner distance, and recurses into each non-empty half.
- `VPTree::new` wraps the root and returns no tree for an empty input.
- `push_up_to_max` keeps the `n` nearest elements in a max-heap of `HeapElem`s, which are ordered by distance alone.
- `VPNode::nearest_neighbors` visits every node (this version has no pruning) and pushes each center's distance into that heap.
- `less_eq` and `small_median` pick the median index of a slice of one to three elements.

Files:

- `wrappers.dfy` (module `Wrappers`) holds three shared types:
  - `Option`;
  - `Ordering`;
  - `Outcome`, either a returned value or a panic, with `:-` propagation.
- `vptree.dfy` (module `VPTree`) models `src/vptree.rs`:
  - The tree is an immutable datatype, `Node`, with the Rust struct's fields.
  - `VPNode::new` is the recursive method `BuildNode`. It works step by step, as the source does:
    - `swap_remove`;
    - a loop that tags the items;
    - the sort;
    - the split;
    - the two recursive calls.
  - `BinaryHeap` is the class `MaxHeap`, whose multiset of elements `push` and `replace` update in place.
  - `push_up_to_max` and `nearest_neighbors` are methods that change that heap.
- `median.dfy` (module `Median`) models `src/median.rs` as pure functions over a partial comparison `cmp` (the role of `PartialOrd::partial_cmp`). Panics are `Outcome.Panicked`.

Outside inputs become parameters:

- The item type is generic.
- The metric `bounded_distance` is a caller-supplied `dist: (T, T) -> real`.
- The random index drawn in `select_vantage_point` is `draws[next] % |items|`, read from a caller-supplied sequence `draws`. Construction reads one draw per internal node, in pre-order.

Where the documentation and the code disagree, the model follows the code:

- The doc comment of `select_vantage_point` says it picks the point farthest from a random item. The fold keeps only strictly smaller distances, so under a metric it returns the random item itself. The construction `BuildNode` uses this selection as written. None of the tree invariants it proves (`Built`) depends on which index is selected, only the root-center clause does. The intended selection is modelled beside it (see "## Findings").

The split decides which children a node has. A node of `n >= 2` items
cuts the `n - 1` remaining items at `(n + 1) / 2`. The inner half is
therefore never empty, and the outer half is empty for `n = 2` and
`n = 3`. So a node has an outer child exactly when `n > 3`
(`InternalShaped`, `ShapedHalves`).

## Model

| member | source | states |
|---|---|---|
| `VPTree.SelectVantagePoint` | src/vptree.rs:40-53 | The result is a valid index. It minimises the distance from the probe item. It is the probe itself unless some item is strictly nearer to the probe than the probe is to itself, and then it is the first such nearest index. |
| `VPTree.FoldNearest` | src/vptree.rs:47-52 | The fold's result is a position at or after `j` whose distance is at most every later distance, or the accumulator unchanged. The accumulator is replaced only by a strictly smaller distance, at the first index achieving it. |
| `VPTree.SelectsProbe` | src/vptree.rs:38-53 | With `d(p, p) == 0` and non-negative distances, the selection returns the random probe index: a minimum, not the farthest point the doc comment names. |
| `VPTree.FoldFarthest` | src/vptree.rs:47-52 | The fold with the comparison reversed, which the doc comment intends. The result's distance bounds every distance in the rest of the slice. It is the start value or the first strictly larger maximum. |
| `VPTree.SelectFarthest` | src/vptree.rs:38-53 | The documented selection: a valid index that maximises the distance from the random probe item. It is the probe unless some item is strictly farther, and then the first farthest index. |
| `VPTree.SelectionsDiffer` | src/vptree.rs:38-53 | Under `d(p, p) == 0` with non-negative distances, and one item at positive distance from the probe, the code returns the probe and the documented selection does not. |
| `VPTree.SelectionsDifferOnTwoPoints` | src/vptree.rs:38-53 | On the reals 0 and 1 with the probe at 0, the code selects index 0 and the documented selection is index 1. |
| `VPTree.SwapRemove` | src/vptree.rs:127 | `swap_remove(i)` returns the element at `i`. It leaves every other position except `i` unchanged, moves the last element into `i`, and keeps the multiset of elements. |
| `VPTree.TagDistances` | src/vptree.rs:129-133 | After the loop, every item keeps its place and carries its distance to the vantage point. |
| `VPTree.SortByDist` | src/vptree.rs:135-136 | The `sort_by` result is sorted by tag, has the same length and is a permutation of its input. |
| `VPTree.Insert` | src/vptree.rs:136 | Inserting into a list sorted by tag keeps it sorted and adds exactly that element. |
| `VPTree.ItemsPermutation` | src/vptree.rs:127-138 | Reordering tagged items reorders their items: nothing is lost or duplicated by `swap_remove` and the sort. |
| `VPTree.SplitAtVantagePoint` | src/vptree.rs:124-139 | The vantage point is the selected item. The inner half has `(n + 1) / 2` items and the outer half the other `n - 1 - (n + 1) / 2`. The vantage point and both halves are exactly the input items. Every inner item is within `mu` of the vantage point, some inner item is at exactly `mu`, and no outer item is nearer than `mu`. |
| `VPTree.SplitSeparates` | src/vptree.rs:136-139 | Cutting the sorted tags at `split`: the last inner tag bounds every inner distance from above and every outer distance from below, and it is a true distance of an inner item. |
| `VPTree.BuildNode` | src/vptree.rs:116-144 | One item gives a leaf with that center and no `mu`. Any input gives a tree of the input's size whose centers are exactly the input items (as a multiset), with the `(n + 1) / 2` split shape and `mu` separating the halves at every node. On two or more items the root's center is the item `select_vantage_point` picks with the first unread draw. At most `|items| - 1` random draws are consumed. |
| `VPTree.BuildChild` | src/vptree.rs:140-141 | A child is absent exactly when its half is empty; otherwise it is a subtree built over exactly that half. |
| `VPTree.LeafBuilt` | src/vptree.rs:117-122 | The one-item leaf has size 1, that item as its only center, and the leaf shape. |
| `VPTree.AssembleNode` | src/vptree.rs:138-143 | The node assembled from the vantage point, `mu` and the two subtrees has all of its input items as centers, the required shape and separation. |
| `VPTree.InternalShaped` | src/vptree.rs:138-143 | An internal node over `n >= 2` items has an outer child exactly when `n > 3`. |
| `VPTree.ShapedHalves` | src/vptree.rs:138-141 | In a built tree, only leaves lack `mu`. An internal node's inner child always exists and holds `(n + 1) / 2` nodes. The outer child holds `n - 1 - (n + 1) / 2` nodes and exists exactly when `n > 3`. |
| `VPTree.CentersCount` | src/vptree.rs:116-144 | A subtree holds as many centers as nodes. |
| `VPTree.NewTree` | src/vptree.rs:198-210 | No tree exactly for no items. Otherwise the tree's centers are exactly the items and the tree is shaped and separated. |
| `VPTree.Cmp` | src/vptree.rs:73-93 | `HeapElem` comparison looks at the distance alone: `Less`, `Equal` or `Greater` exactly as the distances compare. |
| `VPTree.CmpIsTotalPreorder` | src/vptree.rs:73-93 | `HeapElem` order is by distance alone: `Equal` exactly on equal distances, `Less` one way exactly when `Greater` the other way, and transitive. |
| `VPTree.GreatestExists` | src/vptree.rs:109 | A non-empty heap has a greatest element, so `peek` on it does not fail. |
| `VPTree.MaxDist` | src/vptree.rs:109 | The distance at the top of a non-empty heap bounds every element and is attained. |
| `VPTree.MaxHeap.Peek` | src/vptree.rs:109 | `peek` gives nothing exactly on an empty heap, and otherwise a greatest element. |
| `VPTree.MaxHeap.Push` | src/vptree.rs:108 | `push` adds exactly the new element to the heap. |
| `VPTree.MaxHeap.Replace` | src/vptree.rs:110 | `replace` removes one greatest element and adds the new one. |
| `VPTree.PushUpToMax` | src/vptree.rs:104-112 | While there is room the element is pushed. Otherwise a greatest element is replaced when its distance is strictly larger. Otherwise the heap is unchanged. |
| `VPTree.PushSize` | src/vptree.rs:107-111 | The heap grows by one while below `n` and otherwise keeps its size, so it never exceeds `max(n, old size)`. |
| `VPTree.PushKeepsSmallest` | src/vptree.rs:104-112 | If the heap held the `min(n, k)` smallest of the `k` elements offered so far, it holds the `n` smallest after one more is offered. |
| `VPTree.AppendKeepsSmallest` | src/vptree.rs:107-108 | Below capacity, the heap held everything offered and still does. |
| `VPTree.ReplaceKeepsSmallest` | src/vptree.rs:109-110 | At capacity, replacing the top by a strictly nearer element keeps the `n` smallest. |
| `VPTree.KeepKeepsSmallest` | src/vptree.rs:109-111 | At capacity, leaving the heap unchanged for an element no nearer than the top keeps the `n` smallest. |
| `VPTree.OffersCoverTree` | src/vptree.rs:146-164 | The walk offers one element per node, each with the true distance from the query to a center of the subtree, and every center is offered. |
| `VPTree.OfferIsTrue` | src/vptree.rs:147-149 | Each offer carries the distance from the query to its node's center, and that center belongs to the subtree. |
| `VPTree.CenterIsOffered` | src/vptree.rs:156-163 | The walk reaches every center of the subtree. |
| `VPTree.NearestNeighbors` | src/vptree.rs:146-164 | Suppose the heap held the `n` smallest of what was offered before, with `n >= 1`. Afterwards it holds the `n` smallest of that plus one offer per node of the subtree. |
| `VPTree.WalkFromEmptyHeap` | src/vptree.rs:146-164 | From an empty heap, the walk leaves `min(n, size)` entries. Each is a true distance to a center of the tree, and none of the entries left out is nearer than one that is kept. |
| `VPTree.NearestInTree` | src/vptree.rs:146-164 | A query on a whole tree from a fresh empty heap leaves `min(n, size)` entries. Each is a true distance to a center of the tree, and no center left out is nearer than one that is kept. |
| `Median.LessEq` | src/median.rs:4-13 | Panics exactly on incomparable values; otherwise true exactly on `Less` or `Equal`. |
| `Median.LessEqOnReals` | src/median.rs:4-13 | On reals `less_eq(x, y)` never panics and is `x < y || x == y`. |
| `Median.SmallMedian` | src/median.rs:27-46 | A returned index is below the length, and it only returns for lengths 1 to 3. |
| `Median.UnsupportedLengthPanics` | src/median.rs:44 | Lengths 0 and above 3 are `unimplemented!()`. |
| `Median.IncomparablePanics` | src/median.rs:30-31 | An incomparable first comparison panics. |
| `Median.MedianOfOneOrTwo` | src/median.rs:29-30 | Length 1 gives 0 with no comparison made, even for an element that is incomparable with itself. Length 2 with a successful comparison gives 0 when `arr[0] <= arr[1]`, ties included, and otherwise 1, the smaller one. |
| `Median.MedianOfThree` | src/median.rs:31-43 | On three pairwise comparable elements the result exists and is a median: one other element is at most it and the remaining one at least it. |
| `Median.DocExamples` | src/median.rs:15-26 | Every documented example holds. |
| `Median.UnitExample` | src/median.rs:53-55 | `[1, 2, 3]` gives 1. |

## Left out

- The random number generator (`rand::thread_rng`, `Range::ind_sample`) is replaced by the parameter `draws`. Because of that, `NewTree` and `BuildNode` require one draw per internal node, `|draws| + 1 >= |items|`; the source's generator never runs out.
- Floating point is not modelled: the metric is an exact real function. As a result the model leaves out:
  - the `f32` blanket `bounded_distance` (`d / (1 + d)`);
  - NaN;
  - the `partial_cmp().unwrap()` panics in `HeapElem::cmp` and in `sort_by`.
- The `log2().ceil()` capacity hint of `VPTree::new` affects only allocation, so it is left out.
- `TaggedItem.hist` is modelled as its last entry only, the only one ever read. `VPTree::new` starts each tag at `0.0` instead of an empty history, and nothing reads that placeholder.
- `VPNode::new` on an empty vector panics in `select_vantage_point`. `VPTree::new` never makes that call, so `BuildNode` requires at least one item.
- `VPNode::nearest_neighbor`, `VPTree::nearest_neighbor` and `quick_select` are `unimplemented!()` and have no behaviour to model.
- `BinaryHeap`'s array layout (sift up and down) is not modelled; the heap is the multiset of its elements. Among several greatest elements, `replace` may remove any.
- `nearest_neighbors` repeats the body of `push_up_to_max` inline; the model calls `PushUpToMax` there.
- The heap part requires `T(!new)` and `T(==)`, which are Dafny type characteristics the Rust generic does not need.
- PushUpToMax: requires room in the heap or a non-empty heap. With `n == 0` and an empty heap, `peek().unwrap()` at src/vptree.rs:109 panics, and that panic is not modelled.
- NearestNeighbors: the contract is stated for a heap that already holds the `n` smallest of what was offered before (the empty heap does), and with `n >= 1`. With `n == 0`, `peek().unwrap()` panics on the empty heap at the first node.
- SortByDist: states sortedness and permutation, not stability. The Rust `sort_by` is stable, and `Insert` inserts before the first element that is not nearer, so equal tags keep their order. No contract relies on that order.
- SmallMedian: a panic is stated only for unsupported lengths and for an incomparable first comparison; the panics of the later comparisons are not stated separately.
- Lifetimes, `Box`, `Borrow` and the crate wiring in `src/lib.rs` are not part of this model.
- The test files `tests/lattice.rs` and `tests/harmonic.rs` are not part of this model: they call APIs this version does not have (`dump`, a three-argument `VPTree::nearest_neighbors`, a working `nearest_neighbor`).

## Findings

| source | as written | input that shows it | evidently intended | confidence | as-written member | corrected member |
|---|---|---|---|---|---|---|
| src/vptree.rs:38-53 | The fold starts at the random item's distance to itself and keeps only strictly smaller distances, so it selects the item nearest to the random one. Under a metric that is the random item itself. | Any metric and any items with one item at a positive distance from the random one. On the reals 0 and 1 with the random index 0, it selects index 0. | The doc comment asks for the item farthest from the random one: the same fold keeping strictly larger distances. | not executed | `VPTree.SelectVantagePoint`, shown by `VPTree.SelectionsDiffer` and `VPTree.SelectionsDifferOnTwoPoints` | `VPTree.SelectFarthest` |
