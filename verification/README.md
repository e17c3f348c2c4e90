# Verified models of PAM, the analytical update pipeline and the serial-log checker

This project models three parts of the system and proves what they promise.

**PAM, persistent augmented maps** (`OLAP/PAM/c++`). Every map operation is built on one primitive, a join that
rebalances with single and double rotations. The model has two layers.

- On values: `Trees` (the join, and balance under the weight-balanced, AVL and treap schemes), `Maps` (split, insert,
  delete, union, intersection, difference) and `Bulk` (binary search, building, bulk insertion and deletion). The
  weight-balanced tests are stated in exact integers: left-heavy is 29 w1 > 71 w2, a single rotation suffices when
  71 b <= 42 w. The node that a double rotation dereferences is never null: `FixRight` and `FixLeft` meet the
  preconditions of the rotations for every tree and scheme.
- On nodes: `Heap` states when a store of reference-counted nodes is valid: every count equals the child pointers from
  live nodes plus the references held outside, and every cached size, height and augmented value is that of the tree
  below. `Stores`, `Joins`, `HeapOps`, `HeapMaps`, `HeapSets` and `HeapBulk` are the operations as the source performs
  them, in place with copy on write. Each is proved to yield the tree that the value layer specifies, to keep the store
  valid and to leave every other held tree as it was. `Sessions` closes this over programs: any sequence of operations
  through any number of handles computes what it would compute on independent values and on maps, and a node is live
  exactly when some handle reaches it.

Clients of the maps: `Treaps` (the shape of a treap depends on its entries alone), `Augmented` (range sums and
selection on cached values), `RangeTrees` (two-dimensional sums by nested maps), `TopK` (best documents of a posting
list), `Sweeps` and `Segments` (blocked prefix sweeps, and the sweep over segments).

**The update pipeline of the analytical server** (`OLAP/APServer.cc`, `OLAP/utilities/Graph.h`). `Graphs` is the
dependency graph with its ancestor search. `Columns` is the state of one column of one shard as a value, what a
transaction still needs, and the invariant. `ApServer` is the column as an object, with the mutually recursive search
that ingests a buffered update after everything it depends on. `Runs` is the server as a state machine over any
interleaving of messages, attempts and query rounds: acyclicity, ingest order and query freshness are proved over all
runs. `Dependencies` says exactly which declared dependencies the log respects, `Updates` which update is ingested.

**The log checker of the transaction tier** (`OLTP/dast/check_serial.py`) is `SerialLogs`.

## How to read the contracts

- A `Ref` is a node address and 0 is null. `view` and `owned` are ghost: the linked tree at each attached node and the
  multiset of references held from outside. A node is loose while one local variable holds it and its fields may be
  assigned. `Yields(g, s0, s1, frame, lf, t, tree)` says that an operation turned store `s0` into the valid store `s1`,
  returns the reference `t` to `tree`, and left the trees of all references in `frame` and the loose nodes in `lf` alone.
- `extra` is the source's `extra_ptr` flag: the tree is lent by a holder `h` instead of handed over.
- `Needs(c, u, t)` says that `u` is `t` or is reached backwards from `t` through transactions that are not done.
  `Safe(c, ext)` says that ingesting `ext` in order never overtakes a parent.
- `foreign` records the vertices that were first mentioned as a parent; the source gives them status 1 at once.

## What the code does that its description does not say

- `parentExist` never reports the vertex itself, so an order message that names itself as a parent makes a cycle
  (`Columns.OrderMsgAcyclic` is the exact condition).
- A parent that has not been ordered counts as done, so a transaction can be ingested before it
  (`Dependencies.LateParentFails`). Which dependencies are respected is decided when they are declared
  (`Dependencies.ExactDependency`); over runs that order everything once and after its parents the log is topological
  (`Runs.RunTopological`).
- `top_k` can select nothing when the largest weight left is not positive, because an empty child counts as weight 0.
  It then reads the entry of an unset `maybe`, untested, and removes the key it finds there. Whether it does depends
  on the shape of the tree (`TopK.SelectExact`); a list of one entry does exactly then (`TopK.SingleSelect`).
- The log checker compares partitions in pairs, which does not give one order for three (`SerialLogs.PairwiseOnly`).
  `SerialLogs.JointIsAcyclic` is the exact condition.
- The sweep over segments has one entry per place where segments begin, so of different segments that begin at the
  same place it forgets all but one (`Segments.SegmentSweep` has the exact condition, `Segments.SharedStart` an input).
- A segment of length 0 only ends. If it is ordered before one that begins at the same point, blocks and single events
  disagree (`Segments.BlocksExact`).
- A sweep over no events with more than one block leaves the array, since n - 1 wraps around (`Sweeps.BlocksInside`).
- A range query combines entries out of key order, so it needs a commutative `combine` (`Augmented.RangeExact`); cached
  values do not (`Augmented.AugIsFold`).
- `query_sum` needs neither x1 <= x2 nor y1 <= y2: other windows are empty and the answer is 0.

## Model

| member | source | states |
|---|---|---|
| `Trees.FixInorder` | OLAP/PAM/c++/balance_utils.h:61-66 | the rebalancing step after a child has grown keeps the in-order sequence, whichever branch it takes |
| `Trees.RightJoinInorder` | OLAP/PAM/c++/balance_utils.h:56-67 | descending the right spine and rebalancing on the way up yields t1 ++ [k] ++ t2 |
| `Trees.LeftJoinInorder` | OLAP/PAM/c++/balance_utils.h:69-80 | the mirror image: t1 ++ [k] ++ t2 |
| `Trees.JoinInorder` | OLAP/PAM/c++/balance_utils.h:90-94 | node_join yields t1 ++ [k] ++ t2 under every scheme |
| `Trees.FixRightWeight` | OLAP/PAM/c++/weight_balanced_tree.h:35-51 | after a right join the rebalancing step restores weight balance: the single/double choice with alpha = 0.29 is right for every overweight that a join can cause |
| `Trees.FixLeftWeight` | OLAP/PAM/c++/weight_balanced_tree.h:35-51 | the mirror image |
| `Trees.RightJoinWeight` | OLAP/PAM/c++/balance_utils.h:56-67 | right_join of two weight-balanced trees of any relative size is weight-balanced |
| `Trees.LeftJoinWeight` | OLAP/PAM/c++/balance_utils.h:69-80 | left_join of two weight-balanced trees of any relative size is weight-balanced |
| `Trees.RightJoinHeight` | OLAP/PAM/c++/balance_utils.h:56-67 | right_join of two AVL trees is an AVL tree and grows the taller one by at most one level |
| `Trees.LeftJoinHeight` | OLAP/PAM/c++/balance_utils.h:69-80 | the same for left_join |
| `Trees.JoinBalanced` | OLAP/PAM/c++/balance_utils.h:90-94 | node_join of two balanced trees, of any relative size, is balanced: weight-balanced, AVL and treap |
| `Trees.WeightBalancedHeight` | OLAP/PAM/c++/weight_balanced_tree.h:30-51 | the height of a weight-balanced tree is at most the logarithm of its weight to the base 100/71, stated without logarithms |
| `Trees.AvlHeight` | OLAP/PAM/c++/avl_tree.h:30-60 | an AVL tree of height h has at least F(h + 2) - 1 nodes, F being the Fibonacci numbers |
| `Trees.LeastHeight` | OLAP/PAM/c++/avl_tree.h:35-38 | no tree is lower than its weight allows: the weight is at most 2 to the height |
| `Trees.AvlJoinHeight` | OLAP/PAM/c++/avl_tree.h:30-60 | the AVL join has height max(h1, h2) or one more |
| `Trees.TreapJoinHeap` | OLAP/PAM/c++/treap.h:26-43 | the treap join keeps heap order, its root priority is the largest of the three, and a tie goes to the middle entry and then to the second tree |
| `Trees.TreapJoinInorder` | OLAP/PAM/c++/treap.h:26-43 | the treap join yields t1 ++ [k] ++ t2 |
| `Trees.Join2Inorder` | OLAP/PAM/c++/sequence_ops.h:60-76 | joining without a middle entry concatenates the in-order sequences |
| `Trees.Join2Balanced` | OLAP/PAM/c++/sequence_ops.h:60-76 | joining without a middle entry keeps balance under every scheme |
| `Maps.FindIsGet` | OLAP/PAM/c++/map_ops.h:25-32 | one descent by comparisons finds, in a search tree, what a scan of all entries finds |
| `Maps.SplitCorrect` | OLAP/PAM/c++/map_ops.h:90-114 | split separates the smaller from the larger keys, extracts the entry at the key, and the three parts are the whole map |
| `Maps.SplitBalanced` | OLAP/PAM/c++/map_ops.h:90-114 | both halves of a split are balanced |
| `Maps.InsertCorrect` | OLAP/PAM/c++/map_ops.h:377-404 | insert changes the map at one key only, combining old and new value with f(old, new) where the key was present |
| `Maps.InsertBalanced` | OLAP/PAM/c++/map_ops.h:377-404 | insert keeps balance |
| `Maps.DeleteCorrect` | OLAP/PAM/c++/map_ops.h:446-465 | delete removes one key and changes nothing else |
| `Maps.DeleteBalanced` | OLAP/PAM/c++/map_ops.h:446-465 | delete keeps balance |
| `Maps.UnionCorrect` | OLAP/PAM/c++/map_ops.h:183-210 | uniont denotes the pointwise union, op(v1, v2) on common keys, and is a search tree |
| `Maps.UnionBalanced` | OLAP/PAM/c++/map_ops.h:183-210 | uniont keeps balance |
| `Maps.IntersectCorrect` | OLAP/PAM/c++/map_ops.h:214-242 | intersect denotes the pointwise intersection with op(v1, v2), for three different value types, and is a search tree |
| `Maps.IntersectBalanced` | OLAP/PAM/c++/map_ops.h:214-242 | intersect yields a balanced tree |
| `Maps.DifferenceCorrect` | OLAP/PAM/c++/map_ops.h:244-261 | difference denotes the map restricted to the keys the other lacks, and is a search tree |
| `Maps.DifferenceBalanced` | OLAP/PAM/c++/map_ops.h:244-261 | difference keeps balance |
| `Bulk.LinearSearch` | OLAP/PAM/c++/map_ops.h:467-471 | the loop returns the first position whose element is not less, or the length |
| `Bulk.BinarySearch` | OLAP/PAM/c++/map_ops.h:474-484 | on a sequence with the lesser elements first, halving down to a short range and then searching linearly returns the first position whose element is not less |
| `Bulk.FromArrayInorder` | OLAP/PAM/c++/sequence_ops.h:154-167 | a tree built from an array holds exactly its entries in order |
| `Bulk.FromArrayBalanced` | OLAP/PAM/c++/sequence_ops.h:154-167 | a tree built from an array is balanced under every scheme |
| `Bulk.ChosenIs` | OLAP/PAM/c++/build.h:11-36 | sorting and removing duplicates leaves strictly increasing keys, invents nothing and loses no key |
| `Bulk.PackLook` | OLAP/PAM/c++/build.h:11-36 | of equal keys in a row the first is kept |
| `Bulk.ChosenDistinct` | OLAP/PAM/c++/build.h:11-36 | distinct keys: exactly the given entries remain |
| `Bulk.MapOfIs` | OLAP/PAM/c++/map.h:78-81 | a map constructed from any array is a search tree with the keys of the array, each with the value that comes first after sorting |
| `Bulk.MultiInsertCorrect` | OLAP/PAM/c++/map_ops.h:522-551 | bulk insertion of a strictly sorted array denotes the map with every entry merged in by op(old, new) |
| `Bulk.MultiInsertBalanced` | OLAP/PAM/c++/map_ops.h:522-551 | bulk insertion keeps balance |
| `Bulk.MultiInsertIsInsertAll` | OLAP/PAM/c++/map_ops.h:522-551 | bulk insertion leaves the same entries as inserting one entry at a time |
| `Bulk.MultiDeleteCorrect` | OLAP/PAM/c++/map_ops.h:486-518 | bulk deletion of a strictly sorted array of keys removes exactly those keys |
| `Bulk.MultiDeleteBalanced` | OLAP/PAM/c++/map_ops.h:486-518 | bulk deletion keeps balance |
| `Bulk.MultiDeleteIsDeleteAll` | OLAP/PAM/c++/map_ops.h:486-518 | bulk deletion leaves the same entries as deleting one key at a time |
| `Heap.AttachValid` | OLAP/PAM/c++/balance_utils.h:83-88 | turning a written node into part of a tree keeps all counts exact and all cached fields right |
| `Heap.DetachValid` | OLAP/PAM/c++/gc.h:63-74 | taking a node of count one out of its tree keeps all counts exact: its children are now held instead |
| `Heap.NoLeak` | OLAP/PAM/c++/gc.h:22-43 | with exact counts every live node is reachable from something that is held |
| `Stores.Store.constructor` | OLAP/PAM/c++/gc.h:15-19 | an empty store is valid |
| `Stores.Store.MakeNode` | OLAP/PAM/c++/basic_node.h:34-40 | a fresh node has count one, belongs to no tree, and disturbs nothing |
| `Stores.Store.Update` | OLAP/PAM/c++/augmented_node.h:32-38 | recomputing size, height and augmented value of a written node makes it a valid tree again, with caches equal to the values of the tree |
| `Stores.Store.Increment` | OLAP/PAM/c++/gc.h:45-48 | one more reference to a tree; no other count changes |
| `Stores.Store.Decrement` | OLAP/PAM/c++/gc.h:22-30 | one reference less: the node is freed exactly when it was the last, and its children are then held; nothing else that is held changes |
| `Stores.Store.DecrementRecursive` | OLAP/PAM/c++/gc.h:34-43 | dropping a reference frees whatever only it could reach: counts stay exact, what is still held keeps its tree, no node becomes loose, and nothing is allocated |
| `Stores.Store.Copy` | OLAP/PAM/c++/gc.h:56-61 | a copy shares both children, whose counts go up |
| `Stores.Store.CopyIfNeeded` | OLAP/PAM/c++/gc.h:66-74 | yields a node of count one with the same entry and subtrees, and leaves every other held tree as it was |
| `Stores.Store.BalancedJoin` | OLAP/PAM/c++/balance_utils.h:83-88 | links two trees under a node without rotating |
| `Stores.Store.RotateLeft` | OLAP/PAM/c++/balance_utils.h:24-32 | refines the rotation on values, in place, touching nothing else that is held |
| `Stores.Store.RotateRight` | OLAP/PAM/c++/balance_utils.h:14-22 | refines the rotation on values, in place, touching nothing else that is held |
| `Stores.Store.DoubleRotateLeft` | OLAP/PAM/c++/balance_utils.h:45-54 | refines the double rotation on values; the inner grandchild is copied first if it is shared |
| `Stores.Store.DoubleRotateRight` | OLAP/PAM/c++/balance_utils.h:34-43 | refines the double rotation on values; the inner grandchild is copied first if it is shared |
| `Joins.LeftHeavyCached` | OLAP/PAM/c++/weight_balanced_tree.h:40-51 | the balance test on cached sizes and heights is the test on trees |
| `Joins.SingleRotationCached` | OLAP/PAM/c++/weight_balanced_tree.h:44-47 | the rotation test on cached sizes and heights is the test on trees |
| `Joins.RightJoin` | OLAP/PAM/c++/balance_utils.h:56-67 | refines the join on values; shared nodes on the spine are copied, and the result has count one |
| `Joins.LeftJoin` | OLAP/PAM/c++/balance_utils.h:69-80 | refines the join on values; shared nodes on the spine are copied, and the result has count one |
| `Joins.TreapJoin` | OLAP/PAM/c++/treap.h:26-43 | refines the treap join on values with copy on write |
| `Joins.NodeJoin` | OLAP/PAM/c++/balance_utils.h:90-94 | node_join on nodes yields the join of the trees under every scheme, and every other held tree keeps its entries |
| `HeapOps.IncIf` | OLAP/PAM/c++/gc.h:108-112 | a further reference exactly when the copy flag is set |
| `HeapOps.CopyIf` | OLAP/PAM/c++/gc.h:91-97 | either the node itself, writable, or a fresh node with its entry, having given the original up unless it is lent |
| `HeapOps.DecIf` | OLAP/PAM/c++/gc.h:117-122 | gives up a node whose children have been consumed or shared |
| `HeapMaps.FindNode` | OLAP/PAM/c++/map_ops.h:25-32 | the loop over cells returns the node that the descent on values ends at, or null |
| `HeapMaps.InsertJ` | OLAP/PAM/c++/map_ops.h:377-404 | refines insertion on values: the copy and extra_ptr flags never let a shared or lent node be written |
| `HeapMaps.Join2I` | OLAP/PAM/c++/sequence_ops.h:60-76 | refines concatenation on values with both extra flags |
| `HeapMaps.Deletet` | OLAP/PAM/c++/map_ops.h:446-465 | refines deletion on values |
| `HeapMaps.SplitCopy` | OLAP/PAM/c++/map_ops.h:90-114 | refines split on values and leaves the original tree as it was |
| `HeapSets.SplitInplace` | OLAP/PAM/c++/map_ops.h:118-142 | refines split on values, reusing nodes of count one and falling back to the copying split below a shared node |
| `HeapSets.Uniont` | OLAP/PAM/c++/map_ops.h:183-210 | refines union on values |
| `HeapSets.IntersectI` | OLAP/PAM/c++/map_ops.h:214-242 | refines intersection on values; both operands are given up |
| `HeapSets.DifferenceI` | OLAP/PAM/c++/map_ops.h:244-261 | refines difference on values; both operands are given up |
| `HeapBulk.FromArray` | OLAP/PAM/c++/sequence_ops.h:154-167 | builds the tree of the array and nothing else |
| `HeapBulk.MultiInsertSorted` | OLAP/PAM/c++/map_ops.h:522-551 | refines bulk insertion on values |
| `HeapBulk.MultiDeleteSorted` | OLAP/PAM/c++/map_ops.h:486-518 | refines bulk deletion on values |
| `Sessions.RunBalanced` | OLAP/PAM/c++/map_ops.h:377-551 | over every program of map operations every tree stays balanced |
| `Sessions.RunOrdered` | OLAP/PAM/c++/map_ops.h:377-551 | over every program of map operations every tree stays a search tree |
| `Sessions.CombineIs` | OLAP/PAM/c++/map.h:421-447 | on search trees and key by key: union keeps both sides and applies f to common keys, intersection applies f to common keys only, difference keeps what the second operand lacks, and the concatenation of separated trees keeps both |
| `Sessions.SplitIs` | OLAP/PAM/c++/map_ops.h:144-146 | the halves of a split are the map restricted to the smaller and to the larger keys |
| `Sessions.StepIs` | OLAP/PAM/c++/map.h:193-447 | every command does to the map of every handle, under every key, what it says |
| `Sessions.RunIs` | OLAP/PAM/c++/map.h:193-447 | every program computes, in every handle and under every key, what the same program computes on maps |
| `Sessions.Session.DoCopy` | OLAP/PAM/c++/map.h:44-53 | copy assignment shares the tree: the target handle gets the value, all others keep theirs |
| `Sessions.Session.DoClear` | OLAP/PAM/c++/map.h:105-115 | clearing a handle empties it and leaves all others as they were |
| `Sessions.Session.DoInsert` | OLAP/PAM/c++/map.h:193-199 | insertion through one handle leaves all others as they were, however many nodes they share |
| `Sessions.Session.DoRemove` | OLAP/PAM/c++/map.h:218-219 | removal through one handle leaves all others as they were |
| `Sessions.Session.DoMultiInsert` | OLAP/PAM/c++/map.h:334-338 | bulk insertion through one handle leaves all others as they were |
| `Sessions.Session.DoMultiRemove` | OLAP/PAM/c++/map_ops.h:486-518 | bulk deletion through one handle leaves all others as they were |
| `Sessions.Session.DoSplit` | OLAP/PAM/c++/map_ops.h:144-146 | a split through one handle leaves all handles but the three involved as they were |
| `Sessions.Session.DoBinary` | OLAP/PAM/c++/map.h:421-447 | union, intersection, difference and concatenation give the target the combination of the two maps key by key, consume their operands and leave all other handles as they were |
| `Sessions.Session.Exec` | OLAP/PAM/c++/map.h:193-447 | one operation through handles that share nodes has the effect it has on independent values, and on the map of every handle the effect it says |
| `Sessions.Session.Run` | OLAP/PAM/c++/gc.h:22-122 | persistence and exactness over whole programs: the handles hold what the same program computes on independent values, their maps are those of the program on maps, every count is exact, and a node is live if and only if some handle reaches it |
| `Sessions.ExactlyReachable` | OLAP/PAM/c++/gc.h:22-43 | the live nodes are exactly those that some handle reaches |
| `Treaps.TreapUnique` | OLAP/PAM/c++/treap.h:22-47 | heap order, pairwise distinct priorities and the sequence of entries determine the tree |
| `Treaps.HistoryIndependent` | OLAP/PAM/c++/treap.h:22-47 | any two programs of map operations that leave the same map in a handle leave the identical treap |
| `Treaps.TiesRemember` | OLAP/PAM/c++/treap.h:26-43 | two entries inserted in either order give the same treap if and only if their priorities differ |
| `Augmented.AugIsFold` | OLAP/PAM/c++/augmented_node.h:32-38 | for every associative combine with a unit, commutative or not, the cached value of a node is the fold of from_entry over the entries below it from left to right |
| `Augmented.AugSumRight` | OLAP/PAM/c++/augmented_ops.h:36-45 | the loop over cells computes the specified accumulation, reading cached values only |
| `Augmented.AugSumLeft` | OLAP/PAM/c++/augmented_ops.h:49-58 | the loop over cells computes the specified accumulation, reading cached values only |
| `Augmented.FindRangeRoot` | OLAP/PAM/c++/map_ops.h:263-270 | the loop finds the topmost node with a key in the range |
| `Augmented.AugSumRange` | OLAP/PAM/c++/augmented_ops.h:61-70 | the three parts of a range query, on cells |
| `Augmented.RangeRootIs` | OLAP/PAM/c++/map_ops.h:263-270 | everything inside the range lies below the range root, and the root key is in the range |
| `Augmented.SumRangeIs` | OLAP/PAM/c++/augmented_ops.h:61-70 | for any accumulator that adds up weights, the query adds exactly the weights of the entries with keys in [left, right] |
| `Augmented.AugRange` | OLAP/PAM/c++/augmented_ops.h:23-70 | over a commutative monoid the answer is the fold of from_entry over exactly the entries with keys in [left, right] |
| `Augmented.RangeExact` | OLAP/PAM/c++/augmented_ops.h:34-70 | for an associative combine with a unit the range query is the fold over the range, for all search trees and ranges, if and only if combine is commutative: it visits entries out of key order |
| `Augmented.AugSelectNode` | OLAP/PAM/c++/augmented_ops.h:73-80 | the recursion over cells, reading cached values only, returns the node of the selected entry, or null if nothing is selected |
| `Augmented.AugSelectIs` | OLAP/PAM/c++/augmented_ops.h:73-80 | when f distributes over combine and holds of the empty value, selection returns the first entry in key order that fails f, and nothing if and only if none fails |
| `RangeTrees.UnionSum` | OLAP/PAM/range_query/range_tree.h:57-60 | combining inner maps by a union that adds conserves the sum over any set of keys, overlaps included |
| `RangeTrees.InnerSum` | OLAP/PAM/range_query/range_tree.h:49-62 | the inner map of an outer subtree is a search tree that holds the swapped points of the subtree |
| `RangeTrees.InnerAnswer` | OLAP/PAM/range_query/range_tree.h:119-128 | an inner map asked for its lexicographic (y, x) range answers with the weight of the y range, for subtrees inside the x range |
| `RangeTrees.QuerySum` | OLAP/PAM/range_query/range_tree.h:130-134 | query_sum is the sum of the weights of the points with x in [x1, x2] and y in [y1, y2], for every tree and window |
| `RangeTrees.SumIfPermuted` | OLAP/PAM/range_query/range_tree.h:130-134 | the sum does not depend on how the points are listed |
| `RangeTrees.Construct` | OLAP/PAM/range_query/range_tree.h:85-99 | the tree on cells holds one of the points at every place, in order |
| `RangeTrees.QueryPoints` | OLAP/PAM/range_query/range_tree.h:85-134 | from any list of points to the answer: the brute-force sum over the points that are kept, which are all of them if they are distinct |
| `TopK.SelectFirst` | OLAP/PAM/c++/augmented_ops.h:73-80 | whatever selection finds is the first entry with the largest weight or more |
| `TopK.SelectPadded` | OLAP/PAM/c++/augmented_ops.h:73-80 | with a threshold that is not positive, the first entry that reaches it is found if and only if every node on the way has a left child |
| `TopK.SelectExact` | OLAP/PAM/index/index.h:79-81 | in every tree: the first largest entry is found if and only if its weight is positive or every node on the way has a left child |
| `TopK.SingleSelect` | OLAP/PAM/index/index.h:79-81 | in a list of one entry it is found if and only if its weight is positive |
| `TopK.FindsIsAnswerable` | OLAP/PAM/index/index.h:78-83 | all rounds succeed if and only if in every round the first largest entry is findable in that sense |
| `TopK.TopK` | OLAP/PAM/index/index.h:74-85 | whenever there is an answer it is the best min(k, size) entries, heavier first and smaller document first among equals; there is one if and only if every round finds its entry, which is so if at least that many weights are positive, and for k >= size if and only if all are |
| `TopK.BestUnique` | OLAP/PAM/index/index.h:74-85 | only one list meets that description |
| `Sweeps.BlocksInside` | OLAP/PAM/common/sweep.h:11-19 | all blocks but the last stay inside the array if and only if there is an event or a single block: n - 1 wraps around for n = 0 |
| `Sweeps.Sweep` | OLAP/PAM/common/sweep.h:4-35 | for every number of blocks, blocks of size 0 included, every prefix result is right with respect to any relation that single events and whole blocks both keep |
| `Sweeps.SweepFold` | OLAP/PAM/common/sweep.h:4-35 | if h(x, g(s)) is the fold of s from x then R[j] is the fold of the first j events, for all j <= n |
| `Segments.Collect` | OLAP/PAM/segment/seg_sweep.h:93-101 | the loop separates the segments that begin from those that end |
| `Segments.MergeHolds` | OLAP/PAM/segment/seg_sweep.h:106-109 | (m union add) minus remove is the map of the open places after the block, if m is the one before it |
| `Segments.AddHolds` | OLAP/PAM/segment/seg_sweep.h:87-91 | inserting or removing one segment keeps the map of the open places |
| `Segments.EventsProper` | OLAP/PAM/segment/seg_sweep.h:70-82 | in the sorted end points no segment begins at a place after one that began there has ended |
| `Segments.SegmentSweep` | OLAP/PAM/segment/seg_sweep.h:58-114 | for every number of blocks: if the events are proper, which they are when no segment of length 0 begins where another one does, the result for the first j events holds exactly the places where a segment has begun and none has ended, each with the right end and weight of a segment that began there; and all results hold exactly the active segments, under y and left end the right end and the weight, if and only if segments that begin at the same place are the same |
| `Segments.ExactSegments` | OLAP/PAM/segment/seg_sweep.h:58-114 | given results that are the maps of the open places, all of them hold exactly the segments whose left end has been passed and whose right end has not, if and only if segments that begin at the same place are the same |
| `Segments.NoRoom` | OLAP/PAM/segment/seg_sweep.h:87-91 | if different segments begin at one place there is a moment when no map of the open places holds exactly the active segments |
| `Segments.SharedStart` | OLAP/PAM/segment/seg_sweep.h:58-114 | two segments of different length from one point are an input for which the condition fails |
| `Segments.BlocksExact` | OLAP/PAM/segment/seg_sweep.h:87-109 | merging a block leaves the same places as its events one by one, for every cut and every map, if and only if the events are proper |
| `Graphs.Graph.AddVertex` | OLAP/utilities/Graph.h:49-55 | adds a vertex without connections unless it is there |
| `Graphs.Graph.AddEdge` | OLAP/utilities/Graph.h:36-42 | adds both vertices and the connection in both directions |
| `Graphs.Graph.GetAncestors` | OLAP/utilities/Graph.h:147-177 | the depth-first search returns exactly the vertices other than the start that have a path to it |
| `Graphs.Graph.ParentExist` | OLAP/utilities/Graph.h:197-206 | whether the first vertex is an ancestor of the second and not the second itself |
| `Graphs.WithEdgeAcyclic` | OLAP/utilities/Graph.h:36-42 | adding an edge to an acyclic graph keeps it acyclic if and only if the ends differ and the target is no ancestor of the source |
| `Graphs.WithEdgeWellFormed` | OLAP/utilities/Graph.h:36-42 | parent and child sets stay mirror images |
| `Columns.OrderMsgInv` | OLAP/APServer.cc:251-282 | an order message that does not name itself keeps the graph acyclic and symmetric and the status and waitlist records in step |
| `Columns.OrderMsgAcyclic` | OLAP/APServer.cc:251-282 | an order message keeps the graph acyclic if and only if the transaction does not name itself as a parent |
| `Columns.OrderMsgParents` | OLAP/APServer.cc:251-282 | an order message, for a new or a known transaction, adds exactly the declared parents that the transaction does not lead to: an edge is refused only if it would close a cycle, and no other edge changes |
| `Columns.OrderMsgStatus` | OLAP/APServer.cc:257-275 | known vertices keep their records, the transaction starts with status 0, a parent that was not known with status 1, and nothing else changes |
| `Columns.IngestedOnce` | OLAP/APServer.cc:308-316 | a safe ingestion ingests no transaction twice |
| `Columns.IngestEffect` | OLAP/APServer.cc:339-347 | a safe ingestion marks done exactly what it ingests and consumes exactly those buffers |
| `Columns.IngestLog` | OLAP/APServer.cc:332-347 | a safe ingestion appends the buffered updates to the log in the order of ingestion |
| `Columns.IngestStatus` | OLAP/APServer.cc:332-347 | of a vertex only the status changes, and only if it is ingested |
| `Columns.ScanInv` | OLAP/APServer.cc:41-70 | a scan adds exactly what is not done to the waitlist and keeps the invariant |
| `Columns.ReadyAfter` | OLAP/APServer.cc:317-337 | ingesting other transactions does not change whether one that is not done is ready |
| `Columns.NeededIngested` | OLAP/APServer.cc:317-337 | when a transaction is ingested everything it needed is ingested in the same call |
| `Updates.RunBuffers` | OLAP/APServer.cc:176-202 | at every moment of every run an update is buffered for a transaction if and only if one has arrived since it was last ingested, or since the start, and it is the one that arrived first |
| `Updates.AppliedPayload` | OLAP/APServer.cc:332-347 | an attempt to apply logs, in the order of ingestion, the update that arrived first for each transaction it ingests |
| `Updates.RunLog` | OLAP/APServer.cc:176-347 | over every run whatever is in the log was put there when its transaction was ingested, and is the first update for it that had arrived since it was last ingested before, or since the start |
| `Runs.RunInv` | OLAP/APServer.cc:123-371 | in every reachable state of a column the graph is acyclic and symmetric, a waitlist flag is 1 exactly when its transaction has status 1, and what has status 1 was ingested or was first seen as a parent |
| `Runs.OrderMsgOrderly` | OLAP/APServer.cc:251-282 | a transaction ordered once, after its parents, gets exactly the declared parents: the cycle guard drops no edge |
| `Runs.RunTopological` | OLAP/APServer.cc:239-350 | over every run in which transactions are ordered once and after their parents, the graph holds the declared dependencies and first occurrences in the log are in topological order |
| `Runs.DeclaredBefore` | OLAP/APServer.cc:239-350 | in such a run a transaction is first ingested after each of its declared parents |
| `Runs.ServerRunInv` | OLAP/APServer.cc:35-371 | the invariant holds in every column over every interleaving of messages, attempts and rounds |
| `Runs.QueryFresh` | OLAP/APServer.cc:35-119 | when the wait loop sees an empty waitlist every transaction that had status 0 at its column's scan has been ingested since that scan, whatever happened in between |
| `Dependencies.IngestOrder` | OLAP/APServer.cc:296-350 | in every run, when a transaction is ingested each of its current parents has status 1 and is in the log or was first mentioned as a parent |
| `Runs.NewParents` | OLAP/APServer.cc:251-282 | the first order of a transaction records exactly the parents it declares, known or not |
| `Dependencies.RunTraced` | OLAP/APServer.cc:239-371 | in every run whatever is in the log is in the graph, and what was first mentioned as a parent has status 1 |
| `Dependencies.ApplyExists` | OLAP/APServer.cc:296-371 | a transaction that is ready has a safe ingestion of exactly what it needs |
| `Dependencies.LateParentFails` | OLAP/APServer.cc:251-282 | a run in which a transaction is in the log before its declared parent, which was ordered later |
| `Dependencies.ExactDependency` | OLAP/APServer.cc:251-371 | a dependency declared by the first order of a transaction is respected by the log of every continuation if and only if the parent is known at that moment, and known not only as a parent unless it is in the log |
| `Dependencies.RunExactDependency` | OLAP/APServer.cc:239-371 | the same at every moment of every run |
| `ApServer.Column.constructor` | OLAP/APServer.cc:5-9 | an empty column meets the invariant |
| `ApServer.Column.Ingest` | OLAP/APServer.cc:338-347 | hands over the buffered updates in order, marks the transaction done on both lists and consumes the buffer |
| `ApServer.Column.ApplyUpdateByOrder` | OLAP/APServer.cc:352-371 | terminates on an acyclic graph; true exactly when the transaction and everything of status 0 it reaches backwards through status 0 has a buffered update, and then exactly those are ingested, each once and after its parents; otherwise only some of those are |
| `ApServer.Column.TriggerCheckParent` | OLAP/APServer.cc:296-350 | the same for a transaction that has its own update |
| `ApServer.CheckedParent` | OLAP/APServer.cc:318-336 | one parent tried: either it fails and the transaction cannot be ready, or the loop goes on |
| `ApServer.CheckedAll` | OLAP/APServer.cc:337-347 | all parents done: ingesting the transaction completes everything it needed |
| `ApServer.Column.AddOrder` | OLAP/APServer.cc:250-280 | refines the order message on values, and adds exactly the declared parents that the transaction does not lead to |
| `ApServer.Column.AddUpdate` | OLAP/APServer.cc:176-221 | a first update (type 0) is buffered; a second one leaves the buffer as it is, and an insert and anything else are dropped |
| `ApServer.Column.ScanForQuery` | OLAP/APServer.cc:38-72 | everything of status 0 joins the waitlist, and entries that are there keep their flag |
| `ApServer.Column.CleanOne` | OLAP/APServer.cc:132-140 | one entry is tried and leaves the waitlist exactly when it is done |
| `ApServer.Column.CleanWaitlist` | OLAP/APServer.cc:123-153 | a pass is a run of attempts and removals; what leaves is done, and whatever was ready when the pass began leaves |
| `SerialLogs.Positions` | OLTP/dast/check_serial.py:52-62 | a repeated execution is found if and only if there is one; otherwise every position is recorded |
| `SerialLogs.CheckPair` | OLTP/dast/check_serial.py:64-77 | two logs without repetitions are accepted if and only if some log without repetitions contains both as subsequences |
| `SerialLogs.SerializableIsAgree` | OLTP/dast/check_serial.py:64-77 | a common serial order exists if and only if no two transactions are executed in opposite orders |
| `SerialLogs.JointIsAcyclic` | OLTP/dast/check_serial.py:50-77 | any number of logs have one serial order if and only if none repeats a transaction and no transactions are executed in a cycle, each before the next in some log |
| `SerialLogs.JointPairs` | OLTP/dast/check_serial.py:64-77 | one order for all logs is one for every pair, and for at most two logs the converse holds |
| `SerialLogs.PairwiseOnly` | OLTP/dast/check_serial.py:64-77 | three logs, as many as are configured, can pass in pairs and still have no serial order together |
| `SerialLogs.CheckCrossPartitions` | OLTP/dast/check_serial.py:50-77 | the exit code over any number of partitions: repetition, a pair without a serial order, or neither; what has one order for all is never refused, and what is accepted has one if and only if its precedence is acyclic, and always for two partitions |
| `SerialLogs.CheckReplicas` | OLTP/dast/check_serial.py:33-49 | accepts if and only if every replica log is a prefix of the first one or the other way round |

## Left out

- Concurrency: forked calls are sequential calls, a body under a lock is one atomic step, reference counts are not atomic. Walking the live waitlist while it changes, and comparing iterators of two temporary sets, are read as iteration over the entries and over the parents.
- Machine integers: sizes, counts, heights, weights and sums are unbounded; `float` weights are reals.
- Rounding of the double arithmetic in the weight-balance tests.
- Stores.Store.MakeNode: the allocator may return any free address; pool reservation and reuse order are not modelled.
- Cell: every node carries a height field and an augmented value, which the source has for the schemes and maps that use them.
- HeapSets.IntersectI: on nodes both operands and the result have the same value type; `Maps.IntersectCorrect` has three.
- HeapSets.Uniont: the copy of the root of the second tree is allocated after the recursive calls, not before them; nothing observable depends on it.
- RangeTrees.QuerySum: the inner maps that the outer nodes cache are values, so their sharing is not modelled.
- TopK.TopK: posting lists are values, so the copy of the handle and the reuse of nodes by removal are not modelled.
- Segments.SegmentSweep: x2 is part of the value and not of the key, which compares on y and x1 only; nothing is claimed of the maps when the events are not proper, where the order of equal events decides; sorting is a parameter.
- Sweeps.Sweep: an empty array with more than one block is excluded; `Sweeps.BlocksInside` proves that the blocks then leave the array.
- ApServer.Column.AddUpdate: a later duplicate of an ingested update is accepted again, as in the source, so the log may repeat a transaction; delivery at most once is not claimed.
- Runs.QueryFresh: the waitlist is kept per column; it is empty when every column's part is. Which columns a round scans is arbitrary. That the wait loop ends is not claimed.
- The red-black scheme, `take`, `insert_lazy`, `aug_filter`, `update_j`, `multi_update_sorted`, `left`, `right`, `range`, `rank`, `previous`, `next`, `map_reduce` and the filters.
- `union_`, `get_children`, `get_neighbours` and `get_descendants` of the graph class.
- `query_count` and `query_range` of the range tree, the query front ends of the sweeps, and the segment and rectangle trees.
- The delta store behind ingestion, the TPC-H and CH queries, CSV reading, dates, networking, the transaction tier apart from its log checker, and all experiment and deployment scripts.
