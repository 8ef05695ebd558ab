# RNBTree: a recursive naive Bayes tree, modelled in Dafny

The Java class `RNBTree` is a tree of naive Bayes classifiers. Each node
holds a set of training instances and a classifier trained on them.

Growing the tree:
- `splitNode` routes a node's instances into one bucket per class value,
  using the class its own classifier predicts (`getClassIndex`).
- It then adds one child per bucket.
- `stepGrow` splits the first leaf that a breadth-first walk (`leafBFS`)
  meets.
- `revokeLastSplit` undoes a split by clearing the children of the last
  leaf's parent.

Inspecting the tree:
- `nodeBFS`, `numNode` and `numLeaf` enumerate and count nodes and leaves.
- `computeCLL` adds up the leaves' conditional log-likelihoods.
- `evaluate` counts true and false positives and negatives over the leaves
  (a leaf that is its parent's first child predicts class 0) and forms
  precision, recall, F-measure and accuracy.
- `predInstance` classifies an instance by asking a node and at most one of
  its children.

The model keeps every node in one arena, `RNBTree.Tree.nodes: seq<Node>`.
A Java `RNBTree` object becomes an index into that arena, and the receiver
of each Java method becomes a parameter `k`.

A node records:
- its data,
- its parent (`Option<nat>`),
- its ordered children.

Its classifier is `train(data)`, where `train` is a parameter of the tree
that stands for naive Bayes training. The arena invariant `Forest.WellFormed`
says three things:
- a child has a larger index than its parent;
- every listed child points back to the node that lists it;
- no child is listed twice.

The Java methods that change the tree or walk it with loops are methods of
the class `RNBTree.Tree`: the constructor, `addChild`, `splitNode`,
`leafBFS`, `nodeBFS`, `numNode`, `numLeaf`, `stepGrow`, `revokeLastSplit`,
`computeCLL` and `evaluate`. The constructor ensures that the arena is the
single parentless leaf `[Node(d, None, [])]`. Each of the others is proved
against a specification function:
- `Growth.WithChild`, `Growth.Split`, `Growth.Grow` and `Growth.Revoke` for the growth methods;
- `Forest.NodesFrom` and `Forest.LeavesFrom` for the breadth-first walks;
- `Likelihood.SubtreeCLL` for `computeCLL`;
- `Evaluation.Evaluate` for `evaluate`.

Three other Java methods are modelled outside the class:
- `getClassIndex` is the method `Classification.GetClassIndex`, proved equal to the function `Classification.ClassIndex`.
- `isLeaf` is the predicate `Forest.Node.IsLeaf`.
- `predInstance`, which only reads the tree, is the function `Prediction.PredInstance`.

The properties are lemmas about those functions.

Modules:
- `Wrappers`: `Option` and `Result`.
- `Classification`: instances, classifiers and `getClassIndex`.
- `Partition`: the buckets of a split.
- `Forest`: nodes, well-formedness and the breadth-first enumerations.
- `Growth`: split, grow and undo, and the level-by-level shape of a grown
  tree.
- `Likelihood`: the sum behind `computeCLL`.
- `Evaluation`: the counters and ratios of `evaluate`.
- `Prediction`: `predInstance`.
- `RNBTree`: the class.

On a tree that has never been split, `evaluate` reads the parent of the
root leaf, which is null (src/RNBTree.java:198-199), and throws. The model
returns `Err(NullParent)` in that case; see `Evaluation.EvaluateLoneRootFails`.

## Model

| member | source | states |
|---|---|---|
| Classification.ClassIndex | src/RNBTree.java:128-138 | the returned index is 0 or in range. It is 0 when no probability exceeds 0.0. Otherwise it holds a maximal, positive probability, and every earlier index holds a strictly smaller one, so ties go to the lowest index |
| Classification.GetClassIndex | src/RNBTree.java:128-138 | the running-maximum scan returns exactly `ClassIndex(p)` |
| Classification.Peak | src/RNBTree.java:130-136 | the final `p_max` is non-negative, bounds every entry, and when positive is one of the entries |
| Classification.Router | src/RNBTree.java:110-111 | the bucket chosen for an instance (`getClassIndex` of its distribution) is an index of that distribution whenever it is non-empty |
| Classification.RouterInRange | src/RNBTree.java:108-112 | given one probability per class, the bucket index picked for an instance is a valid bucket |
| Partition.RouteStep | src/RNBTree.java:108-112 | routing one more instance appends it to the end of its own bucket and leaves the other buckets unchanged |
| Partition.RoutePartitions | src/RNBTree.java:103-116 | the buckets together hold exactly the node's instances, with multiplicity. Their sizes add up to the node's size. Every instance is in the bucket its classifier picks |
| Growth.SplitBucketsPartition | src/RNBTree.java:102-120 | the buckets of a split have one entry per class and partition the node's data. Each instance lands in the bucket at the index `getClassIndex` picks from its distribution |
| Growth.WithChildren | src/RNBTree.java:117-119 | adding one child per bucket extends node k's children by the new indices in bucket order. Each new node holds its bucket, has parent k and no children. Other nodes are untouched and well-formedness is kept |
| Growth.WithChildWellFormed | src/RNBTree.java:43-50 | appending a child keeps the arena well-formed |
| Growth.WithChild | src/RNBTree.java:43-50 | `addChild(Instances d)` on node k appends a new leaf holding d with parent k, and adds its index at the end of k's children |
| Growth.SplitBuckets | src/RNBTree.java:103-116 | the buckets `splitNode` fills: one per class, routed by the node's own classifier (properties in `Growth.SplitBucketsPartition`) |
| Growth.Split | src/RNBTree.java:102-120 | `splitNode` on k: node k receives one new child per bucket, in class order (properties in `Growth.WithChildren`) |
| Growth.Grow | src/RNBTree.java:140-144 | `stepGrow` splits the first leaf f that `leafBFS` lists. f keeps its data and parent and gets the children \|nodes\| .. \|nodes\|+numClasses-1. New node \|nodes\|+c holds bucket c of f's split, has parent f and no children. Every other node is unchanged and the arena stays well-formed |
| Growth.Revoke | src/RNBTree.java:122-126 | `revokeLastSplit` fails when the last leaf has no parent. Otherwise it clears exactly the children of that parent and changes nothing else |
| Growth.ShapedLevel | src/RNBTree.java:140-144 | in a tree grown by `stepGrow` from a lone root, node i's children are the block the breadth-first queue appends when i is dequeued |
| Growth.NodesFromLevels | src/RNBTree.java:175-188 | on a tree stored level by level, `nodeBFS` from a queue of consecutive nodes lists the nodes in index order |
| Growth.LeafFilterRange | src/RNBTree.java:156-173 | when exactly the nodes from m on are leaves, the leaves of i .. n-1 are max(i,m) .. n-1 |
| Growth.ShapedBFS | src/RNBTree.java:156-188 | in a tree grown by m calls of `stepGrow` with C classes, `nodeBFS` lists 0 .. C·m and `leafBFS` lists m .. C·m |
| Growth.GrowShaped | src/RNBTree.java:140-144 | on such a tree `stepGrow` splits node m, the first leaf, and the result has the same shape with m+1 splits |
| Growth.RevokeShaped | src/RNBTree.java:122-126 | on the shape with m+1 splits, `revokeLastSplit` succeeds by clearing node m's children and gives the shape with m splits |
| Growth.SplitShaped | src/RNBTree.java:140-144 | giving node m of the shape with m splits numClasses new leaf children yields the shape with m+1 splits |
| Growth.ShapedUnsplit | src/RNBTree.java:122-126 | clearing node m's children in the shape with m+1 splits yields the shape with m splits |
| Growth.GrowThenRevoke | src/RNBTree.java:122-144 | `stepGrow` followed by `revokeLastSplit` succeeds. Every node that existed before is restored, so `nodeBFS` and `leafBFS` list what they listed before |
| Growth.GrowThenRevokeRestores | src/RNBTree.java:122-144 | after `stepGrow` then `revokeLastSplit`, the first \|nodes\| entries of the arena equal the original ones, and the result is shaped and well-formed |
| Growth.Grown | src/RNBTree.java:140-144 | n calls of `stepGrow` on a lone root give a well-formed tree of 1 + C·n nodes, with the shape above and a parentless root |
| Growth.RevokeLoneRootFails | src/RNBTree.java:122-126 | `revokeLastSplit` on a lone root finds no parent and fails |
| Growth.InSubtreeAfterSplit | src/RNBTree.java:117-119 | after the leaf f receives new leaf children, node x lies below e exactly when it did before, or it is a new node and f lies below e |
| Growth.GrowIsSplitOf | src/RNBTree.java:140-144 | `stepGrow` on k gives new leaves to the first leaf `leafBFS` lists, a node of k's subtree, and changes no other node |
| Growth.SplitSubtree | src/RNBTree.java:140-144 | after such a split, the subtree of k gains exactly the new nodes |
| Growth.SubtreeGainCount | src/RNBTree.java:146-149 | when the subtree of k gains exactly the new nodes, `nodeBFS` from k lists that many more nodes |
| Growth.SplitLeafMember | src/RNBTree.java:156-173 | after the split of f, a leaf below k is an old leaf other than f, or a new node |
| Growth.SplitLeafCount | src/RNBTree.java:151-154 | after the split of a leaf f below k, `leafBFS` from k lists the new nodes in place of f |
| Growth.GrowCounts | src/RNBTree.java:140-154 | on every well-formed tree, `stepGrow` on k adds numClasses nodes to what `numNode` counts from k and numClasses-1 to what `numLeaf` counts |
| Forest.NodesFrom | src/RNBTree.java:175-188 | the walk from a non-empty queue starts with the queue's head and lists only nodes of the arena |
| Forest.LeavesFrom | src/RNBTree.java:156-173 | the list `leafBFS` builds from a queue: a leaf at the head is output, an internal node is replaced by its children at the back. It lists only nodes of the arena (properties in `Forest.LeafBFSExactlyOnce`) |
| Forest.NodesFromListed | src/RNBTree.java:175-188 | every node the walk lists lies in the subtree of some queued node |
| Forest.NodesFromComplete | src/RNBTree.java:175-188 | every node in the subtree of a queued node is listed by the walk |
| Forest.QueueInvariantStep | src/RNBTree.java:180-186 | one round of the loop keeps two facts: output and queue together hold no duplicates, and every node other than the start has its parent already output |
| Forest.NodesFromDistinctFrom | src/RNBTree.java:175-188 | under that invariant, the output followed by the rest of the walk has no duplicates |
| Forest.NodeBFSExactlyOnce | src/RNBTree.java:175-188 | `nodeBFS` from k starts with k and lists each node of k's subtree exactly once, and nothing else |
| Forest.LeavesAreFilteredNodes | src/RNBTree.java:156-173 | `leafBFS` lists exactly the leaves of `nodeBFS`'s list, in the same order |
| Forest.LeafFilterMembers | src/RNBTree.java:163-165 | filtering keeps exactly the members that are leaves |
| Forest.LeafBFSExactlyOnce | src/RNBTree.java:146-173 | `leafBFS` from k lists each leaf of k's subtree exactly once and nothing else, so `numLeaf` is at most `numNode` |
| Forest.SingleNodeIffLeaf | src/RNBTree.java:146-149 | `numNode` is 1 exactly when the node is a leaf |
| Forest.LeavesNonEmpty | src/RNBTree.java:156-173 | `leafBFS` from a non-empty queue lists at least one leaf, so `getFirst` and `getLast` succeed |
| Forest.InSubtreeBelow | src/RNBTree.java:43-50 | every node in the subtree of e has an index at least e |
| Forest.Node.IsLeaf | src/RNBTree.java:39-41 | a node is a leaf exactly when its children list is empty |
| RNBTree.Tree.constructor | src/RNBTree.java:15-29 | a new tree is a single parentless leaf holding the data, and is valid |
| RNBTree.Tree.AddChild | src/RNBTree.java:43-50 | appends a new leaf with the data and parent k to node k's children. The tree stays valid |
| RNBTree.Tree.RouteData | src/RNBTree.java:103-116 | the routing loop of `splitNode` fills exactly the buckets `Partition.Route` specifies |
| RNBTree.Tree.SplitNode | src/RNBTree.java:102-120 | the new arena is `Growth.Split` of the old one and the tree stays valid |
| RNBTree.Tree.LeafBFS | src/RNBTree.java:156-173 | the queue loop returns `Forest.LeavesFrom`: non-empty, duplicate-free, and exactly the leaves of k's subtree |
| RNBTree.Tree.NodeBFS | src/RNBTree.java:175-188 | the queue loop returns `Forest.NodesFrom`: it starts with k, is duplicate-free, and holds exactly the nodes of k's subtree |
| RNBTree.Tree.NumNode | src/RNBTree.java:146-149 | returns the size of k's subtree: at least 1, and 1 exactly when k is a leaf |
| RNBTree.Tree.NumLeaf | src/RNBTree.java:151-154 | returns the number of leaves in k's subtree: at least 1 and at most `numNode` |
| RNBTree.Tree.StepGrow | src/RNBTree.java:140-144 | the new arena is `Growth.Grow` of the old one and the tree stays valid |
| RNBTree.Tree.RevokeLastSplit | src/RNBTree.java:122-126 | fails exactly when `Growth.Revoke` fails, and then changes nothing. Otherwise the new arena is `Revoke`'s result |
| Likelihood.SubtreeCLL | src/RNBTree.java:62-73 | `computeCLL` on k: the leaf value of a leaf, and otherwise the sum over its children in order (property in `Likelihood.SubtreeCLLSumsLeaves`) |
| Likelihood.ChildrenCLL | src/RNBTree.java:67-70 | the running sum of `computeCLL`'s loop after the first j children |
| Likelihood.ChildrenCLLIsQueueCLL | src/RNBTree.java:66-71 | the loop's running sum after j children is the sum of those children's values |
| Likelihood.LeafSumOfLeavesFrom | src/RNBTree.java:62-73 | the sum of `computeCLL` over a queue equals the sum of the leaf values over the leaves `leafBFS` lists from it |
| Likelihood.SubtreeCLLSumsLeaves | src/RNBTree.java:62-73 | `computeCLL` on k is the sum of the leaf values over exactly the leaves of k's subtree. Internal nodes contribute nothing of their own |
| RNBTree.Tree.ComputeCLL | src/RNBTree.java:62-73 | the recursive method with its loop returns `SubtreeCLL`, which is the leaf sum above |
| Evaluation.IndexOf | src/RNBTree.java:199 | `indexOf` gives the first position of x, or -1 exactly when x is absent |
| Evaluation.Zeros | src/RNBTree.java:200-219 | the number of class-0 instances is at most the data size |
| Evaluation.CountOne | src/RNBTree.java:200-219 | one instance counted by the inner loop: into TN or FN for a first-child leaf, into FP or TP otherwise, by whether its class is 0 |
| Evaluation.Tally | src/RNBTree.java:200-219 | the inner loop over a leaf's data (closed form in `Evaluation.TallyCounts`) |
| Evaluation.EvalCounts | src/RNBTree.java:192-221 | the outer loop over the leaves, failing at the first leaf without a parent (properties in `Evaluation.EvalCountsTotals`) |
| Evaluation.TallyCounts | src/RNBTree.java:199-220 | counting a first-child leaf adds its class-0 instances to TN and the rest to FN. Any other leaf adds them to FP and TP |
| Evaluation.EvalCountsTotals | src/RNBTree.java:190-221 | counting fails exactly when some leaf has no parent. Otherwise the four counters add up to the number of instances in the leaves, TN+FP is the number of class-0 instances, and TP+FP is the number of instances in non-first-child leaves |
| Evaluation.EvalCountsErrSticky | src/RNBTree.java:197-198 | once a leaf without a parent is reached, the whole evaluation fails |
| Evaluation.Div | src/RNBTree.java:223-226 | a ratio is a number exactly when the denominator is non-zero, and then times the denominator it gives the numerator. 0/0 is NaN |
| Evaluation.FMeasure | src/RNBTree.java:225 | the F-measure is a number exactly when both inputs are numbers with a non-zero sum, and then it satisfies F·(P+R) = 2·P·R |
| Evaluation.ToMetrics | src/RNBTree.java:223-226 | precision is a number iff TP+FP > 0, recall iff TP+FN > 0, the F-measure iff TP > 0, and accuracy iff some instance was counted |
| Evaluation.DivInUnitRange | src/RNBTree.java:223-226 | a count divided by a count at least as large lies in [0, 1] |
| Evaluation.FMeasureInUnitRange | src/RNBTree.java:225 | the F-measure of two ratios in [0, 1] lies in [0, 1] |
| Evaluation.MetricsInUnitRange | src/RNBTree.java:223-226 | every ratio `evaluate` returns is NaN or lies in [0, 1] |
| Evaluation.EvaluateOutcome | src/RNBTree.java:190-226 | `evaluate` on k fails exactly when a leaf of k's subtree has no parent. Otherwise precision is a number exactly when some leaf that is not its parent's first child holds data, recall exactly when some instance below k has a non-zero class, and accuracy exactly when the leaves hold any instance |
| Evaluation.EvaluateLoneRootFails | src/RNBTree.java:197-199 | `evaluate` on a lone parentless leaf fails with the null-parent error |
| Evaluation.Evaluate | src/RNBTree.java:190-232 | `evaluate` on k: the counts over the leaves `leafBFS` lists from k, turned into the four ratios, or the error the counting stops with (properties in `Evaluation.EvaluateOutcome`) |
| RNBTree.Tree.Evaluate | src/RNBTree.java:190-232 | the nested counting loops return exactly `Evaluation.Evaluate` |
| Prediction.PredInstance | src/RNBTree.java:234-248 | a leaf answers with its own classifier. An internal node whose own answer is 0 answers with its first child's classifier. With any other answer it fails exactly when it has fewer than two children, and otherwise answers with its second child's classifier. The answer always comes from k or one of its children |
| Prediction.PredictionIsLocal | src/RNBTree.java:234-248 | two trees that agree on the data and children of k and on the data of k's children give the same prediction, whatever lies deeper |

## Left out

- Naive Bayes training, `distributionForInstance` and `classifyInstance` are parameters (`train`, `dist`, `classify`). The tree only relies on one probability per class value (`TrainContract`).
- Distributions of the wrong length. A distribution shorter than `numClasses` yields an index below its own length, so `data_pred.get(idx)` (src/RNBTree.java:111-112) succeeds, routing runs to the end and the upper buckets stay empty; the model does the same. A longer distribution whose arg-max index is `numClasses` or more makes `get` throw; the catch at src/RNBTree.java:114-116 swallows it, the remaining instances are never routed, and lines 117-119 still add all `numClasses` children. `Growth.SplitBuckets`, `Growth.Split` and `Growth.Grow` do not require `TrainContract`, but on that path `Partition.Bucket` drops only the offending instance and goes on routing the rest, where Java stops: the model does not capture the early stop. The partition lemmas assume that every instance routes to an existing bucket: `Partition.RoutePartitions` states it directly, and `Growth.SplitBucketsPartition` gets it from `TrainContract`. Under that assumption the path cannot occur.
- `CLL` (the per-leaf log-likelihood, src/RNBTree.java:75-100) is the parameter `leafCLL`, and `computeCMDL` (src/RNBTree.java:52-60) is not modelled: both are floating-point logarithm formulas over Weka statistics.
- Doubles are exact reals and the counters of `evaluate` are naturals. Rounding, infinities and a NaN class value are not modelled. NaN appears only as the result of 0/0, as `Ratio.NaN`.
- Class values are class indices (`nat`). A label compared with `0.0` is the index 0.
- `printStackTrace` in the constructor and in `splitNode` is console output and is left out.
- Nodes detached by `revokeLastSplit` stay in the arena as unreachable garbage, as the Java objects do until collected. The round-trip lemmas speak about the original prefix of the arena and about what the breadth-first walks list.
- The `addChild(RNBTree subtree)` overload (src/RNBTree.java:47-50) is modelled only through `addChild(Instances d)`, which always passes a fresh, parentless subtree. Grafting an existing subtree, which could create sharing or cycles, is not modelled.
- Exceptions that end a Java method are error results: a null parent is `NullParent`, and `children().get(1)` out of range is `IndexOutOfBounds`. Any exception thrown by Weka itself is not modelled.
- Growth.GrowThenRevoke: the round trip is proved only for trees grown from a lone root by `stepGrow` (the `Shaped` trees), where it holds. On an arbitrary tree `revokeLastSplit` need not undo the last `stepGrow`.
- The driver program RNBL.java, which loads data, runs the grow-and-score loop and prints results, is not part of this model.
