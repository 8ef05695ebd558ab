/**
  The RNBTree class: a recursive naive Bayes tree whose nodes are held in
  one arena `nodes`, node 0 being the root the tree was created with. Each
  method below is the Java method of the same name called on node k; it
  updates the arena in place and is proved to compute the function that
  specifies it in Forest, Growth, Likelihood and Evaluation.
*/
module RNBTree {
  import opened Wrappers
  import opened Classification
  import opened Partition
  import opened Forest
  import opened Growth
  import Likelihood
  import Evaluation

  class Tree {
    /** Every node ever created: its data, its parent and its children. */
    var nodes: seq<Node>
    /** The number of class values of the data set, the arity of every split. */
    const numClasses: nat
    /** The naive Bayes learner: the classifier a node trains on its data. */
    const train: seq<Instance> -> Classifier

    ghost predicate Valid()
      reads this
    {
      && |nodes| >= 1
      && nodes[0].parent == None
      && WellFormed(nodes)
      && numClasses >= 1
      && TrainContract(train, numClasses)
    }

    /** new RNBTree(d): a lone root holding d, with its classifier trained on d. */
    constructor (d: seq<Instance>, numClasses: nat, train: seq<Instance> -> Classifier)
      requires numClasses >= 1 && TrainContract(train, numClasses)
      ensures Valid()
      ensures nodes == [Node(d, None, [])]
      ensures this.numClasses == numClasses && this.train == train
    {
      this.numClasses := numClasses;
      this.train := train;
      nodes := [Node(d, None, [])];
    }

    /** addChild(Instances d) on node k: append a new leaf holding d whose parent is k. */
    method AddChild(k: nat, d: seq<Instance>)
      requires Valid() && k < |nodes|
      modifies this
      ensures Valid()
      ensures nodes == WithChild(old(nodes), k, d)
    {
      WithChildWellFormed(nodes, k, d);
      var n := |nodes|;
      nodes := nodes[k := nodes[k].(children := nodes[k].children + [n])] + [Node(d, Some(k), [])];
    }

    /**
      The routing loop of splitNode on data `data`: each instance goes to the
      bucket getClassIndex picks from the distribution of the classifier
      trained on `data`; there is one bucket per class, filled in data order.
    */
    method RouteData(data: seq<Instance>) returns (buckets: seq<seq<Instance>>)
      requires Valid()
      ensures buckets == Route(data, Router(train(data)), numClasses)
    {
      var classifier := train(data);
      ghost var route := Router(classifier);
      buckets := seq(numClasses, _ => []);
      assert buckets == Route(data[..0], route, numClasses);
      var i := 0;
      while i < |data|
        invariant 0 <= i <= |data|
        invariant buckets == Route(data[..i], route, numClasses)
      {
        var p := classifier.dist(data[i]);
        var idx := GetClassIndex(p);
        RouterInRange(train, numClasses, data, data[i]);
        RouteStep(data[..i], route, numClasses, data[i]);
        assert data[..i + 1] == data[..i] + [data[i]];
        buckets := buckets[idx := buckets[idx] + [data[i]]];
        i := i + 1;
      }
      assert data[..i] == data;
    }

    /**
      splitNode on node k: route k's data into one bucket per class, then
      add one child per bucket, in class order.
    */
    method SplitNode(k: nat)
      requires Valid() && k < |nodes|
      modifies this
      ensures Valid()
      ensures nodes == Split(old(nodes), k, numClasses, train)
    {
      var buckets := RouteData(nodes[k].data);
      var c := 0;
      while c < numClasses
        invariant 0 <= c <= numClasses
        invariant Valid()
        invariant nodes == WithChildren(old(nodes), k, buckets[..c])
      {
        assert buckets[..c + 1][..c] == buckets[..c];
        AddChild(k, buckets[c]);
        c := c + 1;
      }
      assert buckets[..c] == buckets;
    }

    /**
      leafBFS on node k: the leaves of k's subtree in breadth-first order,
      each exactly once.
    */
    method LeafBFS(k: nat) returns (leaves: seq<nat>)
      requires Valid() && k < |nodes|
      ensures leaves == LeavesFrom(nodes, [k]) && leaves != []
      ensures Distinct(leaves)
      ensures forall x: nat :: x in leaves <==> InSubtree(nodes, x, k) && x < |nodes| && nodes[x].IsLeaf()
    {
      var queue: seq<nat> := [k];
      leaves := [];
      while queue != []
        invariant InRange(nodes, queue)
        invariant leaves + LeavesFrom(nodes, queue) == LeavesFrom(nodes, [k])
        decreases SumSizes(nodes, queue)
      {
        ghost var q := queue;
        SumSizesStep(nodes, q);
        var node := queue[0];
        queue := queue[1..];
        if nodes[node].IsLeaf() {
          leaves := leaves + [node];
          assert q[1..] + nodes[node].children == queue;
        } else {
          var children := nodes[node].children;
          var j := 0;
          while j < |children|
            invariant 0 <= j <= |children|
            invariant queue == q[1..] + children[..j]
          {
            assert children[..j + 1] == children[..j] + [children[j]];
            queue := queue + [children[j]];
            j := j + 1;
          }
          assert children[..j] == children;
        }
      }
      LeafBFSExactlyOnce(nodes, k);
      LeavesNonEmpty(nodes, [k]);
    }

    /**
      nodeBFS on node k: every node of k's subtree in breadth-first order,
      starting with k, each exactly once.
    */
    method NodeBFS(k: nat) returns (nodeList: seq<nat>)
      requires Valid() && k < |nodes|
      ensures nodeList == NodesFrom(nodes, [k])
      ensures nodeList != [] && nodeList[0] == k
      ensures Distinct(nodeList)
      ensures forall x: nat :: x in nodeList <==> InSubtree(nodes, x, k)
    {
      var queue: seq<nat> := [k];
      nodeList := [];
      while queue != []
        invariant InRange(nodes, queue)
        invariant nodeList + NodesFrom(nodes, queue) == NodesFrom(nodes, [k])
        decreases SumSizes(nodes, queue)
      {
        ghost var q := queue;
        SumSizesStep(nodes, q);
        var node := queue[0];
        queue := queue[1..];
        nodeList := nodeList + [node];
        var children := nodes[node].children;
        var j := 0;
        while j < |children|
          invariant 0 <= j <= |children|
          invariant queue == q[1..] + children[..j]
        {
          assert children[..j + 1] == children[..j] + [children[j]];
          queue := queue + [children[j]];
          j := j + 1;
        }
        assert children[..j] == children;
      }
      NodeBFSExactlyOnce(nodes, k);
    }

    /** numNode on node k: the size of k's subtree; it is 1 exactly when k is a leaf. */
    method NumNode(k: nat) returns (n: nat)
      requires Valid() && k < |nodes|
      ensures n == |NodesFrom(nodes, [k])|
      ensures n >= 1 && (n == 1 <==> nodes[k].IsLeaf())
    {
      var nodeList := NodeBFS(k);
      n := |nodeList|;
      SingleNodeIffLeaf(nodes, k);
    }

    /** numLeaf on node k: the number of leaves of k's subtree, at least one and at most numNode. */
    method NumLeaf(k: nat) returns (n: nat)
      requires Valid() && k < |nodes|
      ensures n == |LeavesFrom(nodes, [k])|
      ensures 1 <= n <= |NodesFrom(nodes, [k])|
    {
      var leafList := LeafBFS(k);
      n := |leafList|;
      LeafBFSExactlyOnce(nodes, k);
    }

    /** stepGrow on node k: split the first leaf leafBFS lists. */
    method StepGrow(k: nat)
      requires Valid() && k < |nodes|
      modifies this
      ensures Valid()
      ensures nodes == Grow(old(nodes), k, numClasses, train)
    {
      var nodeList := LeafBFS(k);
      var node := nodeList[0];
      SplitNode(node);
    }

    /**
      revokeLastSplit on node k: clear the children of the parent of the
      last leaf leafBFS lists; a parentless last leaf fails and changes nothing.
    */
    method RevokeLastSplit(k: nat) returns (r: Result<(), RevokeError>)
      requires Valid() && k < |nodes|
      modifies this
      ensures Valid()
      ensures r.Err? <==> Revoke(old(nodes), k).Err?
      ensures r.Ok? ==> nodes == Revoke(old(nodes), k).value
      ensures r.Err? ==> nodes == old(nodes)
    {
      var nodeList := LeafBFS(k);
      var last := nodeList[|nodeList| - 1];
      match nodes[last].parent {
        case None =>
          r := Err(NullParent);
        case Some(parentNode) =>
          nodes := nodes[parentNode := nodes[parentNode].(children := [])];
          r := Ok(());
      }
    }

    /**
      computeCLL on node k: a leaf's own value, or the sum over the children
      in order; `leafCLL` is the per-leaf conditional log-likelihood.
    */
    method ComputeCLL(k: nat, leafCLL: seq<Instance> -> real) returns (sum: real)
      requires Valid() && k < |nodes|
      ensures sum == Likelihood.SubtreeCLL(nodes, leafCLL, k)
      ensures sum == Likelihood.LeafSum(nodes, leafCLL, LeavesFrom(nodes, [k]))
      decreases |nodes| - k
    {
      Likelihood.SubtreeCLLSumsLeaves(nodes, leafCLL, k);
      if nodes[k].IsLeaf() {
        return leafCLL(nodes[k].data);
      }
      sum := 0.0;
      var children := nodes[k].children;
      var j := 0;
      while j < |children|
        invariant 0 <= j <= |children|
        invariant sum == Likelihood.ChildrenCLL(nodes, leafCLL, k, j)
      {
        var childCLL := ComputeCLL(children[j], leafCLL);
        sum := sum + childCLL;
        j := j + 1;
      }
    }

    /**
      evaluate on node k: count the instances of every leaf below k as
      negative predictions when the leaf is its parent's first child and as
      positive ones otherwise, then form the four ratios.
    */
    method Evaluate(k: nat) returns (r: Result<Evaluation.Metrics, Evaluation.EvalError>)
      requires Valid() && k < |nodes|
      ensures r == Evaluation.Evaluate(nodes, k)
    {
      var leaves := LeafBFS(k);
      var truePositive, falsePositive, trueNegative, falseNegative := 0, 0, 0, 0;
      var i := 0;
      while i < |leaves|
        invariant 0 <= i <= |leaves|
        invariant Evaluation.EvalCounts(nodes, leaves[..i])
                  == Ok(Evaluation.Confusion(truePositive, falsePositive, trueNegative, falseNegative))
      {
        var leaf := leaves[i];
        assert leaves[..i + 1][..i] == leaves[..i];
        match nodes[leaf].parent {
          case None =>
            assert Evaluation.EvalCounts(nodes, leaves[..i + 1]).Err?;
            Evaluation.EvalCountsErrSticky(nodes, leaves, i + 1);
            assert Evaluation.EvalCounts(nodes, leaves).error.NullParent?;
            return Err(Evaluation.NullParent);
          case Some(parent) =>
            var positive := Evaluation.IndexOf(nodes[parent].children, leaf) != 0;
            var data := nodes[leaf].data;
            ghost var before := Evaluation.Confusion(truePositive, falsePositive, trueNegative, falseNegative);
            var j := 0;
            while j < |data|
              invariant 0 <= j <= |data|
              invariant Evaluation.Confusion(truePositive, falsePositive, trueNegative, falseNegative)
                        == Evaluation.Tally(before, data[..j], positive)
            {
              assert data[..j + 1][..j] == data[..j];
              if !positive {
                if data[j].classValue == 0 {
                  trueNegative := trueNegative + 1;
                } else {
                  falseNegative := falseNegative + 1;
                }
              } else {
                if data[j].classValue == 0 {
                  falsePositive := falsePositive + 1;
                } else {
                  truePositive := truePositive + 1;
                }
              }
              j := j + 1;
            }
            assert data[..j] == data;
        }
        i := i + 1;
      }
      assert leaves[..i] == leaves;
      r := Ok(Evaluation.ToMetrics(Evaluation.Confusion(truePositive, falsePositive, trueNegative, falseNegative)));
    }
  }
}
