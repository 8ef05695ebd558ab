/**
  The summation structure of computeCLL: a leaf contributes its own
  conditional log-likelihood, an internal node the sum over its children,
  left to right. The leaf value itself (a logarithm in the Java code) is a
  parameter `leafCLL` of its data.
*/
module Likelihood {
  import opened Classification
  import opened Forest

  /** computeCLL on node k. */
  function SubtreeCLL(nodes: seq<Node>, leafCLL: seq<Instance> -> real, k: nat): real
    requires WellFormed(nodes) && k < |nodes|
    decreases |nodes| - k, 1, 0
  {
    if nodes[k].IsLeaf() then leafCLL(nodes[k].data)
    else ChildrenCLL(nodes, leafCLL, k, |nodes[k].children|)
  }

  /** The running sum of computeCLL's loop after the first j children of node k. */
  function ChildrenCLL(nodes: seq<Node>, leafCLL: seq<Instance> -> real, k: nat, j: nat): real
    requires WellFormed(nodes) && k < |nodes| && j <= |nodes[k].children|
    decreases |nodes| - k, 0, j
  {
    if j == 0 then 0.0
    else ChildrenCLL(nodes, leafCLL, k, j - 1) + SubtreeCLL(nodes, leafCLL, nodes[k].children[j - 1])
  }

  /** The leaf values of the nodes listed in `leaves`, added up. */
  ghost function LeafSum(nodes: seq<Node>, leafCLL: seq<Instance> -> real, leaves: seq<nat>): real
    requires InRange(nodes, leaves)
  {
    if leaves == [] then 0.0 else leafCLL(nodes[leaves[0]].data) + LeafSum(nodes, leafCLL, leaves[1..])
  }

  /** computeCLL of every node in a queue, added up. */
  ghost function QueueCLL(nodes: seq<Node>, leafCLL: seq<Instance> -> real, q: seq<nat>): real
    requires WellFormed(nodes) && InRange(nodes, q)
  {
    if q == [] then 0.0 else SubtreeCLL(nodes, leafCLL, q[0]) + QueueCLL(nodes, leafCLL, q[1..])
  }

  lemma {:induction false} QueueCLLAppend(nodes: seq<Node>, leafCLL: seq<Instance> -> real, a: seq<nat>, b: seq<nat>)
    requires WellFormed(nodes) && InRange(nodes, a) && InRange(nodes, b)
    ensures InRange(nodes, a + b)
    ensures QueueCLL(nodes, leafCLL, a + b) == QueueCLL(nodes, leafCLL, a) + QueueCLL(nodes, leafCLL, b)
  {
    if a == [] {
      assert a + b == b;
    } else {
      assert (a + b)[1..] == a[1..] + b;
      QueueCLLAppend(nodes, leafCLL, a[1..], b);
    }
  }

  lemma {:induction false} ChildrenCLLIsQueueCLL(nodes: seq<Node>, leafCLL: seq<Instance> -> real, k: nat, j: nat)
    requires WellFormed(nodes) && k < |nodes| && j <= |nodes[k].children|
    ensures InRange(nodes, nodes[k].children[..j])
    ensures ChildrenCLL(nodes, leafCLL, k, j) == QueueCLL(nodes, leafCLL, nodes[k].children[..j])
  {
    var ch := nodes[k].children;
    if j > 0 {
      ChildrenCLLIsQueueCLL(nodes, leafCLL, k, j - 1);
      assert ch[..j] == ch[..j - 1] + [ch[j - 1]];
      QueueCLLAppend(nodes, leafCLL, ch[..j - 1], [ch[j - 1]]);
    }
  }

  lemma {:induction false} LeafSumOfLeavesFrom(nodes: seq<Node>, leafCLL: seq<Instance> -> real, q: seq<nat>)
    requires WellFormed(nodes) && InRange(nodes, q)
    ensures LeafSum(nodes, leafCLL, LeavesFrom(nodes, q)) == QueueCLL(nodes, leafCLL, q)
    decreases SumSizes(nodes, q)
  {
    if q != [] {
      SumSizesStep(nodes, q);
      var ch := nodes[q[0]].children;
      if nodes[q[0]].IsLeaf() {
        var rest := LeavesFrom(nodes, q[1..]);
        assert ([q[0]] + rest)[1..] == rest;
        LeafSumOfLeavesFrom(nodes, leafCLL, q[1..]);
      } else {
        LeafSumOfLeavesFrom(nodes, leafCLL, q[1..] + ch);
        QueueCLLAppend(nodes, leafCLL, q[1..], ch);
        ChildrenCLLIsQueueCLL(nodes, leafCLL, q[0], |ch|);
        assert ch[..|ch|] == ch;
      }
    }
  }

  /**
    computeCLL on node k is the sum of the leaf values over exactly the
    leaves leafBFS lists from k: internal nodes contribute nothing of their own.
  */
  lemma SubtreeCLLSumsLeaves(nodes: seq<Node>, leafCLL: seq<Instance> -> real, k: nat)
    requires WellFormed(nodes) && k < |nodes|
    ensures SubtreeCLL(nodes, leafCLL, k) == LeafSum(nodes, leafCLL, LeavesFrom(nodes, [k]))
  {
    LeafSumOfLeavesFrom(nodes, leafCLL, [k]);
    assert [k][1..] == [];
  }
}
