/**
  predInstance: a leaf answers with its own classifier; an internal node
  asks its own classifier and hands the instance to its first child when
  the answer is class 0 and to its second child otherwise. The dispatch
  goes at most one level down.
*/
module Prediction {
  import opened Wrappers
  import opened Classification
  import opened Forest

  /** `children().get(1)` on a node with fewer than two children throws. */
  datatype PredError = IndexOutOfBounds

  /** predInstance on node k; a node's classifier is `train` applied to its data. */
  function PredInstance(nodes: seq<Node>, train: seq<Instance> -> Classifier, k: nat, x: Instance): (r: Result<nat, PredError>)
    requires WellFormed(nodes) && k < |nodes|
    ensures nodes[k].IsLeaf() ==> r == Ok(train(nodes[k].data).classify(x))
    ensures !nodes[k].IsLeaf() && train(nodes[k].data).classify(x) == 0 ==>
              r == Ok(train(nodes[nodes[k].children[0]].data).classify(x))
    ensures !nodes[k].IsLeaf() && train(nodes[k].data).classify(x) != 0 ==>
              (r.Err? <==> |nodes[k].children| < 2)
    ensures !nodes[k].IsLeaf() && train(nodes[k].data).classify(x) != 0 && |nodes[k].children| >= 2 ==>
              r == Ok(train(nodes[nodes[k].children[1]].data).classify(x))
    ensures r.Ok? ==> exists c :: (c == k || c in nodes[k].children) && r.value == train(nodes[c].data).classify(x)
  {
    var node := nodes[k];
    var answer := train(node.data).classify(x);
    if node.IsLeaf() then Ok(answer)
    else if answer == 0 then Ok(train(nodes[node.children[0]].data).classify(x))
    else if |node.children| < 2 then Err(IndexOutOfBounds)
    else Ok(train(nodes[node.children[1]].data).classify(x))
  }

  /**
    The prediction at node k depends only on the data of k and of its
    children: two trees that agree there predict alike, whatever lies deeper.
  */
  lemma PredictionIsLocal(nodes: seq<Node>, other: seq<Node>, train: seq<Instance> -> Classifier, k: nat, x: Instance)
    requires WellFormed(nodes) && WellFormed(other) && k < |nodes| && k < |other|
    requires nodes[k].data == other[k].data && nodes[k].children == other[k].children
    requires forall c :: c in nodes[k].children ==> nodes[c].data == other[c].data
    ensures PredInstance(nodes, train, k, x) == PredInstance(other, train, k, x)
  {
    var ch := nodes[k].children;
    if |ch| > 0 {
      assert ch[0] in ch;
    }
    if |ch| > 1 {
      assert ch[1] in ch;
    }
  }
}
