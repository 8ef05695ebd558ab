/**
  Instances and the opaque probabilistic classifier each tree node trains
  on its own data, and `getClassIndex`, which turns a class distribution
  into the index of the bucket an instance is routed to.
*/
module Classification {

  /** A Weka instance: feature values and the index of its class value. */
  datatype Instance = Instance(features: seq<real>, classValue: nat)

  /**
    A trained classifier, as far as the tree uses it: the class distribution
    (`distributionForInstance`) and the predicted class index
    (`classifyInstance`). Its learning algorithm is not part of the model.
  */
  datatype Classifier = Classifier(dist: Instance -> seq<real>, classify: Instance -> nat)

  /**
    What the tree relies on from the training procedure: every distribution
    has one entry per class value.
  */
  ghost predicate TrainContract(train: seq<Instance> -> Classifier, numClasses: nat) {
    forall d: seq<Instance>, x: Instance :: |train(d).dist(x)| == numClasses
  }

  /** The running maximum `p_max` of getClassIndex after reading all of `p`; it starts at 0.0. */
  function Peak(p: seq<real>): (r: real)
    ensures r >= 0.0
    ensures forall j :: 0 <= j < |p| ==> p[j] <= r
    ensures r > 0.0 ==> exists j :: 0 <= j < |p| && p[j] == r
  {
    if p == [] then 0.0
    else
      var r := Peak(p[..|p| - 1]);
      if p[|p| - 1] > r then p[|p| - 1] else r
  }

  /**
    The index getClassIndex returns: the lowest index holding the strict
    maximum of `p`, or 0 when no entry exceeds 0.0 (which covers empty `p`).
  */
  function ClassIndex(p: seq<real>): (r: nat)
    ensures r == 0 || r < |p|
    ensures (forall j :: 0 <= j < |p| ==> p[j] <= 0.0) ==> r == 0
    ensures (exists j :: 0 <= j < |p| && p[j] > 0.0) ==>
              && r < |p| && p[r] > 0.0
              && (forall j :: 0 <= j < |p| ==> p[j] <= p[r])
              && (forall j :: 0 <= j < r ==> p[j] < p[r])
    ensures Peak(p) > 0.0 ==> r < |p| && p[r] == Peak(p)
  {
    if p == [] then 0
    else
      var front := p[..|p| - 1];
      var i := ClassIndex(front);
      assert forall j :: 0 <= j < |front| ==> p[j] == front[j];
      if p[|p| - 1] > Peak(front) then |p| - 1 else i
  }

  /** Java's getClassIndex: a scan keeping the running maximum and its index. */
  method GetClassIndex(p: seq<real>) returns (index: nat)
    ensures index == ClassIndex(p)
  {
    index := 0;
    var pMax := 0.0;
    var i := 0;
    while i < |p|
      invariant 0 <= i <= |p|
      invariant index == ClassIndex(p[..i]) && pMax == Peak(p[..i])
    {
      assert p[..i + 1][..i] == p[..i];
      if p[i] > pMax {
        index := i;
        pMax := p[i];
      }
      i := i + 1;
    }
    assert p[..i] == p;
  }

  /** The bucket index splitNode computes for an instance under classifier `c`. */
  function Router(c: Classifier): (route: Instance -> nat)
    ensures forall x :: |c.dist(x)| >= 1 ==> route(x) < |c.dist(x)|
  {
    x => ClassIndex(c.dist(x))
  }

  /** Under the training contract, every instance is routed to an existing bucket. */
  lemma RouterInRange(train: seq<Instance> -> Classifier, numClasses: nat, d: seq<Instance>, x: Instance)
    requires TrainContract(train, numClasses) && numClasses >= 1
    ensures Router(train(d))(x) < numClasses
  {
    assert |train(d).dist(x)| == numClasses;
  }
}
