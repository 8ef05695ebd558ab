/**
  evaluate: every leaf that is the first child of its parent predicts the
  negative class, every other leaf the positive class; the confusion
  counts over the leaves' data give precision, recall, F-measure and accuracy.
*/
module Evaluation {
  import opened Wrappers
  import opened Classification
  import opened Forest

  /** The four counters of evaluate. */
  datatype Confusion = Confusion(tp: nat, fp: nat, tn: nat, fn: nat)

  /** A ratio of two counts as a Java double: 0/0 is NaN. */
  datatype Ratio = NaN | Value(v: real)

  /** The four results of evaluate, in the order they are added to the list. */
  datatype Metrics = Metrics(precision: Ratio, recall: Ratio, fmeasure: Ratio, accuracy: Ratio)

  /** evaluate dereferences each leaf's parent: a parentless leaf ends it with a NullPointerException. */
  datatype EvalError = NullParent

  /** LinkedList.indexOf on a children list: the first position of `x`, or -1. */
  function IndexOf(s: seq<nat>, x: nat): (r: int)
    ensures -1 <= r < |s|
    ensures r == -1 <==> x !in s
    ensures r >= 0 ==> s[r] == x && forall j :: 0 <= j < r ==> s[j] != x
  {
    if s == [] then -1
    else if s[0] == x then 0
    else
      var r := IndexOf(s[1..], x);
      if r == -1 then -1 else r + 1
  }

  /** One instance of a leaf counted by evaluate's inner loop. */
  function CountOne(c: Confusion, x: Instance, positive: bool): Confusion {
    if !positive then
      if x.classValue == 0 then c.(tn := c.tn + 1) else c.(fn := c.fn + 1)
    else
      if x.classValue == 0 then c.(fp := c.fp + 1) else c.(tp := c.tp + 1)
  }

  /** evaluate's inner loop over a leaf's data, applied to the counters `c`. */
  function Tally(c: Confusion, data: seq<Instance>, positive: bool): Confusion {
    if data == [] then c
    else CountOne(Tally(c, data[..|data| - 1], positive), data[|data| - 1], positive)
  }

  /** The number of instances of `data` whose class value is 0. */
  function Zeros(data: seq<Instance>): (n: nat)
    ensures n <= |data|
  {
    if data == [] then 0
    else Zeros(data[..|data| - 1]) + (if data[|data| - 1].classValue == 0 then 1 else 0)
  }

  /**
    A negative leaf adds its class-0 instances to TN and the rest to FN and
    leaves TP and FP alone; a positive leaf adds them to FP and TP and leaves
    TN and FN alone.
  */
  lemma {:induction false} TallyCounts(c: Confusion, data: seq<Instance>, positive: bool)
    ensures !positive ==> Tally(c, data, positive) == c.(tn := c.tn + Zeros(data), fn := c.fn + (|data| - Zeros(data)))
    ensures positive ==> Tally(c, data, positive) == c.(fp := c.fp + Zeros(data), tp := c.tp + (|data| - Zeros(data)))
  {
    if data != [] {
      TallyCounts(c, data[..|data| - 1], positive);
    }
  }

  /** The counters after evaluate's outer loop has visited `leaves`, or the error it stops with. */
  ghost function EvalCounts(nodes: seq<Node>, leaves: seq<nat>): Result<Confusion, EvalError>
    requires WellFormed(nodes) && InRange(nodes, leaves)
  {
    if leaves == [] then Ok(Confusion(0, 0, 0, 0))
    else
      match EvalCounts(nodes, leaves[..|leaves| - 1])
      case Err(e) => Err(e)
      case Ok(c) =>
        var leaf := leaves[|leaves| - 1];
        match nodes[leaf].parent
        case None => Err(NullParent)
        case Some(p) => Ok(Tally(c, nodes[leaf].data, IndexOf(nodes[p].children, leaf) != 0))
  }

  /** The number of instances held by the nodes listed in `leaves`. */
  ghost function DataCount(nodes: seq<Node>, leaves: seq<nat>): nat
    requires InRange(nodes, leaves)
  {
    if leaves == [] then 0 else DataCount(nodes, leaves[..|leaves| - 1]) + |nodes[leaves[|leaves| - 1]].data|
  }

  /** The number of class-0 instances held by the nodes listed in `leaves`. */
  ghost function ZeroCount(nodes: seq<Node>, leaves: seq<nat>): nat
    requires InRange(nodes, leaves)
  {
    if leaves == [] then 0 else ZeroCount(nodes, leaves[..|leaves| - 1]) + Zeros(nodes[leaves[|leaves| - 1]].data)
  }

  /** Whether evaluate counts the leaf at index `leaf` as a positive prediction. */
  ghost predicate PositiveLeaf(nodes: seq<Node>, leaf: nat)
    requires WellFormed(nodes) && leaf < |nodes| && nodes[leaf].parent.Some?
  {
    IndexOf(nodes[nodes[leaf].parent.value].children, leaf) != 0
  }

  /** The number of instances held by the leaves evaluate counts as positive. */
  ghost function PositiveCount(nodes: seq<Node>, leaves: seq<nat>): nat
    requires WellFormed(nodes) && InRange(nodes, leaves)
    requires forall i :: 0 <= i < |leaves| ==> nodes[leaves[i]].parent.Some?
  {
    if leaves == [] then 0
    else
      var leaf := leaves[|leaves| - 1];
      PositiveCount(nodes, leaves[..|leaves| - 1]) + (if PositiveLeaf(nodes, leaf) then |nodes[leaf].data| else 0)
  }

  /** Some node listed in `leaves` has no parent. */
  ghost predicate HasOrphan(nodes: seq<Node>, leaves: seq<nat>)
    requires InRange(nodes, leaves)
  {
    exists i :: 0 <= i < |leaves| && nodes[leaves[i]].parent == None
  }

  /**
    The outer loop fails exactly when one of the visited leaves has no
    parent; otherwise the four counters add up to the instances held by the
    leaves, TN + FP counts their class-0 instances, and TP + FP counts the
    instances of the positive leaves only.
  */
  lemma {:induction false} EvalCountsTotals(nodes: seq<Node>, leaves: seq<nat>)
    requires WellFormed(nodes) && InRange(nodes, leaves)
    ensures EvalCounts(nodes, leaves).Err? <==> HasOrphan(nodes, leaves)
    ensures EvalCounts(nodes, leaves).Ok? ==>
              var c := EvalCounts(nodes, leaves).value;
              && c.tp + c.fp + c.tn + c.fn == DataCount(nodes, leaves)
              && c.tn + c.fp == ZeroCount(nodes, leaves)
              && c.tp + c.fp == PositiveCount(nodes, leaves)
  {
    if leaves != [] {
      var front, leaf := leaves[..|leaves| - 1], leaves[|leaves| - 1];
      EvalCountsTotals(nodes, front);
      assert forall i :: 0 <= i < |front| ==> front[i] == leaves[i];
      if EvalCounts(nodes, front).Ok? {
        TallyCounts(EvalCounts(nodes, front).value, nodes[leaf].data, true);
        TallyCounts(EvalCounts(nodes, front).value, nodes[leaf].data, false);
      }
    }
  }

  /** Once the outer loop has failed on a prefix of the leaves, the whole evaluation fails. */
  lemma {:induction false} EvalCountsErrSticky(nodes: seq<Node>, leaves: seq<nat>, n: nat)
    requires WellFormed(nodes) && InRange(nodes, leaves) && n <= |leaves|
    requires EvalCounts(nodes, leaves[..n]).Err?
    ensures EvalCounts(nodes, leaves).Err?
    decreases |leaves| - n
  {
    if n < |leaves| {
      assert leaves[..n + 1][..n] == leaves[..n];
      EvalCountsErrSticky(nodes, leaves, n + 1);
    } else {
      assert leaves[..n] == leaves;
    }
  }

  /**
    Division of two counts as evaluate's doubles do it, with 0/0 giving NaN.
    A zero denominator gives NaN whatever the numerator: a non-zero count over
    zero, which Java would make an infinity, never arises from evaluate's
    counters, since each numerator there is at most its denominator.
  */
  function Div(a: real, b: real): (r: Ratio)
    ensures b != 0.0 <==> r.Value?
    ensures r.Value? ==> r.v * b == a
  {
    if b == 0.0 then NaN else Value(a / b)
  }

  /** The F-measure 2PR/(P+R), NaN when either input is NaN or both are 0. */
  function FMeasure(precision: Ratio, recall: Ratio): (r: Ratio)
    ensures r.Value? <==> precision.Value? && recall.Value? && precision.v + recall.v != 0.0
    ensures r.Value? ==> r.v * (precision.v + recall.v) == 2.0 * precision.v * recall.v
  {
    match (precision, recall)
    case (Value(p), Value(q)) => Div(2.0 * p * q, p + q)
    case _ => NaN
  }

  /** The four ratios evaluate computes from its counters. */
  function ToMetrics(c: Confusion): (m: Metrics)
    ensures m.precision.Value? <==> c.tp + c.fp > 0
    ensures m.recall.Value? <==> c.tp + c.fn > 0
    ensures m.fmeasure.Value? <==> c.tp > 0
    ensures m.accuracy.Value? <==> c.tp + c.fp + c.tn + c.fn > 0
  {
    var precision := Div(c.tp as real, (c.tp + c.fp) as real);
    var recall := Div(c.tp as real, (c.tp + c.fn) as real);
    Metrics(precision, recall, FMeasure(precision, recall),
            Div((c.tp + c.tn) as real, (c.tp + c.fp + c.tn + c.fn) as real))
  }

  /** A ratio of a count to a count at least as large lies in [0, 1]. */
  lemma DivInUnitRange(a: real, b: real)
    requires 0.0 <= a <= b
    ensures Div(a, b).Value? ==> 0.0 <= Div(a, b).v <= 1.0
  {
  }

  lemma MulAtMost(p: real, q: real)
    requires 0.0 <= p && 0.0 <= q <= 1.0
    ensures 0.0 <= p * q <= p
  {
  }

  /** The F-measure of two ratios in [0, 1] lies in [0, 1]. */
  lemma FMeasureInUnitRange(p: real, q: real)
    requires 0.0 <= p <= 1.0 && 0.0 <= q <= 1.0
    ensures FMeasure(Value(p), Value(q)).Value? ==> 0.0 <= FMeasure(Value(p), Value(q)).v <= 1.0
  {
    var pq := p * q;
    assert 0.0 <= pq <= p by { MulAtMost(p, q); }
    assert pq <= q by { MulAtMost(q, p); }
    assert 2.0 * p * q == pq + pq;
    DivInUnitRange(2.0 * p * q, p + q);
  }

  /** Every ratio evaluate returns that is a number lies in [0, 1]. */
  lemma MetricsInUnitRange(c: Confusion)
    ensures var m := ToMetrics(c);
      && (m.precision.Value? ==> 0.0 <= m.precision.v <= 1.0)
      && (m.recall.Value? ==> 0.0 <= m.recall.v <= 1.0)
      && (m.accuracy.Value? ==> 0.0 <= m.accuracy.v <= 1.0)
      && (m.fmeasure.Value? ==> 0.0 <= m.fmeasure.v <= 1.0)
  {
    var m := ToMetrics(c);
    DivInUnitRange(c.tp as real, (c.tp + c.fp) as real);
    DivInUnitRange(c.tp as real, (c.tp + c.fn) as real);
    DivInUnitRange((c.tp + c.tn) as real, (c.tp + c.fp + c.tn + c.fn) as real);
    if m.precision.Value? && m.recall.Value? {
      FMeasureInUnitRange(m.precision.v, m.recall.v);
    }
  }

  /** evaluate on node k: its result list, or the error it stops with. */
  ghost function Evaluate(nodes: seq<Node>, k: nat): Result<Metrics, EvalError>
    requires WellFormed(nodes) && k < |nodes|
  {
    match EvalCounts(nodes, LeavesFrom(nodes, [k]))
    case Err(e) => Err(e)
    case Ok(c) => Ok(ToMetrics(c))
  }

  /**
    evaluate fails exactly when a leaf below k has no parent; otherwise
    precision is a number exactly when a leaf that is not its parent's first
    child holds data, recall exactly when some instance below k has a
    non-zero class, and accuracy exactly when the leaves hold any instance.
  */
  lemma EvaluateOutcome(nodes: seq<Node>, k: nat)
    requires WellFormed(nodes) && k < |nodes|
    ensures Evaluate(nodes, k).Err? <==> HasOrphan(nodes, LeavesFrom(nodes, [k]))
    ensures Evaluate(nodes, k).Ok? ==>
              var m, leaves := Evaluate(nodes, k).value, LeavesFrom(nodes, [k]);
              && (m.precision.Value? <==> PositiveCount(nodes, leaves) > 0)
              && (m.recall.Value? <==> ZeroCount(nodes, leaves) < DataCount(nodes, leaves))
              && (m.accuracy.Value? <==> DataCount(nodes, leaves) > 0)
  {
    EvalCountsTotals(nodes, LeavesFrom(nodes, [k]));
  }

  /** evaluate on a node that has never been split and has no parent fails. */
  lemma EvaluateLoneRootFails(nodes: seq<Node>, k: nat)
    requires WellFormed(nodes) && k < |nodes|
    requires nodes[k].IsLeaf() && nodes[k].parent == None
    ensures Evaluate(nodes, k) == Err(NullParent)
  {
    assert [k][1..] == [];
    assert LeavesFrom(nodes, []) == [];
    assert LeavesFrom(nodes, [k]) == [k] + LeavesFrom(nodes, []);
    assert [k][..0] == [];
    assert EvalCounts(nodes, [k]) == Err(NullParent);
  }
}
