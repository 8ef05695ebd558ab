/**
  The node arena behind RNBTree. Each Java RNBTree object is an index into
  a sequence of node records: its data partition, its parent (null for the
  root) and the ordered list of its children. Breadth-first enumeration
  (nodeBFS, leafBFS) is specified here by the same queue discipline the
  Java loops follow, and proved to list every node of a subtree exactly once.
*/
module Forest {
  import opened Wrappers
  import opened Classification

  datatype Node = Node(data: seq<Instance>, parent: Option<nat>, children: seq<nat>) {
    /** Java's isLeaf: a node is a leaf iff its children list is empty. */
    predicate IsLeaf() {
      |children| == 0
    }
  }

  ghost predicate Distinct(s: seq<nat>) {
    forall i, j :: 0 <= i < j < |s| ==> s[i] != s[j]
  }

  /** The entries of `s`, as a set. */
  ghost function Members(s: seq<nat>): set<nat> {
    set x | x in s
  }

  /** A list without duplicates has as many entries as members. */
  lemma {:induction false} DistinctCard(s: seq<nat>)
    requires Distinct(s)
    ensures |Members(s)| == |s|
  {
    if s != [] {
      var t := s[1..];
      forall i | 0 <= i < |t|
        ensures t[i] != s[0]
      {
        assert t[i] == s[i + 1];
      }
      assert Distinct(t) by {
        forall i, j | 0 <= i < j < |t|
          ensures t[i] != t[j]
        {
          assert t[i] == s[i + 1] && t[j] == s[j + 1];
        }
      }
      DistinctCard(t);
      assert Members(s) == Members(t) + {s[0]};
    }
  }

  /**
    The arena invariant every reachable state keeps: a child is created after
    its parent (so indices grow downwards and the structure is acyclic), a
    listed child points back to the node listing it, and no child is listed
    twice. A node that an undo detached may still point to its old parent.
  */
  ghost predicate WellFormed(nodes: seq<Node>) {
    && (forall i :: 0 <= i < |nodes| && nodes[i].parent.Some? ==> nodes[i].parent.value < i)
    && (forall i, j :: 0 <= i < |nodes| && 0 <= j < |nodes[i].children| ==>
          i < nodes[i].children[j] < |nodes| && nodes[nodes[i].children[j]].parent == Some(i))
    && (forall i :: 0 <= i < |nodes| ==> Distinct(nodes[i].children))
  }

  ghost predicate InRange(nodes: seq<Node>, q: seq<nat>) {
    forall j :: 0 <= j < |q| ==> q[j] < |nodes|
  }

  // ---------------------------------------------------------------------------
  // Subtree sizes: the termination measure of the breadth-first queue.
  // ---------------------------------------------------------------------------

  ghost function Size(nodes: seq<Node>, i: nat): nat
    requires WellFormed(nodes) && i < |nodes|
    decreases |nodes| - i, 1, 0
  {
    1 + ChildSizes(nodes, i, 0)
  }

  /** The sizes of the subtrees of children j, j+1, ... of node i, added up. */
  ghost function ChildSizes(nodes: seq<Node>, i: nat, j: nat): nat
    requires WellFormed(nodes) && i < |nodes| && j <= |nodes[i].children|
    decreases |nodes| - i, 0, |nodes[i].children| - j
  {
    if j == |nodes[i].children| then 0
    else Size(nodes, nodes[i].children[j]) + ChildSizes(nodes, i, j + 1)
  }

  ghost function SumSizes(nodes: seq<Node>, q: seq<nat>): nat
    requires WellFormed(nodes) && InRange(nodes, q)
  {
    if q == [] then 0 else Size(nodes, q[0]) + SumSizes(nodes, q[1..])
  }

  lemma {:induction false} SumSizesAppend(nodes: seq<Node>, a: seq<nat>, b: seq<nat>)
    requires WellFormed(nodes) && InRange(nodes, a) && InRange(nodes, b)
    ensures InRange(nodes, a + b)
    ensures SumSizes(nodes, a + b) == SumSizes(nodes, a) + SumSizes(nodes, b)
  {
    if a != [] {
      assert (a + b)[1..] == a[1..] + b;
      SumSizesAppend(nodes, a[1..], b);
    } else {
      assert a + b == b;
    }
  }

  lemma {:induction false} ChildSizesIsSum(nodes: seq<Node>, i: nat, j: nat)
    requires WellFormed(nodes) && i < |nodes| && j <= |nodes[i].children|
    ensures InRange(nodes, nodes[i].children[j..])
    ensures ChildSizes(nodes, i, j) == SumSizes(nodes, nodes[i].children[j..])
    decreases |nodes[i].children| - j
  {
    var ch := nodes[i].children;
    if j < |ch| {
      ChildSizesIsSum(nodes, i, j + 1);
      assert ch[j..][1..] == ch[j + 1..];
    }
  }

  /** Taking the head of the queue and enqueueing its children shrinks the measure by one. */
  lemma SumSizesStep(nodes: seq<Node>, q: seq<nat>)
    requires WellFormed(nodes) && InRange(nodes, q) && q != []
    ensures InRange(nodes, q[1..] + nodes[q[0]].children)
    ensures SumSizes(nodes, q[1..] + nodes[q[0]].children) + 1 == SumSizes(nodes, q)
  {
    ChildSizesIsSum(nodes, q[0], 0);
    assert nodes[q[0]].children[0..] == nodes[q[0]].children;
    SumSizesAppend(nodes, q[1..], nodes[q[0]].children);
  }

  // ---------------------------------------------------------------------------
  // Breadth-first enumeration
  // ---------------------------------------------------------------------------

  /**
    The list nodeBFS builds from the queue `q`: take the head, append it to
    the output, enqueue its children, repeat until the queue is empty.
  */
  ghost function NodesFrom(nodes: seq<Node>, q: seq<nat>): (r: seq<nat>)
    requires WellFormed(nodes) && InRange(nodes, q)
    ensures InRange(nodes, r)
    ensures q != [] ==> r != [] && r[0] == q[0]
    decreases SumSizes(nodes, q)
  {
    if q == [] then []
    else
      SumSizesStep(nodes, q);
      [q[0]] + NodesFrom(nodes, q[1..] + nodes[q[0]].children)
  }

  /** One round of nodeBFS's loop: the head goes out and its children are enqueued. */
  lemma NodesFromUnfold(nodes: seq<Node>, q: seq<nat>)
    requires WellFormed(nodes) && InRange(nodes, q) && q != []
    ensures InRange(nodes, q[1..] + nodes[q[0]].children)
    ensures NodesFrom(nodes, q) == [q[0]] + NodesFrom(nodes, q[1..] + nodes[q[0]].children)
  {
    SumSizesStep(nodes, q);
  }

  /**
    The list leafBFS builds from the queue `q`: a leaf at the head goes to
    the output, an internal node at the head is replaced by its children.
  */
  ghost function LeavesFrom(nodes: seq<Node>, q: seq<nat>): (r: seq<nat>)
    requires WellFormed(nodes) && InRange(nodes, q)
    ensures InRange(nodes, r)
    decreases SumSizes(nodes, q)
  {
    if q == [] then []
    else
      SumSizesStep(nodes, q);
      if nodes[q[0]].IsLeaf() then [q[0]] + LeavesFrom(nodes, q[1..])
      else LeavesFrom(nodes, q[1..] + nodes[q[0]].children)
  }

  /** Node j lies in the subtree of node e: it is e, or it lies under one of e's children. */
  ghost predicate InSubtree(nodes: seq<Node>, j: nat, e: nat)
    requires WellFormed(nodes) && e < |nodes|
    decreases |nodes| - e
  {
    j == e || exists i :: 0 <= i < |nodes[e].children| && InSubtree(nodes, j, nodes[e].children[i])
  }

  /** The nodes of `s` that are leaves, in the order of `s`. */
  ghost function LeafFilter(nodes: seq<Node>, s: seq<nat>): (r: seq<nat>)
    requires InRange(nodes, s)
    ensures |r| <= |s|
  {
    if s == [] then []
    else (if nodes[s[0]].IsLeaf() then [s[0]] else []) + LeafFilter(nodes, s[1..])
  }

  /** The filter keeps exactly the leaves of `s`. */
  lemma {:induction false} LeafFilterMembers(nodes: seq<Node>, s: seq<nat>)
    requires InRange(nodes, s)
    ensures forall x :: x in LeafFilter(nodes, s) <==> x in s && x < |nodes| && nodes[x].IsLeaf()
  {
    if s != [] {
      LeafFilterMembers(nodes, s[1..]);
      assert s == [s[0]] + s[1..];
    }
  }

  lemma {:induction false} LeafFilterDistinct(nodes: seq<Node>, s: seq<nat>)
    requires InRange(nodes, s) && Distinct(s)
    ensures Distinct(LeafFilter(nodes, s))
  {
    if s != [] {
      LeafFilterDistinct(nodes, s[1..]);
      LeafFilterMembers(nodes, s[1..]);
      assert s[0] !in s[1..];
    }
  }

  lemma DistinctAppend(a: seq<nat>, b: seq<nat>)
    requires Distinct(a) && Distinct(b)
    requires forall x :: x in a ==> x !in b
    ensures Distinct(a + b)
  {
    var s := a + b;
    forall i, j | 0 <= i < j < |s|
      ensures s[i] != s[j]
    {
      if i < |a| && j >= |a| {
        assert s[i] in a && s[j] == b[j - |a|];
      }
    }
  }

  /**
    leafBFS lists exactly the leaves nodeBFS lists, in the same relative order.
  */
  lemma {:induction false} LeavesAreFilteredNodes(nodes: seq<Node>, q: seq<nat>)
    requires WellFormed(nodes) && InRange(nodes, q)
    ensures LeavesFrom(nodes, q) == LeafFilter(nodes, NodesFrom(nodes, q))
    decreases SumSizes(nodes, q)
  {
    if q != [] {
      SumSizesStep(nodes, q);
      var q' := q[1..] + nodes[q[0]].children;
      var rest := NodesFrom(nodes, q');
      assert NodesFrom(nodes, q) == [q[0]] + rest;
      assert ([q[0]] + rest)[1..] == rest;
      LeavesAreFilteredNodes(nodes, q');
      if nodes[q[0]].IsLeaf() {
        assert q' == q[1..];
      }
    }
  }

  /** A node below an entry of the next queue lies below an entry of the current one. */
  lemma QueueShift(nodes: seq<Node>, q: seq<nat>, x: nat, j: nat)
    requires WellFormed(nodes) && InRange(nodes, q) && q != []
    requires j < |q[1..] + nodes[q[0]].children|
    requires InSubtree(nodes, x, (q[1..] + nodes[q[0]].children)[j])
    ensures exists i :: 0 <= i < |q| && InSubtree(nodes, x, q[i])
  {
    var ch := nodes[q[0]].children;
    if j < |q| - 1 {
      assert InSubtree(nodes, x, q[j + 1]);
    } else {
      assert (q[1..] + ch)[j] == ch[j - (|q| - 1)];
      assert InSubtree(nodes, x, q[0]);
    }
  }

  /** A node the enumeration from `q` lists lies in the subtree of some queued node. */
  lemma {:induction false} NodesFromListed(nodes: seq<Node>, q: seq<nat>, x: nat)
    requires WellFormed(nodes) && InRange(nodes, q)
    requires x in NodesFrom(nodes, q)
    ensures exists i :: 0 <= i < |q| && InSubtree(nodes, x, q[i])
    decreases SumSizes(nodes, q)
  {
    SumSizesStep(nodes, q);
    NodesFromUnfold(nodes, q);
    if x == q[0] {
      assert InSubtree(nodes, x, q[0]);
    } else {
      var q' := q[1..] + nodes[q[0]].children;
      NodesFromListed(nodes, q', x);
      var j :| 0 <= j < |q'| && InSubtree(nodes, x, q'[j]);
      QueueShift(nodes, q, x, j);
    }
  }

  /** Every node in the subtree of the queued node q[i] is listed by the enumeration from `q`. */
  lemma {:induction false} NodesFromComplete(nodes: seq<Node>, q: seq<nat>, x: nat, i: nat)
    requires WellFormed(nodes) && InRange(nodes, q)
    requires i < |q| && InSubtree(nodes, x, q[i])
    ensures x in NodesFrom(nodes, q)
    decreases SumSizes(nodes, q)
  {
    SumSizesStep(nodes, q);
    var ch := nodes[q[0]].children;
    var q' := q[1..] + ch;
    NodesFromUnfold(nodes, q);
    if i == 0 {
      if x != q[0] {
        var c :| 0 <= c < |ch| && InSubtree(nodes, x, ch[c]);
        assert q'[|q| - 1 + c] == ch[c];
        NodesFromComplete(nodes, q', x, |q| - 1 + c);
      }
    } else {
      assert q'[i - 1] == q[i];
      NodesFromComplete(nodes, q', x, i - 1);
    }
  }

  /** Every node of a subtree has an index at least the subtree root's. */
  lemma {:induction false} InSubtreeBelow(nodes: seq<Node>, x: nat, e: nat)
    requires WellFormed(nodes) && e < |nodes| && InSubtree(nodes, x, e)
    ensures e <= x < |nodes|
    decreases |nodes| - e
  {
    if x != e {
      var i :| 0 <= i < |nodes[e].children| && InSubtree(nodes, x, nodes[e].children[i]);
      InSubtreeBelow(nodes, x, nodes[e].children[i]);
    }
  }

  /**
    The invariant under which the queue process emits no node twice: no
    repetition so far, and every emitted or queued node other than the start
    has its parent among the nodes already emitted.
  */
  ghost predicate QueueInvariant(nodes: seq<Node>, k: nat, out: seq<nat>, q: seq<nat>)
    requires WellFormed(nodes)
  {
    && InRange(nodes, q)
    && Distinct(out + q)
    && (forall x :: x in out + q ==> k <= x)
    && (forall x :: x in out + q && x != k ==>
          x < |nodes| && nodes[x].parent.Some? && nodes[x].parent.value in out)
  }

  /** One round of nodeBFS's loop keeps the queue invariant. */
  lemma QueueInvariantStep(nodes: seq<Node>, k: nat, out: seq<nat>, q: seq<nat>)
    requires WellFormed(nodes) && QueueInvariant(nodes, k, out, q) && q != []
    ensures QueueInvariant(nodes, k, out + [q[0]], q[1..] + nodes[q[0]].children)
  {
    var q0, ch := q[0], nodes[q[0]].children;
    var out', q' := out + [q0], q[1..] + ch;
    assert out + q == out' + q[1..];
    assert out' + q' == (out + q) + ch;
    forall c | c in ch
      ensures c !in out + q && k <= c
      ensures nodes[c].parent.Some? && nodes[c].parent.value in out'
    {
      var j :| 0 <= j < |ch| && ch[j] == c;
      assert q0 < c && nodes[c].parent == Some(q0);
      assert (out + q)[|out|] == q0;
      forall a | 0 <= a < |out|
        ensures out[a] != q0
      {
        assert (out + q)[a] == out[a];
      }
      assert nodes[c].parent.value !in out;
    }
    DistinctAppend(out + q, ch);
  }

  lemma {:induction false} NodesFromDistinctFrom(nodes: seq<Node>, k: nat, out: seq<nat>, q: seq<nat>)
    requires WellFormed(nodes) && QueueInvariant(nodes, k, out, q)
    ensures Distinct(out + NodesFrom(nodes, q))
    decreases SumSizes(nodes, q)
  {
    if q == [] {
      assert out + q == out;
      assert out + NodesFrom(nodes, q) == out;
    } else {
      SumSizesStep(nodes, q);
      NodesFromUnfold(nodes, q);
      var q0 := q[0];
      var out', q' := out + [q0], q[1..] + nodes[q0].children;
      QueueInvariantStep(nodes, k, out, q);
      NodesFromDistinctFrom(nodes, k, out', q');
      assert out' + NodesFrom(nodes, q') == out + NodesFrom(nodes, q);
    }
  }

  /**
    nodeBFS from node k: the list starts with k, names every node of k's
    subtree and nothing else, and names each exactly once.
  */
  lemma NodeBFSExactlyOnce(nodes: seq<Node>, k: nat)
    requires WellFormed(nodes) && k < |nodes|
    ensures NodesFrom(nodes, [k]) != [] && NodesFrom(nodes, [k])[0] == k
    ensures Distinct(NodesFrom(nodes, [k]))
    ensures forall x: nat :: x in NodesFrom(nodes, [k]) <==> InSubtree(nodes, x, k)
  {
    assert [] + [k] == [k];
    NodesFromDistinctFrom(nodes, k, [], [k]);
    assert [] + NodesFrom(nodes, [k]) == NodesFrom(nodes, [k]);
    NodeBFSMembers(nodes, k);
  }

  lemma NodeBFSMembers(nodes: seq<Node>, k: nat)
    requires WellFormed(nodes) && k < |nodes|
    ensures forall x: nat :: x in NodesFrom(nodes, [k]) <==> InSubtree(nodes, x, k)
  {
    forall x: nat
      ensures x in NodesFrom(nodes, [k]) <==> InSubtree(nodes, x, k)
    {
      if x in NodesFrom(nodes, [k]) {
        NodesFromListed(nodes, [k], x);
      }
      if InSubtree(nodes, x, k) {
        NodesFromComplete(nodes, [k], x, 0);
      }
    }
  }

  /**
    leafBFS from node k: every childless node of k's subtree exactly once,
    in the order nodeBFS meets them, so there are never more leaves than nodes.
  */
  lemma LeafBFSExactlyOnce(nodes: seq<Node>, k: nat)
    requires WellFormed(nodes) && k < |nodes|
    ensures LeavesFrom(nodes, [k]) == LeafFilter(nodes, NodesFrom(nodes, [k]))
    ensures Distinct(LeavesFrom(nodes, [k]))
    ensures forall x: nat :: x in LeavesFrom(nodes, [k]) <==> InSubtree(nodes, x, k) && x < |nodes| && nodes[x].IsLeaf()
    ensures |LeavesFrom(nodes, [k])| <= |NodesFrom(nodes, [k])|
  {
    NodeBFSExactlyOnce(nodes, k);
    LeavesAreFilteredNodes(nodes, [k]);
    LeafFilterDistinct(nodes, NodesFrom(nodes, [k]));
    LeafFilterMembers(nodes, NodesFrom(nodes, [k]));
  }

  /** One node's entry in leafBFS's list: it is listed exactly when it is a leaf of k's subtree. */
  lemma LeafListed(nodes: seq<Node>, k: nat, x: nat)
    requires WellFormed(nodes) && k < |nodes|
    ensures x in LeavesFrom(nodes, [k]) <==> InSubtree(nodes, x, k) && x < |nodes| && nodes[x].IsLeaf()
  {
    LeafBFSExactlyOnce(nodes, k);
  }

  /** leafBFS lists no leaf twice. */
  lemma LeavesDistinct(nodes: seq<Node>, k: nat)
    requires WellFormed(nodes) && k < |nodes|
    ensures Distinct(LeavesFrom(nodes, [k]))
  {
    LeafBFSExactlyOnce(nodes, k);
  }

  /** numNode is 1 exactly when the receiver is a leaf. */
  lemma SingleNodeIffLeaf(nodes: seq<Node>, k: nat)
    requires WellFormed(nodes) && k < |nodes|
    ensures |NodesFrom(nodes, [k])| == 1 <==> nodes[k].IsLeaf()
  {
    SumSizesStep(nodes, [k]);
    assert [k][1..] + nodes[k].children == nodes[k].children;
    assert NodesFrom(nodes, [k]) == [k] + NodesFrom(nodes, nodes[k].children);
  }

  /** A non-empty queue always yields a leaf, so getFirst and getLast on leafBFS never fail. */
  lemma {:induction false} LeavesNonEmpty(nodes: seq<Node>, q: seq<nat>)
    requires WellFormed(nodes) && InRange(nodes, q) && q != []
    ensures LeavesFrom(nodes, q) != []
    decreases SumSizes(nodes, q)
  {
    SumSizesStep(nodes, q);
    if !nodes[q[0]].IsLeaf() {
      LeavesNonEmpty(nodes, q[1..] + nodes[q[0]].children);
    }
  }
}
