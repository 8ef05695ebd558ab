/**
  The structural mutations of RNBTree as functions on the arena: addChild,
  splitNode, stepGrow (split the first breadth-first leaf) and
  revokeLastSplit (clear the children of the last breadth-first leaf's
  parent), and the grow/undo round trip on trees grown from a lone root.
*/
module Growth {
  import opened Wrappers
  import opened Classification
  import opened Partition
  import opened Forest

  /** The consecutive indices lo, lo+1, ..., hi-1. */
  function Range(lo: nat, hi: nat): (r: seq<nat>)
    requires lo <= hi
    ensures |r| == hi - lo
    ensures forall i :: 0 <= i < |r| ==> r[i] == lo + i
  {
    seq(hi - lo, i requires 0 <= i => lo + i)
  }

  lemma RangeConcat(a: nat, b: nat, c: nat)
    requires a <= b <= c
    ensures Range(a, b) + Range(b, c) == Range(a, c)
  {
  }

  lemma RangeCons(a: nat, c: nat)
    requires a < c
    ensures [a] + Range(a + 1, c) == Range(a, c)
  {
    RangeConcat(a, a + 1, c);
    assert Range(a, a + 1) == [a];
  }

  /** addChild(Instances d) on node k: a new leaf holding d, whose parent is k, is appended to k's children. */
  ghost function WithChild(nodes: seq<Node>, k: nat, d: seq<Instance>): seq<Node>
    requires k < |nodes|
  {
    nodes[k := nodes[k].(children := nodes[k].children + [|nodes|])] + [Node(d, Some(k), [])]
  }

  lemma WithChildWellFormed(nodes: seq<Node>, k: nat, d: seq<Instance>)
    requires k < |nodes|
    ensures WellFormed(nodes) ==> WellFormed(WithChild(nodes, k, d))
  {
    if WellFormed(nodes) {
      var r, n := WithChild(nodes, k, d), |nodes|;
      forall i, j | 0 <= i < |r| && 0 <= j < |r[i].children|
        ensures i < r[i].children[j] < |r| && r[r[i].children[j]].parent == Some(i)
      {
        if i == k && j == |nodes[k].children| {
          assert r[i].children[j] == n;
        } else {
          assert i < n && r[i].children[j] == nodes[i].children[j];
        }
      }
      forall i | 0 <= i < |r|
        ensures Distinct(r[i].children)
      {
        if i == k {
          forall j | 0 <= j < |nodes[k].children|
            ensures nodes[k].children[j] != n
          {
          }
          DistinctAppend(nodes[k].children, [n]);
        }
      }
    }
  }

  /**
    The arena after node k receives one new child per bucket, in bucket
    order: the loop of splitNode that calls addChild on each bucket.
  */
  ghost function WithChildren(nodes: seq<Node>, k: nat, buckets: seq<seq<Instance>>): (r: seq<Node>)
    requires k < |nodes|
    ensures |r| == |nodes| + |buckets|
    ensures r[k] == nodes[k].(children := nodes[k].children + Range(|nodes|, |nodes| + |buckets|))
    ensures forall i :: 0 <= i < |nodes| && i != k ==> r[i] == nodes[i]
    ensures forall i :: |nodes| <= i < |r| ==> r[i] == Node(buckets[i - |nodes|], Some(k), [])
    ensures WellFormed(nodes) ==> WellFormed(r)
  {
    if buckets == [] then nodes
    else
      var prev := WithChildren(nodes, k, buckets[..|buckets| - 1]);
      WithChildWellFormed(prev, k, buckets[|buckets| - 1]);
      RangeConcat(|nodes|, |prev|, |prev| + 1);
      WithChild(prev, k, buckets[|buckets| - 1])
  }

  /** The buckets splitNode fills from node k's data, one per class. */
  ghost function SplitBuckets(nodes: seq<Node>, k: nat, numClasses: nat, train: seq<Instance> -> Classifier): seq<seq<Instance>>
    requires k < |nodes|
  {
    Route(nodes[k].data, Router(train(nodes[k].data)), numClasses)
  }

  /** splitNode on node k. */
  ghost function Split(nodes: seq<Node>, k: nat, numClasses: nat, train: seq<Instance> -> Classifier): seq<Node>
    requires k < |nodes|
  {
    WithChildren(nodes, k, SplitBuckets(nodes, k, numClasses, train))
  }

  /**
    The buckets splitNode fills partition node k's data: together they hold
    exactly its instances and their sizes add up to its size; instance x
    lands in the bucket at the index getClassIndex picks from x's
    distribution, and a bucket holds nothing else. (Split gives bucket c to
    child |nodes| + c, see WithChildren.)
  */
  lemma SplitBucketsPartition(nodes: seq<Node>, k: nat, numClasses: nat, train: seq<Instance> -> Classifier)
    requires k < |nodes|
    requires TrainContract(train, numClasses) && numClasses >= 1
    ensures var buckets, data := SplitBuckets(nodes, k, numClasses, train), nodes[k].data;
      && |buckets| == numClasses
      && Union(buckets) == multiset(data)
      && TotalSize(buckets) == |data|
      && (forall x :: x in data ==> x in buckets[ClassIndex(train(data).dist(x))])
      && (forall c, x :: 0 <= c < |buckets| && x in buckets[c] ==>
            x in data && ClassIndex(train(data).dist(x)) == c)
  {
    var data := nodes[k].data;
    var route := Router(train(data));
    forall x | x in data
      ensures route(x) < numClasses
    {
      RouterInRange(train, numClasses, data, x);
    }
    RoutePartitions(data, route, numClasses);
  }

  /** stepGrow on node k: split the first leaf leafBFS lists. */
  ghost function Grow(nodes: seq<Node>, k: nat, numClasses: nat, train: seq<Instance> -> Classifier): (r: seq<Node>)
    requires WellFormed(nodes) && k < |nodes|
    ensures LeavesFrom(nodes, [k]) != []
    ensures WellFormed(r) && |r| == |nodes| + numClasses
    ensures var f := LeavesFrom(nodes, [k])[0];
      && r[f] == nodes[f].(children := Range(|nodes|, |nodes| + numClasses))
      && r[f].children == Range(|nodes|, |nodes| + numClasses)
      && (forall i :: 0 <= i < |nodes| && i != f ==> r[i] == nodes[i])
      && (forall i :: |nodes| <= i < |r| ==>
            r[i] == Node(SplitBuckets(nodes, f, numClasses, train)[i - |nodes|], Some(f), []))
      && (forall i :: |nodes| <= i < |r| ==> r[i].parent == Some(f) && r[i].IsLeaf())
  {
    LeavesNonEmpty(nodes, [k]);
    var f := LeavesFrom(nodes, [k])[0];
    LeafBFSExactlyOnce(nodes, k);
    assert f in LeavesFrom(nodes, [k]);
    assert nodes[f].children == [];
    assert |SplitBuckets(nodes, f, numClasses, train)| == numClasses;
    assert [] + Range(|nodes|, |nodes| + numClasses) == Range(|nodes|, |nodes| + numClasses);
    Split(nodes, f, numClasses, train)
  }

  datatype RevokeError = NullParent

  /**
    revokeLastSplit on node k: the children of the parent of leafBFS's last
    leaf are cleared; a parentless last leaf is Java's NullPointerException.
  */
  ghost function Revoke(nodes: seq<Node>, k: nat): (r: Result<seq<Node>, RevokeError>)
    requires WellFormed(nodes) && k < |nodes|
    ensures LeavesFrom(nodes, [k]) != []
    ensures var last := LeavesFrom(nodes, [k])[|LeavesFrom(nodes, [k])| - 1];
      && (r.Err? <==> nodes[last].parent.None?)
      && (r.Ok? ==> var p := nodes[last].parent.value;
            && p < |nodes| && r.value == nodes[p := nodes[p].(children := [])]
            && WellFormed(r.value))
  {
    LeavesNonEmpty(nodes, [k]);
    var leaves := LeavesFrom(nodes, [k]);
    var last := leaves[|leaves| - 1];
    match nodes[last].parent
    case None => Err(NullParent)
    case Some(p) => Ok(nodes[p := nodes[p].(children := [])])
  }

  /**
    Splitting the leaf f, whose new children |nodes| .. |r|-1 are leaves,
    adds exactly those children to every subtree that contains f and
    changes no other subtree.
  */
  lemma {:induction false} InSubtreeAfterSplit(nodes: seq<Node>, r: seq<Node>, f: nat, x: nat, e: nat)
    requires WellFormed(nodes) && WellFormed(r) && f < |nodes| <= |r| && e < |nodes|
    requires nodes[f].IsLeaf() && r[f].children == Range(|nodes|, |r|)
    requires forall i :: 0 <= i < |nodes| && i != f ==> r[i].children == nodes[i].children
    requires forall i :: |nodes| <= i < |r| ==> r[i].IsLeaf()
    ensures InSubtree(r, x, e) <==> InSubtree(nodes, x, e) || (|nodes| <= x < |r| && InSubtree(nodes, f, e))
    decreases |nodes| - e
  {
    if e == f {
      assert InSubtree(nodes, f, f);
      assert InSubtree(nodes, x, f) <==> x == f;
      forall i | 0 <= i < |r[f].children|
        ensures InSubtree(r, x, r[f].children[i]) <==> x == |nodes| + i
      {
        assert r[f].children[i] == |nodes| + i;
        assert r[|nodes| + i].IsLeaf();
      }
      if |nodes| <= x < |r| {
        assert InSubtree(r, x, r[f].children[x - |nodes|]);
      }
    } else {
      var ch := nodes[e].children;
      assert r[e].children == ch;
      forall i | 0 <= i < |ch|
        ensures InSubtree(r, x, ch[i]) <==> InSubtree(nodes, x, ch[i]) || (|nodes| <= x < |r| && InSubtree(nodes, f, ch[i]))
      {
        InSubtreeAfterSplit(nodes, r, f, x, ch[i]);
      }
    }
  }

  /**
    g is nodes after the leaf f received the new leaves |nodes| .. |g|-1
    as its children, every other node unchanged.
  */
  ghost predicate SplitOf(nodes: seq<Node>, g: seq<Node>, f: nat) {
    && WellFormed(nodes) && WellFormed(g) && f < |nodes| < |g|
    && nodes[f].IsLeaf() && g[f].children == Range(|nodes|, |g|)
    && (forall i :: 0 <= i < |nodes| && i != f ==> g[i] == nodes[i])
    && (forall i :: |nodes| <= i < |g| ==> g[i].IsLeaf())
  }

  /** stepGrow on node k is such a split of the first leaf leafBFS lists, which lies below k. */
  lemma GrowIsSplitOf(nodes: seq<Node>, k: nat, numClasses: nat, train: seq<Instance> -> Classifier)
    requires WellFormed(nodes) && k < |nodes| && numClasses >= 1
    ensures LeavesFrom(nodes, [k]) != []
    ensures var f := LeavesFrom(nodes, [k])[0];
      && SplitOf(nodes, Grow(nodes, k, numClasses, train), f) && InSubtree(nodes, f, k)
  {
    LeavesNonEmpty(nodes, [k]);
    var f := LeavesFrom(nodes, [k])[0];
    LeafBFSExactlyOnce(nodes, k);
    assert f in LeavesFrom(nodes, [k]);
  }

  /** After such a split, the subtree of any k above f gains exactly the new nodes. */
  lemma SplitSubtree(nodes: seq<Node>, g: seq<Node>, f: nat, k: nat)
    requires SplitOf(nodes, g, f) && k < |nodes| && InSubtree(nodes, f, k)
    ensures forall x: nat :: InSubtree(g, x, k) <==> InSubtree(nodes, x, k) || |nodes| <= x < |g|
  {
    forall x: nat
      ensures InSubtree(g, x, k) <==> InSubtree(nodes, x, k) || |nodes| <= x < |g|
    {
      InSubtreeAfterSplit(nodes, g, f, x, k);
    }
  }

  /** The entries of lo .. hi-1 are exactly the indices in that range. */
  lemma RangeMembers(lo: nat, hi: nat)
    requires lo <= hi
    ensures Distinct(Range(lo, hi))
    ensures forall x: nat :: x in Range(lo, hi) <==> lo <= x < hi
  {
    forall x: nat | lo <= x < hi
      ensures x in Range(lo, hi)
    {
      assert Range(lo, hi)[x - lo] == x;
    }
  }

  /** The size of the union of two disjoint sets. */
  lemma DisjointUnionCard(a: set<nat>, b: set<nat>)
    requires a * b == {}
    ensures |a + b| == |a| + |b|
  {
  }

  /**
    A duplicate-free list t listing exactly the entries of s and of u, two
    duplicate-free lists with no entry in common, is as long as both.
  */
  lemma CardOfUnion(s: seq<nat>, t: seq<nat>, u: seq<nat>)
    requires Distinct(s) && Distinct(t) && Distinct(u)
    requires forall x: nat :: x in t <==> x in s || x in u
    requires forall x: nat :: x in s ==> x !in u
    ensures |t| == |s| + |u|
  {
    assert Members(t) == Members(s) + Members(u);
    assert Members(s) * Members(u) == {};
    DistinctCard(s);
    DistinctCard(t);
    DistinctCard(u);
    DisjointUnionCard(Members(s), Members(u));
  }

  /** The same when t leaves out one entry f of s. */
  lemma CardOfUnionWithout(s: seq<nat>, t: seq<nat>, u: seq<nat>, f: nat)
    requires Distinct(s) && Distinct(t) && Distinct(u) && f in s
    requires forall x: nat :: x in t <==> (x in s && x != f) || x in u
    requires forall x: nat :: x in s ==> x !in u
    ensures |t| == |s| - 1 + |u|
  {
    var rest := Members(s) - {f};
    assert Members(t) == rest + Members(u);
    assert rest * Members(u) == {};
    assert Members(s) == rest + {f};
    DistinctCard(s);
    DistinctCard(t);
    DistinctCard(u);
    DisjointUnionCard(rest, Members(u));
    DisjointUnionCard(rest, {f});
  }

  /**
    When the subtree of k gains exactly the nodes |nodes| .. |g|-1, nodeBFS
    from k lists that many more nodes.
  */
  lemma SubtreeGainCount(nodes: seq<Node>, g: seq<Node>, k: nat)
    requires WellFormed(nodes) && WellFormed(g) && k < |nodes| <= |g|
    requires forall x: nat :: InSubtree(g, x, k) <==> InSubtree(nodes, x, k) || |nodes| <= x < |g|
    ensures |NodesFrom(g, [k])| == |NodesFrom(nodes, [k])| + (|g| - |nodes|)
  {
    NodeBFSExactlyOnce(nodes, k);
    NodeBFSExactlyOnce(g, k);
    RangeMembers(|nodes|, |g|);
    CardOfUnion(NodesFrom(nodes, [k]), NodesFrom(g, [k]), Range(|nodes|, |g|));
  }

  /** After a split of the leaf f below k, a leaf below k is an old leaf other than f, or a new node. */
  lemma SplitLeafMember(nodes: seq<Node>, g: seq<Node>, f: nat, k: nat, x: nat)
    requires SplitOf(nodes, g, f) && k < |nodes| && InSubtree(nodes, f, k)
    ensures x in LeavesFrom(g, [k]) <==> (x in LeavesFrom(nodes, [k]) && x != f) || |nodes| <= x < |g|
  {
    InSubtreeAfterSplit(nodes, g, f, x, k);
    LeafListed(nodes, k, x);
    LeafListed(g, k, x);
    if x == f {
      assert g[f].children[0] == |nodes|;
    } else if x < |nodes| {
      assert g[x] == nodes[x];
    }
  }

  /**
    After a split of the leaf f below k, leafBFS from k lists the new nodes
    in place of f.
  */
  lemma SplitLeafCount(nodes: seq<Node>, g: seq<Node>, f: nat, k: nat)
    requires SplitOf(nodes, g, f) && k < |nodes| && InSubtree(nodes, f, k)
    ensures |LeavesFrom(g, [k])| == |LeavesFrom(nodes, [k])| + (|g| - |nodes|) - 1
  {
    var before, after := LeavesFrom(nodes, [k]), LeavesFrom(g, [k]);
    RangeMembers(|nodes|, |g|);
    forall x: nat
      ensures x in after <==> (x in before && x != f) || x in Range(|nodes|, |g|)
    {
      SplitLeafMember(nodes, g, f, k, x);
    }
    LeafListed(nodes, k, f);
    LeavesDistinct(nodes, k);
    LeavesDistinct(g, k);
    CardOfUnionWithout(before, after, Range(|nodes|, |g|), f);
  }

  /**
    Each stepGrow on any well-formed tree adds numClasses nodes and
    numClasses-1 leaves to k's subtree: on binary data numNode grows by 2
    and numLeaf by 1.
  */
  lemma GrowCounts(nodes: seq<Node>, k: nat, numClasses: nat, train: seq<Instance> -> Classifier)
    requires WellFormed(nodes) && k < |nodes| && numClasses >= 1
    ensures var g := Grow(nodes, k, numClasses, train);
      && |NodesFrom(g, [k])| == |NodesFrom(nodes, [k])| + numClasses
      && |LeavesFrom(g, [k])| == |LeavesFrom(nodes, [k])| + numClasses - 1
  {
    var g := Grow(nodes, k, numClasses, train);
    GrowIsSplitOf(nodes, k, numClasses, train);
    var f := LeavesFrom(nodes, [k])[0];
    SplitSubtree(nodes, g, f, k);
    SubtreeGainCount(nodes, g, k);
    SplitLeafCount(nodes, g, f, k);
  }

  // ---------------------------------------------------------------------------
  // Trees grown only by stepGrow from a lone root
  // ---------------------------------------------------------------------------

  /**
    The shape of a tree grown from node 0 by m calls of stepGrow with
    numClasses children per split: it is filled level by level, left to
    right, so node i < m has children numClasses*i+1 .. numClasses*i+numClasses
    and nodes m .. numClasses*m are leaves.
  */
  ghost predicate Shaped(nodes: seq<Node>, numClasses: nat, m: nat) {
    && m < |nodes| && 1 + numClasses * m <= |nodes|
    && (forall i :: 0 <= i < m ==> nodes[i].children == Range(FirstChild(numClasses, i), FirstChild(numClasses, i) + numClasses))
    && (forall i :: m <= i < 1 + numClasses * m ==> nodes[i].children == [])
  }

  /** The index of the first child of node i in a shaped tree. */
  function FirstChild(numClasses: nat, i: nat): nat {
    numClasses * i + 1
  }

  function Min(a: nat, b: nat): nat {
    if a <= b then a else b
  }

  function Max(a: nat, b: nat): nat {
    if a <= b then b else a
  }

  lemma MulMono(c: nat, a: nat, b: nat)
    requires a <= b
    ensures c * a <= c * b
  {
  }

  lemma MulAtLeast(c: nat, a: nat)
    requires c >= 1
    ensures a <= c * a
  {
    MulMono(a, 1, c);
  }

  /** One past the last queued node once nodes 0 .. i-1 have left the breadth-first queue. */
  function QueueEnd(numClasses: nat, m: nat, i: nat): nat {
    1 + numClasses * Min(i, m)
  }

  lemma MulSucc(c: nat, a: nat)
    ensures c * (a + 1) == c * a + c
  {
  }

  /**
    Node i of a shaped tree has children QueueEnd(i) .. QueueEnd(i+1)-1:
    the nodes a breadth-first queue holds after node i-1 has left it run
    from i to QueueEnd(i)-1, and dequeuing node i extends them to QueueEnd(i+1)-1.
  */
  lemma ShapedLevel(nodes: seq<Node>, numClasses: nat, m: nat, i: nat)
    requires Shaped(nodes, numClasses, m) && numClasses >= 1
    requires i < 1 + numClasses * m
    ensures i < QueueEnd(numClasses, m, i) <= QueueEnd(numClasses, m, i + 1) <= 1 + numClasses * m
    ensures nodes[i].children == Range(QueueEnd(numClasses, m, i), QueueEnd(numClasses, m, i + 1))
  {
    var C := numClasses;
    var a, b := QueueEnd(C, m, i), QueueEnd(C, m, i + 1);
    MulMono(C, Min(i, m), m);
    MulMono(C, Min(i + 1, m), m);
    if i < m {
      MulAtLeast(C, i);
      MulSucc(C, i);
      assert a == FirstChild(C, i) && b == FirstChild(C, i) + C;
    } else {
      assert a == b && a == 1 + C * m;
    }
  }

  /**
    nodeBFS over a tree stored level by level: when the children of every
    node j in i .. n-1 are ends[j] .. ends[j+1]-1 and ends[n] = n, the
    enumeration from the queue i .. ends[i]-1 is i .. n-1.
  */
  lemma {:induction false} NodesFromLevels(nodes: seq<Node>, ends: seq<nat>, i: nat, n: nat)
    requires WellFormed(nodes) && i <= n <= |nodes| && |ends| == n + 1 && ends[n] == n
    requires forall j :: i <= j < n ==> j < ends[j]
    requires forall j :: i <= j <= n ==> ends[j] <= n
    requires forall j :: i <= j < n ==> ends[j] <= ends[j + 1]
    requires forall j :: i <= j < n ==> nodes[j].children == Range(ends[j], ends[j + 1])
    ensures i <= ends[i] <= n
    ensures InRange(nodes, Range(i, ends[i]))
    ensures NodesFrom(nodes, Range(i, ends[i])) == Range(i, n)
    decreases n - i
  {
    if i < n {
      var q := Range(i, ends[i]);
      NodesFromUnfold(nodes, q);
      assert q[1..] == Range(i + 1, ends[i]);
      RangeConcat(i + 1, ends[i], ends[i + 1]);
      NodesFromLevels(nodes, ends, i + 1, n);
      RangeCons(i, n);
    } else {
      assert Range(i, ends[i]) == [];
    }
  }

  /** The queue ends QueueEnd(0) .. QueueEnd(n) of a shaped tree with n = 1 + numClasses*m nodes. */
  function Ends(numClasses: nat, m: nat): (ends: seq<nat>)
    ensures |ends| == 2 + numClasses * m
  {
    seq(2 + numClasses * m, j requires 0 <= j => QueueEnd(numClasses, m, j))
  }

  /** A shaped tree is stored level by level, with the levels given by Ends. */
  lemma ShapedEnds(nodes: seq<Node>, numClasses: nat, m: nat)
    requires Shaped(nodes, numClasses, m) && numClasses >= 1
    ensures var ends, n := Ends(numClasses, m), 1 + numClasses * m;
      && ends[0] == 1 && ends[n] == n
      && (forall j :: 0 <= j < n ==> j < ends[j])
      && (forall j :: 0 <= j <= n ==> ends[j] <= n)
      && (forall j :: 0 <= j < n ==> ends[j] <= ends[j + 1])
      && (forall j :: 0 <= j < n ==> nodes[j].children == Range(ends[j], ends[j + 1]))
  {
    var ends, n := Ends(numClasses, m), 1 + numClasses * m;
    assert ends[n] == n by {
      MulAtLeast(numClasses, m);
      assert Min(n, m) == m;
    }
    forall j | 0 <= j < n
      ensures j < ends[j] && ends[j] <= n
    {
      ShapedLevel(nodes, numClasses, m, j);
    }
    forall j | 0 <= j < n
      ensures ends[j] <= ends[j + 1]
    {
      ShapedLevel(nodes, numClasses, m, j);
    }
    forall j | 0 <= j < n
      ensures nodes[j].children == Range(ends[j], ends[j + 1])
    {
      ShapedLevel(nodes, numClasses, m, j);
    }
  }

  /** In a shaped tree nodeBFS lists the nodes in index order. */
  lemma ShapedNodesFrom(nodes: seq<Node>, numClasses: nat, m: nat)
    requires WellFormed(nodes) && Shaped(nodes, numClasses, m) && numClasses >= 1
    ensures NodesFrom(nodes, [0]) == Range(0, 1 + numClasses * m)
  {
    ShapedEnds(nodes, numClasses, m);
    NodesFromLevels(nodes, Ends(numClasses, m), 0, 1 + numClasses * m);
    assert Range(0, 1) == [0];
  }

  /** Filtering the leaves out of i .. n-1, where exactly the nodes from m on are leaves. */
  lemma {:induction false} LeafFilterRange(nodes: seq<Node>, m: nat, n: nat, i: nat)
    requires i <= n <= |nodes| && m <= n
    requires forall j :: i <= j < n ==> (nodes[j].IsLeaf() <==> m <= j)
    ensures InRange(nodes, Range(i, n))
    ensures LeafFilter(nodes, Range(i, n)) == Range(Max(i, m), n)
    decreases n - i
  {
    if i < n {
      LeafFilterRange(nodes, m, n, i + 1);
      var s := Range(i, n);
      assert s[0] == i && s[1..] == Range(i + 1, n);
      var rest := LeafFilter(nodes, s[1..]);
      assert LeafFilter(nodes, s) == (if nodes[i].IsLeaf() then [i] else []) + rest;
      if m <= i {
        assert rest == Range(i + 1, n);
        RangeCons(i, n);
      } else {
        assert Max(i + 1, m) == m;
        assert [] + rest == rest;
      }
    }
  }

  lemma ShapedLeafFilter(nodes: seq<Node>, numClasses: nat, m: nat)
    requires Shaped(nodes, numClasses, m) && numClasses >= 1
    ensures m <= 1 + numClasses * m
    ensures InRange(nodes, Range(0, 1 + numClasses * m))
    ensures LeafFilter(nodes, Range(0, 1 + numClasses * m)) == Range(m, 1 + numClasses * m)
  {
    var n := 1 + numClasses * m;
    MulAtLeast(numClasses, m);
    forall j | 0 <= j < n
      ensures nodes[j].IsLeaf() <==> m <= j
    {
      if j < m {
        assert |nodes[j].children| == numClasses;
      }
    }
    LeafFilterRange(nodes, m, n, 0);
  }

  /** nodeBFS of a shaped tree is 0 .. numClasses*m, and leafBFS is m .. numClasses*m. */
  lemma ShapedBFS(nodes: seq<Node>, numClasses: nat, m: nat)
    requires WellFormed(nodes) && Shaped(nodes, numClasses, m) && numClasses >= 1
    ensures NodesFrom(nodes, [0]) == Range(0, 1 + numClasses * m)
    ensures m < 1 + numClasses * m
    ensures LeavesFrom(nodes, [0]) == Range(m, 1 + numClasses * m)
  {
    ShapedNodesFrom(nodes, numClasses, m);
    LeavesAreFilteredNodes(nodes, [0]);
    ShapedLeafFilter(nodes, numClasses, m);
    MulAtLeast(numClasses, m);
  }

  /**
    On a shaped tree with no detached nodes, stepGrow splits node m, the
    first leaf, and the result is the shape with m+1 splits.
  */
  lemma GrowShaped(nodes: seq<Node>, numClasses: nat, m: nat, train: seq<Instance> -> Classifier)
    requires WellFormed(nodes) && Shaped(nodes, numClasses, m) && |nodes| == 1 + numClasses * m
    requires numClasses >= 1
    ensures LeavesFrom(nodes, [0]) != [] && LeavesFrom(nodes, [0])[0] == m
    ensures var r := Grow(nodes, 0, numClasses, train);
      && Shaped(r, numClasses, m + 1) && |r| == 1 + numClasses * (m + 1)
      && r[0].parent == nodes[0].parent
  {
    ShapedBFS(nodes, numClasses, m);
    GrowIsSplitOf(nodes, 0, numClasses, train);
    SplitShaped(nodes, Grow(nodes, 0, numClasses, train), numClasses, m);
  }

  /** Giving node m of the shape with m splits numClasses new leaf children gives the shape with m+1 splits. */
  lemma SplitShaped(nodes: seq<Node>, r: seq<Node>, numClasses: nat, m: nat)
    requires Shaped(nodes, numClasses, m) && |nodes| == 1 + numClasses * m
    requires SplitOf(nodes, r, m) && |r| == |nodes| + numClasses
    ensures Shaped(r, numClasses, m + 1) && |r| == 1 + numClasses * (m + 1)
  {
    var C, N := numClasses, 1 + numClasses * m;
    MulSucc(C, m);
    forall i | 0 <= i < m + 1
      ensures r[i].children == Range(FirstChild(C, i), FirstChild(C, i) + C)
    {
      if i == m {
        assert r[m].children == Range(N, N + C);
      }
    }
    forall i | m + 1 <= i < 1 + C * (m + 1)
      ensures r[i].children == []
    {
      if i < N {
        assert r[i] == nodes[i];
      }
    }
  }


  /**
    On the shape with m+1 splits, revokeLastSplit finds node m as the parent
    of the last leaf and clears its children, giving back the shape with m splits.
  */
  lemma RevokeShaped(nodes: seq<Node>, numClasses: nat, m: nat)
    requires WellFormed(nodes) && Shaped(nodes, numClasses, m + 1) && numClasses >= 1
    ensures Revoke(nodes, 0) == Ok(nodes[m := nodes[m].(children := [])])
    ensures Shaped(nodes[m := nodes[m].(children := [])], numClasses, m)
  {
    var C := numClasses;
    ShapedBFS(nodes, C, m + 1);
    var leaves := LeavesFrom(nodes, [0]);
    MulSucc(C, m);
    var last := leaves[|leaves| - 1];
    assert last == C * m + C;
    assert nodes[m].children[C - 1] == last;
    assert nodes[last].parent == Some(m);
    ShapedUnsplit(nodes, C, m);
  }

  /** Clearing the children of node m of the shape with m+1 splits gives the shape with m splits. */
  lemma ShapedUnsplit(nodes: seq<Node>, numClasses: nat, m: nat)
    requires Shaped(nodes, numClasses, m + 1) && numClasses >= 1
    ensures Shaped(nodes[m := nodes[m].(children := [])], numClasses, m)
  {
    MulMono(numClasses, m, m + 1);
  }

  /**
    Grow then undo: on a tree grown from a lone root only by stepGrow,
    stepGrow followed by revokeLastSplit succeeds and restores every node
    that existed before (the new children stay behind, detached), so
    nodeBFS and leafBFS are as before.
  */
  lemma GrowThenRevoke(nodes: seq<Node>, numClasses: nat, m: nat, train: seq<Instance> -> Classifier)
    requires WellFormed(nodes) && Shaped(nodes, numClasses, m) && |nodes| == 1 + numClasses * m
    requires numClasses >= 1
    ensures var g := Grow(nodes, 0, numClasses, train);
      && Revoke(g, 0).Ok?
      && |Revoke(g, 0).value| == |nodes| + numClasses
      && Revoke(g, 0).value[..|nodes|] == nodes
      && Shaped(Revoke(g, 0).value, numClasses, m)
      && NodesFrom(Revoke(g, 0).value, [0]) == NodesFrom(nodes, [0])
      && LeavesFrom(Revoke(g, 0).value, [0]) == LeavesFrom(nodes, [0])
  {
    GrowThenRevokeRestores(nodes, numClasses, m, train);
    var r := Revoke(Grow(nodes, 0, numClasses, train), 0).value;
    ShapedBFS(nodes, numClasses, m);
    ShapedBFS(r, numClasses, m);
  }

  lemma GrowThenRevokeRestores(nodes: seq<Node>, numClasses: nat, m: nat, train: seq<Instance> -> Classifier)
    requires WellFormed(nodes) && Shaped(nodes, numClasses, m) && |nodes| == 1 + numClasses * m
    requires numClasses >= 1
    ensures var g := Grow(nodes, 0, numClasses, train);
      && Revoke(g, 0).Ok?
      && |Revoke(g, 0).value| == |nodes| + numClasses
      && Revoke(g, 0).value[..|nodes|] == nodes
      && Shaped(Revoke(g, 0).value, numClasses, m)
      && WellFormed(Revoke(g, 0).value)
  {
    var g := Grow(nodes, 0, numClasses, train);
    GrowShaped(nodes, numClasses, m, train);
    RevokeShaped(g, numClasses, m);
    var r := Revoke(g, 0).value;
    assert r == g[m := g[m].(children := [])];
    forall i | 0 <= i < |nodes|
      ensures r[i] == nodes[i]
    {
    }
  }

  /** The tree a lone root becomes after n calls of stepGrow. */
  ghost function Grown(root: Node, numClasses: nat, train: seq<Instance> -> Classifier, n: nat): (r: seq<Node>)
    requires root.parent == None && root.IsLeaf() && numClasses >= 1
    ensures Shaped(r, numClasses, n) && |r| == 1 + numClasses * n
    ensures WellFormed(r) && r[0].parent == None
  {
    if n == 0 then [root]
    else
      var prev := Grown(root, numClasses, train, n - 1);
      GrowShaped(prev, numClasses, n - 1, train);
      Grow(prev, 0, numClasses, train)
  }

  /** revokeLastSplit on a lone root finds no parent to clear. */
  lemma RevokeLoneRootFails(root: Node)
    requires root.parent == None && root.IsLeaf()
    ensures Revoke([root], 0) == Err(NullParent)
  {
    assert WellFormed([root]);
    SingleNodeIffLeaf([root], 0);
    LeafBFSExactlyOnce([root], 0);
    LeavesNonEmpty([root], [0]);
  }
}
