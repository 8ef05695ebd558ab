/**
  The routing step of splitNode: every instance of a node's data goes to
  the bucket whose index the node's classifier picks, one bucket per class.
*/
module Partition {
  import opened Classification

  /** The instances of `data` routed to bucket `c`, in their original order. */
  ghost function Bucket(data: seq<Instance>, route: Instance -> nat, c: nat): (b: seq<Instance>)
    ensures |b| <= |data|
    ensures forall x :: x in b ==> x in data && route(x) == c
  {
    if data == [] then []
    else
      var x := data[|data| - 1];
      Bucket(data[..|data| - 1], route, c) + (if route(x) == c then [x] else [])
  }

  /** The `n` buckets splitNode fills, bucket `c` destined for child `c`. */
  ghost function Route(data: seq<Instance>, route: Instance -> nat, n: nat): (buckets: seq<seq<Instance>>)
    ensures |buckets| == n
  {
    seq(n, c requires 0 <= c => Bucket(data, route, c))
  }

  /** All instances held by a sequence of buckets, with multiplicity. */
  ghost function Union(buckets: seq<seq<Instance>>): multiset<Instance> {
    if buckets == [] then multiset{}
    else Union(buckets[..|buckets| - 1]) + multiset(buckets[|buckets| - 1])
  }

  /** The total number of instances held by a sequence of buckets. */
  ghost function TotalSize(buckets: seq<seq<Instance>>): nat {
    if buckets == [] then 0
    else TotalSize(buckets[..|buckets| - 1]) + |buckets[|buckets| - 1]|
  }

  /** Routing one more instance appends it to its own bucket and leaves the others alone. */
  lemma {:induction false} RouteStep(data: seq<Instance>, route: Instance -> nat, n: nat, x: Instance)
    requires route(x) < n
    ensures Route(data + [x], route, n) == Route(data, route, n)[route(x) := Route(data, route, n)[route(x)] + [x]]
  {
    assert (data + [x])[..|data|] == data;
    var before, after := Route(data, route, n), Route(data + [x], route, n);
    forall c | 0 <= c < n
      ensures after[c] == before[route(x) := before[route(x)] + [x]][c]
    {
    }
  }

  /**
    Bucket `c` holds every instance of `data` that routes to `c`, as often as
    `data` holds it, and nothing else.
  */
  lemma {:induction false} BucketCount(data: seq<Instance>, route: Instance -> nat, c: nat, x: Instance)
    ensures multiset(Bucket(data, route, c))[x] == if route(x) == c then multiset(data)[x] else 0
  {
    if data != [] {
      var front, last := data[..|data| - 1], data[|data| - 1];
      assert data == front + [last];
      BucketCount(front, route, c, x);
    }
  }

  lemma {:induction false} UnionRouteCount(data: seq<Instance>, route: Instance -> nat, n: nat, x: Instance)
    ensures Union(Route(data, route, n))[x] == if route(x) < n then multiset(data)[x] else 0
  {
    if n > 0 {
      var buckets := Route(data, route, n);
      assert buckets[..n - 1] == Route(data, route, n - 1);
      UnionRouteCount(data, route, n - 1, x);
      BucketCount(data, route, n - 1, x);
    }
  }

  lemma {:induction false} TotalSizeIsUnionSize(buckets: seq<seq<Instance>>)
    ensures TotalSize(buckets) == |Union(buckets)|
  {
    if buckets != [] {
      TotalSizeIsUnionSize(buckets[..|buckets| - 1]);
    }
  }

  /**
    When every instance routes below `n`, the buckets partition the data:
    together they hold exactly its instances, and their sizes add up to its size.
  */
  lemma RoutePartitions(data: seq<Instance>, route: Instance -> nat, n: nat)
    requires forall x :: x in data ==> route(x) < n
    ensures Union(Route(data, route, n)) == multiset(data)
    ensures TotalSize(Route(data, route, n)) == |data|
    ensures forall x :: x in data ==> x in Route(data, route, n)[route(x)]
  {
    forall x
      ensures Union(Route(data, route, n))[x] == multiset(data)[x]
    {
      UnionRouteCount(data, route, n, x);
    }
    TotalSizeIsUnionSize(Route(data, route, n));
    forall x | x in data
      ensures x in Route(data, route, n)[route(x)]
    {
      BucketCount(data, route, route(x), x);
    }
  }
}
