/** Nearest-neighbour lookup: buckets by midpoint, then a short list, then the k nearest. */
module Neighbours {
  import opened XorMetric
  import opened Buckets
  import opened KeyedSort

  function NodeDistance(target: nat): Node -> int {
    (n: Node) => Xor(n, target)
  }

  function BucketDistance(target: nat): Bucket -> int {
    (b: Bucket) => Xor(Midpoint(b), target)
  }

  /** Appends the nodes one by one and stops the moment the list has `limit` entries. */
  function Take(acc: seq<Node>, nodes: seq<Node>, limit: nat): seq<Node>
    decreases |nodes|
  {
    if nodes == [] then acc
    else
      var next := acc + [nodes[0]];
      if |next| == limit then next else Take(next, nodes[1..], limit)
  }

  /** All buckets in order; reaching the limit only ends the bucket it happens in. */
  function Collect(acc: seq<Node>, buckets: seq<Bucket>, target: nat, limit: nat): seq<Node>
    decreases |buckets|
  {
    if buckets == [] then acc
    else
      Collect(Take(acc, SortBy(buckets[0].nodes, NodeDistance(target)), limit), buckets[1..], target, limit)
  }

  function FirstK<T>(s: seq<T>, k: nat): seq<T> {
    if k <= |s| then s[..k] else s
  }

  function FindNeighbours(t: seq<Bucket>, target: nat, k: nat): seq<Node> {
    var near := Collect([], SortBy(t, BucketDistance(target)), target, 2 * k);
    FirstK(SortBy(near, NodeDistance(target)), k)
  }

  /**
   * The k nearest members: in increasing distance, all of them members, as many as there are up
   * to k, and no member that is left out is nearer than one that is listed.
   */
  ghost predicate IsNearest(t: seq<Bucket>, target: nat, k: nat, r: seq<Node>) {
    && |r| <= k
    && Increasing(r, NodeDistance(target))
    && (forall n | n in r :: Member(t, n))
    && (|r| < k ==> forall n :: Member(t, n) ==> n in r)
    && (forall n, m | n in r && Member(t, m) && m !in r :: Xor(n, target) < Xor(m, target))
  }

  // --- The full list, without any limit ---

  function Everything(buckets: seq<Bucket>, target: nat): seq<Node> {
    if buckets == [] then []
    else SortBy(buckets[0].nodes, NodeDistance(target)) + Everything(buckets[1..], target)
  }

  lemma {:induction false} EverythingMembers(buckets: seq<Bucket>, target: nat, n: Node)
    ensures n in Everything(buckets, target) <==> exists i | 0 <= i < |buckets| :: n in buckets[i].nodes
    decreases |buckets|
  {
    if buckets != [] {
      EverythingMembers(buckets[1..], target, n);
      SameMembers(buckets[0].nodes, NodeDistance(target));
      if i :| 0 <= i < |buckets| && n in buckets[i].nodes {
        if i > 0 {
          assert n in buckets[1..][i - 1].nodes;
        }
      }
      if n in Everything(buckets[1..], target) {
        var i :| 0 <= i < |buckets[1..]| && n in buckets[1..][i].nodes;
        assert n in buckets[i + 1].nodes;
      }
    }
  }

  /** Every node of an earlier bucket is nearer than every node of a later one. */
  ghost predicate Separated(buckets: seq<Bucket>, target: nat) {
    forall i, j, a, b | 0 <= i < j < |buckets| && a in buckets[i].nodes && b in buckets[j].nodes ::
      Xor(a, target) < Xor(b, target)
  }

  lemma {:induction false} NodesIncreasing(nodes: seq<Node>, target: nat)
    requires Distinct(nodes)
    ensures Increasing(SortBy(nodes, NodeDistance(target)), NodeDistance(target))
  {
    forall i, j | 0 <= i < j < |nodes|
      ensures NodeDistance(target)(nodes[i]) != NodeDistance(target)(nodes[j])
    {
      if Xor(nodes[i], target) == Xor(nodes[j], target) {
        XorInjective(nodes[i], nodes[j], target);
      }
    }
    SortIncreasing(nodes, NodeDistance(target));
  }

  lemma {:induction false} AppendIncreasing(a: seq<Node>, b: seq<Node>, target: nat)
    requires Increasing(a, NodeDistance(target)) && Increasing(b, NodeDistance(target))
    requires forall x, y | x in a && y in b :: Xor(x, target) < Xor(y, target)
    ensures Increasing(a + b, NodeDistance(target))
  {
    var key := NodeDistance(target);
    forall i, j | 0 <= i < j < |a + b|
      ensures key((a + b)[i]) < key((a + b)[j])
    {
      if i < |a| <= j {
        assert a[i] in a && b[j - |a|] in b;
      }
    }
  }

  lemma {:induction false} EverythingIncreasing(buckets: seq<Bucket>, target: nat)
    requires Separated(buckets, target)
    requires forall i | 0 <= i < |buckets| :: Distinct(buckets[i].nodes)
    ensures Increasing(Everything(buckets, target), NodeDistance(target))
    decreases |buckets|
  {
    if buckets != [] {
      var rest := buckets[1..];
      SeparatedTail(buckets, target);
      EverythingIncreasing(rest, target);
      var first := SortBy(buckets[0].nodes, NodeDistance(target));
      NodesIncreasing(buckets[0].nodes, target);
      SameMembers(buckets[0].nodes, NodeDistance(target));
      forall x, y | x in first && y in Everything(rest, target)
        ensures Xor(x, target) < Xor(y, target)
      {
        EverythingMembers(rest, target, y);
        var i :| 0 <= i < |rest| && y in rest[i].nodes;
        assert rest[i] == buckets[i + 1];
      }
      AppendIncreasing(first, Everything(rest, target), target);
    }
  }

  lemma SeparatedTail(buckets: seq<Bucket>, target: nat)
    requires buckets != [] && Separated(buckets, target)
    ensures Separated(buckets[1..], target)
  {
    forall i, j, a, b | 0 <= i < j < |buckets[1..]| && a in buckets[1..][i].nodes && b in buckets[1..][j].nodes
      ensures Xor(a, target) < Xor(b, target)
    {
      assert a in buckets[i + 1].nodes && b in buckets[j + 1].nodes;
    }
  }

  // --- Buckets by midpoint are separated ---

  lemma MidpointInRange(cfg: Config, b: Bucket)
    requires ValidBucket(cfg, b)
    ensures InRange(b, Midpoint(b))
  {
    BlockNonempty(b.start, b.end);
  }

  lemma MidpointsDistinct(cfg: Config, t: seq<Bucket>, target: nat)
    requires ValidTable(cfg, t)
    ensures DistinctKeys(t, BucketDistance(target))
  {
    forall i, j | 0 <= i < j < |t|
      ensures BucketDistance(target)(t[i]) != BucketDistance(target)(t[j])
    {
      Ordered(cfg, t, i, j);
      MidpointInRange(cfg, t[i]);
      MidpointInRange(cfg, t[j]);
      if Xor(Midpoint(t[i]), target) == Xor(Midpoint(t[j]), target) {
        XorInjective(Midpoint(t[i]), Midpoint(t[j]), target);
      }
    }
  }

  /** Two different buckets of the table whose midpoints are ordered have their nodes so ordered. */
  lemma {:induction false} MidpointDecides(
      cfg: Config, t: seq<Bucket>, target: nat, p: Bucket, q: Bucket, a: Node, b: Node)
    requires ValidTable(cfg, t) && p in t && q in t && p != q
    requires Xor(Midpoint(p), target) <= Xor(Midpoint(q), target)
    requires a in p.nodes && b in q.nodes
    ensures Xor(a, target) < Xor(b, target)
  {
    var i :| 0 <= i < |t| && t[i] == p;
    var j :| 0 <= j < |t| && t[j] == q;
    if i < j {
      Ordered(cfg, t, i, j);
    } else {
      Ordered(cfg, t, j, i);
    }
    MidpointInRange(cfg, p);
    MidpointInRange(cfg, q);
    RepresentativesDecide(p.start, p.end, q.start, q.end, Midpoint(p), a, Midpoint(q), b, target);
  }

  lemma IncreasingSeparated(cfg: Config, t: seq<Bucket>, target: nat, sorted: seq<Bucket>)
    requires ValidTable(cfg, t) && Increasing(sorted, BucketDistance(target))
    requires forall b | b in sorted :: b in t
    ensures Separated(sorted, target)
  {
    forall i, j, a, b | 0 <= i < j < |sorted| && a in sorted[i].nodes && b in sorted[j].nodes
      ensures Xor(a, target) < Xor(b, target)
    {
      assert BucketDistance(target)(sorted[i]) < BucketDistance(target)(sorted[j]);
      MidpointDecides(cfg, t, target, sorted[i], sorted[j], a, b);
    }
  }

  lemma {:induction false} SortedBucketsSeparated(cfg: Config, t: seq<Bucket>, target: nat)
    requires ValidTable(cfg, t)
    ensures Separated(SortBy(t, BucketDistance(target)), target)
  {
    MidpointsDistinct(cfg, t, target);
    SortIncreasing(t, BucketDistance(target));
    SameMembers(t, BucketDistance(target));
    IncreasingSeparated(cfg, t, target, SortBy(t, BucketDistance(target)));
  }

  // --- What the limit drops ---

  /** Either nothing is dropped, or the list has just reached the limit. */
  lemma {:induction false} TakeCases(acc: seq<Node>, nodes: seq<Node>, limit: nat)
    ensures
      var r := Take(acc, nodes, limit);
      r == acc + nodes || (|acc| < limit && |r| == limit && r <= acc + nodes)
    decreases |nodes|
  {
    if nodes != [] {
      var next := acc + [nodes[0]];
      assert next + nodes[1..] == acc + nodes;
      if |next| != limit {
        TakeCases(next, nodes[1..], limit);
      }
    } else {
      assert acc + nodes == acc;
    }
  }

  /** `r` is `all` with, at most, a stretch missing somewhere after position `keep`. */
  ghost predicate Gapped(all: seq<Node>, r: seq<Node>, keep: nat) {
    exists i: nat, j: nat :: GappedAt(all, r, keep, i, j)
  }

  ghost predicate GappedAt(all: seq<Node>, r: seq<Node>, keep: nat, i: nat, j: nat) {
    i <= j <= |all| && (i < j ==> keep <= i) && r == all[..i] + all[j..]
  }

  /** Once the list is at the limit or beyond, nothing more is dropped. */
  lemma {:induction false} CollectBeyond(acc: seq<Node>, buckets: seq<Bucket>, target: nat, limit: nat)
    requires |acc| >= limit
    ensures Collect(acc, buckets, target, limit) == acc + Everything(buckets, target)
    decreases |buckets|
  {
    if buckets == [] {
      assert acc + [] == acc;
    } else {
      var nodes := SortBy(buckets[0].nodes, NodeDistance(target));
      TakeCases(acc, nodes, limit);
      CollectBeyond(acc + nodes, buckets[1..], target, limit);
      ConcatAssociative(acc, nodes, Everything(buckets[1..], target));
    }
  }

  lemma {:induction false} CollectGapped(acc: seq<Node>, buckets: seq<Bucket>, target: nat, limit: nat)
    ensures Gapped(acc + Everything(buckets, target), Collect(acc, buckets, target, limit), limit)
    decreases |buckets|
  {
    var all := acc + Everything(buckets, target);
    if buckets == [] {
      assert all == acc;
      NoGap(all, limit);
    } else {
      var nodes := SortBy(buckets[0].nodes, NodeDistance(target));
      var rest := Everything(buckets[1..], target);
      var r := Take(acc, nodes, limit);
      ConcatAssociative(acc, nodes, rest);
      TakeCases(acc, nodes, limit);
      if r == acc + nodes {
        CollectGapped(acc + nodes, buckets[1..], target, limit);
      } else {
        CollectBeyond(r, buckets[1..], target, limit);
        GapAfter(acc + nodes, rest, r, limit);
      }
    }
  }

  lemma NoGap(all: seq<Node>, keep: nat)
    ensures Gapped(all, all, keep)
  {
    assert all == all[..0] + all[0..];
    assert GappedAt(all, all, keep, 0, 0);
  }

  lemma GapAfter(head: seq<Node>, rest: seq<Node>, r: seq<Node>, keep: nat)
    requires r <= head && |r| == keep
    ensures Gapped(head + rest, r + rest, keep)
  {
    var all := head + rest;
    assert all[..keep] == r && all[|head|..] == rest;
    assert GappedAt(all, r + rest, keep, keep, |head|);
  }

  lemma GappedFirst(all: seq<Node>, r: seq<Node>, keep: nat, k: nat, target: nat)
    requires Gapped(all, r, keep) && k <= keep && Increasing(all, NodeDistance(target))
    ensures FirstK(r, k) == FirstK(all, k) && Increasing(r, NodeDistance(target))
  {
    var i: nat, j: nat :| GappedAt(all, r, keep, i, j);
    if i == j {
      assert r == all;
    }
  }

  // --- The result ---

  lemma FirstKNearest(t: seq<Bucket>, target: nat, k: nat, all: seq<Node>)
    requires Increasing(all, NodeDistance(target)) && forall n :: n in all <==> Member(t, n)
    ensures IsNearest(t, target, k, FirstK(all, k))
  {
    var r := FirstK(all, k);
    forall n, m | n in r && Member(t, m) && m !in r
      ensures Xor(n, target) < Xor(m, target)
    {
      var i :| 0 <= i < |r| && r[i] == n;
      var j :| 0 <= j < |all| && all[j] == m;
      assert r[i] == all[i];
      assert NodeDistance(target)(all[i]) < NodeDistance(target)(all[j]);
    }
  }

  lemma {:induction false} SortedEverything(cfg: Config, t: seq<Bucket>, target: nat)
    requires ValidTable(cfg, t)
    ensures
      var all := Everything(SortBy(t, BucketDistance(target)), target);
      Increasing(all, NodeDistance(target)) && forall n :: n in all <==> Member(t, n)
  {
    var sorted := SortBy(t, BucketDistance(target));
    SortedBucketsSeparated(cfg, t, target);
    SameMembers(t, BucketDistance(target));
    SortedDistinct(cfg, t, sorted);
    EverythingIncreasing(sorted, target);
    forall n
      ensures n in Everything(sorted, target) <==> Member(t, n)
    {
      EverythingMembers(sorted, target, n);
      MembersOfSorted(t, sorted, n);
    }
  }

  lemma SortedDistinct(cfg: Config, t: seq<Bucket>, sorted: seq<Bucket>)
    requires ValidTable(cfg, t) && forall b | b in sorted :: b in t
    ensures forall i | 0 <= i < |sorted| :: Distinct(sorted[i].nodes)
  {
    forall i | 0 <= i < |sorted|
      ensures Distinct(sorted[i].nodes)
    {
      assert sorted[i] in t;
      var k :| 0 <= k < |t| && t[k] == sorted[i];
    }
  }

  lemma MembersOfSorted(t: seq<Bucket>, sorted: seq<Bucket>, n: Node)
    requires forall b :: b in sorted <==> b in t
    ensures Member(sorted, n) <==> Member(t, n)
  {
    if Member(sorted, n) {
      var i :| 0 <= i < |sorted| && n in sorted[i].nodes;
      assert sorted[i] in t;
    }
    if Member(t, n) {
      var i :| 0 <= i < |t| && n in t[i].nodes;
      assert t[i] in sorted;
    }
  }

  /**
   * For every valid table, target and k: although buckets are ordered by midpoint only and a
   * bucket is cut off at 2k nodes, the result is exactly the k nearest members of the table.
   */
  lemma NeighboursAreNearest(cfg: Config, t: seq<Bucket>, target: nat, k: nat)
    requires ValidTable(cfg, t)
    ensures IsNearest(t, target, k, FindNeighbours(t, target, k))
  {
    var sorted := SortBy(t, BucketDistance(target));
    var all := Everything(sorted, target);
    var near := Collect([], sorted, target, 2 * k);
    SortedEverything(cfg, t, target);
    CollectGapped([], sorted, target, 2 * k);
    assert [] + all == all;
    GappedFirst(all, near, 2 * k, k, target);
    SortIs(near, near, NodeDistance(target));
    FirstKNearest(t, target, k, all);
  }
}
