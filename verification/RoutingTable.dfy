/** The routing table as the program updates it, proved against the bucket functions. */
module RoutingTable {
  import opened Prelude
  import opened Buckets
  import opened KeyedSort
  import opened Neighbours

  class KBucket {
    const start: nat
    const end: nat
    var nodes: seq<Node>

    constructor (start: nat, end: nat)
      ensures Value() == Bucket(start, end, [])
    {
      this.start, this.end := start, end;
      nodes := [];
    }

    function Value(): Bucket
      reads this
    {
      Bucket(start, end, nodes)
    }

    /** Moves a known node to the tail, appends a new one, or names the head of a full bucket. */
    method Add(capacity: nat, n: Node) returns (candidate: Option<Node>)
      requires capacity > 0
      modifies this`nodes
      ensures Added(Value(), candidate) == AddToBucket(old(Value()), capacity, n)
    {
      if n in nodes {
        nodes := Without(nodes, n);
        nodes := nodes + [n];
        candidate := None;
      } else if |nodes| < capacity {
        nodes := nodes + [n];
        candidate := None;
      } else {
        candidate := Some(nodes[0]);
      }
    }

    method Remove(n: Node)
      modifies this`nodes
      ensures Value() == old(Value()).(nodes := Without(old(nodes), n))
    {
      if n in nodes {
        nodes := Without(nodes, n);
      } else {
        WithoutAbsent(nodes, n);
      }
    }

    /** Distributes the nodes, in order, over two new buckets. */
    method Split(capacity: nat) returns (lower: KBucket, upper: KBucket)
      requires Distinct(nodes) && |nodes| <= capacity && capacity > 0
      ensures fresh(lower) && fresh(upper) && lower != upper
      ensures lower.Value() == Lower(Value()) && upper.Value() == Upper(Value())
    {
      var splitId := Midpoint(Value());
      lower := new KBucket(start, splitId);
      upper := new KBucket(splitId + 1, end);
      for k := 0 to |nodes|
        invariant fresh(lower) && fresh(upper) && lower != upper
        invariant lower.Value() == Bucket(start, splitId, Below(nodes[..k], splitId))
        invariant upper.Value() == Bucket(splitId + 1, end, Above(nodes[..k], splitId))
      {
        assert nodes[..k + 1][..k] == nodes[..k];
        NextIsNew(nodes, k, splitId);
        if nodes[k] <= splitId {
          var _ := lower.Add(capacity, nodes[k]);
        } else {
          var _ := upper.Add(capacity, nodes[k]);
        }
      }
      assert nodes[..|nodes|] == nodes;
    }
  }

  lemma {:induction false} WithoutAbsent(nodes: seq<Node>, n: Node)
    requires n !in nodes
    ensures Without(nodes, n) == nodes
  {
    if nodes != [] {
      WithoutAbsent(nodes[1..], n);
    }
  }

  lemma {:induction false} NextIsNew(nodes: seq<Node>, k: nat, bound: nat)
    requires Distinct(nodes) && k < |nodes|
    ensures nodes[k] !in Below(nodes[..k], bound) && nodes[k] !in Above(nodes[..k], bound)
    ensures |Below(nodes[..k], bound)| < |nodes| && |Above(nodes[..k], bound)| < |nodes|
  {
    BelowMembers(nodes[..k], bound);
    AboveMembers(nodes[..k], bound);
  }

  /** ValueError is raised for the local node and for ids that no bucket covers. */
  datatype AddOutcome = ValueError | Done(candidate: Option<Node>)

  class RoutingTable {
    const cfg: Config
    var buckets: seq<KBucket>
    /** What the buckets hold, in order. */
    ghost var view: seq<Bucket>
    ghost var repr: set<KBucket>

    constructor (cfg: Config)
      requires ValidConfig(cfg)
      ensures Valid() && this.cfg == cfg && fresh(repr)
      ensures view == NewTable(cfg)
    {
      this.cfg := cfg;
      var whole := new KBucket(0, Pow2(cfg.width) - 1);
      buckets := [whole];
      view := NewTable(cfg);
      repr := {whole};
      new;
      NewTableValid(cfg);
    }

    ghost predicate Valid()
      reads this, repr
    {
      && ValidConfig(cfg)
      && |view| == |buckets|
      && (forall i | 0 <= i < |buckets| :: buckets[i] in repr)
      && (forall i | 0 <= i < |buckets| :: buckets[i].Value() == view[i])
      && (forall i, j | 0 <= i < j < |buckets| :: buckets[i] != buckets[j])
      && ValidTable(cfg, view)
    }

    /** binary_get_bucket_for_node; None is the ValueError. */
    method FindBucket(id: nat) returns (r: Option<nat>)
      requires Valid()
      ensures r.Some? <==> id < Pow2(cfg.width)
      ensures r.Some? ==> r.value == Bisect(view, id) && IsIndexFor(view, id, r.value)
    {
      var ends := Ends(buckets);
      EndsOfView(cfg, buckets, view);
      var position := BisectLeft(ends, id);
      SearchFinds(cfg, view, id, position);
      assert position < |buckets| ==> buckets[position].Value() == view[position];
      r := None;
      if position < |buckets| && buckets[position].start <= id <= buckets[position].end {
        r := Some(position);
      }
    }

    /** split_bucket: two buckets take the place of one. */
    method SplitBucket(i: nat)
      requires Valid() && i < |buckets| && view[i].start < view[i].end
      modifies this
      ensures Valid() && view == SplitAt(old(view), i)
      ensures fresh(repr - old(repr))
    {
      SplitAtValid(cfg, view, i);
      assert buckets[i].Value() == view[i];
      var lower, upper := buckets[i].Split(cfg.capacity);
      StillDistinct(buckets, i, lower, upper);
      SplitViews(buckets, view, i, lower, upper);
      view := SplitAt(view, i);
      repr := repr + {lower, upper};
      buckets := SplitList(buckets, i, lower, upper);
    }

    /** Adds to the bucket at `i`; the other buckets stay as they are. */
    method AddAt(i: nat, n: Node) returns (candidate: Option<Node>)
      requires Valid() && IsIndexFor(view, n, i) && n != cfg.self
      modifies this`view, repr
      ensures Valid()
      ensures
        var added := AddToBucket(old(view)[i], cfg.capacity, n);
        candidate == added.candidate && view == old(view)[i := added.bucket]
    {
      AddToBucketValid(cfg, view[i], n);
      ReplacedValid(cfg, view, i, AddToBucket(view[i], cfg.capacity, n).bucket);
      assert buckets[i].Value() == view[i];
      candidate := buckets[i].Add(cfg.capacity, n);
      view := view[i := AddToBucket(view[i], cfg.capacity, n).bucket];
    }

    /** remove_node; false is the ValueError for an id that no bucket covers. */
    method RemoveNode(n: Node) returns (ok: bool)
      requires Valid()
      modifies this`view, repr
      ensures Valid() && ok == (n < Pow2(cfg.width))
      ensures ok ==> view == Buckets.RemoveNode(old(view), n)
      ensures !ok ==> view == old(view)
    {
      var found := FindBucket(n);
      ok := found.Some?;
      if ok {
        RemoveAt(found.value, n);
      }
    }

    method RemoveAt(i: nat, n: Node)
      requires Valid() && IsIndexFor(view, n, i) && i == Bisect(view, n) && n < Pow2(cfg.width)
      modifies this`view, repr
      ensures Valid() && view == Buckets.RemoveNode(old(view), n)
    {
      RemoveNodeValid(cfg, view, n);
      assert buckets[i].Value() == view[i];
      buckets[i].Remove(n);
      view := Buckets.RemoveNode(view, n);
    }

    /** Split when the bucket covers the local node, or when its depth is no multiple of K_B. */
    method WantsSplit(i: nat) returns (r: bool)
      requires Valid() && i < |buckets|
      ensures r == ShouldSplit(cfg, view[i])
    {
      assert buckets[i].Value() == view[i];
      var depth := SharedPrefixBits(buckets[i].nodes, cfg.width);
      r := buckets[i].start <= cfg.self <= buckets[i].end || (depth % K_B != 0 && depth != cfg.width);
    }

    /**
     * add_node. The range of the node's bucket shrinks with every split, so it terminates.
     */
    method AddNode(n: Node) returns (r: AddOutcome)
      requires Valid()
      modifies this, repr
      ensures fresh(repr - old(repr)) && Valid()
      ensures r.ValueError? <==> n == cfg.self || n >= Pow2(cfg.width)
      ensures r.ValueError? ==> view == old(view)
      ensures r.Done? ==> AddResult(view, r.candidate) == Buckets.AddNode(cfg, old(view), n)
      decreases RangeFor(view, n), 1
    {
      if n == cfg.self {
        return ValueError;
      }
      var found := FindBucket(n);
      if found.None? {
        return ValueError;
      }
      var candidate := AddFound(found.value, n);
      r := Done(candidate);
    }

    /** Adds to the bucket that was found, and splits and retries while that is called for. */
    method AddFound(i: nat, n: Node) returns (candidate: Option<Node>)
      requires Valid() && n < Pow2(cfg.width) && n != cfg.self && i == Bisect(view, n)
      modifies this, repr
      ensures fresh(repr - old(repr)) && Valid() && AddResult(view, candidate) == Buckets.AddNode(cfg, old(view), n)
      decreases RangeFor(view, n), 0
    {
      AddNodeCases(cfg, view, n);
      candidate := AddAt(i, n);
      if candidate.Some? {
        var split := WantsSplit(i);
        if split {
          candidate := SplitAndRetry(i, n, SplitAt(view, i));
        }
      }
    }

    method SplitAndRetry(i: nat, n: Node, ghost after: seq<Bucket>) returns (candidate: Option<Node>)
      requires Valid() && n < Pow2(cfg.width) && n != cfg.self
      requires i < |view| && view[i].start < view[i].end && after == SplitAt(view, i)
      requires ValidTable(cfg, after)
      modifies this, repr
      ensures fresh(repr - old(repr)) && Valid() && AddResult(view, candidate) == Buckets.AddNode(cfg, after, n)
      decreases RangeFor(after, n), 2
    {
      SplitBucket(i);
      var r := AddNode(n);
      candidate := r.candidate;
    }

    /** neighbours: a short list from the buckets by midpoint distance, sorted and cut. */
    method FindNearest(target: nat, k: nat) returns (r: seq<Node>)
      requires Valid()
      ensures r == FindNeighbours(view, target, k)
      ensures IsNearest(view, target, k, r)
    {
      var values := Values(buckets);
      assert values == view;
      var near := ShortList(SortBy(values, BucketDistance(target)), target, 2 * k);
      r := FirstK(SortBy(near, NodeDistance(target)), k);
      NeighboursAreNearest(cfg, view, target, k);
    }

    static method ShortList(sorted: seq<Bucket>, target: nat, limit: nat) returns (near: seq<Node>)
      ensures near == Collect([], sorted, target, limit)
    {
      near := [];
      assert sorted[0..] == sorted;
      for i := 0 to |sorted|
        invariant Collect([], sorted, target, limit) == Collect(near, sorted[i..], target, limit)
      {
        var nodes := SortBy(sorted[i].nodes, NodeDistance(target));
        assert sorted[i..][1..] == sorted[i + 1..];
        near := AppendUpTo(near, nodes, limit);
      }
    }

    /** The inner loop: it stops the moment the list has exactly `limit` entries. */
    static method AppendUpTo(acc: seq<Node>, nodes: seq<Node>, limit: nat) returns (r: seq<Node>)
      ensures r == Take(acc, nodes, limit)
    {
      r := acc;
      assert nodes[0..] == nodes;
      for j := 0 to |nodes|
        invariant Take(acc, nodes, limit) == Take(r, nodes[j..], limit)
      {
        assert nodes[j..][1..] == nodes[j + 1..];
        r := r + [nodes[j]];
        if |r| == limit {
          return;
        }
      }
    }
  }

  function Values(buckets: seq<KBucket>): (r: seq<Bucket>)
    reads buckets
    ensures |r| == |buckets| && forall i | 0 <= i < |buckets| :: r[i] == buckets[i].Value()
  {
    if buckets == [] then [] else Values(buckets[..|buckets| - 1]) + [buckets[|buckets| - 1].Value()]
  }

  function SplitList(buckets: seq<KBucket>, i: nat, lower: KBucket, upper: KBucket): (r: seq<KBucket>)
    requires i < |buckets|
    ensures |r| == |buckets| + 1 && forall k | 0 <= k < |r| :: r[k] in buckets || r[k] in {lower, upper}
  {
    buckets[..i] + [lower, upper] + buckets[i + 1..]
  }

  lemma StillDistinct(buckets: seq<KBucket>, i: nat, lower: KBucket, upper: KBucket)
    requires i < |buckets| && lower !in buckets && upper !in buckets && lower != upper
    requires forall j, k | 0 <= j < k < |buckets| :: buckets[j] != buckets[k]
    ensures
      var r := SplitList(buckets, i, lower, upper);
      forall j, k | 0 <= j < k < |r| :: r[j] != r[k]
  {
  }

  /** The bucket objects show the split table when the two halves show the halves. */
  lemma SplitViews(buckets: seq<KBucket>, view: seq<Bucket>, i: nat, lower: KBucket, upper: KBucket)
    requires |view| == |buckets| && i < |view|
    requires forall k | 0 <= k < |buckets| :: buckets[k].Value() == view[k]
    requires lower.Value() == Lower(view[i]) && upper.Value() == Upper(view[i])
    ensures |SplitAt(view, i)| == |view| + 1
    ensures forall k | 0 <= k <= |view| :: SplitList(buckets, i, lower, upper)[k].Value() == SplitAt(view, i)[k]
  {
    forall k | 0 <= k <= |view|
      ensures SplitList(buckets, i, lower, upper)[k].Value() == SplitAt(view, i)[k]
    {
      SplitAtIndex(view, i, k);
    }
  }

  lemma EndsAscend(cfg: Config, t: seq<Bucket>, m: nat)
    requires ValidTable(cfg, t) && m < |t|
    ensures forall i | 0 <= i < m :: t[i].end <= t[m].end
    ensures forall i | m <= i < |t| :: t[m].end <= t[i].end
    ensures t[m].end <= t[|t| - 1].end
  {
    BlockNonempty(t[m].start, t[m].end);
    forall i | 0 <= i < m
      ensures t[i].end <= t[m].end
    {
      Ordered(cfg, t, i, m);
    }
    forall i | m <= i < |t|
      ensures t[m].end <= t[i].end
    {
      if m < i {
        Ordered(cfg, t, m, i);
        BlockNonempty(t[i].start, t[i].end);
      }
    }
  }

  function Ends(buckets: seq<KBucket>): (r: seq<nat>)
    ensures |r| == |buckets| && forall i | 0 <= i < |buckets| :: r[i] == buckets[i].end
  {
    if buckets == [] then [] else Ends(buckets[..|buckets| - 1]) + [buckets[|buckets| - 1].end]
  }

  ghost predicate Sorted(values: seq<nat>) {
    forall i, j | 0 <= i < j < |values| :: values[i] <= values[j]
  }

  /** bisect_left: the leftmost position at which the value keeps a sorted list sorted. */
  method BisectLeft(values: seq<nat>, value: nat) returns (lo: nat)
    requires Sorted(values)
    ensures lo <= |values|
    ensures forall i | 0 <= i < lo :: values[i] < value
    ensures forall i | lo <= i < |values| :: value <= values[i]
  {
    lo := 0;
    var hi := |values|;
    while lo < hi
      invariant 0 <= lo <= hi <= |values|
      invariant forall i | 0 <= i < lo :: values[i] < value
      invariant forall i | hi <= i < |values| :: value <= values[i]
    {
      var mid := (lo + hi) / 2;
      if values[mid] < value {
        lo := mid + 1;
      } else {
        hi := mid;
      }
    }
  }

  lemma {:induction false} EndsOfView(cfg: Config, buckets: seq<KBucket>, view: seq<Bucket>)
    requires ValidTable(cfg, view) && |view| == |buckets|
    requires forall i | 0 <= i < |buckets| :: buckets[i].Value() == view[i]
    ensures Sorted(Ends(buckets)) && forall i | 0 <= i < |view| :: Ends(buckets)[i] == view[i].end
  {
    var ends := Ends(buckets);
    assert forall i | 0 <= i < |view| :: ends[i] == buckets[i].Value().end;
    forall i, j | 0 <= i < j < |ends|
      ensures ends[i] <= ends[j]
    {
      EndsAscend(cfg, view, i);
    }
  }

  /** Where the search ends: in the bucket for the id, or past the last one. */
  lemma {:induction false} SearchFinds(cfg: Config, t: seq<Bucket>, id: nat, r: nat)
    requires ValidTable(cfg, t) && r <= |t| && (forall i | 0 <= i < r :: t[i].end < id) && (r < |t| ==> id <= t[r].end)
    ensures Bisect(t, id) == r && (r < |t| <==> id < Pow2(cfg.width)) && (r < |t| ==> IsIndexFor(t, id, r))
  {
    BisectIs(t, id, r);
    if r < |t| {
      EndsAscend(cfg, t, r);
    }
    if id < Pow2(cfg.width) {
      BisectFinds(cfg, t, id);
    }
  }

  lemma {:induction false} BisectIs(t: seq<Bucket>, id: nat, r: nat)
    requires r <= |t| && (forall i | 0 <= i < r :: t[i].end < id) && (r < |t| ==> id <= t[r].end)
    ensures Bisect(t, id) == r
  {
  }
}
