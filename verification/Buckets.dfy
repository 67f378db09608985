/** Buckets of nodes and the list of buckets, as values: adding, splitting, searching. */
module Buckets {
  import opened Prelude
  import opened XorMetric

  /** Distinct nodes have distinct ids, so a node is its id. */
  type Node = nat

  /** Bits per hop: buckets away from the local node are split up to depths that are multiples of it. */
  const K_B: nat := 8

  /** Id width in bits, bucket capacity and the local node. */
  datatype Config = Config(width: nat, capacity: nat, self: Node)

  ghost predicate ValidConfig(cfg: Config) {
    cfg.capacity > 0 && cfg.self < Pow2(cfg.width)
  }

  datatype Bucket = Bucket(start: nat, end: nat, nodes: seq<Node>)

  predicate InRange(b: Bucket, id: nat) {
    b.start <= id <= b.end
  }

  function Midpoint(b: Bucket): nat {
    b.start + (if b.start <= b.end then (b.end - b.start) / 2 else 0)
  }

  ghost predicate Distinct(nodes: seq<Node>) {
    forall i, j | 0 <= i < j < |nodes| :: nodes[i] != nodes[j]
  }

  /** A block of ids with at most `capacity` different nodes of its range, not the local one. */
  ghost predicate ValidBucket(cfg: Config, b: Bucket) {
    && IsBlock(b.start, b.end)
    && |b.nodes| <= cfg.capacity
    && Distinct(b.nodes)
    && (forall n | n in b.nodes :: InRange(b, n) && n != cfg.self)
  }

  /** The buckets are blocks that cover the whole id space without gap or overlap. */
  ghost predicate ValidTable(cfg: Config, t: seq<Bucket>) {
    && |t| > 0 && t[0].start == 0 && t[|t| - 1].end == Pow2(cfg.width) - 1
    && (forall i | 0 <= i < |t| :: ValidBucket(cfg, t[i]))
    && (forall i, j | 0 <= i < |t| && j == i + 1 < |t| :: t[i].end + 1 == t[j].start)
  }

  ghost predicate Member(t: seq<Bucket>, n: Node) {
    exists i | 0 <= i < |t| :: n in t[i].nodes
  }

  // --- One bucket ---

  /** list.remove: the first occurrence goes. */
  function Without(nodes: seq<Node>, n: Node): seq<Node> {
    if nodes == [] then []
    else if nodes[0] == n then nodes[1..]
    else [nodes[0]] + Without(nodes[1..], n)
  }

  lemma DistinctAppend(nodes: seq<Node>, n: Node)
    requires Distinct(nodes) && n !in nodes
    ensures Distinct(nodes + [n])
  {
  }

  lemma DistinctPrepend(n: Node, nodes: seq<Node>)
    requires Distinct(nodes) && n !in nodes
    ensures Distinct([n] + nodes)
  {
  }

  lemma {:induction false} WithoutMembers(nodes: seq<Node>, n: Node)
    requires Distinct(nodes)
    ensures
      var r := Without(nodes, n);
      && Distinct(r)
      && (forall m :: m in r <==> m in nodes && m != n)
      && |r| == (if n in nodes then |nodes| - 1 else |nodes|)
  {
    if nodes != [] {
      WithoutMembers(nodes[1..], n);
      assert nodes == [nodes[0]] + nodes[1..];
      DistinctPrepend(nodes[0], Without(nodes[1..], n));
    }
  }

  /** The bucket after an attempt to add, and the node to ping when it is full. */
  datatype Added = Added(bucket: Bucket, candidate: Option<Node>)

  function AddToBucket(b: Bucket, capacity: nat, n: Node): Added
    requires capacity > 0
  {
    if n in b.nodes then Added(b.(nodes := Without(b.nodes, n) + [n]), None)
    else if |b.nodes| < capacity then Added(b.(nodes := b.nodes + [n]), None)
    else Added(b, Some(b.nodes[0]))
  }

  lemma AddToBucketValid(cfg: Config, b: Bucket, n: Node)
    requires ValidConfig(cfg) && ValidBucket(cfg, b) && InRange(b, n) && n != cfg.self
    ensures
      var r := AddToBucket(b, cfg.capacity, n);
      && ValidBucket(cfg, r.bucket) && r.bucket.start == b.start && r.bucket.end == b.end
      && (r.candidate.None? ==> forall m :: m in r.bucket.nodes <==> m in b.nodes || m == n)
      && (r.candidate.Some? ==> r.bucket == b && n !in b.nodes && |b.nodes| == cfg.capacity
                                && r.candidate.value == b.nodes[0])
  {
    WithoutMembers(b.nodes, n);
  }

  function Below(nodes: seq<Node>, bound: nat): seq<Node> {
    if nodes == [] then []
    else if nodes[|nodes| - 1] <= bound then Below(nodes[..|nodes| - 1], bound) + [nodes[|nodes| - 1]]
    else Below(nodes[..|nodes| - 1], bound)
  }

  function Above(nodes: seq<Node>, bound: nat): seq<Node> {
    if nodes == [] then []
    else if nodes[|nodes| - 1] <= bound then Above(nodes[..|nodes| - 1], bound)
    else Above(nodes[..|nodes| - 1], bound) + [nodes[|nodes| - 1]]
  }

  lemma {:induction false} BelowMembers(nodes: seq<Node>, bound: nat)
    requires Distinct(nodes)
    ensures
      var r := Below(nodes, bound);
      Distinct(r) && |r| <= |nodes| && forall m :: m in r <==> m in nodes && m <= bound
    decreases |nodes|
  {
    if nodes != [] {
      var init, last := nodes[..|nodes| - 1], nodes[|nodes| - 1];
      BelowMembers(init, bound);
      assert nodes == init + [last];
      DistinctAppend(Below(init, bound), last);
    }
  }

  lemma {:induction false} AboveMembers(nodes: seq<Node>, bound: nat)
    requires Distinct(nodes)
    ensures
      var r := Above(nodes, bound);
      Distinct(r) && |r| <= |nodes| && forall m :: m in r <==> m in nodes && m > bound
    decreases |nodes|
  {
    if nodes != [] {
      var init, last := nodes[..|nodes| - 1], nodes[|nodes| - 1];
      AboveMembers(init, bound);
      assert nodes == init + [last];
      DistinctAppend(Above(init, bound), last);
    }
  }

  function Lower(b: Bucket): Bucket {
    Bucket(b.start, Midpoint(b), Below(b.nodes, Midpoint(b)))
  }

  function Upper(b: Bucket): Bucket {
    Bucket(Midpoint(b) + 1, b.end, Above(b.nodes, Midpoint(b)))
  }

  /** The halves are blocks one bit deeper, and every node went to the half it belongs to. */
  lemma SplitValid(cfg: Config, b: Bucket)
    requires ValidBucket(cfg, b) && b.start < b.end
    ensures ValidBucket(cfg, Lower(b)) && ValidBucket(cfg, Upper(b))
    ensures b.start <= Midpoint(b) < b.end
    ensures forall n :: n in b.nodes <==> n in Lower(b).nodes || n in Upper(b).nodes
  {
    var m: nat, prefix: nat :| BlockAt(b.start, b.end, m, prefix);
    assert m > 0;
    SplitBlock(b.start, b.end, m, prefix);
    BelowMembers(b.nodes, Midpoint(b));
    AboveMembers(b.nodes, Midpoint(b));
  }

  // --- The list of buckets ---

  /** Buckets further right start after the end of buckets further left. */
  lemma {:induction false} Ordered(cfg: Config, t: seq<Bucket>, i: nat, j: nat)
    requires ValidTable(cfg, t) && i < j < |t|
    ensures t[i].end < t[j].start
    decreases j
  {
    BlockNonempty(t[j].start, t[j].end);
    if i + 1 < j {
      Ordered(cfg, t, i, j - 1);
      BlockNonempty(t[j - 1].start, t[j - 1].end);
    }
  }

  lemma BlockNonempty(start: nat, end: nat)
    requires IsBlock(start, end)
    ensures start <= end
  {
  }

  /** The bucket whose range holds the id: there is exactly one. */
  ghost predicate IsIndexFor(t: seq<Bucket>, id: nat, i: nat) {
    i < |t| && InRange(t[i], id)
  }

  lemma IndexUnique(cfg: Config, t: seq<Bucket>, id: nat, i: nat, j: nat)
    requires ValidTable(cfg, t) && IsIndexFor(t, id, i) && IsIndexFor(t, id, j)
    ensures i == j
  {
    if i < j {
      Ordered(cfg, t, i, j);
    } else if j < i {
      Ordered(cfg, t, j, i);
    }
  }

  /** bisect_left over the bucket ends: the first bucket that ends at or after the id. */
  function Bisect(t: seq<Bucket>, id: nat): (r: nat)
    ensures r <= |t|
    ensures forall i | 0 <= i < r :: t[i].end < id
    ensures r < |t| ==> id <= t[r].end
  {
    if t == [] then 0
    else if id <= t[0].end then 0
    else 1 + Bisect(t[1..], id)
  }

  lemma {:induction false} BisectFinds(cfg: Config, t: seq<Bucket>, id: nat)
    requires ValidTable(cfg, t) && id < Pow2(cfg.width)
    ensures IsIndexFor(t, id, Bisect(t, id))
  {
    var r := Bisect(t, id);
    assert r < |t|;
    if r > 0 {
      assert t[r - 1].end + 1 == t[r].start;
    }
  }

  function SplitAt(t: seq<Bucket>, i: nat): seq<Bucket>
    requires i < |t|
  {
    t[..i] + [Lower(t[i]), Upper(t[i])] + t[i + 1..]
  }

  lemma SplitAtMembers(cfg: Config, t: seq<Bucket>, i: nat, n: Node)
    requires ValidTable(cfg, t) && i < |t| && t[i].start < t[i].end
    ensures Member(SplitAt(t, i), n) <==> Member(t, n)
  {
    SplitValid(cfg, t[i]);
    if Member(t, n) {
      var k :| 0 <= k < |t| && n in t[k].nodes;
      StillMember(t, i, k, n);
    }
    if Member(SplitAt(t, i), n) {
      var k :| 0 <= k < |SplitAt(t, i)| && n in SplitAt(t, i)[k].nodes;
      WasMember(t, i, k, n);
    }
  }

  lemma StillMember(t: seq<Bucket>, i: nat, k: nat, n: Node)
    requires i < |t| && k < |t| && n in t[k].nodes
    requires n in t[i].nodes ==> n in Lower(t[i]).nodes || n in Upper(t[i]).nodes
    ensures Member(SplitAt(t, i), n)
  {
    var r := SplitAt(t, i);
    assert r[i] == Lower(t[i]) && r[i + 1] == Upper(t[i]);
    if k < i {
      assert r[k] == t[k];
    } else if k > i {
      assert r[k + 1] == t[k];
    }
  }

  lemma WasMember(t: seq<Bucket>, i: nat, k: nat, n: Node)
    requires i < |t| && k < |SplitAt(t, i)| && n in SplitAt(t, i)[k].nodes
    requires n in Lower(t[i]).nodes || n in Upper(t[i]).nodes ==> n in t[i].nodes
    ensures Member(t, n)
  {
    SplitAtIndex(t, i, k);
  }

  /** Bucket `k` of the table after bucket `i` was split. */
  lemma SplitAtIndex(t: seq<Bucket>, i: nat, k: nat)
    requires i < |t| && k <= |t|
    ensures |SplitAt(t, i)| == |t| + 1
    ensures SplitAt(t, i)[k]
         == if k < i then t[k] else if k == i then Lower(t[i]) else if k == i + 1 then Upper(t[i]) else t[k - 1]
  {
  }

  lemma SplitAtAdjacent(cfg: Config, t: seq<Bucket>, i: nat, k: nat)
    requires ValidTable(cfg, t) && i < |t| && k < |t|
    ensures |SplitAt(t, i)| == |t| + 1
    ensures SplitAt(t, i)[k].end + 1 == SplitAt(t, i)[k + 1].start
  {
    SplitAtIndex(t, i, k);
    SplitAtIndex(t, i, k + 1);
    if k < i {
      assert t[k].end + 1 == t[k + 1].start;
    } else if k > i {
      assert t[k - 1].end + 1 == t[k].start;
    }
  }

  lemma SplitAtValid(cfg: Config, t: seq<Bucket>, i: nat)
    requires ValidTable(cfg, t) && i < |t| && t[i].start < t[i].end
    ensures ValidTable(cfg, SplitAt(t, i))
  {
    SplitValid(cfg, t[i]);
    var r := SplitAt(t, i);
    SplitAtIndex(t, i, 0);
    SplitAtIndex(t, i, |t|);
    forall k | 0 <= k < |r|
      ensures ValidBucket(cfg, r[k])
    {
      SplitAtIndex(t, i, k);
    }
    forall k, l | 0 <= k < |r| && l == k + 1 < |r|
      ensures r[k].end + 1 == r[l].start
    {
      SplitAtAdjacent(cfg, t, i, k);
    }
  }

  // --- How deep a bucket is ---

  predicate SharePrefix(nodes: seq<Node>, m: nat) {
    forall k | 0 <= k < |nodes| :: Shift(nodes[k], m) == Shift(nodes[0], m)
  }

  /** The first prefix length, from `i` on, that the nodes do not share, minus one. */
  function SharedFrom(nodes: seq<Node>, width: nat, i: nat): (r: nat)
    requires i <= width
    ensures r <= width
    decreases width - i
  {
    if i == width then width
    else if !SharePrefix(nodes, width - (i + 1)) then i
    else SharedFrom(nodes, width, i + 1)
  }

  function SharedPrefixBits(nodes: seq<Node>, width: nat): nat {
    if |nodes| < 2 then width else SharedFrom(nodes, width, 0)
  }

  /**
   * Of two or more different nodes, the count is the length of their longest common prefix:
   * they share it, they do not share one bit more, and it is shorter than an id.
   */
  lemma {:induction false} SharedFromExact(nodes: seq<Node>, width: nat, i: nat)
    requires |nodes| >= 2 && Distinct(nodes) && i <= width && SharePrefix(nodes, width - i)
    ensures
      var r := SharedFrom(nodes, width, i);
      r < width && SharePrefix(nodes, width - r) && !SharePrefix(nodes, width - (r + 1))
    decreases width - i
  {
    assert Shift(nodes[0], 0) != Shift(nodes[1], 0);
    if i < width && SharePrefix(nodes, width - (i + 1)) {
      SharedFromExact(nodes, width, i + 1);
    }
  }

  /** The depth is the length of the longest prefix that all nodes share; fewer than two share everything. */
  lemma {:induction false} SharedPrefixBitsExact(nodes: seq<Node>, width: nat)
    requires Distinct(nodes) && forall k | 0 <= k < |nodes| :: nodes[k] < Pow2(width)
    ensures
      var r := SharedPrefixBits(nodes, width);
      && r <= width && SharePrefix(nodes, width - r)
      && (r < width <==> |nodes| >= 2) && (r < width ==> !SharePrefix(nodes, width - (r + 1)))
  {
    if |nodes| >= 2 {
      forall k | 0 <= k < |nodes|
        ensures Shift(nodes[k], width) == 0
      {
        ShiftLeftIsProduct(0, width);
        ShiftInBlock(nodes[k], width, 0);
      }
      SharedFromExact(nodes, width, 0);
    }
  }

  // --- add_node ---

  /** Split when the bucket covers the local node, or when its depth is no multiple of K_B. */
  predicate ShouldSplit(cfg: Config, b: Bucket) {
    var depth := SharedPrefixBits(b.nodes, cfg.width);
    InRange(b, cfg.self) || (depth % K_B != 0 && depth != cfg.width)
  }

  /** A full bucket that a further node belongs to has more than one id. */
  lemma FullBucketSplits(cfg: Config, b: Bucket, n: Node)
    requires ValidBucket(cfg, b) && b.nodes != [] && InRange(b, n) && n !in b.nodes
    ensures b.start < b.end
  {
    assert b.nodes[0] in b.nodes;
  }

  /** How many ids, less one, the bucket for the node covers. */
  function RangeFor(t: seq<Bucket>, n: Node): nat {
    var i := Bisect(t, n);
    if i < |t| && t[i].start <= t[i].end then t[i].end - t[i].start else 0
  }

  datatype AddResult = AddResult(buckets: seq<Bucket>, candidate: Option<Node>)

  /** add_node for a node other than the local one; the range of its bucket shrinks with each split. */
  function AddNode(cfg: Config, t: seq<Bucket>, n: Node): (r: AddResult)
    requires ValidConfig(cfg) && ValidTable(cfg, t) && n < Pow2(cfg.width) && n != cfg.self
    decreases RangeFor(t, n)
  {
    BisectFinds(cfg, t, n);
    var i := Bisect(t, n);
    AddToBucketValid(cfg, t[i], n);
    var added := AddToBucket(t[i], cfg.capacity, n);
    if added.candidate.None? then AddResult(t[i := added.bucket], None)
    else if !ShouldSplit(cfg, t[i]) then AddResult(t, added.candidate)
    else
      FullBucketSplits(cfg, t[i], n);
      SplitAtValid(cfg, t, i);
      SplitNarrows(cfg, t, i, n);
      AddNode(cfg, SplitAt(t, i), n)
  }

  /** After a split the node's bucket is one of the halves. */
  lemma {:induction false} SplitNarrows(cfg: Config, t: seq<Bucket>, i: nat, n: Node)
    requires ValidTable(cfg, t) && IsIndexFor(t, n, i) && t[i].start < t[i].end && n < Pow2(cfg.width)
    requires ValidTable(cfg, SplitAt(t, i))
    ensures
      var r := SplitAt(t, i);
      var j := Bisect(r, n);
      j < |r| && r[j].end - r[j].start < t[i].end - t[i].start
  {
    var r := SplitAt(t, i);
    SplitValid(cfg, t[i]);
    BisectFinds(cfg, r, n);
    var j := if n <= Midpoint(t[i]) then i else i + 1;
    assert r[i] == Lower(t[i]) && r[i + 1] == Upper(t[i]);
    IndexUnique(cfg, r, n, j, Bisect(r, n));
  }

  /** A full bucket that does not cover the local node, with its least recently seen node. */
  ghost predicate FullAwayFromSelf(cfg: Config, b: Bucket, head: Node) {
    |b.nodes| == cfg.capacity > 0 && b.nodes[0] == head && !InRange(b, cfg.self)
  }

  ghost predicate AddContract(cfg: Config, t: seq<Bucket>, n: Node, r: AddResult) {
    && ValidTable(cfg, r.buckets)
    && (forall m :: Member(t, m) ==> Member(r.buckets, m))
    && (forall m :: Member(r.buckets, m) ==> Member(t, m) || m == n)
    && (r.candidate.None? ==> Member(r.buckets, n))
    && (r.candidate.Some? ==>
          && !Member(r.buckets, n)
          && exists i: nat :: IsIndexFor(r.buckets, n, i) && FullAwayFromSelf(cfg, r.buckets[i], r.candidate.value))
  }

  /** The members afterwards are those before and the node. */
  ghost predicate Gains(before: seq<Bucket>, after: seq<Bucket>, n: Node) {
    forall m :: Member(after, m) <==> Member(before, m) || m == n
  }

  /** Replacing a bucket changes nothing for a node on which the two buckets agree. */
  lemma MemberReplaced(t: seq<Bucket>, i: nat, b: Bucket, m: Node)
    requires i < |t| && (m in b.nodes <==> m in t[i].nodes)
    ensures Member(t[i := b], m) <==> Member(t, m)
  {
    var r := t[i := b];
    if Member(t, m) {
      var k :| 0 <= k < |t| && m in t[k].nodes;
      assert m in r[k].nodes;
    }
    if Member(r, m) {
      var k :| 0 <= k < |r| && m in r[k].nodes;
      assert m in t[k].nodes;
    }
  }

  lemma MembersReplaced(t: seq<Bucket>, i: nat, b: Bucket, n: Node)
    requires i < |t| && forall m :: m in b.nodes <==> m in t[i].nodes || m == n
    ensures Gains(t, t[i := b], n)
  {
    assert n in t[i := b][i].nodes;
    forall m | m != n
      ensures Member(t[i := b], m) <==> Member(t, m)
    {
      MemberReplaced(t, i, b, m);
    }
  }

  lemma ReplacedValid(cfg: Config, t: seq<Bucket>, i: nat, b: Bucket)
    requires ValidTable(cfg, t) && i < |t| && ValidBucket(cfg, b) && b.start == t[i].start && b.end == t[i].end
    ensures ValidTable(cfg, t[i := b])
  {
    var r := t[i := b];
    forall k | 0 <= k < |r|
      ensures ValidBucket(cfg, r[k])
    {
      if k != i {
        assert r[k] == t[k];
      }
    }
    forall k, l | 0 <= k < |r| && l == k + 1 < |r|
      ensures r[k].end + 1 == r[l].start
    {
      assert t[k].end + 1 == t[l].start;
    }
  }

  /** A node that is nowhere in its bucket is nowhere in the table. */
  lemma OnlyInItsBucket(cfg: Config, t: seq<Bucket>, n: Node, i: nat)
    requires ValidTable(cfg, t) && IsIndexFor(t, n, i)
    ensures Member(t, n) <==> n in t[i].nodes
  {
    if Member(t, n) {
      var k :| 0 <= k < |t| && n in t[k].nodes;
      IndexUnique(cfg, t, n, i, k);
    }
  }

  /** The three ways an attempt to add can go on. */
  lemma {:induction false} AddNodeCases(cfg: Config, t: seq<Bucket>, n: Node)
    requires ValidConfig(cfg) && ValidTable(cfg, t) && n < Pow2(cfg.width) && n != cfg.self
    ensures
      var i := Bisect(t, n);
      && IsIndexFor(t, n, i)
      && var added := AddToBucket(t[i], cfg.capacity, n);
         if added.candidate.None? then
           AddNode(cfg, t, n) == AddResult(t[i := added.bucket], None)
         else if !ShouldSplit(cfg, t[i]) then
           AddNode(cfg, t, n) == AddResult(t, added.candidate) && t[i := added.bucket] == t
         else
           && t[i].start < t[i].end && t[i := added.bucket] == t
           && ValidTable(cfg, SplitAt(t, i)) && RangeFor(SplitAt(t, i), n) < RangeFor(t, n)
           && AddNode(cfg, t, n) == AddNode(cfg, SplitAt(t, i), n)
  {
    BisectFinds(cfg, t, n);
    var i := Bisect(t, n);
    AddToBucketValid(cfg, t[i], n);
    if AddToBucket(t[i], cfg.capacity, n).candidate.Some? {
      FullBucketSplits(cfg, t[i], n);
      SplitAtValid(cfg, t, i);
      SplitNarrows(cfg, t, i, n);
    }
  }

  /** The node was put into its bucket. */
  lemma ContractWhenAdded(cfg: Config, t: seq<Bucket>, after: seq<Bucket>, n: Node)
    requires ValidTable(cfg, after) && Gains(t, after, n)
    ensures AddContract(cfg, t, n, AddResult(after, None))
  {
  }

  /** The node's bucket is full and stays as it is. */
  lemma ContractWhenFull(cfg: Config, t: seq<Bucket>, i: nat, n: Node, head: Node)
    requires ValidTable(cfg, t) && IsIndexFor(t, n, i) && n !in t[i].nodes
    requires FullAwayFromSelf(cfg, t[i], head)
    ensures AddContract(cfg, t, n, AddResult(t, Some(head)))
  {
    OnlyInItsBucket(cfg, t, n, i);
  }

  /** A split moves no node in or out, so what holds of the split table holds of the one before. */
  lemma ContractBeforeSplit(cfg: Config, t: seq<Bucket>, i: nat, n: Node, r: AddResult)
    requires ValidTable(cfg, t) && i < |t| && t[i].start < t[i].end
    requires AddContract(cfg, SplitAt(t, i), n, r)
    ensures AddContract(cfg, t, n, r)
  {
    forall m
      ensures Member(SplitAt(t, i), m) <==> Member(t, m)
    {
      SplitAtMembers(cfg, t, i, m);
    }
  }

  /**
   * add_node terminates, keeps every invariant and loses no member; afterwards the node is
   * present, or the result is the head of its full bucket, which does not cover the local node.
   */
  lemma {:induction false} AddNodeMeetsContract(cfg: Config, t: seq<Bucket>, n: Node)
    requires ValidConfig(cfg) && ValidTable(cfg, t) && n < Pow2(cfg.width) && n != cfg.self
    ensures AddContract(cfg, t, n, AddNode(cfg, t, n))
    decreases RangeFor(t, n)
  {
    AddNodeCases(cfg, t, n);
    var i := Bisect(t, n);
    AddToBucketValid(cfg, t[i], n);
    var added := AddToBucket(t[i], cfg.capacity, n);
    if added.candidate.None? {
      ReplacedValid(cfg, t, i, added.bucket);
      MembersReplaced(t, i, added.bucket, n);
      ContractWhenAdded(cfg, t, t[i := added.bucket], n);
    } else if !ShouldSplit(cfg, t[i]) {
      ContractWhenFull(cfg, t, i, n, added.candidate.value);
    } else {
      AddNodeMeetsContract(cfg, SplitAt(t, i), n);
      ContractBeforeSplit(cfg, t, i, n, AddNode(cfg, SplitAt(t, i), n));
    }
  }

  /** One bucket for the whole id space. */
  function NewTable(cfg: Config): seq<Bucket> {
    [Bucket(0, Pow2(cfg.width) - 1, [])]
  }

  lemma NewTableValid(cfg: Config)
    ensures ValidTable(cfg, NewTable(cfg))
  {
    ShiftLeftIsProduct(0, cfg.width);
    assert BlockAt(0, Pow2(cfg.width) - 1, cfg.width, 0);
    assert ValidBucket(cfg, NewTable(cfg)[0]);
  }

  // --- The order in the buckets, and when a bucket is not split ---

  /** `x` comes before `y`: it was seen less recently. */
  ghost predicate Precedes(nodes: seq<Node>, x: Node, y: Node) {
    exists j, k | 0 <= j < k < |nodes| :: nodes[j] == x && nodes[k] == y
  }

  lemma PrecedesTail(nodes: seq<Node>, x: Node, y: Node)
    requires nodes != []
    ensures Precedes(nodes, x, y) <==> (nodes[0] == x && y in nodes[1..]) || Precedes(nodes[1..], x, y)
  {
    var rest := nodes[1..];
    if Precedes(rest, x, y) {
      var j, k :| 0 <= j < k < |rest| && rest[j] == x && rest[k] == y;
      assert nodes[j + 1] == x && nodes[k + 1] == y;
    }
    if nodes[0] == x && y in rest {
      var k :| 0 <= k < |rest| && rest[k] == y;
      assert nodes[k + 1] == y;
    }
    if Precedes(nodes, x, y) {
      var j, k :| 0 <= j < k < |nodes| && nodes[j] == x && nodes[k] == y;
      assert rest[k - 1] == y;
      if j > 0 {
        assert rest[j - 1] == x;
      }
    }
  }

  lemma PrecedesInit(nodes: seq<Node>, last: Node, x: Node, y: Node)
    ensures Precedes(nodes + [last], x, y) <==> Precedes(nodes, x, y) || (y == last && x in nodes)
  {
    var all := nodes + [last];
    if Precedes(nodes, x, y) {
      var j, k :| 0 <= j < k < |nodes| && nodes[j] == x && nodes[k] == y;
      assert all[j] == x && all[k] == y;
    }
    if y == last && x in nodes {
      var j :| 0 <= j < |nodes| && nodes[j] == x;
      assert all[j] == x && all[|nodes|] == y;
    }
    if Precedes(all, x, y) {
      var j, k :| 0 <= j < k < |all| && all[j] == x && all[k] == y;
      assert nodes[j] == x && (k < |nodes| ==> nodes[k] == y);
    }
  }

  lemma {:induction false} WithoutIn(nodes: seq<Node>, n: Node, y: Node)
    requires y != n
    ensures y in Without(nodes, n) <==> y in nodes
  {
    if nodes != [] {
      WithoutIn(nodes[1..], n, y);
      assert nodes == [nodes[0]] + nodes[1..];
    }
  }

  /** Taking a node out leaves the order of the others. */
  lemma {:induction false} WithoutOrder(nodes: seq<Node>, n: Node, x: Node, y: Node)
    requires x != n && y != n
    ensures Precedes(Without(nodes, n), x, y) <==> Precedes(nodes, x, y)
  {
    if nodes != [] {
      PrecedesTail(nodes, x, y);
      if nodes[0] != n {
        var r := Without(nodes, n);
        assert r[1..] == Without(nodes[1..], n);
        PrecedesTail(r, x, y);
        WithoutOrder(nodes[1..], n, x, y);
        WithoutIn(nodes[1..], n, y);
      }
    }
  }

  /** A node that is added or seen again goes to the tail; the order of the others stays. */
  lemma AddToBucketOrder(b: Bucket, capacity: nat, n: Node, x: Node, y: Node)
    requires capacity > 0 && x != n && y != n
    ensures
      var r := AddToBucket(b, capacity, n);
      && (Precedes(r.bucket.nodes, x, y) <==> Precedes(b.nodes, x, y))
      && (r.candidate.None? ==> r.bucket.nodes != [] && r.bucket.nodes[|r.bucket.nodes| - 1] == n)
  {
    if n in b.nodes {
      WithoutOrder(b.nodes, n, x, y);
      PrecedesInit(Without(b.nodes, n), n, x, y);
    } else {
      PrecedesInit(b.nodes, n, x, y);
    }
  }

  lemma {:induction false} HalvesIn(nodes: seq<Node>, bound: nat, x: Node)
    ensures x in Below(nodes, bound) <==> x in nodes && x <= bound
    ensures x in Above(nodes, bound) <==> x in nodes && x > bound
    decreases |nodes|
  {
    if nodes != [] {
      HalvesIn(nodes[..|nodes| - 1], bound, x);
      assert nodes == nodes[..|nodes| - 1] + [nodes[|nodes| - 1]];
    }
  }

  /** A split keeps the order in both halves. */
  lemma {:induction false} HalvesOrder(nodes: seq<Node>, bound: nat, x: Node, y: Node)
    ensures Precedes(Below(nodes, bound), x, y) <==> Precedes(nodes, x, y) && x <= bound && y <= bound
    ensures Precedes(Above(nodes, bound), x, y) <==> Precedes(nodes, x, y) && x > bound && y > bound
    decreases |nodes|
  {
    if nodes != [] {
      var init, last := nodes[..|nodes| - 1], nodes[|nodes| - 1];
      assert nodes == init + [last];
      HalvesOrder(init, bound, x, y);
      HalvesIn(init, bound, x);
      PrecedesInit(init, last, x, y);
      PrecedesInit(Below(init, bound), last, x, y);
      PrecedesInit(Above(init, bound), last, x, y);
    }
  }

  /** In some bucket of the table `x` comes before `y`. */
  ghost predicate Before(t: seq<Bucket>, x: Node, y: Node) {
    exists i | 0 <= i < |t| :: Precedes(t[i].nodes, x, y)
  }

  /** The node is the most recently seen one of some bucket. */
  ghost predicate AtTail(t: seq<Bucket>, n: Node) {
    exists i | 0 <= i < |t| :: t[i].nodes != [] && t[i].nodes[|t[i].nodes| - 1] == n
  }

  /** Nodes that share a bucket after a split shared one before, in the same order. */
  lemma SplitOrder(t: seq<Bucket>, i: nat, x: Node, y: Node)
    requires i < |t| && Before(SplitAt(t, i), x, y)
    ensures Before(t, x, y)
  {
    var k :| 0 <= k < |SplitAt(t, i)| && Precedes(SplitAt(t, i)[k].nodes, x, y);
    SplitAtIndex(t, i, k);
    HalvesOrder(t[i].nodes, Midpoint(t[i]), x, y);
  }

  lemma ReplacedOrder(t: seq<Bucket>, i: nat, b: Bucket, x: Node, y: Node)
    requires i < |t| && (Precedes(b.nodes, x, y) ==> Precedes(t[i].nodes, x, y)) && Before(t[i := b], x, y)
    ensures Before(t, x, y)
  {
    var k :| 0 <= k < |t[i := b]| && Precedes(t[i := b][k].nodes, x, y);
    assert Precedes(t[k].nodes, x, y);
  }

  /**
   * add_node, splits and retries included: nodes other than the new one that share a bucket do so
   * in the order in which they did before, and a node that was added is at the tail of its bucket.
   */
  lemma {:induction false} AddNodeOrder(cfg: Config, t: seq<Bucket>, n: Node, x: Node, y: Node)
    requires ValidConfig(cfg) && ValidTable(cfg, t) && n < Pow2(cfg.width) && n != cfg.self && x != n && y != n
    ensures
      var r := AddNode(cfg, t, n);
      (Before(r.buckets, x, y) ==> Before(t, x, y)) && (r.candidate.None? ==> AtTail(r.buckets, n))
    decreases RangeFor(t, n)
  {
    AddNodeCases(cfg, t, n);
    var i := Bisect(t, n);
    var added := AddToBucket(t[i], cfg.capacity, n);
    AddToBucketOrder(t[i], cfg.capacity, n, x, y);
    if added.candidate.None? {
      assert t[i := added.bucket][i] == added.bucket;
      if Before(t[i := added.bucket], x, y) {
        ReplacedOrder(t, i, added.bucket, x, y);
      }
    } else if ShouldSplit(cfg, t[i]) {
      AddNodeOrder(cfg, SplitAt(t, i), n, x, y);
      if Before(SplitAt(t, i), x, y) {
        SplitOrder(t, i, x, y);
      }
    }
  }

  /** The bucket for the node is full, and its depth forbids a further split. */
  ghost predicate DeepEnough(cfg: Config, t: seq<Bucket>, n: Node, i: nat) {
    && IsIndexFor(t, n, i) && |t[i].nodes| == cfg.capacity
    && (SharedPrefixBits(t[i].nodes, cfg.width) % 8 == 0 || SharedPrefixBits(t[i].nodes, cfg.width) == cfg.width)
  }

  /** A node is turned away only when the depth of its full bucket is a multiple of 8 or the whole width. */
  lemma {:induction false} AddNodeRefuses(cfg: Config, t: seq<Bucket>, n: Node)
    requires ValidConfig(cfg) && ValidTable(cfg, t) && n < Pow2(cfg.width) && n != cfg.self
    ensures
      var r := AddNode(cfg, t, n);
      r.candidate.Some? ==> exists i: nat :: DeepEnough(cfg, r.buckets, n, i)
    decreases RangeFor(t, n)
  {
    AddNodeCases(cfg, t, n);
    var i := Bisect(t, n);
    AddToBucketValid(cfg, t[i], n);
    if AddToBucket(t[i], cfg.capacity, n).candidate.Some? {
      if ShouldSplit(cfg, t[i]) {
        AddNodeRefuses(cfg, SplitAt(t, i), n);
      } else {
        assert DeepEnough(cfg, t, n, i);
      }
    }
  }

  /** And then it always is, when the bucket does not cover the local node: nothing is split. */
  lemma {:induction false} AddNodeTurnsAway(cfg: Config, t: seq<Bucket>, n: Node, i: nat)
    requires ValidConfig(cfg) && ValidTable(cfg, t) && n < Pow2(cfg.width) && n != cfg.self
    requires DeepEnough(cfg, t, n, i) && n !in t[i].nodes && !InRange(t[i], cfg.self)
    ensures AddNode(cfg, t, n) == AddResult(t, Some(t[i].nodes[0]))
  {
    AddNodeCases(cfg, t, n);
    IndexUnique(cfg, t, n, i, Bisect(t, n));
  }

  // --- Every reachable table ---

  function RemoveNode(t: seq<Bucket>, n: Node): seq<Bucket> {
    var i := Bisect(t, n);
    if i < |t| then t[i := t[i].(nodes := Without(t[i].nodes, n))] else t
  }

  lemma RemoveNodeValid(cfg: Config, t: seq<Bucket>, n: Node)
    requires ValidTable(cfg, t) && n < Pow2(cfg.width)
    ensures ValidTable(cfg, RemoveNode(t, n))
    ensures forall m :: Member(RemoveNode(t, n), m) <==> Member(t, m) && m != n
  {
    BisectFinds(cfg, t, n);
    var i := Bisect(t, n);
    var r := RemoveNode(t, n);
    WithoutMembers(t[i].nodes, n);
    ReplacedValid(cfg, t, i, r[i]);
    OnlyInItsBucket(cfg, r, n, i);
    forall m | m != n
      ensures Member(r, m) <==> Member(t, m)
    {
      MemberReplaced(t, i, r[i], m);
    }
  }

  datatype TableOp = Add(node: Node) | Remove(node: Node)

  /**
   * The table after any calls of add_node and remove_node. A call that raises changes nothing:
   * adding the local node, and any id that no bucket covers.
   */
  function Reached(cfg: Config, ops: seq<TableOp>): (t: seq<Bucket>)
    requires ValidConfig(cfg)
    ensures ValidTable(cfg, t)
    decreases |ops|
  {
    if ops == [] then
      NewTableValid(cfg); NewTable(cfg)
    else
      var t := Reached(cfg, ops[..|ops| - 1]);
      match ops[|ops| - 1]
      case Add(n) =>
        if n == cfg.self || n >= Pow2(cfg.width) then t
        else AddNodeMeetsContract(cfg, t, n); AddNode(cfg, t, n).buckets
      case Remove(n) =>
        if n >= Pow2(cfg.width) then t
        else RemoveNodeValid(cfg, t, n); RemoveNode(t, n)
  }
}
