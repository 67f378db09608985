/**
 * Merkle roots computed layer by layer. The hash function is a parameter; nothing is assumed of
 * it except, where stated, that its results all have the same length.
 */
module Merkle {
  import opened Prelude
  import Blobs

  type Hash = Bytes -> Bytes

  /** Hashes neighbours pairwise; an odd element at the end is dropped. */
  function HashLayer(hash: Hash, layer: seq<Bytes>): seq<Bytes> {
    if |layer| < 2 then [] else [hash(layer[0] + layer[1])] + HashLayer(hash, layer[2..])
  }

  function Layers(hash: Hash, layer: seq<Bytes>, n: nat): seq<Bytes> {
    if n == 0 then layer else HashLayer(hash, Layers(hash, layer, n - 1))
  }

  function HashLeaves(hash: Hash, leaves: seq<Bytes>): (r: seq<Bytes>)
    ensures |r| == |leaves|
  {
    if leaves == [] then [] else [hash(leaves[0])] + HashLeaves(hash, leaves[1..])
  }

  function Left(leaves: seq<Bytes>, k: nat): (r: seq<Bytes>)
    requires k > 0 && |leaves| == Pow2(k)
    ensures |r| == Pow2(k - 1)
  {
    leaves[..Pow2(k - 1)]
  }

  function Right(leaves: seq<Bytes>, k: nat): (r: seq<Bytes>)
    requires k > 0 && |leaves| == Pow2(k)
    ensures |r| == Pow2(k - 1) && leaves == Left(leaves, k) + r
  {
    leaves[Pow2(k - 1)..]
  }

  /** The root by halving: a leaf is hashed, two halves are hashed together. */
  function Root(hash: Hash, leaves: seq<Bytes>, k: nat): Bytes
    requires |leaves| == Pow2(k)
    decreases k, leaves
  {
    if k == 0 then hash(leaves[0])
    else hash(Root(hash, Left(leaves, k), k - 1) + Root(hash, Right(leaves, k), k - 1))
  }

  // --- Layer by layer is halving ---

  lemma {:induction false} LeavesConcat(hash: Hash, a: seq<Bytes>, b: seq<Bytes>)
    ensures HashLeaves(hash, a + b) == HashLeaves(hash, a) + HashLeaves(hash, b)
    decreases |a|
  {
    if a == [] {
      assert a + b == b;
    } else {
      assert (a + b)[1..] == a[1..] + b;
      LeavesConcat(hash, a[1..], b);
    }
  }

  lemma {:induction false} LayerConcat(hash: Hash, a: seq<Bytes>, b: seq<Bytes>)
    requires |a| % 2 == 0
    ensures HashLayer(hash, a + b) == HashLayer(hash, a) + HashLayer(hash, b)
    decreases |a|
  {
    if a == [] {
      assert a + b == b;
    } else {
      assert (a + b)[2..] == a[2..] + b;
      LayerConcat(hash, a[2..], b);
    }
  }

  lemma {:induction false} LayerHalves(hash: Hash, layer: seq<Bytes>)
    ensures |HashLayer(hash, layer)| == |layer| / 2
    decreases |layer|
  {
    if |layer| >= 2 {
      LayerHalves(hash, layer[2..]);
    }
  }

  lemma {:induction false} LayersSize(hash: Hash, layer: seq<Bytes>, n: nat, rest: nat)
    requires |layer| == Pow2(n + rest)
    ensures |Layers(hash, layer, n)| == Pow2(rest)
    decreases n
  {
    if n > 0 {
      LayersSize(hash, layer, n - 1, rest + 1);
      LayerHalves(hash, Layers(hash, layer, n - 1));
    }
  }

  /** Two blocks that are large enough are reduced independently of each other. */
  lemma {:induction false} LayersConcat(hash: Hash, a: seq<Bytes>, b: seq<Bytes>, n: nat, rest: nat)
    requires |a| == Pow2(n + rest)
    ensures Layers(hash, a + b, n) == Layers(hash, a, n) + Layers(hash, b, n)
    decreases n
  {
    if n > 0 {
      LayersConcat(hash, a, b, n - 1, rest + 1);
      LayersSize(hash, a, n - 1, rest + 1);
      LayerConcat(hash, Layers(hash, a, n - 1), Layers(hash, b, n - 1));
    }
  }

  lemma PairLayer(hash: Hash, x: Bytes, y: Bytes)
    ensures HashLayer(hash, [x] + [y]) == [hash(x + y)]
  {
  }

  /** Two halves of hashed leaves, reduced to one value each. */
  lemma {:induction false} LayersOfHalves(hash: Hash, a: seq<Bytes>, b: seq<Bytes>, n: nat)
    requires |a| == Pow2(n)
    ensures Layers(hash, HashLeaves(hash, a + b), n)
         == Layers(hash, HashLeaves(hash, a), n) + Layers(hash, HashLeaves(hash, b), n)
  {
    LeavesConcat(hash, a, b);
    LayersConcat(hash, HashLeaves(hash, a), HashLeaves(hash, b), n, 0);
  }

  /** One more layer joins two halves that are down to one value each. */
  lemma {:induction false} LayersMeet(hash: Hash, a: seq<Bytes>, b: seq<Bytes>, n: nat, x: Bytes, y: Bytes)
    requires |a| == Pow2(n)
    requires Layers(hash, HashLeaves(hash, a), n) == [x] && Layers(hash, HashLeaves(hash, b), n) == [y]
    ensures Layers(hash, HashLeaves(hash, a + b), n + 1) == [hash(x + y)]
  {
    LayersOfHalves(hash, a, b, n);
    PairLayer(hash, x, y);
  }

  lemma {:induction false} LayersGiveRoot(hash: Hash, leaves: seq<Bytes>, k: nat)
    requires |leaves| == Pow2(k)
    ensures Layers(hash, HashLeaves(hash, leaves), k) == [Root(hash, leaves, k)]
    decreases k
  {
    if k == 0 {
      assert HashLeaves(hash, leaves) == [hash(leaves[0])];
    } else {
      var a, b := Left(leaves, k), Right(leaves, k);
      LayersGiveRoot(hash, a, k - 1);
      LayersGiveRoot(hash, b, k - 1);
      LayersMeet(hash, a, b, k - 1, Root(hash, a, k - 1), Root(hash, b, k - 1));
    }
  }

  lemma {:induction false} Pow2Monotone(j: nat, k: nat)
    requires j < k
    ensures Pow2(j) < Pow2(k)
    decreases k - j
  {
    if j + 1 < k {
      Pow2Monotone(j + 1, k);
    }
  }

  ghost predicate IsPowerOfTwo(n: nat) {
    exists k :: n == Pow2(k)
  }

  /** The binary logarithm, when it is an integer. */
  method Log2(n: nat) returns (k: Option<nat>)
    ensures k.Some? <==> IsPowerOfTwo(n)
    ensures k.Some? ==> n == Pow2(k.value)
  {
    var e, p := 0, 1;
    while p < n
      invariant p == Pow2(e)
      invariant forall j: nat | j < e :: Pow2(j) < n
      decreases n - p
    {
      e := e + 1;
      p := 2 * p;
    }
    if p == n {
      return Some(e);
    }
    if IsPowerOfTwo(n) {
      ghost var j: nat :| n == Pow2(j);
      if e < j {
        Pow2Monotone(e, j);
      }
    }
    k := None;
  }

  /**
   * calc_merkle_root: None unless the number of leaves is a power of two; otherwise the layers
   * end in a single value, and it is the root of the halving definition.
   */
  method CalcMerkleRoot(hash: Hash, leaves: seq<Bytes>) returns (r: Option<Bytes>)
    ensures r.Some? <==> IsPowerOfTwo(|leaves|)
    ensures forall k: nat | |leaves| == Pow2(k) :: r == Some(Root(hash, leaves, k))
  {
    var layers := Log2(|leaves|);
    if layers.None? {
      return None;
    }
    var k := layers.value;
    var layer := HashLeaves(hash, leaves);
    for n := 0 to k
      invariant layer == Layers(hash, HashLeaves(hash, leaves), n)
    {
      layer := HashLayer(hash, layer);
    }
    LayersGiveRoot(hash, leaves, k);
    forall j: nat | |leaves| == Pow2(j)
      ensures j == k
    {
      if j < k {
        Pow2Monotone(j, k);
      } else if k < j {
        Pow2Monotone(k, j);
      }
    }
    r := Some(layer[0]);
  }

  // --- Equal roots give away a collision ---

  ghost predicate FixedLength(hash: Hash) {
    forall x, y :: |hash(x)| == |hash(y)|
  }

  ghost predicate Collision(hash: Hash, x: Bytes, y: Bytes) {
    x != y && hash(x) == hash(y)
  }

  lemma SplitEqual(a: Bytes, b: Bytes, c: Bytes, d: Bytes)
    requires a + b == c + d && |a| == |c|
    ensures a == c && b == d
  {
    assert a == (a + b)[..|a|] && c == (c + d)[..|c|];
    assert b == (a + b)[|a|..] && d == (c + d)[|c|..];
  }

  lemma {:induction false} RootLength(hash: Hash, a: seq<Bytes>, b: seq<Bytes>, k: nat)
    requires |a| == |b| == Pow2(k) && FixedLength(hash)
    ensures |Root(hash, a, k)| == |Root(hash, b, k)|
  {
  }

  /** Equal roots of longer lists come from equal inputs only if the halves have equal roots too. */
  lemma {:induction false} HalvesAgree(hash: Hash, a: seq<Bytes>, b: seq<Bytes>, k: nat)
    requires k > 0 && |a| == |b| == Pow2(k) && FixedLength(hash)
    requires Root(hash, Left(a, k), k - 1) + Root(hash, Right(a, k), k - 1)
          == Root(hash, Left(b, k), k - 1) + Root(hash, Right(b, k), k - 1)
    ensures Root(hash, Left(a, k), k - 1) == Root(hash, Left(b, k), k - 1)
    ensures Root(hash, Right(a, k), k - 1) == Root(hash, Right(b, k), k - 1)
  {
    RootLength(hash, Left(a, k), Left(b, k), k - 1);
    SplitEqual(Root(hash, Left(a, k), k - 1), Root(hash, Right(a, k), k - 1),
               Root(hash, Left(b, k), k - 1), Root(hash, Right(b, k), k - 1));
  }

  /** Every input that computing the root feeds to the hash function. */
  ghost function Hashed(hash: Hash, leaves: seq<Bytes>, k: nat): set<Bytes>
    requires |leaves| == Pow2(k)
    decreases k, leaves
  {
    if k == 0 then {leaves[0]}
    else
      var left, right := Left(leaves, k), Right(leaves, k);
      Hashed(hash, left, k - 1) + Hashed(hash, right, k - 1)
      + {Root(hash, left, k - 1) + Root(hash, right, k - 1)}
  }

  /**
   * Two different lists of leaves with the same root: here are two inputs that collide, one
   * hashed for the first root and the other for the second.
   */
  function FindCollision(hash: Hash, a: seq<Bytes>, b: seq<Bytes>, k: nat): (r: (Bytes, Bytes))
    requires |a| == |b| == Pow2(k) && a != b && Root(hash, a, k) == Root(hash, b, k)
    requires FixedLength(hash)
    ensures Collision(hash, r.0, r.1)
    ensures r.0 in Hashed(hash, a, k) && r.1 in Hashed(hash, b, k)
    decreases k
  {
    if k == 0 then
      assert a == [a[0]] && b == [b[0]];
      (a[0], b[0])
    else
      var x := Root(hash, Left(a, k), k - 1) + Root(hash, Right(a, k), k - 1);
      var y := Root(hash, Left(b, k), k - 1) + Root(hash, Right(b, k), k - 1);
      if x != y then (x, y)
      else
        HalvesAgree(hash, a, b, k);
        if Left(a, k) != Left(b, k) then FindCollision(hash, Left(a, k), Left(b, k), k - 1)
        else FindCollision(hash, Right(a, k), Right(b, k), k - 1)
  }

  // --- Collation bodies ---

  const CHUNK_LAYERS: nat := 12

  function Chunks(body: Bytes): (r: seq<Bytes>)
    requires |body| % Blobs.CHUNK_SIZE == 0
    ensures |r| == |body| / Blobs.CHUNK_SIZE
  {
    if body == [] then [] else [body[..Blobs.CHUNK_SIZE]] + Chunks(body[Blobs.CHUNK_SIZE..])
  }

  lemma {:induction false} ChunksDetermineBody(a: Bytes, b: Bytes)
    requires |a| % Blobs.CHUNK_SIZE == 0 && |b| % Blobs.CHUNK_SIZE == 0
    requires Chunks(a) == Chunks(b)
    ensures a == b
    decreases |a|
  {
    if a != [] && b != [] {
      var n := Blobs.CHUNK_SIZE;
      assert Chunks(a)[0] == Chunks(b)[0];
      assert Chunks(a)[1..] == Chunks(b)[1..];
      ChunksDetermineBody(a[n..], b[n..]);
      assert a == a[..n] + a[n..] && b == b[..n] + b[n..];
    }
  }

  lemma {:induction false} BodyHasPowerOfTwoChunks(body: Bytes)
    requires |body| == Blobs.COLLATION_SIZE
    ensures |Chunks(body)| == Pow2(CHUNK_LAYERS)
  {
    assert Pow2(3) == 8;
    assert Pow2(6) == 8 * Pow2(3);
    assert Pow2(9) == 8 * Pow2(6);
    assert Pow2(12) == 8 * Pow2(9);
  }

  function ChunkRoot(hash: Hash, body: Bytes): Bytes
    requires |body| == Blobs.COLLATION_SIZE
  {
    BodyHasPowerOfTwoChunks(body);
    Root(hash, Chunks(body), CHUNK_LAYERS)
  }

  /** calc_chunk_root: None for a body of the wrong size. */
  method CalcChunkRoot(hash: Hash, body: Bytes) returns (r: Option<Bytes>)
    ensures r == if |body| == Blobs.COLLATION_SIZE then Some(ChunkRoot(hash, body)) else None
  {
    if |body| != Blobs.COLLATION_SIZE {
      return None;
    }
    var chunks: seq<Bytes>, start := [], 0;
    assert body[0..] == body;
    while start < |body|
      invariant start <= |body| && start % Blobs.CHUNK_SIZE == 0
      invariant Chunks(body) == chunks + Chunks(body[start..])
    {
      assert body[start..][..Blobs.CHUNK_SIZE] == body[start..start + Blobs.CHUNK_SIZE];
      assert body[start..][Blobs.CHUNK_SIZE..] == body[start + Blobs.CHUNK_SIZE..];
      chunks := chunks + [body[start..start + Blobs.CHUNK_SIZE]];
      start := start + Blobs.CHUNK_SIZE;
    }
    assert body[start..] == [];
    assert chunks == Chunks(body);
    BodyHasPowerOfTwoChunks(body);
    r := CalcMerkleRoot(hash, chunks);
  }

  /** Bodies of any power-of-two number of chunks. */
  lemma BodiesCollide(hash: Hash, a: Bytes, b: Bytes, k: nat) returns (x: Bytes, y: Bytes)
    requires |a| % Blobs.CHUNK_SIZE == 0 && |b| % Blobs.CHUNK_SIZE == 0 && a != b && FixedLength(hash)
    requires |Chunks(a)| == |Chunks(b)| == Pow2(k) && Root(hash, Chunks(a), k) == Root(hash, Chunks(b), k)
    ensures Collision(hash, x, y) && x in Hashed(hash, Chunks(a), k) && y in Hashed(hash, Chunks(b), k)
  {
    if Chunks(a) == Chunks(b) {
      ChunksDetermineBody(a, b);
    }
    var r := FindCollision(hash, Chunks(a), Chunks(b), k);
    x, y := r.0, r.1;
  }

  /** Every input that computing the chunk root of a body feeds to the hash function. */
  ghost function HashedForBody(hash: Hash, body: Bytes): set<Bytes>
    requires |body| == Blobs.COLLATION_SIZE
  {
    BodyHasPowerOfTwoChunks(body);
    Hashed(hash, Chunks(body), CHUNK_LAYERS)
  }

  /**
   * A chunk root commits to the whole body: of two different bodies with one root, an input
   * hashed for the first collides with an input hashed for the second.
   */
  lemma ChunkRootCommits(hash: Hash, a: Bytes, b: Bytes) returns (x: Bytes, y: Bytes)
    requires |a| == |b| == Blobs.COLLATION_SIZE && a != b && FixedLength(hash)
    requires ChunkRoot(hash, a) == ChunkRoot(hash, b)
    ensures Collision(hash, x, y) && x in HashedForBody(hash, a) && y in HashedForBody(hash, b)
  {
    BodyHasPowerOfTwoChunks(a);
    BodyHasPowerOfTwoChunks(b);
    x, y := BodiesCollide(hash, a, b, CHUNK_LAYERS);
  }
}
