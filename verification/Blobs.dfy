/** Blobs packed into the chunks of a collation body, and back. */
module Blobs {
  import opened Prelude

  const CHUNK_SIZE: nat := 32
  const CHUNK_DATA_SIZE: nat := 31
  const COLLATION_SIZE: nat := 131072
  const MAX_BLOB_SIZE: nat := COLLATION_SIZE / CHUNK_SIZE * CHUNK_DATA_SIZE

  function Zeros(n: nat): (r: Bytes)
    ensures |r| == n
  {
    seq(n, _ => 0)
  }

  /**
   * A blob as chunks of an indicator byte and 31 data bytes. The indicator of the last chunk is
   * the number of bytes used in it, that of all others is zero.
   */
  function EncodeBlob(blob: Bytes): (r: Bytes)
    requires blob != []
    ensures |r| % CHUNK_SIZE == 0
  {
    if |blob| <= CHUNK_DATA_SIZE then
      [|blob|] + blob + Zeros(CHUNK_DATA_SIZE - |blob|)
    else
      [0] + blob[..CHUNK_DATA_SIZE] + EncodeBlob(blob[CHUNK_DATA_SIZE..])
  }

  predicate Nonempty(blobs: seq<Bytes>) {
    forall k | 0 <= k < |blobs| :: blobs[k] != []
  }

  function EncodeAll(blobs: seq<Bytes>): (r: Bytes)
    requires Nonempty(blobs)
    ensures |r| % CHUNK_SIZE == 0
  {
    if blobs == [] then []
    else
      var first, others := EncodeBlob(blobs[0]), EncodeAll(blobs[1..]);
      WholeChunks(first, others);
      first + others
  }

  predicate Acceptable(blobs: seq<Bytes>) {
    && (forall k | 0 <= k < |blobs| :: 0 < |blobs[k]| <= MAX_BLOB_SIZE)
    && |EncodeAll(blobs)| <= COLLATION_SIZE
  }

  /** serialize_blobs; None is the ValidationError. */
  function Serialize(blobs: seq<Bytes>): (r: Option<Bytes>)
    ensures r.Some? ==> |r.value| == COLLATION_SIZE
  {
    if Acceptable(blobs) then
      var joined := EncodeAll(blobs);
      Some(joined + Zeros(COLLATION_SIZE - |joined|))
    else
      None
  }

  /** The blobs that end in `body`; `buffer` holds the start of the first one. */
  function Decode(body: Bytes, buffer: Bytes): seq<Bytes>
    requires |body| % CHUNK_SIZE == 0
    decreases |body|
  {
    if body == [] then []
    else
      var length := body[0] % 32;
      var rest := body[CHUNK_SIZE..];
      if length == 0 then Decode(rest, buffer + body[1..CHUNK_SIZE])
      else [buffer + body[1..length + 1]] + Decode(rest, [])
  }

  /** deserialize_blobs; None is the ValidationError. */
  function Deserialize(body: Bytes): Option<seq<Bytes>> {
    if |body| == COLLATION_SIZE then Some(Decode(body, [])) else None
  }

  // --- Round trip ---

  lemma {:induction false} DecodeBlob(blob: Bytes, rest: Bytes, buffer: Bytes)
    requires blob != [] && |rest| % CHUNK_SIZE == 0
    ensures Decode(EncodeBlob(blob) + rest, buffer) == [buffer + blob] + Decode(rest, [])
    decreases |blob|
  {
    var body := EncodeBlob(blob) + rest;
    if |blob| <= CHUNK_DATA_SIZE {
      assert body[CHUNK_SIZE..] == rest;
      assert body[1..|blob| + 1] == blob;
    } else {
      var head, tail := blob[..CHUNK_DATA_SIZE], blob[CHUNK_DATA_SIZE..];
      FirstChunk(head, EncodeBlob(tail), rest);
      DecodeBlob(tail, rest, buffer + head);
      assert buffer + head + tail == buffer + blob;
    }
  }

  lemma FirstChunk(head: Bytes, encoded: Bytes, rest: Bytes)
    requires |head| == CHUNK_DATA_SIZE
    ensures
      var body := [0] + head + encoded + rest;
      body[0] == 0 && body[1..CHUNK_SIZE] == head && body[CHUNK_SIZE..] == encoded + rest
  {
  }

  /** Zero padding, of whatever length, never ends a blob. */
  lemma {:induction false} DecodePadding(n: nat, buffer: Bytes)
    requires n % CHUNK_SIZE == 0
    ensures Decode(Zeros(n), buffer) == []
    decreases n
  {
    if n > 0 {
      assert Zeros(n)[CHUNK_SIZE..] == Zeros(n - CHUNK_SIZE);
      DecodePadding(n - CHUNK_SIZE, buffer + Zeros(n)[1..CHUNK_SIZE]);
    }
  }

  lemma {:induction false} DecodeAll(blobs: seq<Bytes>, n: nat)
    requires Nonempty(blobs) && n % CHUNK_SIZE == 0
    ensures Decode(EncodeAll(blobs) + Zeros(n), []) == blobs
    decreases |blobs|
  {
    WholeChunks(EncodeAll(blobs), Zeros(n));
    if blobs == [] {
      assert EncodeAll(blobs) + Zeros(n) == Zeros(n);
      DecodePadding(n, []);
    } else {
      var first, others := EncodeBlob(blobs[0]), EncodeAll(blobs[1..]);
      WholeChunks(others, Zeros(n));
      Regroup(first, others, Zeros(n));
      DecodeAll(blobs[1..], n);
      DecodeFirst(blobs[0], others + Zeros(n), blobs[1..]);
      assert blobs == [blobs[0]] + blobs[1..];
    }
  }

  lemma {:induction false} DecodeFirst(blob: Bytes, rest: Bytes, others: seq<Bytes>)
    requires blob != [] && |rest| % CHUNK_SIZE == 0 && Decode(rest, []) == others
    ensures Decode(EncodeBlob(blob) + rest, []) == [blob] + others
  {
    DecodeBlob(blob, rest, []);
    assert [] + blob == blob;
  }

  lemma WholeChunks(a: Bytes, b: Bytes)
    requires |a| % CHUNK_SIZE == 0 && |b| % CHUNK_SIZE == 0
    ensures |a + b| % CHUNK_SIZE == 0
  {
  }

  lemma Regroup(a: Bytes, b: Bytes, c: Bytes)
    ensures (a + b) + c == a + (b + c)
  {
  }

  /** Whatever list of blobs is accepted comes back unchanged. */
  lemma RoundTrip(blobs: seq<Bytes>)
    requires Serialize(blobs).Some?
    ensures Deserialize(Serialize(blobs).value) == Some(blobs)
  {
    DecodeAll(blobs, COLLATION_SIZE - |EncodeAll(blobs)|);
  }

  // --- Any body decodes to blobs that can be packed again ---

  /** As many chunks as the blob needs, and no more. */
  lemma {:induction false} EncodedSize(blob: Bytes, chunks: nat)
    requires chunks * CHUNK_DATA_SIZE < |blob| <= (chunks + 1) * CHUNK_DATA_SIZE
    ensures |EncodeBlob(blob)| == (chunks + 1) * CHUNK_SIZE
    decreases chunks
  {
    if chunks > 0 {
      EncodedSize(blob[CHUNK_DATA_SIZE..], chunks - 1);
    }
  }

  /** The byte at offset `o` of chunk `k` of an encoded blob. */
  function ByteAt(blob: Bytes, k: nat, o: nat): Byte
    requires CHUNK_DATA_SIZE * k < |blob| && o < CHUNK_SIZE
  {
    var from := CHUNK_DATA_SIZE * k;
    if o == 0 then (if |blob| - from <= CHUNK_DATA_SIZE then |blob| - from else 0)
    else if from + o - 1 < |blob| then blob[from + o - 1]
    else 0
  }

  /**
   * The encoding byte by byte: every chunk starts with zero, the last one with the number of bytes
   * it uses; the data follows in order, 31 bytes a chunk, and zeros fill up the last chunk.
   */
  lemma {:induction false} EncodedBytes(blob: Bytes, k: nat, o: nat)
    requires CHUNK_DATA_SIZE * k < |blob| && o < CHUNK_SIZE
    ensures CHUNK_SIZE * k + o < |EncodeBlob(blob)| && EncodeBlob(blob)[CHUNK_SIZE * k + o] == ByteAt(blob, k, o)
    decreases k
  {
    if k > 0 {
      EncodedBytes(blob[CHUNK_DATA_SIZE..], k - 1, o);
    }
  }

  /** Packing what was read needs no more room than it took. */
  lemma {:induction false} DecodedFits(body: Bytes, buffer: Bytes, chunks: nat)
    requires |body| % CHUNK_SIZE == 0 && |buffer| == chunks * CHUNK_DATA_SIZE
    ensures
      var blobs := Decode(body, buffer);
      && Nonempty(blobs)
      && |EncodeAll(blobs)| <= |body| + chunks * CHUNK_SIZE
      && (forall k | 0 <= k < |blobs| ::
            CHUNK_SIZE * |blobs[k]| <= CHUNK_DATA_SIZE * (|body| + chunks * CHUNK_SIZE))
    decreases |body|
  {
    if body != [] {
      var length := body[0] % 32;
      var rest := body[CHUNK_SIZE..];
      if length == 0 {
        DecodedFits(rest, buffer + body[1..CHUNK_SIZE], chunks + 1);
      } else {
        DecodedFits(rest, [], 0);
        var first := buffer + body[1..length + 1];
        EncodedSize(first, chunks);
        var blobs := Decode(body, buffer);
        assert blobs[0] == first && blobs[1..] == Decode(rest, []);
      }
    }
  }

  /**
   * Every body of the right size reads as blobs that serialize_blobs accepts, and reading them
   * again gives the same blobs: serialising is a normal form of the body.
   */
  lemma ReadingIsStable(body: Bytes)
    requires |body| == COLLATION_SIZE
    ensures
      var blobs := Deserialize(body).value;
      Serialize(blobs).Some? && Deserialize(Serialize(blobs).value) == Some(blobs)
  {
    DecodedFits(body, [], 0);
    RoundTrip(Deserialize(body).value);
  }

  // --- The loops ---

  lemma EncodeTail(blob: Bytes, index: nat)
    requires index + CHUNK_DATA_SIZE < |blob|
    ensures EncodeBlob(blob[index..])
         == [0] + blob[index..index + CHUNK_DATA_SIZE] + EncodeBlob(blob[index + CHUNK_DATA_SIZE..])
  {
    assert blob[index..][..CHUNK_DATA_SIZE] == blob[index..index + CHUNK_DATA_SIZE];
    assert blob[index..][CHUNK_DATA_SIZE..] == blob[index + CHUNK_DATA_SIZE..];
  }

  /** One chunk after the other, then the filler of the last one. */
  method WriteBlob(out: Bytes, blob: Bytes) returns (r: Bytes)
    requires blob != []
    ensures r == out + EncodeBlob(blob)
  {
    r := out;
    var index, last := 0, 0;
    assert blob[0..] == blob;
    while index < |blob|
      invariant index < |blob| ==> out + EncodeBlob(blob) == r + EncodeBlob(blob[index..])
      invariant index >= |blob| ==>
        && 1 <= |blob| - last <= CHUNK_DATA_SIZE
        && out + EncodeBlob(blob) == r + Zeros(CHUNK_DATA_SIZE - (|blob| - last))
    {
      var remaining := |blob| - index;
      if remaining <= CHUNK_DATA_SIZE {
        r := r + [remaining] + blob[index..];
      } else {
        EncodeTail(blob, index);
        r := r + [0] + blob[index..index + CHUNK_DATA_SIZE];
      }
      last := index;
      index := index + CHUNK_DATA_SIZE;
    }
    r := r + Zeros(CHUNK_DATA_SIZE - (|blob| - last));
  }

  lemma {:induction false} EncodeAppend(blobs: seq<Bytes>, n: nat)
    requires Nonempty(blobs) && n < |blobs|
    ensures EncodeAll(blobs[..n + 1]) == EncodeAll(blobs[..n]) + EncodeBlob(blobs[n])
    decreases |blobs|
  {
    if n == 0 {
      assert blobs[..1] == [blobs[0]] && blobs[..0] == [];
      assert EncodeAll(blobs[..1][1..]) == [];
    } else {
      EncodeAppend(blobs[1..], n - 1);
      assert blobs[..n + 1][1..] == blobs[1..][..n];
      assert blobs[..n][1..] == blobs[1..][..n - 1];
    }
  }

  /** serialize_blobs: None for a blob of bad size, or when the result exceeds a collation. */
  method SerializeBlobs(blobs: seq<Bytes>) returns (r: Option<Bytes>)
    ensures r == Serialize(blobs)
  {
    var out: Bytes := [];
    for n := 0 to |blobs|
      invariant forall k | 0 <= k < n :: 0 < |blobs[k]| <= MAX_BLOB_SIZE
      invariant out == EncodeAll(blobs[..n])
    {
      if |blobs[n]| == 0 || |blobs[n]| > MAX_BLOB_SIZE {
        return None;
      }
      EncodeAppend(blobs[..n + 1], n);
      assert blobs[..n + 1][..n + 1] == blobs[..n + 1] && blobs[..n + 1][..n] == blobs[..n];
      out := WriteBlob(out, blobs[n]);
    }
    assert blobs[..|blobs|] == blobs;
    r := if |out| > COLLATION_SIZE then None else Some(out + Zeros(COLLATION_SIZE - |out|));
  }

  lemma SliceOfChunk(body: Bytes, start: nat, hi: nat)
    requires start + CHUNK_SIZE <= |body| && 1 <= hi <= CHUNK_SIZE
    ensures body[start..start + CHUNK_SIZE][1..hi] == body[start..][1..hi]
  {
    var a, b := body[start..start + CHUNK_SIZE][1..hi], body[start..][1..hi];
    forall k | 0 <= k < hi - 1
      ensures a[k] == b[k]
    {
      assert a[k] == body[start + 1 + k];
    }
  }

  /** deserialize_blobs: chunk by chunk into a buffer that a terminal chunk flushes. */
  method DeserializeBlobs(body: Bytes) returns (r: Option<seq<Bytes>>)
    ensures r == Deserialize(body)
  {
    if |body| != COLLATION_SIZE {
      return None;
    }
    var blobs: seq<Bytes>, buffer: Bytes, start := [], [], 0;
    assert body[0..] == body;
    while start < |body|
      invariant start <= |body| && start % CHUNK_SIZE == 0
      invariant Decode(body, []) == blobs + Decode(body[start..], buffer)
    {
      var chunk := body[start..start + CHUNK_SIZE];
      var length := chunk[0] % 32;
      assert body[start..][CHUNK_SIZE..] == body[start + CHUNK_SIZE..];
      if length == 0 {
        SliceOfChunk(body, start, CHUNK_SIZE);
        buffer := buffer + chunk[1..CHUNK_SIZE];
      } else {
        SliceOfChunk(body, start, length + 1);
        blobs := blobs + [buffer + chunk[1..length + 1]];
        buffer := [];
      }
      start := start + CHUNK_SIZE;
    }
    assert start == |body| && body[start..] == [];
    assert Decode(body[start..], buffer) == [];
    assert Decode(body, []) == blobs;
    r := Some(blobs);
  }
}
