/** The transaction lookup index over every run, reorganisations included. */
module TxLookup {
  import opened Headers
  import opened ForkChoice

  /** The transaction sits at this position of the chain. */
  ghost predicate Holds(path: seq<BlockHeader>, tx: TxHash, p: Position) {
    p.number < |path| && p.index < |path[p.number].txs| && path[p.number].txs[p.index] == tx
  }

  ghost predicate NoRepeat(path: seq<BlockHeader>) {
    forall tx, p, q :: Holds(path, tx, p) && Holds(path, tx, q) ==> p == q
  }

  /** A hash is mapped to a position exactly when the chain holds it there. */
  ghost predicate LookupExact(lookup: map<TxHash, Position>, path: seq<BlockHeader>) {
    forall tx, p :: (tx in lookup && lookup[tx] == p) <==> Holds(path, tx, p)
  }

  /** The index names the blocks of `path` by position, and nothing else. */
  ghost predicate Names(canonical: map<nat, BlockHeader>, path: seq<BlockHeader>) {
    forall n: nat :: (n in canonical <==> n < |path|) && (n < |path| ==> canonical[n] == path[n])
  }

  // --- Removing the lookups of replaced blocks ---

  lemma InTxSet(h: BlockHeader, tx: TxHash)
    ensures tx in TxSet(h) <==> tx in h.txs
  {
  }

  /** Everything found in the replaced blocks goes, the rest stays. */
  lemma {:induction false} UnlinkedTxs(
      lookup: map<TxHash, Position>, canonical: map<nat, BlockHeader>,
      old_: seq<BlockHeader>, path: seq<BlockHeader>, k: nat, tx: TxHash)
    requires Names(canonical, old_) && k <= |path|
    requires forall n | 0 <= n < |path| :: path[n].number == n
    ensures
      var r := Unlinked(lookup, canonical, path[k..]);
      && (tx in r <==> tx in lookup && forall n | k <= n < |old_| && n < |path| :: tx !in old_[n].txs)
      && (tx in r ==> r[tx] == lookup[tx])
    decreases |path| - k
  {
    if k < |path| && k < |old_| {
      assert path[k..][1..] == path[k + 1..];
      UnlinkedTxs(lookup - TxSet(old_[k]), canonical, old_, path, k + 1, tx);
      InTxSet(old_[k], tx);
    }
  }

  /** What is left are the lookups of shared blocks and of blocks above the end of the new chain. */
  lemma {:induction false} UnlinkedEntry(
      lookup: map<TxHash, Position>, canonical: map<nat, BlockHeader>,
      old_: seq<BlockHeader>, path: seq<BlockHeader>, k: nat, tx: TxHash, p: Position)
    requires Names(canonical, old_) && LookupExact(lookup, old_) && NoRepeat(old_)
    requires forall n | 0 <= n < |path| :: path[n].number == n
    requires k <= |old_| && k <= |path|
    ensures
      var r := Unlinked(lookup, canonical, path[k..]);
      (tx in r && r[tx] == p) <==> Holds(old_, tx, p) && (p.number < k || p.number >= |path|)
  {
    UnlinkedTxs(lookup, canonical, old_, path, k, tx);
    if Holds(old_, tx, p) {
      assert tx in old_[p.number].txs;
      if p.number < k || p.number >= |path| {
        OnlyThere(old_, tx, p);
      }
    }
  }

  /** A transaction is in no other block. */
  lemma OnlyThere(old_: seq<BlockHeader>, tx: TxHash, p: Position)
    requires NoRepeat(old_) && Holds(old_, tx, p)
    ensures forall n | 0 <= n < |old_| && n != p.number :: tx !in old_[n].txs
  {
    forall n | 0 <= n < |old_| && n != p.number && tx in old_[n].txs
      ensures false
    {
      var i :| 0 <= i < |old_[n].txs| && old_[n].txs[i] == tx;
      assert Holds(old_, tx, Position(n, i));
    }
  }

  lemma SharedHolds(old_: seq<BlockHeader>, path: seq<BlockHeader>, k: nat, tx: TxHash, p: Position)
    requires k <= |old_| && k <= |path| && old_[..k] == path[..k]
    ensures Holds(path[..k], tx, p) <==> Holds(old_, tx, p) && p.number < k
  {
    if p.number < k {
      assert path[..k][p.number] == old_[..k][p.number];
    }
  }

  // --- Adding the lookups of new blocks ---

  /** Positions in the first `m` blocks and the first `n` transactions of block `m`. */
  ghost predicate HoldsUpTo(path: seq<BlockHeader>, m: nat, n: nat, tx: TxHash, p: Position) {
    Holds(path, tx, p) && (p.number < m || (p.number == m && p.index < n))
  }

  /** One more transaction of block `m`. */
  lemma LinkedOne(path: seq<BlockHeader>, m: nat, n: nat, before: map<TxHash, Position>, tx: TxHash, p: Position)
    requires m < |path| && n < |path[m].txs| && NoRepeat(path)
    requires (tx in before && before[tx] == p) <==> HoldsUpTo(path, m, n, tx, p)
    ensures
      var r := before[path[m].txs[n] := Position(m, n)];
      (tx in r && r[tx] == p) <==> HoldsUpTo(path, m, n + 1, tx, p)
  {
    var t := path[m].txs[n];
    assert Holds(path, t, Position(m, n));
    if tx == t && Holds(path, tx, p) {
      assert p == Position(m, n);
    }
  }

  lemma {:induction false} LinkedBlock(lookup: map<TxHash, Position>, path: seq<BlockHeader>, m: nat, n: nat,
                                       tx: TxHash, p: Position)
    requires m < |path| && path[m].number == m && n <= |path[m].txs| && NoRepeat(path)
    requires LookupExact(lookup, path[..m])
    ensures
      var r := LinkedUpTo(lookup, path[m], n);
      (tx in r && r[tx] == p) <==> HoldsUpTo(path, m, n, tx, p)
    decreases n
  {
    if n == 0 {
      SharedHolds(path, path, m, tx, p);
    } else {
      LinkedBlock(lookup, path, m, n - 1, tx, p);
      LinkedOne(path, m, n - 1, LinkedUpTo(lookup, path[m], n - 1), tx, p);
    }
  }

  lemma {:induction false} LinkedNext(lookup: map<TxHash, Position>, path: seq<BlockHeader>, m: nat)
    requires m < |path| && path[m].number == m && NoRepeat(path)
    requires LookupExact(lookup, path[..m])
    ensures LookupExact(LinkedUpTo(lookup, path[m], |path[m].txs|), path[..m + 1])
  {
    var n := |path[m].txs|;
    var r, upTo := LinkedUpTo(lookup, path[m], n), path[..m + 1];
    forall tx, p
      ensures (tx in r && r[tx] == p) <==> Holds(upTo, tx, p)
    {
      LinkedBlock(lookup, path, m, n, tx, p);
      SharedHolds(path, path, m + 1, tx, p);
    }
  }

  lemma {:induction false} LinkedPath(lookup: map<TxHash, Position>, path: seq<BlockHeader>, k: nat, m: nat)
    requires k <= m <= |path| && NoRepeat(path)
    requires forall n | 0 <= n < |path| :: path[n].number == n
    requires LookupExact(lookup, path[..k])
    ensures LookupExact(Linked(lookup, path[k..m]), path[..m])
    decreases m
  {
    if k < m {
      LinkedPath(lookup, path, k, m - 1);
      assert path[k..m][..m - 1 - k] == path[k..m - 1];
      LinkedNext(Linked(lookup, path[k..m - 1]), path, m - 1);
    }
  }

  // --- One block, and every run ---

  ghost function HeadPath(t: Tables): seq<BlockHeader> {
    if t.head.None? then [] else Path(t.head.value)
  }

  lemma ExactNames(t: Tables)
    requires Exact(t)
    ensures Names(t.canonical, HeadPath(t))
  {
  }

  lemma {:induction false} SharedPrefix(t: Tables, h: BlockHeader, k: nat)
    requires Exact(t) && BranchesAt(t.canonical, Path(h), k)
    ensures k <= |HeadPath(t)| && HeadPath(t)[..k] == Path(h)[..k]
  {
    ExactNames(t);
    assert k > |HeadPath(t)| ==> |HeadPath(t)| in t.canonical;
  }

  /** The new head's path and the old one part at `k`, and the walk returns what lies above. */
  lemma Parting(t: Tables, h: BlockHeader) returns (k: nat)
    requires Consistent(t) && AllNumbered(t) && Exact(t) && Numbered(h)
    ensures k <= |HeadPath(t)| && k <= |Path(h)| && HeadPath(t)[..k] == Path(h)[..k]
    ensures NewHeaders(t.canonical, h) == Path(h)[k..]
    ensures forall n | 0 <= n < |Path(h)| :: Path(h)[n].number == n
  {
    ExactIsPrefixClosed(t);
    k := WalkStopsAtBranch(t.canonical, h);
    SharedPrefix(t, h, k);
    PathNumbers(h);
  }

  // --- What the removal leaves: shared entries and stale ones ---

  function EntriesBelow(lookup: map<TxHash, Position>, k: nat): map<TxHash, Position> {
    map tx | tx in lookup && lookup[tx].number < k :: lookup[tx]
  }

  function EntriesFrom(lookup: map<TxHash, Position>, k: nat): map<TxHash, Position> {
    map tx | tx in lookup && lookup[tx].number >= k :: lookup[tx]
  }

  /** Linking writes the same entries whatever was there before. */
  lemma {:induction false} LinkedUpToMerges(lookup: map<TxHash, Position>, h: BlockHeader, n: nat)
    requires n <= |h.txs|
    ensures LinkedUpTo(lookup, h, n) == lookup + LinkedUpTo(map[], h, n)
  {
    if n > 0 {
      LinkedUpToMerges(lookup, h, n - 1);
    }
  }

  lemma {:induction false} LinkedMerges(lookup: map<TxHash, Position>, added: seq<BlockHeader>)
    ensures Linked(lookup, added) == lookup + Linked(map[], added)
    decreases |added|
  {
    if added != [] {
      var init, last := added[..|added| - 1], added[|added| - 1];
      LinkedMerges(lookup, init);
      LinkedUpToMerges(Linked(lookup, init), last, |last.txs|);
      LinkedUpToMerges(Linked(map[], init), last, |last.txs|);
    }
  }

  /** Stale entries stay under the entries of the new chain. */
  lemma {:induction false} LinkedOverStale(left: map<TxHash, Position>, k: nat, added: seq<BlockHeader>)
    ensures Linked(left, added) == EntriesFrom(left, k) + Linked(EntriesBelow(left, k), added)
  {
    LinkedMerges(left, added);
    LinkedMerges(EntriesBelow(left, k), added);
  }

  lemma {:induction false} SharedExact(
      lookup: map<TxHash, Position>, canonical: map<nat, BlockHeader>,
      old_: seq<BlockHeader>, path: seq<BlockHeader>, k: nat)
    requires Names(canonical, old_) && LookupExact(lookup, old_) && NoRepeat(old_)
    requires forall n | 0 <= n < |path| :: path[n].number == n
    requires k <= |old_| && k <= |path| && old_[..k] == path[..k]
    ensures LookupExact(EntriesBelow(Unlinked(lookup, canonical, path[k..]), k), path[..k])
  {
    var r := EntriesBelow(Unlinked(lookup, canonical, path[k..]), k);
    forall tx, p
      ensures (tx in r && r[tx] == p) <==> Holds(path[..k], tx, p)
    {
      UnlinkedEntry(lookup, canonical, old_, path, k, tx, p);
      SharedHolds(old_, path, k, tx, p);
    }
  }

  /** The chain holds the transaction somewhere. */
  ghost predicate Occurs(path: seq<BlockHeader>, tx: TxHash) {
    exists p :: Holds(path, tx, p)
  }

  /** Every transaction of an old block above the end of the new chain occurs on the new chain. */
  ghost predicate Carried(old_: seq<BlockHeader>, path: seq<BlockHeader>) {
    forall tx, p :: Holds(old_, tx, p) && p.number >= |path| ==> Occurs(path, tx)
  }

  /** An exact lookup stays exact over further entries if it covers all of them. */
  lemma ExactOverStale(stale: map<TxHash, Position>, exact: map<TxHash, Position>, path: seq<BlockHeader>)
    requires LookupExact(exact, path)
    ensures LookupExact(stale + exact, path) <==> forall tx | tx in stale :: Occurs(path, tx)
  {
    var r := stale + exact;
    forall tx
      ensures tx in exact <==> Occurs(path, tx)
    {
      if tx in exact {
        assert Holds(path, tx, exact[tx]);
      }
    }
    if LookupExact(r, path) {
      forall tx | tx in stale
        ensures Occurs(path, tx)
      {
        assert tx in r && r[tx] == r[tx];
        assert Holds(path, tx, r[tx]);
      }
    }
  }

  lemma {:induction false} StaleCarried(
      lookup: map<TxHash, Position>, canonical: map<nat, BlockHeader>,
      old_: seq<BlockHeader>, path: seq<BlockHeader>, k: nat)
    requires Names(canonical, old_) && LookupExact(lookup, old_) && NoRepeat(old_)
    requires forall n | 0 <= n < |path| :: path[n].number == n
    requires k <= |old_| && k <= |path|
    ensures
      var stale := EntriesFrom(Unlinked(lookup, canonical, path[k..]), k);
      Carried(old_, path) <==> forall tx | tx in stale :: Occurs(path, tx)
  {
    var left := Unlinked(lookup, canonical, path[k..]);
    var stale := EntriesFrom(left, k);
    forall tx | tx in stale
      ensures Holds(old_, tx, stale[tx]) && stale[tx].number >= |path|
    {
      UnlinkedEntry(lookup, canonical, old_, path, k, tx, left[tx]);
    }
    forall tx, p | Holds(old_, tx, p) && p.number >= |path|
      ensures tx in stale
    {
      UnlinkedEntry(lookup, canonical, old_, path, k, tx, p);
    }
  }

  /** Dropping the old blocks above `k` and adding the new ones: when that gives the new chain's lookup. */
  lemma {:induction false} Relinked(
      lookup: map<TxHash, Position>, canonical: map<nat, BlockHeader>,
      old_: seq<BlockHeader>, path: seq<BlockHeader>, k: nat)
    requires Names(canonical, old_) && LookupExact(lookup, old_) && NoRepeat(old_) && NoRepeat(path)
    requires forall n | 0 <= n < |path| :: path[n].number == n
    requires k <= |old_| && k <= |path| && old_[..k] == path[..k]
    ensures LookupExact(Linked(Unlinked(lookup, canonical, path[k..]), path[k..]), path) <==> Carried(old_, path)
  {
    var left := Unlinked(lookup, canonical, path[k..]);
    SharedExact(lookup, canonical, old_, path, k);
    assert path[k..|path|] == path[k..] && path[..|path|] == path;
    LinkedPath(EntriesBelow(left, k), path, k, |path|);
    LinkedOverStale(left, k, path[k..]);
    ExactOverStale(EntriesFrom(left, k), Linked(EntriesBelow(left, k), path[k..]), path);
    StaleCarried(lookup, canonical, old_, path, k);
  }

  /**
   * A reorganisation turns an exact lookup of the old chain into an exact one of the new chain if
   * and only if the new chain carries every transaction of the old blocks above its head.
   */
  lemma {:induction false} TakeOverLookup(t: Tables, h: BlockHeader)
    requires Consistent(t) && AllNumbered(t) && Exact(t) && Numbered(h)
    requires LookupExact(t.lookup, HeadPath(t)) && NoRepeat(HeadPath(t)) && NoRepeat(Path(h))
    ensures
      var added := NewHeaders(t.canonical, h);
      LookupExact(Linked(Unlinked(t.lookup, t.canonical, added), added), Path(h)) <==> Carried(HeadPath(t), Path(h))
  {
    var k := Parting(t, h);
    ExactNames(t);
    Relinked(t.lookup, t.canonical, HeadPath(t), Path(h), k);
  }

  /** A head that does not fall leaves no old block above it. */
  lemma {:induction false} NoneAbove(t: Tables, h: BlockHeader)
    requires Consistent(t) && AllNumbered(t) && Numbered(h)
    requires t.head.Some? ==> h.number >= t.head.value.number
    ensures Carried(HeadPath(t), Path(h))
  {
    PathNumbers(h);
    if t.head.Some? {
      PathNumbers(t.head.value);
    }
  }

  /** What has to hold for one more block to keep the lookup exact. */
  ghost predicate LookupSurvives(t: Tables, h: BlockHeader)
    requires Consistent(t)
  {
    KnownParent(t, h) && TakesOver(t, h) ==> Carried(HeadPath(t), Path(h))
  }

  /** One more block keeps an exact lookup exact if and only if nothing above the new head is lost. */
  lemma {:induction false} NextLookup(t: Tables, h: BlockHeader)
    requires Consistent(t) && AllNumbered(t) && Exact(t) && Numbered(h)
    requires LookupExact(t.lookup, HeadPath(t)) && NoRepeat(HeadPath(t)) && NoRepeat(Path(h))
    ensures LookupExact(Next(t, h).lookup, HeadPath(Next(t, h))) <==> LookupSurvives(t, h)
    ensures NoRepeat(HeadPath(Next(t, h)))
  {
    NextTables(t, h);
    if KnownParent(t, h) && TakesOver(t, h) {
      TakeOverLookup(t, h);
    }
  }

  lemma {:induction false} NotFallenSurvives(t: Tables, h: BlockHeader)
    requires Consistent(t) && AllNumbered(t) && Numbered(h) && !HeadFalls(t, Next(t, h))
    ensures LookupSurvives(t, h)
  {
    NextTables(t, h);
    if KnownParent(t, h) && TakesOver(t, h) {
      NoneAbove(t, h);
    }
  }

  ghost predicate NoTxRepeated(blocks: seq<BlockHeader>) {
    forall k | 0 <= k < |blocks| :: NoRepeat(Path(blocks[k]))
  }

  /**
   * Over every run of consecutively numbered blocks in which the head's number never falls and
   * no transaction occurs twice on a path: the lookup maps a hash to (n, i) exactly when block
   * n of the canonical chain holds it at position i.
   */
  lemma {:induction false} LookupThroughout(blocks: seq<BlockHeader>, k: nat)
    requires BlocksNumbered(blocks) && NeverFalls(blocks) && NoTxRepeated(blocks) && k <= |blocks|
    ensures LookupExact(Run(blocks[..k]).lookup, HeadPath(Run(blocks[..k])))
    ensures NoRepeat(HeadPath(Run(blocks[..k])))
  {
    if k > 0 {
      LookupThroughout(blocks, k - 1);
      ExactUpTo(blocks, k - 1);
      RunNext(blocks, k - 1);
      assert !FallsAt(blocks, k - 1);
      NotFallenSurvives(Run(blocks[..k - 1]), blocks[k - 1]);
      NextLookup(Run(blocks[..k - 1]), blocks[k - 1]);
    }
  }

  // --- A run in which the lookup goes stale ---

  /** Only the block with number 2 holds a transaction. */
  ghost predicate Lonely(path: seq<BlockHeader>) {
    forall n | 0 <= n < |path| :: if n == 2 then |path[n].txs| <= 1 else path[n].txs == []
  }

  lemma LonelyNoRepeat(path: seq<BlockHeader>)
    requires Lonely(path)
    ensures NoRepeat(path)
  {
  }

  /** The lookup is exact after block `k` of a run that is one chain so far. */
  ghost predicate LookupAt(blocks: seq<BlockHeader>, k: nat)
    requires k < |blocks|
  {
    LookupExact(Run(blocks[..k + 1]).lookup, Path(blocks[k])) && NoRepeat(Path(blocks[k]))
  }

  lemma LookupFirst(blocks: seq<BlockHeader>)
    requires blocks != [] && blocks[0].Genesis? && blocks[0].number == 0 && NoRepeat(Path(blocks[0]))
    ensures LookupAt(blocks, 0)
  {
    var h := blocks[0];
    RunNext(blocks, 0);
    NextTables(EMPTY_TABLES, h);
    NotFallenSurvives(EMPTY_TABLES, h);
    NextLookup(EMPTY_TABLES, h);
  }

  lemma LookupOn(blocks: seq<BlockHeader>, k: nat)
    requires k + 1 < |blocks| && Straight(blocks, k) && On(blocks[k + 1], blocks[k])
    requires LookupAt(blocks, k) && NoRepeat(Path(blocks[k + 1]))
    ensures LookupAt(blocks, k + 1)
  {
    var t, h := Run(blocks[..k + 1]), blocks[k + 1];
    RunNext(blocks, k + 1);
    NextTables(t, h);
    NotFallenSurvives(t, h);
    NextLookup(t, h);
  }

  /** The heavy block leaves the transaction of the second light block in the lookup. */
  lemma StaleLookup(blocks: seq<BlockHeader>)
    requires ForthAndBack(blocks) && Straight(blocks, 2) && LookupAt(blocks, 2)
    requires blocks[2].txs != [] && NoRepeat(Path(blocks[3]))
    requires forall n | 0 <= n < |Path(blocks[3])| :: Path(blocks[3])[n].txs == []
    ensures !LookupExact(Run(blocks[..4]).lookup, HeadPath(Run(blocks[..4])))
  {
    var t, h := Run(blocks[..3]), blocks[3];
    RunNext(blocks, 3);
    GenesisStored(t, blocks[2]);
    NextTables(t, h);
    NextLookup(t, h);
    NotCarried(blocks[2], h);
  }

  lemma {:induction false} NotCarried(head: BlockHeader, h: BlockHeader)
    requires Numbered(head) && Numbered(h) && h.number < head.number && head.txs != []
    requires forall n | 0 <= n < |Path(h)| :: Path(h)[n].txs == []
    ensures !Carried(Path(head), Path(h))
  {
    PathNumbers(head);
    PathNumbers(h);
    var tx, p := head.txs[0], Position(head.number, 0);
    assert Holds(Path(head), tx, p) && p.number >= |Path(h)|;
    assert !Occurs(Path(h), tx);
  }

  /** Block after block on one chain, the index and the lookup stay exact. */
  lemma {:induction false} ChainLookup(blocks: seq<BlockHeader>, k: nat)
    requires k < |blocks| && blocks[0].Genesis? && blocks[0].number == 0 && NoTxRepeated(blocks)
    requires forall j | 0 < j <= k :: On(blocks[j], blocks[j - 1])
    ensures Straight(blocks, k) && LookupAt(blocks, k)
  {
    if k == 0 {
      StraightFirst(blocks);
      LookupFirst(blocks);
    } else {
      ChainLookup(blocks, k - 1);
      StraightOn(blocks, k - 1);
      LookupOn(blocks, k - 1);
    }
  }

  /** Only the second light block holds a transaction. */
  ghost predicate OneTransaction(blocks: seq<BlockHeader>) {
    |blocks| == 5 && |blocks[2].txs| == 1 && forall k | 0 <= k < |blocks| && k != 2 :: blocks[k].txs == []
  }

  lemma GoesStale(blocks: seq<BlockHeader>)
    requires ForthAndBack(blocks) && OneTransaction(blocks)
    ensures NoTxRepeated(blocks) && !LookupExact(Run(blocks[..4]).lookup, HeadPath(Run(blocks[..4])))
  {
    LonelyPaths(blocks);
    ChainLookup(blocks, 2);
    StaleLookup(blocks);
  }

  /** Five headers, one of them with a transaction, after whose fourth the lookup is stale. */
  lemma {:induction false} StaleRun() returns (blocks: seq<BlockHeader>)
    ensures
      var genesis := Genesis(0, 1, [], 0);
      var first := Child(genesis, 1, 1, [], 0);
      var second := Child(first, 2, 1, [7], 0);
      blocks == [genesis, first, second, Child(genesis, 1, 9, [], 0), Child(second, 3, 90, [], 0)]
    ensures NoTxRepeated(blocks) && !LookupExact(Run(blocks[..4]).lookup, HeadPath(Run(blocks[..4])))
  {
    var genesis := Genesis(0, 1, [], 0);
    var first := Child(genesis, 1, 1, [], 0);
    var second := Child(first, 2, 1, [7], 0);
    blocks := [genesis, first, second, Child(genesis, 1, 9, [], 0), Child(second, 3, 90, [], 0)];
    GoesStale(blocks);
  }

  lemma {:induction false} LonelyPaths(blocks: seq<BlockHeader>)
    requires ForthAndBack(blocks) && OneTransaction(blocks)
    ensures NoTxRepeated(blocks) && forall n | 0 <= n < |Path(blocks[3])| :: Path(blocks[3])[n].txs == []
  {
    var g, a, b, h, c := blocks[0], blocks[1], blocks[2], blocks[3], blocks[4];
    assert Path(g) == [g] && Path(a) == [g, a] && Path(b) == [g, a, b];
    assert Path(h) == [g, h] && Path(c) == [g, a, b, c];
    forall k | 0 <= k < |blocks|
      ensures NoRepeat(Path(blocks[k]))
    {
      LonelyNoRepeat(Path(blocks[k]));
    }
  }
}
