/** Which header is the head, and what the number index holds, over every run. */
module ForkChoice {
  import opened Prelude
  import opened Headers

  /** The tables after one more block, which may be refused. */
  function Next(t: Tables, h: BlockHeader): (r: Tables)
    requires Consistent(t)
    ensures Consistent(r)
  {
    match PersistBlock(t, h)
    case None => t
    case Some(p) => p.tables
  }

  /** The tables after persisting the blocks in order; blocks with unknown parents are refused. */
  function Run(blocks: seq<BlockHeader>): (t: Tables)
    ensures Consistent(t)
  {
    if blocks == [] then EMPTY_TABLES
    else Next(Run(blocks[..|blocks| - 1]), blocks[|blocks| - 1])
  }

  /** The blocks of a run that were accepted, in order. */
  function Accepted(blocks: seq<BlockHeader>): seq<BlockHeader> {
    if blocks == [] then []
    else
      var init, last := blocks[..|blocks| - 1], blocks[|blocks| - 1];
      if KnownParent(Run(init), last) then Accepted(init) + [last] else Accepted(init)
  }

  // --- Scores ---

  ghost predicate FirstHeaviestAt(accepted: seq<BlockHeader>, best: BlockHeader, k: nat) {
    && k < |accepted| && accepted[k] == best
    && (forall j | 0 <= j < k :: TotalDifficulty(accepted[j]) < TotalDifficulty(best))
    && (forall j | k <= j < |accepted| :: TotalDifficulty(accepted[j]) <= TotalDifficulty(best))
  }

  /** `best` is the first of the accepted blocks with the greatest total difficulty. */
  ghost predicate FirstHeaviest(accepted: seq<BlockHeader>, best: BlockHeader) {
    exists k: nat :: FirstHeaviestAt(accepted, best, k)
  }

  lemma {:induction false} FirstHeaviestKept(accepted: seq<BlockHeader>, best: BlockHeader, next: BlockHeader)
    requires FirstHeaviest(accepted, best) && TotalDifficulty(next) <= TotalDifficulty(best)
    ensures FirstHeaviest(accepted + [next], best)
  {
    var k: nat :| FirstHeaviestAt(accepted, best, k);
    assert FirstHeaviestAt(accepted + [next], best, k);
  }

  lemma {:induction false} FirstHeaviestReplaced(accepted: seq<BlockHeader>, best: BlockHeader, next: BlockHeader)
    requires FirstHeaviest(accepted, best) && TotalDifficulty(next) > TotalDifficulty(best)
    ensures FirstHeaviest(accepted + [next], next)
  {
    assert FirstHeaviestAt(accepted + [next], next, |accepted|);
  }

  /** Scores and head agree with the blocks accepted so far. */
  ghost predicate Weighs(t: Tables, accepted: seq<BlockHeader>) {
    && (forall h :: h in t.headers <==> h in accepted)
    && (forall h | h in accepted :: h in t.scores && t.scores[h] == TotalDifficulty(h))
    && (t.head.None? <==> accepted == [])
    && (t.head.Some? ==> FirstHeaviest(accepted, t.head.value))
  }

  lemma NextWeighs(t: Tables, accepted: seq<BlockHeader>, h: BlockHeader)
    requires Consistent(t) && Weighs(t, accepted) && KnownParent(t, h)
    ensures Weighs(Next(t, h), accepted + [h])
  {
    NextTables(t, h);
    if t.head.None? {
      assert FirstHeaviestAt(accepted + [h], h, 0);
    } else if TakesOver(t, h) {
      FirstHeaviestReplaced(accepted, t.head.value, h);
    } else {
      FirstHeaviestKept(accepted, t.head.value, h);
    }
  }

  /**
   * Over every run, with any numbering: the stored headers are exactly the accepted ones, each
   * score is the sum of difficulties along the ancestry, and the head is the heaviest header,
   * the first seen winning ties.
   */
  lemma {:induction false} ScoresAndHead(blocks: seq<BlockHeader>)
    ensures Weighs(Run(blocks), Accepted(blocks))
    decreases |blocks|
  {
    if blocks != [] {
      var init, last := blocks[..|blocks| - 1], blocks[|blocks| - 1];
      ScoresAndHead(init);
      if KnownParent(Run(init), last) {
        NextWeighs(Run(init), Accepted(init), last);
      }
    }
  }

  // --- The number index ---

  /** The index names exactly the head's ancestry: nothing missing, nothing left over. */
  ghost predicate Exact(t: Tables) {
    match t.head
    case None => t.canonical == map[]
    case Some(head) =>
      && (forall n: nat :: n in t.canonical <==> n < |Path(head)|)
      && (forall n: nat | n < |Path(head)| :: t.canonical[n] == Path(head)[n])
  }

  ghost predicate AllNumbered(t: Tables) {
    forall h | h in t.headers :: Numbered(h)
  }

  /** The headers of `path` from `k` on are not indexed; those below are. */
  ghost predicate BranchesAt(canonical: map<nat, BlockHeader>, path: seq<BlockHeader>, k: nat) {
    && k <= |path|
    && (forall n | 0 <= n < k :: n in canonical && canonical[n] == path[n])
    && (forall n | k <= n < |path| :: !(n in canonical && canonical[n] == path[n]))
  }

  /** An index whose entries bring their whole ancestry with them. */
  ghost predicate PrefixClosed(canonical: map<nat, BlockHeader>) {
    forall h | Numbered(h) && IsCanonical(canonical, h) ::
      forall n | 0 <= n < |Path(h)| :: n in canonical && canonical[n] == Path(h)[n]
  }

  /** A numbered header that is indexed lies on the head's path, with all its ancestors. */
  lemma {:induction false} IndexedOnPath(t: Tables, h: BlockHeader)
    requires Exact(t) && AllNumbered(t) && Consistent(t) && IsCanonical(t.canonical, h)
    ensures t.head.Some? && h.number < |Path(t.head.value)| && Path(h) == Path(t.head.value)[..h.number + 1]
  {
    PathPrefix(t.head.value, h.number);
  }

  lemma ExactIsPrefixClosed(t: Tables)
    requires Exact(t) && AllNumbered(t) && Consistent(t)
    ensures PrefixClosed(t.canonical)
  {
    forall h | Numbered(h) && IsCanonical(t.canonical, h)
      ensures forall n | 0 <= n < |Path(h)| :: n in t.canonical && t.canonical[n] == Path(h)[n]
    {
      IndexedOnPath(t, h);
    }
  }

  lemma DropAppend<T>(s: seq<T>, x: T, k: nat)
    requires k <= |s|
    ensures (s + [x])[k..] == s[k..] + [x]
  {
  }

  /** A header that is not indexed sits above the branching point of its parent. */
  lemma BranchExtends(canonical: map<nat, BlockHeader>, path: seq<BlockHeader>, h: BlockHeader, k: nat)
    requires h.number == |path| && !IsCanonical(canonical, h)
    requires BranchesAt(canonical, path, k)
    ensures BranchesAt(canonical, path + [h], k)
  {
  }

  /** The walk down from a header collects exactly its path above the branching point. */
  lemma {:induction false} WalkStopsAtBranch(canonical: map<nat, BlockHeader>, h: BlockHeader) returns (k: nat)
    requires Numbered(h) && PrefixClosed(canonical)
    ensures BranchesAt(canonical, Path(h), k)
    ensures NewHeaders(canonical, h) == Path(h)[k..]
  {
    if IsCanonical(canonical, h) {
      k := |Path(h)|;
    } else {
      match h
      case Genesis(_, _, _, _) =>
        k := 0;
      case Child(parent, _, _, _, _) =>
        k := WalkStopsAtBranch(canonical, parent);
        PathNumbers(parent);
        BranchExtends(canonical, Path(parent), h, k);
        DropAppend(Path(parent), h, k);
    }
  }

  ghost predicate IndexedEntry(canonical: map<nat, BlockHeader>, path: seq<BlockHeader>, k: nat,
                               r: map<nat, BlockHeader>, n: nat)
  {
    if k <= n < |path| then n in r && r[n] == path[n]
    else (n in r <==> n in canonical) && (n in r ==> r[n] == canonical[n])
  }

  lemma {:induction false} IndexedAt(canonical: map<nat, BlockHeader>, path: seq<BlockHeader>, k: nat, n: nat)
    requires k <= |path| && forall n | 0 <= n < |path| :: path[n].number == n
    ensures IndexedEntry(canonical, path, k, Indexed(canonical, path[k..]), n)
    decreases |path|
  {
    if k < |path| {
      IndexedAt(canonical, path[..|path| - 1], k, n);
      IndexedLast(canonical, path, k);
    }
  }

  lemma {:induction false} IndexedLast(canonical: map<nat, BlockHeader>, path: seq<BlockHeader>, k: nat)
    requires k < |path|
    ensures
      var last := |path| - 1;
      Indexed(canonical, path[k..]) == Indexed(canonical, path[..last][k..])[path[last].number := path[last]]
  {
    var added := path[k..];
    assert added[..|added| - 1] == path[..|path| - 1][k..] && added[|added| - 1] == path[|path| - 1];
  }

  ghost predicate NewlyCanonicalFrom(before: Option<BlockHeader>, h: BlockHeader, added: seq<BlockHeader>, k: nat) {
    && k <= |Path(h)|
    && added == Path(h)[k..]
    && (forall n | 0 <= n < k :: before.Some? && Path(h)[n] in Path(before.value))
    && (forall n | k <= n < |Path(h)| :: before.None? || Path(h)[n] !in Path(before.value))
  }

  /** The headers that are on the new head's path and were not on the old one's, ascending. */
  ghost predicate NewlyCanonical(before: Option<BlockHeader>, h: BlockHeader, added: seq<BlockHeader>) {
    exists k: nat :: NewlyCanonicalFrom(before, h, added, k)
  }

  lemma {:induction false} OnPath(head: BlockHeader, h: BlockHeader)
    requires Numbered(head) && Numbered(h)
    ensures h in Path(head) <==> h.number < |Path(head)| && Path(head)[h.number] == h
  {
    PathNumbers(head);
  }

  lemma {:induction false} SharedUpTo(t: Tables, h: BlockHeader, k: nat)
    requires Consistent(t) && AllNumbered(t) && Exact(t) && t.head.Some? && Numbered(h)
    requires BranchesAt(t.canonical, Path(h), k)
    ensures forall n | 0 <= n < |Path(h)| :: Path(h)[n] in Path(t.head.value) <==> n < k
  {
    PathNumbers(h);
    PathNumbers(t.head.value);
    forall n | 0 <= n < |Path(h)|
      ensures Path(h)[n] in Path(t.head.value) <==> n < k
    {
      OnPath(t.head.value, Path(h)[n]);
    }
  }

  /** The returned headers are exactly the newly canonical ones, in ascending order. */
  lemma {:induction false} TakeOverReturns(t: Tables, h: BlockHeader)
    requires Consistent(t) && AllNumbered(t) && Exact(t) && Numbered(h)
    ensures NewlyCanonical(t.head, h, NewHeaders(t.canonical, h))
  {
    ExactIsPrefixClosed(t);
    var path := Path(h);
    var k := WalkStopsAtBranch(t.canonical, h);
    if t.head.None? {
      assert k > 0 ==> 0 in t.canonical;
    } else {
      SharedUpTo(t, h, k);
    }
    assert NewlyCanonicalFrom(t.head, h, NewHeaders(t.canonical, h), k);
  }

  /** Entry `n` of the index after a take-over. */
  ghost predicate TakenOver(t: Tables, h: BlockHeader, r: map<nat, BlockHeader>, n: nat) {
    if n < |Path(h)| then n in r && r[n] == Path(h)[n]
    else
      && (n in r <==> t.head.Some? && n <= t.head.value.number)
      && (n in r ==> n in t.canonical && r[n] == t.canonical[n])
  }

  /** Up to the new head's number the index is its path; above that it is what it was. */
  lemma {:induction false} TakeOverEntries(t: Tables, h: BlockHeader)
    requires Consistent(t) && AllNumbered(t) && Exact(t) && Numbered(h)
    ensures forall n: nat :: TakenOver(t, h, Indexed(t.canonical, NewHeaders(t.canonical, h)), n)
  {
    forall n: nat
      ensures TakenOver(t, h, Indexed(t.canonical, NewHeaders(t.canonical, h)), n)
    {
      TakeOverEntry(t, h, n);
    }
  }

  lemma {:induction false} TakeOverEntry(t: Tables, h: BlockHeader, n: nat)
    requires Consistent(t) && AllNumbered(t) && Exact(t) && Numbered(h)
    ensures TakenOver(t, h, Indexed(t.canonical, NewHeaders(t.canonical, h)), n)
  {
    ExactIsPrefixClosed(t);
    var k := WalkStopsAtBranch(t.canonical, h);
    PathNumbers(h);
    IndexedAt(t.canonical, Path(h), k, n);
    if t.head.Some? {
      PathNumbers(t.head.value);
    }
  }

  /** Once the head takes over, entries above it are never removed. */
  lemma {:induction false} TakeOverExact(t: Tables, h: BlockHeader)
    requires Consistent(t) && AllNumbered(t) && Exact(t) && Numbered(h) && KnownParent(t, h)
    ensures Exact(SetHead(Stored(t, h), h).tables) <==> (t.head.Some? ==> h.number >= t.head.value.number)
  {
    TakeOverEntries(t, h);
    PathNumbers(h);
    ExactFromEntries(t, h, SetHead(Stored(t, h), h).tables);
  }

  lemma {:induction false} ExactFromEntries(t: Tables, h: BlockHeader, r: Tables)
    requires r.head == Some(h) && |Path(h)| == h.number + 1
    requires forall n: nat :: TakenOver(t, h, r.canonical, n)
    ensures Exact(r) <==> (t.head.Some? ==> h.number >= t.head.value.number)
  {
    if t.head.Some? && h.number < t.head.value.number {
      assert TakenOver(t, h, r.canonical, t.head.value.number);
    } else {
      forall n: nat
        ensures (n in r.canonical <==> n < |Path(h)|) && (n < |Path(h)| ==> r.canonical[n] == Path(h)[n])
      {
        assert TakenOver(t, h, r.canonical, n);
      }
    }
  }

  ghost predicate HeadFalls(before: Tables, after: Tables) {
    before.head.Some? && after.head.Some? && after.head.value.number < before.head.value.number
  }

  lemma NextTables(t: Tables, h: BlockHeader)
    requires Consistent(t)
    ensures
      var r := Next(t, h);
      if KnownParent(t, h) && TakesOver(t, h) then
        && r.headers == t.headers + {h} && r.head == Some(h)
        && r.canonical == SetHead(Stored(t, h), h).tables.canonical
      else
        && r.headers == t.headers + (if KnownParent(t, h) then {h} else {})
        && r.head == t.head && r.canonical == t.canonical
  {
  }

  lemma {:induction false} NextIndex(t: Tables, h: BlockHeader)
    requires Consistent(t) && AllNumbered(t) && Exact(t) && Numbered(h)
    ensures AllNumbered(Next(t, h))
    ensures Exact(Next(t, h)) <==> !HeadFalls(t, Next(t, h))
  {
    NextTables(t, h);
    if KnownParent(t, h) && TakesOver(t, h) {
      TakeOverExact(t, h);
      SameIndex(SetHead(Stored(t, h), h).tables, Next(t, h));
    } else {
      SameIndex(t, Next(t, h));
    }
  }

  lemma SameIndex(a: Tables, b: Tables)
    requires a.head == b.head && a.canonical == b.canonical
    ensures Exact(a) <==> Exact(b)
  {
  }

  ghost predicate BlocksNumbered(blocks: seq<BlockHeader>) {
    forall k | 0 <= k < |blocks| :: Numbered(blocks[k])
  }

  ghost predicate ExactThroughout(blocks: seq<BlockHeader>) {
    forall k | 0 <= k <= |blocks| :: Exact(Run(blocks[..k]))
  }

  ghost predicate NeverFalls(blocks: seq<BlockHeader>) {
    forall k | 0 <= k < |blocks| :: !FallsAt(blocks, k)
  }

  lemma RunNext(blocks: seq<BlockHeader>, k: nat)
    requires k < |blocks|
    ensures Run(blocks[..k + 1]) == Next(Run(blocks[..k]), blocks[k])
  {
    assert blocks[..k + 1][..k] == blocks[..k];
  }

  lemma ExactNext(blocks: seq<BlockHeader>, k: nat)
    requires BlocksNumbered(blocks) && k < |blocks|
    requires Exact(Run(blocks[..k])) && AllNumbered(Run(blocks[..k]))
    ensures AllNumbered(Run(blocks[..k + 1]))
    ensures Exact(Run(blocks[..k + 1])) <==> !FallsAt(blocks, k)
  {
    RunNext(blocks, k);
    NextIndex(Run(blocks[..k]), blocks[k]);
  }

  lemma {:induction false} ExactUpTo(blocks: seq<BlockHeader>, k: nat)
    requires BlocksNumbered(blocks) && k <= |blocks|
    requires forall j | 0 <= j < k :: !FallsAt(blocks, j)
    ensures Exact(Run(blocks[..k])) && AllNumbered(Run(blocks[..k]))
  {
    if k > 0 {
      ExactUpTo(blocks, k - 1);
      ExactNext(blocks, k - 1);
    }
  }

  /** The first fall leaves entries above the new head. */
  lemma {:induction false} FallBreaksIndex(blocks: seq<BlockHeader>, k: nat)
    requires BlocksNumbered(blocks) && k < |blocks| && FallsAt(blocks, k)
    ensures !ExactThroughout(blocks)
  {
    if j: nat :| j < k && FallsAt(blocks, j) {
      FallBreaksIndex(blocks, j);
    } else {
      ExactUpTo(blocks, k);
      ExactNext(blocks, k);
    }
  }

  /**
   * Over every run of consecutively numbered blocks: the index is the head's ancestry all the
   * time if and only if the number of the head never falls.
   */
  lemma IndexExactIffHeadNeverFalls(blocks: seq<BlockHeader>)
    requires BlocksNumbered(blocks)
    ensures ExactThroughout(blocks) <==> NeverFalls(blocks)
  {
    if NeverFalls(blocks) {
      forall k | 0 <= k <= |blocks|
        ensures Exact(Run(blocks[..k]))
      {
        ExactUpTo(blocks, k);
      }
    } else {
      var some :| 0 <= some < |blocks| && FallsAt(blocks, some);
      FallBreaksIndex(blocks, some);
    }
  }

  ghost predicate FallsAt(blocks: seq<BlockHeader>, k: nat)
    requires k < |blocks|
  {
    HeadFalls(Run(blocks[..k]), Run(blocks[..k + 1]))
  }

  /** What persisting block `k` of a run returns. */
  ghost predicate ReturnsNew(t: Tables, h: BlockHeader, p: Persisted)
    requires Consistent(t) && KnownParent(t, h)
  {
    if TakesOver(t, h) then p.tables.head == Some(h) && NewlyCanonical(t.head, h, p.added)
    else p.tables.head == t.head && p.added == []
  }

  /**
   * Along every such run, the headers that a call returns are exactly those it made canonical,
   * in ascending order; none when the head stays.
   */
  lemma PersistReturns(blocks: seq<BlockHeader>, k: nat)
    requires BlocksNumbered(blocks) && k < |blocks|
    requires forall j | 0 <= j < k :: !FallsAt(blocks, j)
    ensures
      var t := Run(blocks[..k]);
      KnownParent(t, blocks[k]) ==> ReturnsNew(t, blocks[k], PersistBlock(t, blocks[k]).value)
  {
    ExactUpTo(blocks, k);
    TakeOverReturns(Run(blocks[..k]), blocks[k]);
  }

  // --- What goes wrong when the head falls ---

  /** A heavier block whose parent is indexed only adds itself to the index. */
  lemma {:induction false} AddsOneEntry(t: Tables, h: BlockHeader)
    requires Consistent(t) && KnownParent(t, h) && !IsCanonical(t.canonical, h)
    requires t.head.Some? ==> TotalDifficulty(h) > TotalDifficulty(t.head.value)
    requires h.Child? ==> IsCanonical(t.canonical, h.parent)
    ensures
      var r := Next(t, h);
      r.headers == t.headers + {h} && r.head == Some(h) && r.canonical == t.canonical[h.number := h]
  {
    NextTables(t, h);
    assert NewHeaders(t.canonical, h) == [h];
    assert Indexed(t.canonical, [h]) == t.canonical[h.number := h];
  }

  /** A heavier but lower block `b` leaves the entry of the old head behind. */
  lemma {:induction false} FallLeavesStaleEntry(t: Tables, b: BlockHeader)
    requires Consistent(t) && AllNumbered(t) && Exact(t) && t.head.Some?
    requires Numbered(b) && KnownParent(t, b) && b.number < t.head.value.number
    requires TotalDifficulty(b) > TotalDifficulty(t.head.value)
    ensures
      var r := Next(t, b);
      && r.head == Some(b) && IsCanonical(r.canonical, b) && IsCanonical(r.canonical, t.head.value)
  {
    NextTables(t, b);
    TakeOverEntry(t, b, b.number);
    TakeOverEntry(t, b, t.head.value.number);
    PathNumbers(b);
    PathNumbers(t.head.value);
  }

  /**
   * The walk then stops on the stale entry: when a block on top of the old head wins again, the
   * index names, below the new head, a block that is not one of its ancestors. This happens in
   * every database in which the head falls and then returns.
   */
  lemma {:induction false} StaleEntryMisleadsWalk(t: Tables, b: BlockHeader, h: BlockHeader)
    requires Consistent(t) && AllNumbered(t) && Exact(t) && t.head.Some?
    requires Numbered(b) && KnownParent(t, b) && b.number < t.head.value.number
    requires TotalDifficulty(b) > TotalDifficulty(t.head.value)
    requires h.Child? && h.parent == t.head.value && h.number == h.parent.number + 1
    requires TotalDifficulty(h) > TotalDifficulty(b)
    ensures
      var r := Next(Next(t, b), h);
      && r.head == Some(h) && Numbered(h) && b.number < |Path(h)|
      && b.number in r.canonical && r.canonical[b.number] == b && b !in Path(h)
  {
    FallLeavesStaleEntry(t, b);
    NextTables(t, b);
    NotAbove(t, b, h);
    StaleEntryStays(Next(t, b), b, h);
    LighterPath(t.head.value, b);
  }

  /** A block on top of an indexed one leaves the entries of lower numbers as they are. */
  lemma {:induction false} StaleEntryStays(t: Tables, b: BlockHeader, h: BlockHeader)
    requires Consistent(t) && t.head == Some(b) && IsCanonical(t.canonical, b)
    requires TotalDifficulty(h) > TotalDifficulty(b)
    requires Numbered(h) && h.Child? && h.parent in t.headers && b.number < h.number
    requires IsCanonical(t.canonical, h.parent) && !IsCanonical(t.canonical, h)
    ensures
      var r := Next(t, h);
      r.head == Some(h) && b.number < |Path(h)| && IsCanonical(r.canonical, b)
  {
    AddsOneEntry(t, h);
    PathNumbers(h);
  }

  lemma {:induction false} NotAbove(t: Tables, b: BlockHeader, h: BlockHeader)
    requires Consistent(t) && AllNumbered(t) && Exact(t) && t.head.Some?
    requires Numbered(b) && Numbered(h) && b.number < t.head.value.number < h.number
    ensures !IsCanonical(Indexed(t.canonical, NewHeaders(t.canonical, b)), h)
  {
    TakeOverEntry(t, b, h.number);
    PathNumbers(b);
  }

  /** No ancestor is heavier than the header itself. */
  lemma {:induction false} LighterPath(h: BlockHeader, b: BlockHeader)
    requires TotalDifficulty(b) > TotalDifficulty(h)
    ensures b !in Path(h)
  {
    match h
    case Genesis(_, _, _, _) =>
    case Child(parent, _, _, _, _) => LighterPath(parent, b);
  }

  // --- Such a run ---

  /** `h` sits on `parent`, with the next number and some difficulty. */
  ghost predicate On(h: BlockHeader, parent: BlockHeader) {
    h.Child? && h.parent == parent && h.number == parent.number + 1 && h.difficulty > 0
  }

  /** Up to block `k` the run is one chain, which the index names. */
  ghost predicate Straight(blocks: seq<BlockHeader>, k: nat)
    requires k < |blocks|
  {
    && Exact(Run(blocks[..k + 1])) && AllNumbered(Run(blocks[..k + 1]))
    && Run(blocks[..k + 1]).head == Some(blocks[k])
  }

  lemma StraightFirst(blocks: seq<BlockHeader>)
    requires blocks != [] && blocks[0].Genesis? && blocks[0].number == 0
    ensures Straight(blocks, 0)
  {
    RunNext(blocks, 0);
    NextTables(EMPTY_TABLES, blocks[0]);
    NextIndex(EMPTY_TABLES, blocks[0]);
  }

  lemma StraightOn(blocks: seq<BlockHeader>, k: nat)
    requires k + 1 < |blocks| && Straight(blocks, k) && On(blocks[k + 1], blocks[k])
    ensures Straight(blocks, k + 1)
  {
    RunNext(blocks, k + 1);
    NextTables(Run(blocks[..k + 1]), blocks[k + 1]);
    NextIndex(Run(blocks[..k + 1]), blocks[k + 1]);
  }

  /** Two light blocks, a heavy sibling of the first, then the light branch wins again. */
  ghost predicate ForthAndBack(blocks: seq<BlockHeader>) {
    && |blocks| == 5
    && blocks[0].Genesis? && blocks[0].number == 0
    && On(blocks[1], blocks[0]) && On(blocks[2], blocks[1])
    && On(blocks[3], blocks[0]) && On(blocks[4], blocks[2])
    && TotalDifficulty(blocks[2]) < TotalDifficulty(blocks[3]) < TotalDifficulty(blocks[4])
  }

  lemma LightBranch(blocks: seq<BlockHeader>)
    requires ForthAndBack(blocks)
    ensures Straight(blocks, 2)
  {
    StraightFirst(blocks);
    StraightOn(blocks, 0);
    StraightOn(blocks, 1);
  }

  lemma GenesisStored(t: Tables, second: BlockHeader)
    requires Consistent(t) && t.head == Some(second) && second.Child? && second.parent.Child?
    ensures second.parent.parent in t.headers
  {
    assert second.parent in t.headers;
  }

  /** The head falls from number 2 to number 1. */
  lemma HeavyWins(blocks: seq<BlockHeader>)
    requires ForthAndBack(blocks) && Straight(blocks, 2)
    ensures FallsAt(blocks, 3)
  {
    RunNext(blocks, 3);
    GenesisStored(Run(blocks[..3]), blocks[2]);
    FallLeavesStaleEntry(Run(blocks[..3]), blocks[3]);
  }

  /** In the end the index names a block that is no ancestor of the head. */
  lemma {:induction false} LightReturns(blocks: seq<BlockHeader>)
    requires ForthAndBack(blocks) && Straight(blocks, 2)
    ensures Run(blocks).head == Some(blocks[4])
    ensures IsCanonical(Run(blocks).canonical, blocks[3]) && blocks[3] !in Path(blocks[4])
  {
    LastTwo(blocks);
    GenesisStored(Run(blocks[..3]), blocks[2]);
    StaleEntryMisleadsWalk(Run(blocks[..3]), blocks[3], blocks[4]);
  }

  lemma {:induction false} LastTwo(blocks: seq<BlockHeader>)
    requires |blocks| == 5
    ensures Run(blocks) == Next(Next(Run(blocks[..3]), blocks[3]), blocks[4])
  {
    RunNext(blocks, 3);
    RunNext(blocks, 4);
    assert blocks[..5] == blocks;
  }

  lemma {:induction false} ForthAndBackFalls(blocks: seq<BlockHeader>)
    requires ForthAndBack(blocks) && BlocksNumbered(blocks)
    ensures FallsAt(blocks, 3) && !ExactThroughout(blocks)
    ensures Run(blocks).head == Some(blocks[4])
    ensures IsCanonical(Run(blocks).canonical, blocks[3]) && blocks[3] !in Path(blocks[4])
  {
    LightBranch(blocks);
    HeavyWins(blocks);
    FallBreaksIndex(blocks, 3);
    LightReturns(blocks);
  }

  /** Five headers for which this happens. */
  lemma FallingRun() returns (blocks: seq<BlockHeader>)
    ensures
      var genesis := Genesis(0, 1, [], 0);
      var first := Child(genesis, 1, 1, [], 0);
      var second := Child(first, 2, 1, [7], 0);
      blocks == [genesis, first, second, Child(genesis, 1, 9, [], 0), Child(second, 3, 90, [], 0)]
    ensures BlocksNumbered(blocks) && FallsAt(blocks, 3) && !ExactThroughout(blocks)
    ensures Run(blocks).head == Some(blocks[4])
    ensures IsCanonical(Run(blocks).canonical, blocks[3]) && blocks[3] !in Path(blocks[4])
  {
    var genesis := Genesis(0, 1, [], 0);
    var first := Child(genesis, 1, 1, [], 0);
    var second := Child(first, 2, 1, [7], 0);
    blocks := [genesis, first, second, Child(genesis, 1, 9, [], 0), Child(second, 3, 90, [], 0)];
    ForthAndBackFalls(blocks);
  }
}
