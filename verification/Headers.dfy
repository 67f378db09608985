/** Headers, their ancestry, and what one persist_header does to the tables, as values. */
module Headers {
  import opened Prelude

  type TxHash = nat

  /**
   * A header, together with the transactions its root commits to. The hash of a header stands
   * for the header itself, so the parent hash is the parent; `Genesis` is a header whose parent
   * hash is zero. `extra` stands for all fields that no rule here looks at.
   */
  datatype BlockHeader =
    | Genesis(number: nat, difficulty: nat, txs: seq<TxHash>, extra: nat)
    | Child(parent: BlockHeader, number: nat, difficulty: nat, txs: seq<TxHash>, extra: nat)

  /** The sum of the difficulties along the ancestry. */
  function TotalDifficulty(h: BlockHeader): nat {
    match h
    case Genesis(_, difficulty, _, _) => difficulty
    case Child(parent, _, difficulty, _, _) => TotalDifficulty(parent) + difficulty
  }

  /** The ancestry in ascending order, from a genesis header to the header itself. */
  function Path(h: BlockHeader): (r: seq<BlockHeader>)
    ensures |r| > 0 && r[|r| - 1] == h
  {
    match h
    case Genesis(_, _, _, _) => [h]
    case Child(parent, _, _, _, _) => Path(parent) + [h]
  }

  /** Every number is the parent's plus one, from zero at genesis. */
  predicate Numbered(h: BlockHeader) {
    match h
    case Genesis(number, _, _, _) => number == 0
    case Child(parent, number, _, _, _) => number == parent.number + 1 && Numbered(parent)
  }

  lemma {:induction false} PathNumbers(h: BlockHeader)
    requires Numbered(h)
    ensures |Path(h)| == h.number + 1
    ensures forall n | 0 <= n < |Path(h)| :: Path(h)[n].number == n && Numbered(Path(h)[n])
  {
    match h
    case Genesis(_, _, _, _) =>
    case Child(parent, _, _, _, _) => PathNumbers(parent);
  }

  /** The path of a header on the path is the path up to it. */
  lemma {:induction false} PathPrefix(h: BlockHeader, n: nat)
    requires n < |Path(h)|
    ensures Path(Path(h)[n]) == Path(h)[..n + 1]
  {
    match h
    case Genesis(_, _, _, _) =>
    case Child(parent, _, _, _, _) =>
      if n < |Path(parent)| {
        PathPrefix(parent, n);
      } else {
        assert Path(h)[..n + 1] == Path(h);
      }
  }

  /** Where a transaction sits: block number and position in the block. */
  datatype Position = Position(number: nat, index: nat)

  datatype Tables = Tables(
    headers: set<BlockHeader>,
    scores: map<BlockHeader, nat>,
    canonical: map<nat, BlockHeader>,
    head: Option<BlockHeader>,
    lookup: map<TxHash, Position>)

  const EMPTY_TABLES: Tables := Tables({}, map[], map[], None, map[])

  predicate IsCanonical(canonical: map<nat, BlockHeader>, h: BlockHeader) {
    h.number in canonical && canonical[h.number] == h
  }

  /** The header and its ancestors, in ascending order, down to one the index already names. */
  function NewHeaders(canonical: map<nat, BlockHeader>, h: BlockHeader): seq<BlockHeader> {
    if IsCanonical(canonical, h) then []
    else
      match h
      case Genesis(_, _, _, _) => [h]
      case Child(parent, _, _, _, _) => NewHeaders(canonical, parent) + [h]
  }

  function Indexed(canonical: map<nat, BlockHeader>, added: seq<BlockHeader>): map<nat, BlockHeader> {
    if added == [] then canonical
    else
      var last := added[|added| - 1];
      Indexed(canonical, added[..|added| - 1])[last.number := last]
  }

  function TxSet(h: BlockHeader): set<TxHash> {
    set k | 0 <= k < |h.txs| :: h.txs[k]
  }

  /** Drops the lookups of the blocks that are replaced, up to the first number without one. */
  function Unlinked(lookup: map<TxHash, Position>, canonical: map<nat, BlockHeader>, added: seq<BlockHeader>)
    : map<TxHash, Position>
  {
    if added == [] || added[0].number !in canonical then lookup
    else Unlinked(lookup - TxSet(canonical[added[0].number]), canonical, added[1..])
  }

  function LinkedUpTo(lookup: map<TxHash, Position>, h: BlockHeader, n: nat): map<TxHash, Position>
    requires n <= |h.txs|
  {
    if n == 0 then lookup
    else LinkedUpTo(lookup, h, n - 1)[h.txs[n - 1] := Position(h.number, n - 1)]
  }

  function Linked(lookup: map<TxHash, Position>, added: seq<BlockHeader>): map<TxHash, Position> {
    if added == [] then lookup
    else
      var last := added[|added| - 1];
      LinkedUpTo(Linked(lookup, added[..|added| - 1]), last, |last.txs|)
  }

  /**
   * What every reachable database satisfies: ancestors are stored, every score is the total
   * difficulty, and there is a head as soon as there is a header.
   */
  ghost predicate Consistent(t: Tables) {
    && (forall h | h in t.headers :: h.Child? ==> h.parent in t.headers)
    && t.scores.Keys == t.headers
    && (forall h | h in t.headers :: t.scores[h] == TotalDifficulty(h))
    && (forall n | n in t.canonical :: t.canonical[n] in t.headers)
    && (t.head.None? <==> t.headers == {})
    && (t.head.Some? ==> t.head.value in t.headers)
  }

  /** The tables after a header was accepted, and the headers that became canonical. */
  datatype Persisted = Persisted(tables: Tables, added: seq<BlockHeader>)

  function SetHead(t: Tables, h: BlockHeader): Persisted {
    var added := NewHeaders(t.canonical, h);
    Persisted(t.(canonical := Indexed(t.canonical, added),
                 head := Some(h),
                 lookup := Unlinked(t.lookup, t.canonical, added)),
              added)
  }

  predicate KnownParent(t: Tables, h: BlockHeader) {
    h.Child? ==> h.parent in t.headers
  }

  function ScoreOf(t: Tables, h: BlockHeader): nat
    requires Consistent(t) && KnownParent(t, h)
  {
    if h.Genesis? then h.difficulty else t.scores[h.parent] + h.difficulty
  }

  function Stored(t: Tables, h: BlockHeader): Tables
    requires Consistent(t) && KnownParent(t, h)
  {
    t.(headers := t.headers + {h}, scores := t.scores[h := ScoreOf(t, h)])
  }

  predicate TakesOver(t: Tables, h: BlockHeader)
    requires Consistent(t) && KnownParent(t, h)
  {
    t.head.None? || ScoreOf(t, h) > t.scores[t.head.value]
  }

  /** persist_header: None when the parent is unknown. */
  function PersistHeader(t: Tables, h: BlockHeader): (r: Option<Persisted>)
    requires Consistent(t)
    ensures r.Some? <==> KnownParent(t, h)
    ensures r.Some? ==> Consistent(r.value.tables)
  {
    if !KnownParent(t, h) then None
    else if TakesOver(t, h) then
      var r := SetHead(Stored(t, h), h);
      SetHeadConsistent(t, h);
      Some(r)
    else
      Some(Persisted(Stored(t, h), []))
  }

  /** The headers that become canonical are stored ones. */
  lemma {:induction false} NewHeadersStored(t: Tables, h: BlockHeader, extra: BlockHeader)
    requires Consistent(t) && KnownParent(t, extra)
    requires h == extra || h in t.headers
    ensures forall n | 0 <= n < |NewHeaders(t.canonical, h)| ::
              NewHeaders(t.canonical, h)[n] == extra || NewHeaders(t.canonical, h)[n] in t.headers
  {
    if !IsCanonical(t.canonical, h) && h.Child? {
      NewHeadersStored(t, h.parent, extra);
    }
  }

  lemma {:induction false} IndexedValues(canonical: map<nat, BlockHeader>, added: seq<BlockHeader>, n: nat)
    requires n in Indexed(canonical, added)
    ensures Indexed(canonical, added)[n] in added || (n in canonical && Indexed(canonical, added)[n] == canonical[n])
    decreases |added|
  {
    if added != [] && n != added[|added| - 1].number {
      IndexedValues(canonical, added[..|added| - 1], n);
    }
  }

  lemma SetHeadConsistent(t: Tables, h: BlockHeader)
    requires Consistent(t) && KnownParent(t, h)
    ensures Consistent(SetHead(Stored(t, h), h).tables)
  {
    var r := SetHead(Stored(t, h), h);
    NewHeadersStored(t, h, h);
    forall n | n in r.tables.canonical
      ensures r.tables.canonical[n] in r.tables.headers
    {
      IndexedValues(t.canonical, r.added, n);
    }
  }

  /** persist_block: the header, then the lookups of every block that became canonical. */
  function PersistBlock(t: Tables, h: BlockHeader): (r: Option<Persisted>)
    requires Consistent(t)
    ensures r.Some? <==> KnownParent(t, h)
    ensures r.Some? ==> Consistent(r.value.tables)
  {
    match PersistHeader(t, h)
    case None => None
    case Some(p) => Some(p.(tables := p.tables.(lookup := Linked(p.tables.lookup, p.added))))
  }
}
