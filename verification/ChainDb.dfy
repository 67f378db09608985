/** The chain database as the program updates it, proved against the table functions. */
module ChainDb {
  import opened Prelude
  import opened Headers

  class ChainDB {
    var headers: set<BlockHeader>
    var scores: map<BlockHeader, nat>
    var canonical: map<nat, BlockHeader>
    var head: Option<BlockHeader>
    var lookup: map<TxHash, Position>

    constructor ()
      ensures Value() == EMPTY_TABLES && Valid()
    {
      headers, scores, canonical, head, lookup := {}, map[], map[], None, map[];
    }

    ghost function Value(): Tables
      reads this
    {
      Tables(headers, scores, canonical, head, lookup)
    }

    ghost predicate Valid()
      reads this
    {
      Consistent(Value())
    }

    /** Walks from the header to its ancestors until one is already canonical; descending. */
    method FindNewAncestors(header: BlockHeader) returns (found: seq<BlockHeader>)
      ensures Reversed(found) == NewHeaders(canonical, header)
    {
      found := [];
      var h := header;
      while !(h.number in canonical && canonical[h.number] == h)
        invariant NewHeaders(canonical, header) == NewHeaders(canonical, h) + Reversed(found)
        decreases h
      {
        ReversedAppend(found, h);
        found := found + [h];
        if h.Genesis? {
          return;
        }
        h := h.parent;
      }
    }

    /** Forgets the transactions of blocks that are replaced; stops at the first free number. */
    method RemoveReplaced(added: seq<BlockHeader>)
      modifies this`lookup
      ensures lookup == Unlinked(old(lookup), canonical, added)
    {
      var n := 0;
      assert added[0..] == added;
      while n < |added|
        invariant n <= |added|
        invariant Unlinked(old(lookup), canonical, added) == Unlinked(lookup, canonical, added[n..])
      {
        if added[n].number !in canonical {
          break;
        }
        var replaced := canonical[added[n].number];
        assert added[n..][1..] == added[n + 1..];
        RemoveTransactions(replaced);
        n := n + 1;
      }
    }

    method RemoveTransactions(h: BlockHeader)
      modifies this`lookup
      ensures lookup == old(lookup) - TxSet(h)
    {
      ghost var gone: set<TxHash> := {};
      for k := 0 to |h.txs|
        invariant gone == set j | 0 <= j < k :: h.txs[j]
        invariant lookup == old(lookup) - gone
      {
        lookup := lookup - {h.txs[k]};
        gone := gone + {h.txs[k]};
      }
    }

    method AddToIndex(added: seq<BlockHeader>)
      modifies this`canonical
      ensures canonical == Indexed(old(canonical), added)
    {
      for n := 0 to |added|
        invariant canonical == Indexed(old(canonical), added[..n])
      {
        assert added[..n + 1][..n] == added[..n];
        canonical := canonical[added[n].number := added[n]];
      }
      assert added[..|added|] == added;
    }

    method SetAsCanonicalChainHead(header: BlockHeader) returns (added: seq<BlockHeader>)
      modifies this`canonical, this`head, this`lookup
      ensures Persisted(Value(), added) == SetHead(old(Value()), header)
    {
      var found := FindNewAncestors(header);
      added := Reversed(found);
      RemoveReplaced(added);
      AddToIndex(added);
      head := Some(header);
    }

    /** None is the ParentNotFound exception; nothing changes then. */
    method PersistHeader(header: BlockHeader) returns (r: Option<seq<BlockHeader>>)
      requires Valid()
      modifies this
      ensures Valid()
      ensures match Headers.PersistHeader(old(Value()), header)
              case None => r.None? && Value() == old(Value())
              case Some(p) => r == Some(p.added) && Value() == p.tables
    {
      if header.Child? && header.parent !in headers {
        return None;
      }
      ghost var before := Value();
      var score := if header.Genesis? then header.difficulty else scores[header.parent] + header.difficulty;
      headers := headers + {header};
      scores := scores[header := score];
      assert Value() == Stored(before, header);
      assert head.Some? ==> scores[head.value] == before.scores[head.value];
      if head.None? || score > scores[head.value] {
        var added := SetAsCanonicalChainHead(header);
        r := Some(added);
      } else {
        r := Some([]);
      }
      assert Value() == Headers.PersistHeader(before, header).value.tables;
    }

    method AddTransactions(h: BlockHeader)
      modifies this`lookup
      ensures lookup == LinkedUpTo(old(lookup), h, |h.txs|)
    {
      for k := 0 to |h.txs|
        invariant lookup == LinkedUpTo(old(lookup), h, k)
      {
        lookup := lookup[h.txs[k] := Position(h.number, k)];
      }
    }

    method PersistBlock(header: BlockHeader) returns (r: Option<seq<BlockHeader>>)
      requires Valid()
      modifies this
      ensures Valid()
      ensures match Headers.PersistBlock(old(Value()), header)
              case None => r.None? && Value() == old(Value())
              case Some(p) => r == Some(p.added) && Value() == p.tables
    {
      r := PersistHeader(header);
      if r.None? {
        return;
      }
      var added := r.value;
      ghost var t := Value();
      for n := 0 to |added|
        invariant lookup == Linked(t.lookup, added[..n])
        invariant Value() == t.(lookup := lookup)
      {
        assert added[..n + 1][..n] == added[..n];
        AddTransactions(added[n]);
      }
      assert added[..|added|] == added;
    }
  }

  function Reversed<T>(s: seq<T>): seq<T> {
    if s == [] then [] else [s[|s| - 1]] + Reversed(s[..|s| - 1])
  }

  lemma {:induction false} ReversedAppend<T>(s: seq<T>, x: T)
    ensures Reversed(s + [x]) == [x] + Reversed(s)
  {
    assert (s + [x])[..|s|] == s;
  }
}
