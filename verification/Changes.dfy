/** Sets of tracked changes to a key/value store, and writing them through. */
module Changes {
  import opened Prelude

  /** A tracked change: a new value, or the mark of a deleted key. */
  datatype Change<+V> = Deleted | Put(value: V)

  /** The map that remains after writing the changes through to `base`. */
  function Overlay<K, V>(base: map<K, V>, changes: map<K, Change<V>>): map<K, V> {
    map k | k in base.Keys + changes.Keys && (k in changes ==> changes[k].Put?)
      :: if k in changes then changes[k].value else base[k]
  }

  lemma OverlayTwice<K, V>(base: map<K, V>, first: map<K, Change<V>>, second: map<K, Change<V>>)
    ensures Overlay(Overlay(base, first), second) == Overlay(base, first + second)
  {
  }

  lemma OverlayNothing<K, V>(base: map<K, V>)
    ensures Overlay(base, map[]) == base
  {
  }

  lemma OverlayPut<K, V>(base: map<K, V>, changes: map<K, Change<V>>, key: K, value: V)
    ensures Overlay(base, changes[key := Put(value)]) == Overlay(base, changes)[key := value]
  {
  }

  lemma OverlayDelete<K, V>(base: map<K, V>, changes: map<K, Change<V>>, key: K)
    ensures Overlay(base, changes[key := Deleted]) == Overlay(base, changes) - {key}
  {
  }

  function Lookup<K, V>(m: map<K, V>, key: K): Option<V> {
    if key in m then Some(m[key]) else None
  }

  /** Writes values through but leaves out pending deletions. */
  function OverlayPuts<K, V>(base: map<K, V>, changes: map<K, Change<V>>): map<K, V> {
    map k | k in base.Keys + changes.Keys && (k in base || changes[k].Put?)
      :: if k in changes && changes[k].Put? then changes[k].value else base[k]
  }

  // --- DBDiff ---

  /** apply_to: the changes one by one, in any order, deletions only if asked for. */
  method ApplyTo<K, V>(changes: map<K, Change<V>>, db: map<K, V>, applyDeletes: bool) returns (r: map<K, V>)
    ensures r == if applyDeletes then Overlay(db, changes) else OverlayPuts(db, changes)
  {
    r := db;
    var pending := changes.Keys;
    while pending != {}
      invariant pending <= changes.Keys
      invariant forall k :: k in pending ==> Lookup(r, k) == Lookup(db, k)
      invariant forall k :: k !in pending ==>
        Lookup(r, k) == Lookup(if applyDeletes then Overlay(db, changes) else OverlayPuts(db, changes), k)
      decreases pending
    {
      var key :| key in pending;
      match changes[key] {
        case Deleted =>
          if applyDeletes {
            r := r - {key};
          }
        case Put(value) => r := r[key := value];
      }
      pending := pending - {key};
    }
    var expected := if applyDeletes then Overlay(db, changes) else OverlayPuts(db, changes);
    assert forall k :: Lookup(r, k) == Lookup(expected, k);
    SameLookups(r, expected);
  }

  lemma SameLookups<K, V>(a: map<K, V>, b: map<K, V>)
    requires forall k :: Lookup(a, k) == Lookup(b, k)
    ensures a == b
  {
    assert forall k :: k in a <==> Lookup(a, k).Some?;
    assert forall k :: k in b <==> Lookup(b, k).Some?;
    assert a.Keys == b.Keys;
    forall k | k in a
      ensures a[k] == b[k]
    {
      assert Lookup(a, k) == Lookup(b, k);
    }
  }

  function Joined<K, V>(diffs: seq<map<K, Change<V>>>): map<K, Change<V>> {
    if diffs == [] then map[] else Joined(diffs[..|diffs| - 1]) + diffs[|diffs| - 1]
  }

  function ApplyInOrder<K, V>(db: map<K, V>, diffs: seq<map<K, Change<V>>>): map<K, V> {
    if diffs == [] then db else Overlay(ApplyInOrder(db, diffs[..|diffs| - 1]), diffs[|diffs| - 1])
  }

  /** join: every diff is applied to one tracker, which records deletions as changes. */
  method Join<K, V>(diffs: seq<map<K, Change<V>>>) returns (r: map<K, Change<V>>)
    ensures r == Joined(diffs)
    ensures forall db: map<K, V> :: Overlay(db, r) == ApplyInOrder(db, diffs)
  {
    r := map[];
    for n := 0 to |diffs|
      invariant r == Joined(diffs[..n])
    {
      assert diffs[..n + 1][..n] == diffs[..n];
      r := r + diffs[n];
    }
    assert diffs[..|diffs|] == diffs;
    forall db: map<K, V>
      ensures Overlay(db, r) == ApplyInOrder(db, diffs)
    {
      JoinApplies(db, diffs);
    }
  }

  /** Applying a join is applying the diffs in order. */
  lemma {:induction false} JoinApplies<K, V>(db: map<K, V>, diffs: seq<map<K, Change<V>>>)
    ensures Overlay(db, Joined(diffs)) == ApplyInOrder(db, diffs)
    decreases |diffs|
  {
    if diffs == [] {
      OverlayNothing(db);
    } else {
      JoinApplies(db, diffs[..|diffs| - 1]);
      OverlayTwice(db, Joined(diffs[..|diffs| - 1]), diffs[|diffs| - 1]);
    }
  }

  /**
   * A store with its uncommitted changes. Reads see the changes on top of the wrapped store.
   */
  class BatchDB<K(==), V> {
    var wrapped: map<K, V>
    var changes: map<K, Change<V>>

    constructor (wrapped: map<K, V>)
      ensures this.wrapped == wrapped && changes == map[]
    {
      this.wrapped := wrapped;
      changes := map[];
    }

    ghost function View(): map<K, V>
      reads this
    {
      Overlay(wrapped, changes)
    }

    method GetItem(key: K) returns (r: Option<V>)
      ensures r == Lookup(View(), key)
    {
      if key in changes {
        match changes[key] {
          case Deleted => r := None;
          case Put(value) => r := Some(value);
        }
      } else {
        r := Lookup(wrapped, key);
      }
    }

    method SetItem(key: K, value: V)
      modifies this`changes
      ensures View() == old(View())[key := value]
    {
      OverlayPut(wrapped, changes, key, value);
      changes := changes[key := Put(value)];
    }

    /** Raises KeyError for a key that is not there. */
    method DeleteItem(key: K) returns (found: bool)
      modifies this`changes
      ensures found == (key in old(View()))
      ensures View() == old(View()) - {key}
    {
      var value := GetItem(key);
      found := value.Some?;
      if found {
        OverlayDelete(wrapped, changes, key);
        changes := changes[key := Deleted];
      }
    }

    /**
     * With deletions, no read changes. Without them, no key leaves the wrapped store and only
     * keys whose deletion was pending read differently: as the wrapped store has them.
     */
    method Commit(applyDeletes: bool)
      modifies this
      ensures changes == map[] && View() == wrapped
      ensures applyDeletes ==> View() == old(View())
      ensures !applyDeletes ==>
        && old(wrapped).Keys <= wrapped.Keys
        && (forall k :: !(k in old(changes) && old(changes)[k].Deleted?) ==>
              Lookup(View(), k) == Lookup(old(View()), k))
        && (forall k :: k in old(changes) && old(changes)[k].Deleted? ==>
              Lookup(View(), k) == Lookup(old(wrapped), k))
    {
      wrapped := ApplyTo(changes, wrapped, applyDeletes);
      changes := map[];
      OverlayNothing(wrapped);
    }

    /** Leaving the context with an error drops the changes. */
    method Clear()
      modifies this`changes
      ensures View() == wrapped
    {
      changes := map[];
      OverlayNothing(wrapped);
    }
  }
}
