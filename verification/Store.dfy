/** The store that accounts live in: a journal over an LRU cache over a trie. */
module Store {
  import opened Prelude
  import opened Changes
  import Journal

  /**
   * A cache tied to the root of the trie below it. The trie is its contents, and its root
   * stands for them; a key that is absent from the trie is cached as absent.
   */
  class CacheDB<K(==), V> {
    var contents: map<K, V>
    var cached: map<K, Option<V>>

    constructor (contents: map<K, V>)
      ensures Valid() && this.contents == contents
    {
      this.contents := contents;
      cached := map[];
    }

    /** Whatever is cached is what the trie holds under the current root. */
    ghost predicate Valid()
      reads this
    {
      forall k | k in cached :: cached[k] == Lookup(contents, k)
    }

    /** Adds an entry; the cache may drop any others to make room. */
    method Remember(key: K, value: Option<V>)
      modifies this`cached
      ensures key in cached && cached[key] == value
      ensures forall k | k in cached && k != key :: k in old(cached) && cached[k] == old(cached)[k]
    {
      var evicted: set<K> := *;
      cached := cached[key := value] - (evicted - {key});
    }

    method GetItem(key: K) returns (r: Option<V>)
      requires Valid()
      modifies this`cached
      ensures Valid() && r == Lookup(contents, key)
    {
      if key !in cached {
        Remember(key, Lookup(contents, key));
      }
      r := cached[key];
    }

    method SetItem(key: K, value: V)
      requires Valid()
      modifies this
      ensures Valid() && contents == old(contents)[key := value]
    {
      Remember(key, Some(value));
      contents := contents[key := value];
    }

    method DeleteItem(key: K)
      requires Valid()
      modifies this
      ensures Valid() && contents == old(contents) - {key}
    {
      cached := cached - {key};
      contents := contents - {key};
    }

    /** The root setter: another trie, so nothing cached may survive. */
    method SetRoot(root: map<K, V>)
      modifies this
      ensures Valid() && contents == root
    {
      cached := map[];
      contents := root;
    }
  }

  datatype Outcome = Ok | KeyError | UnknownChangeset | NoChangeset

  /** JournalDB: every method is one operation of the journal model. */
  class JournalDB<K(==), V> {
    const db: CacheDB<K, V>
    /**
     * Whether the membership test of the wrapped store tells absent keys. Over the trie cache it
     * does not: a read of an absent key answers the empty string there and never raises.
     */
    const strict: bool
    var sets: seq<Journal.Changeset<K, V>>
    var nextId: Journal.Id

    constructor (db: CacheDB<K, V>, strict: bool)
      requires db.Valid()
      ensures Valid() && this.db == db && this.strict == strict
      ensures sets == [Journal.Labelled(0, map[])] && nextId == 1
    {
      this.db, this.strict := db, strict;
      sets := [Journal.Labelled(0, map[])];
      nextId := 1;
    }

    ghost predicate Valid()
      reads this, db
    {
      db.Valid() && Journal.Valid(Model())
    }

    ghost function Model(): Journal.State<K, V>
      reads this, db
    {
      Journal.State(db.contents, sets, nextId)
    }

    /** What every key reads as. */
    function View(): map<K, V>
      reads this, db
    {
      Journal.Reads(db.contents, sets)
    }

    /** Searches the changesets from the latest to the first. */
    method Find(key: K) returns (r: Option<Change<V>>)
      ensures r.None? ==> Lookup(View(), key) == Lookup(db.contents, key)
      ensures r.Some? ==> Lookup(View(), key) == match r.value case Deleted => None case Put(v) => Some(v)
      ensures (r.Some? && r.value.Put?) <==> key in Journal.Reads(map[], sets)
    {
      var n := |sets|;
      assert sets[..n] == sets;
      while n > 0
        invariant n <= |sets|
        invariant Lookup(View(), key) == Lookup(Journal.Reads(db.contents, sets[..n]), key)
        invariant key in Journal.Reads(map[], sets) <==> key in Journal.Reads(map[], sets[..n])
      {
        assert sets[..n][..n - 1] == sets[..n - 1];
        n := n - 1;
        if key in sets[n].item {
          return Some(sets[n].item[key]);
        }
      }
      r := None;
    }

    method GetItem(key: K) returns (r: Option<V>)
      requires Valid()
      modifies db`cached
      ensures Valid() && r == Lookup(View(), key)
    {
      var change := Find(key);
      match change {
        case Some(Deleted) => r := None;
        case Some(Put(value)) => r := Some(value);
        case None => r := db.GetItem(key);
      }
    }

    method SetItem(key: K, value: V) returns (r: Outcome)
      requires Valid()
      modifies this`sets
      ensures Valid() && r == if old(sets) == [] then NoChangeset else Ok
      ensures Model() == Journal.Step(old(Model()), Journal.Set(key, value))
    {
      if sets == [] {
        return NoChangeset;
      }
      Journal.StepValid(Model(), Journal.Set(key, value));
      sets := Journal.Write(sets, key, Put(value));
      r := Ok;
    }

    /** Raises KeyError for a missing key if the wrapped store can tell, and marks the key otherwise. */
    method DeleteItem(key: K) returns (r: Outcome)
      requires Valid()
      modifies this`sets, db`cached
      ensures Valid()
      ensures r == if strict && Journal.Missing(old(Model()), key) then KeyError
                   else if old(sets) == [] then NoChangeset else Ok
      ensures Model() == Journal.Step(old(Model()), Journal.Delete(key, strict))
    {
      var change := Find(key);
      if !(change.Some? && change.value.Put?) {
        var below := db.GetItem(key);
        if strict && below.None? {
          return KeyError;
        }
      }
      if sets == [] {
        return NoChangeset;
      }
      Journal.StepValid(Model(), Journal.Delete(key, strict));
      sets := Journal.Write(sets, key, Deleted);
      r := Ok;
    }

    method Record() returns (id: Journal.Id)
      requires Valid()
      modifies this`sets, this`nextId
      ensures Valid() && id == old(nextId)
      ensures Model() == Journal.Step(old(Model()), Journal.Record)
    {
      Journal.StepValid(Model(), Journal.Record);
      id := nextId;
      sets := sets + [Journal.Labelled(id, map[])];
      nextId := nextId + 1;
    }

    method Discard(id: Journal.Id) returns (r: Outcome)
      requires Valid()
      modifies this`sets
      ensures Valid() && (r == Ok <==> Journal.Live(old(Model()), id)) && (r != Ok ==> r == UnknownChangeset)
      ensures Model() == Journal.Step(old(Model()), Journal.Discard(id))
    {
      match Journal.IndexOf(sets, id) {
        case None => r := UnknownChangeset;
        case Some(n) =>
          Journal.StepValid(Model(), Journal.Discard(id));
          sets := sets[..n];
          r := Ok;
      }
    }

    /** Writes the popped changes to the wrapped store, one key after the other. */
    method WriteThrough(changes: map<K, Change<V>>)
      requires db.Valid()
      modifies db
      ensures db.Valid() && db.contents == Overlay(old(db.contents), changes)
    {
      var pending := changes.Keys;
      ghost var expected := Overlay(db.contents, changes);
      while pending != {}
        invariant db.Valid() && pending <= changes.Keys
        invariant forall k :: k in pending ==> Lookup(db.contents, k) == Lookup(old(db.contents), k)
        invariant forall k :: k !in pending ==> Lookup(db.contents, k) == Lookup(expected, k)
        decreases pending
      {
        var key :| key in pending;
        match changes[key] {
          case Put(value) => db.SetItem(key, value);
          case Deleted => db.DeleteItem(key);
        }
        pending := pending - {key};
      }
      SameLookups(db.contents, expected);
    }

    method Commit(id: Journal.Id) returns (r: Outcome)
      requires Valid()
      modifies this, db
      ensures Valid() && (r == Ok <==> Journal.Live(old(Model()), id)) && (r != Ok ==> r == UnknownChangeset)
      ensures Model() == Journal.Step(old(Model()), Journal.Commit(id))
    {
      match Journal.IndexOf(sets, id) {
        case None => r := UnknownChangeset;
        case Some(n) =>
          Journal.StepValid(Model(), Journal.Commit(id));
          if n == 0 {
            WriteThrough(Journal.Merged(sets));
            sets := [Journal.Labelled(nextId, map[])];
            nextId := nextId + 1;
          } else {
            sets := Journal.Collapse(sets, n);
          }
          r := Ok;
      }
    }

    /** Commits the root changeset; without any changeset there is none to commit. */
    method Persist() returns (r: Outcome)
      requires Valid()
      modifies this, db
      ensures Valid() && View() == old(View())
      ensures r == if old(sets) == [] then NoChangeset else Ok
      ensures r == Ok ==> db.contents == View() && |sets| == 1 && sets[0].item == map[]
    {
      if sets == [] {
        return NoChangeset;
      }
      Journal.IndexUnique(Model(), 0);
      Journal.CommitKeepsReads(Model(), sets[0].id);
      r := Commit(sets[0].id);
      Journal.FreshRoot(db.contents, sets[0].id);
    }
  }
}
