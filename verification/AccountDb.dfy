/** Account accessors over the journaled store, and the snapshots a frame takes. */
module AccountDb {
  import opened Prelude
  import opened Changes
  import opened EvmTypes
  import Journal
  import opened Store

  type AccountSets = seq<Journal.Changeset<Address, Account>>

  /** Only the latest changeset was written to: its id and everything below stayed. */
  ghost predicate TopOnly(before: AccountSets, after: AccountSets) {
    && |before| == |after| > 0
    && before[..|before| - 1] == after[..|after| - 1]
    && before[|before| - 1].id == after[|after| - 1].id
  }

  lemma TopOnlyTwice(first: AccountSets, second: AccountSets, third: AccountSets)
    requires TopOnly(first, second) && TopOnly(second, third)
    ensures TopOnly(first, third)
  {
  }

  ghost function Ids(sets: AccountSets): seq<Journal.Id> {
    if sets == [] then [] else Ids(sets[..|sets| - 1]) + [sets[|sets| - 1].id]
  }

  lemma {:induction false} TopOnlyIds(before: AccountSets, after: AccountSets)
    requires TopOnly(before, after)
    ensures Ids(before) == Ids(after)
  {
  }

  /** State root and changeset id at the time of the snapshot. */
  datatype Snapshot = Snapshot(root: World, id: Journal.Id)

  class AccountDB {
    const journal: JournalDB<Address, Account>
    /** All accounts, as the reads through journal, cache and trie give them. */
    ghost var world: World

    constructor (root: World)
      ensures Valid() && world == root && fresh(journal) && fresh(journal.db)
      ensures |journal.sets| == 1
    {
      var cache := new CacheDB<Address, Account>(root);
      journal := new JournalDB<Address, Account>(cache, false);
      world := root;
      new;
      Journal.FreshRoot(root, 0);
    }

    ghost predicate Valid()
      reads this, journal, journal.db
    {
      journal.Valid() && journal.sets != [] && world == journal.View()
    }

    function AllAccounts(): (r: World)
      requires Valid()
      reads this, journal, journal.db
      ensures r == world
    {
      journal.View()
    }

    method AccountExists(a: Address) returns (r: bool)
      requires Valid()
      modifies journal.db`cached
      ensures Valid() && r == (a in world)
    {
      var account := journal.GetItem(a);
      r := account.Some?;
    }

    method GetAccount(a: Address) returns (r: Account)
      requires Valid()
      modifies journal.db`cached
      ensures Valid() && r == Get(world, a)
    {
      var account := journal.GetItem(a);
      r := if account.Some? then account.value else DEFAULT_ACCOUNT;
    }

    method SetAccount(a: Address, account: Account)
      requires Valid()
      modifies this`world, journal`sets
      ensures Valid() && world == old(world)[a := account]
      ensures TopOnly(old(journal.sets), journal.sets)
    {
      Journal.ReadsWrite(journal.db.contents, journal.sets, a, Put(account));
      var r := journal.SetItem(a, account);
      world := world[a := account];
    }

    method IsDead(a: Address) returns (r: bool)
      requires Valid()
      modifies journal.db`cached
      ensures Valid() && r == EvmTypes.IsDead(world, a)
    {
      var exists_ := AccountExists(a);
      var account := GetAccount(a);
      r := !exists_ || (account.nonce == 0 && account.code == [] && account.balance == 0);
    }

    /** False is the ValidationError for a balance outside uint256. */
    method SetBalance(a: Address, balance: int) returns (ok: bool)
      requires Valid()
      modifies this`world, journal`sets, journal.db`cached
      ensures Valid() && ok == (0 <= balance < UINT256_CEILING)
      ensures ok ==> world == old(world)[a := Get(old(world), a).(balance := balance)]
      ensures !ok ==> world == old(world)
      ensures TopOnly(old(journal.sets), journal.sets)
    {
      ok := 0 <= balance < UINT256_CEILING;
      if ok {
        var account := GetAccount(a);
        SetAccount(a, account.(balance := balance));
      }
    }

    method IncrementNonce(a: Address)
      requires Valid()
      modifies this`world, journal`sets, journal.db`cached
      ensures Valid() && world == EvmTypes.IncrementNonce(old(world), a)
      ensures TopOnly(old(journal.sets), journal.sets)
    {
      var account := GetAccount(a);
      SetAccount(a, account.(nonce := account.nonce + 1));
    }

    method GetStorage(a: Address, slot: nat) returns (r: nat)
      requires Valid()
      modifies journal.db`cached
      ensures Valid() && r == EvmTypes.GetStorage(world, a, slot)
    {
      var account := GetAccount(a);
      r := if slot in account.storage then account.storage[slot] else 0;
    }

    method SetStorage(a: Address, slot: nat, value: nat)
      requires Valid()
      modifies this`world, journal`sets, journal.db`cached
      ensures Valid() && world == EvmTypes.SetStorage(old(world), a, slot, value)
      ensures forall b: Address, k: nat ::
        EvmTypes.GetStorage(world, b, k) == if b == a && k == slot then value else EvmTypes.GetStorage(old(world), b, k)
      ensures TopOnly(old(journal.sets), journal.sets)
    {
      var account := GetAccount(a);
      var storage := if value != 0 then account.storage[slot := value] else account.storage - {slot};
      SetAccount(a, account.(storage := storage));
    }

    method SetCode(a: Address, code: Bytes)
      requires Valid()
      modifies this`world, journal`sets, journal.db`cached
      ensures Valid() && world == EvmTypes.SetCode(old(world), a, code) && Get(world, a).code == code
      ensures TopOnly(old(journal.sets), journal.sets)
    {
      var account := GetAccount(a);
      SetAccount(a, account.(code := code));
    }

    method TouchAccount(a: Address)
      requires Valid()
      modifies this`world, journal`sets, journal.db`cached
      ensures Valid() && world == Touch(old(world), a)
      ensures TopOnly(old(journal.sets), journal.sets)
    {
      var account := GetAccount(a);
      SetAccount(a, account);
    }

    method DeleteAccount(a: Address)
      requires Valid()
      modifies this`world, journal`sets, journal.db`cached
      ensures Valid() && world == old(world) - {a}
      ensures TopOnly(old(journal.sets), journal.sets)
    {
      Journal.StepRefines(journal.Model(), Journal.Delete(a, journal.strict));
      var r := journal.DeleteItem(a);
      world := world - {a};
    }

    method TakeSnapshot() returns (snapshot: Snapshot)
      requires Valid()
      modifies journal
      ensures Valid() && world == old(world)
      ensures snapshot == Snapshot(journal.db.contents, old(journal.nextId))
      ensures journal.sets == old(journal.sets) + [Journal.Labelled(snapshot.id, map[])]
    {
      Journal.StepRefines(journal.Model(), Journal.Record);
      var id := journal.Record();
      snapshot := Snapshot(journal.db.contents, id);
    }

    /** The state_root setter: pending changes stay, now over the accounts of another root. */
    method SetStateRoot(root: World)
      requires Valid()
      modifies this`world, journal.db
      ensures Valid() && world == Journal.Reads(root, journal.sets) && journal.db.contents == root
    {
      journal.db.SetRoot(root);
      world := journal.View();
    }

    /** Back to the root and the changesets of the snapshot; false for an unknown changeset. */
    method Revert(snapshot: Snapshot) returns (ok: bool)
      requires Valid()
      modifies this`world, journal`sets, journal.db
      ensures journal.Valid() && world == journal.View()
      ensures ok == Journal.Live(old(journal.Model()), snapshot.id)
      ensures journal.Model()
           == Journal.Step(old(journal.Model()).(base := snapshot.root), Journal.Discard(snapshot.id))
    {
      SetStateRoot(snapshot.root);
      var r := journal.Discard(snapshot.id);
      world := journal.View();
      ok := r == Ok;
    }

    /** Keeps what was written since the snapshot: it moves into the changeset before it. */
    method Commit(snapshot: Snapshot) returns (ok: bool)
      requires Valid()
      modifies journal, journal.db
      ensures Valid() && world == old(world) && ok == Journal.Live(old(journal.Model()), snapshot.id)
      ensures journal.Model() == Journal.Step(old(journal.Model()), Journal.Commit(snapshot.id))
    {
      Journal.CommitKeepsReads(journal.Model(), snapshot.id);
      var r := journal.Commit(snapshot.id);
      ok := r == Ok;
    }

    /** Pushes every change into the trie; the new root stands for the accounts as read. */
    method MakeStateRoot() returns (root: World)
      requires Valid()
      modifies journal, journal.db
      ensures Valid() && world == old(world) && root == world
    {
      var r := journal.Persist();
      root := journal.db.contents;
    }
  }

  lemma {:induction false} LatestIs(j: Journal.State<Address, Account>, id: Journal.Id, entry: AccountSets)
    requires Journal.Valid(j) && entry != []
    requires TopOnly(entry + [Journal.Labelled(id, map[])], j.sets)
    ensures |j.sets| == |entry| + 1 && j.sets[..|entry|] == entry && j.sets[|entry|].id == id
    ensures Journal.IndexOf(j.sets, id) == Some(|entry|)
  {
    var n := |entry|;
    assert (entry + [Journal.Labelled(id, map[])])[..n] == entry;
    Journal.IndexUnique(j, n);
  }

  /** Discarding the latest changeset brings the list back exactly as it was. */
  lemma DiscardLatest(j: Journal.State<Address, Account>, id: Journal.Id, entry: AccountSets)
    requires Journal.Valid(j) && entry != []
    requires TopOnly(entry + [Journal.Labelled(id, map[])], j.sets)
    ensures Journal.Step(j, Journal.Discard(id)) == j.(sets := entry)
  {
    LatestIs(j, id, entry);
  }

  /** Committing the latest changeset only writes to the one before it. */
  lemma CommitLatest(j: Journal.State<Address, Account>, id: Journal.Id, entry: AccountSets)
    requires Journal.Valid(j) && entry != []
    requires TopOnly(entry + [Journal.Labelled(id, map[])], j.sets)
    ensures
      var r := Journal.Step(j, Journal.Commit(id));
      r.base == j.base && TopOnly(entry, r.sets)
  {
    LatestIs(j, id, entry);
  }
}
