/**
 * Nested changesets over a base map, as values: what each journal operation does, and its
 * equivalence with one flat map plus a stack of saved copies.
 */
module Journal {
  import opened Prelude
  import opened Changes

  /** Changeset ids are random uuids; a counter stands for a source of ids that never repeats. */
  type Id = nat

  /** Something that was put under a changeset id. */
  datatype Labelled<+T> = Labelled(id: Id, item: T)

  type Changeset<K, V> = Labelled<map<K, Change<V>>>

  /** The base map under all changesets, the last one on top. */
  function Reads<K, V>(base: map<K, V>, sets: seq<Changeset<K, V>>): map<K, V> {
    if sets == [] then base
    else Overlay(Reads(base, sets[..|sets| - 1]), sets[|sets| - 1].item)
  }

  /** All changes of consecutive changesets in one, later ones taking precedence. */
  function Merged<K, V>(sets: seq<Changeset<K, V>>): map<K, Change<V>> {
    if sets == [] then map[]
    else Merged(sets[..|sets| - 1]) + sets[|sets| - 1].item
  }

  /** The position of an id, searched from the latest one down. */
  function IndexOf<T>(items: seq<Labelled<T>>, id: Id): (r: Option<nat>)
    ensures r.Some? ==> r.value < |items| && items[r.value].id == id
    ensures r.None? ==> forall n | 0 <= n < |items| :: items[n].id != id
  {
    if items == [] then None
    else if items[|items| - 1].id == id then Some(|items| - 1)
    else IndexOf(items[..|items| - 1], id)
  }

  datatype State<K, V> = State(base: map<K, V>, sets: seq<Changeset<K, V>>, nextId: Id)

  ghost predicate Distinct<K, V>(sets: seq<Changeset<K, V>>, nextId: Id) {
    && (forall n | 0 <= n < |sets| :: sets[n].id < nextId)
    && (forall m, n | 0 <= m < n < |sets| :: sets[m].id != sets[n].id)
  }

  ghost predicate Valid<K, V>(j: State<K, V>) {
    Distinct(j.sets, j.nextId)
  }

  datatype Op<K, V> =
    | Set(key: K, value: V)
    | Delete(key: K, strict: bool)
    | Record
    | Discard(id: Id)
    | Commit(id: Id)

  /** Puts a change into the latest changeset. */
  function Write<K, V>(sets: seq<Changeset<K, V>>, key: K, change: Change<V>): seq<Changeset<K, V>>
    requires sets != []
  {
    var last := |sets| - 1;
    sets[last := sets[last].(item := sets[last].item[key := change])]
  }

  /** Collapses everything from changeset `n` on into the one before it. */
  function Collapse<K, V>(sets: seq<Changeset<K, V>>, n: nat): seq<Changeset<K, V>>
    requires 0 < n < |sets|
  {
    sets[..n - 1] + [sets[n - 1].(item := sets[n - 1].item + Merged(sets[n..]))]
  }

  /** The journal after its root changeset was written through: a new root is recorded. */
  function WrittenThrough<K, V>(j: State<K, V>): State<K, V> {
    State(Overlay(j.base, Merged(j.sets)), [Labelled(j.nextId, map[])], j.nextId + 1)
  }

  /** A key whose deletion raises KeyError: no value in the journal and none below it. */
  predicate Missing<K, V>(j: State<K, V>, key: K) {
    key !in j.base && key !in Reads(map[], j.sets)
  }

  /**
   * One operation. An operation that raises changes nothing: writing without any changeset,
   * deleting a missing key of a store whose membership test notices (`strict`), naming an unknown
   * changeset.
   */
  function Step<K, V>(j: State<K, V>, op: Op<K, V>): State<K, V> {
    match op
    case Set(key, value) =>
      if j.sets == [] then j else j.(sets := Write(j.sets, key, Put(value)))
    case Delete(key, strict) =>
      if j.sets == [] || (strict && Missing(j, key)) then j else j.(sets := Write(j.sets, key, Deleted))
    case Record =>
      j.(sets := j.sets + [Labelled(j.nextId, map[])], nextId := j.nextId + 1)
    case Discard(id) =>
      (match IndexOf(j.sets, id)
       case None => j
       case Some(n) => j.(sets := j.sets[..n]))
    case Commit(id) =>
      (match IndexOf(j.sets, id)
       case None => j
       case Some(n) => if n == 0 then WrittenThrough(j) else j.(sets := Collapse(j.sets, n)))
  }

  // --- The flat model: one map, and a saved copy for each recorded changeset ---

  type Saved<K, V> = Labelled<map<K, V>>

  datatype Flat<K, V> = Flat(current: map<K, V>, saved: seq<Saved<K, V>>, nextId: Id)

  function FlatStep<K, V>(f: Flat<K, V>, op: Op<K, V>): Flat<K, V> {
    match op
    case Set(key, value) => if f.saved == [] then f else f.(current := f.current[key := value])
    case Delete(key, _) => if f.saved == [] then f else f.(current := f.current - {key})
    case Record => f.(saved := f.saved + [Labelled(f.nextId, f.current)], nextId := f.nextId + 1)
    case Discard(id) =>
      (match IndexOf(f.saved, id)
       case None => f
       case Some(n) => f.(current := f.saved[n].item, saved := f.saved[..n]))
    case Commit(id) =>
      (match IndexOf(f.saved, id)
       case None => f
       case Some(n) =>
         if n == 0 then Flat(f.current, [Labelled(f.nextId, f.current)], f.nextId + 1)
         else f.(saved := f.saved[..n]))
  }

  /** What the changesets stand for: each saved the reads of everything below it. */
  ghost function Copies<K, V>(base: map<K, V>, sets: seq<Changeset<K, V>>): (r: seq<Saved<K, V>>)
    ensures |r| == |sets|
  {
    if sets == [] then []
    else
      var below := sets[..|sets| - 1];
      Copies(base, below) + [Labelled(sets[|sets| - 1].id, Reads(base, below))]
  }

  ghost function Abstract<K, V>(j: State<K, V>): Flat<K, V> {
    Flat(Reads(j.base, j.sets), Copies(j.base, j.sets), j.nextId)
  }

  // --- Reading through changesets ---

  lemma {:induction false} ReadsLast<K, V>(base: map<K, V>, sets: seq<Changeset<K, V>>, last: Changeset<K, V>)
    ensures Reads(base, sets + [last]) == Overlay(Reads(base, sets), last.item)
  {
    assert (sets + [last])[..|sets|] == sets;
  }

  /** Reading through a stack of changesets is reading through their merge. */
  lemma {:induction false} ReadsMerged<K, V>(base: map<K, V>, lower: seq<Changeset<K, V>>, upper: seq<Changeset<K, V>>)
    ensures Reads(base, lower + upper) == Overlay(Reads(base, lower), Merged(upper))
    decreases |upper|
  {
    if upper == [] {
      assert lower + upper == lower;
      OverlayNothing(Reads(base, lower));
    } else {
      var rest, last := upper[..|upper| - 1], upper[|upper| - 1];
      assert lower + upper == (lower + rest) + [last];
      ReadsLast(base, lower + rest, last);
      ReadsMerged(base, lower, rest);
      OverlayTwice(Reads(base, lower), Merged(rest), last.item);
    }
  }

  lemma {:induction false} ReadsWrite<K, V>(base: map<K, V>, sets: seq<Changeset<K, V>>, key: K, change: Change<V>)
    requires sets != []
    ensures Reads(base, Write(sets, key, change))
         == match change
            case Put(value) => Reads(base, sets)[key := value]
            case Deleted => Reads(base, sets) - {key}
  {
    var last := |sets| - 1;
    var below := Reads(base, sets[..last]);
    assert Write(sets, key, change)[..last] == sets[..last];
    match change
    case Put(value) => OverlayPut(below, sets[last].item, key, value);
    case Deleted => OverlayDelete(below, sets[last].item, key);
  }

  lemma {:induction false} ReadsCollapse<K, V>(base: map<K, V>, sets: seq<Changeset<K, V>>, n: nat)
    requires 0 < n < |sets|
    ensures Reads(base, Collapse(sets, n)) == Reads(base, sets)
  {
    var below, upper := sets[..n - 1], sets[n..];
    assert sets == (below + [sets[n - 1]]) + upper;
    ReadsMerged(base, below + [sets[n - 1]], upper);
    ReadsLast(base, below, sets[n - 1]);
    ReadsLast(base, below, sets[n - 1].(item := sets[n - 1].item + Merged(upper)));
    OverlayTwice(Reads(base, below), sets[n - 1].item, Merged(upper));
  }

  // --- Saved copies ---

  lemma {:induction false} CopyAt<K, V>(base: map<K, V>, sets: seq<Changeset<K, V>>, n: nat)
    requires n < |sets|
    ensures Copies(base, sets)[n] == Labelled(sets[n].id, Reads(base, sets[..n]))
    ensures Copies(base, sets)[..n] == Copies(base, sets[..n])
    decreases |sets|
  {
    var last := |sets| - 1;
    var below := sets[..last];
    if n < last {
      CopyAt(base, below, n);
      assert below[..n] == sets[..n];
      assert Copies(base, sets)[..n] == Copies(base, below)[..n];
    } else {
      assert Copies(base, sets)[..n] == Copies(base, below);
    }
  }

  /** Only the ids and what lies below matter for the saved copies, not the top changes. */
  lemma CopiesIgnoreTop<K, V>(base: map<K, V>, sets: seq<Changeset<K, V>>, changes: map<K, Change<V>>)
    requires sets != []
    ensures
      var last := |sets| - 1;
      Copies(base, sets[last := sets[last].(item := changes)]) == Copies(base, sets)
  {
    var last := |sets| - 1;
    assert sets[last := sets[last].(item := changes)][..last] == sets[..last];
  }

  lemma {:induction false} IndexAgrees<K, V>(base: map<K, V>, sets: seq<Changeset<K, V>>, id: Id)
    ensures IndexOf(Copies(base, sets), id) == IndexOf(sets, id)
    decreases |sets|
  {
    if sets != [] {
      var below := sets[..|sets| - 1];
      IndexAgrees(base, below, id);
      assert Copies(base, sets)[..|sets| - 1] == Copies(base, below);
    }
  }

  lemma {:induction false} CopiesCollapse<K, V>(base: map<K, V>, sets: seq<Changeset<K, V>>, n: nat)
    requires 0 < n < |sets|
    ensures Copies(base, Collapse(sets, n)) == Copies(base, sets)[..n]
  {
    CopyAt(base, sets, n);
    var lower := sets[..n];
    var changes := sets[n - 1].item + Merged(sets[n..]);
    assert Collapse(sets, n) == lower[n - 1 := lower[n - 1].(item := changes)];
    CopiesIgnoreTop(base, lower, changes);
  }

  // --- Refinement of the flat model ---

  lemma WriteRefines<K, V>(j: State<K, V>, key: K, change: Change<V>)
    requires j.sets != []
    ensures
      var r := Abstract(j.(sets := Write(j.sets, key, change)));
      r == Abstract(j).(current :=
        match change
        case Put(value) => Abstract(j).current[key := value]
        case Deleted => Abstract(j).current - {key})
  {
    ReadsWrite(j.base, j.sets, key, change);
    var last := |j.sets| - 1;
    CopiesIgnoreTop(j.base, j.sets, j.sets[last].item[key := change]);
  }

  /** A key found nowhere is not read either. */
  lemma {:induction false} MissingUnread<K, V>(base: map<K, V>, sets: seq<Changeset<K, V>>, key: K)
    requires key !in base && key !in Reads(map[], sets)
    ensures key !in Reads(base, sets)
    decreases |sets|
  {
    if sets != [] {
      var last := sets[|sets| - 1].item;
      if key !in last {
        MissingUnread(base, sets[..|sets| - 1], key);
      }
    }
  }

  /** Writing the root changeset through makes its reads the base. */
  lemma RootCommitBase<K, V>(j: State<K, V>)
    ensures WrittenThrough(j).base == Reads(j.base, j.sets)
  {
    assert [] + j.sets == j.sets;
    ReadsMerged(j.base, [], j.sets);
  }

  lemma {:induction false} FreshRoot<K, V>(base: map<K, V>, id: Id)
    ensures Reads(base, [Labelled(id, map[])]) == base
    ensures Copies(base, [Labelled(id, map[])]) == [Labelled(id, base)]
  {
    OverlayNothing(base);
  }

  lemma CommitRefines<K, V>(j: State<K, V>, id: Id)
    ensures Abstract(Step(j, Commit(id))) == FlatStep(Abstract(j), Commit(id))
  {
    IndexAgrees(j.base, j.sets, id);
    match IndexOf(j.sets, id)
    case None =>
    case Some(n) =>
      if n == 0 {
        RootCommitBase(j);
        FreshRoot(WrittenThrough(j).base, j.nextId);
      } else {
        ReadsCollapse(j.base, j.sets, n);
        CopiesCollapse(j.base, j.sets, n);
      }
  }

  lemma DiscardRefines<K, V>(j: State<K, V>, id: Id)
    ensures Abstract(Step(j, Discard(id))) == FlatStep(Abstract(j), Discard(id))
  {
    IndexAgrees(j.base, j.sets, id);
    match IndexOf(j.sets, id)
    case None =>
    case Some(n) => CopyAt(j.base, j.sets, n);
  }

  /** Every journal operation does to reads and saved copies what the flat model says. */
  lemma StepRefines<K, V>(j: State<K, V>, op: Op<K, V>)
    ensures Abstract(Step(j, op)) == FlatStep(Abstract(j), op)
  {
    match op
    case Set(key, value) =>
      if j.sets != [] {
        WriteRefines(j, key, Put(value));
      }
    case Delete(key, strict) =>
      if j.sets != [] {
        if strict && Missing(j, key) {
          MissingUnread(j.base, j.sets, key);
          assert Abstract(j).current - {key} == Abstract(j).current;
        } else {
          WriteRefines(j, key, Deleted);
        }
      }
    case Record =>
      var r := Step(j, op);
      assert r.sets[..|r.sets| - 1] == j.sets;
      OverlayNothing(Reads(j.base, j.sets));
    case Discard(id) => DiscardRefines(j, id);
    case Commit(id) => CommitRefines(j, id);
  }

  function Run<K, V>(j: State<K, V>, ops: seq<Op<K, V>>): State<K, V> {
    if ops == [] then j else Step(Run(j, ops[..|ops| - 1]), ops[|ops| - 1])
  }

  function FlatRun<K, V>(f: Flat<K, V>, ops: seq<Op<K, V>>): Flat<K, V> {
    if ops == [] then f else FlatStep(FlatRun(f, ops[..|ops| - 1]), ops[|ops| - 1])
  }

  /** The journal is the flat map with saved copies, over every interleaving of operations. */
  lemma {:induction false} RunRefines<K, V>(j: State<K, V>, ops: seq<Op<K, V>>)
    ensures Abstract(Run(j, ops)) == FlatRun(Abstract(j), ops)
    decreases |ops|
  {
    if ops != [] {
      RunRefines(j, ops[..|ops| - 1]);
      StepRefines(Run(j, ops[..|ops| - 1]), ops[|ops| - 1]);
    }
  }

  // --- Discarding restores the reads at the time of recording ---

  lemma StepValid<K, V>(j: State<K, V>, op: Op<K, V>)
    requires Valid(j)
    ensures Valid(Step(j, op)) && j.nextId <= Step(j, op).nextId
  {
  }

  predicate Live<K, V>(j: State<K, V>, id: Id) {
    IndexOf(j.sets, id).Some?
  }

  lemma IndexUnique<K, V>(j: State<K, V>, n: nat)
    requires Valid(j) && n < |j.sets|
    ensures IndexOf(j.sets, j.sets[n].id) == Some(n)
  {
  }

  ghost predicate Kept<K, V>(j: State<K, V>, r: State<K, V>, n: nat)
    requires n < |j.sets|
  {
    r.base == j.base && n < |r.sets| && r.sets[n].id == j.sets[n].id && r.sets[..n] == j.sets[..n]
  }

  lemma CommitKeeps<K, V>(j: State<K, V>, id: Id, n: nat)
    requires Valid(j) && n < |j.sets| && Live(Step(j, Commit(id)), j.sets[n].id)
    ensures Kept(j, Step(j, Commit(id)), n)
  {
    if Live(j, id) {
      var k := IndexOf(j.sets, id).value;
      var r := Step(j, Commit(id));
      var m := IndexOf(r.sets, j.sets[n].id).value;
      if k > 0 {
        assert r.sets[m].id == j.sets[m].id;
        assert m == n;
      }
    }
  }

  lemma DiscardKeeps<K, V>(j: State<K, V>, id: Id, n: nat)
    requires Valid(j) && n < |j.sets| && Live(Step(j, Discard(id)), j.sets[n].id)
    ensures Kept(j, Step(j, Discard(id)), n)
  {
    if Live(j, id) {
      var r := Step(j, Discard(id));
      var m := IndexOf(r.sets, j.sets[n].id).value;
      assert r.sets[m].id == j.sets[m].id;
      assert m == n;
    }
  }

  /** As long as a changeset stays live, nothing below it changes and the base stays put. */
  lemma LivePrefix<K, V>(j: State<K, V>, op: Op<K, V>, n: nat)
    requires Valid(j) && n < |j.sets| && Live(Step(j, op), j.sets[n].id)
    ensures Kept(j, Step(j, op), n)
  {
    match op
    case Commit(id) => CommitKeeps(j, id, n);
    case Discard(id) => DiscardKeeps(j, id, n);
    case _ =>
  }

  /** The changeset stays live after every one of the operations. */
  ghost predicate StaysLive<K, V>(j: State<K, V>, ops: seq<Op<K, V>>, id: Id) {
    forall k | 0 <= k <= |ops| :: Live(Run(j, ops[..k]), id)
  }

  lemma {:induction false} LiveThroughout<K, V>(j: State<K, V>, ops: seq<Op<K, V>>, n: nat)
    requires Valid(j) && n < |j.sets| && StaysLive(j, ops, j.sets[n].id)
    ensures
      Valid(Run(j, ops)) && Kept(j, Run(j, ops), n)
    decreases |ops|
  {
    if ops != [] {
      var init, last := ops[..|ops| - 1], ops[|ops| - 1];
      forall k | 0 <= k <= |init|
        ensures Live(Run(j, init[..k]), j.sets[n].id)
      {
        assert init[..k] == ops[..k];
      }
      LiveThroughout(j, init, n);
      assert ops[..|ops|] == ops;
      StepValid(Run(j, init), last);
      LivePrefix(Run(j, init), last, n);
    }
  }

  lemma {:induction false} RunValid<K, V>(j: State<K, V>, ops: seq<Op<K, V>>)
    requires Valid(j)
    ensures Valid(Run(j, ops)) && j.nextId <= Run(j, ops).nextId
    decreases |ops|
  {
    if ops != [] {
      RunValid(j, ops[..|ops| - 1]);
      StepValid(Run(j, ops[..|ops| - 1]), ops[|ops| - 1]);
    }
  }

  /** An id that is gone never comes back. */
  lemma DeadStays<K, V>(j: State<K, V>, op: Op<K, V>, id: Id)
    requires Valid(j) && id < j.nextId && !Live(j, id)
    ensures !Live(Step(j, op), id)
  {
    var r := Step(j, op);
    forall n | 0 <= n < |r.sets|
      ensures r.sets[n].id != id
    {
      assert (n < |j.sets| && r.sets[n].id == j.sets[n].id) || r.sets[n].id >= j.nextId;
    }
  }

  /** So an id that is live now was live all along. */
  lemma {:induction false} LiveBefore<K, V>(j: State<K, V>, ops: seq<Op<K, V>>, id: Id, k: nat)
    requires Valid(j) && id < j.nextId && Live(Run(j, ops), id) && k <= |ops|
    ensures Live(Run(j, ops[..k]), id)
    decreases |ops|
  {
    if k == |ops| {
      assert ops[..k] == ops;
    } else {
      var init, last := ops[..|ops| - 1], ops[|ops| - 1];
      RunValid(j, init);
      if !Live(Run(j, init), id) {
        DeadStays(Run(j, init), last, id);
      }
      LiveBefore(j, init, id, k);
      assert init[..k] == ops[..k];
    }
  }

  /**
   * For every interleaving of set, delete, record, commit and discard: if a recorded changeset
   * is still live, discarding it restores exactly the reads at the moment of recording.
   */
  lemma {:induction false} DiscardRestores<K, V>(j: State<K, V>, ops: seq<Op<K, V>>)
    requires Valid(j)
    requires Live(Run(Step(j, Record), ops), j.nextId)
    ensures
      var r := Step(Run(Step(j, Record), ops), Discard(j.nextId));
      Reads(r.base, r.sets) == Reads(j.base, j.sets) && r.sets == j.sets
  {
    var recorded := Step(j, Record);
    var n := |j.sets|;
    StepValid(j, Record);
    forall k | 0 <= k <= |ops|
      ensures Live(Run(recorded, ops[..k]), j.nextId)
    {
      LiveBefore(recorded, ops, j.nextId, k);
    }
    LiveThroughout(recorded, ops, n);
    var end := Run(recorded, ops);
    IndexUnique(end, n);
    assert end.sets[..n] == j.sets;
  }

  /** Committing, including the root commit that writes through, changes no read. */
  lemma CommitKeepsReads<K, V>(j: State<K, V>, id: Id)
    ensures
      var r := Step(j, Commit(id));
      Reads(r.base, r.sets) == Reads(j.base, j.sets)
  {
    CommitRefines(j, id);
    IndexAgrees(j.base, j.sets, id);
  }
}
