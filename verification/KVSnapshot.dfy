/** The key-value server's database, its snapshots with tombstones, and when merging a delta is right. */
module KVSnapshot {
  import opened Values

  type Db = map<string, string>

  datatype KVCommand =
    | Put(key: string, value: string)
    | Delete(key: string)
    | Get(key: string)

  datatype Command = Command(clientId: nat, coordinatorId: nat, id: nat, kvCmd: KVCommand)

  // ---- Reference semantics ----

  function DbStep(db: Db, c: KVCommand): Db {
    match c
    case Put(key, value) => db[key := value]
    case Delete(key) => db - {key}
    case Get(_) => db
  }

  /** What the client gets: nothing for a mutation, the key's value (if any) for a read. */
  function DbAnswer(db: Db, c: KVCommand): Option<Option<string>> {
    if c.Get? then Some(Lookup(db, c.key)) else None
  }

  function DbReplay(log: seq<Command>): Db {
    if log == [] then map[] else DbStep(DbReplay(log[..|log| - 1]), log[|log| - 1].kvCmd)
  }

  class Database {
    var db: Db

    constructor ()
      ensures db == map[]
    {
      db := map[];
    }

    method HandleCommand(c: KVCommand) returns (r: Option<Option<string>>)
      modifies this
      ensures db == DbStep(old(db), c)
      ensures r == DbAnswer(old(db), c)
    {
      match c {
        case Put(key, value) =>
          db := db[key := value];
          r := None;
        case Delete(key) =>
          db := db - {key};
          r := None;
        case Get(key) =>
          r := Some(if key in db then Some(db[key]) else None);
      }
    }
  }

  // ---- Tombstones ----

  /** The deletes that found nothing to remove, in order. */
  function BareDeletes(log: seq<Command>): seq<string> {
    if log == [] then []
    else
      var front, c := log[..|log| - 1], log[|log| - 1].kvCmd;
      BareDeletes(front) + if c.Delete? && c.key !in DbReplay(front) then [c.key] else []
  }

  function Dead(keys: seq<string>, live: Db): seq<string> {
    if keys == [] then []
    else
      Dead(keys[..|keys| - 1], live) + if keys[|keys| - 1] in live then [] else [keys[|keys| - 1]]
  }

  function Tombstones(log: seq<Command>): seq<string> {
    Dead(BareDeletes(log), DbReplay(log))
  }

  function KeySet(keys: seq<string>): set<string> {
    set k | k in keys
  }

  class Snapshot {
    var snapshotted: Db
    var deletedKeys: seq<string>

    constructor Create(entries: seq<Command>)
      ensures snapshotted == DbReplay(entries)
      ensures deletedKeys == Tombstones(entries)
    {
      snapshotted, deletedKeys := map[], [];
      new;
      for n := 0 to |entries|
        invariant snapshotted == DbReplay(entries[..n])
        invariant deletedKeys == BareDeletes(entries[..n])
      {
        match entries[n].kvCmd {
          case Put(key, value) =>
            snapshotted := snapshotted[key := value];
          case Delete(key) =>
            if key in snapshotted {
              snapshotted := snapshotted - {key};
            } else {
              deletedKeys := deletedKeys + [key];
            }
          case Get(_) =>
        }
        assert entries[..n + 1][..n] == entries[..n];
      }
      assert entries[..|entries|] == entries;
      RetainDead();
    }

    /** Keys that were put back are no tombstones. */
    method RetainDead()
      modifies this`deletedKeys
      ensures deletedKeys == Dead(old(deletedKeys), snapshotted)
    {
      var all := deletedKeys;
      var kept: seq<string> := [];
      for n := 0 to |all|
        invariant kept == Dead(all[..n], snapshotted)
      {
        if all[n] !in snapshotted {
          kept := kept + [all[n]];
        }
        assert all[..n + 1][..n] == all[..n];
      }
      assert all[..|all|] == all;
      deletedKeys := kept;
    }

    method Merge(delta: Snapshot)
      requires delta != this
      modifies this
      ensures snapshotted == Merged(old(snapshotted), old(delta.snapshotted), old(delta.deletedKeys))
      ensures deletedKeys == []
    {
      var left := delta.snapshotted.Keys;
      while left != {}
        invariant left <= delta.snapshotted.Keys
        invariant snapshotted == old(snapshotted) + (delta.snapshotted - left)
        invariant delta.snapshotted == old(delta.snapshotted) && delta.deletedKeys == old(delta.deletedKeys)
      {
        var k :| k in left;
        snapshotted := snapshotted[k := delta.snapshotted[k]];
        left := left - {k};
      }
      assert delta.snapshotted - left == delta.snapshotted;
      ghost var both := snapshotted;
      for n := 0 to |delta.deletedKeys|
        invariant snapshotted == both - KeySet(delta.deletedKeys[..n])
        invariant delta.snapshotted == old(delta.snapshotted) && delta.deletedKeys == old(delta.deletedKeys)
      {
        snapshotted := snapshotted - {delta.deletedKeys[n]};
        assert KeySet(delta.deletedKeys[..n + 1]) == KeySet(delta.deletedKeys[..n]) + {delta.deletedKeys[n]};
      }
      assert delta.deletedKeys[..|delta.deletedKeys|] == delta.deletedKeys;
      deletedKeys := [];
    }
  }

  /** The live map after merging a delta onto `base`. */
  function Merged(base: Db, live: Db, deleted: seq<string>): Db {
    base + live - KeySet(deleted)
  }

  lemma {:induction false} DeadMember(keys: seq<string>, live: Db, k: string)
    ensures k in Dead(keys, live) <==> k in keys && k !in live
  {
    if keys != [] {
      DeadMember(keys[..|keys| - 1], live, k);
      assert k in keys <==> k in keys[..|keys| - 1] || k == keys[|keys| - 1];
    }
  }

  /** Tombstones never name a live key, so the two loops of a merge cannot undo each other. */
  lemma TombstonesAreDead(log: seq<Command>, k: string)
    requires k in Tombstones(log)
    ensures k !in DbReplay(log)
  {
    DeadMember(BareDeletes(log), DbReplay(log), k);
  }

  lemma MergeOrderIrrelevant(base: Db, log: seq<Command>)
    ensures Merged(base, DbReplay(log), Tombstones(log)) == (base - KeySet(Tombstones(log))) + DbReplay(log)
  {
    forall k | k in Tombstones(log) ensures k !in DbReplay(log) {
      TombstonesAreDead(log, k);
    }
  }

  // ---- One key through a log ----

  predicate Mutates(c: Command, key: string) {
    !c.kvCmd.Get? && c.kvCmd.key == key
  }

  predicate Deletes(c: Command, key: string) {
    c.kvCmd == Delete(key)
  }

  /** Some delete of `key` is the last thing the log does to it. */
  predicate EndsDeleted(b: seq<Command>, key: string) {
    exists i :: 0 <= i < |b| && Deletes(b[i], key) && forall j :: i < j < |b| ==> !Mutates(b[j], key)
  }

  /** Delete `i` is the first mutation of its key, or follows another delete with no put in between. */
  predicate BareAt(b: seq<Command>, key: string, i: int) {
    && 0 <= i < |b|
    && Deletes(b[i], key)
    && ( || (forall j :: 0 <= j < i ==> !Mutates(b[j], key))
         || (exists j :: 0 <= j < i && Deletes(b[j], key) &&
               forall m :: j < m < i ==> !(Mutates(b[m], key) && b[m].kvCmd.Put?)))
  }

  predicate HasBareDelete(b: seq<Command>, key: string) {
    exists i :: 0 <= i < |b| && BareAt(b, key, i)
  }

  function KeyStep(v: Option<string>, c: KVCommand, key: string): Option<string> {
    match c
    case Put(k, value) => if k == key then Some(value) else v
    case Delete(k) => if k == key then None else v
    case Get(_) => v
  }

  function KeyAfter(v: Option<string>, b: seq<Command>, key: string): Option<string> {
    if b == [] then v else KeyStep(KeyAfter(v, b[..|b| - 1], key), b[|b| - 1].kvCmd, key)
  }

  lemma {:induction false} KeyReplay(a: seq<Command>, b: seq<Command>, key: string)
    ensures Lookup(DbReplay(a + b), key) == KeyAfter(Lookup(DbReplay(a), key), b, key)
  {
    if b == [] {
      assert a + b == a;
    } else {
      KeyReplay(a, b[..|b| - 1], key);
      assert (a + b)[..|a + b| - 1] == a + b[..|b| - 1];
    }
  }

  lemma KeyReplayAlone(b: seq<Command>, key: string)
    ensures Lookup(DbReplay(b), key) == KeyAfter(None, b, key)
  {
  }

  /** A log either leaves a key as it found it or settles it, whatever it found. */
  lemma {:induction false} KeyOutcome(b: seq<Command>, key: string, v: Option<string>)
    ensures if exists i :: 0 <= i < |b| && Mutates(b[i], key)
            then KeyAfter(v, b, key) == KeyAfter(None, b, key) && (KeyAfter(v, b, key) == None <==> EndsDeleted(b, key))
            else KeyAfter(v, b, key) == v && !EndsDeleted(b, key)
  {
    if b != [] {
      var front, last := b[..|b| - 1], b[|b| - 1];
      KeyOutcome(front, key, v);
      assert forall i :: 0 <= i < |front| ==> front[i] == b[i];
      if Mutates(last, key) {
        assert Mutates(b[|b| - 1], key);
        if Deletes(last, key) {
          assert Deletes(b[|b| - 1], key);
        }
      } else {
        assert (exists i :: 0 <= i < |b| && Mutates(b[i], key)) <==>
               exists i :: 0 <= i < |front| && Mutates(front[i], key);
        EndsDeletedSame(b, key);
      }
    }
  }

  lemma EndsDeletedSame(b: seq<Command>, key: string)
    requires b != [] && !Mutates(b[|b| - 1], key)
    ensures EndsDeleted(b, key) <==> EndsDeleted(b[..|b| - 1], key)
  {
  }

  // ---- Which deletes leave a tombstone ----

  lemma {:induction false} StaysDeleted(b: seq<Command>, key: string, j: nat, i: nat)
    requires j < i <= |b| && Deletes(b[j], key)
    requires forall m :: j < m < i ==> !(Mutates(b[m], key) && b[m].kvCmd.Put?)
    ensures KeyAfter(None, b[..i], key) == None
  {
    assert b[..i][..i - 1] == b[..i - 1];
    if j < i - 1 {
      StaysDeleted(b, key, j, i - 1);
    }
  }

  /** The syntactic reading of "the delete found nothing to remove". */
  lemma BareMeansAbsent(b: seq<Command>, key: string, i: nat)
    requires i < |b| && Deletes(b[i], key)
    ensures BareAt(b, key, i) <==> key !in DbReplay(b[..i])
  {
    var front := b[..i];
    assert forall j :: 0 <= j < i ==> front[j] == b[j];
    KeyReplayAlone(front, key);
    KeyOutcome(front, key, None);
    if BareAt(b, key, i) && exists j :: 0 <= j < i && Mutates(b[j], key) {
      var j :| 0 <= j < i && Deletes(b[j], key) && forall m :: j < m < i ==> !(Mutates(b[m], key) && b[m].kvCmd.Put?);
      StaysDeleted(b, key, j, i);
    }
    if EndsDeleted(front, key) {
      var j :| 0 <= j < |front| && Deletes(front[j], key) && forall m :: j < m < |front| ==> !Mutates(front[m], key);
      assert Deletes(b[j], key);
    }
  }

  predicate FoundNothing(b: seq<Command>, key: string, i: int) {
    0 <= i < |b| && Deletes(b[i], key) && key !in DbReplay(b[..i])
  }

  lemma FoundNothingFront(b: seq<Command>, key: string, i: int)
    requires b != [] && i < |b| - 1
    ensures FoundNothing(b[..|b| - 1], key, i) <==> FoundNothing(b, key, i)
  {
    if 0 <= i {
      assert b[..|b| - 1][..i] == b[..i];
    }
  }

  lemma {:induction false} BareDeleteFound(b: seq<Command>, key: string) returns (i: int)
    requires key in BareDeletes(b)
    ensures FoundNothing(b, key, i)
  {
    var front := b[..|b| - 1];
    if key in BareDeletes(front) {
      i := BareDeleteFound(front, key);
      FoundNothingFront(b, key, i);
    } else {
      i := |b| - 1;
    }
  }

  lemma {:induction false} FoundIsBare(b: seq<Command>, key: string, i: int)
    requires FoundNothing(b, key, i)
    ensures key in BareDeletes(b)
  {
    if i < |b| - 1 {
      FoundNothingFront(b, key, i);
      FoundIsBare(b[..|b| - 1], key, i);
    }
  }

  lemma BareDeletesMember(b: seq<Command>, key: string)
    ensures key in BareDeletes(b) <==> HasBareDelete(b, key)
  {
    if key in BareDeletes(b) {
      var i := BareDeleteFound(b, key);
      BareMeansAbsent(b, key, i);
    }
    if HasBareDelete(b, key) {
      var i :| 0 <= i < |b| && BareAt(b, key, i);
      BareMeansAbsent(b, key, i);
      FoundIsBare(b, key, i);
    }
  }

  /** Tombstones are exactly the keys that end up absent and have a delete with nothing to remove. */
  lemma TombstoneMeaning(b: seq<Command>, key: string)
    ensures key in Tombstones(b) <==> key !in DbReplay(b) && HasBareDelete(b, key)
  {
    DeadMember(BareDeletes(b), DbReplay(b), key);
    BareDeletesMember(b, key);
  }

  // ---- Merging ----

  /** A key that the base holds and the delta finally deletes is somewhere deleted without being put first. */
  ghost predicate DeletesShow(a: seq<Command>, b: seq<Command>, key: string) {
    key in DbReplay(a) && EndsDeleted(b, key) ==> HasBareDelete(b, key)
  }

  lemma BareDeleteMutates(b: seq<Command>, key: string)
    requires HasBareDelete(b, key)
    ensures exists i :: 0 <= i < |b| && Mutates(b[i], key)
  {
  }

  lemma EndsDeletedMutates(b: seq<Command>, key: string)
    requires EndsDeleted(b, key)
    ensures exists i :: 0 <= i < |b| && Mutates(b[i], key)
  {
  }

  function MergedReplay(a: seq<Command>, b: seq<Command>): Db {
    Merged(DbReplay(a), DbReplay(b), Tombstones(b))
  }

  lemma MergeKey(a: seq<Command>, b: seq<Command>, key: string)
    ensures Lookup(MergedReplay(a, b), key) == Lookup(DbReplay(a + b), key) <==> DeletesShow(a, b, key)
  {
    KeyReplay(a, b, key);
    KeyReplayAlone(b, key);
    KeyOutcome(b, key, Lookup(DbReplay(a), key));
    KeyOutcome(b, key, None);
    TombstoneMeaning(b, key);
    if HasBareDelete(b, key) {
      BareDeleteMutates(b, key);
    }
    if EndsDeleted(b, key) {
      EndsDeletedMutates(b, key);
    }
  }

  /** Merging the snapshot of `b` onto the snapshot of `a` gives the state after both exactly under `DeletesShow`. */
  lemma MergeIsRightIff(a: seq<Command>, b: seq<Command>)
    ensures MergedReplay(a, b) == DbReplay(a + b) <==> forall key :: DeletesShow(a, b, key)
  {
    forall key
      ensures Lookup(MergedReplay(a, b), key) == Lookup(DbReplay(a + b), key) <==> DeletesShow(a, b, key)
    {
      MergeKey(a, b, key);
    }
    if forall key :: DeletesShow(a, b, key) {
      SameLookups(MergedReplay(a, b), DbReplay(a + b));
    }
  }

  /** Putting a key and deleting it again inside one delta brings the base's value back. */
  lemma PutThenDeleteResurrects(put: Command, again: Command, delete: Command)
    requires put.kvCmd.Put? && again.kvCmd.Put? && delete.kvCmd.Delete?
    requires put.kvCmd.key == again.kvCmd.key == delete.kvCmd.key
    ensures Lookup(MergedReplay([put], [again, delete]), put.kvCmd.key) == Some(put.kvCmd.value)
    ensures Lookup(DbReplay([put] + [again, delete]), put.kvCmd.key) == None
  {
    var b := [again, delete];
    assert b[..1] == [again] && [again][..0] == [] && [put][..0] == [];
    assert DbReplay([]) == map[];
    assert DbReplay([again]) == map[put.kvCmd.key := again.kvCmd.value];
    assert BareDeletes([again]) == [];
    assert BareDeletes(b) == [];
    assert Tombstones(b) == [];
    KeyReplay([put], b, put.kvCmd.key);
  }

  // ---- Chains of deltas ----

  function Flattened(deltas: seq<seq<Command>>): seq<Command> {
    if deltas == [] then [] else Flattened(deltas[..|deltas| - 1]) + deltas[|deltas| - 1]
  }

  /** The live map after merging delta after delta onto the snapshot of `base`. */
  function MergedAll(base: seq<Command>, deltas: seq<seq<Command>>): Db {
    if deltas == [] then DbReplay(base)
    else
      var d := deltas[|deltas| - 1];
      Merged(MergedAll(base, deltas[..|deltas| - 1]), DbReplay(d), Tombstones(d))
  }

  /** The `n`-th merge of the chain meets the condition. */
  ghost predicate LinkShows(base: seq<Command>, deltas: seq<seq<Command>>, n: int) {
    0 <= n < |deltas| ==> forall key :: DeletesShow(base + Flattened(deltas[..n]), deltas[n], key)
  }

  lemma LinkFront(base: seq<Command>, deltas: seq<seq<Command>>, n: int)
    requires deltas != [] && n < |deltas| - 1 && LinkShows(base, deltas, n)
    ensures LinkShows(base, deltas[..|deltas| - 1], n)
  {
    if 0 <= n {
      assert deltas[..|deltas| - 1][..n] == deltas[..n];
    }
  }

  /** If every merge of a chain meets the condition, the chain ends in the state of the whole log. */
  lemma {:induction false} ChainIsRight(base: seq<Command>, deltas: seq<seq<Command>>)
    requires forall n :: LinkShows(base, deltas, n)
    ensures MergedAll(base, deltas) == DbReplay(base + Flattened(deltas))
  {
    if deltas == [] {
      assert base + [] == base;
    } else {
      var last := |deltas| - 1;
      var front, d := deltas[..last], deltas[last];
      forall n ensures LinkShows(base, front, n) {
        if n < last {
          LinkFront(base, deltas, n);
        }
      }
      ChainIsRight(base, front);
      assert LinkShows(base, deltas, last);
      MergeIsRightIff(base + Flattened(front), d);
      assert base + Flattened(deltas) == (base + Flattened(front)) + d;
    }
  }

  /** Merging one delta and then the other onto `base`. */
  function OneByOne(base: Db, d1: seq<Command>, d2: seq<Command>): Db {
    Merged(Merged(base, DbReplay(d1), Tombstones(d1)), DbReplay(d2), Tombstones(d2))
  }

  /** Merging the deltas with each other first; what a merge returns has no tombstones. */
  function Together(base: Db, d1: seq<Command>, d2: seq<Command>): Db {
    Merged(base, MergedReplay(d1, d2), [])
  }

  /** A tombstone of either delta that outlives both is lost when they are merged with each other. */
  lemma TombstoneLost(d1: seq<Command>, d2: seq<Command>, key: string)
    requires key in Tombstones(d2) || (key in Tombstones(d1) && key !in DbReplay(d2))
    ensures var base := map[key := ""]; Together(base, d1, d2) != OneByOne(base, d1, d2)
  {
    if key in Tombstones(d1) {
      TombstonesAreDead(d1, key);
    }
    assert key in Together(map[key := ""], d1, d2);
    assert key !in OneByOne(map[key := ""], d1, d2);
  }

  lemma NothingLost(base: Db, d1: seq<Command>, d2: seq<Command>)
    requires Tombstones(d2) == [] && forall key :: key in Tombstones(d1) ==> key in DbReplay(d2)
    ensures Together(base, d1, d2) == OneByOne(base, d1, d2)
  {
  }

  /**
   Deltas may be merged with each other before they reach a base exactly when the later one has no
   tombstones and puts back every key that the earlier one has buried.
   */
  lemma MergeFirstIff(d1: seq<Command>, d2: seq<Command>)
    ensures (forall base :: Together(base, d1, d2) == OneByOne(base, d1, d2)) <==>
            Tombstones(d2) == [] && forall key :: key in Tombstones(d1) ==> key in DbReplay(d2)
  {
    if Tombstones(d2) != [] {
      TombstoneLost(d1, d2, Tombstones(d2)[0]);
    } else if key :| key in Tombstones(d1) && key !in DbReplay(d2) {
      TombstoneLost(d1, d2, key);
    } else {
      forall base ensures Together(base, d1, d2) == OneByOne(base, d1, d2) {
        NothingLost(base, d1, d2);
      }
    }
  }
}
