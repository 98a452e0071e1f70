/** The Maelstrom node's snapshots: creation, installation and merging against replay of the log. */
module MaelstromSnapshot {
  import opened Values
  import opened Node

  /** One command folded into a snapshot under construction. */
  function Folded(data: Store, op: KVOp): Store {
    match op
    case Write(key, value) => data[key := value]
    case Cas(key, from, to) => if Lookup(data, key) == Some(from) then data[key := to] else data
    case Read(_) => data
  }

  function Created(entries: seq<Command>): Store {
    if entries == [] then map[] else Folded(Created(entries[..|entries| - 1]), entries[|entries| - 1].op)
  }

  class MaelstromKVSnapshot {
    var data: Store

    constructor Create(entries: seq<Command>)
      ensures data == Created(entries)
    {
      data := map[];
      new;
      for n := 0 to |entries|
        invariant data == Created(entries[..n])
      {
        match entries[n].op {
          case Write(key, value) =>
            data := data[key := value];
          case Cas(key, from, to) =>
            if key in data && data[key] == from {
              data := data[key := to];
            }
          case Read(_) =>
        }
        assert entries[..n + 1][..n] == entries[..n];
      }
      assert entries[..|entries|] == entries;
    }

    /** The delta's entries go in one by one, in any order. */
    method Merge(delta: MaelstromKVSnapshot)
      requires delta != this
      modifies this
      ensures data == old(data) + old(delta.data)
    {
      var left := delta.data.Keys;
      while left != {}
        invariant left <= delta.data.Keys && delta.data == old(delta.data)
        invariant data == old(data) + (delta.data - left)
      {
        var k :| k in left;
        data := data[k := delta.data[k]];
        left := left - {k};
      }
      assert delta.data - left == delta.data;
    }
  }

  /** A snapshot of a log is the store after the log: both code paths decide every compare-and-swap alike. */
  lemma {:induction false} CreatedIsReplay(log: seq<Command>)
    ensures Created(log) == Replay(log)
  {
    if log != [] {
      CreatedIsReplay(log[..|log| - 1]);
    }
  }

  lemma {:induction false} ApplyConcat(n: State, a: seq<LogEntry>, b: seq<LogEntry>)
    ensures var (n', first) := ApplyEntries(n, a);
      var (n'', second) := ApplyEntries(n', b);
      ApplyEntries(n, a + b) == (n'', first + second)
  {
    if b == [] {
      assert a + b == a && ApplyEntries(n, a).1 + [] == ApplyEntries(n, a).1;
    } else {
      var front, e := b[..|b| - 1], b[|b| - 1];
      var (n', first) := ApplyEntries(n, a);
      var (n'', second) := ApplyEntries(n', front);
      ApplyConcat(n, a, front);
      assert b == front + [e] && a + b == (a + front) + [e];
      ApplySnoc(n, a + front, e);
      ApplySnoc(n', front, e);
      assert (first + second) + ApplyEntry(n'', e).1 == first + (second + ApplyEntry(n'', e).1);
    }
  }

  /** Entries of any other kind might as well not be there. */
  lemma OtherEntriesIgnored(n: State, a: seq<LogEntry>, b: seq<LogEntry>)
    ensures ApplyEntries(n, a + [OtherEntry] + b) == ApplyEntries(n, a + b)
  {
    ApplySnoc(n, a, OtherEntry);
    ApplyConcat(n, a + [OtherEntry], b);
    ApplyConcat(n, a, b);
    assert ApplyEntries(n, a).1 + [] == ApplyEntries(n, a).1;
  }

  lemma InstallOnly(n: State, data: Store)
    ensures ApplyEntries(n, [Snapshotted(data)]) == (n.(store := data), [])
  {
    ApplySnoc(n, [], Snapshotted(data));
    var none: seq<Output> := [];
    assert [] + [Snapshotted(data)] == [Snapshotted(data)] && none + none == none;
  }

  lemma ApplyTail(n: State, log: seq<Command>, s: nat)
    requires s <= |log| && n.store == Replay(log[..s])
    ensures ApplyEntries(n, AsDecided(log[s..])) == (n.(store := Replay(log)), Owed(n.id, log, s, |log|))
  {
    ApplyRange(n, log, s, |log|);
    assert log[s..|log|] == log[s..] && log[..|log|] == log;
  }

  /**
   Installing a snapshot of the first `s` entries and applying the rest gives the store of applying
   everything; the answers owed for the compacted entries are never written.
   */
  lemma InstallRefinesReplay(n: State, log: seq<Command>, s: nat)
    requires s <= |log|
    ensures ApplyEntries(n, [Snapshotted(Created(log[..s]))] + AsDecided(log[s..]))
         == (n.(store := Replay(log)), Owed(n.id, log, s, |log|))
    ensures n.decidedIdx < |log| ==>
      Process(n, |log|, [Snapshotted(Created(log[..s]))] + AsDecided(log[s..])) ==
      (n.(store := Replay(log), decidedIdx := |log|), Owed(n.id, log, s, |log|))
  {
    InstallAnywhere(n, log, s);
    InstallAnywhere(n.(decidedIdx := |log|), log, s);
  }

  lemma InstallAnywhere(n: State, log: seq<Command>, s: nat)
    requires s <= |log|
    ensures ApplyEntries(n, [Snapshotted(Created(log[..s]))] + AsDecided(log[s..]))
         == (n.(store := Replay(log)), Owed(n.id, log, s, |log|))
  {
    var data := Created(log[..s]);
    CreatedIsReplay(log[..s]);
    InstallOnly(n, data);
    ApplyConcat(n, [Snapshotted(data)], AsDecided(log[s..]));
    ApplyTail(n.(store := data), log, s);
    assert [] + Owed(n.id, log, s, |log|) == Owed(n.id, log, s, |log|);
  }

  // ---- Merging a delta ----

  /** One key's value after an operation, given its value before. */
  function KeyStep(v: Option<Value>, op: KVOp, key: string): Option<Value> {
    match op
    case Write(k, value) => if k == key then Some(value) else v
    case Cas(k, from, to) => if k == key && v == Some(from) then Some(to) else v
    case Read(_) => v
  }

  function KeyAfter(v: Option<Value>, b: seq<Command>, key: string): Option<Value> {
    if b == [] then v else KeyStep(KeyAfter(v, b[..|b| - 1], key), b[|b| - 1].op, key)
  }

  lemma {:induction false} KeyReplay(a: seq<Command>, b: seq<Command>, key: string)
    ensures Lookup(Created(a + b), key) == KeyAfter(Lookup(Created(a), key), b, key)
  {
    if b == [] {
      assert a + b == a;
    } else {
      KeyReplay(a, b[..|b| - 1], key);
      assert (a + b)[..|a + b| - 1] == a + b[..|b| - 1];
    }
  }

  predicate Writes(c: Command, key: string) {
    c.op.Write? && c.op.key == key
  }

  predicate Written(b: seq<Command>, key: string) {
    exists j :: 0 <= j < |b| && Writes(b[j], key)
  }

  lemma {:induction false} WrittenForgets(b: seq<Command>, key: string, v: Option<Value>)
    requires Written(b, key)
    ensures KeyAfter(v, b, key) == KeyAfter(None, b, key) && KeyAfter(v, b, key).Some?
  {
    var front := b[..|b| - 1];
    if !Writes(b[|b| - 1], key) {
      var j :| 0 <= j < |b| && Writes(b[j], key);
      assert Writes(front[j], key);
      WrittenForgets(front, key, v);
    }
  }

  lemma {:induction false} UnwrittenStaysAbsent(b: seq<Command>, key: string)
    requires !Written(b, key)
    ensures KeyAfter(None, b, key) == None
  {
    if b != [] {
      assert forall j :: 0 <= j < |b| - 1 ==> b[..|b| - 1][j] == b[j];
      UnwrittenStaysAbsent(b[..|b| - 1], key);
    }
  }

  /** A compare-and-swap that can change its key's value. */
  predicate RealCas(c: Command, key: string) {
    c.op.Cas? && c.op.key == key && c.op.from != c.op.to
  }

  lemma {:induction false} NothingChanges(b: seq<Command>, key: string, v: Option<Value>)
    requires forall j :: 0 <= j < |b| ==> !Writes(b[j], key) && !RealCas(b[j], key)
    ensures KeyAfter(v, b, key) == v
  {
    if b != [] {
      NothingChanges(b[..|b| - 1], key, v);
    }
  }

  /** Every real compare-and-swap of the delta is on a key that the delta also writes. */
  predicate SelfContained(b: seq<Command>) {
    forall i :: 0 <= i < |b| && RealCas(b[i], b[i].op.key) ==> Written(b, b[i].op.key)
  }

  ghost predicate MergesRight(a: seq<Command>, b: seq<Command>) {
    Created(a) + Created(b) == Created(a + b)
  }

  lemma SelfContainedKey(a: seq<Command>, b: seq<Command>, key: string)
    requires SelfContained(b)
    ensures Lookup(Created(a) + Created(b), key) == Lookup(Created(a + b), key)
  {
    KeyReplay(a, b, key);
    KeyReplay([], b, key);
    assert [] + b == b;
    if Written(b, key) {
      WrittenForgets(b, key, Lookup(Created(a), key));
    } else {
      UnwrittenStaysAbsent(b, key);
      NothingChanges(b, key, Lookup(Created(a), key));
    }
  }

  lemma {:induction false} FirstRealCas(b: seq<Command>, key: string, i: nat) returns (first: nat)
    requires i < |b| && RealCas(b[i], key)
    ensures first < |b| && RealCas(b[first], key) && forall j :: 0 <= j < first ==> !RealCas(b[j], key)
  {
    if exists j :: 0 <= j < i && RealCas(b[j], key) {
      var j :| 0 <= j < i && RealCas(b[j], key);
      first := FirstRealCas(b, key, j);
    } else {
      first := i;
    }
  }

  /** Two different starting values that end up the same: at most one of them can have been kept. */
  lemma {:induction false} StrayCasMerges(b: seq<Command>, key: string, i: nat)
    requires i < |b| && RealCas(b[i], key) && !Written(b, key)
    requires forall j :: 0 <= j < i ==> !RealCas(b[j], key)
    ensures KeyAfter(Some(b[i].op.from), b, key) == KeyAfter(Some(b[i].op.to), b, key)
  {
    var front := b[..|b| - 1];
    assert forall j :: 0 <= j < |front| ==> front[j] == b[j];
    if i == |b| - 1 {
      NothingChanges(front, key, Some(b[i].op.from));
      NothingChanges(front, key, Some(b[i].op.to));
    } else {
      StrayCasMerges(front, key, i);
    }
  }

  lemma StrayCasBreaks(b: seq<Command>, key: string, i: nat) returns (a: seq<Command>)
    requires i < |b| && RealCas(b[i], key) && !Written(b, key)
    ensures !MergesRight(a, b)
  {
    var first := FirstRealCas(b, key, i);
    var from, to := b[first].op.from, b[first].op.to;
    StrayCasMerges(b, key, first);
    var v := if KeyAfter(Some(from), b, key) == Some(from) then to else from;
    a := [Command("", "", 0, Write(key, v))];
    assert a[..0] == [];
    assert Lookup(Created(a), key) == Some(v);
    KeyReplay(a, b, key);
    KeyReplay([], b, key);
    assert [] + b == b;
    UnwrittenStaysAbsent(b, key);
    assert Lookup(Created(a) + Created(b), key) == Some(v);
  }

  /**
   A delta merges correctly onto every base exactly when each of its compare-and-swaps that could change
   a value is on a key it also writes somewhere.
   */
  lemma MergeIsRightIff(b: seq<Command>)
    ensures (forall a :: MergesRight(a, b)) <==> SelfContained(b)
  {
    if SelfContained(b) {
      forall a ensures MergesRight(a, b) {
        forall key ensures Lookup(Created(a) + Created(b), key) == Lookup(Created(a + b), key) {
          SelfContainedKey(a, b, key);
        }
        SameLookups(Created(a) + Created(b), Created(a + b));
      }
    } else {
      var i :| 0 <= i < |b| && RealCas(b[i], b[i].op.key) && !Written(b, b[i].op.key);
      var a := StrayCasBreaks(b, b[i].op.key, i);
    }
  }
}
