/**
 How exact the hypothesis of the end-to-end theorem is: in runs whose changes can be told apart by the values they
 leave, the checker passes a run only if no recorded read or successful compare-and-swap has looked at a gap. That
 is the hypothesis itself unless a failed compare-and-swap behind a gap expects a value that is on record.
 */
module VisibleGaps {
  import opened Values
  import opened Checker
  import opened Locality
  import opened History
  import opened Node
  import opened Cluster
  import opened EndToEnd

  /** The value that position `j` brings to its key: a write's, or that of a successful swap for another value. */
  function Brought(log: seq<Command>, j: nat): Option<Value>
    requires j < |log|
  {
    if log[j].op.Write? then Some(log[j].op.value)
    else if Swaps(log, j) && log[j].op.from != log[j].op.to then Some(log[j].op.to)
    else None
  }

  /** Position `j` brings a value to `key`. */
  predicate BringsTo(log: seq<Command>, key: string, j: nat) {
    j < |log| && log[j].op.key == key && Brought(log, j).Some?
  }

  /** No two positions bring the same value to the same key. */
  ghost predicate TellApart(log: seq<Command>) {
    forall key, i, j :: BringsTo(log, key, i) && BringsTo(log, key, j) && Brought(log, i) == Brought(log, j) ==> i == j
  }

  /** Position `i`, on record, depends on the value its key has behind `j`: a read, or a successful swap. */
  ghost predicate Sees(log: seq<Command>, h: seq<HistoryEntry>, j: int, i: int) {
    LooksAt(log, h, j, i) && (log[i].op.Read? || Swaps(log, i))
  }

  /** No recorded read or successful swap looks at a change that is not on record. */
  ghost predicate GapsUnseen(log: seq<Command>, h: seq<HistoryEntry>) {
    forall j, i :: Gap(log, h, j) && Sees(log, h, j, i) ==> Overwritten(log, h, j, i)
  }

  /** A recorded failed swap that looks at a change not on record is hopeless. */
  ghost predicate FailuresHopeless(log: seq<Command>, h: seq<HistoryEntry>) {
    forall j, i :: Gap(log, h, j) && LooksAt(log, h, j, i) && !Sees(log, h, j, i) && !Overwritten(log, h, j, i) ==>
      Hopeless(log, h, i)
  }

  /** Behind a change the key holds what the last change brought. */
  lemma {:induction false} LastChange(log: seq<Command>, key: string, j: nat, i: nat) returns (m: nat)
    requires j < i <= |log| && BringsTo(log, key, j)
    ensures j <= m < i && BringsTo(log, key, m) && Lookup(Replay(log[..i]), key) == Brought(log, m)
  {
    ReplayNext(log, i - 1);
    if BringsTo(log, key, i - 1) {
      m := i - 1;
    } else {
      m := LastChange(log, key, j, i - 1);
    }
  }

  lemma GapBrings(log: seq<Command>, h: seq<HistoryEntry>, j: nat)
    requires Gap(log, h, j)
    ensures BringsTo(log, log[j].op.key, j)
  {
    ReplayNext(log, j);
    var store, key := Replay(log[..j]), log[j].op.key;
    assert key in store ==> store[key := store[key]] == store;
  }

  /** The first to see a gap finds a value whose own change is not on record. */
  lemma {:induction false} FirstToSee(log: seq<Command>, h: seq<HistoryEntry>, j: nat, i: nat)
    returns (m: nat, first: nat)
    requires Gap(log, h, j) && Sees(log, h, j, i) && !Overwritten(log, h, j, i)
    ensures m < first <= i && Sees(log, h, j, first)
    ensures BringsTo(log, log[j].op.key, m) && !Recorded(h, log[m].msgId)
    ensures Lookup(Replay(log[..first]), log[j].op.key) == Brought(log, m)
    decreases i
  {
    GapBrings(log, h, j);
    m := LastChange(log, log[j].op.key, j, i);
    first := i;
    if Recorded(h, log[m].msgId) {
      assert !Overwrites(log, h, j, m);
      m, first := FirstToSee(log, h, j, m);
    }
  }

  /** The operation of a recorded read or successful swap needs the value that the log held for it. */
  lemma RecordedNeeds(log: seq<Command>, h: seq<HistoryEntry>, i: nat, v: Value) returns (r: LinearOp)
    requires Faithful(log, h) && i < |log| && (log[i].op.Read? || Swaps(log, i)) && Recorded(h, log[i].msgId)
    requires Lookup(Replay(log[..i]), log[i].op.key) == Some(v)
    ensures r in OpsOf(h) && r.key == log[i].op.key && Needs(r, v)
  {
    RecordedIsAnswered(log, h, log[i].msgId);
    r := OpFor(h, log[i].msgId);
    LoggedOp(log, h, i);
    LogOrderHas(log, h, |log|, i);
    LogInHistory(log, h, r);
  }

  /** An operation on record that brings the value of change `m` is change `m`. */
  lemma OnlyItsChange(log: seq<Command>, h: seq<HistoryEntry>, m: nat, o: LinearOp)
    requires Faithful(log, h) && TellApart(log) && m < |log| && Brought(log, m).Some?
    requires o in OpsOf(h) && Brings(o, log[m].op.key, Brought(log, m).value)
    ensures Recorded(h, log[m].msgId)
  {
    HistoryInLog(log, h, o);
    var j := LogOrderFrom(log, h, |log|, o);
    LoggedOp(log, h, j);
    AnsweredIsRecorded(h, log[j].msgId);
    assert BringsTo(log, o.key, j) && BringsTo(log, o.key, m) && Brought(log, j) == Brought(log, m);
  }

  /** A gap that a recorded read or successful swap has seen makes the checker reject. */
  lemma SeenGapRejected(log: seq<Command>, h: seq<HistoryEntry>, j: nat, i: nat)
    requires Faithful(log, h) && TellApart(log) && WithinHorizon(OpsOf(h))
    requires Gap(log, h, j) && Sees(log, h, j, i) && !Overwritten(log, h, j, i)
    ensures !Accepted(h)
  {
    var m, first := FirstToSee(log, h, j, i);
    var v := Brought(log, m).value;
    var r := RecordedNeeds(log, h, first, v);
    forall o | o in OpsOf(h) ensures !Brings(o, r.key, v) {
      if Brings(o, r.key, v) {
        OnlyItsChange(log, h, m, o);
      }
    }
    assert |KeyOps(OpsOf(h), r.key)| <= 101;
    UnexplainedRejected(OpsOf(h), r, v);
  }

  /** The end of a run whose changes tell apart and whose keys are within the depth of the search. */
  ghost predicate Telling(c: Cluster) {
    TellApart(c.log) && WithinHorizon(OpsOf(c.history))
  }

  /** A run passes only if no recorded read or successful swap has seen a gap, failed swaps on record or none. */
  lemma PassingRunSeesNoGap(run: seq<Cluster>, actions: seq<Action>)
    requires IsRun(run, actions) && Telling(run[|run| - 1]) && Accepted(run[|run| - 1].history)
    ensures GapsUnseen(run[|run| - 1].log, run[|run| - 1].history)
  {
    var log, h := run[|run| - 1].log, run[|run| - 1].history;
    RunIsFaithful(run, actions, |run| - 1);
    forall j, i | Gap(log, h, j) && Sees(log, h, j, i) ensures Overwritten(log, h, j, i) {
      if !Overwritten(log, h, j, i) {
        SeenGapRejected(log, h, j, i);
      }
    }
  }

  /** The hypothesis of the end-to-end theorem is exact when failed swaps on record that look at gaps are hopeless. */
  lemma RunPassesIff(run: seq<Cluster>, actions: seq<Action>)
    requires IsRun(run, actions) && Telling(run[|run| - 1])
    requires FailuresHopeless(run[|run| - 1].log, run[|run| - 1].history)
    ensures var c := run[|run| - 1]; Accepted(c.history) <==> GapsHarmless(c.log, c.history)
  {
    var log, h := run[|run| - 1].log, run[|run| - 1].history;
    if GapsHarmless(log, h) {
      EveryRunPasses(run, actions);
    }
    if Accepted(h) {
      PassingRunSeesNoGap(run, actions);
    }
  }

  predicate ReadsAndWrites(log: seq<Command>) {
    forall j :: 0 <= j < |log| ==> !log[j].op.Cas?
  }

  /** In particular it is exact for runs of reads and writes. */
  lemma ReadWriteRunPassesIff(run: seq<Cluster>, actions: seq<Action>)
    requires IsRun(run, actions) && Telling(run[|run| - 1]) && ReadsAndWrites(run[|run| - 1].log)
    ensures var c := run[|run| - 1]; Accepted(c.history) <==> GapsHarmless(c.log, c.history)
  {
    RunPassesIff(run, actions);
  }
}
