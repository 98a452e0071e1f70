/**
 The cluster is linearizable in every run, whatever the record misses: once the logged commands without a
 recorded answer are completed with the answers the log gives them, the history has a linearization.
 */
module Completion {
  import opened Values
  import opened Checker
  import opened History
  import opened Node
  import opened Harness
  import opened Cluster
  import opened Safety
  import opened EndToEnd

  // ---- Completing a history ----

  /** Every logged command was invoked on record. */
  ghost predicate LogInvoked(log: seq<Command>, h: seq<HistoryEntry>) {
    forall j {:trigger log[j]} :: 0 <= j < |log| ==> InvokedBy(h, |h|, log[j], MAX_TIME)
  }

  lemma RunIsInvoked(run: seq<Cluster>, actions: seq<Action>, k: nat)
    requires IsRun(run, actions) && k < |run|
    ensures LogInvoked(run[k].log, run[k].history)
  {
    var c := run[k];
    RunKeepsInv(run, actions, k);
    forall j | 0 <= j < |c.log| ensures InvokedBy(c.history, |c.history|, c.log[j], MAX_TIME) {
      InLogIsEverywhere(c, j);
      InvokedStable(c.history, c.history, |c.history|, |c.history|, c.log[j], c.clock, MAX_TIME);
    }
  }

  /** The record of the log's own answer to position `j`, at the end of time. */
  function LateAnswer(log: seq<Command>, j: nat): HistoryEntry
    requires j < |log|
  {
    EntryFor(log[j].msgId, ResultAt(log, j), MAX_TIME)
  }

  /** The answers to the first `n` log entries that are not on record, in log order. */
  ghost function Missing(log: seq<Command>, h: seq<HistoryEntry>, n: nat): seq<HistoryEntry>
    requires n <= |log|
  {
    if n == 0 then []
    else if Recorded(h, log[n - 1].msgId) then Missing(log, h, n - 1)
    else Missing(log, h, n - 1) + [LateAnswer(log, n - 1)]
  }

  ghost function Completed(log: seq<Command>, h: seq<HistoryEntry>): seq<HistoryEntry> {
    h + Missing(log, h, |log|)
  }

  lemma {:induction false} MissingFrom(log: seq<Command>, h: seq<HistoryEntry>, n: nat, k: nat) returns (j: nat)
    requires n <= |log| && k < |Missing(log, h, n)|
    ensures j < n && !Recorded(h, log[j].msgId) && Missing(log, h, n)[k] == LateAnswer(log, j)
  {
    if k < |Missing(log, h, n - 1)| {
      j := MissingFrom(log, h, n - 1, k);
    } else {
      j := n - 1;
    }
  }

  lemma {:induction false} MissingHas(log: seq<Command>, h: seq<HistoryEntry>, n: nat, j: nat)
    requires j < n <= |log| && !Recorded(h, log[j].msgId)
    ensures LateAnswer(log, j) in Missing(log, h, n)
  {
    if j < n - 1 {
      MissingHas(log, h, n - 1, j);
    }
  }

  lemma MissingAreAnswers(log: seq<Command>, h: seq<HistoryEntry>, n: nat)
    requires n <= |log|
    ensures forall k :: 0 <= k < |Missing(log, h, n)| ==> Missing(log, h, n)[k].Completion?
  {
  }

  // ---- The completed history is explained by the log and has no gaps ----

  lemma LateExplained(log: seq<Command>, h: seq<HistoryEntry>, k: nat)
    requires LogInvoked(log, h) && |h| <= k < |Completed(log, h)|
    ensures HasExplanation(log, Completed(log, h), k)
  {
    var h' := Completed(log, h);
    var j := MissingFrom(log, h, |log|, k - |h|);
    forall i | 0 <= i <= j ensures InvokedBy(h', k, log[i], MAX_TIME) {
      InvokedStable(h, h', |h|, k, log[i], MAX_TIME, MAX_TIME);
    }
    assert Explains(log, h', j, k);
  }

  lemma CompletedExplained(log: seq<Command>, h: seq<HistoryEntry>)
    requires Explained(log, h) && LogInvoked(log, h)
    ensures Explained(log, Completed(log, h))
  {
    var h' := Completed(log, h);
    forall k | 0 <= k < |h'| && h'[k].Completion? ensures HasExplanation(log, h', k) {
      if k < |h| {
        assert HasExplanation(log, h, k);
        var j :| Explains(log, h, j, k);
        ExplainsStable(log, log, h, h', j, k);
      } else {
        LateExplained(log, h, k);
      }
    }
  }

  lemma CompletedRecords(log: seq<Command>, h: seq<HistoryEntry>, j: nat)
    requires j < |log|
    ensures Recorded(Completed(log, h), log[j].msgId)
  {
    var h' := Completed(log, h);
    if Recorded(h, log[j].msgId) {
      var k :| 0 <= k < |h| && h[k].Completion? && h[k].id == log[j].msgId;
      assert h'[k] == h[k];
    } else {
      MissingHas(log, h, |log|, j);
      var k :| 0 <= k < |Missing(log, h, |log|)| && Missing(log, h, |log|)[k] == LateAnswer(log, j);
      assert h'[|h| + k] == LateAnswer(log, j);
    }
  }

  lemma CompletedFaithful(log: seq<Command>, h: seq<HistoryEntry>)
    requires Faithful(log, h) && LogInvoked(log, h)
    ensures Faithful(log, Completed(log, h)) && GapsHarmless(log, Completed(log, h))
  {
    MissingAreAnswers(log, h, |log|);
    CompletedExplained(log, h);
    forall j | 0 <= j < |log| ensures !Gap(log, Completed(log, h), j) {
      CompletedRecords(log, h, j);
    }
  }

  // ---- What completion adds ----

  ghost function CallIn(h: seq<HistoryEntry>, x: Command): (m: int)
    requires InvokedBy(h, |h|, x, MAX_TIME)
    ensures 0 <= m < |h| && Matches(h[m], x)
  {
    var m :| 0 <= m < |h| && m < |h| && Matches(h[m], x) && h[m].time <= MAX_TIME;
    m
  }

  /** The operations of the first `n` log entries without a recorded answer: their own invocation, the log's answer. */
  ghost function PendingOps(log: seq<Command>, h: seq<HistoryEntry>, n: nat): Ops
    requires LogInvoked(log, h) && n <= |log|
  {
    if n == 0 then multiset{}
    else if Recorded(h, log[n - 1].msgId) then PendingOps(log, h, n - 1)
    else PendingOps(log, h, n - 1) + multiset{Pair(h[CallIn(h, log[n - 1])], LateAnswer(log, n - 1))}
  }

  lemma StillOpen(log: seq<Command>, h: seq<HistoryEntry>, n: nat, m: int)
    requires UniqueCalls(h) && DistinctIds(log) && n < |log| && !Recorded(h, log[n].msgId)
    requires 0 <= m < |h| && Matches(h[m], log[n])
    ensures var all := h + Missing(log, h, n); Open(all, |all|, m)
  {
  }

  lemma {:induction false} CompletionAdds(log: seq<Command>, h: seq<HistoryEntry>, n: nat)
    requires UniqueCalls(h) && DistinctIds(log) && LogInvoked(log, h) && n <= |log|
    ensures OpsOf(h + Missing(log, h, n)) == OpsOf(h) + PendingOps(log, h, n)
  {
    if n == 0 {
      assert h + [] == h;
    } else {
      CompletionAdds(log, h, n - 1);
      if !Recorded(h, log[n - 1].msgId) {
        LateAnswerAdds(log, h, n - 1);
      }
    }
  }

  lemma LateAnswerAdds(log: seq<Command>, h: seq<HistoryEntry>, n: nat)
    requires UniqueCalls(h) && DistinctIds(log) && LogInvoked(log, h) && n < |log| && !Recorded(h, log[n].msgId)
    ensures OpsOf(h + Missing(log, h, n + 1)) ==
            OpsOf(h + Missing(log, h, n)) + multiset{Pair(h[CallIn(h, log[n])], LateAnswer(log, n))}
  {
    var before, e, m := h + Missing(log, h, n), LateAnswer(log, n), CallIn(h, log[n]);
    StillOpen(log, h, n, m);
    assert h + Missing(log, h, n + 1) == before + [e];
    OpenPrefix(before, e, m);
    OneMore(before, e, m);
  }

  lemma OpenPrefix(h: seq<HistoryEntry>, e: HistoryEntry, m: int)
    requires Open(h, |h|, m)
    ensures Open(h + [e], |h|, m)
  {
  }

  // ---- The theorem ----

  /**
   Every run of the cluster is linearizable, with no hypothesis on the record: the operations on record
   together with the pending ones have a linearization, and the checker passes the completed history.
   */
  lemma EveryRunIsLinearizable(run: seq<Cluster>, actions: seq<Action>)
    requires IsRun(run, actions)
    ensures var c := run[|run| - 1];
      && LogInvoked(c.log, c.history)
      && Linearizable(OpsOf(c.history) + PendingOps(c.log, c.history, |c.log|), map[])
      && Accepted(Completed(c.log, c.history))
  {
    var log, h := run[|run| - 1].log, run[|run| - 1].history;
    RunIsFaithful(run, actions, |run| - 1);
    RunIsInvoked(run, actions, |run| - 1);
    CompletedFaithful(log, h);
    FaithfulPasses(log, Completed(log, h));
    CompletionAdds(log, h, |log|);
  }
}
