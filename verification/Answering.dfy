/**
 How often commands are answered: as long as no node restarts, what a node has written is, in log order, one
 answer to each of its own commands that it has applied; in general, one for each time it applies it.
 */
module Answering {
  import opened Sequences
  import opened Node
  import opened Cluster
  import opened Safety

  /** The answers that node `id` wrote, in order. */
  function From(sent: seq<Reply>, id: string): seq<Reply> {
    if sent == [] then []
    else From(sent[..|sent| - 1], id) + if sent[|sent| - 1].src == id then [sent[|sent| - 1]] else []
  }

  lemma {:induction false} FromConcat(a: seq<Reply>, b: seq<Reply>, id: string)
    ensures From(a + b, id) == From(a, id) + From(b, id)
  {
    if b == [] {
      assert a + b == a;
    } else {
      FromConcat(a, b[..|b| - 1], id);
      assert (a + b)[..|a + b| - 1] == a + b[..|b| - 1];
    }
  }

  lemma {:induction false} FromCounts(sent: seq<Reply>, r: Reply)
    ensures multiset(From(sent, r.src))[r] == multiset(sent)[r]
  {
    if sent != [] {
      FromCounts(sent[..|sent| - 1], r);
      LastBag(sent);
    }
  }

  lemma {:induction false} RepliesConcat(a: seq<Output>, b: seq<Output>)
    ensures RepliesIn(a + b) == RepliesIn(a) + RepliesIn(b)
  {
    if b == [] {
      assert a + b == a;
    } else {
      RepliesConcat(a, b[..|b| - 1]);
      assert (a + b)[..|a + b| - 1] == a + b[..|b| - 1];
    }
  }

  /** The answers that node `id` owes for positions `lo` to `hi`. */
  function Due(id: string, log: seq<Command>, lo: nat, hi: nat): seq<Reply>
    requires lo <= hi <= |log|
  {
    RepliesIn(Owed(id, log, lo, hi))
  }

  lemma DueNext(id: string, log: seq<Command>, lo: nat, hi: nat)
    requires lo < hi <= |log|
    ensures Due(id, log, lo, hi) ==
            Due(id, log, lo, hi - 1) + if log[hi - 1].coordinator == id then [AnswerTo(log, hi - 1)] else []
  {
    var front := Owed(id, log, lo, hi - 1);
    if log[hi - 1].coordinator == id {
      assert (front + [ReplyLine(AnswerTo(log, hi - 1))])[..|front|] == front;
    } else {
      assert front + [] == front;
    }
  }

  lemma {:induction false} DueIsOwn(id: string, log: seq<Command>, lo: nat, hi: nat, other: string)
    requires lo <= hi <= |log|
    ensures From(Due(id, log, lo, hi), other) == if other == id then Due(id, log, lo, hi) else []
  {
    if lo < hi {
      DueIsOwn(id, log, lo, hi - 1, other);
      DueNext(id, log, lo, hi);
      var front := Due(id, log, lo, hi - 1);
      if log[hi - 1].coordinator == id {
        assert (front + [AnswerTo(log, hi - 1)])[..|front|] == front;
      } else {
        assert front + [] == front;
      }
    }
  }

  /** `r` answers position `j` and no other. */
  ghost predicate AnswersOnly(log: seq<Command>, j: int, r: Reply) {
    0 <= j < |log| && forall m :: 0 <= m < |log| ==> (AnswerTo(log, m) == r <==> m == j)
  }

  lemma IdsTellApart(log: seq<Command>, j: nat)
    requires j < |log| && DistinctIds(log)
    ensures AnswersOnly(log, j, AnswerTo(log, j))
  {
  }

  /** How many positions from `lo` to `hi` node `id` coordinates and answers with `r`. */
  ghost function HowOften(id: string, log: seq<Command>, lo: nat, hi: nat, r: Reply): nat
    requires lo <= hi <= |log|
  {
    if lo == hi then 0
    else HowOften(id, log, lo, hi - 1, r) + if log[hi - 1].coordinator == id && AnswerTo(log, hi - 1) == r then 1 else 0
  }

  /** How often `r` is due. */
  ghost function DueTimes(id: string, log: seq<Command>, lo: nat, hi: nat, r: Reply): nat
    requires lo <= hi <= |log|
  {
    multiset(Due(id, log, lo, hi))[r]
  }

  lemma NothingDue(id: string, log: seq<Command>, lo: nat, r: Reply)
    requires lo <= |log|
    ensures DueTimes(id, log, lo, lo, r) == 0
  {
    assert Due(id, log, lo, lo) == [];
  }

  lemma DueCount(id: string, log: seq<Command>, lo: nat, hi: nat, r: Reply)
    requires lo < hi <= |log|
    ensures DueTimes(id, log, lo, hi, r) ==
            DueTimes(id, log, lo, hi - 1, r) +
            if log[hi - 1].coordinator == id && AnswerTo(log, hi - 1) == r then 1 else 0
  {
    DueNext(id, log, lo, hi);
  }

  lemma {:induction false} DueIsCounted(id: string, log: seq<Command>, lo: nat, hi: nat, r: Reply)
    requires lo <= hi <= |log|
    ensures DueTimes(id, log, lo, hi, r) == HowOften(id, log, lo, hi, r)
  {
    if lo == hi {
      NothingDue(id, log, lo, r);
    } else {
      DueIsCounted(id, log, lo, hi - 1, r);
      DueCount(id, log, lo, hi, r);
    }
  }

  lemma {:induction false} OnceAtMost(id: string, log: seq<Command>, lo: nat, hi: nat, j: nat, r: Reply)
    requires lo <= hi <= |log| && AnswersOnly(log, j, r)
    ensures HowOften(id, log, lo, hi, r) == if lo <= j < hi && log[j].coordinator == id then 1 else 0
  {
    if lo < hi {
      OnceAtMost(id, log, lo, hi - 1, j, r);
    }
  }

  /** The answer to position `j` is due once, from its coordinator, in the range that holds `j`. */
  lemma DueOnce(id: string, log: seq<Command>, lo: nat, hi: nat, j: nat)
    requires lo <= hi <= |log| && j < |log| && DistinctIds(log)
    ensures multiset(Due(id, log, lo, hi))[AnswerTo(log, j)] ==
            if lo <= j < hi && log[j].coordinator == id then 1 else 0
  {
    IdsTellApart(log, j);
    DueIsCounted(id, log, lo, hi, AnswerTo(log, j));
    OnceAtMost(id, log, lo, hi, j, AnswerTo(log, j));
  }

  ghost predicate DistinctNames(c: Cluster) {
    forall i, j :: 0 <= i < j < |c.nodes| ==> c.nodes[i].id != c.nodes[j].id
  }

  /** Each node has written the answers to exactly the positions it has applied. */
  ghost predicate UpToDate(c: Cluster) {
    forall i :: 0 <= i < |c.nodes| ==> Answered(c, i)
  }

  ghost predicate Answered(c: Cluster, i: nat)
    requires i < |c.nodes|
  {
    var n := c.nodes[i];
    n.decidedIdx <= |c.log| && From(c.sent, n.id) == Due(n.id, c.log, 0, n.decidedIdx)
  }

  /** Applying the log: the node adds what it owes, and the answers of the others stay as they are. */
  lemma ApplyAnswers(c: Cluster, node: nat, i: nat)
    requires Enabled(c, ApplyDecided(node)) && Replicas(c) && DistinctNames(c) && i < |c.nodes| && Answered(c, i)
    ensures Answered(Next(c, ApplyDecided(node)), i)
  {
    var n, c' := c.nodes[node], Next(c, ApplyDecided(node));
    var hi := c'.nodes[node].decidedIdx;
    ProcessCatchesUp(n, c.log, c.decided[node]);
    FromConcat(c.sent, Due(n.id, c.log, n.decidedIdx, hi), c.nodes[i].id);
    DueIsOwn(n.id, c.log, n.decidedIdx, hi, c.nodes[i].id);
    if i == node {
      OwedSplits(n.id, c.log, 0, n.decidedIdx, hi);
      RepliesConcat(Owed(n.id, c.log, 0, n.decidedIdx), Owed(n.id, c.log, n.decidedIdx, hi));
    }
  }

  lemma NodeKept(c: Cluster, a: Action, i: nat)
    requires Enabled(c, a) && i < |c.nodes| && !a.ApplyDecided? && !a.Restart?
    ensures |Next(c, a).nodes| == |c.nodes|
    ensures Next(c, a).nodes[i].id == c.nodes[i].id && Next(c, a).nodes[i].decidedIdx == c.nodes[i].decidedIdx
  {
    match a
    case Deliver(message, node, answer) => HandleConserves(c.nodes[node], c.network[message], answer);
    case Retry(node, answers) => TickConserves(c.nodes[node], answers);
    case _ =>
  }

  lemma OtherStepAnswers(c: Cluster, a: Action, i: nat)
    requires Enabled(c, a) && i < |c.nodes| && !a.ApplyDecided? && !a.Restart? && Answered(c, i)
    ensures |Next(c, a).nodes| == |c.nodes| && Answered(Next(c, a), i)
  {
    NodeKept(c, a, i);
    OnlyApplyAnswers(c, a);
    NextExtends(c, a);
    OwedStable(c.nodes[i].id, c.log, Next(c, a).log, 0, c.nodes[i].decidedIdx);
  }

  lemma NamesKept(c: Cluster, a: Action)
    requires Enabled(c, a) && Replicas(c)
    ensures |Next(c, a).nodes| == |c.nodes|
    ensures forall i :: 0 <= i < |c.nodes| ==> Next(c, a).nodes[i].id == c.nodes[i].id
  {
    if a.ApplyDecided? {
      ProcessCatchesUp(c.nodes[a.node], c.log, c.decided[a.node]);
    } else if !a.Restart? {
      forall i | 0 <= i < |c.nodes| ensures |Next(c, a).nodes| == |c.nodes| && Next(c, a).nodes[i].id == c.nodes[i].id {
        NodeKept(c, a, i);
      }
    }
  }

  lemma StepUpToDate(c: Cluster, a: Action)
    requires Enabled(c, a) && !a.Restart? && Replicas(c) && DistinctNames(c) && UpToDate(c)
    ensures DistinctNames(Next(c, a)) && UpToDate(Next(c, a))
  {
    NamesKept(c, a);
    forall i | 0 <= i < |c.nodes| ensures Answered(Next(c, a), i) {
      if a.ApplyDecided? {
        ApplyAnswers(c, a.node, i);
      } else {
        OtherStepAnswers(c, a, i);
      }
    }
  }

  ghost predicate NoRestart(actions: seq<Action>) {
    forall k :: 0 <= k < |actions| ==> !actions[k].Restart?
  }

  /** In every run without restarts each node's answers are, in order, those its applied prefix calls for. */
  lemma {:induction false} AnswersInLogOrder(run: seq<Cluster>, actions: seq<Action>, k: nat)
    requires IsRun(run, actions) && k < |run| && NoRestart(actions) && DistinctNames(run[0])
    ensures DistinctNames(run[k]) && UpToDate(run[k])
  {
    if k > 0 {
      AnswersInLogOrder(run, actions, k - 1);
      RunKeepsInv(run, actions, k - 1);
      StepUpToDate(run[k - 1], actions[k - 1]);
    }
  }

  /**
   Exactly once: without restarts a logged command has one answer on the wire if its coordinator has
   applied it and none otherwise.
   */
  lemma AnsweredExactlyOnce(run: seq<Cluster>, actions: seq<Action>, k: nat, i: nat, j: nat)
    requires IsRun(run, actions) && k < |run| && NoRestart(actions) && DistinctNames(run[0])
    requires i < |run[k].nodes| && j < |run[k].log| && run[k].log[j].coordinator == run[k].nodes[i].id
    ensures multiset(run[k].sent)[AnswerTo(run[k].log, j)] == if j < run[k].nodes[i].decidedIdx then 1 else 0
  {
    var c := run[k];
    AnswersInLogOrder(run, actions, k);
    AtMostOnce(run, actions, k);
    assert Answered(c, i);
    DueOnce(c.nodes[i].id, c.log, 0, c.nodes[i].decidedIdx, j);
    FromCounts(c.sent, AnswerTo(c.log, j));
  }

  // ---- With restarts: one answer for each time the coordinator applies the command ----

  /** In the step from `c` to `c'` the index of node `i` passes position `j`. */
  predicate Passes(c: Cluster, c': Cluster, i: nat, j: nat) {
    i < |c.nodes| && i < |c'.nodes| && c.nodes[i].decidedIdx <= j < c'.nodes[i].decidedIdx
  }

  /** How often the index of node `i` passes position `j` in the first `k` steps. */
  function TimesPassed(run: seq<Cluster>, i: nat, j: nat, k: nat): nat
    requires k < |run|
  {
    if k == 0 then 0 else TimesPassed(run, i, j, k - 1) + if Passes(run[k - 1], run[k], i, j) then 1 else 0
  }

  /** Applying the log moves one node forward and sends what it owes, in any log that goes on from this one. */
  lemma ApplySends(c: Cluster, node: nat, log: seq<Command>)
    requires Enabled(c, ApplyDecided(node)) && Replicas(c) && c.log <= log
    ensures var n, c' := c.nodes[node], Next(c, ApplyDecided(node));
      && c'.nodes == c.nodes[node := c'.nodes[node]]
      && n.decidedIdx <= c'.nodes[node].decidedIdx <= |log|
      && c'.sent == c.sent + Due(n.id, log, n.decidedIdx, c'.nodes[node].decidedIdx)
  {
    var n := c.nodes[node];
    ProcessCatchesUp(n, c.log, c.decided[node]);
    OwedStable(n.id, c.log, log, n.decidedIdx, Next(c, ApplyDecided(node)).nodes[node].decidedIdx);
  }

  /** Applying the log answers position `j` once if the coordinator's index passes it, and never otherwise. */
  lemma ApplyCounts(c: Cluster, node: nat, log: seq<Command>, i: nat, j: nat)
    requires Enabled(c, ApplyDecided(node)) && Replicas(c) && DistinctNames(c) && c.log <= log && DistinctIds(log)
    requires i < |c.nodes| && j < |log| && log[j].coordinator == c.nodes[i].id
    ensures var c' := Next(c, ApplyDecided(node));
      multiset(c'.sent)[AnswerTo(log, j)] == multiset(c.sent)[AnswerTo(log, j)] + if Passes(c, c', i, j) then 1 else 0
  {
    ApplySends(c, node, log);
    DueOnce(c.nodes[node].id, log, c.nodes[node].decidedIdx, Next(c, ApplyDecided(node)).nodes[node].decidedIdx, j);
  }

  lemma StepCounts(c: Cluster, a: Action, log: seq<Command>, i: nat, j: nat)
    requires Enabled(c, a) && Replicas(c) && DistinctNames(c) && c.log <= log && DistinctIds(log)
    requires i < |c.nodes| && j < |log| && log[j].coordinator == c.nodes[i].id
    ensures var c' := Next(c, a);
      multiset(c'.sent)[AnswerTo(log, j)] == multiset(c.sent)[AnswerTo(log, j)] + if Passes(c, c', i, j) then 1 else 0
  {
    if a.ApplyDecided? {
      ApplyCounts(c, a.node, log, i, j);
    } else {
      OnlyApplyAnswers(c, a);
      if !a.Restart? {
        NodeKept(c, a, i);
      }
    }
  }

  lemma {:induction false} NamesFixed(run: seq<Cluster>, actions: seq<Action>, k: nat)
    requires IsRun(run, actions) && k < |run|
    ensures |run[k].nodes| == |run[0].nodes|
    ensures forall i :: 0 <= i < |run[0].nodes| ==> run[k].nodes[i].id == run[0].nodes[i].id
  {
    if k > 0 {
      NamesFixed(run, actions, k - 1);
      RunKeepsInv(run, actions, k - 1);
      NamesKept(run[k - 1], actions[k - 1]);
    }
  }

  lemma RunStepCounts(run: seq<Cluster>, actions: seq<Action>, t: nat, k: nat, i: nat, j: nat)
    requires IsRun(run, actions) && t < k < |run| && DistinctNames(run[0]) && DistinctIds(run[k].log)
    requires i < |run[0].nodes| && j < |run[k].log| && run[k].log[j].coordinator == run[0].nodes[i].id
    ensures var r := AnswerTo(run[k].log, j);
      multiset(run[t + 1].sent)[r] == multiset(run[t].sent)[r] + if Passes(run[t], run[t + 1], i, j) then 1 else 0
  {
    NamesFixed(run, actions, t);
    RunKeepsInv(run, actions, t);
    RunExtends(run, actions, t, k);
    StepCounts(run[t], actions[t], run[k].log, i, j);
  }

  lemma {:induction false} CountedUpTo(run: seq<Cluster>, actions: seq<Action>, t: nat, k: nat, i: nat, j: nat)
    requires IsRun(run, actions) && t <= k < |run| && DistinctNames(run[0]) && DistinctIds(run[k].log)
    requires i < |run[0].nodes| && j < |run[k].log| && run[k].log[j].coordinator == run[0].nodes[i].id
    ensures multiset(run[t].sent)[AnswerTo(run[k].log, j)] == TimesPassed(run, i, j, t)
  {
    if t > 0 {
      CountedUpTo(run, actions, t - 1, k, i, j);
      RunStepCounts(run, actions, t - 1, k, i, j);
    }
  }

  /**
   In every run, restarts included, the answer to a logged command has been written exactly as often as its
   coordinator's index has passed it.
   */
  lemma AnswersCounted(run: seq<Cluster>, actions: seq<Action>, k: nat, i: nat, j: nat)
    requires IsRun(run, actions) && k < |run| && DistinctNames(run[0])
    requires i < |run[k].nodes| && j < |run[k].log| && run[k].log[j].coordinator == run[k].nodes[i].id
    ensures multiset(run[k].sent)[AnswerTo(run[k].log, j)] == TimesPassed(run, i, j, k)
  {
    NamesFixed(run, actions, k);
    AtMostOnce(run, actions, k);
    CountedUpTo(run, actions, k, k, i, j);
  }
}
