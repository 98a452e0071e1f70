/** What every step of the cluster keeps, and what that means for whole runs. */
module Safety {
  import opened Values
  import opened Sequences
  import opened History
  import opened Node
  import opened Cluster

  // ---- Things only grow ----

  /** The log, the answers and the history are append-only; ids and time move forward. */
  ghost predicate Extends(c: Cluster, c': Cluster) {
    && c.log <= c'.log
    && c.sent <= c'.sent
    && c.history <= c'.history
    && c.nextOp <= c'.nextOp
    && c.clock <= c'.clock
  }

  lemma NextExtends(c: Cluster, a: Action)
    requires Enabled(c, a)
    ensures Extends(c, Next(c, a))
  {
  }

  lemma ResultStable(log: seq<Command>, log': seq<Command>, j: nat)
    requires log <= log' && j < |log|
    ensures log[j] == log'[j] && ResultAt(log, j) == ResultAt(log', j)
  {
    assert log[..j] == log'[..j];
  }

  lemma InStepStable(n: State, log: seq<Command>, log': seq<Command>)
    requires InStep(n, log) && log <= log'
    ensures InStep(n, log')
  {
    assert log[..n.decidedIdx] == log'[..n.decidedIdx];
  }

  // ---- Replicas ----

  lemma ReactKeepsReplicas(c: Cluster, i: nat, r: (State, Effects))
    requires Replicas(c) && i < |c.nodes|
    requires InStep(r.0, c.log) && r.0.decidedIdx <= c.decided[i]
    ensures Replicas(React(c, i, r))
  {
  }

  lemma ReplicasKept(c: Cluster, a: Action)
    requires Replicas(c) && Enabled(c, a)
    ensures Replicas(Next(c, a))
  {
    match a
    case Deliver(message, node, answer) =>
      HandleConserves(c.nodes[node], c.network[message], answer);
      var r := Handle(c.nodes[node], c.network[message], answer);
      ReactKeepsReplicas(c.(network := Remove(c.network, message)), node, r);
    case Retry(node, answers) =>
      TickConserves(c.nodes[node], answers);
      ReactKeepsReplicas(c, node, Tick(c.nodes[node], answers));
    case Decide(command) =>
      forall i | 0 <= i < |c.nodes| ensures InStep(c.nodes[i], c.log + [command]) {
        InStepStable(c.nodes[i], c.log, c.log + [command]);
      }
    case ApplyDecided(node) =>
      ProcessCatchesUp(c.nodes[node], c.log, c.decided[node]);
    case _ =>
  }

  // ---- Commands ----

  lemma CommandsKept(c: Cluster, a: Action, x: Command)
    requires Replicas(c) && Enabled(c, a) && x in Everywhere(Next(c, a))
    ensures Everywhere(Next(c, a))[x] <= Everywhere(c)[x] + Gained(c, a)[x]
    ensures x in Everywhere(c) || x in Gained(c, a)
  {
    Conservation(c, a);
    assert (Everywhere(Next(c, a)) + Lost(c, a))[x] == (Everywhere(c) + Gained(c, a))[x];
  }

  lemma GainedIsNew(c: Cluster, a: Action, x: Command)
    requires Enabled(c, a) && x in Gained(c, a)
    ensures a.Invoke? && Gained(c, a) == multiset{x} && x.msgId == c.nextOp && Next(c, a).nextOp == c.nextOp + 1
    ensures Matches(Invocation(c.nextOp, a.key, a.call, c.clock), x)
  {
  }

  lemma UniqueKept(c: Cluster, a: Action)
    requires Replicas(c) && Unique(c) && Enabled(c, a)
    ensures Unique(Next(c, a))
  {
    var c' := Next(c, a);
    forall x | x in Everywhere(c') ensures Everywhere(c')[x] == 1 && x.msgId < c'.nextOp {
      CommandsKept(c, a, x);
      if x in Gained(c, a) {
        GainedIsNew(c, a, x);
      }
    }
    forall x, y | x in Everywhere(c') && y in Everywhere(c') && x.msgId == y.msgId ensures x == y {
      CommandsKept(c, a, x);
      CommandsKept(c, a, y);
      if x in Gained(c, a) {
        GainedIsNew(c, a, x);
      } else if y in Gained(c, a) {
        GainedIsNew(c, a, y);
      }
    }
  }

  lemma InvokedStable(h: seq<HistoryEntry>, h': seq<HistoryEntry>, n: nat, n': nat, x: Command, t: Time, t': Time)
    requires h <= h' && n <= |h| && n <= n' && t <= t' && InvokedBy(h, n, x, t)
    ensures InvokedBy(h', n', x, t')
  {
  }

  lemma AllInvokedKept(c: Cluster, a: Action)
    requires Replicas(c) && AllInvoked(c) && Enabled(c, a)
    ensures AllInvoked(Next(c, a))
  {
    var c' := Next(c, a);
    NextExtends(c, a);
    forall x | x in Everywhere(c') ensures InvokedBy(c'.history, |c'.history|, x, c'.clock) {
      CommandsKept(c, a, x);
      if x in Everywhere(c) {
        InvokedStable(c.history, c'.history, |c.history|, |c'.history|, x, c.clock, c'.clock);
      } else {
        GainedIsNew(c, a, x);
        assert Matches(c'.history[|c.history|], x);
      }
    }
  }

  lemma FreshIdsKept(c: Cluster, a: Action)
    requires FreshIds(c) && Enabled(c, a)
    ensures FreshIds(Next(c, a))
  {
  }

  // ---- Answers ----

  lemma JustifiesStable(log: seq<Command>, log': seq<Command>, j: int, r: Reply)
    requires log <= log' && Justifies(log, j, r)
    ensures Justifies(log', j, r)
  {
    ResultStable(log, log', j);
  }

  lemma {:induction false} OwedJustified(id: string, log: seq<Command>, lo: nat, hi: nat)
    requires lo <= hi <= |log|
    ensures forall r :: r in RepliesIn(Owed(id, log, lo, hi)) ==> exists j :: Justifies(log, j, r)
  {
    if lo < hi {
      OwedJustified(id, log, lo, hi - 1);
      if log[hi - 1].coordinator == id {
        var r := AnswerTo(log, hi - 1);
        var out := Owed(id, log, lo, hi);
        assert out[..|out| - 1] == Owed(id, log, lo, hi - 1);
        assert RepliesIn(out) == RepliesIn(Owed(id, log, lo, hi - 1)) + [r];
        assert Justifies(log, hi - 1, r);
      } else {
        assert Owed(id, log, lo, hi) == Owed(id, log, lo, hi - 1);
      }
    }
  }

  lemma {:induction false} NoAnswers(out: seq<Output>)
    requires forall line :: line in out ==> line.ForwardLine?
    ensures RepliesIn(out) == []
  {
    if out != [] {
      assert out[|out| - 1] in out;
      NoAnswers(out[..|out| - 1]);
    }
  }

  lemma {:induction false} AppendAllForwards(n: State, batch: seq<Command>, answers: seq<AppendReply>)
    requires |answers| == |batch|
    ensures forall line :: line in AppendAll(n, batch, answers).1.out ==> line.ForwardLine?
  {
    if batch != [] {
      AppendAllForwards(n, batch[..|batch| - 1], answers[..|batch| - 1]);
    }
  }

  /** Only applying the log writes answers. */
  lemma OnlyApplyAnswers(c: Cluster, a: Action)
    requires Enabled(c, a) && !a.ApplyDecided?
    ensures Next(c, a).sent == c.sent
  {
    match a
    case Deliver(message, node, answer) =>
      NoAnswers(Handle(c.nodes[node], c.network[message], answer).1.out);
    case Retry(node, answers) =>
      AppendAllForwards(c.nodes[node].(pending := []), c.nodes[node].pending, answers);
      NoAnswers(Tick(c.nodes[node], answers).1.out);
    case _ =>
  }

  lemma AllJustifiedKept(c: Cluster, a: Action)
    requires Replicas(c) && AllJustified(c) && Enabled(c, a)
    ensures AllJustified(Next(c, a))
  {
    var c' := Next(c, a);
    NextExtends(c, a);
    forall r | r in c'.sent ensures exists j :: Justifies(c'.log, j, r) {
      if r in c.sent {
        var j :| Justifies(c.log, j, r);
        JustifiesStable(c.log, c'.log, j, r);
      } else if a.ApplyDecided? {
        var n := c.nodes[a.node];
        ProcessCatchesUp(n, c.log, c.decided[a.node]);
        OwedJustified(n.id, c.log, n.decidedIdx,
                      if c.decided[a.node] <= n.decidedIdx then n.decidedIdx else c.decided[a.node]);
      } else {
        OnlyApplyAnswers(c, a);
      }
    }
  }

  // ---- Recorded answers ----

  lemma ExplainsStable(log: seq<Command>, log': seq<Command>, h: seq<HistoryEntry>, h': seq<HistoryEntry>,
                       j: int, k: int)
    requires log <= log' && h <= h' && Explains(log, h, j, k)
    ensures Explains(log', h', j, k)
  {
    ResultStable(log, log', j);
    forall i | 0 <= i <= j ensures InvokedBy(h', k, log'[i], h'[k].time) {
      assert log'[i] == log[i];
      InvokedStable(h, h', k, k, log[i], h[k].time, h[k].time);
    }
  }

  lemma RecordExplained(c: Cluster, reply: nat)
    requires AllInvoked(c) && AllJustified(c) && Enabled(c, Record(reply))
    ensures HasExplanation(c.log, Next(c, Record(reply)).history, |c.history|)
  {
    var r := c.sent[reply];
    assert r in c.sent;
    var j :| Justifies(c.log, j, r);
    var h' := Next(c, Record(reply)).history;
    forall i | 0 <= i <= j ensures InvokedBy(h', |c.history|, c.log[i], c.clock) {
      assert c.log[i] in multiset(c.log);
      InvokedStable(c.history, h', |c.history|, |c.history|, c.log[i], c.clock, c.clock);
    }
    assert Explains(c.log, h', j, |c.history|);
  }

  lemma ExplainedKept(c: Cluster, a: Action)
    requires AllInvoked(c) && AllJustified(c) && Explained(c.log, c.history) && Enabled(c, a)
    ensures Explained(Next(c, a).log, Next(c, a).history)
  {
    var c' := Next(c, a);
    NextExtends(c, a);
    forall k | 0 <= k < |c'.history| && c'.history[k].Completion?
      ensures HasExplanation(c'.log, c'.history, k)
    {
      if k < |c.history| {
        assert c'.history[k] == c.history[k];
        assert HasExplanation(c.log, c.history, k);
        var j :| Explains(c.log, c.history, j, k);
        ExplainsStable(c.log, c'.log, c.history, c'.history, j, k);
      } else {
        assert a.Record?;
        RecordExplained(c, a.reply);
      }
    }
  }

  lemma StepKeepsInv(c: Cluster, a: Action)
    requires Inv(c) && Enabled(c, a)
    ensures Inv(Next(c, a))
  {
    ReplicasKept(c, a);
    UniqueKept(c, a);
    AllInvokedKept(c, a);
    FreshIdsKept(c, a);
    AllJustifiedKept(c, a);
    ExplainedKept(c, a);
  }

  // ---- Whole runs ----

  lemma {:induction false} NoneBuffered(nodes: seq<State>)
    requires forall i :: 0 <= i < |nodes| ==> nodes[i].pending == []
    ensures Gather(nodes, Buffered) == multiset{}
  {
    if nodes != [] {
      NoneBuffered(nodes[..|nodes| - 1]);
    }
  }

  lemma StartsEmpty(c: Cluster)
    requires Initial(c)
    ensures Everywhere(c) == multiset{}
  {
    NoneBuffered(c.nodes);
  }

  lemma InitialInv(c: Cluster)
    requires Initial(c)
    ensures Inv(c)
  {
    StartsEmpty(c);
  }

  /** The invariant holds in every state of every run. */
  lemma {:induction false} RunKeepsInv(run: seq<Cluster>, actions: seq<Action>, k: nat)
    requires IsRun(run, actions) && k < |run|
    ensures Inv(run[k])
  {
    if k == 0 {
      InitialInv(run[0]);
    } else {
      RunKeepsInv(run, actions, k - 1);
      StepKeepsInv(run[k - 1], actions[k - 1]);
    }
  }

  lemma {:induction false} RunExtends(run: seq<Cluster>, actions: seq<Action>, i: nat, k: nat)
    requires IsRun(run, actions) && i <= k < |run|
    ensures Extends(run[i], run[k])
  {
    if i < k {
      RunExtends(run, actions, i, k - 1);
      NextExtends(run[k - 1], actions[k - 1]);
    }
  }

  /** All commands that the first `k` steps of a run brought in. */
  ghost function GainedBy(run: seq<Cluster>, actions: seq<Action>, k: nat): multiset<Command>
    requires IsRun(run, actions) && k < |run|
  {
    if k == 0 then multiset{} else GainedBy(run, actions, k - 1) + Gained(run[k - 1], actions[k - 1])
  }

  /** All commands that the first `k` steps of a run lost. */
  ghost function LostBy(run: seq<Cluster>, actions: seq<Action>, k: nat): multiset<Command>
    requires IsRun(run, actions) && k < |run|
  {
    if k == 0 then multiset{} else LostBy(run, actions, k - 1) + Lost(run[k - 1], actions[k - 1])
  }

  lemma Tally(now: multiset<Command>, next: multiset<Command>, lost: multiset<Command>, gained: multiset<Command>,
              moreLost: multiset<Command>, moreGained: multiset<Command>)
    requires now + lost == gained && next + moreLost == now + moreGained
    ensures next + (lost + moreLost) == gained + moreGained
  {
    assert next + (lost + moreLost) == (now + moreGained) + lost == (now + lost) + moreGained;
  }

  lemma StepTally(c: Cluster, a: Action, lost: multiset<Command>, gained: multiset<Command>)
    requires Enabled(c, a) && Replicas(c) && Everywhere(c) + lost == gained
    ensures Everywhere(Next(c, a)) + (lost + Lost(c, a)) == gained + Gained(c, a)
  {
    Conservation(c, a);
    Tally(Everywhere(c), Everywhere(Next(c, a)), lost, gained, Lost(c, a), Gained(c, a));
  }

  /** Conservation over whole runs: what was ever invoked is somewhere, once for each time it came in, or was lost. */
  lemma {:induction false} RunConserves(run: seq<Cluster>, actions: seq<Action>, k: nat)
    requires IsRun(run, actions) && k < |run|
    ensures Everywhere(run[k]) + LostBy(run, actions, k) == GainedBy(run, actions, k)
  {
    if k == 0 {
      StartsEmpty(run[0]);
    } else {
      RunConserves(run, actions, k - 1);
      RunKeepsInv(run, actions, k - 1);
      StepTally(run[k - 1], actions[k - 1], LostBy(run, actions, k - 1), GainedBy(run, actions, k - 1));
    }
  }

  /** At most once: no command is in two places in any state of any run, nor twice in the log. */
  lemma AtMostOnce(run: seq<Cluster>, actions: seq<Action>, k: nat)
    requires IsRun(run, actions) && k < |run|
    ensures forall x :: Everywhere(run[k])[x] <= 1
    ensures DistinctIds(run[k].log)
  {
    RunKeepsInv(run, actions, k);
    LogIdsDistinct(run[k]);
  }

  lemma InLogIsEverywhere(c: Cluster, j: nat)
    requires j < |c.log|
    ensures c.log[j] in Everywhere(c) && multiset(c.log)[c.log[j]] <= Everywhere(c)[c.log[j]]
  {
  }

  lemma LogIdsDistinct(c: Cluster)
    requires Unique(c)
    ensures DistinctIds(c.log)
  {
    forall i, j | 0 <= i < j < |c.log| ensures c.log[i].msgId != c.log[j].msgId {
      InLogIsEverywhere(c, i);
      InLogIsEverywhere(c, j);
      OnceInBag(c.log, i, j);
    }
  }

  /** Replicas agree: each holds the state of one log at its own index, so equal indices mean equal stores. */
  lemma ReplicasAgree(run: seq<Cluster>, actions: seq<Action>, k: nat, i: nat, j: nat)
    requires IsRun(run, actions) && k < |run| && i < |run[k].nodes| && j < |run[k].nodes|
    ensures var (n, m) := (run[k].nodes[i], run[k].nodes[j]);
      && n.decidedIdx <= |run[k].log|
      && n.store == Replay(run[k].log[..n.decidedIdx])
      && (n.decidedIdx == m.decidedIdx ==> n.store == m.store)
  {
    RunKeepsInv(run, actions, k);
  }

  /** Every answer ever written is the sequential answer to its command at its place in the final log. */
  lemma AnswersAreSequential(run: seq<Cluster>, actions: seq<Action>, i: nat, k: nat, r: Reply)
    requires IsRun(run, actions) && i <= k < |run| && r in run[i].sent
    ensures exists j :: 0 <= j < |run[i].log| && Justifies(run[k].log, j, r)
  {
    RunKeepsInv(run, actions, i);
    RunExtends(run, actions, i, k);
    var j :| Justifies(run[i].log, j, r);
    JustifiesStable(run[i].log, run[k].log, j, r);
  }

  /** Nothing else is ever said in reply to a logged command than its sequential answer. */
  lemma OnlyItsAnswer(run: seq<Cluster>, actions: seq<Action>, k: nat, j: nat, r: Reply)
    requires IsRun(run, actions) && k < |run| && j < |run[k].log|
    requires r in run[k].sent && r.inReplyTo == run[k].log[j].msgId
    ensures r == AnswerTo(run[k].log, j)
  {
    AnswersAreSequential(run, actions, k, k, r);
    AtMostOnce(run, actions, k);
  }

  /** A command invoked after state `i` is not in the log of state `i`. */
  lemma LaterIsNotLogged(run: seq<Cluster>, actions: seq<Action>, i: nat, x: Command)
    requires IsRun(run, actions) && i < |run| && x.msgId >= run[i].nextOp
    ensures x !in run[i].log
  {
    RunKeepsInv(run, actions, i);
    assert forall y :: y in run[i].log ==> y in multiset(run[i].log);
  }

  /** No entry was recorded later than the clock shows or before an earlier entry. */
  ghost predicate InTime(c: Cluster) {
    && (forall m :: 0 <= m < |c.history| ==> c.history[m].time <= c.clock)
    && (forall m, m' :: 0 <= m < m' < |c.history| ==> c.history[m].time <= c.history[m'].time)
  }

  lemma InTimeKept(c: Cluster, a: Action)
    requires InTime(c) && Enabled(c, a)
    ensures InTime(Next(c, a))
  {
    var c' := Next(c, a);
    NextExtends(c, a);
    assert c'.history == c.history || c'.history[..|c.history|] == c.history;
  }

  /** In every run, what is recorded later carries a later time: the history's order is that of its times. */
  lemma {:induction false} RecordedInTime(run: seq<Cluster>, actions: seq<Action>, k: nat)
    requires IsRun(run, actions) && k < |run|
    ensures InTime(run[k])
  {
    if k > 0 {
      RecordedInTime(run, actions, k - 1);
      InTimeKept(run[k - 1], actions[k - 1]);
    }
  }

  /** Real-time order: a command answered before another one entered the log precedes it there for ever. */
  lemma RealTimeOrder(run: seq<Cluster>, actions: seq<Action>, i: nat, k: nat, r: Reply, a: nat, b: nat)
    requires IsRun(run, actions) && i <= k < |run| && r in run[i].sent
    requires a < |run[k].log| && b < |run[k].log|
    requires run[k].log[a].msgId == r.inReplyTo && run[k].log[b] !in run[i].log
    ensures a < b
  {
    AnswersAreSequential(run, actions, i, k, r);
    AtMostOnce(run, actions, k);
    RunExtends(run, actions, i, k);
    var j :| 0 <= j < |run[i].log| && Justifies(run[k].log, j, r);
    assert forall m :: 0 <= m < |run[i].log| ==> run[k].log[m] in run[i].log;
  }
}
