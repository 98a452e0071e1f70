/** Forwards go to leaders: where the commands that a node could not propose are sent. */
module Forwarding {
  import opened Values
  import opened NodeIds
  import opened Node
  import opened Cluster
  import opened Safety

  /** The line forwards to a leader that one of the refusals names. */
  ghost predicate ToNamed(line: Output, answers: seq<AppendReply>) {
    exists i :: 0 <= i < |answers| && Names(answers[i], line)
  }

  ghost predicate Names(answer: AppendReply, line: Output) {
    line.ForwardLine? && answer.Refused? && answer.leader.Some? && ToOpId(line.dest) == answer.leader
  }

  lemma AppendLines(n: State, c: Command, answer: AppendReply, line: Output)
    requires line in Append(n, c, answer).1.out
    ensures Names(answer, line)
  {
    PrintThenParse(answer.leader.value);
  }

  lemma {:induction false} AppendAllLines(n: State, batch: seq<Command>, answers: seq<AppendReply>, line: Output)
    requires |answers| == |batch| && line in AppendAll(n, batch, answers).1.out
    ensures ToNamed(line, answers)
  {
    var k := |batch| - 1;
    var (n', before) := AppendAll(n, batch[..k], answers[..k]);
    if line in before.out {
      AppendAllLines(n, batch[..k], answers[..k], line);
      var i :| 0 <= i < k && Names(answers[..k][i], line);
      assert Names(answers[i], line);
    } else {
      AppendLines(n', batch[k], answers[k], line);
    }
  }

  lemma {:induction false} ForwardFrom(out: seq<Output>, m: Message) returns (line: Output)
    requires m in ForwardsIn(out)
    ensures line in out && line.ForwardLine? && m == Forward(line.dest, line.command)
  {
    var last := out[|out| - 1];
    if last.ForwardLine? && m == Forward(last.dest, last.command) {
      line := last;
    } else {
      line := ForwardFrom(out[..|out| - 1], m);
    }
  }

  // ---- Whole runs ----

  /** Some refusal in the action names `leader`. */
  ghost predicate NamesLeader(a: Action, leader: OpId) {
    match a
    case Deliver(_, _, answer) => answer == Refused(Some(leader))
    case Retry(_, answers) => Refused(Some(leader)) in answers
    case _ => false
  }

  /** `m` is addressed to a leader that a refusal in one of the first `k` steps named. */
  ghost predicate Addressed(actions: seq<Action>, k: nat, m: Message) {
    ToOpId(m.dest).Some? && exists t :: 0 <= t < k && t < |actions| && NamesLeader(actions[t], ToOpId(m.dest).value)
  }

  lemma {:induction false} OwedForwardsNothing(id: string, log: seq<Command>, lo: nat, hi: nat)
    requires lo <= hi <= |log|
    ensures forall line :: line in Owed(id, log, lo, hi) ==> line.ReplyLine?
  {
    if lo < hi {
      OwedForwardsNothing(id, log, lo, hi - 1);
    }
  }

  /** A forward that a step puts on the network is addressed to a leader the step was told of. */
  lemma NewForward(c: Cluster, a: Action, m: Message) returns (leader: OpId)
    requires Enabled(c, a) && Replicas(c) && m in Next(c, a).network && m !in c.network && m.Forward?
    ensures NamesLeader(a, leader) && ToOpId(m.dest) == Some(leader)
  {
    match a
    case Deliver(message, node, answer) =>
      var line := ForwardFrom(Handle(c.nodes[node], c.network[message], answer).1.out, m);
      HandleLines(c.nodes[node], c.network[message], answer, line);
      leader := answer.leader.value;
    case Retry(node, answers) =>
      var line := ForwardFrom(Tick(c.nodes[node], answers).1.out, m);
      AppendAllLines(c.nodes[node].(pending := []), c.nodes[node].pending, answers, line);
      var i :| 0 <= i < |answers| && Names(answers[i], line);
      leader := answers[i].leader.value;
      assert answers[i] == Refused(Some(leader));
    case ApplyDecided(node) =>
      var n := c.nodes[node];
      ProcessCatchesUp(n, c.log, c.decided[node]);
      OwedForwardsNothing(n.id, c.log, n.decidedIdx,
                          if c.decided[node] <= n.decidedIdx then n.decidedIdx else c.decided[node]);
      var line := ForwardFrom(Process(n, c.decided[node], Suffix(c.log, n.decidedIdx, c.decided[node])).1, m);
      assert false;
    case _ => assert false;
  }

  lemma HandleLines(n: State, m: Message, answer: AppendReply, line: Output)
    requires line in Handle(n, m, answer).1.out
    ensures Names(answer, line)
  {
    match m
    case Forward(_, command) => AppendLines(n, command, answer, line);
    case Request(_, r) => AppendLines(n, Command(n.id, r.src, r.msgId, ParseOp(r).value), answer, line);
  }

  /** In every run, every forward in flight is addressed to a leader that some refusal has named. */
  lemma {:induction false} ForwardsAreAddressed(run: seq<Cluster>, actions: seq<Action>, k: nat, m: Message)
    requires IsRun(run, actions) && k < |run| && m in run[k].network && m.Forward?
    ensures Addressed(actions, k, m)
  {
    if k > 0 {
      if m in run[k - 1].network {
        ForwardsAreAddressed(run, actions, k - 1, m);
      } else {
        RunKeepsInv(run, actions, k - 1);
        var leader := NewForward(run[k - 1], actions[k - 1], m);
      }
    }
  }
}
