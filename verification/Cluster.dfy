/**
 The replicas, the network between them and the harness around them, as one step relation.
 OmniPaxos appears only as its contract: one agreed log that only grows, a decided index per node
 that stays inside it, an accepted append that enters the log at most once.
 */
module Cluster {
  import opened Values
  import opened Sequences
  import opened Checker
  import opened History
  import opened Node
  import opened Harness

  /** A line on its way to a node. */
  datatype Message =
    | Request(dest: string, request: ClientRequest)
    | Forward(dest: string, command: Command)

  datatype Cluster = Cluster(
    nodes: seq<State>,
    network: seq<Message>,
    /** Accepted by OmniPaxos, not yet in the log. */
    proposed: multiset<Command>,
    log: seq<Command>,
    /** How much of the log OmniPaxos has decided at each node. */
    decided: seq<nat>,
    /** Every answer any node has written. */
    sent: seq<Reply>,
    history: seq<HistoryEntry>,
    nextOp: nat,
    clock: Time)

  datatype Action =
    | Invoke(node: nat, client: string, key: string, call: Call)
    | Deliver(message: nat, node: nat, answer: AppendReply)
    | Lose(message: nat)
    | Retry(node: nat, answers: seq<AppendReply>)
    | Decide(command: Command)
    | Forget(command: Command)
    | Learn(node: nat, upTo: nat)
    | ApplyDecided(node: nat)
    | Restart(node: nat)
    | Record(reply: nat)
    | Wait(until: Time)

  // ---- Steps ----

  function ForwardsIn(out: seq<Output>): seq<Message> {
    if out == [] then []
    else
      ForwardsIn(out[..|out| - 1]) +
      match out[|out| - 1] {
        case ForwardLine(_, dest, c) => [Forward(dest, c)]
        case ReplyLine(_) => []
      }
  }

  function RepliesIn(out: seq<Output>): seq<Reply> {
    if out == [] then []
    else
      RepliesIn(out[..|out| - 1]) +
      match out[|out| - 1] {
        case ForwardLine(_, _, _) => []
        case ReplyLine(r) => [r]
      }
  }

  /** Node `i` reacts. */
  function React(c: Cluster, i: nat, r: (State, Effects)): Cluster
    requires i < |c.nodes|
  {
    c.(nodes := c.nodes[i := r.0],
       network := c.network + ForwardsIn(r.1.out),
       proposed := c.proposed + multiset(r.1.proposed),
       sent := c.sent + RepliesIn(r.1.out))
  }

  predicate Enabled(c: Cluster, a: Action) {
    match a
    case Invoke(node, _, _, _) => node < |c.nodes|
    case Deliver(message, node, _) =>
      message < |c.network| && node < |c.nodes| && c.network[message].dest == c.nodes[node].id
    case Lose(message) => message < |c.network|
    case Retry(node, answers) => node < |c.nodes| && |answers| == |c.nodes[node].pending|
    case Decide(command) => command in c.proposed
    case Forget(command) => command in c.proposed
    case Learn(node, upTo) => node < |c.decided| && c.decided[node] <= upTo <= |c.log|
    case ApplyDecided(node) => node < |c.nodes| && node < |c.decided| && c.decided[node] <= |c.log|
    case Restart(node) => node < |c.nodes| && node < |c.decided|
    case Record(reply) => reply < |c.sent|
    case Wait(until) => c.clock <= until
  }

  /** The node's own reaction to a message: requests of an unknown type are skipped by its main loop. */
  function Handle(n: State, m: Message, answer: AppendReply): (State, Effects) {
    match m
    case Request(_, r) => if r.kind.OtherRequest? then (n, NOTHING) else ClientCall(n, r, answer)
    case Forward(_, command) => Append(n, command, answer)
  }

  function Next(c: Cluster, a: Action): Cluster
    requires Enabled(c, a)
  {
    match a
    case Invoke(node, client, key, call) =>
      c.(network := c.network + [Request(c.nodes[node].id, RequestFor(client, c.nextOp, key, call))],
         history := c.history + [Invocation(c.nextOp, key, call, c.clock)],
         nextOp := c.nextOp + 1)
    case Deliver(message, node, answer) =>
      React(c.(network := Remove(c.network, message)), node, Handle(c.nodes[node], c.network[message], answer))
    case Lose(message) => c.(network := Remove(c.network, message))
    case Retry(node, answers) => React(c, node, Tick(c.nodes[node], answers))
    case Decide(command) => c.(proposed := c.proposed - multiset{command}, log := c.log + [command])
    case Forget(command) => c.(proposed := c.proposed - multiset{command})
    case Learn(node, upTo) => c.(decided := c.decided[node := upTo])
    case ApplyDecided(node) =>
      var n := c.nodes[node];
      var (n', out) := Process(n, c.decided[node], Suffix(c.log, n.decidedIdx, c.decided[node]));
      React(c, node, (n', Effects([], out)))
    case Restart(node) =>
      c.(nodes := c.nodes[node := State(c.nodes[node].id, map[], 0, [])], decided := c.decided[node := 0])
    case Record(reply) => c.(history := c.history + [EntryFor(c.sent[reply].inReplyTo, c.sent[reply].body, c.clock)])
    case Wait(until) => c.(clock := until)
  }

  predicate Initial(c: Cluster) {
    && |c.decided| == |c.nodes|
    && (forall i :: 0 <= i < |c.nodes| ==>
          c.nodes[i].store == map[] && c.nodes[i].decidedIdx == 0 && c.nodes[i].pending == [] && c.decided[i] == 0)
    && c.network == [] && c.proposed == multiset{} && c.log == [] && c.sent == [] && c.history == []
    && c.nextOp == 1
  }

  ghost predicate IsRun(run: seq<Cluster>, actions: seq<Action>) {
    && |run| == |actions| + 1
    && Initial(run[0])
    && forall k :: 0 <= k < |actions| ==> Enabled(run[k], actions[k]) && run[k + 1] == Next(run[k], actions[k])
  }

  // ---- Where commands are ----

  ghost function Gather<T>(s: seq<T>, f: T -> multiset<Command>): multiset<Command> {
    if s == [] then multiset{} else Gather(s[..|s| - 1], f) + f(s[|s| - 1])
  }

  lemma {:induction false} GatherConcat<T>(a: seq<T>, b: seq<T>, f: T -> multiset<Command>)
    ensures Gather(a + b, f) == Gather(a, f) + Gather(b, f)
  {
    if b == [] {
      assert a + b == a;
    } else {
      GatherConcat(a, b[..|b| - 1], f);
      assert (a + b)[..|a + b| - 1] == a + b[..|b| - 1];
    }
  }

  lemma {:induction false} GatherOne<T>(x: T, f: T -> multiset<Command>)
    ensures Gather([x], f) == f(x)
  {
  }

  lemma GatherSplit<T>(s: seq<T>, i: nat, f: T -> multiset<Command>)
    requires i < |s|
    ensures Gather(s, f) == Gather(s[..i], f) + f(s[i]) + Gather(s[i + 1..], f)
  {
    assert s == s[..i] + [s[i]] + s[i + 1..];
    GatherConcat(s[..i] + [s[i]], s[i + 1..], f);
    GatherConcat(s[..i], [s[i]], f);
    GatherOne(s[i], f);
  }

  lemma GatherRemove<T>(s: seq<T>, i: nat, f: T -> multiset<Command>)
    requires i < |s|
    ensures Gather(Remove(s, i), f) + f(s[i]) == Gather(s, f)
  {
    GatherSplit(s, i, f);
    GatherConcat(s[..i], s[i + 1..], f);
  }

  lemma GatherUpdate<T>(s: seq<T>, i: nat, x: T, f: T -> multiset<Command>)
    requires i < |s|
    ensures Gather(s[i := x], f) + f(s[i]) == Gather(s, f) + f(x)
  {
    GatherSplit(s, i, f);
    GatherSplit(s[i := x], i, f);
    assert s[i := x][..i] == s[..i] && s[i := x][i + 1..] == s[i + 1..];
  }

  /** The command a message will turn into. */
  ghost function Carried(m: Message): multiset<Command> {
    match m
    case Forward(_, command) => multiset{command}
    case Request(dest, r) =>
      match ParseOp(r) {
        case Some(op) => multiset{Command(dest, r.src, r.msgId, op)}
        case None => multiset{}
      }
  }

  ghost function Buffered(n: State): multiset<Command> {
    multiset(n.pending)
  }

  /** All commands, wherever they are: in flight, buffered, accepted or in the log. */
  ghost function Everywhere(c: Cluster): multiset<Command> {
    Gather(c.network, Carried) + Gather(c.nodes, Buffered) + c.proposed + multiset(c.log)
  }

  lemma {:induction false} ForwardsCarry(out: seq<Output>)
    ensures Gather(ForwardsIn(out), Carried) == CommandsIn(out)
  {
    if out != [] {
      ForwardsCarry(out[..|out| - 1]);
      match out[|out| - 1]
      case ReplyLine(_) =>
        assert ForwardsIn(out) == ForwardsIn(out[..|out| - 1]);
      case ForwardLine(_, dest, c) =>
        GatherConcat(ForwardsIn(out[..|out| - 1]), [Forward(dest, c)], Carried);
        GatherOne(Forward(dest, c), Carried);
    }
  }

  lemma ReactCounts(c: Cluster, i: nat, r: (State, Effects))
    requires i < |c.nodes|
    ensures Everywhere(React(c, i, r)) + Buffered(c.nodes[i]) == Everywhere(c) + Held(r.0, r.1)
  {
    GatherUpdate(c.nodes, i, r.0, Buffered);
    GatherConcat(c.network, ForwardsIn(r.1.out), Carried);
    ForwardsCarry(r.1.out);
    Regroup(Gather(c.network, Carried), CommandsIn(r.1.out),
            Gather(c.nodes[i := r.0], Buffered), Gather(c.nodes, Buffered),
            c.proposed, multiset(r.1.proposed), multiset(c.log), Buffered(c.nodes[i]), Buffered(r.0));
  }

  lemma Regroup(net: multiset<Command>, out: multiset<Command>, after: multiset<Command>, before: multiset<Command>,
                prop: multiset<Command>, more: multiset<Command>, log: multiset<Command>,
                old': multiset<Command>, new': multiset<Command>)
    requires after + old' == before + new'
    ensures (net + out) + after + (prop + more) + log + old' == net + before + prop + log + (new' + (more + out))
  {
    assert (net + out) + after + (prop + more) + log + old' == (after + old') + net + out + prop + more + log;
  }

  lemma Cancel(x: multiset<Command>, y: multiset<Command>, common: multiset<Command>, extra: multiset<Command>)
    requires x + common == y + (common + extra)
    ensures x == y + extra
  {
    forall o ensures x[o] == (y + extra)[o] {
      assert (x + common)[o] == (y + (common + extra))[o];
    }
  }

  /** A reaction that accounts for its buffer and for `extra` commands adds exactly those. */
  lemma ReactAdds(c: Cluster, i: nat, r: (State, Effects), extra: multiset<Command>)
    requires i < |c.nodes| && Held(r.0, r.1) == Buffered(c.nodes[i]) + extra
    ensures Everywhere(React(c, i, r)) == Everywhere(c) + extra
  {
    ReactCounts(c, i, r);
    Cancel(Everywhere(React(c, i, r)), Everywhere(c), Buffered(c.nodes[i]), extra);
  }

  // ---- Conservation ----

  /** The command a step brings into the system. */
  ghost function Gained(c: Cluster, a: Action): multiset<Command>
    requires Enabled(c, a)
  {
    match a
    case Invoke(node, client, key, call) =>
      Carried(Request(c.nodes[node].id, RequestFor(client, c.nextOp, key, call)))
    case _ => multiset{}
  }

  /** The commands a step takes out of it: network losses, proposals OmniPaxos drops, a crashed node's buffer. */
  ghost function Lost(c: Cluster, a: Action): multiset<Command>
    requires Enabled(c, a)
  {
    match a
    case Lose(message) => Carried(c.network[message])
    case Forget(command) => multiset{command}
    case Restart(node) => Buffered(c.nodes[node])
    case _ => multiset{}
  }

  ghost predicate Balanced(c: Cluster, a: Action)
    requires Enabled(c, a)
  {
    Everywhere(Next(c, a)) + Lost(c, a) == Everywhere(c) + Gained(c, a)
  }

  lemma HandleConserves(n: State, m: Message, answer: AppendReply)
    requires m.dest == n.id
    ensures var (n', e) := Handle(n, m, answer);
      Held(n', e) == multiset(n.pending) + Carried(m) && n' == n.(pending := n'.pending)
  {
    match m
    case Forward(_, command) => AppendConserves(n, command, answer);
    case Request(_, r) =>
      if !r.kind.OtherRequest? {
        AppendConserves(n, Command(n.id, r.src, r.msgId, ParseOp(r).value), answer);
      }
  }

  lemma MessageLeaves(c: Cluster, message: nat)
    requires message < |c.network|
    ensures Everywhere(c.(network := Remove(c.network, message))) + Carried(c.network[message]) == Everywhere(c)
  {
    GatherRemove(c.network, message, Carried);
    var rest := Gather(c.nodes, Buffered) + c.proposed + multiset(c.log);
    assert Everywhere(c.(network := Remove(c.network, message))) == Gather(Remove(c.network, message), Carried) + rest;
    assert Everywhere(c) == Gather(c.network, Carried) + rest;
  }

  lemma MessageEnters(c: Cluster, m: Message)
    ensures Everywhere(c.(network := c.network + [m])) == Everywhere(c) + Carried(m)
  {
  }

  lemma DeliverConserves(c: Cluster, message: nat, node: nat, answer: AppendReply)
    requires Enabled(c, Deliver(message, node, answer))
    ensures Balanced(c, Deliver(message, node, answer))
  {
    var m := c.network[message];
    MessageLeaves(c, message);
    HandleConserves(c.nodes[node], m, answer);
    ReactAdds(c.(network := Remove(c.network, message)), node, Handle(c.nodes[node], m, answer), Carried(m));
  }

  lemma RestartLoses(c: Cluster, node: nat)
    requires Enabled(c, Restart(node))
    ensures Balanced(c, Restart(node))
  {
    var empty := State(c.nodes[node].id, map[], 0, []);
    ReactCounts(c, node, (empty, NOTHING));
    assert c.network + [] == c.network && c.proposed + multiset{} == c.proposed;
    assert Everywhere(Next(c, Restart(node))) == Everywhere(React(c, node, (empty, NOTHING)));
    assert Held(empty, NOTHING) == multiset{};
  }

  lemma {:induction false} OwedCarriesNothing(id: string, log: seq<Command>, lo: nat, hi: nat)
    requires lo <= hi <= |log|
    ensures CommandsIn(Owed(id, log, lo, hi)) == multiset{}
  {
    if lo < hi {
      OwedCarriesNothing(id, log, lo, hi - 1);
      var tail := if log[hi - 1].coordinator == id
        then [ReplyLine(AnswerTo(log, hi - 1))] else [];
      CommandsInConcat(Owed(id, log, lo, hi - 1), tail);
      if tail != [] {
        assert CommandsIn(tail[..0]) == multiset{};
      }
    }
  }

  lemma ApplyConserves(c: Cluster, node: nat)
    requires Enabled(c, ApplyDecided(node)) && InStep(c.nodes[node], c.log)
    ensures Balanced(c, ApplyDecided(node))
  {
    var n := c.nodes[node];
    var (n', out) := Process(n, c.decided[node], Suffix(c.log, n.decidedIdx, c.decided[node]));
    ProcessCatchesUp(n, c.log, c.decided[node]);
    OwedCarriesNothing(n.id, c.log, n.decidedIdx, n'.decidedIdx);
    ReactAdds(c, node, (n', Effects([], out)), multiset{});
  }

  lemma RetryConserves(c: Cluster, node: nat, answers: seq<AppendReply>)
    requires Enabled(c, Retry(node, answers))
    ensures Balanced(c, Retry(node, answers))
  {
    TickConserves(c.nodes[node], answers);
    ReactAdds(c, node, Tick(c.nodes[node], answers), multiset{});
  }

  lemma DecideConserves(c: Cluster, command: Command)
    requires Enabled(c, Decide(command))
    ensures Balanced(c, Decide(command))
  {
    assert multiset(c.log + [command]) == multiset(c.log) + multiset{command};
  }

  lemma InvokeGains(c: Cluster, node: nat, client: string, key: string, call: Call)
    requires Enabled(c, Invoke(node, client, key, call))
    ensures Balanced(c, Invoke(node, client, key, call))
  {
    MessageEnters(c, Request(c.nodes[node].id, RequestFor(client, c.nextOp, key, call)));
  }

  lemma LossBalances(c: Cluster, a: Action)
    requires Enabled(c, a) && (a.Lose? || a.Forget?)
    ensures Balanced(c, a)
  {
    if a.Lose? {
      MessageLeaves(c, a.message);
    }
  }

  /** Every step balances: what is there afterwards is what was there, plus what came in, minus what got lost. */
  lemma Conservation(c: Cluster, a: Action)
    requires Enabled(c, a) && Replicas(c)
    ensures Everywhere(Next(c, a)) + Lost(c, a) == Everywhere(c) + Gained(c, a)
  {
    assert Balanced(c, a) by {
      match a
      case Invoke(node, client, key, call) => InvokeGains(c, node, client, key, call);
      case Deliver(message, node, answer) => DeliverConserves(c, message, node, answer);
      case Lose(_) => LossBalances(c, a);
      case Forget(_) => LossBalances(c, a);
      case Retry(node, answers) => RetryConserves(c, node, answers);
      case Decide(command) => DecideConserves(c, command);
      case ApplyDecided(node) => ApplyConserves(c, node);
      case Restart(node) => RestartLoses(c, node);
      case Learn(_, _) =>
      case Record(_) =>
      case Wait(_) =>
    }
  }

  // ---- The invariant ----

  /** Each replica holds the state of the log at its own index. */
  ghost predicate Replicas(c: Cluster) {
    && |c.decided| == |c.nodes|
    && forall i :: 0 <= i < |c.nodes| ==>
         InStep(c.nodes[i], c.log) && c.nodes[i].decidedIdx <= c.decided[i] <= |c.log|
  }

  /** No command is in two places, and its id tells it from every other. */
  ghost predicate Unique(c: Cluster) {
    && (forall x :: x in Everywhere(c) ==> Everywhere(c)[x] == 1 && x.msgId < c.nextOp)
    && (forall x, y :: x in Everywhere(c) && y in Everywhere(c) && x.msgId == y.msgId ==> x == y)
  }

  /** No id is in the log twice. */
  ghost predicate DistinctIds(log: seq<Command>) {
    forall i, j :: 0 <= i < j < |log| ==> log[i].msgId != log[j].msgId
  }

  function CallFor(op: KVOp): Call {
    match op
    case Read(_) => Call.Read
    case Write(_, value) => Call.Write(value)
    case Cas(_, from, to) => Call.Cas(from, to)
  }

  predicate Matches(e: HistoryEntry, x: Command) {
    e.Invocation? && e.id == x.msgId && e.key == x.op.key && e.call == CallFor(x.op)
  }

  /** The harness recorded the invocation of `x` among the first `n` entries, no later than `time`. */
  ghost predicate InvokedBy(h: seq<HistoryEntry>, n: int, x: Command, time: Time) {
    exists m :: 0 <= m < n && m < |h| && Matches(h[m], x) && h[m].time <= time
  }

  ghost predicate AllInvoked(c: Cluster) {
    forall x :: x in Everywhere(c) ==> InvokedBy(c.history, |c.history|, x, c.clock)
  }

  ghost predicate FreshIds(c: Cluster) {
    FreshBelow(c.history, c.nextOp)
  }

  /** `r` is the sequential answer to position `j` of the log, from its coordinator to its client. */
  ghost predicate Justifies(log: seq<Command>, j: int, r: Reply) {
    0 <= j < |log| && r == AnswerTo(log, j)
  }

  ghost predicate AllJustified(c: Cluster) {
    forall r :: r in c.sent ==> exists j :: Justifies(c.log, j, r)
  }

  /**
   Entry `k` of the history records the sequential answer to position `j`, and everything up to
   that position had been invoked by then.
   */
  ghost predicate Explains(log: seq<Command>, h: seq<HistoryEntry>, j: int, k: int) {
    && 0 <= j < |log| && 0 <= k < |h|
    && h[k] == EntryFor(log[j].msgId, ResultAt(log, j), h[k].time)
    && (forall i {:trigger InvokedBy(h, k, log[i], h[k].time)} :: 0 <= i <= j ==> InvokedBy(h, k, log[i], h[k].time))
  }

  ghost predicate HasExplanation(log: seq<Command>, h: seq<HistoryEntry>, k: int) {
    exists j :: Explains(log, h, j, k)
  }

  /** Every recorded answer has an explanation in the log. */
  ghost predicate Explained(log: seq<Command>, h: seq<HistoryEntry>) {
    forall k {:trigger HasExplanation(log, h, k)} ::
      0 <= k < |h| && h[k].Completion? ==> HasExplanation(log, h, k)
  }

  ghost predicate Inv(c: Cluster) {
    && Replicas(c) && Unique(c) && AllInvoked(c) && FreshIds(c) && AllJustified(c) && Explained(c.log, c.history)
  }
}
