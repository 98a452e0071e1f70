/**
 One replica (`MaelstromNode`): what it does with a request, a forwarded command, a tick and
 newly decided log entries. OmniPaxos is outside: its answers are parameters.
 */
module Node {
  import opened Values
  import opened Sequences
  import opened NodeIds

  datatype KVOp =
    | Read(key: string)
    | Write(key: string, value: Value)
    | Cas(key: string, from: Value, to: Value)

  datatype Command = Command(coordinator: string, clientSrc: string, msgId: nat, op: KVOp)

  datatype Body = ReadOk(value: Value) | WriteOk | CasOk | Error(code: nat)

  datatype Reply = Reply(src: string, dest: string, inReplyTo: nat, body: Body)

  /** A line the node writes to its standard output. */
  datatype Output =
    | ForwardLine(src: string, dest: string, command: Command)
    | ReplyLine(reply: Reply)

  datatype RequestType = ReadRequest | WriteRequest | CasRequest | OtherRequest(name: string)

  /** A client message; a missing field is `None`. */
  datatype ClientRequest = ClientRequest(
    kind: RequestType,
    src: string,
    msgId: nat,
    key: Option<string>,
    value: Option<Value>,
    from: Option<Value>,
    to: Option<Value>)

  /** What OmniPaxos says to an append: taken, or refused with the leader it knows of. */
  datatype AppendReply = Taken | Refused(leader: Option<OpId>)

  datatype LogEntry =
    | Decided(command: Command)
    | Snapshotted(data: Store)
    | OtherEntry

  const KEY_DOES_NOT_EXIST := 20
  const PRECONDITION_FAILED := 22
  const NOT_SUPPORTED := 10

  // ---- Sequential meaning of commands ----

  /** The store after `op` and the answer to it. */
  function Execute(store: Store, op: KVOp): (Store, Body) {
    match op
    case Read(key) => (store, if key in store then ReadOk(store[key]) else Error(KEY_DOES_NOT_EXIST))
    case Write(key, value) => (store[key := value], WriteOk)
    case Cas(key, from, to) =>
      if key !in store then (store, Error(KEY_DOES_NOT_EXIST))
      else if store[key] != from then (store, Error(PRECONDITION_FAILED))
      else (store[key := to], CasOk)
  }

  /** The store after a log. */
  function Replay(log: seq<Command>): Store {
    if log == [] then map[] else Execute(Replay(log[..|log| - 1]), log[|log| - 1].op).0
  }

  /** The answer to the command at position `j` of the log. */
  function ResultAt(log: seq<Command>, j: nat): Body
    requires j < |log|
  {
    Execute(Replay(log[..j]), log[j].op).1
  }

  /** The answer line to the command at position `j`: from its coordinator, to its client. */
  function AnswerTo(log: seq<Command>, j: nat): Reply
    requires j < |log|
  {
    Reply(log[j].coordinator, log[j].clientSrc, log[j].msgId, ResultAt(log, j))
  }

  /** What the log says node `id` owes its clients for positions `lo` to `hi`. */
  function Owed(id: string, log: seq<Command>, lo: nat, hi: nat): seq<Output>
    requires lo <= hi <= |log|
  {
    if lo == hi then []
    else
      Owed(id, log, lo, hi - 1) +
      if log[hi - 1].coordinator == id then [ReplyLine(AnswerTo(log, hi - 1))] else []
  }

  // ---- The replica's state and reactions ----

  datatype State = State(id: string, store: Store, decidedIdx: nat, pending: seq<Command>)

  /** What a reaction leaves outside the node: commands OmniPaxos took, and lines written. */
  datatype Effects = Effects(proposed: seq<Command>, out: seq<Output>)

  const NOTHING := Effects([], [])

  function Then(a: Effects, b: Effects): Effects {
    Effects(a.proposed + b.proposed, a.out + b.out)
  }

  lemma ThenConcat(proposals: seq<Command>, lines: seq<Output>, a: Effects, b: Effects)
    ensures proposals + Then(a, b).proposed == (proposals + a.proposed) + b.proposed
    ensures lines + Then(a, b).out == (lines + a.out) + b.out
  {
  }

  /** Whether a refused command goes to another node rather than into the buffer. */
  predicate ForwardsTo(id: string, answer: AppendReply) {
    answer.Refused? && answer.leader.Some? && ToMaelstrom(answer.leader.value) != id
  }

  function Append(n: State, c: Command, answer: AppendReply): (State, Effects) {
    if answer.Taken? then (n, Effects([c], []))
    else if ForwardsTo(n.id, answer) then
      (n, Effects([], [ForwardLine(n.id, ToMaelstrom(answer.leader.value), c)]))
    else (n.(pending := n.pending + [c]), NOTHING)
  }

  /** Appends tried one after the other. */
  function AppendAll(n: State, batch: seq<Command>, answers: seq<AppendReply>): (State, Effects)
    requires |answers| == |batch|
  {
    if batch == [] then (n, NOTHING)
    else
      var k := |batch| - 1;
      var (n', before) := AppendAll(n, batch[..k], answers[..k]);
      var (n'', last) := Append(n', batch[k], answers[k]);
      (n'', Then(before, last))
  }

  lemma AppendAllNext(n: State, batch: seq<Command>, answers: seq<AppendReply>, k: nat)
    requires |answers| == |batch| && k < |batch|
    ensures var (n', before) := AppendAll(n, batch[..k], answers[..k]);
      var (n'', last) := Append(n', batch[k], answers[k]);
      AppendAll(n, batch[..k + 1], answers[..k + 1]) == (n'', Then(before, last))
  {
    assert batch[..k + 1][..k] == batch[..k] && answers[..k + 1][..k] == answers[..k];
  }

  function Tick(n: State, answers: seq<AppendReply>): (State, Effects)
    requires |answers| == |n.pending|
  {
    AppendAll(n.(pending := []), n.pending, answers)
  }

  function ParseOp(r: ClientRequest): Option<KVOp> {
    var key := if r.key.Some? then r.key.value else "";
    match r.kind
    case ReadRequest => Some(Read(key))
    case WriteRequest => Some(Write(key, OrNull(r.value)))
    case CasRequest => Some(Cas(key, OrNull(r.from), OrNull(r.to)))
    case OtherRequest(_) => None
  }

  function OrNull(v: Option<Value>): Value {
    if v.Some? then v.value else Null
  }

  function ClientCall(n: State, r: ClientRequest, answer: AppendReply): (State, Effects) {
    match ParseOp(r)
    case Some(op) => Append(n, Command(n.id, r.src, r.msgId, op), answer)
    case None => (n, Effects([], [ReplyLine(Reply(n.id, r.src, r.msgId, Error(NOT_SUPPORTED)))]))
  }

  function ApplyEntry(n: State, e: LogEntry): (State, seq<Output>) {
    match e
    case Decided(c) =>
      var (store, body) := Execute(n.store, c.op);
      (n.(store := store), if c.coordinator == n.id then [ReplyLine(Reply(n.id, c.clientSrc, c.msgId, body))] else [])
    case Snapshotted(data) => (n.(store := data), [])
    case OtherEntry => (n, [])
  }

  function ApplyEntries(n: State, entries: seq<LogEntry>): (State, seq<Output>) {
    if entries == [] then (n, [])
    else
      var (n', before) := ApplyEntries(n, entries[..|entries| - 1]);
      var (n'', last) := ApplyEntry(n', entries[|entries| - 1]);
      (n'', before + last)
  }

  function Process(n: State, decided: nat, entries: seq<LogEntry>): (State, seq<Output>) {
    if n.decidedIdx >= decided then (n, [])
    else ApplyEntries(n.(decidedIdx := decided), entries)
  }

  /** Log entries as `read_decided_suffix` returns them when nothing was compacted. */
  function AsDecided(log: seq<Command>): (r: seq<LogEntry>)
    ensures |r| == |log|
  {
    seq(|log|, i requires 0 <= i < |log| => Decided(log[i]))
  }

  // ---- The replica as the program has it ----

  class MaelstromNode {
    const nodeId: string
    var kvStore: Store
    var decidedIdx: nat
    var pendingForwards: seq<Command>
    /** Lines written so far. */
    var stdout: seq<Output>
    /** Commands that OmniPaxos has taken from this node so far. */
    var proposals: seq<Command>

    constructor (nodeId: string)
      ensures Now() == State(nodeId, map[], 0, []) && stdout == [] && proposals == []
    {
      this.nodeId := nodeId;
      kvStore, decidedIdx, pendingForwards := map[], 0, [];
      stdout, proposals := [], [];
    }

    function Now(): State
      reads this
    {
      State(nodeId, kvStore, decidedIdx, pendingForwards)
    }

    /** The node went from `before` to the state in `r`, with the effects in `r`. */
    twostate predicate Did(r: (State, Effects))
      reads this
    {
      && Now() == r.0
      && proposals == old(proposals) + r.1.proposed
      && stdout == old(stdout) + r.1.out
    }

    method Send(line: Output)
      modifies this`stdout
      ensures stdout == old(stdout) + [line]
    {
      stdout := stdout + [line];
    }

    method TryAppend(command: Command, answer: AppendReply)
      modifies this
      ensures Did(Append(old(Now()), command, answer))
    {
      match answer {
        case Taken =>
          proposals := proposals + [command];
        case Refused(leader) =>
          if leader.Some? {
            var leaderName := ToMaelstrom(leader.value);
            if leaderName != nodeId {
              Send(ForwardLine(nodeId, leaderName, command));
              return;
            }
          }
          pendingForwards := pendingForwards + [command];
      }
    }

    method HandleClientRequest(r: ClientRequest, answer: AppendReply)
      modifies this
      ensures Did(ClientCall(old(Now()), r, answer))
    {
      var key := if r.key.Some? then r.key.value else "";
      var op: KVOp;
      match r.kind {
        case ReadRequest => op := Read(key);
        case WriteRequest => op := Write(key, OrNull(r.value));
        case CasRequest => op := Cas(key, OrNull(r.from), OrNull(r.to));
        case OtherRequest(_) =>
          Send(ReplyLine(Reply(nodeId, r.src, r.msgId, Error(NOT_SUPPORTED))));
          return;
      }
      TryAppend(Command(nodeId, r.src, r.msgId, op), answer);
    }

    method HandleForwardedRequest(command: Command, answer: AppendReply)
      modifies this
      ensures Did(Append(old(Now()), command, answer))
    {
      TryAppend(command, answer);
    }

    method TickNode(answers: seq<AppendReply>)
      requires |answers| == |pendingForwards|
      modifies this
      ensures Did(Tick(old(Now()), answers))
    {
      var pending := pendingForwards;
      pendingForwards := [];
      ghost var start := Now();
      for k := 0 to |pending|
        invariant var r := AppendAll(start, pending[..k], answers[..k]);
          Now() == r.0 && proposals == old(proposals) + r.1.proposed && stdout == old(stdout) + r.1.out
      {
        ghost var r := AppendAll(start, pending[..k], answers[..k]);
        AppendAllNext(start, pending, answers, k);
        TryAppend(pending[k], answers[k]);
        ThenConcat(old(proposals), old(stdout), r.1, Append(r.0, pending[k], answers[k]).1);
      }
      assert pending[..|pending|] == pending && answers[..|answers|] == answers;
    }

    method ApplyAndRespond(cmd: Command)
      modifies this
      ensures Now() == ApplyEntry(old(Now()), Decided(cmd)).0
      ensures stdout == old(stdout) + ApplyEntry(old(Now()), Decided(cmd)).1
      ensures proposals == old(proposals)
    {
      var isCoordinator := cmd.coordinator == nodeId;
      match cmd.op {
        case Read(key) =>
          if isCoordinator {
            if key in kvStore {
              Send(ReplyLine(Reply(nodeId, cmd.clientSrc, cmd.msgId, ReadOk(kvStore[key]))));
            } else {
              Send(ReplyLine(Reply(nodeId, cmd.clientSrc, cmd.msgId, Error(KEY_DOES_NOT_EXIST))));
            }
          }
        case Write(key, value) =>
          kvStore := kvStore[key := value];
          if isCoordinator {
            Send(ReplyLine(Reply(nodeId, cmd.clientSrc, cmd.msgId, WriteOk)));
          }
        case Cas(key, from, to) =>
          var result: Body;
          if key !in kvStore {
            result := Error(KEY_DOES_NOT_EXIST);
          } else if kvStore[key] != from {
            result := Error(PRECONDITION_FAILED);
          } else {
            kvStore := kvStore[key := to];
            result := CasOk;
          }
          if isCoordinator {
            Send(ReplyLine(Reply(nodeId, cmd.clientSrc, cmd.msgId, result)));
          }
      }
    }

    method ProcessDecidedEntries(newDecidedIdx: nat, entries: seq<LogEntry>)
      modifies this
      ensures Now() == Process(old(Now()), newDecidedIdx, entries).0
      ensures stdout == old(stdout) + Process(old(Now()), newDecidedIdx, entries).1
      ensures proposals == old(proposals)
    {
      if decidedIdx >= newDecidedIdx {
        return;
      }
      decidedIdx := newDecidedIdx;
      ghost var start := Now();
      for k := 0 to |entries|
        invariant Now() == ApplyEntries(start, entries[..k]).0
        invariant stdout == old(stdout) + ApplyEntries(start, entries[..k]).1
        invariant proposals == old(proposals)
      {
        match entries[k] {
          case Decided(cmd) => ApplyAndRespond(cmd);
          case Snapshotted(data) => kvStore := data;
          case OtherEntry =>
        }
        assert entries[..k + 1][..k] == entries[..k];
      }
      assert entries[..|entries|] == entries;
    }
  }

  // ---- Nothing is lost or duplicated on the way to the log ----

  ghost function CommandsIn(out: seq<Output>): multiset<Command> {
    if out == [] then multiset{}
    else
      CommandsIn(out[..|out| - 1]) +
      match out[|out| - 1] {
        case ForwardLine(_, _, c) => multiset{c}
        case ReplyLine(_) => multiset{}
      }
  }

  lemma {:induction false} CommandsInConcat(a: seq<Output>, b: seq<Output>)
    ensures CommandsIn(a + b) == CommandsIn(a) + CommandsIn(b)
  {
    if b == [] {
      assert a + b == a;
    } else {
      CommandsInConcat(a, b[..|b| - 1]);
      assert (a + b)[..|a + b| - 1] == a + b[..|b| - 1];
    }
  }

  /** Every command handed on, to OmniPaxos or to another node. */
  ghost function Handed(e: Effects): multiset<Command> {
    multiset(e.proposed) + CommandsIn(e.out)
  }

  lemma HandedThen(a: Effects, b: Effects)
    ensures Handed(Then(a, b)) == Handed(a) + Handed(b)
  {
    CommandsInConcat(a.out, b.out);
  }

  /** Every command a node still holds or has just handed on. */
  ghost function Held(n: State, e: Effects): multiset<Command> {
    multiset(n.pending) + Handed(e)
  }

  /** An append keeps the command: proposed, forwarded or buffered, exactly one of the three. */
  lemma AppendConserves(n: State, c: Command, answer: AppendReply)
    ensures var (n', e) := Append(n, c, answer);
      Held(n', e) == multiset(n.pending) + multiset{c} && n' == n.(pending := n'.pending)
  {
    var (n', e) := Append(n, c, answer);
    if |e.out| == 1 {
      assert CommandsIn(e.out[..0]) == multiset{};
    }
  }

  lemma {:induction false} AppendAllConserves(n: State, batch: seq<Command>, answers: seq<AppendReply>)
    requires |answers| == |batch|
    ensures var (n', e) := AppendAll(n, batch, answers);
      Held(n', e) == multiset(n.pending) + multiset(batch) && n' == n.(pending := n'.pending)
  {
    if batch != [] {
      var k := |batch| - 1;
      var (n', before) := AppendAll(n, batch[..k], answers[..k]);
      AppendAllConserves(n, batch[..k], answers[..k]);
      var (n'', last) := Append(n', batch[k], answers[k]);
      AppendConserves(n', batch[k], answers[k]);
      HandedThen(before, last);
      LastBag(batch);
      AddUp(Held(n', before), multiset(n.pending), multiset(batch[..k]), batch[k],
            multiset(n'.pending), Handed(before), multiset(n''.pending), Handed(last));
    }
  }

  lemma AddUp(held: multiset<Command>, start: multiset<Command>, batch: multiset<Command>, c: Command,
              mid: multiset<Command>, before: multiset<Command>, end: multiset<Command>, last: multiset<Command>)
    requires held == start + batch && held == mid + before && end + last == mid + multiset{c}
    ensures end + (before + last) == start + (batch + multiset{c})
  {
    assert end + (before + last) == (end + last) + before == (mid + before) + multiset{c};
  }

  /** A tick moves buffered commands on or keeps them: none is lost, none is duplicated. */
  lemma TickConserves(n: State, answers: seq<AppendReply>)
    requires |answers| == |n.pending|
    ensures var (n', e) := Tick(n, answers);
      Held(n', e) == multiset(n.pending) && n' == n.(pending := n'.pending)
  {
    AppendAllConserves(n.(pending := []), n.pending, answers);
  }

  /** Whether the answer puts the command back into the buffer. */
  predicate Rebuffers(id: string, answer: AppendReply) {
    answer.Refused? && !ForwardsTo(id, answer)
  }

  /** The buffered commands whose answer puts them back, in buffer order. */
  function Rebuffered(id: string, batch: seq<Command>, answers: seq<AppendReply>): seq<Command>
    requires |answers| == |batch|
  {
    if batch == [] then []
    else if Rebuffers(id, answers[0]) then [batch[0]] + Rebuffered(id, batch[1..], answers[1..])
    else Rebuffered(id, batch[1..], answers[1..])
  }

  lemma {:induction false} RebufferedSnoc(id: string, batch: seq<Command>, answers: seq<AppendReply>)
    requires |answers| == |batch| > 0
    ensures var k := |batch| - 1;
      Rebuffered(id, batch, answers) ==
      Rebuffered(id, batch[..k], answers[..k]) + if Rebuffers(id, answers[k]) then [batch[k]] else []
  {
    var k := |batch| - 1;
    if k == 0 {
      assert Rebuffered(id, batch[1..], answers[1..]) == [];
    } else {
      RebufferedSnoc(id, batch[1..], answers[1..]);
      assert batch[1..][..k - 1] == batch[..k][1..] && answers[1..][..k - 1] == answers[..k][1..];
    }
  }

  lemma {:induction false} AppendAllKeepsOrder(n: State, batch: seq<Command>, answers: seq<AppendReply>)
    requires |answers| == |batch|
    ensures AppendAll(n, batch, answers).0 == n.(pending := n.pending + Rebuffered(n.id, batch, answers))
  {
    if batch == [] {
      assert n.pending + [] == n.pending;
    } else {
      var k := |batch| - 1;
      AppendAllKeepsOrder(n, batch[..k], answers[..k]);
      RebufferedSnoc(n.id, batch, answers);
    }
  }

  /** Commands that go back into the buffer keep their relative order. */
  lemma TickKeepsOrder(n: State, answers: seq<AppendReply>)
    requires |answers| == |n.pending|
    ensures Tick(n, answers).0.pending == Rebuffered(n.id, n.pending, answers)
  {
    AppendAllKeepsOrder(n.(pending := []), n.pending, answers);
    assert [] + Rebuffered(n.id, n.pending, answers) == Rebuffered(n.id, n.pending, answers);
  }

  /** `r` is `n` unchanged, with a single line out: the command, from this node, to the node with id `leader`. */
  ghost predicate SentTo(n: State, c: Command, leader: OpId, r: (State, Effects)) {
    && r.0 == n && r.1.proposed == [] && |r.1.out| == 1
    && r.1.out[0].ForwardLine? && r.1.out[0].src == n.id && r.1.out[0].command == c
    && ToOpId(r.1.out[0].dest) == Some(leader)
  }

  /** A command is proposed when it is taken, sent to the leader when that has another name, and buffered otherwise. */
  lemma AppendGoes(n: State, c: Command, answer: AppendReply)
    ensures var r := Append(n, c, answer);
      if answer.Taken? then r == (n, Effects([c], []))
      else if answer.leader.Some? && ToMaelstrom(answer.leader.value) != n.id then SentTo(n, c, answer.leader.value, r)
      else r == (n.(pending := n.pending + [c]), Effects([], []))
  {
    if answer.Refused? && answer.leader.Some? {
      PrintThenParse(answer.leader.value);
    }
  }

  /** A leader whose own append is refused sends the command on, to its canonical name, unless that is its name. */
  lemma LeaderForwardsIff(id: string)
    requires ToOpId(id).Some?
    ensures ForwardsTo(id, Refused(ToOpId(id))) <==> !Canonical(id)
  {
    ParseThenPrint(id);
  }

  /** A node whose id is canonical never forwards to itself, whoever it believes leads. */
  lemma ForwardsOnlyToOthers(n: State, c: Command, leader: OpId)
    requires Canonical(n.id) && ToOpId(n.id).Some?
    ensures ForwardsTo(n.id, Refused(Some(leader))) <==> leader != ToOpId(n.id).value
    ensures forall line :: line in Append(n, c, Refused(Some(leader))).1.out ==> line.ForwardLine? && line.dest != n.id
  {
    PrintThenParse(leader);
    ParseThenPrint(n.id);
  }

  // ---- Applying decided entries ----

  lemma {:induction false} ReplayNext(log: seq<Command>, k: nat)
    requires k < |log|
    ensures Replay(log[..k + 1]) == Execute(Replay(log[..k]), log[k].op).0
  {
    assert log[..k + 1][..k] == log[..k];
  }

  lemma ApplySnoc(n: State, entries: seq<LogEntry>, e: LogEntry)
    ensures var (n', before) := ApplyEntries(n, entries);
      var (n'', last) := ApplyEntry(n', e);
      ApplyEntries(n, entries + [e]) == (n'', before + last)
  {
  }

  lemma DecidedSnoc(log: seq<Command>, lo: nat, hi: nat)
    requires lo < hi <= |log|
    ensures AsDecided(log[lo..hi]) == AsDecided(log[lo..hi - 1]) + [Decided(log[hi - 1])]
  {
  }

  lemma ApplyNext(n: State, log: seq<Command>, lo: nat, hi: nat)
    requires lo < hi <= |log|
    ensures var (n', before) := ApplyEntries(n, AsDecided(log[lo..hi - 1]));
      var (n'', last) := ApplyEntry(n', Decided(log[hi - 1]));
      ApplyEntries(n, AsDecided(log[lo..hi])) == (n'', before + last)
  {
    ApplySnoc(n, AsDecided(log[lo..hi - 1]), Decided(log[hi - 1]));
    DecidedSnoc(log, lo, hi);
  }

  /** What the log says about node `n` once it has applied positions `lo` to `hi`. */
  function Applied(n: State, log: seq<Command>, lo: nat, hi: nat): (State, seq<Output>)
    requires lo <= hi <= |log|
  {
    (n.(store := Replay(log[..hi])), Owed(n.id, log, lo, hi))
  }

  lemma AppliedNext(n: State, log: seq<Command>, lo: nat, hi: nat)
    requires lo < hi <= |log|
    ensures var (n', before) := Applied(n, log, lo, hi - 1);
      var (n'', last) := ApplyEntry(n', Decided(log[hi - 1]));
      Applied(n, log, lo, hi) == (n'', before + last)
  {
    ReplayNext(log, hi - 1);
  }

  lemma {:induction false} ApplyRange(n: State, log: seq<Command>, lo: nat, hi: nat)
    requires lo <= hi <= |log| && n.store == Replay(log[..lo])
    ensures ApplyEntries(n, AsDecided(log[lo..hi])) == Applied(n, log, lo, hi)
  {
    if lo == hi {
      assert AsDecided(log[lo..hi]) == [];
    } else {
      ApplyRange(n, log, lo, hi - 1);
      ApplyNext(n, log, lo, hi);
      AppliedNext(n, log, lo, hi);
    }
  }

  /** Node `n` has applied exactly the first `n.decidedIdx` entries of `log`. */
  predicate InStep(n: State, log: seq<Command>) {
    n.decidedIdx <= |log| && n.store == Replay(log[..n.decidedIdx])
  }

  /** The suffix of the log that OmniPaxos hands a node whose index is `from`. */
  function Suffix(log: seq<Command>, from: nat, decided: nat): seq<LogEntry>
    requires decided <= |log|
  {
    if from <= decided then AsDecided(log[from..decided]) else []
  }

  /** One batch: the node catches up with the log and answers exactly what it owes. */
  lemma ProcessCatchesUp(n: State, log: seq<Command>, decided: nat)
    requires InStep(n, log) && decided <= |log|
    ensures var (n', out) := Process(n, decided, Suffix(log, n.decidedIdx, decided));
      var hi := if decided <= n.decidedIdx then n.decidedIdx else decided;
      && n' == n.(decidedIdx := hi, store := Replay(log[..hi]))
      && InStep(n', log)
      && out == Owed(n.id, log, n.decidedIdx, hi)
  {
    if n.decidedIdx < decided {
      ApplyRange(n.(decidedIdx := decided), log, n.decidedIdx, decided);
    }
  }

  lemma {:induction false} OwedSplits(id: string, log: seq<Command>, lo: nat, mid: nat, hi: nat)
    requires lo <= mid <= hi <= |log|
    ensures Owed(id, log, lo, hi) == Owed(id, log, lo, mid) + Owed(id, log, mid, hi)
  {
    if mid < hi {
      OwedSplits(id, log, lo, mid, hi - 1);
    }
  }

  predicate Within(marks: seq<nat>, log: seq<Command>) {
    forall i :: 0 <= i < |marks| ==> marks[i] <= |log|
  }

  /** The node after a whole sequence of decided indices, in any order and with repetitions. */
  function ProcessAll(n: State, log: seq<Command>, marks: seq<nat>): (State, seq<Output>)
    requires Within(marks, log)
  {
    if marks == [] then (n, [])
    else
      var (n', before) := ProcessAll(n, log, marks[..|marks| - 1]);
      var m := marks[|marks| - 1];
      var (n'', last) := Process(n', m, Suffix(log, n'.decidedIdx, m));
      (n'', before + last)
  }

  function Highest(from: nat, marks: seq<nat>): (m: nat)
    ensures from <= m
  {
    if marks == [] then from
    else
      var h := Highest(from, marks[..|marks| - 1]);
      if marks[|marks| - 1] <= h then h else marks[|marks| - 1]
  }

  /** Batching is invisible: store and answers are those of one pass over the decided prefix. */
  lemma {:induction false} BatchingInvisible(n: State, log: seq<Command>, marks: seq<nat>)
    requires InStep(n, log) && Within(marks, log)
    ensures var hi := Highest(n.decidedIdx, marks);
      && hi <= |log|
      && ProcessAll(n, log, marks) ==
         (n.(decidedIdx := hi, store := Replay(log[..hi])), Owed(n.id, log, n.decidedIdx, hi))
  {
    if marks != [] {
      var front, m := marks[..|marks| - 1], marks[|marks| - 1];
      BatchingInvisible(n, log, front);
      var mid, hi := Highest(n.decidedIdx, front), Highest(n.decidedIdx, marks);
      ProcessCatchesUp(n.(decidedIdx := mid, store := Replay(log[..mid])), log, m);
      OwedSplits(n.id, log, n.decidedIdx, mid, hi);
    }
  }

  lemma {:induction false} OwedStable(id: string, log: seq<Command>, longer: seq<Command>, lo: nat, hi: nat)
    requires log <= longer && lo <= hi <= |log|
    ensures Owed(id, log, lo, hi) == Owed(id, longer, lo, hi)
  {
    if lo < hi {
      OwedStable(id, log, longer, lo, hi - 1);
      assert log[..hi - 1] == longer[..hi - 1];
    }
  }

  /** A replica that starts over from index 0 of a grown log repeats its earlier answers word for word. */
  lemma ReplayRepeatsAnswers(id: string, log: seq<Command>, longer: seq<Command>, decided: nat, decided': nat)
    requires log <= longer && decided <= |log| && decided <= decided' <= |longer|
    ensures var first := Process(State(id, map[], 0, []), decided, Suffix(log, 0, decided)).1;
      var again := Process(State(id, map[], 0, []), decided', Suffix(longer, 0, decided')).1;
      first <= again && again == Owed(id, longer, 0, decided')
  {
    var restarted := State(id, map[], 0, []);
    ProcessCatchesUp(restarted, log, decided);
    ProcessCatchesUp(restarted, longer, decided');
    OwedStable(id, log, longer, 0, decided);
    OwedSplits(id, longer, 0, decided, decided');
  }
}
