/**
 Why the end-to-end theorem asks for recorded answers: a run of one node in which a write is logged and
 read back, its answer never reaches the record, and the checker reports a violation although the run is
 linearizable.
 */
module LostAnswer {
  import opened Values
  import opened Sequences
  import opened Checker
  import opened Locality
  import opened History
  import opened Node
  import opened Harness
  import opened Cluster
  import opened EndToEnd
  import opened Completion

  /** Any node, client, key and value will do. */
  datatype Setup = Setup(node: string, client: string, key: string, value: Value) {
    function WriteCommand(): Command { Command(node, client, 1, KVOp.Write(key, value)) }
    function ReadCommand(): Command { Command(node, client, 2, KVOp.Read(key)) }
    function Log(): seq<Command> { [WriteCommand(), ReadCommand()] }
    function Idle(): State { State(node, map[], 0, []) }
    function CaughtUp(): State { State(node, map[key := value], 2, []) }
    function WriteRequest(): Message { Request(node, RequestFor(client, 1, key, Call.Write(value))) }
    function ReadRequest(): Message { Request(node, RequestFor(client, 2, key, Call.Read)) }
    function WriteReply(): Reply { Reply(node, client, 1, WriteOk) }
    function ReadReply(): Reply { Reply(node, client, 2, ReadOk(value)) }
    function WriteInvoked(): HistoryEntry { Invocation(1, key, Call.Write(value), 0) }
    function ReadInvoked(): HistoryEntry { Invocation(2, key, Call.Read, 0) }
    function ReadRecorded(): HistoryEntry { Completion(2, Ok, Some(value), 0) }
    function Invoked(): seq<HistoryEntry> { [WriteInvoked(), ReadInvoked()] }

    function Start(): Cluster {
      Cluster([Idle()], [], multiset{}, [], [0], [], [], 1, 0)
    }
    function BothAsked(): Cluster {
      Start().(network := [WriteRequest(), ReadRequest()], history := Invoked(), nextOp := 3)
    }
    function WriteTaken(): Cluster {
      BothTaken().(proposed := multiset{WriteCommand()}, network := [ReadRequest()])
    }
    function BothTaken(): Cluster {
      Start().(proposed := multiset{WriteCommand(), ReadCommand()}, history := Invoked(), nextOp := 3)
    }
    function BothLogged(): Cluster {
      Start().(log := Log(), history := Invoked(), nextOp := 3)
    }
    function Answered(): Cluster {
      BothLogged().(nodes := [CaughtUp()], decided := [2], sent := [WriteReply(), ReadReply()])
    }
    function End(): Cluster {
      Answered().(history := Invoked() + [ReadRecorded()])
    }
  }

  /** `d` follows from `c` by the given actions. */
  ghost predicate Leads(c: Cluster, actions: seq<Action>, d: Cluster)
    decreases |actions|
  {
    if actions == [] then c == d
    else Enabled(c, actions[0]) && Leads(Next(c, actions[0]), actions[1..], d)
  }

  lemma {:induction false} LeadsConcat(c: Cluster, a: seq<Action>, d: Cluster, b: seq<Action>, e: Cluster)
    requires Leads(c, a, d) && Leads(d, b, e)
    ensures Leads(c, a + b, e)
    decreases |a|
  {
    if a == [] {
      assert a + b == b;
    } else {
      LeadsConcat(Next(c, a[0]), a[1..], d, b, e);
      assert (a + b)[1..] == a[1..] + b;
    }
  }

  lemma LeadsOne(c: Cluster, a: Action)
    requires Enabled(c, a)
    ensures Leads(c, [a], Next(c, a))
  {
  }

  lemma LeadsTwo(c: Cluster, a: Action, b: Action)
    requires Enabled(c, a) && Enabled(Next(c, a), b)
    ensures Leads(c, [a, b], Next(Next(c, a), b))
  {
  }

  /** A run can be read off any such sequence of actions. */
  lemma {:induction false} LeadsIsRun(c: Cluster, actions: seq<Action>, d: Cluster) returns (run: seq<Cluster>)
    requires Leads(c, actions, d)
    ensures |run| == |actions| + 1 && run[0] == c && run[|actions|] == d
    ensures forall k :: 0 <= k < |actions| ==> Enabled(run[k], actions[k]) && run[k + 1] == Next(run[k], actions[k])
    decreases |actions|
  {
    if actions == [] {
      run := [c];
    } else {
      var rest := LeadsIsRun(Next(c, actions[0]), actions[1..], d);
      run := [c] + rest;
      forall k | 0 <= k < |actions| ensures Enabled(run[k], actions[k]) && run[k + 1] == Next(run[k], actions[k]) {
        if k > 0 {
          assert run[k] == rest[k - 1] && run[k + 1] == rest[k] && actions[k] == actions[1..][k - 1];
        }
      }
    }
  }

  lemma Ask(s: Setup) returns (actions: seq<Action>)
    ensures Leads(s.Start(), actions, s.BothAsked())
  {
    var a, b := Invoke(0, s.client, s.key, Call.Write(s.value)), Invoke(0, s.client, s.key, Call.Read);
    actions := [a, b];
    LeadsTwo(s.Start(), a, b);
    assert Next(Next(s.Start(), a), b) == s.BothAsked();
  }

  lemma Take(s: Setup) returns (actions: seq<Action>)
    ensures Leads(s.BothAsked(), actions, s.BothTaken())
  {
    var a := Deliver(0, 0, Taken);
    actions := [a, a];
    TakeWrite(s);
    TakeRead(s);
    LeadsTwo(s.BothAsked(), a, a);
  }

  lemma TakeWrite(s: Setup)
    ensures Next(s.BothAsked(), Deliver(0, 0, Taken)) == s.WriteTaken()
  {
    assert Remove([s.WriteRequest(), s.ReadRequest()], 0) == [s.ReadRequest()];
  }

  lemma TakeRead(s: Setup)
    ensures Next(s.WriteTaken(), Deliver(0, 0, Taken)) == s.BothTaken()
  {
    assert Remove([s.ReadRequest()], 0) == [];
  }

  lemma LogBoth(s: Setup) returns (actions: seq<Action>)
    ensures Leads(s.BothTaken(), actions, s.BothLogged())
  {
    var a, b := Decide(s.WriteCommand()), Decide(s.ReadCommand());
    actions := [a, b];
    assert multiset{s.WriteCommand(), s.ReadCommand()} - multiset{s.WriteCommand()} == multiset{s.ReadCommand()};
    LeadsTwo(s.BothTaken(), a, b);
    assert Next(Next(s.BothTaken(), a), b) == s.BothLogged();
  }

  lemma OwedTwo(s: Setup)
    ensures Owed(s.node, s.Log(), 0, 2) == [ReplyLine(s.WriteReply()), ReplyLine(s.ReadReply())]
    ensures Replay(s.Log()) == map[s.key := s.value]
  {
    var log := s.Log();
    assert log[..0] == [] && log[..1] == [s.WriteCommand()] && log[..2] == log;
    ReplayNext(log, 0);
    ReplayNext(log, 1);
    assert Owed(s.node, log, 0, 1) == [ReplyLine(s.WriteReply())];
  }

  lemma TwoLines(r: Reply, r': Reply)
    ensures RepliesIn([ReplyLine(r), ReplyLine(r')]) == [r, r']
    ensures ForwardsIn([ReplyLine(r), ReplyLine(r')]) == []
  {
    var out := [ReplyLine(r), ReplyLine(r')];
    assert out[..1] == [ReplyLine(r)] && out[..1][..0] == [];
    assert RepliesIn(out[..1]) == [r] && ForwardsIn(out[..1]) == [];
  }

  lemma Applied(s: Setup)
    ensures Next(s.BothLogged().(decided := [2]), ApplyDecided(0)) == s.Answered()
  {
    var log := s.Log();
    assert log[..0] == [] && log[..2] == log;
    OwedTwo(s);
    TwoLines(s.WriteReply(), s.ReadReply());
    ProcessCatchesUp(s.Idle(), log, 2);
  }

  lemma Answer(s: Setup) returns (actions: seq<Action>)
    ensures Leads(s.BothLogged(), actions, s.Answered())
  {
    var a, b := Learn(0, 2), ApplyDecided(0);
    actions := [a, b];
    assert Next(s.BothLogged(), a) == s.BothLogged().(decided := [2]);
    Applied(s);
    LeadsTwo(s.BothLogged(), a, b);
  }

  lemma RecordRead(s: Setup) returns (actions: seq<Action>)
    ensures Leads(s.Answered(), actions, s.End())
  {
    actions := [Record(1)];
    LeadsOne(s.Answered(), Record(1));
  }

  lemma WholeRun(s: Setup) returns (run: seq<Cluster>, actions: seq<Action>)
    ensures IsRun(run, actions) && run[|run| - 1] == s.End()
  {
    var a := Ask(s);
    var b := Take(s);
    var c := LogBoth(s);
    var d := Answer(s);
    var e := RecordRead(s);
    LeadsConcat(s.Start(), a, s.BothAsked(), b, s.BothTaken());
    LeadsConcat(s.Start(), a + b, s.BothTaken(), c, s.BothLogged());
    LeadsConcat(s.Start(), a + b + c, s.BothLogged(), d, s.Answered());
    LeadsConcat(s.Start(), a + b + c + d, s.Answered(), e, s.End());
    actions := a + b + c + d + e;
    run := LeadsIsRun(s.Start(), actions, s.End());
  }

  lemma OneCompletion(s: Setup)
    ensures OpsOf(s.End().history) == multiset{Pair(s.ReadInvoked(), s.ReadRecorded())}
  {
    NoneMore([], s.WriteInvoked());
    OneMoreOperation([s.WriteInvoked()], s.ReadInvoked(), s.ReadRecorded());
    assert [] + [s.WriteInvoked()] == [s.WriteInvoked()];
    assert s.End().history == [s.WriteInvoked()] + [s.ReadInvoked(), s.ReadRecorded()];
    assert Paired([], 0) == [];
  }

  /** The write as it stands once its answer is added. */
  function LateWrite(s: Setup): LinearOp {
    Pair(s.WriteInvoked(), Completion(1, Ok, None, MAX_TIME))
  }

  lemma OnePending(s: Setup)
    requires LogInvoked(s.Log(), s.End().history)
    ensures PendingOps(s.Log(), s.End().history, 2) == multiset{LateWrite(s)}
  {
    var log, h := s.Log(), s.End().history;
    assert log[..0] == [];
    assert h[2].Completion? && h[2].id == log[1].msgId;
    assert !Recorded(h, log[0].msgId);
    assert h[CallIn(h, log[0])] == s.WriteInvoked();
    assert PendingOps(log, h, 1) == multiset{LateWrite(s)};
  }

  /**
   A write whose answer is lost on the way to the record, while the read that saw it is recorded, makes the
   checker reject a run that is linearizable once the pending write is completed.
   */
  lemma LostAnswerIsRejected(s: Setup) returns (run: seq<Cluster>, actions: seq<Action>)
    ensures IsRun(run, actions) && !Accepted(run[|run| - 1].history)
    ensures Linearizable(OpsOf(run[|run| - 1].history) + multiset{LateWrite(s)}, map[])
  {
    run, actions := WholeRun(s);
    OneCompletion(s);
    var read := Pair(s.ReadInvoked(), s.ReadRecorded());
    KeyPartUnique(multiset{read}, multiset{read}, s.key);
    UnexplainedRejected(multiset{read}, read, s.value);
    EveryRunIsLinearizable(run, actions);
    OnePending(s);
  }
}
