/**
 What the answers in a run say, read off the log without executing it, and whom they are for.
 */
module LogAnswers {
  import opened Values
  import opened Node
  import opened Cluster
  import opened Safety

  // ---- Answers as a property of the log ----

  /** The value that position `m` leaves on its key, if its answer is `answers[m]`. */
  function Given(log: seq<Command>, answers: seq<Body>, m: nat): Option<Value>
    requires m < |log| && m < |answers|
  {
    match log[m].op
    case Write(_, value) => Some(value)
    case Cas(_, _, to) => if answers[m] == CasOk then Some(to) else None
    case Read(_) => None
  }

  predicate GivesTo(log: seq<Command>, answers: seq<Body>, key: string, m: int) {
    0 <= m < |log| && m < |answers| && log[m].op.key == key && Given(log, answers, m).Some?
  }

  /** Position `m` is the last before `j` to leave a value on `key`. */
  predicate LastGiver(log: seq<Command>, answers: seq<Body>, key: string, j: nat, m: int) {
    GivesTo(log, answers, key, m) && m < j && forall i :: m < i < j ==> !GivesTo(log, answers, key, i)
  }

  predicate NoGiver(log: seq<Command>, answers: seq<Body>, key: string, j: nat) {
    forall i :: 0 <= i < j ==> !GivesTo(log, answers, key, i)
  }

  /** The answer to a read or compare-and-swap that finds `v`. */
  function Finding(op: KVOp, v: Value): Body
    requires !op.Write?
  {
    match op
    case Read(_) => ReadOk(v)
    case Cas(_, from, _) => if from == v then CasOk else Error(22)
  }

  /**
   The answer at position `j` is right by those before it: a write is acknowledged; a read or compare-and-swap of a
   key without a value gets error 20; otherwise the last value decides between the read's answer, success and
   error 22.
   */
  ghost predicate RightAt(log: seq<Command>, answers: seq<Body>, j: nat)
    requires j < |log| && j < |answers|
  {
    var key := log[j].op.key;
    if log[j].op.Write? then answers[j] == WriteOk
    else if NoGiver(log, answers, key, j) then answers[j] == Error(20)
    else exists m :: LastGiver(log, answers, key, j, m) &&
           answers[j] == Finding(log[j].op, Given(log, answers, m).value)
  }

  function Answers(log: seq<Command>): (r: seq<Body>)
    ensures |r| == |log| && forall j :: 0 <= j < |log| ==> r[j] == ResultAt(log, j)
  {
    seq(|log|, j requires 0 <= j < |log| => ResultAt(log, j))
  }

  /** The first `j` answers are the node's. */
  ghost predicate AgreesUpTo(log: seq<Command>, answers: seq<Body>, j: nat) {
    j <= |log| && j <= |answers| && forall i :: 0 <= i < j ==> answers[i] == ResultAt(log, i)
  }

  lemma OneLastGiver(log: seq<Command>, answers: seq<Body>, key: string, j: nat, m: int, m': int)
    requires LastGiver(log, answers, key, j, m) && LastGiver(log, answers, key, j, m')
    ensures m == m'
  {
  }

  /** One position: a giver leaves its value, anything else leaves the key alone. */
  lemma ValueNext(log: seq<Command>, answers: seq<Body>, key: string, j: nat)
    requires AgreesUpTo(log, answers, j + 1)
    ensures Lookup(Replay(log[..j + 1]), key) ==
            if GivesTo(log, answers, key, j) then Given(log, answers, j) else Lookup(Replay(log[..j]), key)
  {
    ReplayNext(log, j);
    assert answers[j] == ResultAt(log, j);
  }

  /** The store holds on each key what its last giver left there. */
  lemma {:induction false} ValueOnLog(log: seq<Command>, answers: seq<Body>, key: string, j: nat) returns (m: int)
    requires AgreesUpTo(log, answers, j)
    ensures if NoGiver(log, answers, key, j) then Lookup(Replay(log[..j]), key) == None
            else LastGiver(log, answers, key, j, m) && Lookup(Replay(log[..j]), key) == Given(log, answers, m)
  {
    m := -1;
    if j > 0 {
      ValueNext(log, answers, key, j - 1);
      m := ValueOnLog(log, answers, key, j - 1);
      if GivesTo(log, answers, key, j - 1) {
        m := j - 1;
      }
    }
  }

  lemma RightIsResult(log: seq<Command>, answers: seq<Body>, j: nat)
    requires AgreesUpTo(log, answers, j) && j < |log| && j < |answers|
    ensures RightAt(log, answers, j) <==> answers[j] == ResultAt(log, j)
  {
    var key := log[j].op.key;
    var m := ValueOnLog(log, answers, key, j);
    if !NoGiver(log, answers, key, j) {
      forall m' | LastGiver(log, answers, key, j, m') ensures m' == m {
        OneLastGiver(log, answers, key, j, m, m');
      }
    }
  }

  lemma {:induction false} RightUpTo(log: seq<Command>, answers: seq<Body>, j: nat)
    requires j <= |log| == |answers|
    requires forall i :: 0 <= i < j ==> RightAt(log, answers, i)
    ensures AgreesUpTo(log, answers, j)
  {
    if j > 0 {
      RightUpTo(log, answers, j - 1);
      RightIsResult(log, answers, j - 1);
    }
  }

  /** The nodes' answers are the one sequence of answers that is right at every position. */
  lemma AnswersDetermined(log: seq<Command>, answers: seq<Body>)
    requires |answers| == |log|
    ensures (forall j :: 0 <= j < |log| ==> RightAt(log, answers, j)) <==> answers == Answers(log)
  {
    if forall j :: 0 <= j < |log| ==> RightAt(log, answers, j) {
      RightUpTo(log, answers, |log|);
    }
    if answers == Answers(log) {
      forall j | 0 <= j < |log| ensures RightAt(log, answers, j) {
        RightIsResult(log, answers, j);
      }
    }
  }

  // ---- Whom answers are for ----

  /** In state `c` action `a` asks for the command `x`: its client, its node, its key and its call. */
  ghost predicate Asks(c: Cluster, a: Action, x: Command) {
    && Enabled(c, a) && a.Invoke?
    && x.coordinator == c.nodes[a.node].id
    && x.clientSrc == a.client
    && x.msgId == c.nextOp
    && x.op.key == a.key
    && CallFor(x.op) == a.call
  }

  lemma GainedWasAsked(c: Cluster, a: Action, x: Command)
    requires Enabled(c, a) && x in Gained(c, a)
    ensures Asks(c, a, x)
  {
  }

  /** Every command anywhere in a run is what some client asked the coordinating node for. */
  lemma {:induction false} CommandsWereAsked(run: seq<Cluster>, actions: seq<Action>, k: nat, x: Command)
    returns (t: nat)
    requires IsRun(run, actions) && k < |run| && x in Everywhere(run[k])
    ensures t < k && Asks(run[t], actions[t], x)
  {
    if k == 0 {
      StartsEmpty(run[0]);
      assert false;
    } else {
      RunKeepsInv(run, actions, k - 1);
      CommandsKept(run[k - 1], actions[k - 1], x);
      if x in Everywhere(run[k - 1]) {
        t := CommandsWereAsked(run, actions, k - 1, x);
      } else {
        t := k - 1;
        GainedWasAsked(run[k - 1], actions[k - 1], x);
      }
    }
  }

  /**
   Every answer written in a run goes from the node that was asked to the client that asked, under the id of the
   request, and says what the log calls for at the request's position.
   */
  lemma AnswersAreRight(run: seq<Cluster>, actions: seq<Action>, k: nat, r: Reply) returns (j: nat, t: nat)
    requires IsRun(run, actions) && k < |run| && r in run[k].sent
    ensures j < |run[k].log| && t < k && Asks(run[t], actions[t], run[k].log[j])
    ensures r.dest == actions[t].client && r.src == run[t].nodes[actions[t].node].id && r.inReplyTo == run[t].nextOp
    ensures r.body == Answers(run[k].log)[j] && RightAt(run[k].log, Answers(run[k].log), j)
  {
    var log := run[k].log;
    AnswersAreSequential(run, actions, k, k, r);
    j :| 0 <= j < |log| && Justifies(log, j, r);
    InLogIsEverywhere(run[k], j);
    t := CommandsWereAsked(run, actions, k, log[j]);
    AnswersDetermined(log, Answers(log));
  }
}
