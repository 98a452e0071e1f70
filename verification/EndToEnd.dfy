/**
 The checker accepts what the cluster does: in every run whose unrecorded changes nobody on record has
 looked at, the recorded history is linearizable and passes.
 */
module EndToEnd {
  import opened Values
  import opened Sequences
  import opened Checker
  import opened History
  import opened Node
  import opened Harness
  import opened Cluster
  import opened Safety

  // ---- What a run guarantees about its log and its history ----

  ghost predicate Faithful(log: seq<Command>, h: seq<HistoryEntry>) {
    UniqueCalls(h) && DistinctIds(log) && Explained(log, h)
  }

  lemma RunIsFaithful(run: seq<Cluster>, actions: seq<Action>, k: nat)
    requires IsRun(run, actions) && k < |run|
    ensures Faithful(run[k].log, run[k].history)
  {
    RunKeepsInv(run, actions, k);
    LogIdsDistinct(run[k]);
  }

  /** The history answers the operation `id`. */
  ghost predicate HasAnswer(h: seq<HistoryEntry>, id: nat) {
    exists k :: Answered(h, k) && h[k].id == id
  }

  ghost predicate Recorded(h: seq<HistoryEntry>, id: nat) {
    exists k :: 0 <= k < |h| && h[k].Completion? && h[k].id == id
  }

  predicate ChangesStore(log: seq<Command>, j: nat)
    requires j < |log|
  {
    Replay(log[..j + 1]) != Replay(log[..j])
  }

  /** Position `j` changed the store and no answer to it is on record. */
  ghost predicate Gap(log: seq<Command>, h: seq<HistoryEntry>, j: int) {
    0 <= j < |log| && ChangesStore(log, j) && !Recorded(h, log[j].msgId)
  }

  predicate WritesKey(x: Command, key: string) {
    x.op.Write? && x.op.key == key
  }

  /** Position `m` is a recorded write that replaces the value position `j` left. */
  ghost predicate Overwrites(log: seq<Command>, h: seq<HistoryEntry>, j: int, m: int) {
    0 <= j < m < |log| && WritesKey(log[m], log[j].op.key) && Recorded(h, log[m].msgId)
  }

  /** Between `j` and `i` the value that position `j` left is replaced. */
  ghost predicate Overwritten(log: seq<Command>, h: seq<HistoryEntry>, j: int, i: int) {
    exists m :: Overwrites(log, h, j, m) && m < i
  }

  /** Position `i` is a recorded read or compare-and-swap of the key of position `j`, later in the log. */
  ghost predicate LooksAt(log: seq<Command>, h: seq<HistoryEntry>, j: int, i: int) {
    0 <= j < i < |log| && log[i].op.key == log[j].op.key && !log[i].op.Write? && Recorded(h, log[i].msgId)
  }

  /** Position `j` is a compare-and-swap that finds the value it expects. */
  predicate Swaps(log: seq<Command>, j: nat)
    requires j < |log|
  {
    log[j].op.Cas? && Lookup(Replay(log[..j]), log[j].op.key) == Some(log[j].op.from)
  }

  /** Position `i` is a failed compare-and-swap for a value that nothing on record brings: it fails in every order. */
  ghost predicate Hopeless(log: seq<Command>, h: seq<HistoryEntry>, i: int) {
    && 0 <= i < |log| && log[i].op.Cas? && !Swaps(log, i)
    && forall o :: o in OpsOf(h) ==> !Brings(o, log[i].op.key, log[i].op.from)
  }

  /**
   No recorded read or compare-and-swap, but for hopeless ones, looks at a change that is not on record: each such
   change is overwritten by a recorded write first, or nothing recorded comes after it on its key.
   */
  ghost predicate GapsHarmless(log: seq<Command>, h: seq<HistoryEntry>) {
    forall j, i :: Gap(log, h, j) && LooksAt(log, h, j, i) && !Hopeless(log, h, i) ==> Overwritten(log, h, j, i)
  }

  // ---- Responses in the history ----

  lemma OneAnswer(h: seq<HistoryEntry>, k: int, k': int)
    requires UniqueCalls(h) && Answered(h, k) && Answered(h, k') && h[k].id == h[k'].id
    ensures k == k'
  {
  }

  lemma {:induction false} FirstRecord(h: seq<HistoryEntry>, id: nat, k: nat) returns (first: nat)
    requires k < |h| && h[k].Completion? && h[k].id == id
    ensures first < |h| && h[first].Completion? && h[first].id == id
    ensures forall j :: 0 <= j < first && h[j].Completion? ==> h[j].id != id
  {
    if exists j :: 0 <= j < k && h[j].Completion? && h[j].id == id {
      var j :| 0 <= j < k && h[j].Completion? && h[j].id == id;
      first := FirstRecord(h, id, j);
    } else {
      first := k;
    }
  }

  lemma InvocationOf(log: seq<Command>, h: seq<HistoryEntry>, i: int, j: int, k: int) returns (m: int)
    requires Explains(log, h, j, k) && 0 <= i <= j
    ensures 0 <= m < k && Matches(h[m], log[i]) && h[m].time <= h[k].time
  {
    assert InvokedBy(h, k, log[i], h[k].time);
    m :| 0 <= m < k && m < |h| && Matches(h[m], log[i]) && h[m].time <= h[k].time;
  }

  lemma OpenAtFirst(h: seq<HistoryEntry>, m: int, k: int)
    requires UniqueCalls(h) && 0 <= m < k < |h| && h[m].Invocation?
    requires forall j :: 0 <= j < k && h[j].Completion? ==> h[j].id != h[m].id
    ensures Open(h, k, m)
  {
  }

  /** Recording any answer to an operation means that its first one is paired with its invocation. */
  lemma RecordedIsAnswered(log: seq<Command>, h: seq<HistoryEntry>, id: nat)
    requires UniqueCalls(h) && Explained(log, h) && Recorded(h, id)
    ensures HasAnswer(h, id)
  {
    var some :| 0 <= some < |h| && h[some].Completion? && h[some].id == id;
    var k := FirstRecord(h, id, some);
    assert HasExplanation(log, h, k);
    var j :| Explains(log, h, j, k);
    var m := InvocationOf(log, h, j, j, k);
    OpenAtFirst(h, m, k);
    assert Answers(h, m, k);
  }

  lemma AnsweredIsRecorded(h: seq<HistoryEntry>, id: nat)
    requires HasAnswer(h, id)
    ensures Recorded(h, id)
  {
  }

  ghost function AnswerOf(h: seq<HistoryEntry>, id: nat): (k: int)
    requires HasAnswer(h, id)
    ensures Answered(h, k) && h[k].id == id
  {
    var k :| Answered(h, k) && h[k].id == id;
    k
  }

  /** The operation that the history shows for `id`. */
  ghost function OpFor(h: seq<HistoryEntry>, id: nat): LinearOp
    requires HasAnswer(h, id)
  {
    var k := AnswerOf(h, id);
    Pair(h[CallOf(h, k)], h[k])
  }

  // ---- One logged command and its operation ----

  /** An answer of the kind that a node gives to `op`. */
  predicate Fits(op: KVOp, body: Body) {
    match op
    case Read(_) => body.ReadOk? || body == Error(20) || body == Error(22)
    case Write(_, _) => body == WriteOk
    case Cas(_, _, _) => body == CasOk || body == Error(20) || body == Error(22)
  }

  /**
   The node's answers are the model's: whatever the store, the model accepts a recorded answer if and only if it is
   recorded like the node's own, and then it moves as the node does.
   */
  lemma AnswerMatchesModel(store: Store, x: Command, call: HistoryEntry, body: Body, now: Time)
    requires Matches(call, x) && Fits(x.op, body)
    ensures Fits(x.op, Execute(store, x.op).1)
    ensures var entry := EntryFor(x.msgId, body, now);
      && entry.Completion?
      && (Apply(store, Pair(call, entry)).1 <==> entry == EntryFor(x.msgId, Execute(store, x.op).1, now))
      && (Apply(store, Pair(call, entry)).1 ==> Apply(store, Pair(call, entry)).0 == Execute(store, x.op).0)
      && Pair(call, entry).invoke == call.time
      && Pair(call, entry).complete == now
  {
  }

  lemma ExplainedBy(log: seq<Command>, h: seq<HistoryEntry>, j: nat, k: int)
    requires DistinctIds(log) && Explained(log, h)
    requires j < |log| && 0 <= k < |h| && h[k].Completion? && h[k].id == log[j].msgId
    ensures Explains(log, h, j, k)
  {
    assert HasExplanation(log, h, k);
    var j' :| Explains(log, h, j', k);
    assert log[j'].msgId == log[j].msgId;
  }

  lemma LoggedOp(log: seq<Command>, h: seq<HistoryEntry>, j: nat)
    requires Faithful(log, h) && j < |log| && HasAnswer(h, log[j].msgId)
    ensures var o := OpFor(h, log[j].msgId);
      && o.id == log[j].msgId
      && o.key == log[j].op.key
      && o.call == CallFor(log[j].op)
      && Apply(Replay(log[..j]), o) == (Replay(log[..j + 1]), true)
      && o.complete == h[AnswerOf(h, log[j].msgId)].time
      && o.invoke == h[CallOf(h, AnswerOf(h, log[j].msgId))].time
  {
    var k := AnswerOf(h, log[j].msgId);
    ExplainedBy(log, h, j, k);
    var m := InvocationOf(log, h, j, j, k);
    assert m == CallOf(h, k);
    AnswerMatchesModel(Replay(log[..j]), log[j], h[m], ResultAt(log, j), h[k].time);
    ReplayNext(log, j);
  }

  /** Log order respects real time: whatever is logged earlier was invoked before the later one completed. */
  lemma LogOrderIsRealTime(log: seq<Command>, h: seq<HistoryEntry>, i: nat, j: nat)
    requires Faithful(log, h) && i <= j < |log|
    requires HasAnswer(h, log[i].msgId) && HasAnswer(h, log[j].msgId)
    ensures OpFor(h, log[i].msgId).invoke <= OpFor(h, log[j].msgId).complete
  {
    var k := AnswerOf(h, log[j].msgId);
    ExplainedBy(log, h, j, k);
    var m := InvocationOf(log, h, i, j, k);
    assert m == CallOf(h, AnswerOf(h, log[i].msgId));
    LoggedOp(log, h, j);
  }

  // ---- The log as a linearization ----

  /** The answered operations of the first `n` log entries, in log order. */
  ghost function LogOrder(log: seq<Command>, h: seq<HistoryEntry>, n: nat): seq<LinearOp>
    requires n <= |log|
  {
    if n == 0 then []
    else if HasAnswer(h, log[n - 1].msgId)
    then LogOrder(log, h, n - 1) + [OpFor(h, log[n - 1].msgId)]
    else LogOrder(log, h, n - 1)
  }

  lemma {:induction false} LogOrderFrom(log: seq<Command>, h: seq<HistoryEntry>, n: nat, o: LinearOp) returns (j: nat)
    requires n <= |log| && o in LogOrder(log, h, n)
    ensures j < n && HasAnswer(h, log[j].msgId) && o == OpFor(h, log[j].msgId)
  {
    if HasAnswer(h, log[n - 1].msgId) && o == OpFor(h, log[n - 1].msgId) {
      j := n - 1;
    } else {
      j := LogOrderFrom(log, h, n - 1, o);
    }
  }

  lemma {:induction false} LogOrderHas(log: seq<Command>, h: seq<HistoryEntry>, n: nat, j: nat)
    requires j < n <= |log| && HasAnswer(h, log[j].msgId)
    ensures OpFor(h, log[j].msgId) in LogOrder(log, h, n)
  {
    if j < n - 1 {
      LogOrderHas(log, h, n - 1, j);
    }
  }

  /** The value of `key` after `n` log entries still comes from a change that is not on record. */
  ghost predicate Dirty(log: seq<Command>, h: seq<HistoryEntry>, n: nat, key: string) {
    exists j :: Taints(log, h, n, key, j)
  }

  ghost predicate Taints(log: seq<Command>, h: seq<HistoryEntry>, n: nat, key: string, j: int) {
    Gap(log, h, j) && j < n <= |log| && log[j].op.key == key && !Overwritten(log, h, j, n)
  }

  lemma DirtyStays(log: seq<Command>, h: seq<HistoryEntry>, n: nat, key: string)
    requires n < |log| && Dirty(log, h, n, key)
    requires !(WritesKey(log[n], key) && Recorded(h, log[n].msgId))
    ensures Dirty(log, h, n + 1, key)
  {
    var j :| Taints(log, h, n, key, j);
    assert !Overwrites(log, h, j, n);
    assert Taints(log, h, n + 1, key, j);
  }

  lemma GapIsDirty(log: seq<Command>, h: seq<HistoryEntry>, n: nat)
    requires Gap(log, h, n)
    ensures Dirty(log, h, n + 1, log[n].op.key)
  {
    assert Taints(log, h, n + 1, log[n].op.key, n);
  }

  lemma CleanWhenRead(log: seq<Command>, h: seq<HistoryEntry>, n: nat)
    requires GapsHarmless(log, h) && n < |log| && !log[n].op.Write? && Recorded(h, log[n].msgId)
    requires !Hopeless(log, h, n)
    ensures !Dirty(log, h, n, log[n].op.key)
  {
  }

  /** On every key that is not dirty the answered operations lead to the log's own value. */
  ghost predicate Agrees(log: seq<Command>, h: seq<HistoryEntry>, n: nat, model: Store)
    requires n <= |log|
  {
    forall key :: Dirty(log, h, n, key) || Lookup(model, key) == Lookup(Replay(log[..n]), key)
  }

  /** Every value in the model was brought there by an operation on record. */
  ghost predicate Backed(h: seq<HistoryEntry>, model: Store) {
    forall key, v :: Lookup(model, key) == Some(v) ==> BroughtOnRecord(h, key, v)
  }

  ghost predicate BroughtOnRecord(h: seq<HistoryEntry>, key: string, v: Value) {
    exists o :: o in OpsOf(h) && Brings(o, key, v)
  }

  lemma ApplyIsBacked(h: seq<HistoryEntry>, model: Store, o: LinearOp)
    requires Backed(h, model) && o in OpsOf(h) && Apply(model, o).1
    ensures Backed(h, Apply(model, o).0)
  {
  }

  lemma ApplyIsLocal(model: Store, other: Store, o: LinearOp, key: string)
    ensures key != o.key ==> Lookup(Apply(model, o).0, key) == Lookup(model, key)
    ensures Lookup(model, o.key) == Lookup(other, o.key) ==>
      && Apply(model, o).1 == Apply(other, o).1
      && Lookup(Apply(model, o).0, o.key) == Lookup(Apply(other, o).0, o.key)
    ensures o.call.Write? ==> Apply(model, o).1 && Lookup(Apply(model, o).0, o.key) == Lookup(Apply(other, o).0, o.key)
  {
  }

  lemma AnsweredMatches(log: seq<Command>, h: seq<HistoryEntry>, n: nat, model: Store)
    requires Faithful(log, h) && GapsHarmless(log, h) && n < |log| && HasAnswer(h, log[n].msgId)
    requires Agrees(log, h, n, model) && Backed(h, model)
    ensures Apply(model, OpFor(h, log[n].msgId)).1
  {
    LoggedOp(log, h, n);
    if !log[n].op.Write? && !Hopeless(log, h, n) {
      AnsweredIsRecorded(h, log[n].msgId);
      CleanWhenRead(log, h, n);
    }
    ApplyIsLocal(model, Replay(log[..n]), OpFor(h, log[n].msgId), log[n].op.key);
  }

  lemma AnsweredAgrees(log: seq<Command>, h: seq<HistoryEntry>, n: nat, model: Store)
    requires Faithful(log, h) && n < |log| && HasAnswer(h, log[n].msgId)
    requires Agrees(log, h, n, model)
    ensures Agrees(log, h, n + 1, Apply(model, OpFor(h, log[n].msgId)).0)
  {
    var o := OpFor(h, log[n].msgId);
    LoggedOp(log, h, n);
    AnsweredIsRecorded(h, log[n].msgId);
    forall key
      ensures Dirty(log, h, n + 1, key) || Lookup(Apply(model, o).0, key) == Lookup(Replay(log[..n + 1]), key)
    {
      ApplyIsLocal(model, Replay(log[..n]), o, key);
      ApplyIsLocal(Replay(log[..n]), model, o, key);
      if Dirty(log, h, n, key) && !WritesKey(log[n], key) {
        DirtyStays(log, h, n, key);
      }
    }
  }

  lemma UnansweredAgrees(log: seq<Command>, h: seq<HistoryEntry>, n: nat, model: Store)
    requires Faithful(log, h) && n < |log| && !HasAnswer(h, log[n].msgId)
    requires Agrees(log, h, n, model)
    ensures Agrees(log, h, n + 1, model)
  {
    ReplayNext(log, n);
    if Recorded(h, log[n].msgId) {
      RecordedIsAnswered(log, h, log[n].msgId);
    }
    forall key ensures Dirty(log, h, n + 1, key) || Lookup(model, key) == Lookup(Replay(log[..n + 1]), key) {
      if Dirty(log, h, n, key) {
        DirtyStays(log, h, n, key);
      } else if ChangesStore(log, n) && key == log[n].op.key {
        GapIsDirty(log, h, n);
      }
    }
  }

  /** `p` satisfies the model and leads to the log's own values at position `n`. */
  ghost predicate Tracks(log: seq<Command>, h: seq<HistoryEntry>, n: nat, p: seq<LinearOp>)
    requires n <= |log|
  {
    Legal(p, map[]) && Agrees(log, h, n, After(p, map[])) && Backed(h, After(p, map[]))
  }

  lemma NothingTracks(log: seq<Command>, h: seq<HistoryEntry>)
    ensures Tracks(log, h, 0, [])
  {
  }

  lemma AnsweredExtends(log: seq<Command>, h: seq<HistoryEntry>, n: nat, p: seq<LinearOp>)
    requires Faithful(log, h) && GapsHarmless(log, h) && n < |log| && HasAnswer(h, log[n].msgId)
    requires Tracks(log, h, n, p)
    ensures Tracks(log, h, n + 1, p + [OpFor(h, log[n].msgId)])
  {
    AnsweredMatches(log, h, n, After(p, map[]));
    AnsweredAgrees(log, h, n, After(p, map[]));
    AnsweredInHistory(h, log[n].msgId);
    ApplyIsBacked(h, After(p, map[]), OpFor(h, log[n].msgId));
    LegalSnoc(p, OpFor(h, log[n].msgId), map[]);
  }

  /** The answered operations keep tracking the log at its next entry. */
  ghost predicate Continues(log: seq<Command>, h: seq<HistoryEntry>, n: nat)
    requires n < |log|
  {
    Tracks(log, h, n, LogOrder(log, h, n)) ==> Tracks(log, h, n + 1, LogOrder(log, h, n + 1))
  }

  lemma LogOrderContinues(log: seq<Command>, h: seq<HistoryEntry>, n: nat)
    requires Faithful(log, h) && GapsHarmless(log, h) && n < |log|
    ensures Continues(log, h, n)
  {
    if Tracks(log, h, n, LogOrder(log, h, n)) {
      if HasAnswer(h, log[n].msgId) {
        AnsweredExtends(log, h, n, LogOrder(log, h, n));
      } else {
        UnansweredAgrees(log, h, n, After(LogOrder(log, h, n), map[]));
      }
    }
  }

  lemma {:induction false} LogOrderTracks(log: seq<Command>, h: seq<HistoryEntry>, n: nat)
    requires n <= |log| && forall m :: 0 <= m < |log| ==> Continues(log, h, m)
    ensures Tracks(log, h, n, LogOrder(log, h, n))
  {
    if n == 0 {
      NothingTracks(log, h);
    } else {
      LogOrderTracks(log, h, n - 1);
      assert Continues(log, h, n - 1);
    }
  }

  /** Log order satisfies the model from the empty store on. */
  lemma LogOrderLegal(log: seq<Command>, h: seq<HistoryEntry>)
    requires Faithful(log, h) && GapsHarmless(log, h)
    ensures Legal(LogOrder(log, h, |log|), map[])
  {
    forall m | 0 <= m < |log| ensures Continues(log, h, m) {
      LogOrderContinues(log, h, m);
    }
    LogOrderTracks(log, h, |log|);
  }

  lemma InvokedBeforeLater(log: seq<Command>, h: seq<HistoryEntry>, n: nat, x: LinearOp)
    requires Faithful(log, h) && n < |log| && HasAnswer(h, log[n].msgId) && x in LogOrder(log, h, n)
    ensures x.invoke <= OpFor(h, log[n].msgId).complete
    ensures x.id != log[n].msgId
  {
    var j := LogOrderFrom(log, h, n, x);
    LogOrderIsRealTime(log, h, j, n);
    LoggedOp(log, h, j);
  }

  lemma {:induction false} LogOrderRealTime(log: seq<Command>, h: seq<HistoryEntry>, n: nat)
    requires Faithful(log, h) && n <= |log|
    ensures RealTime(LogOrder(log, h, n))
  {
    if n > 0 {
      LogOrderRealTime(log, h, n - 1);
      if HasAnswer(h, log[n - 1].msgId) {
        var o := OpFor(h, log[n - 1].msgId);
        LogOrderIsRealTime(log, h, n - 1, n - 1);
        forall x | x in LogOrder(log, h, n - 1) ensures x.invoke <= o.complete {
          InvokedBeforeLater(log, h, n - 1, x);
        }
        SnocRealTime(LogOrder(log, h, n - 1), o);
      }
    }
  }

  // ---- The log holds exactly the history's operations ----

  lemma {:induction false} LogOrderDistinct(log: seq<Command>, h: seq<HistoryEntry>, n: nat)
    requires Faithful(log, h) && n <= |log|
    ensures Distinct(LogOrder(log, h, n))
  {
    if n > 0 {
      LogOrderDistinct(log, h, n - 1);
      if HasAnswer(h, log[n - 1].msgId) {
        LoggedOp(log, h, n - 1);
        forall x | x in LogOrder(log, h, n - 1) ensures x.id != log[n - 1].msgId {
          InvokedBeforeLater(log, h, n - 1, x);
        }
      }
    }
  }

  lemma PairedEarlier(h: seq<HistoryEntry>, n: nat, x: LinearOp)
    requires UniqueCalls(h) && n < |h| && Answered(h, n) && x in Paired(h, n)
    ensures x.id != h[n].id
  {
    var k := PairedFrom(h, n, x);
    if h[k].id == h[n].id {
      OneAnswer(h, k, n);
    }
  }

  lemma {:induction false} PairedDistinct(h: seq<HistoryEntry>, n: nat)
    requires UniqueCalls(h) && n <= |h|
    ensures Distinct(Paired(h, n))
  {
    if n > 0 {
      PairedDistinct(h, n - 1);
      if Answered(h, n - 1) {
        forall x | x in Paired(h, n - 1) ensures x.id != h[n - 1].id {
          PairedEarlier(h, n - 1, x);
        }
      }
    }
  }

  lemma SameOperation(h: seq<HistoryEntry>, k: int)
    requires UniqueCalls(h) && Answered(h, k)
    ensures HasAnswer(h, h[k].id) && Shows(h, k, OpFor(h, h[k].id))
  {
  }

  lemma HistoryInLog(log: seq<Command>, h: seq<HistoryEntry>, o: LinearOp)
    requires Faithful(log, h) && o in Paired(h, |h|)
    ensures o in LogOrder(log, h, |log|)
  {
    var k := PairedFrom(h, |h|, o);
    SameOperation(h, k);
    assert HasExplanation(log, h, k);
    var j :| Explains(log, h, j, k);
    assert log[j].msgId == h[k].id;
    LogOrderHas(log, h, |log|, j);
  }

  lemma AnsweredInHistory(h: seq<HistoryEntry>, id: nat)
    requires HasAnswer(h, id)
    ensures OpFor(h, id) in OpsOf(h)
  {
    PairedHas(h, |h|, AnswerOf(h, id), OpFor(h, id));
  }

  lemma LogInHistory(log: seq<Command>, h: seq<HistoryEntry>, o: LinearOp)
    requires o in LogOrder(log, h, |log|)
    ensures o in Paired(h, |h|)
  {
    var j := LogOrderFrom(log, h, |log|, o);
    PairedHas(h, |h|, AnswerOf(h, log[j].msgId), o);
  }

  lemma LogIsHistory(log: seq<Command>, h: seq<HistoryEntry>)
    requires Faithful(log, h)
    ensures multiset(LogOrder(log, h, |log|)) == OpsOf(h)
  {
    LogOrderDistinct(log, h, |log|);
    PairedDistinct(h, |h|);
    forall o | o in LogOrder(log, h, |log|) ensures o in Paired(h, |h|) {
      LogInHistory(log, h, o);
    }
    forall o | o in Paired(h, |h|) ensures o in LogOrder(log, h, |log|) {
      HistoryInLog(log, h, o);
    }
    SameElements(LogOrder(log, h, |log|), Paired(h, |h|));
  }

  // ---- The theorem ----

  /** A log that explains a history and whose gaps nobody on record has seen is a linearization of it. */
  lemma FaithfulPasses(log: seq<Command>, h: seq<HistoryEntry>)
    requires Faithful(log, h) && GapsHarmless(log, h)
    ensures Linearizable(OpsOf(h), map[]) && Accepted(h)
  {
    LogOrderLegal(log, h);
    LogOrderRealTime(log, h, |log|);
    LogIsHistory(log, h);
    assert IsLinearization(LogOrder(log, h, |log|), OpsOf(h), map[]);
    LinearizableIsAccepted(OpsOf(h));
  }

  /**
   End to end: whatever the interleaving, the losses, the batching and the restarts, a run whose unrecorded
   changes stay unseen on record has a linearizable history, and the checker passes it.
   */
  lemma EveryRunPasses(run: seq<Cluster>, actions: seq<Action>)
    requires IsRun(run, actions)
    requires var c := run[|run| - 1]; GapsHarmless(c.log, c.history)
    ensures var h := run[|run| - 1].history; Linearizable(OpsOf(h), map[]) && Accepted(h)
  {
    RunIsFaithful(run, actions, |run| - 1);
    FaithfulPasses(run[|run| - 1].log, run[|run| - 1].history);
  }

  /** In particular: when every command that changed the store has an answer on record, the checker passes the run. */
  lemma FullyRecordedRunPasses(run: seq<Cluster>, actions: seq<Action>)
    requires IsRun(run, actions)
    requires var c := run[|run| - 1]; forall j :: !Gap(c.log, c.history, j)
    ensures Accepted(run[|run| - 1].history)
  {
    EveryRunPasses(run, actions);
  }
}
