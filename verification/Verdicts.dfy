/**
 What the verdict does not depend on, and when forcing indeterminate operations
 to take effect is harmless.
 */
module Verdicts {
  import opened Values
  import opened Checker
  import opened Locality
  import opened History

  // ---- Entries that cannot matter ----

  ghost function Inserted(h: seq<HistoryEntry>, at: nat, e: HistoryEntry): (r: seq<HistoryEntry>)
    requires at <= |h|
    ensures |r| == |h| + 1
    ensures forall k :: 0 <= k < |h| ==> r[Shifted(at, k)] == h[k]
  {
    h[..at] + [e] + h[at..]
  }

  function Shifted(at: nat, k: int): int {
    if k < at then k else k + 1
  }

  /**
   A response to nothing that is open where it stands (a later duplicate, an unknown id), an event of
   another type, or an invocation whose id occurs nowhere else and so stays unanswered.
   */
  ghost predicate Inert(h: seq<HistoryEntry>, at: nat, e: HistoryEntry) {
    match e
    case Completion(id, _, _, _) => forall i :: Open(h, at, i) ==> h[i].id != id
    case OtherEvent(_, _, _) => true
    case Invocation(id, _, _, _) => forall k :: 0 <= k < |h| ==> !Touches(h[k], id)
  }

  lemma OpenAfter(h: seq<HistoryEntry>, at: nat, e: HistoryEntry, i: int, k: int)
    requires at <= |h| && Inert(h, at, e) && 0 <= i <= k < |h| && Open(h, k, i)
    ensures Open(Inserted(h, at, e), Shifted(at, k), Shifted(at, i))
  {
  }

  lemma InsertedAnswers(h: seq<HistoryEntry>, at: nat, e: HistoryEntry, i': int, k: int)
    requires at <= |h| && Inert(h, at, e) && 0 <= k < |h|
    requires Answers(Inserted(h, at, e), i', Shifted(at, k))
    ensures i' != at && Answers(h, if i' < at then i' else i' - 1, k)
  {
  }

  lemma InsertedAnswered(h: seq<HistoryEntry>, at: nat, e: HistoryEntry, k: int)
    requires at <= |h| && Inert(h, at, e) && 0 <= k < |h|
    ensures Answered(Inserted(h, at, e), Shifted(at, k)) <==> Answered(h, k)
    ensures Answered(h, k) ==> CallOf(Inserted(h, at, e), Shifted(at, k)) == Shifted(at, CallOf(h, k))
  {
    var h' := Inserted(h, at, e);
    if Answered(h', Shifted(at, k)) {
      InsertedAnswers(h, at, e, CallOf(h', Shifted(at, k)), k);
    }
    if Answered(h, k) {
      var i := CallOf(h, k);
      OpenAfter(h, at, e, i, k);
      assert Answers(h', Shifted(at, i), Shifted(at, k));
      AnswersUnique(h', Shifted(at, i), CallOf(h', Shifted(at, k)), Shifted(at, k));
    }
  }

  lemma InsertedItself(h: seq<HistoryEntry>, at: nat, e: HistoryEntry)
    requires at <= |h| && Inert(h, at, e)
    ensures !Answered(Inserted(h, at, e), at)
  {
  }

  lemma {:induction false} InsertedPaired(h: seq<HistoryEntry>, at: nat, e: HistoryEntry, n: nat)
    requires at <= |h| && n <= |h| && Inert(h, at, e)
    ensures Paired(Inserted(h, at, e), if n < at then n else n + 1) == Paired(h, n)
  {
    var h' := Inserted(h, at, e);
    if n == at {
      InsertedItself(h, at, e);
      if n > 0 {
        InsertedPaired(h, at, e, n - 1);
        InsertedAnswered(h, at, e, n - 1);
      }
    } else if n > 0 {
      InsertedPaired(h, at, e, n - 1);
      InsertedAnswered(h, at, e, n - 1);
    }
  }

  /** Inert entries never change the verdict, wherever they are recorded. */
  lemma InertEntriesIgnored(h: seq<HistoryEntry>, at: nat, e: HistoryEntry)
    requires at <= |h| && Inert(h, at, e)
    ensures OpsOf(Inserted(h, at, e)) == OpsOf(h)
    ensures Accepted(Inserted(h, at, e)) <==> Accepted(h)
  {
    InsertedPaired(h, at, e, |h|);
  }

  // ---- Indeterminate writes ----

  /** A write that never completed. */
  predicate PendingWrite(w: LinearOp) {
    w.call.Write? && w.complete == MAX_TIME
  }

  lemma MaxIsLast(t: Time)
    ensures t <= MAX_TIME
  {
  }

  /** Everything is placed: the pending write goes last. */
  lemma PlaceWriteLast(ops: Ops, w: LinearOp, model: Store)
    requires PendingWrite(w) && Linearizable(ops, model)
    ensures Linearizable(ops + multiset{w}, model)
  {
    var p: seq<LinearOp> :| IsLinearization(p, ops, model);
    LegalSnoc(p, w, model);
    MaxIsLast(w.invoke);
    forall x | x in p ensures x.invoke <= w.complete {
      MaxIsLast(x.invoke);
    }
    SnocRealTime(p, w);
    assert IsLinearization(p + [w], ops + multiset{w}, model);
  }

  /** The search stops early: the pending write is one more operation it never looks at. */
  lemma LeaveWriteOut(ops: Ops, w: LinearOp, model: Store, n: nat)
    requires PendingWrite(w) && LinearizableTo(ops, model, n)
    ensures LinearizableTo(ops + multiset{w}, model, n)
  {
  }

  /** The search, entered at depth 0, accepts. */
  ghost predicate Searched(ops: Ops, model: Store) {
    LinearizableTo(ops, model, Horizon(|ops|, 0))
  }

  lemma AddPendingWrite(ops: Ops, w: LinearOp, model: Store)
    requires PendingWrite(w) && Searched(ops, model)
    ensures Searched(ops + multiset{w}, model)
  {
    assert |ops + multiset{w}| == |ops| + 1;
    if |ops| < 101 {
      PlacingAll(ops, model);
      PlaceWriteLast(ops, w, model);
      PlacingAll(ops + multiset{w}, model);
    } else {
      LeaveWriteOut(ops, w, model, 101);
    }
  }

  lemma {:induction false} AddPendingWrites(ops: Ops, extra: Ops, model: Store)
    requires forall w :: w in extra ==> PendingWrite(w)
    requires Searched(ops, model)
    ensures Searched(ops + extra, model)
    decreases |extra|
  {
    if extra == multiset{} {
      assert ops + extra == ops;
    } else {
      var w :| w in extra;
      var fewer := extra - multiset{w};
      AddPendingWrites(ops, fewer, model);
      AddPendingWrite(ops + fewer, w, model);
      assert ops + fewer + multiset{w} == ops + extra;
    }
  }

  lemma KeyOpsSum(a: Ops, b: Ops, key: string)
    ensures KeyOps(a + b, key) == KeyOps(a, key) + KeyOps(b, key)
  {
  }

  lemma AcceptedWithMore(ops: Ops, extra: Ops)
    requires AcceptedOps(ops) && forall w :: w in extra ==> PendingWrite(w)
    ensures AcceptedOps(ops + extra)
  {
    forall key ensures KeyAccepted(ops + extra, key) {
      assert KeyAccepted(ops, key);
      KeyOpsSum(ops, extra, key);
      assert forall w :: w in KeyOps(extra, key) ==> w in extra;
      AddPendingWrites(KeyOps(ops, key), KeyOps(extra, key), map[]);
    }
  }

  /** Response `k` leaves a write indeterminate. */
  ghost predicate MaybeWrite(h: seq<HistoryEntry>, k: int) {
    Answered(h, k) && h[k].outcome.Info? && h[CallOf(h, k)].call.Write?
  }

  /** The indeterminate writes of a history (`maybe`), or all its other operations. */
  ghost function PairedIf(h: seq<HistoryEntry>, n: nat, maybe: bool): Ops
    requires n <= |h|
  {
    if n == 0 then multiset{}
    else if Answered(h, n - 1) && MaybeWrite(h, n - 1) == maybe
    then PairedIf(h, n - 1, maybe) + multiset{Pair(h[CallOf(h, n - 1)], h[n - 1])}
    else PairedIf(h, n - 1, maybe)
  }

  lemma {:induction false} PairedSplits(h: seq<HistoryEntry>, n: nat)
    requires n <= |h|
    ensures multiset(Paired(h, n)) == PairedIf(h, n, false) + PairedIf(h, n, true)
  {
    if n > 0 {
      PairedSplits(h, n - 1);
    }
  }

  lemma {:induction false} MaybeWritesArePending(h: seq<HistoryEntry>, n: nat)
    requires n <= |h|
    ensures forall w :: w in PairedIf(h, n, true) ==> PendingWrite(w)
  {
    if n > 0 {
      MaybeWritesArePending(h, n - 1);
    }
  }

  /**
   Forcing all indeterminate writes in accepts exactly the histories in which some of them took effect
   and the others did not, whatever else is indeterminate.
   */
  lemma IndeterminateWrites(h: seq<HistoryEntry>)
    ensures Accepted(h) <==>
            exists kept :: kept <= PairedIf(h, |h|, true) && AcceptedOps(PairedIf(h, |h|, false) + kept)
  {
    var others, maybe := PairedIf(h, |h|, false), PairedIf(h, |h|, true);
    PairedSplits(h, |h|);
    MaybeWritesArePending(h, |h|);
    if kept :| kept <= maybe && AcceptedOps(others + kept) {
      AcceptedWithMore(others + kept, maybe - kept);
      assert others + kept + (maybe - kept) == others + maybe;
    }
  }

  lemma FewerWithinHorizon(ops: Ops, extra: Ops)
    requires WithinHorizon(ops + extra)
    ensures WithinHorizon(ops)
  {
    forall key ensures |KeyOps(ops, key)| <= 101 {
      KeyOpsSum(ops, extra, key);
      assert |KeyOps(ops + extra, key)| <= 101;
    }
  }

  /**
   Within the depth bound this is linearizability proper: a history passes exactly when its other
   operations together with some of the indeterminate writes have a linearization.
   */
  lemma IndeterminateWritesLinearize(h: seq<HistoryEntry>)
    requires WithinHorizon(OpsOf(h))
    ensures Accepted(h) <==>
            exists kept :: kept <= PairedIf(h, |h|, true) && Linearizable(PairedIf(h, |h|, false) + kept, map[])
  {
    var others, maybe := PairedIf(h, |h|, false), PairedIf(h, |h|, true);
    IndeterminateWrites(h);
    PairedSplits(h, |h|);
    forall kept | kept <= maybe ensures AcceptedOps(others + kept) <==> Linearizable(others + kept, map[]) {
      assert OpsOf(h) == (others + kept) + (maybe - kept);
      FewerWithinHorizon(others + kept, maybe - kept);
      AcceptedIsExact(others + kept);
    }
  }

  // ---- When forcing an indeterminate operation in is harmless ----

  /** An operation as an indeterminate response makes it. */
  predicate Forced(x: LinearOp) {
    x.result == None && x.casOk && x.complete == MAX_TIME
  }

  /** A write, or a read invoked before any time has passed. */
  predicate Optional(x: LinearOp) {
    x.call.Write? || (x.call.Read? && x.invoke == 0)
  }

  /** A read invoked at time 0 may always come first, and finds nothing there. */
  lemma PlaceReadFirst(ops: Ops, x: LinearOp)
    requires Forced(x) && x.call.Read? && x.invoke == 0 && Searched(ops, map[])
    ensures Searched(ops + multiset{x}, map[])
  {
    var n := Horizon(|ops| + 1, 0);
    HorizonMonotone(ops, map[], Horizon(|ops|, 0), n - 1);
    assert ops + multiset{x} - multiset{x} == ops;
    assert FirstStep(ops + multiset{x}, map[], n, x);
    FirstStepSound(ops + multiset{x}, map[], n, x);
    assert |ops + multiset{x}| == |ops| + 1;
  }

  lemma AddOptional(ops: Ops, x: LinearOp)
    requires Forced(x) && Optional(x) && Searched(ops, map[])
    ensures Searched(ops + multiset{x}, map[])
  {
    if x.call.Write? {
      AddPendingWrite(ops, x, map[]);
    } else {
      PlaceReadFirst(ops, x);
    }
  }

  lemma AcceptedWithOptional(ops: Ops, x: LinearOp)
    requires Forced(x) && Optional(x) && AcceptedOps(ops)
    ensures AcceptedOps(ops + multiset{x})
  {
    forall key ensures KeyAccepted(ops + multiset{x}, key) {
      assert KeyAccepted(ops, key);
      KeyOpsSum(ops, multiset{x}, key);
      SingleKey(x, key);
      if x.key == key {
        AddOptional(KeyOps(ops, key), x);
      } else {
        assert KeyOps(ops, key) + multiset{} == KeyOps(ops, key);
      }
    }
  }

  lemma SingleKey(op: LinearOp, key: string)
    ensures KeyOps(multiset{op}, key) == if op.key == key then multiset{op} else multiset{}
  {
  }

  lemma EmptyAccepted()
    ensures Accepted([])
  {
  }

  /** On an empty store nothing but a write or a read can take effect. */
  lemma AloneRejected(x: LinearOp)
    requires Forced(x) && !x.call.Write? && !x.call.Read?
    ensures !AcceptedOps(multiset{x})
  {
    SingleKey(x, x.key);
    NoFirstStep([x], map[], 1);
    assert !KeyAccepted(multiset{x}, x.key);
  }

  lemma StaleRead(w: LinearOp, r: LinearOp)
    requires w.key == r.key && w.call.Write? && r.call.Read? && r.result == None
    requires w.complete < r.invoke
    ensures !LinearizableTo(multiset{w, r}, map[], 2)
  {
    NoFirstStep([r], Apply(map[], w).0, 1);
    assert multiset([w, r]) - multiset{w} == multiset([r]);
    assert !Candidate(multiset([w, r]), r);
    NoFirstStep([w, r], map[], 2);
  }

  /** A read that finds nothing is rejected once a write to its key is known to have completed. */
  lemma StaleReadRejected(w: LinearOp, r: LinearOp)
    requires w.key == r.key && w.call.Write? && r.call.Read? && r.result == None
    requires w.complete < r.invoke
    ensures !AcceptedOps(multiset{w} + multiset{r})
  {
    assert multiset{w} + multiset{r} == multiset{w, r};
    KeyPartUnique(multiset{w, r}, multiset{w, r}, r.key);
    StaleRead(w, r);
    assert !KeyAccepted(multiset{w, r}, r.key);
  }

  /** A completed write alone passes. */
  lemma WriteAccepted(w: LinearOp)
    requires w.call.Write? && w.invoke <= w.complete
    ensures AcceptedOps(multiset{w})
  {
    assert IsLinearization([w], multiset{w}, map[]);
    LinearizableIsAccepted(multiset{w});
  }

  ghost predicate Indeterminate(call: HistoryEntry, response: HistoryEntry) {
    call.Invocation? && response.Completion? && response.outcome.Info? && call.id == response.id
  }

  /** An indeterminate compare-and-swap, or operation of another type, is rejected on its own. */
  lemma IndeterminateCasRejected(call: HistoryEntry, response: HistoryEntry)
    requires Indeterminate(call, response) && !call.call.Write? && !call.call.Read?
    ensures Accepted([]) && !Accepted([] + [call, response])
  {
    EmptyAccepted();
    OneMoreOperation([], call, response);
    assert OpsOf([]) + multiset{Pair(call, response)} == multiset{Pair(call, response)};
    AloneRejected(Pair(call, response));
  }

  /** An indeterminate read is rejected after any completed write to its key. */
  lemma IndeterminateReadRejected(write: HistoryEntry, done: HistoryEntry, call: HistoryEntry, response: HistoryEntry)
    requires write.Invocation? && write.call.Write? && done.Completion? && done.outcome.Ok? && write.id == done.id
    requires Indeterminate(call, response) && call.call.Read? && call.key == write.key
    requires write.time <= done.time < call.time
    ensures Accepted([write, done]) && !Accepted([write, done] + [call, response])
  {
    var w := Pair(write, done);
    OneMoreOperation([], write, done);
    assert [] + [write, done] == [write, done] && OpsOf([]) + multiset{w} == multiset{w};
    WriteAccepted(w);
    OneMoreOperation([write, done], call, response);
    StaleReadRejected(w, Pair(call, response));
  }

  /** Recording the indeterminate operation, under an id of its own, never makes a passing history fail. */
  ghost predicate Harmless(call: HistoryEntry, response: HistoryEntry) {
    forall h :: UniqueCalls(h + [call, response]) && Accepted(h) ==> Accepted(h + [call, response])
  }

  /** Forcing an indeterminate operation in is harmless exactly for writes and for reads invoked at time 0. */
  lemma HarmlessIff(call: HistoryEntry, response: HistoryEntry)
    requires Indeterminate(call, response)
    ensures Harmless(call, response) <==> call.call.Write? || (call.call.Read? && call.time == 0)
  {
    if Optional(Pair(call, response)) {
      forall h | UniqueCalls(h + [call, response]) && Accepted(h) ensures Accepted(h + [call, response]) {
        OneMoreOperation(h, call, response);
        AcceptedWithOptional(OpsOf(h), Pair(call, response));
      }
    } else if call.call.Read? {
      var other := call.id + 1;
      var write, done := Invocation(other, call.key, Write(Null), 0), Completion(other, Ok, None, 0);
      IndeterminateReadRejected(write, done, call, response);
      assert UniqueCalls([write, done] + [call, response]);
    } else {
      IndeterminateCasRejected(call, response);
      assert UniqueCalls([] + [call, response]);
    }
  }

  /** The same for the search itself: these and no other forced operations keep every accepted collection accepted. */
  lemma ForcingIff(x: LinearOp)
    requires Forced(x)
    ensures (forall ops :: Searched(ops, map[]) ==> Searched(ops + multiset{x}, map[])) <==> Optional(x)
  {
    if Optional(x) {
      forall ops | Searched(ops, map[]) ensures Searched(ops + multiset{x}, map[]) {
        AddOptional(ops, x);
      }
    } else if x.call.Read? {
      var w := LinearOp(x.id + 1, Write(Null), x.key, None, true, 0, 0);
      assert Places([w], multiset{w}, map[]);
      StaleRead(w, x);
      assert multiset{w} + multiset{x} == multiset{w, x};
    } else {
      NothingToPlace(multiset{}, map[]);
      NoFirstStep([x], map[], 1);
      assert multiset{} + multiset{x} == multiset([x]);
    }
  }
}
