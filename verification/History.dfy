/**
 The recorded history and the verdict on it (`check_linearizability` of the harness):
 invocations are paired with responses, grouped by key and searched key by key.
 */
module History {
  import opened Values
  import opened Sequences
  import opened Checker
  import opened Locality

  datatype Outcome = Ok | Fail | Info

  datatype HistoryEntry =
    | Invocation(id: nat, key: string, call: Call, time: Time)
    | Completion(id: nat, outcome: Outcome, value: Option<Value>, time: Time)
    | OtherEvent(id: nat, name: string, time: Time)

  datatype Verdict = Pass | Violation(key: string, count: nat)

  /** The operation that a response makes of its invocation; an indeterminate one never completes. */
  function Pair(call: HistoryEntry, response: HistoryEntry): LinearOp
    requires call.Invocation? && response.Completion?
  {
    match response.outcome
    case Ok => LinearOp(response.id, call.call, call.key, response.value, true, call.time, response.time)
    case Fail => LinearOp(response.id, call.call, call.key, response.value, false, call.time, response.time)
    case Info => LinearOp(response.id, call.call, call.key, None, true, call.time, MAX_TIME)
  }

  // ---- Which response belongs to which invocation ----

  /** No id is invoked twice. */
  ghost predicate UniqueCalls(h: seq<HistoryEntry>) {
    forall m, m' :: 0 <= m < m' < |h| && h[m].Invocation? && h[m'].Invocation? ==> h[m].id != h[m'].id
  }

  predicate Touches(e: HistoryEntry, id: nat) {
    !e.OtherEvent? && e.id == id
  }

  /** Entry `i` is an invocation that no entry before `n` has answered or replaced. */
  ghost predicate Open(h: seq<HistoryEntry>, n: int, i: int) {
    && 0 <= i < n <= |h|
    && h[i].Invocation?
    && forall j :: i < j < n ==> !Touches(h[j], h[i].id)
  }

  /** Entry `j` is the first response to the invocation at entry `i`. */
  ghost predicate Answers(h: seq<HistoryEntry>, i: int, j: int) {
    0 <= j < |h| && h[j].Completion? && Open(h, j, i) && h[i].id == h[j].id
  }

  ghost predicate Answered(h: seq<HistoryEntry>, j: int) {
    exists i :: Answers(h, i, j)
  }

  lemma AnswersUnique(h: seq<HistoryEntry>, i: int, i': int, j: int)
    requires Answers(h, i, j) && Answers(h, i', j)
    ensures i == i'
  {
  }

  ghost function CallOf(h: seq<HistoryEntry>, j: int): (i: int)
    requires Answered(h, j)
    ensures Answers(h, i, j)
  {
    var i :| Answers(h, i, j);
    i
  }

  /** The operations completed by the first `n` entries, in the order of their responses. */
  ghost function Paired(h: seq<HistoryEntry>, n: nat): seq<LinearOp>
    requires n <= |h|
  {
    if n == 0 then []
    else if Answered(h, n - 1) then Paired(h, n - 1) + [Pair(h[CallOf(h, n - 1)], h[n - 1])]
    else Paired(h, n - 1)
  }

  ghost function OpsOf(h: seq<HistoryEntry>): Ops {
    multiset(Paired(h, |h|))
  }

  /** Later entries do not change what earlier responses answer. */
  lemma AnsweredPrefix(h: seq<HistoryEntry>, more: seq<HistoryEntry>, k: int)
    requires 0 <= k < |h|
    ensures Answered(h + more, k) <==> Answered(h, k)
    ensures Answered(h, k) ==> CallOf(h + more, k) == CallOf(h, k)
  {
    var all := h + more;
    forall i ensures Answers(all, i, k) <==> Answers(h, i, k) {
      assert forall j :: 0 <= j <= k ==> all[j] == h[j];
    }
    if Answered(h, k) {
      AnswersUnique(h, CallOf(all, k), CallOf(h, k), k);
    }
  }

  lemma {:induction false} PairedPrefix(h: seq<HistoryEntry>, more: seq<HistoryEntry>, n: nat)
    requires n <= |h|
    ensures Paired(h + more, n) == Paired(h, n)
  {
    if n > 0 {
      PairedPrefix(h, more, n - 1);
      AnsweredPrefix(h, more, n - 1);
    }
  }

  /** Recording one more response adds the operation it completes. */
  lemma OneMore(h: seq<HistoryEntry>, e: HistoryEntry, i: int)
    requires Answers(h + [e], i, |h|)
    ensures OpsOf(h + [e]) == OpsOf(h) + multiset{Pair(h[i], e)}
  {
    PairedPrefix(h, [e], |h|);
    AnswersUnique(h + [e], i, CallOf(h + [e], |h|), |h|);
  }

  lemma NoneMore(h: seq<HistoryEntry>, e: HistoryEntry)
    requires !e.Completion?
    ensures OpsOf(h + [e]) == OpsOf(h)
  {
    PairedPrefix(h, [e], |h|);
  }

  /** Recording a call and then its response adds exactly their operation. */
  lemma OneMoreOperation(h: seq<HistoryEntry>, call: HistoryEntry, response: HistoryEntry)
    requires call.Invocation? && response.Completion? && call.id == response.id
    ensures OpsOf(h + [call, response]) == OpsOf(h) + multiset{Pair(call, response)}
  {
    NoneMore(h, call);
    var h' := h + [call];
    assert h + [call, response] == h' + [response];
    assert Answers(h' + [response], |h|, |h'|);
    OneMore(h', response, |h|);
  }

  /** Entry `k` completes the operation `o`. */
  ghost predicate Shows(h: seq<HistoryEntry>, k: int, o: LinearOp) {
    Answered(h, k) && o == Pair(h[CallOf(h, k)], h[k])
  }

  lemma {:induction false} PairedFrom(h: seq<HistoryEntry>, n: nat, o: LinearOp) returns (k: nat)
    requires n <= |h| && o in Paired(h, n)
    ensures k < n && Shows(h, k, o)
  {
    if Shows(h, n - 1, o) {
      k := n - 1;
    } else {
      k := PairedFrom(h, n - 1, o);
    }
  }

  lemma {:induction false} PairedHas(h: seq<HistoryEntry>, n: nat, k: nat, o: LinearOp)
    requires k < n <= |h| && Shows(h, k, o)
    ensures o in Paired(h, n)
  {
    if k < n - 1 {
      PairedHas(h, n - 1, k, o);
    }
  }

  // ---- What the verdict means ----

  ghost predicate KeyAccepted(ops: Ops, key: string) {
    LinearizableTo(KeyOps(ops, key), map[], Horizon(|KeyOps(ops, key)|, 0))
  }

  ghost predicate AcceptedOps(ops: Ops) {
    forall key :: KeyAccepted(ops, key)
  }

  ghost predicate Accepted(h: seq<HistoryEntry>) {
    AcceptedOps(OpsOf(h))
  }

  // ---- Pairing ----

  /** `calls` holds exactly the open invocations, by id. */
  ghost predicate HoldsOpen(calls: map<nat, HistoryEntry>, h: seq<HistoryEntry>, n: nat) {
    && (forall i :: Open(h, n, i) ==> h[i].id in calls && calls[h[i].id] == h[i])
    && (forall id :: id in calls ==> exists i :: Open(h, n, i) && h[i].id == id)
  }

  lemma OpenNext(h: seq<HistoryEntry>, n: nat, i: int)
    requires n < |h|
    ensures Open(h, n + 1, i) <==>
            (Open(h, n, i) && !Touches(h[n], h[i].id)) || (i == n && h[n].Invocation?)
  {
  }

  lemma CallsNext(calls: map<nat, HistoryEntry>, next: map<nat, HistoryEntry>, h: seq<HistoryEntry>, n: nat)
    requires n < |h| && HoldsOpen(calls, h, n)
    requires next == match h[n] {
      case Invocation(id, _, _, _) => calls[id := h[n]]
      case Completion(id, _, _, _) => calls - {id}
      case OtherEvent(_, _, _) => calls
    }
    ensures HoldsOpen(next, h, n + 1)
  {
    forall i | Open(h, n + 1, i) ensures h[i].id in next && next[h[i].id] == h[i] {
      OpenNext(h, n, i);
    }
    forall id | id in next ensures exists i :: Open(h, n + 1, i) && h[i].id == id {
      if h[n].Invocation? && h[n].id == id {
        OpenNext(h, n, n);
        assert Open(h, n + 1, n);
      } else {
        assert id in calls;
        var i :| Open(h, n, i) && h[i].id == id;
        OpenNext(h, n, i);
      }
    }
  }

  lemma CallFound(calls: map<nat, HistoryEntry>, h: seq<HistoryEntry>, j: nat)
    requires j < |h| && HoldsOpen(calls, h, j) && h[j].Completion?
    ensures h[j].id in calls <==> Answered(h, j)
    ensures Answered(h, j) ==> h[j].id in calls && calls[h[j].id] == h[CallOf(h, j)]
  {
    if h[j].id in calls {
      var i :| Open(h, j, i) && h[i].id == h[j].id;
      assert Answers(h, i, j);
    }
  }

  /** The pairing loop over the history. */
  method PairUp(history: seq<HistoryEntry>) returns (ops: seq<LinearOp>)
    ensures ops == Paired(history, |history|)
  {
    ops := [];
    var calls: map<nat, HistoryEntry> := map[];
    for n := 0 to |history|
      invariant ops == Paired(history, n)
      invariant HoldsOpen(calls, history, n)
      invariant forall id :: id in calls ==> calls[id].Invocation?
    {
      var entry := history[n];
      ghost var before := calls;
      match entry {
        case Invocation(id, _, _, _) =>
          calls := calls[id := entry];
        case Completion(id, _, _, _) =>
          CallFound(calls, history, n);
          if id in calls {
            ops := ops + [Pair(calls[id], entry)];
            calls := calls - {id};
          } else {
            assert calls - {id} == calls;
          }
        case OtherEvent(_, _, _) =>
      }
      CallsNext(before, calls, history, n);
    }
  }

  // ---- Sorting and grouping ----

  ghost predicate SortedByInvoke(s: seq<LinearOp>) {
    forall i, j :: 0 <= i < j < |s| ==> s[i].invoke <= s[j].invoke
  }

  /** The operations invoked at `t`, in the order of `s`. */
  function InvokedAt(s: seq<LinearOp>, t: Time): seq<LinearOp> {
    if s == [] then [] else InvokedAt(s[..|s| - 1], t) + if s[|s| - 1].invoke == t then [s[|s| - 1]] else []
  }

  lemma InvokedAtSnoc(s: seq<LinearOp>, op: LinearOp, t: Time)
    ensures InvokedAt(s + [op], t) == InvokedAt(s, t) + if op.invoke == t then [op] else []
  {
  }

  /** Operations invoked at the same time keep their order. */
  ghost predicate SameTies(r: seq<LinearOp>, s: seq<LinearOp>) {
    forall t: Time :: InvokedAt(r, t) == InvokedAt(s, t)
  }

  /** Moving `op` in front of a later invocation keeps the order of ties. */
  lemma TiesSwap(s: seq<LinearOp>, op: LinearOp, front: seq<LinearOp>)
    requires s != [] && op.invoke < s[|s| - 1].invoke && SameTies(front, s[..|s| - 1] + [op])
    ensures SameTies(front + [s[|s| - 1]], s + [op])
  {
    var init, last := s[..|s| - 1], s[|s| - 1];
    forall t: Time ensures InvokedAt(front + [last], t) == InvokedAt(s + [op], t) {
      InvokedAtSnoc(front, last, t);
      InvokedAtSnoc(init, op, t);
      InvokedAtSnoc(s, op, t);
    }
  }

  lemma TiesSnoc(r: seq<LinearOp>, s: seq<LinearOp>, op: LinearOp)
    requires SameTies(r, s)
    ensures SameTies(r + [op], s + [op])
  {
  }

  function Insert(s: seq<LinearOp>, op: LinearOp): (r: seq<LinearOp>)
    requires SortedByInvoke(s)
    ensures SortedByInvoke(r)
    ensures multiset(r) == multiset(s) + multiset{op}
    ensures SameTies(r, s + [op])
  {
    if s == [] || s[|s| - 1].invoke <= op.invoke then s + [op]
    else
      var last := s[|s| - 1];
      var front := Insert(s[..|s| - 1], op);
      InsertFacts(s, op, front);
      TiesSwap(s, op, front);
      front + [last]
  }

  lemma InsertFacts(s: seq<LinearOp>, op: LinearOp, front: seq<LinearOp>)
    requires s != [] && SortedByInvoke(s) && op.invoke < s[|s| - 1].invoke
    requires SortedByInvoke(front) && multiset(front) == multiset(s[..|s| - 1]) + multiset{op}
    ensures SortedByInvoke(front + [s[|s| - 1]])
    ensures multiset(front + [s[|s| - 1]]) == multiset(s) + multiset{op}
  {
    LastBag(s);
    forall o | o in front ensures o.invoke <= s[|s| - 1].invoke {
      assert o in multiset(front);
    }
  }

  /** A stable sort by invocation time. */
  function SortByInvoke(ops: seq<LinearOp>): (r: seq<LinearOp>)
    ensures SortedByInvoke(r)
    ensures multiset(r) == multiset(ops)
    ensures SameTies(r, ops)
  {
    if ops == [] then []
    else
      var front := SortByInvoke(ops[..|ops| - 1]);
      LastBag(ops);
      TiesSnoc(front, ops[..|ops| - 1], ops[|ops| - 1]);
      assert ops[..|ops| - 1] + [ops[|ops| - 1]] == ops;
      Insert(front, ops[|ops| - 1])
  }

  lemma {:induction false} KeyOrderSnoc(p: seq<LinearOp>, op: LinearOp, key: string)
    ensures KeyOrder(p + [op], key) == KeyOrder(p, key) + if op.key == key then [op] else []
  {
    if p == [] {
      assert p + [op] == [op];
      assert KeyOrder([op][1..], key) == [];
    } else {
      KeyOrderSnoc(p[1..], op, key);
      assert (p + [op])[1..] == p[1..] + [op];
    }
  }

  ghost predicate Groups(byKey: map<string, seq<LinearOp>>, ops: seq<LinearOp>) {
    && (forall key :: key in byKey ==> byKey[key] == KeyOrder(ops, key))
    && (forall key :: key !in byKey ==> KeyOrder(ops, key) == [])
  }

  /** Every group holds its key's operations in the sorted order. */
  method GroupByKey(ops: seq<LinearOp>) returns (byKey: map<string, seq<LinearOp>>)
    ensures Groups(byKey, ops)
  {
    byKey := map[];
    for n := 0 to |ops|
      invariant Groups(byKey, ops[..n])
    {
      var op := ops[n];
      var group := if op.key in byKey then byKey[op.key] else [];
      forall key ensures KeyOrder(ops[..n + 1], key) == KeyOrder(ops[..n], key) + if op.key == key then [op] else [] {
        assert ops[..n + 1] == ops[..n] + [op];
        KeyOrderSnoc(ops[..n], op, key);
      }
      byKey := byKey[op.key := group + [op]];
    }
    assert ops[..|ops|] == ops;
  }

  lemma GroupIsKeyPart(sorted: seq<LinearOp>, ops: Ops, key: string)
    requires multiset(sorted) == ops
    ensures multiset(KeyOrder(sorted, key)) == KeyOps(ops, key)
    ensures |KeyOrder(sorted, key)| == |KeyOps(ops, key)|
  {
    KeyOrderBag(sorted, key);
    assert |multiset(KeyOrder(sorted, key))| == |KeyOrder(sorted, key)|;
  }

  lemma EmptyKeyAccepted(ops: Ops, key: string)
    requires KeyOps(ops, key) == multiset{}
    ensures KeyAccepted(ops, key)
  {
  }

  /**
   The verdict on a history: it passes exactly when every key's operations can be placed as far as
   the search looks, in whatever order the keys are visited; a violation names a key that has no
   linearization at all.
   */
  method CheckLinearizability(history: seq<HistoryEntry>) returns (verdict: Verdict)
    ensures verdict.Pass? <==> Accepted(history)
    ensures verdict.Violation? ==> !Linearizable(KeyOps(OpsOf(history), verdict.key), map[])
    ensures verdict.Violation? ==> verdict.count == |KeyOps(OpsOf(history), verdict.key)|
  {
    var ops := PairUp(history);
    ops := SortByInvoke(ops);
    ghost var all := OpsOf(history);
    if ops == [] {
      forall key ensures KeyAccepted(all, key) {
        GroupIsKeyPart(ops, all, key);
        EmptyKeyAccepted(all, key);
      }
      return Pass;
    }
    var byKey := GroupByKey(ops);
    var left := byKey.Keys;
    while left != {}
      invariant left <= byKey.Keys
      invariant forall key :: key in byKey && key !in left ==> KeyAccepted(all, key)
    {
      var key :| key in left;
      GroupIsKeyPart(ops, all, key);
      var ok := TryLinearize(byKey[key], map[], 0);
      if !ok {
        RejectionIsSound(KeyOps(all, key), map[], 0);
        assert !KeyAccepted(all, key);
        return Violation(key, |byKey[key]|);
      }
      left := left - {key};
    }
    forall key ensures KeyAccepted(all, key) {
      if key !in byKey {
        GroupIsKeyPart(ops, all, key);
        EmptyKeyAccepted(all, key);
      }
    }
    return Pass;
  }

  // ---- The verdict against linearizability of the whole history ----

  /** A linearizable history always passes, however long. */
  lemma LinearizableIsAccepted(ops: Ops)
    requires Linearizable(ops, map[])
    ensures AcceptedOps(ops)
  {
    LocalityTheorem(ops, map[]);
    forall key ensures KeyAccepted(ops, key) {
      if !KeyAccepted(ops, key) {
        RejectionIsSound(KeyOps(ops, key), map[], 0);
      }
    }
  }

  /** No key has more operations than the search looks at. */
  ghost predicate WithinHorizon(ops: Ops) {
    AtMost(ops, 101)
  }

  ghost predicate AtMost(ops: Ops, n: nat) {
    forall key :: |KeyOps(ops, key)| <= n
  }

  lemma AcceptedIsExact(ops: Ops)
    requires WithinHorizon(ops)
    ensures AcceptedOps(ops) <==> Linearizable(ops, map[])
  {
    LocalityTheorem(ops, map[]);
    forall key ensures KeyAccepted(ops, key) <==> Linearizable(KeyOps(ops, key), map[]) {
      SearchDecides(KeyOps(ops, key), map[]);
    }
  }

  /** With at most 101 operations on each key the verdict is linearizability of the whole history. */
  lemma VerdictIsExact(h: seq<HistoryEntry>)
    requires WithinHorizon(OpsOf(h))
    ensures Accepted(h) <==> Linearizable(OpsOf(h), map[])
  {
    AcceptedIsExact(OpsOf(h));
  }

  // ---- Beyond the depth of the search the verdict can be wrong ----

  /** The record of `n` writes of zero, one after the other and each under an id of its own. */
  function WritesOnRecord(n: nat): (h: seq<HistoryEntry>)
    ensures forall m :: 0 <= m < |h| ==> h[m].id < n
    ensures UniqueCalls(h)
  {
    if n == 0 then []
    else WritesOnRecord(n - 1) + [Invocation(n - 1, "x", Write(Number(0)), 0), Completion(n - 1, Ok, None, 0)]
  }

  function OverlongRecord(n: nat): seq<HistoryEntry> {
    WritesOnRecord(n) + [Invocation(n, "x", Read, 0), Completion(n, Ok, Some(Number(1)), 0)]
  }

  lemma {:induction false} WritesOnRecordOps(n: nat)
    ensures OpsOf(WritesOnRecord(n)) == multiset(ZeroWrites(n))
  {
    if n == 0 {
      assert WritesOnRecord(0) == [];
    } else {
      WritesOnRecordOps(n - 1);
      var write, done := Invocation(n - 1, "x", Write(Number(0)), 0), Completion(n - 1, Ok, None, 0);
      OneMoreOperation(WritesOnRecord(n - 1), write, done);
    }
  }

  lemma OverlongRecordOps(n: nat)
    ensures OpsOf(OverlongRecord(n)) == Overlong(n)
  {
    WritesOnRecordOps(n);
    OneMoreOperation(WritesOnRecord(n), Invocation(n, "x", Read, 0), Completion(n, Ok, Some(Number(1)), 0));
  }

  lemma OverlongPasses(n: nat)
    requires n >= 101
    ensures AcceptedOps(Overlong(n)) && KeyOps(Overlong(n), "x") == Overlong(n)
  {
    var ops := Overlong(n);
    OverlongIsAccepted(n);
    KeyPartUnique(ops, ops, "x");
    forall key ensures KeyAccepted(ops, key) {
      if key != "x" {
        KeyPartUnique(multiset{}, ops, key);
        EmptyKeyAccepted(ops, key);
      }
    }
  }

  lemma OverlongUnique(n: nat)
    ensures UniqueCalls(OverlongRecord(n))
  {
  }

  /** For every size above 101, a history of distinct operations on one key that passes without a linearization. */
  lemma DepthCutPassesViolation(n: nat)
    requires n >= 101
    ensures var h := OverlongRecord(n);
      && UniqueCalls(h)
      && KeyOps(OpsOf(h), "x") == OpsOf(h) && |OpsOf(h)| == n + 1
      && Accepted(h) && !Linearizable(OpsOf(h), map[])
  {
    OverlongRecordOps(n);
    OverlongUnique(n);
    OverlongPasses(n);
    OverlongIsAccepted(n);
  }

  /** The verdict is right on all histories with at most `n` operations on each key. */
  ghost predicate VerdictDecides(n: nat) {
    forall h :: UniqueCalls(h) && AtMost(OpsOf(h), n) ==> (Accepted(h) <==> Linearizable(OpsOf(h), map[]))
  }

  lemma OverlongAtMost(n: nat)
    ensures AtMost(Overlong(n), n + 1)
  {
    OverlongSize(n);
    forall key ensures |KeyOps(Overlong(n), key)| <= n + 1 {
      KeyPartUnique(if key == "x" then Overlong(n) else multiset{}, Overlong(n), key);
    }
  }

  /** 101 operations per key is the exact limit of the verdict, even when no id is recorded twice. */
  lemma VerdictDecidesIff(n: nat)
    ensures VerdictDecides(n) <==> n <= 101
  {
    if n <= 101 {
      forall h | AtMost(OpsOf(h), n) ensures Accepted(h) <==> Linearizable(OpsOf(h), map[]) {
        VerdictIsExact(h);
      }
    } else {
      OverlongRecordOps(n - 1);
      OverlongAtMost(n - 1);
      DepthCutPassesViolation(n - 1);
    }
  }

  // ---- A family that is always rejected ----

  /**
   A recorded read or compare-and-swap that took effect on a value which no operation on record brings to
   its key is always rejected, as long as the key is within the depth of the search.
   */
  lemma UnexplainedRejected(ops: Ops, r: LinearOp, v: Value)
    requires Unexplained(r, v, ops, map[]) && |KeyOps(ops, r.key)| <= 101
    ensures !AcceptedOps(ops)
  {
    UnexplainedHasNoOrder(KeyOps(ops, r.key), r, v, map[]);
    SearchDecides(KeyOps(ops, r.key), map[]);
    assert !KeyAccepted(ops, r.key);
  }

  /** The operation that response `k` completes. */
  ghost function OpAt(h: seq<HistoryEntry>, k: int): (o: LinearOp)
    requires Answered(h, k)
    ensures o in OpsOf(h)
  {
    var o := Pair(h[CallOf(h, k)], h[k]);
    PairedHas(h, |h|, k, o);
    o
  }

  /** The call of response `k`. */
  ghost function Asked(h: seq<HistoryEntry>, k: int): (e: HistoryEntry)
    requires Answered(h, k)
    ensures e.Invocation?
  {
    h[CallOf(h, k)]
  }

  /** An answered call to bring `v` to `key`, whatever became of it. */
  ghost predicate AsksFor(h: seq<HistoryEntry>, k: int, key: string, v: Value) {
    && Answered(h, k) && Asked(h, k).key == key
    && (Asked(h, k).call == Write(v) || (Asked(h, k).call.Cas? && Asked(h, k).call.to == v))
  }

  /**
   Recorded time counts: a read is rejected when its answer was recorded before anybody had asked for the
   value it carries.
   */
  lemma EarlyReadRejected(h: seq<HistoryEntry>, k: int, v: Value)
    requires Answered(h, k) && Asked(h, k).call.Read? && !h[k].outcome.Info? && h[k].value == Some(v)
    requires forall k' :: AsksFor(h, k', Asked(h, k).key, v) ==> h[k].time < Asked(h, k').time
    requires |KeyOps(OpsOf(h), Asked(h, k).key)| <= 101
    ensures !Accepted(h)
  {
    var r := OpAt(h, k);
    forall o | o in OpsOf(h) && Brings(o, r.key, v) ensures r.complete < o.invoke {
      var k' := PairedFrom(h, |h|, o);
      assert AsksFor(h, k', r.key, v);
    }
    UnexplainedRejected(OpsOf(h), r, v);
  }

  /** Response `k` is of an operation that could replace `v` on `key`. */
  ghost predicate MayReplace(h: seq<HistoryEntry>, k: int, key: string, v: Value) {
    && Answered(h, k) && Asked(h, k).key == key
    && ( || (Asked(h, k).call.Write? && Asked(h, k).call.value != v)
         || (Asked(h, k).call.Cas? && Asked(h, k).call.to != v && !h[k].outcome.Fail?))
  }

  /**
   A failure that nothing explains: a swap from `v` recorded as failed is rejected when it was invoked after a
   write of `v` to its key had been answered and nothing on record could have replaced `v`.
   */
  lemma UnexplainedFailureRejected(h: seq<HistoryEntry>, done: int, k: int, v: Value)
    requires Answered(h, k) && Asked(h, k).call.Cas? && Asked(h, k).call.from == v && h[k].outcome.Fail?
    requires Answered(h, done) && Asked(h, done).key == Asked(h, k).key && Asked(h, done).call == Write(v)
    requires !h[done].outcome.Info? && h[done].time < Asked(h, k).time
    requires forall k' :: !MayReplace(h, k', Asked(h, k).key, v)
    requires |KeyOps(OpsOf(h), Asked(h, k).key)| <= 101
    ensures !Accepted(h)
  {
    var s, w := OpAt(h, k), OpAt(h, done);
    var part := KeyOps(OpsOf(h), s.key);
    forall o | o in part ensures !Replaces(o, s.key, v) {
      var k' := PairedFrom(h, |h|, o);
      assert !MayReplace(h, k', s.key, v);
    }
    UnexplainedFailureHasNoOrder(part, s, w, v, map[]);
    SearchDecides(part, map[]);
    assert !KeyAccepted(OpsOf(h), s.key);
  }
}
