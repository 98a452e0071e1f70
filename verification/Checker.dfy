/**
 The sequential model, the backtracking search and its declarative meaning
 (`KVModel::apply` and `try_linearize` of the harness).
 */
module Checker {
  import opened Values
  import opened Sequences

  /** What a client asked for. A write without a value and a cas without operands cannot be written down. */
  datatype Call =
    | Read
    | Write(value: Value)
    | Cas(from: Value, to: Value)
    | Unsupported(name: string)

  /** One invocation paired with its response. */
  datatype LinearOp = LinearOp(
    id: nat,
    call: Call,
    key: string,
    result: Option<Value>,
    casOk: bool,
    invoke: Time,
    complete: Time)

  type Ops = multiset<LinearOp>

  /** The model after `op`, and whether the recorded response is the one the model gives. */
  function Apply(model: Store, op: LinearOp): (Store, bool) {
    match op.call
    case Write(value) => (model[op.key := value], true)
    case Read => (model, Lookup(model, op.key) == op.result)
    case Cas(from, to) =>
      var holds := Lookup(model, op.key) == Some(from);
      if op.casOk then
        if holds then (model[op.key := to], true) else (model, false)
      else
        (model, !holds)
    case Unsupported(_) => (model, false)
  }

  /** Every response in `p`, taken one after the other from `model`, is the model's. */
  ghost predicate Legal(p: seq<LinearOp>, model: Store) {
    p == [] || (Apply(model, p[0]).1 && Legal(p[1..], Apply(model, p[0]).0))
  }

  /** No operation of `p` was invoked after one ordered at or behind it had completed. */
  ghost predicate RealTime(p: seq<LinearOp>) {
    forall i, j :: 0 <= i <= j < |p| ==> p[i].invoke <= p[j].complete
  }

  /** No operation of `p` was invoked after one of `later` had completed. */
  ghost predicate Precedes(p: seq<LinearOp>, later: Ops) {
    forall x, o :: x in p && o in later ==> x.invoke <= o.complete
  }

  /** `p` places some of `ops`, legally and in real-time order, ahead of all the others. */
  ghost predicate Places(p: seq<LinearOp>, ops: Ops, model: Store) {
    && multiset(p) <= ops
    && RealTime(p)
    && Precedes(p, ops - multiset(p))
    && Legal(p, model)
  }

  /** Some `n` of the operations can be placed first. */
  ghost predicate LinearizableTo(ops: Ops, model: Store, n: nat) {
    exists p :: |p| == n && Places(p, ops, model)
  }

  /** `p` is an order of all of `ops`, legal and in real-time order. */
  ghost predicate IsLinearization(p: seq<LinearOp>, ops: Ops, model: Store) {
    multiset(p) == ops && RealTime(p) && Legal(p, model)
  }

  ghost predicate Linearizable(ops: Ops, model: Store) {
    exists p :: IsLinearization(p, ops, model)
  }

  /** The model after all of `p`. */
  ghost function After(p: seq<LinearOp>, model: Store): Store {
    if p == [] then model else After(p[1..], Apply(model, p[0]).0)
  }

  lemma {:induction false} LegalSnoc(p: seq<LinearOp>, o: LinearOp, model: Store)
    requires Legal(p, model) && Apply(After(p, model), o).1
    ensures Legal(p + [o], model) && After(p + [o], model) == Apply(After(p, model), o).0
  {
    if p == [] {
      assert p + [o] == [o];
      assert Legal([o][1..], Apply(model, o).0);
    } else {
      LegalSnoc(p[1..], o, Apply(model, p[0]).0);
      assert (p + [o])[1..] == p[1..] + [o];
    }
  }

  lemma SnocRealTime(p: seq<LinearOp>, o: LinearOp)
    requires RealTime(p) && o.invoke <= o.complete && forall x :: x in p ==> x.invoke <= o.complete
    ensures RealTime(p + [o])
  {
  }

  /** How many operations a search entered at `depth` places before it gives up and accepts. */
  function Horizon(n: nat, depth: nat): nat {
    if depth > 100 then 0 else if n <= 101 - depth then n else 101 - depth
  }

  /** Placing all operations is linearizability. */
  lemma PlacingAll(ops: Ops, model: Store)
    ensures LinearizableTo(ops, model, |ops|) <==> Linearizable(ops, model)
  {
    if LinearizableTo(ops, model, |ops|) {
      var p :| |p| == |ops| && Places(p, ops, model);
      assert |ops - multiset(p)| == 0;
      assert ops == multiset(p) + (ops - multiset(p));
      assert IsLinearization(p, ops, model);
    }
    if Linearizable(ops, model) {
      var p :| IsLinearization(p, ops, model);
      assert |multiset(p)| == |p|;
      assert Places(p, ops, model);
    }
  }

  /** `op` may come first: nothing in `ops` completed before it was invoked. */
  ghost predicate Candidate(ops: Ops, op: LinearOp) {
    op in ops && forall o :: o in ops ==> op.invoke <= o.complete
  }

  /** `op` can be placed first, with `n - 1` others after it. */
  ghost predicate FirstStep(ops: Ops, model: Store, n: nat, op: LinearOp)
    requires 0 < n
  {
    && Candidate(ops, op)
    && Apply(model, op).1
    && LinearizableTo(ops - multiset{op}, Apply(model, op).0, n - 1)
  }

  lemma NothingToPlace(ops: Ops, model: Store)
    ensures LinearizableTo(ops, model, 0)
  {
  }

  lemma ConsRealTime(first: LinearOp, q: seq<LinearOp>)
    requires RealTime(q)
    requires first.invoke <= first.complete
    requires forall o :: o in q ==> first.invoke <= o.complete
    ensures RealTime([first] + q)
  {
  }

  lemma ConsPrecedes(first: LinearOp, q: seq<LinearOp>, later: Ops)
    requires Precedes(q, later)
    requires forall o :: o in later ==> first.invoke <= o.complete
    ensures Precedes([first] + q, later)
  {
  }

  lemma ConsPlaces(op: LinearOp, q: seq<LinearOp>, ops: Ops, model: Store)
    requires Candidate(ops, op) && Apply(model, op).1
    requires Places(q, ops - multiset{op}, Apply(model, op).0)
    ensures Places([op] + q, ops, model)
  {
    ConsBag(op, q);
    TakeOut(ops, op, multiset(q));
    assert forall o :: o in q ==> o in multiset(q);
    ConsRealTime(op, q);
    ConsPrecedes(op, q, ops - multiset{op} - multiset(q));
    assert ([op] + q)[1..] == q;
  }

  lemma FirstStepSound(ops: Ops, model: Store, n: nat, op: LinearOp)
    requires 0 < n && FirstStep(ops, model, n, op)
    ensures LinearizableTo(ops, model, n)
  {
    var q: seq<LinearOp> :| |q| == n - 1 && Places(q, ops - multiset{op}, Apply(model, op).0);
    ConsPlaces(op, q, ops, model);
    assert |[op] + q| == n;
  }

  lemma HeadIsCandidate(p: seq<LinearOp>, ops: Ops, model: Store)
    requires p != [] && Places(p, ops, model)
    ensures Candidate(ops, p[0])
  {
  }

  lemma TailRealTime(p: seq<LinearOp>)
    requires p != [] && RealTime(p)
    ensures RealTime(p[1..])
  {
  }

  lemma TailPrecedes(p: seq<LinearOp>, later: Ops)
    requires p != [] && Precedes(p, later)
    ensures Precedes(p[1..], later)
  {
  }

  lemma TailBag(p: seq<LinearOp>, ops: Ops)
    requires p != [] && multiset(p) <= ops
    ensures multiset(p[1..]) <= ops - multiset{p[0]}
    ensures (ops - multiset{p[0]}) - multiset(p[1..]) == ops - multiset(p)
  {
    HeadBag(p);
    TakeOut(ops, p[0], multiset(p[1..]));
  }

  lemma TailPlaces(p: seq<LinearOp>, ops: Ops, model: Store)
    requires p != [] && Places(p, ops, model)
    ensures Places(p[1..], ops - multiset{p[0]}, Apply(model, p[0]).0)
  {
    TailBag(p, ops);
    TailRealTime(p);
    TailPrecedes(p, ops - multiset(p));
  }

  lemma FirstStepComplete(ops: Ops, model: Store, n: nat) returns (op: LinearOp)
    requires 0 < n && LinearizableTo(ops, model, n)
    ensures FirstStep(ops, model, n, op)
  {
    var p: seq<LinearOp> :| |p| == n && Places(p, ops, model);
    op := p[0];
    HeadIsCandidate(p, ops, model);
    TailPlaces(p, ops, model);
  }

  ghost predicate IsLeast(ops: seq<LinearOp>, least: Time) {
    && (exists o :: o in ops && o.complete == least)
    && (forall o :: o in ops ==> least <= o.complete)
  }

  /** The earliest completion time among the remaining operations. */
  method MinComplete(ops: seq<LinearOp>) returns (least: Time)
    requires ops != []
    ensures IsLeast(ops, least)
  {
    least := ops[0].complete;
    for k := 1 to |ops|
      invariant exists o :: o in ops && o.complete == least
      invariant forall j :: 0 <= j < k ==> least <= ops[j].complete
    {
      if ops[k].complete < least {
        least := ops[k].complete;
      }
    }
  }

  lemma CandidateTest(ops: seq<LinearOp>, op: LinearOp, least: Time)
    requires op in ops && IsLeast(ops, least)
    ensures Candidate(multiset(ops), op) <==> op.invoke <= least
  {
  }

  /** The search's test for a candidate, and what trying `ops[i]` first amounts to. */
  lemma TryingFirst(ops: seq<LinearOp>, i: nat, model: Store, depth: nat, least: Time)
    requires i < |ops| && depth <= 100 && IsLeast(ops, least)
    ensures FirstStep(multiset(ops), model, Horizon(|ops|, depth), ops[i]) <==>
            && ops[i].invoke <= least
            && Apply(model, ops[i]).1
            && LinearizableTo(multiset(Remove(ops, i)), Apply(model, ops[i]).0, Horizon(|ops| - 1, depth + 1))
  {
    RemoveBag(ops, i);
    CandidateTest(ops, ops[i], least);
  }

  /** None of the first `k` remaining operations can be placed first. */
  ghost predicate Refuted(ops: seq<LinearOp>, model: Store, n: nat, k: nat)
    requires 0 < n
  {
    forall i :: 0 <= i < k && i < |ops| ==> !FirstStep(multiset(ops), model, n, ops[i])
  }

  lemma RefutedNext(ops: seq<LinearOp>, model: Store, n: nat, k: nat)
    requires 0 < n && k < |ops|
    requires Refuted(ops, model, n, k) && !FirstStep(multiset(ops), model, n, ops[k])
    ensures Refuted(ops, model, n, k + 1)
  {
  }

  lemma NoFirstStep(ops: seq<LinearOp>, model: Store, n: nat)
    requires 0 < n && Refuted(ops, model, n, |ops|)
    ensures !LinearizableTo(multiset(ops), model, n)
  {
    if LinearizableTo(multiset(ops), model, n) {
      var op := FirstStepComplete(multiset(ops), model, n);
    }
  }

  /** The backtracking search: exact up to the depth at which it stops looking. */
  method TryLinearize(remaining: seq<LinearOp>, model: Store, depth: nat) returns (ok: bool)
    ensures ok <==> LinearizableTo(multiset(remaining), model, Horizon(|remaining|, depth))
    decreases |remaining|
  {
    if remaining == [] {
      NothingToPlace(multiset(remaining), model);
      return true;
    }
    if depth > 100 {
      NothingToPlace(multiset(remaining), model);
      return true;
    }
    var least := MinComplete(remaining);
    ghost var n := Horizon(|remaining|, depth);
    for i := 0 to |remaining|
      invariant Refuted(remaining, model, n, i)
    {
      var op := remaining[i];
      TryingFirst(remaining, i, model, depth, least);
      if op.invoke <= least {
        var (next, matches) := Apply(model, op);
        if matches {
          var found := TryLinearize(Remove(remaining, i), next, depth + 1);
          if found {
            FirstStepSound(multiset(remaining), model, n, op);
            return true;
          }
        }
      }
      RefutedNext(remaining, model, n, i);
    }
    NoFirstStep(remaining, model, n);
    return false;
  }

  /** A search that places fewer operations accepts more. */
  lemma {:induction false} HorizonMonotone(ops: Ops, model: Store, n: nat, k: nat)
    requires k <= n && LinearizableTo(ops, model, n)
    ensures LinearizableTo(ops, model, k)
    decreases k
  {
    if k == 0 {
      NothingToPlace(ops, model);
    } else {
      var op := FirstStepComplete(ops, model, n);
      HorizonMonotone(ops - multiset{op}, Apply(model, op).0, n - 1, k - 1);
      FirstStepSound(ops, model, k, op);
    }
  }

  /** A rejected collection of operations has no linearization, however long it is. */
  lemma RejectionIsSound(ops: Ops, model: Store, depth: nat)
    requires !LinearizableTo(ops, model, Horizon(|ops|, depth))
    ensures !Linearizable(ops, model)
  {
    PlacingAll(ops, model);
    if Linearizable(ops, model) {
      HorizonMonotone(ops, model, |ops|, Horizon(|ops|, depth));
    }
  }

  /** With at most 101 operations the search decides linearizability. */
  lemma SearchDecides(ops: Ops, model: Store)
    requires |ops| <= 101
    ensures LinearizableTo(ops, model, Horizon(|ops|, 0)) <==> Linearizable(ops, model)
  {
    PlacingAll(ops, model);
  }

  // ---- Values that nothing explains ----

  /** When `o` takes effect, `key` comes to hold `v`. */
  predicate Brings(o: LinearOp, key: string, v: Value) {
    o.key == key && (o.call == Write(v) || (o.call.Cas? && o.casOk && o.call.from != v && o.call.to == v))
  }

  /** `o` can take effect only where its key holds `v`. */
  predicate Needs(o: LinearOp, v: Value) {
    (o.call.Read? && o.result == Some(v)) || (o.call.Cas? && o.casOk && o.call.from == v)
  }

  /** `r` needs a value that its key does not hold in the model and no operation brings there before `r` is over. */
  ghost predicate Unexplained(r: LinearOp, v: Value, ops: Ops, model: Store) {
    && r in ops
    && Needs(r, v)
    && Lookup(model, r.key) != Some(v)
    && forall o :: o in ops && Brings(o, r.key, v) ==> r.complete < o.invoke
  }

  lemma HeadInTime(p: seq<LinearOp>, r: LinearOp)
    requires p != [] && r in multiset(p) && RealTime(p)
    ensures p[0].invoke <= r.complete
  {
    assert r in p;
  }

  /** An operation that took effect ahead of `r` and is not `r` explains nothing. */
  lemma StillUnexplained(p: seq<LinearOp>, r: LinearOp, v: Value, model: Store)
    requires Unexplained(r, v, multiset(p), model) && RealTime(p) && p[0] != r && Apply(model, p[0]).1
    ensures Unexplained(r, v, multiset(p[1..]), Apply(model, p[0]).0)
  {
    assert p[0] in multiset(p);
    HeadBag(p);
    HeadInTime(p, r);
  }

  lemma {:induction false} UnexplainedIsIllegal(p: seq<LinearOp>, r: LinearOp, v: Value, model: Store)
    requires Unexplained(r, v, multiset(p), model) && RealTime(p)
    ensures !Legal(p, model)
  {
    if p[0] != r && Apply(model, p[0]).1 {
      StillUnexplained(p, r, v, model);
      TailRealTime(p);
      UnexplainedIsIllegal(p[1..], r, v, Apply(model, p[0]).0);
    }
  }

  /** Operations with such an `r` among them have no linearization. */
  lemma UnexplainedHasNoOrder(ops: Ops, r: LinearOp, v: Value, model: Store)
    requires Unexplained(r, v, ops, model)
    ensures !Linearizable(ops, model)
  {
    forall p: seq<LinearOp> | multiset(p) == ops && RealTime(p) ensures !Legal(p, model) {
      UnexplainedIsIllegal(p, r, v, model);
    }
  }

  // ---- Failures that nothing explains ----

  /** When `o` takes effect, `key` comes to hold something else than `v`. */
  predicate Replaces(o: LinearOp, key: string, v: Value) {
    o.key == key && ((o.call.Write? && o.call.value != v) || (o.call.Cas? && o.casOk && o.call.to != v))
  }

  /** `s` is a failed swap from `v`, and nothing replaces `v` on its key. */
  ghost predicate FailsOn(s: LinearOp, v: Value, ops: Ops) {
    && s in ops && s.call.Cas? && !s.casOk && s.call.from == v
    && forall o :: o in ops ==> !Replaces(o, s.key, v)
  }

  lemma {:induction false} HeldIsIllegal(p: seq<LinearOp>, s: LinearOp, v: Value, model: Store)
    requires FailsOn(s, v, multiset(p)) && Lookup(model, s.key) == Some(v)
    ensures !Legal(p, model)
  {
    assert p[0] in multiset(p);
    if p[0] != s && Apply(model, p[0]).1 {
      HeadBag(p);
      HeldIsIllegal(p[1..], s, v, Apply(model, p[0]).0);
    }
  }

  /** `s` was invoked after a write of `v` to its key had completed. */
  predicate Follows(s: LinearOp, w: LinearOp, v: Value) {
    w.key == s.key && w.call == Write(v) && w.complete < s.invoke
  }

  lemma {:induction false} FailureIsIllegal(p: seq<LinearOp>, s: LinearOp, w: LinearOp, v: Value, model: Store)
    requires FailsOn(s, v, multiset(p)) && w in multiset(p) && Follows(s, w, v) && RealTime(p)
    ensures !Legal(p, model)
  {
    assert p[0] in multiset(p);
    HeadBag(p);
    if p[0] == w {
      HeldIsIllegal(p[1..], s, v, Apply(model, w).0);
    } else {
      HeadInTime(p, w);
      TailRealTime(p);
      FailureIsIllegal(p[1..], s, w, v, Apply(model, p[0]).0);
    }
  }

  /** A swap cannot fail on the value that a completed write has left and nothing replaces. */
  lemma UnexplainedFailureHasNoOrder(ops: Ops, s: LinearOp, w: LinearOp, v: Value, model: Store)
    requires FailsOn(s, v, ops) && w in ops && Follows(s, w, v)
    ensures !Linearizable(ops, model)
  {
    forall p: seq<LinearOp> | multiset(p) == ops && RealTime(p) ensures !Legal(p, model) {
      FailureIsIllegal(p, s, w, v, model);
    }
  }

  // ---- The depth cut can hide a violation ----

  function ZeroWrite(id: nat): LinearOp {
    LinearOp(id, Write(Number(0)), "x", None, true, 0, 0)
  }

  function ImpossibleRead(id: nat): LinearOp {
    LinearOp(id, Read, "x", Some(Number(1)), true, 0, 0)
  }

  function ZeroWrites(n: nat): (r: seq<LinearOp>)
    ensures |r| == n && forall o :: o in r ==> o.key == "x" && o.call == Write(Number(0)) && o.invoke == 0
  {
    if n == 0 then [] else ZeroWrites(n - 1) + [ZeroWrite(n - 1)]
  }

  /** `n` concurrent writes of zero and a read of one, each under an id of its own. */
  function Overlong(n: nat): Ops {
    multiset(ZeroWrites(n)) + multiset{ImpossibleRead(n)}
  }

  lemma OverlongSize(n: nat)
    ensures |Overlong(n)| == n + 1
  {
  }

  lemma {:induction false} WritesAreLegal(p: seq<LinearOp>, model: Store)
    requires forall o :: o in p ==> o.call.Write?
    ensures Legal(p, model)
  {
    if p != [] {
      WritesAreLegal(p[1..], Apply(model, p[0]).0);
    }
  }

  /** 101 writes are placed and the search stops looking, whatever is left over. */
  lemma WritesFillTheSearch(writes: seq<LinearOp>, rest: Ops, model: Store)
    requires |writes| == 101 && forall o :: o in writes ==> o.call.Write? && o.invoke == 0
    ensures LinearizableTo(multiset(writes) + rest, model, 101)
  {
    WritesAreLegal(writes, model);
    assert (multiset(writes) + rest) - multiset(writes) == rest;
    assert Places(writes, multiset(writes) + rest, model);
  }

  /** However many writes of zero there are, they never explain a read of one. */
  lemma OverlongHasNoOrder(n: nat)
    ensures !Linearizable(Overlong(n), map[])
  {
    forall o | o in Overlong(n) ensures !Brings(o, "x", Number(1)) {
      assert o in ZeroWrites(n) || o == ImpossibleRead(n);
    }
    UnexplainedHasNoOrder(Overlong(n), ImpossibleRead(n), Number(1), map[]);
  }

  /** The first 101 writes, and the rest. */
  lemma OverlongSplits(n: nat) returns (placed: seq<LinearOp>, rest: Ops)
    requires n >= 101
    ensures |placed| == 101 && forall o :: o in placed ==> o.call.Write? && o.invoke == 0
    ensures Overlong(n) == multiset(placed) + rest
  {
    var writes := ZeroWrites(n);
    placed, rest := writes[..101], multiset(writes[101..]) + multiset{ImpossibleRead(n)};
    assert writes == placed + writes[101..];
  }

  /** From 101 writes on, the search accepts them with the read, although no order explains it. */
  lemma OverlongIsAccepted(n: nat)
    requires n >= 101
    ensures |Overlong(n)| == n + 1
    ensures !Linearizable(Overlong(n), map[])
    ensures LinearizableTo(Overlong(n), map[], Horizon(n + 1, 0))
  {
    var placed, rest := OverlongSplits(n);
    WritesFillTheSearch(placed, rest, map[]);
    OverlongHasNoOrder(n);
    OverlongSize(n);
  }

  /** At every size above 101 some concurrent operations have no linearization and are accepted. */
  lemma DepthCutAcceptsViolation(n: nat) returns (ops: Ops)
    requires n > 101
    ensures |ops| == n
    ensures !Linearizable(ops, map[])
    ensures LinearizableTo(ops, map[], Horizon(|ops|, 0))
  {
    ops := Overlong(n - 1);
    OverlongIsAccepted(n - 1);
  }

  /** On all collections of `n` operations the search is right. */
  ghost predicate DecidesSize(n: nat) {
    forall ops: Ops, model: Store :: |ops| == n ==>
      (LinearizableTo(ops, model, Horizon(n, 0)) <==> Linearizable(ops, model))
  }

  /** The search decides linearizability at exactly the sizes up to 101. */
  lemma DecidesIff(n: nat)
    ensures DecidesSize(n) <==> n <= 101
  {
    if n <= 101 {
      forall ops: Ops, model: Store | |ops| == n
        ensures LinearizableTo(ops, model, Horizon(n, 0)) <==> Linearizable(ops, model)
      {
        SearchDecides(ops, model);
      }
    } else {
      var ops := DepthCutAcceptsViolation(n);
    }
  }
}
