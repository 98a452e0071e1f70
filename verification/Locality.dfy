/**
 Linearizability is a per-key property of the store: the harness checks one key
 at a time and calls that sufficient. It is, in both directions.
 */
module Locality {
  import opened Values
  import opened Sequences
  import opened Checker

  /** `part` holds the operations of `ops` on `key`, each as often as it occurs there, and no others. */
  ghost predicate IsKeyPart(part: Ops, ops: Ops, key: string) {
    forall o :: part[o] == if o.key == key then ops[o] else 0
  }

  lemma {:induction false} KeyPartExists(ops: Ops, key: string) returns (part: Ops)
    ensures IsKeyPart(part, ops, key)
    decreases |ops|
  {
    if ops == multiset{} {
      part := multiset{};
    } else {
      var o :| o in ops;
      part := KeyPartExists(ops - multiset{o}, key);
      if o.key == key {
        part := part + multiset{o};
      }
    }
  }

  /** The operations on one key. */
  ghost function KeyOps(ops: Ops, key: string): (part: Ops)
    ensures IsKeyPart(part, ops, key)
  {
    assert exists part :: IsKeyPart(part, ops, key) by {
      var part := KeyPartExists(ops, key);
    }
    var part :| IsKeyPart(part, ops, key);
    part
  }

  lemma KeyPartUnique(part: Ops, ops: Ops, key: string)
    requires IsKeyPart(part, ops, key)
    ensures part == KeyOps(ops, key)
  {
  }

  ghost predicate EveryKeyLinearizable(ops: Ops, model: Store) {
    forall key :: Linearizable(KeyOps(ops, key), model)
  }

  ghost predicate OnKey(p: seq<LinearOp>, key: string) {
    forall o :: o in p ==> o.key == key
  }

  /** The operations of `p` on one key, in the order of `p`. */
  function KeyOrder(p: seq<LinearOp>, key: string): (r: seq<LinearOp>)
    ensures forall o :: o in r ==> o in p && o.key == key
  {
    if p == [] then []
    else if p[0].key == key then [p[0]] + KeyOrder(p[1..], key)
    else KeyOrder(p[1..], key)
  }

  lemma {:induction false} KeyOrderCount(p: seq<LinearOp>, key: string, o: LinearOp)
    ensures multiset(KeyOrder(p, key))[o] == if o.key == key then multiset(p)[o] else 0
  {
    if p != [] {
      KeyOrderCount(p[1..], key, o);
      HeadBag(p);
      ConsBag(p[0], KeyOrder(p[1..], key));
    }
  }

  lemma KeyOrderBag(p: seq<LinearOp>, key: string)
    ensures multiset(KeyOrder(p, key)) == KeyOps(multiset(p), key)
  {
    forall o ensures multiset(KeyOrder(p, key))[o] == if o.key == key then multiset(p)[o] else 0 {
      KeyOrderCount(p, key, o);
    }
    KeyPartUnique(multiset(KeyOrder(p, key)), multiset(p), key);
  }

  /** Whether operations on one key are legal depends only on what the model holds for that key. */
  lemma {:induction false} LegalByKey(p: seq<LinearOp>, key: string, model: Store, other: Store)
    requires OnKey(p, key) && Lookup(model, key) == Lookup(other, key)
    ensures Legal(p, model) <==> Legal(p, other)
  {
    if p != [] {
      assert p[0].key == key;
      LegalByKey(p[1..], key, Apply(model, p[0]).0, Apply(other, p[0]).0);
    }
  }

  // ---- Whole history to single keys ----

  lemma {:induction false} LegalRestricted(p: seq<LinearOp>, key: string, model: Store)
    requires Legal(p, model)
    ensures Legal(KeyOrder(p, key), model)
  {
    if p != [] {
      var next := Apply(model, p[0]).0;
      LegalRestricted(p[1..], key, next);
      if p[0].key == key {
        assert KeyOrder(p, key)[1..] == KeyOrder(p[1..], key);
      } else {
        LegalByKey(KeyOrder(p[1..], key), key, next, model);
      }
    }
  }

  lemma {:induction false} RealTimeRestricted(p: seq<LinearOp>, key: string)
    requires RealTime(p)
    ensures RealTime(KeyOrder(p, key))
  {
    if p != [] {
      var rest := p[1..];
      assert forall i, j :: 0 <= i <= j < |rest| ==> rest[i] == p[i + 1] && rest[j] == p[j + 1];
      RealTimeRestricted(rest, key);
      if p[0].key == key {
        assert forall o :: o in rest ==> p[0].invoke <= o.complete;
        ConsRealTime(p[0], KeyOrder(rest, key));
      }
    }
  }

  lemma KeysOfLinearizable(ops: Ops, key: string, model: Store)
    requires Linearizable(ops, model)
    ensures Linearizable(KeyOps(ops, key), model)
  {
    var p: seq<LinearOp> :| IsLinearization(p, ops, model);
    LegalRestricted(p, key, model);
    RealTimeRestricted(p, key);
    KeyOrderBag(p, key);
    assert IsLinearization(KeyOrder(p, key), KeyOps(ops, key), model);
  }

  // ---- Single keys to the whole history ----

  lemma {:induction false} EarliestCompletion(ops: Ops) returns (first: LinearOp)
    requires ops != multiset{}
    ensures first in ops && forall o :: o in ops ==> first.complete <= o.complete
    decreases |ops|
  {
    first :| first in ops;
    var rest := ops - multiset{first};
    if rest != multiset{} {
      var other := EarliestCompletion(rest);
      if other.complete < first.complete {
        first := other;
      }
    }
    assert forall o :: o in ops ==> o in rest || ops - rest == multiset{o};
  }

  lemma CutHead(ops: Ops, model: Store) returns (head: LinearOp)
    requires ops != multiset{} && Linearizable(ops, model)
    ensures Candidate(ops, head) && Apply(model, head).1
    ensures Linearizable(ops - multiset{head}, Apply(model, head).0)
  {
    PlacingAll(ops, model);
    head := FirstStepComplete(ops, model, |ops|);
    PlacingAll(ops - multiset{head}, Apply(model, head).0);
  }

  lemma PutHead(ops: Ops, model: Store, head: LinearOp)
    requires Candidate(ops, head) && Apply(model, head).1
    requires Linearizable(ops - multiset{head}, Apply(model, head).0)
    ensures Linearizable(ops, model)
  {
    PlacingAll(ops - multiset{head}, Apply(model, head).0);
    FirstStepSound(ops, model, |ops|, head);
    PlacingAll(ops, model);
  }

  lemma LinearizableByKey(ops: Ops, key: string, model: Store, other: Store)
    requires forall o :: o in ops ==> o.key == key
    requires Lookup(model, key) == Lookup(other, key)
    requires Linearizable(ops, model)
    ensures Linearizable(ops, other)
  {
    var p: seq<LinearOp> :| IsLinearization(p, ops, model);
    forall o | o in p ensures o.key == key {
      assert o in multiset(p);
    }
    LegalByKey(p, key, model, other);
    assert IsLinearization(p, ops, other);
  }

  lemma KeyOpsRemove(ops: Ops, x: LinearOp, key: string)
    requires x in ops
    ensures KeyOps(ops - multiset{x}, key) == KeyOps(ops, key) - if key == x.key then multiset{x} else multiset{}
  {
  }

  /** Placing `head`, the head of its own key, first leaves every key linearizable. */
  lemma RestOfKeys(ops: Ops, head: LinearOp, key: string, model: Store)
    requires head in ops
    requires Linearizable(KeyOps(ops, key), model)
    requires Linearizable(KeyOps(ops, head.key) - multiset{head}, Apply(model, head).0)
    ensures Linearizable(KeyOps(ops - multiset{head}, key), Apply(model, head).0)
  {
    KeyOpsRemove(ops, head, key);
    if key != head.key {
      assert KeyOps(ops, key) - multiset{} == KeyOps(ops, key);
      LinearizableByKey(KeyOps(ops, key), key, model, Apply(model, head).0);
    }
  }

  /**
   Single-key linearizations merge into one: the head of the key that holds the operation
   completing first is a candidate for the whole history.
   */
  lemma {:induction false} KeysMerge(ops: Ops, model: Store)
    requires EveryKeyLinearizable(ops, model)
    ensures Linearizable(ops, model)
    decreases |ops|
  {
    if ops == multiset{} {
      assert IsLinearization([], ops, model);
    } else {
      var first := EarliestCompletion(ops);
      var mine := KeyOps(ops, first.key);
      assert first in mine;
      var head := CutHead(mine, model);
      assert head in mine;
      forall key ensures Linearizable(KeyOps(ops - multiset{head}, key), Apply(model, head).0) {
        RestOfKeys(ops, head, key, model);
      }
      KeysMerge(ops - multiset{head}, Apply(model, head).0);
      PutHead(ops, model, head);
    }
  }

  /** Locality: a history has a linearization exactly when every key's part of it has one. */
  lemma LocalityTheorem(ops: Ops, model: Store)
    ensures Linearizable(ops, model) <==> EveryKeyLinearizable(ops, model)
  {
    if Linearizable(ops, model) {
      forall key ensures Linearizable(KeyOps(ops, key), model) {
        KeysOfLinearizable(ops, key, model);
      }
    }
    if EveryKeyLinearizable(ops, model) {
      KeysMerge(ops, model);
    }
  }
}
