/** Values, stores and times shared by the node and the harness. */
module Values {

  datatype Option<+T> = None | Some(value: T)

  /** A JSON value; numbers are integers here. */
  datatype Value =
    | Null
    | Bool(flag: bool)
    | Number(number: int)
    | Text(text: string)
    | List(items: seq<Value>)
    | Object(fields: map<string, Value>)

  type Store = map<string, Value>

  function Lookup<K, V>(m: map<K, V>, key: K): Option<V> {
    if key in m then Some(m[key]) else None
  }

  lemma SameLookups<K, V>(m: map<K, V>, m': map<K, V>)
    requires forall key :: Lookup(m, key) == Lookup(m', key)
    ensures m == m'
  {
    forall key ensures key in m <==> key in m' {
      assert Lookup(m, key) == Lookup(m', key);
    }
    forall key | key in m ensures m[key] == m'[key] {
      assert Lookup(m, key) == Lookup(m', key);
    }
  }

  /** The largest 128-bit unsigned integer: the completion time given to an indeterminate operation. */
  const MAX_TIME: int := 0xFFFF_FFFF_FFFF_FFFF_FFFF_FFFF_FFFF_FFFF

  /** Nanoseconds since the harness started, an unsigned 128-bit integer. */
  type Time = t: int | 0 <= t <= MAX_TIME
}

/** Sequence facts used by several modules. */
module Sequences {

  function Remove<T>(s: seq<T>, i: nat): (r: seq<T>)
    requires i < |s|
    ensures |r| == |s| - 1
  {
    s[..i] + s[i + 1..]
  }

  lemma RemoveBag<T>(s: seq<T>, i: nat)
    requires i < |s|
    ensures multiset(Remove(s, i)) == multiset(s) - multiset{s[i]}
    ensures multiset(s) == multiset(Remove(s, i)) + multiset{s[i]}
  {
    var front, back := s[..i], s[i + 1..];
    assert s == front + [s[i]] + back;
    assert multiset(s) == multiset(front) + multiset{s[i]} + multiset(back);
  }

  lemma ConsBag<T>(x: T, q: seq<T>)
    ensures multiset([x] + q) == multiset{x} + multiset(q)
  {
  }

  lemma TakeOut<T>(bag: multiset<T>, x: T, more: multiset<T>)
    requires x in bag
    ensures multiset{x} + more <= bag <==> more <= bag - multiset{x}
    ensures bag - (multiset{x} + more) == (bag - multiset{x}) - more
  {
  }

  lemma HeadBag<T>(s: seq<T>)
    requires s != []
    ensures multiset(s) == multiset{s[0]} + multiset(s[1..])
  {
    assert s == [s[0]] + s[1..];
  }

  lemma LastBag<T>(s: seq<T>)
    requires s != []
    ensures multiset(s) == multiset(s[..|s| - 1]) + multiset{s[|s| - 1]}
  {
    assert s == s[..|s| - 1] + [s[|s| - 1]];
  }

  lemma OnceInBag<T>(s: seq<T>, i: nat, j: nat)
    requires i < j < |s| && multiset(s)[s[i]] <= 1
    ensures s[i] != s[j]
  {
    assert s == s[..j] + [s[j]] + s[j + 1..];
    assert s[i] in s[..j];
    assert multiset(s)[s[i]] == multiset(s[..j])[s[i]] + multiset{s[j]}[s[i]] + multiset(s[j + 1..])[s[i]];
  }

  ghost predicate Distinct<T>(s: seq<T>) {
    forall i, j :: 0 <= i < j < |s| ==> s[i] != s[j]
  }

  lemma {:induction false} DistinctCount<T>(s: seq<T>, x: T)
    requires Distinct(s)
    ensures multiset(s)[x] == if x in s then 1 else 0
  {
    if s != [] {
      DistinctCount(s[1..], x);
      HeadBag(s);
      assert x in s <==> x == s[0] || x in s[1..];
    }
  }

  /** Two duplicate-free sequences with the same elements are permutations of each other. */
  lemma SameElements<T>(s: seq<T>, t: seq<T>)
    requires Distinct(s) && Distinct(t)
    requires forall x :: x in s ==> x in t
    requires forall x :: x in t ==> x in s
    ensures multiset(s) == multiset(t)
  {
    forall x ensures multiset(s)[x] == multiset(t)[x] {
      DistinctCount(s, x);
      DistinctCount(t, x);
    }
  }
}
