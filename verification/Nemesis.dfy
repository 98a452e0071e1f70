/** The harness's fault injection: what every reachable fault state still allows. */
module Nemesis {
  import opened Values
  import opened Sequences

  type Link = (string, string)

  datatype Faults = Faults(partitions: map<Link, bool>, killed: seq<string>)

  const HEALTHY := Faults(map[], [])

  predicate Blocked(f: Faults, src: string, dest: string) {
    (src, dest) in f.partitions && f.partitions[(src, dest)]
  }

  /** All links between `a` and `b`, both ways. */
  function Between(a: set<string>, b: set<string>): set<Link> {
    (set x, y | x in a && y in b :: (x, y)) + (set x, y | x in a && y in b :: (y, x))
  }

  function CutLinks(partitions: map<Link, bool>, links: set<Link>): map<Link, bool> {
    partitions + map l | l in links :: true
  }

  function Members(s: seq<string>): set<string> {
    set x | x in s
  }

  // ---- Faults ----

  function Others(all: seq<string>, node: string): set<string> {
    Members(all) - {node}
  }

  function IsolatedFrom(partitions: map<Link, bool>, node: string, all: seq<string>): map<Link, bool> {
    CutLinks(partitions, Between({node}, Others(all, node)))
  }

  function Isolate(f: Faults, node: string, all: seq<string>): Faults {
    f.(partitions := IsolatedFrom(f.partitions, node, all))
  }

  function Split(f: Faults, all: seq<string>): Faults {
    var mid := |all| / 2;
    f.(partitions := CutLinks(f.partitions, Between(Members(all[..mid]), Members(all[mid..]))))
  }

  function KillNode(f: Faults, node: string): Faults {
    f.(killed := f.killed + [node])
  }

  function Without(s: seq<string>, x: string): (r: seq<string>)
    ensures forall y :: y in r <==> y in s && y != x
  {
    if s == [] then []
    else
      assert forall y :: y in s <==> y in s[..|s| - 1] || y == s[|s| - 1];
      Without(s[..|s| - 1], x) + if s[|s| - 1] == x then [] else [s[|s| - 1]]
  }

  class NetworkSimulator {
    var partitions: map<Link, bool>
    var killedNodes: seq<string>

    constructor ()
      ensures Now() == HEALTHY
    {
      partitions, killedNodes := map[], [];
    }

    function Now(): Faults
      reads this
    {
      Faults(partitions, killedNodes)
    }

    function IsPartitioned(src: string, dest: string): (r: bool)
      reads this
      ensures r == Blocked(Now(), src, dest)
    {
      (src, dest) in partitions && partitions[(src, dest)]
    }

    function IsKilled(node: string): bool
      reads this
    {
      node in killedNodes
    }

    method IsolateNode(node: string, all: seq<string>)
      modifies this
      ensures Now() == Isolate(old(Now()), node, all)
    {
      CutNothing(partitions, {node});
      assert Others(all[..0], node) == {};
      for n := 0 to |all|
        invariant killedNodes == old(killedNodes)
        invariant partitions == IsolatedFrom(old(partitions), node, all[..n])
      {
        var other := all[n];
        IsolatedNext(old(partitions), node, all, n);
        if other != node {
          partitions := partitions[(node, other) := true];
          partitions := partitions[(other, node) := true];
        }
      }
      assert all[..|all|] == all;
    }

    method CutFrom(a: string, groupB: seq<string>, ghost before: map<Link, bool>, ghost done: set<string>)
      requires partitions == CutLinks(before, Between(done, Members(groupB)))
      modifies this`partitions
      ensures partitions == CutLinks(before, Between(done + {a}, Members(groupB)))
    {
      ghost var start := partitions;
      CutNothing(partitions, {a});
      for n := 0 to |groupB|
        invariant partitions == CutLinks(start, Between({a}, Members(groupB[..n])))
      {
        var b := groupB[n];
        CutMore(start, a, Members(groupB[..n]), b);
        partitions := partitions[(a, b) := true];
        partitions := partitions[(b, a) := true];
        assert Members(groupB[..n + 1]) == Members(groupB[..n]) + {b};
      }
      assert groupB[..|groupB|] == groupB;
      CutTwice(before, done, {a}, Members(groupB));
    }

    method SplitBrain(all: seq<string>)
      modifies this
      ensures Now() == Split(old(Now()), all)
    {
      var mid := |all| / 2;
      var groupA, groupB := all[..mid], all[mid..];
      assert Between(Members(groupA[..0]), Members(groupB)) == {};
      for n := 0 to |groupA|
        invariant killedNodes == old(killedNodes)
        invariant partitions == CutLinks(old(partitions), Between(Members(groupA[..n]), Members(groupB)))
      {
        CutFrom(groupA[n], groupB, old(partitions), Members(groupA[..n]));
        assert Members(groupA[..n + 1]) == Members(groupA[..n]) + {groupA[n]};
      }
      assert groupA[..|groupA|] == groupA;
    }

    method HealAll()
      modifies this
      ensures Now() == old(Now()).(partitions := map[])
    {
      partitions := map[];
    }

    method Kill(node: string)
      modifies this
      ensures Now() == KillNode(old(Now()), node)
    {
      killedNodes := killedNodes + [node];
    }

    method RestartNode(node: string)
      modifies this
      ensures Now() == old(Now()).(killed := Without(old(killedNodes), node))
    {
      var kept: seq<string> := [];
      for n := 0 to |killedNodes|
        invariant kept == Without(killedNodes[..n], node)
      {
        if killedNodes[n] != node {
          kept := kept + [killedNodes[n]];
        }
        assert killedNodes[..n + 1][..n] == killedNodes[..n];
      }
      assert killedNodes[..|killedNodes|] == killedNodes;
      killedNodes := kept;
    }
  }

  lemma CutNothing(before: map<Link, bool>, a: set<string>)
    ensures CutLinks(before, Between(a, {})) == before
  {
  }

  lemma OthersNext(all: seq<string>, node: string, n: nat)
    requires n < |all|
    ensures Others(all[..n + 1], node) == Others(all[..n], node) + if all[n] == node then {} else {all[n]}
  {
  }

  lemma CutMore(before: map<Link, bool>, x: string, done: set<string>, y: string)
    ensures CutLinks(before, Between({x}, done + {y}))
         == CutLinks(before, Between({x}, done))[(x, y) := true][(y, x) := true]
  {
    assert Between({x}, done + {y}) == Between({x}, done) + {(x, y), (y, x)};
  }

  lemma IsolatedNext(before: map<Link, bool>, node: string, all: seq<string>, n: nat)
    requires n < |all|
    ensures var now := IsolatedFrom(before, node, all[..n]);
      IsolatedFrom(before, node, all[..n + 1]) ==
      if all[n] == node then now else now[(node, all[n]) := true][(all[n], node) := true]
  {
    OthersNext(all, node, n);
    if all[n] == node {
      assert Others(all[..n + 1], node) == Others(all[..n], node);
    } else {
      CutMore(before, node, Others(all[..n], node), all[n]);
    }
  }

  lemma CutTwice(before: map<Link, bool>, a: set<string>, a': set<string>, b: set<string>)
    ensures CutLinks(CutLinks(before, Between(a, b)), Between(a', b)) == CutLinks(before, Between(a + a', b))
  {
    assert Between(a + a', b) == Between(a, b) + Between(a', b);
  }

  // ---- The nemesis ----

  datatype Kind = NoFaults | PartitionFaults | KillFaults | AllFaults | UnknownKind(name: string)

  /** The random choice made when a fault is due. */
  datatype Choice = IsolateOne(target: nat) | SplitInTwo | KillOne(target: nat) | Nothing

  datatype Run = Run(faults: Faults, active: bool)

  predicate Possible(kind: Kind, ids: seq<string>, choice: Choice) {
    && (choice.IsolateOne? || choice.KillOne? ==> choice.target < |ids|)
    && match kind {
         case NoFaults => choice.Nothing?
         case PartitionFaults => choice.IsolateOne? || choice.SplitInTwo?
         case KillFaults => choice.KillOne?
         case AllFaults => choice.IsolateOne? || choice.KillOne?
         case UnknownKind(_) => choice.Nothing?
       }
  }

  function Inject(f: Faults, ids: seq<string>, choice: Choice): Faults
    requires choice.IsolateOne? || choice.KillOne? ==> choice.target < |ids|
  {
    match choice
    case IsolateOne(target) => Isolate(f, ids[target], ids)
    case SplitInTwo => Split(f, ids)
    case KillOne(target) => KillNode(f, ids[target])
    case Nothing => f
  }

  /** Faults and repairs alternate; without faults nothing is ever due. */
  function Act(kind: Kind, ids: seq<string>, r: Run, choice: Choice): Run
    requires Possible(kind, ids, choice)
  {
    if kind.NoFaults? then r
    else if !r.active then Run(Inject(r.faults, ids, choice), true)
    else Run(HEALTHY, false)
  }

  class NemesisDriver {
    const network: NetworkSimulator
    var nemesisActive: bool

    constructor ()
      ensures fresh(network) && network.Now() == HEALTHY && !nemesisActive
    {
      network := new NetworkSimulator();
      nemesisActive := false;
    }

    function Now(): Run
      reads this, network
    {
      Run(network.Now(), nemesisActive)
    }

    /** One due nemesis action. */
    method Due(kind: Kind, ids: seq<string>, choice: Choice)
      requires Possible(kind, ids, choice)
      modifies this, network
      ensures Now() == Act(kind, ids, old(Now()), choice)
    {
      if kind.NoFaults? {
        return;
      }
      if !nemesisActive {
        match choice {
          case IsolateOne(target) => network.IsolateNode(ids[target], ids);
          case SplitInTwo => network.SplitBrain(ids);
          case KillOne(target) => network.Kill(ids[target]);
          case Nothing =>
        }
        nemesisActive := true;
      } else {
        network.HealAll();
        RestartAll();
        nemesisActive := false;
      }
    }

    /** Every node on the killed list is restarted. */
    method RestartAll()
      modifies network
      ensures network.Now() == old(network.Now()).(killed := [])
    {
      var killed := network.killedNodes;
      for n := 0 to |killed|
        invariant network.partitions == old(network.partitions)
        invariant Members(network.killedNodes) <= Members(killed[n..])
      {
        StillKilled(network.killedNodes, killed, n);
        network.RestartNode(killed[n]);
      }
      NoMembers(network.killedNodes);
    }
  }

  predicate AllPossible(kind: Kind, ids: seq<string>, choices: seq<Choice>) {
    forall n :: 0 <= n < |choices| ==> Possible(kind, ids, choices[n])
  }

  /** The state after a whole sequence of due actions. */
  function After(kind: Kind, ids: seq<string>, choices: seq<Choice>): Run
    requires AllPossible(kind, ids, choices)
  {
    if choices == [] then Run(HEALTHY, false)
    else Act(kind, ids, After(kind, ids, choices[..|choices| - 1]), choices[|choices| - 1])
  }

  /** Every reachable state is healthy and inactive, or active with a single fault on a healthy network. */
  lemma {:induction false} OneFaultAtMost(kind: Kind, ids: seq<string>, choices: seq<Choice>)
    requires AllPossible(kind, ids, choices)
    ensures var r := After(kind, ids, choices);
      if r.active then choices != [] && r.faults == Inject(HEALTHY, ids, choices[|choices| - 1])
      else r.faults == HEALTHY
  {
    if choices != [] {
      OneFaultAtMost(kind, ids, choices[..|choices| - 1]);
    }
  }

  /** Faults and repairs take turns; with no faults to inject the nemesis never becomes active. */
  lemma {:induction false} TakesTurns(kind: Kind, ids: seq<string>, choices: seq<Choice>)
    requires AllPossible(kind, ids, choices)
    ensures After(kind, ids, choices).active <==> !kind.NoFaults? && |choices| % 2 == 1
  {
    if choices != [] {
      TakesTurns(kind, ids, choices[..|choices| - 1]);
    }
  }

  /** Restarting a node leaves the others on the killed list as they are. */
  lemma {:induction false} RestartKeepsOthers(a: seq<string>, x: string, b: seq<string>)
    requires x !in a && x !in b
    ensures Without(a + [x] + b, x) == a + b
  {
    if b != [] {
      RestartKeepsOthers(a, x, b[..|b| - 1]);
      assert (a + [x] + b)[..|a| + |b|] == a + [x] + b[..|b| - 1];
      assert a + b == a + b[..|b| - 1] + [b[|b| - 1]];
    } else {
      assert a + [x] + b == a + [x] && (a + [x])[..|a|] == a && a + b == a;
      NotThere(a, x);
    }
  }

  lemma {:induction false} NotThere(a: seq<string>, x: string)
    requires x !in a
    ensures Without(a, x) == a
  {
    if a != [] {
      NotThere(a[..|a| - 1], x);
    }
  }

  // ---- Majorities ----

  /** `q` is more than half of the nodes, all alive, with every link between them open. */
  ghost predicate WorkingMajority(ids: seq<string>, f: Faults, q: set<string>) {
    Working(ids, f, q) && 2 * |q| > |ids|
  }

  ghost predicate Working(ids: seq<string>, f: Faults, q: set<string>) {
    && q <= Members(ids)
    && (forall x :: x in q ==> x !in f.killed)
    && (forall x, y :: x in q && y in q ==> !Blocked(f, x, y))
  }

  ghost predicate Safe(ids: seq<string>, f: Faults) {
    exists q :: WorkingMajority(ids, f, q)
  }

  lemma StillKilled(now: seq<string>, killed: seq<string>, n: nat)
    requires n < |killed| && Members(now) <= Members(killed[n..])
    ensures Members(Without(now, killed[n])) <= Members(killed[n + 1..])
  {
    assert killed[n..] == [killed[n]] + killed[n + 1..];
    forall x | x in Without(now, killed[n]) ensures x in killed[n + 1..] {
      assert x in Members(now);
    }
  }

  lemma NoMembers(s: seq<string>)
    ensures Members(s) == {} ==> s == []
  {
    if s != [] {
      assert s[0] in Members(s);
    }
  }

  lemma {:induction false} MembersCount(s: seq<string>)
    requires Distinct(s)
    ensures |Members(s)| == |s|
  {
    if s == [] {
      assert Members(s) == {};
    } else {
      var front := s[..|s| - 1];
      MembersCount(front);
      assert Members(s) == Members(front) + {s[|s| - 1]};
    }
  }

  lemma {:induction false} SubsetSmaller(a: set<string>, b: set<string>)
    requires a <= b
    ensures |a| <= |b|
  {
    if a != {} {
      var x :| x in a;
      SubsetSmaller(a - {x}, b - {x});
    }
  }

  lemma BlockedExactly(a: set<string>, b: set<string>, x: string, y: string)
    ensures Blocked(Faults(CutLinks(map[], Between(a, b)), []), x, y) <==> (x in a && y in b) || (x in b && y in a)
  {
  }

  lemma OthersCount(ids: seq<string>, t: nat)
    requires Distinct(ids) && t < |ids|
    ensures |Others(ids, ids[t])| == |ids| - 1
  {
    MembersCount(ids);
    assert Others(ids, ids[t]) + {ids[t]} == Members(ids);
  }

  /** Isolating one node is survived unless there are exactly two. */
  lemma IsolateSafeIff(ids: seq<string>, t: nat)
    requires Distinct(ids) && t < |ids|
    ensures Safe(ids, Isolate(HEALTHY, ids[t], ids)) <==> |ids| != 2
  {
    var f := Isolate(HEALTHY, ids[t], ids);
    var rest := Others(ids, ids[t]);
    OthersCount(ids, t);
    MembersCount(ids);
    forall x, y ensures Blocked(f, x, y) <==> (x == ids[t] && y in rest) || (x in rest && y == ids[t]) {
      BlockedExactly({ids[t]}, rest, x, y);
    }
    if |ids| == 1 {
      assert rest == {};
      assert WorkingMajority(ids, f, Members(ids));
    } else if |ids| == 2 {
      forall q ensures !WorkingMajority(ids, f, q) {
        TwoNodesCut(ids, t, f, q);
      }
    } else {
      assert WorkingMajority(ids, f, rest);
    }
  }

  lemma TwoNodesCut(ids: seq<string>, t: nat, f: Faults, q: set<string>)
    requires Distinct(ids) && |ids| == 2 && t < 2 && Blocked(f, ids[t], ids[1 - t])
    ensures !WorkingMajority(ids, f, q)
  {
    if q <= Members(ids) && !(ids[t] in q && ids[1 - t] in q) {
      var missing := if ids[t] in q then ids[1 - t] else ids[t];
      SubsetSmaller(q, Members(ids) - {missing});
      MembersCount(ids);
      assert |Members(ids) - {missing}| == 1;
    }
  }

  /** Killing one node is survived exactly from three nodes on. */
  lemma KillSafeIff(ids: seq<string>, t: nat)
    requires Distinct(ids) && t < |ids|
    ensures Safe(ids, KillNode(HEALTHY, ids[t])) <==> |ids| >= 3
  {
    var f := KillNode(HEALTHY, ids[t]);
    var rest := Others(ids, ids[t]);
    OthersCount(ids, t);
    if |ids| >= 3 {
      assert WorkingMajority(ids, f, rest);
    } else {
      forall q | Working(ids, f, q) ensures |q| <= |rest| {
        assert ids[t] in f.killed;
        SubsetSmaller(q, rest);
      }
    }
  }

  lemma OneSide(ids: seq<string>, q: set<string>)
    requires Working(ids, Split(HEALTHY, ids), q)
    ensures var mid := |ids| / 2; q <= Members(ids[..mid]) || q <= Members(ids[mid..])
  {
  }

  /** Splitting in two is survived exactly with an odd number of nodes. */
  lemma SplitSafeIff(ids: seq<string>)
    requires Distinct(ids)
    ensures Safe(ids, Split(HEALTHY, ids)) <==> |ids| % 2 == 1
  {
    var f, mid := Split(HEALTHY, ids), |ids| / 2;
    var a, b := Members(ids[..mid]), Members(ids[mid..]);
    MembersCount(ids[..mid]);
    MembersCount(ids[mid..]);
    if |ids| % 2 == 1 {
      forall x, y | x in b && y in b ensures !Blocked(f, x, y) {
        BlockedExactly(a, b, x, y);
        SidesDisjoint(ids, x);
        SidesDisjoint(ids, y);
      }
      assert WorkingMajority(ids, f, b);
    } else {
      forall q | Working(ids, f, q) ensures |q| <= mid {
        OneSide(ids, q);
        SubsetSmaller(q, if q <= a then a else b);
      }
    }
  }

  lemma SidesDisjoint(ids: seq<string>, x: string)
    requires Distinct(ids) && x in ids[|ids| / 2..]
    ensures x !in ids[..|ids| / 2]
  {
  }

  /** The node counts with which the chosen kind of faults always leaves a working majority. */
  predicate EnoughNodes(kind: Kind, n: nat) {
    match kind
    case NoFaults => n > 0
    case PartitionFaults => n % 2 == 1
    case KillFaults => n >= 3
    case AllFaults => n >= 3
    case UnknownKind(_) => n > 0
  }

  lemma HealthySafe(ids: seq<string>)
    requires Distinct(ids) && ids != []
    ensures Safe(ids, HEALTHY)
  {
    MembersCount(ids);
    assert WorkingMajority(ids, HEALTHY, Members(ids));
  }

  lemma InjectSafeIff(ids: seq<string>, choice: Choice)
    requires Distinct(ids) && ids != [] && (choice.IsolateOne? || choice.KillOne? ==> choice.target < |ids|)
    ensures Safe(ids, Inject(HEALTHY, ids, choice)) <==>
            match choice {
              case IsolateOne(_) => |ids| != 2
              case SplitInTwo => |ids| % 2 == 1
              case KillOne(_) => |ids| >= 3
              case Nothing => true
            }
  {
    match choice
    case IsolateOne(t) => IsolateSafeIff(ids, t);
    case SplitInTwo => SplitSafeIff(ids);
    case KillOne(t) => KillSafeIff(ids, t);
    case Nothing => HealthySafe(ids);
  }

  /** Whole runs: with enough nodes every reachable fault state leaves a working majority. */
  lemma AlwaysSafe(kind: Kind, ids: seq<string>, choices: seq<Choice>)
    requires Distinct(ids) && EnoughNodes(kind, |ids|) && AllPossible(kind, ids, choices)
    ensures Safe(ids, After(kind, ids, choices).faults)
  {
    OneFaultAtMost(kind, ids, choices);
    if After(kind, ids, choices).active {
      InjectSafeIff(ids, choices[|choices| - 1]);
    } else {
      HealthySafe(ids);
    }
  }

  /** Too few nodes: some run of one action reaches a state without a working majority. */
  lemma TooFewNodes(kind: Kind, ids: seq<string>) returns (choices: seq<Choice>)
    requires Distinct(ids) && ids != [] && !EnoughNodes(kind, |ids|)
    ensures AllPossible(kind, ids, choices) && !Safe(ids, After(kind, ids, choices).faults)
  {
    var choice := if kind.PartitionFaults? then SplitInTwo else KillOne(0);
    choices := [choice];
    assert choices[..0] == [];
    InjectSafeIff(ids, choice);
  }

  /** The exact condition for a nemesis that never takes the majority away. */
  lemma SafeIff(kind: Kind, ids: seq<string>)
    requires Distinct(ids) && ids != []
    ensures (forall choices :: AllPossible(kind, ids, choices) ==> Safe(ids, After(kind, ids, choices).faults))
            <==> EnoughNodes(kind, |ids|)
  {
    if EnoughNodes(kind, |ids|) {
      forall choices | AllPossible(kind, ids, choices) ensures Safe(ids, After(kind, ids, choices).faults) {
        AlwaysSafe(kind, ids, choices);
      }
    } else {
      var choices := TooFewNodes(kind, ids);
    }
  }

  /** Partitions cut both ways in every reachable state, and an inactive nemesis has left no fault behind. */
  lemma AlwaysSymmetric(kind: Kind, ids: seq<string>, choices: seq<Choice>, x: string, y: string)
    requires AllPossible(kind, ids, choices)
    ensures var r := After(kind, ids, choices);
      && (Blocked(r.faults, x, y) <==> Blocked(r.faults, y, x))
      && (!r.active ==> r.faults == HEALTHY)
  {
  }

  /** The driver taken through a whole sequence of due actions. */
  method Drive(kind: Kind, ids: seq<string>, choices: seq<Choice>) returns (r: Run)
    requires AllPossible(kind, ids, choices)
    ensures r == After(kind, ids, choices)
    ensures Distinct(ids) && EnoughNodes(kind, |ids|) ==> Safe(ids, r.faults)
    ensures !r.active ==> r.faults == HEALTHY
  {
    var driver := new NemesisDriver();
    for n := 0 to |choices|
      invariant fresh(driver) && fresh(driver.network)
      invariant driver.Now() == After(kind, ids, choices[..n])
    {
      assert choices[..n + 1][..n] == choices[..n];
      driver.Due(kind, ids, choices[n]);
    }
    assert choices[..|choices|] == choices;
    r := driver.Now();
    OneFaultAtMost(kind, ids, choices);
    if Distinct(ids) && EnoughNodes(kind, |ids|) {
      AlwaysSafe(kind, ids, choices);
    }
  }

  // ---- Delivery ----

  datatype Message = Message(src: string, dest: string, body: Value)

  predicate ForClient(m: Message) {
    (m.dest != [] && m.dest[0] == 'c') || m.dest == "harness"
  }

  /** A message between nodes gets through. */
  predicate GetsThrough(f: Faults, nodes: set<string>, m: Message) {
    && !ForClient(m)
    && m.dest != [] && m.dest[0] == 'n'
    && !Blocked(f, m.src, m.dest)
    && m.dest !in f.killed
    && m.dest in nodes
  }

  function Chosen(messages: seq<Message>, p: Message -> bool): (r: seq<Message>)
    ensures forall m :: m in r <==> m in messages && p(m)
  {
    if messages == [] then []
    else
      assert forall m :: m in messages <==> m in messages[..|messages| - 1] || m == messages[|messages| - 1];
      Chosen(messages[..|messages| - 1], p) + if p(messages[|messages| - 1]) then [messages[|messages| - 1]] else []
  }

  /** Client answers are handed back, node messages are passed on or dropped, both in order. */
  method DeliverMessages(network: NetworkSimulator, nodes: set<string>, messages: seq<Message>)
    returns (clientResponses: seq<Message>, delivered: seq<Message>)
    ensures var f := network.Now();
      && clientResponses == Chosen(messages, ForClient)
      && delivered == Chosen(messages, m => GetsThrough(f, nodes, m))
    ensures forall m :: m in clientResponses <==>
      m in messages && m.dest != [] && (m.dest[0] == 'c' || m.dest == "harness")
    ensures forall m :: m in delivered ==> m.dest in nodes && m.dest != [] && m.dest[0] == 'n'
  {
    clientResponses, delivered := [], [];
    ghost var f := network.Now();
    ghost var through := m => GetsThrough(f, nodes, m);
    for n := 0 to |messages|
      invariant clientResponses == Chosen(messages[..n], ForClient)
      invariant delivered == Chosen(messages[..n], through)
    {
      var m := messages[n];
      assert messages[..n + 1][..n] == messages[..n];
      if (m.dest != [] && m.dest[0] == 'c') || m.dest == "harness" {
        clientResponses := clientResponses + [m];
      } else if m.dest != [] && m.dest[0] == 'n' {
        if !network.IsPartitioned(m.src, m.dest) && !network.IsKilled(m.dest) {
          if m.dest in nodes {
            delivered := delivered + [m];
          }
        }
      }
    }
    assert messages[..|messages|] == messages;
  }

  ghost predicate NodeNames(ids: seq<string>) {
    forall x :: x in ids ==> x != [] && x[0] == 'n'
  }

  lemma {:induction false} ChosenConcat(a: seq<Message>, b: seq<Message>, p: Message -> bool)
    ensures Chosen(a + b, p) == Chosen(a, p) + Chosen(b, p)
  {
    if b == [] {
      assert a + b == a && Chosen(a, p) + [] == Chosen(a, p);
    } else {
      var front, m := b[..|b| - 1], b[|b| - 1];
      ChosenConcat(a, front, p);
      assert (a + b)[..|a + b| - 1] == a + front;
      assert Chosen(a + b, p) == Chosen(a + front, p) + if p(m) then [m] else [];
    }
  }

  lemma ChosenOne(m: Message, p: Message -> bool)
    ensures Chosen([m], p) == if p(m) then [m] else []
  {
    assert [m][..0] == [];
  }

  /** Choosing keeps order and repetitions: each message is chosen or dropped where it stands. */
  lemma ChosenInOrder(a: seq<Message>, m: Message, b: seq<Message>, p: Message -> bool)
    ensures Chosen(a + [m] + b, p) == Chosen(a, p) + (if p(m) then [m] else []) + Chosen(b, p)
  {
    ChosenConcat(a + [m], b, p);
    ChosenConcat(a, [m], p);
    ChosenOne(m, p);
  }

  /** Which of the messages between two nodes a single fault lets through. */
  lemma FaultStops(ids: seq<string>, choice: Choice, i: nat, j: nat, body: Value)
    requires Distinct(ids) && NodeNames(ids) && i < |ids| && j < |ids| && i != j
    requires choice.IsolateOne? || choice.KillOne? ==> choice.target < |ids|
    ensures GetsThrough(Inject(HEALTHY, ids, choice), Members(ids), Message(ids[i], ids[j], body)) <==>
            match choice {
              case IsolateOne(t) => i != t && j != t
              case SplitInTwo => i < |ids| / 2 <==> j < |ids| / 2
              case KillOne(t) => j != t
              case Nothing => true
            }
  {
    assert ids[i] in ids && ids[j] in ids;
    match choice
    case IsolateOne(t) => BlockedExactly({ids[t]}, Others(ids, ids[t]), ids[i], ids[j]);
    case SplitInTwo =>
      SideOf(ids, i);
      SideOf(ids, j);
      BlockedExactly(Members(ids[..|ids| / 2]), Members(ids[|ids| / 2..]), ids[i], ids[j]);
    case KillOne(t) =>
    case Nothing =>
  }

  lemma SideOf(ids: seq<string>, i: nat)
    requires Distinct(ids) && i < |ids|
    ensures ids[i] in ids[..|ids| / 2] <==> i < |ids| / 2
    ensures ids[i] in ids[|ids| / 2..] <==> i >= |ids| / 2
  {
    var mid := |ids| / 2;
    if i < mid {
      assert ids[i] == ids[..mid][i];
    } else {
      assert ids[i] == ids[mid..][i - mid];
    }
  }

  /** Each kind of nemesis does reach the faults it is for, on every node. */
  lemma EveryFaultHappens(kind: Kind, ids: seq<string>, t: nat)
    requires t < |ids|
    ensures kind.PartitionFaults? || kind.AllFaults? ==>
      && AllPossible(kind, ids, [IsolateOne(t)])
      && After(kind, ids, [IsolateOne(t)]) == Run(Isolate(HEALTHY, ids[t], ids), true)
    ensures kind.PartitionFaults? ==>
      AllPossible(kind, ids, [SplitInTwo]) && After(kind, ids, [SplitInTwo]) == Run(Split(HEALTHY, ids), true)
    ensures kind.KillFaults? || kind.AllFaults? ==>
      && AllPossible(kind, ids, [KillOne(t)])
      && After(kind, ids, [KillOne(t)]) == Run(KillNode(HEALTHY, ids[t]), true)
  {
    assert [IsolateOne(t)][..0] == [] && [SplitInTwo][..0] == [] && [KillOne(t)][..0] == [];
  }

  /** In every reachable state: everything gets through when the nemesis rests, else the last fault decides. */
  lemma DeliveryInRun(kind: Kind, ids: seq<string>, choices: seq<Choice>, i: nat, j: nat, body: Value)
    requires Distinct(ids) && NodeNames(ids) && AllPossible(kind, ids, choices)
    requires i < |ids| && j < |ids| && i != j
    ensures var r := After(kind, ids, choices);
      var through := GetsThrough(r.faults, Members(ids), Message(ids[i], ids[j], body));
      if !r.active then through
      else choices != [] && (through <==>
        match choices[|choices| - 1] {
          case IsolateOne(t) => i != t && j != t
          case SplitInTwo => i < |ids| / 2 <==> j < |ids| / 2
          case KillOne(t) => j != t
          case Nothing => true
        })
  {
    OneFaultAtMost(kind, ids, choices);
    if After(kind, ids, choices).active {
      FaultStops(ids, choices[|choices| - 1], i, j, body);
    } else {
      FaultStops(ids, Nothing, i, j, body);
    }
  }

  /** In every reachable state some majority hears every message its members send each other. */
  lemma MajorityCommunicates(kind: Kind, ids: seq<string>, choices: seq<Choice>) returns (q: set<string>)
    requires Distinct(ids) && NodeNames(ids) && EnoughNodes(kind, |ids|) && AllPossible(kind, ids, choices)
    ensures q <= Members(ids) && 2 * |q| > |ids|
    ensures forall m: Message :: m.src in q && m.dest in q ==>
      GetsThrough(After(kind, ids, choices).faults, Members(ids), m)
  {
    AlwaysSafe(kind, ids, choices);
    q :| WorkingMajority(ids, After(kind, ids, choices).faults, q);
    forall x | x in q ensures x in ids && x != [] && x[0] == 'n' {
      assert x in Members(ids);
    }
  }
}
