/** Kahn's algorithm over the dependencies of a set of units. */
module Linearize {
  import opened Wrappers
  import opened BerInteger

  /** DependencyType: the valid types are 1 and 2. */
  datatype DependencyType = Invalid | Style | Script

  datatype Dependency = Dependency(kind: DependencyType, name: seq<byte>)

  type Graph = map<Dependency, seq<Dependency>>

  function Requirements(graph: Graph, dep: Dependency): seq<Dependency> {
    if dep in graph then graph[dep] else []
  }

  /** `dep` requires `req`, and both are among the units. */
  predicate Edge(units: set<Dependency>, graph: Graph, dep: Dependency, req: Dependency) {
    dep in units && req in units && req in Requirements(graph, dep)
  }

  ghost predicate Path(units: set<Dependency>, graph: Graph, p: seq<Dependency>) {
    p != [] && forall i | 0 <= i < |p| - 1 :: Edge(units, graph, p[i], p[i + 1])
  }

  ghost predicate Cycle(units: set<Dependency>, graph: Graph, p: seq<Dependency>) {
    Path(units, graph, p) && |p| >= 2 && p[0] == p[|p| - 1]
  }

  ghost predicate Cyclic(units: set<Dependency>, graph: Graph) {
    exists p :: Cycle(units, graph, p)
  }

  ghost predicate Distinct(s: seq<Dependency>) {
    forall i, j | 0 <= i < j < |s| :: s[i] != s[j]
  }

  /** Every requirement comes before what requires it. */
  ghost predicate Ordered(units: set<Dependency>, graph: Graph, s: seq<Dependency>) {
    forall i, req | 0 <= i < |s| && Edge(units, graph, s[i], req) :: req in s[..i]
  }

  /** The units, each once, every requirement before what requires it. */
  ghost predicate IsLinearization(units: set<Dependency>, graph: Graph, s: seq<Dependency>) {
    Distinct(s) && (forall x :: x in s <==> x in units) && |s| == |units| && Ordered(units, graph, s)
  }

  /** How many of the listed requirements are units that are not done; a repeated one counts each time. */
  function Pending(reqs: seq<Dependency>, units: set<Dependency>, done: set<Dependency>): nat {
    if reqs == [] then 0
    else (if reqs[0] in units && reqs[0] !in done then 1 else 0) + Pending(reqs[1..], units, done)
  }

  function Dependents(dependents: map<Dependency, seq<Dependency>>, req: Dependency): seq<Dependency> {
    if req in dependents then dependents[req] else []
  }

  /******* Counting *******/

  lemma {:induction false} PendingNext(reqs: seq<Dependency>, units: set<Dependency>, req: Dependency)
    ensures Pending(reqs + [req], units, {}) == Pending(reqs, units, {}) + if req in units then 1 else 0
  {
    if reqs == [] {
      assert reqs + [req] == [req];
      assert Pending([req], units, {}) == (if req in units then 1 else 0) + Pending([req][1..], units, {});
    } else {
      PendingNext(reqs[1..], units, req);
      assert (reqs + [req])[1..] == reqs[1..] + [req];
    }
  }

  /** Finishing a unit removes as many pending requirements as it is listed times. */
  lemma {:induction false} PendingDone(reqs: seq<Dependency>, units: set<Dependency>, done: set<Dependency>,
      node: Dependency)
    requires node in units && node !in done
    ensures Pending(reqs, units, done) == Pending(reqs, units, done + {node}) + multiset(reqs)[node]
  {
    if reqs != [] {
      PendingDone(reqs[1..], units, done, node);
      assert reqs == [reqs[0]] + reqs[1..];
      assert multiset(reqs) == multiset{reqs[0]} + multiset(reqs[1..]);
    }
  }

  lemma {:induction false} PendingZero(reqs: seq<Dependency>, units: set<Dependency>, done: set<Dependency>)
    ensures Pending(reqs, units, done) == 0 <==> forall r | r in reqs && r in units :: r in done
  {
    if reqs != [] {
      PendingZero(reqs[1..], units, done);
      assert forall r :: r in reqs <==> r == reqs[0] || r in reqs[1..];
    }
  }

  lemma {:induction false} DistinctSize(s: seq<Dependency>, units: set<Dependency>)
    requires Distinct(s) && forall x | x in s :: x in units
    ensures |s| <= |units|
    ensures |s| == |units| ==> forall x | x in units :: x in s
  {
    if s == [] {
    } else {
      var last := s[|s| - 1];
      var init := s[..|s| - 1];
      assert last !in init;
      assert forall x :: x in s <==> x == last || x in init;
      DistinctSize(init, units - {last});
    }
  }

  /******* Cycles *******/

  /** An order with every requirement first leaves no room for a cycle. */
  lemma OrderExcludesCycles(units: set<Dependency>, graph: Graph, s: seq<Dependency>)
    requires IsLinearization(units, graph, s)
    ensures !Cyclic(units, graph)
  {
    forall p | Cycle(units, graph, p)
      ensures false
    {
      assert Edge(units, graph, p[0], p[1]);
      var k :| 0 <= k < |s| && s[k] == p[0];
      PathDescends(units, graph, s, p, |p| - 1, k);
    }
  }

  /** Along a path, positions in the order strictly decrease. */
  lemma {:induction false} PathDescends(units: set<Dependency>, graph: Graph, s: seq<Dependency>, p: seq<Dependency>,
      i: nat, k: nat)
    requires IsLinearization(units, graph, s) && Path(units, graph, p)
    requires 1 <= i < |p| && k < |s| && s[k] == p[0]
    ensures p[i] in s[..k] && p[i] != p[0]
  {
    if i == 1 {
      assert Edge(units, graph, p[0], p[1]);
    } else {
      PathDescends(units, graph, s, p, i - 1, k);
      var j :| 0 <= j < k && s[j] == p[i - 1];
      assert Edge(units, graph, s[j], p[i]);
      assert p[i] in s[..j];
    }
  }

  /** `d` waits for one of the stuck units. */
  ghost predicate Waits(units: set<Dependency>, graph: Graph, stuck: set<Dependency>, d: Dependency) {
    exists r :: r in stuck && Edge(units, graph, d, r)
  }

  /** Units that all wait for one another contain a cycle. */
  lemma StuckUnitsCycle(units: set<Dependency>, graph: Graph, stuck: set<Dependency>)
    requires stuck != {} && forall d | d in stuck :: Waits(units, graph, stuck, d)
    ensures Cyclic(units, graph)
  {
    hide Waits, Edge;
    var p := Walk(units, graph, stuck, |stuck|);
    var i, j := Repeats(p, stuck);
    var c := p[i..j + 1];
    forall k | 0 <= k < |c| - 1
      ensures Edge(units, graph, c[k], c[k + 1])
    {
      assert c[k] == p[i + k] && c[k + 1] == p[i + k + 1];
    }
    assert Cycle(units, graph, c);
  }

  lemma Awaited(units: set<Dependency>, graph: Graph, stuck: set<Dependency>, d: Dependency) returns (r: Dependency)
    requires Waits(units, graph, stuck, d)
    ensures r in stuck && Edge(units, graph, d, r)
  {
    r :| r in stuck && Edge(units, graph, d, r);
  }

  lemma {:induction false} Walk(units: set<Dependency>, graph: Graph, stuck: set<Dependency>, n: nat)
    returns (p: seq<Dependency>)
    requires stuck != {} && forall d | d in stuck :: Waits(units, graph, stuck, d)
    ensures |p| == n + 1 && Path(units, graph, p) && forall x | x in p :: x in stuck
  {
    hide Waits, Edge;
    if n == 0 {
      var d :| d in stuck;
      p := [d];
    } else {
      var q := Walk(units, graph, stuck, n - 1);
      assert q[n - 1] in stuck;
      var r := Awaited(units, graph, stuck, q[n - 1]);
      p := q + [r];
    }
  }

  /** The pigeonhole principle. */
  lemma Repeats(p: seq<Dependency>, s: set<Dependency>) returns (i: nat, j: nat)
    requires |p| > |s| && forall x | x in p :: x in s
    ensures i < j < |p| && p[i] == p[j]
  {
    if Distinct(p) {
      DistinctSize(p, s);
    }
    i, j :| 0 <= i < j < |p| && p[i] == p[j];
  }

  /******* The algorithm *******/

  /** What the first loop computes: in-degrees and reverse edges of the units seen so far. */
  ghost predicate Counted(units: set<Dependency>, graph: Graph, seen: set<Dependency>,
                                   inDegree: map<Dependency, nat>, dependents: map<Dependency, seq<Dependency>>) {
    && inDegree.Keys == seen
    && (forall d | d in seen :: inDegree[d] == Pending(Requirements(graph, d), units, {}))
    && forall r, d :: Times(dependents, r, d) == Listed(units, graph, seen, d, r)
  }

  /** How often `d` is to be listed among the dependents of `r`. */
  ghost function Listed(units: set<Dependency>, graph: Graph, seen: set<Dependency>, d: Dependency,
      r: Dependency): nat {
    if d in seen && r in units then multiset(Requirements(graph, d))[r] else 0
  }

  /** The number of times `d` is listed among the dependents of `r`. */
  ghost function Times(dependents: map<Dependency, seq<Dependency>>, r: Dependency, d: Dependency): nat {
    multiset(Dependents(dependents, r))[d]
  }

  /** The requirements of one unit. Those that are not among the units are skipped. */
  method CountUnit(units: set<Dependency>, reqs: seq<Dependency>, dep: Dependency,
      before: map<Dependency, seq<Dependency>>)
    returns (degree: nat, dependents: map<Dependency, seq<Dependency>>)
    ensures degree == Pending(reqs, units, {})
    ensures forall r, d :: Times(dependents, r, d)
                           == Times(before, r, d) + if d == dep && r in units then multiset(reqs)[r] else 0
  {
    hide Times, Dependents;
    degree, dependents := 0, before;
    for i := 0 to |reqs|
      invariant degree == Pending(reqs[..i], units, {})
      invariant forall r, d :: Times(dependents, r, d)
                               == Times(before, r, d) + if d == dep && r in units then multiset(reqs[..i])[r] else 0
    {
      var req := reqs[i];
      assert reqs[..i + 1] == reqs[..i] + [req];
      PendingNext(reqs[..i], units, req);
      if req in units {
        ghost var was := dependents;
        dependents := dependents[req := Dependents(dependents, req) + [dep]];
        forall r, d
          ensures Times(dependents, r, d) == Times(was, r, d) + if r == req && d == dep then 1 else 0
        {
          AddTimes(was, req, dep, r, d);
        }
        degree := degree + 1;
      }
    }
    assert reqs[..|reqs|] == reqs;
  }

  lemma AddTimes(dependents: map<Dependency, seq<Dependency>>, req: Dependency, dep: Dependency, r: Dependency,
      d: Dependency)
    ensures Times(dependents[req := Dependents(dependents, req) + [dep]], r, d)
         == Times(dependents, r, d) + if r == req && d == dep then 1 else 0
  {
  }

  lemma CountStep(units: set<Dependency>, graph: Graph, seen: set<Dependency>, inDegree: map<Dependency, nat>,
                  before: map<Dependency, seq<Dependency>>, dep: Dependency, degree: nat,
                  dependents: map<Dependency, seq<Dependency>>)
    requires Counted(units, graph, seen, inDegree, before) && dep !in seen
    requires degree == Pending(Requirements(graph, dep), units, {})
    requires forall r, d :: Times(dependents, r, d) == Times(before, r, d)
                            + if d == dep && r in units then multiset(Requirements(graph, dep))[r] else 0
    ensures Counted(units, graph, seen + {dep}, inDegree[dep := degree], dependents)
  {
    hide Times, Pending, Requirements;
    forall r, d
      ensures Times(dependents, r, d) == Listed(units, graph, seen + {dep}, d, r)
    {
      assert Times(before, r, d) == Listed(units, graph, seen, d, r);
    }
  }

  /** The units may come in any order. */
  method Count(units: set<Dependency>, graph: Graph)
    returns (inDegree: map<Dependency, nat>, dependents: map<Dependency, seq<Dependency>>)
    ensures Counted(units, graph, units, inDegree, dependents)
  {
    inDegree, dependents := map[], map[];
    var todo := units;
    assert units - todo == {};
    assert Counted(units, graph, {}, inDegree, dependents);
    hide Pending, Counted, Times;
    while todo != {}
      invariant todo <= units && Counted(units, graph, units - todo, inDegree, dependents)
      decreases todo
    {
      var dep :| dep in todo;
      var degree, more := CountUnit(units, Requirements(graph, dep), dep, dependents);
      CountStep(units, graph, units - todo, inDegree, dependents, dep, degree, more);
      assert units - todo + {dep} == units - (todo - {dep});
      todo, dependents := todo - {dep}, more;
      inDegree := inDegree[dep := degree];
    }
    assert units - todo == units;
  }

  ghost predicate Queued(units: set<Dependency>, s: seq<Dependency>) {
    Distinct(s) && forall x | x in s :: x in units
  }

  /** `left` is the dependents of the last unit taken still to visit. */
  ghost predicate Degrees(units: set<Dependency>, graph: Graph, inDegree: map<Dependency, nat>,
                          done: set<Dependency>, left: seq<Dependency>) {
    && inDegree.Keys == units
    && (forall d | d in units :: inDegree[d] == Pending(Requirements(graph, d), units, done) + multiset(left)[d])
    && forall d | d in left :: d in units
  }

  ghost predicate ReadyIffZero(units: set<Dependency>, inDegree: map<Dependency, nat>, s: seq<Dependency>) {
    forall d | d in units && d in inDegree :: d in s <==> inDegree[d] == 0
  }

  /** What holds while units are taken from the queue. */
  ghost predicate Working(units: set<Dependency>, graph: Graph, inDegree: map<Dependency, nat>, done: seq<Dependency>,
                          queue: seq<Dependency>, left: seq<Dependency>) {
    && Queued(units, done + queue)
    && Ordered(units, graph, done)
    && Degrees(units, graph, inDegree, Elements(done), left)
    && ReadyIffZero(units, inDegree, done + queue)
  }

  /** A unit whose last pending requirement is done becomes ready. */
  method Visit(units: set<Dependency>, ghost graph: Graph, degrees: map<Dependency, nat>, ghost done: seq<Dependency>,
               ready: seq<Dependency>, dependents: seq<Dependency>)
    returns (inDegree: map<Dependency, nat>, queue: seq<Dependency>)
    requires Working(units, graph, degrees, done, ready, dependents)
    ensures Working(units, graph, inDegree, done, queue, [])
  {
    hide Working;
    inDegree, queue := degrees, ready;
    assert dependents[0..] == dependents;
    for k := 0 to |dependents|
      invariant Working(units, graph, inDegree, done, queue, dependents[k..])
    {
      var dependent := dependents[k];
      assert dependents[k..] == [dependent] + dependents[k + 1..];
      VisitStep(units, graph, inDegree, done, queue, dependent, dependents[k + 1..]);
      inDegree := inDegree[dependent := inDegree[dependent] - 1];
      if inDegree[dependent] == 0 {
        queue := queue + [dependent];
      }
    }
    assert dependents[|dependents|..] == [];
  }

  lemma VisitStep(units: set<Dependency>, graph: Graph, inDegree: map<Dependency, nat>, done: seq<Dependency>,
                  queue: seq<Dependency>, dependent: Dependency, left: seq<Dependency>)
    requires Working(units, graph, inDegree, done, queue, [dependent] + left)
    ensures dependent in inDegree && inDegree[dependent] > 0
    ensures Working(units, graph, inDegree[dependent := inDegree[dependent] - 1], done,
                    if inDegree[dependent] == 1 then queue + [dependent] else queue, left)
  {
    DegreesStep(units, graph, inDegree, Elements(done), dependent, left);
    hide Degrees, Ordered, Elements;
    assert dependent !in done + queue;
    assert done + (queue + [dependent]) == (done + queue) + [dependent];
  }

  lemma DegreesStep(units: set<Dependency>, graph: Graph, inDegree: map<Dependency, nat>, done: set<Dependency>,
                    dependent: Dependency, left: seq<Dependency>)
    requires Degrees(units, graph, inDegree, done, [dependent] + left)
    ensures dependent in inDegree && dependent in units && inDegree[dependent] > 0
    ensures Degrees(units, graph, inDegree[dependent := inDegree[dependent] - 1], done, left)
  {
    hide Pending, Requirements;
    var all := [dependent] + left;
    assert all[0] == dependent;
    assert multiset(all) == multiset{dependent} + multiset(left);
    assert forall d | d in left :: d in all;
  }

  lemma Start(units: set<Dependency>, graph: Graph, inDegree: map<Dependency, nat>,
      dependents: map<Dependency, seq<Dependency>>, queue: seq<Dependency>)
    requires Counted(units, graph, units, inDegree, dependents)
    requires Distinct(queue) && forall d :: d in queue <==> d in units && inDegree[d] == 0
    ensures Working(units, graph, inDegree, [], queue, [])
  {
    assert [] + queue == queue;
    var none: seq<Dependency> := [];
    assert Elements(none) == {};
  }

  /** The first unit in the queue has all its requirements done; its dependents now wait for one unit less. */
  lemma Take(units: set<Dependency>, graph: Graph, inDegree: map<Dependency, nat>, done: seq<Dependency>,
      queue: seq<Dependency>, dependents: seq<Dependency>)
    requires Working(units, graph, inDegree, done, queue, []) && queue != []
    requires forall d :: multiset(dependents)[d] == Listed(units, graph, units, d, queue[0])
    ensures Working(units, graph, inDegree, done + [queue[0]], queue[1..], dependents)
  {
    var node, done' := queue[0], done + [queue[0]];
    assert done' + queue[1..] == done + queue;
    assert node !in done && node in units && inDegree[node] == 0 by {
      assert forall i | 0 <= i < |done| :: (done + queue)[i] == done[i];
      assert (done + queue)[|done|] == node;
    }
    assert Elements(done') == Elements(done) + {node};
    TakeDegrees(units, graph, inDegree, Elements(done), node, dependents);
    ExtendOrder(units, graph, done, node);
  }

  lemma TakeDegrees(units: set<Dependency>, graph: Graph, inDegree: map<Dependency, nat>, done: set<Dependency>,
                    node: Dependency, dependents: seq<Dependency>)
    requires Degrees(units, graph, inDegree, done, []) && node in units && node !in done && inDegree[node] == 0
    requires forall d :: multiset(dependents)[d] == Listed(units, graph, units, d, node)
    ensures Degrees(units, graph, inDegree, done + {node}, dependents)
    ensures Pending(Requirements(graph, node), units, done) == 0
  {
    var none: seq<Dependency> := [];
    forall d | d in units
      ensures inDegree[d] == Pending(Requirements(graph, d), units, done + {node}) + multiset(dependents)[d]
    {
      PendingDone(Requirements(graph, d), units, done, node);
      assert inDegree[d] == Pending(Requirements(graph, d), units, done) + multiset(none)[d];
    }
    forall d | d in dependents
      ensures d in units
    {
      assert multiset(dependents)[d] > 0;
    }
    assert inDegree[node] == Pending(Requirements(graph, node), units, done) + multiset(none)[node];
  }

  lemma ExtendOrder(units: set<Dependency>, graph: Graph, done: seq<Dependency>, node: Dependency)
    requires Ordered(units, graph, done) && Pending(Requirements(graph, node), units, Elements(done)) == 0
    ensures Ordered(units, graph, done + [node])
  {
    PendingZero(Requirements(graph, node), units, Elements(done));
    var done' := done + [node];
    forall i, req | 0 <= i < |done'| && Edge(units, graph, done'[i], req)
      ensures req in done'[..i]
    {
      if i < |done| {
        assert done'[i] == done[i] && done'[..i] == done[..i];
      } else {
        assert done'[..i] == done;
      }
    }
  }

  /** Units left when the queue runs dry all wait for one another. */
  lemma Stuck(units: set<Dependency>, graph: Graph, inDegree: map<Dependency, nat>, done: seq<Dependency>)
    requires Working(units, graph, inDegree, done, [], []) && |done| != |units|
    ensures Cyclic(units, graph)
  {
    assert done + [] == done;
    ElementsSize(done);
    var stuck := units - Elements(done);
    SomeLeft(units, Elements(done));
    forall d | d in stuck
      ensures Waits(units, graph, stuck, d)
    {
      var none: seq<Dependency> := [];
      assert inDegree[d] == Pending(Requirements(graph, d), units, Elements(done)) + multiset(none)[d];
      NotDone(units, graph, Elements(done), d);
    }
    hide Waits, Working;
    StuckUnitsCycle(units, graph, stuck);
  }

  lemma SomeLeft(units: set<Dependency>, done: set<Dependency>)
    requires done <= units && |done| != |units|
    ensures units - done != {}
  {
    assert units <= done ==> units == done;
    var x :| x in units && x !in done;
    assert x in units - done;
  }

  lemma NotDone(units: set<Dependency>, graph: Graph, done: set<Dependency>, d: Dependency)
    requires d in units && Pending(Requirements(graph, d), units, done) > 0
    ensures Waits(units, graph, units - done, d)
  {
    PendingZero(Requirements(graph, d), units, done);
    var r :| r in Requirements(graph, d) && r in units && r !in done;
    assert r in units - done && Edge(units, graph, d, r);
  }

  lemma {:induction false} ElementsSize(s: seq<Dependency>)
    requires Distinct(s)
    ensures |Elements(s)| == |s|
  {
    if s != [] {
      var last, init := s[|s| - 1], s[..|s| - 1];
      ElementsSize(init);
      assert Elements(s) == Elements(init) + {last};
    }
  }

  /** `linearize`: refuses exactly the cyclic graphs. */
  method Linearize(units: set<Dependency>, graph: Graph) returns (r: Option<seq<Dependency>>)
    ensures r.Some? <==> !Cyclic(units, graph)
    ensures r.Some? ==> IsLinearization(units, graph, r.value)
  {
    hide Cyclic, Counted, Working, Ordered;
    var inDegree, dependents := Count(units, graph);
    CountedDependents(units, graph, inDegree, dependents);
    var queue := Ready(units, inDegree);
    var result := [];
    Start(units, graph, inDegree, dependents, queue);
    while queue != []
      invariant Working(units, graph, inDegree, result, queue, [])
      decreases |units| - |result|
    {
      WorkingSize(units, graph, inDegree, result, queue, []);
      var node := queue[0];
      Take(units, graph, inDegree, result, queue, Dependents(dependents, node));
      queue := queue[1..];
      result := result + [node];
      inDegree, queue := Visit(units, graph, inDegree, result, queue, Dependents(dependents, node));
    }
    WorkingSize(units, graph, inDegree, result, [], []);
    if |result| != |inDegree| {
      Stuck(units, graph, inDegree, result);
      return None;
    }
    Finished(units, graph, inDegree, result);
    OrderExcludesCycles(units, graph, result);
    return Some(result);
  }

  lemma CountedDependents(units: set<Dependency>, graph: Graph, inDegree: map<Dependency, nat>,
      dependents: map<Dependency, seq<Dependency>>)
    requires Counted(units, graph, units, inDegree, dependents)
    ensures inDegree.Keys == units
    ensures forall r, d :: multiset(Dependents(dependents, r))[d] == Listed(units, graph, units, d, r)
  {
    forall r, d
      ensures multiset(Dependents(dependents, r))[d] == Listed(units, graph, units, d, r)
    {
      assert Times(dependents, r, d) == Listed(units, graph, units, d, r);
    }
  }

  lemma WorkingSize(units: set<Dependency>, graph: Graph, inDegree: map<Dependency, nat>, done: seq<Dependency>,
      queue: seq<Dependency>, left: seq<Dependency>)
    requires Working(units, graph, inDegree, done, queue, left)
    ensures |done| + |queue| <= |units| == |inDegree|
  {
    DistinctSize(done + queue, units);
    assert |inDegree| == |inDegree.Keys|;
  }

  lemma Finished(units: set<Dependency>, graph: Graph, inDegree: map<Dependency, nat>, done: seq<Dependency>)
    requires Working(units, graph, inDegree, done, [], []) && |done| == |units|
    ensures IsLinearization(units, graph, done)
  {
    assert done + [] == done;
    DistinctSize(done, units);
  }

  method Ready(units: set<Dependency>, inDegree: map<Dependency, nat>) returns (queue: seq<Dependency>)
    requires inDegree.Keys == units
    ensures Distinct(queue) && forall d :: d in queue <==> d in units && inDegree[d] == 0
  {
    queue := [];
    var todo := units;
    while todo != {}
      invariant todo <= units && Distinct(queue)
      invariant forall d :: d in queue <==> d in units - todo && inDegree[d] == 0
      decreases todo
    {
      var d :| d in todo;
      todo := todo - {d};
      if inDegree[d] == 0 {
        queue := queue + [d];
      }
    }
  }
}
