/** Keeping the routes over the wireguard device equal to what the cluster asks for. */
module RouteReconciliation {
  import opened Wrappers

  type Addr = nat

  const UNSPECIFIED: Addr := 0
  const NODE_PREFIX: nat := 32

  datatype Prefix = Prefix(addr: Addr, bits: nat)
  datatype Route = Route(via: Addr, target: Prefix) {
    predicate IsDirect() {
      via == UNSPECIFIED
    }
  }

  datatype Node = Node(isLocal: bool, internal: Option<Addr>, cidrs: seq<Prefix>)

  function DirectRoute(target: Prefix): Route {
    Route(UNSPECIFIED, target)
  }

  /** The point-to-point route to an address. */
  function RouteTo(addr: Addr): Route {
    DirectRoute(Prefix(addr, NODE_PREFIX))
  }

  /** The routes one node asks for. */
  function RoutesOf(node: Node): set<Route> {
    if node.isLocal || node.internal.None? then {}
    else {RouteTo(node.internal.value)} + set i | 0 <= i < |node.cidrs| :: Route(node.internal.value, node.cidrs[i])
  }

  function Desired(cluster: seq<Node>): set<Route> {
    if cluster == [] then {} else Desired(cluster[..|cluster| - 1]) + RoutesOf(cluster[|cluster| - 1])
  }

  /**
   * What the cluster asks for, node by node: of every node but the local one that has an internal address, the
   * route over the device to that address alone, and by way of it the routes to the node's networks.
   */
  ghost predicate AsksFor(cluster: seq<Node>, r: Route) {
    exists node ::
      && node in cluster && !node.isLocal && node.internal.Some?
      && (r == Route(0, Prefix(node.internal.value, 32)) || (r.via == node.internal.value && r.target in node.cidrs))
  }

  lemma RoutesOfNode(node: Node, r: Route)
    ensures r in RoutesOf(node) <==> AsksFor([node], r)
  {
    assert node in [node];
    if r.target in node.cidrs {
      var i :| 0 <= i < |node.cidrs| && node.cidrs[i] == r.target;
    }
  }

  /** Nothing else is wanted, and nothing less. */
  lemma {:induction false} DesiredExactly(cluster: seq<Node>, r: Route)
    ensures r in Desired(cluster) <==> AsksFor(cluster, r)
  {
    if cluster != [] {
      var n := |cluster| - 1;
      DesiredExactly(cluster[..n], r);
      RoutesOfNode(cluster[n], r);
      hide RoutesOf;
      assert forall node :: node in cluster <==> node in cluster[..n] || node in [cluster[n]];
    }
  }

  /** Every gateway can be reached: its own direct route is there. */
  predicate Closed(routes: set<Route>) {
    forall r | r in routes && !r.IsDirect() :: RouteTo(r.via) in routes
  }

  lemma {:induction false} DesiredClosed(cluster: seq<Node>)
    ensures Closed(Desired(cluster))
  {
    if cluster != [] { DesiredClosed(cluster[..|cluster| - 1]); }
  }

  /** No route to be removed goes by a gateway whose own direct route is to be removed too. */
  predicate Untied(before: set<Route>, desired: set<Route>) {
    forall r | r in before - desired && !r.IsDirect() :: RouteTo(r.via) !in before - desired
  }

  /** The order of adding: never a gateway route before a direct one. */
  predicate Ordered(rs: seq<Route>) {
    forall i, j | 0 <= i < j < |rs| && rs[j].IsDirect() :: rs[i].IsDirect()
  }

  /** `SortFunc` by `orderRoute`: a permutation with the direct routes first, in any order among equals. */
  method SortRoutes(rs: seq<Route>) returns (sorted: seq<Route>)
    ensures Ordered(sorted) && multiset(sorted) == multiset(rs)
  {
    var direct: seq<Route>, others: seq<Route> := [], [];
    for i := 0 to |rs|
      invariant (forall j | 0 <= j < |direct| :: direct[j].IsDirect())
      invariant (forall j | 0 <= j < |others| :: !others[j].IsDirect())
      invariant multiset(direct + others) == multiset(rs[..i])
    {
      assert rs[..i + 1] == rs[..i] + [rs[i]];
      if rs[i].IsDirect() { direct := [rs[i]] + direct; } else { others := [rs[i]] + others; }
    }
    assert rs[..|rs|] == rs;
    sorted := direct + others;
  }

  class Router {
    var routes: set<Route>
    /** The routes after every change. */
    ghost var trace: seq<set<Route>>

    /** The last change is the one that left the routes as they are. */
    ghost predicate Current()
      reads this
    {
      trace != [] && trace[|trace| - 1] == routes
    }

    constructor ()
      ensures routes == {} && trace == [{}]
    {
      routes, trace := {}, [{}];
    }

    /** `addRoute`, whose call into the kernel may fail. */
    method AddRoute(r: Route) returns (ok: bool)
      modifies this
      ensures routes == if ok then old(routes) + {r} else old(routes)
      ensures trace == if ok then old(trace) + [routes] else old(trace)
      ensures old(Current()) ==> Current()
    {
      ok := *;
      if ok {
        routes := routes + {r};
        trace := trace + [routes];
      }
    }

    method DelRoute(r: Route) returns (ok: bool)
      modifies this
      ensures routes == if ok then old(routes) - {r} else old(routes)
      ensures trace == if ok then old(trace) + [routes] else old(trace)
      ensures old(Current()) ==> Current()
    {
      ok := *;
      if ok {
        routes := routes - {r};
        trace := trace + [routes];
      }
    }

    /** The routes the cluster asks for, collected in a map. */
    method Derive(cluster: seq<Node>) returns (desired: set<Route>)
      ensures desired == Desired(cluster) && forall r :: r in desired <==> AsksFor(cluster, r)
    {
      hide AsksFor;
      forall r { DesiredExactly(cluster, r); }
      desired := {};
      for i := 0 to |cluster|
        invariant desired == Desired(cluster[..i])
      {
        assert cluster[..i + 1][..i] == cluster[..i];
        var node := cluster[i];
        if !node.isLocal && node.internal.Some? {
          ghost var before := desired;
          desired := desired + {RouteTo(node.internal.value)};
          for c := 0 to |node.cidrs|
            invariant desired == before + {RouteTo(node.internal.value)}
                                 + set j | 0 <= j < c :: Route(node.internal.value, node.cidrs[j])
          {
            desired := desired + {Route(node.internal.value, node.cidrs[c])};
          }
        }
      }
      assert cluster[..|cluster|] == cluster;
    }

    method Missing(desired: set<Route>) returns (toadd: seq<Route>)
      ensures Elements(toadd) == desired - routes
    {
      toadd := [];
      var left := desired;
      while left != {}
        invariant left <= desired && Elements(toadd) == desired - routes - left
        decreases |left|
      {
        var r :| r in left;
        assert Elements(toadd + [r]) == Elements(toadd) + {r};
        if r !in routes { toadd := toadd + [r]; }
        left := left - {r};
      }
    }

    /** The first loop: adds the missing routes in order. */
    method AddAll(ghost desired: set<Route>, sorted: seq<Route>) returns (ok: bool)
      requires Closed(routes) && Closed(desired) && Ordered(sorted) && Elements(sorted) == desired - routes
      modifies this
      ensures routes <= old(routes) + desired && (ok ==> routes == old(routes) + desired)
      ensures old(trace) <= trace && (old(Current()) ==> Current())
      ensures forall i | |old(trace)| <= i < |trace| :: Closed(trace[i]) && old(routes) <= trace[i] <= old(routes) + desired
    {
      hide Closed, Ordered;
      for i := 0 to |sorted|
        invariant routes == old(routes) + Elements(sorted[..i]) && Closed(routes) && routes <= old(routes) + desired
        invariant old(trace) <= trace && (old(Current()) ==> Current())
        invariant forall j | |old(trace)| <= j < |trace| ::
                    Closed(trace[j]) && old(routes) <= trace[j] <= old(routes) + desired
      {
        DirectFirst(old(routes), desired, sorted, i);
        ok := AddRoute(sorted[i]);
        if !ok { return false; }
      }
      assert sorted[..|sorted|] == sorted;
      ok := true;
    }

    /** The second loop: removes what is no longer wanted, in whatever order the map gives. */
    method RemoveStale(desired: set<Route>) returns (ok: bool)
      requires desired <= routes
      modifies this
      ensures desired <= routes <= old(routes) && (ok ==> routes == desired)
      ensures old(trace) <= trace && (old(Current()) ==> Current())
      ensures forall i | |old(trace)| <= i < |trace| :: desired <= trace[i] <= old(routes)
      ensures Closed(old(routes)) && Closed(desired) && Untied(old(routes), desired) ==>
                forall i | |old(trace)| <= i < |trace| :: Closed(trace[i])
    {
      hide Closed, Untied;
      var left := routes;
      while left != {}
        invariant desired <= routes <= old(routes) && routes - desired <= left
        invariant old(trace) <= trace && (old(Current()) ==> Current())
        invariant forall j | |old(trace)| <= j < |trace| :: desired <= trace[j] <= old(routes)
        invariant Closed(old(routes)) && Closed(desired) && Untied(old(routes), desired) ==>
                    forall j | |old(trace)| <= j < |trace| :: Closed(trace[j])
        decreases |left|
      {
        var r :| r in left;
        left := left - {r};
        if r in routes && r !in desired {
          ok := DelRoute(r);
          if !ok { return; }
          if Closed(old(routes)) && Closed(desired) && Untied(old(routes), desired) {
            UntiedClosed(old(routes), desired, routes);
          }
        }
      }
      assert routes - desired == {};
      assert routes == desired;
      ok := true;
    }

    /**
     * Brings the routes to what the cluster asks for. A route that was there and stays is never missing
     * in between, and as long as routes are added every gateway route has its gateway's direct route.
     */
    method ConfigureRoutes(cluster: seq<Node>) returns (ok: bool, ghost adding: nat)
      requires Closed(routes)
      modifies this
      ensures ok ==> routes == Desired(cluster) && forall r :: r in routes <==> AsksFor(cluster, r)
      ensures ok ==> Closed(routes)
      ensures old(trace) <= trace && |old(trace)| <= adding <= |trace| && (old(Current()) ==> Current())
      ensures forall i | |old(trace)| <= i < adding ::
                Closed(trace[i]) && old(routes) <= trace[i] <= old(routes) + Desired(cluster)
      ensures forall i | adding <= i < |trace| :: Desired(cluster) <= trace[i] <= old(routes) + Desired(cluster)
      ensures Untied(old(routes), Desired(cluster)) ==> forall i | |old(trace)| <= i < |trace| :: Closed(trace[i])
    {
      hide Closed, Untied, Elements, Ordered, AsksFor;
      var desired := Derive(cluster);
      DesiredClosed(cluster);
      var toadd := Missing(desired);
      var sorted := SortRoutes(toadd);
      SameElements(sorted, toadd);
      ok := AddAll(desired, sorted);
      adding := |trace|;
      if !ok { return; }
      BothClosed(old(routes), desired);
      ok := RemoveStale(desired);
    }

    method CleanupRoutes() returns (ok: bool)
      modifies this
      ensures routes <= old(routes) && (ok ==> routes == {})
      ensures old(trace) <= trace && (old(Current()) ==> Current())
    {
      var left := routes;
      while left != {}
        invariant routes <= left && routes <= old(routes)
        invariant old(trace) <= trace && (old(Current()) ==> Current())
        decreases |left|
      {
        var r :| r in left;
        left := left - {r};
        if r in routes {
          ok := DelRoute(r);
          if !ok { return; }
        }
      }
      ok := true;
    }

    /**
     * `Run`: reconciles at every event of the cluster, up to the first failure, and then cleans up in any
     * case. `after` has the routes after each event that was dealt with.
     */
    method Run(events: seq<seq<Node>>) returns (ok: bool, ghost after: seq<set<Route>>)
      requires routes == {} && Current()
      modifies this
      ensures |after| <= |events| && Current()
      ensures forall i | 0 <= i < |after| :: after[i] in trace && forall r :: r in after[i] <==> AsksFor(events[i], r)
      ensures ok ==> |after| == |events| && routes == {}
    {
      hide AsksFor, Closed;
      NoneClosed();
      var failed := false;
      after := [];
      for i := 0 to |events|
        invariant !failed && |after| == i && Closed(routes) && Current()
        invariant forall j | 0 <= j < i :: after[j] in trace && forall r :: r in after[j] <==> AsksFor(events[j], r)
      {
        ghost var adding;
        ok, adding := ConfigureRoutes(events[i]);
        if !ok {
          failed := true;
          break;
        }
        after := after + [routes];
      }
      var cleaned := CleanupRoutes();
      ok := !failed && cleaned;
    }
  }

  lemma NoneClosed()
    ensures Closed({})
  {
  }

  lemma SameElements(a: seq<Route>, b: seq<Route>)
    requires multiset(a) == multiset(b)
    ensures Elements(a) == Elements(b)
  {
    forall r
      ensures r in a <==> r in b
    {
      assert r in a <==> r in multiset(a);
      assert r in b <==> r in multiset(b);
    }
  }

  /** When a gateway route is next, the direct route of its gateway was there or came before. */
  lemma DirectFirst(before: set<Route>, desired: set<Route>, sorted: seq<Route>, i: nat)
    requires Closed(desired) && Ordered(sorted) && Elements(sorted) == desired - before && i < |sorted|
    requires Closed(before + Elements(sorted[..i]))
    ensures Closed(before + Elements(sorted[..i]) + {sorted[i]})
    ensures before + Elements(sorted[..i]) + {sorted[i]} == before + Elements(sorted[..i + 1])
    ensures sorted[i] in desired && Elements(sorted[..i]) <= desired
  {
    assert sorted[..i + 1] == sorted[..i] + [sorted[i]];
    assert sorted[i] in Elements(sorted);
    forall r | r in sorted[..i]
      ensures r in Elements(sorted)
    {
    }
    if !sorted[i].IsDirect() {
      var gateway := RouteTo(sorted[i].via);
      assert gateway in desired;
      if gateway !in before {
        assert gateway in Elements(sorted);
        var j :| 0 <= j < |sorted| && sorted[j] == gateway;
        assert j < i;
        assert gateway in sorted[..i];
      }
    }
  }

  lemma BothClosed(before: set<Route>, desired: set<Route>)
    requires Closed(before) && Closed(desired)
    ensures Closed(before + desired) && (Untied(before + desired, desired) <==> Untied(before, desired))
  {
    assert (before + desired) - desired == before - desired;
  }

  /** Without such a tie, what is left between the desired and the former routes is closed. */
  lemma UntiedClosed(before: set<Route>, desired: set<Route>, left: set<Route>)
    requires Closed(before) && Closed(desired) && Untied(before, desired) && desired <= left <= before
    ensures Closed(left)
  {
  }

  /** An order in which to remove routes: each once. */
  ghost predicate Listing(order: seq<Route>, routes: set<Route>) {
    Elements(order) == routes && forall i, j | 0 <= i < j < |order| :: order[i] != order[j]
  }

  /** At every step of removing them in this order, every gateway can be reached. */
  ghost predicate StaysClosed(before: set<Route>, order: seq<Route>) {
    forall i | 0 <= i <= |order| :: Closed(before - Elements(order[..i]))
  }

  lemma {:induction false} Listed(routes: set<Route>) returns (order: seq<Route>)
    ensures Listing(order, routes)
    decreases |routes|
  {
    if routes == {} {
      order := [];
    } else {
      var r :| r in routes;
      var rest := Listed(routes - {r});
      order := [r] + rest;
      ListingCons(r, rest, routes);
    }
  }

  lemma ListingCons(r: Route, rest: seq<Route>, routes: set<Route>)
    requires r in routes && Listing(rest, routes - {r})
    ensures Listing([r] + rest, routes)
  {
    assert Elements([r] + rest) == {r} + Elements(rest);
    forall i | 0 <= i < |rest|
      ensures rest[i] != r
    {
      assert rest[i] in Elements(rest);
    }
  }

  /**
   * The map gives the stale routes in no particular order. Every order keeps every gateway reachable at
   * every step exactly when no stale route goes by a gateway whose own route is stale.
   */
  lemma RemovingSafeIff(before: set<Route>, desired: set<Route>)
    requires Closed(before) && Closed(desired)
    ensures (forall order | Listing(order, before - desired) :: StaysClosed(before + desired, order))
            <==> Untied(before, desired)
  {
    hide Closed, Listing;
    BothClosed(before, desired);
    if Untied(before, desired) {
      forall order | Listing(order, before - desired)
        ensures StaysClosed(before + desired, order)
      {
        UntiedStays(before, desired, order);
      }
    } else {
      var order := Stranding(before, desired);
      assert Listing(order, before - desired) && !StaysClosed(before + desired, order);
    }
  }

  lemma UntiedStays(before: set<Route>, desired: set<Route>, order: seq<Route>)
    requires Closed(before) && Closed(desired) && Untied(before, desired) && Listing(order, before - desired)
    ensures StaysClosed(before + desired, order)
  {
    BothClosed(before, desired);
    hide Closed, Untied;
    forall i | 0 <= i <= |order|
      ensures Closed(before + desired - Elements(order[..i]))
    {
      assert Elements(order[..i]) <= Elements(order);
      UntiedClosed(before + desired, desired, before + desired - Elements(order[..i]));
    }
  }

  /** Removing the gateway's own route first leaves the route that goes by it stranded. */
  lemma Stranding(before: set<Route>, desired: set<Route>) returns (order: seq<Route>)
    requires !Untied(before, desired)
    ensures Listing(order, before - desired) && !StaysClosed(before + desired, order)
  {
    var r :| r in before - desired && !r.IsDirect() && RouteTo(r.via) in before - desired;
    var gateway := RouteTo(r.via);
    var rest := Listed(before - desired - {gateway});
    order := [gateway] + rest;
    ListingCons(gateway, rest, before - desired);
    assert order[..1] == [gateway] && Elements(order[..1]) == {gateway};
    assert r in before + desired - {gateway} && gateway !in before + desired - {gateway};
    assert !Closed(before + desired - Elements(order[..1]));
    hide Closed;
  }

  /** A node with a network that leaves the cluster is enough for that, whatever its address. */
  lemma RemovingCanStrand(gateway: Addr, target: Prefix) returns (before: set<Route>)
    requires gateway != UNSPECIFIED
    ensures before == Desired([Node(false, Some(gateway), [target])]) && Closed(before) && !Untied(before, Desired([]))
  {
    var cluster := [Node(false, Some(gateway), [target])];
    DesiredClosed(cluster);
    assert cluster[..0] == [];
    before := Desired(cluster);
    var r := Route(gateway, target);
    assert cluster[0].cidrs[0] == target;
    assert r in RoutesOf(cluster[0]);
    assert r in before - Desired([]) && !r.IsDirect() && RouteTo(r.via) in before - Desired([]);
  }
}
