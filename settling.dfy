/** The state of the search between two pops, and why settling the cheapest queued
    route is safe when prices are non-negative. */
module Settling {
  import opened Airports
  import opened Adjacency
  import opened Walks

  /** A queued route: a walk of at least one flight from `origin`, priced at its cost. */
  ghost predicate ValidRoute(adj: Table, price: PriceFn, origin: Code, route: Route)
  {
    && |route.path| > 1
    && WalkBetween(adj, route.path, origin, Last(route.path))
    && route.price == PathCost(price, route.path)
  }

  /** Every queued route is valid. */
  ghost predicate ValidRoutes(adj: Table, price: PriceFn, origin: Code, queued: multiset<Route>)
  {
    forall route :: route in queued ==> ValidRoute(adj, price, origin, route)
  }

  /** Extending a valid route by a flight from its last airport gives a valid route. */
  lemma ExtendRoute(adj: Table, price: PriceFn, origin: Code, route: Route, next: Code)
    requires ValidRoute(adj, price, origin, route) && next in Adj(adj, Last(route.path))
    ensures ValidRoute(adj, price, origin, Extended(price, route, next))
  {
    ExtendWalk(adj, price, route.path, next);
  }

  /** `route` followed by the direct flight to `next`, priced as the source prices it. */
  function Extended(price: PriceFn, route: Route, next: Code): Route
    requires |route.path| > 0
  {
    Route(route.price + price(Last(route.path), next), route.path + [next])
  }

  /** The routes that extend `route` by one flight to each airport of `ys`, once each. */
  ghost function Extensions(price: PriceFn, route: Route, ys: set<Code>): set<Route>
    requires |route.path| > 0
  {
    set y | y in ys :: Extended(price, route, y)
  }

  /** Extending to one more airport adds exactly one new route: extensions to different
      airports differ in their last airport. */
  lemma ExtensionsGrow(price: PriceFn, route: Route, ys: set<Code>, y: Code)
    requires |route.path| > 0 && y !in ys
    ensures multiset(Extensions(price, route, ys + {y})) ==
              multiset(Extensions(price, route, ys)) + multiset{Extended(price, route, y)}
  {
    var before := Extensions(price, route, ys);
    var added := Extended(price, route, y);
    forall z | z in ys
      ensures Extended(price, route, z) != added
    {
      assert Last(Extended(price, route, z).path) == z;
      assert Last(added.path) == y;
    }
    assert added !in before;
    assert Extensions(price, route, ys + {y}) == before + {added};
  }

  /** Adding the extensions to `ys` to a queue keeps what was queued and queues the
      extension to each airport of `ys`. */
  lemma ExtensionsQueued(price: PriceFn, route: Route, ys: set<Code>, before: multiset<Route>,
                         after: multiset<Route>)
    requires |route.path| > 0 && after == before + multiset(Extensions(price, route, ys))
    ensures before <= after
    ensures forall y :: y in ys ==> Extended(price, route, y) in after
  {
    forall y | y in ys
      ensures Extended(price, route, y) in after
    {
      assert Extended(price, route, y) in Extensions(price, route, ys);
    }
  }

  /** The extensions of the route that stays at `origin` are the one-flight routes. */
  lemma FirstFlightsQueued(price: PriceFn, origin: Code, ys: set<Code>, queued: multiset<Route>)
    requires queued == multiset(Extensions(price, Route(0.0, [origin]), ys))
    ensures forall y :: y in ys ==> Route(price(origin, y), [origin, y]) in queued
  {
    forall y | y in ys
      ensures Route(price(origin, y), [origin, y]) in queued
    {
      assert Route(price(origin, y), [origin, y]) == Extended(price, Route(0.0, [origin]), y);
      assert Extended(price, Route(0.0, [origin]), y) in Extensions(price, Route(0.0, [origin]), ys);
    }
  }

  /** Queuing a valid route keeps every queued route valid. */
  lemma EnqueueValid(adj: Table, price: PriceFn, origin: Code, queued: multiset<Route>, route: Route)
    requires ValidRoutes(adj, price, origin, queued) && ValidRoute(adj, price, origin, route)
    ensures ValidRoutes(adj, price, origin, queued + multiset{route})
  {
  }

  /** Each settled airport's recorded price is the cheapest over all walks from `origin`. */
  ghost predicate Settled(adj: Table, price: PriceFn, origin: Code, dist: map<Code, real>)
  {
    forall x :: x in dist ==> Shortest(adj, price, origin, x, dist[x])
  }

  /** Some queued route ends at `y` and costs at most `bound`. */
  ghost predicate HasRouteTo(queued: multiset<Route>, y: Code, bound: real)
  {
    exists route {:trigger queued[route]} ::
      route in queued && |route.path| > 0 && Last(route.path) == y && route.price <= bound
  }

  /** For every flight from a settled airport `x` to an unsettled one `y`, the queue holds
      a route to `y` no dearer than reaching `x` and then taking that flight. */
  ghost predicate Frontier(adj: Table, price: PriceFn, dist: map<Code, real>, queued: multiset<Route>)
  {
    forall x, y {:trigger y in Adj(adj, x), dist[x]} ::
      x in dist && y in Adj(adj, x) && y !in dist ==> HasRouteTo(queued, y, dist[x] + price(x, y))
  }

  /** Settling one more known airport leaves fewer unsettled ones: the measure that makes
      the search terminate. */
  lemma FewerUnsettled(known: set<Code>, visited: set<Code>, u: Code)
    requires u in known && u !in visited
    ensures |known - (visited + {u})| < |known - visited|
  {
    assert known - (visited + {u}) == (known - visited) - {u};
  }

  /** With non-negative prices no walk costs less than nothing. */
  lemma {:induction false} CostNonNegative(price: PriceFn, path: seq<Code>)
    requires NonNegative(price)
    ensures 0.0 <= PathCost(price, path)
    decreases |path|
  {
    if |path| >= 2 {
      CostNonNegative(price, path[..|path| - 1]);
    }
  }

  /** The origin, reached for nothing, is settled from the start. */
  lemma OriginSettled(adj: Table, price: PriceFn, origin: Code)
    requires NonNegative(price)
    ensures Settled(adj, price, origin, map[origin := 0.0])
  {
    forall path | WalkBetween(adj, path, origin, origin)
      ensures 0.0 <= PathCost(price, path)
    {
      CostNonNegative(price, path);
    }
  }

  /** The cheapest queued route to an unsettled airport is a cheapest walk to it: any
      other walk leaves the settled set along some flight, and the route queued for
      that flight is already no cheaper than the popped one. */
  lemma PoppedIsShortest(adj: Table, price: PriceFn, origin: Code, dist: map<Code, real>,
                         queued: multiset<Route>, route: Route)
    requires NonNegative(price) && origin in dist
    requires Settled(adj, price, origin, dist) && Frontier(adj, price, dist, queued)
    requires route in queued && forall r :: r in queued ==> route.price <= r.price
    requires |route.path| > 0 && Last(route.path) !in dist
    ensures Shortest(adj, price, origin, Last(route.path), route.price)
  {
    var u := Last(route.path);
    forall path | WalkBetween(adj, path, origin, u)
      ensures route.price <= PathCost(price, path)
    {
      var k := ExitFlight(adj, path, dist.Keys);
      var x, y := path[k], path[k + 1];
      var upToX := path[..k + 1];
      assert WalkBetween(adj, upToX, origin, x);
      assert dist[x] <= PathCost(price, upToX);
      ExtendWalk(adj, price, upToX, y);
      assert upToX + [y] == path[..k + 2];
      PrefixCostsLess(price, path, k + 2);
      var r :| r in queued && |r.path| > 0 && Last(r.path) == y && r.price <= dist[x] + price(x, y);
    }
  }

  /** Queuing the one-flight route to each neighbour of the origin covers the frontier of
      the settled set that holds only the origin. */
  lemma FirstFrontier(adj: Table, price: PriceFn, origin: Code, queued: multiset<Route>)
    requires forall y :: y in Adj(adj, origin) ==> Route(price(origin, y), [origin, y]) in queued
    ensures Frontier(adj, price, map[origin := 0.0], queued)
  {
    forall x, y | x == origin && y in Adj(adj, x) && y != origin
      ensures HasRouteTo(queued, y, 0.0 + price(x, y))
    {
      var r := Route(price(origin, y), [origin, y]);
      assert r in queued && Last(r.path) == y;
    }
  }

  /** Dropping a route to an already settled airport keeps the frontier covered. */
  lemma SkipKeepsFrontier(adj: Table, price: PriceFn, dist: map<Code, real>,
                          queued: multiset<Route>, route: Route)
    requires Frontier(adj, price, dist, queued)
    requires |route.path| > 0 && Last(route.path) in dist
    ensures Frontier(adj, price, dist, queued - multiset{route})
  {
    forall x, y | x in dist && y in Adj(adj, x) && y !in dist
      ensures HasRouteTo(queued - multiset{route}, y, dist[x] + price(x, y))
    {
      var r :| r in queued && |r.path| > 0 && Last(r.path) == y && r.price <= dist[x] + price(x, y);
      assert r != route;
      assert r in queued - multiset{route};
    }
  }

  /** Settling the last airport `u` of the popped route at the route's price, once a route
      to each unsettled neighbour of `u` has been queued, keeps the frontier covered. */
  lemma SettleKeepsFrontier(adj: Table, price: PriceFn, dist: map<Code, real>,
                            queued: multiset<Route>, route: Route, after: multiset<Route>)
    requires Frontier(adj, price, dist, queued)
    requires |route.path| > 0 && Last(route.path) !in dist
    requires queued - multiset{route} <= after
    requires forall y :: y in Adj(adj, Last(route.path)) && y !in dist ==> Extended(price, route, y) in after
    ensures Frontier(adj, price, dist[Last(route.path) := route.price], after)
  {
    var u := Last(route.path);
    var dist' := dist[u := route.price];
    forall x, y | x in dist' && y in Adj(adj, x) && y !in dist'
      ensures HasRouteTo(after, y, dist'[x] + price(x, y))
    {
      if x != u {
        var r :| r in queued && |r.path| > 0 && Last(r.path) == y && r.price <= dist[x] + price(x, y);
        assert r != route;
        assert r in queued - multiset{route};
      } else {
        assert Extended(price, route, y) in after;
      }
    }
  }

  /** Once the queue is empty, the frontier condition says the settled set is closed under
      flights, so an unsettled airport cannot be reached from the origin. */
  lemma ExhaustedMeansUnreachable(adj: Table, price: PriceFn, origin: Code, destination: Code,
                                  dist: map<Code, real>)
    requires Frontier(adj, price, dist, multiset{})
    requires origin in dist && destination !in dist
    ensures forall path :: !WalkBetween(adj, path, origin, destination)
  {
    forall path | WalkBetween(adj, path, origin, destination)
      ensures false
    {
      var k := ExitFlight(adj, path, dist.Keys);
    }
  }

  /** The loop invariant of the search: the origin is settled, the destination is settled
      only when it is the origin, every queued route is valid, settled prices are cheapest,
      and the frontier is covered. */
  ghost predicate Searching(adj: Table, price: PriceFn, origin: Code, destination: Code,
                            dist: map<Code, real>, queued: multiset<Route>)
  {
    && origin in dist
    && (destination in dist ==> destination == origin)
    && ValidRoutes(adj, price, origin, queued)
    && Settled(adj, price, origin, dist)
    && Frontier(adj, price, dist, queued)
  }

  /** The invariant holds once the one-flight routes from the origin are queued. */
  lemma StartSearch(adj: Table, price: PriceFn, origin: Code, destination: Code, queued: multiset<Route>)
    requires NonNegative(price) && ValidRoutes(adj, price, origin, queued)
    requires forall y :: y in Adj(adj, origin) ==> Route(price(origin, y), [origin, y]) in queued
    ensures Searching(adj, price, origin, destination, map[origin := 0.0], queued)
  {
    OriginSettled(adj, price, origin);
    FirstFrontier(adj, price, origin, queued);
  }

  /** A popped route is valid and, when it ends at an unsettled airport, cheapest. */
  lemma PopStep(adj: Table, price: PriceFn, origin: Code, destination: Code,
                dist: map<Code, real>, queued: multiset<Route>, route: Route)
    requires NonNegative(price) && Searching(adj, price, origin, destination, dist, queued)
    requires route in queued && forall r :: r in queued ==> route.price <= r.price
    ensures ValidRoute(adj, price, origin, route)
    ensures ValidRoutes(adj, price, origin, queued - multiset{route})
    ensures Last(route.path) !in dist ==> Shortest(adj, price, origin, Last(route.path), route.price)
  {
    if Last(route.path) !in dist {
      PoppedIsShortest(adj, price, origin, dist, queued, route);
    }
  }

  /** Dropping a popped route to a settled airport keeps the invariant. */
  lemma SkipStep(adj: Table, price: PriceFn, origin: Code, destination: Code,
                 dist: map<Code, real>, queued: multiset<Route>, route: Route)
    requires Searching(adj, price, origin, destination, dist, queued)
    requires route in queued && |route.path| > 0 && Last(route.path) in dist
    ensures Searching(adj, price, origin, destination, dist, queued - multiset{route})
  {
    SkipKeepsFrontier(adj, price, dist, queued, route);
  }

  /** Settling the last airport of a cheapest popped route, other than the destination,
      after queuing its extensions keeps the invariant. */
  lemma SettleStep(adj: Table, price: PriceFn, origin: Code, destination: Code,
                   dist: map<Code, real>, queued: multiset<Route>, route: Route, after: multiset<Route>)
    requires Symmetric(adj) && Searching(adj, price, origin, destination, dist, queued)
    requires route in queued && ValidRoute(adj, price, origin, route)
    requires Last(route.path) !in dist && Last(route.path) != destination
    requires Shortest(adj, price, origin, Last(route.path), route.price)
    requires queued - multiset{route} <= after && ValidRoutes(adj, price, origin, after)
    requires forall y :: y in Adj(adj, Last(route.path)) && y !in dist ==> Extended(price, route, y) in after
    ensures Searching(adj, price, origin, destination, dist[Last(route.path) := route.price], after)
    ensures |adj.Keys - (dist.Keys + {Last(route.path)})| < |adj.Keys - dist.Keys|
  {
    SettleKeepsFrontier(adj, price, dist, queued, route, after);
    LastIsKnown(adj, route.path);
    FewerUnsettled(adj.Keys, dist.Keys, Last(route.path));
  }

}
