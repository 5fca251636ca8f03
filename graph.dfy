/** The undirected flight graph and the cheapest-route search over it. */
module Graphs {
  import opened Airports
  import opened Adjacency
  import opened Walks
  import opened Settling
  import opened MinHeap

  /** A hash-table graph: each airport maps to the set of airports it is connected to. */
  class Graph {
    var adjacency: Table

    /** The graph is undirected. */
    ghost predicate Valid()
      reads this
    {
      Symmetric(adjacency)
    }

    constructor ()
      ensures Valid() && adjacency == map[]
    {
      adjacency := map[];
    }

    /** Records a direct flight between `node1` and `node2`, at both ends. */
    method Connect(node1: Code, node2: Code)
      requires Valid()
      modifies this
      ensures Valid()
      ensures adjacency == Link(old(adjacency), node1, node2)
    {
      LinkKeepsSymmetric(adjacency, node1, node2);
      adjacency := adjacency[node1 := Adj(adjacency, node1) + {node2}];
      adjacency := adjacency[node2 := Adj(adjacency, node2) + {node1}];
    }

    /** The airports connected to `node`; none for an airport never connected. */
    function Neighbors(node: Code): (nodes: set<Code>)
      reads this
      ensures node !in adjacency ==> nodes == {}
      ensures Valid() ==> forall m :: m in nodes ==> m in adjacency && node in adjacency[m]
    {
      assert Valid() ==> forall m :: m in Adj(adjacency, node) ==> node in Adj(adjacency, m);
      Adj(adjacency, node)
    }

    /** Builds the graph from the direct flights, skipping every flight with an airport
        missing from `airports`. */
    static method Load(flights: seq<Flight>, airports: map<Code, Airport>) returns (world: Graph)
      ensures fresh(world) && world.Valid()
      ensures world.adjacency == Loaded(flights, airports)
    {
      world := new Graph();
      for i := 0 to |flights|
        invariant world.Valid()
        invariant world.adjacency == Loaded(flights[..i], airports)
      {
        var flight := flights[i];
        assert flights[..i + 1][..i] == flights[..i];
        if flight.origin in airports && flight.destination in airports {
          world.Connect(flight.origin, flight.destination);
        }
      }
      assert flights[..|flights|] == flights;
    }


    /** Dijkstra's algorithm with lazy deletion: the cheapest route from `origin` to
        `destination`, or NotFound. */
    method Dijkstra(origin: Code, destination: Code, price: PriceFn) returns (result: Outcome)
      requires Valid() && NonNegative(price)
      ensures result.Found? ==>
                && WalkBetween(adjacency, result.route.path, origin, destination)
                && result.route.price == PathCost(price, result.route.path)
      ensures result.Found? ==>
                forall path :: WalkBetween(adjacency, path, origin, destination) ==>
                  result.route.price <= PathCost(price, path)
      ensures result.NotFound? <==>
                origin == destination || forall path :: !WalkBetween(adjacency, path, origin, destination)
    {
      var adj := adjacency;
      var routes := new Heap();
      PushFirstFlights(adj, routes, origin, price);
      var visited := {origin};
      ghost var dist := map[origin := 0.0];
      StartSearch(adj, price, origin, destination, routes.Contents());
      while routes.Size() > 0
        invariant routes.Valid() && visited == dist.Keys
        invariant Searching(adj, price, origin, destination, dist, routes.Contents())
        decreases |adj.Keys - visited|, routes.Size()
      {
        var found;
        ghost var popped;
        found, visited, dist, popped := Step(adj, routes, visited, price, origin, destination, dist);
        if found.Found? {
          return found;
        }
      }
      if origin != destination {
        ExhaustedMeansUnreachable(adj, price, origin, destination, dist);
      }
      return NotFound;
    }
  }

  /** One round of the search: pops the cheapest queued route, `popped`, and either reports
      it, when it is the first to reach `destination`, or moves the search on. */
  method Step(adj: Table, routes: Heap, visited: set<Code>, price: PriceFn, origin: Code, destination: Code,
              ghost dist: map<Code, real>)
    returns (found: Outcome, visited': set<Code>, ghost dist': map<Code, real>, ghost popped: Route)
    requires Symmetric(adj) && NonNegative(price)
    requires routes.Valid() && routes.Size() > 0 && visited == dist.Keys
    requires Searching(adj, price, origin, destination, dist, routes.Contents())
    modifies routes
    ensures routes.Valid()
    ensures popped in old(routes.Contents()) && ValidRoute(adj, price, origin, popped)
    ensures forall r :: r in old(routes.Contents()) ==> popped.price <= r.price
    ensures found.Found? <==> Last(popped.path) !in visited && Last(popped.path) == destination
    ensures found.Found? ==>
              && found.route == popped
              && visited' == visited
              && routes.Contents() == old(routes.Contents()) - multiset{popped}
    ensures found.Found? ==>
              && origin != destination
              && WalkBetween(adj, found.route.path, origin, destination)
              && found.route.price == PathCost(price, found.route.path)
              && Shortest(adj, price, origin, destination, found.route.price)
    ensures found.NotFound? && Last(popped.path) in visited ==>
              && visited' == visited && dist' == dist
              && routes.Contents() == old(routes.Contents()) - multiset{popped}
    ensures found.NotFound? && Last(popped.path) !in visited ==>
              && visited' == visited + {Last(popped.path)}
              && dist' == dist[Last(popped.path) := popped.price]
              && routes.Contents() ==
                   old(routes.Contents()) - multiset{popped}
                   + multiset(Extensions(price, popped, Adj(adj, Last(popped.path)) - visited))
    ensures found.NotFound? ==>
              && visited' == dist'.Keys
              && Searching(adj, price, origin, destination, dist', routes.Contents())
              && (|| |adj.Keys - visited'| < |adj.Keys - visited|
                  || (visited' == visited && routes.Size() < old(routes.Size())))
  {
    ghost var queued := routes.Contents();
    var route := routes.Pop();
    popped := route;
    PopStep(adj, price, origin, destination, dist, queued, route);
    var path := route.path;
    var airport := path[|path| - 1];
    if airport !in visited && airport == destination {
      return Found(route), visited, dist, popped;
    }
    visited', dist' := Advance(adj, routes, route, visited, price, origin, destination, dist, queued);
    found := NotFound;
  }

  /** After popping `route`: drops it when its airport is already visited, and otherwise
      settles the airport at the route's price and queues the route's extensions. */
  method Advance(adj: Table, routes: Heap, route: Route, visited: set<Code>, price: PriceFn, origin: Code,
                 destination: Code, ghost dist: map<Code, real>, ghost queued: multiset<Route>)
    returns (visited': set<Code>, ghost dist': map<Code, real>)
    requires Symmetric(adj) && routes.Valid() && visited == dist.Keys
    requires Searching(adj, price, origin, destination, dist, queued)
    requires route in queued && routes.Contents() == queued - multiset{route}
    requires ValidRoute(adj, price, origin, route)
    requires Last(route.path) !in dist ==>
               Last(route.path) != destination && Shortest(adj, price, origin, Last(route.path), route.price)
    modifies routes
    ensures routes.Valid() && visited' == dist'.Keys
    ensures Searching(adj, price, origin, destination, dist', routes.Contents())
    ensures Last(route.path) in visited ==>
              visited' == visited && dist' == dist && routes.Contents() == old(routes.Contents())
    ensures Last(route.path) !in visited ==>
              && visited' == visited + {Last(route.path)}
              && dist' == dist[Last(route.path) := route.price]
              && routes.Contents() ==
                   old(routes.Contents()) + multiset(Extensions(price, route, Adj(adj, Last(route.path)) - visited))
    ensures || (visited' == visited && routes.Contents() == old(routes.Contents()))
            || |adj.Keys - visited'| < |adj.Keys - visited|
  {
    var airport := Last(route.path);
    if airport in visited {
      SkipStep(adj, price, origin, destination, dist, queued, route);
      return visited, dist;
    }
    Settle(adj, routes, route, visited, price, origin, destination, dist, queued);
    visited' := visited + {airport};
    dist' := dist[airport := route.price];
  }

  /** Queues the extensions of a cheapest popped route to an unvisited airport other than
      the destination; the search can then settle that airport at the route's price. */
  method Settle(adj: Table, routes: Heap, route: Route, visited: set<Code>, price: PriceFn, origin: Code,
                destination: Code, ghost dist: map<Code, real>, ghost queued: multiset<Route>)
    requires Symmetric(adj) && routes.Valid() && visited == dist.Keys
    requires Searching(adj, price, origin, destination, dist, queued)
    requires route in queued && routes.Contents() == queued - multiset{route}
    requires ValidRoute(adj, price, origin, route)
    requires Last(route.path) !in dist && Last(route.path) != destination
    requires Shortest(adj, price, origin, Last(route.path), route.price)
    modifies routes
    ensures routes.Valid()
    ensures routes.Contents() ==
              old(routes.Contents()) + multiset(Extensions(price, route, Adj(adj, Last(route.path)) - visited))
    ensures Searching(adj, price, origin, destination, dist[Last(route.path) := route.price], routes.Contents())
    ensures |adj.Keys - (visited + {Last(route.path)})| < |adj.Keys - visited|
  {
    PushExtensions(adj, routes, route, visited, price, origin);
    ExtensionsQueued(price, route, Adj(adj, Last(route.path)) - visited, old(routes.Contents()), routes.Contents());
    SettleStep(adj, price, origin, destination, dist, queued, route, routes.Contents());
  }

  /** Queues the one-flight route from `origin` to each of its neighbours, once each: the
      extensions of the route that stays at `origin` for nothing. */
  method PushFirstFlights(adj: Table, routes: Heap, origin: Code, price: PriceFn)
    requires routes.Valid() && routes.Contents() == multiset{}
    modifies routes
    ensures routes.Valid()
    ensures routes.Contents() == multiset(Extensions(price, Route(0.0, [origin]), Adj(adj, origin)))
    ensures ValidRoutes(adj, price, origin, routes.Contents())
    ensures forall y :: y in Adj(adj, origin) ==> Route(price(origin, y), [origin, y]) in routes.Contents()
  {
    var first := Adj(adj, origin);
    ghost var done: set<Code> := {};
    assert Extensions(price, Route(0.0, [origin]), done) == {};
    while first != {}
      invariant routes.Valid() && ValidRoutes(adj, price, origin, routes.Contents())
      invariant done + first == Adj(adj, origin) && done !! first
      invariant routes.Contents() == multiset(Extensions(price, Route(0.0, [origin]), done))
      decreases first
    {
      var neighbor :| neighbor in first;
      ExtensionsGrow(price, Route(0.0, [origin]), done, neighbor);
      QueueFirstFlight(adj, routes, origin, neighbor, price);
      first := first - {neighbor};
      done := done + {neighbor};
    }
    FirstFlightsQueued(price, origin, done, routes.Contents());
  }

  /** Queues the one-flight route from `origin` to `neighbor`, priced at that flight. */
  method QueueFirstFlight(adj: Table, routes: Heap, origin: Code, neighbor: Code, price: PriceFn)
    requires routes.Valid() && ValidRoutes(adj, price, origin, routes.Contents())
    requires neighbor in Adj(adj, origin)
    modifies routes
    ensures routes.Valid() && ValidRoutes(adj, price, origin, routes.Contents())
    ensures routes.Contents() == old(routes.Contents()) + multiset{Extended(price, Route(0.0, [origin]), neighbor)}
  {
    var route := Route(price(origin, neighbor), [origin, neighbor]);
    assert route == Extended(price, Route(0.0, [origin]), neighbor);
    ExtendWalk(adj, price, [origin], neighbor);
    EnqueueValid(adj, price, origin, routes.Contents(), route);
    routes.Push(route);
  }

  /** Queues, for each neighbour of the route's last airport that is not yet visited,
      the route extended by the flight to it, once each. */
  method PushExtensions(adj: Table, routes: Heap, route: Route, visited: set<Code>, price: PriceFn, origin: Code)
    requires routes.Valid() && ValidRoutes(adj, price, origin, routes.Contents())
    requires ValidRoute(adj, price, origin, route)
    modifies routes
    ensures routes.Valid() && ValidRoutes(adj, price, origin, routes.Contents())
    ensures routes.Contents() ==
              old(routes.Contents()) + multiset(Extensions(price, route, Adj(adj, Last(route.path)) - visited))
  {
    var unvisited := Adj(adj, Last(route.path)) - visited;
    var next := unvisited;
    ghost var before := routes.Contents();
    ghost var done: set<Code> := {};
    assert Extensions(price, route, done) == {};
    while next != {}
      invariant routes.Valid() && ValidRoutes(adj, price, origin, routes.Contents())
      invariant next <= unvisited && done == unvisited - next
      invariant routes.Contents() == before + multiset(Extensions(price, route, done))
      decreases next
    {
      var neighbor :| neighbor in next;
      ExtensionsGrow(price, route, done, neighbor);
      QueueExtension(adj, routes, route, neighbor, price, origin);
      next := next - {neighbor};
      done := done + {neighbor};
    }
  }

  /** Queues `route` extended by the flight from its last airport to `neighbor`. */
  method QueueExtension(adj: Table, routes: Heap, route: Route, neighbor: Code, price: PriceFn, origin: Code)
    requires routes.Valid() && ValidRoutes(adj, price, origin, routes.Contents())
    requires ValidRoute(adj, price, origin, route)
    requires neighbor in Adj(adj, Last(route.path))
    modifies routes
    ensures routes.Valid() && ValidRoutes(adj, price, origin, routes.Contents())
    ensures routes.Contents() == old(routes.Contents()) + multiset{Extended(price, route, neighbor)}
  {
    var path := route.path;
    var airport := path[|path| - 1];
    var newPrice := route.price + price(airport, neighbor);
    var newPath := path + [neighbor];
    ExtendRoute(adj, price, origin, route, neighbor);
    EnqueueValid(adj, price, origin, routes.Contents(), Route(newPrice, newPath));
    routes.Push(Route(newPrice, newPath));
  }
}
