/** The adjacency table of the undirected flight graph, as a value, and the
    operations that build it. */
module Adjacency {
  import opened Airports

  /** A table from each airport to the set of airports it has a direct flight with. */
  type Table = map<Code, set<Code>>

  /** The neighbours of `n`; an airport the table has never seen has none. */
  function Adj(adj: Table, n: Code): set<Code>
  {
    if n in adj then adj[n] else {}
  }

  /** Every direct flight is recorded at both of its ends. */
  ghost predicate Symmetric(adj: Table)
  {
    forall a, b {:trigger b in Adj(adj, a)} :: b in Adj(adj, a) ==> a in Adj(adj, b)
  }

  /** The table after recording a flight between `a` and `b` at both ends. */
  function Link(adj: Table, a: Code, b: Code): (r: Table)
    ensures r.Keys == adj.Keys + {a, b}
    ensures forall n ::
              Adj(r, n) == Adj(adj, n) + (if n == a then {b} else {}) + (if n == b then {a} else {})
  {
    var first := adj[a := Adj(adj, a) + {b}];
    first[b := Adj(first, b) + {a}]
  }

  /** Recording a flight keeps the table symmetric. */
  lemma LinkKeepsSymmetric(adj: Table, a: Code, b: Code)
    requires Symmetric(adj)
    ensures Symmetric(Link(adj, a, b))
  {
    var r := Link(adj, a, b);
    forall x, y | y in Adj(r, x)
      ensures x in Adj(r, y)
    {
      if y in Adj(adj, x) {
        assert x in Adj(adj, y);
      }
    }
  }

  /** Recording the same flight twice is the same as recording it once. */
  lemma LinkIdempotent(adj: Table, a: Code, b: Code)
    ensures Link(Link(adj, a, b), a, b) == Link(adj, a, b)
  {
    var once := Link(adj, a, b);
    var twice := Link(once, a, b);
    forall n | n in twice.Keys
      ensures twice[n] == once[n]
    {
      assert Adj(twice, n) == Adj(once, n);
    }
  }

  /** The graph is undirected: the order of the two ends does not matter. */
  lemma LinkUndirected(adj: Table, a: Code, b: Code)
    ensures Link(adj, a, b) == Link(adj, b, a)
  {
    var ab := Link(adj, a, b);
    var ba := Link(adj, b, a);
    forall n | n in ab.Keys
      ensures ab[n] == ba[n]
    {
      assert Adj(ab, n) == Adj(ba, n);
    }
  }

  /** Both ends of `f` are known airports. */
  predicate Known(f: Flight, airports: map<Code, Airport>)
  {
    f.origin in airports && f.destination in airports
  }

  /** Flight `f` runs between `a` and `b`, in either direction. */
  predicate Joins(f: Flight, a: Code, b: Code)
  {
    (f.origin == a && f.destination == b) || (f.origin == b && f.destination == a)
  }

  /** The table built from `flights` in order, recording each flight whose two
      airports are both known and skipping the others. */
  function Loaded(flights: seq<Flight>, airports: map<Code, Airport>): Table
    decreases |flights|
  {
    if flights == [] then map[]
    else
      var before := Loaded(flights[..|flights| - 1], airports);
      var f := flights[|flights| - 1];
      if Known(f, airports) then Link(before, f.origin, f.destination) else before
  }

  /** Two airports are neighbours in the loaded table exactly when some flight with
      two known airports joins them. */
  lemma {:induction false} LoadedNeighbours(flights: seq<Flight>, airports: map<Code, Airport>, a: Code, b: Code)
    ensures b in Adj(Loaded(flights, airports), a) <==>
      exists i :: 0 <= i < |flights| && Known(flights[i], airports) && Joins(flights[i], a, b)
    decreases |flights|
  {
    if flights != [] {
      var init := flights[..|flights| - 1];
      LoadedNeighbours(init, airports, a, b);
      if exists i :: 0 <= i < |init| && Known(init[i], airports) && Joins(init[i], a, b) {
        var i :| 0 <= i < |init| && Known(init[i], airports) && Joins(init[i], a, b);
        assert flights[i] == init[i];
      }
      if exists i :: 0 <= i < |flights| && Known(flights[i], airports) && Joins(flights[i], a, b) {
        var i :| 0 <= i < |flights| && Known(flights[i], airports) && Joins(flights[i], a, b);
        if i < |init| {
          assert init[i] == flights[i];
        }
      }
    }
  }

  /** Only known airports ever enter the loaded table, and the table is symmetric. */
  lemma {:induction false} LoadedWellFormed(flights: seq<Flight>, airports: map<Code, Airport>)
    ensures Loaded(flights, airports).Keys <= airports.Keys
    ensures Symmetric(Loaded(flights, airports))
    decreases |flights|
  {
    if flights != [] {
      var init := flights[..|flights| - 1];
      LoadedWellFormed(init, airports);
      var f := flights[|flights| - 1];
      if Known(f, airports) {
        LinkKeepsSymmetric(Loaded(init, airports), f.origin, f.destination);
      }
    }
  }
}
