/** Walks through the flight graph, what they cost, and the facts about them that the
    search relies on. */
module Walks {
  import opened Airports
  import opened Adjacency

  /** A non-empty sequence of airports in which each consecutive pair has a direct flight. */
  ghost predicate IsWalk(adj: Table, path: seq<Code>)
  {
    && |path| > 0
    && forall i {:trigger path[i]} :: 0 < i < |path| ==> path[i] in Adj(adj, path[i - 1])
  }

  /** A walk from `origin` to `destination`. */
  ghost predicate WalkBetween(adj: Table, path: seq<Code>, origin: Code, destination: Code)
  {
    IsWalk(adj, path) && path[0] == origin && Last(path) == destination
  }

  /** The total price of flying along `path`, one direct flight after another. */
  function PathCost(price: PriceFn, path: seq<Code>): real
    decreases |path|
  {
    if |path| < 2 then 0.0
    else PathCost(price, path[..|path| - 1]) + price(path[|path| - 2], path[|path| - 1])
  }

  /** No walk from `origin` to `x` costs less than `bound`. */
  ghost predicate Shortest(adj: Table, price: PriceFn, origin: Code, x: Code, bound: real)
  {
    forall path {:trigger WalkBetween(adj, path, origin, x)} ::
      WalkBetween(adj, path, origin, x) ==> bound <= PathCost(price, path)
  }

  /** Extending a walk by a direct flight adds that flight's price to its cost. */
  lemma ExtendWalk(adj: Table, price: PriceFn, path: seq<Code>, next: Code)
    requires IsWalk(adj, path) && next in Adj(adj, Last(path))
    ensures IsWalk(adj, path + [next])
    ensures PathCost(price, path + [next]) == PathCost(price, path) + price(Last(path), next)
  {
    assert (path + [next])[..|path|] == path;
  }

  /** With non-negative prices a prefix of a walk costs no more than the walk. */
  lemma {:induction false} PrefixCostsLess(price: PriceFn, path: seq<Code>, n: nat)
    requires NonNegative(price) && 0 < n <= |path|
    ensures PathCost(price, path[..n]) <= PathCost(price, path)
    decreases |path| - n
  {
    if n < |path| {
      PrefixCostsLess(price, path, n + 1);
      assert path[..n + 1][..n] == path[..n];
    } else {
      assert path[..n] == path;
    }
  }

  /** A walk that starts inside `inside` and ends outside it leaves it along some flight. */
  lemma {:induction false} ExitFlight(adj: Table, path: seq<Code>, inside: set<Code>) returns (k: nat)
    requires IsWalk(adj, path) && path[0] in inside && Last(path) !in inside
    ensures k + 1 < |path| && path[k] in inside && path[k + 1] !in inside
    decreases |path|
  {
    var n := |path|;
    if path[n - 2] in inside {
      k := n - 2;
    } else {
      k := ExitFlight(adj, path[..n - 1], inside);
    }
  }

  /** An airport on a walk of two or more airports has a table entry, when the table is symmetric. */
  lemma LastIsKnown(adj: Table, path: seq<Code>)
    requires Symmetric(adj) && IsWalk(adj, path) && |path| > 1
    ensures Last(path) in adj
  {
    var n := |path|;
    assert path[n - 1] in Adj(adj, path[n - 2]);
    assert path[n - 2] in Adj(adj, path[n - 1]);
  }
}
