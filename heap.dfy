/** A min-heap of routes, ordered by price, kept as a binary heap in a list. */
module MinHeap {
  import opened Airports

  /** The index of the parent of slot `i` in a binary heap laid out in a list, which is
      `(i - 1) / 2`. It is written by recursion on `i - 2` so that proofs about it need
      only linear arithmetic; the ensures pins it to that quotient. */
  function Parent(i: nat): (p: nat)
    requires 0 < i
    ensures p < i && (i == 2 * p + 1 || i == 2 * p + 2)
  {
    if i <= 2 then 0 else Parent(i - 2) + 1
  }

  /** The recursive form of `Parent` is the usual quotient. */
  lemma ParentIsHalf(i: nat)
    requires 0 < i
    ensures Parent(i) == (i - 1) / 2
  {
  }

  /** Every route is no cheaper than its parent. */
  ghost predicate HeapOrdered(s: seq<Route>)
  {
    forall i :: 0 < i < |s| ==> s[Parent(i)].price <= s[i].price
  }

  /** The heap order holds except, possibly, between slot `k` and its parent;
      the parent of `k` is still no dearer than the children of `k`. */
  ghost predicate OrderedAbove(s: seq<Route>, k: nat)
  {
    && (forall i :: 0 < i < |s| && i != k ==> s[Parent(i)].price <= s[i].price)
    && (0 < k < |s| ==> forall c :: 0 < c < |s| && Parent(c) == k ==> s[Parent(k)].price <= s[c].price)
  }

  /** The heap order holds except, possibly, between slot `k` and its children;
      the parent of `k` is still no dearer than the children of `k`. */
  ghost predicate OrderedBelow(s: seq<Route>, k: nat)
  {
    && (forall i :: 0 < i < |s| && Parent(i) != k ==> s[Parent(i)].price <= s[i].price)
    && (0 < k < |s| ==> forall c :: 0 < c < |s| && Parent(c) == k ==> s[Parent(k)].price <= s[c].price)
  }

  /** `s` with the routes in slots `i` and `j` exchanged. */
  function Swap(s: seq<Route>, i: nat, j: nat): (t: seq<Route>)
    requires i < |s| && j < |s|
    ensures |t| == |s| && t[i] == s[j] && t[j] == s[i]
    ensures forall m :: 0 <= m < |s| && m != i && m != j ==> t[m] == s[m]
    ensures multiset(t) == multiset(s)
  {
    var t := s[i := s[j]][j := s[i]];
    assert multiset(s[i := s[j]]) == multiset(s) - multiset{s[i]} + multiset{s[j]};
    t
  }

  /** In a heap-ordered list the route at the root is no dearer than the one in slot `i`. */
  lemma {:induction false} RootIsCheapest(s: seq<Route>, i: nat)
    requires HeapOrdered(s) && i < |s|
    ensures s[0].price <= s[i].price
    decreases i
  {
    if i > 0 {
      RootIsCheapest(s, Parent(i));
    }
  }

  /** The root of a heap-ordered list is no dearer than any route the list holds. */
  lemma RootIsMinimum(s: seq<Route>)
    requires HeapOrdered(s) && |s| > 0
    ensures forall r :: r in multiset(s) ==> s[0].price <= r.price
  {
    forall r | r in multiset(s)
      ensures s[0].price <= r.price
    {
      var i :| 0 <= i < |s| && s[i] == r;
      RootIsCheapest(s, i);
    }
  }

  /** No child of slot `j` is cheaper than the one in slot `child`. */
  ghost predicate CheapestChild(s: seq<Route>, j: nat, child: nat)
    requires child < |s|
  {
    forall c :: 0 < c < |s| && Parent(c) == j ==> s[child].price <= s[c].price
  }

  /** Exchanging slot `j` with its cheapest child, when that child is cheaper,
      moves the possible disorder one level down. */
  lemma SwapDown(s: seq<Route>, j: nat, child: nat)
    requires j < child < |s| && Parent(child) == j && OrderedBelow(s, j)
    requires s[child].price < s[j].price
    requires CheapestChild(s, j, child)
    ensures OrderedBelow(Swap(s, j, child), child)
  {
    var t := Swap(s, j, child);
    forall i | 0 < i < |t| && Parent(i) != child
      ensures t[Parent(i)].price <= t[i].price
    {
      if i == child {
      } else if Parent(i) == j {
      } else if i == j {
      } else {
        assert t[i] == s[i];
      }
    }
  }

  /** Once every child of slot `j` is no cheaper than it, the list is heap-ordered. */
  lemma BelowSettled(s: seq<Route>, j: nat, child: nat)
    requires j < |s| && child < |s| && OrderedBelow(s, j) && CheapestChild(s, j, child)
    requires s[j].price <= s[child].price
    ensures HeapOrdered(s)
  {
  }

  /** A slot without children cannot be out of order with them. */
  lemma LeafSettled(s: seq<Route>, j: nat)
    requires |s| <= 2 * j + 1 && OrderedBelow(s, j)
    ensures HeapOrdered(s)
  {
  }

  /** The child of slot `j` that the sift-down compares it with: the cheaper of the two. */
  function CheaperChild(s: seq<Route>, j: nat): (child: nat)
    requires 2 * j + 1 < |s|
    ensures 0 < child < |s| && Parent(child) == j && CheapestChild(s, j, child)
  {
    var left := 2 * j + 1;
    assert Parent(left) == j;
    if left + 1 < |s| && s[left + 1].price < s[left].price then
      assert Parent(left + 1) == j;
      left + 1
    else
      left
  }

  /** Exchanging slot `k` with its dearer parent moves the possible disorder one level up. */
  lemma SwapUp(s: seq<Route>, k: nat)
    requires 0 < k < |s| && OrderedAbove(s, k) && s[k].price < s[Parent(k)].price
    ensures OrderedAbove(Swap(s, k, Parent(k)), Parent(k))
  {
    var p := Parent(k);
    var t := Swap(s, k, p);
    forall i | 0 < i < |t| && i != p
      ensures t[Parent(i)].price <= t[i].price
    {
      if i == k {
      } else if Parent(i) == k {
      } else if Parent(i) == p {
      } else {
        assert t[i] == s[i];
      }
    }
  }

  /** Once slot `k` is no cheaper than its parent, the list is heap-ordered. */
  lemma AboveSettled(s: seq<Route>, k: nat)
    requires k < |s| && OrderedAbove(s, k)
    requires 0 < k ==> s[Parent(k)].price <= s[k].price
    ensures HeapOrdered(s)
  {
  }

  /** Moves the route in slot `k` towards the root until its parent is no dearer. */
  method SiftUp(s: seq<Route>, k: nat) returns (t: seq<Route>)
    requires k < |s| && OrderedAbove(s, k)
    ensures HeapOrdered(t) && multiset(t) == multiset(s)
  {
    t := s;
    var j: nat := k;
    while 0 < j && t[j].price < t[Parent(j)].price
      invariant j < |t| && OrderedAbove(t, j)
      invariant multiset(t) == multiset(s)
    {
      SwapUp(t, j);
      t := Swap(t, j, Parent(j));
      j := Parent(j);
    }
    AboveSettled(t, j);
  }

  /** Moves the route at the root away from it, each time towards its cheaper child,
      until no child is cheaper. */
  method SiftDown(s: seq<Route>) returns (t: seq<Route>)
    requires 0 < |s| && OrderedBelow(s, 0)
    ensures HeapOrdered(t) && multiset(t) == multiset(s)
  {
    t := s;
    var j := 0;
    while true
      invariant j < |t| == |s|
      invariant OrderedBelow(t, j)
      invariant multiset(t) == multiset(s)
      decreases |t| - j
    {
      if |t| <= 2 * j + 1 {
        LeafSettled(t, j);
        return;
      }
      var child := CheaperChild(t, j);
      if t[j].price <= t[child].price {
        BelowSettled(t, j, child);
        return;
      }
      SwapDown(t, j, child);
      t := Swap(t, j, child);
      j := child;
    }
  }

  /** Moving the last route of a heap-ordered list into the root slot, in place of the
      route there, leaves a list that only needs sifting down from the root. */
  lemma ReplaceRoot(s: seq<Route>)
    requires HeapOrdered(s) && |s| > 1
    ensures OrderedBelow([s[|s| - 1]] + s[1..|s| - 1], 0)
    ensures multiset([s[|s| - 1]] + s[1..|s| - 1]) == multiset(s) - multiset{s[0]}
  {
    var n := |s| - 1;
    var t := [s[n]] + s[1..n];
    forall i | 0 < i < |t| && Parent(i) != 0
      ensures t[Parent(i)].price <= t[i].price
    {
      assert t[i] == s[i] && t[Parent(i)] == s[Parent(i)];
    }
    assert s == [s[0]] + s[1..n] + [s[n]];
  }

  /** The priority queue of the search: `values` is the list the source hands to heapq. */
  class Heap {
    var values: seq<Route>

    /** The heap invariant. */
    ghost predicate Valid()
      reads this
    {
      HeapOrdered(values)
    }

    /** The routes held, with their multiplicities. */
    ghost function Contents(): multiset<Route>
      reads this
    {
      multiset(values)
    }

    constructor ()
      ensures Valid() && Contents() == multiset{}
    {
      values := [];
    }

    /** The number of routes held (the source's `__len__`). */
    function Size(): (n: nat)
      reads this
      ensures n == |Contents()|
    {
      |values|
    }

    /** Adds `route` to the queue. */
    method Push(route: Route)
      requires Valid()
      modifies this
      ensures Valid()
      ensures Contents() == old(Contents()) + multiset{route}
    {
      values := SiftUp(values + [route], |values|);
    }

    /** Removes and returns a cheapest route. */
    method Pop() returns (route: Route)
      requires Valid() && Size() > 0
      modifies this
      ensures Valid()
      ensures route in old(Contents())
      ensures forall r :: r in old(Contents()) ==> route.price <= r.price
      ensures Contents() == old(Contents()) - multiset{route}
      ensures Size() == old(Size()) - 1
    {
      RootIsMinimum(values);
      route := values[0];
      var n := |values| - 1;
      if n == 0 {
        assert values == [route];
        values := [];
        assert multiset(values) == old(multiset(values)) - multiset{route};
      } else {
        ReplaceRoot(values);
        values := SiftDown([values[n]] + values[1..n]);
        assert multiset(values) == old(multiset(values)) - multiset{route};
      }
    }
  }
}
