# Cheapest flight routes: a verified model

This project models the route finder in `new.py` and proves its properties.
- The route finder loads the direct (zero-stop) flights between known airports into an undirected graph.
- It then finds the cheapest sequence of direct flights from an origin airport to a destination airport.
- It uses Dijkstra's algorithm over a binary min-heap of candidate routes, with lazy deletion. A route popped for an airport that is already visited is dropped rather than decreased in place.

The model follows the shape of the source:
- `MinHeap.Heap` is a class over the list that `heapq` maintains.
  - Push and pop are proved against a multiset of contents and a heap-order invariant.
  - The sift-up and sift-down loops are written out with their invariants.
- `Graphs.Graph` is a class whose one field is the adjacency table: a map from an airport code to the set of codes it has a direct flight with. `Connect` and `Load` update it in place.
- `Graphs.Graph.Dijkstra` is a loop over the heap, split into rounds (`Step`, `Advance`, `Settle`) and queueing methods (`PushFirstFlights`, `QueueFirstFlight`, `PushExtensions`, `QueueExtension`). The queueing methods state the exact new queue: one route per neighbour, built by `Settling.Extensions`.
  - Each of these is proved against a ghost map of settled prices and a frontier invariant (`Settling.Searching`).
  - The result is then proved correct against an independent definition: walks through the table (`Walks.IsWalk`) and their cost (`Walks.PathCost`).
    - A found route is a walk from the origin to the destination priced at its cost.
    - No walk between them costs less.
    - NotFound is returned exactly when no walk exists, or when the origin is the destination.

The graph's nodes are airport codes. `AIRPORTS` is keyed by code, so a code determines its airport record. The source's identity test `airport is destination` therefore compares codes here.

`Graph.neighbors` yields the set `Adjacency.Adj(table, node)`, and `Graphs.Graph.Neighbors` returns exactly that set. The search methods receive the table as a value and look up neighbours with `Adj`, the same lookup.

The price of a direct flight is a parameter `price: (Code, Code) -> real`. The only assumption made about it is that it is never negative (`Airports.NonNegative`). The haversine distance times a positive rate in `get_price` meets that assumption.

## Model

| member | source | states |
|---|---|---|
| MinHeap.Heap.constructor | new.py:14-15 | a new heap holds no routes and is heap-ordered |
| MinHeap.Heap.Push | new.py:16-18 | the heap stays heap-ordered and its contents gain exactly the pushed route |
| MinHeap.Heap.Pop | new.py:19-21 | on a non-empty heap: returns a route that was held and is no dearer than any held route; that one copy leaves the contents; the size drops by one; heap order is kept |
| MinHeap.Heap.Size | new.py:22-23 | the length is the number of routes held, counting multiplicity |
| MinHeap.SiftUp | new.py:16-18 | a list in heap order except at the newly appended slot becomes a heap-ordered permutation of itself |
| MinHeap.SiftDown | new.py:19-21 | a list in heap order except below the root becomes a heap-ordered permutation of itself |
| MinHeap.ParentIsHalf | new.py:16-21 | the parent slot used by the sifts is the usual `(i - 1) / 2` of heapq's list layout |
| MinHeap.RootIsMinimum | new.py:19-21 | in a heap-ordered list the first route is no dearer than any route in the list |
| MinHeap.ReplaceRoot | new.py:19-21 | moving the last route into the root slot leaves a list that lacks only the old root and is ordered everywhere except below the root |
| Adjacency.Link | new.py:56-58 | recording a flight adds each end to the other's neighbour set, adds both ends as keys and changes nothing else |
| Adjacency.LinkKeepsSymmetric | new.py:52-58 | recording a flight keeps every connection recorded at both ends (the graph stays undirected) |
| Adjacency.LinkIdempotent | new.py:56-58 | recording the same flight twice gives the same table as recording it once |
| Adjacency.LinkUndirected | new.py:56-58 | connecting a to b gives the same table as connecting b to a |
| Adjacency.LoadedNeighbours | new.py:61-73 | b is a neighbour of a in the loaded table exactly when some flight whose two airports are both known joins a and b, in either direction |
| Adjacency.LoadedWellFormed | new.py:65-72 | the loaded table mentions only known airports and is symmetric |
| Graphs.Graph.constructor | new.py:53-55 | a new graph has an empty, symmetric table |
| Graphs.Graph.Connect | new.py:56-58 | the table becomes the old table with the flight recorded at both ends, and stays symmetric |
| Graphs.Graph.Neighbors | new.py:59-60 | an airport the table has never seen has no neighbours; in a symmetric table each neighbour lists the airport back |
| Graphs.Graph.Load | new.py:61-73 | the fresh graph holds exactly the table obtained by recording, in order, each flight with two known airports and skipping the others; it is symmetric |
| Graphs.Graph.Dijkstra | new.py:83-108 | a found route is a walk from origin to destination priced at its cost; no walk between them costs less; NotFound is returned exactly when origin equals destination or no walk joins them |
| Graphs.Step | new.py:91-107 | pops a cheapest queued route; Found is returned exactly when that route ends at the unvisited destination, and then it is the popped route, a cheapest walk from origin to destination, with the origin different from the destination; a popped route to a visited airport is dropped with nothing else changed; otherwise its airport is visited at the route's price and the queue gains exactly the extensions to its unvisited neighbours; the search invariant is kept and the (unvisited, queue size) measure decreases |
| Graphs.Advance | new.py:94-107 | a route to a visited airport is dropped, with visited airports, settled prices and queue unchanged; otherwise its airport is added to the visited set at the route's price, and the queue gains exactly the extensions to its unvisited neighbours; the search invariant holds afterwards |
| Graphs.Settle | new.py:100-107 | for a cheapest route to an unvisited airport other than the destination, the queue gains exactly the extensions to its unvisited neighbours; settling the airport at the route's price keeps the search invariant and leaves fewer unvisited airports |
| Graphs.PushFirstFlights | new.py:85-88 | the queue holds exactly one route per neighbour of the origin, the one-flight route priced at that flight, and nothing else; every queued route is a valid priced walk from the origin |
| Graphs.QueueFirstFlight | new.py:87-88 | the queue gains exactly the one-flight route from the origin to the neighbour, priced at that flight |
| Graphs.PushExtensions | new.py:101-106 | the queue gains exactly one route per unvisited neighbour of the route's last airport (the route extended by that flight) and nothing else; every queued route remains a valid priced walk |
| Graphs.QueueExtension | new.py:103-106 | the queue gains exactly the route extended by one flight, priced as the old price plus that flight's price |
| Walks.ExtendWalk | new.py:104-105 | a walk extended by a direct flight is a walk, and its cost grows by that flight's price |
| Walks.PrefixCostsLess | new.py:104 | with non-negative prices no prefix of a walk costs more than the walk |
| Walks.ExitFlight | new.py:91-99 | a walk that starts inside a set of airports and ends outside it has a flight from inside to outside |
| Walks.LastIsKnown | new.py:56-58 | in a symmetric table the last airport of a walk of one or more flights has an entry of its own |
| Settling.ExtensionsGrow | new.py:101-106 | extending to one more airport adds exactly one new route, because extensions to different airports differ in their last airport |
| Settling.ExtensionsQueued | new.py:101-106 | a queue that gained the extensions to a set of airports keeps what it held and holds the extension to each of them |
| Settling.FirstFlightsQueued | new.py:86-88 | the extensions of the zero-cost route at the origin are the one-flight routes priced at their flight |
| Settling.ExtendRoute | new.py:104-106 | extending a valid queued route by a flight from its last airport gives a valid queued route |
| Settling.CostNonNegative | new.py:76-82 | with non-negative flight prices no walk costs less than nothing |
| Settling.OriginSettled | new.py:89-90 | the origin, marked visited at price 0, is already reached as cheaply as possible |
| Settling.FirstFrontier | new.py:85-90 | after the first flights are queued, every flight out of the visited set (just the origin) has a queued route no dearer than it |
| Settling.PoppedIsShortest | new.py:91-95 | the cheapest queued route, when it ends at an unvisited airport, costs no more than any walk to that airport |
| Settling.SkipKeepsFrontier | new.py:95-96 | dropping a route to a visited airport keeps a cheap enough queued route for every flight out of the visited set |
| Settling.SettleKeepsFrontier | new.py:100-107 | marking the popped airport visited after queuing its extensions keeps a cheap enough queued route for every flight out of the visited set |
| Settling.ExhaustedMeansUnreachable | new.py:91-108 | when the queue runs out before the destination is visited, no walk joins origin and destination |
| Settling.FewerUnsettled | new.py:107 | marking a known, unvisited airport as visited leaves fewer unvisited known airports (why the search terminates) |
| Settling.StartSearch | new.py:85-90 | the search invariant holds when the loop starts |
| Settling.PopStep | new.py:91-95 | a popped route is a valid priced walk, the rest of the queue stays valid, and a popped route to an unvisited airport is a cheapest walk to it |
| Settling.SkipStep | new.py:95-96 | skipping a route to a visited airport keeps the search invariant |
| Settling.SettleStep | new.py:100-107 | visiting the popped airport at the route's price keeps the search invariant and decreases the number of unvisited known airports |

## Left out

- The CSV readers `get_airports` and `get_flights` and the `AIRPORTS` table are file input. They become the parameters `flights` and `airports` of `Graphs.Graph.Load`.
- The `__main__` block is a demonstration with console output.
- `get_price` is not modelled: the haversine formula over floating point, the 0.1 cents-per-kilometre rate and the `functools.lru_cache` memoisation. The price is a parameter, assumed non-negative. Arithmetic is on `real`, so floating-point rounding is not modelled.
- MinHeap.Heap.Pop: heapq orders `Route` tuples by price and then by path. The model orders by price alone, so among equally cheap routes it promises some cheapest one, not the one with the smallest path.
- MinHeap.Heap.Pop: requires a non-empty heap. `heappop` raises `IndexError` on an empty list; the only caller never pops an empty heap, because it loops `while routes:`.
- MinHeap.SiftDown: heapq's `heappop` moves the hole down to a leaf and then sifts up. The model uses the textbook sift-down, which reaches the same kind of state: a heap-ordered permutation.
- Graphs.Graph.Neighbors: the source's `defaultdict` inserts an empty entry for an airport it is asked about. The model's lookup leaves the table unchanged, and no result depends on that entry.
- Graphs.Graph.Dijkstra: the source returns the float infinity when no route is found. The model returns `NotFound`.
- Graphs.Graph.Dijkstra: the source's answer is fixed. `heapq` pops the least `(price, path)` tuple, and that order is total on the routes queued. The model's heap orders by price alone (see the `MinHeap.Heap.Pop` line), so when several routes are equally cheap the model returns some one of them. Its contract therefore speaks only of price and validity.
- Graphs.Graph.Dijkstra: origin and destination the same. The source marks the origin visited before the loop, so every route back to it is dropped and infinity is returned. The model follows the code: `NotFound` in that case, even though a zero-cost path holding only the origin would be the natural answer.
- Graphs.PushExtensions: the source tests `neighbor not in visited` inside the loop. The model removes the visited airports from the neighbour set first. `visited` does not change during that loop, so the same routes are queued.
