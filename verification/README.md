# Network: reachability in a fixed undirected graph

This project is a Dafny model of `Network`, a Java class that holds a network of N nodes (N > 1). The nodes are joined by undirected edges and stored in an N×N boolean adjacency matrix. The class offers four operations:

- a constructor that rejects node counts of 1 or less;
- `connect(source, target)` on 1-based node ids;
- `query(source, target)`, which says whether any path joins two nodes;
- `getMatrixCopy()`, which returns a snapshot of the matrix.

`connect` and `query` share one argument check. `query` works in three stages:

1. It answers true at once for directly adjacent nodes.
2. It answers false when either endpoint has no neighbour.
3. Otherwise it runs a breadth-first search, using a visited array and a FIFO queue.

The model is split into these files:

- `errors.dfy` (module `Errors`): the single error kind, `InvalidArgument`, with the rule that raised it. Also the `Result`/`Outcome` shapes that take the place of thrown exceptions.
- `graph.dfy` (module `Graph`): the matrix shape invariants (square, symmetric, loop-free) and paths. It defines `Reachable`, the reference meaning of "connected" that the search is proved against, and the path lemmas the proofs use.
- `network.dfy` (module `Networks`): the network value, the constructor, the argument check, `connect`, the two adjacency helpers and the matrix copy.
- `query.dfy` (module `Queries`): `query` and its breadth-first search. The search is proved sound and complete against `Reachable`, terminating, and enqueuing each node at most once.
- `scenarios.dfy` (module `Scenarios`): the concrete networks and calls of the unit tests, with the answers the model proves for them.

A network is an immutable value. `Connect` returns either the new network or the error. A rejected call therefore produces no new state, and the caller keeps the unchanged network. `Query` takes the network as a value and returns only a result, so it cannot change the matrix.

The search is proved with these loop invariants:

- every visited node is reachable from the source;
- the target is never marked visited;
- `visited` flags exactly the nodes that were ever enqueued, and each of them was enqueued once;
- the queue is the not-yet-expanded tail of that enqueue order;
- every visited node that has left the queue has all of its neighbours visited.

When the queue runs empty, the visited set is closed under adjacency, holds the source and excludes the target. So no path joins the two (`Graph.ClosedSeparates`).

## Model

| member | source | states |
|---|---|---|
| Networks.New | src/main/java/com/upwork/eas/Network.java:28-33 | fails with TooFewNodes exactly when the node count is at most 1; otherwise yields a valid N×N network with no edges |
| Networks.Validate | src/main/java/com/upwork/eas/Network.java:138-150 | passes exactly for 1 ≤ source, target ≤ N with source ≠ target; ids below 1 are reported first, then ids above N, then equal ids |
| Networks.Connect | src/main/java/com/upwork/eas/Network.java:47-50 | rejects exactly the pairs the check rejects, with the check's error; otherwise sets (s-1,t-1) and (t-1,s-1), changes no other entry, and keeps symmetry, the false diagonal and N |
| Networks.ConnectIdempotent | src/main/java/com/upwork/eas/Network.java:47-50 | connecting the same pair a second time gives the same network |
| Networks.ConnectSymmetric | src/main/java/com/upwork/eas/Network.java:49 | connect(s,t) and connect(t,s) give the same result |
| Networks.ConnectKeepsReachability | src/main/java/com/upwork/eas/Network.java:49 | after connect(s,t), s reaches t, and every pair that was reachable before still is |
| Networks.GetAdjacent | src/main/java/com/upwork/eas/Network.java:102-110 | returns exactly the columns set in the node's row, strictly ascending; the list is empty iff the node is isolated |
| Networks.HasAdjacent | src/main/java/com/upwork/eas/Network.java:158-166 | true iff the node's row has some true entry |
| Networks.GetMatrixCopy | src/main/java/com/upwork/eas/Network.java:119-125 | returns a freshly allocated array of freshly allocated rows whose contents equal the matrix |
| Queries.Query | src/main/java/com/upwork/eas/Network.java:63-93 | rejects exactly the invalid pairs, with the check's error; for valid pairs answers true iff a path joins the nodes; true whenever they are adjacent; false when either endpoint is isolated |
| Queries.Search | src/main/java/com/upwork/eas/Network.java:73-92 | the breadth-first search finds the target iff it is reachable from the source; the enqueue order starts at the source, holds no node twice, and lists only reachable nodes |
| Queries.Expand | src/main/java/com/upwork/eas/Network.java:78-88 | a hit means the target is a neighbour of the dequeued node and reachable; the queue only grows at its end and the enqueue history gains exactly the appended nodes, which are marked (no other mark changes) and ascending; without a hit they are exactly the formerly unvisited neighbours, every neighbour ends visited, and the unvisited count plus the queue length does not grow |
| Queries.ExpandingStep | src/main/java/com/upwork/eas/Network.java:84-87 | handling one more non-target neighbour, enqueued when neither queued nor visited and passed over otherwise, keeps the expansion invariant |
| Queries.ExpandingDone | src/main/java/com/upwork/eas/Network.java:80-88 | after the last neighbour, the appended nodes are exactly the formerly unvisited neighbours and every expanded node has all neighbours visited |
| Queries.ExtendsByEnqueue | src/main/java/com/upwork/eas/Network.java:84-87 | appending a node larger than all seen so far keeps the queue an ascending extension recorded in the enqueue history |
| Queries.ExtendsBySkip | src/main/java/com/upwork/eas/Network.java:84 | passing over a queued or visited node changes neither the queue nor the marks |
| Queries.Enqueue | src/main/java/com/upwork/eas/Network.java:84-87 | enqueuing and marking an unvisited non-target neighbour of a visited node keeps the bookkeeping and leaves one unvisited node fewer |
| Queries.MarkDecreasesUnmarked | src/main/java/com/upwork/eas/Network.java:76-86 | marking an unvisited node lowers the unvisited count by one, which bounds the search |
| Queries.CountUnmarked | src/main/java/com/upwork/eas/Network.java:73 | the unvisited count is at most N, and it is zero iff every node is visited |
| Graph.ReachEdge | src/main/java/com/upwork/eas/Network.java:68-70 | directly adjacent nodes are reachable, which justifies the fast path |
| Graph.ReachExtend | src/main/java/com/upwork/eas/Network.java:80-86 | a neighbour of a node reachable from the source is reachable too |
| Graph.ReachableSymmetric | src/main/java/com/upwork/eas/Network.java:20-22 | in the undirected graph reachability is symmetric, so query(s,t) and query(t,s) agree |
| Graph.PathStaysInside | src/main/java/com/upwork/eas/Network.java:77-92 | a path that starts in a set closed under adjacency ends in it |
| Graph.ClosedSeparates | src/main/java/com/upwork/eas/Network.java:89-92 | a closed set that holds the source but not the target rules out every path between them, so the final false is correct |
| Graph.IsolatedReachesNothing | src/main/java/com/upwork/eas/Network.java:72 | a node with no neighbours reaches no other node |
| Graph.IsolatedUnreachable | src/main/java/com/upwork/eas/Network.java:72 | if either endpoint is isolated, no path joins two distinct nodes; this uses symmetry for the target |
| Graph.ReachableMonotone | src/main/java/com/upwork/eas/Network.java:49 | adding edges keeps every existing path |
| Scenarios.ArgumentChecks | src/test/java/com/upwork/eas/NetworkTest.java:15-70 | New(4) has 4 nodes; New(-3) fails; connect(0,2), (1,-1), (5,2), (1,7) and (4,4) fail with the expected rule |
| Scenarios.ConnectSetsOnlyThePair | src/test/java/com/upwork/eas/NetworkTest.java:26-40 | after connect(3,7), entry (2,6) is set and entry (1,3) is not |
| Scenarios.SparseNetwork | src/test/java/com/upwork/eas/NetworkTest.java:92-100 | the seven-edge test network is valid and has exactly those seven edges |
| Scenarios.QueryExistConnection | src/test/java/com/upwork/eas/NetworkTest.java:73-89 | on the ten-edge network, query(2,6) returns true |
| Scenarios.QueryNotExistConnection | src/test/java/com/upwork/eas/NetworkTest.java:91-104 | on the seven-edge network, query(2,6) returns false |

## Left out

- Exception messages: a rejection is modelled as `InvalidArgument` with a `Reason` naming the rule that fired. The message text is not modelled.
- Java object identity and mutation: the network is a value, so "a rejected connect leaves the matrix unchanged" and "query does not modify the matrix" hold by construction. They are not separate contracts.
- Networks.GetMatrixCopy: only states that the returned arrays are fresh and have equal contents. Because the network is a value, writing to the copy cannot reach it. Aliasing between the copy's own rows is not stated.
- Java integer width: N is an array length and node ids are compared only against 1 and N, so no arithmetic can overflow. Ids are unbounded `int`s.
- `ArrayDeque`, `ArrayList` and `Arrays.copyOf` are modelled as sequences and array initialisers. The redundant `queue.contains` test is kept as a sequence-membership test.
- The short-circuit follows `hasAdjacent(source) && hasAdjacent(target)` at Network.java:72: the code searches only when BOTH endpoints have a neighbour, so it answers false when EITHER is isolated. The model does the same and proves this answer correct.
