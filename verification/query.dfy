/** The reachability query of Network.java: a direct-edge fast path, an early
    answer for isolated endpoints, and a breadth-first search. */
module Queries {
  import opened Errors
  import opened Graph
  import opened Networks

  /** The number of nodes not yet marked; the search's termination measure. */
  function CountUnmarked(marks: seq<bool>): (c: nat)
    ensures c <= |marks|
    ensures c == 0 <==> forall i :: 0 <= i < |marks| ==> marks[i]
  {
    if marks == [] then 0
    else (if marks[0] then 0 else 1) + CountUnmarked(marks[1..])
  }

  /** Marking an unmarked node leaves one node fewer to visit. */
  lemma {:induction false} MarkDecreasesUnmarked(marks: seq<bool>, i: int)
    requires 0 <= i < |marks| && !marks[i]
    ensures CountUnmarked(marks[i := true]) == CountUnmarked(marks) - 1
    decreases |marks|
  {
    if i > 0 {
      assert marks[i := true][1..] == marks[1..][i - 1 := true];
      MarkDecreasesUnmarked(marks[1..], i - 1);
    } else {
      assert marks[i := true][1..] == marks[1..];
    }
  }

  /** No node occurs twice. */
  predicate Distinct(s: seq<int>) {
    forall i, j :: 0 <= i < j < |s| ==> s[i] != s[j]
  }

  /** The bookkeeping of the search: `visited` flags exactly the nodes of
      `enqueued`, each enqueued once, `queue` is the part of `enqueued` not yet
      expanded, and every visited node is reachable from `source`; `target` is
      never visited, because meeting it ends the search. */
  ghost predicate Explored(m: Matrix, source: int, target: int,
                           visited: seq<bool>, queue: seq<int>, enqueued: seq<int>)
    requires Square(m)
  {
    && |visited| == |m| && IsNode(m, source) && IsNode(m, target)
    && visited[source] && !visited[target]
    && |enqueued| >= 1 && enqueued[0] == source
    && (forall v :: v in enqueued <==> 0 <= v < |m| && visited[v])
    && Distinct(enqueued)
    && |queue| <= |enqueued| && queue == enqueued[|enqueued| - |queue|..]
    && (forall v :: 0 <= v < |m| && visited[v] ==> Reachable(m, source, v))
  }

  /** Every visited node outside `pending` has all of its neighbours visited. */
  ghost predicate Settled(m: Matrix, visited: seq<bool>, pending: seq<int>)
    requires Square(m) && |visited| == |m|
  {
    forall v, w :: 0 <= v < |m| && 0 <= w < |m| && visited[v] && v !in pending && m[v][w] ==> visited[w]
  }

  /** Enqueuing an unvisited neighbour `node` of the visited node `u` keeps the
      bookkeeping and leaves one node fewer unvisited. */
  lemma Enqueue(m: Matrix, source: int, target: int, visited: seq<bool>, queue: seq<int>,
                enqueued: seq<int>, u: int, node: int)
    requires Square(m) && Explored(m, source, target, visited, queue, enqueued)
    requires IsNode(m, u) && visited[u] && IsNode(m, node) && m[u][node]
    requires !visited[node] && node != target
    requires Settled(m, visited, [u] + queue)
    ensures Explored(m, source, target, visited[node := true], queue + [node], enqueued + [node])
    ensures Settled(m, visited[node := true], [u] + (queue + [node]))
    ensures CountUnmarked(visited[node := true]) == CountUnmarked(visited) - 1
  {
    ReachExtend(m, source, u, node);
    MarkDecreasesUnmarked(visited, node);
    var e := enqueued + [node];
    assert e[|e| - (|queue| + 1)..] == enqueued[|enqueued| - |queue|..] + [node];
  }

  /** How one expansion step has changed the search state so far: the queue only
      grew at its end, the enqueue history records exactly the appended nodes,
      the appended nodes are marked and nothing else is, they come in ascending
      order, and they are exactly the nodes of `seen` that were unvisited. */
  ghost predicate Extends(m: Matrix, visited: seq<bool>, queue: seq<int>, enqueued: seq<int>,
                          visited': seq<bool>, queue': seq<int>, enqueued': seq<int>, seen: seq<int>)
  {
    && |visited| == |m| && |visited'| == |m|
    && |queue| <= |queue'| && queue'[..|queue|] == queue
    && enqueued' == enqueued + queue'[|queue|..]
    && (forall w :: 0 <= w < |m| ==> (visited'[w] <==> visited[w] || w in queue'[|queue|..]))
    && (forall x :: x in queue'[|queue|..] <==> x in seen && 0 <= x < |m| && !visited[x])
    && (forall a, b :: |queue| <= a < b < |queue'| ==> queue'[a] < queue'[b])
  }

  /** The loop invariant of an expansion of `u` that has walked over the neighbours in `seen`. */
  ghost predicate Expanding(m: Matrix, source: int, target: int, u: int,
                            visited: seq<bool>, queue: seq<int>, enqueued: seq<int>,
                            visited': seq<bool>, queue': seq<int>, enqueued': seq<int>, seen: seq<int>)
  {
    && Square(m) && IsNode(m, u)
    && Explored(m, source, target, visited', queue', enqueued') && visited'[u]
    && Settled(m, visited', [u] + queue')
    && CountUnmarked(visited') <= CountUnmarked(visited)
    && CountUnmarked(visited') + |queue'| == CountUnmarked(visited) + |queue|
    && Extends(m, visited, queue, enqueued, visited', queue', enqueued', seen)
  }

  /** Enqueuing `node`, larger than every node seen so far and neither queued
      nor visited, extends the step by that node. */
  lemma ExtendsByEnqueue(m: Matrix, visited: seq<bool>, queue: seq<int>, enqueued: seq<int>,
                         visited': seq<bool>, queue': seq<int>, enqueued': seq<int>,
                         seen: seq<int>, node: int)
    requires Extends(m, visited, queue, enqueued, visited', queue', enqueued', seen)
    requires 0 <= node < |m| && !visited'[node] && node !in queue'
    requires forall x :: x in seen ==> x < node
    ensures Extends(m, visited, queue, enqueued, visited'[node := true], queue' + [node],
                    enqueued' + [node], seen + [node])
  {
    var q := queue' + [node];
    assert q[|queue|..] == queue'[|queue|..] + [node];
    assert q[..|queue|] == queue'[..|queue|];
    forall a | |queue| <= a < |queue'|
      ensures queue'[a] < node
    {
      assert queue'[a] in queue'[|queue|..];
    }
  }

  /** Passing over `node`, which is already queued or visited, extends the step
      by nothing new. */
  lemma ExtendsBySkip(m: Matrix, visited: seq<bool>, queue: seq<int>, enqueued: seq<int>,
                      visited': seq<bool>, queue': seq<int>, enqueued': seq<int>,
                      seen: seq<int>, node: int)
    requires Extends(m, visited, queue, enqueued, visited', queue', enqueued', seen)
    requires forall x :: x in queue ==> 0 <= x < |m| && visited[x]
    requires 0 <= node < |m| && (visited'[node] || node in queue')
    ensures Extends(m, visited, queue, enqueued, visited', queue', enqueued', seen + [node])
  {
    assert queue' == queue'[..|queue|] + queue'[|queue|..];
  }

  /** Handling one more neighbour `node` of `u` other than the target keeps the
      expansion invariant, whether `node` is enqueued or passed over. */
  lemma ExpandingStep(m: Matrix, source: int, target: int, u: int,
                      visited: seq<bool>, queue: seq<int>, enqueued: seq<int>,
                      visited': seq<bool>, queue': seq<int>, enqueued': seq<int>,
                      seen: seq<int>, node: int)
    requires Square(m) && Explored(m, source, target, visited, queue, enqueued)
    requires Expanding(m, source, target, u, visited, queue, enqueued, visited', queue', enqueued', seen)
    requires IsNode(m, node) && m[u][node] && node != target
    requires forall x :: x in seen ==> x < node
    ensures node !in queue' && !visited'[node] ==>
      Expanding(m, source, target, u, visited, queue, enqueued,
                visited'[node := true], queue' + [node], enqueued' + [node], seen + [node])
    ensures !(node !in queue' && !visited'[node]) ==>
      Expanding(m, source, target, u, visited, queue, enqueued, visited', queue', enqueued', seen + [node])
  {
    if node !in queue' && !visited'[node] {
      Enqueue(m, source, target, visited', queue', enqueued', u, node);
      ExtendsByEnqueue(m, visited, queue, enqueued, visited', queue', enqueued', seen, node);
    } else {
      assert forall x :: x in queue ==> x in enqueued;
      ExtendsBySkip(m, visited, queue, enqueued, visited', queue', enqueued', seen, node);
    }
  }

  /** Once every neighbour of `u` is walked over, `u` has all of them visited,
      the appended nodes are exactly its formerly unvisited neighbours, and
      every expanded node is settled. */
  lemma ExpandingDone(m: Matrix, source: int, target: int, u: int,
                      visited: seq<bool>, queue: seq<int>, enqueued: seq<int>,
                      visited': seq<bool>, queue': seq<int>, enqueued': seq<int>, seen: seq<int>)
    requires Expanding(m, source, target, u, visited, queue, enqueued, visited', queue', enqueued', seen)
    requires forall x :: x in seen <==> 0 <= x < |m| && m[u][x]
    ensures forall x :: x in queue'[|queue|..] <==> 0 <= x < |m| && m[u][x] && !visited[x]
    ensures forall w :: 0 <= w < |m| && m[u][w] ==> visited'[w]
    ensures Settled(m, visited', queue')
  {
    forall w | 0 <= w < |m| && m[u][w]
      ensures visited'[w]
    {
      assert w in seen;
    }
  }

  /** What the expansion invariant says about the state so far, spelled out. */
  lemma ExpandingFacts(m: Matrix, source: int, target: int, u: int,
                       visited: seq<bool>, queue: seq<int>, enqueued: seq<int>,
                       visited': seq<bool>, queue': seq<int>, enqueued': seq<int>, seen: seq<int>)
    requires Expanding(m, source, target, u, visited, queue, enqueued, visited', queue', enqueued', seen)
    ensures Explored(m, source, target, visited', queue', enqueued')
    ensures |queue| <= |queue'| && queue'[..|queue|] == queue
    ensures enqueued' == enqueued + queue'[|queue|..]
    ensures forall w :: 0 <= w < |m| ==> (visited'[w] <==> visited[w] || w in queue'[|queue|..])
    ensures forall a, b :: |queue| <= a < b < |queue'| ==> queue'[a] < queue'[b]
    ensures CountUnmarked(visited') <= CountUnmarked(visited)
    ensures CountUnmarked(visited') + |queue'| == CountUnmarked(visited) + |queue|
  {
  }

  lemma PrefixStep(s: seq<int>, k: int)
    requires 0 <= k < |s|
    ensures s[..k + 1] == s[..k] + [s[k]]
  {
  }

  /** One step of the search: walks the neighbours of the dequeued node `u` in
      ascending order, stopping at `target`, and enqueues and marks every
      neighbour neither queued nor visited yet. */
  method Expand(net: Network, source: int, target: int, u: int,
                visited: seq<bool>, queue: seq<int>, ghost enqueued: seq<int>)
    returns (hit: bool, visited': seq<bool>, queue': seq<int>, ghost enqueued': seq<int>)
    requires net.Valid() && Explored(net.matrix, source, target, visited, queue, enqueued)
    requires IsNode(net.matrix, u) && visited[u] && Settled(net.matrix, visited, [u] + queue)
    ensures hit ==> net.matrix[u][target] && Reachable(net.matrix, source, target)
    ensures Explored(net.matrix, source, target, visited', queue', enqueued')
    // the queue only grows at its end, and the enqueue history records exactly the appended nodes
    ensures |queue| <= |queue'| && queue'[..|queue|] == queue
    ensures enqueued' == enqueued + queue'[|queue|..]
    // the appended nodes are marked, no other mark changes, and they come in ascending order
    ensures forall w :: 0 <= w < |net.matrix| ==> (visited'[w] <==> visited[w] || w in queue'[|queue|..])
    ensures forall a, b :: |queue| <= a < b < |queue'| ==> queue'[a] < queue'[b]
    // without a hit, the appended nodes are exactly the neighbours of `u` that were unvisited
    ensures !hit ==> forall x :: x in queue'[|queue|..] <==> 0 <= x < |net.matrix| && net.matrix[u][x] && !visited[x]
    ensures !hit ==> forall w :: 0 <= w < |net.matrix| && net.matrix[u][w] ==> visited'[w]
    ensures !hit ==> Settled(net.matrix, visited', queue')
    ensures !hit ==> CountUnmarked(visited') <= CountUnmarked(visited)
    ensures !hit ==> CountUnmarked(visited') + |queue'| == CountUnmarked(visited) + |queue|
  {
    var m := net.matrix;
    var adjacent := GetAdjacent(net, u);
    assert forall j :: 0 <= j < |adjacent| ==> adjacent[j] in adjacent;
    visited', queue', enqueued' := visited, queue, enqueued;
    var k := 0;
    while k < |adjacent|
      invariant 0 <= k <= |adjacent|
      invariant Expanding(m, source, target, u, visited, queue, enqueued, visited', queue', enqueued', adjacent[..k])
    {
      var node := adjacent[k];
      if node == target {
        ReachExtend(m, source, u, node);
        ExpandingFacts(m, source, target, u, visited, queue, enqueued, visited', queue', enqueued', adjacent[..k]);
        return true, visited', queue', enqueued';
      }
      forall x | x in adjacent[..k]
        ensures x < node
      {
        var j :| 0 <= j < k && adjacent[j] == x;
      }
      ExpandingStep(m, source, target, u, visited, queue, enqueued, visited', queue', enqueued', adjacent[..k], node);
      PrefixStep(adjacent, k);
      if node !in queue' && !visited'[node] {
        queue' := queue' + [node];
        visited' := visited'[node := true];
        enqueued' := enqueued' + [node];
      }
      k := k + 1;
    }
    assert adjacent[..k] == adjacent;
    ExpandingDone(m, source, target, u, visited, queue, enqueued, visited', queue', enqueued', adjacent);
    ExpandingFacts(m, source, target, u, visited, queue, enqueued, visited', queue', enqueued', adjacent);
    hit := false;
  }

  /** Breadth-first search from `source` for `target` (both 0-based).
      `enqueued` lists every node in the order it entered the queue. */
  method Search(net: Network, source: int, target: int) returns (found: bool, ghost enqueued: seq<int>)
    requires net.Valid() && IsNode(net.matrix, source) && IsNode(net.matrix, target) && source != target
    ensures found <==> Reachable(net.matrix, source, target)
    ensures Distinct(enqueued) && |enqueued| >= 1 && enqueued[0] == source
    ensures forall v :: v in enqueued ==> IsNode(net.matrix, v) && Reachable(net.matrix, source, v)
  {
    var m := net.matrix;
    var visited := seq(|m|, _ => false)[source := true];
    var queue := [source];
    enqueued := [source];
    assert IsPath(m, [source]);
    while queue != []
      invariant Explored(m, source, target, visited, queue, enqueued)
      invariant Settled(m, visited, queue)
      decreases CountUnmarked(visited), |queue|
    {
      var u := queue[0];
      assert u in enqueued;
      assert [u] + queue[1..] == queue;
      var hit;
      hit, visited, queue, enqueued := Expand(net, source, target, u, visited, queue[1..], enqueued);
      if hit {
        return true, enqueued;
      }
    }
    ClosedSeparates(m, visited, source, target);
    found := false;
  }

  /** Whether a path joins the (1-based) nodes `source` and `target`. */
  method Query(net: Network, source: int, target: int) returns (r: Result<bool>)
    requires net.Valid()
    ensures r.Err? <==> !(1 <= source <= net.Size() && 1 <= target <= net.Size() && source != target)
    ensures r.Err? ==> Validate(net, source, target) == Fail(r.error)
    ensures r.Ok? ==> (r.value <==> Reachable(net.matrix, source - 1, target - 1))
    ensures r.Ok? && net.matrix[source - 1][target - 1] ==> r.value
    ensures r.Ok? && (Isolated(net.matrix, source - 1) || Isolated(net.matrix, target - 1)) ==> !r.value
  {
    var check := Validate(net, source, target);
    if check.Fail? {
      return Err(check.error);
    }
    var s, t := source - 1, target - 1;
    if net.matrix[s][t] {
      ReachEdge(net.matrix, s, t);
      assert net.matrix[t][s];
      return Ok(true);
    }
    var sourceHas := HasAdjacent(net, s);
    if sourceHas {
      var targetHas := HasAdjacent(net, t);
      if targetHas {
        var found, _ := Search(net, s, t);
        return Ok(found);
      }
    }
    IsolatedUnreachable(net.matrix, s, t);
    return Ok(false);
  }
}
