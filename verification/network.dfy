/** The network of Network.java: a fixed number of nodes, 1-based at the public
    boundary, joined by undirected edges kept in a square boolean matrix. */
module Networks {
  import opened Errors
  import opened Graph

  /** The adjacency matrix is the whole state of a network. */
  datatype Network = Network(matrix: Matrix) {

    /** The number of nodes, fixed when the network is built. */
    function Size(): (n: nat) {
      |matrix|
    }

    /** What every reachable state keeps: more than one node, a square,
        symmetric matrix, and no node joined to itself. */
    predicate Valid() {
      Size() > 1 && Undirected(matrix)
    }
  }

  /** Builds a network of `nodesNumber` nodes and no edges. */
  function New(nodesNumber: int): (r: Result<Network>)
    ensures r.Ok? <==> nodesNumber > 1
    ensures r.Err? ==> r.error == InvalidArgument(TooFewNodes)
    ensures r.Ok? ==> r.value.Valid() && r.value.Size() == nodesNumber
    ensures r.Ok? ==> forall i, j :: 0 <= i < nodesNumber && 0 <= j < nodesNumber ==> !r.value.matrix[i][j]
  {
    if nodesNumber <= 1 then
      Err(InvalidArgument(TooFewNodes))
    else
      Ok(Network(seq(nodesNumber, _ => seq(nodesNumber, _ => false))))
  }

  /** The argument checks shared by connect and query, in their order. */
  function Validate(net: Network, source: int, target: int): (r: Outcome)
    ensures r == Pass <==> 1 <= source <= net.Size() && 1 <= target <= net.Size() && source != target
    ensures r == Fail(InvalidArgument(NodeBelowOne)) <==> source < 1 || target < 1
    ensures r == Fail(InvalidArgument(NodeAboveCount)) <==>
      1 <= source && 1 <= target && (source > net.Size() || target > net.Size())
    ensures r == Fail(InvalidArgument(SameNode)) <==>
      1 <= source <= net.Size() && 1 <= target <= net.Size() && source == target
  {
    if source < 1 || target < 1 then
      Fail(InvalidArgument(NodeBelowOne))
    else if source > net.Size() || target > net.Size() then
      Fail(InvalidArgument(NodeAboveCount))
    else if source == target then
      Fail(InvalidArgument(SameNode))
    else
      Pass
  }

  /** Joins the (1-based) nodes `source` and `target`, after validating them. */
  function Connect(net: Network, source: int, target: int): (r: Result<Network>)
    requires net.Valid()
    ensures r.Err? <==> !(1 <= source <= net.Size() && 1 <= target <= net.Size() && source != target)
    ensures r.Err? ==> Validate(net, source, target) == Fail(r.error)
    ensures r.Ok? ==> r.value.Valid() && r.value.Size() == net.Size()
    ensures r.Ok? ==> r.value.matrix[source - 1][target - 1] && r.value.matrix[target - 1][source - 1]
    ensures r.Ok? ==> forall i, j :: 0 <= i < net.Size() && 0 <= j < net.Size() ==>
      r.value.matrix[i][j] == (net.matrix[i][j] || Joins(i, j, source - 1, target - 1))
  {
    match Validate(net, source, target)
    case Fail(e) => Err(e)
    case Pass =>
      var s, t := source - 1, target - 1;
      var m := net.matrix;
      var m1 := m[s := m[s][t := true]];
      var m2 := m1[t := m1[t][s := true]];
      Ok(Network(m2))
  }

  /** Connecting a pair that is already connected changes nothing. */
  lemma ConnectIdempotent(net: Network, source: int, target: int)
    requires net.Valid() && Connect(net, source, target).Ok?
    ensures Connect(Connect(net, source, target).value, source, target) == Connect(net, source, target)
  {
    var once := Connect(net, source, target).value;
    var twice := Connect(once, source, target).value;
    assert twice.matrix == once.matrix by {
      forall i | 0 <= i < once.Size()
        ensures twice.matrix[i] == once.matrix[i]
      {
        assert forall j :: 0 <= j < once.Size() ==> twice.matrix[i][j] == once.matrix[i][j];
      }
    }
  }

  /** An edge is undirected: the order of the two ends does not matter. */
  lemma ConnectSymmetric(net: Network, source: int, target: int)
    requires net.Valid()
    ensures Connect(net, source, target) == Connect(net, target, source)
  {
    if Connect(net, source, target).Ok? {
      var a := Connect(net, source, target).value;
      var b := Connect(net, target, source).value;
      assert a.matrix == b.matrix by {
        forall i | 0 <= i < a.Size()
          ensures a.matrix[i] == b.matrix[i]
        {
          assert forall j :: 0 <= j < a.Size() ==> a.matrix[i][j] == b.matrix[i][j];
        }
      }
    }
  }

  /** Connecting never disconnects: every pair reachable before stays reachable,
      and the two nodes just joined are reachable from each other. */
  lemma ConnectKeepsReachability(net: Network, source: int, target: int, a: int, b: int)
    requires net.Valid() && Connect(net, source, target).Ok?
    ensures Reachable(Connect(net, source, target).value.matrix, source - 1, target - 1)
    ensures Reachable(net.matrix, a, b) ==> Reachable(Connect(net, source, target).value.matrix, a, b)
  {
    var after := Connect(net, source, target).value;
    ReachEdge(after.matrix, source - 1, target - 1);
    if Reachable(net.matrix, a, b) {
      ReachableMonotone(net.matrix, after.matrix, a, b);
    }
  }

  /** The 0-based ids of the neighbours of `node`, in ascending order. */
  method GetAdjacent(net: Network, node: int) returns (adjacent: seq<int>)
    requires net.Valid() && IsNode(net.matrix, node)
    ensures forall x :: x in adjacent <==> 0 <= x < net.Size() && net.matrix[node][x]
    ensures forall a, b :: 0 <= a < b < |adjacent| ==> adjacent[a] < adjacent[b]
    ensures adjacent == [] <==> Isolated(net.matrix, node)
  {
    adjacent := [];
    var i := 0;
    while i < |net.matrix[node]|
      invariant 0 <= i <= net.Size()
      invariant forall x :: x in adjacent <==> 0 <= x < i && net.matrix[node][x]
      invariant forall a, b :: 0 <= a < b < |adjacent| ==> adjacent[a] < adjacent[b]
      invariant forall a :: 0 <= a < |adjacent| ==> adjacent[a] < i
    {
      if net.matrix[node][i] {
        adjacent := adjacent + [i];
      }
      i := i + 1;
    }
    if adjacent != [] {
      assert adjacent[0] in adjacent;
    }
  }

  /** Whether `node` (0-based) has at least one neighbour. */
  method HasAdjacent(net: Network, node: int) returns (has: bool)
    requires net.Valid() && IsNode(net.matrix, node)
    ensures has <==> !Isolated(net.matrix, node)
  {
    var i := 0;
    while i < |net.matrix[node]|
      invariant 0 <= i <= net.Size()
      invariant forall w :: 0 <= w < i ==> !net.matrix[node][w]
    {
      if net.matrix[node][i] {
        return true;
      }
      i := i + 1;
    }
    return false;
  }

  /** A fresh, independent copy of the matrix, one freshly allocated array per row. */
  method GetMatrixCopy(net: Network) returns (copy: array<array<bool>>)
    requires Square(net.matrix)
    ensures fresh(copy) && copy.Length == net.Size()
    ensures forall i :: 0 <= i < copy.Length ==> fresh(copy[i]) && copy[i][..] == net.matrix[i]
  {
    var m := net.matrix;
    var empty := new bool[0];
    copy := new array<bool>[|m|](_ => empty);
    var i := 0;
    while i < |m|
      invariant 0 <= i <= |m|
      invariant forall k :: 0 <= k < i ==> fresh(copy[k]) && copy[k][..] == m[k]
    {
      var row := m[i];
      copy[i] := new bool[|row|](j requires 0 <= j < |row| => row[j]);
      i := i + 1;
    }
  }
}
