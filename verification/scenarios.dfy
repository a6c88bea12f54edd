/** The concrete networks exercised by NetworkTest.java, with the answers the
    model gives for them. */
module Scenarios {
  import opened Errors
  import opened Graph
  import opened Networks
  import opened Queries

  /** The rejected and accepted calls of the construction and connection tests. */
  lemma ArgumentChecks()
    ensures New(4).Ok? && New(4).value.Size() == 4
    ensures New(-3) == Err(InvalidArgument(TooFewNodes))
    ensures Connect(New(4).value, 0, 2) == Err(InvalidArgument(NodeBelowOne))
    ensures Connect(New(4).value, 1, -1) == Err(InvalidArgument(NodeBelowOne))
    ensures Connect(New(4).value, 5, 2) == Err(InvalidArgument(NodeAboveCount))
    ensures Connect(New(6).value, 1, 7) == Err(InvalidArgument(NodeAboveCount))
    ensures Connect(New(6).value, 4, 4) == Err(InvalidArgument(SameNode))
  {
  }

  /** After connecting 3 and 7 in an 8-node network, entry (2, 6) is set and (1, 3) is not. */
  lemma ConnectSetsOnlyThePair()
    ensures Connect(New(8).value, 3, 7).Ok?
    ensures Connect(New(8).value, 3, 7).value.matrix[2][6]
    ensures !Connect(New(8).value, 3, 7).value.matrix[1][3]
  {
  }

  /** The edges of `SparseNetwork`, 0-based. */
  predicate SparseEdge(i: int, j: int) {
    Joins(i, j, 0, 2) || Joins(i, j, 0, 7) || Joins(i, j, 1, 7) || Joins(i, j, 2, 6) ||
    Joins(i, j, 3, 4) || Joins(i, j, 3, 5) || Joins(i, j, 4, 5)
  }

  /** The 8-node network shared by both query tests, with the edges common to
      both: 1-3, 1-8, 2-8, 3-7, 4-5, 4-6, 5-6. */
  function SparseNetwork(): (net: Network)
    ensures net.Valid() && net.Size() == 8
    ensures forall i, j :: 0 <= i < 8 && 0 <= j < 8 ==>
      (net.matrix[i][j] <==> SparseEdge(i, j))
  {
    var n0 := New(8).value;
    var n1 := Connect(n0, 1, 3).value;
    var n2 := Connect(n1, 1, 8).value;
    var n3 := Connect(n2, 2, 8).value;
    var n4 := Connect(n3, 3, 7).value;
    var n5 := Connect(n4, 4, 5).value;
    var n6 := Connect(n5, 4, 6).value;
    Connect(n6, 5, 6).value
  }

  /** The query test that expects a connection: the ten edges are connected in
      the test's order, and node 2 reaches node 6 (for instance through 8, 1 and 6). */
  method QueryExistConnection() returns (r: Result<bool>)
    ensures r == Ok(true)
  {
    var n0 := New(8).value;
    var n1 := Connect(n0, 1, 3).value;
    var n2 := Connect(n1, 1, 6).value;
    assert n2.matrix[0][5];
    var n3 := Connect(n2, 1, 8).value;
    assert n3.matrix[0][5] && n3.matrix[7][0];
    var n4 := Connect(n3, 2, 8).value;
    assert n4.matrix[0][5] && n4.matrix[7][0] && n4.matrix[1][7];
    var n5 := Connect(n4, 3, 7).value;
    assert n5.matrix[0][5] && n5.matrix[7][0] && n5.matrix[1][7];
    var n6 := Connect(n5, 4, 5).value;
    assert n6.matrix[0][5] && n6.matrix[7][0] && n6.matrix[1][7];
    var n7 := Connect(n6, 4, 6).value;
    assert n7.matrix[0][5] && n7.matrix[7][0] && n7.matrix[1][7];
    var n8 := Connect(n7, 5, 6).value;
    assert n8.matrix[0][5] && n8.matrix[7][0] && n8.matrix[1][7];
    var n9 := Connect(n8, 5, 7).value;
    assert n9.matrix[0][5] && n9.matrix[7][0] && n9.matrix[1][7];
    var net := Connect(n9, 5, 8).value;
    assert net.matrix[0][5] && net.matrix[7][0] && net.matrix[1][7];
    ReachEdge(net.matrix, 1, 7);
    ReachExtend(net.matrix, 1, 7, 0);
    ReachExtend(net.matrix, 1, 0, 5);
    r := Query(net, 2, 6);
  }

  /** The query test that expects no connection: nodes 1, 2, 3, 7 and 8 form a
      closed group that does not hold node 6. */
  method QueryNotExistConnection() returns (r: Result<bool>)
    ensures r == Ok(false)
  {
    var net := SparseNetwork();
    var group := seq(8, i => i in {0, 1, 2, 6, 7});
    assert Closed(net.matrix, group);
    ClosedSeparates(net.matrix, group, 1, 5);
    r := Query(net, 2, 6);
  }
}
