/** Adjacency matrices and paths: the reference meaning of "connected" against
    which the network's search is proved. Nodes are 0-based matrix indices here. */
module Graph {

  /** Entry (i, j) is true when nodes i and j share an edge. */
  type Matrix = seq<seq<bool>>

  predicate Square(m: Matrix) {
    forall i :: 0 <= i < |m| ==> |m[i]| == |m|
  }

  predicate Symmetric(m: Matrix)
    requires Square(m)
  {
    forall i, j :: 0 <= i < |m| && 0 <= j < |m| ==> m[i][j] == m[j][i]
  }

  predicate LoopFree(m: Matrix)
    requires Square(m)
  {
    forall i :: 0 <= i < |m| ==> !m[i][i]
  }

  /** The shape of an undirected graph without self-loops. */
  predicate Undirected(m: Matrix) {
    Square(m) && Symmetric(m) && LoopFree(m)
  }

  predicate IsNode(m: Matrix, v: int) {
    0 <= v < |m|
  }

  /** The edge between `i` and `j` is the edge between `a` and `b`. */
  predicate Joins(i: int, j: int, a: int, b: int) {
    (i == a && j == b) || (i == b && j == a)
  }

  /** Node `v` has no edge at all. */
  predicate Isolated(m: Matrix, v: int)
    requires Square(m) && IsNode(m, v)
  {
    forall w :: 0 <= w < |m| ==> !m[v][w]
  }

  /** A non-empty walk whose consecutive nodes share an edge. */
  ghost predicate IsPath(m: Matrix, p: seq<int>)
    requires Square(m)
  {
    && |p| >= 1
    && (forall i :: 0 <= i < |p| ==> IsNode(m, p[i]))
    && (forall i :: 0 <= i < |p| - 1 ==> m[p[i]][p[i + 1]])
  }

  /** Some path leads from `s` to `t`. */
  ghost predicate Reachable(m: Matrix, s: int, t: int)
    requires Square(m)
  {
    exists p :: IsPath(m, p) && p[0] == s && p[|p| - 1] == t
  }

  /** `marks` (one flag per node) is closed under taking an edge. */
  ghost predicate Closed(m: Matrix, marks: seq<bool>)
    requires Square(m)
  {
    && |marks| == |m|
    && forall v, w :: 0 <= v < |m| && 0 <= w < |m| && marks[v] && m[v][w] ==> marks[w]
  }

  lemma ReachEdge(m: Matrix, s: int, t: int)
    requires Square(m) && IsNode(m, s) && IsNode(m, t) && m[s][t]
    ensures Reachable(m, s, t)
  {
    assert IsPath(m, [s, t]);
  }

  /** Reachability extends along one more edge. */
  lemma ReachExtend(m: Matrix, s: int, u: int, v: int)
    requires Square(m) && IsNode(m, u) && IsNode(m, v)
    requires Reachable(m, s, u) && m[u][v]
    ensures Reachable(m, s, v)
  {
    var p :| IsPath(m, p) && p[0] == s && p[|p| - 1] == u;
    var q := p + [v];
    assert q[|q| - 1] == v;
    assert forall i :: 0 <= i < |q| - 1 ==> q[i] == p[i];
    assert IsPath(m, q);
  }

  /** In an undirected graph a path can be walked backwards. */
  lemma ReachableSymmetric(m: Matrix, s: int, t: int)
    requires Undirected(m) && Reachable(m, s, t)
    ensures Reachable(m, t, s)
  {
    var p :| IsPath(m, p) && p[0] == s && p[|p| - 1] == t;
    var q := seq(|p|, i requires 0 <= i < |p| => p[|p| - 1 - i]);
    forall i | 0 <= i < |q| - 1
      ensures m[q[i]][q[i + 1]]
    {
      var j := |p| - 2 - i;
      assert m[p[j]][p[j + 1]];
    }
    assert IsPath(m, q);
  }

  /** A path that starts inside a closed set of nodes never leaves it. */
  lemma {:induction false} PathStaysInside(m: Matrix, marks: seq<bool>, p: seq<int>)
    requires Square(m) && Closed(m, marks) && IsPath(m, p) && marks[p[0]]
    ensures marks[p[|p| - 1]]
    decreases |p|
  {
    if |p| > 1 {
      var q := p[..|p| - 1];
      assert IsPath(m, q) by {
        forall i | 0 <= i < |q| - 1
          ensures m[q[i]][q[i + 1]]
        {
          assert q[i] == p[i] && q[i + 1] == p[i + 1];
        }
      }
      PathStaysInside(m, marks, q);
      assert m[p[|p| - 2]][p[|p| - 1]];
    }
  }

  /** A closed set holding `s` but not `t` separates them. */
  lemma ClosedSeparates(m: Matrix, marks: seq<bool>, s: int, t: int)
    requires Square(m) && Closed(m, marks) && IsNode(m, s) && IsNode(m, t)
    requires marks[s] && !marks[t]
    ensures !Reachable(m, s, t)
  {
    forall p | IsPath(m, p) && p[0] == s
      ensures p[|p| - 1] != t
    {
      PathStaysInside(m, marks, p);
    }
  }

  /** A node without edges reaches no other node. */
  lemma IsolatedReachesNothing(m: Matrix, s: int, t: int)
    requires Square(m) && IsNode(m, s) && IsNode(m, t) && s != t && Isolated(m, s)
    ensures !Reachable(m, s, t)
  {
    var marks := seq(|m|, i => i == s);
    assert Closed(m, marks);
    ClosedSeparates(m, marks, s, t);
  }

  /** In an undirected graph an isolated node reaches, and is reached by, no other node. */
  lemma IsolatedUnreachable(m: Matrix, s: int, t: int)
    requires Undirected(m) && IsNode(m, s) && IsNode(m, t) && s != t
    requires Isolated(m, s) || Isolated(m, t)
    ensures !Reachable(m, s, t)
  {
    if Isolated(m, s) {
      IsolatedReachesNothing(m, s, t);
    } else if Reachable(m, s, t) {
      ReachableSymmetric(m, s, t);
      IsolatedReachesNothing(m, t, s);
    }
  }

  /** Adding edges keeps every existing path. */
  lemma ReachableMonotone(m: Matrix, m': Matrix, s: int, t: int)
    requires Square(m) && Square(m') && |m'| == |m|
    requires forall i, j :: 0 <= i < |m| && 0 <= j < |m| && m[i][j] ==> m'[i][j]
    requires Reachable(m, s, t)
    ensures Reachable(m', s, t)
  {
    var p :| IsPath(m, p) && p[0] == s && p[|p| - 1] == t;
    assert IsPath(m', p);
  }
}
