/**
 The read-only road graph the search runs over. Nodes are arena indices
 `0 .. |points| - 1`; the graph owns their positions, the distance between
 two positions, the neighbour lookup and the metric scale. None of these are
 computed by the route planner itself: they are the collaborators it calls.
 */
module RouteModel {

  /** Index of a node in the graph's arena. */
  type NodeId = nat

  /** Normalised map position of a node. */
  datatype Point = Point(x: real, y: real)

  /**
   The graph as the planner sees it.
   - `distance` is the node-to-node distance in normalised units;
   - `findNeighbors(c, visited)` is the lookup `Node::FindNeighbors` performs for
     node `c`, which depends on which nodes are already visited;
   - `metricScale` converts a normalised distance to metres.
   */
  datatype Model = Model(
    points: seq<Point>,
    distance: (Point, Point) -> real,
    findNeighbors: (NodeId, seq<bool>) -> seq<NodeId>,
    metricScale: real)
  {
    /** Number of nodes in the arena. */
    function Size(): nat {
      |points|
    }

    /** Distance between the positions of two nodes. */
    function Dist(a: NodeId, b: NodeId): real
      requires a < Size() && b < Size()
    {
      distance(points[a], points[b])
    }

    /**
     What the planner relies on from its collaborators: the distance is a
     metric-like function (non-negative, symmetric, zero between equal
     positions), the scale is positive, and the neighbour lookup only names
     nodes of the arena.
     */
    ghost predicate Valid() {
      && (forall p, q :: distance(p, q) >= 0.0)
      && (forall p, q :: distance(p, q) == distance(q, p))
      && (forall p :: distance(p, p) == 0.0)
      && metricScale > 0.0
      && (forall c: NodeId, visited: seq<bool>, k: int ::
            c < Size() && |visited| == Size() && 0 <= k < |findNeighbors(c, visited)|
            ==> findNeighbors(c, visited)[k] < Size())
    }

    /**
     The assumption under which the search terminates: the neighbour lookup
     only returns nodes that are not yet visited.
     */
    ghost predicate ReturnsUnvisited()
      requires Valid()
    {
      forall c: NodeId, visited: seq<bool>, k: int ::
        c < Size() && |visited| == Size() && 0 <= k < |findNeighbors(c, visited)|
        ==> !visited[findNeighbors(c, visited)[k]]
    }

    /** The neighbour lookup never names a node twice in one answer. */
    ghost predicate ReturnsDistinct() {
      forall c: NodeId, visited: seq<bool> :: Distinct(findNeighbors(c, visited))
    }

    /** Every entry of `s` is a node of the arena. */
    ghost predicate AllNodes(s: seq<NodeId>) {
      forall i :: 0 <= i < |s| ==> s[i] < Size()
    }

    /** A normalised distance converted to metres. */
    function ToMetres(d: real): real {
      d * metricScale
    }

    /** Sum of the distances between consecutive nodes of `path`. */
    function PathLength(path: seq<NodeId>): real
      requires AllNodes(path)
    {
      if |path| < 2 then 0.0 else Dist(path[0], path[1]) + PathLength(path[1..])
    }
  }

  /** No node occurs twice in `s`. */
  ghost predicate Distinct(s: seq<NodeId>) {
    forall i, j :: 0 <= i < j < |s| ==> s[i] != s[j]
  }

  /** Dropping the head of a sequence without repeats leaves one without repeats, and without the head. */
  lemma DistinctTail(s: seq<NodeId>)
    requires Distinct(s) && s != []
    ensures Distinct(s[1..]) && s[0] !in s[1..]
  {
    var t := s[1..];
    forall i, j | 0 <= i < j < |t|
      ensures t[i] != t[j]
    {
      assert t[i] == s[i + 1] && t[j] == s[j + 1];
    }
  }

  /** A sequence has no repeated entry exactly when no entry occurs twice in its multiset. */
  lemma {:induction false} DistinctIffSingleOccurrences(s: seq<NodeId>)
    ensures Distinct(s) <==> forall x :: multiset(s)[x] <= 1
    decreases |s|
  {
    if s != [] {
      var t := s[1..];
      assert s == [s[0]] + t;
      assert multiset(s) == multiset{s[0]} + multiset(t);
      DistinctIffSingleOccurrences(t);
      if Distinct(s) {
        DistinctTail(s);
        assert multiset(t)[s[0]] == 0;
      } else {
        var i, j :| 0 <= i < j < |s| && s[i] == s[j];
        if i == 0 {
          assert t[j - 1] == s[0];
          assert s[0] in multiset(t);
          assert multiset(s)[s[0]] >= 2;
        } else {
          assert t[i - 1] == t[j - 1];
          assert !Distinct(t);
          var x :| multiset(t)[x] > 1;
          assert multiset(s)[x] > 1;
        }
      }
    }
  }

  /** The set of entries of `s`. */
  function Elements(s: seq<NodeId>): set<NodeId> {
    set x | x in s
  }

  /** A sequence without repeats has as many distinct entries as it has entries. */
  lemma {:induction false} DistinctCardinality(s: seq<NodeId>)
    requires Distinct(s)
    ensures |Elements(s)| == |s|
    decreases |s|
  {
    if s != [] {
      var t := s[1..];
      DistinctTail(s);
      DistinctCardinality(t);
      assert s == [s[0]] + t;
      assert Elements(s) == Elements(t) + {s[0]};
    }
  }

  /** `s` in the opposite order, as `std::reverse` leaves it. */
  function Reverse<T>(s: seq<T>): seq<T> {
    seq(|s|, i requires 0 <= i < |s| => s[|s| - 1 - i])
  }

  /** Extending a path by one node adds the length of the last hop. */
  lemma {:induction false} PathLengthSnoc(m: Model, path: seq<NodeId>, n: NodeId)
    requires m.AllNodes(path) && |path| >= 1 && n < m.Size()
    ensures m.AllNodes(path + [n])
    ensures m.PathLength(path + [n]) == m.PathLength(path) + m.Dist(path[|path| - 1], n)
    decreases |path|
  {
    if |path| == 1 {
      assert path + [n] == [path[0], n];
    } else {
      assert (path + [n])[1..] == path[1..] + [n];
      PathLengthSnoc(m, path[1..], n);
    }
  }

  /** A path and its reverse have the same length, because distance is symmetric. */
  lemma {:induction false} PathLengthReverse(m: Model, path: seq<NodeId>)
    requires m.Valid() && m.AllNodes(path)
    ensures m.AllNodes(Reverse(path))
    ensures m.PathLength(Reverse(path)) == m.PathLength(path)
    decreases |path|
  {
    if |path| >= 2 {
      var tail := path[1..];
      PathLengthReverse(m, tail);
      var rt := Reverse(tail);
      assert Reverse(path) == rt + [path[0]] by {
        assert forall i :: 0 <= i < |tail| ==> Reverse(path)[i] == rt[i];
      }
      assert rt[|rt| - 1] == path[1];
      PathLengthSnoc(m, rt, path[0]);
      assert m.Dist(path[1], path[0]) == m.Dist(path[0], path[1]);
    } else if |path| == 1 {
      assert Reverse(path) == path;
    }
  }
}
