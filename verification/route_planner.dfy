/**
 The A* route search: heuristic, neighbour expansion, path reconstruction and
 the main loop. The search bookkeeping (`g`, `h`, `visited`, `parent`) lives in
 a `Planner` value indexed by node, apart from the read-only graph.
 */
module RoutePlanner {
  import opened Wrappers
  import opened RouteModel
  import opened Frontier

  /**
   The planner's state: the start and end nodes fixed at construction, the
   per-node bookkeeping and the open list.
   */
  datatype Planner = Planner(
    start: NodeId,
    end: NodeId,
    g: seq<real>,
    h: seq<real>,
    visited: seq<bool>,
    parent: seq<Option<NodeId>>,
    open: seq<NodeId>)

  /** A path from start to goal and its length in metres. */
  datatype Route = Route(path: seq<NodeId>, distance: real)

  /** How a search ends: with a route, or with the open list exhausted. */
  datatype Outcome = Found(route: Route) | NoPath

  /** The bookkeeping covers every node of `m`, and every reference names a node of `m`. */
  ghost predicate WellFormed(m: Model, p: Planner) {
    && p.start < m.Size() && p.end < m.Size()
    && |p.g| == m.Size() && |p.h| == m.Size()
    && |p.visited| == m.Size() && |p.parent| == m.Size()
    && m.AllNodes(p.open)
    && (forall i :: 0 <= i < |p.parent| && p.parent[i].Some? ==> p.parent[i].value < m.Size())
  }

  /** The state of a freshly built graph: every node unvisited, parentless, with `g = h = 0`. */
  function Fresh(m: Model, start: NodeId, end: NodeId): (p: Planner)
    requires start < m.Size() && end < m.Size()
    ensures WellFormed(m, p) && p.start == start && p.end == end && p.open == []
    ensures forall i :: 0 <= i < m.Size() ==> !p.visited[i] && p.parent[i] == None
  {
    Planner(start, end,
            seq(m.Size(), _ => 0.0), seq(m.Size(), _ => 0.0),
            seq(m.Size(), _ => false), seq(m.Size(), _ => None),
            [])
  }

  /**
   Heuristic: the distance from `n` to the end node. It is never negative
   and vanishes on any node at the end node's position.
   */
  function CalculateHValue(m: Model, p: Planner, n: NodeId): (r: real)
    requires m.Valid() && n < m.Size() && p.end < m.Size()
    ensures r >= 0.0
    ensures m.points[n] == m.points[p.end] ==> r == 0.0
  {
    m.Dist(n, p.end)
  }

  /**
   The loop of `AddNeighbors` over the neighbour list `nbrs`, in list order:
   each neighbour gets `current` as parent, its heuristic, `g` of `current`
   plus the hop, is appended to the open list and marked visited.
   */
  function Expand(m: Model, p: Planner, current: NodeId, nbrs: seq<NodeId>): (q: Planner)
    requires m.Valid() && WellFormed(m, p) && current < m.Size() && m.AllNodes(nbrs)
    ensures WellFormed(m, q) && q.start == p.start && q.end == p.end
    ensures q.open == p.open + nbrs
    ensures forall n :: 0 <= n < m.Size() && n !in nbrs ==>
              q.g[n] == p.g[n] && q.h[n] == p.h[n] && q.visited[n] == p.visited[n] && q.parent[n] == p.parent[n]
    ensures forall n :: n in nbrs ==>
              q.parent[n] == Some(current) && q.h[n] == m.Dist(n, p.end) && q.visited[n]
    ensures forall n :: n in nbrs ==> q.g[n] == p.g[current] + m.Dist(n, current)
    decreases |nbrs|
  {
    if nbrs == [] then
      p
    else
      var n := nbrs[0];
      var p' := p.(parent := p.parent[n := Some(current)],
                   h := p.h[n := CalculateHValue(m, p, n)],
                   g := p.g[n := p.g[current] + m.Dist(n, current)],
                   open := p.open + [n],
                   visited := p.visited[n := true]);
      assert nbrs == [n] + nbrs[1..];
      // A node listed as its own neighbour gets `g` plus a zero hop, so `g` of `current` stays put.
      assert p'.g[current] == p.g[current] by {
        if n == current {
          assert m.Dist(current, current) == 0.0;
        }
      }
      Expand(m, p', current, nbrs[1..])
  }

  /**
   Asks the graph for the neighbours of `current` and expands them. Nodes
   outside the neighbour list keep their bookkeeping; the open list keeps its
   old contents as a prefix.
   */
  function AddNeighbors(m: Model, p: Planner, current: NodeId): (q: Planner)
    requires m.Valid() && WellFormed(m, p) && current < m.Size()
    ensures WellFormed(m, q) && q.start == p.start && q.end == p.end
    ensures q.open == p.open + m.findNeighbors(current, p.visited)
    ensures forall n :: 0 <= n < m.Size() && n !in m.findNeighbors(current, p.visited) ==>
              q.g[n] == p.g[n] && q.h[n] == p.h[n] && q.visited[n] == p.visited[n] && q.parent[n] == p.parent[n]
    ensures forall n :: n in m.findNeighbors(current, p.visited) ==>
              q.parent[n] == Some(current) && q.h[n] == m.Dist(n, p.end) && q.visited[n]
    ensures forall n :: n in m.findNeighbors(current, p.visited) ==> q.g[n] == p.g[current] + m.Dist(n, current)
  {
    Expand(m, p, current, m.findNeighbors(current, p.visited))
  }

  /**
   `rank` witnesses that the parent links are acyclic: every node's parent is
   a node of the arena with a strictly smaller rank.
   */
  ghost predicate Ranked(parent: seq<Option<NodeId>>, rank: seq<nat>) {
    && |rank| == |parent|
    && forall i :: 0 <= i < |parent| && parent[i].Some? ==>
         parent[i].value < |parent| && rank[parent[i].value] < rank[i]
  }

  /** The entry of `trail` after position `i` is the parent of the entry at `i`. */
  ghost predicate UpLink(parent: seq<Option<NodeId>>, trail: seq<NodeId>, i: nat)
    requires i + 1 < |trail|
  {
    trail[i] < |parent| && parent[trail[i]] == Some(trail[i + 1])
  }

  /** Each entry of `trail` but the last has the next entry as its parent. */
  ghost predicate Linked(parent: seq<Option<NodeId>>, trail: seq<NodeId>) {
    forall i: nat :: i + 1 < |trail| ==> UpLink(parent, trail, i)
  }

  /** Nodes collected on the walk from a node to the root of its parent chain, and the distance covered. */
  datatype Trail = Trail(nodes: seq<NodeId>, length: real)

  /** A trail from `n` along parent links to a parentless node, measured hop by hop. */
  ghost predicate TrailFrom(m: Model, parent: seq<Option<NodeId>>, n: NodeId, t: Trail)
    requires |parent| == m.Size()
  {
    && |t.nodes| >= 1 && t.nodes[0] == n && m.AllNodes(t.nodes)
    && parent[t.nodes[|t.nodes| - 1]].None?
    && Linked(parent, t.nodes)
    && t.length == m.PathLength(t.nodes)
  }

  /** Putting a node in front of a trail that starts at its parent gives a trail from that node. */
  lemma ExtendTrail(m: Model, parent: seq<Option<NodeId>>, n: NodeId, q: NodeId, t: Trail)
    requires |parent| == m.Size() && n < m.Size() && parent[n] == Some(q) && TrailFrom(m, parent, q, t)
    ensures TrailFrom(m, parent, n, Trail([n] + t.nodes, m.Dist(n, q) + t.length))
  {
    var chain := t.nodes;
    var nodes := [n] + chain;
    assert nodes[1..] == chain;
    assert nodes[|nodes| - 1] == chain[|chain| - 1];
    forall i: nat | i + 1 < |nodes|
      ensures UpLink(parent, nodes, i)
    {
      if i > 0 {
        assert UpLink(parent, chain, i - 1);
        assert nodes[i] == chain[i - 1] && nodes[i + 1] == chain[i];
      }
    }
  }

  /**
   The walk of `ConstructFinalPath`: follows parent links from `n` to the
   parentless node that ends the chain, collecting the nodes in goal-to-start
   order and adding up the distance of each hop from a node to its parent.
   */
  function Walk(m: Model, parent: seq<Option<NodeId>>, n: NodeId, ghost rank: seq<nat>): (t: Trail)
    requires |parent| == m.Size() && n < m.Size() && Ranked(parent, rank)
    ensures TrailFrom(m, parent, n, t)
    ensures parent[n].None? ==> t.nodes == [n]
    decreases rank[n]
  {
    if parent[n].None? then
      Trail([n], 0.0)
    else
      var q := parent[n].value;
      var rest := Walk(m, parent, q, rank);
      ExtendTrail(m, parent, n, q, rest);
      Trail([n] + rest.nodes, m.Dist(n, q) + rest.length)
  }

  /** The entry of `path` at position `i` is the parent of the entry after it. */
  ghost predicate DownLink(parent: seq<Option<NodeId>>, path: seq<NodeId>, i: nat)
    requires i + 1 < |path|
  {
    path[i + 1] < |parent| && parent[path[i + 1]] == Some(path[i])
  }

  /** Each entry of `path` but the first has the previous entry as its parent. */
  ghost predicate LinkedForward(parent: seq<Option<NodeId>>, path: seq<NodeId>) {
    forall i: nat :: i + 1 < |path| ==> DownLink(parent, path, i)
  }

  /** One hop of a reversed trail: the entry after position `i` has the entry at `i` as its parent. */
  lemma ReversedHop(parent: seq<Option<NodeId>>, trail: seq<NodeId>, i: nat)
    requires Linked(parent, trail) && i + 1 < |trail|
    ensures DownLink(parent, Reverse(trail), i)
  {
    var r := Reverse(trail);
    var k := |trail| - 2 - i;
    assert r[i + 1] == trail[k];
    assert r[i] == trail[k + 1];
    assert UpLink(parent, trail, k);
  }

  /** Reversing a goal-to-start trail gives a path in which each node is the parent of the next. */
  lemma ReversedTrail(parent: seq<Option<NodeId>>, trail: seq<NodeId>)
    requires Linked(parent, trail)
    ensures LinkedForward(parent, Reverse(trail))
  {
    var path := Reverse(trail);
    forall i: nat | i + 1 < |path|
      ensures DownLink(parent, path, i)
    {
      ReversedHop(parent, trail, i);
    }
  }

  /**
   The route read off a goal-to-start trail: the trail reversed, with its
   length in metres.
   */
  lemma RouteOfTrail(m: Model, parent: seq<Option<NodeId>>, goal: NodeId, t: Trail)
    requires m.Valid() && |parent| == m.Size() && goal < m.Size() && TrailFrom(m, parent, goal, t)
    requires parent[goal].None? ==> t.nodes == [goal]
    ensures var r := Route(Reverse(t.nodes), m.ToMetres(t.length));
            && |r.path| >= 1 && m.AllNodes(r.path)
            && r.path[|r.path| - 1] == goal
            && parent[r.path[0]].None?
            && LinkedForward(parent, r.path)
            && r.distance == m.ToMetres(m.PathLength(r.path))
            && (parent[goal].None? ==> r == Route([goal], 0.0))
  {
    PathLengthReverse(m, t.nodes);
    ReversedTrail(parent, t.nodes);
  }

  /**
   Reconstructs the route ending at `goal`: the parent chain reversed into
   start-to-goal order, with its length converted to metres. Each node of the
   path is the parent of the next one, the first has no parent, the last is
   `goal`, and the distance is the sum of the hops times the metric scale.
   */
  function ConstructFinalPath(m: Model, parent: seq<Option<NodeId>>, goal: NodeId, ghost rank: seq<nat>): (r: Route)
    requires m.Valid() && |parent| == m.Size() && goal < m.Size() && Ranked(parent, rank)
    ensures |r.path| >= 1 && m.AllNodes(r.path)
    ensures r.path[|r.path| - 1] == goal
    ensures parent[r.path[0]].None?
    ensures LinkedForward(parent, r.path)
    ensures r.distance == m.ToMetres(m.PathLength(r.path))
    ensures parent[goal].None? ==> r == Route([goal], 0.0)
  {
    var trail := Walk(m, parent, goal, rank);
    RouteOfTrail(m, parent, goal, trail);
    Route(Reverse(trail.nodes), m.ToMetres(trail.length))
  }

  /** The nodes not yet visited. */
  function Unvisited(visited: seq<bool>): set<NodeId> {
    set i: NodeId | i < |visited| && !visited[i]
  }

  /** Marking nodes visited never adds to the unvisited set, and marking a new one shrinks it. */
  lemma MarkingShrinksUnvisited(before: seq<bool>, after: seq<bool>, n: NodeId)
    requires |before| == |after|
    requires forall i :: 0 <= i < |before| && before[i] ==> after[i]
    ensures Unvisited(after) <= Unvisited(before)
    ensures n < |before| && !before[n] && after[n] ==> |Unvisited(after)| < |Unvisited(before)|
  {
    var gone := Unvisited(before) - Unvisited(after);
    assert Unvisited(before) == Unvisited(after) + gone;
    if n < |before| && !before[n] && after[n] {
      assert n in gone;
    }
  }

  /** Every open node is visited. */
  ghost predicate OpenVisited(m: Model, p: Planner)
    requires WellFormed(m, p)
  {
    forall k :: 0 <= k < |p.open| ==> p.visited[p.open[k]]
  }

  /**
   Parent links join visited nodes and are ranked by `rank`, and the start is
   the only visited node without a parent.
   */
  ghost predicate ParentsFromStart(m: Model, p: Planner, rank: seq<nat>)
    requires WellFormed(m, p)
  {
    && Ranked(p.parent, rank)
    && (forall i :: 0 <= i < m.Size() && p.parent[i].Some? ==> p.visited[i] && p.visited[p.parent[i].value])
    && p.visited[p.start] && p.parent[p.start].None?
    && (forall i :: 0 <= i < m.Size() && p.visited[i] && p.parent[i].None? ==> i == p.start)
  }

  /** Every visited node that has left the open list failed the goal test. */
  ghost predicate ClosedMissGoal(m: Model, p: Planner)
    requires WellFormed(m, p)
  {
    forall i :: 0 <= i < m.Size() && p.visited[i] && i !in p.open ==> m.points[i] != m.points[p.end]
  }

  /** What holds of the bookkeeping between two iterations of the main loop. */
  ghost predicate SearchInvariant(m: Model, p: Planner, rank: seq<nat>) {
    && WellFormed(m, p)
    && OpenVisited(m, p)
    && ParentsFromStart(m, p, rank)
    && ClosedMissGoal(m, p)
  }

  /** Ranks after expanding `current`: its neighbours sit one step further from the start. */
  function Deepen(rank: seq<nat>, current: NodeId, nbrs: seq<NodeId>): seq<nat>
    requires current < |rank|
  {
    seq(|rank|, i requires 0 <= i < |rank| => if i in nbrs then rank[current] + 1 else rank[i])
  }

  /** The neighbours the graph hands back for `current` are all unvisited. */
  ghost predicate FreshNeighbors(m: Model, p: Planner, current: NodeId)
    requires WellFormed(m, p) && current < m.Size()
  {
    forall n :: n in m.findNeighbors(current, p.visited) ==> n < m.Size() && !p.visited[n]
  }

  /** The collaborator assumption, read at one expansion. */
  lemma UnvisitedAssumptionAt(m: Model, p: Planner, current: NodeId)
    requires m.Valid() && m.ReturnsUnvisited() && WellFormed(m, p) && current < m.Size()
    ensures FreshNeighbors(m, p, current)
  {
    forall n | n in m.findNeighbors(current, p.visited)
      ensures n < m.Size() && !p.visited[n]
    {
      var nbrs := m.findNeighbors(current, p.visited);
      var k :| 0 <= k < |nbrs| && nbrs[k] == n;
    }
  }

  /** Expanding a visited node with fresh neighbours keeps the open list visited. */
  lemma ExpandKeepsOpenVisited(m: Model, p: Planner, current: NodeId)
    requires m.Valid() && WellFormed(m, p) && current < m.Size() && OpenVisited(m, p)
    ensures OpenVisited(m, AddNeighbors(m, p, current))
  {
    var nbrs := m.findNeighbors(current, p.visited);
    var q := AddNeighbors(m, p, current);
    forall k | 0 <= k < |q.open|
      ensures q.visited[q.open[k]]
    {
      if k >= |p.open| {
        assert q.open[k] == nbrs[k - |p.open|];
      }
    }
  }

  /**
   Expanding a visited node with fresh neighbours hangs each neighbour under
   it, one rank deeper, and keeps the start as the only root.
   */
  lemma ExpandKeepsParents(m: Model, p: Planner, current: NodeId, rank: seq<nat>)
    requires m.Valid() && WellFormed(m, p) && current < m.Size() && p.visited[current]
    requires FreshNeighbors(m, p, current) && ParentsFromStart(m, p, rank)
    ensures ParentsFromStart(m, AddNeighbors(m, p, current),
                             Deepen(rank, current, m.findNeighbors(current, p.visited)))
  {
    var nbrs := m.findNeighbors(current, p.visited);
    var q := AddNeighbors(m, p, current);
    var rank' := Deepen(rank, current, nbrs);
    assert current !in nbrs;
    forall i | 0 <= i < |q.parent| && q.parent[i].Some?
      ensures q.parent[i].value < |q.parent| && rank'[q.parent[i].value] < rank'[i]
    {
      if i !in nbrs {
        assert p.parent[i].Some? && p.visited[p.parent[i].value];
      }
    }
  }

  /**
   Popping a node that fails the goal test and expanding it keeps every
   closed node off the goal position.
   */
  lemma StepKeepsClosedMissGoal(m: Model, p: Planner)
    requires m.Valid() && WellFormed(m, p) && |p.open| > 0 && Scored(p.g, p.h, p.open)
    requires ClosedMissGoal(m, p)
    requires m.points[NextNode(p.g, p.h, p.open).node] != m.points[p.end]
    ensures var pick := NextNode(p.g, p.h, p.open);
            ClosedMissGoal(m, AddNeighbors(m, p.(open := pick.rest), pick.node))
  {
    var pick := NextNode(p.g, p.h, p.open);
    var current := pick.node;
    var popped := p.(open := pick.rest);
    var nbrs := m.findNeighbors(current, popped.visited);
    var q := AddNeighbors(m, popped, current);
    forall i | 0 <= i < m.Size() && q.visited[i] && i !in q.open
      ensures m.points[i] != m.points[p.end]
    {
      assert i !in nbrs && i !in pick.rest;
      if i != current {
        assert i !in multiset(pick.rest) + multiset{current};
      }
    }
  }

  /** Open nodes have bookkeeping, so the open list can be sorted by `f`. */
  lemma OpenScored(m: Model, p: Planner)
    requires WellFormed(m, p)
    ensures Scored(p.g, p.h, p.open)
  {
  }

  /** The node an iteration pops. */
  function Popped(p: Planner): NodeId
    requires Scored(p.g, p.h, p.open) && |p.open| > 0
  {
    NextNode(p.g, p.h, p.open).node
  }

  /** An iteration that misses the goal: pop the lowest-`f` node, then expand it. */
  function Advance(m: Model, p: Planner): Planner
    requires m.Valid() && WellFormed(m, p) && |p.open| > 0
  {
    OpenScored(m, p);
    var pick := NextNode(p.g, p.h, p.open);
    AddNeighbors(m, p.(open := pick.rest), pick.node)
  }

  /** The ranks after `Advance`. */
  function AdvanceRank(m: Model, p: Planner, rank: seq<nat>): seq<nat>
    requires m.Valid() && WellFormed(m, p) && |p.open| > 0 && |rank| == m.Size()
  {
    OpenScored(m, p);
    Deepen(rank, Popped(p), m.findNeighbors(Popped(p), p.visited))
  }

  /**
   An iteration that misses the goal keeps the invariant, and either visits
   a new node or shortens the open list.
   */
  lemma StepKeepsInvariant(m: Model, p: Planner, rank: seq<nat>)
    requires m.Valid() && m.ReturnsUnvisited() && SearchInvariant(m, p, rank) && |p.open| > 0
    requires Scored(p.g, p.h, p.open) && m.points[Popped(p)] != m.points[p.end]
    ensures SearchInvariant(m, Advance(m, p), AdvanceRank(m, p, rank))
    ensures Advance(m, p).start == p.start && Advance(m, p).end == p.end
    ensures || |Unvisited(Advance(m, p).visited)| < |Unvisited(p.visited)|
            || (Unvisited(Advance(m, p).visited) == Unvisited(p.visited) && |Advance(m, p).open| < |p.open|)
  {
    var pick := NextNode(p.g, p.h, p.open);
    var current := pick.node;
    var popped := p.(open := pick.rest);
    assert WellFormed(m, popped);
    assert OpenVisited(m, popped) by {
      forall k | 0 <= k < |popped.open|
        ensures popped.visited[popped.open[k]]
      {
        assert popped.open[k] in p.open;
      }
    }
    assert p.visited[current] by {
      var k :| 0 <= k < |p.open| && p.open[k] == current;
    }
    UnvisitedAssumptionAt(m, popped, current);
    ExpandKeepsOpenVisited(m, popped, current);
    ExpandKeepsParents(m, popped, current, rank);
    StepKeepsClosedMissGoal(m, p);
    var nbrs := m.findNeighbors(current, popped.visited);
    var q := AddNeighbors(m, popped, current);
    MarkingShrinksUnvisited(p.visited, q.visited, if nbrs == [] then 0 else nbrs[0]);
  }

  /** Removing one occurrence from a list without repeats leaves a list without repeats. */
  lemma RemovalKeepsDistinct(s: seq<NodeId>, rest: seq<NodeId>, x: NodeId)
    requires Distinct(s) && multiset(rest) + multiset{x} == multiset(s)
    ensures Distinct(rest)
  {
    DistinctIffSingleOccurrences(s);
    forall y
      ensures multiset(rest)[y] <= 1
    {
      assert multiset(rest)[y] <= multiset(s)[y];
    }
    DistinctIffSingleOccurrences(rest);
  }

  /**
   With a lookup that never repeats a node, expanding a visited node keeps an
   open list of visited nodes free of repeats: a node enters it at most once.
   */
  lemma ExpandKeepsOpenDistinct(m: Model, p: Planner, current: NodeId)
    requires m.Valid() && m.ReturnsDistinct() && WellFormed(m, p) && current < m.Size()
    requires FreshNeighbors(m, p, current) && OpenVisited(m, p) && Distinct(p.open)
    ensures Distinct(AddNeighbors(m, p, current).open)
  {
    var nbrs := m.findNeighbors(current, p.visited);
    var q := AddNeighbors(m, p, current);
    assert Distinct(nbrs);
    forall i, j | 0 <= i < j < |q.open|
      ensures q.open[i] != q.open[j]
    {
      if i < |p.open| <= j {
        assert q.open[j] == nbrs[j - |p.open|];
        assert p.visited[p.open[i]];
      } else if |p.open| <= i {
        assert q.open[i] == nbrs[i - |p.open|] && q.open[j] == nbrs[j - |p.open|];
      }
    }
  }

  /** Visiting `k` fresh distinct neighbours removes exactly `k` nodes from the unvisited set. */
  lemma ExpandVisitsEachNeighbor(m: Model, p: Planner, current: NodeId)
    requires m.Valid() && m.ReturnsDistinct() && WellFormed(m, p) && current < m.Size()
    requires FreshNeighbors(m, p, current)
    ensures |Unvisited(AddNeighbors(m, p, current).visited)| + |m.findNeighbors(current, p.visited)|
            == |Unvisited(p.visited)|
  {
    var nbrs := m.findNeighbors(current, p.visited);
    var q := AddNeighbors(m, p, current);
    var added := Elements(nbrs);
    var before, after := Unvisited(p.visited), Unvisited(q.visited);
    assert Distinct(nbrs);
    DistinctCardinality(nbrs);
    forall x: NodeId
      ensures x in after <==> x in before && x !in added
    {
      if 0 <= x < m.Size() && x !in nbrs {
        assert q.visited[x] == p.visited[x];
      }
    }
    assert after == before - added;
    assert added <= before;
    assert before == after + added && after * added == {};
  }

  /**
   When the neighbour lookup also never repeats a node, a node enters the
   open list at most once: an iteration keeps the open list free of repeats,
   and the number of unvisited nodes plus the length of the open list drops
   by exactly one (the popped node).
   */
  lemma StepEntersOnce(m: Model, p: Planner, rank: seq<nat>)
    requires m.Valid() && m.ReturnsUnvisited() && m.ReturnsDistinct()
    requires SearchInvariant(m, p, rank) && Distinct(p.open) && |p.open| > 0
    requires Scored(p.g, p.h, p.open)
    ensures Distinct(Advance(m, p).open)
    ensures |Unvisited(Advance(m, p).visited)| + |Advance(m, p).open| + 1 == |Unvisited(p.visited)| + |p.open|
  {
    var pick := NextNode(p.g, p.h, p.open);
    var popped := p.(open := pick.rest);
    assert WellFormed(m, popped);
    assert OpenVisited(m, popped) by {
      forall k | 0 <= k < |popped.open|
        ensures popped.visited[popped.open[k]]
      {
        assert popped.open[k] in p.open;
      }
    }
    UnvisitedAssumptionAt(m, popped, pick.node);
    RemovalKeepsDistinct(p.open, pick.rest, pick.node);
    ExpandKeepsOpenDistinct(m, popped, pick.node);
    ExpandVisitsEachNeighbor(m, popped, pick.node);
  }

  /**
   The state before the first iteration: the start node opened and marked
   visited on an otherwise fresh graph.
   */
  function OpenStart(m: Model, start: NodeId, end: NodeId): (p: Planner)
    requires start < m.Size() && end < m.Size()
    ensures SearchInvariant(m, p, seq(m.Size(), _ => 0))
    ensures p.start == start && p.end == end && p.open == [start]
  {
    var blank := Fresh(m, start, end);
    blank.(open := [start], visited := blank.visited[start := true])
  }

  /**
   When the popped node passes the goal test, the route reconstructed from it
   begins at the start node; on the first iteration, when only the start is
   open, that route is the start alone.
   */
  lemma FoundRouteBeginsAtStart(m: Model, p: Planner, rank: seq<nat>)
    requires m.Valid() && SearchInvariant(m, p, rank) && |p.open| > 0 && Scored(p.g, p.h, p.open)
    ensures Popped(p) < m.Size()
    ensures ConstructFinalPath(m, p.parent, Popped(p), rank).path[0] == p.start
    ensures p.open == [p.start] ==>
              Popped(p) == p.start && ConstructFinalPath(m, p.parent, Popped(p), rank) == Route([p.start], 0.0)
  {
    var goal := Popped(p);
    assert p.visited[goal] by {
      var k :| 0 <= k < |p.open| && p.open[k] == goal;
    }
    var route := ConstructFinalPath(m, p.parent, goal, rank);
    if |route.path| > 1 {
      assert DownLink(p.parent, route.path, 0);
    }
  }

  /** Once the open list is empty, no visited node, the start included, sits at the goal position. */
  lemma ExhaustedMissesGoal(m: Model, p: Planner, rank: seq<nat>)
    requires SearchInvariant(m, p, rank) && p.open == []
    ensures p.visited[p.start]
    ensures forall i :: 0 <= i < m.Size() && p.visited[i] ==> m.points[i] != m.points[p.end]
  {
  }
}
