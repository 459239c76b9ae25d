/**
 The A* main loop of the route planner, driving the heuristic, frontier and
 expansion steps of `RoutePlanner` until the goal is found or the open list
 runs out.
 */
module AStar {
  import opened RouteModel
  import opened Frontier
  import opened RoutePlanner
  import opened SearchRun

  /**
   The A* main loop. The start node is marked visited and opened; then the
   lowest-`f` node is popped until one sits at the end node's position, whose
   reconstructed route is returned, or the open list runs out.

   Termination rests on `ReturnsUnvisited`: each expansion either visits a new
   node or shrinks the open list. `final` is the state in which the loop halts,
   reached from the opened start by `steps` iterations of the reference loop
   `Iterate` (which halts in one state only, see `HaltedStateUnique`); `last`
   is the node the goal test matched and `rank` the witness that its parent
   chain is acyclic.
   */
  method AStarSearch(m: Model, start: NodeId, end: NodeId)
    returns (outcome: Outcome, ghost final: Planner, ghost last: NodeId, ghost rank: seq<nat>, ghost steps: nat)
    requires m.Valid() && m.ReturnsUnvisited()
    requires start < m.Size() && end < m.Size()
    ensures final == Iterate(m, OpenStart(m, start, end), steps) && Stops(m, final)
    ensures WellFormed(m, final) && Ranked(final.parent, rank)
    ensures outcome.NoPath? <==> final.open == []
    ensures outcome.Found? ==>
              && |final.open| > 0 && Scored(final.g, final.h, final.open) && last == Popped(final)
              && last < m.Size() && m.points[last] == m.points[end]
              && outcome.route == ConstructFinalPath(m, final.parent, last, rank)
              && outcome.route.path[0] == start
    ensures outcome.NoPath? ==>
              && final.visited[start]
              && forall i :: 0 <= i < m.Size() && final.visited[i] ==> m.points[i] != m.points[end]
    ensures m.points[start] == m.points[end] ==> outcome == Found(Route([start], 0.0))
  {
    var p := OpenStart(m, start, end);
    ghost var p0 := p;
    rank, steps := seq(m.Size(), _ => 0), 0;
    while |p.open| > 0
      invariant SearchInvariant(m, p, rank) && p.start == start && p.end == end
      invariant p == Iterate(m, p0, steps)
      invariant m.points[start] == m.points[end] ==> p.open == [start]
      decreases |Unvisited(p.visited)|, |p.open|
    {
      OpenScored(m, p);
      var pick := NextNode(p.g, p.h, p.open);
      var current := pick.node;
      if m.points[current] == m.points[end] {
        FoundRouteBeginsAtStart(m, p, rank);
        HaltsAtGoalOrExhausted(m, p);
        outcome := Found(ConstructFinalPath(m, p.parent, current, rank));
        final, last := p, current;
        return;
      }
      StepKeepsInvariant(m, p, rank);
      IterateAdvances(m, p0, steps, p);
      rank, steps := AdvanceRank(m, p, rank), steps + 1;
      p := AddNeighbors(m, p.(open := pick.rest), current);
    }
    ExhaustedMissesGoal(m, p, rank);
    OpenScored(m, p);
    HaltsAtGoalOrExhausted(m, p);
    outcome, final, last := NoPath, p, start;
  }
}
