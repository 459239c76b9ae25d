/**
 The main loop of the search as a reference definition: the sequence of
 states it passes through, and where it halts.
 */
module SearchRun {
  import opened RouteModel
  import opened Frontier
  import opened RoutePlanner

  /** The node the next iteration would pop sits at the end node's position. */
  ghost predicate GoalPopped(m: Model, p: Planner)
    requires WellFormed(m, p) && |p.open| > 0
  {
    OpenScored(m, p);
    var n := Popped(p);
    assert n in p.open;
    m.points[n] == m.points[p.end]
  }

  /** The main loop stops here: its open list is exhausted or the goal test passes. */
  ghost predicate Halted(m: Model, p: Planner)
    requires WellFormed(m, p)
  {
    |p.open| == 0 || GoalPopped(m, p)
  }

  /** No further iteration runs from `p`: the loop has halted, or `p` is not a state of it. */
  ghost predicate Stops(m: Model, p: Planner) {
    !(m.Valid() && WellFormed(m, p)) || Halted(m, p)
  }

  /** One iteration of the main loop from a state it has not halted in. */
  ghost function Step(m: Model, p: Planner): Planner {
    if Stops(m, p) then p else Advance(m, p)
  }

  /** `step` applied at most `k` times from `s`, stopping at the first state `stop` holds of. */
  ghost function Repeat<S>(step: S -> S, stop: S -> bool, s: S, k: nat): S
    decreases k
  {
    if k == 0 || stop(s) then s else Repeat(step, stop, step(s), k - 1)
  }

  /** One more round from a state that does not stop is one more `step`. */
  lemma {:induction false} RepeatOneMore<S>(step: S -> S, stop: S -> bool, s: S, k: nat)
    requires !stop(Repeat(step, stop, s, k))
    ensures Repeat(step, stop, s, k + 1) == step(Repeat(step, stop, s, k))
    decreases k
  {
    if k > 0 {
      RepeatOneMore(step, stop, step(s), k - 1);
    }
  }

  /** Once a state that stops is reached, further rounds change nothing. */
  lemma {:induction false} RepeatStaysStopped<S>(step: S -> S, stop: S -> bool, s: S, j: nat, k: nat)
    requires j <= k && stop(Repeat(step, stop, s, j))
    ensures Repeat(step, stop, s, k) == Repeat(step, stop, s, j)
    decreases j
  {
    if j > 0 && !stop(s) {
      RepeatStaysStopped(step, stop, step(s), j - 1, k - 1);
    }
  }

  /**
   The main loop as a reference definition: at most `k` iterations from `p`,
   stopping at the first state it halts in.
   */
  ghost function Iterate(m: Model, p: Planner, k: nat): Planner {
    Repeat(q => Step(m, q), q => Stops(m, q), p, k)
  }

  /** One more iteration from a state the loop has not halted in is one more `Step`. */
  lemma IterateOneMore(m: Model, p: Planner, k: nat)
    requires !Stops(m, Iterate(m, p, k))
    ensures Iterate(m, p, k + 1) == Step(m, Iterate(m, p, k))
  {
    RepeatOneMore(q => Step(m, q), q => Stops(m, q), p, k);
  }

  /** The loop halts in at most one state: the run from `p` has a single outcome. */
  lemma HaltedStateUnique(m: Model, p: Planner, j: nat, k: nat)
    requires Stops(m, Iterate(m, p, j)) && Stops(m, Iterate(m, p, k))
    ensures Iterate(m, p, j) == Iterate(m, p, k)
  {
    var step, stop := q => Step(m, q), q => Stops(m, q);
    if j <= k {
      RepeatStaysStopped(step, stop, p, j, k);
    } else {
      RepeatStaysStopped(step, stop, p, k, j);
    }
  }

  /** An iteration whose popped node misses the goal is the next state of the run. */
  lemma IterateAdvances(m: Model, p0: Planner, k: nat, p: Planner)
    requires m.Valid() && p == Iterate(m, p0, k) && WellFormed(m, p) && |p.open| > 0
    requires Scored(p.g, p.h, p.open) && m.points[Popped(p)] != m.points[p.end]
    ensures Iterate(m, p0, k + 1) == Advance(m, p)
  {
    assert !GoalPopped(m, p);
    IterateOneMore(m, p0, k);
  }

  /** The run halts when the popped node passes the goal test or the open list is exhausted. */
  lemma HaltsAtGoalOrExhausted(m: Model, p: Planner)
    requires WellFormed(m, p) && Scored(p.g, p.h, p.open)
    requires |p.open| == 0 || m.points[Popped(p)] == m.points[p.end]
    ensures Stops(m, p)
  {
  }
}
