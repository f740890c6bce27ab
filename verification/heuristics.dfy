/** The goal test and the A* heuristic. */
module Heuristics {
  import opened Wrappers
  import opened BlockState
  import opened Board
  import opened Moves

  /** The source's `is_goal`: standing exactly on the goal cell. */
  predicate IsGoal(goalX: int, goalY: int, s: State): (goal: bool)
    ensures goal <==> Footprint(s) == {(goalX, goalY)}
  {
    s.orient == Standing && s.x == goalX && s.y == goalY
  }

  /** The source's `heuristic`: a third of the distance to the goal along each
      axis, with exact (real) division. It is never negative and is zero
      exactly when the block's top-left cell is the goal cell, whatever the
      orientation. */
  function Heuristic(goalX: int, goalY: int, s: State): (h: real)
    ensures h >= 0.0
    ensures h == 0.0 <==> s.x == goalX && s.y == goalY
  {
    (Abs(goalX - s.x) as real) / 3.0 + (Abs(goalY - s.y) as real) / 3.0
  }

  /** Consistency: one move (cost 1) lowers the heuristic by at most 2/3. */
  lemma HeuristicConsistent(g: Grid, goalX: int, goalY: int, s: State, a: char)
    requires a in Successors(g, s)
    ensures Heuristic(goalX, goalY, s) <= 1.0 + Heuristic(goalX, goalY, Successors(g, s)[a])
  {
    SuccessorsAreSafeRolls(g, s, a);
    RollDisplacement(s, a);
  }

  /** Along any replayable path, the heuristic drops by at most the path's
      length. */
  lemma {:induction false} HeuristicAlongPath(g: Grid, goalX: int, goalY: int, s: State, path: seq<char>, t: State)
    requires Replay(g, s, path) == Some(t)
    ensures Heuristic(goalX, goalY, s) <= |path| as real + Heuristic(goalX, goalY, t)
    decreases |path|
  {
    if path != [] {
      var succ := Successors(g, s);
      HeuristicConsistent(g, goalX, goalY, s, path[0]);
      HeuristicAlongPath(g, goalX, goalY, succ[path[0]], path[1..], t);
    }
  }

  /** Admissibility: the heuristic never exceeds the length of a path that
      reaches the goal. */
  lemma HeuristicAdmissible(g: Grid, goalX: int, goalY: int, s: State, path: seq<char>)
    requires Replay(g, s, path).Some? && IsGoal(goalX, goalY, Replay(g, s, path).value)
    ensures Heuristic(goalX, goalY, s) <= |path| as real
  {
    HeuristicAlongPath(g, goalX, goalY, s, path, Replay(g, s, path).value);
  }
}
