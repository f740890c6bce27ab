/** The invariants of the A* loop and the lemmas that make its answer a
    shortest solution. The loop keeps a queue of nodes, the set of keys of
    expanded ("closed") states and, as ghost bookkeeping, the path length each
    closed state was expanded with. */
module Search {
  import opened Wrappers
  import opened BlockState
  import opened Board
  import opened Moves
  import opened Heuristics
  import opened Frontier

  /** What a solve works on: the board (with the start cells already
      rewritten), its size, the goal cell and the initial state. */
  datatype Puzzle = Puzzle(grid: Grid, xSize: int, ySize: int, goalX: int, goalY: int, initial: State)

  ghost predicate WellPosed(pz: Puzzle)
  {
    Rectangular(pz.grid, pz.xSize, pz.ySize) && InBounds(pz.initial, pz.xSize, pz.ySize)
  }

  function KeyOf(pz: Puzzle, s: State): (k: int)
  {
    Key(s, pz.xSize, pz.ySize)
  }

  /** `path` replays from the initial state to a goal state. */
  ghost predicate IsSolution(pz: Puzzle, path: seq<char>)
  {
    var r := Replay(pz.grid, pz.initial, path);
    r.Some? && IsGoal(pz.goalX, pz.goalY, r.value)
  }

  /** A queued node's path leads from the initial state to its state, and its
      guessed cost is the path length plus the heuristic. */
  ghost predicate NodeSound(pz: Puzzle, n: Node)
  {
    Replay(pz.grid, pz.initial, n.path) == Some(n.state) &&
    n.costGuess == |n.path| as real + Heuristic(pz.goalX, pz.goalY, n.state)
  }

  ghost predicate NodesSound(pz: Puzzle, data: seq<Node>)
  {
    forall n :: n in data ==> NodeSound(pz, n)
  }

  /** The closed keys are the keys of the states recorded in `closedAt`, all
      of them in bounds. */
  ghost predicate ClosedKeys(pz: Puzzle, closed: set<int>, closedAt: map<State, nat>)
  {
    (forall s :: s in closedAt ==> InBounds(s, pz.xSize, pz.ySize)) &&
    closed == set s | s in closedAt.Keys :: KeyOf(pz, s)
  }

  /** Some queued node for `s` has a path no longer than `bound`. */
  ghost predicate Queued(data: seq<Node>, s: State, bound: int)
  {
    exists n :: n in data && n.state == s && |n.path| <= bound
  }

  /** Each closed state was expanded with a path no longer than any path
      that reaches it. */
  ghost predicate ClosedOptimal(pz: Puzzle, closedAt: map<State, nat>)
  {
    forall s, p :: s in closedAt && Replay(pz.grid, pz.initial, p) == Some(s) ==> closedAt[s] <= |p|
  }

  /** Each successor of a closed state is closed or queued with a path at
      most one longer than the closed state's. */
  ghost predicate ClosedExpanded(pz: Puzzle, closed: set<int>, closedAt: map<State, nat>, data: seq<Node>)
  {
    forall s, a :: s in closedAt && a in Successors(pz.grid, s) ==>
      KeyOf(pz, Successors(pz.grid, s)[a]) in closed ||
      Queued(data, Successors(pz.grid, s)[a], closedAt[s] + 1)
  }

  ghost predicate InitialCovered(pz: Puzzle, closed: set<int>, data: seq<Node>)
  {
    KeyOf(pz, pz.initial) in closed || Queued(data, pz.initial, 0)
  }

  ghost predicate NoGoalClosed(pz: Puzzle, closedAt: map<State, nat>)
  {
    forall s :: s in closedAt ==> !IsGoal(pz.goalX, pz.goalY, s)
  }

  /** The invariant of the search loop. */
  ghost predicate SearchInv(pz: Puzzle, closed: set<int>, closedAt: map<State, nat>, data: seq<Node>)
  {
    WellPosed(pz) && NodesSound(pz, data) && ClosedKeys(pz, closed, closedAt) &&
    ClosedOptimal(pz, closedAt) && ClosedExpanded(pz, closed, closedAt, data) &&
    InitialCovered(pz, closed, data) && NoGoalClosed(pz, closedAt)
  }

  /** For in-bounds states, membership of the key in the closed set (the
      source's test) is membership of the state itself. */
  lemma ClosedMember(pz: Puzzle, closed: set<int>, closedAt: map<State, nat>, s: State)
    requires ClosedKeys(pz, closed, closedAt) && InBounds(s, pz.xSize, pz.ySize)
    ensures KeyOf(pz, s) in closed <==> s in closedAt
  {
    if KeyOf(pz, s) in closed {
      var s' :| s' in closedAt.Keys && KeyOf(pz, s') == KeyOf(pz, s);
      SameStateIsEquality(s, s', pz.xSize, pz.ySize);
    }
  }

  /** Every state a queued node stands for is in bounds. */
  lemma QueuedStateInBounds(pz: Puzzle, n: Node)
    requires WellPosed(pz) && NodeSound(pz, n)
    ensures InBounds(n.state, pz.xSize, pz.ySize)
  {
    ReplayInBounds(pz.grid, pz.xSize, pz.ySize, pz.initial, n.path);
  }

  /** The state right after construction satisfies the invariant. */
  lemma InitialInvariant(pz: Puzzle)
    requires WellPosed(pz)
    ensures SearchInv(pz, {}, map[], [Node(Heuristic(pz.goalX, pz.goalY, pz.initial), pz.initial, [])])
  {
    var n := Node(Heuristic(pz.goalX, pz.goalY, pz.initial), pz.initial, []);
    assert NodeSound(pz, n);
    var none: map<State, nat> := map[];
    assert (set s | s in none.Keys :: KeyOf(pz, s)) == {};
    assert Queued([n], pz.initial, 0);
  }

  /** The frontier property: whenever a path reaches a state that is not
      closed, some queued node has a guessed cost no greater than the path's
      length plus that state's heuristic. */
  lemma {:induction false} FrontierCovers(pz: Puzzle, closed: set<int>, closedAt: map<State, nat>, data: seq<Node>,
                                          p: seq<char>, t: State)
    requires SearchInv(pz, closed, closedAt, data)
    requires Replay(pz.grid, pz.initial, p) == Some(t) && KeyOf(pz, t) !in closed
    ensures exists n :: n in data && n.costGuess <= |p| as real + Heuristic(pz.goalX, pz.goalY, t)
    decreases |p|
  {
    if p == [] {
      InitialQueued(pz, closed, closedAt, data);
    } else {
      var q, a := p[..|p| - 1], p[|p| - 1];
      SplitLast(p);
      ReplaySnoc(pz.grid, pz.initial, q, a);
      var s := Replay(pz.grid, pz.initial, q).value;
      assert a in Successors(pz.grid, s) && Successors(pz.grid, s)[a] == t;
      ReplayInBounds(pz.grid, pz.xSize, pz.ySize, pz.initial, q);
      ClosedMember(pz, closed, closedAt, s);
      if KeyOf(pz, s) !in closed {
        FrontierCovers(pz, closed, closedAt, data, q, s);
        var n :| n in data && n.costGuess <= |q| as real + Heuristic(pz.goalX, pz.goalY, s);
        HeuristicConsistent(pz.grid, pz.goalX, pz.goalY, s, a);
        assert n.costGuess <= |p| as real + Heuristic(pz.goalX, pz.goalY, t);
      } else {
        SuccessorOfClosedQueued(pz, closed, closedAt, data, q, s, a);
      }
    }
  }

  lemma SplitLast(p: seq<char>)
    requires p != []
    ensures p == p[..|p| - 1] + [p[|p| - 1]]
  {
  }

  /** Base case of the frontier property: the initial state, when not closed,
      is queued at cost at most its heuristic. */
  lemma InitialQueued(pz: Puzzle, closed: set<int>, closedAt: map<State, nat>, data: seq<Node>)
    requires NodesSound(pz, data) && InitialCovered(pz, closed, data) && KeyOf(pz, pz.initial) !in closed
    ensures exists n :: n in data && n.costGuess <= 0 as real + Heuristic(pz.goalX, pz.goalY, pz.initial)
  {
    var n :| n in data && n.state == pz.initial && |n.path| <= 0;
    assert NodeSound(pz, n);
  }

  /** Step case of the frontier property through a closed state `s` reached
      by `q`: its successor by `a`, when not closed, is queued at cost at most
      one more than `q`'s length plus the successor's heuristic. */
  lemma SuccessorOfClosedQueued(pz: Puzzle, closed: set<int>, closedAt: map<State, nat>, data: seq<Node>,
                                q: seq<char>, s: State, a: char)
    requires NodesSound(pz, data) && ClosedOptimal(pz, closedAt) && ClosedExpanded(pz, closed, closedAt, data)
    requires Replay(pz.grid, pz.initial, q) == Some(s) && s in closedAt
    requires a in Successors(pz.grid, s) && KeyOf(pz, Successors(pz.grid, s)[a]) !in closed
    ensures exists n :: (n in data &&
      n.costGuess <= (|q| + 1) as real + Heuristic(pz.goalX, pz.goalY, Successors(pz.grid, s)[a]))
  {
    var t := Successors(pz.grid, s)[a];
    assert closedAt[s] <= |q|;
    assert Queued(data, t, closedAt[s] + 1);
    var n :| n in data && n.state == t && |n.path| <= closedAt[s] + 1;
    assert NodeSound(pz, n);
  }

  /** A node popped as a least element that is not closed has the shortest
      path to its state. */
  lemma PoppedIsShortest(pz: Puzzle, closed: set<int>, closedAt: map<State, nat>, data: seq<Node>,
                         n: Node, p: seq<char>)
    requires SearchInv(pz, closed, closedAt, data)
    requires n in data && forall m :: m in data ==> !m.Less(n)
    requires KeyOf(pz, n.state) !in closed && Replay(pz.grid, pz.initial, p) == Some(n.state)
    ensures |n.path| <= |p|
  {
    FrontierCovers(pz, closed, closedAt, data, p, n.state);
    var m :| m in data && m.costGuess <= |p| as real + Heuristic(pz.goalX, pz.goalY, n.state);
    assert !m.Less(n);
    assert NodeSound(pz, n);
  }

  /** When a goal node is popped, its path is a solution and no solution is
      shorter. */
  lemma GoalPoppedIsShortest(pz: Puzzle, closed: set<int>, closedAt: map<State, nat>, data: seq<Node>, n: Node)
    requires SearchInv(pz, closed, closedAt, data)
    requires n in data && forall m :: m in data ==> !m.Less(n)
    requires IsGoal(pz.goalX, pz.goalY, n.state)
    ensures IsSolution(pz, n.path)
    ensures forall p :: IsSolution(pz, p) ==> |n.path| <= |p|
  {
    assert NodeSound(pz, n);
    forall p | IsSolution(pz, p)
      ensures |n.path| <= |p|
    {
      var t := Replay(pz.grid, pz.initial, p).value;
      ReplayInBounds(pz.grid, pz.xSize, pz.ySize, pz.initial, p);
      ClosedMember(pz, closed, closedAt, t);
      FrontierCovers(pz, closed, closedAt, data, p, t);
      var m :| m in data && m.costGuess <= |p| as real + Heuristic(pz.goalX, pz.goalY, t);
      assert !m.Less(n);
    }
  }

  /** When the queue runs empty no action sequence reaches the goal. */
  lemma EmptyQueueMeansNoSolution(pz: Puzzle, closed: set<int>, closedAt: map<State, nat>)
    requires SearchInv(pz, closed, closedAt, [])
    ensures forall p :: !IsSolution(pz, p)
  {
    forall p | IsSolution(pz, p)
      ensures false
    {
      var t := Replay(pz.grid, pz.initial, p).value;
      ReplayInBounds(pz.grid, pz.xSize, pz.ySize, pz.initial, p);
      ClosedMember(pz, closed, closedAt, t);
      FrontierCovers(pz, closed, closedAt, [], p, t);
    }
  }

  /** Removing one node keeps every other queued state queued. */
  lemma QueuedAfterPop(data0: seq<Node>, n: Node, data1: seq<Node>, s: State, bound: int)
    requires multiset(data1) == multiset(data0) - multiset{n}
    requires Queued(data0, s, bound) && s != n.state
    ensures Queued(data1, s, bound)
  {
    var m :| m in data0 && m.state == s && |m.path| <= bound;
    assert m in multiset(data0) && m != n;
    assert m in multiset(data1);
  }

  lemma PopKeepsNodesSound(pz: Puzzle, data0: seq<Node>, n: Node, data1: seq<Node>)
    requires NodesSound(pz, data0) && multiset(data1) == multiset(data0) - multiset{n}
    ensures NodesSound(pz, data1)
  {
    forall m | m in data1
      ensures NodeSound(pz, m)
    {
      assert m in multiset(data1);
      assert m in multiset(data0);
    }
  }

  /** Discarding a popped node whose state is already closed keeps the
      invariant. */
  lemma DiscardKeepsInvariant(pz: Puzzle, closed: set<int>, closedAt: map<State, nat>,
                              data0: seq<Node>, n: Node, data1: seq<Node>)
    requires SearchInv(pz, closed, closedAt, data0)
    requires n in data0 && KeyOf(pz, n.state) in closed
    requires multiset(data1) == multiset(data0) - multiset{n}
    ensures SearchInv(pz, closed, closedAt, data1)
  {
    PopKeepsNodesSound(pz, data0, n, data1);
    forall s, a | s in closedAt && a in Successors(pz.grid, s) &&
                  KeyOf(pz, Successors(pz.grid, s)[a]) !in closed
      ensures Queued(data1, Successors(pz.grid, s)[a], closedAt[s] + 1)
    {
      QueuedAfterPop(data0, n, data1, Successors(pz.grid, s)[a], closedAt[s] + 1);
    }
    if KeyOf(pz, pz.initial) !in closed {
      QueuedAfterPop(data0, n, data1, pz.initial, 0);
    }
  }

  lemma ClosedKeysInsert(pz: Puzzle, closed: set<int>, closedAt: map<State, nat>, u: State, g: nat)
    requires ClosedKeys(pz, closed, closedAt) && InBounds(u, pz.xSize, pz.ySize)
    ensures ClosedKeys(pz, closed + {KeyOf(pz, u)}, closedAt[u := g])
  {
    var after := closedAt[u := g];
    var keys := set s | s in after.Keys :: KeyOf(pz, s);
    forall k | k in keys
      ensures k in closed + {KeyOf(pz, u)}
    {
      var s :| s in after.Keys && KeyOf(pz, s) == k;
      if s != u {
        assert s in closedAt.Keys;
      }
    }
    forall k | k in closed + {KeyOf(pz, u)}
      ensures k in keys
    {
      if k in closed {
        var s :| s in closedAt.Keys && KeyOf(pz, s) == k;
        assert s in after.Keys;
      } else {
        assert u in after.Keys;
      }
    }
  }

  /** The node queued for action `a` from the expanded node `n`: none when
      the move generator does not offer `a` or its state is closed; otherwise
      the successor with `n`'s path extended by `a` and cost one more than
      `n`'s path length plus the successor's heuristic. */
  function Child(pz: Puzzle, closed: set<int>, n: Node, a: char): (kids: seq<Node>)
  {
    var succ := Successors(pz.grid, n.state);
    if a in succ && KeyOf(pz, succ[a]) !in closed then
      [Node((|n.path| + 1) as real + Heuristic(pz.goalX, pz.goalY, succ[a]), succ[a], n.path + [a])]
    else []
  }

  /** The nodes queued when `n` is expanded, for the actions in `labels`, in
      that order. */
  function Children(pz: Puzzle, closed: set<int>, n: Node, labels: seq<char>): (kids: seq<Node>)
    decreases |labels|
  {
    if labels == [] then []
    else Children(pz, closed, n, labels[..|labels| - 1]) + Child(pz, closed, n, labels[|labels| - 1])
  }

  /** Taking one more action label adds that action's child, if any. */
  lemma ChildrenStep(pz: Puzzle, closed: set<int>, n: Node, labels: seq<char>, k: nat)
    requires k < |labels|
    ensures Children(pz, closed, n, labels[..k + 1]) ==
      Children(pz, closed, n, labels[..k]) + Child(pz, closed, n, labels[k])
  {
    assert labels[..k + 1][..k] == labels[..k];
  }

  /** Every child of a sound node is sound: its path replays to its state and
      it is one step longer. */
  lemma {:induction false} ChildrenSound(pz: Puzzle, closed: set<int>, n: Node, labels: seq<char>)
    requires NodeSound(pz, n)
    ensures NodesSound(pz, Children(pz, closed, n, labels))
    ensures forall m :: m in Children(pz, closed, n, labels) ==>
      |m.path| == |n.path| + 1 && KeyOf(pz, m.state) !in closed
    decreases |labels|
  {
    if labels != [] {
      var a := labels[|labels| - 1];
      ChildrenSound(pz, closed, n, labels[..|labels| - 1]);
      ReplaySnoc(pz.grid, pz.initial, n.path, a);
    }
  }

  /** Every offered action in `labels` whose successor is not closed gets a
      child one step longer than `n`. */
  lemma {:induction false} ChildrenCover(pz: Puzzle, closed: set<int>, n: Node, labels: seq<char>)
    ensures forall a ::
      a in labels && a in Successors(pz.grid, n.state) && KeyOf(pz, Successors(pz.grid, n.state)[a]) !in closed ==>
      Queued(Children(pz, closed, n, labels), Successors(pz.grid, n.state)[a], |n.path| + 1)
    decreases |labels|
  {
    if labels != [] {
      var init, last := labels[..|labels| - 1], labels[|labels| - 1];
      ChildrenCover(pz, closed, n, init);
      var prev := Children(pz, closed, n, init);
      var all := Children(pz, closed, n, labels);
      assert all == prev + Child(pz, closed, n, last);
      forall a | a in labels && a in Successors(pz.grid, n.state) &&
                 KeyOf(pz, Successors(pz.grid, n.state)[a]) !in closed
        ensures Queued(all, Successors(pz.grid, n.state)[a], |n.path| + 1)
      {
        if a == last {
          assert Child(pz, closed, n, last)[0] in all;
        } else {
          assert a in init;
          var m :| m in prev && m.state == Successors(pz.grid, n.state)[a] && |m.path| <= |n.path| + 1;
          assert m in all;
        }
      }
    }
  }

  /** Expanding the popped node `n` (not closed, not a goal) and queueing its
      children keeps the invariant once `n`'s state is closed. */
  lemma ExpandKeepsInvariant(pz: Puzzle, closed: set<int>, closedAt: map<State, nat>,
                             data0: seq<Node>, n: Node, data1: seq<Node>)
    requires SearchInv(pz, closed, closedAt, data0)
    requires n in data0 && forall m :: m in data0 ==> !m.Less(n)
    requires KeyOf(pz, n.state) !in closed && !IsGoal(pz.goalX, pz.goalY, n.state)
    requires multiset(data1) == multiset(data0) - multiset{n}
    ensures SearchInv(pz, closed + {KeyOf(pz, n.state)}, closedAt[n.state := |n.path|],
                      data1 + Children(pz, closed, n, Labels))
  {
    var u := n.state;
    var children := Children(pz, closed, n, Labels);
    var data2 := data1 + children;
    var closed' := closed + {KeyOf(pz, u)};
    var closedAt' := closedAt[u := |n.path|];
    assert NodeSound(pz, n);
    QueuedStateInBounds(pz, n);
    ClosedMember(pz, closed, closedAt, u);
    ClosedKeysInsert(pz, closed, closedAt, u, |n.path|);
    PopKeepsNodesSound(pz, data0, n, data1);
    ChildrenSound(pz, closed, n, Labels);
    ChildrenCover(pz, closed, n, Labels);
    assert NodesSound(pz, data2);

    forall s, p | s in closedAt' && Replay(pz.grid, pz.initial, p) == Some(s)
      ensures closedAt'[s] <= |p|
    {
      if s == u {
        PoppedIsShortest(pz, closed, closedAt, data0, n, p);
      }
    }
    assert ClosedOptimal(pz, closedAt');

    forall s, a | s in closedAt' && a in Successors(pz.grid, s) &&
                  KeyOf(pz, Successors(pz.grid, s)[a]) !in closed'
      ensures Queued(data2, Successors(pz.grid, s)[a], closedAt'[s] + 1)
    {
      var t := Successors(pz.grid, s)[a];
      if s != u {
        assert t != u;
        QueuedAfterPop(data0, n, data1, t, closedAt[s] + 1);
        var m :| m in data1 && m.state == t && |m.path| <= closedAt[s] + 1;
        assert m in data2;
      } else {
        assert a in Labels;
        var m :| m in children && m.state == t && |m.path| <= |n.path| + 1;
        assert m in data2;
      }
    }
    assert ClosedExpanded(pz, closed', closedAt', data2);

    if KeyOf(pz, pz.initial) !in closed' {
      assert pz.initial != u;
      QueuedAfterPop(data0, n, data1, pz.initial, 0);
      var m :| m in data1 && m.state == pz.initial && |m.path| <= 0;
      assert m in data2;
    }
  }

  /** A set of keys drawn from [0, n) has at most n elements. */
  lemma {:induction false} KeysBounded(keys: set<int>, n: nat)
    requires forall k :: k in keys ==> 0 <= k < n
    ensures |keys| <= n
    decreases n
  {
    if n == 0 {
      assert forall k :: k !in keys;
      assert keys == {};
    } else {
      KeysBounded(keys - {n - 1}, n - 1);
    }
  }

  /** Closing one more key drawn from [0, n) keeps the closed keys in range
      and no more numerous than n. */
  lemma InsertKeyBounded(keys: set<int>, key: int, n: nat)
    requires forall k :: k in keys ==> 0 <= k < n
    requires 0 <= key < n
    ensures forall k :: k in keys + {key} ==> 0 <= k < n
    ensures |keys + {key}| <= n
  {
    KeysBounded(keys + {key}, n);
  }
}
