/** The solver object: it loads the board, then runs A* with lazy duplicate
    elimination over the block's states. */
module Solver {
  import opened Wrappers
  import opened Text
  import opened BlockState
  import opened Board
  import opened Moves
  import opened Heuristics
  import opened Frontier
  import opened Search

  /** The source's `Bloxorz`. The board, its size, the goal cell and the
      initial state are fixed once the constructor has run; the queue and the
      closed keys change during `Solve`. */
  class Bloxorz {
    const grid: Grid
    const xSize: int
    const ySize: int
    const goalX: int
    const goalY: int
    const initial: State
    const queue: PriorityQueue
    var closed: set<int>

    ghost function Problem(): Puzzle
    {
      Puzzle(grid, xSize, ySize, goalX, goalY, initial)
    }

    ghost predicate Valid()
      reads this, queue
    {
      WellPosed(Problem()) && queue.Valid()
    }

    /** The state a freshly constructed solver is in: nothing closed, and only
        the initial node queued, with an empty path. */
    ghost predicate Fresh()
      reads this, queue
    {
      closed == {} && queue.data == [Node(Heuristic(goalX, goalY, initial), initial, [])]
    }

    /** Loads the board: records the first 'G', finds the block from the
        leftmost 'S' of the first row holding one, reads its orientation from
        a second 'S' to the right or below, rewrites the start cells to '0'
        and queues the initial node. */
    constructor (inputMatrix: seq<string>)
      requires |inputMatrix| > 0 && Rectangular(inputMatrix, |inputMatrix[0]|, |inputMatrix|)
      requires exists i :: 0 <= i < |inputMatrix| && 'G' in inputMatrix[i]
      requires exists i :: 0 <= i < |inputMatrix| && 'S' in inputMatrix[i]
      ensures Valid() && Fresh() && fresh(queue)
      ensures xSize == |inputMatrix[0]| && ySize == |inputMatrix|
      ensures FirstGoal(inputMatrix, goalX, goalY)
      ensures StartFound(inputMatrix, initial) && StartCleared(inputMatrix, grid, initial)
      ensures forall c :: c in Footprint(initial) ==>
        0 <= c.1 < |grid| && 0 <= c.0 < |grid[c.1]| && grid[c.1][c.0] == '0' && !IsSafe(grid, c.0, c.1)
    {
      var gx, gy := FindGoal(inputMatrix);
      var rows, start := PlaceBlock(inputMatrix);
      var q := new PriorityQueue();
      q.Push(Node(Heuristic(gx, gy, start), start, []));
      grid := rows;
      xSize, ySize := |inputMatrix[0]|, |inputMatrix|;
      goalX, goalY := gx, gy;
      initial := start;
      queue := q;
      closed := {};
    }

    /** The source's `solve`: pops the cheapest node; skips it when its state
        is closed; returns its path when its state is the goal; otherwise
        queues every successor that is not closed, with a copy of the path
        extended by the action, and closes the state. Returns [] when the
        queue runs empty. The result is a shortest solution, or [] when no
        action sequence reaches the goal. */
    method Solve() returns (result: seq<char>)
      requires Valid() && Fresh()
      modifies this, queue
      ensures
        (IsSolution(Problem(), result) && forall p :: IsSolution(Problem(), p) ==> |result| <= |p|) ||
        (result == [] && forall p :: !IsSolution(Problem(), p))
    {
      ghost var pz := Problem();
      ghost var closedAt: map<State, nat> := map[];
      InitialInvariant(pz);
      var more := queue.NotEmpty();
      while more
        invariant queue.Valid() && (more <==> |queue.data| > 0)
        invariant SearchInv(pz, closed, closedAt, queue.data)
        invariant forall k :: k in closed ==> 0 <= k < 3 * xSize * ySize
        invariant |closed| <= 3 * xSize * ySize
        decreases 3 * xSize * ySize - |closed|, |queue.data|
      {
        ghost var data0 := queue.data;
        var current := queue.Pop();
        assert NodeSound(pz, current);
        QueuedStateInBounds(pz, current);
        if Key(current.state, xSize, ySize) !in closed {
          if IsGoal(goalX, goalY, current.state) {
            GoalPoppedIsShortest(pz, closed, closedAt, data0, current);
            return current.path;
          }
          ghost var closed0 := closed;
          closedAt := Expand(current, pz, closedAt, data0);
          assert |closed| == |closed0| + 1;
        } else {
          DiscardKeepsInvariant(pz, closed, closedAt, data0, current, queue.data);
        }
        more := queue.NotEmpty();
      }
      EmptyQueueMeansNoSolution(pz, closed, closedAt);
      return [];
    }

    /** Expands a popped node that is neither closed nor a goal: queues its
        successors, then closes its state. The search invariant carries over,
        with the node's path length recorded for its state, and one more key
        is closed. */
    method Expand(current: Node, ghost pz: Puzzle, ghost closedAt: map<State, nat>, ghost data0: seq<Node>)
      returns (ghost closedAt': map<State, nat>)
      requires queue.Valid() && pz == Problem() && SearchInv(pz, closed, closedAt, data0)
      requires current in data0 && forall m :: m in data0 ==> !m.Less(current)
      requires multiset(queue.data) == multiset(data0) - multiset{current}
      requires KeyOf(pz, current.state) !in closed && !IsGoal(goalX, goalY, current.state)
      requires InBounds(current.state, xSize, ySize)
      requires forall k :: k in closed ==> 0 <= k < 3 * xSize * ySize
      modifies this, queue
      ensures queue.Valid() && SearchInv(pz, closed, closedAt', queue.data)
      ensures queue.data == old(queue.data) + Children(pz, old(closed), current, Labels)
      ensures closed == old(closed) + {KeyOf(pz, current.state)}
      ensures closedAt' == closedAt[current.state := |current.path|]
      ensures forall k :: k in closed ==> 0 <= k < 3 * xSize * ySize
      ensures |closed| <= 3 * xSize * ySize
    {
      ghost var data1 := queue.data;
      QueueSuccessors(current, pz);
      ExpandKeepsInvariant(pz, closed, closedAt, data0, current, data1);
      var key := Key(current.state, xSize, ySize);
      KeyRange(current.state, xSize, ySize);
      InsertKeyBounded(closed, key, 3 * xSize * ySize);
      closed := closed + {key};
      closedAt' := closedAt[current.state := |current.path|];
    }

    /** The inner loop of the source's `solve`: for each action the move
        generator offers from `current`, in the order U, D, L, R, queues a node
        for the successor state unless its key is closed. */
    method QueueSuccessors(current: Node, ghost pz: Puzzle)
      requires queue.Valid() && pz == Problem()
      modifies queue
      ensures queue.Valid() && queue.data == old(queue.data) + Children(pz, closed, current, Labels)
    {
      ghost var before := queue.data;
      var successors := Successors(grid, current.state);
      for k := 0 to |Labels|
        invariant queue.Valid() && queue.data == before + Children(pz, closed, current, Labels[..k])
      {
        ChildrenStep(pz, closed, current, Labels, k);
        QueueChild(current, Labels[k], successors, pz);
      }
      assert Labels[..|Labels|] == Labels;
    }

    /** One step of that loop: when `key` is offered and leads to a state
        whose key is not closed, queues the successor with a fresh copy of
        `current.path` extended by `key`, at cost the new path's length plus
        the successor's heuristic. */
    method QueueChild(current: Node, key: char, successors: map<char, State>, ghost pz: Puzzle)
      requires queue.Valid() && pz == Problem() && successors == Successors(grid, current.state)
      modifies queue
      ensures queue.Valid() && queue.data == old(queue.data) + Child(pz, closed, current, key)
    {
      if key in successors && Key(successors[key], xSize, ySize) !in closed {
        var newState := successors[key];
        var templist := CopyAndAppend(current.path, key);
        var child := Node(|templist| as real + Heuristic(goalX, goalY, newState), newState, templist);
        assert pz.grid == grid && KeyOf(pz, newState) == Key(newState, xSize, ySize);
        assert child.costGuess == (|current.path| + 1) as real + Heuristic(pz.goalX, pz.goalY, newState);
        assert Child(pz, closed, current, key) == [child];
        queue.Push(child);
      } else {
        assert pz.grid == grid;
        assert Child(pz, closed, current, key) == [];
      }
    }
  }

  /** (gx, gy) is the first 'G' of the first row holding one. */
  ghost predicate FirstGoal(rows: seq<string>, gx: int, gy: int)
  {
    0 <= gy < |rows| && 0 <= gx < |rows[gy]| && rows[gy][gx] == 'G' &&
    (forall i :: 0 <= i < gy ==> 'G' !in rows[i]) && 'G' !in rows[gy][..gx]
  }

  /** `start` is where the source's constructor puts the block on the
      rectangular board `input`: its cell is the first 'S' of the first row
      holding one; it lies along x when the next cell of that row is an 'S',
      along y when the cell below is, and stands otherwise. */
  ghost predicate StartFound(input: seq<string>, start: State)
    requires |input| > 0 && Rectangular(input, |input[0]|, |input|)
  {
    InBounds(start, |input[0]|, |input|) && input[start.y][start.x] == 'S' &&
    (forall i :: 0 <= i < start.y ==> 'S' !in input[i]) && 'S' !in input[start.y][..start.x] &&
    start.orient ==
      if start.x + 1 < |input[0]| && input[start.y][start.x + 1] == 'S' then AlongX
      else if start.y + 1 < |input| && input[start.y + 1][start.x] == 'S' then AlongY
      else Standing
  }

  /** `rows` is `input` with the start cells rewritten to '0': the pairs "SS"
      of the block's row when it lies along x, every 'S' of that row (and of
      the row below when it lies along y) otherwise; other rows unchanged. */
  ghost predicate StartCleared(input: seq<string>, rows: seq<string>, start: State)
    requires |input| > 0 && Rectangular(input, |input[0]|, |input|) && StartFound(input, start)
  {
    |rows| == |input| &&
    rows[start.y] == (
      if start.orient == AlongX then ReplacePairs(input[start.y], 'S', '0')
      else ReplaceChar(input[start.y], 'S', '0')) &&
    (start.orient == AlongY ==> rows[start.y + 1] == ReplaceChar(input[start.y + 1], 'S', '0')) &&
    forall i :: 0 <= i < |rows| && i != start.y && !(start.orient == AlongY && i == start.y + 1) ==>
      rows[i] == input[i]
  }

  /** The goal scan of the source's constructor: the first row holding a
      'G', and the first 'G' in it. */
  method FindGoal(rows: seq<string>) returns (gx: int, gy: int)
    requires exists i :: 0 <= i < |rows| && 'G' in rows[i]
    ensures FirstGoal(rows, gx, gy)
  {
    var i := 0;
    while i < |rows|
      invariant 0 <= i <= |rows|
      invariant forall j :: 0 <= j < i ==> 'G' !in rows[j]
    {
      var res := Find(rows[i], 'G');
      if res != -1 {
        return res, i;
      }
      i := i + 1;
    }
    assert false;
  }

  /** The start scan of the source's constructor: finds the first 'S' of the
      first row holding one, then places the block there. */
  method PlaceBlock(input: seq<string>) returns (rows: seq<string>, start: State)
    requires |input| > 0 && Rectangular(input, |input[0]|, |input|)
    requires exists i :: 0 <= i < |input| && 'S' in input[i]
    ensures StartFound(input, start) && StartCleared(input, rows, start)
    ensures Rectangular(rows, |input[0]|, |input|)
    ensures forall c :: c in Footprint(start) ==>
      0 <= c.1 < |rows| && 0 <= c.0 < |rows[c.1]| && rows[c.1][c.0] == '0' && !IsSafe(rows, c.0, c.1)
  {
    var i := 0;
    while i < |input|
      invariant 0 <= i <= |input|
      invariant forall j :: 0 <= j < i ==> 'S' !in input[j]
    {
      var res := Find(input[i], 'S');
      if res != -1 {
        rows, start := ClearStart(input, res, i);
        return;
      }
      i := i + 1;
    }
    assert false;
  }

  /** The body of that scan once the first 'S' is found at (x, y): reads the
      orientation and rewrites the start cells. */
  method ClearStart(input: seq<string>, x: int, y: int) returns (rows: seq<string>, start: State)
    requires |input| > 0 && Rectangular(input, |input[0]|, |input|)
    requires 0 <= y < |input| && 0 <= x < |input[y]| && input[y][x] == 'S'
    requires (forall i :: 0 <= i < y ==> 'S' !in input[i]) && 'S' !in input[y][..x]
    ensures StartFound(input, start) && StartCleared(input, rows, start)
    ensures Rectangular(rows, |input[0]|, |input|)
    ensures forall c :: c in Footprint(start) ==>
      0 <= c.1 < |rows| && 0 <= c.0 < |rows[c.1]| && rows[c.1][c.0] == '0' && !IsSafe(rows, c.0, c.1)
  {
    if x + 1 < |input[y]| && input[y][x + 1] == 'S' {
      start := State(x, y, AlongX);
      var row := ReplacePairs(input[y], 'S', '0');
      ReplacePairsAtFirst(input[y], 'S', '0', x);
      rows := input[y := row];
      assert rows[y][x] == '0' && rows[y][x + 1] == '0';
      assert StartFound(input, start) && StartCleared(input, rows, start);
    } else if y + 1 < |input| && input[y + 1][x] == 'S' {
      start := State(x, y, AlongY);
      var row, below := ReplaceChar(input[y], 'S', '0'), ReplaceChar(input[y + 1], 'S', '0');
      rows := input[y := row][y + 1 := below];
      assert rows[y][x] == '0' && rows[y + 1][x] == '0';
      assert StartFound(input, start) && StartCleared(input, rows, start);
    } else {
      start := State(x, y, Standing);
      var row := ReplaceChar(input[y], 'S', '0');
      rows := input[y := row];
      assert rows[y][x] == '0';
      assert StartFound(input, start) && StartCleared(input, rows, start);
    }
    FootprintCleared(rows, start);
  }

  /** The path copy of the source's `solve`: a fresh list holding the
      parent's actions, one by one, followed by `key`. */
  method CopyAndAppend(path: seq<char>, key: char) returns (templist: seq<char>)
    ensures templist == path + [key]
  {
    templist := [];
    for e := 0 to |path|
      invariant templist == path[..e]
    {
      templist := templist + [path[e]];
    }
    assert path[..|path|] == path;
    templist := templist + [key];
  }
}
