/** The move generator: the four rolls of the block and the replay of a
    sequence of action labels. */
module Moves {
  import opened Wrappers
  import opened BlockState
  import opened Board

  /** The action labels, in the order the source inserts them into its result. */
  const Labels: seq<char> := ['U', 'D', 'L', 'R']

  /** Where rolling the block in direction `a` takes it, whatever the tiles. */
  function Roll(s: State, a: char): (t: State)
    requires a in Labels
  {
    var (x, y) := (s.x, s.y);
    match s.orient
    case Standing =>
      if a == 'U' then State(x, y - 2, AlongY)
      else if a == 'D' then State(x, y + 1, AlongY)
      else if a == 'L' then State(x - 2, y, AlongX)
      else State(x + 1, y, AlongX)
    case AlongX =>
      if a == 'U' then State(x, y - 1, AlongX)
      else if a == 'D' then State(x, y + 1, AlongX)
      else if a == 'L' then State(x - 1, y, Standing)
      else State(x + 2, y, Standing)
    case AlongY =>
      if a == 'U' then State(x, y - 1, Standing)
      else if a == 'D' then State(x, y + 2, Standing)
      else if a == 'L' then State(x - 1, y, AlongY)
      else State(x + 1, y, AlongY)
  }

  function Opposite(a: char): char
  {
    match a
    case 'U' => 'D'
    case 'D' => 'U'
    case 'L' => 'R'
    case _ => 'L'
  }

  /** Rolling back the opposite way undoes a roll. */
  lemma RollReversible(s: State, a: char)
    requires a in Labels
    ensures Opposite(a) in Labels && Roll(Roll(s, a), Opposite(a)) == s
  {
  }

  /** A roll moves the block off every cell it occupied. */
  lemma RollVacatesFootprint(s: State, a: char)
    requires a in Labels
    ensures Footprint(Roll(s, a)) !! Footprint(s)
  {
  }

  /** A roll changes exactly one coordinate, by one or two cells. */
  lemma RollDisplacement(s: State, a: char)
    requires a in Labels
    ensures var t := Roll(s, a);
      (t.y == s.y && 1 <= Abs(t.x - s.x) <= 2) || (t.x == s.x && 1 <= Abs(t.y - s.y) <= 2)
  {
  }

  function Abs(n: int): nat
  {
    if n < 0 then -n else n
  }

  /** The cells the source tests before offering direction `a`: for each
      orientation and direction, the tiles the rolled block would cover. */
  predicate Clear(g: Grid, s: State, a: char)
    requires a in Labels
  {
    var (x, y) := (s.x, s.y);
    match s.orient
    case Standing =>
      if a == 'U' then IsSafe(g, x, y - 2) && IsSafe(g, x, y - 1)
      else if a == 'D' then IsSafe(g, x, y + 1) && IsSafe(g, x, y + 2)
      else if a == 'L' then IsSafe(g, x - 2, y) && IsSafe(g, x - 1, y)
      else IsSafe(g, x + 1, y) && IsSafe(g, x + 2, y)
    case AlongX =>
      if a == 'U' then IsSafe(g, x, y - 1) && IsSafe(g, x + 1, y - 1)
      else if a == 'D' then IsSafe(g, x, y + 1) && IsSafe(g, x + 1, y + 1)
      else if a == 'L' then IsSafe(g, x - 1, y)
      else IsSafe(g, x + 2, y)
    case AlongY =>
      if a == 'U' then IsSafe(g, x, y - 1)
      else if a == 'D' then IsSafe(g, x, y + 2)
      else if a == 'L' then IsSafe(g, x - 1, y) && IsSafe(g, x - 1, y + 1)
      else IsSafe(g, x + 1, y) && IsSafe(g, x + 1, y + 1)
  }

  /** The source's `successors`: each direction whose cells are clear, mapped
      to the state the roll reaches; a blocked direction has no entry. */
  function Successors(g: Grid, s: State): (succ: map<char, State>)
  {
    map a | a in Labels && Clear(g, s, a) :: Roll(s, a)
  }

  /** At most the four directions are offered, and each leads to a state
      resting wholly on safe tiles. */
  lemma SuccessorsBounded(g: Grid, s: State)
    ensures Successors(g, s).Keys <= {'U', 'D', 'L', 'R'} && |Successors(g, s)| <= 4
    ensures forall a :: a in Successors(g, s) ==> FootprintSafe(g, Successors(g, s)[a])
  {
    CardinalityOfSubset(Successors(g, s).Keys, {'U', 'D', 'L', 'R'});
    forall a | a in Successors(g, s)
      ensures FootprintSafe(g, Successors(g, s)[a])
    {
      ClearIsSafeRoll(g, s, a);
    }
  }

  /** The cells the source checks for direction `a` are exactly the cells of
      the rolled block. */
  lemma ClearIsSafeRoll(g: Grid, s: State, a: char)
    requires a in Labels
    ensures Clear(g, s, a) <==> FootprintSafe(g, Roll(s, a))
  {
  }

  lemma CardinalityOfSubset<T>(a: set<T>, b: set<T>)
    requires a <= b
    ensures |a| <= |b|
  {
    assert b == a + (b - a);
  }

  /** The cells the source checks for each move are exactly the cells of the
      state it moves to: a direction is offered iff the rolled block lands
      wholly on safe tiles, and then it leads to that rolled state. */
  lemma SuccessorsAreSafeRolls(g: Grid, s: State, a: char)
    ensures a in Successors(g, s) <==> a in Labels && FootprintSafe(g, Roll(s, a))
    ensures a in Successors(g, s) ==> Successors(g, s)[a] == Roll(s, a)
  {
    if a in Labels {
      ClearIsSafeRoll(g, s, a);
    }
  }

  /** Replays a sequence of actions from `s` through the move generator;
      `None` when some action is not offered. */
  function Replay(g: Grid, s: State, path: seq<char>): (end: Option<State>)
    decreases |path|
  {
    if path == [] then Some(s)
    else
      var succ := Successors(g, s);
      if path[0] in succ then Replay(g, succ[path[0]], path[1..]) else None
  }

  /** Replaying an extended path takes one more step from where the shorter
      one ends. */
  lemma {:induction false} ReplaySnoc(g: Grid, s: State, path: seq<char>, a: char)
    ensures Replay(g, s, path + [a]) ==
      match Replay(g, s, path)
      case None => None
      case Some(t) => if a in Successors(g, t) then Some(Successors(g, t)[a]) else None
    decreases |path|
  {
    if path == [] {
      assert [] + [a] == [a];
    } else {
      assert (path + [a])[1..] == path[1..] + [a];
      var succ := Successors(g, s);
      if path[0] in succ {
        ReplaySnoc(g, succ[path[0]], path[1..], a);
      }
    }
  }

  /** Every state a replay reaches from an in-bounds state of a rectangular
      board is in bounds. */
  lemma {:induction false} ReplayInBounds(g: Grid, xSize: int, ySize: int, s: State, path: seq<char>)
    requires Rectangular(g, xSize, ySize) && InBounds(s, xSize, ySize)
    ensures Replay(g, s, path).Some? ==> InBounds(Replay(g, s, path).value, xSize, ySize)
    decreases |path|
  {
    if path != [] {
      var succ := Successors(g, s);
      if path[0] in succ {
        SuccessorsBounded(g, s);
        FootprintSafeInBounds(g, xSize, ySize, succ[path[0]]);
        ReplayInBounds(g, xSize, ySize, succ[path[0]], path[1..]);
      }
    }
  }
}
