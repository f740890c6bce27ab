/** A worked board: the single row "GOS". The loader turns it into "GO0" with
    the block standing on the last cell; the only roll leads onto the two
    left cells, from where nothing is offered, so the solver answers []. Had
    the start cell become the letter 'O', the block could roll back onto it,
    though the answer would still be []: the goal needs a standing block on
    the first cell, and standing positions along one row lie three apart. */
module Scenario {
  import opened Wrappers
  import opened Text
  import opened BlockState
  import opened Board
  import opened Moves
  import opened Heuristics
  import opened Search
  import opened Solver

  const Loaded: Grid := ["GO0"]
  const Start: State := State(2, 0, Standing)

  /** From the start only 'L' is offered, onto the two leftmost cells; from
      there no roll is offered. */
  lemma CorridorMoves()
    ensures Successors(Loaded, Start) == map['L' := State(0, 0, AlongX)]
    ensures Successors(Loaded, State(0, 0, AlongX)) == map[]
  {
    var s1 := State(0, 0, AlongX);
    assert Clear(Loaded, Start, 'L') && !Clear(Loaded, Start, 'U');
    assert !Clear(Loaded, Start, 'D') && !Clear(Loaded, Start, 'R');
    assert Successors(Loaded, Start).Keys == {'L'};
    assert !Clear(Loaded, s1, 'U') && !Clear(Loaded, s1, 'D');
    assert !Clear(Loaded, s1, 'L') && !Clear(Loaded, s1, 'R');
    assert Successors(Loaded, s1).Keys == {};
  }

  /** The same row with the start cell rewritten to the letter 'O': rolling
      right from the two leftmost cells is offered again, back onto the
      start. This is the one move the digit '0' takes away. */
  lemma LetterOReopensStart()
    ensures Successors(["GOO"], State(0, 0, AlongX)) == map['R' := Start]
  {
    var g: Grid := ["GOO"];
    var s1 := State(0, 0, AlongX);
    assert Clear(g, s1, 'R') && !Clear(g, s1, 'U');
    assert !Clear(g, s1, 'D') && !Clear(g, s1, 'L');
    assert Successors(g, s1).Keys == {'R'};
  }

  /** No action sequence brings the block to stand on the goal. */
  lemma CorridorHasNoSolution()
    ensures forall p :: !IsSolution(Puzzle(Loaded, 3, 1, 0, 0, Start), p)
  {
    forall p
      ensures !IsSolution(Puzzle(Loaded, 3, 1, 0, 0, Start), p)
    {
      CorridorMoves();
      var s1 := State(0, 0, AlongX);
      if p == [] {
        assert Replay(Loaded, Start, p) == Some(Start);
      } else if p[0] != 'L' {
        assert Replay(Loaded, Start, p) == None;
      } else if p[1..] == [] {
        assert Replay(Loaded, Start, p) == Replay(Loaded, s1, p[1..]) == Some(s1);
      } else {
        assert Replay(Loaded, s1, p[1..]) == None;
        assert Replay(Loaded, Start, p) == None;
      }
    }
  }

  /** Loading "GOS" and solving it yields the empty action list. */
  method SolveCorridor() returns (result: seq<char>)
    ensures result == []
  {
    var board := new Bloxorz(["GOS"]);
    assert board.initial == Start by {
      assert "GOS"[..2] == "GO";
    }
    assert board.goalX == 0 && board.goalY == 0;
    assert board.grid == Loaded by {
      var row := ReplaceChar("GOS", 'S', '0');
      assert row[0] == 'G' && row[1] == 'O' && row[2] == '0';
      assert row == "GO0";
      assert board.grid[0] == row && |board.grid| == 1;
    }
    CorridorHasNoSolution();
    result := board.Solve();
  }
}
