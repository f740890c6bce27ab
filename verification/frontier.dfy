/** Search nodes and the priority queue that orders them. */
module Frontier {
  import opened BlockState

  /** A search node: the guessed total cost `|path| + h(state)`, the block's
      state, and the actions that lead to it from the initial state. */
  datatype Node = Node(costGuess: real, state: State, path: seq<char>) {

    /** The source's `__lt__`: the node with the smaller guessed cost comes
        first. */
    predicate Less(other: Node): (lt: bool)
      ensures lt ==> this != other
    {
      costGuess < other.costGuess
    }
  }

  /** Less is a strict weak order, which is what a binary heap needs. */
  lemma LessIsStrictWeakOrder(a: Node, b: Node, c: Node)
    ensures !a.Less(a)
    ensures a.Less(b) && b.Less(c) ==> a.Less(c)
    ensures !a.Less(b) && !b.Less(a) && !b.Less(c) && !c.Less(b) ==> !a.Less(c) && !c.Less(a)
  {
  }

  /** `data[i]` is a least element: no element of `data` is Less than it. */
  predicate IsMinimal(data: seq<Node>, i: int)
  {
    0 <= i < |data| && forall j :: 0 <= j < |data| ==> !data[j].Less(data[i])
  }

  /** Every non-empty queue has a least element. */
  lemma {:induction false} MinimalExists(data: seq<Node>)
    requires |data| > 0
    ensures exists i :: IsMinimal(data, i)
  {
    if |data| == 1 {
      assert IsMinimal(data, 0);
    } else {
      var init := data[..|data| - 1];
      MinimalExists(init);
      var i :| IsMinimal(init, i);
      if data[|data| - 1].Less(data[i]) {
        assert IsMinimal(data, |data| - 1);
      } else {
        assert IsMinimal(data, i);
      }
    }
  }

  /** The source's `PriorityQueue`: the list of queued nodes and a counter
      of pushes minus pops. Pushing appends; popping removes a least node.
      Where the heap keeps each node, and so which of several equally cheap
      nodes comes out first, is not modelled. */
  class PriorityQueue {
    var data: seq<Node>
    var counter: int

    /** The counter always equals the number of queued nodes. */
    ghost predicate Valid()
      reads this
    {
      counter == |data|
    }

    constructor ()
      ensures Valid() && data == []
    {
      data := [];
      counter := 0;
    }

    method Push(item: Node)
      requires Valid()
      modifies this
      ensures Valid() && data == old(data) + [item]
    {
      data := data + [item];
      counter := counter + 1;
    }

    /** Removes and returns a node that no queued node is Less than. */
    method Pop() returns (item: Node)
      requires Valid() && |data| > 0
      modifies this
      ensures Valid()
      ensures item in old(data) && multiset(data) == multiset(old(data)) - multiset{item}
      ensures |data| == |old(data)| - 1
      ensures forall m :: m in old(data) ==> !m.Less(item)
    {
      counter := counter - 1;
      MinimalExists(data);
      var i :| 0 <= i < |data| && IsMinimal(data, i);
      item := data[i];
      assert data == data[..i] + [item] + data[i + 1..];
      data := data[..i] + data[i + 1..];
    }

    /** The source's `not_empty`, read off the counter. */
    method NotEmpty() returns (b: bool)
      requires Valid()
      ensures b <==> |data| > 0
    {
      b := counter > 0;
    }
  }
}
