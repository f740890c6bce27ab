/** The block's position: the top-left-most occupied cell and how it rests. */
module BlockState {

  /** Standing on one cell, lying along the x axis, or lying along the y axis;
      the source encodes these as 0, 1 and 2. */
  datatype Orientation = Standing | AlongX | AlongY

  /** The source's integer encoding of an orientation. */
  function Code(o: Orientation): nat
  {
    match o
    case Standing => 0
    case AlongX => 1
    case AlongY => 2
  }

  datatype State = State(x: int, y: int, orient: Orientation)

  /** A board cell as (column, row). */
  type Cell = (int, int)

  /** The cells the block occupies. */
  function Footprint(s: State): set<Cell>
  {
    match s.orient
    case Standing => {(s.x, s.y)}
    case AlongX => {(s.x, s.y), (s.x + 1, s.y)}
    case AlongY => {(s.x, s.y), (s.x, s.y + 1)}
  }

  /** A state and its footprint determine each other: distinct states occupy
      distinct sets of cells. */
  lemma FootprintDeterminesState(a: State, b: State)
    ensures Footprint(a) == Footprint(b) <==> a == b
  {
    if Footprint(a) == Footprint(b) {
      assert (a.x, a.y) in Footprint(b);
      assert (b.x, b.y) in Footprint(a);
      assert a.x == b.x && a.y == b.y;
      if a.orient == AlongX || b.orient == AlongX {
        assert (a.x + 1, a.y) in Footprint(a) <==> (a.x + 1, a.y) in Footprint(b);
      }
      if a.orient == AlongY || b.orient == AlongY {
        assert (a.x, a.y + 1) in Footprint(a) <==> (a.x, a.y + 1) in Footprint(b);
      }
    }
  }

  /** The top-left cell lies on an `xSize` by `ySize` grid. */
  predicate InBounds(s: State, xSize: int, ySize: int)
  {
    0 <= s.x < xSize && 0 <= s.y < ySize
  }

  lemma DivModOf(q: int, r: int, d: int)
    requires d > 0 && 0 <= r < d
    ensures (d * q + r) / d == q && (d * q + r) % d == r
  {
    var n := d * q + r;
    var a, b := n / d, n % d;
    assert n == d * a + b && 0 <= b < d;
    assert d * (a - q) == r - b;
    if a - q > 0 {
      MulMonotone(d, 1, a - q);
      assert false;
    } else if a - q < 0 {
      MulMonotone(d, a - q, -1);
      assert false;
    }
  }

  lemma MulMonotone(a: int, b: int, c: int)
    requires 0 <= a && b <= c
    ensures a * b <= a * c
  {
    assert a * c - a * b == a * (c - b);
  }

  /** The source's state hash: `ySize * xSize * orient + xSize * y + x`. */
  function Key(s: State, xSize: int, ySize: int): (k: int)
  {
    ySize * xSize * Code(s.orient) + xSize * s.y + s.x
  }

  /** On in-bounds states the key lies in [0, 3 * xSize * ySize). */
  lemma KeyRange(s: State, xSize: int, ySize: int)
    requires InBounds(s, xSize, ySize)
    ensures 0 <= Key(s, xSize, ySize) < 3 * xSize * ySize
  {
    var area := xSize * ySize;
    assert ySize * xSize == area && 3 * xSize * ySize == 3 * area;
    MulMonotone(xSize, 0, s.y);
    MulMonotone(xSize, s.y + 1, ySize);
    assert xSize * (s.y + 1) == xSize * s.y + xSize;
    var c := Code(s.orient);
    assert area * c == if c == 0 then 0 else if c == 1 then area else 2 * area;
  }

  /** On in-bounds states the key decodes back into the triple, so the source's
      claim that different states get different hashes holds there. */
  lemma KeyDecodes(s: State, xSize: int, ySize: int)
    requires InBounds(s, xSize, ySize)
    ensures Key(s, xSize, ySize) % xSize == s.x
    ensures (Key(s, xSize, ySize) / xSize) % ySize == s.y
    ensures Key(s, xSize, ySize) / xSize / ySize == Code(s.orient)
  {
    var c := Code(s.orient);
    assert Key(s, xSize, ySize) == xSize * (ySize * c + s.y) + s.x;
    DivModOf(ySize * c + s.y, s.x, xSize);
    DivModOf(c, s.y, ySize);
  }

  /** The source's state equality: two states are equal when their keys are. */
  predicate SameState(a: State, b: State, xSize: int, ySize: int): (same: bool)
    ensures a == b ==> same
  {
    Key(a, xSize, ySize) == Key(b, xSize, ySize)
  }

  /** On in-bounds states, key equality is exactly equality of the triples. */
  lemma SameStateIsEquality(a: State, b: State, xSize: int, ySize: int)
    requires InBounds(a, xSize, ySize) && InBounds(b, xSize, ySize)
    ensures SameState(a, b, xSize, ySize) <==> a == b
  {
    if SameState(a, b, xSize, ySize) {
      KeyDecodes(a, xSize, ySize);
      KeyDecodes(b, xSize, ySize);
      assert Code(a.orient) == Code(b.orient);
    }
  }

  /** Out of bounds the key does collide: the cell past the end of row 0 has
      the key of the first cell of row 1. */
  lemma KeyCollidesOutOfBounds(xSize: int, ySize: int)
    requires xSize > 0 && ySize > 1
    ensures SameState(State(xSize, 0, Standing), State(0, 1, Standing), xSize, ySize)
    ensures State(xSize, 0, Standing) != State(0, 1, Standing)
  {
  }
}
