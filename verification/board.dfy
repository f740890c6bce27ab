/** The board as the solver sees it: rows of characters, where 'O' is a safe
    tile, 'G' the goal tile, and anything else (including the '0' written over
    the start cells) a tile the block may not rest on. */
module Board {
  import opened BlockState

  type Grid = seq<string>

  /** Every row has `xSize` characters and there are `ySize > 0` rows. */
  predicate Rectangular(g: Grid, xSize: int, ySize: int)
  {
    |g| == ySize && ySize > 0 && forall i :: 0 <= i < |g| ==> |g[i]| == xSize
  }

  /** The source's `is_safe`: an in-range 'O' or 'G' cell. */
  function IsSafe(g: Grid, x: int, y: int): (safe: bool)
    ensures safe ==> 0 <= y < |g| && 0 <= x < |g[y]|
    ensures 0 <= y < |g| && 0 <= x < |g[y]| ==> (safe <==> g[y][x] in "OG")
    ensures 0 <= y < |g| && 0 <= x < |g[y]| && g[y][x] == '0' ==> !safe
  {
    0 <= y < |g| && 0 <= x < |g[y]| && (g[y][x] == 'O' || g[y][x] == 'G')
  }

  /** Every cell the block occupies is safe. */
  predicate FootprintSafe(g: Grid, s: State)
  {
    match s.orient
    case Standing => IsSafe(g, s.x, s.y)
    case AlongX => IsSafe(g, s.x, s.y) && IsSafe(g, s.x + 1, s.y)
    case AlongY => IsSafe(g, s.x, s.y) && IsSafe(g, s.x, s.y + 1)
  }

  /** FootprintSafe is safety of every cell of the footprint. */
  lemma FootprintSafeCells(g: Grid, s: State)
    ensures FootprintSafe(g, s) <==> forall c :: c in Footprint(s) ==> IsSafe(g, c.0, c.1)
  {
    assert (s.x, s.y) in Footprint(s);
    match s.orient
    case Standing =>
    case AlongX => assert (s.x + 1, s.y) in Footprint(s);
    case AlongY => assert (s.x, s.y + 1) in Footprint(s);
  }

  /** A block resting wholly on safe tiles of a rectangular board is in bounds,
      so the key of its state is collision-free. */
  lemma FootprintSafeInBounds(g: Grid, xSize: int, ySize: int, s: State)
    requires Rectangular(g, xSize, ySize) && FootprintSafe(g, s)
    ensures InBounds(s, xSize, ySize)
    ensures forall c :: c in Footprint(s) ==> 0 <= c.0 < xSize && 0 <= c.1 < ySize
  {
    FootprintSafeCells(g, s);
  }

  /** A block whose cells all hold '0' rests on no safe tile. */
  lemma FootprintCleared(g: Grid, s: State)
    requires 0 <= s.y < |g| && 0 <= s.x < |g[s.y]| && g[s.y][s.x] == '0'
    requires s.orient == AlongX ==> s.x + 1 < |g[s.y]| && g[s.y][s.x + 1] == '0'
    requires s.orient == AlongY ==> s.y + 1 < |g| && s.x < |g[s.y + 1]| && g[s.y + 1][s.x] == '0'
    ensures forall c :: c in Footprint(s) ==>
      0 <= c.1 < |g| && 0 <= c.0 < |g[c.1]| && g[c.1][c.0] == '0' && !IsSafe(g, c.0, c.1)
  {
  }
}
