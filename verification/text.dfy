/** The two string operations the board loader relies on: `find` for a single
    character and `replace`, with the semantics of Python's `str` methods. */
module Text {

  /** Index of the first occurrence of `c` in `row`, or -1 when there is none. */
  function Find(row: string, c: char): (r: int)
    ensures r == -1 <==> c !in row
    ensures r != -1 ==> 0 <= r < |row| && row[r] == c && c !in row[..r]
  {
    if |row| == 0 then -1
    else if row[0] == c then 0
    else
      var rest := Find(row[1..], c);
      assert row[1..][..if rest == -1 then 0 else rest] == row[1..if rest == -1 then 1 else rest + 1];
      if rest == -1 then -1 else rest + 1
  }

  /** Replaces every occurrence of `c` by `d` (Python `row.replace(c, d)` for
      one-character arguments). */
  function ReplaceChar(row: string, c: char, d: char): (r: string)
    ensures |r| == |row|
    ensures forall j :: 0 <= j < |row| ==> r[j] == (if row[j] == c then d else row[j])
  {
    if |row| == 0 then ""
    else [if row[0] == c then d else row[0]] + ReplaceChar(row[1..], c, d)
  }

  /** Replaces, scanning from the left, every non-overlapping pair `cc` by `dd`
      (Python `row.replace(cc, dd)`): exactly the cells `InReplacedPair`
      selects become `d`, and no two adjacent `c`s remain. */
  function ReplacePairs(row: string, c: char, d: char): (r: string)
    requires c != d
    ensures |r| == |row|
    ensures forall j :: 0 <= j < |row| ==> r[j] == if InReplacedPair(row, c, j) then d else row[j]
    ensures forall j :: 0 <= j < |r| - 1 ==> !(r[j] == c && r[j + 1] == c)
  {
    if |row| >= 2 && row[0] == c && row[1] == c then
      var rest := ReplacePairs(row[2..], c, d);
      var r := [d, d] + rest;
      assert RunBefore(row, c, 1) == 1;
      forall j | 2 <= j < |row|
        ensures InReplacedPair(row, c, j) == InReplacedPair(row[2..], c, j - 2)
      {
        RunBeforeDropTwo(row, c, j);
        assert row[2..][j - 2] == row[j];
        if j + 1 < |row| {
          assert row[2..][j - 1] == row[j + 1];
        }
      }
      assert forall j :: 2 <= j < |row| ==> r[j] == rest[j - 2];
      r
    else if |row| == 0 then ""
    else
      var rest := ReplacePairs(row[1..], c, d);
      var r := [row[0]] + rest;
      forall j | 1 <= j < |row|
        ensures InReplacedPair(row, c, j) == InReplacedPair(row[1..], c, j - 1)
      {
        if row[j] == c {
          RunBeforeDropOne(row, c, j);
          if j > 1 && RunBefore(row[1..], c, j - 1) == j - 1 {
            RunBeforeAll(row[1..], c, j - 1);
            assert row[1..][0] == row[1];
          }
        }
        assert row[1..][j - 1] == row[j];
        if j + 1 < |row| {
          assert row[1..][j] == row[j + 1];
        }
      }
      assert forall j :: 1 <= j < |row| ==> r[j] == rest[j - 1];
      r
  }

  /** The cells `row.replace(cc, dd)` rewrites. Within each run of `c`s the
      pairs start at the run's first cell, so a `c` is rewritten exactly when
      it closes a pair (an odd number of `c`s precede it in its run) or opens
      one (another `c` follows). A lone `c`, and the last `c` of an odd run,
      are kept. */
  predicate InReplacedPair(row: string, c: char, j: int)
    requires 0 <= j < |row|
  {
    row[j] == c && (RunBefore(row, c, j) % 2 == 1 || (j + 1 < |row| && row[j + 1] == c))
  }

  /** The number of consecutive `c`s immediately before index `j`. */
  function RunBefore(row: string, c: char, j: int): (n: nat)
    requires 0 <= j <= |row|
    ensures n <= j
  {
    if j == 0 || row[j - 1] != c then 0 else RunBefore(row, c, j - 1) + 1
  }

  /** A run reaching back to the start of the row covers only `c`s. */
  lemma {:induction false} RunBeforeAll(row: string, c: char, j: int)
    requires 0 <= j <= |row| && RunBefore(row, c, j) == j
    ensures forall i :: 0 <= i < j ==> row[i] == c
  {
    if j > 0 {
      RunBeforeAll(row, c, j - 1);
    }
  }

  /** Dropping the first character shortens the run before `j` only when the
      run reaches back to that character. */
  lemma {:induction false} RunBeforeDropOne(row: string, c: char, j: int)
    requires 1 <= j <= |row|
    ensures RunBefore(row, c, j) ==
      if row[0] == c && RunBefore(row[1..], c, j - 1) == j - 1 then j else RunBefore(row[1..], c, j - 1)
  {
    if j > 1 {
      assert row[1..][j - 2] == row[j - 1];
      RunBeforeDropOne(row, c, j - 1);
    }
  }

  /** After a leading pair `cc`, dropping the pair keeps the parity of every
      later run. */
  lemma RunBeforeDropTwo(row: string, c: char, j: int)
    requires 2 <= j <= |row| && row[0] == c && row[1] == c
    ensures RunBefore(row, c, j) % 2 == RunBefore(row[2..], c, j - 2) % 2
  {
    RunBeforeDropOne(row, c, j);
    RunBeforeDropOne(row[1..], c, j - 1);
    assert row[1..][1..] == row[2..];
  }

  /** When the first `c` of `row` sits at `i` and is followed by a second `c`,
      replacing the pairs turns both of them into `d`. */
  lemma {:induction false} ReplacePairsAtFirst(row: string, c: char, d: char, i: int)
    requires c != d
    requires 0 <= i && i + 1 < |row| && row[i] == c && row[i + 1] == c && c !in row[..i]
    ensures ReplacePairs(row, c, d)[i] == d && ReplacePairs(row, c, d)[i + 1] == d
  {
    if i > 0 {
      assert row[0] == row[..i][0];
      assert row[1..][..i - 1] == row[1..i];
      ReplacePairsAtFirst(row[1..], c, d, i - 1);
    }
  }
}
