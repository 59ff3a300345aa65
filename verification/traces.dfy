/**
 Concrete spiral traces of small grids, and the degenerate grids where the
 end sentinel sits on an already visited cell.
 */
module Traces {
  import opened Snail

  /** The cells of the first n cursors from c onwards: c, Next(c), ... */
  function Positions(c: Cursor, n: nat): (ps: seq<(int, int)>)
    requires Sized(c) && c.steps + n <= Size(c)
    ensures |ps| == n
    ensures forall t: nat :: t < n ==> ps[t] == Cell(Iterate(c, t))
    decreases n
  {
    if n == 0 then [] else [Cell(c)] + Positions(Next(c), n - 1)
  }

  /** A 3 × 3 grid is walked clockwise round its border and ends in the centre. */
  lemma Trace3x3(grid: nat)
    ensures Positions(Start(grid, 3, 3), 9)
         == [(0, 0), (0, 1), (0, 2), (1, 2), (2, 2), (2, 1), (2, 0), (1, 0), (1, 1)]
  {
  }

  /** A single row is walked left to right. */
  lemma Trace1x4(grid: nat)
    ensures Positions(Start(grid, 1, 4), 4) == [(0, 0), (0, 1), (0, 2), (0, 3)]
  {
  }

  /** A single column is walked top to bottom. */
  lemma Trace4x1(grid: nat)
    ensures Positions(Start(grid, 4, 1), 4) == [(0, 0), (1, 0), (2, 0), (3, 0)]
  {
  }

  /** On a 1 × 4 grid `end()` sits on cell (0, 2), which the cursor two steps
      after `begin()` also points at; only the step counter tells them apart,
      which is why equality compares it. */
  lemma EndSharesCell1x4(grid: nat)
    ensures Iterate(Start(grid, 1, 4), 4).i == Iterate(Start(grid, 1, 4), 2).i
    ensures Iterate(Start(grid, 1, 4), 4).j == Iterate(Start(grid, 1, 4), 2).j == 2
    ensures NotEqual(Iterate(Start(grid, 1, 4), 4), Iterate(Start(grid, 1, 4), 2))
  {
  }
}
