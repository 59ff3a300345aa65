/**
 The step past the last cell and back. As written, the forward step from the
 last cell fires no branch when the innermost ring is a single cell, so only
 the counter moves, and otherwise fires a further branch of the ladder. Either
 way the backward step from the resulting `end()` does not always come back:
 on a 3 × 3 grid it takes the sentinel's cell for the corner of the innermost
 ring, and on 1 × 4 or 4 × 1 it continues from the cell `++` moved to. So
 `end() - 1` points at the wrong cell, although a random-access cursor must
 satisfy --(++a) == a. The corrected steps keep the cell when passing the last
 cell and leave it alone when stepping back from the end sentinel; elsewhere
 they are the source's steps.
 */
module Sentinel {
  import opened Rings
  import opened Snail
  import opened Spiral
  import opened Algebra

  /** As written, 3 × 3: the last cell is (1, 1) in ring 1, `end()` sits on the
      same cell, and the backward step from `end()` takes that cell for the
      top-left corner of ring 1 and leaves for (1, 0) in ring 0. */
  lemma PrevOfEndMisses3x3(grid: nat)
    ensures Iterate(Start(grid, 3, 3), 8) == Cursor(grid, 1, 1, 3, 3, 1, 8)
    ensures Iterate(Start(grid, 3, 3), 9) == Cursor(grid, 1, 1, 3, 3, 1, 9)
    ensures Prev(Iterate(Start(grid, 3, 3), 9)) == Cursor(grid, 1, 0, 3, 3, 0, 8)
    ensures Prev(Next(Iterate(Start(grid, 3, 3), 8))) != Iterate(Start(grid, 3, 3), 8)
  {
    IterateSucc(Start(grid, 3, 3), 8);
  }

  /** As written, 1 × 4: the forward step from the last cell (0, 3) goes left
      to (0, 2), and the backward step from there goes on left to (0, 1). */
  lemma PrevOfEndMisses1x4(grid: nat)
    ensures Iterate(Start(grid, 1, 4), 3) == Cursor(grid, 0, 3, 1, 4, 0, 3)
    ensures Iterate(Start(grid, 1, 4), 4) == Cursor(grid, 0, 2, 1, 4, 0, 4)
    ensures Prev(Next(Iterate(Start(grid, 1, 4), 3))) == Cursor(grid, 0, 1, 1, 4, 0, 3)
  {
    IterateSucc(Start(grid, 1, 4), 3);
  }

  /** The innermost non-empty ring of a grid. */
  function InnerRing(rows: int, columns: int): (k: int)
    requires rows >= 1 && columns >= 1
    ensures NonEmpty(rows, columns, k) && !NonEmpty(rows, columns, k + 1)
  {
    (Min(rows, columns) - 1) / 2
  }

  /** As written, on every grid: `--` after `++` on the last cell gives the last
      cell back exactly when the innermost ring is at least two rows high and
      two columns wide, or is a column of two cells. When the innermost ring
      is a single row, a single cell, or a column of three or more cells, the
      cursor comes back elsewhere. */
  lemma LastCellRoundTrip(grid: nat, rows: int, columns: int)
    requires rows >= 1 && columns >= 1
    ensures var last := Iterate(Start(grid, rows, columns), rows * columns - 1);
      var h := rows - 2 * InnerRing(rows, columns);
      var w := columns - 2 * InnerRing(rows, columns);
      Prev(Next(last)) == last <==> (h >= 2 && w >= 2) || (w == 1 && h == 2)
  {
    var k := InnerRing(rows, columns);
    var p := Perimeter(rows, columns, k) - 1;
    var cell := CellAt(rows, columns, k, p);
    AreaStep(rows, columns, k);
    AreaPositive(rows, columns, k + 1);
    AreaOfGrid(rows, columns);
    var c := Cursor(grid, cell.0, cell.1, rows, columns, k, rows * columns - 1);
    assert OnSpiral(c);
    OnSpiralReached(c);
  }

  /** Corrected forward step: from the last cell only the counter moves, so
      `end()` keeps the last cell; elsewhere it is the source's step. */
  function NextFixed(c: Cursor): (r: Cursor)
    requires Sized(c) && c.steps < Size(c)
    ensures SameGrid(r, c) && r.steps == c.steps + 1
    ensures c.steps + 1 < Size(c) ==> r == Next(c)
    ensures c.steps + 1 == Size(c) ==> Cell(r) == Cell(c) && r.k == c.k
  {
    if c.steps + 1 == Size(c) then c.(steps := c.steps + 1) else Next(c)
  }

  /** Corrected backward step: from the end sentinel only the counter moves;
      elsewhere it is the source's step. */
  function PrevFixed(c: Cursor): (r: Cursor)
    ensures SameGrid(r, c) && r.steps == c.steps - 1
    ensures c.steps != Size(c) ==> r == Prev(c)
    ensures c.steps == Size(c) ==> Cell(r) == Cell(c) && r.k == c.k
  {
    if c.steps == Size(c) then c.(steps := c.steps - 1) else Prev(c)
  }

  /** With the corrected steps, backward undoes forward on every cell of the
      spiral, the last one included, and forward undoes backward on every
      cursor from the second cell through the end sentinel. */
  lemma FixedStepsInverse(c: Cursor)
    requires OnSpiral(c)
    ensures 0 <= c.steps < Size(c)
    ensures PrevFixed(NextFixed(c)) == c
    ensures NextFixed(PrevFixed(NextFixed(c))) == NextFixed(c)
    ensures c.steps >= 1 ==> NextFixed(PrevFixed(c)) == c
  {
    OnSpiralBounds(c);
    if c.steps + 1 < Size(c) {
      PrevUndoesNext(c);
    }
    if c.steps >= 1 {
      NextUndoesPrev(c);
    }
  }

  /** With the corrected steps, `end() - 1` is the last cell: stepping back
      from the end sentinel reaches the cursor rows·columns − 1 steps after
      `begin()`. */
  lemma FixedEndStepsBackToLastCell(grid: nat, rows: int, columns: int)
    requires rows >= 1 && columns >= 1
    ensures var last := Iterate(Start(grid, rows, columns), rows * columns - 1);
      PrevFixed(NextFixed(last)) == last && Cell(NextFixed(last)) == Cell(last)
  {
    ReachedOnSpiral(grid, rows, columns, rows * columns - 1);
    FixedStepsInverse(Iterate(Start(grid, rows, columns), rows * columns - 1));
  }
}
