/**
 Where the spiral puts the cursor after each step, and the proof that the
 first rows·columns forward steps from the first cursor visit every cell of
 the grid exactly once.

 A cursor is "on the spiral" when its cell lies on ring k and its step counter
 equals the number of cells on the rings outside ring k plus the cell's
 position along ring k. Such a cursor is determined by its step counter alone,
 and the cursors on the spiral are exactly those reached from the first one.
 */
module Spiral {
  import opened Rings
  import opened Snail

  /** The cursor's cell lies on ring k and its step counter is the cell's rank
      in spiral order. */
  predicate OnSpiral(c: Cursor) {
    && Sized(c)
    && OnRing(c.rows, c.columns, c.k, c.i, c.j)
    && c.steps == Size(c) - Area(c.rows, c.columns, c.k) + Offset(c.rows, c.columns, c.k, c.i, c.j)
  }

  /** A cursor on the spiral is in the grid and is not the end sentinel. */
  lemma OnSpiralBounds(c: Cursor)
    requires OnSpiral(c)
    ensures 0 <= c.steps < Size(c)
    ensures 0 <= c.i < c.rows && 0 <= c.j < c.columns
  {
    AreaStep(c.rows, c.columns, c.k);
    AreaAntitone(c.rows, c.columns, 0, c.k);
    AreaOfGrid(c.rows, c.columns);
  }

  /** The first cursor of a grid is on the spiral. */
  lemma StartOnSpiral(grid: nat, rows: int, columns: int)
    requires rows >= 1 && columns >= 1
    ensures OnSpiral(Start(grid, rows, columns))
  {
    AreaOfGrid(rows, columns);
  }

  /** A forward step from a cursor on the spiral, short of the last cell,
      lands on the spiral again: on the next cell of the same ring, or on the
      top-left corner of the next ring after the ring's last cell. */
  lemma NextOnSpiral(c: Cursor)
    requires OnSpiral(c) && c.steps + 1 < Size(c)
    ensures OnSpiral(Next(c))
  {
    var rows, columns, k := c.rows, c.columns, c.k;
    var p := Offset(rows, columns, k, c.i, c.j);
    CellAtOffset(rows, columns, k, c.i, c.j);
    if p + 1 < Perimeter(rows, columns, k) {
      var q := CellAt(rows, columns, k, p + 1);
      assert Next(c) == c.(i := q.0, j := q.1, steps := c.steps + 1);
    } else {
      AreaStep(rows, columns, k);
      AreaPositive(rows, columns, k + 1);
      assert Cell(c) == (k + 1, k);
      assert Next(c) == c.(k := k + 1, j := k + 1, steps := c.steps + 1);
      AreaOfGrid(rows, columns);
    }
  }

  /** A backward step from a cursor on the spiral, past the first cell, lands
      on the spiral again: on the previous cell of the same ring, or on the
      last cell of the enclosing ring when leaving a ring's top-left corner. */
  lemma PrevOnSpiral(c: Cursor)
    requires OnSpiral(c) && c.steps >= 1
    ensures OnSpiral(Prev(c))
  {
    var rows, columns, k := c.rows, c.columns, c.k;
    var p := Offset(rows, columns, k, c.i, c.j);
    CellAtOffset(rows, columns, k, c.i, c.j);
    if p >= 1 {
      var q := CellAt(rows, columns, k, p - 1);
      assert Prev(c) == c.(i := q.0, j := q.1, steps := c.steps - 1);
    } else {
      AreaOfGrid(rows, columns);
      assert k >= 1;
      AreaStep(rows, columns, k - 1);
      assert Prev(c) == c.(k := k - 1, j := k - 1, steps := c.steps - 1);
    }
  }

  /** Two cursors on the spiral of the same grid with the same step counter
      are the same cursor: the counter fixes the ring, the ring and counter
      fix the position along the ring, and that fixes the cell. */
  lemma OnSpiralUnique(a: Cursor, b: Cursor)
    requires OnSpiral(a) && OnSpiral(b) && SameGrid(a, b)
    requires a.steps == b.steps
    ensures a == b
  {
    var rows, columns := a.rows, a.columns;
    if a.k < b.k {
      AreaStep(rows, columns, a.k);
      AreaAntitone(rows, columns, a.k + 1, b.k);
    } else if b.k < a.k {
      AreaStep(rows, columns, b.k);
      AreaAntitone(rows, columns, b.k + 1, a.k);
    }
    CellAtOffset(rows, columns, a.k, a.i, a.j);
    CellAtOffset(rows, columns, b.k, b.i, b.j);
  }

  /** Forward steps from a cursor on the spiral stay on it until the last cell. */
  lemma {:induction false} IterateOnSpiral(c: Cursor, n: nat)
    requires OnSpiral(c) && c.steps + n < Size(c)
    ensures OnSpiral(Iterate(c, n))
    decreases n
  {
    if n > 0 {
      IterateSucc(c, n - 1);
      IterateOnSpiral(c, n - 1);
      NextOnSpiral(Iterate(c, n - 1));
    }
  }

  /** Backward steps from a cursor on the spiral stay on it down to the first cell. */
  lemma {:induction false} RetreatOnSpiral(c: Cursor, n: nat)
    requires OnSpiral(c) && n <= c.steps
    ensures OnSpiral(Retreat(c, n))
    decreases n
  {
    if n > 0 {
      PrevOnSpiral(c);
      RetreatOnSpiral(Prev(c), n - 1);
    }
  }

  /** Every cursor reached from the first one before the end is on the spiral. */
  lemma ReachedOnSpiral(grid: nat, rows: int, columns: int, s: nat)
    requires rows >= 1 && columns >= 1 && s < rows * columns
    ensures OnSpiral(Iterate(Start(grid, rows, columns), s))
  {
    StartOnSpiral(grid, rows, columns);
    IterateOnSpiral(Start(grid, rows, columns), s);
  }

  /** Conversely, every cursor on the spiral is the one reached from the first
      cursor of its grid after as many steps as its counter says. */
  lemma OnSpiralReached(c: Cursor)
    requires OnSpiral(c)
    ensures 0 <= c.steps < Size(c)
    ensures c == Iterate(Start(c.grid, c.rows, c.columns), c.steps)
  {
    OnSpiralBounds(c);
    ReachedOnSpiral(c.grid, c.rows, c.columns, c.steps);
    OnSpiralUnique(c, Iterate(Start(c.grid, c.rows, c.columns), c.steps));
  }

  /** The rank of cell (i, j) in spiral order: cells on the rings outside its
      ring, plus its position along its own ring. */
  function Rank(rows: int, columns: int, i: int, j: int): (s: int)
    requires 0 <= i < rows && 0 <= j < columns
    ensures 0 <= s < rows * columns
  {
    var k := Depth(rows, columns, i, j);
    OnRingIffDepth(rows, columns, k, i, j);
    AreaStep(rows, columns, k);
    AreaAntitone(rows, columns, 0, k);
    AreaOfGrid(rows, columns);
    rows * columns - Area(rows, columns, k) + Offset(rows, columns, k, i, j)
  }

  /** The cursor reached after s steps points inside the grid, at a cell on
      the boundary of its (non-empty) ring k. */
  lemma VisitInBounds(grid: nat, rows: int, columns: int, s: nat)
    requires rows >= 1 && columns >= 1 && s < rows * columns
    ensures var c := Iterate(Start(grid, rows, columns), s);
      && 0 <= c.i < rows && 0 <= c.j < columns
      && NonEmpty(rows, columns, c.k) && OnRing(rows, columns, c.k, c.i, c.j)
  {
    ReachedOnSpiral(grid, rows, columns, s);
    OnSpiralBounds(Iterate(Start(grid, rows, columns), s));
  }

  /** The rank of the cell visited at step s is s. */
  lemma RankOfVisit(grid: nat, rows: int, columns: int, s: nat)
    requires rows >= 1 && columns >= 1 && s < rows * columns
    ensures var c := Iterate(Start(grid, rows, columns), s);
      0 <= c.i < rows && 0 <= c.j < columns && Rank(rows, columns, c.i, c.j) == s
  {
    var c := Iterate(Start(grid, rows, columns), s);
    ReachedOnSpiral(grid, rows, columns, s);
    OnSpiralBounds(c);
    OnRingIffDepth(rows, columns, c.k, c.i, c.j);
  }

  /** The cell of rank r is visited at step r. */
  lemma VisitOfRank(grid: nat, rows: int, columns: int, i: int, j: int)
    requires 0 <= i < rows && 0 <= j < columns
    ensures Cell(Iterate(Start(grid, rows, columns), Rank(rows, columns, i, j))) == (i, j)
  {
    var k := Depth(rows, columns, i, j);
    OnRingIffDepth(rows, columns, k, i, j);
    var c := Cursor(grid, i, j, rows, columns, k, Rank(rows, columns, i, j));
    assert OnSpiral(c);
    OnSpiralReached(c);
  }

  /** Cell (i, j) is visited within the first rows·columns steps from the first cursor. */
  ghost predicate Visited(grid: nat, rows: int, columns: int, i: int, j: int)
    requires rows >= 1 && columns >= 1
  {
    exists s: nat :: s < rows * columns && Cell(Iterate(Start(grid, rows, columns), s)) == (i, j)
  }

  /** Every cell of the grid is visited within the first rows·columns steps. */
  lemma VisitCovers(grid: nat, rows: int, columns: int, i: int, j: int)
    requires 0 <= i < rows && 0 <= j < columns
    ensures Visited(grid, rows, columns, i, j)
  {
    var s: nat := Rank(rows, columns, i, j);
    VisitOfRank(grid, rows, columns, i, j);
    assert s < rows * columns && Cell(Iterate(Start(grid, rows, columns), s)) == (i, j);
  }

  /** No cell is visited twice among the first rows·columns steps. */
  lemma VisitInjective(grid: nat, rows: int, columns: int, s1: nat, s2: nat)
    requires rows >= 1 && columns >= 1 && s1 < rows * columns && s2 < rows * columns
    requires Cell(Iterate(Start(grid, rows, columns), s1)) == Cell(Iterate(Start(grid, rows, columns), s2))
    ensures s1 == s2
  {
    RankOfVisit(grid, rows, columns, s1);
    RankOfVisit(grid, rows, columns, s2);
  }

  /** Headline property: starting from the first cursor, the first
      rows·columns forward steps visit cells inside the grid, each on the
      boundary of its ring, no cell twice, and every cell of the grid. */
  lemma SpiralVisitsEveryCellOnce(grid: nat, rows: int, columns: int)
    requires rows >= 1 && columns >= 1
    ensures forall s: nat :: s < rows * columns ==>
      var c := Iterate(Start(grid, rows, columns), s);
      0 <= c.i < rows && 0 <= c.j < columns && OnRing(rows, columns, c.k, c.i, c.j)
    ensures forall s1: nat, s2: nat :: s1 < s2 < rows * columns ==>
      Cell(Iterate(Start(grid, rows, columns), s1)) != Cell(Iterate(Start(grid, rows, columns), s2))
    ensures forall i, j :: 0 <= i < rows && 0 <= j < columns ==> Visited(grid, rows, columns, i, j)
  {
    forall s: nat | s < rows * columns
      ensures var c := Iterate(Start(grid, rows, columns), s);
        0 <= c.i < rows && 0 <= c.j < columns && OnRing(rows, columns, c.k, c.i, c.j)
    {
      VisitInBounds(grid, rows, columns, s);
    }
    forall s1: nat, s2: nat | s1 < s2 < rows * columns
      ensures Cell(Iterate(Start(grid, rows, columns), s1)) != Cell(Iterate(Start(grid, rows, columns), s2))
    {
      if Cell(Iterate(Start(grid, rows, columns), s1)) == Cell(Iterate(Start(grid, rows, columns), s2)) {
        VisitInjective(grid, rows, columns, s1, s2);
      }
    }
    forall i, j | 0 <= i < rows && 0 <= j < columns
      ensures Visited(grid, rows, columns, i, j)
    {
      VisitCovers(grid, rows, columns, i, j);
    }
  }
}
