/**
 Laws of the cursor operations built on the primitive steps: backward undoes
 forward, jumps compose and undo each other, distance counts steps, and on
 cursors of one grid equality and ordering agree with the step counter.
 */
module Algebra {
  import opened Grid
  import opened Snail
  import opened Spiral

  /** Backward undoes forward on a cursor on the spiral short of the last cell
      (counter at most rows·columns − 2). */
  lemma PrevUndoesNext(c: Cursor)
    requires OnSpiral(c) && c.steps + 2 <= Size(c)
    ensures Prev(Next(c)) == c
  {
    var d := Next(c);
    OnSpiralBounds(c);
    NextOnSpiral(c);
    PrevOnSpiral(d);
    OnSpiralUnique(Prev(d), c);
  }

  /** Forward undoes backward on a cursor on the spiral, past the first cell. */
  lemma NextUndoesPrev(c: Cursor)
    requires OnSpiral(c) && 1 <= c.steps <= Size(c) - 1
    ensures Next(Prev(c)) == c
  {
    var d := Prev(c);
    PrevOnSpiral(c);
    NextOnSpiral(d);
    OnSpiralUnique(Next(d), c);
  }

  /** For the cursor reached from `begin()` after s steps, 0 ≤ s ≤ rows·columns − 2,
      a forward then a backward step restore it exactly. */
  lemma StepThenUnstep(grid: nat, rows: int, columns: int, s: nat)
    requires rows >= 1 && columns >= 1 && s + 2 <= rows * columns
    ensures Prev(Next(Iterate(Start(grid, rows, columns), s))) == Iterate(Start(grid, rows, columns), s)
  {
    ReachedOnSpiral(grid, rows, columns, s);
    PrevUndoesNext(Iterate(Start(grid, rows, columns), s));
  }

  /** For the cursor reached from `begin()` after s steps, 1 ≤ s ≤ rows·columns − 1,
      a backward then a forward step restore it exactly. */
  lemma UnstepThenStep(grid: nat, rows: int, columns: int, s: nat)
    requires rows >= 1 && columns >= 1 && 1 <= s < rows * columns
    ensures Next(Prev(Iterate(Start(grid, rows, columns), s))) == Iterate(Start(grid, rows, columns), s)
  {
    ReachedOnSpiral(grid, rows, columns, s);
    NextUndoesPrev(Iterate(Start(grid, rows, columns), s));
  }

  /** Jumps compose: a steps then b steps is a + b steps. */
  lemma {:induction false} IterateAdd(c: Cursor, a: nat, b: nat)
    requires Sized(c) && c.steps + a + b <= Size(c)
    ensures Iterate(Iterate(c, a), b) == Iterate(c, a + b)
    decreases a
  {
    if a > 0 {
      IterateAdd(Next(c), a - 1, b);
    }
  }

  /** `(it + n) - n == it` for a cursor on the spiral, as long as the forward
      jump stops short of the end sentinel. */
  lemma {:induction false} JumpThenJumpBack(c: Cursor, n: nat)
    requires OnSpiral(c) && c.steps + n <= Size(c) - 1
    ensures Retreat(Iterate(c, n), n) == c
    decreases n
  {
    if n > 0 {
      var y := Iterate(c, n - 1);
      IterateSucc(c, n - 1);
      IterateOnSpiral(c, n - 1);
      PrevUndoesNext(y);
      JumpThenJumpBack(c, n - 1);
    }
  }

  /** `(it - n) + n == it` for a cursor on the spiral, as long as the backward
      jump does not pass the first cell. */
  lemma {:induction false} JumpBackThenJump(c: Cursor, n: nat)
    requires OnSpiral(c) && n <= c.steps
    ensures Iterate(Retreat(c, n), n) == c
    decreases n
  {
    OnSpiralBounds(c);
    if n > 0 {
      var y := Retreat(c, n - 1);
      RetreatSucc(c, n - 1);
      RetreatOnSpiral(c, n - 1);
      NextUndoesPrev(y);
      JumpBackThenJump(c, n - 1);
    }
  }

  /** On cursors of one grid that are on the spiral, `==` holds exactly when
      the cursors are identical, exactly when their distance is zero, and `!=`
      exactly when their counters differ; `<` means a positive distance the
      other way, `>` is `<` with the operands swapped, `>=` is the negation of
      `<`, and exactly one of `<`, `==`, `>` holds. */
  lemma EqualityAndOrder(a: Cursor, b: Cursor)
    requires OnSpiral(a) && OnSpiral(b) && SameGrid(a, b)
    ensures Equal(a, b) <==> a == b
    ensures Equal(a, b) <==> Distance(a, b) == 0
    ensures NotEqual(a, b) <==> a.steps != b.steps
    ensures Less(a, b) <==> Distance(b, a) > 0
    ensures Greater(a, b) <==> Less(b, a)
    ensures GreaterEqual(a, b) <==> !Less(a, b)
    ensures (if Less(a, b) then 1 else 0) + (if Equal(a, b) then 1 else 0) + (if Greater(a, b) then 1 else 0) == 1
  {
    if a.steps == b.steps {
      OnSpiralUnique(a, b);
    }
  }

  /** Cursors bound to different grids are never equal. */
  lemma DifferentGridsNotEqual(a: Cursor, b: Cursor)
    requires a.grid != b.grid
    ensures NotEqual(a, b)
  {
  }

  /** The cursor reached from `begin()` after s < rows·columns steps can be
      dereferenced: it is bound to the grid and its cell is in range, namely
      the cell of spiral rank s. */
  lemma DerefInRange<T>(m: Matrix<T>, s: nat)
    requires Valid(m) && s < m.rows * m.columns
    ensures var c := Iterate(Begin(m), s);
      && c.grid == m.id
      && 0 <= c.i < m.rows && 0 <= c.j < m.columns
      && Rank(m.rows, m.columns, c.i, c.j) == s
  {
    RankOfVisit(m.id, m.rows, m.columns, s);
  }

  /** The grid's values in spiral order, read by walking a cursor from
      `begin()` while it differs from `end()`. The value at the spiral rank of
      each cell is that cell's value, so the result is the grid's contents
      laid out along the spiral. */
  method SpiralOrder<T>(m: Matrix<T>) returns (vs: seq<T>)
    requires Valid(m)
    ensures |vs| == m.rows * m.columns
    ensures forall i, j :: 0 <= i < m.rows && 0 <= j < m.columns ==>
      vs[Rank(m.rows, m.columns, i, j)] == m.cells[i][j]
  {
    var e := End(m);
    var it := Begin(m);
    vs := [];
    while NotEqual(it, e)
      invariant |vs| <= m.rows * m.columns
      invariant it == Iterate(Begin(m), |vs|)
      invariant forall i, j :: 0 <= i < m.rows && 0 <= j < m.columns && Rank(m.rows, m.columns, i, j) < |vs| ==>
        vs[Rank(m.rows, m.columns, i, j)] == m.cells[i][j]
      decreases m.rows * m.columns - |vs|
    {
      DerefInRange(m, |vs|);
      forall i, j | 0 <= i < m.rows && 0 <= j < m.columns && Rank(m.rows, m.columns, i, j) == |vs|
        ensures i == it.i && j == it.j
      {
        VisitOfRank(m.id, m.rows, m.columns, i, j);
      }
      IterateSucc(Begin(m), |vs|);
      vs := vs + [Deref(m, it)];
      it := Next(it);
    }
  }
}
