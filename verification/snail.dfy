/**
 The spiral ("snail") cursor over a grid. A cursor holds its cell (i, j), the
 ring k it is walking, and a step counter; it is bound to one grid of a fixed
 shape. `Next` and `Prev` are the cursor's forward and backward steps; jumps,
 distance, equality and ordering are built on them.
 */
module Snail {
  import opened Grid
  import opened Rings

  /** Cursor state. `grid` identifies the grid the cursor is bound to. */
  datatype Cursor = Cursor(grid: nat, i: int, j: int, rows: int, columns: int, k: int, steps: int)

  /** The grid the cursor walks has at least one cell. */
  predicate Sized(c: Cursor) {
    c.rows >= 1 && c.columns >= 1
  }

  /** Number of cells in the cursor's grid; a cursor with this many steps is
      the one-past-the-end sentinel. */
  function Size(c: Cursor): int {
    c.rows * c.columns
  }

  /** Both cursors are bound to the same grid. */
  predicate SameGrid(a: Cursor, b: Cursor) {
    a.grid == b.grid && a.rows == b.rows && a.columns == b.columns
  }

  /** The cell a cursor points at. */
  function Cell(c: Cursor): (int, int) {
    (c.i, c.j)
  }

  /** Sum of the row and column distances between the cells of two cursors. */
  function Moved(a: Cursor, b: Cursor): nat {
    (if a.i < b.i then b.i - a.i else a.i - b.i) + (if a.j < b.j then b.j - a.j else a.j - b.j)
  }

  /** Forward step. Within ring k the cursor runs down the right edge, crosses
      into ring k + 1 at the corner (k + 1, k), runs up the left edge, right
      along the top edge or left along the bottom edge; the step counter grows
      by one whichever case applies, even when none does. */
  function Next(c: Cursor): (r: Cursor)
    requires Sized(c) && c.steps < Size(c)
    ensures SameGrid(r, c)
    ensures r.steps == c.steps + 1
    ensures Moved(c, r) <= 1
    ensures r.k >= c.k
    ensures r.k != c.k ==> c.j == c.k && c.i == c.k + 1 && r.k == c.k + 1 && r.i == c.i && r.j == c.j + 1
  {
    var k := c.k;
    if c.j == c.columns - 1 - k && c.i != c.rows - 1 - k then
      c.(i := c.i + 1, steps := c.steps + 1)
    else if c.j == k && c.i == k + 1 then
      c.(k := k + 1, j := c.j + 1, steps := c.steps + 1)
    else if c.j == k && c.i != k then
      c.(i := c.i - 1, steps := c.steps + 1)
    else if c.j != c.columns - 1 - k && c.i == k then
      c.(j := c.j + 1, steps := c.steps + 1)
    else if c.i == c.rows - 1 - k && c.j != k then
      c.(j := c.j - 1, steps := c.steps + 1)
    else
      c.(steps := c.steps + 1)
  }

  /** Backward step: the mirrored ladder. Leaving a ring's top-left corner
      (k, k) returns to ring k - 1. The counter drops by one whichever case
      applies, even when none does. */
  function Prev(c: Cursor): (r: Cursor)
    ensures SameGrid(r, c)
    ensures r.steps == c.steps - 1
    ensures Moved(c, r) <= 1
    ensures r.k <= c.k
    ensures r.k != c.k ==> c.j == c.k && c.i == c.k && r.k == c.k - 1 && r.i == c.i && r.j == c.j - 1
  {
    var k := c.k;
    if c.j == c.columns - 1 - k && c.i != k then
      c.(i := c.i - 1, steps := c.steps - 1)
    else if c.j == k && c.i == k then
      c.(k := k - 1, j := c.j - 1, steps := c.steps - 1)
    else if c.j == k && c.i != c.rows - 1 - k then
      c.(i := c.i + 1, steps := c.steps - 1)
    else if c.j != k && c.i == k then
      c.(j := c.j - 1, steps := c.steps - 1)
    else if c.i == c.rows - 1 - k && c.j != c.columns - 1 - k then
      c.(j := c.j + 1, steps := c.steps - 1)
    else
      c.(steps := c.steps - 1)
  }

  /** n forward steps. The ring index never decreases along the way. */
  function Iterate(c: Cursor, n: nat): (r: Cursor)
    requires Sized(c) && c.steps + n <= Size(c)
    ensures SameGrid(r, c)
    ensures r.steps == c.steps + n
    ensures r.k >= c.k
    decreases n
  {
    if n == 0 then c else Iterate(Next(c), n - 1)
  }

  /** n backward steps. */
  function Retreat(c: Cursor, n: nat): (r: Cursor)
    ensures SameGrid(r, c)
    ensures r.steps == c.steps - n
    ensures r.k <= c.k
    decreases n
  {
    if n == 0 then c else Retreat(Prev(c), n - 1)
  }

  /** One more forward step after n of them. */
  lemma {:induction false} IterateSucc(c: Cursor, n: nat)
    requires Sized(c) && c.steps + n + 1 <= Size(c)
    ensures Iterate(c, n + 1) == Next(Iterate(c, n))
    decreases n
  {
    if n > 0 {
      IterateSucc(Next(c), n - 1);
    }
  }

  /** One more backward step after n of them. */
  lemma {:induction false} RetreatSucc(c: Cursor, n: nat)
    ensures Retreat(c, n + 1) == Prev(Retreat(c, n))
    decreases n
  {
    if n > 0 {
      RetreatSucc(Prev(c), n - 1);
    }
  }

  /** In-place jump by b (`+=`): b forward steps, none when b is not positive. */
  method PlusAssign(c: Cursor, b: int) returns (r: Cursor)
    requires Sized(c) && c.steps + Clamp(b) <= Size(c)
    ensures b >= 0 ==> r == Iterate(c, b)
    ensures b <= 0 ==> r == c
    ensures SameGrid(r, c) && r.steps == c.steps + Clamp(b)
  {
    r := c;
    var n := 0;
    while n < b
      invariant 0 <= n <= Clamp(b)
      invariant r == Iterate(c, n)
    {
      IterateSucc(c, n);
      r := Next(r);
      n := n + 1;
    }
  }

  /** Jump by b (`+`): a copy of the cursor moved in place by b. */
  method Plus(c: Cursor, b: int) returns (r: Cursor)
    requires Sized(c) && c.steps + Clamp(b) <= Size(c)
    ensures b >= 0 ==> r == Iterate(c, b)
    ensures b <= 0 ==> r == c
    ensures SameGrid(r, c) && r.steps == c.steps + Clamp(b)
  {
    r := PlusAssign(c, b);
  }

  /** Jump back by b (`-` with an integer): b backward steps, none when b is
      not positive. */
  method Minus(c: Cursor, b: int) returns (r: Cursor)
    ensures b >= 0 ==> r == Retreat(c, b)
    ensures b <= 0 ==> r == c
    ensures SameGrid(r, c) && r.steps == c.steps - Clamp(b)
  {
    r := c;
    var n := 0;
    while n < b
      invariant 0 <= n <= Clamp(b)
      invariant r == Retreat(c, n)
    {
      RetreatSucc(c, n);
      r := Prev(r);
      n := n + 1;
    }
  }

  /** Distance between two cursors (`it1 - it2`): the difference of their step
      counters. Its sign is the ordering, and equal cursors are at distance 0. */
  function Distance(a: Cursor, b: Cursor): (d: int)
    ensures d > 0 <==> Greater(a, b)
    ensures d < 0 <==> Less(a, b)
    ensures d >= 0 <==> GreaterEqual(a, b)
    ensures Equal(a, b) ==> d == 0
  {
    a.steps - b.steps
  }

  /** Equality: same cell, same grid and same step counter. The ring index and
      the cached shape are not compared, so two cursors are equal exactly when
      they agree once those are made to match. */
  predicate Equal(a: Cursor, b: Cursor)
    ensures Equal(a, b) <==> a.(k := b.k, rows := b.rows, columns := b.columns) == b
  {
    a.i == b.i && a.j == b.j && a.grid == b.grid && a.steps == b.steps
  }

  /** Inequality, the negation of `==`: cursors with different counters, cells
      or grids always differ, whatever their rings. */
  predicate NotEqual(a: Cursor, b: Cursor)
    ensures NotEqual(a, b) <==> a.(k := b.k, rows := b.rows, columns := b.columns) != b
    ensures a.steps != b.steps ==> NotEqual(a, b)
  {
    !Equal(a, b)
  }

  /** The ordering operators compare step counters only. A cursor is never
      `>` one it equals. */
  predicate Greater(a: Cursor, b: Cursor)
    ensures Greater(a, b) ==> NotEqual(a, b)
  {
    a.steps > b.steps
  }

  /** `<` is `>` with the operands swapped, so it never holds between equal
      cursors either. */
  predicate Less(a: Cursor, b: Cursor)
    ensures Less(a, b) <==> Greater(b, a)
    ensures Less(a, b) ==> NotEqual(a, b)
  {
    a.steps < b.steps
  }

  /** `>=` is the negation of `<`; it holds between equal cursors, and it is
      total: when a is not `>=` b, b is strictly `>` a. */
  predicate GreaterEqual(a: Cursor, b: Cursor)
    ensures GreaterEqual(a, b) <==> !Less(a, b)
    ensures Equal(a, b) ==> GreaterEqual(a, b)
    ensures GreaterEqual(a, b) || Greater(b, a)
  {
    a.steps >= b.steps
  }

  /** A cursor at the top-left cell, in ring 0, before any step: the cursor
      constructor with the defaults k = 0 and steps = 0, called with cell (0, 0). */
  function Start(grid: nat, rows: int, columns: int): (r: Cursor)
    ensures r.grid == grid && r.rows == rows && r.columns == columns
    ensures r.k == 0 && r.steps == 0
    ensures Sized(r) <==> NonEmpty(rows, columns, 0)
    ensures Sized(r) ==> OnRing(rows, columns, r.k, r.i, r.j) && r.i == r.k && r.j == r.k
  {
    Cursor(grid, 0, 0, rows, columns, 0, 0)
  }

  /** The grid's first cursor (`begin()`). */
  function Begin<T>(m: Matrix<T>): (r: Cursor)
    requires Valid(m)
    ensures Sized(r) && Size(r) == m.rows * m.columns
    ensures r == Start(m.id, m.rows, m.columns)
  {
    Start(m.id, m.rows, m.columns)
  }

  /** The one-past-the-end cursor (`end()`): the first cursor advanced once
      per cell. It lies rows·columns steps after `begin()` and differs from it. */
  method End<T>(m: Matrix<T>) returns (r: Cursor)
    requires Valid(m)
    ensures r == Iterate(Begin(m), m.rows * m.columns)
    ensures SameGrid(r, Begin(m))
    ensures Distance(r, Begin(m)) == m.rows * m.columns
    ensures NotEqual(Begin(m), r)
  {
    var length := m.rows * m.columns;
    var b := Begin(m);
    r := b;
    var n := 0;
    while n < length
      invariant 0 <= n <= length
      invariant r == Iterate(b, n)
    {
      IterateSucc(b, n);
      r := Next(r);
      n := n + 1;
    }
  }

  /** The element under the cursor, read from the grid it is bound to. */
  function Deref<T>(m: Matrix<T>, c: Cursor): (v: T)
    requires Valid(m) && c.grid == m.id
    requires 0 <= c.i < m.rows && 0 <= c.j < m.columns
    ensures v == Row(m, c.i)[c.j]
  {
    m.cells[c.i][c.j]
  }
}
