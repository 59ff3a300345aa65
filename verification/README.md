# Snail iterator: a Dafny model of the spiral grid cursor

This project models the C++ `Matrix<T>` grid and its `SnailIterator`. The
iterator is a random-access cursor that walks the grid in spiral ("snail")
order. It starts at the top-left cell and sweeps each ring clockwise: top edge,
right edge, bottom edge, left edge. Then it steps inward to the next ring.
Everything is proved for every grid of at least one row and one column.

Modules, following the structure of `Matrix_Iterator.cpp`:

- `Grid` (`grid.dfy`): the rows × columns store as an immutable value, with row indexing and cell update.
- `Rings` (`rings.dfy`): ring geometry. Ring k is the boundary of `[k, rows-1-k] × [k, columns-1-k]`.
  - `Offset` is a cell's position along its ring. `CellAt` is its inverse.
  - `Depth` gives the ring a cell lies on.
  - `Area(k)` counts the cells on ring k and inside it.
- `Snail` (`snail.dfy`): the cursor and its operators.
  - The cursor record holds `grid`, `i`, `j`, `rows`, `columns`, `k` and `steps`.
  - `Next` is `++` and `Prev` is `--`: the two five-case ladders.
  - `Iterate` and `Retreat` are n forward or backward steps.
  - `PlusAssign`, `Plus` and `Minus` model `+=`, `+` and `-` by an integer, `PlusAssign` and `Minus` with the source's counted loops; `Plus` applies `PlusAssign` to a copy, as `+` does with its own copy of that loop.
  - `Distance`, `Equal`, `NotEqual`, `Less`, `Greater` and `GreaterEqual` are the comparison operators.
  - `Begin`, `End` and `Deref` model `begin()`, `end()` and `*`.
- `Spiral` (`spiral.dfy`): the invariant `OnSpiral` and the bijection theorem.
  - A cursor is on the spiral when its cell lies on ring k and its counter is the cell's spiral rank.
  - That rank is the number of cells outside ring k plus the cell's offset along ring k.
  - A cursor on the spiral is fixed by its counter alone.
  - The cursors on the spiral are exactly those reached from `begin()` before the end.
- `Algebra` (`algebra.dfy`): the cursor laws.
  - Step and unstep are inverses in the stated ranges.
  - Jumps compose and undo each other.
  - On one grid, equality and ordering agree with the step counter.
  - Dereferencing a reached cursor stays in range.
  - `SpiralOrder` reads the grid's values along the spiral.
- `Traces` (`traces.dfy`): concrete traces of 3 × 3, 1 × 4 and 4 × 1 grids.
- `Sentinel` (`sentinel.dfy`): the step past the last cell and back, as written and corrected. See Findings.

The grid pointer that a cursor holds, and that `==` compares, is modelled by a
natural-number identity. It is the field `id` of `Matrix` and `grid` of
`Cursor`. Distinct grids are assumed to have distinct identities. The source's
`int` and `long long` counters are modelled by unbounded integers.

## Model

| member | source | states |
|---|---|---|
| Grid.NewMatrix | Matrix_Iterator.cpp:14-23 | the constructed grid has the requested rows and columns, a row store of exactly that shape, and every cell holds the initial value |
| Grid.Row | Matrix_Iterator.cpp:34-37 | row r of the grid has `columns` cells, and its cell c is the grid's cell (r, c) |
| Grid.Set | Matrix_Iterator.cpp:34-37 | writing through a row changes cell (r, c) to the new value; every other cell, the shape and the identity stay the same |
| Snail.Next | Matrix_Iterator.cpp:63-88 | `++` adds exactly one to the counter whichever branch fires, or none; it stays on the same grid and moves at most one cell. k changes only at the corner j == k, i == k + 1, where k and j each grow by one and i stays; so k never decreases |
| Snail.Prev | Matrix_Iterator.cpp:90-115 | `--` subtracts exactly one from the counter whichever branch fires, or none; it moves at most one cell. k changes only at the corner j == k, i == k, where k and j each drop by one |
| Snail.Iterate | Matrix_Iterator.cpp:117-125 | n forward steps raise the counter by exactly n, stay on the same grid and never lower k |
| Snail.Retreat | Matrix_Iterator.cpp:136-144 | n backward steps lower the counter by exactly n and never raise k |
| Snail.PlusAssign | Matrix_Iterator.cpp:127-134 | `+= b` is b forward steps when b ≥ 0 and leaves the cursor unchanged when b ≤ 0; the counter grows by max(b, 0) |
| Snail.Plus | Matrix_Iterator.cpp:117-125 | `+ b` gives the same cursor as `+= b` applied to a copy: b forward steps for b ≥ 0, an unchanged copy for b ≤ 0 |
| Snail.Minus | Matrix_Iterator.cpp:136-144 | `- b` is b backward steps when b ≥ 0 and an unchanged copy when b ≤ 0; the counter drops by max(b, 0) |
| Snail.Begin | Matrix_Iterator.cpp:183-186 | `begin()` is bound to the grid and sits at (0, 0) in ring 0 with counter 0, on a grid of rows·columns cells |
| Snail.End | Matrix_Iterator.cpp:188-197 | `end()` is `begin()` advanced rows·columns times; `end() - begin()` equals rows·columns, and `begin() != end()` on every grid with a cell |
| Snail.Deref | Matrix_Iterator.cpp:177-180 | `*it` reads cell (i, j) of the grid the cursor is bound to; it is defined only when that cell is in range (DerefInRange shows when it is) |
| Snail.Start | Matrix_Iterator.cpp:47-56 | the constructor binds the cursor to the grid and its shape with the defaults k = 0 and steps = 0; called with cell (0, 0) it sits on the top-left corner of ring 0, which is non-empty exactly when the grid has a cell (Spiral.StartOnSpiral shows it is on the spiral) |
| Snail.Distance | Matrix_Iterator.cpp:146-150 | `it1 - it2` is positive exactly when `it1 > it2`, negative exactly when `it1 < it2`, non-negative exactly when `it1 >= it2`, and zero between equal cursors (Algebra.EqualityAndOrder: on one grid's spiral, zero exactly when equal) |
| Snail.Equal | Matrix_Iterator.cpp:152-155 | `==` compares the cell, the grid and the counter but not k: two cursors are equal exactly when they coincide once their ring index and shape are made to match (Algebra.EqualityAndOrder: on one grid's spiral, exactly when they are identical) |
| Snail.NotEqual | Matrix_Iterator.cpp:157-160 | `!=` holds exactly when the cursors differ outside k and the shape, so in particular whenever their counters differ (Algebra.EqualityAndOrder: on one grid's spiral, exactly when the counters differ) |
| Snail.Less | Matrix_Iterator.cpp:172-175 | `a < b` holds exactly when `b > a`, and never between equal cursors (Algebra.EqualityAndOrder: exactly one of `<`, `==`, `>` holds) |
| Snail.Greater | Matrix_Iterator.cpp:167-170 | `>` never holds between equal cursors |
| Snail.GreaterEqual | Matrix_Iterator.cpp:162-165 | `>=` is the negation of `<`, holds between equal cursors, and is total: when `a >= b` fails, `b > a` |
| Rings.CellAt | Matrix_Iterator.cpp:63-88 | the cell at each position along ring k lies on ring k, and its offset is that position: offsets number a ring's cells one to one |
| Rings.CellAtOffset | Matrix_Iterator.cpp:63-88 | a ring cell is recovered from its offset, the other direction of the correspondence |
| Rings.OnRingIffDepth | Matrix_Iterator.cpp:63-88 | every cell of the grid lies on ring k exactly when k is its distance to the nearest side |
| Rings.AreaStep | Matrix_Iterator.cpp:69-73 | the cells on ring k plus those inside ring k + 1 are all those inside ring k, so crossing into the next ring continues the count |
| Spiral.OnSpiralBounds | Matrix_Iterator.cpp:177-180 | a cursor on the spiral points inside the grid and is not the end sentinel |
| Spiral.StartOnSpiral | Matrix_Iterator.cpp:183-186 | `begin()` is on the spiral |
| Spiral.NextOnSpiral | Matrix_Iterator.cpp:63-88 | a forward step short of the last cell goes to the next cell of the ring, or from a ring's last cell to the next ring's corner; either way the cursor stays on the spiral |
| Spiral.PrevOnSpiral | Matrix_Iterator.cpp:90-115 | a backward step past the first cell goes to the previous cell of the ring, or from a ring's corner to the enclosing ring's last cell; the cursor stays on the spiral |
| Spiral.OnSpiralUnique | Matrix_Iterator.cpp:42-48 | two cursors on the spiral of the same grid with equal counters are identical in (i, j, k, steps) |
| Spiral.IterateOnSpiral | Matrix_Iterator.cpp:117-125 | forward jumps from a cursor on the spiral stay on it up to and including the last cell |
| Spiral.RetreatOnSpiral | Matrix_Iterator.cpp:136-144 | backward jumps from a cursor on the spiral stay on it down to the first cell |
| Spiral.ReachedOnSpiral | Matrix_Iterator.cpp:183-197 | every cursor reached from `begin()` in fewer than rows·columns steps is on the spiral |
| Spiral.OnSpiralReached | Matrix_Iterator.cpp:183-197 | every cursor on the spiral is the one reached from `begin()` after as many steps as its counter |
| Spiral.Rank | Matrix_Iterator.cpp:63-88 | every cell of the grid has a spiral rank in [0, rows·columns) |
| Spiral.VisitInBounds | Matrix_Iterator.cpp:63-88 | after s < rows·columns steps from `begin()` the cell is in bounds and on the boundary of ring k, which is non-empty |
| Spiral.RankOfVisit | Matrix_Iterator.cpp:63-88 | the cell visited at step s has spiral rank s |
| Spiral.VisitOfRank | Matrix_Iterator.cpp:63-88 | the cell of rank r is the one visited at step r |
| Spiral.VisitCovers | Matrix_Iterator.cpp:188-197 | every cell of the grid is visited before `end()` |
| Spiral.VisitInjective | Matrix_Iterator.cpp:188-197 | two steps before `end()` that visit the same cell are the same step |
| Spiral.SpiralVisitsEveryCellOnce | Matrix_Iterator.cpp:183-197 | from `begin()`, the first rows·columns forward steps visit in-bounds cells, each on its ring's boundary, pairwise distinct, and every cell of the grid |
| Algebra.PrevUndoesNext | Matrix_Iterator.cpp:63-115 | on a cursor on the spiral at least two steps before the end (counter ≤ rows·columns − 2), `--` after `++` restores (i, j, k, steps) |
| Algebra.NextUndoesPrev | Matrix_Iterator.cpp:63-115 | on a cursor on the spiral with counter in [1, rows·columns − 1], `++` after `--` restores (i, j, k, steps) |
| Algebra.StepThenUnstep | Matrix_Iterator.cpp:63-115 | for the cursor reached from `begin()` with 0 ≤ s ≤ rows·columns − 2, `++` then `--` gives it back |
| Algebra.UnstepThenStep | Matrix_Iterator.cpp:63-115 | for the cursor reached from `begin()` with 1 ≤ s ≤ rows·columns − 1, `--` then `++` gives it back |
| Algebra.IterateAdd | Matrix_Iterator.cpp:127-134 | a jump by a followed by a jump by b is a jump by a + b |
| Algebra.JumpThenJumpBack | Matrix_Iterator.cpp:117-144 | `(it + n) - n == it` for a cursor on the spiral when it.steps + n ≤ rows·columns − 1 |
| Algebra.JumpBackThenJump | Matrix_Iterator.cpp:117-144 | `(it - n) + n == it` for a cursor on the spiral when n ≤ it.steps |
| Algebra.EqualityAndOrder | Matrix_Iterator.cpp:147-175 | on cursors of one grid on the spiral: `==` holds exactly for identical cursors and exactly at distance 0; `!=` holds exactly when the counters differ; `<` means a positive distance the other way; `>` is `<` swapped; `>=` is not-`<`; exactly one of `<`, `==`, `>` holds |
| Algebra.DifferentGridsNotEqual | Matrix_Iterator.cpp:152-160 | cursors bound to different grids are never `==` |
| Algebra.DerefInRange | Matrix_Iterator.cpp:177-180 | the cursor reached after s < rows·columns steps is bound to the grid and points at an in-range cell, the cell of spiral rank s |
| Algebra.SpiralOrder | Matrix_Iterator.cpp:225-231 | walking from `begin()` while `!= end()` and dereferencing reads exactly rows·columns values; the value at each cell's spiral rank is that cell's value |
| Traces.Positions | Matrix_Iterator.cpp:63-88 | the listed cells are, in order, those of the cursor after 0, 1, …, n − 1 forward steps |
| Traces.Trace3x3 | Matrix_Iterator.cpp:63-88 | 3 × 3 visits (0,0),(0,1),(0,2),(1,2),(2,2),(2,1),(2,0),(1,0),(1,1) |
| Traces.Trace1x4 | Matrix_Iterator.cpp:63-88 | 1 × 4 visits (0,0),(0,1),(0,2),(0,3) |
| Traces.Trace4x1 | Matrix_Iterator.cpp:63-88 | 4 × 1 visits (0,0),(1,0),(2,0),(3,0) |
| Traces.EndSharesCell1x4 | Matrix_Iterator.cpp:152-160 | on 1 × 4, `end()` points at the same cell as `begin() + 2`, yet the two are `!=` because their counters differ |
| Sentinel.PrevOfEndMisses3x3 | Matrix_Iterator.cpp:63-115 | as written, on 3 × 3 `--end()` is (1, 0) in ring 0, not the last cell (1, 1), so `--` after `++` fails on the last cell |
| Sentinel.PrevOfEndMisses1x4 | Matrix_Iterator.cpp:63-115 | as written, on 1 × 4 `++` from the last cell (0, 3) goes to (0, 2), and `--` then goes to (0, 1) |
| Sentinel.LastCellRoundTrip | Matrix_Iterator.cpp:63-115 | as written, on every grid, `--` after `++` on the last cell restores it exactly when the innermost ring is at least 2 × 2 or is a column of two cells; on a single-row, single-cell or taller single-column innermost ring it does not |
| Sentinel.NextFixed | Matrix_Iterator.cpp:63-88 | the corrected `++` is the source's `++` except from the last cell, where only the counter moves and the cell and ring stay |
| Sentinel.PrevFixed | Matrix_Iterator.cpp:90-115 | the corrected `--` is the source's `--` except from the end sentinel, where only the counter moves |
| Sentinel.FixedStepsInverse | Matrix_Iterator.cpp:63-115 | with the corrected steps, `--` undoes `++` on every cursor on the spiral, the last cell included, and `++` undoes `--` from the second cell through the end sentinel |
| Sentinel.FixedEndStepsBackToLastCell | Matrix_Iterator.cpp:188-197 | with the corrected steps, `end()` keeps the last cell and `--end()` is exactly the cursor at the last cell |

## Left out

- `FillMatrix`, `PrintOut`, `SortedOrder`'s printing and `main` (Matrix_Iterator.cpp:200-252): random fill, console I/O and orchestration. `SpiralOrder` models only the walk that `SortedOrder` performs.
- `std::sort` (Matrix_Iterator.cpp:248) is a library algorithm that is not part of this model. No claim is made that sorting through these cursors is correct; see Findings.
- Memory management: the row-by-row `new[]` in the constructor and the destructor (Matrix_Iterator.cpp:14-32). The grid is an immutable `seq<seq<T>>`, and writes produce a new grid (`Grid.Set`).
- Grid.NewMatrix: requires rows ≥ 1 and columns ≥ 1. The constructor validates nothing, so there is no invalid-dimension error path to model. The cells start as an explicit `init` value, where the source leaves them default-initialised.
- `*it` returns a mutable reference. `Snail.Deref` models the read; a write through the cursor is `Grid.Set` at the cursor's cell.
- Snail.Next: requires the counter to be below rows·columns. Past the end the source's ladder keeps incrementing the counter and moving along whatever branch fires. That behaviour is not modelled. `Snail.Prev` is modelled on every input.
- Snail.Plus and Snail.PlusAssign: require the jump to stop at or before the end sentinel, because they are built from `Next`.
- Backward steps below `begin()`, where k and j become −1, follow the source's ladder in `Snail.Prev`. No law is stated for them.
- Integer width: `int` overflow of `rows * columns` (Matrix_Iterator.cpp:190) and the `long long` / `ptrdiff_t` width of the counter and distance. All are unbounded integers here.
- Grid pointer identity in `==` is a natural-number identity per grid. Distinct grids are assumed to have distinct identities.
- The iterator's member type aliases and category tag (Matrix_Iterator.cpp:58-61, 146) have no behaviour.

## Findings

| source | as written | input that shows it | evidently intended | confidence | as-written member | corrected member |
|---|---|---|---|---|---|---|
| Matrix_Iterator.cpp:63-115 | `++` from the last cell fires no branch when the innermost ring is a single cell, so only the counter moves, and otherwise fires a further branch of the ladder. In the failing cases `--` from the resulting `end()` does not come back to the last cell. It fails whenever the innermost ring is a single row, a single cell, or a column of three or more cells. Then `--(++last) != last`, and `end() - 1`, which std::sort uses, points at the wrong cell | 3 × 3: the last cell is (1, 1) with k = 1 and counter 8. `end()` is (1, 1) with k = 1 and counter 9. `--end()` is (1, 0) with k = 0 and counter 8. On 1 × 4, `--` after `++` on (0, 3) gives (0, 1) | `--(++it) == it` on every dereferenceable cursor, so `--end()` is the last cell | high (not executed) | Sentinel.LastCellRoundTrip | Sentinel.FixedStepsInverse |

`Sentinel.NextFixed` and `Sentinel.PrevFixed` differ from the source's steps
only on the last cell and on the end sentinel. So every law above that stays
below the last cell holds for them unchanged. `Sentinel.FixedStepsInverse` and
`Sentinel.FixedEndStepsBackToLastCell` extend the inverse law to the full range.
