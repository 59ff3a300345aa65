/**
 Geometry of the concentric rings ("layers") of a rows × columns grid.
 Ring k is the boundary of the rectangle [k, rows-1-k] × [k, columns-1-k];
 ring 0 is the outermost. The spiral order walks each ring clockwise from its
 top-left corner (k, k): top edge, right edge, bottom edge, left edge.
 */
module Rings {

  /** Ring k has at least one row and one column. */
  predicate NonEmpty(rows: int, columns: int, k: int) {
    0 <= k && 2 * k < rows && 2 * k < columns
  }

  /** Cell (i, j) lies on the boundary of ring k. */
  predicate OnRing(rows: int, columns: int, k: int, i: int, j: int) {
    && 0 <= k
    && k <= i <= rows - 1 - k
    && k <= j <= columns - 1 - k
    && (i == k || i == rows - 1 - k || j == k || j == columns - 1 - k)
  }

  /** Number of cells on ring k. A ring one row high or one column wide is a
      single edge; otherwise it has two full rows and two shortened columns. */
  function Perimeter(rows: int, columns: int, k: int): (n: int)
    requires NonEmpty(rows, columns, k)
    ensures 1 <= n <= (rows - 2 * k) * (columns - 2 * k)
  {
    var h := rows - 2 * k;
    var w := columns - 2 * k;
    AreaSplit(h, w);
    if h == 1 then w else if w == 1 then h else 2 * h + 2 * w - 4
  }

  /** max(x, 0). */
  function Clamp(x: int): nat {
    if x > 0 then x else 0
  }

  /** Number of cells on ring k together with all the rings inside it. */
  function Area(rows: int, columns: int, k: int): nat {
    Clamp(rows - 2 * k) * Clamp(columns - 2 * k)
  }

  /** Position of a ring-k cell along the ring, counted clockwise from (k, k). */
  function Offset(rows: int, columns: int, k: int, i: int, j: int): (p: int)
    requires OnRing(rows, columns, k, i, j)
    ensures NonEmpty(rows, columns, k)
    ensures 0 <= p < Perimeter(rows, columns, k)
  {
    var h := rows - 2 * k;
    var w := columns - 2 * k;
    if i == k then j - k
    else if j == columns - 1 - k then w - 1 + (i - k)
    else if i == rows - 1 - k then w + h - 2 + (columns - 1 - k - j)
    else 2 * w + h - 3 + (rows - 1 - k - i)
  }

  /** The cell at position p along ring k: the inverse of Offset. */
  function CellAt(rows: int, columns: int, k: int, p: int): (c: (int, int))
    requires NonEmpty(rows, columns, k) && 0 <= p < Perimeter(rows, columns, k)
    ensures OnRing(rows, columns, k, c.0, c.1)
    ensures Offset(rows, columns, k, c.0, c.1) == p
  {
    var h := rows - 2 * k;
    var w := columns - 2 * k;
    if p < w then (k, k + p)
    else if p < w + h - 1 then (k + p - (w - 1), columns - 1 - k)
    else if p < 2 * w + h - 2 then (rows - 1 - k, columns - 1 - k - (p - (w + h - 2)))
    else (rows - 1 - k - (p - (2 * w + h - 3)), k)
  }

  /** Offset loses nothing: a ring cell is recovered from its position. */
  lemma CellAtOffset(rows: int, columns: int, k: int, i: int, j: int)
    requires OnRing(rows, columns, k, i, j)
    ensures CellAt(rows, columns, k, Offset(rows, columns, k, i, j)) == (i, j)
  {
  }

  function Min(a: int, b: int): int {
    if a < b then a else b
  }

  /** Distance from cell (i, j) to the nearest side of the grid. */
  function Depth(rows: int, columns: int, i: int, j: int): int {
    Min(Min(i, j), Min(rows - 1 - i, columns - 1 - j))
  }

  /** Every cell of the grid lies on exactly one ring: the one whose index is
      the cell's depth. */
  lemma OnRingIffDepth(rows: int, columns: int, k: int, i: int, j: int)
    requires 0 <= i < rows && 0 <= j < columns
    ensures OnRing(rows, columns, k, i, j) <==> k == Depth(rows, columns, i, j)
  {
  }

  /** The whole grid is ring 0 and everything inside it. */
  lemma AreaOfGrid(rows: int, columns: int)
    requires rows >= 1 && columns >= 1
    ensures Area(rows, columns, 0) == rows * columns
  {
  }

  /** Ring k and the rings inside it hold some cell exactly when ring k does. */
  lemma AreaPositive(rows: int, columns: int, k: int)
    requires k >= 0
    ensures Area(rows, columns, k) > 0 <==> NonEmpty(rows, columns, k)
  {
    var a, b := Clamp(rows - 2 * k), Clamp(columns - 2 * k);
    if a == 0 || b == 0 {
      assert a * b == 0;
    } else {
      ProductPositive(a, b);
    }
  }

  lemma ProductPositive(a: int, b: int)
    requires a > 0 && b > 0
    ensures a * b > 0
  {
  }

  /** h·w = (2h + 2w − 4) + (h − 2)(w − 2), the cells on an h × w ring plus those inside it. */
  lemma AreaSplit(h: int, w: int)
    requires h >= 1 && w >= 1
    ensures h * w == 2 * h + 2 * w - 4 + (h - 2) * (w - 2)
    ensures h == 1 ==> h * w == w
    ensures w == 1 ==> h * w == h
    ensures h >= 2 && w >= 2 ==> 2 * h + 2 * w - 4 <= h * w
  {
    if h >= 2 && w >= 2 {
      assert (h - 2) * (w - 2) >= 0 by {
        ProductNonNegative(h - 2, w - 2);
      }
    }
  }

  lemma ProductNonNegative(a: int, b: int)
    requires a >= 0 && b >= 0
    ensures a * b >= 0
  {
  }

  /** Peeling ring k off leaves exactly the area of ring k + 1. */
  lemma AreaStep(rows: int, columns: int, k: int)
    requires NonEmpty(rows, columns, k)
    ensures Area(rows, columns, k) == Perimeter(rows, columns, k) + Area(rows, columns, k + 1)
  {
    var h := rows - 2 * k;
    var w := columns - 2 * k;
    AreaSplit(h, w);
    assert Area(rows, columns, k) == h * w;
    if h <= 2 || w <= 2 {
      assert Area(rows, columns, k + 1) == 0;
    } else {
      assert Area(rows, columns, k + 1) == (h - 2) * (w - 2);
    }
  }

  /** Inner rings never hold more cells than outer ones. */
  lemma {:induction false} AreaAntitone(rows: int, columns: int, k1: int, k2: int)
    requires 0 <= k1 <= k2
    ensures Area(rows, columns, k2) <= Area(rows, columns, k1)
    decreases k2 - k1
  {
    if k1 < k2 {
      AreaAntitone(rows, columns, k1 + 1, k2);
      if NonEmpty(rows, columns, k1) {
        AreaStep(rows, columns, k1);
      } else {
        AreaPositive(rows, columns, k1);
        AreaPositive(rows, columns, k1 + 1);
      }
    }
  }
}
