/**
 The grid container: a rows × columns store of elements with row indexing.
 The source keeps a heap-allocated array of row arrays; here a grid is an
 immutable value and writing a cell produces the updated grid.
 */
module Grid {

  /** A grid of elements. `id` stands for the identity of the grid's storage:
      cursors carry it so that cursors over different grids can be told apart. */
  datatype Matrix<T> = Matrix(id: nat, rows: int, columns: int, cells: seq<seq<T>>)

  /** The grid has at least one row and one column, and its store has exactly
      `rows` rows of exactly `columns` cells each. */
  predicate Valid<T>(m: Matrix<T>) {
    && m.rows >= 1
    && m.columns >= 1
    && |m.cells| == m.rows
    && forall r :: 0 <= r < |m.cells| ==> |m.cells[r]| == m.columns
  }

  /** Builds a rows × columns grid. The source leaves the cells
      default-initialised; here every cell starts as `init`. */
  function NewMatrix<T>(id: nat, rows: int, columns: int, init: T): (m: Matrix<T>)
    requires rows >= 1 && columns >= 1
    ensures Valid(m)
    ensures m.id == id && m.rows == rows && m.columns == columns
    ensures forall r, c :: 0 <= r < rows && 0 <= c < columns ==> m.cells[r][c] == init
  {
    Matrix(id, rows, columns, seq(rows, _ => seq(columns, _ => init)))
  }

  /** Row `r` of the grid, whose cells are then indexed by column. */
  function Row<T>(m: Matrix<T>, r: int): (row: seq<T>)
    requires Valid(m) && 0 <= r < m.rows
    ensures |row| == m.columns
    ensures forall c :: 0 <= c < m.columns ==> row[c] == m.cells[r][c]
  {
    m.cells[r]
  }

  /** Writes `v` into cell (r, c); every other cell, and the grid's identity
      and shape, stay as they were. */
  function Set<T>(m: Matrix<T>, r: int, c: int, v: T): (m': Matrix<T>)
    requires Valid(m) && 0 <= r < m.rows && 0 <= c < m.columns
    ensures Valid(m')
    ensures m'.id == m.id && m'.rows == m.rows && m'.columns == m.columns
    ensures Row(m', r)[c] == v
    ensures forall r', c' :: 0 <= r' < m.rows && 0 <= c' < m.columns && (r' != r || c' != c) ==>
              m'.cells[r'][c'] == m.cells[r'][c']
  {
    m.(cells := m.cells[r := m.cells[r][c := v]])
  }
}
