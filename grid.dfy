/**
 * The shape of a double loop `for j < rows { for i < cols { push cell(j, i) } }`:
 * the output is the cells' entries concatenated row by row.
 */
module Grid {

  /** The entries pushed by the first `cols` iterations of row `j`. */
  function Row<T>(j: nat, cols: nat, cell: (nat, nat) -> seq<T>): seq<T>
    decreases cols
  {
    if cols == 0 then [] else Row(j, cols - 1, cell) + cell(j, cols - 1)
  }

  /** The entries pushed by the first `rows` complete rows. */
  function Rows<T>(rows: nat, cols: nat, cell: (nat, nat) -> seq<T>): seq<T>
    decreases rows
  {
    if rows == 0 then [] else Rows(rows - 1, cols, cell) + Row(rows - 1, cols, cell)
  }

  /** Every cell pushes `w` entries. */
  ghost predicate Width<T>(cell: (nat, nat) -> seq<T>, w: nat) {
    forall j: nat, i: nat :: |cell(j, i)| == w
  }

  /** Arithmetic behind the positions: an entry inside a block of `size` entries ... */
  lemma Within(j: nat, n: nat, size: nat, x: nat)
    requires j < n && x < size
    ensures j * size + x < n * size
  {
    assert j * size <= (n - 1) * size;
    assert (n - 1) * size + size == n * size;
  }

  /** ... and the position of entry `k` of cell `(j, i)`, split into whole rows and the rest. */
  lemma Split(cols: nat, w: nat, j: nat, i: nat, k: nat)
    ensures (j * cols + i) * w + k == j * (cols * w) + (i * w + k)
    ensures 0 <= i * w
  {
    assert (j * cols + i) * w == j * cols * w + i * w;
    assert j * cols * w == j * (cols * w);
  }

  lemma {:induction false} RowLength<T>(j: nat, cols: nat, cell: (nat, nat) -> seq<T>, w: nat)
    requires Width(cell, w)
    ensures |Row(j, cols, cell)| == cols * w
    decreases cols
  {
    if cols > 0 {
      var a, b := Row(j, cols - 1, cell), cell(j, cols - 1);
      assert Row(j, cols, cell) == a + b;
      RowLength(j, cols - 1, cell, w);
      assert |b| == w;
      assert (cols - 1) * w + w == cols * w;
    }
  }

  /** A `rows` x `cols` grid of cells that push `w` entries each pushes `rows * cols * w` entries. */
  lemma {:induction false} RowsLength<T>(rows: nat, cols: nat, cell: (nat, nat) -> seq<T>, w: nat)
    requires Width(cell, w)
    ensures |Rows(rows, cols, cell)| == rows * (cols * w)
    decreases rows
  {
    if rows > 0 {
      var a, b := Rows(rows - 1, cols, cell), Row(rows - 1, cols, cell);
      assert Rows(rows, cols, cell) == a + b;
      RowsLength(rows - 1, cols, cell, w);
      RowLength(rows - 1, cols, cell, w);
      assert (rows - 1) * (cols * w) + cols * w == rows * (cols * w);
    }
  }

  /** The first `n` iterations of a row push a prefix of what all `cols` push. */
  lemma {:induction false} RowPrefix<T>(j: nat, n: nat, cols: nat, cell: (nat, nat) -> seq<T>)
    requires n <= cols
    ensures Row(j, n, cell) <= Row(j, cols, cell)
    decreases cols
  {
    if n < cols {
      RowPrefix(j, n, cols - 1, cell);
      assert Row(j, cols, cell) == Row(j, cols - 1, cell) + cell(j, cols - 1);
    }
  }

  /** The first `n` rows push a prefix of what all `rows` push. */
  lemma {:induction false} RowsPrefix<T>(n: nat, rows: nat, cols: nat, cell: (nat, nat) -> seq<T>)
    requires n <= rows
    ensures Rows(n, cols, cell) <= Rows(rows, cols, cell)
    decreases rows
  {
    if n < rows {
      RowsPrefix(n, rows - 1, cols, cell);
      assert Rows(rows, cols, cell) == Rows(rows - 1, cols, cell) + Row(rows - 1, cols, cell);
    }
  }

  lemma RowAt<T>(j: nat, cols: nat, cell: (nat, nat) -> seq<T>, w: nat, i: nat, k: nat)
    requires Width(cell, w) && i < cols && k < w
    ensures i * w + k < |Row(j, cols, cell)| && Row(j, cols, cell)[i * w + k] == cell(j, i)[k]
  {
    var a, b := Row(j, i, cell), cell(j, i);
    assert Row(j, i + 1, cell) == a + b;
    RowLength(j, i, cell, w);
    RowPrefix(j, i + 1, cols, cell);
    assert (a + b)[i * w + k] == b[k];
  }

  /** Entry `k` of cell `(j, i)` sits at position `(j * cols + i) * w + k`: cells come row by row. */
  lemma RowsAt<T>(rows: nat, cols: nat, cell: (nat, nat) -> seq<T>, w: nat, j: nat, i: nat, k: nat)
    requires Width(cell, w) && j < rows && i < cols && k < w
    ensures (j * cols + i) * w + k < |Rows(rows, cols, cell)|
    ensures Rows(rows, cols, cell)[(j * cols + i) * w + k] == cell(j, i)[k]
  {
    var a, b := Rows(j, cols, cell), Row(j, cols, cell);
    assert Rows(j + 1, cols, cell) == a + b;
    RowsLength(j, cols, cell, w);
    RowsPrefix(j + 1, rows, cols, cell);
    RowAt(j, cols, cell, w, i, k);
    Split(cols, w, j, i, k);
    ConcatRight(a, b, i * w + k);
  }

  lemma ConcatRight<T>(a: seq<T>, b: seq<T>, x: nat)
    requires x < |b|
    ensures |a| + x < |a + b| && (a + b)[|a| + x] == b[x]
  {
  }

  lemma {:induction false} RowMember<T>(j: nat, cols: nat, cell: (nat, nat) -> seq<T>, x: T)
    requires x in Row(j, cols, cell)
    ensures exists i: nat :: i < cols && x in cell(j, i)
    decreases cols
  {
    var a, b := Row(j, cols - 1, cell), cell(j, cols - 1);
    assert Row(j, cols, cell) == a + b;
    if x in a {
      RowMember(j, cols - 1, cell, x);
    } else {
      assert x in b;
    }
  }

  /** Every entry of the grid's output comes from some cell inside the grid. */
  lemma {:induction false} RowsMember<T>(rows: nat, cols: nat, cell: (nat, nat) -> seq<T>, x: T)
    requires x in Rows(rows, cols, cell)
    ensures exists j: nat, i: nat :: j < rows && i < cols && x in cell(j, i)
    decreases rows
  {
    var a, b := Rows(rows - 1, cols, cell), Row(rows - 1, cols, cell);
    assert Rows(rows, cols, cell) == a + b;
    if x in a {
      RowsMember(rows - 1, cols, cell, x);
    } else {
      RowMember(rows - 1, cols, cell, x);
    }
  }
}
