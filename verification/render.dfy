/**
 The down-then-across print loop of `main`: row by row, each row visiting the
 columns left to right and printing entry `c * rows + r` when it exists, then
 a newline. Output is a sequence of cells and row breaks.
 */
module Render {
  import opened Cells
  import opened Layout

  datatype Token = Put(cell: Cell) | Newline

  /**
   The entry indices row `r` prints among its first `k` columns: column `c`
   contributes `c * rows + r` unless that index is past the last entry.
   */
  function RowIndices(count: nat, rows: nat, r: nat, k: nat): (idx: seq<nat>)
    ensures |idx| <= k
    ensures RowBelow(idx, count)
  {
    if k == 0 then []
    else
      var prev := RowIndices(count, rows, r, k - 1);
      var i := (k - 1) * rows + r;
      if i < count then prev + [i] else prev
  }

  /**
   The columns that survive the skip form a prefix of the row, so position
   `c` of the row holds column `c`, whose entry is `c * rows + r`.
   */
  lemma {:induction false} RowIndicesShape(count: nat, rows: nat, r: nat, k: nat)
    ensures var idx := RowIndices(count, rows, r, k);
      (forall c :: 0 <= c < |idx| ==> idx[c] == c * rows + r) &&
      (forall c :: 0 <= c < k ==> (c < |idx| <==> c * rows + r < count))
  {
    if k > 0 {
      RowIndicesShape(count, rows, r, k - 1);
      var i := (k - 1) * rows + r;
      if i < count {
        forall c | 0 <= c < k - 1 ensures c * rows + r < count {
          MulMono(c, k - 1, rows);
        }
      }
    }
  }

  /** One more column adds its entry when it exists and nothing otherwise. */
  lemma RowIndicesStep(count: nat, rows: nat, r: nat, c: nat)
    ensures RowIndices(count, rows, r, c + 1) ==
      if c * rows + r < count then RowIndices(count, rows, r, c) + [c * rows + r]
      else RowIndices(count, rows, r, c)
  {
  }

  /** The grid of entry indices, one sequence per row. */
  function Table(count: nat, rows: nat, cols: nat): (t: seq<seq<nat>>)
    ensures |t| == rows
    ensures forall r :: 0 <= r < rows ==> t[r] == RowIndices(count, rows, r, cols)
    ensures IndicesBelow(t, count)
  {
    seq(rows, r requires 0 <= r < rows => RowIndices(count, rows, r, cols))
  }

  predicate RowBelow(idx: seq<nat>, count: nat) {
    forall c :: 0 <= c < |idx| ==> idx[c] < count
  }

  predicate IndicesBelow(t: seq<seq<nat>>, count: nat) {
    forall r :: 0 <= r < |t| ==> RowBelow(t[r], count)
  }

  /** The column entry i falls in when every column holds `rows` entries. */
  function ColumnOf(i: nat, rows: nat): nat
    requires rows >= 1
  {
    i / rows
  }

  /** Row `r` of table `t` prints entry `i` as its `c`-th cell. */
  predicate PrintedAt(t: seq<seq<nat>>, i: nat, r: nat, c: nat) {
    r < |t| && c < |t[r]| && t[r][c] == i
  }

  /** The cells of one row, in column order. */
  function EmitRow(cells: seq<Cell>, idx: seq<nat>): seq<Token>
    requires RowBelow(idx, |cells|)
  {
    if |idx| == 0 then []
    else EmitRow(cells, idx[..|idx| - 1]) + [Put(cells[idx[|idx| - 1]])]
  }

  /** The whole output: every row's cells followed by a newline, top to bottom. */
  function Emit(cells: seq<Cell>, t: seq<seq<nat>>): seq<Token>
    requires IndicesBelow(t, |cells|)
  {
    if |t| == 0 then []
    else Emit(cells, t[..|t| - 1]) + EmitRow(cells, t[|t| - 1]) + [Newline]
  }

  lemma EmitRowSnoc(cells: seq<Cell>, idx: seq<nat>, i: nat)
    requires RowBelow(idx, |cells|)
    requires i < |cells|
    ensures EmitRow(cells, idx + [i]) == EmitRow(cells, idx) + [Put(cells[i])]
  {
    assert (idx + [i])[..|idx|] == idx;
  }

  lemma EmitSnoc(cells: seq<Cell>, t: seq<seq<nat>>, row: seq<nat>)
    requires IndicesBelow(t, |cells|) && RowBelow(row, |cells|)
    ensures IndicesBelow(t + [row], |cells|)
    ensures Emit(cells, t + [row]) == Emit(cells, t) + EmitRow(cells, row) + [Newline]
  {
    assert (t + [row])[..|t|] == t;
  }

  /** The inner loop: one row's cells, left to right, skipping missing entries. */
  method RenderRow(cells: seq<Cell>, rows: nat, cols: nat, r: nat) returns (line: seq<Token>)
    ensures RowBelow(RowIndices(|cells|, rows, r, cols), |cells|)
    ensures line == EmitRow(cells, RowIndices(|cells|, rows, r, cols))
  {
    var count := |cells|;
    line := [];
    var c := 0;
    while c < cols
      invariant 0 <= c <= cols
      invariant line == EmitRow(cells, RowIndices(count, rows, r, c))
    {
      var i := c * rows + r;
      ghost var prev := RowIndices(count, rows, r, c);
      RowIndicesStep(count, rows, r, c);
      if i < count {
        assert RowIndices(count, rows, r, c + 1) == prev + [i];
        EmitRowSnoc(cells, prev, i);
        line := line + [Put(cells[i])];
      } else {
        assert RowIndices(count, rows, r, c + 1) == prev;
      }
      c := c + 1;
    }
  }

  /** The print loop of `main`: every row, then a newline after it. */
  method RenderGrid(cells: seq<Cell>, rows: nat, cols: nat) returns (out: seq<Token>)
    ensures out == Emit(cells, Table(|cells|, rows, cols))
    ensures NewlineCount(out) == rows
  {
    var count := |cells|;
    ghost var t := Table(count, rows, cols);
    out := [];
    var r := 0;
    while r < rows
      invariant 0 <= r <= rows
      invariant IndicesBelow(t[..r], count)
      invariant out == Emit(cells, t[..r])
    {
      var line := RenderRow(cells, rows, cols, r);
      assert t[r] == RowIndices(count, rows, r, cols);
      assert t[..r + 1] == t[..r] + [t[r]];
      EmitSnoc(cells, t[..r], t[r]);
      out := out + line + [Newline];
      r := r + 1;
    }
    assert t[..rows] == t;
    OneNewlinePerRow(cells, t);
  }

  lemma DivModUnique(i: nat, rows: nat, r: nat, c: nat)
    requires rows >= 1 && r < rows && i == c * rows + r
    ensures i / rows == c && i % rows == r
  {
    var q := i / rows;
    assert i == q * rows + i % rows;
    if q < c {
      MulMono(q + 1, c, rows);
    } else if q > c {
      MulMono(c + 1, q, rows);
    }
  }

  /** With room for every entry, the column of entry `i` is a real column. */
  lemma ColumnExists(count: nat, rows: nat, cols: nat, i: nat)
    requires rows >= 1 && rows * cols >= count && i < count
    ensures i / rows < cols
    ensures i == (i / rows) * rows + i % rows
  {
    var c := i / rows;
    if c >= cols {
      MulMono(cols, c, rows);
    }
  }

  /**
   Entry `i` is printed on row `i mod rows`, as the `i div rows`-th cell of that
   row, provided the grid has room for every entry.
   */
  lemma EntryPosition(count: nat, rows: nat, cols: nat, i: nat)
    requires rows >= 1 && rows * cols >= count && i < count
    ensures PrintedAt(Table(count, rows, cols), i, i % rows, i / rows)
  {
    var r := i % rows;
    var c := i / rows;
    ColumnExists(count, rows, cols, i);
    var idx := RowIndices(count, rows, r, cols);
    RowIndicesShape(count, rows, r, cols);
    assert c < cols ==> (c < |idx| <==> c * rows + r < count);
    assert c < |idx|;
    assert idx[c] == c * rows + r;
  }

  /** Whatever a cell of the table holds, it sits at that entry's own position. */
  lemma CellHoldsItsEntry(count: nat, rows: nat, cols: nat, r: nat, c: nat)
    requires rows >= 1 && r < rows && c < |Table(count, rows, cols)[r]|
    ensures var i := Table(count, rows, cols)[r][c]; i < count && r == i % rows && c == i / rows
  {
    RowIndicesShape(count, rows, r, cols);
    DivModUnique(Table(count, rows, cols)[r][c], rows, r, c);
  }

  /** No entry is printed twice: distinct cells of the table hold distinct entries. */
  lemma EntriesDistinct(count: nat, rows: nat, cols: nat, r: nat, c: nat, r': nat, c': nat)
    requires rows >= 1
    requires r < rows && c < |Table(count, rows, cols)[r]|
    requires r' < rows && c' < |Table(count, rows, cols)[r']|
    requires Table(count, rows, cols)[r][c] == Table(count, rows, cols)[r'][c']
    ensures r == r' && c == c'
  {
    CellHoldsItsEntry(count, rows, cols, r, c);
    CellHoldsItsEntry(count, rows, cols, r', c');
  }

  /** With rows = ceil(count / cols), every row prints at least its first column. */
  lemma NoEmptyRow(count: nat, rows: nat, cols: nat, r: nat)
    requires cols >= 1 && rows <= count && r < rows
    ensures |Table(count, rows, cols)[r]| >= 1
  {
    RowIndicesShape(count, rows, r, cols);
    assert 0 * rows + r < count;
  }

  function NewlineCount(out: seq<Token>): nat {
    if |out| == 0 then 0
    else NewlineCount(out[..|out| - 1]) + (if out[|out| - 1] == Newline then 1 else 0)
  }

  lemma {:induction false} NewlineCountAppend(a: seq<Token>, b: seq<Token>)
    ensures NewlineCount(a + b) == NewlineCount(a) + NewlineCount(b)
    decreases |b|
  {
    if |b| == 0 {
      assert a + b == a;
    } else {
      assert (a + b)[..|a + b| - 1] == a + b[..|b| - 1];
      NewlineCountAppend(a, b[..|b| - 1]);
    }
  }

  lemma {:induction false} EmitRowHasNoNewline(cells: seq<Cell>, idx: seq<nat>)
    requires RowBelow(idx, |cells|)
    ensures NewlineCount(EmitRow(cells, idx)) == 0
    decreases |idx|
  {
    if |idx| > 0 {
      EmitRowHasNoNewline(cells, idx[..|idx| - 1]);
      NewlineCountAppend(EmitRow(cells, idx[..|idx| - 1]), [Put(cells[idx[|idx| - 1]])]);
    }
  }

  /** Each row ends with exactly one newline, so the output has one newline per row. */
  lemma {:induction false} OneNewlinePerRow(cells: seq<Cell>, t: seq<seq<nat>>)
    requires IndicesBelow(t, |cells|)
    ensures NewlineCount(Emit(cells, t)) == |t|
    ensures |t| > 0 ==> Emit(cells, t)[|Emit(cells, t)| - 1] == Newline
    decreases |t|
  {
    if |t| > 0 {
      var front := t[..|t| - 1];
      OneNewlinePerRow(cells, front);
      EmitRowHasNoNewline(cells, t[|t| - 1]);
      NewlineCountAppend(Emit(cells, front), EmitRow(cells, t[|t| - 1]));
      NewlineCountAppend(Emit(cells, front) + EmitRow(cells, t[|t| - 1]), [Newline]);
    }
  }
}
