/**
 The grid arithmetic of `main`: longest name, column width, column count
 clamped to [1, count] and row count ceil(count / cols).
 */
module Layout {
  import opened Wrappers
  import opened Cells

  /** Terminal width, in characters, assumed when the size cannot be queried. */
  const DEFAULT_WIDTH: nat := 80

  datatype Grid = Grid(colwidth: nat, cols: nat, rows: nat)

  /** The longest name length, computed over the names in order as the loop in `main` does. */
  function MaxLen(names: seq<string>): (m: nat)
    ensures forall i :: 0 <= i < |names| ==> |names[i]| <= m
    ensures |names| > 0 ==> exists i :: 0 <= i < |names| && |names[i]| == m
    ensures |names| == 0 ==> m == 0
  {
    if |names| == 0 then 0
    else
      var m := MaxLen(names[..|names| - 1]);
      var l := |names[|names| - 1]|;
      assert forall i :: 0 <= i < |names| - 1 ==> names[..|names| - 1][i] == names[i];
      if l > m then l else m
  }

  /**
   The terminal width: the width in character cells (`ws_col`) that
   `ioctl(TIOCGWINSZ)` reports when it succeeds with a positive value,
   DEFAULT_WIDTH otherwise; never zero.
   */
  function TerminalWidth(reported: Option<nat>): (w: nat)
    ensures w >= 1
    ensures reported.Some? && reported.value > 0 ==> w == reported.value
    ensures !(reported.Some? && reported.value > 0) ==> w == DEFAULT_WIDTH
  {
    if reported.Some? && reported.value > 0 then reported.value else DEFAULT_WIDTH
  }

  lemma DivBounds(a: nat, b: nat)
    requires b > 0
    ensures (a / b) * b <= a < (a / b + 1) * b
  {
  }

  lemma MulMono(x: nat, y: nat, k: nat)
    requires x <= y
    ensures x * k <= y * k
  {
  }

  /** ceil(n / k) written as (n + k - 1) / k: enough rows, and no row to spare. */
  lemma CeilDiv(n: nat, k: nat)
    requires n >= 1 && k >= 1
    ensures var q := (n + k - 1) / k; q * k >= n && (q - 1) * k < n && 1 <= q <= n
  {
    var q := (n + k - 1) / k;
    DivBounds(n + k - 1, k);
    assert q * k <= n + k - 1 < q * k + k;
    if q > n {
      MulMono(n + 1, q, k);
      assert (n + 1) * k == n * k + k;
      MulMono(1, n, k);
    }
  }

  /**
   The grid for a non-empty listing: the column width is the longest name,
   the column count is as many columns of width + spacing as the terminal
   holds, but at least one and at most one per name, and the rows are just
   enough to hold every name.
   */
  function ComputeGrid(names: seq<string>, termWidth: nat): (g: Grid)
    requires |names| >= 1
    ensures forall i :: 0 <= i < |names| ==> |names[i]| <= g.colwidth
    ensures exists i :: 0 <= i < |names| && |names[i]| == g.colwidth
    ensures 1 <= g.cols <= |names|
    ensures g.cols == 1 || g.cols * (g.colwidth + COL_SPACING) <= termWidth
    ensures g.cols == |names| || termWidth < (g.cols + 1) * (g.colwidth + COL_SPACING)
    ensures g.rows * g.cols >= |names|
    ensures (g.rows - 1) * g.cols < |names|
    ensures 1 <= g.rows <= |names|
  {
    var count := |names|;
    var colwidth := MaxLen(names);
    var total := colwidth + COL_SPACING;
    var fit := termWidth / total;
    var cols := if fit < 1 then 1 else if fit > count then count else fit;
    var rows := (count + cols - 1) / cols;
    DivBounds(termWidth, total);
    assert cols > 1 ==> cols * total <= termWidth by {
      if cols > 1 { MulMono(cols, fit, total); }
    }
    CeilDiv(count, cols);
    Grid(colwidth, cols, rows)
  }

  /** Names "alpha" and "b" on a 10-column terminal: width 5, one column, two rows. */
  lemma NarrowTerminalStacks()
    ensures ComputeGrid(["alpha", "b"], 10) == Grid(5, 1, 2)
  {
  }

  /** A name wider than the terminal still gets one column, never zero. */
  lemma OverwideNameGetsOneColumn(names: seq<string>, termWidth: nat)
    requires |names| >= 1
    requires exists i :: 0 <= i < |names| && |names[i]| + COL_SPACING > termWidth
    ensures ComputeGrid(names, termWidth).cols == 1
  {
    var g := ComputeGrid(names, termWidth);
    var i :| 0 <= i < |names| && |names[i]| + COL_SPACING > termWidth;
    if g.cols > 1 {
      MulMono(1, g.cols, g.colwidth + COL_SPACING);
    }
  }
}
