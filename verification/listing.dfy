/**
 The listing pipeline of `main`: collect the directory entries without `.` and
 `..`, sort them, lay out the grid and print it. Reading the directory, the
 terminal query and the colour decision are inputs.
 */
module Listing {
  import opened Wrappers
  import opened Order
  import opened Classify
  import opened Cells
  import opened Layout
  import opened Render

  predicate IsDotEntry(name: string) {
    name == "." || name == ".."
  }

  /**
   The collection loop: every entry `readdir` returned except `.` and `..`,
   each as often as it was returned, in the order returned.
   */
  function Collect(entries: seq<string>): (names: seq<string>)
    ensures forall i :: 0 <= i < |names| ==> !IsDotEntry(names[i])
    ensures forall x :: multiset(names)[x] == if IsDotEntry(x) then 0 else multiset(entries)[x]
  {
    if |entries| == 0 then []
    else
      var front := entries[..|entries| - 1];
      var last := entries[|entries| - 1];
      assert entries == front + [last];
      var rest := Collect(front);
      if IsDotEntry(last) then rest else rest + [last]
  }

  /**
   The cells for the sorted names, in index order: each keeps its name, colour
   off leaves all of them unstyled, and when every name fits the column each
   one is padded out to the same end column.
   */
  function CellsOf(dirpath: string, names: seq<string>, colorEnabled: bool,
                   colwidth: nat, fs: map<string, Mode>): (cells: seq<Cell>)
    ensures |cells| == |names|
    ensures forall i :: 0 <= i < |names| ==> cells[i].name == names[i]
    ensures !colorEnabled ==> forall i :: 0 <= i < |cells| ==> cells[i].style == Unstyled
    ensures (forall i :: 0 <= i < |names| ==> |names[i]| <= colwidth) ==>
      forall i :: 0 <= i < |cells| ==>
        |cells[i].name| + cells[i].pad == colwidth + COL_SPACING && cells[i].pad >= COL_SPACING
    ensures forall i :: 0 <= i < |cells| && Lookup(dirpath, names[i], fs).Some? ==>
      cells[i].style == ChooseStyle(names[i], Lookup(dirpath, names[i], fs).value, colorEnabled)
    ensures forall i :: 0 <= i < |cells| && Lookup(dirpath, names[i], fs).None? ==>
      cells[i].style == Unstyled
  {
    seq(|names|, i requires 0 <= i < |names| => PrintNameColored(dirpath, names[i], colorEnabled, colwidth, fs))
  }

  /**
   The whole listing. An empty collection prints nothing; otherwise the names
   are sorted, the grid is computed from their lengths and the terminal width
   (the reported one, or DEFAULT_WIDTH when none is usable), and the grid is
   printed down then across.
   */
  method List(dirpath: string, entries: seq<string>, fs: map<string, Mode>,
              reported: Option<nat>, colorEnabled: bool)
    returns (names: seq<string>, out: seq<Token>)
    ensures multiset(names) == multiset(Collect(entries))
    ensures Sorted(names)
    ensures |names| == 0 ==> out == []
    ensures |names| > 0 ==>
      var g := ComputeGrid(names, TerminalWidth(reported));
      var cells := CellsOf(dirpath, names, colorEnabled, g.colwidth, fs);
      out == Emit(cells, Table(|names|, g.rows, g.cols))
  {
    names := Sort(Collect(entries));
    if |names| == 0 {
      out := [];
      return;
    }
    var termWidth := TerminalWidth(reported);
    var g := ComputeGrid(names, termWidth);
    var cells := CellsOf(dirpath, names, colorEnabled, g.colwidth, fs);
    out := RenderGrid(cells, g.rows, g.cols);
  }

  /** Every printed cell ends at the same column: name plus padding is width plus spacing. */
  lemma ColumnsAlign(dirpath: string, names: seq<string>, termWidth: nat,
                     colorEnabled: bool, fs: map<string, Mode>, i: nat)
    requires |names| >= 1 && i < |names|
    ensures var g := ComputeGrid(names, termWidth);
      var cell := CellsOf(dirpath, names, colorEnabled, g.colwidth, fs)[i];
      |cell.name| + cell.pad == g.colwidth + COL_SPACING && cell.pad >= COL_SPACING
  {
  }

  /** The listing has one line per grid row, none of them empty. */
  lemma LinesOfListing(dirpath: string, names: seq<string>, termWidth: nat,
                       colorEnabled: bool, fs: map<string, Mode>)
    requires |names| >= 1
    ensures var g := ComputeGrid(names, termWidth);
      var t := Table(|names|, g.rows, g.cols);
      var cells := CellsOf(dirpath, names, colorEnabled, g.colwidth, fs);
      NewlineCount(Emit(cells, t)) == g.rows &&
      forall r :: 0 <= r < g.rows ==> |t[r]| >= 1
  {
    var g := ComputeGrid(names, termWidth);
    var t := Table(|names|, g.rows, g.cols);
    var cells := CellsOf(dirpath, names, colorEnabled, g.colwidth, fs);
    OneNewlinePerRow(cells, t);
    forall r | 0 <= r < g.rows ensures |t[r]| >= 1 {
      NoEmptyRow(|names|, g.rows, g.cols, r);
    }
  }

  /** Entry i of a listing is printed on row i mod rows as that row's (i div rows)-th cell. */
  lemma ListingPlacement(names: seq<string>, termWidth: nat, i: nat)
    requires |names| >= 1 && i < |names|
    ensures var g := ComputeGrid(names, termWidth);
      g.rows >= 1 && PrintedAt(Table(|names|, g.rows, g.cols), i, i % g.rows, ColumnOf(i, g.rows))
  {
    var g := ComputeGrid(names, termWidth);
    EntryPosition(|names|, g.rows, g.cols, i);
  }

  /** `.` and `..` never reach the output. */
  lemma DotsNeverListed(entries: seq<string>, names: seq<string>)
    requires multiset(names) == multiset(Collect(entries))
    ensures "." !in names && ".." !in names
  {
    assert multiset(names)["."] == 0;
    assert multiset(names)[".."] == 0;
  }

  /** The three example names compare in the order "A.txt", "b.txt", "dir1". */
  lemma ExampleOrder()
    ensures CaseCmp("A.txt", "b.txt") == -1 && CaseCmp("b.txt", "A.txt") == 1
    ensures CaseCmp("b.txt", "dir1") == -1 && CaseCmp("dir1", "b.txt") == 1
    ensures CaseCmp("A.txt", "dir1") == -1 && CaseCmp("dir1", "A.txt") == 1
  {
    assert CaseCmp("A.txt", "b.txt") == -1;
    assert CaseCmp("b.txt", "dir1") == -1;
    assert CaseCmp("A.txt", "dir1") == -1;
    CaseCmpFlip("A.txt", "b.txt");
    CaseCmpFlip("b.txt", "dir1");
    CaseCmpFlip("A.txt", "dir1");
  }

  /** The example names in sorted order. */
  lemma ExampleSorted()
    ensures Sorted(["A.txt", "b.txt", "dir1"])
  {
    ExampleOrder();
  }

  /** Any arrangement of the example names holds only those three names. */
  lemma ExampleMembers(r: seq<string>, i: nat)
    requires multiset(r) == multiset(["b.txt", "A.txt", "dir1"]) && i < |r|
    ensures r[i] == "A.txt" || r[i] == "b.txt" || r[i] == "dir1"
  {
    assert r[i] in multiset(r);
  }

  /** No two different example names compare equal. */
  lemma ExampleSlot(x: string, y: string)
    requires x == "A.txt" || x == "b.txt" || x == "dir1"
    requires y == "A.txt" || y == "b.txt" || y == "dir1"
    requires CaseCmp(x, y) == 0
    ensures x == y
  {
    ExampleOrder();
  }

  /** An arrangement of the example names that folds like the sorted one is the sorted one. */
  lemma ExampleFoldsPinNames(r: seq<string>)
    requires multiset(r) == multiset(["b.txt", "A.txt", "dir1"]) && |r| == 3
    requires CaseCmp(r[0], "A.txt") == 0 && CaseCmp(r[1], "b.txt") == 0 && CaseCmp(r[2], "dir1") == 0
    ensures r == ["A.txt", "b.txt", "dir1"]
  {
    ExampleMembers(r, 0);
    ExampleMembers(r, 1);
    ExampleMembers(r, 2);
    ExampleSlot(r[0], "A.txt");
    ExampleSlot(r[1], "b.txt");
    ExampleSlot(r[2], "dir1");
  }

  /** The only sorted arrangement of the three example names. */
  lemma ExampleSortedUnique(r: seq<string>)
    requires Sorted(r)
    requires multiset(r) == multiset(["b.txt", "A.txt", "dir1"])
    ensures r == ["A.txt", "b.txt", "dir1"]
  {
    var s := ["A.txt", "b.txt", "dir1"];
    ExampleSorted();
    assert multiset(s) == multiset(r);
    SortOfSorted(s, r);
    assert CaseCmp(r[0], s[0]) == 0 && CaseCmp(r[1], s[1]) == 0 && CaseCmp(r[2], s[2]) == 0;
    ExampleFoldsPinNames(r);
  }

  /**
   Example listing: "b.txt", "A.txt" and the directory "dir1" sort to
   "A.txt", "b.txt", "dir1", and with colour on "dir1" gets the directory
   style.
   */
  lemma SortsIgnoringCase()
    ensures Sort(["b.txt", "A.txt", "dir1"]) == ["A.txt", "b.txt", "dir1"]
    ensures ChooseStyle("dir1", Mode(Dir, true, true, true), true) == Directory
  {
    ExampleSortedUnique(Sort(["b.txt", "A.txt", "dir1"]));
  }
}
