/**
 One grid cell as `print_name_colored` writes it: the name, the style wrapped
 around it and the spaces after it. The metadata lookup (`snprintf` of the full
 path, then `lstat`) is modelled with the filesystem as a map from full path to
 mode; a path too long for the buffer or a missing entry means the metadata is
 unavailable.
 */
module Cells {
  import opened Wrappers
  import opened Classify

  /** COL_SPACING: blanks between two columns. */
  const COL_SPACING: nat := 2

  /** PATH_MAX on Linux: the size of the full-path buffer, terminator included. */
  const PATH_MAX: nat := 4096

  /** What is written for one entry: the bare name, its style and the trailing blanks. */
  datatype Cell = Cell(name: string, style: Style, pad: nat)

  function FullPath(dirpath: string, name: string): string {
    dirpath + "/" + name
  }

  /** `lstat` of "dirpath/name", or None when the path overflows the buffer or lstat fails. */
  function Lookup(dirpath: string, name: string, fs: map<string, Mode>): (m: Option<Mode>)
    ensures m.Some? <==> |FullPath(dirpath, name)| < PATH_MAX && FullPath(dirpath, name) in fs
    ensures m.Some? ==> m.value == fs[FullPath(dirpath, name)]
  {
    if |dirpath| + 1 + |name| >= PATH_MAX then None
    else if FullPath(dirpath, name) in fs then Some(fs[FullPath(dirpath, name)])
    else None
  }

  /**
   Blanks after a name on the normal path: enough to reach the column width
   plus the spacing; a negative count is replaced by COL_SPACING.
   */
  function Pad(colwidth: nat, len: nat): (p: nat)
    ensures len <= colwidth + COL_SPACING ==> len + p == colwidth + COL_SPACING
    ensures len > colwidth + COL_SPACING ==> p == COL_SPACING
  {
    var p := colwidth - len + COL_SPACING;
    if p < 0 then COL_SPACING else p
  }

  /**
   Blanks after a name on the two fallback paths: the same count, but a
   negative count prints no blanks at all.
   */
  function FallbackPad(colwidth: nat, len: nat): (p: nat)
    ensures len <= colwidth + COL_SPACING ==> len + p == colwidth + COL_SPACING
    ensures len > colwidth + COL_SPACING ==> p == 0
  {
    var p := colwidth - len + COL_SPACING;
    if p < 0 then 0 else p
  }

  /**
   For any name that fits its column, both paths pad alike and leave at least
   COL_SPACING blanks.
   */
  lemma PadsAgreeWithinColumn(colwidth: nat, len: nat)
    requires len <= colwidth
    ensures Pad(colwidth, len) == FallbackPad(colwidth, len) >= COL_SPACING
  {
  }

  /**
   The floor on the normal path only catches negative counts: a name one
   character wider than its column gets a single blank.
   */
  lemma PadFloorOnlyWhenNegative(colwidth: nat)
    ensures Pad(colwidth, colwidth + 1) == 1 < COL_SPACING
  {
  }

  /**
   `print_name_colored`: the name is always written, unaltered; its style comes
   from the chain when the metadata is available and is `Unstyled` otherwise;
   padding depends on the unstyled length only.
   */
  function PrintNameColored(dirpath: string, name: string, colorEnabled: bool,
                            colwidth: nat, fs: map<string, Mode>): (cell: Cell)
    ensures cell.name == name
    ensures !colorEnabled ==> cell.style == Unstyled
    ensures |dirpath| + 1 + |name| >= PATH_MAX ==> cell.style == Unstyled
    ensures FullPath(dirpath, name) !in fs ==> cell.style == Unstyled
    ensures Lookup(dirpath, name, fs).Some? ==>
      cell.style == ChooseStyle(name, Lookup(dirpath, name, fs).value, colorEnabled)
    ensures |name| <= colwidth + COL_SPACING ==> |name| + cell.pad == colwidth + COL_SPACING
    ensures |name| > colwidth + COL_SPACING ==>
      cell.pad == (if Lookup(dirpath, name, fs).Some? then COL_SPACING else 0)
  {
    match Lookup(dirpath, name, fs)
    case None => Cell(name, Unstyled, FallbackPad(colwidth, |name|))
    case Some(m) => Cell(name, ChooseStyle(name, m, colorEnabled), Pad(colwidth, |name|))
  }

  /** Turning colour off changes no name and no padding, only the styles. */
  lemma ColorOnlyChangesStyle(dirpath: string, name: string, colwidth: nat, fs: map<string, Mode>)
    ensures PrintNameColored(dirpath, name, true, colwidth, fs).name
         == PrintNameColored(dirpath, name, false, colwidth, fs).name
    ensures PrintNameColored(dirpath, name, true, colwidth, fs).pad
         == PrintNameColored(dirpath, name, false, colwidth, fs).pad
    ensures PrintNameColored(dirpath, name, false, colwidth, fs).style == Unstyled
  {
  }
}
