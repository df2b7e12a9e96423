# ls v1.5.0 column lister — Dafny model

This project models the core of `ls-v1.5.0`, a small directory lister. It
collects the names in one directory and drops `.` and `..`. It sorts the names
case-insensitively and lays them out in a grid that fits the terminal. It
prints the grid down then across, and colours each name by file type.

The model has seven modules (plus `Wrappers` for `Option`):

- `Names`: C-locale case folding, `ends_with` and `is_archive_name`.
  Characters stand for the bytes of a name. NAME_MAX is 255.
- `Order`: the `cmpstr`/`strcasecmp` order, sortedness, and a sort that
  stands in for `qsort`.
- `Classify`: the file mode (a kind plus three execute bits), the display
  styles, and the if/else chain that picks a style. The chain is also given
  as an explicit precedence list, and the two are proved equal.
- `Cells`: `print_name_colored` as a pure function. It returns one cell: the
  name, its style and the number of blanks after it. The filesystem is a map
  from full path to mode. A path of PATH_MAX (4096) characters or more, or a
  path missing from the map, means the metadata is unavailable. That is the
  `snprintf` overflow and the `lstat` failure.
- `Layout`: the longest name, the terminal width, and the grid (column width,
  column count, row count).
- `Render`: the down-then-across print loop, as two nested loops. `RenderRow`
  is the inner loop and `RenderGrid` the outer one. Output is a sequence of
  cells and row breaks. `Table`/`Emit` are its functional specification.
- `Listing`: `main` from collection to output.

Inputs that come from the operating system are parameters: the `readdir`
entries, the `lstat` results (a map), the terminal width, and the colour flag
(`isatty` and `NO_COLOR`).

Three facts about the code shape the model:

- The collection loop does not reject empty names. `qsort` is not stable, so
  the order of names that compare equal is unspecified. The model promises
  sortedness plus permutation and nothing more. Re-sorting a sorted list
  changes at most the order of names that fold alike (`Order.SortOfSorted`).
- The two fallback paths (path overflow, `lstat` failure) print no blanks
  when the blank count is negative. The normal path prints COL_SPACING blanks
  in that case. `FallbackPad` and `Pad` model the two separately.
- The normal path only floors the pad when it is negative. A name one or two
  characters wider than the column gets 1 or 0 blanks, not COL_SPACING
  (`PadFloorOnlyWhenNegative`). `main` never causes this, because the column
  width is the longest name (`ColumnsAlign`).

## Model

| member | source | states |
|---|---|---|
| Names.Lower | src/ls-v1.5.0.c:63 | C-locale `tolower`: the result is never an upper-case letter; an upper-case letter becomes the lower-case letter whose `toupper` it is; every other character is unchanged |
| Names.EndsWith | src/ls-v1.5.0.c:49-55 | a suffix longer than the string never matches; a match means the string is its prefix followed by the suffix, and every prefix-plus-suffix string matches |
| Names.ArchiveKey | src/ls-v1.5.0.c:60-64 | the archive test looks at the first min(length, NAME_MAX) characters of the name, each folded by `tolower`, and at nothing else |
| Names.IsArchiveName | src/ls-v1.5.0.c:57-70 | a name is an archive name exactly when its bounded, folded form is some stem followed by one of .tar, .tar.gz, .tgz, .gz, .zip |
| Names.LowerOfUpper | src/ls-v1.5.0.c:63 | folding an upper-cased name gives the same result as folding the name itself |
| Names.ArchiveIgnoresCase | src/ls-v1.5.0.c:57-70 | two names that fold to the same string get the same archive verdict |
| Names.ArchiveOfUpper | src/ls-v1.5.0.c:57-70 | a name and its upper-cased variant always get the same archive verdict |
| Names.ArchiveShortName | src/ls-v1.5.0.c:57-70 | for names within NAME_MAX: archive exactly when the folded name ends in .tar, .tgz, .gz or .zip (the .tar.gz test is subsumed by .gz) |
| Names.ArchiveAnyCaseSuffix | src/ls-v1.5.0.c:66-68 | a stem followed by any listed suffix, in any letter case, is an archive when the whole name fits in NAME_MAX |
| Names.UpperCaseTarGzIsArchive | src/ls-v1.5.0.c:57-70 | `archive.TAR.GZ` is an archive |
| Names.LongNameJudgedByPrefix | src/ls-v1.5.0.c:61-62 | a name longer than NAME_MAX is judged on its first NAME_MAX characters only |
| Order.CaseCmp | src/ls-v1.5.0.c:43-47 | the comparison's sign is -1, 0 or 1; it is 0 exactly when the two names fold to the same string, and negative exactly when the folded first name comes before the folded second in character-code lexicographic order (a proper prefix, or a smaller character at the first difference) |
| Order.CaseCmpFlip | src/ls-v1.5.0.c:43-47 | swapping the operands negates the comparison |
| Order.CaseCmpTotal | src/ls-v1.5.0.c:43-47 | any two names are ordered one way or the other |
| Order.CaseCmpTrans | src/ls-v1.5.0.c:43-47 | "sorts no later than" is transitive |
| Order.CaseCmpIgnoresCase | src/ls-v1.5.0.c:43-47 | names that fold alike compare alike against any third name |
| Order.Insert | src/ls-v1.5.0.c:164-165 | inserting into a sorted list keeps it sorted and adds exactly that one name |
| Order.Sort | src/ls-v1.5.0.c:164-165 | the result is ascending by case-folded comparison and is a permutation of the input |
| Order.SortedPermutationsAgree | src/ls-v1.5.0.c:164-165 | two sorted permutations of the same names have the same length and agree position by position up to case |
| Order.SortOfSorted | src/ls-v1.5.0.c:164-165 | re-sorting a sorted list changes at most the order of names that compare equal |
| Classify.ChooseStyle | src/ls-v1.5.0.c:98-114 | with colour off nothing is styled; otherwise each style is chosen exactly when its test holds and no earlier test does (link, directory, archive name, executable regular file, special file), else unstyled |
| Classify.FirstMatchIsEarliest | src/ls-v1.5.0.c:98-114 | a precedence list yields the style of its earliest rule that holds |
| Classify.FirstMatchNone | src/ls-v1.5.0.c:111-113 | when no rule holds the name is unstyled |
| Classify.ChooseStyleFollowsPrecedence | src/ls-v1.5.0.c:101-114 | with colour on, the if/else chain equals the precedence list link > directory > archive > executable > special |
| Classify.ExecutableArchiveIsArchive | src/ls-v1.5.0.c:105-108 | an executable regular file with an archive name is styled as an archive |
| Classify.ArchiveNamedLinkIsLink | src/ls-v1.5.0.c:101-106 | a symbolic link named `x.zip` is styled as a link |
| Cells.Lookup | src/ls-v1.5.0.c:78-93 | metadata is available exactly when the full path "dirpath/name" is shorter than PATH_MAX and `lstat` knows it, and then it is that path's mode |
| Cells.Pad | src/ls-v1.5.0.c:116-125 | name length plus blanks reaches column width plus COL_SPACING; a count that would be negative becomes COL_SPACING |
| Cells.FallbackPad | src/ls-v1.5.0.c:81-82 | the same alignment on the fallback paths, but a negative count prints no blanks |
| Cells.PadsAgreeWithinColumn | src/ls-v1.5.0.c:81-91 | for a name that fits its column, both paths pad alike and leave at least COL_SPACING blanks |
| Cells.PadFloorOnlyWhenNegative | src/ls-v1.5.0.c:123-124 | the floor applies only to negative counts: a name one wider than the column gets one blank |
| Cells.PrintNameColored | src/ls-v1.5.0.c:73-126 | the name is kept unaltered; path overflow, lstat failure or colour off all give an unstyled name, never an abort; available metadata gives the chain's style; a name within the column plus spacing is padded to exactly column width plus COL_SPACING; a longer name gets COL_SPACING blanks on the normal path and none on the fallback paths |
| Cells.ColorOnlyChangesStyle | src/ls-v1.5.0.c:98-125 | turning colour off changes no name and no padding, and leaves every name unstyled |
| Layout.MaxLen | src/ls-v1.5.0.c:167-172 | the result bounds every name length and equals some name's length (0 for no names) |
| Layout.TerminalWidth | src/ls-v1.5.0.c:174-177 | the reported width when the query succeeds with a positive value; 80 when it fails or reports zero; never zero |
| Layout.CeilDiv | src/ls-v1.5.0.c:185 | (n + k - 1) / k rows hold n items with no spare row, and lie between 1 and n |
| Layout.ComputeGrid | src/ls-v1.5.0.c:168-185 | column width is the longest name; 1 <= cols <= count; cols columns fit the terminal unless cols is 1, and one more would not fit unless cols is count; rows*cols >= count > (rows-1)*cols; 1 <= rows <= count |
| Layout.NarrowTerminalStacks | src/ls-v1.5.0.c:179-185 | "alpha" and "b" at width 10 give column width 5, one column and two rows |
| Layout.OverwideNameGetsOneColumn | src/ls-v1.5.0.c:181-182 | a name wider than the terminal forces exactly one column |
| Render.RowIndices | src/ls-v1.5.0.c:192-195 | a row visits at most one index per column, and every index it prints is below the entry count |
| Render.RowIndicesShape | src/ls-v1.5.0.c:192-195 | the columns a row prints form a prefix: position c holds c*rows + r, and column c is printed exactly when c*rows + r < count |
| Render.RowIndicesStep | src/ls-v1.5.0.c:193-194 | one more column adds its index if it exists and nothing otherwise |
| Render.Table | src/ls-v1.5.0.c:191-198 | the grid has one index row per output row, row r lists what the print loop visits on row r, and every index in it is below the entry count |
| Render.RenderRow | src/ls-v1.5.0.c:192-196 | the inner loop emits the row's cells in column order, skipping missing indices |
| Render.RenderGrid | src/ls-v1.5.0.c:191-198 | the nested loop emits, row by row, that row's cells and then one newline, so the output holds exactly `rows` newlines |
| Render.EntryPosition | src/ls-v1.5.0.c:191-198 | when rows*cols covers the entries, entry i is printed on row i mod rows as that row's (i div rows)-th cell |
| Render.CellHoldsItsEntry | src/ls-v1.5.0.c:193-194 | any printed cell at row r, position c holds an entry below count with r = i mod rows and c = i div rows |
| Render.EntriesDistinct | src/ls-v1.5.0.c:191-198 | no entry is printed twice: two cells holding the same entry are the same cell |
| Render.NoEmptyRow | src/ls-v1.5.0.c:185-198 | when rows <= count, every row prints at least one entry |
| Render.OneNewlinePerRow | src/ls-v1.5.0.c:191-198 | the output has exactly one newline per row and ends with a newline |
| Listing.Collect | src/ls-v1.5.0.c:144-156 | the collection holds every readdir entry except `.` and `..`, each as often as it was read |
| Listing.CellsOf | src/ls-v1.5.0.c:191-198 | one cell per sorted name, in order, each keeping its name; colour off leaves every cell unstyled; with metadata available a cell gets the style the chain picks for its name and mode, and without it the cell is unstyled; when every name fits the column width, every cell ends at column width plus COL_SPACING with at least COL_SPACING blanks |
| Listing.List | src/ls-v1.5.0.c:128-204 | the printed names are a sorted permutation of the collection; an empty collection prints nothing; otherwise the output is the down-then-across rendering of the grid computed for the terminal width (the reported one, or 80) |
| Listing.ListingPlacement | src/ls-v1.5.0.c:179-198 | in a listing, entry i is printed on row i mod rows as that row's (i div rows)-th cell, for the rows and columns `main` computes |
| Listing.ColumnsAlign | src/ls-v1.5.0.c:116-125 | in a listing, every name plus its padding is exactly column width plus COL_SPACING, with at least COL_SPACING blanks |
| Listing.LinesOfListing | src/ls-v1.5.0.c:185-198 | a listing prints one line per grid row, and no row is empty |
| Listing.DotsNeverListed | src/ls-v1.5.0.c:145-146 | `.` and `..` never appear among the listed names |
| Listing.ExampleSortedUnique | src/ls-v1.5.0.c:164-165 | the only sorted arrangement of "b.txt", "A.txt", "dir1" is "A.txt", "b.txt", "dir1" |
| Listing.SortsIgnoringCase | src/ls-v1.5.0.c:43-47 | sorting "b.txt", "A.txt", "dir1" gives "A.txt", "b.txt", "dir1", and a directory "dir1" is styled as a directory |

## Left out

- The path argument and its default `.`: `dirpath` is an input.
- Directory reading (`opendir`, `readdir`, `closedir`): the entries are an input sequence.
- `lstat`: its results are a map from full path to mode. A missing key is a failed call.
- `ioctl(TIOCGWINSZ)`, `isatty` and `getenv("NO_COLOR")`: the reported width and the colour flag are inputs.
- `printf`/`putchar` bytes and the ANSI escape strings: output is a sequence of cells (name, style, blank count) and newlines.
- `malloc`/`realloc`/`strdup` growth and their failure paths, which stop collecting early or exit with 1: the collection is an unbounded sequence.
- The stderr diagnostics and the exit codes 0, 1 and 2: plumbing with no logic.
- The null-pointer checks in `ends_with` and `is_archive_name`: Dafny strings are never null.
- Order.CaseCmp: returns only the sign of `strcasecmp`'s result, which is all `qsort` reads.
- Order.Sort: an insertion sort stands in for `qsort`. Only sortedness and permutation are promised, as for `qsort`. The order of names that compare equal is not modelled.
- C `int`/`size_t` widths and overflow: all counts are unbounded integers. The fixed path buffer becomes the PATH_MAX test in `Cells.Lookup`.
