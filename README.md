# spacecheck, modelled in Dafny

spacecheck prints, for every entry of the current working directory, the total
size of the regular files under it, followed by a grand total. This project
models the whole of its `main.go` except the process and filesystem plumbing:

- `wrappers.dfy` (`Wrappers`): the `Option` type used for panics and errors.
- `text.dfy` (`Text`): the parts of Go's formatting the report uses.
  These are `strings.Repeat(" ", n)`, the decimal `%v` of a non-negative
  integer and the right-justifying `%6v` field.
- `size_format.dfy` (`SizeFormat`): `DirSize.Format`.
  - It pads the name to the column width.
  - It then scans the units B, K, M, G, T, P. At each step it checks the value
    in the next unit: below 1 it prints the current unit, below 999 it prints
    the next unit, otherwise it goes on.
  - The last unit P is printed without a field width.
  - The function `Scan` states the unit choice. The method `Format` keeps
    the source's loop with early breaks and is proved equal to `FormatSpec`.
- `report.dfy` (`Report`): `PrintSizes`. It returns the lines it would print
  rather than writing them.
  - A first loop finds the widest name.
  - A second loop formats every entry and sums the raw sizes.
  - Then comes a blank line and the "Total is" row.
- `walk.dfy` (`Walk`): `IterDirs` and `CheckSize` over an abstract tree of
  `RegularFile(size)`, `Dir(children)` and `Other` nodes.
  - `CheckSize` is a depth-first walk with an explicit stack of pending nodes
    and a mutable `size` accumulator.
  - `IterDirs` loops over the top-level listing, skips and filters entries, and
    appends one row per kept entry.

Byte counts are `nat`: the right shift `size >> (10 * i)` on a non-negative count
is division by 1024^i (`SizeFormat.Shifted`).

Behaviour of `main.go` worth knowing:

- **Short names make the total row panic.** The "Total is" row is formatted at
  the width of the longest entry name. When that width is below 8, for example
  when every name is shorter than "Total is" or the directory is empty,
  `strings.Repeat` gets a negative count and panics. It does not pad with zero
  spaces. The entry rows are already printed by then. `Report.Output.panicked`
  records this.
- **A top-level regular file counts its own size.** `fs.WalkDir` on a file
  visits that file, so its size is counted and not reported as 0.
- **An unreadable file still counts.** The walk never opens files. Only a
  directory whose listing fails loses entries: its `children` are the entries
  its listing produced.
- **Only one walk error is fatal.** The walk function receives no directory
  entry (`d == nil`) only when `fs.WalkDir` cannot stat the walk root itself.
  `Listed.statOk` models that case, the single fatal walk error. Every other
  error reaches the callback with an entry; it is logged and the walk goes on.

## Model

| member | source | states |
|---|---|---|
| `Text.DecimalRoundTrip` | main.go:124 | the decimal rendering of a count reads back as that count, and starts with '0' only for 0 (no leading zeros) |
| `Text.DecimalLength` | main.go:129 | a count below 10^k is rendered in at most k digits |
| `Text.PadLeft` | main.go:129 | the `%6v` field is as long as the wider of the text and the width, so the text is never truncated |
| `Text.PadLeftShape` | main.go:129 | the `%6v` field ends with the text and is blank before it: the text right-justified with spaces |
| `SizeFormat.Scan` | main.go:122-136 | the unit chosen from index i on is at index i or later, and only the last unit is printed unpadded |
| `SizeFormat.ScanValue` | main.go:124-133 | the value printed is the byte count shifted to the chosen unit |
| `SizeFormat.Format` | main.go:115-138 | the loop with early breaks returns `FormatSpec`: no row (the `strings.Repeat` panic) when the width is below the name's length, otherwise the padded name and the size field of the chosen unit |
| `SizeFormat.ShiftedIsShift` | main.go:127 | the value in unit i is the count shifted right by 10*i bits |
| `SizeFormat.ShiftedStep` | main.go:124-133 | the value in the next unit is the value in this unit divided by 1024, rounded down |
| `SizeFormat.ShiftedMonotone` | main.go:127 | shifting a count further never gives a larger value |
| `SizeFormat.RenderFirstFit` | main.go:122-135 | for the first index i below 5 whose next-unit value is under 999: a value of at least 1 prints that value with unit i+1, otherwise the value in unit i is printed |
| `SizeFormat.RenderTopTier` | main.go:122-135 | the unpadded P tier is reached exactly when `size >> 50` is at least 999, and it then prints `size >> 50` with P |
| `SizeFormat.RenderBounds` | main.go:122-135 | the value is the count shifted to its unit; outside the top tier it is at most 1023, in the top tier at least 999; it is 0 only for size 0 |
| `SizeFormat.RenderBytes` | main.go:127-130 | exactly the counts below 1024 are printed in B, unscaled |
| `SizeFormat.FormatBytes` | main.go:116-130 | below 1024 bytes the row is name, padding, a space, the count right-justified in 6 columns, and "B" |
| `SizeFormat.FormatShape` | main.go:115-135 | no row exactly when the width is below the name's length; otherwise the row starts with the name, is blank through column `width`, and ends with the decimal value and the unit letter |
| `SizeFormat.FormatAligned` | main.go:116-135 | outside the top tier every row is exactly the width plus 8 characters long |
| `SizeFormat.ByteBoundary` | main.go:127-133 | 1023 bytes print as 1023B and 1024 bytes as 1K |
| `SizeFormat.KibiBoundary` | main.go:127-133 | 998*1024+1023 bytes print as 998K and 999*1024 bytes as 999K, not as M |
| `SizeFormat.MebiBoundary` | main.go:127-133 | 1024*1024-1 bytes print as 1023K and 1024*1024 bytes as 1M |
| `Report.MaxNameLenIsMax` | main.go:98-104 | the column width bounds every name's length and equals one of them, and is 0 for no entries |
| `Report.TotalAppend` | main.go:106-109 | the total of two runs of entries is the sum of their totals |
| `Report.TotalBounds` | main.go:108 | every entry's size is at most the total |
| `Report.RowsAt` | main.go:106-107 | one row per entry, in input order, each the entry formatted at the width |
| `Report.RowsSnoc` | main.go:106-107 | formatting the next entry appends exactly its row to the rows printed so far |
| `Report.PrintedShape` | main.go:95-113 | entry rows in input order at the longest name's width; a panic exactly when that width is below 8; otherwise a blank line and the row for the exact sum of the raw sizes at the same width |
| `Report.EmptyReportPanics` | main.go:98-112 | with no entries nothing is printed and the total row panics |
| `Report.PrintedAligned` | main.go:98-112 | every entry row and the total row outside the top tier is exactly the width plus 8 characters long |
| `Report.SmallReport` | main.go:95-113 | a 10-byte file and a 2560-byte directory print as 10B and 2K, and their total as 2K |
| `Report.TwoKibi` | main.go:127-135 | every count from 2048 to 3071 bytes prints as 2 in unit K |
| `Report.PrintSizes` | main.go:95-113 | the two loops produce `Printed`: the width is the maximum name length and the total is the sum of the sizes |
| `Walk.TreeSizeIsFileSum` | main.go:64-90 | a subtree's size is the sum of the sizes of the regular files in it, in walk order |
| `Walk.FlatDirSize` | main.go:72-87 | a directory holding only regular files has the sum of their sizes |
| `Walk.ForestSizeOrderFree` | main.go:64-90 | visiting two groups of entries in either order gives the same size |
| `Walk.ForestSizePermutation` | main.go:64-90 | any reordering of the same entries has the same size: the walk order does not affect the total |
| `Walk.CheckSize` | main.go:60-93 | the walk's accumulator ends at the subtree's size; when the root cannot be statted it fails with nothing accumulated |
| `Walk.FirstFatal` | main.go:49-52 | the index of the first kept entry whose walk fails, with no such entry before it |
| `Walk.CollectAppend` | main.go:40-55 | collecting a listing in two parts collects each part in turn, so listing order is kept |
| `Walk.CollectPrefix` | main.go:49-52 | the rows returned with a walk error are a prefix of the rows of a run with no error |
| `Walk.CollectMembers` | main.go:40-55 | the rows are exactly those of the entries whose info is readable and which are regular files or directories, each with its subtree size, one row per such entry |
| `Walk.IterDirs` | main.go:32-58 | a listing failure gives no rows and `ListError`; otherwise the rows of the kept entries before the first failing walk, with that walk's error, or all of them and no error |

## Left out

- `main` (main.go:16-30): `os.Getwd`, `os.DirFS` and `log.Fatalln` are process plumbing.
- Real filesystem access (`ReadDir`, `fs.WalkDir`, `DirEntry.Info`): replaced by the `Node` tree, the `Listed` flags and an optional listing. The order of a listing is taken as given; Go sorts it by name.
- The `d.Info()` failure inside the walk (main.go:77-80): `fi` is then nil and `fi.Mode()` panics. This is not modelled; every entry the walk visits is assumed to have readable information.
- Error logging with `fmt.Println` (main.go:43, 69, 79): it does not affect any result.
- Writing to standard output: the report is returned as its lines.
- `DirSize.size`: 64-bit overflow of `total` and negative sizes are not modelled; sizes are unbounded non-negative integers.
- Name lengths: Go's `len` counts bytes; names are sequences of characters, each counted as one byte.
- Go's `%v` formatting beyond the decimal rendering of a non-negative integer.
