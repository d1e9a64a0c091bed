# show_tree in Dafny

A model of `show_tree`, a small Go clone of the `tree` command. The model
covers the program's core in `main.go`:

- the set of excluded names;
- `getNameWithSize`, which labels an entry with its name, followed by its
  size for a file;
- the recursive renderer `dirTreeRecursive` and its entry point `dirTree`;
- the alternative renderer `dirTreeSecond`, built on `filepath.Walk`.

Modules, one concept each:

- `Wrappers`: `Option`.
- `Strings`: `strings.Split`, `strings.Join`, `strings.Repeat`, and the
  separator count that links them.
- `Decimal`: the decimal rendering `%v` gives a positive size, and its
  inverse.
- `FilePath`: `filepath.Base` for the separator `/`.
- `Entries`: the entry record (name, directory flag, size), the error
  value, the excluded names, `getNameWithSize`, and a parser for the file
  labels it produces.
- `Render`: these parts of `dirTreeRecursive` and `dirTree`:
  - the functions `RenderDir`, `EntryLines` and `RenderEntries`, which say
    which lines the renderer writes;
  - the methods `DirTreeRecursive` and `DirTree`, which follow the Go loop
    statement by statement and are proved to write exactly those lines;
  - lemmas on pre-order, exclusion, the shape of each line, the lines per
    level, and fuel.
- `Walk`: the `dirTreeSecond` callback as the function `WalkFunc`, and the
  walk as a sequence of visits given in Walk's order. The method
  `DirTreeSecond` is proved against `WalkRun`. The lemmas cover the
  indentation, exclusion, and a walk stopping at its first error.

The Go writer becomes a sequence of strings. Each element is the text of
one `Fprintf` call, without its trailing newline. The filesystem for the
recursive renderer is a `Listing`, a map from a path to the entries
`ioutil.ReadDir` returns for it, in its order. The renderer looks a
subdirectory up by its bare name, so a listing can make it recurse without
end. The model is therefore total through a `fuel` argument: the number of
levels it may still descend. `Render.FuelStable` shows that, on a
listing without such a cycle, every fuel above the tree's height gives the
same output.

### Quirks of the code the model keeps

The model renders what `main.go` does, including behaviour its own
comments and parameters suggest was meant otherwise:

- The corner branch at `main.go:75-78` is meant, by its comment, to mark
  the last file of a directory. It tests `idx == len(dirContent)` inside
  `range dirContent`, so it never fires, and the glyph placed after the
  indentation is always the tee `├───`. `Render.DirTreeRecursive` keeps the
  dead branch, and `Render.RenderDirShape` and `Render.SelfLoop` state the
  tee.
- The child prefix is always the parent prefix plus `|\t` (`main.go:86`).
- The `printFiles` parameter of `dirTree`, `dirTreeRecursive` and
  `dirTreeSecond` is passed along but never read, so files are always
  listed (`Render.OneLinePerShownEntry`).
- The listing error is discarded at `main.go:68`, so a path that cannot be
  listed reads as an empty directory (`Render.UnlistedPathWritesNothing`).
  Both `dirTree` and `dirTreeRecursive` always return `nil` (`main.go:91`,
  `main.go:96`).
- The recursive call at `main.go:87` passes the bare child name
  `flInfo.Name()`, so a subdirectory is listed under its name relative to
  the working directory, not under its parent. `Render.BareNameLookup`
  shows a nested directory's contents going unlisted because of this.
- The test at `main.go:26` is `Size() > 0`, so a file's label is
  ` (empty)` for every size that is not positive (`main.go:29`), not only
  for size zero.

## Model

| member | source | states |
|---|---|---|
| Entries.ExcludedNameIsComponent | main.go:12-18 | every excluded name is a single non-empty path component (no `/`), so it can only match a base name |
| Entries.GetNameWithSize | main.go:20-33 | the error is always `nil`; a directory's label is its bare name; a file of positive size gets ` (<size>b)`; any other file gets ` (empty)` |
| Entries.SizedLabelRoundTrip | main.go:26-27 | the sized label `name (<n>b)` parses back to exactly `name` and `n`, for every name and every positive size |
| Entries.FileLabelRoundTrip | main.go:20-33 | a file's label parses back to its name and its size, with any non-positive size read back as 0, which is the only information ` (empty)` keeps |
| Decimal.Show | main.go:27 | the decimal text of a number is a non-empty string of digits with no leading zero, unless the number is 0 |
| Decimal.ParseShow | main.go:27 | parsing the decimal text of `n` gives back `n` |
| Decimal.ShowParse | main.go:27 | every digit string without a leading zero is the decimal text of the number it denotes |
| Strings.Split | main.go:45 | `strings.Split` on a separator gives one more piece than the separator occurs, and no piece holds the separator |
| Strings.JoinSplit | main.go:45 | joining the pieces of a split with the separator gives back the original string |
| Strings.SplitJoin | main.go:45 | splitting the join of separator-free pieces gives back the pieces |
| FilePath.BaseSpec | main.go:40 | `filepath.Base` is never empty; it is `/` or holds no separator; it is `.` for the empty path |
| FilePath.BaseOfChild | main.go:40 | the base of `dir/name` is `name` for every directory and every single component `name` |
| FilePath.BaseOfName | main.go:40 | a single component is its own base |
| Render.UnlistedPathWritesNothing | main.go:68 | a path whose listing fails, since its error is discarded, writes no lines at all, for every prefix and fuel |
| Render.RenderEntriesAppend | main.go:71-89 | entries are written one after another: the output for two consecutive runs of entries is the first run's output followed by the second's |
| Render.PreOrder | main.go:71-89 | a shown entry's line comes right after the lines of the entries before it, and is followed at once by its whole subtree and then by the entries after it |
| Render.ExcludedContributesNothing | main.go:79-81 | removing an excluded entry from a listing leaves the output unchanged; its subtree is never visited |
| Render.RenderDirShape | main.go:64-92 | every written line is `prefix`, then `d` copies of `\|\t` for some depth `d` below the fuel, then the tee glyph `├───`, then the label of a listed, non-excluded entry; the glyph after the indentation is never the corner, since the corner branch never runs |
| Render.EntryLinesShape | main.go:79-88 | the lines of one listed entry all have that shape, within one more level |
| Render.RenderEntriesShape | main.go:71-89 | the lines of a listing all have that shape, within one more level |
| Render.LevelLinesOfSubtree | main.go:85-88 | no line of a subtree has a glyph at the parent's level, so the child prefix always pushes the subtree's lines deeper |
| Render.LevelLinesOfEntry | main.go:79-88 | of an entry's lines, only its own line sits at the entry's level, and an excluded entry has none there |
| Render.OneLinePerShownEntry | main.go:71-89 | the lines at a listing's own level are exactly one line per non-excluded entry, in listing order, files included whatever `printFiles` says |
| Render.FuelStable | main.go:85-88 | on a listing whose visible subdirectories always have a smaller height than their parent, any two fuels above a directory's height give the same output |
| Render.SelfLoop | main.go:86-87 | the listing where `x` holds a directory `x` writes one line per level of fuel, line `k` being `k` copies of `\|\t` then `├───x`, so the recursion does not end |
| Render.BareNameLookup | main.go:87 | with `root/sub/inner.txt` listed under full paths, rendering `root` writes only `├───sub`, because `sub` is looked up by its bare name |
| Render.DirTreeRecursive | main.go:64-92 | the loop appends to the output exactly the lines `RenderDir` specifies for the path and prefix, and returns `nil` |
| Render.DirTree | main.go:94-97 | appends the lines of the path rendered from the empty prefix and returns `nil` |
| Walk.LinePrefixCountsSeparators | main.go:45-52 | the guard on the split's length always holds; a walked line's prefix is one `│  ` per separator in its path, then the tee glyph |
| Walk.ChildOneLevelDeeper | main.go:45-52 | a child path `dir/name` is indented exactly one `│  ` further than `dir` |
| Walk.WalkFuncContract | main.go:36-58 | an incoming error writes nothing and comes back wrapped with its path; an excluded base name writes nothing and returns `nil`; any other path writes its indented label and returns `nil` |
| Walk.ExcludedChildWritesNothing | main.go:40-43 | a visit whose last path component is an excluded name writes nothing and returns `nil` |
| Walk.ExcludedDirectoryStillDescended | main.go:40-52 | the callback never skips a directory, so an entry inside an excluded directory is still written, two levels deeper than its grandparent |
| Walk.WalkWithoutErrors | main.go:36-61 | while no visit carries an error, the walk has written, in visiting order, one line per visit whose base name is not excluded, and its result is `nil` |
| Walk.WalkStopsAtFirstError | main.go:36-61 | at the first visit carrying an error, the lines of the earlier visits have been written, nothing after them is written, and the walk returns that error wrapped with its path |
| Walk.DirTreeSecond | main.go:35-62 | the loop over the visits writes exactly the lines of `WalkRun` and returns its error |

## Left out

- `main` and its command-line handling are not modelled. They only pick
  the path and the flag and hand the writer to `dirTree`.
- The real filesystem is not modelled. It is an explicit `Listing` for
  `dirTreeRecursive`, and an explicit sequence of visits for `dirTreeSecond`.
- `ioutil.ReadDir`'s sorting by name is not modelled. The order of each
  `Listing` entry is taken as given, and every result holds for any order.
- `filepath.Walk`'s traversal is not modelled: its lexical order, `Lstat`,
  `SkipDir`, and how it produces the error it hands the callback. The visits
  are therefore an input, and the model covers only what the callback and
  Walk's "stop at the first returned error" rule do with them.
- `io.Writer` is a sequence of lines. Write errors are not modelled,
  because the source ignores `Fprintf`'s results.
- The trailing `\n` of each line is dropped.
- `os.PathSeparator` is fixed to `/`. Windows volume names and `\\`
  separators in `filepath.Base` are not modelled.
- The text of `fmt.Errorf` in `dirTreeSecond` is replaced by a structured
  `AccessFailure(path, cause)`. The `%q` quoting and `%v` formatting of
  the message are not modelled; the path and the cause itself are kept.
- `Info.size` is an unbounded integer. Go's `int64` bound is not modelled,
  because no comparison or formatting in the source depends on it.
- Go strings are byte sequences. The model uses `seq<char>`, so the
  multi-byte glyphs `├───`, `└───` and `│  ` count as 4, 4 and 3 characters
  rather than their UTF-8 byte lengths. No property here depends on byte
  lengths.
- Render.DirTreeRecursive: the depth of recursion is bounded by `fuel`, so
  on a cyclic listing (where Go would recurse until its stack runs out) the
  model writes the first `fuel` levels and stops.
- Render.DirTree: bounded by `fuel` in the same way.
- The constant map `excludeNames` (`main.go:12-18`) is modelled as
  `Entries.ExcludeNames` and `Entries.Excluded`. Its row in the table is the
  lemma about it.
