# vscope core in Dafny

vscope takes the lines a `grep` finds in C/C++ sources and grows each one
into the definition it belongs to: the macro a `#define` line starts, or the
`typedef`/`enum`/`struct`/`class` declaration around a member line. This
project models the core of `s.py` that does this:

- `Line`, a mutable cursor over one line of a file: its file name, 0-based index,
  text (trailing whitespace stripped) and optional highlight pattern.
- `merge_lines`, the sorted merge of two hit lists.
- `Block`, an ordered, duplicate-free list of lines with optional `start`
  and `end` lines, and its growth primitives.
- The C/C++ recipes `get_define_block`, `get_define_macro` and `_is_define_syntax`.

Layout, one module per file:

- `text.dfy` (`Text`): `rstrip`, `startswith`, substring tests, and Python's
  string ordering as a lexicographic order on characters.
- `snapshot.dfy` (`Snapshots`): `LineValue`, the value of a `Line` at one
  moment, and the `(file_name, index)` order.
  - Files are a map `fs` from file name to the file's raw lines. It stands in
    for `Line.load_file` and its cache.
  - Regular-expression search is a matcher `m(pattern, text)` passed as a
    parameter.
  - `NearestAbove` and `FirstMatchFrom` are the scans a cursor performs when
    it moves up or down until a line matches.
- `ordered.dfy` (`Ordered`): sorted lists of line values.
  - `Insert` is what `Block.add` does to the values.
  - `MergeSpec` is what `merge_lines` does.
- `line.dfy` (`Lines`): the class `Line` with its methods.
- `merge_lines.dfy` (`Merging`): `MergeLines`, the two-pointer merge loop.
- `block_spec.dfy` (`BlockSpec`): `BlockState` and one function per `Block`
  primitive. These are the value-level specifications, and the lemmas about
  them are the properties of the primitives.
- `block.dfy` (`Blocks`): the class `Block`. Each method is proved to change
  `State()` exactly as its `BlockSpec` function says.
- `cpp.dfy` (`Cpp`): the recipes, given twice at the value level.
  - `...AsWritten`: the code as written, including the inputs on which it
    raises or never returns.
  - `DefineBlock`/`DefineMacro`: the repaired versions.
  - The methods `GetDefineBlock` and `GetDefineMacro` run the `Block`
    methods and are proved to build the repaired results.

The start-line step `add_start_with` (s.py:201-211) moves up before its
first test, so it never looks at the seed itself. Two places in the code
show that this is not what the recipes need. `get_define_block` hands only
`#define` lines to `get_define_macro` (s.py:297-298), and that recipe then
looks for a `#define` strictly above, so it can only find an earlier macro.
And `line == blk.start` (s.py:311) compares the seed with the `start` that
step found, which as written is never the seed (`Cpp.StartNeverSeed`). The
`AsWritten` recipes follow the code; the repaired recipes test the seed
first (`StartWithInclusive`). See Findings.

A `Line` object is always truthy: the class defines neither `__bool__` nor
`__len__`, and `__getattr__` is not consulted for those. So `if line:` and
`not blk.start` are null tests. A highlight is truthy when it is present and
non-empty.

## Model

| member | source | states |
|---|---|---|
| Lines.Line.constructor | s.py:42-46 | the new line holds exactly the given file name, index, text and highlight |
| Lines.Line.Clone | s.py:48-49 | the clone is a new object with the same file, index, text and highlight |
| Lines.Line.Equals | s.py:51-52 | two lines are equal exactly when neither location orders before the other, i.e. same file and same index |
| Lines.Line.MoveUp | s.py:78-89 | moves exactly when the index is above 0; then the line is the previous line of the file (stripped text, no highlight); otherwise nothing changes |
| Lines.Line.MoveDown | s.py:91-101 | moves exactly when a next line exists in the file; then the line is that next line (stripped text, no highlight); otherwise nothing changes |
| Lines.MatchFileLine | s.py:74-75 | `match` on a cursor showing a file line is the matcher's test on that file line's text, the test the `Block` scans apply |
| Lines.Line.Merge | s.py:103-105 | the incoming highlight replaces this line's highlight only when it is truthy |
| Text.RStripSpec | s.py:87 | the stripped text is a prefix of the raw line, ends in a non-space, and only whitespace was dropped |
| Snapshots.NearestAbove | s.py:207-208 | the scan up finds the nearest matching line strictly above, or reports that no line above matches |
| Snapshots.FirstMatchFrom | s.py:231-232 | the scan down finds the first matching line from the given index to the end of the file, or reports that none matches |
| Blocks.ScanUp | s.py:207-208 | the cursor loop `while move_up(): if match` finds exactly what `NearestAbove` finds, and leaves the cursor on that line |
| Blocks.ScanDown | s.py:231-232 | the cursor loop `while move_down(): if match` finds exactly what `FirstMatchFrom` finds, and leaves the cursor on that line |
| Ordered.MergeSpecSorted | s.py:148-173 | merging two sorted lists gives a sorted list (no location twice) |
| Ordered.MergeSpecLocs | s.py:148-173 | the merged list's locations are the union of both inputs' locations |
| Ordered.MergeSpecAt | s.py:155-165 | at every location the merged list holds the line from one input, or, when both have it, the first input's line with the second's highlight taking over when that highlight is truthy |
| Merging.MergeLines | s.py:130-173 | the result's values are `MergeSpec` of the inputs; an empty second list returns the first list, an empty first list returns the second; every object of `lines1` is kept and only objects of the inputs appear; `lines2` is unchanged and `lines1` lines change only their highlight |
| Ordered.InsertSorted | s.py:186-199 | adding to a sorted list keeps it sorted, and the length grows by one exactly when the location was new |
| Ordered.InsertLocs | s.py:186-199 | after adding, the locations are the old ones plus the new line's |
| Ordered.InsertMerges | s.py:187-190 | adding a line whose location is present only merges the highlight into that existing entry |
| Ordered.InsertKeepsHeld | s.py:187-199 | adding a line without a highlight keeps every line value already held, including its highlight |
| Ordered.InsertAllKeepsHeld | s.py:186-199 | adding a run of lines without highlight keeps every line value already held |
| Ordered.AtSorted | s.py:186-199 | in a sorted list the entry found for a line's location is that line |
| Ordered.InsertAfterLast | s.py:192-199 | a line after every present line is appended at the end |
| Ordered.InsertBeforeFirst | s.py:192-199 | a line before every present line goes in front |
| BlockSpec.InitHolds | s.py:178-184 | a new block is well formed and holds just the given line, or nothing |
| BlockSpec.AddKeepsWellFormed | s.py:186-199 | `add` keeps the block sorted and duplicate-free; the location set grows by exactly the new line's location |
| Blocks.Block.constructor | s.py:178-184 | a new block holds the given line alone (or nothing), has no start or end, and is valid |
| Blocks.Block.FindEqual | s.py:187-188 | the index returned is the first line with the new line's location, or the length when there is none |
| Blocks.Block.FindInsertionPoint | s.py:192-197 | every line before the returned point orders before the new line, and the line at the point does not |
| Blocks.Block.MergeAt | s.py:188-190 | merging into the equal line gives the same state as `AddTo` and keeps the block valid |
| Blocks.Block.InsertAt | s.py:199 | inserting at the point gives the same state as `AddTo` and keeps the block valid |
| Blocks.Block.Add | s.py:186-199 | the block's new state is `AddTo` of the old state (merge into an equal line, else sorted insert); start, end and validity are kept, and every line object already in the block stays in it (as for every other growth method) |
| BlockSpec.StartWithNoMatch | s.py:201-211 | `add_start_with` changes nothing exactly when no line above the first line matches |
| BlockSpec.StartWithNearest | s.py:201-211 | `add_start_with` adds line k in front and makes it `start` exactly when k is the nearest matching line above the first line; only that one line is added |
| BlockSpec.StartWithKeepsWellFormed | s.py:201-211 | `add_start_with` keeps the block well formed |
| BlockSpec.StartWithInclusiveNearest | s.py:201-211 | the repaired step makes the first line `start` when it matches, and otherwise behaves as `add_start_with` |
| Blocks.Block.AddStartWith | s.py:201-211 | the block's new state is `StartWith` of the old state, and the block stays valid |
| Blocks.Block.AddStartWithInclusive | s.py:201-211 | the block's new state is `StartWithInclusive` of the old state, and the block stays valid |
| BlockSpec.FillStop | s.py:219-221 | the walk stops at the first line at or below the first line that matches; no line in between matches |
| BlockSpec.FillUntilContiguous | s.py:213-223 | `fill_start_until` adds exactly the contiguous run from the first line through the stop line; start and end stay |
| Blocks.Block.FillStartUntil | s.py:213-223 | when the walk ends, the block's new state is `FillUntil` of the old state, and the block stays valid |
| BlockSpec.FillUntilOrEndAgrees | s.py:213-223 | wherever the original walk ends, the walk bounded by the end of the file gives the same block |
| BlockSpec.FillUntilOrEndContiguous | s.py:213-223 | the bounded walk adds exactly the contiguous run down to the first match or the last line of the file |
| Blocks.Block.FillStartUntilOrEnd | s.py:213-223 | the block's new state is `FillUntilOrEnd` of the old state, for every input |
| BlockSpec.EndWithKeepsWellFormed | s.py:225-235 | `add_end_with` keeps the block well formed and keeps `start` |
| BlockSpec.EndWithNoMatch | s.py:225-235 | `add_end_with` changes nothing exactly when no line below the last line matches |
| BlockSpec.EndWithNearest | s.py:225-235 | `add_end_with` appends line k and makes it `end` exactly when k is the nearest matching line below the last line; only that one line is added |
| Blocks.Block.AddEndWith | s.py:225-235 | the block's new state is `EndWith` of the old state, and the block stays valid |
| BlockSpec.StartWithKeepsLine | s.py:201-211 | `add_start_with` (and the repaired step) only adds: every line of the block is still there |
| BlockSpec.FillKeepsLine | s.py:213-223 | `fill_start_until`, bounded or (when it ends) as written, keeps every line of the block |
| BlockSpec.EndWithKeepsLine | s.py:225-235 | `add_end_with` keeps every line of the block |
| BlockSpec.FillFullKeepsLine | s.py:237-249 | `fill_full` keeps every line of the block |
| BlockSpec.FillFullBetween | s.py:237-249 | `fill_full` does nothing without a start and an end in one file; otherwise it adds exactly the lines strictly between them (those the file has), keeps start and end, and keeps the block well formed |
| BlockSpec.FillFullAdds | s.py:244-249 | with start and end in one file, the locations afterwards are the old ones plus exactly those strictly between start and end |
| Blocks.Block.FillFull | s.py:237-249 | the block's new state is `FillFull` of the old state, and the block stays valid |
| Blocks.Block.FillBetween | s.py:244-249 | the cursor loop from `start` towards `end` gives exactly `FillFull` of the old state |
| Cpp.DefineMacroAsWritten | s.py:316-323 | `get_define_macro` as written; any block it builds is well formed, in the seed's file and holds the seed |
| Cpp.DefineBlockAsWritten | s.py:292-314 | `get_define_block` as written, with its crash and non-termination outcomes; any block it builds is well formed and holds the seed |
| Cpp.DeclarationAsWritten | s.py:308-314 | the tail of `get_define_block` as written; any block it builds holds the seed and keeps `start` |
| Cpp.StartNeverSeed | s.py:201-211 | as written, the seed line never becomes `start` |
| Cpp.MacroNeverEnds | s.py:219-221 | when the macro walk as written never returns, no line the cursor can reach ends without a backslash |
| Cpp.AsWrittenRejects | s.py:294-306 | as written, no block exactly for a call or control statement, or a non-`#define` line with no declaration start above it or whose nearest one contains `=` |
| Cpp.DefineMacro | s.py:316-323 | the repaired macro recipe always builds a well-formed block holding the seed, with no `end` |
| Cpp.DefineBlock | s.py:292-314 | the repaired recipe's block, when there is one, is well formed, holds the seed, and has a `start` unless the seed is a `#define` line |
| Cpp.DeclarationFrom | s.py:308-314 | the repaired tail keeps `start` and keeps the block well formed around the seed |
| Cpp.FillIfAround | s.py:311-312 | filling when the seed is `start` or `end` (or an `enum`) keeps the block well formed and keeps `start` and `end` |
| Cpp.DefineBlockNone | s.py:292-306 | repaired: no block exactly for a call or control statement, or a non-`#define` line whose nearest declaration start (itself, else above) is missing or contains `=`; a `#define` line gives its macro |
| Cpp.DefineBlockFound | s.py:302-312 | repaired: `start` is the seed when it starts a declaration, else the nearest declaration start above, with no `=`; when the seed is `start` or `end`, every line between them is in the block |
| Cpp.DefineMacroSpan | s.py:316-323 | repaired: a `#define` line is `start`, and the macro is exactly the lines from it down to the first line without a trailing backslash, or to the end of the file |
| Cpp.OpenStructCrashes | s.py:311 | as written, a member line of a declaration with no closing line makes the recipe raise |
| Cpp.OpenStructRepaired | s.py:302-314 | repaired, the same line gives the declaration line and the member line |
| Cpp.MacroSkipsSeed | s.py:320-321 | as written, seeding at the second of two macros gives the first macro's line, not the second macro's body |
| Cpp.MacroFromSeed | s.py:316-323 | repaired, the same seed gives the second macro with its continuation line |
| Cpp.DanglingMacroLoops | s.py:219-221 | as written, a macro whose backslash runs off the end of the file never returns; repaired, it gives the macro line alone |
| Cpp.DefineSyntaxGate | s.py:331-338 | `_is_define_syntax` (applied first, at s.py:294-298) is the gate: a call or control statement gives no block, as written and repaired; a `#define` line that passes goes to the macro recipe |
| Cpp.MacroKeepsSeed | s.py:316-323 | the macro built from a seed, as written or repaired, holds that seed |
| Cpp.BlockKeepsSeed | s.py:292-314 | the repaired recipe's block, when there is one, holds the seed |
| Cpp.AsWrittenKeepsSeed | s.py:292-314 | the block the recipe as written builds, when it builds one, holds the seed |
| Cpp.DeclarationKeepsSeed | s.py:308-314 | the repaired steps after `start` keep the seed in the block |
| Cpp.DeclarationAsWrittenKeepsSeed | s.py:308-314 | the steps after `start` as written, when their walk ends, keep the seed in the block |
| Cpp.GetDefineMacro | s.py:316-323 | the method builds a new valid block whose state is `DefineMacro` of the seed; the seed object is in the block and still shows the same line |
| Cpp.GetDefineBlock | s.py:292-314 | the method returns null exactly when `DefineBlock` has no block, and otherwise a new valid block whose state is that block and which holds the seed object; on every path the seed still shows the same line, so the recipe can run on it again (s.py:352-354) |
| Cpp.GrowDeclaration | s.py:308-312 | the method's steps after `start` give exactly `DeclarationFrom` |
| Cpp.FillAround | s.py:311-312 | the method fills exactly when `FillIfAround` does |

## Left out

- `Line.load_file` (reading, decoding with the encoding fallback list, the one-file cache) is replaced by the map `fs` of file contents. Decoding errors are not modelled.
- `get_match` runs `grep` in a subprocess and is not modelled. `merge_lines` has no caller in s.py; `MergeLines` models it on its own, over two hit lists such as `get_match` returns.
- Regular expressions are not interpreted. `Line.match` and `_is_define_syntax` apply an abstract matcher `m` to the patterns, which are the source's own strings.
- `Line.__str__` (ANSI colouring), `Block.__str__` and `Block.__getattr__` are presentation only. `Line.__getattr__` and `__contains__` are modelled only where the recipes use them: `startswith` and `in` on the text.
- The `Language` registry, `EXTENSIONS`, the `get_wrapper`/`get_caller` stubs, `search_def` and the command line are not part of this model.
- Python's `str` ordering is modelled as lexicographic order on characters (code points).
- The block's `lang` field is stored but never read by the core.
- Merging.MergeLines: returns the merged list instead of assigning it into `lines1` in place. It requires that neither input holds the same location twice, which every block and every `grep` result satisfies.
- Blocks.Block.FillStartUntil: requires that the walk ends (`FillEnds`). The input on which the source never returns is modelled by `Cpp.DefineMacroAsWritten` as `LoopsForever`, and the bounded `FillStartUntilOrEnd` covers every input.
- Cpp.GetDefineMacro: builds the repaired recipe, whose start step tests the seed itself. The as-written recipe (s.py:320 starts strictly above the seed) is modelled only at the value level (`DefineMacroAsWritten`), because its `LoopsForever` outcome cannot be a method result.
- Cpp.GetDefineBlock: builds the repaired recipe. The as-written recipe is modelled only at the value level (`DefineBlockAsWritten`), because its crash and non-termination outcomes cannot be a method result.
- Lines.Line.MoveUp: requires an index at most the file's length (a line the cursor can stand on), which every line from `grep` or a move satisfies.

## Findings

| source | as written | input that shows it | evidently intended | confidence | as-written member | corrected member |
|---|---|---|---|---|---|---|
| s.py:311 | `line == blk.end` is evaluated when `add_end_with` found no end; `Line.__eq__` then reads `None.file_name` and raises `AttributeError` | file `struct S {` / `  int x;` (no closing line), seed at line 1 | compare with `end` only when it is set | not executed | Cpp.OpenStructCrashes | Cpp.OpenStructRepaired |
| s.py:207-208, 304, 320 | `add_start_with` moves up before its first test, so the seed line is never `start`: a `#define` seed takes the previous macro's line, and `line == blk.start` at s.py:311 is never true | file `#define A 1` / `#define B \` / `  2`, seed at line 1 | test the seed itself first, so the macro of a `#define` seed (the only lines s.py:297-298 pass on) starts at that line and s.py:311 can hold | not executed | Cpp.MacroSkipsSeed | Cpp.MacroFromSeed |
| s.py:219-221 | `fill_start_until` ignores `move_down` returning false and loops forever when no line down to the end of the file matches | file `#define A \` (one line), seed at line 0 | stop at the last line of the file | not executed | Cpp.DanglingMacroLoops | Blocks.Block.FillStartUntilOrEnd |
