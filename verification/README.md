# python_filename_linter — a Dafny model

`python_filename_linter` checks that Python file names, and optionally the
names of the folders holding them, are in snake case: all lower case, with no
hyphens. In rename mode it moves a non-compliant entry to its snake-case name,
but never over an existing entry. This project models the one source file of
the tool, `python_filename_linter/main.py`, and proves properties of:

- `to_snake_case`, the name normaliser (module `SnakeCase`; worked examples in
  `SnakeCaseExamples`). Hyphens become underscores. One left-to-right pass of
  `re.sub("([a-z0-9])([A-Z])", r"\1_\2", …)` follows, then lowercasing. The
  regex pass is modelled as the regex engine scans (`SubBoundaries`). It is
  proved equal to a reference definition (`InsertAtBoundaries`) that puts an
  `_` after every lower-or-digit/upper boundary and nowhere else.
- The `pathlib` behaviour the linter relies on (module `PurePaths`): `name`,
  `stem`, `suffix`, `parent`, `parents` and `relative_to`. Paths are
  sequences of parts. An absolute path starts with the anchor part `"/"`.
- `lint_path` (module `Lint`). `Finding` is the compliance decision.
  `RenameTarget` is the sibling the entry is renamed to. The class
  `FileSystem` holds the set of existing entries. Its method `LintPath`
  moves an entry only when the target does not exist.
- The entry point after argument parsing (modules `EntryPoint` and
  `FolderOrder`):
  - the loop that makes the files relative to the root;
  - the loops that lint files and folders;
  - the collection of ancestor folders;
  - the sort by `(-len(parts), str(path))` and the `groupby` that removes
    repeats.

What the entry point in `main.py` does and does not do:
- It does not filter inputs on existence, file type or the `.py`
  extension. `lint_path` alone skips other suffixes.
- It does not drop the folder `.`. The model proves instead that `.` is never
  flagged.
- It computes no exit status.
- It takes `root.relative_to(file)` at main.py:69, which keeps almost no file
  under the root (see "## Findings"). `EntryPoint.Run` lints the corrected
  `file.relative_to(root)`. The as-written filter is modelled beside it and
  proved to drop such files.

The model returns what `lint_path` returned for each path. The entry point
itself drops those values.

In rename mode the filesystem after a run is given exactly. `LintSteps`
folds `lint_path` over the list and stops at the first move that raises.
`RenameOutcome` and `EntriesAfter` give the status and the entries after one
call.

## Model

| member | source | states |
|---|---|---|
| SnakeCase.LowerChar | python_filename_linter/main.py:16 | lowercasing maps an ASCII capital to a non-capital, keeps every other character, and keeps `-` and `_` exactly |
| SnakeCase.Lower | python_filename_linter/main.py:16 | `str.lower` keeps the length and lowercases character by character |
| SnakeCase.ReplaceHyphens | python_filename_linter/main.py:13 | `replace("-", "_")` keeps the length, leaves no `-`, turns each `-` into `_` and keeps every other character |
| SnakeCase.SubBoundaries | python_filename_linter/main.py:15 | the regex pass introduces no `-`, and leaves a name without ASCII capitals unchanged |
| SnakeCase.ToSnakeCase | python_filename_linter/main.py:12-16 | the normalised name holds no `-` (compliance and length: SnakeCaseIsCompliant) |
| SnakeCase.IsCompliant | python_filename_linter/main.py:26 | `name == name.lower() and "-" not in name` holds exactly when the name has no ASCII capital and no `-` |
| SnakeCase.SubBoundariesInsertsAtEveryBoundary | python_filename_linter/main.py:14-15 | the regex scan, which resumes after each match, equals inserting `_` at every boundary; skipping past a match loses no boundary |
| SnakeCase.InsertConcat | python_filename_linter/main.py:15 | the pass acts locally: on two joined pieces it is the pass on each, with `_` between them exactly when the join is a boundary |
| SnakeCase.InsertNoBoundary | python_filename_linter/main.py:15 | a name without a lower-or-digit/upper boundary passes through unchanged |
| SnakeCase.InsertedLength | python_filename_linter/main.py:15 | the output is longer than the input by exactly the number of boundaries |
| SnakeCase.InsertedPositions | python_filename_linter/main.py:15 | character `s[i]` lands at `i` plus the number of earlier boundaries, an `_` follows it when a boundary starts at `i`, and otherwise the next character of `s` does |
| SnakeCase.InsertedNowhereElse | python_filename_linter/main.py:15 | every output position holds either a character of the input or the `_` after a boundary: nothing else is inserted |
| SnakeCase.LowerIdempotent | python_filename_linter/main.py:16 | lowercasing twice is lowercasing once |
| SnakeCase.SnakeCaseIsCompliant | python_filename_linter/main.py:12-16 | every output of `to_snake_case` passes the compliance test of main.py:26, and is longer than the input by the number of boundaries left after hyphen replacement |
| SnakeCase.CompliantIsFixedPoint | python_filename_linter/main.py:26 | a compliant name is left unchanged by `to_snake_case` |
| SnakeCase.FixedPointIffCompliant | python_filename_linter/main.py:12-27 | the names `to_snake_case` leaves unchanged are exactly the compliant ones |
| SnakeCase.SnakeCaseIdempotent | python_filename_linter/main.py:12-16 | `to_snake_case` is idempotent |
| SnakeCaseExamples.LowerIs | python_filename_linter/main.py:16 | lowercasing evaluated character by character |
| SnakeCaseExamples.ReplaceHyphensIs | python_filename_linter/main.py:13 | hyphen replacement evaluated character by character |
| SnakeCaseExamples.SubBoundariesOfPieces | python_filename_linter/main.py:15 | the regex pass on three boundary-free pieces: the pieces, with `_` at the joins that are boundaries |
| SnakeCaseExamples.AA | test_python_filename_linter/test_to_snake_case.py:9 | `"A_A"` becomes `"a_a"` |
| SnakeCaseExamples.PassOfHelloDear | test_python_filename_linter/test_to_snake_case.py:10 | the regex pass turns `"helloDear"` into `"hello_Dear"` |
| SnakeCaseExamples.LowerOfHelloDear | test_python_filename_linter/test_to_snake_case.py:10 | lowercasing turns `"hello_Dear"` into `"hello_dear"` |
| SnakeCaseExamples.HelloDear | test_python_filename_linter/test_to_snake_case.py:10 | `"helloDear"` becomes `"hello_dear"` |
| SnakeCaseExamples.PassOfThisIsATest | test_python_filename_linter/test_to_snake_case.py:11 | the regex pass puts one `_` before `Is` and one before `ATest`, none inside `ATest` |
| SnakeCaseExamples.LowerOfThisIsATest | test_python_filename_linter/test_to_snake_case.py:11 | lowercasing turns `"__This_Is_ATest__"` into `"__this_is_atest__"` |
| SnakeCaseExamples.ThisIsATest | test_python_filename_linter/test_to_snake_case.py:11 | `"__ThisIsATest__"` becomes `"__this_is_atest__"`: a run of capitals is not split |
| SnakeCaseExamples.AlreadySnakeIsCompliant | python_filename_linter/main.py:26 | `"already_snake"` passes the compliance test |
| SnakeCaseExamples.AlreadySnake | python_filename_linter/main.py:12-16 | `"already_snake"` is unchanged |
| SnakeCaseExamples.KebabCase | python_filename_linter/main.py:13 | `"kebab-case-name"` becomes `"kebab_case_name"` |
| PurePaths.Name | python_filename_linter/main.py:22 | `path.name` is the last part, or empty for `.` and for the anchor |
| PurePaths.LastIndexOf | python_filename_linter/main.py:20-22 | the result is -1 exactly when the character is absent, and otherwise its last occurrence |
| PurePaths.Suffix | python_filename_linter/main.py:20 | the suffix is empty exactly when the last dot is missing, first or last; otherwise it is the name's tail from its last dot, at least two characters long, with no further dot |
| PurePaths.Stem | python_filename_linter/main.py:22 | stem followed by suffix is the name; the stem is non-empty when there is a suffix |
| PurePaths.Parent | python_filename_linter/main.py:31 | the parent followed by the name is the path; `.` and the anchor are their own parents |
| PurePaths.Parents | python_filename_linter/main.py:77 | `path.parents` lists every proper prefix of the path, nearest first: all of them for a relative path, all but `.` for an absolute one |
| PurePaths.ParentsAreProperPrefixes | python_filename_linter/main.py:77 | a path is among the parents exactly when it is a proper prefix (other than `.` for an absolute path) |
| PurePaths.Resolve | python_filename_linter/main.py:31 | `root / p` is `p` itself when `p` is absolute, and otherwise gives `p` back when taken relative to `root`; under an absolute root it is absolute |
| PurePaths.RelativeTo | python_filename_linter/main.py:69 | `relative_to` succeeds exactly when the base is a leading run of the parts (an absolute path is never relative to `.`); then base plus result is the path; otherwise ValueError |
| PurePaths.RelativeIsSeparatorFree | python_filename_linter/main.py:69 | a well-formed path taken relative to any base keeps no anchor or separator |
| PurePaths.ParentsSeparatorFree | python_filename_linter/main.py:77 | the parents of a separator-free path are separator-free |
| Lint.Finding | python_filename_linter/main.py:19-36 | `lint_path` returns nothing or the path itself |
| Lint.RenameTarget | python_filename_linter/main.py:30-31 | the target has as many parts as the path and differs from it at most in the last part |
| Lint.FlaggedIffNormaliserChangesStem | python_filename_linter/main.py:20-27 | a path is flagged exactly when its suffix is empty or `.py` and `to_snake_case` would change its stem |
| Lint.CurrentDirectoryNotFlagged | python_filename_linter/main.py:26 | the folder `.` has the empty stem and is never flagged |
| Lint.DotsOfCharMaps | python_filename_linter/main.py:13-16 | hyphen replacement and lowercasing keep every dot and create none |
| Lint.DotsOfInsert | python_filename_linter/main.py:15 | every dot after the regex pass is an input dot at its shifted index |
| Lint.BoundariesBeforeLast | python_filename_linter/main.py:15 | every boundary starts before the last character |
| Lint.NormalisedDotOrigin | python_filename_linter/main.py:30 | every dot of a normalised name comes from a dot of the input |
| Lint.InsertedDotAt | python_filename_linter/main.py:15-16 | after the regex pass and lowercasing, a character sits at its shifted index and is a dot exactly when it was one |
| Lint.NormalisedDotAt | python_filename_linter/main.py:30 | an input character is a dot exactly when its image in the normalised name is |
| Lint.NormalisedLast | python_filename_linter/main.py:30 | the last input character lands last in the normalised name |
| Lint.NormalisedKeepsNoSuffix | python_filename_linter/main.py:30-31 | a name with no suffix still has none once normalised, so the target name keeps the original's (empty) suffix |
| Lint.PySuffixSplits | python_filename_linter/main.py:31 | a non-empty stem plus `.py` splits back into that stem and `.py` |
| Lint.NormalisedIsNotAnchor | python_filename_linter/main.py:30-31 | a flagged stem never normalises to `/` |
| Lint.TargetNameIsNotAnchor | python_filename_linter/main.py:30-31 | the new name of a flagged path is never the bare anchor `/` |
| Lint.RenameTargetKeepsAnchor | python_filename_linter/main.py:31 | the target is absolute exactly when the flagged path is |
| Lint.RenameTargetIsAnotherEntry | python_filename_linter/main.py:31-35 | under any root, the target and the flagged path name different entries, so a move never targets its own source |
| Lint.NewNameSplits | python_filename_linter/main.py:30-31 | the new name splits back into the normalised stem and the old suffix |
| Lint.AppendCancels | python_filename_linter/main.py:31 | two names with the same suffix are equal exactly when their stems are |
| Lint.RenameTargetIsCompliantSibling | python_filename_linter/main.py:29-31 | the rename target has the same parent, the name `to_snake_case(stem) + suffix`, differs from the flagged path, and is itself not flagged |
| Lint.RenameOutcome | python_filename_linter/main.py:29-35 | a move is attempted only in rename mode, for a flagged path, and never onto the path itself; an existing target gives the warning, a missing source the failed move |
| Lint.EntriesAfter | python_filename_linter/main.py:29-35 | the number of entries never changes; an existing target leaves every entry as it was; only a successful move changes anything |
| Lint.FileSystem.Move | python_filename_linter/main.py:35 | `move` onto a free destination removes the source and adds the destination; a missing source raises FileNotFoundError and changes nothing |
| Lint.FileSystem.LintPath | python_filename_linter/main.py:19-36 | returns `Finding(path)`; without rename, or for a compliant path, nothing moves; an existing target is left alone (warned); otherwise exactly the old entry is replaced by the target; the status and new entries are `RenameOutcome` and `EntriesAfter` of the old entries |
| FolderOrder.StrLess | python_filename_linter/main.py:79 | string order never puts a string before itself and extends Dafny's proper-prefix order |
| FolderOrder.StrLessAsymmetric | python_filename_linter/main.py:79 | string order is asymmetric |
| FolderOrder.StrLessTransitive | python_filename_linter/main.py:79 | string order is transitive |
| FolderOrder.StrLessTotal | python_filename_linter/main.py:79 | any two distinct strings are ordered one way or the other |
| FolderOrder.Str | python_filename_linter/main.py:79 | `str(path)` is `.` for the empty path and starts with `/` for an absolute one |
| FolderOrder.JoinPartsSeparators | python_filename_linter/main.py:79 | joining separator-free parts puts exactly one `/` between each two |
| FolderOrder.StrSeparators | python_filename_linter/main.py:79 | `str(path)` of a well-formed path holds one `/` fewer than its parts, or one for the bare anchor |
| FolderOrder.FirstIndexOf | python_filename_linter/main.py:79 | the first occurrence of a character, or the length when it is absent |
| FolderOrder.SplitAtFirstSeparator | python_filename_linter/main.py:79 | a separator-free first part is recovered from a joined string |
| FolderOrder.JoinPartsInjective | python_filename_linter/main.py:79 | joining the same number of separator-free parts with `/` is injective |
| FolderOrder.StrInjective | python_filename_linter/main.py:79 | `str(path)` tells apart separator-free paths with the same number of parts |
| FolderOrder.KeyLe | python_filename_linter/main.py:79 | the key `(-len(parts), str(path))`: more parts always sort first, fewer never do, and every path is in order with itself |
| FolderOrder.KeyLeTotal | python_filename_linter/main.py:79 | the sort key orders every two paths |
| FolderOrder.KeyLeTransitive | python_filename_linter/main.py:79 | the sort key order is transitive |
| FolderOrder.KeyLeAntisymmetric | python_filename_linter/main.py:79 | on separator-free paths, equal keys mean equal paths |
| FolderOrder.InsertByKey | python_filename_linter/main.py:79 | inserting into a sorted list keeps it sorted and adds exactly that element |
| FolderOrder.SortByKey | python_filename_linter/main.py:79 | `sorted` by the key: the result is sorted (more parts first, then string order) and a permutation of the input |
| FolderOrder.Dedup | python_filename_linter/main.py:80 | `groupby` keeps the same set of paths and the first one, leaves no two adjacent equal, changes nothing when no two adjacent paths are equal, and keeps a sorted list sorted; only adjacent repeats are removed (DedupCollapsesRuns) |
| FolderOrder.SortedParts | python_filename_linter/main.py:79 | a list is sorted exactly when its tail is and its first two paths are in key order |
| FolderOrder.RunLengths | python_filename_linter/main.py:80 | one run length per kept path, each at least one |
| FolderOrder.DedupCollapsesRuns | python_filename_linter/main.py:80 | repeating each kept path over the length of its run gives back the input: `groupby` removes only adjacent repeats |
| FolderOrder.StrictlyRising | python_filename_linter/main.py:79-80 | in a sorted list of separator-free paths without adjacent repeats, keys strictly rise |
| FolderOrder.FolderList | python_filename_linter/main.py:79-80 | the folder list is sorted, holds exactly the collected folders, and has no duplicates when no part holds a separator |
| EntryPoint.KeptRelative | python_filename_linter/main.py:66-71 | the filter keeps at most one result per input, each the tail of an input after the root |
| EntryPoint.KeptRelativeMembers | python_filename_linter/main.py:66-71 | a path is kept exactly when some input, taken relative to the root, gives it |
| EntryPoint.RelativeFiles | python_filename_linter/main.py:66-71 | the filter loop builds the kept files in input order, dropping exactly the inputs that raise ValueError |
| EntryPoint.KeptRelativeAsWritten | python_filename_linter/main.py:69 | as written, every kept path is the root with some input taken off its front |
| EntryPoint.AsWrittenDropsFileUnderRoot | python_filename_linter/main.py:59-69 | a file inside the root is dropped as written, and kept as its relative path when the file is taken relative to the root |
| EntryPoint.AllParents | python_filename_linter/main.py:76-77 | a folder is collected exactly when it is a parent of some file |
| EntryPoint.CollectFolders | python_filename_linter/main.py:75-77 | the collection loop gathers exactly the proper prefixes of the files (`.` only for relative files) |
| EntryPoint.Flagged | python_filename_linter/main.py:72-73 | the flagged paths are exactly the listed paths for which `lint_path` returns a finding |
| EntryPoint.FlaggedStep | python_filename_linter/main.py:72-73 | one more path adds its finding, if any, at the end |
| EntryPoint.LintSteps | python_filename_linter/main.py:72-73 | linting a list in order loses no entry; without rename nothing changes and nothing fails |
| EntryPoint.LintStepsStopAtFailure | python_filename_linter/main.py:35 | once a move has raised, the remaining paths change nothing |
| EntryPoint.LintStepsNext | python_filename_linter/main.py:72-73 | one more path takes a run that has not failed to the outcome and entries of `lint_path` on that path |
| EntryPoint.LintNext | python_filename_linter/main.py:73 | one `lint_path` call advances `LintSteps` by one path and returns its finding |
| EntryPoint.LintAll | python_filename_linter/main.py:72-73 | the new entries and the failure flag are `LintSteps` of the old entries; without a failure the findings are all flagged paths in order; after a failure, some path `n` is flagged, its source is missing, and the findings and entries are those of the paths before `n` |
| EntryPoint.Run | python_filename_linter/main.py:66-82 | the entries are `LintSteps` over the kept files, then, when folders are linted and no move failed, `LintSteps` over the folder list from there; the findings are the flagged files and folders; without rename the filesystem is untouched; the number of entries never changes |
| EntryPoint.FoldersLintedOnce | python_filename_linter/main.py:75-82 | with well-formed inputs, no folder is linted twice |

## Left out

- The attribute typo at main.py:20: `path.usffix` would raise AttributeError on every call of `lint_path`. The model reads `path.suffix`, as the second half of that test does.
- The call `map()` at main.py:78 would raise TypeError whenever folders are linted. The model treats it as the identity.
- Argument parsing, the `__main__` hook and the default root `getcwd()` (main.py:39-65, 85-86): the root, the inputs and the two flags are parameters of `EntryPoint.Run`.
- Logging (main.py:9, 33): the collision warning is the status `WouldOverwrite`.
- `shutil.move` beyond the no-overwrite rule: cross-device copies, permission errors, and moving a folder together with its contents. A move replaces one entry of the set by another.
- Exceptions: a failed move is the status `SourceMissing`. `EntryPoint.LintAll` then stops and reports `failed`, where Python unwinds the whole run.
- Unicode case mapping in `str.lower` (main.py:16, 26): only ASCII letters change case.
- Exit status and the report text: the entry point in `main.py` computes neither.
- EntryPoint.Run: lints `KeptRelative(root, inputs)`, each file taken relative to the root, which is the corrected direction. main.py:69 takes the root relative to each file instead (`KeptRelativeAsWritten`, see "## Findings").
- The stability of Python's sort: `FolderOrder.SortByKey` proves a sorted permutation. Equal keys mean equal paths when no part holds `/`, so the order is then the same.

## Findings

| source | as written | input that shows it | evidently intended | confidence | as-written member | corrected member |
|---|---|---|---|---|---|---|
| python_filename_linter/main.py:69 | `args.root.relative_to(file)` keeps only inputs that are the root or one of its ancestors | root `/home/proj`, input `/home/proj/FooBar.py`: dropped | `file.relative_to(args.root)`: keep `FooBar.py`, as the help text at main.py:59-61 promises | high; not executed | EntryPoint.KeptRelativeAsWritten, EntryPoint.AsWrittenDropsFileUnderRoot | EntryPoint.RelativeFiles |
