/**
 * The work of `filename_linter_entryponint` after argument parsing: make the
 * given files relative to the root, lint them, and, when folders are linted
 * too, collect every ancestor folder, order them and lint each once.
 *
 * The model returns what `lint_path` returned for each path; the entry point
 * itself drops those values.
 */
module EntryPoint {
  import opened Wrappers
  import opened PurePaths
  import opened FolderOrder
  import opened Lint

  // ---------------------------------------------------------------------------
  // The relative-to filter

  /**
   * The files the filter loop keeps, in input order: each input taken
   * relative to `root`, dropping those that raise ValueError.
   */
  function KeptRelative(root: Path, inputs: seq<Path>): (r: seq<Path>)
    ensures |r| <= |inputs|
    ensures forall f :: f in r ==> root + f in inputs
  {
    if inputs == [] then []
    else
      var last := inputs[|inputs| - 1];
      var front := KeptRelative(root, inputs[..|inputs| - 1]);
      match RelativeTo(last, root)
      case Ok(f) => front + [f]
      case Err(_) => front
  }

  /** The filter keeps exactly the inputs that lie under `root`. */
  lemma {:induction false} KeptRelativeMembers(root: Path, inputs: seq<Path>, f: Path)
    ensures f in KeptRelative(root, inputs) <==>
              exists i :: 0 <= i < |inputs| && RelativeTo(inputs[i], root) == Ok(f)
    decreases |inputs|
  {
    if inputs != [] {
      var front := inputs[..|inputs| - 1];
      KeptRelativeMembers(root, front, f);
      if exists i :: 0 <= i < |inputs| && RelativeTo(inputs[i], root) == Ok(f) {
        var i :| 0 <= i < |inputs| && RelativeTo(inputs[i], root) == Ok(f);
        if i < |inputs| - 1 {
          assert front[i] == inputs[i];
        }
      }
      if exists i :: 0 <= i < |front| && RelativeTo(front[i], root) == Ok(f) {
        var i :| 0 <= i < |front| && RelativeTo(front[i], root) == Ok(f);
        assert inputs[i] == front[i];
      }
    }
  }

  /**
   * The loop of main.py:66-71 with the arguments of `relative_to` the way
   * round its help text describes: each file relative to the root.
   */
  method RelativeFiles(root: Path, inputs: seq<Path>) returns (files: seq<Path>)
    ensures files == KeptRelative(root, inputs)
    ensures forall f :: f in files ==> root + f in inputs
  {
    files := [];
    for i := 0 to |inputs|
      invariant files == KeptRelative(root, inputs[..i])
    {
      assert inputs[..i + 1][..i] == inputs[..i];
      match RelativeTo(inputs[i], root)
      case Ok(f) => files := files + [f];
      case Err(_) =>
    }
    assert inputs[..|inputs|] == inputs;
  }

  /** The filter as main.py:69 writes it: the root taken relative to each file. */
  function KeptRelativeAsWritten(root: Path, inputs: seq<Path>): (r: seq<Path>)
    ensures |r| <= |inputs|
    ensures forall f :: f in r ==> exists i :: 0 <= i < |inputs| && inputs[i] + f == root
  {
    if inputs == [] then []
    else
      var last := inputs[|inputs| - 1];
      var front := KeptRelativeAsWritten(root, inputs[..|inputs| - 1]);
      match RelativeTo(root, last)
      case Ok(f) => front + [f]
      case Err(_) => front
  }

  /**
   * As written, a file strictly inside the root is dropped, where the help
   * text promises to keep it as a path relative to the root.
   */
  lemma AsWrittenDropsFileUnderRoot()
    ensures KeptRelativeAsWritten(["/", "home", "proj"], [["/", "home", "proj", "FooBar.py"]]) == []
    ensures KeptRelative(["/", "home", "proj"], [["/", "home", "proj", "FooBar.py"]]) == [["FooBar.py"]]
  {
    var root: Path := ["/", "home", "proj"];
    var file: Path := ["/", "home", "proj", "FooBar.py"];
    assert !(file <= root) by { assert |file| > |root|; }
    assert root <= file by { assert file[..|root|] == root; }
    assert file[|root|..] == ["FooBar.py"];
  }

  // ---------------------------------------------------------------------------
  // Collecting ancestor folders

  /** The parents of each file, file after file, nearest parent first. */
  function AllParents(files: seq<Path>): (r: seq<Path>)
    ensures forall q :: q in r <==> exists i :: 0 <= i < |files| && q in Parents(files[i])
  {
    if files == [] then []
    else
      var front := files[..|files| - 1];
      var r := AllParents(front) + Parents(files[|files| - 1]);
      assert forall i :: 0 <= i < |front| ==> files[i] == front[i];
      r
  }

  /** The loop of main.py:75-77: `folders.extend(f.parents)` for every file. */
  method CollectFolders(files: seq<Path>) returns (folders: seq<Path>)
    ensures folders == AllParents(files)
    ensures forall q :: q in folders <==> exists i :: 0 <= i < |files| && q < files[i] && !(IsAbsolute(files[i]) && q == [])
  {
    folders := [];
    for i := 0 to |files|
      invariant folders == AllParents(files[..i])
    {
      assert files[..i + 1][..i] == files[..i];
      folders := folders + Parents(files[i]);
    }
    assert files[..|files|] == files;
    forall q ensures q in folders <==> exists i :: 0 <= i < |files| && q < files[i] && !(IsAbsolute(files[i]) && q == []) {
      forall i | 0 <= i < |files| {
        ParentsAreProperPrefixes(files[i], q);
      }
    }
  }

  // ---------------------------------------------------------------------------
  // Linting a list of paths and the whole run

  /** The paths for which `lint_path` returns a finding, in order. */
  function Flagged(paths: seq<Path>): (r: seq<Path>)
    ensures forall p :: p in r <==> p in paths && Finding(p).Some?
  {
    if paths == [] then []
    else
      var last := paths[|paths| - 1];
      var front := paths[..|paths| - 1];
      assert paths == front + [last];
      Flagged(front) + (if Finding(last).Some? then [last] else [])
  }

  lemma FlaggedStep(paths: seq<Path>, i: int)
    requires 0 <= i < |paths|
    ensures Flagged(paths[..i + 1]) ==
              Flagged(paths[..i]) + (if Finding(paths[i]).Some? then [paths[i]] else [])
  {
    assert paths[..i + 1][..i] == paths[..i];
  }

  /** How far a sequence of `lint_path` calls got: the entries, and whether a move raised. */
  datatype Progress = Progress(entries: set<Path>, failed: bool)

  /**
   * The filesystem after `lint_path` has run on `paths` in order, starting
   * from `entries`: a move that raises ends the run there. No entry is ever
   * lost, and without rename nothing changes and nothing fails.
   */
  function LintSteps(entries: set<Path>, root: Path, rename: bool, paths: seq<Path>): (r: Progress)
    ensures |r.entries| == |entries|
    ensures !rename ==> r == Progress(entries, false)
    decreases |paths|
  {
    if paths == [] then Progress(entries, false)
    else
      var before := LintSteps(entries, root, rename, paths[..|paths| - 1]);
      var p := paths[|paths| - 1];
      if before.failed then before
      else if RenameOutcome(before.entries, root, rename, p) == SourceMissing then Progress(before.entries, true)
      else Progress(EntriesAfter(before.entries, root, rename, p), false)
  }

  /** After a failed move, the remaining paths change nothing. */
  lemma {:induction false} LintStepsStopAtFailure(entries: set<Path>, root: Path, rename: bool, paths: seq<Path>, n: nat)
    requires n <= |paths| && LintSteps(entries, root, rename, paths[..n]).failed
    ensures LintSteps(entries, root, rename, paths) == LintSteps(entries, root, rename, paths[..n])
    decreases |paths|
  {
    if n == |paths| {
      assert paths[..n] == paths;
    } else {
      var front := paths[..|paths| - 1];
      assert front[..n] == paths[..n];
      LintStepsStopAtFailure(entries, root, rename, front, n);
    }
  }

  /** One more path: from a run that has not failed, `lint_path` on `paths[i]` decides the next state. */
  lemma LintStepsNext(entries: set<Path>, root: Path, rename: bool, paths: seq<Path>, i: nat, current: set<Path>)
    requires i < |paths| && LintSteps(entries, root, rename, paths[..i]) == Progress(current, false)
    ensures LintSteps(entries, root, rename, paths[..i + 1]) ==
              if RenameOutcome(current, root, rename, paths[i]) == SourceMissing then Progress(current, true)
              else Progress(EntriesAfter(current, root, rename, paths[i]), false)
  {
    assert paths[..i + 1][..i] == paths[..i];
  }

  /** `lint_path` on `paths[i]`, as the next step of a run from `start` that has not failed so far. */
  method LintNext(fs: FileSystem, ghost start: set<Path>, paths: seq<Path>, i: nat, root: Path, rename: bool)
    returns (finding: Option<Path>, failed: bool)
    requires i < |paths| && LintSteps(start, root, rename, paths[..i]) == Progress(fs.entries, false)
    modifies fs
    ensures finding == Finding(paths[i])
    ensures LintSteps(start, root, rename, paths[..i + 1]) == Progress(fs.entries, failed)
    ensures failed ==>
              fs.entries == old(fs.entries) && Finding(paths[i]).Some? &&
              RenameOutcome(fs.entries, root, rename, paths[i]) == SourceMissing
  {
    var status;
    finding, status := fs.LintPath(paths[i], root, rename);
    LintStepsNext(start, root, rename, paths, i, old(fs.entries));
    failed := status == SourceMissing;
  }

  /**
   * `for p in paths: lint_path(p, root, rename)`. A failed move raises in
   * the source and ends the run, so the loop stops there.
   */
  method LintAll(fs: FileSystem, paths: seq<Path>, root: Path, rename: bool)
    returns (findings: seq<Path>, failed: bool)
    modifies fs
    ensures LintSteps(old(fs.entries), root, rename, paths) == Progress(fs.entries, failed)
    ensures !failed ==> findings == Flagged(paths)
    ensures failed ==>
              exists n :: 0 <= n < |paths| &&
                findings == Flagged(paths[..n]) &&
                LintSteps(old(fs.entries), root, rename, paths[..n]) == Progress(fs.entries, false) &&
                Finding(paths[n]).Some? && RenameOutcome(fs.entries, root, rename, paths[n]) == SourceMissing
  {
    findings, failed := [], false;
    var i := 0;
    while i < |paths|
      invariant 0 <= i <= |paths|
      invariant findings == Flagged(paths[..i])
      invariant LintSteps(old(fs.entries), root, rename, paths[..i]) == Progress(fs.entries, false)
    {
      var finding;
      finding, failed := LintNext(fs, old(fs.entries), paths, i, root, rename);
      if failed {
        LintStepsStopAtFailure(old(fs.entries), root, rename, paths, i + 1);
        return;
      }
      FlaggedStep(paths, i);
      if finding.Some? {
        findings := findings + [finding.value];
      }
      i := i + 1;
    }
    assert paths[..i] == paths;
  }

  /**
   * The entry point after argument parsing: lint the files under `root`,
   * then, with `lintFolders`, every ancestor folder of them, deepest first.
   * A failed move while linting files ends the run before the folders.
   */
  method Run(fs: FileSystem, root: Path, inputs: seq<Path>, rename: bool, lintFolders: bool)
    returns (fileFindings: seq<Path>, folderFindings: seq<Path>, failed: bool)
    modifies fs
    ensures var files := KeptRelative(root, inputs);
            var afterFiles := LintSteps(old(fs.entries), root, rename, files);
            if afterFiles.failed || !lintFolders then
              fs.entries == afterFiles.entries && failed == afterFiles.failed
            else
              LintSteps(afterFiles.entries, root, rename, FolderList(AllParents(files))) == Progress(fs.entries, failed)
    ensures !failed ==> fileFindings == Flagged(KeptRelative(root, inputs))
    ensures !failed && lintFolders ==>
              folderFindings == Flagged(FolderList(AllParents(KeptRelative(root, inputs))))
    ensures !lintFolders ==> folderFindings == []
    ensures !rename ==> !failed && fs.entries == old(fs.entries)
    ensures |fs.entries| == |old(fs.entries)|
  {
    var files := RelativeFiles(root, inputs);
    fileFindings, failed := LintAll(fs, files, root, rename);
    folderFindings := [];
    if lintFolders && !failed {
      var folders := CollectFolders(files);
      folderFindings, failed := LintAll(fs, FolderList(folders), root, rename);
    }
  }

  /**
   * With well-formed inputs, every folder is linted once: the folder list
   * has no repeats, and it holds exactly the ancestors of the kept files.
   */
  lemma FoldersLintedOnce(root: Path, inputs: seq<Path>)
    requires forall i :: 0 <= i < |inputs| ==> WellFormed(inputs[i])
    ensures NoDuplicates(FolderList(AllParents(KeptRelative(root, inputs))))
  {
    var files := KeptRelative(root, inputs);
    forall q | q in AllParents(files) ensures SeparatorFree(q) {
      var i :| 0 <= i < |files| && q in Parents(files[i]);
      KeptRelativeMembers(root, inputs, files[i]);
      var k :| 0 <= k < |inputs| && RelativeTo(inputs[k], root) == Ok(files[i]);
      RelativeIsSeparatorFree(inputs[k], root);
      ParentsSeparatorFree(files[i]);
    }
  }
}
