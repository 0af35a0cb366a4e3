/**
 * `lint_path`: decides whether a path's name breaks the snake-case rule and,
 * in rename mode, moves the entry to its snake-case name unless that would
 * overwrite another entry.
 *
 * The filesystem is a class holding the set of existing entries, each an
 * absolute path; `move` removes one entry and adds another.
 */
module Lint {
  import opened Wrappers
  import opened SnakeCase
  import opened PurePaths

  /**
   * What `lint_path` returns: `None` when the path is skipped (a suffix other
   * than ".py") or already compliant, otherwise the path itself.
   * The guard reads `path.suffix`; the code at main.py:20 spells the first
   * attribute `usffix`, which Python would reject on every call.
   */
  function Finding(p: Path): (r: Option<Path>)
    ensures r.Some? ==> r.value == p
  {
    var name := Name(p);
    if Suffix(name) != "" && Suffix(name) != ".py" then None
    else if IsCompliant(Stem(name)) then None
    else Some(p)
  }

  /**
   * The sibling that `lint_path` renames to: snake-case stem, same suffix.
   * It agrees with `p` on every part but the last.
   */
  function RenameTarget(p: Path): (r: Path)
    ensures p != [] && p != [Anchor] ==> |r| == |p| && r[..|p| - 1] == p[..|p| - 1]
  {
    Parent(p) + [ToSnakeCase(Stem(Name(p))) + Suffix(Name(p))]
  }

  /** A path is flagged exactly when it is linted and the normaliser would change its stem. */
  lemma FlaggedIffNormaliserChangesStem(p: Path)
    ensures Finding(p).Some? <==>
              (Suffix(Name(p)) == "" || Suffix(Name(p)) == ".py") &&
              ToSnakeCase(Stem(Name(p))) != Stem(Name(p))
  {
    FixedPointIffCompliant(Stem(Name(p)));
  }

  /** "." has the empty stem, which is compliant: the root folder is never flagged. */
  lemma CurrentDirectoryNotFlagged()
    ensures Finding([]) == None
  {
    assert Lower("") == "";
  }

  // ---------------------------------------------------------------------------
  // Dots survive normalisation

  /** Lowercasing and replacing hyphens keep every dot and make none. */
  lemma DotsOfCharMaps(x: string, i: int)
    requires 0 <= i < |x|
    ensures ReplaceHyphens(x)[i] == '.' <==> x[i] == '.'
    ensures |Lower(x)| == |x| && (Lower(x)[i] == '.' <==> x[i] == '.')
  {
  }

  /** In the regex pass, each dot lands at its shifted index and no new dot appears. */
  lemma DotsOfInsert(y: string, k: int)
    requires 0 <= k < |InsertAtBoundaries(y)|
    requires InsertAtBoundaries(y)[k] == '.'
    ensures exists i :: 0 <= i < |y| && k == i + BoundariesBefore(y, i) && y[i] == '.'
  {
    InsertedNowhereElse(y, k);
    var i :| 0 <= i < |y| &&
             (k == i + BoundariesBefore(y, i) ||
              (IsBoundary(y, i) && k == i + BoundariesBefore(y, i) + 1));
    InsertedPositions(y, i);
  }

  /** All boundaries start before the last index. */
  lemma {:induction false} BoundariesBeforeLast(s: string)
    requires |s| >= 1
    ensures BoundariesBefore(s, |s| - 1) == BoundaryCount(s)
    decreases |s|
  {
    if |s| >= 2 {
      BoundariesBeforeLast(s[1..]);
    }
  }

  /** Every dot of the normalised name comes from a dot of `x`, at its shifted index. */
  lemma NormalisedDotOrigin(x: string, k: int)
    requires 0 <= k < |ToSnakeCase(x)| && ToSnakeCase(x)[k] == '.'
    ensures exists i :: 0 <= i < |x| && k == i + BoundariesBefore(ReplaceHyphens(x), i) && x[i] == '.'
  {
    var y := ReplaceHyphens(x);
    var z := SubBoundaries(y);
    SubBoundariesInsertsAtEveryBoundary(y);
    DotsOfCharMaps(z, k);
    DotsOfInsert(y, k);
    var i :| 0 <= i < |y| && k == i + BoundariesBefore(y, i) && y[i] == '.';
    DotsOfCharMaps(x, i);
  }

  /** After the regex pass and lower-casing, `y[i]` sits at its shifted index and is a dot exactly when it was. */
  lemma InsertedDotAt(y: string, i: int)
    requires 0 <= i < |y|
    ensures i + BoundariesBefore(y, i) < |Lower(InsertAtBoundaries(y))|
    ensures Lower(InsertAtBoundaries(y))[i + BoundariesBefore(y, i)] == '.' <==> y[i] == '.'
  {
    var z := InsertAtBoundaries(y);
    var k := i + BoundariesBefore(y, i);
    assert k < |z| && z[k] == y[i] by {
      InsertedPositions(y, i);
    }
    DotsOfCharMaps(z, k);
  }

  /** The character `x[i]` is a dot exactly when its shifted image is. */
  lemma NormalisedDotAt(x: string, i: int)
    requires 0 <= i < |x|
    ensures i + BoundariesBefore(ReplaceHyphens(x), i) < |ToSnakeCase(x)|
    ensures ToSnakeCase(x)[i + BoundariesBefore(ReplaceHyphens(x), i)] == '.' <==> x[i] == '.'
  {
    var y := ReplaceHyphens(x);
    assert ToSnakeCase(x) == Lower(InsertAtBoundaries(y)) by {
      SubBoundariesInsertsAtEveryBoundary(y);
    }
    InsertedDotAt(y, i);
    DotsOfCharMaps(x, i);
  }

  /** The last character of `x` lands last in the normalised name. */
  lemma NormalisedLast(x: string)
    requires |x| >= 1
    ensures |x| - 1 + BoundariesBefore(ReplaceHyphens(x), |x| - 1) == |ToSnakeCase(x)| - 1
  {
    var y := ReplaceHyphens(x);
    SubBoundariesInsertsAtEveryBoundary(y);
    InsertedLength(y);
    BoundariesBeforeLast(y);
  }

  /**
   * A name that `pathlib` does not split into stem and suffix stays unsplit
   * once normalised: a dot that was missing, first or last still is.
   */
  lemma NormalisedKeepsNoSuffix(x: string)
    requires !HasSuffix(x)
    ensures !HasSuffix(ToSnakeCase(x))
  {
    var r := ToSnakeCase(x);
    var last := LastIndexOf(x, '.');
    if last == -1 {
      forall k | 0 <= k < |r| ensures r[k] != '.' {
        if r[k] == '.' {
          NormalisedDotOrigin(x, k);
        }
      }
      assert '.' !in r;
    } else if last == 0 {
      NormalisedDotAt(x, 0);
      forall k | 0 < k < |r| ensures r[k] != '.' {
        if r[k] == '.' {
          NormalisedDotOrigin(x, k);
        }
      }
      assert LastIndexOf(r, '.') == 0;
    } else {
      NormalisedDotAt(x, |x| - 1);
      NormalisedLast(x);
      assert LastIndexOf(r, '.') == |r| - 1;
    }
  }

  /** Appending ".py" to a non-empty stem gives back that stem and suffix. */
  lemma PySuffixSplits(t: string)
    requires t != []
    ensures Suffix(t + ".py") == ".py" && Stem(t + ".py") == t
  {
    var n := t + ".py";
    assert n[|t|] == '.' && n[|t| + 1] == 'p' && n[|t| + 2] == 'y';
    assert LastIndexOf(n, '.') == |t|;
  }

  /** A flagged stem never normalises to "/", which would name the anchor. */
  lemma NormalisedIsNotAnchor(stem: string)
    requires !IsCompliant(stem)
    ensures ToSnakeCase(stem) != Anchor
  {
    var y := ReplaceHyphens(stem);
    SubBoundariesInsertsAtEveryBoundary(y);
    InsertedLength(y);
    assert stem != [] by { assert Lower([]) == []; }
    if |stem| == 1 {
      assert IsCompliant("/") by { assert Lower("/") == "/"; }
      assert stem == [stem[0]];
      assert SubBoundaries(y) == y;
      assert ToSnakeCase(stem)[0] == LowerChar(y[0]);
    }
  }

  /** The new name of a flagged path is never the bare anchor. */
  lemma TargetNameIsNotAnchor(p: Path)
    requires Finding(p).Some?
    ensures ToSnakeCase(Stem(Name(p))) + Suffix(Name(p)) != Anchor
  {
    var stem, suffix := Stem(Name(p)), Suffix(Name(p));
    NormalisedIsNotAnchor(stem);
    if suffix != "" {
      assert |ToSnakeCase(stem) + suffix| >= 2;
    }
  }

  /** Renaming keeps a path absolute or relative. */
  lemma RenameTargetKeepsAnchor(p: Path)
    requires Finding(p).Some?
    ensures IsAbsolute(RenameTarget(p)) <==> IsAbsolute(p)
  {
    assert p != [] && p != [Anchor] by { assert Lower([]) == []; }
    var q := RenameTarget(p);
    if |p| == 1 {
      assert IsCompliant(Anchor) by { assert Lower(Anchor) == Anchor; }
      TargetNameIsNotAnchor(p);
      assert q == [q[0]];
    } else {
      assert q[0] == q[..|p| - 1][0] == p[..|p| - 1][0] == p[0];
    }
  }

  /** Under any root, a flagged path and its rename target are different entries. */
  lemma RenameTargetIsAnotherEntry(root: Path, p: Path)
    requires Finding(p).Some?
    ensures Resolve(root, RenameTarget(p)) != Resolve(root, p)
  {
    RenameTargetIsCompliantSibling(p);
    RenameTargetKeepsAnchor(p);
    var q := RenameTarget(p);
    if !IsAbsolute(p) {
      assert (root + q)[|root|..] == q && (root + p)[|root|..] == p;
    }
  }

  lemma AppendCancels(a: string, b: string, c: string)
    ensures a + c == b + c <==> a == b
  {
    if a + c == b + c {
      assert a == (a + c)[..|a|];
    }
  }

  /** The new name splits back into the normalised stem and the old suffix. */
  lemma NewNameSplits(p: Path)
    requires Finding(p).Some?
    ensures Stem(ToSnakeCase(Stem(Name(p))) + Suffix(Name(p))) == ToSnakeCase(Stem(Name(p)))
    ensures Suffix(ToSnakeCase(Stem(Name(p))) + Suffix(Name(p))) == Suffix(Name(p))
  {
    var stem, suffix := Stem(Name(p)), Suffix(Name(p));
    var t := ToSnakeCase(stem);
    if suffix == ".py" {
      assert |t| >= |stem| > 0 by {
        SnakeCaseIsCompliant(stem);
      }
      PySuffixSplits(t);
    } else {
      assert suffix == "" && t + suffix == t && !HasSuffix(stem);
      NormalisedKeepsNoSuffix(stem);
    }
  }

  /**
   * Renaming fixes the finding: the target is a sibling of the flagged path,
   * differs from it, and is itself not flagged.
   */
  lemma RenameTargetIsCompliantSibling(p: Path)
    requires Finding(p).Some?
    ensures Parent(RenameTarget(p)) == Parent(p)
    ensures Name(RenameTarget(p)) == ToSnakeCase(Stem(Name(p))) + Suffix(Name(p))
    ensures RenameTarget(p) != p
    ensures Finding(RenameTarget(p)) == None
  {
    var name := Name(p);
    var stem, suffix := Stem(name), Suffix(name);
    var t := ToSnakeCase(stem);
    var q := RenameTarget(p);
    assert p != [] && p != [Anchor] by { assert Lower([]) == []; }
    assert Name(q) == t + suffix by { TargetNameIsNotAnchor(p); }
    assert q != p by {
      assert t + suffix != name by {
        FlaggedIffNormaliserChangesStem(p);
        AppendCancels(t, stem, suffix);
      }
    }
    assert Finding(q) == None by {
      NewNameSplits(p);
      SnakeCaseIsCompliant(stem);
    }
  }

  // ---------------------------------------------------------------------------
  // The filesystem and the rename step

  /** What the rename branch of `lint_path` did. */
  datatype RenameStatus =
    | NotRenamed      // not in rename mode, or nothing to fix
    | Renamed         // the entry was moved to its target
    | WouldOverwrite  // the target exists: warned and left alone
    | SourceMissing   // `move` raised: the entry to rename does not exist

  /**
   * The status `lint_path` reaches on a filesystem holding `entries`: a
   * rename is attempted only in rename mode, for a flagged path, and never
   * onto the path itself.
   */
  function RenameOutcome(entries: set<Path>, root: Path, rename: bool, p: Path): (r: RenameStatus)
    ensures r != NotRenamed ==>
              rename && Finding(p).Some? && Resolve(root, RenameTarget(p)) != Resolve(root, p)
  {
    if !rename || Finding(p).None? then NotRenamed
    else
      RenameTargetIsAnotherEntry(root, p);
      if Resolve(root, RenameTarget(p)) in entries then WouldOverwrite
      else if Resolve(root, p) in entries then Renamed
      else SourceMissing
  }

  /**
   * The entries after `lint_path`: only a successful rename changes them,
   * an existing target is never overwritten, and no entry is lost.
   */
  function EntriesAfter(entries: set<Path>, root: Path, rename: bool, p: Path): (r: set<Path>)
    ensures |r| == |entries|
    ensures Resolve(root, RenameTarget(p)) in entries ==> r == entries
    ensures RenameOutcome(entries, root, rename, p) != Renamed ==> r == entries
  {
    if RenameOutcome(entries, root, rename, p) == Renamed then
      var src, dst := Resolve(root, p), Resolve(root, RenameTarget(p));
      assert |entries - {src}| == |entries| - 1;
      entries - {src} + {dst}
    else entries
  }

  class FileSystem {
    /** Every existing file and folder, as an absolute path. */
    var entries: set<Path>

    constructor (initial: set<Path>)
      ensures entries == initial
    {
      entries := initial;
    }

    /** `shutil.move(src, dst)` onto a free destination. */
    method Move(src: Path, dst: Path) returns (r: Result<()>)
      requires dst !in entries
      modifies this
      ensures r.Ok? <==> src in old(entries)
      ensures r.Err? ==> r.error == FileNotFound
      ensures entries == if r.Ok? then old(entries) - {src} + {dst} else old(entries)
    {
      if src in entries {
        entries := entries - {src} + {dst};
        r := Ok(());
      } else {
        r := Err(FileNotFound);
      }
    }

    /**
     * `lint_path(path, root, rename)`. The finding is the function `Finding`;
     * in rename mode a flagged entry is moved to `RenameTarget` under `root`
     * only when nothing exists there, so no entry is ever lost.
     */
    method LintPath(path: Path, root: Path, rename: bool) returns (finding: Option<Path>, status: RenameStatus)
      modifies this
      ensures finding == Finding(path)
      ensures status == NotRenamed <==> !rename || finding.None?
      ensures status == WouldOverwrite ==> Resolve(root, RenameTarget(path)) in old(entries)
      ensures status == SourceMissing ==>
                Resolve(root, RenameTarget(path)) !in old(entries) && Resolve(root, path) !in old(entries)
      ensures status == Renamed ==>
                Resolve(root, RenameTarget(path)) !in old(entries) && Resolve(root, path) in old(entries) &&
                entries == old(entries) - {Resolve(root, path)} + {Resolve(root, RenameTarget(path))}
      ensures status != Renamed ==> entries == old(entries)
      ensures status == RenameOutcome(old(entries), root, rename, path)
      ensures entries == EntriesAfter(old(entries), root, rename, path)
    {
      finding := Finding(path);
      status := NotRenamed;
      if finding.Some? && rename {
        var newPath := Resolve(root, RenameTarget(path));
        if newPath in entries {  // `new_path.exists()`
          status := WouldOverwrite;
        } else {
          var moved := Move(Resolve(root, path), newPath);
          status := if moved.Ok? then Renamed else SourceMissing;
        }
      }
    }
  }
}
