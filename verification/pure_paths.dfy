/**
 * The parts of `pathlib.PurePosixPath` that the linter relies on, on paths
 * given as their sequence of parts (`Path.parts`). An absolute path starts
 * with the anchor part "/", as `Path("/a/b").parts == ("/", "a", "b")`;
 * the empty sequence is the path ".".
 */
module PurePaths {
  import opened Wrappers

  type Path = seq<string>

  const Anchor: string := "/"

  predicate IsAbsolute(p: Path) { |p| > 0 && p[0] == Anchor }

  /** Every part except a leading anchor is free of the separator `/`. */
  predicate WellFormed(p: Path)
  {
    forall i :: 0 <= i < |p| ==> '/' !in p[i] || (i == 0 && p[i] == Anchor)
  }

  /** No part holds the separator: a well-formed relative path. */
  predicate SeparatorFree(p: Path)
  {
    forall i :: 0 <= i < |p| ==> '/' !in p[i]
  }

  /** `path.name`: the final part, or "" for "." and for the bare anchor. */
  function Name(p: Path): (r: string)
    ensures p != [] && p != [Anchor] ==> r == p[|p| - 1]
    ensures p == [] || p == [Anchor] ==> r == ""
  {
    if p == [] || p == [Anchor] then "" else p[|p| - 1]
  }

  /** `str.rfind(c)`: the last index of `c` in `s`, or -1 when there is none. */
  function LastIndexOf(s: string, c: char): (r: int)
    ensures -1 <= r < |s|
    ensures r == -1 <==> c !in s
    ensures r >= 0 ==> s[r] == c
    ensures forall j :: r < j < |s| ==> s[j] != c
  {
    if s == [] then -1
    else if s[|s| - 1] == c then |s| - 1
    else LastIndexOf(s[..|s| - 1], c)
  }

  /** Whether `pathlib` splits `name` at its last dot: not at the start, not at the end. */
  predicate HasSuffix(name: string)
  {
    0 < LastIndexOf(name, '.') < |name| - 1
  }

  /** `path.suffix` of a path whose name is `name`. */
  function Suffix(name: string): (r: string)
    ensures r == "" <==> !HasSuffix(name)
    ensures r != "" ==> 2 <= |r| < |name| && r[0] == '.' && '.' !in r[1..]
    ensures r != "" ==> name[|name| - |r|..] == r
  {
    if HasSuffix(name) then name[LastIndexOf(name, '.')..] else ""
  }

  /** `path.stem` of a path whose name is `name`. */
  function Stem(name: string): (r: string)
    ensures r + Suffix(name) == name
    ensures HasSuffix(name) ==> r != []
  {
    if HasSuffix(name) then name[..LastIndexOf(name, '.')] else name
  }

  /** `path.parent`: "." and the anchor are their own parents. */
  function Parent(p: Path): (r: Path)
    ensures p == [] || p == [Anchor] ==> r == p
    ensures p != [] && p != [Anchor] ==> r + [Name(p)] == p
  {
    if p == [] || p == [Anchor] then p else p[..|p| - 1]
  }

  /**
   * `path.parents`: the ancestors of `p`, nearest first, ending with "."
   * for a relative path and with the anchor for an absolute one.
   */
  function Parents(p: Path): (r: seq<Path>)
    ensures |r| == if IsAbsolute(p) then |p| - 1 else |p|
    ensures forall j :: 0 <= j < |r| ==> r[j] == p[..|p| - 1 - j]
    decreases |p|
  {
    if p == [] || p == [Anchor] then [] else [Parent(p)] + Parents(Parent(p))
  }

  /** A folder is a parent of `f` exactly when it is a proper prefix of it, "." aside for absolute paths. */
  lemma ParentsAreProperPrefixes(f: Path, q: Path)
    ensures q in Parents(f) <==> q < f && !(IsAbsolute(f) && q == [])
  {
    var ps := Parents(f);
    if q < f && !(IsAbsolute(f) && q == []) {
      var j := |f| - 1 - |q|;
      assert ps[j] == f[..|q|] == q;
    }
  }

  /**
   * `root / p`: joining with an absolute path discards `root`; a relative
   * path is appended, and `relative_to(root)` gives it back.
   */
  function Resolve(root: Path, p: Path): (r: Path)
    ensures IsAbsolute(p) ==> r == p
    ensures !IsAbsolute(p) ==> RelativeTo(r, root) == Ok(p)
    ensures IsAbsolute(root) ==> IsAbsolute(r)
  {
    if IsAbsolute(p) then p else root + p
  }

  /**
   * `p.relative_to(base)`: strips `base` off the front of `p`. It raises
   * ValueError when `base` is not a leading run of `p`'s parts, and when an
   * absolute `p` is taken relative to ".".
   */
  function RelativeTo(p: Path, base: Path): (r: Result<Path>)
    ensures r.Ok? <==> base <= p && !(base == [] && IsAbsolute(p))
    ensures r.Ok? ==> base + r.value == p
    ensures r.Err? ==> r.error == ValueError
  {
    if base == [] && IsAbsolute(p) then Err(ValueError)
    else if base <= p then Ok(p[|base|..])
    else Err(ValueError)
  }

  /** A well-formed path made relative to any base has no anchor left. */
  lemma RelativeIsSeparatorFree(p: Path, base: Path)
    requires WellFormed(p) && RelativeTo(p, base).Ok?
    ensures SeparatorFree(RelativeTo(p, base).value)
  {
    var r := RelativeTo(p, base).value;
    forall i | 0 <= i < |r| ensures '/' !in r[i] {
      assert r[i] == p[|base| + i];
      if |base| == 0 {
        assert !IsAbsolute(p);
      }
    }
  }

  /** The parents of a separator-free path are separator-free. */
  lemma ParentsSeparatorFree(p: Path)
    requires SeparatorFree(p)
    ensures forall q :: q in Parents(p) ==> SeparatorFree(q)
  {
    forall q | q in Parents(p) ensures SeparatorFree(q) {
      var j :| 0 <= j < |Parents(p)| && Parents(p)[j] == q;
      assert q == p[..|p| - 1 - j];
    }
  }
}
