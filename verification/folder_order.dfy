/**
 * The order in which the entry point lints folders:
 * `sorted(folders, key=lambda f: (-len(f.parts), str(f)))` followed by
 * `[k for k, _ in groupby(folders)]` — deepest first, then by the path's
 * string, with adjacent repeats removed.
 */
module FolderOrder {
  import opened PurePaths

  // ---------------------------------------------------------------------------
  // Python's string order and `str(path)`

  /**
   * `a < b` on Python strings: code point by code point, a proper prefix
   * first; no string sorts before itself.
   */
  predicate StrLess(a: string, b: string)
    ensures StrLess(a, b) ==> a != b
    ensures a < b ==> StrLess(a, b)
  {
    if a == [] then b != []
    else if b == [] then false
    else if a[0] != b[0] then a[0] < b[0]
    else StrLess(a[1..], b[1..])
  }

  predicate StrLe(a: string, b: string) { a == b || StrLess(a, b) }

  lemma {:induction false} StrLessAsymmetric(a: string, b: string)
    ensures StrLess(a, b) ==> !StrLess(b, a)
  {
    if a != [] && b != [] && a[0] == b[0] {
      StrLessAsymmetric(a[1..], b[1..]);
    }
  }

  lemma {:induction false} StrLessTransitive(a: string, b: string, c: string)
    requires StrLess(a, b) && StrLess(b, c)
    ensures StrLess(a, c)
  {
    if a != [] && a[0] == b[0] && b[0] == c[0] {
      StrLessTransitive(a[1..], b[1..], c[1..]);
    }
  }

  lemma {:induction false} StrLessTotal(a: string, b: string)
    ensures a == b || StrLess(a, b) || StrLess(b, a)
  {
    if a != [] && b != [] && a[0] == b[0] {
      StrLessTotal(a[1..], b[1..]);
      assert a == [a[0]] + a[1..] && b == [b[0]] + b[1..];
    }
  }

  /** `"/".join(parts)`. */
  function JoinParts(ps: seq<string>): string
  {
    if |ps| == 0 then "" else if |ps| == 1 then ps[0] else ps[0] + "/" + JoinParts(ps[1..])
  }

  /** Joining puts exactly one separator between consecutive parts. */
  lemma {:induction false} JoinPartsSeparators(ps: seq<string>)
    requires SeparatorFree(ps) && ps != []
    ensures multiset(JoinParts(ps))['/'] == |ps| - 1
  {
    if |ps| >= 2 {
      JoinPartsSeparators(ps[1..]);
    }
  }

  /**
   * `str(path)`: "." for the empty path; an absolute path starts with the
   * anchor's `/`, written once before the other parts.
   */
  function Str(p: Path): (r: string)
    ensures p == [] ==> r == "."
    ensures IsAbsolute(p) ==> |r| > 0 && r[0] == '/'
  {
    if p == [] then "." else if p[0] == Anchor then "/" + JoinParts(p[1..]) else JoinParts(p)
  }

  /**
   * `str(path)` writes one separator between consecutive parts and none
   * inside them; the anchor alone is written as one `/`.
   */
  lemma StrSeparators(p: Path)
    requires WellFormed(p) && p != []
    ensures multiset(Str(p))['/'] == if p == [Anchor] then 1 else |p| - 1
  {
    if IsAbsolute(p) {
      if |p| >= 2 {
        JoinPartsSeparators(p[1..]);
      }
    } else {
      JoinPartsSeparators(p);
    }
  }

  /** Index of the first `c` in `s`, or `|s|` when there is none. */
  function FirstIndexOf(s: string, c: char): (r: nat)
    ensures r <= |s|
    ensures forall j :: 0 <= j < r ==> s[j] != c
    ensures r < |s| ==> s[r] == c
  {
    if s == [] || s[0] == c then 0 else 1 + FirstIndexOf(s[1..], c)
  }

  /** A separator-free head is recovered from the joined string. */
  lemma SplitAtFirstSeparator(x: string, a: string, y: string, b: string)
    requires '/' !in x && '/' !in y
    requires x + "/" + a == y + "/" + b
    ensures x == y && a == b
  {
    var s := x + "/" + a;
    assert FirstIndexOf(s, '/') == |x| by {
      assert s[|x|] == '/';
      assert forall j :: 0 <= j < |x| ==> s[j] == x[j];
    }
    assert FirstIndexOf(s, '/') == |y| by {
      assert s[|y|] == '/';
      assert forall j :: 0 <= j < |y| ==> s[j] == y[j];
    }
    assert x == s[..|x|] && y == s[..|y|];
    assert a == s[|x| + 1..] && b == s[|y| + 1..];
  }

  /** Joining parts that hold no separator loses nothing, for a given number of parts. */
  lemma {:induction false} JoinPartsInjective(p: seq<string>, q: seq<string>)
    requires |p| == |q| && SeparatorFree(p) && SeparatorFree(q)
    requires JoinParts(p) == JoinParts(q)
    ensures p == q
  {
    if |p| >= 2 {
      SplitAtFirstSeparator(p[0], JoinParts(p[1..]), q[0], JoinParts(q[1..]));
      JoinPartsInjective(p[1..], q[1..]);
      assert p == [p[0]] + p[1..] && q == [q[0]] + q[1..];
    }
  }

  lemma StrInjective(p: Path, q: Path)
    requires |p| == |q| && SeparatorFree(p) && SeparatorFree(q)
    requires Str(p) == Str(q)
    ensures p == q
  {
    if p != [] {
      assert '/' in Anchor;
      assert p[0] != Anchor && q[0] != Anchor;
      JoinPartsInjective(p, q);
    }
  }

  // ---------------------------------------------------------------------------
  // The sort key

  /**
   * `(-len(p.parts), str(p)) <= (-len(q.parts), str(q))`: a deeper path comes
   * first, whatever its string; every path is at most itself.
   */
  predicate KeyLe(p: Path, q: Path)
    ensures |p| > |q| ==> KeyLe(p, q)
    ensures KeyLe(p, q) ==> |p| >= |q|
    ensures p == q ==> KeyLe(p, q)
  {
    |p| > |q| || (|p| == |q| && StrLe(Str(p), Str(q)))
  }

  lemma KeyLeTotal(p: Path, q: Path)
    ensures KeyLe(p, q) || KeyLe(q, p)
  {
    StrLessTotal(Str(p), Str(q));
  }

  lemma KeyLeTransitive(p: Path, q: Path, r: Path)
    requires KeyLe(p, q) && KeyLe(q, r)
    ensures KeyLe(p, r)
  {
    if |p| == |q| == |r| && Str(p) != Str(q) && Str(q) != Str(r) {
      StrLessTransitive(Str(p), Str(q), Str(r));
    }
  }

  /** On separator-free paths the key decides the path: equal keys, equal paths. */
  lemma KeyLeAntisymmetric(p: Path, q: Path)
    requires SeparatorFree(p) && SeparatorFree(q)
    requires KeyLe(p, q) && KeyLe(q, p)
    ensures p == q
  {
    StrLessAsymmetric(Str(p), Str(q));
    StrInjective(p, q);
  }

  /** Each path's key is at most the next one's. */
  predicate Sorted(xs: seq<Path>)
  {
    forall i :: 0 <= i < |xs| - 1 ==> KeyLe(xs[i], xs[i + 1])
  }

  predicate NoDuplicates(xs: seq<Path>)
  {
    forall i, j :: 0 <= i < j < |xs| ==> xs[i] != xs[j]
  }

  // ---------------------------------------------------------------------------
  // `sorted` and `groupby`

  /** Inserts `x` before the first element whose key is not below it. */
  function InsertByKey(x: Path, xs: seq<Path>): (r: seq<Path>)
    requires Sorted(xs)
    ensures Sorted(r)
    ensures multiset(r) == multiset(xs) + multiset{x}
    ensures r[0] == x || (xs != [] && r[0] == xs[0])
  {
    if xs == [] || KeyLe(x, xs[0]) then [x] + xs
    else
      KeyLeTotal(x, xs[0]);
      var rest := InsertByKey(x, xs[1..]);
      assert xs == [xs[0]] + xs[1..];
      [xs[0]] + rest
  }

  /** `sorted(xs, key=...)`: an ordered permutation of `xs`. */
  function SortByKey(xs: seq<Path>): (r: seq<Path>)
    ensures Sorted(r)
    ensures multiset(r) == multiset(xs)
  {
    if xs == [] then []
    else
      assert xs == [xs[0]] + xs[1..];
      InsertByKey(xs[0], SortByKey(xs[1..]))
  }

  /** `[k for k, _ in groupby(xs)]`: keeps the first of every run of equal paths. */
  function Dedup(xs: seq<Path>): (r: seq<Path>)
    ensures forall x :: x in r <==> x in xs
    ensures xs != [] ==> r != [] && r[0] == xs[0]
    ensures forall i :: 0 <= i < |r| - 1 ==> r[i] != r[i + 1]
    ensures (forall i :: 0 <= i < |xs| - 1 ==> xs[i] != xs[i + 1]) ==> r == xs
    ensures Sorted(xs) ==> Sorted(r)
  {
    if |xs| <= 1 then xs
    else
      var rest := Dedup(xs[1..]);
      assert xs == [xs[0]] + xs[1..];
      SortedParts(xs[0], xs[1..]);
      if xs[0] == xs[1] then
        rest
      else
        assert forall i :: 0 <= i < |xs| - 1 ==> xs[1..][i] == xs[i + 1];
        SortedParts(xs[0], rest);
        [xs[0]] + rest
  }

  /** A sequence with a first element is sorted exactly when its rest is and the first two are in order. */
  lemma SortedParts(x: Path, ys: seq<Path>)
    ensures Sorted([x] + ys) <==> Sorted(ys) && (ys == [] || KeyLe(x, ys[0]))
  {
    var xs := [x] + ys;
    assert forall i :: 0 <= i < |ys| ==> xs[i + 1] == ys[i];
    if Sorted(ys) && (ys == [] || KeyLe(x, ys[0])) {
      forall i | 0 <= i < |xs| - 1 ensures KeyLe(xs[i], xs[i + 1]) {
        if i > 0 {
          assert KeyLe(ys[i - 1], ys[i]);
        }
      }
    }
    if Sorted(xs) {
      forall i | 0 <= i < |ys| - 1 ensures KeyLe(ys[i], ys[i + 1]) {
        assert KeyLe(xs[i + 1], xs[i + 2]);
      }
      if ys != [] {
        assert KeyLe(xs[0], xs[1]);
      }
    }
  }

  /** The length of each run of equal paths that `groupby` collapses, in order. */
  function RunLengths(xs: seq<Path>): (r: seq<nat>)
    ensures |r| == |Dedup(xs)|
    ensures forall k :: 0 <= k < |r| ==> r[k] >= 1
  {
    if |xs| <= 1 then (if xs == [] then [] else [1])
    else
      var rest := RunLengths(xs[1..]);
      if xs[0] == xs[1] then [rest[0] + 1] + rest[1..] else [1] + rest
  }

  /** `n` copies of `k`. */
  function Repeat(k: Path, n: nat): seq<Path>
  {
    if n == 0 then [] else [k] + Repeat(k, n - 1)
  }

  /** Every key repeated as often as its run length, the runs in order. */
  function Expand(keys: seq<Path>, lens: seq<nat>): seq<Path>
    requires |keys| == |lens|
  {
    if keys == [] then [] else Repeat(keys[0], lens[0]) + Expand(keys[1..], lens[1..])
  }

  lemma RepeatOneMore(k: Path, n: nat)
    ensures Repeat(k, n + 1) == [k] + Repeat(k, n)
  {
  }

  lemma ExpandFirstRun(keys: seq<Path>, lens: seq<nat>)
    requires |keys| == |lens| && keys != []
    ensures Expand(keys, lens) == Repeat(keys[0], lens[0]) + Expand(keys[1..], lens[1..])
  {
  }

  /** A first run one longer puts one more copy of the first key in front. */
  lemma ExpandLongerFirstRun(keys: seq<Path>, lens: seq<nat>, longer: seq<nat>)
    requires |keys| == |lens| == |longer| && keys != []
    requires longer[0] == lens[0] + 1 && longer[1..] == lens[1..]
    ensures Expand(keys, longer) == [keys[0]] + Expand(keys, lens)
  {
    ExpandFirstRun(keys, longer);
    ExpandFirstRun(keys, lens);
    RepeatOneMore(keys[0], lens[0]);
  }

  /**
   * `groupby` drops nothing but repetition: repeating every kept path over
   * the length of its run gives back the input. With the kept paths having
   * no adjacent repeats, this decides the result of `Dedup` completely.
   */
  lemma {:induction false} DedupCollapsesRuns(xs: seq<Path>)
    ensures Expand(Dedup(xs), RunLengths(xs)) == xs
    decreases |xs|
  {
    if |xs| >= 2 {
      var d, n := Dedup(xs[1..]), RunLengths(xs[1..]);
      DedupCollapsesRuns(xs[1..]);
      if xs[0] == xs[1] {
        assert Dedup(xs) == d && d[0] == xs[0];
        ExpandLongerFirstRun(d, n, RunLengths(xs));
      } else {
        assert Dedup(xs) == [xs[0]] + d && RunLengths(xs) == [1] + n;
        ExpandFirstRun(Dedup(xs), RunLengths(xs));
        assert Dedup(xs)[1..] == d && RunLengths(xs)[1..] == n;
        RepeatOneMore(xs[0], 0);
        assert Repeat(xs[0], 0) == [];
      }
      assert xs == [xs[0]] + xs[1..];
    } else if |xs| == 1 {
      ExpandFirstRun(xs, [1]);
      RepeatOneMore(xs[0], 0);
      assert Repeat(xs[0], 0) == [] && Expand(xs[1..], []) == [];
    }
  }

  /** A key-sorted sequence without adjacent repeats has strictly rising keys. */
  lemma {:induction false} StrictlyRising(xs: seq<Path>, i: int, j: int)
    requires Sorted(xs)
    requires forall k :: 0 <= k < |xs| - 1 ==> xs[k] != xs[k + 1]
    requires forall x :: x in xs ==> SeparatorFree(x)
    requires 0 <= i < j < |xs|
    ensures KeyLe(xs[i], xs[j]) && !KeyLe(xs[j], xs[i])
    decreases j - i
  {
    if j == i + 1 {
      if KeyLe(xs[j], xs[i]) {
        KeyLeAntisymmetric(xs[i], xs[j]);
      }
    } else {
      StrictlyRising(xs, i, j - 1);
      StrictlyRising(xs, j - 1, j);
      KeyLeTransitive(xs[i], xs[j - 1], xs[j]);
      if KeyLe(xs[j], xs[i]) {
        KeyLeTransitive(xs[j - 1], xs[j], xs[i]);
      }
    }
  }

  /**
   * The folder list: every collected folder once, deepest first and then in
   * string order; no folder appears twice when no part holds a separator.
   */
  function FolderList(folders: seq<Path>): (r: seq<Path>)
    ensures Sorted(r)
    ensures forall q :: q in r <==> q in folders
    ensures (forall q :: q in folders ==> SeparatorFree(q)) ==> NoDuplicates(r)
  {
    var sorted := SortByKey(folders);
    assert forall q :: q in sorted <==> q in folders by {
      assert forall q :: q in sorted <==> q in multiset(sorted);
    }
    var r := Dedup(sorted);
    if forall q :: q in folders ==> SeparatorFree(q) then
      assert NoDuplicates(r) by {
        forall i, j | 0 <= i < j < |r| ensures r[i] != r[j] {
          StrictlyRising(r, i, j);
        }
      }
      r
    else r
  }
}
