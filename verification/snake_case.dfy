/**
 * The name normaliser `to_snake_case` and the compliance test of `lint_path`.
 *
 * `to_snake_case` runs three steps: every `-` becomes `_`, one left-to-right
 * pass of the substitution `([a-z0-9])([A-Z]) -> \1_\2`, and lowercasing.
 * Case mapping is ASCII only; every other character is left as it is.
 */
module SnakeCase {

  predicate IsUpper(c: char) { 'A' <= c <= 'Z' }

  /** The character class `[a-z0-9]` of the substitution pattern. */
  predicate IsLowerOrDigit(c: char) { 'a' <= c <= 'z' || '0' <= c <= '9' }

  function LowerChar(c: char): (r: char)
    ensures !IsUpper(r)
    ensures !IsUpper(c) ==> r == c
    ensures r == '-' <==> c == '-'
    ensures r == '_' <==> c == '_'
  {
    if IsUpper(c) then (c as int - 'A' as int + 'a' as int) as char else c
  }

  /** `str.lower`, restricted to ASCII letters. */
  function Lower(s: string): (r: string)
    ensures |r| == |s|
    ensures forall i {:trigger r[i]} :: 0 <= i < |s| ==> r[i] == LowerChar(s[i])
  {
    if s == [] then [] else [LowerChar(s[0])] + Lower(s[1..])
  }

  /** `name.replace("-", "_")`. */
  function ReplaceHyphens(s: string): (r: string)
    ensures |r| == |s|
    ensures '-' !in r
    ensures forall i {:trigger r[i]} :: 0 <= i < |s| && s[i] != '-' ==> r[i] == s[i]
    ensures forall i {:trigger r[i]} :: 0 <= i < |s| && s[i] == '-' ==> r[i] == '_'
  {
    if s == [] then []
    else [if s[0] == '-' then '_' else s[0]] + ReplaceHyphens(s[1..])
  }

  /** The pattern `([a-z0-9])([A-Z])` matches at `j`, i.e. between `s[j]` and `s[j+1]`. */
  predicate IsBoundary(s: string, j: int)
  {
    0 <= j && j + 1 < |s| && IsLowerOrDigit(s[j]) && IsUpper(s[j + 1])
  }

  /**
   * `re.sub("([a-z0-9])([A-Z])", r"\1_\2", s)` as the regex engine runs it:
   * scan from the left; on a match emit both characters with `_` between them
   * and resume after the match; otherwise emit one character and move on.
   */
  function SubBoundaries(s: string): (r: string)
    ensures '-' !in s ==> '-' !in r
    ensures (forall i :: 0 <= i < |s| ==> !IsUpper(s[i])) ==> r == s
    decreases |s|
  {
    if |s| < 2 then s
    else if IsLowerOrDigit(s[0]) && IsUpper(s[1]) then
      assert forall i :: 0 <= i < |s| - 2 ==> s[2..][i] == s[i + 2];
      [s[0], '_', s[1]] + SubBoundaries(s[2..])
    else
      assert forall i :: 0 <= i < |s| - 1 ==> s[1..][i] == s[i + 1];
      [s[0]] + SubBoundaries(s[1..])
  }

  /**
   * Reference definition of the pass: every character of `s`, followed by
   * `_` exactly when a boundary starts at it. No match is skipped here.
   */
  function InsertAtBoundaries(s: string): (r: string)
  {
    if |s| < 2 then s
    else [s[0]] + (if IsBoundary(s, 0) then "_" else "") + InsertAtBoundaries(s[1..])
  }

  /** Number of boundaries in `s`. */
  function BoundaryCount(s: string): nat
  {
    if |s| < 2 then 0 else (if IsBoundary(s, 0) then 1 else 0) + BoundaryCount(s[1..])
  }

  /** Number of boundaries that start strictly before index `i`. */
  function BoundariesBefore(s: string, i: nat): nat
    requires i < |s|
  {
    if i == 0 then 0 else (if IsBoundary(s, 0) then 1 else 0) + BoundariesBefore(s[1..], i - 1)
  }

  /** `to_snake_case`. */
  function ToSnakeCase(name: string): (r: string)
    ensures '-' !in r
  {
    Lower(SubBoundaries(ReplaceHyphens(name)))
  }

  /**
   * The test `name == name.lower() and "-" not in name` of `lint_path`:
   * a name passes exactly when it holds no ASCII capital and no hyphen.
   */
  predicate IsCompliant(name: string)
    ensures IsCompliant(name) <==> forall i :: 0 <= i < |name| ==> !IsUpper(name[i]) && name[i] != '-'
  {
    name == Lower(name) && '-' !in name
  }

  // ---------------------------------------------------------------------------
  // The regex pass

  /**
   * Scanning without overlap loses no boundary: a match ends on an upper-case
   * letter, and an upper-case letter never starts the next match.
   */
  lemma {:induction false} SubBoundariesInsertsAtEveryBoundary(s: string)
    ensures SubBoundaries(s) == InsertAtBoundaries(s)
    decreases |s|
  {
    if |s| < 2 {
    } else if IsLowerOrDigit(s[0]) && IsUpper(s[1]) {
      var t := s[1..];
      assert !IsBoundary(t, 0);
      SubBoundariesInsertsAtEveryBoundary(s[2..]);
      if |t| < 2 {
        assert InsertAtBoundaries(t) == t == [s[1]];
        assert s[2..] == [];
      } else {
        assert t[1..] == s[2..];
        assert InsertAtBoundaries(t) == [s[1]] + InsertAtBoundaries(s[2..]);
      }
    } else {
      SubBoundariesInsertsAtEveryBoundary(s[1..]);
    }
  }

  /**
   * The pass acts locally: on two joined pieces it is the pass on each piece,
   * with an `_` between them when the join is itself a boundary.
   */
  lemma {:induction false} InsertConcat(a: string, b: string)
    requires |a| >= 1 && |b| >= 1
    ensures InsertAtBoundaries(a + b) ==
            InsertAtBoundaries(a)
            + (if IsLowerOrDigit(a[|a| - 1]) && IsUpper(b[0]) then "_" else "")
            + InsertAtBoundaries(b)
    decreases |a|
  {
    if |a| >= 2 {
      assert (a + b)[1..] == a[1..] + b;
      InsertConcat(a[1..], b);
    }
  }

  /** A name without boundaries passes through unchanged. */
  lemma {:induction false} InsertNoBoundary(s: string)
    requires forall j :: 0 <= j < |s| - 1 ==> !IsBoundary(s, j)
    ensures InsertAtBoundaries(s) == s
    decreases |s|
  {
    if |s| >= 2 {
      assert forall j :: 0 <= j < |s| - 2 ==> IsBoundary(s[1..], j) == IsBoundary(s, j + 1);
      InsertNoBoundary(s[1..]);
    }
  }

  /** The pass grows the name by one character per boundary. */
  lemma {:induction false} InsertedLength(s: string)
    ensures |InsertAtBoundaries(s)| == |s| + BoundaryCount(s)
    decreases |s|
  {
    if |s| >= 2 {
      InsertedLength(s[1..]);
    }
  }

  /**
   * Each character `s[i]` lands at `i` plus the number of earlier boundaries;
   * an `_` follows it when a boundary starts at `i`, and otherwise the next
   * character of `s` does.
   */
  lemma {:induction false} InsertedPositions(s: string, i: nat)
    requires i < |s|
    ensures i + BoundariesBefore(s, i) < |InsertAtBoundaries(s)|
    ensures InsertAtBoundaries(s)[i + BoundariesBefore(s, i)] == s[i]
    ensures IsBoundary(s, i) ==>
              i + BoundariesBefore(s, i) + 1 < |InsertAtBoundaries(s)| &&
              InsertAtBoundaries(s)[i + BoundariesBefore(s, i) + 1] == '_'
    ensures !IsBoundary(s, i) && i + 1 < |s| ==>
              i + BoundariesBefore(s, i) + 1 < |InsertAtBoundaries(s)| &&
              InsertAtBoundaries(s)[i + BoundariesBefore(s, i) + 1] == s[i + 1]
    decreases |s|
  {
    InsertedLength(s);
    if |s| >= 2 && i > 0 {
      var t := s[1..];
      var b := if IsBoundary(s, 0) then 1 else 0;
      InsertedPositions(t, i - 1);
      assert IsBoundary(s, i) == IsBoundary(t, i - 1);
      assert InsertAtBoundaries(s) == [s[0]] + (if IsBoundary(s, 0) then "_" else "") + InsertAtBoundaries(t);
      assert i + BoundariesBefore(s, i) == 1 + b + (i - 1) + BoundariesBefore(t, i - 1);
    }
  }

  /**
   * Nothing else is inserted: every position of the output holds either a
   * character of `s` or the `_` that follows a boundary.
   */
  lemma {:induction false} InsertedNowhereElse(s: string, k: nat)
    requires k < |InsertAtBoundaries(s)|
    ensures exists i :: 0 <= i < |s| &&
                        (k == i + BoundariesBefore(s, i) ||
                         (IsBoundary(s, i) && k == i + BoundariesBefore(s, i) + 1))
    decreases |s|
  {
    if |s| < 2 {
      assert k == 0 + BoundariesBefore(s, 0);
    } else if k == 0 {
      assert k == 0 + BoundariesBefore(s, 0);
    } else if k == 1 && IsBoundary(s, 0) {
      assert IsBoundary(s, 0) && k == 0 + BoundariesBefore(s, 0) + 1;
    } else {
      var t := s[1..];
      var b := if IsBoundary(s, 0) then 1 else 0;
      assert InsertAtBoundaries(s) == [s[0]] + (if IsBoundary(s, 0) then "_" else "") + InsertAtBoundaries(t);
      var k' := k - 1 - b;
      InsertedNowhereElse(t, k');
      var i' :| 0 <= i' < |t| &&
                (k' == i' + BoundariesBefore(t, i') ||
                 (IsBoundary(t, i') && k' == i' + BoundariesBefore(t, i') + 1));
      assert BoundariesBefore(s, i' + 1) == b + BoundariesBefore(t, i');
      assert IsBoundary(s, i' + 1) == IsBoundary(t, i');
    }
  }

  // ---------------------------------------------------------------------------
  // Compliance

  lemma {:induction false} LowerIdempotent(s: string)
    ensures Lower(Lower(s)) == Lower(s)
  {
    assert forall i :: 0 <= i < |s| ==> LowerChar(LowerChar(s[i])) == LowerChar(s[i]);
  }

  /**
   * Whatever the input, the normalised name passes the compliance test, and
   * it is one character longer per boundary of the hyphen-free name.
   */
  lemma SnakeCaseIsCompliant(name: string)
    ensures IsCompliant(ToSnakeCase(name))
    ensures |ToSnakeCase(name)| == |name| + BoundaryCount(ReplaceHyphens(name))
  {
    var t := SubBoundaries(ReplaceHyphens(name));
    SubBoundariesInsertsAtEveryBoundary(ReplaceHyphens(name));
    InsertedLength(ReplaceHyphens(name));
    LowerIdempotent(t);
  }

  /** A compliant name is left unchanged. */
  lemma CompliantIsFixedPoint(name: string)
    requires IsCompliant(name)
    ensures ToSnakeCase(name) == name
  {
    assert ReplaceHyphens(name) == name;
    assert SubBoundaries(name) == name;
  }

  /** The fixed points of the normaliser are exactly the compliant names. */
  lemma FixedPointIffCompliant(name: string)
    ensures ToSnakeCase(name) == name <==> IsCompliant(name)
  {
    SnakeCaseIsCompliant(name);
    if IsCompliant(name) {
      CompliantIsFixedPoint(name);
    }
  }

  lemma SnakeCaseIdempotent(name: string)
    ensures ToSnakeCase(ToSnakeCase(name)) == ToSnakeCase(name)
  {
    SnakeCaseIsCompliant(name);
    CompliantIsFixedPoint(ToSnakeCase(name));
  }

  // ---------------------------------------------------------------------------
}
