/**
 * The worked examples of `to_snake_case`: the three cases of the unit test
 * and two more names, one already in snake case and one in kebab case.
 * Each example names its input through a parameter so that the solver
 * evaluates it piece by piece instead of unfolding the whole literal.
 */
module SnakeCaseExamples {
  import opened SnakeCase

  /** Evaluates `Lower` character by character. */
  lemma LowerIs(x: string, y: string)
    requires |x| == |y|
    requires forall i :: 0 <= i < |x| ==> LowerChar(x[i]) == y[i]
    ensures Lower(x) == y
  {
  }

  /** Evaluates `ReplaceHyphens` character by character. */
  lemma ReplaceHyphensIs(x: string, y: string)
    requires |x| == |y|
    requires forall i :: 0 <= i < |x| ==> y[i] == (if x[i] == '-' then '_' else x[i])
    ensures ReplaceHyphens(x) == y
  {
  }

  /** Evaluates the regex pass from pieces that hold no boundary inside. */
  lemma SubBoundariesOfPieces(a: string, b: string, c: string, r: string)
    requires |a| >= 1 && |b| >= 1 && |c| >= 1
    requires forall j :: 0 <= j < |a| - 1 ==> !IsBoundary(a, j)
    requires forall j :: 0 <= j < |b| - 1 ==> !IsBoundary(b, j)
    requires forall j :: 0 <= j < |c| - 1 ==> !IsBoundary(c, j)
    requires r == a + (if IsLowerOrDigit(a[|a| - 1]) && IsUpper(b[0]) then "_" else "") + b
                    + (if IsLowerOrDigit(b[|b| - 1]) && IsUpper(c[0]) then "_" else "") + c
    ensures SubBoundaries(a + b + c) == r
  {
    InsertNoBoundary(a);
    InsertNoBoundary(b);
    InsertNoBoundary(c);
    InsertConcat(a, b);
    InsertConcat(a + b, c);
    SubBoundariesInsertsAtEveryBoundary(a + b + c);
  }

  lemma AA(s: string)
    requires s == "A_A"
    ensures ToSnakeCase(s) == "a_a"
  {
    ReplaceHyphensIs(s, s);
    SubBoundariesOfPieces(s[..1], s[1..2], s[2..], s);
    assert s[..1] + s[1..2] + s[2..] == s;
    LowerIs(s, "a_a");
  }

  /** The regex pass on the second test name: one `_` before `Dear`. */
  lemma PassOfHelloDear(s: string)
    requires s == "helloDear"
    ensures SubBoundaries(s) == "hello_Dear"
  {
    var a, b, c := s[..4], s[4..5], s[5..];
    SubBoundariesOfPieces(a, b, c, "hello_Dear");
    assert a + b + c == s;
  }

  lemma LowerOfHelloDear(t: string)
    requires t == "hello_Dear"
    ensures Lower(t) == "hello_dear"
  {
    LowerIs(t, "hello_dear");
  }

  lemma HelloDear(s: string)
    requires s == "helloDear"
    ensures ToSnakeCase(s) == "hello_dear"
  {
    ReplaceHyphensIs(s, s);
    PassOfHelloDear(s);
    LowerOfHelloDear(SubBoundaries(s));
  }

  /** The regex pass on the third test name: one `_` before `Is` and one before `ATest`. */
  lemma PassOfThisIsATest(s: string)
    requires s == "__ThisIsATest__"
    ensures SubBoundaries(s) == "__This_Is_ATest__"
  {
    var a, b, c := s[..6], s[6..8], s[8..];
    SubBoundariesOfPieces(a, b, c, "__This_Is_ATest__");
    assert a + b + c == s;
  }

  lemma LowerOfThisIsATest(t: string)
    requires t == "__This_Is_ATest__"
    ensures Lower(t) == "__this_is_atest__"
  {
    LowerIs(t, "__this_is_atest__");
  }

  /** An upper-case run is not split: `ATest` becomes `atest`. */
  lemma ThisIsATest(s: string)
    requires s == "__ThisIsATest__"
    ensures ToSnakeCase(s) == "__this_is_atest__"
  {
    ReplaceHyphensIs(s, s);
    PassOfThisIsATest(s);
    LowerOfThisIsATest(SubBoundaries(s));
  }

  lemma AlreadySnakeIsCompliant(s: string)
    requires s == "already_snake"
    ensures IsCompliant(s)
  {
    forall i | 0 <= i < |s| ensures !IsUpper(s[i]) && s[i] != '-' { }
  }

  lemma AlreadySnake(s: string)
    requires s == "already_snake"
    ensures ToSnakeCase(s) == "already_snake"
  {
    AlreadySnakeIsCompliant(s);
    CompliantIsFixedPoint(s);
  }

  lemma KebabCase(s: string)
    requires s == "kebab-case-name"
    ensures ToSnakeCase(s) == "kebab_case_name"
  {
    var t := "kebab_case_name";
    ReplaceHyphensIs(s, t);
    forall i | 0 <= i < |t| ensures !IsUpper(t[i]) { }
    assert SubBoundaries(t) == t;
    LowerIs(t, t);
  }
}
