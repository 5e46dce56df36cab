/** Worked cases: the default `is_even` sample of the main screen through
    the fix chain and the mock executor, and a two-line diff. */
module Scenarios {
  import opened Wrappers
  import opened Text
  import opened Regex
  import MockExecutor
  import FixRules
  import TransformEngine
  import TestCaseEditor
  import DiffViewer

  /** The one-line form of the default sample of the main screen, split
      before the parity test. */
  const Head: string := "def is_even(n): return "
  const Buggy: string := Head + "n % 2 != 0"
  const Fixed: string := Head + "n % 2 == 0"

  /** A text lacking a character of `pat` does not contain `pat`. */
  lemma MissingCharNotContained(s: string, pat: string, c: char)
    requires c in pat && c !in s
    ensures !Contains(s, pat)
  {
    var j :| 0 <= j < |pat| && pat[j] == c;
    forall k | 0 <= k ensures !OccursAt(s, pat, k) {
      if k + |pat| <= |s| {
        assert s[k..k + |pat|][j] == s[k + j];
        assert s[k + j] in s;
      }
    }
    ContainsIff(s, pat);
  }

  /** The characters of the fixed sample the name search looks at. */
  lemma FixedNameChars()
    ensures Fixed[..3] == "def" && IsSpace(Fixed[3]) && !IsSpace(Fixed[4])
    ensures Fixed[4..11] == "is_even" && Fixed[11] == '('
    ensures forall m :: 4 <= m < 11 ==> IsWordChar(Fixed[m])
  {
    assert Head[4] == 'i' && Head[5] == 's' && Head[6] == '_' && Head[7] == 'e';
    assert Head[8] == 'v' && Head[9] == 'e' && Head[10] == 'n' && Head[11] == '(';
    assert Head[..3] == "def";
    assert forall m :: 0 <= m < |Head| ==> Fixed[m] == Head[m];
  }

  /** After the name: the group closes at 11 and `\s*\(` takes the `(`. */
  lemma FixedAfterName()
    ensures MatchFrom([Close(1), Atom(Space, Greedy)] + Lit("("), Fixed, 11, map[1 := (4, 4)])
         == Some(Match(12, map[1 := (4, 11)]))
  {
    FixedNameChars();
    var g1: Groups := map[1 := (4, 4)];
    var g2: Groups := map[1 := (4, 11)];
    assert Fixed[11..12] == "(";
    LitThen("(", [], Fixed, 11, g2);
    assert Lit("(") + [] == Lit("(");
    GreedyStops(Space, Lit("("), Fixed, 11, g2);
    assert g1[1 := (g1[1].0, 11)] == g2;
    assert ([Close(1), Atom(Space, Greedy)] + Lit("("))[1..] == [Atom(Space, Greedy)] + Lit("(");
  }

  /** From the name on: `(\w+)` takes `is_even`, then the rest. */
  lemma FixedFromName()
    ensures MatchFrom([Open(1), Atom(Word, Greedy1), Close(1), Atom(Space, Greedy)] + Lit("("), Fixed, 4, map[])
         == Some(Match(12, map[1 := (4, 11)]))
  {
    FixedNameChars();
    FixedAfterName();
    var afterWord := [Close(1), Atom(Space, Greedy)] + Lit("(");
    Greedy1Run(Word, afterWord, Fixed, 4, 11, map[1 := (4, 4)]);
    var afterSpace := [Open(1), Atom(Word, Greedy1)] + afterWord;
    assert afterSpace[1..] == [Atom(Word, Greedy1)] + afterWord;
    assert afterSpace == [Open(1), Atom(Word, Greedy1), Close(1), Atom(Space, Greedy)] + Lit("(");
  }

  /** The `def` alternative of the name search matches the fixed sample at
      its start: `def`, one space, the word up to `(`. */
  lemma FixedDefMatch()
    ensures MatchAt(MockExecutor.NamePatterns()[0], Fixed, 0) == Some(Match(12, map[1 := (4, 11)]))
  {
    FixedNameChars();
    FixedFromName();
    var afterSpace := [Open(1), Atom(Word, Greedy1), Close(1), Atom(Space, Greedy)] + Lit("(");
    Greedy1Run(Space, afterSpace, Fixed, 3, 4, map[]);
    var rest := [Atom(Space, Greedy1)] + afterSpace;
    LitThen("def", rest, Fixed, 0, map[]);
    assert MockExecutor.NamePatterns()[0] == Lit("def") + rest;
  }

  /** The name search finds `is_even` in the fixed sample. */
  lemma FixedNameIsIsEven()
    ensures MockExecutor.FunctionName(Fixed) == Some("is_even")
  {
    FixedDefMatch();
    FixedNameChars();
    var g2: Groups := map[1 := (4, 11)];
    assert SearchAlt(MockExecutor.NamePatterns(), Fixed, 0) == Some(Match(12, g2));
  }

  /** The executor on the fixed sample answers `true` for 2 and `false`
      for 3, when the inputs parse to those numbers. */
  lemma FixedSampleEvenness(parse: string -> Option<MockExecutor.Value>)
    requires parse("2") == Some(MockExecutor.Single(MockExecutor.Int(2)))
    requires parse("3") == Some(MockExecutor.Single(MockExecutor.Int(3)))
    ensures MockExecutor.Execute(Fixed, Some("2"), parse) == MockExecutor.Execution("true", None)
    ensures MockExecutor.Execute(Fixed, Some("3"), parse) == MockExecutor.Execution("false", None)
  {
    FixedNameIsIsEven();
    assert "is_even"[3..7] == "even";
    ContainsAt("is_even", "even", 3);
  }

  /** The characters of the buggy sample rule (a) looks at. */
  lemma BuggyChars()
    ensures Buggy[7..11] == "even" && Buggy[23..33] == "n % 2 != 0"
  {
    assert Head[7] == 'e' && Head[8] == 'v' && Head[9] == 'e' && Head[10] == 'n';
    assert forall m :: 0 <= m < |Head| ==> Buggy[m] == Head[m];
    assert |Head| == 23;
  }

  /** Rule (a) fires on the buggy sample and rewrites it into the fixed one. */
  lemma BuggySampleEvenRule()
    ensures FixRules.EvenFires(Buggy) && FixRules.EvenFix(Buggy) == Fixed
  {
    BuggySampleEvenFires();
    BuggySampleEvenFix();
  }

  lemma BuggySampleEvenFires()
    ensures FixRules.EvenFires(Buggy)
  {
    BuggyChars();
    ContainsAt(Buggy, "n % 2 != 0", 23);
    LowerKeeps(Buggy, "even", 7);
    ContainsAt(ToLower(Buggy), "even", 7);
  }

  lemma BuggySampleEvenFix()
    ensures FixRules.EvenFix(Buggy) == Fixed
  {
    var s := Buggy;
    BuggyChars();
    assert s[..29] == "def is_even(n): return n % 2 ";
    FirstOccurrence(s, "n % 2 != 0", 23, 6);
    assert s[..23] + "n % 2 == 0" + s[33..] == Fixed;
  }

  /** The fixed sample is one line holding `n % 2`. */
  lemma FixedSampleMarker()
    ensures FixRules.MarkerLine(Fixed, "n % 2") == 1
  {
    MissingCharNotContained(Fixed, "\n", '\n');
    assert SplitLines(Fixed) == [Fixed];
    assert Fixed[23] == 'n' && Fixed[24] == ' ' && Fixed[25] == '%' && Fixed[26] == ' ' && Fixed[27] == '2';
    ContainsAt(Fixed, "n % 2", 23);
  }

  /** Rule (b) does not fire on the fixed sample: it has no `+`. */
  lemma FixedSampleNoFactorial()
    ensures !FixRules.FactorialFires(Fixed)
  {
    MissingCharNotContained(Fixed, "return n + 1", '+');
  }

  /** Rule (c) does not fire on the fixed sample: it has no `g`. */
  lemma FixedSampleNoRange()
    ensures !FixRules.RangeFires(Fixed)
  {
    MissingCharNotContained(Fixed, "range(len(", 'g');
  }

  /** Rule (d) does not fire on the fixed sample: it holds `==`. */
  lemma FixedSampleNoAssignment()
    ensures !FixRules.AssignmentFires(Fixed)
  {
    assert Fixed[29] == '=' && Fixed[30] == '=';
    ContainsAt(Fixed, "==", 29);
  }

  /** The fix chain on the buggy sample applies rule (a) only: one record,
      on line 1, and the fixed sample as the result. */
  lemma BuggySampleFix()
    ensures FixRules.FixChain(Buggy) == (Fixed, [FixRules.Change(1, FixRules.Modified, FixRules.EvenDescription)])
  {
    BuggySampleEvenRule();
    FixedSampleMarker();
    FixedSampleNoFactorial();
    FixedSampleNoRange();
    FixedSampleNoAssignment();
    var s1 := FixRules.EvenRule((Buggy, []));
    assert s1 == (Fixed, [FixRules.Change(1, FixRules.Modified, FixRules.EvenDescription)]);
  }

  /** The two default test cases of the main screen. */
  const DefaultCases: seq<TestCaseEditor.TestCase> :=
    [TestCaseEditor.TestCase("1", Some("2"), Some("true"), Some("Even number should return true")),
     TestCaseEditor.TestCase("2", Some("3"), Some("false"), Some("Odd number should return false"))]

  /** The first default case passes on the fixed sample. */
  lemma FixedPassesEvenCase(parse: string -> Option<MockExecutor.Value>)
    requires parse("2") == Some(MockExecutor.Single(MockExecutor.Int(2)))
    requires parse("3") == Some(MockExecutor.Single(MockExecutor.Int(3)))
    ensures TransformEngine.RunTest(Fixed, DefaultCases[0], parse).Some?
    ensures TransformEngine.RunTest(Fixed, DefaultCases[0], parse).value.passed
  {
    FixedSampleEvenness(parse);
    QuoteFree("true");
  }

  /** The second default case passes on the fixed sample. */
  lemma FixedPassesOddCase(parse: string -> Option<MockExecutor.Value>)
    requires parse("2") == Some(MockExecutor.Single(MockExecutor.Int(2)))
    requires parse("3") == Some(MockExecutor.Single(MockExecutor.Int(3)))
    ensures TransformEngine.RunTest(Fixed, DefaultCases[1], parse).Some?
    ensures TransformEngine.RunTest(Fixed, DefaultCases[1], parse).value.passed
  {
    FixedSampleEvenness(parse);
    QuoteFree("false");
  }

  /** End to end: fixing the buggy sample with the two default test cases
      gives the fixed code, one record on line 1, and both tests passing. */
  lemma BuggySampleEndToEnd(parse: string -> Option<MockExecutor.Value>)
    requires parse("2") == Some(MockExecutor.Single(MockExecutor.Int(2)))
    requires parse("3") == Some(MockExecutor.Single(MockExecutor.Int(3)))
    ensures var req := TransformEngine.Request(Buggy, "python", Some("python"), TransformEngine.Fix, DefaultCases);
      var rs := TransformEngine.RunTests(TransformEngine.Rewrite(req).0, req.testCases, parse);
      && TransformEngine.Rewrite(req) == (Fixed, [FixRules.Change(1, FixRules.Modified, FixRules.EvenDescription)])
      && rs.Some? && |rs.value| == 2 && rs.value[0].passed && rs.value[1].passed
  {
    BuggySampleFix();
    FixedPassesEvenCase(parse);
    FixedPassesOddCase(parse);
    var rs := TransformEngine.RunTests(Fixed, DefaultCases, parse);
    assert forall j :: 0 <= j < |DefaultCases| ==> DefaultCases[j].expected.Some? by {
      forall j | 0 <= j < |DefaultCases| ensures DefaultCases[j].expected.Some? {
        assert j == 0 || j == 1;
      }
    }
    assert rs.Some?;
    assert TransformEngine.RunTest(Fixed, DefaultCases[0], parse) == Some(rs.value[0]);
    assert TransformEngine.RunTest(Fixed, DefaultCases[1], parse) == Some(rs.value[1]);
  }

  lemma {:induction false} QuoteFree(s: string)
    requires '"' !in s
    ensures Without(s, '"') == s
  {
    if s != [] {
      QuoteFree(s[1..]);
    }
  }

  /** `diff("a\nb", "a\nc")`: line 1 unchanged, line 2 modified. */
  lemma TwoLineDiff()
    ensures DiffViewer.Diff("a\nb", "a\nc")
         == [DiffViewer.DiffLine(1, "a", "a", DiffViewer.Unchanged), DiffViewer.DiffLine(2, "b", "c", DiffViewer.Modified)]
  {
    assert "a\nb"[1..2] == "\n" && "a\nc"[1..2] == "\n";
    assert "a\nb"[0..1] == "a" && "a\nc"[0..1] == "a";
    assert IndexOf("a\nb", "\n", 0) == 1 && IndexOf("a\nc", "\n", 0) == 1;
    MissingCharNotContained("b", "\n", '\n');
    MissingCharNotContained("c", "\n", '\n');
    assert SplitLines("a\nb") == ["a", "b"];
    assert SplitLines("a\nc") == ["a", "c"];
  }
}
