/** `CodeService.transformCode` (src/services/codeService.ts): the request,
    the response, the rewrite of the buffer in fix or translate mode, and
    the test run over the rewritten code. The delay before it is left out,
    so the operation is synchronous here. */
module TransformEngine {
  import opened Wrappers
  import opened Text
  import opened Regex
  import opened FixRules
  import opened Translation
  import MockExecutor
  import TestCaseEditor

  datatype Operation = Fix | Translate

  /** `CodeTransformationRequest`. */
  datatype Request = Request(code: string, sourceLanguage: string, targetLanguage: Option<string>,
                             operation: Operation, testCases: seq<TestCaseEditor.TestCase>)

  /** `TestResult` (src/components/TestResults.tsx), without the random
      `executionTime`. */
  datatype TestResult = TestResult(id: string, description: string, input: Option<string>, expected: string,
                                   actual: string, passed: bool, error: Option<string>)

  /** `CodeTransformationResponse`. */
  datatype Response = Response(transformedCode: string, explanation: string,
                               changes: seq<Change>, testResults: seq<TestResult>)

  const FixExplanation: string := "Fixed logical errors in the code to make test cases pass."

  /** The rewritten buffer and its change records: the fix chain in fix
      mode, with at most four records, all `modified`; the translate branch
      in translate mode, with at most one, at line 1. */
  function Rewrite(request: Request): (r: (string, seq<Change>))
    ensures request.operation == Fix ==> |r.1| <= 4 && AllModified(r.1)
    ensures request.operation == Translate ==> |r.1| <= 1 && forall j :: 0 <= j < |r.1| ==> r.1[j].line == 1
  {
    match request.operation
    case Fix => FixChain(request.code)
    case Translate => TranslateChain(request.sourceLanguage, request.targetLanguage, request.code)
  }

  /** The explanation: the fixed fix text, or the two language names, where
      an absent target prints as `undefined`. */
  function Explanation(request: Request): (e: string)
    ensures request.operation == Fix ==> e == FixExplanation
    ensures request.operation == Translate ==>
      e == "Translated code from " + request.sourceLanguage + " to "
           + request.targetLanguage.GetOr("undefined") + "."
  {
    if request.operation == Fix then FixExplanation
    else "Translated code from " + request.sourceLanguage + " to " + request.targetLanguage.GetOr("undefined") + "."
  }

  /** One test case run against the rewritten code: the executor's result
      and error, and `passed` when the result equals the expected text with
      every `"` removed. An `undefined` expected text has no `replace`, so
      the run throws: `None`. */
  function RunTest(code: string, tc: TestCaseEditor.TestCase, parse: string -> Option<MockExecutor.Value>)
    : (r: Option<TestResult>)
    ensures r.None? <==> tc.expected.None?
    ensures r.Some? ==>
      && r.value.id == tc.id && r.value.input == tc.input && r.value.expected == tc.expected.value
      && r.value.actual == MockExecutor.Execute(code, tc.input, parse).result
      && r.value.error == MockExecutor.Execute(code, tc.input, parse).error
      && (r.value.passed <==> r.value.actual == Without(tc.expected.value, '"'))
      && r.value.description == (if tc.description.Some? && tc.description.value != "" then tc.description.value
                                 else "Test case")
  {
    match tc.expected
    case None => None
    case Some(expected) =>
      var e := MockExecutor.Execute(code, tc.input, parse);
      DeleteChar('"', expected);
      Some(TestResult(tc.id, if tc.description.Some? && tc.description.value != "" then tc.description.value
                             else "Test case",
                      tc.input, expected, e.result, e.result == ReplaceAll(Lit("\""), [], expected), e.error))
  }

  /** `request.testCases.map(...)`: one result per case, in order; when a
      case throws, so does the whole map. */
  function RunTests(code: string, cases: seq<TestCaseEditor.TestCase>, parse: string -> Option<MockExecutor.Value>)
    : (rs: Option<seq<TestResult>>)
    ensures rs.None? <==> exists j :: 0 <= j < |cases| && cases[j].expected.None?
    ensures rs.Some? ==> |rs.value| == |cases|
    ensures rs.Some? ==> forall j :: 0 <= j < |cases| ==> RunTest(code, cases[j], parse) == Some(rs.value[j])
  {
    if exists j :: 0 <= j < |cases| && cases[j].expected.None? then None
    else Some(seq(|cases|, j requires 0 <= j < |cases| => RunTest(code, cases[j], parse).value))
  }

  /** The fix branch of `transformCode`: each rule tests the buffer, and
      when it fires rewrites it and pushes its record. */
  method FixBuffer(code0: string) returns (code: string, changes: seq<Change>)
    ensures (code, changes) == FixChain(code0)
  {
    code, changes := code0, [];
    if EvenFires(code) {
      code := EvenFix(code);
      changes := changes + [Change(MarkerLine(code, "n % 2"), Modified, EvenDescription)];
    }
    assert (code, changes) == EvenRule((code0, []));
    if FactorialFires(code) {
      code := FactorialFix(code);
      changes := changes + [Change(MarkerLine(code, "return n"), Modified, FactorialDescription)];
    }
    assert (code, changes) == FactorialRule(EvenRule((code0, [])));
    if RangeFires(code) {
      code := RangeFix(code);
      changes := changes + [Change(MarkerLine(code, "range"), Modified, RangeDescription)];
    }
    assert (code, changes) == RangeRule(FactorialRule(EvenRule((code0, []))));
    if AssignmentFires(code) {
      code := AssignmentFix(code);
      changes := changes + [Change(MarkerLine(code, "if"), Modified, AssignmentDescription)];
    }
  }

  /** The translate branch of `transformCode`, entered with a non-empty
      target: each supported pair rewrites the buffer and pushes its record. */
  method TranslateBuffer(source: string, target: string, code0: string) returns (code: string, changes: seq<Change>)
    requires target != ""
    ensures (code, changes) == TranslateChain(source, Some(target), code0)
  {
    // The two pairs exclude each other, so the source's second `if` is an
    // `else if` here.
    if source == "python" && target == "javascript" {
      code := PythonToJavaScript(code0);
      changes := [Change(1, Modified, PythonToJavaScriptDescription)];
    } else if source == "javascript" && target == "python" {
      code := JavaScriptToPython(code0);
      changes := [Change(1, Modified, JavaScriptToPythonDescription)];
    } else {
      code, changes := code0, [];
    }
  }

  /** `transformCode(request)`: the buffer is rewritten by the fix rules or
      the translate chain, with the change records pushed as it goes, then
      the test cases are run against the final buffer. `None` when a test
      case throws, which rejects the whole call. */
  method TransformCode(request: Request, parse: string -> Option<MockExecutor.Value>) returns (response: Option<Response>)
    ensures response.None? <==> RunTests(Rewrite(request).0, request.testCases, parse).None?
    ensures response.Some? ==>
      && (response.value.transformedCode, response.value.changes) == Rewrite(request)
      && Some(response.value.testResults) == RunTests(response.value.transformedCode, request.testCases, parse)
      && response.value.explanation == Explanation(request)
  {
    var code := request.code;
    var changes: seq<Change> := [];
    if request.operation == Fix {
      code, changes := FixBuffer(code);
    }
    if request.operation == Translate && HasTarget(request.targetLanguage) {
      code, changes := TranslateBuffer(request.sourceLanguage, request.targetLanguage.value, code);
    }
    var results := RunTests(code, request.testCases, parse);
    if results.None? {
      return None;
    }
    response := Some(Response(code, Explanation(request), changes, results.value));
  }

  /** Fixing code on which no rule fires returns it unchanged with no
      records, and fixing that result again does the same. */
  lemma FixIdempotentOnCleanCode(request: Request)
    requires request.operation == Fix
    requires !EvenFires(request.code) && !FactorialFires(request.code)
    requires !RangeFires(request.code) && !AssignmentFires(request.code)
    ensures Rewrite(request) == (request.code, [])
    ensures Rewrite(request.(code := Rewrite(request).0)) == (request.code, [])
  {
    CleanCodeIsFixpoint(request.code);
  }

  /** The positions of the results that passed. */
  ghost function PassedIndices(rs: seq<TestResult>): set<int> {
    set j | 0 <= j < |rs| && rs[j].passed
  }

  /** Dropping the last result removes its position, if it passed, from
      the passed positions, and the rest all pass exactly when they did. */
  lemma PassedIndicesSplit(rs: seq<TestResult>)
    requires rs != []
    ensures var k := |rs| - 1;
      && |PassedIndices(rs)| == |PassedIndices(rs[..k])| + (if rs[k].passed then 1 else 0)
      && ((forall j :: 0 <= j < |rs| ==> rs[j].passed)
          <==> rs[k].passed && forall j :: 0 <= j < k ==> rs[..k][j].passed)
  {
    var k := |rs| - 1;
    assert forall j :: 0 <= j < k ==> rs[..k][j] == rs[j];
    assert PassedIndices(rs) == PassedIndices(rs[..k]) + (if rs[k].passed then {k} else {});
    assert k !in PassedIndices(rs[..k]);
  }

  /** `testResults.filter(r => r.passed).length`. */
  function PassedCount(rs: seq<TestResult>): (n: nat)
    ensures n == |PassedIndices(rs)|
    ensures n <= |rs|
    ensures n == |rs| <==> forall j :: 0 <= j < |rs| ==> rs[j].passed
  {
    if rs == [] then 0
    else
      var k := |rs| - 1;
      PassedIndicesSplit(rs);
      PassedCount(rs[..k]) + (if rs[k].passed then 1 else 0)
  }

  /** The test results of a response name the request's cases in order,
      and a result passes exactly when its executor output is the
      expected text without quotes. */
  lemma TestResultsFollowCases(request: Request, parse: string -> Option<MockExecutor.Value>, j: nat)
    requires j < |request.testCases| && request.testCases[j].expected.Some?
    ensures var rs := RunTests(Rewrite(request).0, request.testCases, parse);
      rs.Some? ==>
      && |rs.value| == |request.testCases|
      && rs.value[j].id == request.testCases[j].id
      && (rs.value[j].passed <==> rs.value[j].actual == Without(request.testCases[j].expected.value, '"'))
  {
  }
}
