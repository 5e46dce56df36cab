/** The decision logic of the main screen (src/components/CodeTransformationApp.tsx):
    the React state as the fields of a class, the handlers as methods that
    update them, and the validation, request, export and summary choices as
    functions. Notifications are modelled by which message is chosen. */
module TransformationApp {
  import opened Wrappers
  import LanguageDetector
  import MockExecutor
  import Text
  import TestCaseEditor
  import TransformEngine

  /** The notices `handleTransform` can show. */
  datatype Notice =
    | EmptyCode                        // 'Please enter some code to transform'
    | NoTestCases                      // 'Please add at least one test case for bug fixing'
    | Transformed                      // 'Code transformed successfully!'
    | AllPassed(total: nat)            // 'All N test cases passed!'
    | SomePassed(passed: nat, total: nat)  // 'p/t test cases passed'
    | TransformFailed                  // 'Failed to transform code. Please try again.'

  /** The checks before the service is called: `None` when the request may
      go ahead. */
  function Refusal(code: string, operation: TransformEngine.Operation, cases: seq<TestCaseEditor.TestCase>)
    : (r: Option<Notice>)
    ensures r == Some(EmptyCode) <==> Text.Trim(code) == ""
    ensures r == Some(NoTestCases) <==> Text.Trim(code) != "" && operation == TransformEngine.Fix && |cases| == 0
    ensures r.None? <==> Text.Trim(code) != "" && (operation.Translate? || |cases| > 0)
  {
    if Text.Trim(code) == "" then Some(EmptyCode)
    else if operation == TransformEngine.Fix && |cases| == 0 then Some(NoTestCases)
    else None
  }

  /** The request `handleTransform` sends: in fix mode the target is the
      source language and the test cases go along; in translate mode the
      target is the chosen one and no test cases are sent. */
  function BuildRequest(code: string, source: string, target: string, operation: TransformEngine.Operation,
                        cases: seq<TestCaseEditor.TestCase>): (r: TransformEngine.Request)
    ensures r.code == code && r.sourceLanguage == source && r.operation == operation
    ensures operation == TransformEngine.Fix ==> r.targetLanguage == Some(source) && r.testCases == cases
    ensures operation == TransformEngine.Translate ==> r.targetLanguage == Some(target) && r.testCases == []
  {
    TransformEngine.Request(code, source, Some(if operation == TransformEngine.Translate then target else source),
                            operation, if operation == TransformEngine.Fix then cases else [])
  }

  /** A request built in translate mode yields no test results at all. */
  lemma TranslateRunsNoTests(code: string, source: string, target: string, cases: seq<TestCaseEditor.TestCase>,
                             parse: string -> Option<MockExecutor.Value>)
    ensures var req := BuildRequest(code, source, target, TransformEngine.Translate, cases);
      TransformEngine.RunTests(TransformEngine.Rewrite(req).0, req.testCases, parse) == Some([])
  {
  }

  /** The summary notice after a transformation: plain success with no
      results, all passed, or a warning with the number that passed, fewer
      than the number run. */
  function Summary(results: seq<TransformEngine.TestResult>): (n: Notice)
    ensures |results| == 0 ==> n == Transformed
    ensures |results| > 0 && (forall j :: 0 <= j < |results| ==> results[j].passed) ==> n == AllPassed(|results|)
    ensures n.SomePassed? ==> n.passed == TransformEngine.PassedCount(results) < n.total == |results|
    ensures n.Transformed? || n.AllPassed? || n.SomePassed?
    ensures n.SomePassed? <==> exists j :: 0 <= j < |results| && !results[j].passed
  {
    var passedCount := TransformEngine.PassedCount(results);
    var totalCount := |results|;
    if totalCount == 0 then Transformed
    else if passedCount == totalCount then AllPassed(totalCount)
    else SomePassed(passedCount, totalCount)
  }

  /** The file extension for a language name. */
  function Extension(language: string): (ext: string)
    ensures ext == "js" <==> language == "javascript"
    ensures ext == "py" <==> language == "python"
    ensures ext == "txt" <==> language != "javascript" && language != "python"
  {
    if language == "javascript" then "js" else if language == "python" then "py" else "txt"
  }

  /** The extension of the exported file: from the target language when
      translating, from the source language when fixing. */
  function ExportExtension(operation: TransformEngine.Operation, source: string, target: string): (ext: string)
    ensures operation == TransformEngine.Translate ==> ext == Extension(target)
    ensures operation == TransformEngine.Fix ==> ext == Extension(source)
  {
    Extension(if operation == TransformEngine.Translate then target else source)
  }

  /** The component's state. */
  class App {
    var originalCode: string
    var transformedCode: string
    var sourceLanguage: string
    var targetLanguage: string
    var operation: TransformEngine.Operation
    var testCases: seq<TestCaseEditor.TestCase>
    var testResults: seq<TransformEngine.TestResult>
    var explanation: string

    /** The initial state: the buggy `is_even` sample, python to javascript,
        fix mode, two test cases. */
    constructor ()
      ensures originalCode == "def is_even(n):\n    return n % 2 != 0  # Bug: should be == 0"
      ensures transformedCode == "" && explanation == "" && testResults == []
      ensures sourceLanguage == "python" && targetLanguage == "javascript"
      ensures operation == TransformEngine.Fix
      ensures testCases == [TestCaseEditor.TestCase("1", Some("2"), Some("true"), Some("Even number should return true")),
                            TestCaseEditor.TestCase("2", Some("3"), Some("false"), Some("Odd number should return false"))]
    {
      originalCode := "def is_even(n):\n    return n % 2 != 0  # Bug: should be == 0";
      transformedCode := "";
      sourceLanguage := "python";
      targetLanguage := "javascript";
      operation := TransformEngine.Fix;
      testCases := [TestCaseEditor.TestCase("1", Some("2"), Some("true"), Some("Even number should return true")),
                    TestCaseEditor.TestCase("2", Some("3"), Some("false"), Some("Odd number should return false"))];
      testResults := [];
      explanation := "";
    }

    /** `handleCodeChange(code)`: the code is stored and the source language
        becomes the detected one; `announced` tells whether it differed
        (the auto-detect notice). */
    method HandleCodeChange(code: string) returns (announced: bool)
      modifies this
      ensures originalCode == code
      ensures sourceLanguage == LanguageDetector.DetectLanguage(code)
      ensures announced <==> LanguageDetector.DetectLanguage(code) != old(sourceLanguage)
      ensures transformedCode == old(transformedCode) && targetLanguage == old(targetLanguage)
      ensures operation == old(operation) && testCases == old(testCases)
      ensures testResults == old(testResults) && explanation == old(explanation)
    {
      originalCode := code;
      var detected := LanguageDetector.DetectLanguage(code);
      announced := false;
      if detected != sourceLanguage {
        sourceLanguage := detected;
        announced := true;
      }
    }

    /** `handleTransform()`: refused with a notice and no change when the
        checks fail. Otherwise the results are cleared and the built request
        is transformed: the response's code, results and explanation are
        stored and the summary is shown, or, when the call throws, the
        failure notice is shown and nothing else changes. */
    method HandleTransform(parse: string -> Option<MockExecutor.Value>) returns (notice: Notice)
      modifies this
      ensures var refusal := Refusal(old(originalCode), old(operation), old(testCases));
        refusal.Some? ==> notice == refusal.value && unchanged(this)
      ensures var refusal := Refusal(old(originalCode), old(operation), old(testCases));
        var req := BuildRequest(old(originalCode), old(sourceLanguage), old(targetLanguage), old(operation), old(testCases));
        var results := TransformEngine.RunTests(TransformEngine.Rewrite(req).0, req.testCases, parse);
        refusal.None? ==>
          if results.Some? then
            && transformedCode == TransformEngine.Rewrite(req).0
            && testResults == results.value
            && explanation == TransformEngine.Explanation(req)
            && notice == Summary(testResults)
          else
            && notice == TransformFailed && testResults == []
            && transformedCode == old(transformedCode) && explanation == old(explanation)
      ensures originalCode == old(originalCode) && sourceLanguage == old(sourceLanguage)
      ensures targetLanguage == old(targetLanguage) && operation == old(operation) && testCases == old(testCases)
    {
      var refusal := Refusal(originalCode, operation, testCases);
      if refusal.Some? {
        notice := refusal.value;
        return;
      }
      testResults := [];
      var request := BuildRequest(originalCode, sourceLanguage, targetLanguage, operation, testCases);
      var response := TransformEngine.TransformCode(request, parse);
      if response.None? {
        notice := TransformFailed;
        return;
      }
      transformedCode := response.value.transformedCode;
      testResults := response.value.testResults;
      explanation := response.value.explanation;
      notice := Summary(testResults);
    }

    /** `handleExport()`: no download without transformed code; otherwise
        the name of the file offered for download. */
    method HandleExport() returns (fileName: Option<string>)
      ensures fileName.None? <==> transformedCode == ""
      ensures fileName.Some? ==>
        fileName.value == "transformed_code." + ExportExtension(operation, sourceLanguage, targetLanguage)
    {
      if transformedCode == "" {
        return None;
      }
      var extension := ExportExtension(operation, sourceLanguage, targetLanguage);
      fileName := Some("transformed_code." + extension);
    }
  }
}
