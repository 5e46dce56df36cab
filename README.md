# codeconverterL core, modelled in Dafny

codeconverterL is a browser front-end around a mock "AI" code service. A user
pastes code and picks an operation: fix bugs, or translate between python and
javascript. They also supply test cases, then read the rewritten code, a
line-by-line diff and a pass/fail report. The model covers the parts of the
repository that compute something:

- `CodeService.transformCode` (src/services/codeService.ts). It models the four
  ordered fix rules over one buffer, each pushing a change record. It models
  the two translate chains, the test run over the rewritten code and the
  explanation text. The branches that rewrite the buffer step by step and
  push records are methods (`TransformEngine.FixBuffer`, `TranslateBuffer`,
  `TransformCode`). Each is proved equal to a specification function
  (`FixRules.FixChain`, `Translation.TranslateChain`,
  `TransformEngine.Rewrite`). The properties are lemmas about those
  functions. A test case whose expected text is `undefined` makes the call
  throw; `TransformCode` then returns no response.
- `executeCode`, the mock executor. It finds a function name by regular
  expression, then picks a canned answer by name fragment.
- `detectLanguage`, a first-match-wins scan over an ordered table of ten
  languages' regular expressions.
- The positional line diff of src/components/DiffViewer.tsx. It is a `while`
  loop (`DiffViewer.ComputeDiff`), proved equal to the function
  `DiffViewer.Diff`.
- The test-case list operations of src/components/TestCaseEditor.tsx: add,
  remove, update and JSON import. Each returns the new list.
- The decision logic of src/components/CodeTransformationApp.tsx: the
  validation gates, the request it builds, the summary notice and the export
  file name. The React state is the class `TransformationApp.App`, whose
  handlers are methods that update its fields.

Every regular expression of the core is written out as data for a small
backtracking matcher (module `Regex`):

- It handles quantified character classes (`x`, `x?`, `x*`, `x+`, `x*?`),
  capture groups and `\b`.
- It tries matches in JavaScript's priority order, so matches and captured
  groups are those of `RegExp.prototype.exec`.
- It provides a global `replace` with `$n` templates.
- `\s` is the full ECMAScript white-space and line-terminator set.

String built-ins are in module `Text`: `indexOf`, `includes`, `replace` with a
string pattern, `split('\n')`, `toLowerCase`, `trim`, reversal and integer
`toString`.

Three behaviours of the code worth noting:

- `passed` compares the result with `expected` after every `"` is removed,
  not only the surrounding quotes (`TransformEngine.RunTest`).
- Fix rule (c) tests only the substrings `range(len(` and `+ 1`. Its record
  is pushed even when its regular expression rewrites nothing
  (`FixRules.RangeRecordsWithoutRewrite`).
- Fix rule (d) replaces every match of its regular expression, not only the
  first. It runs only when the buffer holds `=` and `if` but no `==`.

Files: `text.dfy` (modules `Wrappers`, `Text`), `regex.dfy`, `detect.dfy`,
`executor.dfy`, `fixrules.dfy`, `translate.dfy`, `transform.dfy`, `diff.dfy`,
`testcases.dfy`, `app.dfy`. `scenarios.dfy` holds worked cases on concrete
inputs.

## Model

| member | source | states |
|---|---|---|
| Text.IndexOf | src/services/codeService.ts:87 | `indexOf` gives -1 exactly when the pattern occurs nowhere from the start index on, and otherwise the first position from there where it occurs |
| Text.ContainsIff | src/services/codeService.ts:86 | `includes` holds exactly when the pattern occurs at some position |
| Text.ReplaceFirst | src/services/codeService.ts:87 | with no occurrence the text is unchanged; otherwise the first occurrence, and only it, is replaced and the text around it is kept |
| Text.ReplaceFirstKeeps | src/services/codeService.ts:97 | an occurrence of a text sharing no character with the pattern survives the first-occurrence replace |
| Text.FirstOccurrence | src/services/codeService.ts:87 | an occurrence is the one `indexOf` finds when a character of the pattern appears nowhere before it |
| Text.SplitLines | src/components/DiffViewer.tsx:16-17 | `split('\n')` gives at least one piece and no piece holds a newline |
| Text.JoinSplitLines | src/components/DiffViewer.tsx:16-17 | joining the pieces with newlines gives back the text |
| Text.FindLine | src/services/codeService.ts:89 | `findIndex` is -1 exactly when no line holds the marker, otherwise the first line that does |
| Text.FindLineOfContained | src/services/codeService.ts:89 | a marker without newline that the text contains is found on some line |
| Text.ToLower | src/services/codeService.ts:86 | lowering keeps the length and maps each character on its own |
| Text.LowerKeeps | src/services/codeService.ts:86 | a lower-case word occurring in the code occurs in its lowered form |
| Text.Reverse | src/services/codeService.ts:64 | the reversal has the same length, and its k-th character is the k-th from the end |
| Text.ReverseReverse | src/services/codeService.ts:64 | reversing twice gives back the text |
| Text.DecimalString | src/services/codeService.ts:58 | `toString` of an integer is non-empty, starts with `-` exactly for a negative number, and is otherwise made of digits with no leading zero (0 prints as `0`, never `-0`) |
| Text.NatString | src/services/codeService.ts:58 | the decimal text of a natural number is digits, starting with `0` exactly for 0, which prints as `0` |
| Text.DecimalRoundTrip | src/services/codeService.ts:58 | the decimal text of an integer reads back as that integer |
| Text.DecimalInjective | src/components/TestCaseEditor.tsx:50 | different integers have different decimal texts |
| Regex.Search | src/services/codeService.ts:222 | the search returns the leftmost start where the pattern matches, and none when it matches nowhere |
| Regex.TestIff | src/services/codeService.ts:222 | `test` holds exactly when the pattern matches at some position |
| Regex.SearchAlt | src/services/codeService.ts:43 | the search of an alternation finds a match exactly at the leftmost start where some alternative matches, and that match is an alternative's in priority order |
| Regex.MatchAltFirst | src/services/codeService.ts:43 | at one position, alternation takes the first alternative, in order, that matches there |
| Regex.SearchAltAt | src/services/codeService.ts:43 | the search returns the match at the first position where some alternative matches |
| Regex.SearchAltFirst | src/services/codeService.ts:43 | the search returns the first matching alternative's match at that first position |
| Regex.LeftmostUnique | src/services/codeService.ts:43 | two leftmost matches of the same alternation are the same match |
| Regex.GroupKept | src/services/codeService.ts:43-44 | a group the pattern does not open keeps its start, and keeps its whole span unless the pattern closes it |
| Regex.PlusGroupNonEmpty | src/services/codeService.ts:43-44 | a group around a `+` atom captures a non-empty span |
| Regex.ReplaceAll | src/services/codeService.ts:107 | a global replace with a pattern that matches nowhere leaves the text unchanged |
| Regex.ReplaceAllMissingChar | src/services/codeService.ts:107 | a pattern needing a character absent from the text replaces nothing |
| Regex.DeleteChar | src/services/codeService.ts:181 | `replace(/"/g, '')` is the text with every `"` removed and the rest in order |
| MockExecutor.FunctionName | src/services/codeService.ts:43-44 | a name is found exactly when one of the three alternatives matches somewhere; a name found is never empty |
| MockExecutor.NameCaptured | src/services/codeService.ts:43-44 | each alternative captures the name in its own group, and that group is non-empty |
| MockExecutor.NameMatchAt | src/services/codeService.ts:43 | `KEYWORD\s+NAME\s*(` (or `const NAME =`) laid out at a position is matched by its alternative there, which captures exactly the word `NAME` in its group and ends after the terminator |
| MockExecutor.NameFoundAt | src/services/codeService.ts:43-44 | when the leftmost declaration in the code is `def`, `function` or `const` followed by white space, a word, optional white space and `(` (or `=`), the name found is exactly that word |
| MockExecutor.DefNameFound | src/services/codeService.ts:43-44 | code starting `def NAME(` with `NAME` a non-empty word has the name `NAME` |
| Text.Trim | src/components/CodeTransformationApp.tsx:52 | `trim` returns the slice of the text left once white space is taken off both ends: it is the empty text exactly when every character is white space, otherwise it starts and ends with a non-space, and a text without space at either end is unchanged |
| MockExecutor.StringToInt | src/services/codeService.ts:53 | `Number` ignores surrounding white space: empty or all-space text is 0, the decimal text of an integer reads as that integer, and `+` followed by digits reads as their value |
| MockExecutor.StringToIntDecimal | src/services/codeService.ts:53 | `Number` reads the decimal text of an integer back as that integer |
| MockExecutor.IsEven | src/services/codeService.ts:53 | `undefined % 2 === 0` is false |
| MockExecutor.IsEvenText | src/services/codeService.ts:53 | a number and its decimal text are even exactly when the number is |
| MockExecutor.Plus | src/services/codeService.ts:58 | two integers give exactly the canonical decimal text of their sum, which reads back as the sum; a string operand gives the concatenation of both texts |
| MockExecutor.FirstOrSelf | src/services/codeService.ts:52 | a list gives its first element, a scalar itself; `undefined` exactly for an empty list or an absent value |
| MockExecutor.ParseInput | src/services/codeService.ts:35-40 | an absent input stays `undefined`; parsable text gives the parsed value; other text is kept as a string |
| MockExecutor.Execute | src/services/codeService.ts:29-73 | an error always comes with the result `undefined` |
| MockExecutor.NoFunctionFound | src/services/codeService.ts:43-48 | code with no `def NAME(`, `function NAME(` or `const NAME =` anywhere gives `undefined` with `Could not find function` |
| MockExecutor.NoFunctionErrorIff | src/services/codeService.ts:43-48 | that error is reported exactly when no name is found |
| MockExecutor.AssignmentIsNoFunction | src/services/codeService.ts:43-48 | `x=1` gives `undefined` with `Could not find function` for any input |
| MockExecutor.EvenNameTestsParity | src/services/codeService.ts:51-54 | a name containing `even` answers `true` exactly when the integer, or a list's first integer, is even, and `false` otherwise, with no error |
| MockExecutor.AddNameSums | src/services/codeService.ts:56-60 | an `add`/`sum` name on a list of two or more integers answers exactly the canonical decimal text of the first two summed, with no error |
| MockExecutor.ReverseNameReverses | src/services/codeService.ts:62-65 | a `reverse` name answers the reversal of the input's text, or of a list's first element |
| MockExecutor.ReverseOfUndefinedThrows | src/services/codeService.ts:62-72 | `reverse` on an empty list or an absent input throws; the catch answers `undefined` with the exception's message |
| MockExecutor.AbsentInputIsOdd | src/services/codeService.ts:51-54 | an `even` name with an absent input answers `false` with no error |
| MockExecutor.OtherNameMocks | src/services/codeService.ts:67-68 | every other name answers `mock_result` with no error |
| FixRules.FixChain | src/services/codeService.ts:82-124 | the fix chain pushes at most four records, all `modified` |
| FixRules.MarkerLine | src/services/codeService.ts:89 | the record line is 0 exactly when no line holds the marker; otherwise that 1-based line holds it and no earlier line does |
| FixRules.Step | src/services/codeService.ts:86-93 | a rule that fires rewrites the buffer and appends one `modified` record for the rewritten buffer; one that does not changes nothing |
| FixRules.CleanCodeIsFixpoint | src/services/codeService.ts:82-124 | when no rule's condition holds, fixing returns the code with no records, and fixing that result again does the same |
| FixRules.FixRecordCount | src/services/codeService.ts:82-124 | the count of records is the number of rules whose condition held on the buffer they saw: at most four, all `modified` |
| FixRules.ReplacedMarkerLine | src/services/codeService.ts:87-89 | after a replacement holding the marker, the record line is at least 1 |
| FixRules.EvenRecordLine | src/services/codeService.ts:86-93 | rule (a) changes the buffer, replaces only the first `n % 2 != 0`, and appends one record on the first line with `n % 2`, at line 1 or later |
| FixRules.FactorialRecordLine | src/services/codeService.ts:96-103 | rule (b) appends one record on the first line with `return n`, at line 1 or later |
| FixRules.EvenFixDisablesAssignmentFix | src/services/codeService.ts:86-116 | after rule (a) the buffer holds `==`, so rule (d)'s condition fails on it |
| FixRules.FactorialKeepsEquals | src/services/codeService.ts:96-97 | rule (b) keeps a `==` in the buffer |
| FixRules.EvenBlocksAssignmentRule | src/services/codeService.ts:86-123 | when rule (a) fires and rule (c) does not, rule (d) adds nothing to the chain |
| FixRules.RangeRecordsWithoutRewrite | src/services/codeService.ts:106-113 | with no `)` in the buffer, rule (c) leaves the buffer as it is but still appends its record, at line 1 or later |
| Translation.JavaScriptToPython | src/services/codeService.ts:154-168 | the javascript-to-python result holds no `;` and no `}`, and keeps every other character of the rewritten text in order |
| Translation.PythonToJavaScriptKeepsPlainText | src/services/codeService.ts:128-143 | text with none of `d r T F N # }` passes the python-to-javascript chain unchanged |
| Translation.JavaScriptToPythonKeepsPlainText | src/services/codeService.ts:154-168 | text with none of `f r t n / ; }` passes the javascript-to-python chain unchanged |
| Translation.DoubleBraceNeedsBrace | src/services/codeService.ts:143 | the last python-to-javascript step changes nothing in text without `}` |
| Translation.TranslateChain | src/services/codeService.ts:126-175 | exactly one record at line 1, `modified`, exactly for python→javascript or javascript→python with a present, non-empty target; otherwise the code is unchanged with no record |
| Translation.UnsupportedPairUnchanged | src/services/codeService.ts:126-175 | an absent or empty target, or a target equal to the source, changes nothing |
| TransformEngine.Explanation | src/services/codeService.ts:197-199 | the fixed fix text in fix mode; `Translated code from S to T.` in translate mode, an absent target printing as `undefined` |
| TransformEngine.RunTest | src/services/codeService.ts:179-193 | an `undefined` expected text throws at its `replace`, and only that; otherwise id, input and expected are copied; actual and error come from the executor; passed holds exactly when actual equals expected with every `"` removed; the description defaults to `Test case` |
| TransformEngine.RunTests | src/services/codeService.ts:179 | the run throws exactly when some case's expected text is `undefined`; otherwise one result per case, in the cases' order |
| TransformEngine.FixBuffer | src/services/codeService.ts:82-124 | rewriting the buffer rule by rule and pushing records yields the fix chain |
| TransformEngine.TranslateBuffer | src/services/codeService.ts:126-175 | the translate branch yields the translate chain |
| TransformEngine.TransformCode | src/services/codeService.ts:75-203 | no response exactly when the test run throws; otherwise the response's code and records are those of the rewrite, its results are the test run over the rewritten code, and its explanation is the one for the request |
| TransformEngine.Rewrite | src/services/codeService.ts:82-175 | fix mode gives at most four records, all `modified`; translate mode at most one, at line 1 |
| TransformEngine.FixIdempotentOnCleanCode | src/services/codeService.ts:82-124 | a fix request on code no rule applies to returns the code with no records, and so does fixing the result again |
| TransformEngine.TestResultsFollowCases | src/services/codeService.ts:179-193 | the results follow the request's cases in number and order; each passes exactly when its output is the expected text without quotes |
| TransformEngine.PassedCount | src/components/CodeTransformationApp.tsx:78 | the passed count is the number of positions whose result passed: at most the total, and equal to it exactly when all passed |
| LanguageDetector.AnyMatches | src/services/codeService.ts:222 | `some` holds exactly when one of the patterns matches |
| LanguageDetector.DetectFrom | src/services/codeService.ts:221-227 | the answer is the first entry, in table order, with a matching pattern, or `javascript` when none matches |
| LanguageDetector.DetectLanguage | src/services/codeService.ts:207-228 | the answer is always one of the ten table keys |
| LanguageDetector.FirstMatchWins | src/services/codeService.ts:221-225 | the first matching entry in declaration order is the answer |
| LanguageDetector.DefCallMatches | src/services/codeService.ts:209 | python's first pattern matches `def`, white space, any word, optional white space and `(`, ending just after the `(` |
| LanguageDetector.DefCallIsPython | src/services/codeService.ts:209-225 | code containing such a definition, whatever its name and spacing, is python |
| LanguageDetector.DefFIsPython | src/services/codeService.ts:209-225 | code containing `def f(` is python |
| LanguageDetector.PythonPatternWins | src/services/codeService.ts:209-225 | code any python pattern matches, the `__main__` guard included, is python |
| LanguageDetector.PublicClassIsNeverCsharp | src/services/codeService.ts:212-214 | code with `public class NAME` is never csharp: java lists the same pattern earlier |
| LanguageDetector.FunctionDeclIsNeverPhp | src/services/codeService.ts:210-217 | code with `function NAME(` is never php: javascript lists it earlier |
| LanguageDetector.EmptyIsJavascript | src/services/codeService.ts:208-227 | empty code is javascript, the default |
| DiffViewer.LineAt | src/components/DiffViewer.tsx:22-23 | the line at an index, or the empty text past the end |
| DiffViewer.Classify | src/components/DiffViewer.tsx:25-34 | unchanged exactly when the lines are equal; removed exactly when original is non-empty and modified empty; added exactly for the reverse; modified exactly when both are non-empty and differ |
| DiffViewer.ComputeDiff | src/components/DiffViewer.tsx:15-45 | the loop yields the positional diff of the two texts |
| DiffViewer.Diff | src/components/DiffViewer.tsx:16-41 | one entry per line of the longer text, at least one; entry i is numbered i+1 and holds each side's i-th line or the empty text, classified as above |
| DiffViewer.IdenticalIsUnchanged | src/components/DiffViewer.tsx:25-26 | a text compared with itself is all unchanged |
| DiffViewer.OriginalRecovered | src/components/DiffViewer.tsx:16-41 | the original column, cut to the original's line count and joined, is the original text |
| DiffViewer.ModifiedRecovered | src/components/DiffViewer.tsx:16-41 | likewise for the modified column |
| TestCaseEditor.SetGetField | src/components/TestCaseEditor.tsx:41 | writing a field then reading it gives the value; other fields are untouched |
| TestCaseEditor.AddTestCase | src/components/TestCaseEditor.tsx:25-33 | the old list, untouched, followed by one case with the given id and empty input, expected and description |
| TestCaseEditor.RemoveTestCase | src/components/TestCaseEditor.tsx:35-37 | no case with the id is left, and a case remains exactly when it was there with another id |
| TestCaseEditor.RemoveSplits | src/components/TestCaseEditor.tsx:35-37 | removal from a concatenation is removal from each part, so relative order is kept |
| TestCaseEditor.RemoveAbsent | src/components/TestCaseEditor.tsx:35-37 | removing an id no case has returns the list unchanged |
| TestCaseEditor.RemoveUndoesAdd | src/components/TestCaseEditor.tsx:25-37 | removing a case just added with a fresh id restores the list |
| TestCaseEditor.UpdateTestCase | src/components/TestCaseEditor.tsx:39-43 | length and order are kept; other ids are unchanged; matching cases get the field set and keep their other fields |
| TestCaseEditor.UpdateIdempotent | src/components/TestCaseEditor.tsx:39-43 | updating a non-id field twice is updating it once |
| TestCaseEditor.StringifyField | src/components/TestCaseEditor.tsx:51-52 | `JSON.stringify` gives `undefined` exactly for an absent field |
| TestCaseEditor.ImportTestCases | src/components/TestCaseEditor.tsx:45-60 | no new list exactly when parsing fails, does not give an array, or gives an array with a `null` element; otherwise one case per item, with id the item's clock reading plus its index, the stringified input and expected (`undefined` when absent), and the description or `Test case i+1` |
| TestCaseEditor.ImportIdsDistinct | src/components/TestCaseEditor.tsx:49-50 | with a clock that never goes back, imported cases have pairwise different ids |
| TransformationApp.Refusal | src/components/CodeTransformationApp.tsx:52-60 | the empty-code notice exactly when the trimmed code is empty; the no-test-cases notice exactly for non-empty code in fix mode with no cases; no refusal otherwise |
| TransformationApp.BuildRequest | src/components/CodeTransformationApp.tsx:66-72 | fix mode targets the source language and sends the cases; translate mode targets the chosen language and sends no cases |
| TransformationApp.TranslateRunsNoTests | src/components/CodeTransformationApp.tsx:69-71 | a request built in translate mode runs no test and cannot throw |
| TransformationApp.Summary | src/components/CodeTransformationApp.tsx:78-87 | plain success with no results; all-passed with its total when every result passed; otherwise a warning with the passed count, which is below the total |
| TransformationApp.Extension | src/components/CodeTransformationApp.tsx:102-104 | `js` exactly for javascript, `py` exactly for python, `txt` for everything else |
| TransformationApp.ExportExtension | src/components/CodeTransformationApp.tsx:102-104 | the target's extension when translating, the source's when fixing |
| TransformationApp.App.constructor | src/components/CodeTransformationApp.tsx:17-39 | the initial state: the buggy `is_even` sample, python to javascript, fix mode, the two default cases |
| TransformationApp.App.HandleCodeChange | src/components/CodeTransformationApp.tsx:41-49 | the code is stored, the source language becomes the detected one, the notice is shown exactly when it changed, and nothing else changes |
| TransformationApp.App.HandleTransform | src/components/CodeTransformationApp.tsx:51-94 | a refusal shows its notice and changes nothing; otherwise the results are cleared, then either the rewritten code, the results and the explanation of the built request are stored and the summary is shown, or, when the test run throws, the failure notice is shown and code and explanation stay as they were |
| TransformationApp.App.HandleExport | src/components/CodeTransformationApp.tsx:96-110 | no file without transformed code; otherwise `transformed_code.` with the export extension |
| Scenarios.FixedNameIsIsEven | src/services/codeService.ts:43-44 | the name found in `def is_even(n): return n % 2 == 0` is `is_even` |
| Scenarios.FixedSampleEvenness | src/services/codeService.ts:51-53 | that code answers `true` for input 2 and `false` for input 3 |
| Scenarios.BuggySampleEvenRule | src/services/codeService.ts:86-87 | rule (a) fires on `def is_even(n): return n % 2 != 0` and rewrites it to the `== 0` form |
| Scenarios.BuggySampleFix | src/services/codeService.ts:82-124 | the fix chain on that code gives the `== 0` form and exactly one record, the even-logic fix at line 1 |
| Scenarios.BuggySampleEndToEnd | src/services/codeService.ts:75-203 | a fix request on that code with the two default cases gives the fixed code, that one record, and both tests passing |
| Scenarios.TwoLineDiff | src/components/DiffViewer.tsx:15-45 | the diff of `a\nb` and `a\nc` is line 1 unchanged and line 2 modified |

## Left out

- The artificial delay (`mockDelay`, `await`) and the `isProcessing` flag: they time the UI and compute nothing, so `transformCode` is synchronous here.
- `executionTime`: it is a random number for display. `TransformEngine.TestResult` has no such field.
- Notifications, JSX, CSS and the `Blob`/`URL`/`document` download: only the chosen notice and the file name are modelled.
- `JSON.parse` and `JSON.stringify`: in `MockExecutor.Execute` the parse is the function parameter `parse`; in `TestCaseEditor.ImportTestCases` it is the value parameter `parsed`, the outcome of parsing the file (`None` when it throws); `JSON.stringify` is the function parameter `stringify`. Parsed values are integers, strings and lists of these; an import item is `null` or an object with optional fields. Floats, booleans, `null` and nested objects are not represented as parsed values (`null % 2 === 0`, for one, holds in JavaScript). `JSON.parse` never yields `undefined`, so `MockExecutor.Value.Undefined` stands only for an absent input.
- A description in an imported item that is not a string is not represented.
- `Number` coercion in `%` reads optionally signed decimal integer text only, and reads it exactly. Any other text counts as NaN, so it is never even; JavaScript reads `4.0`, `0x10` and `1e3` as numbers, so an `even` name answers `true` for them where the model answers `false`.
- `MockExecutor.StringToInt`: JavaScript's `Number` gives a double, so integer text beyond 2^53 rounds. For `+9007199254740993` an `even` name answers `true` in JavaScript (the text rounds to 9007199254740992) and `false` here.
- `MockExecutor.StringToIntDecimal`: proved for every integer. In JavaScript the round trip holds only up to 2^53 in magnitude, and from 10^21 on `toString` prints exponent form, which this reading rejects.
- `MockExecutor.IsEvenText`: proved for every integer. In JavaScript a parsed number beyond 2^53 is a rounded double, so parity there follows the rounded value, not the digits.
- `Text.ToLower`: lowers ASCII letters only. The lowered text is only used to test for `even` and `factorial`. Two other characters lower to ASCII letters: the Kelvin sign to `k`, which neither word holds, and U+0130 to `i` followed by U+0307, whose `i` is never followed by the `a` of `factorial`. So the rule conditions are unaffected.
- `MockExecutor.AddNameSums`: integers are exact here. JavaScript adds doubles, so sums beyond 2^53 round, and magnitudes of 10^21 and more print in exponent form.
- `MockExecutor.ReverseNameReverses`: Dafny characters are Unicode scalar values. JavaScript reverses UTF-16 code units and splits a character outside the Basic Multilingual Plane into two surrogates, so the two agree on text within that plane only. For a number, the text reversed is its exact decimal text; JavaScript's `toString` rounds beyond 2^53 and prints magnitudes of 10^21 and more in exponent form.
- `MockExecutor.ReverseOfUndefinedThrows`: the message is V8's wording for `undefined.toString()`. Other engines word it differently.
- The python-to-javascript indentation step (`/(\n\s{4,})([^}])/g` to `'$1$2'`): each match is put back as it was, so the chain leaves the step out. That this is the identity is not proved.
- `Translation.TranslateChain`: the output text of the two chains is given by their definitions. Beyond the `;`/`}` removal, text free of the rewritten characters, and the double-brace step, no property of the translated text is proved. In particular, the `def add(a, b)` example is not proved.
- `FixRules.EvenBlocksAssignmentRule`: stated only for the case where rule (c) does not fire. That rule (c)'s rewrite keeps a `==` is not proved.
- `Date.now()` is the parameter `id` when a case is added, and the function `clock`, read once per item, when cases are imported.
- src/components/CodeEditor.tsx and src/components/TestResults.tsx are not part of this model. The first wraps an editor widget. The second only renders; the passed count it shows is `TransformEngine.PassedCount`.
- Scenarios use the one-line form of the default sample. `App.constructor` holds the two-line default.
