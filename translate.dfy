/** The two substitution chains of `CodeService.transformCode` in translate
    mode (src/services/codeService.ts), each a sequence of global regular
    expression replaces over the whole buffer. */
module Translation {
  import opened Wrappers
  import opened Regex
  import FixRules

  const Spaces0: Item := Atom(Space, Greedy)
  const Spaces1: Item := Atom(Space, Greedy1)

  /** `/\bw\b/g` replaced by `to`. */
  function ReplaceWord(w: string, to: string, s: string): string {
    ReplaceAll([Boundary] + Lit(w) + [Boundary], [Verbatim(to)], s)
  }

  // ---- python to javascript

  /** `/def\s+(\w+)\s*\((.*?)\):\s*\/g`. */
  const PyDef: Pattern :=
    Lit("def") + [Spaces1, Open(1), Atom(Word, Greedy1), Close(1), Spaces0] + Lit("(")
    + [Open(2), Atom(NotLineTerminator, Lazy), Close(2)] + Lit("):") + [Spaces0]

  /** `'function $1($2) {\n'`. */
  const JsFunctionHead: Template := [Verbatim("function "), Ref(1), Verbatim("("), Ref(2), Verbatim(") {\n")]

  /** `/(\s+)return\s+(.+)/g`. */
  const PyReturn: Pattern :=
    [Open(1), Spaces1, Close(1)] + Lit("return") + [Spaces1, Open(2), Atom(NotLineTerminator, Greedy1), Close(2)]

  /** `'$1return $2;\n}'`. */
  const JsReturn: Template := [Ref(1), Verbatim("return "), Ref(2), Verbatim(";\n}")]

  /** `/}\s*}/g`. */
  const DoubleBrace: Pattern := Lit("}") + [Spaces0] + Lit("}")

  /** The python to javascript chain. The indentation step,
      `/(\n\s{4,})([^}])/g` to `'$1$2'`, puts every match back as it was and
      is left out of the chain. */
  function PythonToJavaScript(code: string): string {
    var s1 := ReplaceAll(PyDef, JsFunctionHead, code);
    var s2 := ReplaceAll(PyReturn, JsReturn, s1);
    var s3 := ReplaceWord("True", "true", s2);
    var s4 := ReplaceWord("False", "false", s3);
    var s5 := ReplaceWord("None", "null", s4);
    var s6 := ReplaceAll(Lit("#") + [Spaces0], [Verbatim("// ")], s5);
    ReplaceAll(DoubleBrace, [Verbatim("}")], s6)
  }

  // ---- javascript to python

  /** `/function\s+(\w+)\s*\((.*?)\)\s*{/g`. */
  const JsFunction: Pattern :=
    Lit("function") + [Spaces1, Open(1), Atom(Word, Greedy1), Close(1), Spaces0] + Lit("(")
    + [Open(2), Atom(NotLineTerminator, Lazy), Close(2)] + Lit(")") + [Spaces0] + Lit("{")

  /** `'def $1($2):'`. */
  const PyFunctionHead: Template := [Verbatim("def "), Ref(1), Verbatim("("), Ref(2), Verbatim("):")]

  /** `/return\s+([^;]+);?\s*}/g`. */
  const JsReturnBrace: Pattern :=
    Lit("return") + [Spaces1, Open(1), Atom(NoneOf(";", false), Greedy1), Close(1),
                     Atom(Char(';'), Optional), Spaces0] + Lit("}")

  /** `'    return $1'`. */
  const PyReturnLine: Template := [Verbatim("    return "), Ref(1)]

  /** The javascript to python chain up to the removal of `;` and `}`. */
  function JavaScriptToPythonRewrite(code: string): string {
    var s1 := ReplaceAll(JsFunction, PyFunctionHead, code);
    var s2 := ReplaceAll(JsReturnBrace, PyReturnLine, s1);
    var s3 := ReplaceWord("true", "True", s2);
    var s4 := ReplaceWord("false", "False", s3);
    var s5 := ReplaceWord("null", "None", s4);
    ReplaceAll(Lit("//") + [Spaces0], [Verbatim("# ")], s5)
  }

  /** The javascript to python chain: the rewrite, then `/;/g` and `/}/g`
      replaced by nothing, so no `;` and no `}` is left and every other
      character of the rewritten text is kept, in order. */
  function JavaScriptToPython(code: string): (r: string)
    ensures ';' !in r && '}' !in r
    ensures r == Without(Without(JavaScriptToPythonRewrite(code), ';'), '}')
  {
    var s6 := JavaScriptToPythonRewrite(code);
    DeleteChar(';', s6);
    DeleteChar('}', Without(s6, ';'));
    ReplaceAll(Lit("}"), [], ReplaceAll(Lit(";"), [], s6))
  }

  /** None of the characters `cs` occurs in `s`. */
  predicate Lacks(s: string, cs: string) {
    forall c :: c in cs ==> c !in s
  }

  /** A global replace of `/\bw\b/g` changes nothing in text without the
      first letter of `w`. */
  lemma ReplaceWordMissing(w: string, to: string, s: string)
    requires |w| > 0 && w[0] !in s
    ensures ReplaceWord(w, to, s) == s
  {
    assert ([Boundary] + Lit(w) + [Boundary])[1] == Atom(Char(w[0]), Once);
    ReplaceAllMissingChar([Boundary] + Lit(w) + [Boundary], [Verbatim(to)], s, w[0]);
  }

  /** Python text with no `d`, `r`, `T`, `F`, `N`, `#` or `}` has nothing any
      step of the python to javascript chain rewrites. */
  lemma PythonToJavaScriptKeepsPlainText(code: string)
    requires Lacks(code, "drTFN#}")
    ensures PythonToJavaScript(code) == code
  {
    assert PyDef[0] == Atom(Char('d'), Once);
    ReplaceAllMissingChar(PyDef, JsFunctionHead, code, 'd');
    assert PyReturn[3] == Atom(Char('r'), Once);
    ReplaceAllMissingChar(PyReturn, JsReturn, code, 'r');
    ReplaceWordMissing("True", "true", code);
    ReplaceWordMissing("False", "false", code);
    ReplaceWordMissing("None", "null", code);
    assert (Lit("#") + [Spaces0])[0] == Atom(Char('#'), Once);
    ReplaceAllMissingChar(Lit("#") + [Spaces0], [Verbatim("// ")], code, '#');
    DoubleBraceNeedsBrace(code);
  }

  /** Javascript text with no `f`, `r`, `t`, `n`, `/`, `;` or `}` has nothing
      any step of the javascript to python chain rewrites. */
  lemma JavaScriptToPythonKeepsPlainText(code: string)
    requires Lacks(code, "frtn/;}")
    ensures JavaScriptToPython(code) == code
  {
    assert JsFunction[0] == Atom(Char('f'), Once);
    ReplaceAllMissingChar(JsFunction, PyFunctionHead, code, 'f');
    assert JsReturnBrace[0] == Atom(Char('r'), Once);
    ReplaceAllMissingChar(JsReturnBrace, PyReturnLine, code, 'r');
    ReplaceWordMissing("true", "True", code);
    ReplaceWordMissing("false", "False", code);
    ReplaceWordMissing("null", "None", code);
    assert (Lit("//") + [Spaces0])[0] == Atom(Char('/'), Once);
    ReplaceAllMissingChar(Lit("//") + [Spaces0], [Verbatim("# ")], code, '/');
    assert Lit(";")[0] == Atom(Char(';'), Once) && Lit("}")[0] == Atom(Char('}'), Once);
    ReplaceAllMissingChar(Lit(";"), [], code, ';');
    ReplaceAllMissingChar(Lit("}"), [], code, '}');
  }

  /** With no `}` at all, the last python to javascript step changes
      nothing. */
  lemma DoubleBraceNeedsBrace(s: string)
    requires '}' !in s
    ensures ReplaceAll(DoubleBrace, [Verbatim("}")], s) == s
  {
    assert DoubleBrace[0] == Atom(Char('}'), Once);
    ReplaceAllMissingChar(DoubleBrace, [Verbatim("}")], s, '}');
  }

  // ---- the translate branch

  const PythonToJavaScriptDescription: string := "Converted Python function syntax to JavaScript"
  const JavaScriptToPythonDescription: string := "Converted JavaScript function syntax to Python"

  /** `request.operation === 'translate' && request.targetLanguage`: a target
      that is present and not empty. */
  predicate HasTarget(target: Option<string>) {
    target.Some? && target.value != ""
  }

  /** The translate branch on the buffer: the two supported pairs rewrite it
      and record one change at line 1; any other pair leaves it alone. */
  function TranslateChain(source: string, target: Option<string>, code: string): (r: (string, seq<FixRules.Change>))
    ensures |r.1| <= 1
    ensures |r.1| == 1 <==> HasTarget(target) && ((source == "python" && target.value == "javascript")
                                                || (source == "javascript" && target.value == "python"))
    ensures r.1 == [] ==> r.0 == code
    ensures forall j :: 0 <= j < |r.1| ==> r.1[j].line == 1 && r.1[j].kind == FixRules.Modified
  {
    if !HasTarget(target) then (code, [])
    else if source == "python" && target.value == "javascript" then
      (PythonToJavaScript(code), [FixRules.Change(1, FixRules.Modified, PythonToJavaScriptDescription)])
    else if source == "javascript" && target.value == "python" then
      (JavaScriptToPython(code), [FixRules.Change(1, FixRules.Modified, JavaScriptToPythonDescription)])
    else (code, [])
  }

  /** Translating between the same language, or to an absent or empty target,
      changes nothing and records nothing. */
  lemma UnsupportedPairUnchanged(source: string, target: Option<string>, code: string)
    requires !HasTarget(target) || target.value == source
    ensures TranslateChain(source, target, code) == (code, [])
  {
  }
}
