/** `detectLanguage` (src/services/codeService.ts): the language table, in
    declaration order, with each language's regular expressions, and the
    first-match-wins scan over it. */
module LanguageDetector {
  import opened Wrappers
  import opened Text
  import opened Regex

  /** `\s+`, `\s*`, `\w+`. */
  const Spaces1: Item := Atom(Space, Greedy1)
  const Spaces0: Item := Atom(Space, Greedy)
  const Word1: Item := Atom(Word, Greedy1)

  datatype Language = Language(name: string, patterns: seq<Pattern>)

  /** The table of `detectLanguage`, in the order its keys are declared. */
  function Table(): seq<Language> {
    [ Language("python", PythonPatterns),
      Language("javascript", JavaScriptPatterns),
      Language("typescript", TypeScriptPatterns),
      Language("java", JavaPatterns),
      Language("cpp", CppPatterns),
      Language("csharp", CSharpPatterns),
      Language("go", GoPatterns),
      Language("rust", RustPatterns),
      Language("php", PhpPatterns),
      Language("ruby", RubyPatterns) ]
  }

  const PythonPatterns: seq<Pattern> := [
        PythonDef,
        Lit("import") + [Spaces1, Word1],
        Lit("if") + [Spaces1] + Lit("__name__") + [Spaces0] + Lit("==") + [Spaces0, Atom(Quote, Once)]
          + Lit("__main__") + [Atom(Quote, Once)],
        Lit("print") + [Spaces0] + Lit("(")]

  const JavaScriptPatterns: seq<Pattern> := [
        FunctionDecl,
        Lit("const") + [Spaces1, Word1, Spaces0] + Lit("="),
        Lit("let") + [Spaces1, Word1, Spaces0] + Lit("="),
        Lit("var") + [Spaces1, Word1, Spaces0] + Lit("="),
        Lit("console.log") + [Spaces0] + Lit("(")]

  const TypeScriptPatterns: seq<Pattern> := [
        Lit("interface") + [Spaces1, Word1],
        Lit("type") + [Spaces1, Word1, Spaces0] + Lit("="),
        Lit(":") + [Spaces0] + Lit("string"),
        Lit(":") + [Spaces0] + Lit("number"),
        Lit("export") + [Spaces1] + Lit("interface")]

  const JavaPatterns: seq<Pattern> := [
        PublicClass,
        Lit("public") + [Spaces1] + Lit("static") + [Spaces1] + Lit("void") + [Spaces1] + Lit("main"),
        Lit("System.out.println"),
        Lit("import") + [Spaces1] + Lit("java.")]

  const CppPatterns: seq<Pattern> := [
        Lit("#include") + [Spaces0] + Lit("<") + [Word1] + Lit(">"),
        Lit("using") + [Spaces1] + Lit("namespace") + [Spaces1] + Lit("std"),
        Lit("cout") + [Spaces0] + Lit("<<"),
        Lit("cin") + [Spaces0] + Lit(">>")]

  const CSharpPatterns: seq<Pattern> := [
        Lit("using") + [Spaces1] + Lit("System"),
        PublicClass,
        Lit("Console.WriteLine"),
        Lit("namespace") + [Spaces1, Word1]]

  const GoPatterns: seq<Pattern> := [
        Lit("package") + [Spaces1] + Lit("main"),
        Lit("func") + [Spaces1] + Lit("main") + [Spaces0] + Lit("()"),
        Lit("import") + [Spaces0] + Lit("("),
        Lit("fmt.Println")]

  const RustPatterns: seq<Pattern> := [
        Lit("fn") + [Spaces1] + Lit("main") + [Spaces0] + Lit("()"),
        Lit("let") + [Spaces1] + Lit("mut") + [Spaces1, Word1],
        Lit("println!") + [Spaces0] + Lit("("),
        Lit("use") + [Spaces1] + Lit("std::")]

  const PhpPatterns: seq<Pattern> := [
        Lit("<?php"),
        FunctionDecl,
        Lit("echo") + [Spaces1],
        Lit("$") + [Word1]]

  const RubyPatterns: seq<Pattern> := [
        Lit("def") + [Spaces1, Word1],
        Lit("puts") + [Spaces1],
        Lit("require") + [Spaces1],
        Lit("class") + [Spaces1, Word1]]

  /** `['""]`: a single or a double quote. */
  const Quote: CharClass := OneOf("'\"")

  /** `def\s+\w+\s*\(`. */
  const PythonDef: Pattern := Lit("def") + [Spaces1, Word1, Spaces0] + Lit("(")

  /** `function\s+\w+\s*\(`, listed under both javascript and php. */
  const FunctionDecl: Pattern := Lit("function") + [Spaces1, Word1, Spaces0] + Lit("(")

  /** `public\s+class\s+\w+`, listed under both java and csharp. */
  const PublicClass: Pattern := Lit("public") + [Spaces1] + Lit("class") + [Spaces1, Word1]

  /** `regexes.some(regex => regex.test(code))`. */
  predicate AnyMatches(patterns: seq<Pattern>, code: string)
    ensures AnyMatches(patterns, code) <==> exists j :: 0 <= j < |patterns| && Test(patterns[j], code)
  {
    if patterns == [] then false
    else Test(patterns[0], code) || AnyMatches(patterns[1..], code)
  }

  /** Entry `j` is the first one at or after `k` whose patterns match. */
  predicate FirstMatchAt(table: seq<Language>, code: string, k: nat, j: nat) {
    && k <= j < |table| && AnyMatches(table[j].patterns, code)
    && forall i :: k <= i < j ==> !AnyMatches(table[i].patterns, code)
  }

  /** No entry at or after `k` matches. */
  predicate NoMatchFrom(table: seq<Language>, code: string, k: nat) {
    forall j :: k <= j < |table| ==> !AnyMatches(table[j].patterns, code)
  }

  /** The scan over the table from entry `k` on: the first entry whose
      patterns match names the language, and `javascript` is the default. */
  function DetectFrom(table: seq<Language>, code: string, k: nat): (name: string)
    requires k <= |table|
    ensures || (exists j: nat :: FirstMatchAt(table, code, k, j) && name == table[j].name)
            || (name == "javascript" && NoMatchFrom(table, code, k))
    decreases |table| - k
  {
    if k == |table| then "javascript"
    else if AnyMatches(table[k].patterns, code) then
      assert FirstMatchAt(table, code, k, k);
      table[k].name
    else
      var r := DetectFrom(table, code, k + 1);
      FirstMatchShift(table, code, k);
      r
  }

  /** Past an entry that does not match, the first match from the next
      entry on is the first match from this one. */
  lemma FirstMatchShift(table: seq<Language>, code: string, k: nat)
    requires k < |table| && !AnyMatches(table[k].patterns, code)
    ensures forall j: nat :: FirstMatchAt(table, code, k + 1, j) ==> FirstMatchAt(table, code, k, j)
    ensures NoMatchFrom(table, code, k + 1) ==> NoMatchFrom(table, code, k)
  {
  }

  /** `detectLanguage(code)`: always one of the table's ten keys. */
  function DetectLanguage(code: string): (name: string)
    ensures exists j :: 0 <= j < |Table()| && name == Table()[j].name
  {
    var T := Table();
    assert T[1].name == "javascript";
    DetectFrom(T, code, 0)
  }

  /** The first language, in declaration order, with a matching pattern
      wins; with none, the answer is `javascript`. */
  lemma FirstMatchWins(table: seq<Language>, code: string, k: nat)
    requires k < |table|
    requires AnyMatches(table[k].patterns, code)
    requires forall j :: 0 <= j < k ==> !AnyMatches(table[j].patterns, code)
    ensures DetectFrom(table, code, 0) == table[k].name
  {
  }


  /** `def`, white space up to `a`, the word `code[a..b]`, white space up
      to `c` and `(` at `c`: the text of a Python function definition. */
  predicate DefLaidOut(code: string, i: nat, a: nat, b: nat, c: nat) {
    && i + 3 < a < b <= c < |code|
    && code[i..i + 3] == "def"
    && (forall m :: i + 3 <= m < a ==> IsSpace(code[m]))
    && (forall m :: a <= m < b ==> IsWordChar(code[m]))
    && (forall m :: b <= m < c ==> IsSpace(code[m]))
    && code[c] == '('
  }

  /** Code holding a Python function definition, whatever its name and
      spacing, is python. */
  lemma DefCallIsPython(code: string, i: nat, a: nat, b: nat, c: nat)
    requires DefLaidOut(code, i, a, b, c)
    ensures DetectLanguage(code) == "python"
  {
    DefCallMatches(code, i, a, b, c);
    TestAt(PythonDef, code, i);
    PythonPatternWins(code, 0);
  }

  /** `def\s+\w+\s*\(` matches such a definition, ending just after its
      `(`. */
  lemma DefCallMatches(code: string, i: nat, a: nat, b: nat, c: nat)
    requires DefLaidOut(code, i, a, b, c)
    ensures MatchAt(PythonDef, code, i) == Some(Match(c + 1, map[]))
  {
    var g: Groups := map[];
    var paren := Lit("(");
    LitThen("(", [], code, c, g);
    assert code[c..c + 1] == "(";
    assert paren + [] == paren;
    GreedyRun(Space, paren, code, b, c, g);
    var afterWord := [Spaces0] + paren;
    assert !IsSpace(code[a]);
    Greedy1Run(Word, afterWord, code, a, b, g);
    var afterSpace := [Word1] + afterWord;
    Greedy1Run(Space, afterSpace, code, i + 3, a, g);
    LitThen("def", [Spaces1] + afterSpace, code, i, g);
    assert PythonDef == Lit("def") + ([Spaces1] + afterSpace);
  }

  /** `def f(` is such a definition. */
  lemma DefFIsPython(code: string, i: nat)
    requires i + 6 <= |code| && code[i..i + 6] == "def f("
    ensures DetectLanguage(code) == "python"
  {
    assert code[i + 3] == ' ' && code[i + 4] == 'f' && code[i + 5] == '(';
    assert code[i..i + 3] == code[i..i + 6][..3];
    DefCallIsPython(code, i, i + 4, i + 5, i + 5);
  }

  /** Code that any python pattern matches is python, the first entry;
      the `__name__ == '__main__'` guard is the third of them. */
  lemma PythonPatternWins(code: string, j: nat)
    requires j < |PythonPatterns| && Test(PythonPatterns[j], code)
    ensures DetectLanguage(code) == "python"
  {
    var T := Table();
    assert T[0].patterns == PythonPatterns;
    assert AnyMatches(T[0].patterns, code);
    FirstMatchWins(T, code, 0);
  }

  /** The csharp entry is never chosen for code that `public\s+class\s+\w+`
      matches: the java entry, declared earlier, lists the same pattern. */
  lemma PublicClassIsNeverCsharp(code: string)
    requires Test(PublicClass, code)
    ensures DetectLanguage(code) != "csharp"
  {
    var T := Table();
    assert T[3].patterns[0] == PublicClass;
    assert AnyMatches(T[3].patterns, code);
  }

  /** Likewise php is never chosen for code that `function\s+\w+\s*\(`
      matches: javascript lists it first. */
  lemma FunctionDeclIsNeverPhp(code: string)
    requires Test(FunctionDecl, code)
    ensures DetectLanguage(code) != "php"
  {
    var T := Table();
    assert T[1].patterns[0] == FunctionDecl;
    assert AnyMatches(T[1].patterns, code);
  }

  /** The pattern begins with one literal character. */
  predicate StartsWithLiteral(p: Pattern) {
    |p| > 0 && p[0].Atom? && p[0].cls.Char? && p[0].q == Once
  }

  /** Patterns that start with a literal character cannot match empty code. */
  lemma {:induction false} LiteralStartsMissEmpty(patterns: seq<Pattern>)
    requires forall j :: 0 <= j < |patterns| ==> StartsWithLiteral(patterns[j])
    ensures !AnyMatches(patterns, "")
  {
    if patterns != [] {
      assert MatchAt(patterns[0], "", 0).None?;
      LiteralStartsMissEmpty(patterns[1..]);
    }
  }

  /** Every pattern of the table starts with a literal character, so empty
      code matches none of them and is classified as javascript. */
  lemma EmptyIsJavascript()
    ensures DetectLanguage("") == "javascript"
  {
    PythonMissesEmpty();
    JavaScriptMissesEmpty();
    TypeScriptMissesEmpty();
    JavaMissesEmpty();
    CppMissesEmpty();
    CSharpMissesEmpty();
    GoMissesEmpty();
    RustMissesEmpty();
    PhpMissesEmpty();
    RubyMissesEmpty();
    var T := Table();
    assert DetectFrom(T, "", 9) == "javascript";
    assert DetectFrom(T, "", 8) == "javascript";
    assert DetectFrom(T, "", 7) == "javascript";
    assert DetectFrom(T, "", 6) == "javascript";
    assert DetectFrom(T, "", 5) == "javascript";
    assert DetectFrom(T, "", 4) == "javascript";
    assert DetectFrom(T, "", 3) == "javascript";
    assert DetectFrom(T, "", 2) == "javascript";
    assert DetectFrom(T, "", 1) == "javascript";
  }

  lemma PythonMissesEmpty()
    ensures !AnyMatches(PythonPatterns, "")
  {
    LiteralStartsMissEmpty(PythonPatterns);
  }

  lemma JavaScriptMissesEmpty()
    ensures !AnyMatches(JavaScriptPatterns, "")
  {
    LiteralStartsMissEmpty(JavaScriptPatterns);
  }

  lemma TypeScriptMissesEmpty()
    ensures !AnyMatches(TypeScriptPatterns, "")
  {
    LiteralStartsMissEmpty(TypeScriptPatterns);
  }

  lemma JavaMissesEmpty()
    ensures !AnyMatches(JavaPatterns, "")
  {
    LiteralStartsMissEmpty(JavaPatterns);
  }

  lemma CppMissesEmpty()
    ensures !AnyMatches(CppPatterns, "")
  {
    LiteralStartsMissEmpty(CppPatterns);
  }

  lemma CSharpMissesEmpty()
    ensures !AnyMatches(CSharpPatterns, "")
  {
    LiteralStartsMissEmpty(CSharpPatterns);
  }

  lemma GoMissesEmpty()
    ensures !AnyMatches(GoPatterns, "")
  {
    LiteralStartsMissEmpty(GoPatterns);
  }

  lemma RustMissesEmpty()
    ensures !AnyMatches(RustPatterns, "")
  {
    LiteralStartsMissEmpty(RustPatterns);
  }

  lemma PhpMissesEmpty()
    ensures !AnyMatches(PhpPatterns, "")
  {
    LiteralStartsMissEmpty(PhpPatterns);
  }

  lemma RubyMissesEmpty()
    ensures !AnyMatches(RubyPatterns, "")
  {
    LiteralStartsMissEmpty(RubyPatterns);
  }
}
