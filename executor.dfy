/** `CodeService.executeCode` (src/services/codeService.ts): the mock
    executor. It never runs the code: it finds a function name by pattern
    search and picks a canned result by fragments of that name. */
module MockExecutor {
  import opened Wrappers
  import opened Text
  import opened Regex

  /** The values `JSON.parse` can produce here: integers and strings. */
  datatype Scalar = Int(n: int) | Str(s: string)

  /** A test input as `executeCode` sees it: one scalar, an array of
      scalars, or `undefined`, the input of an imported case that had none
      (`JSON.parse` itself never yields it). */
  datatype Value = Single(v: Scalar) | List(elems: seq<Scalar>) | Undefined

  /** `{ result, error? }`. */
  datatype Execution = Execution(result: string, error: Option<string>)

  const NoFunction: string := "Could not find function"

  /** The message of the `TypeError` thrown by `undefined.toString()` (V8's
      wording), which the `catch` turns into the error text. */
  const UndefinedToString: string := "Cannot read properties of undefined (reading 'toString')"

  /** The keyword each alternative of the name search starts with, and the
      character it ends with. */
  const Keywords: seq<string> := ["def", "function", "const"]
  const Terminators: seq<string> := ["(", "(", "="]

  /** Alternative `k`: the keyword, white space, the name in group `k + 1`,
      optional white space, the terminator. */
  function NamePattern(k: nat): Pattern
    requires k < 3
  {
    Lit(Keywords[k]) + [Atom(Space, Greedy1), Open(k + 1), Atom(Word, Greedy1), Close(k + 1), Atom(Space, Greedy)]
    + Lit(Terminators[k])
  }

  /** The three alternatives of
      `/def\s+(\w+)\s*\(|function\s+(\w+)\s*\(|const\s+(\w+)\s*=/`. */
  function NamePatterns(): (p: seq<Pattern>)
    ensures |p| == 3 && forall k :: 0 <= k < 3 ==> p[k] == NamePattern(k)
  {
    [NamePattern(0), NamePattern(1), NamePattern(2)]
  }

  /** `functionMatch?.[1] || functionMatch?.[2] || functionMatch?.[3]`, with
      `None` when there is no match or the name is falsy. */
  function FunctionName(code: string): (name: Option<string>)
    ensures name.Some? <==> SearchAlt(NamePatterns(), code, 0).Some?
    ensures name.Some? ==> name.value != ""
  {
    match SearchAlt(NamePatterns(), code, 0)
    case None => None
    case Some(m) =>
      NameIsCaptured(code, m);
      NameIn(code, m)
  }

  /** The first non-empty of the three groups of a match, `None` if all are
      empty. */
  function NameIn(code: string, m: Match): (name: Option<string>)
    requires GroupsWithin(m.groups, |code|)
    ensures name.Some? ==> name.value != ""
  {
    var n := if Captured(code, m.groups, 1) != "" then Captured(code, m.groups, 1)
             else if Captured(code, m.groups, 2) != "" then Captured(code, m.groups, 2)
             else Captured(code, m.groups, 3);
    if n == "" then None else Some(n)
  }

  /** Each alternative captures its `\w+` in its own group, and that group
      is never empty. */
  lemma NameCaptured(code: string, i: nat, k: nat, m: Match)
    requires i <= |code| && k < 3 && MatchAt(NamePatterns()[k], code, i) == Some(m)
    ensures k + 1 in m.groups && m.groups[k + 1].0 < m.groups[k + 1].1
    ensures Captured(code, m.groups, k + 1) != ""
    ensures Captured(code, m.groups, 1) != "" || Captured(code, m.groups, 2) != ""
         || Captured(code, m.groups, 3) != ""
  {
    var pre := Lit(Keywords[k]) + [Atom(Space, Greedy1)];
    var post := [Atom(Space, Greedy)] + Lit(Terminators[k]);
    assert NamePatterns()[k] == pre + [Open(k + 1), Atom(Word, Greedy1), Close(k + 1)] + post;
    assert forall j :: 0 <= j < |pre| ==> pre[j].Atom?;
    assert forall j :: 0 <= j < |post| ==> post[j].Atom?;
    PlusGroupNonEmpty(pre, Word, post, code, i, map[], k + 1);
    assert Captured(code, m.groups, k + 1) != "";
    if k == 0 {
      assert Captured(code, m.groups, 1) != "";
    } else if k == 1 {
      assert Captured(code, m.groups, 2) != "";
    }
  }

  /** The match of the name search holds a non-empty captured name. */
  lemma NameIsCaptured(code: string, m: Match)
    requires SearchAlt(NamePatterns(), code, 0) == Some(m)
    ensures Captured(code, m.groups, 1) != "" || Captured(code, m.groups, 2) != ""
         || Captured(code, m.groups, 3) != ""
  {
    SearchAltWitness(NamePatterns(), code, 0, m);
    var i, k :| 0 <= i <= |code| && 0 <= k < 3 && MatchAt(NamePatterns()[k], code, i) == Some(m);
    NameCaptured(code, i, k, m);
  }

  /** The text of alternative `k` stands at `i`: its keyword, white space
      up to `a`, the word `code[a..b]`, white space up to `c`, and its
      terminator at `c`. */
  predicate Declares(code: string, k: nat, i: nat, a: nat, b: nat, c: nat) {
    && k < 3 && i + |Keywords[k]| < a < b <= c < |code|
    && code[i..i + |Keywords[k]|] == Keywords[k]
    && (forall m :: i + |Keywords[k]| <= m < a ==> IsSpace(code[m]))
    && (forall m :: a <= m < b ==> IsWordChar(code[m]))
    && (forall m :: b <= m < c ==> IsSpace(code[m]))
    && code[c] == Terminators[k][0]
  }

  /** No alternative of the name search matches before `i`. */
  predicate NoNameBefore(code: string, i: nat)
    requires i <= |code|
  {
    forall j :: 0 <= j < i ==> MatchAlt(NamePatterns(), code, j).None?
  }

  /** Where alternative `k`'s text stands, it matches, and group `k + 1`
      holds the word. */
  lemma NameMatchAt(code: string, k: nat, i: nat, a: nat, b: nat, c: nat)
    requires Declares(code, k, i, a, b, c)
    ensures MatchAt(NamePattern(k), code, i) == Some(Match(c + 1, map[k + 1 := (a, b)]))
  {
    var kw := Keywords[k];
    var afterSpace := [Open(k + 1), Atom(Word, Greedy1), Close(k + 1), Atom(Space, Greedy)] + Lit(Terminators[k]);
    NameTail(code, k + 1, Terminators[k], a, b, c);
    assert !IsSpace(code[a]);
    Greedy1Run(Space, afterSpace, code, i + |kw|, a, map[]);
    var rest := [Atom(Space, Greedy1)] + afterSpace;
    LitThen(kw, rest, code, i, map[]);
    assert NamePattern(k) == Lit(kw) + rest;
  }

  /** From the name on: group `n` takes the word `code[a..b]`, then white
      space up to `c` and the terminator `term` at `c`. */
  lemma NameTail(code: string, n: nat, term: string, a: nat, b: nat, c: nat)
    requires a < b <= c < |code| && |term| == 1 && code[c] == term[0]
    requires term[0] == '(' || term[0] == '='
    requires forall m :: a <= m < b ==> IsWordChar(code[m])
    requires forall m :: b <= m < c ==> IsSpace(code[m])
    ensures MatchFrom([Open(n), Atom(Word, Greedy1), Close(n), Atom(Space, Greedy)] + Lit(term), code, a, map[])
         == Some(Match(c + 1, map[n := (a, b)]))
  {
    var g1: Groups := map[n := (a, a)];
    var g2: Groups := map[n := (a, b)];
    assert code[c..c + 1] == term;
    LitThen(term, [], code, c, g2);
    assert Lit(term) + [] == Lit(term);
    var post := [Atom(Space, Greedy)] + Lit(term);
    GreedyRun(Space, Lit(term), code, b, c, g2);
    var afterWord := [Close(n)] + post;
    assert afterWord[1..] == post;
    assert g1[n := (g1[n].0, b)] == g2;
    Greedy1Run(Word, afterWord, code, a, b, g1);
    OpenStep(n, [Atom(Word, Greedy1)] + afterWord, code, a, map[]);
    assert [Open(n)] + ([Atom(Word, Greedy1)] + afterWord)
        == [Open(n), Atom(Word, Greedy1), Close(n), Atom(Space, Greedy)] + Lit(term);
  }

  /** When the leftmost declaration in the code is alternative `k` at `i`,
      laid out as in `NameMatchAt`, the name found is `code[a..b]`. */
  lemma NameFoundAt(code: string, k: nat, i: nat, a: nat, b: nat, c: nat)
    requires Declares(code, k, i, a, b, c)
    requires NoNameBefore(code, i)
    ensures FunctionName(code) == Some(code[a..b])
  {
    NameDeclaredAt(code, k, i, a, b, c);
    NameOfMatch(code, k, a, b, c + 1);
    NameOfSearch(code, Match(c + 1, map[k + 1 := (a, b)]));
  }

  /** The name is read off the match the search returns. */
  lemma NameOfSearch(code: string, m: Match)
    requires SearchAlt(NamePatterns(), code, 0) == Some(m)
    ensures FunctionName(code) == NameIn(code, m)
  {
  }

  /** The search part of `NameFoundAt`: its match is that of alternative
      `k` at `i`. */
  lemma NameDeclaredAt(code: string, k: nat, i: nat, a: nat, b: nat, c: nat)
    requires Declares(code, k, i, a, b, c)
    requires NoNameBefore(code, i)
    ensures SearchAlt(NamePatterns(), code, 0) == Some(Match(c + 1, map[k + 1 := (a, b)]))
  {
    NameMatchAt(code, k, i, a, b, c);
    assert code[i] == code[i..i + |Keywords[k]|][0];
    NameSearchFinds(code, k, i, Match(c + 1, map[k + 1 := (a, b)]));
  }

  /** The search for a name returns the match of alternative `k` at `i`
      when no alternative matches earlier. */
  lemma NameSearchFinds(code: string, k: nat, i: nat, m: Match)
    requires k < 3 && i < |code| && code[i] == Keywords[k][0]
    requires MatchAt(NamePattern(k), code, i) == Some(m)
    requires NoNameBefore(code, i)
    ensures SearchAlt(NamePatterns(), code, 0) == Some(m)
  {
    forall j | 0 <= j < k
      ensures MatchAt(NamePatterns()[j], code, i).None?
    {
      NameMissesAt(code, j, i);
    }
    SearchAltFirst(NamePatterns(), code, i, k);
  }

  /** Alternative `k` cannot match where its keyword's first letter is
      missing. */
  lemma NameMissesAt(code: string, k: nat, i: nat)
    requires k < 3 && i <= |code|
    requires i == |code| || code[i] != Keywords[k][0]
    ensures MatchAt(NamePattern(k), code, i).None?
  {
    assert NamePattern(k)[0] == Atom(Char(Keywords[k][0]), Once);
  }

  /** A match holding group `k + 1` alone names what that group captured. */
  lemma NameOfMatch(code: string, k: nat, a: nat, b: nat, e: nat)
    requires k < 3 && a < b <= |code|
    ensures NameIn(code, Match(e, map[k + 1 := (a, b)])) == Some(code[a..b])
  {
    var g: Groups := map[k + 1 := (a, b)];
    assert Captured(code, g, k + 1) == code[a..b] != "";
    if k == 0 {
      assert Captured(code, g, 1) == code[a..b];
    } else if k == 1 {
      assert Captured(code, g, 1) == "" && Captured(code, g, 2) == code[a..b];
    } else {
      assert Captured(code, g, 1) == "" && Captured(code, g, 2) == "" && Captured(code, g, 3) == code[a..b];
    }
  }

  /** `def NAME(...` at the very start names the function `NAME`. */
  lemma DefNameFound(w: string, rest: string)
    requires w != [] && forall m :: 0 <= m < |w| ==> IsWordChar(w[m])
    ensures FunctionName("def " + w + "(" + rest) == Some(w)
  {
    var code := "def " + w + "(" + rest;
    var b := 4 + |w|;
    assert code[..3] == "def" && code[3] == ' ' && code[b] == '(';
    assert forall m :: 4 <= m < b ==> code[m] == w[m - 4];
    assert code[4..b] == w;
    NameFoundAt(code, 0, 0, 4, b, b);
  }

  /** `x.toString()` for a scalar. */
  function ToString(x: Scalar): string {
    match x
    case Int(n) => DecimalString(n)
    case Str(s) => s
  }

  /** `Number(s)` restricted to integer text: surrounding white space is
      ignored, the empty text is 0, and an optional sign may precede the
      digits. Other texts stand for NaN (or for a value this model does not
      represent). */
  function StringToInt(s: string): (r: Option<int>)
    ensures Trim(s) == "" ==> r == Some(0)
    ensures forall n :: Trim(s) == DecimalString(n) ==> r == Some(n)
    ensures forall n: nat :: Trim(s) == "+" + NatString(n) ==> r == Some(n)
    ensures |Trim(s)| >= 2 && Trim(s)[0] == '+' && AllDigits(Trim(s)[1..]) ==> r == Some(ParseNat(Trim(s)[1..]))
  {
    var t := Trim(s);
    assert forall n :: t == DecimalString(n) ==> ParseDecimal(t) == Some(n) && t[0] != '+' by {
      forall n | t == DecimalString(n) ensures ParseDecimal(t) == Some(n) && t[0] != '+' {
        DecimalRoundTrip(n);
        if n >= 0 { assert IsDigit(t[0]); }
      }
    }
    assert forall n: nat :: t == "+" + NatString(n) ==> t[1..] == NatString(n) && ParseNat(t[1..]) == n by {
      forall n: nat | t == "+" + NatString(n) ensures t[1..] == NatString(n) && ParseNat(t[1..]) == n {
        assert t[1..] == NatString(n);
        ParseNatString(n);
      }
    }
    if t == "" then Some(0)
    else if t[0] == '+' && |t| >= 2 && AllDigits(t[1..]) then Some(ParseNat(t[1..]))
    else ParseDecimal(t)
  }

  /** `Number` reads back the decimal text of an integer. */
  lemma StringToIntDecimal(n: int)
    ensures StringToInt(DecimalString(n)) == Some(n)
  {
    var d := DecimalString(n);
    assert IsDigit(d[|d| - 1]);
    if n >= 0 {
      assert IsDigit(d[0]);
    }
    assert !IsSpace(d[0]) && !IsSpace(d[|d| - 1]);
    assert Trim(d) == d;
    assert d[0] != '+';
    DecimalRoundTrip(n);
  }

  /** `num % 2 === 0`, where a missing value (`undefined`) or a text that is
      not a number gives NaN and hence `false`. */
  predicate IsEven(num: Option<Scalar>)
    ensures IsEven(num) ==> num.Some?
  {
    match num
    case None => false
    case Some(Int(n)) => n % 2 == 0
    case Some(Str(s)) => var k := StringToInt(s); k.Some? && k.value % 2 == 0
  }

  /** A number and its decimal text are even alike. */
  lemma IsEvenText(n: int)
    ensures IsEven(Some(Int(n))) <==> n % 2 == 0
    ensures IsEven(Some(Str(DecimalString(n)))) <==> n % 2 == 0
  {
    StringToIntDecimal(n);
  }

  /** `(a + b).toString()`: integer addition, or string concatenation when
      either operand is a string. */
  function Plus(a: Scalar, b: Scalar): (r: string)
    ensures a.Int? && b.Int? ==> r == DecimalString(a.n + b.n) && ParseDecimal(r) == Some(a.n + b.n)
    ensures a.Str? || b.Str? ==> r == ToString(a) + ToString(b)
  {
    if a.Int? && b.Int? then
      DecimalRoundTrip(a.n + b.n);
      DecimalString(a.n + b.n)
    else ToString(a) + ToString(b)
  }

  /** `Array.isArray(parsedInput) ? parsedInput[0] : parsedInput`, with
      `None` for the `undefined` of an empty array. */
  function FirstOrSelf(v: Value): (r: Option<Scalar>)
    ensures r.None? <==> v == Undefined || v == List([])
    ensures v.Single? ==> r == Some(v.v)
    ensures v.List? && |v.elems| > 0 ==> r == Some(v.elems[0])
  {
    match v
    case Single(x) => Some(x)
    case List(es) => if |es| > 0 then Some(es[0]) else None
    case Undefined => None
  }

  /** `JSON.parse(input)`, or the raw input when it does not parse; an
      absent input stays `undefined`, since `JSON.parse(undefined)` throws. */
  function ParseInput(input: Option<string>, parse: string -> Option<Value>): (v: Value)
    ensures input.None? ==> v == Undefined
    ensures input.Some? && parse(input.value).Some? ==> v == parse(input.value).value
    ensures input.Some? && parse(input.value).None? ==> v == Single(Str(input.value))
  {
    match input
    case None => Undefined
    case Some(text) =>
      match parse(text)
      case Some(v) => v
      case None => Single(Str(text))
  }

  /** `executeCode(code, input)`; `parse` stands for `JSON.parse`, and an
      absent input is `undefined`. */
  function Execute(code: string, input: Option<string>, parse: string -> Option<Value>): (e: Execution)
    ensures e.error.Some? ==> e.result == "undefined"
  {
    var parsed := ParseInput(input, parse);
    match FunctionName(code)
    case None => Execution("undefined", Some(NoFunction))
    case Some(name) =>
      if Contains(name, "even") then
        Execution(if IsEven(FirstOrSelf(parsed)) then "true" else "false", None)
      else if (Contains(name, "add") || Contains(name, "sum")) && parsed.List? && |parsed.elems| >= 2 then
        Execution(Plus(parsed.elems[0], parsed.elems[1]), None)
      else if Contains(name, "reverse") then
        match FirstOrSelf(parsed)
        case None => Execution("undefined", Some(UndefinedToString))
        case Some(x) => Execution(Reverse(ToString(x)), None)
      else Execution("mock_result", None)
  }

  /** With no `def NAME(`, `function NAME(` or `const NAME =` anywhere in the
      code, the result is `undefined` with the error `Could not find function`;
      that error is reported for no other reason. */
  lemma NoFunctionFound(code: string, input: Option<string>, parse: string -> Option<Value>)
    requires forall i, k :: 0 <= i <= |code| && 0 <= k < |NamePatterns()| ==> MatchAt(NamePatterns()[k], code, i).None?
    ensures Execute(code, input, parse) == Execution("undefined", Some(NoFunction))
  {
    assert SearchAlt(NamePatterns(), code, 0).None?;
  }

  lemma NoFunctionErrorIff(code: string, input: Option<string>, parse: string -> Option<Value>)
    ensures Execute(code, input, parse).error == Some(NoFunction) <==> FunctionName(code).None?
  {
    assert |NoFunction| != |UndefinedToString|;
  }

  /** A name containing `even` answers `true` exactly for an even number,
      taking the first element of a list. */
  lemma EvenNameTestsParity(code: string, input: Option<string>, parse: string -> Option<Value>, n: int)
    requires FunctionName(code).Some? && Contains(FunctionName(code).value, "even")
    requires FirstOrSelf(ParseInput(input, parse)) == Some(Int(n))
    ensures Execute(code, input, parse).result == "true" <==> n % 2 == 0
    ensures Execute(code, input, parse).result in {"true", "false"}
    ensures Execute(code, input, parse).error == None
  {
  }

  /** A name containing `add` or `sum` (and not `even`) with a list of at
      least two integers answers the decimal text of the sum of the first two. */
  lemma AddNameSums(code: string, input: Option<string>, parse: string -> Option<Value>, es: seq<Scalar>, a: int, b: int)
    requires FunctionName(code).Some?
    requires var name := FunctionName(code).value;
      !Contains(name, "even") && (Contains(name, "add") || Contains(name, "sum"))
    requires ParseInput(input, parse) == List(es) && |es| >= 2 && es[0] == Int(a) && es[1] == Int(b)
    ensures Execute(code, input, parse).result == DecimalString(a + b)
    ensures ParseDecimal(Execute(code, input, parse).result) == Some(a + b)
    ensures Execute(code, input, parse).error == None
  {
  }

  /** A name containing `reverse` (and neither `even` nor, for a list of two
      or more, `add`/`sum`) answers the character reversal of the input's
      text, of the first element for a list. */
  lemma ReverseNameReverses(code: string, input: Option<string>, parse: string -> Option<Value>, x: Scalar)
    requires FunctionName(code).Some?
    requires var name := FunctionName(code).value; var v := ParseInput(input, parse);
      && !Contains(name, "even") && Contains(name, "reverse")
      && !((Contains(name, "add") || Contains(name, "sum")) && v.List? && |v.elems| >= 2)
    requires FirstOrSelf(ParseInput(input, parse)) == Some(x)
    ensures Reverse(Execute(code, input, parse).result) == ToString(x)
    ensures Execute(code, input, parse).error == None
  {
    ReverseReverse(ToString(x));
  }

  /** `reverse` on an empty list, or on an absent input, reaches
      `undefined.toString()`, which throws; the `catch` reports the
      exception's message. */
  lemma ReverseOfUndefinedThrows(code: string, input: Option<string>, parse: string -> Option<Value>)
    requires FunctionName(code).Some?
    requires var name := FunctionName(code).value;
      !Contains(name, "even") && Contains(name, "reverse")
    requires FirstOrSelf(ParseInput(input, parse)).None?
    ensures Execute(code, input, parse) == Execution("undefined", Some(UndefinedToString))
  {
  }

  /** Any other name answers `mock_result`. */
  lemma OtherNameMocks(code: string, input: Option<string>, parse: string -> Option<Value>)
    requires FunctionName(code).Some?
    requires var name := FunctionName(code).value; var v := ParseInput(input, parse);
      && !Contains(name, "even") && !Contains(name, "reverse")
      && !((Contains(name, "add") || Contains(name, "sum")) && v.List? && |v.elems| >= 2)
    ensures Execute(code, input, parse) == Execution("mock_result", None)
  {
  }

  /** A name containing `even` answers `false` for an absent input:
      `undefined % 2` is NaN. */
  lemma AbsentInputIsOdd(code: string, parse: string -> Option<Value>)
    requires FunctionName(code).Some? && Contains(FunctionName(code).value, "even")
    ensures Execute(code, None, parse) == Execution("false", None)
  {
  }

  /** `x=1` declares nothing the name search recognises. */
  lemma AssignmentIsNoFunction(input: Option<string>, parse: string -> Option<Value>)
    ensures Execute("x=1", input, parse) == Execution("undefined", Some(NoFunction))
  {
    forall i, k | 0 <= i <= 3 && 0 <= k < |NamePatterns()|
      ensures MatchAt(NamePatterns()[k], "x=1", i).None?
    {
      var p := NamePatterns()[k];
      assert p[0] == Atom(Char(['d', 'f', 'c'][k]), Once);
    }
    NoFunctionFound("x=1", input, parse);
  }
}
