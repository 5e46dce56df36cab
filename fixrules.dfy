/** The four bug-fix rules of `CodeService.transformCode` in fix mode
    (src/services/codeService.ts). Each rule tests the buffer as the earlier
    rules left it, rewrites it, and reports one change record whose line is
    one more than the index of the first line containing a marker text. */
module FixRules {
  import opened Text
  import opened Regex

  datatype ChangeKind = Added | Removed | Modified

  /** `{ line, type, description }`. */
  datatype Change = Change(line: int, kind: ChangeKind, description: string)

  const EvenDescription: string := "Fixed even number logic: changed != to =="
  const FactorialDescription: string := "Fixed factorial recursion: changed addition to multiplication"
  const RangeDescription: string := "Fixed off-by-one error in range"
  const AssignmentDescription: string := "Fixed assignment in conditional: changed = to =="

  /** `code.split('\n').findIndex(line => line.includes(marker)) + 1`: 0 when
      no line has the marker. */
  function MarkerLine(code: string, marker: string): (line: int)
    ensures 0 <= line <= |SplitLines(code)|
    ensures line >= 1 ==> Contains(SplitLines(code)[line - 1], marker)
    ensures line >= 1 ==> forall j :: 0 <= j < line - 1 ==> !Contains(SplitLines(code)[j], marker)
    ensures line == 0 <==> forall j :: 0 <= j < |SplitLines(code)| ==> !Contains(SplitLines(code)[j], marker)
  {
    FindLine(SplitLines(code), marker) + 1
  }

  // ---- rule (a): even/odd logic

  predicate EvenFires(code: string) {
    Contains(code, "n % 2 != 0") && Contains(ToLower(code), "even")
  }

  function EvenFix(code: string): string {
    ReplaceFirst(code, "n % 2 != 0", "n % 2 == 0")
  }

  // ---- rule (b): factorial recursion

  predicate FactorialFires(code: string) {
    Contains(code, "return n + 1") && Contains(ToLower(code), "factorial")
  }

  function FactorialFix(code: string): string {
    ReplaceFirst(code, "return n + 1", "return n * factorial(n - 1)")
  }

  // ---- rule (c): off-by-one range

  predicate RangeFires(code: string) {
    Contains(code, "range(len(") && Contains(code, "+ 1")
  }

  /** `/range\(len\(([^)]+)\)\s*\+\s*1\)/g`. */
  const RangePattern: Pattern :=
    Lit("range(len(") + [Open(1), Atom(NoneOf(")", false), Greedy1), Close(1)]
    + Lit(")") + [Atom(Space, Greedy)] + Lit("+") + [Atom(Space, Greedy)] + Lit("1)")

  /** `'range(len($1))'`. */
  const RangeTemplate: Template := [Verbatim("range(len("), Ref(1), Verbatim("))")]

  function RangeFix(code: string): string {
    ReplaceAll(RangePattern, RangeTemplate, code)
  }

  // ---- rule (d): assignment in a condition

  predicate AssignmentFires(code: string) {
    Contains(code, "=") && !Contains(code, "==") && Contains(code, "if")
  }

  /** `/if\s+([^=\s]+)\s*=\s*([^=][^;{]*)/g`. */
  const AssignmentPattern: Pattern :=
    Lit("if") + [Atom(Space, Greedy1), Open(1), Atom(NoneOf("=", true), Greedy1), Close(1), Atom(Space, Greedy)]
    + Lit("=") + [Atom(Space, Greedy), Open(2), Atom(NoneOf("=", false), Once),
                  Atom(NoneOf(";{", false), Greedy), Close(2)]

  /** `'if $1 == $2'`. */
  const AssignmentTemplate: Template := [Verbatim("if "), Ref(1), Verbatim(" == "), Ref(2)]

  function AssignmentFix(code: string): string {
    ReplaceAll(AssignmentPattern, AssignmentTemplate, code)
  }

  // ---- the chain

  /** 1 for a rule that fired, 0 otherwise. */
  function Fired(b: bool): nat { if b then 1 else 0 }

  predicate AllModified(cs: seq<Change>) {
    forall j :: 0 <= j < |cs| ==> cs[j].kind == Modified
  }

  /** One rule's turn: when it fires on the buffer, the buffer is rewritten
      and a record for the rewritten buffer is appended. */
  function Step(state: (string, seq<Change>), fires: bool, rewritten: string, marker: string, description: string)
    : (r: (string, seq<Change>))
    ensures !fires ==> r == state
    ensures fires ==> r.0 == rewritten && |r.1| == |state.1| + 1 && r.1[..|state.1|] == state.1
    ensures fires ==> r.1[|state.1|] == Change(MarkerLine(rewritten, marker), Modified, description)
    ensures |r.1| == |state.1| + Fired(fires)
    ensures AllModified(state.1) ==> AllModified(r.1)
  {
    if fires then (rewritten, state.1 + [Change(MarkerLine(rewritten, marker), Modified, description)])
    else state
  }

  /** Each rule's turn on the buffer and the records so far. */
  function EvenRule(st: (string, seq<Change>)): (string, seq<Change>) {
    Step(st, EvenFires(st.0), EvenFix(st.0), "n % 2", EvenDescription)
  }

  function FactorialRule(st: (string, seq<Change>)): (string, seq<Change>) {
    Step(st, FactorialFires(st.0), FactorialFix(st.0), "return n", FactorialDescription)
  }

  function RangeRule(st: (string, seq<Change>)): (string, seq<Change>) {
    Step(st, RangeFires(st.0), RangeFix(st.0), "range", RangeDescription)
  }

  function AssignmentRule(st: (string, seq<Change>)): (string, seq<Change>) {
    Step(st, AssignmentFires(st.0), AssignmentFix(st.0), "if", AssignmentDescription)
  }

  /** The fix chain: rules (a) to (d) in order, starting from the request's
      code and no records; each appends at most one `modified` record. */
  function FixChain(code: string): (r: (string, seq<Change>))
    ensures |r.1| <= 4 && AllModified(r.1)
  {
    AssignmentRule(RangeRule(FactorialRule(EvenRule((code, [])))))
  }

  /** When no rule's condition holds, the code comes back unchanged with no
      records; so fixing code that no rule applies to twice gives the same
      code and no records both times. */
  lemma CleanCodeIsFixpoint(code: string)
    requires !EvenFires(code) && !FactorialFires(code) && !RangeFires(code) && !AssignmentFires(code)
    ensures FixChain(code) == (code, [])
    ensures FixChain(FixChain(code).0) == (code, [])
  {
  }

  /** Each rule whose condition holds on the buffer it sees appends exactly
      one record and no other rule appends any. */
  lemma FixRecordCount(code: string)
    ensures var s1 := EvenRule((code, []));
            var s2 := FactorialRule(s1);
            var s3 := RangeRule(s2);
            |FixChain(code).1| == Fired(EvenFires(code)) + Fired(FactorialFires(s1.0))
                                  + Fired(RangeFires(s2.0)) + Fired(AssignmentFires(s3.0))
  {
  }

  /** A rule that rewrote the first `pat` into a `rep` holding its marker
      reports a line number of at least 1. */
  lemma ReplacedMarkerLine(code: string, pat: string, rep: string, marker: string)
    requires Contains(code, pat) && Contains(rep, marker) && '\n' !in marker
    ensures MarkerLine(ReplaceFirst(code, pat, rep), marker) >= 1
  {
    ReplaceFirstContains(code, pat, rep, marker);
    FindLineOfContained(ReplaceFirst(code, pat, rep), marker);
  }

  /** Rule (a): only the first `n % 2 != 0` becomes `n % 2 == 0`, and its
      record names the first line containing `n % 2`, which exists. */
  lemma EvenRecordLine(code: string)
    requires EvenFires(code)
    ensures EvenFix(code) != code
    ensures exists k :: && OccursAt(code, "n % 2 != 0", k)
                        && (forall i :: 0 <= i < k ==> !OccursAt(code, "n % 2 != 0", i))
                        && EvenFix(code) == code[..k] + "n % 2 == 0" + code[k + 10..]
    ensures EvenRule((code, [])).1 == [Change(MarkerLine(EvenFix(code), "n % 2"), Modified, EvenDescription)]
    ensures EvenRule((code, [])).1[0].line >= 1
  {
    var k := IndexOf(code, "n % 2 != 0", 0);
    assert "n % 2 == 0"[0..5] == "n % 2";
    ContainsAt("n % 2 == 0", "n % 2", 0);
    ReplacedMarkerLine(code, "n % 2 != 0", "n % 2 == 0", "n % 2");
    assert code[k..k + 10][6] == '!' && EvenFix(code)[k + 6] == '=';
  }

  /** Rule (b): its record names a line containing `return n`, which exists. */
  lemma FactorialRecordLine(st: (string, seq<Change>))
    requires FactorialFires(st.0)
    ensures FactorialRule(st).1 == st.1 + [Change(MarkerLine(FactorialFix(st.0), "return n"), Modified, FactorialDescription)]
    ensures FactorialRule(st).1[|st.1|].line >= 1
  {
    assert "return n * factorial(n - 1)"[0..8] == "return n";
    ContainsAt("return n * factorial(n - 1)", "return n", 0);
    ReplacedMarkerLine(st.0, "return n + 1", "return n * factorial(n - 1)", "return n");
  }

  /** Rule (a) leaves a `==` in the buffer, so rule (d) cannot fire on the
      buffer right after it. */
  lemma EvenFixDisablesAssignmentFix(code: string)
    requires EvenFires(code)
    ensures Contains(EvenFix(code), "==")
    ensures !AssignmentFires(EvenFix(code))
  {
    assert "n % 2 == 0"[6..8] == "==";
    ContainsAt("n % 2 == 0", "==", 6);
    ReplaceFirstContains(code, "n % 2 != 0", "n % 2 == 0", "==");
  }

  /** Rule (b)'s rewrite touches no `=`, so the `==` rule (a) left survives it;
      unless rule (c) rewrites the buffer, rule (d) then does nothing. */
  lemma EvenBlocksAssignmentRule(code: string)
    requires EvenFires(code)
    requires !RangeFires(FactorialRule(EvenRule((code, []))).0)
    ensures FixChain(code) == RangeRule(FactorialRule(EvenRule((code, []))))
  {
    EvenFixDisablesAssignmentFix(code);
    var s1 := EvenRule((code, []));
    FactorialKeepsEquals(s1);
  }

  /** Rule (b) keeps a `==` that is in the buffer. */
  lemma FactorialKeepsEquals(st: (string, seq<Change>))
    requires Contains(st.0, "==")
    ensures Contains(FactorialRule(st).0, "==")
  {
    if FactorialFires(st.0) {
      ReplaceFirstKeeps(st.0, "return n + 1", "return n * factorial(n - 1)", "==");
    }
  }

  /** Rule (c) records a change on its substring test alone: when the buffer
      has no `)` the regular expression cannot match and rewrites nothing,
      yet the record is appended. */
  lemma RangeRecordsWithoutRewrite(st: (string, seq<Change>))
    requires RangeFires(st.0) && ')' !in st.0
    ensures RangeRule(st) == (st.0, st.1 + [Change(MarkerLine(st.0, "range"), Modified, RangeDescription)])
    ensures MarkerLine(st.0, "range") >= 1
  {
    assert RangePattern[13] == Atom(Char(')'), Once);
    ReplaceAllMissingChar(RangePattern, RangeTemplate, st.0, ')');
    assert "range(len("[0..5] == "range";
    ContainsAt("range(len(", "range", 0);
    ContainsTransitive(st.0, "range(len(", "range");
    FindLineOfContained(st.0, "range");
  }

  /** A text that contains `mid`, which contains `sub`, contains `sub`. */
  lemma ContainsTransitive(s: string, mid: string, sub: string)
    requires Contains(s, mid) && Contains(mid, sub)
    ensures Contains(s, sub)
  {
    ContainsIff(s, mid);
    var i :| OccursAt(s, mid, i);
    ContainsInSlice(s, i, i + |mid|, sub);
  }
}
