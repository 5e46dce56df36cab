/** The test-case list of the editor (src/components/TestCaseEditor.tsx).
    Every operation builds a new list and hands it to `onChange`; here each
    returns that list, and `None` for "onChange is not called". */
module TestCaseEditor {
  import opened Wrappers
  import Text

  /** `TestCase`. Its `input` and `expected` are declared `string`, but an
      imported case can carry `undefined` there, so they are optional. */
  datatype TestCase = TestCase(id: string, input: Option<string>, expected: Option<string>, description: Option<string>)

  /** `keyof TestCase`. */
  datatype Field = Id | Input | Expected | Description

  /** `{ ...tc, [field]: value }`. */
  function SetField(tc: TestCase, field: Field, value: string): TestCase {
    match field
    case Id => tc.(id := value)
    case Input => tc.(input := Some(value))
    case Expected => tc.(expected := Some(value))
    case Description => tc.(description := Some(value))
  }

  /** `tc[field]`, with `undefined` as `None`. */
  function GetField(tc: TestCase, field: Field): Option<string> {
    match field
    case Id => Some(tc.id)
    case Input => tc.input
    case Expected => tc.expected
    case Description => tc.description
  }

  /** Writing a field and reading it back gives the value written; the other
      fields are unchanged. */
  lemma SetGetField(tc: TestCase, field: Field, value: string, other: Field)
    ensures GetField(SetField(tc, field, value), field) == Some(value)
    ensures other != field ==> GetField(SetField(tc, field, value), other) == GetField(tc, other)
  {
  }

  /** `addTestCase`: the old list followed by one empty case with the new id
      (`Date.now().toString()` in the source). */
  function AddTestCase(cases: seq<TestCase>, id: string): (r: seq<TestCase>)
    ensures |r| == |cases| + 1 && r[..|cases|] == cases
    ensures r[|cases|] == TestCase(id, Some(""), Some(""), Some(""))
  {
    cases + [TestCase(id, Some(""), Some(""), Some(""))]
  }

  /** `removeTestCase(id)`: `testCases.filter(tc => tc.id !== id)`. */
  function RemoveTestCase(cases: seq<TestCase>, id: string): (r: seq<TestCase>)
    ensures forall j :: 0 <= j < |r| ==> r[j].id != id
    ensures forall tc :: tc in r <==> tc in cases && tc.id != id
    ensures |r| <= |cases|
  {
    if cases == [] then []
    else (if cases[0].id == id then [] else [cases[0]]) + RemoveTestCase(cases[1..], id)
  }

  /** Removal keeps the relative order: removing from a concatenation is
      removing from each part. */
  lemma {:induction false} RemoveSplits(a: seq<TestCase>, b: seq<TestCase>, id: string)
    ensures RemoveTestCase(a + b, id) == RemoveTestCase(a, id) + RemoveTestCase(b, id)
  {
    if a != [] {
      assert (a + b)[1..] == a[1..] + b;
      RemoveSplits(a[1..], b, id);
    } else {
      assert a + b == b;
    }
  }

  /** A list without the id is left exactly as it was. */
  lemma {:induction false} RemoveAbsent(cases: seq<TestCase>, id: string)
    requires forall j :: 0 <= j < |cases| ==> cases[j].id != id
    ensures RemoveTestCase(cases, id) == cases
  {
    if cases != [] {
      RemoveAbsent(cases[1..], id);
    }
  }

  /** Removing a case just added restores the list, when the new id was
      fresh. */
  lemma RemoveUndoesAdd(cases: seq<TestCase>, id: string)
    requires forall j :: 0 <= j < |cases| ==> cases[j].id != id
    ensures RemoveTestCase(AddTestCase(cases, id), id) == cases
  {
    RemoveSplits(cases, [TestCase(id, Some(""), Some(""), Some(""))], id);
    RemoveAbsent(cases, id);
  }

  /** `updateTestCase(id, field, value)`: every case with that id gets the
      field set; the others are unchanged; length and order are kept. */
  function UpdateTestCase(cases: seq<TestCase>, id: string, field: Field, value: string): (r: seq<TestCase>)
    ensures |r| == |cases|
    ensures forall j :: 0 <= j < |cases| && cases[j].id != id ==> r[j] == cases[j]
    ensures forall j :: 0 <= j < |cases| && cases[j].id == id ==>
      GetField(r[j], field) == Some(value)
      && forall f :: f != field ==> GetField(r[j], f) == GetField(cases[j], f)
  {
    seq(|cases|, j requires 0 <= j < |cases| =>
      if cases[j].id == id then SetField(cases[j], field, value) else cases[j])
  }

  /** Updating a field other than the id twice is updating it once. */
  lemma UpdateIdempotent(cases: seq<TestCase>, id: string, field: Field, value: string)
    requires field != Id
    ensures UpdateTestCase(UpdateTestCase(cases, id, field, value), id, field, value)
         == UpdateTestCase(cases, id, field, value)
  {
  }

  /** One element of the array `JSON.parse` returned. `Null` is `null`,
      on which reading `item.input` throws. Any other element is read
      through its `input`, `expected` and `description` properties, each
      `None` (`undefined`) when the element has no such property, as for a
      number, a string or an array. */
  datatype ImportItem<J> = Null | Item(input: Option<J>, expected: Option<J>, description: Option<string>)

  /** What `JSON.parse` returned: an array, or something else. */
  datatype Parsed<J> = ArrayOf(items: seq<ImportItem<J>>) | NotArray

  /** `item.description || \`Test case ${index + 1}\``. */
  function ImportDescription(d: Option<string>, index: nat): string {
    if d.Some? && d.value != "" then d.value else "Test case " + Text.DecimalString(index + 1)
  }

  /** `JSON.stringify(x)`, which is `undefined` for `undefined`. */
  function StringifyField<J>(x: Option<J>, stringify: J -> string): (r: Option<string>)
    ensures r.None? <==> x.None?
  {
    match x
    case None => None
    case Some(v) => Some(stringify(v))
  }

  /** `handleJSONImport`: `parsed` is the outcome of `JSON.parse` (`None` when
      it throws), `stringify` stands for `JSON.stringify`, and `clock(j)` is
      the reading of `Date.now()` taken for the element at index `j`. The
      list is replaced only when the text parses to an array none of whose
      elements is `null`; otherwise the `catch`, or the failed array test,
      leaves it alone. */
  function ImportTestCases<J>(parsed: Option<Parsed<J>>, stringify: J -> string, clock: nat -> int)
    : (r: Option<seq<TestCase>>)
    ensures r.None? <==> || parsed.None? || parsed.value.NotArray?
                         || exists j :: 0 <= j < |parsed.value.items| && parsed.value.items[j].Null?
    ensures r.Some? ==>
      var items := parsed.value.items;
      && |r.value| == |items|
      && forall j :: 0 <= j < |items| ==>
           r.value[j] == TestCase(Text.DecimalString(clock(j) + j), StringifyField(items[j].input, stringify),
                                  StringifyField(items[j].expected, stringify),
                                  Some(ImportDescription(items[j].description, j)))
  {
    match parsed
    case Some(ArrayOf(items)) =>
      if exists j :: 0 <= j < |items| && items[j].Null? then None
      else
        Some(seq(|items|, j requires 0 <= j < |items| =>
          TestCase(Text.DecimalString(clock(j) + j), StringifyField(items[j].input, stringify),
                   StringifyField(items[j].expected, stringify),
                   Some(ImportDescription(items[j].description, j)))))
    case _ => None
  }

  /** With a clock that never goes back, the ids an import generates are
      pairwise different. */
  lemma ImportIdsDistinct<J>(parsed: Option<Parsed<J>>, stringify: J -> string, clock: nat -> int, i: nat, j: nat)
    requires forall a: nat, b: nat :: a <= b ==> clock(a) <= clock(b)
    requires ImportTestCases(parsed, stringify, clock).Some?
    requires i < j < |ImportTestCases(parsed, stringify, clock).value|
    ensures ImportTestCases(parsed, stringify, clock).value[i].id != ImportTestCases(parsed, stringify, clock).value[j].id
  {
    var r := ImportTestCases(parsed, stringify, clock).value;
    assert r[i].id == Text.DecimalString(clock(i) + i);
    assert r[j].id == Text.DecimalString(clock(j) + j);
    assert clock(i) + i < clock(j) + j;
    Text.DecimalRoundTrip(clock(i) + i);
    Text.DecimalRoundTrip(clock(j) + j);
  }
}
