/** The positional line diff of the diff view (src/components/DiffViewer.tsx):
    both texts are split on newlines, the shorter side is padded with empty
    lines, and each index is classified on its own. */
module DiffViewer {
  import opened Text

  datatype DiffKind = Unchanged | Added | Removed | Modified

  /** `{ lineNumber, original, modified, type }`. */
  datatype DiffLine = DiffLine(lineNumber: int, original: string, modified: string, kind: DiffKind)

  /** `lines[i] || ''`: the line, or the empty text past the end. */
  function LineAt(lines: seq<string>, i: nat): (line: string)
    ensures i < |lines| ==> line == lines[i]
    ensures i >= |lines| ==> line == ""
  {
    if i < |lines| then lines[i] else ""
  }

  function Max(a: nat, b: nat): nat {
    if a < b then b else a
  }

  /** The type of one entry; the four cases are told apart by equality and
      emptiness of the two lines alone. */
  function Classify(original: string, modified: string): (k: DiffKind)
    ensures k == Unchanged <==> original == modified
    ensures k == Removed <==> original != "" && modified == ""
    ensures k == Added <==> original == "" && modified != ""
    ensures k == Modified <==> original != "" && modified != "" && original != modified
  {
    if original == modified then Unchanged
    else if original != "" && modified == "" then Removed
    else if original == "" && modified != "" then Added
    else Modified
  }

  /** Entry `i` of the diff of two line lists. */
  function Entry(olds: seq<string>, news: seq<string>, i: nat): DiffLine {
    DiffLine(i + 1, LineAt(olds, i), LineAt(news, i), Classify(LineAt(olds, i), LineAt(news, i)))
  }

  /** The diff of two texts: one entry per line of the longer text, at
      least one; entry `i` is numbered `i + 1` and carries the `i`-th line of
      each side, or the empty text for a side that is shorter, classified as
      `Classify` says. */
  function Diff(originalCode: string, modifiedCode: string): (d: seq<DiffLine>)
    ensures |d| == Max(|SplitLines(originalCode)|, |SplitLines(modifiedCode)|) && |d| >= 1
    ensures forall i :: 0 <= i < |d| ==>
      && d[i].lineNumber == i + 1
      && d[i].original == LineAt(SplitLines(originalCode), i)
      && d[i].modified == LineAt(SplitLines(modifiedCode), i)
      && d[i].kind == Classify(d[i].original, d[i].modified)
  {
    var olds, news := SplitLines(originalCode), SplitLines(modifiedCode);
    seq(Max(|olds|, |news|), i requires 0 <= i => Entry(olds, news, i))
  }

  /** The `useMemo` computation: a loop over the indices that pushes one
      record each. */
  method ComputeDiff(originalCode: string, modifiedCode: string) returns (result: seq<DiffLine>)
    ensures result == Diff(originalCode, modifiedCode)
  {
    var originalLines := SplitLines(originalCode);
    var modifiedLines := SplitLines(modifiedCode);
    var maxLines := Max(|originalLines|, |modifiedLines|);
    result := [];
    var i := 0;
    while i < maxLines
      invariant 0 <= i <= maxLines
      invariant |result| == i
      invariant forall j :: 0 <= j < i ==> result[j] == Entry(originalLines, modifiedLines, j)
    {
      var originalLine := LineAt(originalLines, i);
      var modifiedLine := LineAt(modifiedLines, i);
      var kind := Unchanged;
      if originalLine != modifiedLine {
        if originalLine != "" && modifiedLine == "" {
          kind := Removed;
        } else if originalLine == "" && modifiedLine != "" {
          kind := Added;
        } else {
          kind := Modified;
        }
      }
      assert kind == Classify(originalLine, modifiedLine);
      result := result + [DiffLine(i + 1, originalLine, modifiedLine, kind)];
      i := i + 1;
    }
    EntriesAreDiff(originalCode, modifiedCode, result);
  }

  /** A list holding entry `j` at each index `j` below the longer side's
      line count is the diff. */
  lemma EntriesAreDiff(originalCode: string, modifiedCode: string, d: seq<DiffLine>)
    requires |d| == Max(|SplitLines(originalCode)|, |SplitLines(modifiedCode)|)
    requires forall j :: 0 <= j < |d| ==> d[j] == Entry(SplitLines(originalCode), SplitLines(modifiedCode), j)
    ensures d == Diff(originalCode, modifiedCode)
  {
  }

  /** A text compared with itself is all `unchanged`. */
  lemma IdenticalIsUnchanged(code: string)
    ensures forall i :: 0 <= i < |Diff(code, code)| ==> Diff(code, code)[i].kind == Unchanged
  {
  }

  /** The original side of the diff, cut to the original's line count and
      joined with newlines, gives back the original text. */
  lemma {:induction false} OriginalRecovered(originalCode: string, modifiedCode: string)
    ensures var d := Diff(originalCode, modifiedCode);
      var n := |SplitLines(originalCode)|;
      n <= |d| && JoinLines(seq(n, i requires 0 <= i < n => d[i].original)) == originalCode
  {
    var d := Diff(originalCode, modifiedCode);
    var lines := SplitLines(originalCode);
    var n := |lines|;
    assert seq(n, i requires 0 <= i < n => d[i].original) == lines;
    JoinSplitLines(originalCode);
  }

  /** Likewise for the modified side. */
  lemma {:induction false} ModifiedRecovered(originalCode: string, modifiedCode: string)
    ensures var d := Diff(originalCode, modifiedCode);
      var n := |SplitLines(modifiedCode)|;
      n <= |d| && JoinLines(seq(n, i requires 0 <= i < n => d[i].modified)) == modifiedCode
  {
    var d := Diff(originalCode, modifiedCode);
    var lines := SplitLines(modifiedCode);
    var n := |lines|;
    assert seq(n, i requires 0 <= i < n => d[i].modified) == lines;
    JoinSplitLines(modifiedCode);
  }
}
