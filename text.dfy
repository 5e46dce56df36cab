/** Optional values, standing in for JavaScript's `undefined` and for
    "did not happen" results. */
module Wrappers {
  datatype Option<+T> = None | Some(value: T) {
    function GetOr(default: T): T {
      match this
      case Some(v) => v
      case None => default
    }
  }
}

/** String operations the TypeScript code takes from `String.prototype`:
    `includes`, `indexOf`, `replace` with a string pattern, `split('\n')`,
    `toLowerCase`, `trim`, reversal through `split('').reverse().join('')`, and
    `Number.prototype.toString()` on integers. */
module Text {
  import opened Wrappers

  /** `pat` occurs in `s` starting at index `i`. */
  predicate OccursAt(s: string, pat: string, i: int) {
    0 <= i && i + |pat| <= |s| && s[i..i + |pat|] == pat
  }

  /** `s.indexOf(pat, from)`: the first index at or after `from` where `pat`
      occurs, or -1. */
  function IndexOf(s: string, pat: string, from: nat): (k: int)
    requires from <= |s|
    ensures k == -1 || (from <= k && OccursAt(s, pat, k))
    ensures k == -1 ==> forall i :: from <= i <= |s| ==> !OccursAt(s, pat, i)
    ensures k != -1 ==> forall i :: from <= i < k ==> !OccursAt(s, pat, i)
    decreases |s| - from
  {
    if OccursAt(s, pat, from) then from
    else if from == |s| then -1
    else IndexOf(s, pat, from + 1)
  }

  /** `s.includes(pat)`. */
  predicate Contains(s: string, pat: string) {
    IndexOf(s, pat, 0) != -1
  }

  lemma ContainsIff(s: string, pat: string)
    ensures Contains(s, pat) <==> exists i :: OccursAt(s, pat, i)
  {
    if !Contains(s, pat) {
      forall i ensures !OccursAt(s, pat, i) {
        if 0 <= i <= |s| { }
      }
    }
  }

  /** A witness position is enough to show `includes`. */
  lemma ContainsAt(s: string, pat: string, i: int)
    requires OccursAt(s, pat, i)
    ensures Contains(s, pat)
  {
    ContainsIff(s, pat);
  }

  /** `pat` occurring in a part of `s` occurs in `s`. */
  lemma ContainsInSlice(s: string, lo: nat, hi: nat, pat: string)
    requires lo <= hi <= |s|
    requires Contains(s[lo..hi], pat)
    ensures Contains(s, pat)
  {
    ContainsIff(s[lo..hi], pat);
    var i :| OccursAt(s[lo..hi], pat, i);
    assert 0 <= i && i + |pat| <= hi - lo;
    var window := s[lo..hi][i..i + |pat|];
    assert forall j :: 0 <= j < |pat| ==> window[j] == s[lo + i + j];
    assert window == s[lo + i..lo + i + |pat|];
    ContainsAt(s, pat, lo + i);
  }

  /** `s.replace(pat, rep)` with a string pattern: only the first occurrence
      is replaced (the replacement strings used contain no `$`). */
  function ReplaceFirst(s: string, pat: string, rep: string): (r: string)
    ensures !Contains(s, pat) ==> r == s
    ensures Contains(s, pat) ==>
      exists k :: && OccursAt(s, pat, k) && (forall i :: 0 <= i < k ==> !OccursAt(s, pat, i))
                  && r == s[..k] + rep + s[k + |pat|..]
  {
    var k := IndexOf(s, pat, 0);
    if k == -1 then s else s[..k] + rep + s[k + |pat|..]
  }

  /** After a replacement that happened, the replacement text is there. */
  lemma ReplaceFirstContains(s: string, pat: string, rep: string, sub: string)
    requires Contains(s, pat)
    requires Contains(rep, sub)
    ensures Contains(ReplaceFirst(s, pat, rep), sub)
  {
    var r := ReplaceFirst(s, pat, rep);
    var k :| OccursAt(s, pat, k) && r == s[..k] + rep + s[k + |pat|..];
    assert r[k..k + |rep|] == rep;
    ContainsInSlice(r, k, k + |rep|, sub);
  }

  /** An occurrence of `sub` that shares no character with `pat` survives
      the replacement of the first `pat`: the two cannot overlap. */
  lemma ReplaceFirstKeeps(s: string, pat: string, rep: string, sub: string)
    requires Contains(s, sub)
    requires forall j :: 0 <= j < |sub| ==> sub[j] !in pat
    ensures Contains(ReplaceFirst(s, pat, rep), sub)
  {
    var r := ReplaceFirst(s, pat, rep);
    if !Contains(s, pat) {
      assert r == s;
    } else if |sub| == 0 {
      assert OccursAt(r, sub, 0);
      ContainsAt(r, sub, 0);
    } else {
      var k := IndexOf(s, pat, 0);
      assert r == s[..k] + rep + s[k + |pat|..];
      ContainsIff(s, sub);
      var i :| OccursAt(s, sub, i);
      if |pat| > 0 {
        Disjoint(s, pat, k, sub, i);
      }
      if i + |sub| <= k {
        KeepsBefore(s, pat, rep, sub, k, i);
      } else {
        KeepsAfter(s, pat, rep, sub, k, i);
      }
    }
  }

  /** An occurrence before the replaced one is copied as it was. */
  lemma KeepsBefore(s: string, pat: string, rep: string, sub: string, k: int, i: int)
    requires OccursAt(s, pat, k) && OccursAt(s, sub, i) && i + |sub| <= k
    ensures Contains(s[..k] + rep + s[k + |pat|..], sub)
  {
    var r := s[..k] + rep + s[k + |pat|..];
    assert r[..k] == s[..k];
    assert r[i..i + |sub|] == s[..k][i..i + |sub|];
    assert r[i..i + |sub|] == sub;
    ContainsAt(r, sub, i);
  }

  /** An occurrence after the replaced one is copied, shifted by the change
      in length. */
  lemma KeepsAfter(s: string, pat: string, rep: string, sub: string, k: int, i: int)
    requires OccursAt(s, pat, k) && OccursAt(s, sub, i) && k + |pat| <= i
    ensures Contains(s[..k] + rep + s[k + |pat|..], sub)
  {
    var r := s[..k] + rep + s[k + |pat|..];
    var d := |rep| - |pat|;
    var tail := s[k + |pat|..];
    assert r[k + |rep|..] == tail;
    assert r[i + d..i + d + |sub|] == tail[i - k - |pat|..i - k - |pat| + |sub|];
    assert r[i + d..i + d + |sub|] == sub;
    ContainsAt(r, sub, i + d);
  }

  lemma Disjoint(s: string, pat: string, k: int, sub: string, i: int)
    requires OccursAt(s, pat, k) && OccursAt(s, sub, i) && |pat| > 0 && |sub| > 0
    requires forall j :: 0 <= j < |sub| ==> sub[j] !in pat
    ensures i + |sub| <= k || k + |pat| <= i
  {
    assert forall j :: k <= j < k + |pat| ==> s[j] == s[k..k + |pat|][j - k] && s[j] in pat;
    assert forall j :: i <= j < i + |sub| ==> s[j] == s[i..i + |sub|][j - i] && s[j] !in pat;
    var atPat, atSub := s[k], s[i];
  }

  /** An occurrence at `k` is the first one when a character of `pat` does
      not appear before its position in that occurrence. */
  lemma FirstOccurrence(s: string, pat: string, k: int, j: int)
    requires OccursAt(s, pat, k) && 0 <= j < |pat|
    requires pat[j] !in s[..k + j]
    ensures IndexOf(s, pat, 0) == k
  {
    forall i | 0 <= i < k ensures !OccursAt(s, pat, i) {
      var w := s[..k + j][i + j];
      if i + |pat| <= |s| {
        assert s[i..i + |pat|][j] == s[i + j] == w;
      }
    }
  }

  /** `s.split('\n')`: the pieces between newlines, at least one. */
  function SplitLines(s: string): (lines: seq<string>)
    ensures |lines| >= 1
    ensures forall j :: 0 <= j < |lines| ==> '\n' !in lines[j]
    decreases |s|
  {
    var k := IndexOf(s, "\n", 0);
    if k == -1 then
      assert forall i :: 0 <= i < |s| ==> !OccursAt(s, "\n", i) && s[i..i + 1] == [s[i]];
      [s]
    else
      assert s[k..k + 1] == "\n";
      assert forall i :: 0 <= i < k ==> !OccursAt(s, "\n", i) && s[i..i + 1] == [s[i]];
      [s[..k]] + SplitLines(s[k + 1..])
  }

  /** Joining with newlines, the inverse of `SplitLines`. */
  function JoinLines(lines: seq<string>): string
    requires |lines| >= 1
  {
    if |lines| == 1 then lines[0] else lines[0] + "\n" + JoinLines(lines[1..])
  }

  lemma {:induction false} JoinSplitLines(s: string)
    ensures JoinLines(SplitLines(s)) == s
    decreases |s|
  {
    var k := IndexOf(s, "\n", 0);
    if k != -1 {
      SplitAtNewline(s, k);
      JoinSplitLines(s[k + 1..]);
    }
  }

  /** The text around its first newline, and the lines it splits into. */
  lemma SplitAtNewline(s: string, k: int)
    requires k == IndexOf(s, "\n", 0) && k != -1
    ensures SplitLines(s) == [s[..k]] + SplitLines(s[k + 1..])
    ensures s == s[..k] + "\n" + s[k + 1..]
  {
    assert s[k..k + 1] == "\n";
    assert s[k] == '\n';
    assert s == s[..k] + [s[k]] + s[k + 1..];
  }

  /** `lines.findIndex(line => line.includes(pat))`: -1 when no line has it. */
  function FindLine(lines: seq<string>, pat: string): (k: int)
    ensures -1 <= k < |lines|
    ensures k == -1 <==> forall j :: 0 <= j < |lines| ==> !Contains(lines[j], pat)
    ensures k != -1 ==> Contains(lines[k], pat) && forall j :: 0 <= j < k ==> !Contains(lines[j], pat)
  {
    if |lines| == 0 then -1
    else if Contains(lines[0], pat) then 0
    else
      var k := FindLine(lines[1..], pat);
      if k == -1 then -1 else k + 1
  }

  /** A pattern without a newline that occurs in a text occurs in one of its
      lines, so the 1-based line number a fix rule reports is at least 1. */
  lemma {:induction false} FindLineOfContained(s: string, pat: string)
    requires Contains(s, pat)
    requires '\n' !in pat
    ensures FindLine(SplitLines(s), pat) >= 0
    decreases |s|
  {
    var k := IndexOf(s, "\n", 0);
    ContainsIff(s, pat);
    var i :| OccursAt(s, pat, i);
    if k == -1 {
      assert SplitLines(s)[0] == s;
    } else {
      assert s[k..k + 1] == "\n";
      NewlineOutside(s, pat, i, k);
      if i + |pat| <= k {
        PatternOnFirstLine(s, pat, i, k);
      } else {
        var rest := s[k + 1..];
        assert rest[i - k - 1..i - k - 1 + |pat|] == s[i..i + |pat|];
        ContainsAt(rest, pat, i - k - 1);
        FindLineOfContained(rest, pat);
        PatternOnLaterLine(s, pat, k);
      }
    }
  }

  /** An occurrence before the first newline is on the first line. */
  lemma PatternOnFirstLine(s: string, pat: string, i: int, k: int)
    requires k == IndexOf(s, "\n", 0) && k != -1
    requires OccursAt(s, pat, i) && i + |pat| <= k
    ensures FindLine(SplitLines(s), pat) == 0
  {
    assert s[k..k + 1] == "\n";
    assert SplitLines(s)[0] == s[..k];
    assert s[..k][i..i + |pat|] == s[i..i + |pat|];
    ContainsAt(s[..k], pat, i);
  }

  /** A line of the text after the first newline that holds the pattern
      makes a line of the whole text hold it. */
  lemma PatternOnLaterLine(s: string, pat: string, k: int)
    requires k == IndexOf(s, "\n", 0) && k != -1
    requires FindLine(SplitLines(s[k + 1..]), pat) >= 0
    ensures FindLine(SplitLines(s), pat) >= 0
  {
    assert s[k..k + 1] == "\n";
    assert SplitLines(s)[1..] == SplitLines(s[k + 1..]);
  }

  /** A newline of the text lies before or after an occurrence of a
      pattern without newlines. */
  lemma NewlineOutside(s: string, pat: string, i: int, k: int)
    requires OccursAt(s, pat, i) && '\n' !in pat
    requires 0 <= k < |s| && s[k] == '\n'
    ensures k < i || i + |pat| <= k
  {
  }

  /** ASCII case folding. JavaScript's `toLowerCase` maps two other
      characters to ASCII letters: the Kelvin sign to `k`, and U+0130 to `i`
      followed by U+0307. The words the fix rules look for (`even`,
      `factorial`) have no `k`, and an `i` that comes from U+0130 is always
      followed by U+0307 rather than the `a` that follows the `i` of
      `factorial`, so `includes` tests of those words agree with the full
      Unicode mapping. */
  function LowerChar(c: char): char {
    if 'A' <= c <= 'Z' then (c as int - 'A' as int + 'a' as int) as char else c
  }

  function ToLower(s: string): (r: string)
    ensures |r| == |s| && forall i :: 0 <= i < |s| ==> r[i] == LowerChar(s[i])
  {
    seq(|s|, i requires 0 <= i < |s| => LowerChar(s[i]))
  }

  /** An occurrence of a word that case folding leaves alone survives the
      folding of the text. */
  lemma LowerKeeps(s: string, w: string, i: int)
    requires OccursAt(s, w, i)
    requires forall j :: 0 <= j < |w| ==> LowerChar(w[j]) == w[j]
    ensures OccursAt(ToLower(s), w, i)
  {
    forall j | 0 <= j < |w| ensures ToLower(s)[i..i + |w|][j] == w[j] {
      assert s[i..i + |w|][j] == s[i + j];
    }
  }

  /** `s.split('').reverse().join('')`, reversing characters. JavaScript
      splits into UTF-16 code units, so the two agree on text without
      characters outside the Basic Multilingual Plane; such a character is
      kept whole here where JavaScript splits it into two lone surrogates. */
  function Reverse(s: string): (r: string)
    ensures |r| == |s|
    ensures forall k :: 0 <= k < |s| ==> r[k] == s[|s| - 1 - k]
  {
    if s == [] then []
    else
      var t := Reverse(s[1..]);
      assert forall k :: 0 <= k < |s| - 1 ==> t[k] == s[|s| - 1 - k];
      t + [s[0]]
  }

  /** Reversal undoes itself. */
  lemma ReverseReverse(s: string)
    ensures Reverse(Reverse(s)) == s
  {
    var r := Reverse(s);
    assert forall k :: 0 <= k < |s| ==> Reverse(r)[k] == r[|s| - 1 - k] == s[k];
  }

  // ---- white space: `trim` and the `\s` class of regular expressions

  /** ECMAScript WhiteSpace and LineTerminator characters: what `trim`
      removes and `\s` matches. */
  predicate IsSpace(c: char) {
    c == ' ' || c == '\t' || c == '\n' || c == '\r' || c == '\U{000B}' || c == '\U{000C}'
    || c == '\U{00A0}' || c == '\U{1680}' || ('\U{2000}' <= c <= '\U{200A}')
    || c == '\U{2028}' || c == '\U{2029}' || c == '\U{202F}' || c == '\U{205F}'
    || c == '\U{3000}' || c == '\U{FEFF}'
  }

  /** The number of white-space characters at the front of `s`. */
  function SpaceBefore(s: string): (a: nat)
    ensures a <= |s|
    ensures forall i :: 0 <= i < a ==> IsSpace(s[i])
    ensures a < |s| ==> !IsSpace(s[a])
  {
    if s != [] && IsSpace(s[0]) then
      assert forall i :: 1 <= i < |s| ==> s[i] == s[1..][i - 1];
      1 + SpaceBefore(s[1..])
    else 0
  }

  /** Where the white space at the end of `s` begins, looking no further
      left than `a`. */
  function SpaceAfter(s: string, a: nat): (b: nat)
    requires a <= |s|
    ensures a <= b <= |s|
    ensures forall i :: b <= i < |s| ==> IsSpace(s[i])
    ensures b > a ==> !IsSpace(s[b - 1])
    decreases |s|
  {
    if |s| > a && IsSpace(s[|s| - 1]) then
      assert forall i :: 0 <= i < |s| - 1 ==> s[i] == s[..|s| - 1][i];
      SpaceAfter(s[..|s| - 1], a)
    else |s|
  }

  /** `s[a..b]` is what is left of `s` once white space is taken off its
      first `a` and its last `|s| - b` characters. */
  predicate Strips(s: string, a: int, b: int) {
    && 0 <= a <= b <= |s|
    && (forall i :: 0 <= i < a ==> IsSpace(s[i]))
    && (forall i :: b <= i < |s| ==> IsSpace(s[i]))
  }

  /** `s.trim()`: white space and line terminators off both ends. */
  function Trim(s: string): (t: string)
    ensures |t| <= |s|
    ensures t == "" <==> forall i :: 0 <= i < |s| ==> IsSpace(s[i])
    ensures t != "" ==> !IsSpace(t[0]) && !IsSpace(t[|t| - 1])
    ensures s == "" || (!IsSpace(s[0]) && !IsSpace(s[|s| - 1])) ==> t == s
    ensures exists a, b :: Strips(s, a, b) && t == s[a..b]
  {
    var a := SpaceBefore(s);
    var b := SpaceAfter(s, a);
    assert Strips(s, a, b);
    s[a..b]
  }

  // ---- decimal integers: `n.toString()` and its inverse

  predicate IsDigit(c: char) { '0' <= c <= '9' }

  function DigitChar(d: nat): (c: char)
    requires d < 10
    ensures IsDigit(c)
  {
    ('0' as int + d) as char
  }

  function DigitValue(c: char): nat
    requires IsDigit(c)
  {
    c as int - '0' as int
  }

  /** Every character is a decimal digit. */
  predicate AllDigits(s: string) {
    forall i :: 0 <= i < |s| ==> IsDigit(s[i])
  }

  /** Decimal text of a natural number, no leading zeros. */
  function NatString(n: nat): (r: string)
    ensures |r| >= 1 && AllDigits(r)
    ensures r[0] == '0' <==> n == 0
    ensures n == 0 ==> r == "0"
  {
    if n < 10 then [DigitChar(n)] else NatString(n / 10) + [DigitChar(n % 10)]
  }

  /** `n.toString()` for an integer `n`. */
  function DecimalString(n: int): (r: string)
    ensures |r| >= 1
    ensures r[0] == '-' <==> n < 0
    ensures n < 0 ==> |r| >= 2 && AllDigits(r[1..])
    ensures n >= 0 ==> AllDigits(r)
    ensures n >= 0 && |r| >= 2 ==> r[0] != '0'
    ensures n < 0 ==> r[1] != '0'
  {
    if n < 0 then "-" + NatString(-n) else NatString(n)
  }

  /** The value of a non-empty run of decimal digits. */
  function ParseNat(s: string): nat
    requires |s| >= 1 && AllDigits(s)
  {
    if |s| == 1 then DigitValue(s[0])
    else ParseNat(s[..|s| - 1]) * 10 + DigitValue(s[|s| - 1])
  }

  /** An optional `-` followed by decimal digits. */
  function ParseDecimal(s: string): Option<int> {
    if |s| >= 2 && s[0] == '-' && AllDigits(s[1..]) then
      Some(-(ParseNat(s[1..]) as int))
    else if |s| >= 1 && AllDigits(s) then
      Some(ParseNat(s))
    else None
  }

  lemma {:induction false} ParseNatString(n: nat)
    ensures ParseNat(NatString(n)) == n
  {
    if n >= 10 {
      var r := NatString(n);
      assert r[..|r| - 1] == NatString(n / 10);
      assert r[|r| - 1] == DigitChar(n % 10);
      ParseNatString(n / 10);
    }
  }

  /** Reading back the decimal text of an integer gives the integer. */
  lemma DecimalRoundTrip(n: int)
    ensures ParseDecimal(DecimalString(n)) == Some(n)
  {
    var t := NatString(if n < 0 then -n else n);
    ParseNatString(if n < 0 then -n else n);
    if n < 0 {
      assert DecimalString(n)[1..] == t;
    } else {
      assert DecimalString(n)[0] == t[0] != '-';
    }
  }

  /** Different integers have different decimal texts. */
  lemma DecimalInjective(m: int, n: int)
    requires DecimalString(m) == DecimalString(n)
    ensures m == n
  {
    DecimalRoundTrip(m);
    DecimalRoundTrip(n);
  }
}
