/** The fragment of JavaScript regular expressions the source uses: a
    concatenation of character classes, each with a quantifier (`x`, `x?`,
    `x*`, `x+`, the lazy `x*?`), capture-group brackets and `\b`. Matching is
    backtracking in JavaScript's priority order (greedy quantifiers try the
    longer match first, lazy ones the shorter), so the match found and the
    groups it captures are those of `RegExp.prototype.exec`. */
module Regex {
  import opened Wrappers
  import opened Text

  /** `\w`. */
  predicate IsWordChar(c: char) {
    ('a' <= c <= 'z') || ('A' <= c <= 'Z') || ('0' <= c <= '9') || c == '_'
  }

  /** The characters `.` does not match. */
  predicate IsLineTerminator(c: char) {
    c == '\n' || c == '\r' || c == '\U{2028}' || c == '\U{2029}'
  }

  datatype CharClass =
    | Char(c: char)                                  // a literal character
    | Space                                          // \s
    | Word                                           // \w
    | NotLineTerminator                              // .
    | OneOf(chars: seq<char>)                        // [...]
    | NoneOf(excluded: seq<char>, orSpace: bool)     // [^...], with \s inside when orSpace

  predicate InClass(k: CharClass, c: char) {
    match k
    case Char(d) => c == d
    case Space => IsSpace(c)
    case Word => IsWordChar(c)
    case NotLineTerminator => !IsLineTerminator(c)
    case OneOf(chars) => c in chars
    case NoneOf(excluded, orSpace) => c !in excluded && !(orSpace && IsSpace(c))
  }

  /** Quantifiers: exactly once, `?`, `*`, `+`, `*?`. */
  datatype Quant = Once | Optional | Greedy | Greedy1 | Lazy

  datatype Item =
    | Atom(cls: CharClass, q: Quant)
    | Open(group: nat)      // `(` of capture group `group`
    | Close(group: nat)     // its `)`
    | Boundary              // \b

  type Pattern = seq<Item>

  /** Capture groups: group number to the half-open range it captured. */
  type Groups = map<nat, (nat, nat)>

  datatype Match = Match(end: nat, groups: Groups)

  /** The literal text `w` as a pattern. */
  function Lit(w: string): (p: Pattern)
    ensures |p| == |w| && forall i :: 0 <= i < |w| ==> p[i] == Atom(Char(w[i]), Once)
  {
    seq(|w|, i requires 0 <= i < |w| => Atom(Char(w[i]), Once))
  }

  /** Every captured range ends no later than `n`. */
  ghost predicate GroupsWithin(g: Groups, n: nat) {
    forall k :: k in g ==> g[k].0 <= g[k].1 <= n
  }

  lemma GroupsWiden(g: Groups, m: nat, n: nat)
    requires GroupsWithin(g, m) && m <= n
    ensures GroupsWithin(g, n)
  {
  }

  /** `\b` at position `i`: a word character on exactly one side. */
  predicate AtBoundary(s: string, i: nat)
    requires i <= |s|
  {
    (i > 0 && IsWordChar(s[i - 1])) != (i < |s| && IsWordChar(s[i]))
  }

  /** The first match of the rest of a pattern, `p`, from position `i`, in
      backtracking order, with the groups captured so far in `g`. */
  function MatchFrom(p: Pattern, s: string, i: nat, g: Groups): (r: Option<Match>)
    requires i <= |s| && GroupsWithin(g, i)
    ensures r.Some? ==> i <= r.value.end <= |s| && GroupsWithin(r.value.groups, r.value.end)
    ensures p == [] ==> r == Some(Match(i, g))
    decreases |s| - i, |p|
  {
    if p == [] then Some(Match(i, g))
    else
      var here := i < |s| && p[0].Atom? && InClass(p[0].cls, s[i]);
      match p[0]
      case Atom(k, Once) =>
        if here then MatchFrom(p[1..], s, i + 1, g) else None
      case Atom(k, Optional) =>
        var longer := if here then MatchFrom(p[1..], s, i + 1, g) else None;
        if longer.Some? then longer else MatchFrom(p[1..], s, i, g)
      case Atom(k, Greedy) =>
        var longer := if here then MatchFrom(p, s, i + 1, g) else None;
        if longer.Some? then longer else MatchFrom(p[1..], s, i, g)
      case Atom(k, Greedy1) =>
        if here then MatchFrom([Atom(k, Greedy)] + p[1..], s, i + 1, g) else None
      case Atom(k, Lazy) =>
        var shorter := MatchFrom(p[1..], s, i, g);
        if shorter.Some? then shorter
        else if here then MatchFrom(p, s, i + 1, g) else None
      case Open(n) =>
        MatchFrom(p[1..], s, i, g[n := (i, i)])
      case Close(n) =>
        MatchFrom(p[1..], s, i, if n in g then g[n := (g[n].0, i)] else g)
      case Boundary =>
        if AtBoundary(s, i) then MatchFrom(p[1..], s, i, g) else None
  }

  /** A literal prefix of the pattern consumes the same text in the subject. */
  lemma {:induction false} LitThen(w: string, rest: Pattern, s: string, i: nat, g: Groups)
    requires i + |w| <= |s| && s[i..i + |w|] == w && GroupsWithin(g, i)
    ensures GroupsWithin(g, i + |w|)
    ensures MatchFrom(Lit(w) + rest, s, i, g) == MatchFrom(rest, s, i + |w|, g)
    decreases |w|
  {
    GroupsWiden(g, i, i + |w|);
    if w != [] {
      assert (Lit(w) + rest)[0] == Atom(Char(w[0]), Once);
      assert (Lit(w) + rest)[1..] == Lit(w[1..]) + rest;
      assert s[i] == s[i..i + |w|][0] == w[0];
      assert s[i + 1..i + 1 + |w[1..]|] == w[1..];
      GroupsWiden(g, i, i + 1);
      LitThen(w[1..], rest, s, i + 1, g);
    } else {
      assert Lit(w) + rest == rest;
    }
  }

  /** A greedy repetition that meets a character outside its class, or the
      end, takes nothing more. */
  lemma GreedyStops(k: CharClass, rest: Pattern, s: string, i: nat, g: Groups)
    requires i <= |s| && GroupsWithin(g, i)
    requires i == |s| || !InClass(k, s[i])
    ensures MatchFrom([Atom(k, Greedy)] + rest, s, i, g) == MatchFrom(rest, s, i, g)
  {
    assert ([Atom(k, Greedy)] + rest)[1..] == rest;
  }

  /** A greedy repetition over a maximal run `s[i..j]` of its class takes
      the whole run when the rest of the pattern matches after it. */
  lemma {:induction false} GreedyRun(k: CharClass, rest: Pattern, s: string, i: nat, j: nat, g: Groups)
    requires i <= j <= |s| && GroupsWithin(g, i)
    requires forall m :: i <= m < j ==> InClass(k, s[m])
    requires j == |s| || !InClass(k, s[j])
    requires GroupsWithin(g, j) && MatchFrom(rest, s, j, g).Some?
    ensures MatchFrom([Atom(k, Greedy)] + rest, s, i, g) == MatchFrom(rest, s, j, g)
    decreases j - i
  {
    if i == j {
      GreedyStops(k, rest, s, i, g);
    } else {
      GroupsWiden(g, i, i + 1);
      GreedyRun(k, rest, s, i + 1, j, g);
    }
  }

  /** Likewise for `+` over a non-empty maximal run. */
  lemma Greedy1Run(k: CharClass, rest: Pattern, s: string, i: nat, j: nat, g: Groups)
    requires i < j <= |s| && GroupsWithin(g, i)
    requires forall m :: i <= m < j ==> InClass(k, s[m])
    requires j == |s| || !InClass(k, s[j])
    requires GroupsWithin(g, j) && MatchFrom(rest, s, j, g).Some?
    ensures MatchFrom([Atom(k, Greedy1)] + rest, s, i, g) == MatchFrom(rest, s, j, g)
  {
    assert ([Atom(k, Greedy1)] + rest)[1..] == rest;
    GroupsWiden(g, i, i + 1);
    GreedyRun(k, rest, s, i + 1, j, g);
  }

  /** The match of the whole pattern starting exactly at `i`. */
  function MatchAt(p: Pattern, s: string, i: nat): (r: Option<Match>)
    requires i <= |s|
    ensures r.Some? ==> i <= r.value.end <= |s| && GroupsWithin(r.value.groups, r.value.end)
  {
    MatchFrom(p, s, i, map[])
  }

  /** The leftmost match starting at or after `from`: its start and the match. */
  function Search(p: Pattern, s: string, from: nat): (r: Option<(nat, Match)>)
    requires from <= |s|
    ensures r.None? ==> forall i :: from <= i <= |s| ==> MatchAt(p, s, i).None?
    ensures r.Some? ==> && from <= r.value.0 <= |s|
                        && MatchAt(p, s, r.value.0) == Some(r.value.1)
                        && forall i :: from <= i < r.value.0 ==> MatchAt(p, s, i).None?
    decreases |s| - from
  {
    var m := MatchAt(p, s, from);
    if m.Some? then Some((from, m.value))
    else if from == |s| then None
    else Search(p, s, from + 1)
  }

  /** `regex.test(s)` for a regex without the `g` flag. */
  predicate Test(p: Pattern, s: string) {
    Search(p, s, 0).Some?
  }

  /** A match found anywhere makes `test` succeed. */
  lemma TestAt(p: Pattern, s: string, i: nat)
    requires i <= |s| && MatchAt(p, s, i).Some?
    ensures Test(p, s)
  {
  }

  /** `test` fails exactly when there is no match at any position. */
  lemma TestIff(p: Pattern, s: string)
    ensures Test(p, s) <==> exists i :: 0 <= i <= |s| && MatchAt(p, s, i).Some?
  {
  }

  /** Alternation `a|b|c` at position `i`: the first alternative, in
      order, that matches there. */
  function MatchAlt(alts: seq<Pattern>, s: string, i: nat): (r: Option<Match>)
    requires i <= |s|
    ensures r.Some? ==> i <= r.value.end <= |s| && GroupsWithin(r.value.groups, r.value.end)
    ensures r.None? <==> forall k :: 0 <= k < |alts| ==> MatchAt(alts[k], s, i).None?
    ensures r.Some? ==> exists k :: 0 <= k < |alts| && MatchAt(alts[k], s, i) == r
  {
    if alts == [] then None
    else
      var m := MatchAt(alts[0], s, i);
      if m.Some? then m else MatchAlt(alts[1..], s, i)
  }

  /** The first alternative that matches at `i` is the one alternation takes. */
  lemma {:induction false} MatchAltFirst(alts: seq<Pattern>, s: string, i: nat, k: nat)
    requires i <= |s| && k < |alts| && MatchAt(alts[k], s, i).Some?
    requires forall j :: 0 <= j < k ==> MatchAt(alts[j], s, i).None?
    ensures MatchAlt(alts, s, i) == MatchAt(alts[k], s, i)
    decreases k
  {
    if k > 0 {
      assert forall j :: 0 <= j < k - 1 ==> alts[1..][j] == alts[j + 1];
      MatchAltFirst(alts[1..], s, i, k - 1);
    }
  }

  /** `s.match(/a|b|c/)`: the leftmost position where an alternative matches. */
  function SearchAlt(alts: seq<Pattern>, s: string, from: nat): (r: Option<Match>)
    requires from <= |s|
    ensures r.Some? ==> GroupsWithin(r.value.groups, |s|)
    ensures r.None? ==> forall i :: from <= i <= |s| ==> MatchAlt(alts, s, i).None?
    ensures r.Some? ==> exists i :: LeftmostAlt(alts, s, from, i, r)
    decreases |s| - from
  {
    var m := MatchAlt(alts, s, from);
    if m.Some? then
      GroupsWiden(m.value.groups, m.value.end, |s|);
      assert LeftmostAlt(alts, s, from, from, m);
      m
    else if from == |s| then None
    else
      var r := SearchAlt(alts, s, from + 1);
      if r.Some? then
        var i :| LeftmostAlt(alts, s, from + 1, i, r);
        LeftmostAltBack(alts, s, from, i, r);
        r
      else r
  }

  /** `i` is the first position at or after `from` where an alternative
      matches, and `r` is that match. */
  predicate LeftmostAlt(alts: seq<Pattern>, s: string, from: nat, i: nat, r: Option<Match>) {
    && from <= i <= |s| && MatchAlt(alts, s, i) == r
    && forall j :: from <= j < i ==> MatchAlt(alts, s, j).None?
  }

  lemma LeftmostAltBack(alts: seq<Pattern>, s: string, from: nat, i: nat, r: Option<Match>)
    requires from < |s| && MatchAlt(alts, s, from).None?
    requires LeftmostAlt(alts, s, from + 1, i, r)
    ensures LeftmostAlt(alts, s, from, i, r)
  {
  }

  /** The search returns the match at the first position where an
      alternative matches. */
  lemma SearchAltAt(alts: seq<Pattern>, s: string, from: nat, i: nat)
    requires from <= i <= |s| && MatchAlt(alts, s, i).Some?
    requires forall j :: from <= j < i ==> MatchAlt(alts, s, j).None?
    ensures SearchAlt(alts, s, from) == MatchAlt(alts, s, i)
  {
    var m := MatchAlt(alts, s, i);
    assert LeftmostAlt(alts, s, from, i, m);
    var r := SearchAlt(alts, s, from);
    SearchAltSome(alts, s, from, i);
    var i': nat :| LeftmostAlt(alts, s, from, i', r);
    LeftmostUnique(alts, s, from, i, m, i', r);
  }

  /** The search returns the first alternative matching at the first
      position where one matches. */
  lemma SearchAltFirst(alts: seq<Pattern>, s: string, i: nat, k: nat)
    requires i <= |s| && k < |alts| && MatchAt(alts[k], s, i).Some?
    requires forall j :: 0 <= j < k ==> MatchAt(alts[j], s, i).None?
    requires forall j :: 0 <= j < i ==> MatchAlt(alts, s, j).None?
    ensures SearchAlt(alts, s, 0) == MatchAt(alts[k], s, i)
  {
    MatchAltFirst(alts, s, i, k);
    SearchAltAt(alts, s, 0, i);
  }

  /** A match at some position makes the search succeed. */
  lemma SearchAltSome(alts: seq<Pattern>, s: string, from: nat, i: nat)
    requires from <= i <= |s| && MatchAlt(alts, s, i).Some?
    ensures SearchAlt(alts, s, from).Some?
  {
  }

  /** Two leftmost matches of an alternation are the same match. */
  lemma LeftmostUnique(alts: seq<Pattern>, s: string, from: nat, i: nat, r: Option<Match>, i': nat, r': Option<Match>)
    requires LeftmostAlt(alts, s, from, i, r) && r.Some?
    requires LeftmostAlt(alts, s, from, i', r') && r'.Some?
    ensures r == r'
  {
    assert MatchAlt(alts, s, i).Some? && MatchAlt(alts, s, i').Some?;
  }

  /** A match the search of an alternation returns is the match of one
      alternative at some position. */
  lemma SearchAltWitness(alts: seq<Pattern>, s: string, from: nat, m: Match)
    requires from <= |s| && SearchAlt(alts, s, from) == Some(m)
    ensures exists i, k :: from <= i <= |s| && 0 <= k < |alts| && MatchAt(alts[k], s, i) == Some(m)
  {
    var i :| LeftmostAlt(alts, s, from, i, Some(m));
    var k :| 0 <= k < |alts| && MatchAt(alts[k], s, i) == Some(m);
  }

  /** The text group `n` captured, or the empty string (`undefined` is
      falsy like `''` in the source's uses). */
  function Captured(s: string, g: Groups, n: nat): string
    requires GroupsWithin(g, |s|)
  {
    if n in g then s[g[n].0..g[n].1] else ""
  }

  /** Once group `n` is open and the rest of the pattern does not reopen
      it, a match keeps the group's start; a `)` still to come ends it at or
      after the current position, and without one the group is as it was. */
  lemma {:induction false} GroupKept(p: Pattern, s: string, i: nat, g: Groups, n: nat)
    requires i <= |s| && GroupsWithin(g, i)
    requires n in g && Open(n) !in p
    requires MatchFrom(p, s, i, g).Some?
    ensures var h := MatchFrom(p, s, i, g).value.groups;
      && n in h && h[n].0 == g[n].0
      && (Close(n) in p ==> h[n].1 >= i)
      && (Close(n) !in p ==> h[n] == g[n])
    decreases |s| - i, |p|, 1
  {
    if p != [] {
      assert Open(n) !in p[1..] && (Close(n) in p <==> p[0] == Close(n) || Close(n) in p[1..]);
      match p[0]
      case Atom(_, _) =>
        GroupKeptAtom(p, s, i, g, n);
      case Open(m) =>
        GroupKept(p[1..], s, i, g[m := (i, i)], n);
      case Close(m) =>
        GroupKept(p[1..], s, i, if m in g then g[m := (g[m].0, i)] else g, n);
      case Boundary =>
        GroupKept(p[1..], s, i, g, n);
    }
  }

  /** The case of `GroupKept` where the pattern starts with an atom. */
  lemma {:induction false} GroupKeptAtom(p: Pattern, s: string, i: nat, g: Groups, n: nat)
    requires i <= |s| && GroupsWithin(g, i)
    requires n in g && Open(n) !in p
    requires p != [] && p[0].Atom? && MatchFrom(p, s, i, g).Some?
    ensures var h := MatchFrom(p, s, i, g).value.groups;
      && n in h && h[n].0 == g[n].0
      && (Close(n) in p ==> h[n].1 >= i)
      && (Close(n) !in p ==> h[n] == g[n])
    decreases |s| - i, |p|, 0
  {
    var here := i < |s| && InClass(p[0].cls, s[i]);
    if here {
      GroupsWiden(g, i, i + 1);
    }
    assert Open(n) !in p[1..] && (Close(n) in p <==> Close(n) in p[1..]);
    match p[0].q
    case Once =>
      if here { GroupKept(p[1..], s, i + 1, g, n); }
    case Optional =>
      if here && MatchFrom(p[1..], s, i + 1, g).Some? {
        GroupKept(p[1..], s, i + 1, g, n);
      } else {
        GroupKept(p[1..], s, i, g, n);
      }
    case Greedy =>
      if here && MatchFrom(p, s, i + 1, g).Some? {
        GroupKept(p, s, i + 1, g, n);
      } else {
        GroupKept(p[1..], s, i, g, n);
      }
    case Greedy1 =>
      if here {
        var q := [Atom(p[0].cls, Greedy)] + p[1..];
        assert q[1..] == p[1..];
        assert Open(n) !in q && (Close(n) in q <==> Close(n) in p);
        GroupKept(q, s, i + 1, g, n);
      }
    case Lazy =>
      if MatchFrom(p[1..], s, i, g).Some? {
        GroupKept(p[1..], s, i, g, n);
      } else if here {
        GroupKept(p, s, i + 1, g, n);
      }
  }

  /** A capture group around a `+` repetition, which the parts before and
      after it neither open nor close again, captures at least one
      character in every match. */
  lemma {:induction false} PlusGroupNonEmpty(pre: Pattern, k: CharClass, post: Pattern, s: string, i: nat,
                                             g: Groups, n: nat)
    requires i <= |s| && GroupsWithin(g, i)
    requires Open(n) !in pre && Close(n) !in pre && Open(n) !in post
    requires MatchFrom(pre + [Open(n), Atom(k, Greedy1), Close(n)] + post, s, i, g).Some?
    ensures var h := MatchFrom(pre + [Open(n), Atom(k, Greedy1), Close(n)] + post, s, i, g).value.groups;
      n in h && h[n].0 < h[n].1
    decreases |s| - i, |pre|, 1
  {
    var mid := [Open(n), Atom(k, Greedy1), Close(n)];
    var p := pre + mid + post;
    if pre == [] {
      var rest := [Close(n)] + post;
      assert rest[1..] == post;
      assert p == [Open(n)] + ([Atom(k, Greedy1)] + rest);
      PlusGroupAtOpen(p, k, rest, s, i, g, n);
    } else {
      assert p[0] == pre[0] && p[1..] == pre[1..] + mid + post;
      match pre[0]
      case Atom(_, _) =>
        PlusGroupAfterAtom(pre, k, post, s, i, g, n);
      case Open(m) =>
        PlusGroupNonEmpty(pre[1..], k, post, s, i, g[m := (i, i)], n);
      case Close(m) =>
        PlusGroupNonEmpty(pre[1..], k, post, s, i, if m in g then g[m := (g[m].0, i)] else g, n);
      case Boundary =>
        PlusGroupNonEmpty(pre[1..], k, post, s, i, g, n);
    }
  }

  /** The group opens at `i`, and its `+` atom consumes a character before
      it can close. */
  lemma PlusGroupAtOpen(p: Pattern, k: CharClass, rest: Pattern, s: string, i: nat, g: Groups, n: nat)
    requires i <= |s| && GroupsWithin(g, i)
    requires rest != [] && rest[0] == Close(n) && Open(n) !in rest
    requires p == [Open(n)] + ([Atom(k, Greedy1)] + rest)
    requires MatchFrom(p, s, i, g).Some?
    ensures n in MatchFrom(p, s, i, g).value.groups
    ensures MatchFrom(p, s, i, g).value.groups[n].0 < MatchFrom(p, s, i, g).value.groups[n].1
  {
    var g1 := g[n := (i, i)];
    OpenStep(n, [Atom(k, Greedy1)] + rest, s, i, g);
    Greedy1Step(k, rest, s, i, g1);
    var q := [Atom(k, Greedy)] + rest;
    assert q[1..] == rest && q[0] != Open(n);
    assert Close(n) in q;
    GroupKept(q, s, i + 1, g1, n);
  }

  /** `(` records the group's start and goes on with the rest. */
  lemma OpenStep(n: nat, rest: Pattern, s: string, i: nat, g: Groups)
    requires i <= |s| && GroupsWithin(g, i)
    ensures GroupsWithin(g[n := (i, i)], i)
    ensures MatchFrom([Open(n)] + rest, s, i, g) == MatchFrom(rest, s, i, g[n := (i, i)])
  {
    assert ([Open(n)] + rest)[1..] == rest;
  }

  /** A `+` atom that matches consumes one character and goes on as a `*`
      atom. */
  lemma Greedy1Step(k: CharClass, rest: Pattern, s: string, i: nat, g: Groups)
    requires i <= |s| && GroupsWithin(g, i)
    requires MatchFrom([Atom(k, Greedy1)] + rest, s, i, g).Some?
    ensures i < |s| && InClass(k, s[i]) && GroupsWithin(g, i + 1)
    ensures MatchFrom([Atom(k, Greedy1)] + rest, s, i, g) == MatchFrom([Atom(k, Greedy)] + rest, s, i + 1, g)
  {
    assert ([Atom(k, Greedy1)] + rest)[1..] == rest;
    if i < |s| {
      GroupsWiden(g, i, i + 1);
    }
  }

  /** The case of `PlusGroupNonEmpty` where the prefix starts with an atom. */
  lemma {:induction false} PlusGroupAfterAtom(pre: Pattern, k: CharClass, post: Pattern, s: string, i: nat,
                                              g: Groups, n: nat)
    requires i <= |s| && GroupsWithin(g, i)
    requires Open(n) !in pre && Close(n) !in pre && Open(n) !in post
    requires pre != [] && pre[0].Atom?
    requires MatchFrom(pre + [Open(n), Atom(k, Greedy1), Close(n)] + post, s, i, g).Some?
    ensures var h := MatchFrom(pre + [Open(n), Atom(k, Greedy1), Close(n)] + post, s, i, g).value.groups;
      n in h && h[n].0 < h[n].1
    decreases |s| - i, |pre|, 0
  {
    var mid := [Open(n), Atom(k, Greedy1), Close(n)];
    var p := pre + mid + post;
    assert p[0] == pre[0] && p[1..] == pre[1..] + mid + post;
    var here := i < |s| && InClass(pre[0].cls, s[i]);
    if here {
      GroupsWiden(g, i, i + 1);
    }
    match pre[0].q
    case Once =>
      if here { PlusGroupNonEmpty(pre[1..], k, post, s, i + 1, g, n); }
    case Optional =>
      if here && MatchFrom(p[1..], s, i + 1, g).Some? {
        PlusGroupNonEmpty(pre[1..], k, post, s, i + 1, g, n);
      } else {
        PlusGroupNonEmpty(pre[1..], k, post, s, i, g, n);
      }
    case Greedy =>
      if here && MatchFrom(p, s, i + 1, g).Some? {
        PlusGroupNonEmpty(pre, k, post, s, i + 1, g, n);
      } else {
        PlusGroupNonEmpty(pre[1..], k, post, s, i, g, n);
      }
    case Greedy1 =>
      if here {
        var pre' := [Atom(pre[0].cls, Greedy)] + pre[1..];
        assert [Atom(pre[0].cls, Greedy)] + p[1..] == pre' + mid + post;
        PlusGroupNonEmpty(pre', k, post, s, i + 1, g, n);
      }
    case Lazy =>
      if MatchFrom(p[1..], s, i, g).Some? {
        PlusGroupNonEmpty(pre[1..], k, post, s, i, g, n);
      } else if here {
        PlusGroupNonEmpty(pre, k, post, s, i + 1, g, n);
      }
  }

  /** A replacement string: literal text and `$n` references. */
  datatype Part = Verbatim(text: string) | Ref(group: nat)
  type Template = seq<Part>

  /** The replacement for one match: `$n` becomes the text group `n`
      captured, or the empty string when it captured nothing. */
  function Expand(t: Template, s: string, g: Groups): string
    requires GroupsWithin(g, |s|)
  {
    if t == [] then ""
    else
      var head := match t[0]
        case Verbatim(w) => w
        case Ref(n) => Captured(s, g, n);
      head + Expand(t[1..], s, g)
  }

  /** `s.replace(/p/g, t)` from position `i` on: each leftmost match is
      replaced and the scan resumes after it (one character later after an
      empty match); text between matches is copied. */
  function ReplaceFrom(p: Pattern, t: Template, s: string, i: nat): string
    requires i <= |s|
    decreases |s| - i
  {
    match MatchAt(p, s, i)
    case Some(m) =>
      if m.end > i then Expand(t, s, m.groups) + ReplaceFrom(p, t, s, m.end)
      else if i < |s| then Expand(t, s, m.groups) + [s[i]] + ReplaceFrom(p, t, s, i + 1)
      else Expand(t, s, m.groups)
    case None =>
      if i < |s| then [s[i]] + ReplaceFrom(p, t, s, i + 1) else ""
  }

  lemma {:induction false} ReplaceFromNoMatch(p: Pattern, t: Template, s: string, i: nat)
    requires i <= |s|
    requires forall j :: i <= j <= |s| ==> MatchAt(p, s, j).None?
    ensures ReplaceFrom(p, t, s, i) == s[i..]
    decreases |s| - i
  {
    if i < |s| {
      ReplaceFromNoMatch(p, t, s, i + 1);
      assert s[i..] == [s[i]] + s[i + 1..];
    }
  }

  /** `s.replace(/p/g, t)`; a pattern that matches nowhere changes nothing. */
  function ReplaceAll(p: Pattern, t: Template, s: string): (r: string)
    ensures !Test(p, s) ==> r == s
  {
    if !Test(p, s) then
      ReplaceFromNoMatch(p, t, s, 0);
      assert s[0..] == s;
      ReplaceFrom(p, t, s, 0)
    else ReplaceFrom(p, t, s, 0)
  }

  /** A pattern with a mandatory literal `c` cannot match where no `c`
      follows. */
  lemma {:induction false} MissingCharNoMatch(p: Pattern, s: string, i: nat, g: Groups, c: char)
    requires i <= |s| && GroupsWithin(g, i)
    requires Atom(Char(c), Once) in p
    requires forall j :: i <= j < |s| ==> s[j] != c
    ensures MatchFrom(p, s, i, g).None?
    decreases |s| - i, |p|
  {
    if p[0] != Atom(Char(c), Once) {
      assert Atom(Char(c), Once) in p[1..];
      var here := i < |s| && p[0].Atom? && InClass(p[0].cls, s[i]);
      if here {
        GroupsWiden(g, i, i + 1);
      }
      match p[0]
      case Atom(k, Once) =>
        if here { MissingCharNoMatch(p[1..], s, i + 1, g, c); }
      case Atom(k, Optional) =>
        if here { MissingCharNoMatch(p[1..], s, i + 1, g, c); }
        MissingCharNoMatch(p[1..], s, i, g, c);
      case Atom(k, Greedy) =>
        if here { MissingCharNoMatch(p, s, i + 1, g, c); }
        MissingCharNoMatch(p[1..], s, i, g, c);
      case Atom(k, Greedy1) =>
        if here {
          assert Atom(Char(c), Once) in [Atom(k, Greedy)] + p[1..];
          MissingCharNoMatch([Atom(k, Greedy)] + p[1..], s, i + 1, g, c);
        }
      case Atom(k, Lazy) =>
        MissingCharNoMatch(p[1..], s, i, g, c);
        if here { MissingCharNoMatch(p, s, i + 1, g, c); }
      case Open(n) =>
        MissingCharNoMatch(p[1..], s, i, g[n := (i, i)], c);
      case Close(n) =>
        MissingCharNoMatch(p[1..], s, i, if n in g then g[n := (g[n].0, i)] else g, c);
      case Boundary =>
        MissingCharNoMatch(p[1..], s, i, g, c);
    }
  }

  /** A global replace of a pattern with a mandatory literal the text lacks
      changes nothing. */
  lemma ReplaceAllMissingChar(p: Pattern, t: Template, s: string, c: char)
    requires Atom(Char(c), Once) in p
    requires c !in s
    ensures ReplaceAll(p, t, s) == s
  {
    forall j | 0 <= j <= |s| ensures MatchAt(p, s, j).None? {
      MissingCharNoMatch(p, s, j, map[], c);
    }
    ReplaceFromNoMatch(p, t, s, 0);
    assert s[0..] == s;
  }

  /** `s` with every `c` taken out. */
  function Without(s: string, c: char): (r: string)
    ensures forall x :: x in r <==> x in s && x != c
    ensures |r| <= |s|
  {
    if s == [] then []
    else (if s[0] == c then [] else [s[0]]) + Without(s[1..], c)
  }

  lemma {:induction false} DeleteCharFrom(c: char, s: string, i: nat)
    requires i <= |s|
    ensures ReplaceFrom(Lit([c]), [], s, i) == Without(s[i..], c)
    decreases |s| - i
  {
    var p := Lit([c]);
    assert p == [Atom(Char(c), Once)];
    if i < |s| {
      DeleteCharFrom(c, s, i + 1);
      assert MatchFrom(p[1..], s, i + 1, map[]) == Some(Match(i + 1, map[]));
      assert s[i..][1..] == s[i + 1..];
    }
  }

  /** `s.replace(/c/g, '')` takes out every `c` and keeps the rest in order. */
  lemma DeleteChar(c: char, s: string)
    ensures ReplaceAll(Lit([c]), [], s) == Without(s, c)
  {
    DeleteCharFrom(c, s, 0);
    assert s[0..] == s;
  }
}
