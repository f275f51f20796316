/**
  What a glob pattern accepts, read off its text from the left: one law for
  every way a pattern can begin, stated on the characters themselves.
 */
module GlobText {
  import GlobCompile
  import opened GlobMatch
  import opened GlobQuote

  /** The pattern p accepts the name. */
  ghost predicate Globs(p: Pattern, name: seq<Byte>, amiga: bool, nocase: bool) {
    Matches(Tokens(p, 0, amiga), name, nocase)
  }

  /** The rest of a name is accepted by the rest of a pattern. */
  ghost predicate Then(rest: Pattern, name: seq<Byte>, amiga: bool, nocase: bool) {
    name != [] && Globs(rest, name[1..], amiga, nocase)
  }

  /** The same character, up to case if nocase is set. */
  predicate Same(c: Byte, k: Byte, nocase: bool) {
    c == k || (nocase && ((65 <= c <= 90 && k == c + 32) || (97 <= c <= 122 && k == c - 32)))
  }

  lemma FoldMeans(c: Byte, k: Byte, nocase: bool)
    ensures Fold(c, nocase) == Fold(k, nocase) <==> Same(c, k, nocase)
  {
  }

  // ------------------------------------------------- patterns seen from inside

  lemma {:induction false} ClosingShift(p: Pattern, n: nat, i: nat)
    requires n <= i && n <= |p|
    ensures Closing(p, i) == n + Closing(p[n..], i - n)
    decreases |p| - i
  {
    if i < |p| && p[i] != CLOSE { ClosingShift(p, n, i + 1); }
  }

  lemma InsideShift(p: Pattern, n: nat, i: nat)
    requires n <= i && n <= |p|
    ensures Inside(p, i) == n + Inside(p[n..], i - n)
    ensures Closed(p, i) <==> Closed(p[n..], i - n)
    ensures Closing(p, Inside(p, i) + 1) == n + Closing(p[n..], Inside(p[n..], i - n) + 1)
  {
    ClosingShift(p, n, Inside(p, i) + 1);
  }

  lemma PlainShift(p: Pattern, n: nat, i: nat, amiga: bool)
    requires n <= i < |p| && p[i] != OPEN
    requires Tokens(p, i + 1, amiga) == Tokens(p[n..], i + 1 - n, amiga)
    requires Tokens(p, i + 2, amiga) == Tokens(p[n..], i + 2 - n, amiga)
    ensures Tokens(p, i, amiga) == Tokens(p[n..], i - n, amiga)
  {
    hide *;
    GlobCompile.PlainToken(p, i, amiga);
    GlobCompile.PlainToken(p[n..], i - n, amiga);
  }

  lemma OpenShift(p: Pattern, n: nat, i: nat, amiga: bool)
    requires n <= i < |p| && p[i] == OPEN && !Closed(p, i)
    requires Tokens(p, i + 1, amiga) == Tokens(p[n..], i + 1 - n, amiga)
    ensures Tokens(p, i, amiga) == Tokens(p[n..], i - n, amiga)
  {
    hide *;
    InsideShift(p, n, i);
    GlobCompile.OpenToken(p, i, amiga);
    GlobCompile.OpenToken(p[n..], i - n, amiga);
  }

  lemma SetShift(p: Pattern, n: nat, i: nat, amiga: bool, b: nat, e: nat)
    requires n <= i < |p| && p[i] == OPEN && Closed(p, i)
    requires b == Inside(p, i) && e == Closing(p, b + 1) && i < b < e < |p|
    requires Tokens(p, e + 1, amiga) == Tokens(p[n..], e + 1 - n, amiga)
    ensures Tokens(p, i, amiga) == Tokens(p[n..], i - n, amiga)
  {
    hide *;
    InsideShift(p, n, i);
    GlobCompile.SetToken(p, i, amiga);
    GlobCompile.SetToken(p[n..], i - n, amiga);
    assert p[n..][b - n..e - n] == p[b..e];
  }

  lemma AfterOpen(p: Pattern, i: nat)
    ensures i < Inside(p, i)
    ensures Closed(p, i) ==> Inside(p, i) < Closing(p, Inside(p, i) + 1) < |p|
  {
  }

  /** The tokens of the rest do not depend on what came before. */
  lemma {:induction false} TokensShift(p: Pattern, n: nat, i: nat, amiga: bool)
    requires n <= i && n <= |p|
    ensures Tokens(p, i, amiga) == Tokens(p[n..], i - n, amiga)
    decreases |p| - i
  {
    hide *;
    if i >= |p| {
      NoTokens(p, i, amiga);
      NoTokens(p[n..], i - n, amiga);
    } else if p[i] == OPEN && Closed(p, i) {
      AfterOpen(p, i);
      var b, e := Inside(p, i), Closing(p, Inside(p, i) + 1);
      TokensShift(p, n, e + 1, amiga);
      SetShift(p, n, i, amiga, b, e);
    } else {
      TokensShift(p, n, i + 1, amiga);
      TokensShift(p, n, i + 2, amiga);
      if p[i] == OPEN { OpenShift(p, n, i, amiga); } else { PlainShift(p, n, i, amiga); }
    }
  }

  lemma NoTokens(p: Pattern, i: nat, amiga: bool)
    requires i >= |p|
    ensures Tokens(p, i, amiga) == []
  {
  }

  lemma Behind(a: Pattern, rest: Pattern, amiga: bool)
    ensures Tokens(a + rest, |a|, amiga) == Tokens(rest, 0, amiga)
  {
    hide *;
    var p := a + rest;
    assert p[|a|..] == rest;
    TokensShift(p, |a|, |a|, amiga);
  }

  // ------------------------------------------------------------- wildcards

  lemma Empty(name: seq<Byte>, amiga: bool, nocase: bool)
    ensures Globs([], name, amiga, nocase) <==> name == []
  {
  }

  /** `?` takes any one character. */
  lemma Question(rest: Pattern, name: seq<Byte>, amiga: bool, nocase: bool)
    ensures Globs([63] + rest, name, amiga, nocase) <==> Then(rest, name, amiga, nocase)
  {
    Behind([63], rest, amiga);
    assert ([Any] + Tokens(rest, 0, amiga))[1..] == Tokens(rest, 0, amiga);
  }

  /** Some end of the name is accepted by the rest. */
  ghost predicate SomeEnd(rest: Pattern, name: seq<Byte>, amiga: bool, nocase: bool) {
    exists k :: 0 <= k <= |name| && Globs(rest, name[k..], amiga, nocase)
  }

  /** `*` takes any run of characters. */
  lemma Star(rest: Pattern, name: seq<Byte>, amiga: bool, nocase: bool)
    ensures Globs([42] + rest, name, amiga, nocase) <==> SomeEnd(rest, name, amiga, nocase)
  {
    Behind([42], rest, amiga);
    StarToken(rest, name, amiga, nocase);
  }

  lemma StarToken(rest: Pattern, name: seq<Byte>, amiga: bool, nocase: bool)
    ensures Matches([All] + Tokens(rest, 0, amiga), name, nocase) <==> SomeEnd(rest, name, amiga, nocase)
  {
    var ts := Tokens(rest, 0, amiga);
    assert ([All] + ts)[1..] == ts;
    assert forall k :: 0 <= k <= |name| ==> (Globs(rest, name[k..], amiga, nocase) == Matches(ts, name[k..], nocase));
  }

  /** So does `#?`, if it is a wildcard at all. */
  lemma HashQuestion(rest: Pattern, name: seq<Byte>, nocase: bool)
    ensures Globs([35, 63] + rest, name, true, nocase) <==> SomeEnd(rest, name, true, nocase)
  {
    Behind([35, 63], rest, true);
    StarToken(rest, name, true, nocase);
  }

  /** Characters that stand for themselves: protected ones, plain ones, `#` and `[` where they mean nothing. */
  predicate Alone(c: Char, rest: Pattern, amiga: bool) {
    && c != 63 && c != 42
    && (c == 35 && amiga ==> rest == [] || rest[0] != 63)
    && (c == 91 ==> Unclosed(rest))
  }

  /** No closing bracket behind the first character of the contents. */
  predicate Unclosed(rest: Pattern) {
    var m := if rest != [] && rest[0] == 33 then 1 else 0;
    |rest| <= m + 1 || 93 !in rest[m + 1..]
  }

  lemma UnclosedMeans(rest: Pattern)
    ensures Closed([91] + rest, 0) <==> !Unclosed(rest)
  {
    var p := [91] + rest;
    var m := if rest != [] && rest[0] == 33 then 1 else 0;
    assert Inside(p, 0) == m + 1;
    if m + 1 < |rest| {
      var e := Closing(p, m + 2);
      assert rest[m + 1..] == p[m + 2..];
      assert e < |p| ==> p[m + 2..][e - (m + 2)] == 93;
    }
  }

  lemma Itself(c: Char, rest: Pattern, name: seq<Byte>, amiga: bool, nocase: bool)
    requires Alone(c, rest, amiga)
    ensures Globs([c] + rest, name, amiga, nocase)
            <==> Then(rest, name, amiga, nocase) && Same(if c > 0x4000 then c - 0x4000 else c, name[0], nocase)
  {
    if c == 91 { UnclosedMeans(rest); }
    LoneToken(c, rest, amiga);
    var ts := Tokens(rest, 0, amiga);
    assert ([Lit(Strip(c))] + ts)[1..] == ts;
    if name != [] { FoldMeans(Strip(c), name[0], nocase); }
  }

  lemma LoneToken(c: Char, rest: Pattern, amiga: bool)
    requires Alone(c, rest, amiga) && (c == 91 ==> !Closed([91] + rest, 0))
    ensures Tokens([c] + rest, 0, amiga) == [Lit(Strip(c))] + Tokens(rest, 0, amiga)
  {
    hide Closed, Unclosed;
    Behind([c], rest, amiga);
    assert rest != [] ==> ([c] + rest)[1] == rest[0];
  }

  // -------------------------------------------------------------- brackets

  /** What can stand between brackets: anything that has no closing bracket behind its first character. */
  predicate Contents(s: Pattern) {
    s != [] && 93 !in s[1..]
  }

  /** The text of a bracket. */
  function Bracket(not: bool, s: Pattern): Pattern {
    (if not then [91, 33] else [91]) + s + [93]
  }

  lemma ClosingText(p: Pattern, i: nat, e: nat)
    requires i <= e < |p| && p[e] == 93 && forall k :: i <= k < e ==> p[k] != 93
    ensures Closing(p, i) == e
  {
  }

  lemma BracketTokens(not: bool, s: Pattern, rest: Pattern, amiga: bool)
    requires Contents(s) && (!not ==> s[0] != 33)
    ensures Tokens(Bracket(not, s) + rest, 0, amiga) == [Set(not, Items(s))] + Tokens(rest, 0, amiga)
  {
    hide Items, Closing;
    var w := Bracket(not, s);
    var p, b := w + rest, if not then 2 else 1;
    assert p[b..b + |s|] == s && p[b + |s|] == 93;
    assert Inside(p, 0) == b;
    forall k | b + 1 <= k < b + |s| ensures p[k] != 93 { assert p[k] == s[1..][k - b - 1]; }
    ClosingText(p, b + 1, b + |s|);
    Behind(w, rest, amiga);
  }

  /** A bracket takes one character, the same ones whatever follows it. */
  lemma BracketFirst(not: bool, s: Pattern, rest: Pattern, name: seq<Byte>, amiga: bool, nocase: bool)
    requires Contents(s) && (!not ==> s[0] != 33)
    ensures Globs(Bracket(not, s) + rest, name, amiga, nocase)
            <==> Then(rest, name, amiga, nocase) && Globs(Bracket(not, s), [name[0]], amiga, nocase)
  {
    BracketTokens(not, s, rest, amiga);
    var ts := Tokens(rest, 0, amiga);
    assert ([Set(not, Items(s))] + ts)[1..] == ts;
    if name != [] { BracketAlone(not, s, name[0], amiga, nocase); }
  }

  lemma BracketAlone(not: bool, s: Pattern, k: Byte, amiga: bool, nocase: bool)
    requires Contents(s) && (!not ==> s[0] != 33)
    ensures Globs(Bracket(not, s), [k], amiga, nocase) <==> InItems(k, Items(s), nocase) != not
  {
    hide *;
    BracketTokens(not, s, [], amiga);
    assert Bracket(not, s) + [] == Bracket(not, s);
    NoTokens([], 0, amiga);
    assert [Set(not, Items(s))] + [] == [Set(not, Items(s))];
    OneToken(not, Items(s), k, nocase);
    GlobsMeans(Bracket(not, s), [k], amiga, nocase);
  }

  lemma GlobsMeans(p: Pattern, name: seq<Byte>, amiga: bool, nocase: bool)
    ensures Globs(p, name, amiga, nocase) <==> Matches(Tokens(p, 0, amiga), name, nocase)
  {
    hide Matches, Tokens;
  }

  lemma OneToken(not: bool, items: seq<Item>, k: Byte, nocase: bool)
    ensures Matches([Set(not, items)], [k], nocase) <==> InItems(k, items, nocase) != not
  {
    hide InItems;
    var t := Set(not, items);
    assert [t][1..] == [] && [k][1..] == [];
  }

  /** `[!s]` takes what `[s]` does not. */
  lemma Complement(s: Pattern, k: Byte, amiga: bool, nocase: bool)
    requires Contents(s) && s[0] != 33
    ensures Matches(Tokens([91, 33] + s + [93], 0, amiga), [k], nocase)
            <==> !Matches(Tokens([91] + s + [93], 0, amiga), [k], nocase)
  {
    BracketAlone(true, s, k, amiga, nocase);
    BracketAlone(false, s, k, amiga, nocase);
  }

  lemma ItemsFirst(s: Pattern, n: nat, k: Byte, nocase: bool)
    requires n <= |s| && s != [] && n == if |s| >= 3 && s[1] == 45 then 3 else 1
    ensures InItems(k, Items(s), nocase) <==>
            InItem(k, if n == 3 then Range(Strip(s[0]), Strip(s[2])) else One(Strip(s[0])), nocase)
            || InItems(k, Items(s[n..]), nocase)
  {
    hide InItems, InItem;
    var t := if n == 3 then Range(Strip(s[0]), Strip(s[2])) else One(Strip(s[0]));
    assert Items(s) == [t] + Items(s[n..]);
    InMore(k, t, Items(s[n..]), nocase);
  }

  lemma InMore(k: Byte, t: Item, r: seq<Item>, nocase: bool)
    ensures InItems(k, [t] + r, nocase) <==> InItem(k, t, nocase) || InItems(k, r, nocase)
  {
    hide InItem;
    if InItems(k, r, nocase) {
      var i :| 0 <= i < |r| && InItem(k, r[i], nocase);
      assert ([t] + r)[i + 1] == r[i];
    }
    assert ([t] + r)[0] == t;
  }

  /** Single characters and ranges between brackets, each with what may stand behind it. */
  predicate Proper(s: Pattern) {
    s != [] ==> s[0] != 33 && (s[0] != 45 || |s| == 1) && 93 !in s
  }

  ghost predicate Admits(s: Pattern, k: Byte, amiga: bool, nocase: bool) {
    s != [] && Globs([91] + s + [93], [k], amiga, nocase)
  }

  lemma AdmitsMeans(s: Pattern, k: Byte, amiga: bool, nocase: bool)
    requires s != [] ==> s[0] != 33 && 93 !in s[1..]
    ensures Admits(s, k, amiga, nocase) <==> InItems(k, Items(s), nocase)
  {
    if s != [] { BracketAlone(false, s, k, amiga, nocase); }
  }

  /** `[c]` takes c, `[cs]` what `[c]` or `[s]` take. */
  lemma OneMore(c: Char, s: Pattern, k: Byte, amiga: bool, nocase: bool)
    requires c != 33 && Proper(s)
    ensures Admits([c] + s, k, amiga, nocase)
            <==> Same(if c > 0x4000 then c - 0x4000 else c, k, nocase) || Admits(s, k, amiga, nocase)
  {
    assert ([c] + s)[1..] == s;
    AdmitsMeans([c] + s, k, amiga, nocase);
    AdmitsMeans(s, k, amiga, nocase);
    ItemsFirst([c] + s, 1, k, nocase);
    FoldMeans(Strip(c), k, nocase);
  }

  /** `[a-c]` takes the interval, compared in lower case if nocase is set. */
  lemma RangeMore(lo: Char, hi: Char, s: Pattern, k: Byte, amiga: bool, nocase: bool)
    requires lo != 33 && hi != 93 && Proper(s)
    ensures var a, b := if lo > 0x4000 then lo - 0x4000 else lo, if hi > 0x4000 then hi - 0x4000 else hi;
            Admits([lo, 45, hi] + s, k, amiga, nocase)
            <==> (if nocase then Lower(a) <= Lower(k) <= Lower(b) else a <= k <= b)
                 || Admits(s, k, amiga, nocase)
  {
    var w := [lo, 45, hi] + s;
    assert w[3..] == s && w[1..] == [45, hi] + s;
    AdmitsMeans(w, k, amiga, nocase);
    AdmitsMeans(s, k, amiga, nocase);
    ItemsFirst(w, 3, k, nocase);
  }

  /** The two shortest brackets, as texts. */
  lemma ShortBrackets(c: Char, hi: Char, k: Byte, amiga: bool, nocase: bool)
    requires c != 33 && hi != 93
    ensures var a, b := if c > 0x4000 then c - 0x4000 else c, if hi > 0x4000 then hi - 0x4000 else hi;
            && (Matches(Tokens([91, c, 93], 0, amiga), [k], nocase) <==> Same(a, k, nocase))
            && (Matches(Tokens([91, c, 45, hi, 93], 0, amiga), [k], nocase)
                <==> if nocase then Lower(a) <= Lower(k) <= Lower(b) else a <= k <= b)
  {
    hide Tokens, Matches;
    OneMore(c, [], k, amiga, nocase);
    RangeMore(c, hi, [], k, amiga, nocase);
    assert [91] + ([c] + []) + [93] == [91, c, 93];
    assert [91] + ([c, 45, hi] + []) + [93] == [91, c, 45, hi, 93];
  }

  // --------------------------------------------------------------- quoting

  lemma {:induction false} QuotedShift(s: seq<Byte>, n: nat, i: nat, quote: bool)
    requires n <= i <= |s|
    ensures Quoted(s, i, quote) == Quoted(s[n..], i - n, quote)
    decreases |s| - i
  {
    hide Quoted;
    if i == |s| {
      QuotedEnd(s, quote);
      QuotedEnd(s[n..], quote);
    } else {
      QuotedStep(s, i, quote);
      QuotedStep(s[n..], i - n, quote);
      QuotedShift(s, n, i + 1, quote);
      if i + 1 < |s| { QuotedShift(s, n, i + 2, quote); }
    }
  }

  /** Without GLOB_QUOTE a pattern is its text. */
  lemma {:induction false} Unquoted(s: seq<Byte>, i: nat)
    requires i <= |s|
    ensures Quoted(s, i, false) == s[i..]
    decreases |s| - i
  {
    if i < |s| { Unquoted(s, i + 1); }
  }

  /** With it a backslash protects the character behind it, and at the end itself; others stay as they are. */
  lemma QuotedFirst(c: Byte, d: Byte, rest: seq<Byte>)
    ensures Quoted([], 0, true) == [] && Quoted([92], 0, true) == [92 + 0x4000]
    ensures c != 92 ==> Quoted([c] + rest, 0, true) == [c] + Quoted(rest, 0, true)
    ensures Quoted([92, d] + rest, 0, true) == [d + 0x4000] + Quoted(rest, 0, true)
  {
    var u, v := [c] + rest, [92, d] + rest;
    assert u[1..] == rest && v[2..] == rest;
    QuotedShift(u, 1, 1, true);
    QuotedShift(v, 2, 2, true);
  }
}
