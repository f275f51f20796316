/**
  What an fnmatch pattern accepts, read off its text from the left, without
  FNM_PERIOD: one law for every way a pattern can begin.
 */
module FnmatchText {
  import opened Fnmatch
  import opened Option

  /** The pattern p accepts the string s. */
  ghost predicate Fits(p: Text, s: seq<int>, noescape: bool, pathname: bool) {
    Matches(Tokens(p, 0, noescape), s, pathname)
  }

  /** The rest of a string is accepted by the rest of a pattern. */
  ghost predicate Then(rest: Text, s: seq<int>, noescape: bool, pathname: bool) {
    s != [] && Fits(rest, s[1..], noescape, pathname)
  }

  // ------------------------------------------------- patterns seen from inside

  function Moved(r: Option<(seq<Item>, nat)>, n: nat): Option<(seq<Item>, nat)> {
    if r.None? then None else Some((r.value.0, r.value.1 + n))
  }

  lemma ElementShift(p: Text, n: nat, i: nat, noescape: bool)
    requires n <= i && n <= |p|
    ensures var e, f := Element(p, i, noescape), Element(p[n..], i - n, noescape);
            if e.None? then f.None? else f == Some((e.value.0, e.value.1 - n))
    ensures At(p, i) == At(p[n..], i - n) && At(p, i + 1) == At(p[n..], i + 1 - n)
  {
  }

  /** The elements of a bracket do not depend on what came before. */
  lemma {:induction false} ItemsShift(p: Text, n: nat, i: nat, noescape: bool)
    requires n <= i && n <= |p|
    ensures Items(p, i, noescape) == Moved(Items(p[n..], i - n, noescape), n)
    decreases if i < |p| then |p| - i else 0, 1
  {
    hide Items, Element, At;
    var q := p[n..];
    ElementShift(p, n, i, noescape);
    var e := Element(p, i, noescape);
    if At(p, i) == CLOSE {
      ItemsEnd(p, i, noescape);
      ItemsEnd(q, i - n, noescape);
    } else if e.None? {
      ItemsNone(p, i, noescape);
      ItemsNone(q, i - n, noescape);
    } else {
      ElementProgress(p, i, noescape);
      ItemsShiftBy(p, n, i, e.value.0, e.value.1, noescape);
    }
  }

  lemma ItemsShiftBy(p: Text, n: nat, i: nat, c: int, j: nat, noescape: bool)
    requires n <= i < j <= |p| && At(p, i) != CLOSE && Element(p, i, noescape) == Some((c, j))
    ensures Items(p, i, noescape) == Moved(Items(p[n..], i - n, noescape), n)
    decreases if i < |p| then |p| - i else 0, 0
  {
    hide Items, Element, At;
    var q := p[n..];
    ElementShift(p, n, i, noescape);
    ElementShift(p, n, j, noescape);
    ElementShift(p, n, j + 1, noescape);
    if !RangeAt(p, j) {
      ItemsOne(p, i, c, j, noescape);
      ItemsOne(q, i - n, c, j - n, noescape);
      ItemsShift(p, n, j, noescape);
    } else if Element(p, j + 1, noescape).None? {
      ItemsNone(p, i, noescape);
      ItemsNone(q, i - n, noescape);
    } else {
      ElementProgress(p, j + 1, noescape);
      var (d, k) := Element(p, j + 1, noescape).value;
      ItemsRange(p, i, c, j, d, k, noescape);
      ItemsRange(q, i - n, c, j - n, d, k - n, noescape);
      ItemsShift(p, n, k, noescape);
    }
  }

  lemma ItemsEnd(p: Text, i: nat, noescape: bool)
    requires At(p, i) == CLOSE
    ensures Items(p, i, noescape) == Some(([], i + 1))
  {
  }

  lemma ElementProgress(p: Text, i: nat, noescape: bool)
    ensures var e := Element(p, i, noescape); e.Some? ==> i < e.value.1 <= |p|
  {
  }

  lemma PlainShift(p: Text, n: nat, i: nat, noescape: bool)
    requires n <= i < |p| && p[i] != OPEN
    requires Tokens(p, i + 1, noescape) == Tokens(p[n..], i + 1 - n, noescape)
    requires Tokens(p, i + 2, noescape) == Tokens(p[n..], i + 2 - n, noescape)
    ensures Tokens(p, i, noescape) == Tokens(p[n..], i - n, noescape)
  {
    hide Items;
  }

  lemma SetShift(p: Text, n: nat, i: nat, b: nat, noescape: bool)
    requires n <= i < |p| && p[i] == OPEN && b == if Negates(p, i + 1) then i + 2 else i + 1
    requires var r := Items(p, b, noescape);
             && Items(p[n..], b - n, noescape) == (if r.None? then None else Some((r.value.0, r.value.1 - n)))
             && (r.Some? ==> Tokens(p, r.value.1, noescape) == Tokens(p[n..], r.value.1 - n, noescape))
    ensures Tokens(p, i, noescape) == Tokens(p[n..], i - n, noescape)
  {
    hide Items, Tokens;
    assert Negates(p, i + 1) == Negates(p[n..], i + 1 - n);
    OpenTokens(p, i, b, noescape);
    OpenTokens(p[n..], i - n, b - n, noescape);
  }

  lemma OpenTokens(p: Text, i: nat, b: nat, noescape: bool)
    requires i < |p| && p[i] == OPEN && b == if Negates(p, i + 1) then i + 2 else i + 1
    ensures var r := Items(p, b, noescape);
            Tokens(p, i, noescape)
            == if r.None? then [Broken] else [Set(b == i + 2, r.value.0)] + Tokens(p, r.value.1, noescape)
  {
    hide Items;
  }

  /** The tokens of the rest do not depend on what came before. */
  lemma {:induction false} TokensShift(p: Text, n: nat, i: nat, noescape: bool)
    requires n <= i && n <= |p|
    ensures Tokens(p, i, noescape) == Tokens(p[n..], i - n, noescape)
    decreases if i < |p| then |p| - i else 0
  {
    hide Items, Tokens;
    if i >= |p| {
      NoTokens(p, i, noescape);
      NoTokens(p[n..], i - n, noescape);
    } else if p[i] == OPEN {
      var b := if Negates(p, i + 1) then i + 2 else i + 1;
      var r := Items(p, b, noescape);
      ItemsShift(p, n, b, noescape);
      BracketProgress(p, b, noescape);
      if r.Some? { TokensShift(p, n, r.value.1, noescape); }
      SetShift(p, n, i, b, noescape);
    } else {
      TokensShift(p, n, i + 1, noescape);
      TokensShift(p, n, i + 2, noescape);
      PlainShift(p, n, i, noescape);
    }
  }

  lemma NoTokens(p: Text, i: nat, noescape: bool)
    requires i >= |p|
    ensures Tokens(p, i, noescape) == []
  {
  }

  lemma BracketProgress(p: Text, i: nat, noescape: bool)
    ensures var r := Items(p, i, noescape); r.Some? ==> i < r.value.1 <= |p|
  {
  }

  lemma Behind(a: Text, rest: Text, noescape: bool)
    ensures Tokens(a + rest, |a|, noescape) == Tokens(rest, 0, noescape)
  {
    hide *;
    var p: Text := a + rest;
    assert p[|a|..] == rest;
    TokensShift(p, |a|, |a|, noescape);
  }

  // -------------------------------------------------- wildcards and characters

  lemma Empty(s: seq<int>, noescape: bool, pathname: bool)
    ensures Fits([], s, noescape, pathname) <==> s == []
  {
  }

  /** `?` takes any one character but a slash under FNM_PATHNAME. */
  lemma Question(rest: Text, s: seq<int>, noescape: bool, pathname: bool)
    ensures Fits([63] + rest, s, noescape, pathname)
            <==> Then(rest, s, noescape, pathname) && !(pathname && s[0] == 47)
  {
    Behind([63], rest, noescape);
    var ts := Tokens(rest, 0, noescape);
    assert ([Any] + ts)[1..] == ts;
  }

  /** `*` takes any run of characters, without slashes under FNM_PATHNAME. */
  lemma Run(rest: Text, s: seq<int>, noescape: bool, pathname: bool)
    ensures Fits([42] + rest, s, noescape, pathname) <==>
            exists k :: 0 <= k <= |s| && (pathname ==> 47 !in s[..k]) && Fits(rest, s[k..], noescape, pathname)
  {
    Behind([42], rest, noescape);
    var ts := Tokens(rest, 0, noescape);
    assert ([Star] + ts)[1..] == ts;
    assert forall k :: 0 <= k <= |s| ==> (Fits(rest, s[k..], noescape, pathname) == Matches(ts, s[k..], pathname));
  }

  /** Other characters stand for themselves, a slash and a last backslash among them. */
  lemma Itself(c: int, rest: Text, s: seq<int>, noescape: bool, pathname: bool)
    requires c != 0 && c != 63 && c != 42 && c != 91 && (c == 92 ==> noescape || rest == [])
    ensures Fits([c] + rest, s, noescape, pathname) <==> Then(rest, s, noescape, pathname) && s[0] == c
  {
    var a: Text := [c];
    Behind(a, rest, noescape);
    var ts := Tokens(rest, 0, noescape);
    assert ([Lit(c, false)] + ts)[1..] == ts;
  }

  /** Behind a backslash every character does. */
  lemma Escaped(c: int, rest: Text, s: seq<int>, pathname: bool)
    requires c != 0
    ensures Fits([92, c] + rest, s, false, pathname) <==> Then(rest, s, false, pathname) && s[0] == c
  {
    var a: Text := [92, c];
    Behind(a, rest, false);
    var ts := Tokens(rest, 0, false);
    assert ([Lit(c, true)] + ts)[1..] == ts;
  }

  // -------------------------------------------------------------- brackets

  /** What stands between brackets: no closing bracket, and nothing escaped. */
  predicate Contents(x: Text, noescape: bool) {
    93 !in x && (noescape || 92 !in x)
  }

  /** The bracket ends behind its contents, and what follows does not change them. */
  lemma {:induction false} ItemsClose(x: Text, rest: Text, i: nat, noescape: bool)
    requires i <= |x| && Contents(x, noescape)
    ensures var r := Items(x + [93] + rest, i, noescape);
            r == Items(x + [93], i, noescape) && r.Some? && r.value.1 == |x| + 1
    decreases |x| - i
  {
    hide Items, Element;
    var p: Text, q: Text := x + [93] + rest, x + [93];
    if i == |x| {
      ItemsEnd(p, i, noescape);
      ItemsEnd(q, i, noescape);
    } else {
      PlainElement(x, rest, i, noescape);
      PlainElement(x, [], i, noescape);
      assert q + [] == q;
      if RangeAt(p, i + 1) {
        PlainElement(x, rest, i + 2, noescape);
        PlainElement(x, [], i + 2, noescape);
        ItemsRange(p, i, x[i], i + 1, x[i + 2], i + 3, noescape);
        ItemsRange(q, i, x[i], i + 1, x[i + 2], i + 3, noescape);
        ItemsClose(x, rest, i + 3, noescape);
      } else {
        ItemsOne(p, i, x[i], i + 1, noescape);
        ItemsOne(q, i, x[i], i + 1, noescape);
        ItemsClose(x, rest, i + 1, noescape);
      }
    }
  }

  lemma PlainElement(x: Text, rest: Text, i: nat, noescape: bool)
    requires i < |x| && Contents(x, noescape)
    ensures var p := x + [93] + rest;
            p[i] != 93 && Element(p, i, noescape) == Some((x[i], i + 1))
  {
    assert x[i] in x;
  }

  /** How a bracket opens: plainly, with an exclamation mark or with a caret. */
  function Opening(not: int): Text
    requires not == 0 || not == 33 || not == 94
  {
    if not == 0 then [91] else [91, not]
  }

  ghost predicate Admits(x: Text, k: int, noescape: bool) {
    var r := Items(x + [93], 0, noescape);
    r.Some? && InItems(k, r.value.0)
  }

  lemma BracketTokens(not: int, x: Text, rest: Text, noescape: bool)
    requires not == 0 || not == 33 || not == 94
    requires Contents(x, noescape) && (not == 0 && x != [] ==> x[0] != 33 && x[0] != 94)
    ensures var r := Items(x + [93], 0, noescape);
            && r.Some?
            && Tokens(Opening(not) + (x + [93] + rest), 0, noescape)
               == [Set(not != 0, r.value.0)] + Tokens(rest, 0, noescape)
  {
    hide Items, Tokens;
    var w, v: Text := Opening(not), x + [93] + rest;
    var p: Text := w + v;
    assert p[|w|..] == v && p[|w| + |x| + 1..] == rest;
    ItemsClose(x, rest, 0, noescape);
    ItemsShift(p, |w|, |w|, noescape);
    assert Negates(p, 1) == (not != 0);
    OpenTokens(p, 0, |w|, noescape);
    TokensShift(p, |w| + |x| + 1, |w| + |x| + 1, noescape);
  }

  lemma BracketMeans(not: int, x: Text, k: int, noescape: bool, pathname: bool)
    requires not == 0 || not == 33 || not == 94
    requires Contents(x, noescape) && (not == 0 && x != [] ==> x[0] != 33 && x[0] != 94)
    ensures Fits(Opening(not) + x + [93], [k], noescape, pathname)
            <==> !(pathname && k == 47) && Admits(x, k, noescape) != (not != 0)
  {
    hide Items, Tokens, InItems;
    BracketTokens(not, x, [], noescape);
    assert Opening(not) + (x + [93] + []) == Opening(not) + x + [93];
    NoTokens([], 0, noescape);
    OneToken(Set(not != 0, Items(x + [93], 0, noescape).value.0), k, pathname);
  }

  lemma OneToken(t: Token, k: int, pathname: bool)
    requires !t.Star?
    ensures Matches([t], [k], pathname) <==> Accepts(t, k, pathname)
  {
    hide Accepts;
    assert [t][1..] == [] && [k][1..] == [];
  }

  /** A bracket takes one character, the same ones whatever follows it. */
  lemma BracketFirst(not: int, x: Text, rest: Text, s: seq<int>, noescape: bool, pathname: bool)
    requires not == 0 || not == 33 || not == 94
    requires Contents(x, noescape) && (not == 0 && x != [] ==> x[0] != 33 && x[0] != 94)
    ensures Fits(Opening(not) + (x + [93] + rest), s, noescape, pathname)
            <==> Then(rest, s, noescape, pathname) && Fits(Opening(not) + x + [93], [s[0]], noescape, pathname)
  {
    hide Items, Tokens, InItems;
    BracketTokens(not, x, rest, noescape);
    var t, ts := Set(not != 0, Items(x + [93], 0, noescape).value.0), Tokens(rest, 0, noescape);
    assert ([t] + ts)[1..] == ts;
    if s != [] { BracketMeans(not, x, s[0], noescape, pathname); }
  }

  /** `[!x]` and `[^x]` both take what `[x]` does not, and none of them takes a slash under FNM_PATHNAME. */
  lemma Complement(x: Text, k: int, noescape: bool, pathname: bool)
    requires Contents(x, noescape) && (x != [] ==> x[0] != 33 && x[0] != 94)
    ensures var plain := Fits([91] + x + [93], [k], noescape, pathname);
            var bang := Fits([91, 33] + x + [93], [k], noescape, pathname);
            var caret := Fits([91, 94] + x + [93], [k], noescape, pathname);
            if pathname && k == 47 then !plain && !bang && !caret else bang == caret == !plain
  {
    hide *;
    BracketMeans(0, x, k, noescape, pathname);
    BracketMeans(33, x, k, noescape, pathname);
    BracketMeans(94, x, k, noescape, pathname);
    Openings();
  }

  lemma Openings()
    ensures Opening(0) == [91] && Opening(33) == [91, 33] && Opening(94) == [91, 94]
  {
  }

  lemma PlainBracket(x: Text, k: int, noescape: bool)
    requires Contents(x, noescape) && (x != [] ==> x[0] != 33 && x[0] != 94)
    ensures Fits([91] + x + [93], [k], noescape, false) <==> Admits(x, k, noescape)
  {
    hide *;
    BracketMeans(0, x, k, noescape, false);
    Openings();
  }

  /** `[]` takes nothing, */
  lemma EmptyBracket(k: int, noescape: bool)
    ensures !Fits([91, 93], [k], noescape, false)
  {
    PlainBracket([], k, noescape);
    assert [91] + [] + [93] == [91, 93];
  }

  /** `[c]` takes c, `[cx]` what `[c]` or `[x]` take; a last hyphen is a character like others, */
  lemma OneMore(c: int, x: Text, k: int, noescape: bool)
    requires c != 0 && c != 33 && c != 94
    requires Contents([c] + x, noescape) && (x != [] ==> x[0] != 33 && x[0] != 94 && (x[0] != 45 || |x| == 1))
    ensures Fits([91] + ([c] + x) + [93], [k], noescape, false)
            <==> k == c || Fits([91] + x + [93], [k], noescape, false)
  {
    var y: Text := [c] + x;
    assert c in y && forall d :: d in x ==> d in y;
    PlainBracket(y, k, noescape);
    PlainBracket(x, k, noescape);
    FirstItem(c, y, x, One(c), k, noescape);
  }

  /** and `[a-c]` the interval. */
  lemma RangeMore(lo: int, hi: int, x: Text, k: int, noescape: bool)
    requires lo != 0 && lo != 33 && lo != 94 && hi != 0
    requires Contents([lo, 45, hi] + x, noescape) && (x != [] ==> x[0] != 33 && x[0] != 94)
    ensures Fits([91] + ([lo, 45, hi] + x) + [93], [k], noescape, false)
            <==> lo <= k <= hi || Fits([91] + x + [93], [k], noescape, false)
  {
    var y: Text := [lo, 45, hi] + x;
    assert y[0] in y && y[2] in y && forall d :: d in x ==> d in y;
    PlainBracket(y, k, noescape);
    PlainBracket(x, k, noescape);
    FirstItem(lo, y, x, Range(lo, hi), k, noescape);
  }

  lemma FirstItem(c: int, y: Text, x: Text, t: Item, k: int, noescape: bool)
    requires c != 0 && Contents(y, noescape) && Contents(x, noescape)
    requires t == One(c) ==> y == [c] + x && (x != [] ==> x[0] != 45 || |x| == 1)
    requires t != One(c) ==> t.Range? && t.hi != 0 && t.lo == c && y == [c, 45, t.hi] + x
    ensures Admits(y, k, noescape) <==> InItem(k, t) || Admits(x, k, noescape)
  {
    hide Items, InItems, InItem;
    var p: Text := y + [93];
    var n := |y| - |x|;
    assert p[n..] == x + [93];
    assert y[0] in y && (n == 3 ==> y[2] in y);
    assert Element(p, 0, noescape) == Some((c, 1)) && At(p, 0) != CLOSE;
    if n == 1 {
      ItemsOne(p, 0, c, 1, noescape);
    } else {
      ItemsRange(p, 0, c, 1, t.hi, 3, noescape);
    }
    ItemsShift(p, n, n, noescape);
    assert Items(p, 0, noescape) == Prepend(t, Items(p, n, noescape));
    ItemsClose(x, [], 0, noescape);
    assert x + [93] + [] == x + [93];
    InPrepend(k, t, Items(p, n, noescape).value.0);
  }

  /** A backslash between brackets takes the meaning from what follows it, the closing bracket included. */
  lemma EscapedMore(c: int, x: Text, k: int)
    requires c != 0 && Contents(x, false) && (x != [] ==> x[0] != 33 && x[0] != 94 && (x[0] != 45 || |x| == 1))
    ensures Fits([91, 92, c] + (x + [93]), [k], false, false) <==> k == c || Fits([91] + x + [93], [k], false, false)
  {
    var p: Text := [91, 92, c] + (x + [93]);
    assert Element(p, 1, false) == Some((c, 3)) && !RangeAt(p, 3);
    ItemsOne(p, 1, c, 3, false);
    EscapedItem(p, 3, x, One(c), k);
  }

  /** So it does at both ends of a range. */
  lemma EscapedRange(lo: int, hi: int, x: Text, k: int)
    requires lo != 0 && hi != 0 && Contents(x, false) && (x != [] ==> x[0] != 33 && x[0] != 94)
    ensures Fits([91, 92, lo, 45, 92, hi] + (x + [93]), [k], false, false)
            <==> lo <= k <= hi || Fits([91] + x + [93], [k], false, false)
  {
    var p: Text := [91, 92, lo, 45, 92, hi] + (x + [93]);
    assert Element(p, 1, false) == Some((lo, 3)) && Element(p, 4, false) == Some((hi, 6)) && RangeAt(p, 3);
    ItemsRange(p, 1, lo, 3, hi, 6, false);
    EscapedItem(p, 6, x, Range(lo, hi), k);
  }

  lemma EscapedItem(p: Text, n: nat, x: Text, t: Item, k: int)
    requires 2 <= n <= |p| && p[0] == 91 && p[1] == 92 && p[n..] == x + [93]
    requires Contents(x, false) && (x != [] ==> x[0] != 33 && x[0] != 94)
    requires Items(p, 1, false) == Prepend(t, Items(p, n, false))
    ensures Fits(p, [k], false, false) <==> InItem(k, t) || Fits([91] + x + [93], [k], false, false)
  {
    hide Items, Tokens, InItems, InItem;
    PlainBracket(x, k, false);
    ItemsClose(x, [], 0, false);
    assert x + [93] + [] == x + [93];
    ItemsShift(p, n, n, false);
    OpenTokens(p, 0, 1, false);
    NoTokens(p, |p|, false);
    var items := Items(p, n, false).value.0;
    InPrepend(k, t, items);
    OneToken(Set(false, [t] + items), k, false);
  }

  lemma {:induction false} ItemsBracket(p: Text, i: nat, noescape: bool)
    ensures var r := Items(p, i, noescape); r.Some? ==> 93 in p
    decreases if i < |p| then |p| - i else 0
  {
    var e := Element(p, i, noescape);
    if At(p, i) != CLOSE && e.Some? {
      ItemsBracket(p, e.value.1, noescape);
      var f := Element(p, e.value.1 + 1, noescape);
      if f.Some? { ItemsBracket(p, f.value.1, noescape); }
    }
  }

  /** A bracket that is never closed makes the pattern accept nothing. */
  lemma Unclosed(rest: Text, s: seq<int>, noescape: bool, pathname: bool)
    requires 93 !in rest
    ensures !Fits([91] + rest, s, noescape, pathname)
  {
    var p: Text := [91] + rest;
    ItemsBracket(p, if Negates(p, 1) then 2 else 1, noescape);
    hide Items;
    assert Tokens(p, 0, noescape) == [Broken];
  }

  // --------------------------------------------------------------- FNM_PERIOD

  /** A star or a question mark at the start never takes a leading period, */
  lemma PeriodFirst(c: int, rest: Text, s: Text, fl: Flags)
    requires (c == 42 || c == 63) && fl.period && s != [] && s[0] == 46
    ensures !Accepted(Tokens([c] + rest, 0, fl.noescape), s, 0, 0, fl)
  {
    var a: Text := [c];
    Behind(a, rest, fl.noescape);
  }

  /** nor one behind a slash, under FNM_PATHNAME. */
  lemma PeriodBehindSlash(c: int, rest: Text, s: Text, fl: Flags)
    requires (c == 42 || c == 63) && fl.period && fl.pathname && |s| >= 2 && s[0] == 47 && s[1] == 46
    ensures !Accepted(Tokens([47, c] + rest, 0, fl.noescape), s, 0, 0, fl)
  {
    var p: Text := [47, c] + rest;
    var ts := Tokens(p, 1, fl.noescape);
    assert Tokens(p, 0, fl.noescape) == [Lit(47, false)] + ts;
    assert ([Lit(47, false)] + ts)[1..] == ts;
    assert ts != [] && (ts[0] == Star || ts[0] == Any);
  }

  /** `/?` accepts a slash and a period unless both flags are set. */
  lemma PeriodNeedsPathname(fl: Flags)
    ensures Accepted(Tokens([47, 63], 0, fl.noescape), [47, 46], 0, 0, fl) <==> !(fl.period && fl.pathname)
  {
    var p: Text := [47, 63];
    var ts := Tokens(p, 0, fl.noescape);
    assert Tokens(p, 1, fl.noescape) == [Any] + Tokens(p, 2, fl.noescape) == [Any];
    assert ts == [Lit(47, false)] + [Any];
    assert ts[1..] == [Any] && [Any][1..] == [];
  }
}
