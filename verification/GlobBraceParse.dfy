/**
  Which patterns are the texts of trees, so that the law of brace expansion
  covers them: told by a scan of the pattern, and for patterns without
  brackets by counting braces.
 */
module GlobBraceParse {
  import opened GlobMatch
  import opened GlobBrace
  import opened GlobBraceTree
  import opened GlobUnmatched

  /** What stands between a brace and its balancing brace is balanced in itself. */
  lemma {:induction false} InnerRises(p: Pattern, pl: nat, pm: nat, e: nat, depth: nat)
    requires NoOpen(p) && pl <= pm <= e < |p| && Balance(p, pm, depth) == e && Rises(p[pl..pm], depth)
    ensures Rises(p[pl..e], 0)
    decreases e - pm
  {
    hide Balance, Depth, Rises;
    BalanceStep(p, pm, depth);
    if pm < e {
      RisesStep(p, pl, pm, depth);
      InnerRises(p, pl, pm + 1, e, if p[pm] == LBRACE then depth + 1
                                   else if p[pm] == RBRACE then depth - 1 else depth);
    } else {
      AtTheEnd(p, e, depth);
    }
  }

  lemma AtTheEnd(p: Pattern, e: nat, depth: nat)
    requires NoOpen(p) && e < |p| && Balance(p, e, depth) == e
    ensures depth == 0
  {
  }

  /** A pattern that begins with a matched brace: the group, and the text behind it. */
  lemma Group(s: Pattern, e: nat)
    requires NoOpen(s) && s != [] && s[0] == LBRACE && e == Balance(s, 1, 0) < |s|
    ensures s == [LBRACE] + s[1..e] + [RBRACE] + s[e + 1..]
    ensures Rises(s[1..e], 0)
    ensures forall d: nat :: Depth(s, d) == Depth(s[e + 1..], d)
  {
    hide Balance, Depth, Rises;
    assert s[1..1] == [];
    NothingRises();
    InnerRises(s, 1, 1, e, 0);
    GroupSplit(s, e);
    forall d: nat ensures Depth(s, d) == Depth(s[e + 1..], d) { GroupDepth(s, e, d); }
  }

  lemma GroupSplit(s: Pattern, e: nat)
    requires s != [] && s[0] == LBRACE && 1 <= e < |s| && s[e] == RBRACE
    ensures s == [LBRACE] + s[1..e] + [RBRACE] + s[e + 1..]
  {
  }

  lemma GroupLevel(s: Pattern, e: nat)
    requires Level(s) && s != [] && s[0] == LBRACE && e == Balance(s, 1, 0) < |s|
    ensures s == [LBRACE] + s[1..e] + [RBRACE] + s[e + 1..]
    ensures Level(s[1..e]) && Level(s[e + 1..])
  {
    hide Balance, Depth;
    Group(s, e);
    var v := s[e + 1..];
    forall d: nat ensures Depth(v, d) == d { assert Depth(s, d) == d; }
  }

  lemma GroupDepth(s: Pattern, e: nat, d: nat)
    requires s != [] && s[0] == LBRACE && 1 <= e < |s| && s[e] == RBRACE && Rises(s[1..e], 0)
    ensures Depth(s, d) == Depth(s[e + 1..], d)
  {
    hide Depth;
    assert s[0..] == s;
    DepthStep(s, 0, d);
    assert s[1..] == s[1..e] + s[e..];
    DepthConcat(s[1..e], s[e..], d + 1);
    DepthStep(s, e, d + 1);
  }

  /** A brace that is not balanced stays open. */
  lemma OpenBrace(s: Pattern, d: nat)
    requires NoOpen(s) && s != [] && s[0] == LBRACE && Balance(s, 1, 0) == |s|
    ensures Depth(s, 0) > 0
  {
    hide Balance, Depth;
    assert s[0..] == s;
    DepthStep(s, 0, 0);
    BalanceDepth(s, 1, 0);
  }

  /** Nodes in front of the first alternative. */
  function InFront(c: Char, a: Alts): (r: Alts)
    ensures PrintAlts(r) == [c] + PrintAlts(a)
  {
    match a
    case Last(n) => Last(Chr(c, n))
    case More(n, b) =>
      assert [c] + (Print(n) + [COMMA] + PrintAlts(b)) == [c] + Print(n) + [COMMA] + PrintAlts(b);
      More(Chr(c, n), b)
  }

  function GroupInFront(g: Alts, a: Alts): (r: Alts)
    ensures PrintAlts(r) == [LBRACE] + PrintAlts(g) + [RBRACE] + PrintAlts(a)
  {
    match a
    case Last(n) => Last(Braces(g, n))
    case More(n, b) =>
      var h := [LBRACE] + PrintAlts(g) + [RBRACE];
      assert h + (Print(n) + [COMMA] + PrintAlts(b)) == h + Print(n) + [COMMA] + PrintAlts(b);
      More(Braces(g, n), b)
  }

  /** Balanced text is the text of some alternatives. */
  lemma {:induction false} ParseAlts(s: Pattern) returns (a: Alts)
    requires Level(s)
    ensures NestedAlts(a) && PrintAlts(a) == s
    decreases |s|
  {
    if s == [] {
      a := Last(End);
    } else if s[0] == LBRACE {
      LevelBrace(s);
      var e := Balance(s, 1, 0);
      GroupLevel(s, e);
      var g := ParseAlts(s[1..e]);
      var b := ParseAlts(s[e + 1..]);
      a := GroupInFront(g, b);
    } else {
      LevelTail(s);
      a := ParseAlts(s[1..]);
      assert s == [s[0]] + s[1..];
      if s[0] == COMMA {
        assert [] + [COMMA] + PrintAlts(a) == s;
        a := More(End, a);
      } else {
        a := InFront(s[0], a);
      }
    }
  }

  lemma LevelBrace(s: Pattern)
    requires Level(s) && s != [] && s[0] == LBRACE
    ensures Balance(s, 1, 0) < |s|
  {
    if Balance(s, 1, 0) == |s| { OpenBrace(s, 0); }
    assert Depth(s, 0) == 0;
  }

  lemma LevelTail(s: Pattern)
    requires Level(s) && s != [] && s[0] != LBRACE
    ensures s[0] != RBRACE && Level(s[1..])
  {
    hide Depth;
    assert s[0..] == s;
    DepthStep(s, 0, 0);
    DepthStep(s, 0, 1);
    assert Depth(s, 0) == 0 && Depth(s, 1) == 1;
    var t := s[1..];
    forall d: nat ensures Depth(t, d) == d {
      DepthStep(s, 0, d);
      assert Depth(s, d) == d;
    }
  }

  /** A pattern whose braces are matched is the text of a tree. */
  lemma {:induction false} ParsePlain(p: Pattern) returns (n: Nodes)
    requires NoOpen(p) && Depth(p, 0) == 0
    ensures Top(n) && Print(n) == p
    decreases |p|
  {
    if p == [] {
      n := End;
    } else if p[0] == LBRACE {
      if Balance(p, 1, 0) == |p| { OpenBrace(p, 0); }
      var e := Balance(p, 1, 0);
      Group(p, e);
      var a := ParseAlts(p[1..e]);
      NestedIsFirst(a);
      var r := ParsePlain(p[e + 1..]);
      n := Braces(a, r);
    } else {
      assert p[0..] == p && p == [p[0]] + p[1..];
      DepthStep(p, 0, 0);
      var r := ParsePlain(p[1..]);
      n := Chr(p[0], r);
    }
  }

  lemma FirstIsGlob(ss: seq<Pattern>)
    requires ss != []
    ensures Calls(ss) != [] && Calls(ss)[0].Glob?
  {
  }

  lemma TreeIsMatched(n: Nodes)
    requires Top(n) && NoOpen(Print(n))
    ensures Depth(Print(n), 0) == 0
  {
    hide Depth, Expand;
    BraceExpansion(n);
    MarkedIffMatched(Print(n));
    if Choices(n, true) != [] { FirstIsGlob(Choices(n, true)); }
  }

  // ----------------------------------------------------------------- brackets

  /**
    Text that can stand between braces: matched in itself, and with brackets
    only where an alternative of an outermost group begins.  A bracket must be
    closed, and must hold no opening brace.
   */
  predicate GroupText(s: Pattern, first: bool, outer: bool)
    decreases |s|
  {
    if s == [] then true
    else if s[0] == OPEN then
      var e := Find(s, CLOSE, 1);
      outer && first && e < |s| && Body(s[1..e]) && GroupText(s[e + 1..], false, outer)
    else if s[0] == COMMA then GroupText(s[1..], true, outer)
    else if s[0] == LBRACE then
      var e := Balance(s, 1, 0);
      e < |s| && GroupText(s[1..e], true, false) && GroupText(s[e + 1..], false, outer)
    else s[0] != RBRACE && GroupText(s[1..], false, outer)
  }

  /** Every brace outside of braces opens such a group. */
  predicate Tidy(p: Pattern)
    decreases |p|
  {
    if p == [] then true
    else if p[0] == LBRACE then
      var e := Balance(p, 1, 0);
      e < |p| && GroupText(p[1..e], true, true) && Tidy(p[e + 1..])
    else Tidy(p[1..])
  }

  predicate AltsFit(a: Alts, first: bool, outer: bool) {
    && (if outer && first then First(a.nodes) else Nested(a.nodes))
    && (a.More? ==> if outer then FirstAlts(a.alts) else NestedAlts(a.alts))
  }

  function BracketInFront(b: Pattern, a: Alts): (r: Alts)
    ensures PrintAlts(r) == Bracket(b) + PrintAlts(a)
  {
    match a
    case Last(n) => Last(Brk(b, n))
    case More(n, c) =>
      assert Bracket(b) + (Print(n) + [COMMA] + PrintAlts(c)) == Bracket(b) + Print(n) + [COMMA] + PrintAlts(c);
      More(Brk(b, n), c)
  }

  lemma AltsFitAll(a: Alts, outer: bool)
    requires AltsFit(a, true, outer)
    ensures if outer then FirstAlts(a) else NestedAlts(a)
  {
  }

  lemma BracketSplit(s: Pattern, e: nat)
    requires s != [] && s[0] == OPEN && 1 <= e < |s| && s[e] == CLOSE
    ensures s == Bracket(s[1..e]) + s[e + 1..]
  {
  }

  lemma FrontFits(c: Char, a: Alts, first: bool, outer: bool)
    requires AltsFit(a, false, outer) && c != LBRACE && c != RBRACE && c != COMMA && c != OPEN
    ensures AltsFit(InFront(c, a), first, outer)
  {
  }

  lemma BracketFrontFits(b: Pattern, a: Alts)
    requires AltsFit(a, false, true) && Body(b)
    ensures AltsFit(BracketInFront(b, a), true, true)
  {
  }

  lemma GroupFrontFits(g: Alts, a: Alts, first: bool, outer: bool)
    requires AltsFit(g, true, false) && AltsFit(a, false, outer)
    ensures AltsFit(GroupInFront(g, a), first, outer)
  {
    AltsFitAll(g, false);
  }

  lemma CommaFrontFits(a: Alts, first: bool, outer: bool)
    requires AltsFit(a, true, outer)
    ensures AltsFit(More(End, a), first, outer) && PrintAlts(More(End, a)) == [COMMA] + PrintAlts(a)
  {
    assert [] + [COMMA] + PrintAlts(a) == [COMMA] + PrintAlts(a);
  }

  /** Such text is the text of some alternatives. */
  lemma {:induction false} ParseGroup(s: Pattern, first: bool, outer: bool) returns (a: Alts)
    requires GroupText(s, first, outer)
    ensures AltsFit(a, first, outer) && PrintAlts(a) == s
    decreases |s|
  {
    if s == [] {
      a := Last(End);
      return;
    }
    assert s == [s[0]] + s[1..];
    hide AltsFit, PrintAlts, Find, Balance, Bracket, Body;
    if s[0] == OPEN {
      var e := Find(s, CLOSE, 1);
      var r := ParseGroup(s[e + 1..], false, outer);
      BracketSplit(s, e);
      BracketFrontFits(s[1..e], r);
      a := BracketInFront(s[1..e], r);
    } else if s[0] == LBRACE {
      var e := Balance(s, 1, 0);
      var g := ParseGroup(s[1..e], true, false);
      var r := ParseGroup(s[e + 1..], false, outer);
      GroupSplit(s, e);
      GroupFrontFits(g, r, first, outer);
      a := GroupInFront(g, r);
    } else if s[0] == COMMA {
      var r := ParseGroup(s[1..], true, outer);
      CommaFrontFits(r, first, outer);
      a := More(End, r);
    } else {
      var r := ParseGroup(s[1..], false, outer);
      FrontFits(s[0], r, first, outer);
      a := InFront(s[0], r);
    }
  }

  lemma {:induction false} Parse(p: Pattern) returns (n: Nodes)
    requires Tidy(p)
    ensures Top(n) && Print(n) == p
    decreases |p|
  {
    if p == [] {
      n := End;
    } else if p[0] == LBRACE {
      var e := Balance(p, 1, 0);
      var a := ParseGroup(p[1..e], true, true);
      AltsFitAll(a, true);
      var r := Parse(p[e + 1..]);
      GroupSplit(p, e);
      n := Braces(a, r);
    } else {
      assert p == [p[0]] + p[1..];
      var r := Parse(p[1..]);
      n := Chr(p[0], r);
    }
  }

  // ------------------------------------------------- the text of a tree is tidy

  /** The end of an alternative. */
  predicate AtEnd(v: Pattern) {
    v == [] || v[0] == COMMA
  }

  lemma GroupHere(a: Alts, v: Pattern, s: Pattern, e: nat)
    requires FirstAlts(a) && s == [LBRACE] + PrintAlts(a) + [RBRACE] + v && e == 1 + |PrintAlts(a)|
    ensures e < |s| && Balance(s, 1, 0) == e && s[1..e] == PrintAlts(a) && s[e + 1..] == v
  {
    hide FirstAlts, PrintAlts, Balance, Alternatives, Texts, Find;
    Inner(PrintAlts(a), v);
    assert NoBrace([]) && [] + s == s;
    GroupFound([], a, v, s, e);
  }

  lemma Inner(t: Pattern, v: Pattern)
    ensures ([LBRACE] + t + [RBRACE] + v)[1..1 + |t|] == t
  {
  }

  lemma Concat(a: Pattern, b: Pattern, c: Pattern)
    ensures a + (b + c) == a + b + c
  {
  }

  lemma EndFits(v: Pattern, first: bool, outer: bool)
    requires AtEnd(v) && GroupText(v, false, outer)
    ensures GroupText([] + v, first, outer)
  {
    assert [] + v == v;
  }

  lemma ChrFits(c: Char, v: Pattern, first: bool, outer: bool)
    requires c != OPEN && c != COMMA && c != LBRACE && c != RBRACE && GroupText(v, false, outer)
    ensures GroupText([c] + v, first, outer)
  {
    assert ([c] + v)[1..] == v;
  }

  lemma CommaFits(v: Pattern, outer: bool)
    requires GroupText(v, true, outer)
    ensures GroupText([COMMA] + v, false, outer)
  {
    assert ([COMMA] + v)[1..] == v;
  }

  lemma {:induction false} NodesFit(n: Nodes, v: Pattern, first: bool, outer: bool)
    requires if outer && first then First(n) else Nested(n)
    requires AtEnd(v) && GroupText(v, false, outer)
    ensures GroupText(Print(n) + v, first, outer)
    decreases n
  {
    hide GroupText, Bracket, PrintAlts;
    match n
    case End => EndFits(v, first, outer);
    case Chr(c, r) =>
      NodesFit(r, v, false, outer);
      ChrFits(c, Print(r) + v, first, outer);
      Concat([c], Print(r), v);
    case Brk(b, r) =>
      NodesFit(r, v, false, outer);
      BracketFits(b, Print(r) + v);
      Concat(Bracket(b), Print(r), v);
    case Braces(a, r) =>
      NodesFit(r, v, false, outer);
      AltsFitText(a, false);
      BracesFit(a, Print(r) + v, first, outer);
      Concat([LBRACE] + PrintAlts(a) + [RBRACE], Print(r), v);
  }

  lemma BracketFits(b: Pattern, v: Pattern)
    requires Body(b) && GroupText(v, false, true)
    ensures GroupText(Bracket(b) + v, true, true)
  {
    var s, e := Bracket(b) + v, 1 + |b|;
    assert s[e] == CLOSE && s[1..e] == b && s[e + 1..] == v && forall k :: 1 <= k < e ==> s[k] == b[k - 1];
    FindIs(s, CLOSE, 1, e);
    hide Find;
  }

  lemma BracesFit(a: Alts, v: Pattern, first: bool, outer: bool)
    requires NestedAlts(a) && GroupText(PrintAlts(a), true, false) && GroupText(v, false, outer)
    ensures GroupText([LBRACE] + PrintAlts(a) + [RBRACE] + v, first, outer)
  {
    NestedIsFirst(a);
    GroupHere(a, v, [LBRACE] + PrintAlts(a) + [RBRACE] + v, 1 + |PrintAlts(a)|);
    hide Balance, PrintAlts, NestedAlts, FirstAlts, Find;
  }

  lemma {:induction false} AltsFitText(a: Alts, outer: bool)
    requires if outer then FirstAlts(a) else NestedAlts(a)
    ensures GroupText(PrintAlts(a), true, outer)
    decreases a
  {
    assert GroupText([], false, outer);
    hide GroupText, Print;
    match a
    case Last(n) =>
      NodesFit(n, [], true, outer);
      assert Print(n) + [] == Print(n);
    case More(n, b) =>
      AltsFitText(b, outer);
      CommaFits(PrintAlts(b), outer);
      NodesFit(n, [COMMA] + PrintAlts(b), true, outer);
      Concat(Print(n), [COMMA], PrintAlts(b));
  }

  lemma {:induction false} TidyBehind(w: Pattern, v: Pattern)
    requires NoBrace(w) && Tidy(v)
    ensures Tidy(w + v)
  {
    if w == [] {
      assert w + v == v;
    } else {
      TidyBehind(w[1..], v);
      assert (w + v)[1..] == w[1..] + v;
    }
  }

  lemma {:induction false} TreeIsTidy(n: Nodes)
    requires Top(n)
    ensures Tidy(Print(n))
  {
    match n
    case End =>
    case Chr(c, r) =>
      TreeIsTidy(r);
      TidyBehind([c], Print(r));
    case Brk(b, r) =>
      TreeIsTidy(r);
      TidyBehind(Bracket(b), Print(r));
    case Braces(a, r) =>
      TreeIsTidy(r);
      AltsFitText(a, true);
      GroupHere(a, Print(r), Print(n), 1 + |PrintAlts(a)|);
  }

  // ------------------------------------------------------------ main theorems

  /**
    The texts of trees are the tidy patterns, no more and no fewer; without
    brackets, those in which every opening brace is matched.
   */
  lemma MatchedIsTree(p: Pattern)
    ensures Tidy(p) <==> exists n :: Top(n) && Print(n) == p
    ensures NoOpen(p) ==> (Tidy(p) <==> Depth(p, 0) == 0)
  {
    hide Tidy, Depth, Top, Print;
    if Tidy(p) { var n := Parse(p); }
    forall n | Top(n) && Print(n) == p ensures Tidy(p) { TreeIsTidy(n); }
    if NoOpen(p) {
      if Depth(p, 0) == 0 { var n := ParsePlain(p); }
      forall n | Top(n) && Print(n) == p ensures Depth(p, 0) == 0 { TreeIsMatched(n); }
    }
  }

  /**
    Brace expansion keeps the meaning of every tidy pattern: glob0 is called on
    the csh cross product, in order, but for a bare {}, which stays as it is.
   */
  lemma BraceLaw(p: Pattern) returns (n: Nodes)
    requires Tidy(p)
    ensures Top(n) && Print(n) == p
    ensures Expand(p) == Calls(Choices(n, true)) && Nearly(Choices(n, true), Cross(n))
    ensures Expand(p) == Calls(Cross(n)) <==> !Hollow(n)
  {
    n := Parse(p);
    BraceExpansion(n);
  }
}
