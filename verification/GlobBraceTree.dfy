/**
  The meaning of brace patterns: a pattern whose braces are matched is the
  text of a tree, and stands for the left-to-right cross product of its
  alternatives.  Brackets may occur outside of braces, and at the beginning of
  alternatives that are not inside other braces.
 */
module GlobBraceTree {
  import opened GlobMatch
  import opened GlobBrace

  /**
    A pattern as a list of characters, bracket expressions and brace groups; a
    group has at least one alternative.
   */
  datatype Nodes = End | Chr(c: Char, rest: Nodes) | Brk(body: Pattern, rest: Nodes) | Braces(alts: Alts, rest: Nodes)
  datatype Alts = Last(nodes: Nodes) | More(nodes: Nodes, alts: Alts)

  function Bracket(b: Pattern): Pattern {
    [OPEN] + b + [CLOSE]
  }

  function Print(n: Nodes): Pattern {
    match n
    case End => []
    case Chr(c, r) => [c] + Print(r)
    case Brk(b, r) => Bracket(b) + Print(r)
    case Braces(a, r) => [LBRACE] + PrintAlts(a) + [RBRACE] + Print(r)
  }

  function PrintAlts(a: Alts): Pattern {
    match a
    case Last(n) => Print(n)
    case More(n, b) => Print(n) + [COMMA] + PrintAlts(b)
  }

  /** A bracket expression ends at the first closing bracket; an opening brace in it would count. */
  predicate Body(b: Pattern) {
    forall i :: 0 <= i < |b| ==> b[i] != CLOSE && b[i] != LBRACE
  }

  /** Inside braces, braces and commas are never plain text, and there are no brackets ... */
  predicate Nested(n: Nodes) {
    match n
    case End => true
    case Chr(c, r) => c != LBRACE && c != RBRACE && c != COMMA && c != OPEN && Nested(r)
    case Brk(_, _) => false
    case Braces(a, r) => NestedAlts(a) && Nested(r)
  }

  predicate NestedAlts(a: Alts) {
    match a
    case Last(n) => Nested(n)
    case More(n, b) => Nested(n) && NestedAlts(b)
  }

  /** ... except at the beginning of an alternative of an outermost group. */
  predicate First(n: Nodes) {
    if n.Brk? then Body(n.body) && Nested(n.rest) else Nested(n)
  }

  predicate FirstAlts(a: Alts) {
    match a
    case Last(n) => First(n)
    case More(n, b) => First(n) && FirstAlts(b)
  }

  lemma RestIsFirst(n: Nodes)
    requires First(n) && !n.End?
    ensures Nested(n.rest) && First(n.rest)
    ensures n.Braces? ==> FirstAlts(n.alts)
  {
    if n.Braces? { NestedIsFirst(n.alts); }
  }

  lemma {:induction false} NestedIsFirst(a: Alts)
    requires NestedAlts(a)
    ensures FirstAlts(a)
  {
    if a.More? { NestedIsFirst(a.alts); }
  }

  /** Outside of braces, everything but an opening brace is plain text. */
  predicate Top(n: Nodes) {
    match n
    case End => true
    case Chr(c, r) => c != LBRACE && Top(r)
    case Brk(b, r) => Body(b) && Top(r)
    case Braces(a, r) => FirstAlts(a) && Top(r)
  }

  function Append(n: Nodes, m: Nodes): (r: Nodes)
    ensures Print(r) == Print(n) + Print(m)
  {
    match n
    case End => m
    case Chr(c, r) =>
      assert [c] + (Print(r) + Print(m)) == [c] + Print(r) + Print(m);
      Chr(c, Append(r, m))
    case Brk(b, r) =>
      assert Bracket(b) + (Print(r) + Print(m)) == Bracket(b) + Print(r) + Print(m);
      Brk(b, Append(r, m))
    case Braces(a, r) =>
      var h := [LBRACE] + PrintAlts(a) + [RBRACE];
      assert h + (Print(r) + Print(m)) == h + Print(r) + Print(m);
      Braces(a, Append(r, m))
  }

  lemma {:induction false} AppendTop(n: Nodes, m: Nodes)
    requires First(n) && Top(m)
    ensures Top(Append(n, m))
  {
    if !n.End? {
      RestIsFirst(n);
      AppendTop(n.rest, m);
    }
  }

  // ------------------------------------------------------ lists of expansions

  /** Each of ss with w in front. */
  function Prefix(w: Pattern, ss: seq<Pattern>): (r: seq<Pattern>)
    ensures |r| == |ss|
  {
    if ss == [] then [] else [w + ss[0]] + Prefix(w, ss[1..])
  }

  function Calls(ss: seq<Pattern>): seq<Call> {
    if ss == [] then [] else [Glob(ss[0])] + Calls(ss[1..])
  }

  /** Every x followed by every y, the x varying slowest. */
  function Product(xs: seq<Pattern>, ys: seq<Pattern>): seq<Pattern> {
    if xs == [] then [] else Prefix(xs[0], ys) + Product(xs[1..], ys)
  }

  /** The csh meaning: {1,2}{a,b} is 1a 1b 2a 2b. */
  function Cross(n: Nodes): seq<Pattern> {
    match n
    case End => [[]]
    case Chr(c, r) => Prefix([c], Cross(r))
    case Brk(b, r) => Prefix(Bracket(b), Cross(r))
    case Braces(a, r) => Product(CrossAlts(a), Cross(r))
  }

  function CrossAlts(a: Alts): seq<Pattern> {
    match a
    case Last(n) => Cross(n)
    case More(n, b) => Cross(n) + CrossAlts(b)
  }

  const HOLLOW_TREE: Nodes := Braces(Last(End), End)

  /**
    Expanding the first group again and again, and leaving a whole pattern {}
    alone; bare says that no character comes before n.
   */
  function Choices(n: Nodes, bare: bool): seq<Pattern>
    decreases |Print(n)|
  {
    match n
    case End => [[]]
    case Chr(c, r) => Prefix([c], Choices(r, false))
    case Brk(b, r) => Prefix(Bracket(b), Choices(r, false))
    case Braces(a, r) => if bare && n == HOLLOW_TREE then [HOLLOW] else ChoicesAlts(a, r, bare)
  }

  function ChoicesAlts(a: Alts, r: Nodes, bare: bool): seq<Pattern>
    decreases |PrintAlts(a)| + |Print(r)| + 1
  {
    match a
    case Last(n) => Choices(Append(n, r), bare)
    case More(n, b) => Choices(Append(n, r), bare) + ChoicesAlts(b, r, bare)
  }

  // ---------------------------------------------------------- laws of the lists

  lemma {:induction false} PrefixConcat(w: Pattern, ss: seq<Pattern>, ts: seq<Pattern>)
    ensures Prefix(w, ss + ts) == Prefix(w, ss) + Prefix(w, ts)
  {
    if ss == [] {
      assert ss + ts == ts;
    } else {
      PrefixConcat(w, ss[1..], ts);
      assert (ss + ts)[1..] == ss[1..] + ts && (ss + ts)[0] == ss[0];
      assert Prefix(w, ss + ts) == [w + ss[0]] + Prefix(w, ss[1..] + ts);
      assert Prefix(w, ss) == [w + ss[0]] + Prefix(w, ss[1..]);
      hide Prefix;
      Associate([w + ss[0]], Prefix(w, ss[1..]), Prefix(w, ts));
    }
  }

  lemma {:induction false} PrefixPrefix(u: Pattern, v: Pattern, ss: seq<Pattern>)
    ensures Prefix(u, Prefix(v, ss)) == Prefix(u + v, ss)
  {
    if ss != [] {
      PrefixPrefix(u, v, ss[1..]);
      assert Prefix(v, ss)[1..] == Prefix(v, ss[1..]);
      assert u + (v + ss[0]) == u + v + ss[0];
    }
  }

  lemma {:induction false} PrefixEmpty(ss: seq<Pattern>)
    ensures Prefix([], ss) == ss
  {
    if ss != [] {
      PrefixEmpty(ss[1..]);
      assert [] + ss[0] == ss[0];
    }
  }

  lemma PrefixUnit(w: Pattern)
    ensures Prefix(w, [[]]) == [w]
  {
    assert w + [] == w;
  }

  lemma Associate(xs: seq<Pattern>, ys: seq<Pattern>, zs: seq<Pattern>)
    ensures xs + (ys + zs) == xs + ys + zs
  {
  }

  lemma {:induction false} ProductConcat(xs: seq<Pattern>, ys: seq<Pattern>, zs: seq<Pattern>)
    ensures Product(xs + ys, zs) == Product(xs, zs) + Product(ys, zs)
  {
    if xs == [] {
      assert xs + ys == ys;
    } else {
      ProductConcat(xs[1..], ys, zs);
      assert (xs + ys)[1..] == xs[1..] + ys && (xs + ys)[0] == xs[0];
      assert Product(xs + ys, zs) == Prefix(xs[0], zs) + Product(xs[1..] + ys, zs);
      hide Product, Prefix;
      Associate(Prefix(xs[0], zs), Product(xs[1..], zs), Product(ys, zs));
    }
  }

  lemma {:induction false} ProductPrefix(w: Pattern, xs: seq<Pattern>, ys: seq<Pattern>)
    ensures Product(Prefix(w, xs), ys) == Prefix(w, Product(xs, ys))
  {
    if xs != [] {
      var p := Prefix(w, xs);
      assert p[0] == w + xs[0] && p[1..] == Prefix(w, xs[1..]);
      ProductPrefix(w, xs[1..], ys);
      PrefixPrefix(w, xs[0], ys);
      PrefixConcat(w, Prefix(xs[0], ys), Product(xs[1..], ys));
    }
  }

  lemma {:induction false} ProductAssoc(xs: seq<Pattern>, ys: seq<Pattern>, zs: seq<Pattern>)
    ensures Product(Product(xs, ys), zs) == Product(xs, Product(ys, zs))
  {
    if xs != [] {
      ProductAssoc(xs[1..], ys, zs);
      ProductConcat(Prefix(xs[0], ys), Product(xs[1..], ys), zs);
      ProductPrefix(xs[0], ys, zs);
    }
  }

  lemma {:induction false} CrossAppend(n: Nodes, m: Nodes)
    ensures Cross(Append(n, m)) == Product(Cross(n), Cross(m))
  {
    match n
    case End =>
      PrefixEmpty(Cross(m));
      assert Product([[]], Cross(m)) == Prefix([], Cross(m)) + [];
    case Chr(c, r) =>
      CrossAppend(r, m);
      ProductPrefix([c], Cross(r), Cross(m));
    case Brk(b, r) =>
      CrossAppend(r, m);
      ProductPrefix(Bracket(b), Cross(r), Cross(m));
    case Braces(a, r) =>
      CrossAppend(r, m);
      ProductAssoc(CrossAlts(a), Cross(r), Cross(m));
  }

  /** Behind a character, expanding group by group gives the cross product. */
  lemma {:induction false} ChoicesAreCross(n: Nodes)
    ensures Choices(n, false) == Cross(n)
    decreases |Print(n)|
  {
    match n
    case End =>
    case Chr(_, r) => ChoicesAreCross(r);
    case Brk(_, r) => ChoicesAreCross(r);
    case Braces(a, r) => ChoicesAltsAreCross(a, r);
  }

  lemma {:induction false} ChoicesAltsAreCross(a: Alts, r: Nodes)
    ensures ChoicesAlts(a, r, false) == Product(CrossAlts(a), Cross(r))
    decreases |PrintAlts(a)| + |Print(r)| + 1
  {
    match a
    case Last(n) =>
      ChoicesAreCross(Append(n, r));
      CrossAppend(n, r);
    case More(n, b) =>
      ChoicesAreCross(Append(n, r));
      CrossAppend(n, r);
      ChoicesAltsAreCross(b, r);
      ProductConcat(Cross(n), CrossAlts(b), Cross(r));
  }

  // ---------------------------------------------------- the exception for {}

  /** Some choice of alternatives leaves nothing at all. */
  predicate Vanishes(n: Nodes) {
    match n
    case End => true
    case Chr(_, _) => false
    case Brk(_, _) => false
    case Braces(a, r) => VanishesAlts(a) && Vanishes(r)
  }

  predicate VanishesAlts(a: Alts) {
    match a
    case Last(n) => Vanishes(n)
    case More(n, b) => Vanishes(n) || VanishesAlts(b)
  }

  /** Some choice of alternatives leaves exactly {}. */
  predicate Hollow(n: Nodes) {
    match n
    case End => false
    case Chr(_, _) => false
    case Brk(_, _) => false
    case Braces(a, r) =>
      if r.End? then a == Last(End) || HollowAlts(a) else VanishesAlts(a) && Hollow(r)
  }

  predicate HollowAlts(a: Alts) {
    match a
    case Last(n) => Hollow(n)
    case More(n, b) => Hollow(n) || HollowAlts(b)
  }

  lemma {:induction false} HollowAppend(n: Nodes, m: Nodes)
    ensures Hollow(Append(n, m)) <==> if m.End? then Hollow(n) else Vanishes(n) && Hollow(m)
    ensures Append(n, m).End? <==> n.End? && m.End?
  {
    match n
    case End =>
    case Chr(_, _) =>
    case Brk(_, _) =>
    case Braces(a, r) => HollowAppend(r, m);
  }

  /** xs is ys, but for some empty patterns that came out as {}. */
  ghost predicate Nearly(xs: seq<Pattern>, ys: seq<Pattern>) {
    |xs| == |ys| && forall i :: 0 <= i < |xs| ==> xs[i] == ys[i] || (xs[i] == HOLLOW && ys[i] == [])
  }

  lemma NearlyConcat(xs: seq<Pattern>, ys: seq<Pattern>, us: seq<Pattern>, vs: seq<Pattern>)
    requires Nearly(xs, ys) && Nearly(us, vs)
    ensures Nearly(xs + us, ys + vs)
    ensures xs + us == ys + vs <==> xs == ys && us == vs
  {
    if xs + us == ys + vs {
      assert xs == (xs + us)[..|xs|] && us == (xs + us)[|xs|..];
      assert ys == (ys + vs)[..|xs|] && vs == (ys + vs)[|xs|..];
    }
  }

  /**
    For a whole pattern the expansion is the cross product except that an
    empty result may come out as {}, and it is the cross product exactly when
    no choice of alternatives leaves a bare {}.
   */
  lemma {:induction false} ChoicesNearlyCross(n: Nodes)
    ensures Nearly(Choices(n, true), Cross(n))
    ensures Choices(n, true) == Cross(n) <==> !Hollow(n)
    decreases |Print(n)|
  {
    match n
    case End =>
    case Chr(_, r) => ChoicesAreCross(r);
    case Brk(_, r) => ChoicesAreCross(r);
    case Braces(a, r) =>
      if n == HOLLOW_TREE {
        assert Cross(n) == [[]] by { assert Product([[]], [[]]) == Prefix([], [[]]) + []; PrefixEmpty([[]]); }
        assert [HOLLOW][0] != [[]][0];
      } else {
        ChoicesAltsNearlyCross(a, r);
      }
  }

  lemma {:induction false} ChoicesAltsNearlyCross(a: Alts, r: Nodes)
    ensures Nearly(ChoicesAlts(a, r, true), Product(CrossAlts(a), Cross(r)))
    ensures ChoicesAlts(a, r, true) == Product(CrossAlts(a), Cross(r))
            <==> !if r.End? then HollowAlts(a) else VanishesAlts(a) && Hollow(r)
    decreases |PrintAlts(a)| + |Print(r)| + 1
  {
    match a
    case Last(n) =>
      ChoicesNearlyCross(Append(n, r));
      CrossAppend(n, r);
      HollowAppend(n, r);
    case More(n, b) =>
      ChoicesNearlyCross(Append(n, r));
      CrossAppend(n, r);
      HollowAppend(n, r);
      ChoicesAltsNearlyCross(b, r);
      ProductConcat(Cross(n), CrossAlts(b), Cross(r));
      NearlyConcat(Choices(Append(n, r), true), Product(Cross(n), Cross(r)),
                   ChoicesAlts(b, r, true), Product(CrossAlts(b), Cross(r)));
  }

  // ------------------------------------------------ scanning the text of a tree

  /** Three ways to cut a text with a group in the middle. */
  lemma Regroup(u: Pattern, a: Pattern, r: Pattern, v: Pattern)
    ensures u + ([LBRACE] + a + [RBRACE] + r) + v == (u + [LBRACE]) + a + ([RBRACE] + r + v)
    ensures u + ([LBRACE] + a + [RBRACE] + r) + v == (u + [LBRACE] + a + [RBRACE]) + r + v
  {
  }

  lemma RegroupMore(u: Pattern, n: Pattern, b: Pattern, v: Pattern)
    ensures u + (n + [COMMA] + b) + v == u + n + ([COMMA] + b + v)
    ensures u + (n + [COMMA] + b) + v == (u + n + [COMMA]) + b + v
  {
  }

  lemma BalanceStep(p: Pattern, i: nat, depth: nat)
    requires i < |p| && p[i] != OPEN
    ensures Balance(p, i, depth) == if p[i] == LBRACE then Balance(p, i + 1, depth + 1)
                                    else if p[i] != RBRACE then Balance(p, i + 1, depth)
                                    else if depth == 0 then i else Balance(p, i + 1, depth - 1)
  {
  }

  lemma AlternativesStep(p: Pattern, pl: nat, pm: nat, e: nat, depth: nat)
    requires pl <= pm <= e < |p| && p[pm] != OPEN
    requires p[pm] == COMMA || p[pm] == RBRACE ==> depth > 0
    ensures Alternatives(p, pl, pm, e, depth)
            == Alternatives(p, pl, pm + 1, e, if p[pm] == LBRACE then depth + 1
                                             else if p[pm] == RBRACE then depth - 1 else depth)
  {
  }

  /** The scanners pass over a bracket expression as a whole. */
  lemma SkipOver(u: Pattern, b: Pattern, v: Pattern)
    requires Body(b)
    ensures SkipBracket(u + Bracket(b) + v, |u|) == |u| + |Bracket(b)|
    ensures (u + Bracket(b) + v)[|u|] == OPEN
  {
    var p := u + Bracket(b) + v;
    assert forall i :: 0 <= i < |b| ==> p[|u| + 1 + i] == b[i];
    assert p[|u| + 1 + |b|] == CLOSE;
    FindIs(p, CLOSE, |u| + 1, |u| + 1 + |b|);
  }

  lemma {:induction false} FindIs(p: Pattern, c: int, i: nat, j: nat)
    requires i <= j < |p| && p[j] == c && forall k :: i <= k < j ==> p[k] != c
    ensures Find(p, c, i) == j
    decreases j - i
  {
    if i < j { FindIs(p, c, i + 1, j); }
  }

  lemma BalanceSkip(p: Pattern, i: nat, depth: nat)
    requires i < |p| && p[i] == OPEN
    ensures Balance(p, i, depth) == Balance(p, SkipBracket(p, i), depth)
  {
  }

  lemma AlternativesSkip(p: Pattern, pm: nat, e: nat, depth: nat)
    requires pm <= e < |p| && p[pm] == OPEN
    ensures Alternatives(p, pm, pm, e, depth) == Alternatives(p, pm, SkipBracket(p, pm), e, depth)
  {
  }

  lemma RegroupBracket(u: Pattern, b: Pattern, r: Pattern, v: Pattern)
    ensures u + (b + r) + v == (u + b) + r + v == u + b + (r + v)
  {
  }

  /** Looking for the balancing brace passes over the text t between u and v. */
  predicate Passes(u: Pattern, t: Pattern, v: Pattern, depth: nat) {
    var p := u + t + v;
    Balance(p, |u|, depth) == Balance(p, |u| + |t|, depth)
  }

  lemma PassChr(u: Pattern, c: Char, r: Pattern, v: Pattern, depth: nat)
    requires c != LBRACE && c != RBRACE && c != OPEN && Passes(u + [c], r, v, depth)
    ensures Passes(u, [c] + r, v, depth)
  {
    hide Balance;
    RegroupBracket(u, [c], r, v);
    BalanceStep(u + ([c] + r) + v, |u|, depth);
  }

  lemma PassBrk(u: Pattern, b: Pattern, r: Pattern, v: Pattern, depth: nat)
    requires Body(b) && Passes(u + Bracket(b), r, v, depth)
    ensures Passes(u, Bracket(b) + r, v, depth)
  {
    hide Balance, SkipBracket, Bracket;
    RegroupBracket(u, Bracket(b), r, v);
    SkipOver(u, b, r + v);
    BalanceSkip(u + Bracket(b) + (r + v), |u|, depth);
  }

  lemma PassBraces(u: Pattern, a: Pattern, r: Pattern, v: Pattern, depth: nat)
    requires Passes(u + [LBRACE], a, [RBRACE] + r + v, depth + 1)
    requires Passes(u + [LBRACE] + a + [RBRACE], r, v, depth)
    ensures Passes(u, [LBRACE] + a + [RBRACE] + r, v, depth)
  {
    hide Balance;
    Regroup(u, a, r, v);
    var p := u + ([LBRACE] + a + [RBRACE] + r) + v;
    BalanceStep(p, |u|, depth);
    BalanceStep(p, |u| + 1 + |a|, depth + 1);
  }

  lemma PassMore(u: Pattern, n: Pattern, b: Pattern, v: Pattern, depth: nat)
    requires Passes(u, n, [COMMA] + b + v, depth) && Passes(u + n + [COMMA], b, v, depth)
    ensures Passes(u, n + [COMMA] + b, v, depth)
  {
    hide Balance;
    RegroupMore(u, n, b, v);
    BalanceStep(u + (n + [COMMA] + b) + v, |u| + |n|, depth);
  }

  lemma {:induction false} BalanceOver(u: Pattern, n: Nodes, v: Pattern, depth: nat)
    requires First(n)
    ensures Passes(u, Print(n), v, depth)
    decreases n
  {
    if n.End? {
    } else {
      RestIsFirst(n);
      hide Passes, Bracket, PrintAlts;
      match n
      case Chr(c, r) =>
        BalanceOver(u + [c], r, v, depth);
        PassChr(u, c, Print(r), v, depth);
      case Brk(b, r) =>
        BalanceOver(u + Bracket(b), r, v, depth);
        PassBrk(u, b, Print(r), v, depth);
      case Braces(a, r) =>
        BalanceOverAlts(u + [LBRACE], a, [RBRACE] + Print(r) + v, depth + 1);
        BalanceOver(u + [LBRACE] + PrintAlts(a) + [RBRACE], r, v, depth);
        PassBraces(u, PrintAlts(a), Print(r), v, depth);
    }
  }

  lemma {:induction false} BalanceOverAlts(u: Pattern, a: Alts, v: Pattern, depth: nat)
    requires FirstAlts(a)
    ensures Passes(u, PrintAlts(a), v, depth)
    decreases a
  {
    hide Passes, Print, First;
    match a
    case Last(n) => BalanceOver(u, n, v, depth);
    case More(n, b) =>
      BalanceOver(u, n, [COMMA] + PrintAlts(b) + v, depth);
      BalanceOverAlts(u + Print(n) + [COMMA], b, v, depth);
      PassMore(u, Print(n), PrintAlts(b), v, depth);
  }

  /** Collecting alternatives passes over the text of nodes, too. */
  lemma {:induction false} AlternativesOver(u: Pattern, n: Nodes, v: Pattern, pl: nat, e: nat, depth: nat)
    requires Nested(n) && pl <= |u| && |u| + |Print(n)| <= e < |u + Print(n) + v|
    ensures var p := u + Print(n) + v;
            Alternatives(p, pl, |u|, e, depth) == Alternatives(p, pl, |u| + |Print(n)|, e, depth)
    decreases n
  {
    hide Alternatives;
    var p := u + Print(n) + v;
    match n
    case End =>
    case Chr(c, r) =>
      assert p == (u + [c]) + Print(r) + v;
      AlternativesStep(p, pl, |u|, e, depth);
      AlternativesOver(u + [c], r, v, pl, e, depth);
    case Braces(a, r) =>
      var t := u + [LBRACE];
      var w := t + PrintAlts(a) + [RBRACE];
      Regroup(u, PrintAlts(a), Print(r), v);
      AlternativesOverAlts(t, a, [RBRACE] + Print(r) + v, pl, e, depth + 1);
      AlternativesStep(p, pl, |u|, e, depth);
      AlternativesStep(p, pl, |w| - 1, e, depth + 1);
      AlternativesOver(w, r, v, pl, e, depth);
  }

  lemma {:induction false} AlternativesOverAlts(u: Pattern, a: Alts, v: Pattern, pl: nat, e: nat, depth: nat)
    requires NestedAlts(a) && depth > 0 && pl <= |u| && |u| + |PrintAlts(a)| <= e < |u + PrintAlts(a) + v|
    ensures var p := u + PrintAlts(a) + v;
            Alternatives(p, pl, |u|, e, depth) == Alternatives(p, pl, |u| + |PrintAlts(a)|, e, depth)
    decreases a
  {
    hide Alternatives;
    var p := u + PrintAlts(a) + v;
    match a
    case Last(n) => AlternativesOver(u, n, v, pl, e, depth);
    case More(n, b) =>
      var t := u + Print(n) + [COMMA];
      RegroupMore(u, Print(n), PrintAlts(b), v);
      AlternativesOver(u, n, [COMMA] + PrintAlts(b) + v, pl, e, depth);
      AlternativesStep(p, pl, |t| - 1, e, depth);
      AlternativesOverAlts(t, b, v, pl, e, depth);
  }

  /** The same for an alternative that may begin with a bracket expression. */
  lemma AlternativesFirst(u: Pattern, n: Nodes, v: Pattern, e: nat)
    requires First(n) && |u| + |Print(n)| <= e < |u + Print(n) + v|
    ensures var p := u + Print(n) + v;
            Alternatives(p, |u|, |u|, e, 0) == Alternatives(p, |u|, |u| + |Print(n)|, e, 0)
  {
    if n.Brk? {
      var b, r := n.body, n.rest;
      assert Print(n) == Bracket(b) + Print(r);
      hide Alternatives, SkipBracket, Bracket, Print;
      RegroupBracket(u, Bracket(b), Print(r), v);
      SkipOver(u, b, Print(r) + v);
      AlternativesSkip(u + Print(n) + v, |u|, e, 0);
      AlternativesOver(u + Bracket(b), r, v, |u|, e, 0);
    } else {
      AlternativesOver(u, n, v, |u|, e, 0);
    }
  }

  function Texts(a: Alts): (r: seq<Pattern>)
    ensures forall i :: 0 <= i < |r| ==> |r[i]| <= |PrintAlts(a)|
  {
    match a
    case Last(n) => [Print(n)]
    case More(n, b) => [Print(n)] + Texts(b)
  }

  lemma AlternativesEmit(p: Pattern, pl: nat, pm: nat, e: nat)
    requires pl <= pm <= e < |p| && (p[pm] == COMMA || p[pm] == RBRACE)
    ensures Alternatives(p, pl, pm, e, 0) == [p[pl..pm]] + Alternatives(p, pm + 1, pm + 1, e, 0)
    ensures Alternatives(p, e + 1, e + 1, e, 0) == []
  {
  }

  /** The alternatives found in a group are those it was printed from. */
  lemma {:induction false} AlternativesOf(u: Pattern, a: Alts, v: Pattern)
    requires FirstAlts(a)
    ensures var p := u + PrintAlts(a) + ([RBRACE] + v);
            Alternatives(p, |u|, |u|, |u| + |PrintAlts(a)|, 0) == Texts(a)
    decreases a
  {
    hide Alternatives;
    var w := [RBRACE] + v;
    var p := u + PrintAlts(a) + w;
    var e := |u| + |PrintAlts(a)|;
    assert p[e] == RBRACE;
    match a
    case Last(n) =>
      AlternativesFirst(u, n, w, e);
      AlternativesEmit(p, |u|, e, e);
      assert p[|u|..e] == Print(n);
    case More(n, b) =>
      var t := u + Print(n) + [COMMA];
      RegroupMore(u, Print(n), PrintAlts(b), w);
      AlternativesFirst(u, n, [COMMA] + PrintAlts(b) + w, e);
      AlternativesEmit(p, |u|, |t| - 1, e);
      assert p[|u|..|t| - 1] == Print(n);
      AlternativesOf(t, b, v);
  }

  // ------------------------------------------------------------ main theorem

  lemma {:induction false} CallsConcat(xs: seq<Pattern>, ys: seq<Pattern>)
    ensures Calls(xs + ys) == Calls(xs) + Calls(ys)
  {
    if xs == [] {
      assert xs + ys == ys;
    } else {
      CallsConcat(xs[1..], ys);
      assert (xs + ys)[1..] == xs[1..] + ys;
    }
  }

  predicate NoBrace(w: Pattern) {
    forall i :: 0 <= i < |w| ==> w[i] != LBRACE
  }

  lemma {:induction false} FindBehind(w: Pattern, v: Pattern, i: nat)
    requires NoBrace(w) && i <= |w|
    ensures Find(w + v, LBRACE, i) == Find(w + v, LBRACE, |w|)
    decreases |w| - i
  {
    if i < |w| { FindBehind(w, v, i + 1); }
  }

  /** Text w, followed by the text of n: glob0 is called on exactly the choices, in order. */
  lemma {:induction false} ExpandIsChoices(w: Pattern, n: Nodes)
    requires NoBrace(w) && Top(n)
    ensures Expand(w + Print(n)) == Calls(Prefix(w, Choices(n, w == [])))
    decreases |Print(n)|, 1
  {
    var p := w + Print(n);
    FindBehind(w, Print(n), 0);
    match n
    case End =>
      assert p == w;
      PrefixUnit(w);
    case Chr(c, r) =>
      assert p == (w + [c]) + Print(r);
      ExpandIsChoices(w + [c], r);
      PrefixPrefix(w, [c], Choices(r, false));
    case Brk(b, r) =>
      assert p == (w + Bracket(b)) + Print(r);
      ExpandIsChoices(w + Bracket(b), r);
      PrefixPrefix(w, Bracket(b), Choices(r, false));
    case Braces(a, r) =>
      if w == [] && n == HOLLOW_TREE {
        assert p == HOLLOW;
        PrefixEmpty([HOLLOW]);
      } else {
        ExpandGroup(w, a, r);
      }
  }

  lemma FindHere(p: Pattern, i: nat)
    requires i < |p| && p[i] == LBRACE
    ensures Find(p, LBRACE, i) == i
  {
  }

  lemma ExpandFirst(p: Pattern, i: nat, e: nat)
    requires p != HOLLOW && Find(p, LBRACE, 0) == i < |p| && Balance(p, i + 1, 0) == e < |p|
    ensures Expand(p) == ExpandEach(p, i, e, Alternatives(p, i + 1, i + 1, e, 0))
  {
  }

  lemma GroupIsHollow(w: Pattern, a: Alts, r: Nodes)
    requires w + Print(Braces(a, r)) == HOLLOW
    ensures w == [] && Braces(a, r) == HOLLOW_TREE
  {
    assert |PrintAlts(a)| == 0 && |Print(r)| == 0;
  }

  /** Where the scanners find the first group and its alternatives. */
  lemma GroupFound(w: Pattern, a: Alts, r: Pattern, p: Pattern, e: nat)
    requires NoBrace(w) && FirstAlts(a) && p == w + ([LBRACE] + PrintAlts(a) + [RBRACE] + r)
    requires e == |w| + 1 + |PrintAlts(a)|
    ensures |w| < e < |p| && p[..|w|] == w && p[e + 1..] == r
    ensures Find(p, LBRACE, 0) == |w| && Balance(p, |w| + 1, 0) == e
    ensures Alternatives(p, |w| + 1, |w| + 1, e, 0) == Texts(a)
  {
    hide Balance, Alternatives, PrintAlts, Texts, FirstAlts;
    var t, v := w + [LBRACE], [RBRACE] + r;
    assert p == t + PrintAlts(a) + v;
    assert p == w + ([LBRACE] + PrintAlts(a) + [RBRACE] + r);
    FindBehind(w, [LBRACE] + PrintAlts(a) + [RBRACE] + r, 0);
    FindHere(p, |w|);
    BalanceOverAlts(t, a, v, 0);
    assert Passes(t, PrintAlts(a), v, 0);
    BalanceStep(p, e, 0);
    AlternativesOf(t, a, r);
  }

  lemma {:induction false} ExpandGroup(w: Pattern, a: Alts, r: Nodes)
    requires NoBrace(w) && FirstAlts(a) && Top(r) && !(w == [] && Braces(a, r) == HOLLOW_TREE)
    ensures Expand(w + Print(Braces(a, r))) == Calls(Prefix(w, ChoicesAlts(a, r, w == [])))
    decreases |PrintAlts(a)| + |Print(r)| + 1, 2
  {
    var p, e := w + Print(Braces(a, r)), |w| + 1 + |PrintAlts(a)|;
    assert p == w + ([LBRACE] + PrintAlts(a) + [RBRACE] + Print(r));
    if p == HOLLOW { GroupIsHollow(w, a, r); }
    hide Find, Balance, Alternatives, Expand, ExpandEach, Print, PrintAlts, Calls, Prefix, ChoicesAlts, Texts, NoBrace;
    GroupFound(w, a, Print(r), p, e);
    ExpandFirst(p, |w|, e);
    ExpandAlts(w, a, r, p, e);
  }

  lemma {:induction false} ExpandAlts(w: Pattern, a: Alts, r: Nodes, p: Pattern, e: nat)
    requires NoBrace(w) && FirstAlts(a) && Top(r)
    requires |w| < e < |p| && |PrintAlts(a)| <= e - |w| - 1 && p[..|w|] == w && p[e + 1..] == Print(r)
    ensures ExpandEach(p, |w|, e, Texts(a)) == Calls(Prefix(w, ChoicesAlts(a, r, w == [])))
    decreases |PrintAlts(a)| + |Print(r)| + 1, 0
  {
    hide Expand, ExpandEach, Calls, Prefix, Choices, Print, Append, Top, First, NoBrace;
    var n := a.nodes;
    AppendTop(n, r);
    ExpandIsChoices(w, Append(n, r));
    assert w + Print(n) + Print(r) == w + (Print(n) + Print(r));
    match a
    case Last(_) =>
      assert [Print(n)] + [] == [Print(n)];
      EachFirst(p, |w|, e, Print(n), []);
      EachNone(p, |w|, e);
    case More(_, b) =>
      ExpandAlts(w, b, r, p, e);
      EachFirst(p, |w|, e, Print(n), Texts(b));
      PrefixConcat(w, Choices(Append(n, r), w == []), ChoicesAlts(b, r, w == []));
      CallsConcat(Prefix(w, Choices(Append(n, r), w == [])), Prefix(w, ChoicesAlts(b, r, w == [])));
  }

  /** The whole of globexp1: the csh cross product exactly when no bare {} can arise. */
  lemma BraceExpansion(n: Nodes)
    requires Top(n)
    ensures Expand(Print(n)) == Calls(Choices(n, true))
    ensures Nearly(Choices(n, true), Cross(n))
    ensures !Hollow(n) <==> Expand(Print(n)) == Calls(Cross(n))
  {
    ExpandIsChoices([], n);
    assert [] + Print(n) == Print(n);
    PrefixEmpty(Choices(n, true));
    ChoicesNearlyCross(n);
    if Calls(Choices(n, true)) == Calls(Cross(n)) { CallsInjective(Choices(n, true), Cross(n)); }
  }

  const SAMPLE_TREE: Nodes := Braces(More(End, Last(Chr(120, End))), HOLLOW_TREE)

  lemma SampleChoices()
    ensures Choices(SAMPLE_TREE, true) == [HOLLOW, [120]] && Cross(SAMPLE_TREE) == [[], [120]]
  {
    var x := Chr(120, HOLLOW_TREE);
    assert Append(End, HOLLOW_TREE) == HOLLOW_TREE && Append(Chr(120, End), HOLLOW_TREE) == x;
    assert Choices(HOLLOW_TREE, false) == ChoicesAlts(Last(End), End, false);
    assert ChoicesAlts(Last(End), End, false) == Choices(Append(End, End), false) == [[]];
    PrefixUnit([120]);
    assert Choices(x, true) == Prefix([120], Choices(HOLLOW_TREE, false));
    assert Choices(HOLLOW_TREE, true) == [HOLLOW];
    var n := SAMPLE_TREE;
    assert Choices(n, true) == ChoicesAlts(n.alts, n.rest, true) == [HOLLOW] + [[120]];
    PrefixEmpty([[]]);
    assert Cross(HOLLOW_TREE) == Product([[]], [[]]) == Prefix([], [[]]) + [] == [[]];
    assert Cross(Chr(120, End)) == [[120]];
    assert CrossAlts(n.alts) == [[]] + [[120]];
    ProductConcat([[]], [[120]], [[]]);
    assert Product([[]], [[]]) == [[]];
    assert Product([[120]], [[]]) == Prefix([120], [[]]) + [];
  }

  /** {,x}{} is expanded to {} and x, not to the empty pattern and x. */
  lemma HollowExample(p: Pattern)
    requires p == [123, 44, 120, 125, 123, 125]
    ensures Expand(p) == [Glob([123, 125]), Glob([120])]
    ensures Print(SAMPLE_TREE) == p && Cross(SAMPLE_TREE) == [[], [120]]
  {
    SampleText();
    SampleChoices();
    BraceExpansion(SAMPLE_TREE);
    hide Expand, Choices, Cross, Print;
    var ss: seq<Pattern> := [HOLLOW, [120]];
    assert ss[1..] == [[120]] && ss[1..][1..] == [];
    assert Calls(ss[1..]) == [Glob([120])] + Calls([]);
    assert Calls(ss) == [Glob(HOLLOW)] + Calls(ss[1..]);
  }

  lemma SampleText()
    ensures Print(SAMPLE_TREE) == [LBRACE, COMMA, 120, RBRACE, LBRACE, RBRACE] && Top(SAMPLE_TREE)
  {
    assert Print(Chr(120, End)) == [120];
    assert PrintAlts(SAMPLE_TREE.alts) == [] + [COMMA] + [120];
    assert Print(HOLLOW_TREE) == [LBRACE] + [] + [RBRACE] + [];
  }

  lemma {:induction false} CallsInjective(xs: seq<Pattern>, ys: seq<Pattern>)
    requires Calls(xs) == Calls(ys) && |xs| == |ys|
    ensures xs == ys
  {
    if xs != [] {
      assert Calls(xs)[0] == Calls(ys)[0] && Calls(xs)[1..] == Calls(ys)[1..];
      assert Calls(xs)[1..] == Calls(xs[1..]) && Calls(ys)[1..] == Calls(ys[1..]);
      CallsInjective(xs[1..], ys[1..]);
    }
  }
}
