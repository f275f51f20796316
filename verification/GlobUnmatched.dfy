/**
  Where brace expansion goes wrong: with an unmatched brace globexp2 globs a
  buffer it never terminated, and a bracket inside braces makes it drop the
  text of the alternative in front of it.
 */
module GlobUnmatched {
  import opened GlobMatch
  import opened GlobBrace
  import opened GlobBraceTree

  /** Braces still open after s when d were open before; stray closing braces count for nothing. */
  function Depth(s: Pattern, d: nat): nat {
    if s == [] then d
    else Depth(s[1..], if s[0] == LBRACE then d + 1 else if s[0] == RBRACE && d > 0 then d - 1 else d)
  }

  predicate NoOpen(s: Pattern) {
    forall i :: 0 <= i < |s| ==> s[i] != OPEN
  }

  /** No bracket opens at or after i. */
  predicate NoOpenFrom(p: Pattern, i: nat) {
    forall k :: i <= k < |p| ==> p[k] != OPEN
  }

  lemma {:induction false} DepthConcat(s: Pattern, t: Pattern, d: nat)
    ensures Depth(s + t, d) == Depth(t, Depth(s, d))
  {
    if s == [] {
      assert s + t == t;
    } else {
      assert (s + t)[1..] == s[1..] + t && (s + t)[0] == s[0];
      DepthConcat(s[1..], t, if s[0] == LBRACE then d + 1 else if s[0] == RBRACE && d > 0 then d - 1 else d);
    }
  }

  lemma DepthStep(p: Pattern, i: nat, d: nat)
    requires i < |p|
    ensures Depth(p[i..], d)
            == Depth(p[i + 1..], if p[i] == LBRACE then d + 1 else if p[i] == RBRACE && d > 0 then d - 1 else d)
  {
    assert p[i..][1..] == p[i + 1..];
  }

  lemma EndOfScan(p: Pattern, k: nat)
    ensures Balance(p, |p|, k) == |p| && Depth(p[|p|..], k + 1) == k + 1
  {
  }

  /** The balancing brace is where the open braces are used up. */
  lemma {:induction false} BalanceDepth(p: Pattern, i: nat, k: nat)
    requires i <= |p| && NoOpenFrom(p, i)
    ensures var e := Balance(p, i, k);
            if e < |p| then Depth(p[i..], k + 1) == Depth(p[e + 1..], 0) else Depth(p[i..], k + 1) > 0
    decreases |p| - i
  {
    hide Depth, Balance;
    if i == |p| {
      EndOfScan(p, k);
    } else {
      BalanceStep(p, i, k);
      DepthStep(p, i, k + 1);
      if p[i] == LBRACE {
        BalanceDepth(p, i + 1, k + 1);
      } else if p[i] != RBRACE {
        BalanceDepth(p, i + 1, k);
      } else if k > 0 {
        BalanceDepth(p, i + 1, k - 1);
      }
    }
  }

  /** Text that leaves k more braces open, wherever it stands. */
  ghost predicate Rises(s: Pattern, k: nat) {
    forall d: nat :: Depth(s, d) == d + k
  }

  lemma RisesStep(p: Pattern, i: nat, j: nat, k: nat)
    requires i <= j < |p| && Rises(p[i..j], k) && (p[j] == RBRACE ==> k > 0)
    ensures Rises(p[i..j + 1], if p[j] == LBRACE then k + 1 else if p[j] == RBRACE then k - 1 else k)
  {
    assert p[i..j + 1] == p[i..j] + [p[j]];
    var k' := if p[j] == LBRACE then k + 1 else if p[j] == RBRACE then k - 1 else k;
    var q := p[i..j + 1];
    forall d: nat ensures Depth(q, d) == d + k' {
      DepthConcat(p[i..j], [p[j]], d);
      assert [p[j]][1..] == [];
    }
  }

  ghost predicate Level(s: Pattern) {
    Rises(s, 0) && NoOpen(s)
  }

  /** Every alternative is balanced in itself, and there is at least one. */
  lemma {:induction false} AlternativesLevel(p: Pattern, pl: nat, pm: nat, e: nat, depth: nat)
    requires pl <= pm <= e < |p| && NoOpenFrom(p, pl)
    requires Balance(p, pm, depth) == e && Rises(p[pl..pm], depth)
    ensures var r := Alternatives(p, pl, pm, e, depth);
            r != [] && forall i :: 0 <= i < |r| ==> Level(r[i])
    decreases e - pm
  {
    hide Balance, Alternatives, Depth;
    BalanceStep(p, pm, depth);
    if depth == 0 && (p[pm] == COMMA || p[pm] == RBRACE) {
      AlternativesEmit(p, pl, pm, e);
      if p[pm] == COMMA {
        NothingRises();
        assert p[pm + 1..pm + 1] == [];
        AlternativesLevel(p, pm + 1, pm + 1, e, 0);
      }
    } else {
      AlternativesStep(p, pl, pm, e, depth);
      RisesStep(p, pl, pm, depth);
      AlternativesLevel(p, pl, pm + 1, e, if p[pm] == LBRACE then depth + 1
                                          else if p[pm] == RBRACE then depth - 1 else depth);
    }
  }

  lemma {:induction false} NoBraceDepth(w: Pattern)
    requires forall i :: 0 <= i < |w| ==> w[i] != LBRACE
    ensures Depth(w, 0) == 0
  {
    if w != [] { NoBraceDepth(w[1..]); }
  }

  /** All calls are of one kind. */
  ghost predicate Only(calls: seq<Call>, marked: bool) {
    calls != [] && forall i :: 0 <= i < |calls| ==> calls[i].Glob? == marked
  }

  /**
    Without brackets behind the first brace: glob0 gets whole patterns only
    when every opening brace is matched, and unterminated buffers only when one
    is not.
   */
  lemma {:induction false} MarkedIffMatched(p: Pattern)
    requires NoOpenFrom(p, Find(p, LBRACE, 0))
    ensures Only(Expand(p), Depth(p, 0) == 0)
    decreases |p|, 1
  {
    var i := Find(p, LBRACE, 0);
    if p == HOLLOW || i == |p| {
      if p == HOLLOW { HollowDepth(); } else { NoBraceDepth(p); }
      assert Expand(p) == [Glob(p)];
    } else {
      var e := Balance(p, i + 1, 0);
      DepthAtBrace(p, i, e);
      hide Depth, Alternatives;
      if e == |p| {
        assert Expand(p) == [Unmarked(p[..i])];
      } else {
        assert p[i + 1..i + 1] == [];
        NothingRises();
        AlternativesLevel(p, i + 1, i + 1, e, 0);
        ExpandFirst(p, i, e);
        EachMarked(p, i, e, Alternatives(p, i + 1, i + 1, e, 0));
      }
    }
  }

  lemma HollowDepth()
    ensures Depth(HOLLOW, 0) == 0
  {
    assert HOLLOW[1..] == [RBRACE] && [RBRACE][1..] == [];
    assert Depth([RBRACE], 1) == 0;
  }

  lemma DepthAtBrace(p: Pattern, i: nat, e: nat)
    requires i < |p| && NoOpenFrom(p, i) && p[i] == LBRACE && (forall k :: 0 <= k < i ==> p[k] != LBRACE)
    requires e == Balance(p, i + 1, 0)
    ensures if e < |p| then Depth(p, 0) == Depth(p[e + 1..], 0) else Depth(p, 0) > 0
  {
    hide Depth, Balance;
    BalanceDepth(p, i + 1, 0);
    DepthStep(p, i, 0);
    DepthBehind(p, i);
  }

  lemma DepthBehind(p: Pattern, i: nat)
    requires i <= |p| && forall k :: 0 <= k < i ==> p[k] != LBRACE
    ensures Depth(p, 0) == Depth(p[i..], 0)
  {
    hide Depth;
    NoBraceDepth(p[..i]);
    DepthConcat(p[..i], p[i..], 0);
    assert p == p[..i] + p[i..];
  }

  lemma NothingRises()
    ensures Rises([], 0)
  {
  }

  lemma BracketsStayBefore(w: Pattern, v: Pattern)
    requires NoBrace(w) && NoOpen(v)
    ensures NoOpenFrom(w + v, Find(w + v, LBRACE, 0))
  {
    FindBehind(w, v, 0);
    hide Find;
    assert forall k :: |w| <= k < |w + v| ==> (w + v)[k] == v[k - |w|];
  }

  lemma {:induction false} EachMarked(p: Pattern, i: nat, e: nat, alts: seq<Pattern>)
    requires i < e < |p| && NoOpenFrom(p, i) && forall k :: 0 <= k < i ==> p[k] != LBRACE
    requires Depth(p, 0) == Depth(p[e + 1..], 0) && alts != []
    requires forall j :: 0 <= j < |alts| ==> |alts[j]| <= e - i - 1 && Level(alts[j])
    ensures Only(ExpandEach(p, i, e, alts), Depth(p, 0) == 0)
    decreases |p|, 0, |alts|
  {
    var q := p[..i] + alts[0] + p[e + 1..];
    DepthConcat(p[..i] + alts[0], p[e + 1..], 0);
    DepthConcat(p[..i], alts[0], 0);
    NoBraceDepth(p[..i]);
    assert Level(alts[0]);
    BracketsStayBefore(p[..i], alts[0] + p[e + 1..]);
    assert q == p[..i] + (alts[0] + p[e + 1..]);
    MarkedIffMatched(q);
    if |alts| > 1 { EachMarked(p, i, e, alts[1..]); }
  }

  /** {a is not expanded: glob0 gets the buffer in front of the brace, which was never terminated. */
  lemma UnmatchedExample(p: Pattern)
    requires p == [123, 97]
    ensures Expand(p) == [Unmarked([])]
  {
    BalanceStep(p, 1, 0);
    assert Balance(p, 2, 0) == 2 && Find(p, LBRACE, 0) == 0 && p[..0] == [];
  }

  // ---------------------------------------------------- brackets inside braces

  /** The alternatives as they stand in the pattern, brackets included. */
  function Written(p: Pattern, pl: nat, pm: nat, e: nat, depth: nat): seq<Pattern>
    requires pl <= pm && e < |p|
    decreases e + 1 - pm
  {
    if pm > e then []
    else if p[pm] == OPEN then Written(p, pl, SkipBracket(p, pm), e, depth)
    else if p[pm] == LBRACE then Written(p, pl, pm + 1, e, depth + 1)
    else if p[pm] == RBRACE && depth > 0 then Written(p, pl, pm + 1, e, depth - 1)
    else if p[pm] == RBRACE || (p[pm] == COMMA && depth == 0) then
      [p[pl..pm]] + Written(p, pm + 1, pm + 1, e, 0)
    else Written(p, pl, pm + 1, e, depth)
  }

  /** No bracket expression begins behind the first character of an alternative. */
  predicate BracketsFirst(p: Pattern, pl: nat, pm: nat, e: nat, depth: nat)
    requires pl <= pm && e < |p|
    decreases e + 1 - pm
  {
    if pm > e then true
    else if p[pm] == OPEN then pl == pm && BracketsFirst(p, pl, SkipBracket(p, pm), e, depth)
    else if p[pm] == LBRACE then BracketsFirst(p, pl, pm + 1, e, depth + 1)
    else if p[pm] == RBRACE && depth > 0 then BracketsFirst(p, pl, pm + 1, e, depth - 1)
    else if p[pm] == RBRACE || (p[pm] == COMMA && depth == 0) then BracketsFirst(p, pm + 1, pm + 1, e, 0)
    else BracketsFirst(p, pl, pm + 1, e, depth)
  }

  /** The loop takes up the alternatives as written exactly when brackets come first in them. */
  lemma {:induction false} AlternativesAsWritten(p: Pattern, q: nat, pl: nat, pm: nat, e: nat, depth: nat)
    requires q <= pl <= pm <= e < |p| && Balance(p, pm, depth) == e
    ensures Alternatives(p, pl, pm, e, depth) == Written(p, q, pm, e, depth)
            <==> q == pl && BracketsFirst(p, pl, pm, e, depth)
    decreases e + 1 - pm
  {
    if p[pm] == OPEN {
      AlternativesAsWritten(p, q, pm, SkipBracket(p, pm), e, depth);
    } else if p[pm] == LBRACE {
      AlternativesAsWritten(p, q, pl, pm + 1, e, depth + 1);
    } else if p[pm] == RBRACE && depth > 0 {
      AlternativesAsWritten(p, q, pl, pm + 1, e, depth - 1);
    } else if p[pm] == RBRACE || (p[pm] == COMMA && depth == 0) {
      if pm < e { AlternativesAsWritten(p, pm + 1, pm + 1, pm + 1, e, 0); }
      ConsEqual(p[pl..pm], Alternatives(p, pm + 1, pm + 1, e, 0), p[q..pm], Written(p, pm + 1, pm + 1, e, 0));
      if p[pl..pm] == p[q..pm] { assert |p[pl..pm]| == |p[q..pm]|; }
    } else {
      AlternativesAsWritten(p, q, pl, pm + 1, e, depth);
    }
  }

  lemma ConsEqual(x: Pattern, xs: seq<Pattern>, y: Pattern, ys: seq<Pattern>)
    ensures [x] + xs == [y] + ys <==> x == y && xs == ys
  {
    if [x] + xs == [y] + ys {
      assert ([x] + xs)[0] == ([y] + ys)[0] && ([x] + xs)[1..] == ([y] + ys)[1..];
    }
  }

  const SAMPLE: Pattern := [LBRACE, 120, OPEN, 97, 98, CLOSE, COMMA, 99, RBRACE]

  lemma SampleScan()
    ensures Find(SAMPLE, LBRACE, 0) == 0 && SkipBracket(SAMPLE, 2) == 6 && Balance(SAMPLE, 1, 0) == 8
  {
    assert Find(SAMPLE, CLOSE, 5) == 5;
    assert Find(SAMPLE, CLOSE, 3) == 5;
    BalanceStep(SAMPLE, 8, 0);
    BalanceStep(SAMPLE, 7, 0);
    BalanceStep(SAMPLE, 6, 0);
    BalanceStep(SAMPLE, 1, 0);
    assert Balance(SAMPLE, 2, 0) == Balance(SAMPLE, 6, 0);
  }

  lemma SampleAlternatives()
    ensures Alternatives(SAMPLE, 1, 1, 8, 0) == [[OPEN, 97, 98, CLOSE], [99]]
  {
    SampleScan();
    AlternativesStep(SAMPLE, 1, 1, 8, 0);
    assert Alternatives(SAMPLE, 1, 2, 8, 0) == Alternatives(SAMPLE, 2, 6, 8, 0);
    AlternativesEmit(SAMPLE, 2, 6, 8);
    AlternativesStep(SAMPLE, 7, 7, 8, 0);
    AlternativesEmit(SAMPLE, 7, 8, 8);
    assert SAMPLE[7..8] == [99] && SAMPLE[2..6] == [OPEN, 97, 98, CLOSE];
  }

  /** {x[ab],c} is expanded to [ab] and c: the x is lost. */
  lemma BracketDropsText()
    ensures Expand([123, 120, 91, 97, 98, 93, 44, 99, 125]) == [Glob([91, 97, 98, 93]), Glob([99])]
  {
    SampleScan();
    SampleAlternatives();
    ExpandFirst(SAMPLE, 0, 8);
    PlainExpand([OPEN, 97, 98, CLOSE]);
    PlainExpand([99]);
    EachNone(SAMPLE, 0, 8);
    hide Alternatives, Balance, Expand, ExpandEach, Find;
    var x: Pattern, y: Pattern := [OPEN, 97, 98, CLOSE], [99];
    assert SAMPLE[..0] + x + SAMPLE[9..] == x && SAMPLE[..0] + y + SAMPLE[9..] == y;
    EachFirst(SAMPLE, 0, 8, x, [y]);
    EachFirst(SAMPLE, 0, 8, y, []);
    assert [y] + [] == [y] && [x] + [y] == [x, y];
  }

  lemma PlainExpand(p: Pattern)
    requires forall i :: 0 <= i < |p| ==> p[i] != LBRACE
    ensures Expand(p) == [Glob(p)]
  {
  }
}
