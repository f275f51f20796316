/**
  fnmatch: shell patterns against file names.  Characters are the values of
  the compiler's (signed) char; zero ends a string and occurs in none.
 */
module Fnmatch {
  import opened Option

  type Text = s: seq<int> | forall i :: 0 <= i < |s| ==> s[i] != 0

  /** The character under a cursor; the terminator at the end. */
  function At(s: Text, i: nat): int {
    if i < |s| then s[i] else 0
  }

  /** A read through a cursor, which never stands behind the terminator. */
  function Read(s: Text, i: nat): (c: int)
    requires i <= |s|
    ensures c == At(s, i)
  {
    if i < |s| then s[i] else 0
  }

  const SLASH: int := 47
  const DOT: int := 46
  const STAR: int := 42
  const QUESTION: int := 63
  const OPEN: int := 91
  const BACKSLASH: int := 92
  const CLOSE: int := 93
  const CARET: int := 94
  const BANG: int := 33
  const DASH: int := 45

  datatype Flags = Flags(noescape: bool, pathname: bool, period: bool)

  // -------------------------------------------------------- what patterns mean

  datatype Item = One(c: int) | Range(lo: int, hi: int)

  /** Broken stands for a bracket that is never closed. */
  datatype Token =
    | Any
    | Star
    | Set(negate: bool, items: seq<Item>)
    | Lit(c: int, quoted: bool)
    | Broken

  predicate InItem(c: int, t: Item) {
    match t
    case One(d) => c == d
    case Range(lo, hi) => lo <= c <= hi
  }

  predicate InItems(c: int, ts: seq<Item>) {
    exists i :: 0 <= i < |ts| && InItem(c, ts[i])
  }

  /** One bracket element, possibly escaped, and where it ends. */
  function Element(p: Text, i: nat, noescape: bool): (r: Option<(int, nat)>)
    ensures r.Some? ==> i < r.value.1 <= |p|
  {
    if i >= |p| then None
    else if p[i] == BACKSLASH && !noescape then
      if i + 1 < |p| then Some((p[i + 1], i + 2)) else None
    else Some((p[i], i + 1))
  }

  /** The elements and ranges up to the closing bracket, and the place after it. */
  function Items(p: Text, i: nat, noescape: bool): (r: Option<(seq<Item>, nat)>)
    ensures r.Some? ==> i < r.value.1 <= |p|
    decreases if i < |p| then |p| - i else 0
  {
    if At(p, i) == CLOSE then Some(([], i + 1))
    else
      var e := Element(p, i, noescape);
      if e.None? then None
      else
        var (c, j) := e.value;
        if At(p, j) == DASH && At(p, j + 1) != 0 && At(p, j + 1) != CLOSE then
          var f := Element(p, j + 1, noescape);
          if f.None? then None
          else Prepend(Range(c, f.value.0), Items(p, f.value.1, noescape))
        else Prepend(One(c), Items(p, j, noescape))
  }

  function Prepend(t: Item, r: Option<(seq<Item>, nat)>): Option<(seq<Item>, nat)> {
    if r.None? then None else Some(([t] + r.value.0, r.value.1))
  }

  predicate Negates(p: Text, i: nat) {
    At(p, i) == BANG || At(p, i) == CARET
  }

  /** The tokens of the pattern from i on. */
  function Tokens(p: Text, i: nat, noescape: bool): seq<Token>
    decreases if i < |p| then |p| - i else 0
  {
    if i >= |p| then []
    else if p[i] == QUESTION then [Any] + Tokens(p, i + 1, noescape)
    else if p[i] == STAR then [Star] + Tokens(p, i + 1, noescape)
    else if p[i] == OPEN then
      var r := Items(p, if Negates(p, i + 1) then i + 2 else i + 1, noescape);
      if r.None? then [Broken]
      else [Set(Negates(p, i + 1), r.value.0)] + Tokens(p, r.value.1, noescape)
    else if p[i] == BACKSLASH && !noescape && i + 1 < |p| then
      [Lit(p[i + 1], true)] + Tokens(p, i + 2, noescape)
    else [Lit(p[i], false)] + Tokens(p, i + 1, noescape)
  }

  predicate Blocked(c: int, pathname: bool) {
    pathname && c == SLASH
  }

  /** A token that stands for exactly one character accepts c. */
  predicate Accepts(t: Token, c: int, pathname: bool) {
    match t
    case Any => !Blocked(c, pathname)
    case Set(negate, items) => !Blocked(c, pathname) && InItems(c, items) != negate
    case Lit(d, _) => c == d
    case _ => false
  }

  /** The plain meaning of a pattern: stars stand for any run of characters. */
  ghost predicate Matches(ts: seq<Token>, s: seq<int>, pathname: bool) {
    if ts == [] then s == []
    else if ts[0].Star? then
      exists k :: 0 <= k <= |s| && (pathname ==> SLASH !in s[..k]) && Matches(ts[1..], s[k..], pathname)
    else s != [] && Accepts(ts[0], s[0], pathname) && Matches(ts[1..], s[1..], pathname)
  }

  /** A leading period, which FNM_PERIOD keeps from wildcards. */
  predicate Guarded(s: Text, j: nat, start: nat, fl: Flags)
    requires start <= j
  {
    fl.period && At(s, j) == DOT && (j == start || (fl.pathname && At(s, j - 1) == SLASH))
  }

  /** The same as the routines test it. */
  predicate LeadingDot(s: Text, j: nat, start: nat, fl: Flags): (b: bool)
    requires start <= j <= |s|
    ensures b == Guarded(s, j, start, fl)
  {
    fl.period && Read(s, j) == DOT && (j == start || (fl.pathname && Read(s, j - 1) == SLASH))
  }

  /** After a star FNM_PERIOD stays in force only at the end and before a plain slash. */
  predicate KeepsPeriod(ts: seq<Token>, fl: Flags) {
    if ts == [] then true
    else if ts[0].Star? then KeepsPeriod(ts[1..], fl)
    else fl.pathname && ts[0] == Lit(SLASH, false)
  }

  function AfterStar(ts: seq<Token>, fl: Flags): Flags {
    if KeepsPeriod(ts, fl) then fl else fl.(period := false)
  }

  ghost predicate Free(s: Text, j: nat, k: nat, pathname: bool)
    requires j <= k <= |s|
  {
    pathname ==> forall i :: j <= i < k ==> s[i] != SLASH
  }

  /** What fnmatch accepts, for every combination of flags. */
  ghost predicate Accepted(ts: seq<Token>, s: Text, j: nat, start: nat, fl: Flags)
    requires start <= j <= |s|
    decreases |ts|
  {
    if ts == [] then j == |s|
    else if ts[0].Star? then
      && !Guarded(s, j, start, fl)
      && exists k :: j <= k <= |s| && Free(s, j, k, fl.pathname)
                     && Accepted(ts[1..], s, k, start, AfterStar(ts[1..], fl))
    else
      && j < |s| && Accepts(ts[0], s[j], fl.pathname)
      && (ts[0].Any? ==> !Guarded(s, j, start, fl))
      && Accepted(ts[1..], s, j + 1, start, fl)
  }

  // ------------------------------------------------------------- the routines

  lemma InPrepend(c: int, t: Item, ts: seq<Item>)
    ensures InItems(c, [t] + ts) <==> InItem(c, t) || InItems(c, ts)
  {
    if InItems(c, ts) {
      var i :| 0 <= i < |ts| && InItem(c, ts[i]);
      assert ([t] + ts)[i + 1] == ts[i];
    }
    if InItem(c, t) { assert ([t] + ts)[0] == t; }
  }

  /** The rest of the bracket from i decides, together with what was found so far. */
  ghost predicate Continues(p: Text, start: nat, i: nat, ok: bool, test: int, noescape: bool) {
    var r, q := Items(p, start, noescape), Items(p, i, noescape);
    (r.Some? <==> q.Some?)
    && (r.Some? ==> r.value.1 == q.value.1 && (InItems(test, r.value.0) <==> ok || InItems(test, q.value.0)))
  }

  lemma ContinuesStep(p: Text, start: nat, i: nat, ok: bool, t: Item, j: nat, test: int, noescape: bool)
    requires Continues(p, start, i, ok, test, noescape)
    requires Items(p, i, noescape) == Prepend(t, Items(p, j, noescape))
    ensures Continues(p, start, j, ok || InItem(test, t), test, noescape)
  {
    hide Items;
    if Items(p, j, noescape).Some? { InPrepend(test, t, Items(p, j, noescape).value.0); }
  }

  lemma ContinuesStart(p: Text, i: nat, test: int, noescape: bool)
    ensures Continues(p, i, i, false, test, noescape)
  {
  }

  lemma ContinuesEnd(p: Text, start: nat, i: nat, ok: bool, test: int, noescape: bool)
    requires Continues(p, start, i, ok, test, noescape)
    ensures Items(p, i, noescape).None? ==> Items(p, start, noescape).None?
    ensures At(p, i) == CLOSE ==>
              var r := Items(p, start, noescape);
              r.Some? && r.value.1 == i + 1 && InItems(test, r.value.0) == ok
  {
  }

  predicate RangeAt(p: Text, j: nat) {
    At(p, j) == DASH && At(p, j + 1) != 0 && At(p, j + 1) != CLOSE
  }

  lemma ItemsOne(p: Text, i: nat, c: int, j: nat, noescape: bool)
    requires At(p, i) != CLOSE && Element(p, i, noescape) == Some((c, j)) && !RangeAt(p, j)
    ensures Items(p, i, noescape) == Prepend(One(c), Items(p, j, noescape))
  {
  }

  lemma ItemsRange(p: Text, i: nat, c: int, j: nat, c2: int, k: nat, noescape: bool)
    requires At(p, i) != CLOSE && Element(p, i, noescape) == Some((c, j)) && RangeAt(p, j)
    requires Element(p, j + 1, noescape) == Some((c2, k))
    ensures Items(p, i, noescape) == Prepend(Range(c, c2), Items(p, k, noescape))
  {
  }

  lemma ItemsNone(p: Text, i: nat, noescape: bool)
    requires At(p, i) != CLOSE
    ensures Element(p, i, noescape).None? ==> Items(p, i, noescape).None?
    ensures forall c, j ::
              Element(p, i, noescape) == Some((c, j)) && RangeAt(p, j) && Element(p, j + 1, noescape).None?
              ==> Items(p, i, noescape).None?
  {
  }

  /** rangematch: the place after a bracket that admits test. */
  method Rangematch(p: Text, i0: nat, test: int, noescape: bool) returns (r: Option<nat>)
    requires i0 <= |p|
    ensures var q := Items(p, if Negates(p, i0) then i0 + 1 else i0, noescape);
            if q.Some? && InItems(test, q.value.0) != Negates(p, i0) then r == Some(q.value.1) else r == None
  {
    hide Continues, InItems, Items;
    var i := i0;
    var negate := Read(p, i) == BANG || Read(p, i) == CARET;
    if negate {
      i := i + 1;
    }
    ghost var start := i;
    ContinuesStart(p, i, test, noescape);
    var ok := false;
    while true
      invariant i <= |p| && Continues(p, start, i, ok, test, noescape)
      decreases |p| - i
    {
      ghost var i1 := i;
      ContinuesEnd(p, start, i, ok, test, noescape);
      var c := Read(p, i);
      if c == CLOSE {
        i := i + 1;
        break;
      }
      ItemsNone(p, i, noescape);
      if c == 0 {
        return None;
      }
      i := i + 1;
      if c == BACKSLASH && !noescape {
        c := Read(p, i);
        if c == 0 {
          return None;
        }
        i := i + 1;
      }
      ghost var j := i;
      var c2 := if Read(p, i) == DASH then Read(p, i + 1) else 0;
      if c2 != 0 && c2 != CLOSE {
        i := i + 2;
        if c2 == BACKSLASH && !noescape {
          c2 := Read(p, i);
          if c2 == 0 {
            return None;
          }
          i := i + 1;
        }
        ItemsRange(p, i1, c, j, c2, i, noescape);
        ContinuesStep(p, start, i1, ok, Range(c, c2), i, test, noescape);
        if c <= test && test <= c2 {
          ok := true;
        }
      } else {
        ItemsOne(p, i1, c, j, noescape);
        ContinuesStep(p, start, i1, ok, One(c), i, test, noescape);
        if c == test {
          ok := true;
        }
      }
    }
    r := if ok == negate then None else Some(i);
  }

  // ------------------------------------------------- why the shortcuts are right

  /** Adjacent stars are worth one. */
  lemma TwoStars(r: seq<Token>, s: Text, j: nat, start: nat, fl: Flags)
    requires start <= j <= |s|
    ensures Accepted([Star] + ([Star] + r), s, j, start, fl) <==> Accepted([Star] + r, s, j, start, fl)
  {
    var one, two := [Star] + r, [Star] + ([Star] + r);
    assert one[1..] == r && two[1..] == one;
    assert AfterStar(one, fl) == AfterStar(r, fl) && AfterStar(r, AfterStar(r, fl)) == AfterStar(r, fl);
    var g := AfterStar(r, fl);
    if Accepted(one, s, j, start, fl) {
      var k :| j <= k <= |s| && Free(s, j, k, fl.pathname) && Accepted(r, s, k, start, g);
      assert Free(s, j, j, fl.pathname) && Accepted(one, s, j, start, g);
      assert Accepted(two, s, j, start, fl);
    }
    if Accepted(two, s, j, start, fl) {
      var k :| j <= k <= |s| && Free(s, j, k, fl.pathname) && Accepted(one, s, k, start, g);
      var l :| k <= l <= |s| && Free(s, k, l, fl.pathname) && Accepted(r, s, l, start, g);
      assert Free(s, j, l, fl.pathname);
    }
  }

  /** A star at the end. */
  lemma StarAtEnd(s: Text, j: nat, start: nat, fl: Flags)
    requires start <= j <= |s|
    ensures Accepted([Star], s, j, start, fl) <==> !Guarded(s, j, start, fl) && Free(s, j, |s|, fl.pathname)
  {
    if !Guarded(s, j, start, fl) && Free(s, j, |s|, fl.pathname) {
      assert Accepted([], s, |s|, start, AfterStar([], fl));
    }
  }

  /** A star before a slash must reach to the next slash. */
  lemma StarAtSlash(r: seq<Token>, s: Text, j: nat, start: nat, fl: Flags, f: nat)
    requires start <= j <= f <= |s| && fl.pathname && r != [] && r[0] == Lit(SLASH, false)
    requires Free(s, j, f, true) && (f < |s| ==> s[f] == SLASH)
    ensures Accepted([Star] + r, s, j, start, fl)
            <==> !Guarded(s, j, start, fl) && f < |s| && Accepted(r, s, f, start, fl)
  {
    assert ([Star] + r)[1..] == r;
    if Accepted([Star] + r, s, j, start, fl) {
      var k :| j <= k <= |s| && Free(s, j, k, fl.pathname) && Accepted(r, s, k, start, fl);
      assert k == f;
    }
  }

  /** Without FNM_PERIOD it does not matter where the string began. */
  lemma {:induction false} StartIrrelevant(ts: seq<Token>, s: Text, j: nat, start: nat, start': nat, fl: Flags)
    requires start <= j <= |s| && start' <= j && !fl.period
    ensures Accepted(ts, s, j, start, fl) <==> Accepted(ts, s, j, start', fl)
    decreases |ts|
  {
    if ts == [] {
    } else if ts[0].Star? {
      assert AfterStar(ts[1..], fl) == fl;
      forall k | j <= k <= |s|
        ensures Accepted(ts[1..], s, k, start, fl) <==> Accepted(ts[1..], s, k, start', fl)
      {
        StartIrrelevant(ts[1..], s, k, start, start', fl);
      }
    } else if j < |s| {
      StartIrrelevant(ts[1..], s, j + 1, start, start', fl);
    }
  }

  /** Some cut before e lets the rest match; the empty suffix is never worth trying. */
  ghost predicate CutBefore(r: seq<Token>, s: Text, j: nat, e: nat, fl: Flags)
    requires j <= e <= |s|
  {
    exists k :: j <= k < e && Free(s, j, k, fl.pathname) && Accepted(r, s, k, k, fl.(period := false))
  }

  lemma StarInside(r: seq<Token>, s: Text, j: nat, start: nat, fl: Flags)
    requires start <= j <= |s| && r != [] && !r[0].Star? && !KeepsPeriod(r, fl)
    ensures Accepted([Star] + r, s, j, start, fl)
            <==> !Guarded(s, j, start, fl) && CutBefore(r, s, j, |s|, fl)
  {
    var g := fl.(period := false);
    assert ([Star] + r)[1..] == r && AfterStar(r, fl) == g;
    if Accepted([Star] + r, s, j, start, fl) {
      var k :| j <= k <= |s| && Free(s, j, k, fl.pathname) && Accepted(r, s, k, start, g);
      StartIrrelevant(r, s, k, start, k, g);
    }
    if !Guarded(s, j, start, fl) && CutBefore(r, s, j, |s|, fl) {
      var k :| j <= k < |s| && Free(s, j, k, fl.pathname) && Accepted(r, s, k, k, g);
      StartIrrelevant(r, s, k, start, k, g);
    }
  }

  /** Past a slash no further cut is possible. */
  lemma CutStops(r: seq<Token>, s: Text, j: nat, e: nat, fl: Flags)
    requires j <= e < |s| && fl.pathname && s[e] == SLASH
    ensures CutBefore(r, s, j, |s|, fl) <==> CutBefore(r, s, j, e + 1, fl)
  {
    if CutBefore(r, s, j, |s|, fl) {
      var k :| j <= k < |s| && Free(s, j, k, fl.pathname) && Accepted(r, s, k, k, fl.(period := false));
      assert k <= e;
    }
  }

  /** The tokens at a cursor on a star, once adjacent stars are skipped. */
  lemma StarStep(p: Text, i: nat, s: Text, j: nat, start: nat, fl: Flags)
    requires start <= j <= |s| && i < |p| && p[i] == STAR
    ensures Tokens(p, i, fl.noescape) == [Star] + Tokens(p, i + 1, fl.noescape)
    ensures At(p, i + 1) == STAR ==>
              (Accepted(Tokens(p, i, fl.noescape), s, j, start, fl)
               <==> Accepted(Tokens(p, i + 1, fl.noescape), s, j, start, fl))
  {
    if At(p, i + 1) == STAR {
      TwoStars(Tokens(p, i + 2, fl.noescape), s, j, start, fl);
    }
  }

  const NOMATCH := 1

  /** fnmatch on the pattern from i0 and the string from j0. */
  method Match(p: Text, i0: nat, s: Text, j0: nat, fl: Flags) returns (r: int)
    requires i0 <= |p| && j0 <= |s|
    ensures r == 0 || r == NOMATCH
    ensures r == 0 <==> Accepted(Tokens(p, i0, fl.noescape), s, j0, j0, fl)
    decreases |p| - i0, 1
  {
    hide Accepted, Tokens, Items, Guarded;
    var i, j := i0, j0;
    while true
      invariant i0 <= i <= |p| && j0 <= j <= |s|
      invariant Accepted(Tokens(p, i0, fl.noescape), s, j0, j0, fl)
                <==> Accepted(Tokens(p, i, fl.noescape), s, j, j0, fl)
      decreases |p| - i
    {
      var c := Read(p, i);
      TokenAt(p, i, fl.noescape);
      AcceptedOne(Tokens(p, i, fl.noescape), s, j, j0, fl);
      if c == 0 {
        return if Read(s, j) == 0 then 0 else NOMATCH;
      }
      i := i + 1;
      if c == QUESTION {
        if Read(s, j) == 0 || (Read(s, j) == SLASH && fl.pathname) || LeadingDot(s, j, j0, fl) {
          return NOMATCH;
        }
        j := j + 1;
      } else if c == STAR {
        var done;
        done, i, j := AtStar(p, i, s, j, j0, fl);
        if done.Some? {
          return done.value;
        }
      } else if c == OPEN {
        if Read(s, j) == 0 || (Read(s, j) == SLASH && fl.pathname) {
          return NOMATCH;
        }
        var next := Rangematch(p, i, s[j], fl.noescape);
        if next.None? {
          return NOMATCH;
        }
        i := next.value;
        j := j + 1;
      } else {
        if c == BACKSLASH && !fl.noescape {
          c := Read(p, i);
          if c == 0 {
            c := BACKSLASH;
          } else {
            i := i + 1;
          }
        }
        if c != Read(s, j) {
          return NOMATCH;
        }
        j := j + 1;
      }
    }
  }

  /** The case of a star just read before i: the answer, or where to go on. */
  method AtStar(p: Text, i0: nat, s: Text, j0: nat, start: nat, fl: Flags)
    returns (done: Option<int>, i: nat, j: nat)
    requires 1 <= i0 <= |p| && p[i0 - 1] == STAR && start <= j0 <= |s|
    ensures i0 <= i <= |p| && j0 <= j <= |s|
    ensures done.Some? ==>
              && (done.value == 0 || done.value == NOMATCH)
              && (done.value == 0 <==> Accepted(Tokens(p, i0 - 1, fl.noescape), s, j0, start, fl))
    ensures done.None? ==>
              (Accepted(Tokens(p, i0 - 1, fl.noescape), s, j0, start, fl)
               <==> Accepted(Tokens(p, i, fl.noescape), s, j, start, fl))
    decreases |p| - i0, 2
  {
    hide Accepted, Tokens;
    i, j := i0, j0;
    var c := Read(p, i);
    while c == STAR
      invariant i0 <= i <= |p| && c == At(p, i) && p[i - 1] == STAR
      invariant Accepted(Tokens(p, i0 - 1, fl.noescape), s, j, start, fl)
                <==> Accepted(Tokens(p, i - 1, fl.noescape), s, j, start, fl)
      decreases |p| - i
    {
      StarStep(p, i - 1, s, j, start, fl);
      i := i + 1;
      c := Read(p, i);
    }
    StarStep(p, i - 1, s, j, start, fl);
    ghost var r := Tokens(p, i, fl.noescape);
    FirstToken(p, i, fl.noescape);
    if LeadingDot(s, j, start, fl) {
      NoStarAtDot(r, s, j, start, fl);
      return Some(NOMATCH), i, j;
    }
    if c == 0 {
      StarAtEnd(s, j, start, fl);
      assert [Star] + r == [Star];
      if fl.pathname {
        var f := NextSlash(s, j);
        return Some(if f == |s| then 0 else NOMATCH), i, j;
      }
      return Some(0), i, j;
    }
    if c == SLASH && fl.pathname {
      var f := NextSlash(s, j);
      StarAtSlash(r, s, j, start, fl, f);
      if f == |s| {
        return Some(NOMATCH), i, j;
      }
      return None, i, f;
    }
    StarInside(r, s, j, start, fl);
    while Read(s, j) != 0
      invariant j0 <= j <= |s| && !CutBefore(r, s, j0, j, fl) && Free(s, j0, j, fl.pathname)
      decreases |s| - j
    {
      var test := s[j];
      var sub := Match(p, i, s, j, fl.(period := false));
      if sub == 0 {
        return Some(0), i, j;
      }
      if test == SLASH && fl.pathname {
        CutStops(r, s, j0, j, fl);
        break;
      }
      j := j + 1;
    }
    return Some(NOMATCH), i, j;
  }

  /** strchr for a slash; the end of the string when there is none. */
  method NextSlash(s: Text, j: nat) returns (f: nat)
    requires j <= |s|
    ensures j <= f <= |s| && Free(s, j, f, true) && (f < |s| ==> s[f] == SLASH)
  {
    f := j;
    while f < |s| && s[f] != SLASH
      invariant j <= f <= |s| && Free(s, j, f, true)
    {
      f := f + 1;
    }
  }

  lemma NoStarAtDot(r: seq<Token>, s: Text, j: nat, start: nat, fl: Flags)
    requires start <= j <= |s| && Guarded(s, j, start, fl)
    ensures !Accepted([Star] + r, s, j, start, fl)
  {
  }

  /** The token at a cursor that is not on a star. */
  lemma FirstToken(p: Text, i: nat, noescape: bool)
    ensures Tokens(p, i, noescape) == [] <==> At(p, i) == 0
    ensures At(p, i) != 0 && At(p, i) != STAR ==> !Tokens(p, i, noescape)[0].Star?
    ensures At(p, i) != 0 ==> (Tokens(p, i, noescape)[0] == Lit(SLASH, false) <==> At(p, i) == SLASH)
  {
  }

  /** The token under the cursor, whatever it is, and where the next one begins. */
  lemma TokenAt(p: Text, i: nat, noescape: bool)
    requires i <= |p|
    ensures var c, ts := At(p, i), Tokens(p, i, noescape);
            if c == 0 then ts == []
            else
              && ts != []
              && (c == STAR ==> ts[0] == Star)
              && (c == QUESTION ==> ts[0] == Any && ts[1..] == Tokens(p, i + 1, noescape))
              && (c == OPEN ==>
                    var r := Items(p, if Negates(p, i + 1) then i + 2 else i + 1, noescape);
                    if r.None? then ts[0] == Broken
                    else ts[0] == Set(Negates(p, i + 1), r.value.0) && ts[1..] == Tokens(p, r.value.1, noescape))
              && (c != STAR && c != QUESTION && c != OPEN ==>
                    if c == BACKSLASH && !noescape && At(p, i + 1) != 0 then
                      ts[0] == Lit(p[i + 1], true) && ts[1..] == Tokens(p, i + 2, noescape)
                    else ts[0] == Lit(c, false) && ts[1..] == Tokens(p, i + 1, noescape))
  {
    hide Items;
  }

  lemma AcceptedOne(ts: seq<Token>, s: Text, j: nat, start: nat, fl: Flags)
    requires start <= j <= |s|
    ensures ts == [] ==> (Accepted(ts, s, j, start, fl) <==> j == |s|)
    ensures ts != [] && !ts[0].Star? ==>
              (Accepted(ts, s, j, start, fl)
               <==> j < |s| && Accepts(ts[0], s[j], fl.pathname)
                    && (ts[0].Any? ==> !Guarded(s, j, start, fl))
                    && Accepted(ts[1..], s, j + 1, start, fl))
  {
  }

  // ------------------------------------------------------------ main theorems

  /** Without FNM_PERIOD the answer is the plain meaning of the pattern. */
  lemma {:induction false} AcceptedIsPlain(ts: seq<Token>, s: Text, j: nat, start: nat, fl: Flags)
    requires start <= j <= |s| && !fl.period
    ensures Accepted(ts, s, j, start, fl) <==> Matches(ts, s[j..], fl.pathname)
    decreases |ts|
  {
    if ts == [] {
    } else if ts[0].Star? {
      assert AfterStar(ts[1..], fl) == fl;
      forall k | j <= k <= |s|
        ensures Accepted(ts[1..], s, k, start, fl) <==> Matches(ts[1..], s[j..][k - j..], fl.pathname)
        ensures Free(s, j, k, fl.pathname) <==> (fl.pathname ==> SLASH !in s[j..][..k - j])
      {
        AcceptedIsPlain(ts[1..], s, k, start, fl);
        assert s[j..][k - j..] == s[k..];
        assert forall i :: j <= i < k ==> s[j..][..k - j][i - j] == s[i];
      }
      StarCuts(ts, s, j, start, fl);
    } else if j < |s| {
      AcceptedIsPlain(ts[1..], s, j + 1, start, fl);
      assert s[j..][1..] == s[j + 1..];
    }
  }

  lemma StarCuts(ts: seq<Token>, s: Text, j: nat, start: nat, fl: Flags)
    requires start <= j <= |s| && !fl.period && ts != [] && ts[0].Star?
    requires forall k :: j <= k <= |s| ==>
               && (Accepted(ts[1..], s, k, start, fl) <==> Matches(ts[1..], s[j..][k - j..], fl.pathname))
               && (Free(s, j, k, fl.pathname) <==> (fl.pathname ==> SLASH !in s[j..][..k - j]))
    ensures Accepted(ts, s, j, start, fl) <==> Matches(ts, s[j..], fl.pathname)
  {
    assert AfterStar(ts[1..], fl) == fl;
    var t := s[j..];
    if Matches(ts, t, fl.pathname) {
      var k :| 0 <= k <= |t| && (fl.pathname ==> SLASH !in t[..k]) && Matches(ts[1..], t[k..], fl.pathname);
      assert Accepted(ts[1..], s, j + k, start, fl);
    }
    if Accepted(ts, s, j, start, fl) {
      var k :| j <= k <= |s| && Free(s, j, k, fl.pathname) && Accepted(ts[1..], s, k, start, fl);
      assert Matches(ts[1..], t[k - j..], fl.pathname);
    }
  }

  /** Beyond the first character FNM_PERIOD alone has nothing left to forbid. */
  lemma {:induction false} PeriodPast(ts: seq<Token>, s: Text, j: nat, start: nat, fl: Flags)
    requires start < j <= |s| && fl.period && !fl.pathname
    ensures Accepted(ts, s, j, start, fl) <==> Accepted(ts, s, j, start, fl.(period := false))
    decreases |ts|
  {
    var g := fl.(period := false);
    if ts == [] {
    } else if ts[0].Star? {
      forall k | j <= k <= |s|
        ensures Accepted(ts[1..], s, k, start, AfterStar(ts[1..], fl)) <==> Accepted(ts[1..], s, k, start, g)
      {
        PeriodPast(ts[1..], s, k, start, fl);
      }
    } else if j < |s| {
      PeriodPast(ts[1..], s, j + 1, start, fl);
    }
  }

  /**
    FNM_PERIOD without FNM_PATHNAME changes the answer exactly for a leading
    period met by a pattern that begins with a star or a question mark.
   */
  lemma PeriodAlone(ts: seq<Token>, s: Text, fl: Flags)
    requires fl.period && !fl.pathname
    ensures Accepted(ts, s, 0, 0, fl)
            <==> Matches(ts, s, false) && !(At(s, 0) == DOT && ts != [] && (ts[0].Star? || ts[0].Any?))
  {
    var g := fl.(period := false);
    AcceptedIsPlain(ts, s, 0, 0, g);
    assert s[0..] == s;
    if ts != [] && ts[0].Star? {
      if At(s, 0) != DOT {
        StarsOnly(ts, s, fl);
      }
    } else if ts != [] && |s| > 0 {
      PeriodPast(ts[1..], s, 1, 0, fl);
    }
  }

  /** A leading star at a string that does not start with a period. */
  lemma {:induction false} StarsOnly(ts: seq<Token>, s: Text, fl: Flags)
    requires fl.period && !fl.pathname && At(s, 0) != DOT
    ensures Accepted(ts, s, 0, 0, fl) <==> Accepted(ts, s, 0, 0, fl.(period := false))
    decreases |ts|
  {
    var g := fl.(period := false);
    if ts == [] {
    } else if ts[0].Star? {
      forall k | 0 <= k <= |s|
        ensures Accepted(ts[1..], s, k, 0, AfterStar(ts[1..], fl)) <==> Accepted(ts[1..], s, k, 0, g)
      {
        if k == 0 { StarsOnly(ts[1..], s, fl); } else { PeriodPast(ts[1..], s, k, 0, fl); }
      }
    } else if |s| > 0 {
      PeriodPast(ts[1..], s, 1, 0, fl);
    }
  }

  /** fnmatch (pattern, string, flags). */
  method Fnmatch(pattern: Text, text: Text, fl: Flags) returns (r: int)
    ensures r == 0 || r == NOMATCH
    ensures !fl.period ==>
              (r == 0 <==> Matches(Tokens(pattern, 0, fl.noescape), text, fl.pathname))
    ensures fl.period && !fl.pathname ==>
              (r == 0 <==> && Matches(Tokens(pattern, 0, fl.noescape), text, false)
                           && !(At(text, 0) == DOT && (At(pattern, 0) == STAR || At(pattern, 0) == QUESTION)))
    ensures r == 0 <==> Accepted(Tokens(pattern, 0, fl.noescape), text, 0, 0, fl)
  {
    r := Match(pattern, 0, text, 0, fl);
    ghost var ts := Tokens(pattern, 0, fl.noescape);
    assert text[0..] == text;
    if !fl.period {
      AcceptedIsPlain(ts, text, 0, 0, fl);
    } else if !fl.pathname {
      PeriodAlone(ts, text, fl);
    }
  }
}
