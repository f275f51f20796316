/**
  What FNM_PERIOD promises is that a leading period is matched by a period.
  fnmatch never rejects what the promise allows.  Code and promise both come
  down to the plain meaning of the pattern and a walk over its segments, which
  tells exactly when the promise is broken.
 */
module FnmatchPeriod {
  import opened Option
  import opened Fnmatch

  predicate IsWild(t: Token) {
    t.Any? || t.Star? || t.Set?
  }

  /** The meaning of a pattern when no wildcard may meet a leading period, wherever it comes. */
  ghost predicate Strict(ts: seq<Token>, s: Text, j: nat, start: nat, fl: Flags)
    requires start <= j <= |s|
    decreases |ts|
  {
    if ts == [] then j == |s|
    else if ts[0].Star? then
      && !Guarded(s, j, start, fl)
      && exists k :: j <= k <= |s| && Free(s, j, k, fl.pathname) && Strict(ts[1..], s, k, start, fl)
    else
      && j < |s| && Accepts(ts[0], s[j], fl.pathname)
      && (IsWild(ts[0]) ==> !Guarded(s, j, start, fl))
      && Strict(ts[1..], s, j + 1, start, fl)
  }

  /** Whatever the promise allows is accepted, also once the flag has been forgotten. */
  lemma {:induction false} StrictIsAccepted(ts: seq<Token>, s: Text, j: nat, start: nat, fl: Flags, gl: Flags)
    requires start <= j <= |s| && (gl == fl || gl == fl.(period := false))
    requires Strict(ts, s, j, start, fl)
    ensures Accepted(ts, s, j, start, gl)
    decreases |ts|
  {
    if ts != [] && ts[0].Star? {
      var k :| j <= k <= |s| && Free(s, j, k, fl.pathname) && Strict(ts[1..], s, k, start, fl);
      StrictIsAccepted(ts[1..], s, k, start, fl, AfterStar(ts[1..], gl));
    } else if ts != [] {
      StrictIsAccepted(ts[1..], s, j + 1, start, fl, gl);
    }
  }

  /** No brackets, and no star before anything but the end, a star or a plain slash. */
  predicate KeepsPromise(ts: seq<Token>, fl: Flags) {
    ts == [] || (!ts[0].Set? && (ts[0].Star? ==> KeepsPeriod(ts[1..], fl)) && KeepsPromise(ts[1..], fl))
  }

  /** For such patterns the answer is what the flag promises, on every string. */
  lemma {:induction false} PromiseKept(ts: seq<Token>, s: Text, j: nat, start: nat, fl: Flags)
    requires start <= j <= |s| && KeepsPromise(ts, fl)
    ensures Accepted(ts, s, j, start, fl) <==> Strict(ts, s, j, start, fl)
    decreases |ts|
  {
    if ts != [] && ts[0].Star? {
      forall k | j <= k <= |s|
        ensures Accepted(ts[1..], s, k, start, fl) <==> Strict(ts[1..], s, k, start, fl)
      {
        PromiseKept(ts[1..], s, k, start, fl);
      }
    } else if ts != [] && j < |s| {
      PromiseKept(ts[1..], s, j + 1, start, fl);
    }
  }

  /** Some leading period lies ahead. */
  ghost predicate Exposed(s: Text, j: nat, start: nat, fl: Flags)
    requires start <= j
  {
    exists k :: j <= k && Guarded(s, k, start, fl)
  }

  /** Without one the flag makes no difference, to the code or to the promise. */
  lemma {:induction false} Harmless(ts: seq<Token>, s: Text, j: nat, start: nat, fl: Flags, gl: Flags)
    requires start <= j <= |s| && !Exposed(s, j, start, fl) && (gl == fl || gl == fl.(period := false))
    ensures Accepted(ts, s, j, start, gl) <==> Strict(ts, s, j, start, fl)
    decreases |ts|
  {
    if ts != [] && ts[0].Star? {
      forall k | j <= k <= |s|
        ensures Accepted(ts[1..], s, k, start, AfterStar(ts[1..], gl)) <==> Strict(ts[1..], s, k, start, fl)
      {
        Harmless(ts[1..], s, k, start, fl, AfterStar(ts[1..], gl));
      }
    } else if ts != [] && j < |s| {
      Harmless(ts[1..], s, j + 1, start, fl, gl);
    }
  }

  // ------------------------------------------------------ the exact condition

  /** The first slash at or after j; the end if there is none. */
  function SlashFrom(s: Text, j: nat): (f: nat)
    requires j <= |s|
    ensures j <= f <= |s| && (f < |s| ==> s[f] == SLASH)
    decreases |s| - j
  {
    if j == |s| || s[j] == SLASH then j else SlashFrom(s, j + 1)
  }

  /**
    The pattern begins with a wildcard where the string has a leading period.
    The code does not count brackets among the wildcards.
   */
  predicate Meets(ts: seq<Token>, s: Text, j: nat, start: nat, fl: Flags, code: bool)
    requires start <= j
  {
    ts != [] && IsWild(ts[0]) && (code ==> !ts[0].Set?) && Guarded(s, j, start, fl)
  }

  /**
    The same for some later segment: each slash of the pattern goes with the
    next slash of the string.  The code may forget the flag at a star.
   */
  predicate Ahead(ts: seq<Token>, s: Text, j: nat, start: nat, fl: Flags, code: bool)
    requires start <= j <= |s|
    decreases |ts|
  {
    if ts == [] then false
    else if ts[0].Star? then Ahead(ts[1..], s, j, start, if code then AfterStar(ts[1..], fl) else fl, code)
    else if ts[0].Lit? && ts[0].c == SLASH then
      var f := SlashFrom(s, j);
      f < |s| && (Meets(ts[1..], s, f + 1, start, fl, code) || Ahead(ts[1..], s, f + 1, start, fl, code))
    else Ahead(ts[1..], s, j, start, fl, code)
  }

  /** Some segment of the pattern puts a wildcard on a leading period. */
  predicate Trips(ts: seq<Token>, s: Text, j: nat, start: nat, fl: Flags, code: bool)
    requires start <= j <= |s|
  {
    Meets(ts, s, j, start, fl, code) || Ahead(ts, s, j, start, fl, code)
  }

  /** Within a segment it does not matter where the walk starts. */
  lemma {:induction false} AheadSame(ts: seq<Token>, s: Text, j: nat, k: nat, start: nat, fl: Flags, code: bool)
    requires start <= j <= k <= |s| && Free(s, j, k, true)
    ensures Ahead(ts, s, j, start, fl, code) <==> Ahead(ts, s, k, start, fl, code)
    decreases |ts|
  {
    SlashSame(s, j, k);
    if ts != [] && !(ts[0].Lit? && ts[0].c == SLASH) {
      AheadSame(ts[1..], s, j, k, start, if ts[0].Star? && code then AfterStar(ts[1..], fl) else fl, code);
    }
  }

  lemma {:induction false} SlashSame(s: Text, j: nat, k: nat)
    requires j <= k <= |s| && Free(s, j, k, true)
    ensures SlashFrom(s, j) == SlashFrom(s, k)
    decreases k - j
  {
    if j < k { SlashSame(s, j + 1, k); }
  }

  /** Without FNM_PATHNAME there is one segment only. */
  lemma {:induction false} OneSegment(ts: seq<Token>, s: Text, j: nat, start: nat, fl: Flags, code: bool)
    requires start <= j <= |s| && !fl.pathname
    ensures !Ahead(ts, s, j, start, fl, code)
    decreases |ts|
  {
    if ts != [] {
      var slash := ts[0].Lit? && ts[0].c == SLASH;
      var gl := if ts[0].Star? && code then AfterStar(ts[1..], fl) else fl;
      if !slash { OneSegment(ts[1..], s, j, start, gl, code); }
      else if SlashFrom(s, j) < |s| { OneSegment(ts[1..], s, SlashFrom(s, j) + 1, start, fl, code); }
    }
  }

  /** What a star passes over leaves the walk as it is, and is followed by no leading period. */
  lemma StarPasses(ts: seq<Token>, s: Text, j: nat, k: nat, start: nat, fl: Flags, code: bool)
    requires start <= j <= k <= |s| && Free(s, j, k, fl.pathname) && !Guarded(s, j, start, fl)
    ensures Trips(ts, s, k, start, fl, code) <==> Ahead(ts, s, j, start, fl, code)
  {
    if fl.pathname {
      AheadSame(ts, s, j, k, start, fl, code);
    } else {
      OneSegment(ts, s, j, start, fl, code);
      OneSegment(ts, s, k, start, fl, code);
    }
  }

  /** The same for one character that is accepted by a token. */
  lemma CharPasses(ts: seq<Token>, s: Text, j: nat, start: nat, fl: Flags, code: bool)
    requires start <= j < |s| && ts != [] && !ts[0].Star? && Accepts(ts[0], s[j], fl.pathname)
    ensures Trips(ts[1..], s, j + 1, start, fl, code) <==> Ahead(ts, s, j, start, fl, code)
  {
    if !fl.pathname {
      OneSegment(ts[1..], s, j + 1, start, fl, code);
      OneSegment(ts, s, j, start, fl, code);
    } else if s[j] != SLASH {
      AheadSame(ts[1..], s, j, j + 1, start, fl, code);
    }
  }

  /** What the promise allows: the plain meaning, and no wildcard on a leading period. */
  lemma {:induction false} StrictWalk(ts: seq<Token>, s: Text, j: nat, start: nat, fl: Flags)
    requires start <= j <= |s|
    ensures Strict(ts, s, j, start, fl)
            <==> Accepted(ts, s, j, start, fl.(period := false)) && !Trips(ts, s, j, start, fl, false)
    decreases |ts|
  {
    if ts != [] && ts[0].Star? {
      if !Guarded(s, j, start, fl) {
        forall k | j <= k <= |s| && Free(s, j, k, fl.pathname)
          ensures Strict(ts[1..], s, k, start, fl)
                  <==> Accepted(ts[1..], s, k, start, fl.(period := false)) && !Ahead(ts[1..], s, j, start, fl, false)
        {
          StrictWalk(ts[1..], s, k, start, fl);
          StarPasses(ts[1..], s, j, k, start, fl, false);
        }
      }
    } else if ts != [] && j < |s| && Accepts(ts[0], s[j], fl.pathname) {
      StrictWalk(ts[1..], s, j + 1, start, fl);
      CharPasses(ts, s, j, start, fl, false);
    }
  }

  /** What the code accepts: the same with brackets not counted, and the flag forgotten on the way. */
  lemma {:induction false} AcceptedWalk(ts: seq<Token>, s: Text, j: nat, start: nat, fl: Flags)
    requires start <= j <= |s|
    ensures Accepted(ts, s, j, start, fl)
            <==> Accepted(ts, s, j, start, fl.(period := false)) && !Trips(ts, s, j, start, fl, true)
    decreases |ts|
  {
    if ts != [] && ts[0].Star? {
      var gl := AfterStar(ts[1..], fl);
      if !Guarded(s, j, start, fl) {
        forall k | j <= k <= |s| && Free(s, j, k, fl.pathname)
          ensures Accepted(ts[1..], s, k, start, gl)
                  <==> Accepted(ts[1..], s, k, start, fl.(period := false)) && !Ahead(ts[1..], s, j, start, gl, true)
        {
          AcceptedWalk(ts[1..], s, k, start, gl);
          StarPasses(ts[1..], s, j, k, start, gl, true);
        }
      }
    } else if ts != [] && j < |s| && Accepts(ts[0], s[j], fl.pathname) {
      AcceptedWalk(ts[1..], s, j + 1, start, fl);
      CharPasses(ts, s, j, start, fl, true);
    }
  }

  /**
    Code and promise are the plain meaning and one walk each, for every flag
    combination.  So the promise is broken exactly on strings the pattern
    matches, where a wildcard meets a leading period and the code's walk does
    not find it.
   */
  lemma PromiseExact(ts: seq<Token>, s: Text, fl: Flags)
    ensures Strict(ts, s, 0, 0, fl) <==> Matches(ts, s, fl.pathname) && !Trips(ts, s, 0, 0, fl, false)
    ensures Accepted(ts, s, 0, 0, fl) <==> Matches(ts, s, fl.pathname) && !Trips(ts, s, 0, 0, fl, true)
    ensures Matches(ts, s, fl.pathname) ==>
              ((Accepted(ts, s, 0, 0, fl) <==> Strict(ts, s, 0, 0, fl))
               <==> (Trips(ts, s, 0, 0, fl, false) ==> Trips(ts, s, 0, 0, fl, true)))
    ensures Trips(ts, s, 0, 0, fl, true) && Matches(ts, s, fl.pathname) ==> Trips(ts, s, 0, 0, fl, false)
  {
    StrictWalk(ts, s, 0, 0, fl);
    AcceptedWalk(ts, s, 0, 0, fl);
    AcceptedIsPlain(ts, s, 0, 0, fl.(period := false));
    assert s[0..] == s;
    if Strict(ts, s, 0, 0, fl) { StrictIsAccepted(ts, s, 0, 0, fl, fl); }
  }

  /** Without FNM_PATHNAME the promise is about the first character, and broken by brackets alone. */
  lemma BrokenAlone(ts: seq<Token>, s: Text, fl: Flags)
    requires fl.period && !fl.pathname
    ensures Strict(ts, s, 0, 0, fl)
            <==> Matches(ts, s, false) && !(At(s, 0) == DOT && ts != [] && IsWild(ts[0]))
    ensures Matches(ts, s, false) ==>
              ((Accepted(ts, s, 0, 0, fl) <==> Strict(ts, s, 0, 0, fl))
               <==> !(At(s, 0) == DOT && ts != [] && ts[0].Set?))
  {
    PromiseExact(ts, s, fl);
    OneSegment(ts, s, 0, 0, fl, false);
    OneSegment(ts, s, 0, 0, fl, true);
  }

  const BOTH := Flags(false, true, true)

  /** A bracket may meet a leading period: [!a] accepts a lone period. */
  lemma BracketMeetsPeriod()
    ensures var p: Text := [OPEN, BANG, 97, CLOSE]; var s: Text := [DOT]; var ts := Tokens(p, 0, false);
            Accepted(ts, s, 0, 0, BOTH) && !Strict(ts, s, 0, 0, BOTH)
  {
    var p: Text := [OPEN, BANG, 97, CLOSE];
    assert Items(p, 3, false) == Some(([], 4)) && [One(97)] + [] == [One(97)];
    assert Element(p, 2, false) == Some((97, 3));
    assert Items(p, 2, false) == Prepend(One(97), Items(p, 3, false));
    FirstToken(p, 4, false);
    assert Tokens(p, 0, false) == [Set(true, [One(97)])] + Tokens(p, 4, false);
    assert !InItems(DOT, [One(97)]);
  }

  /** The tokens of the pattern that is a star, an a, a slash and a question mark. */
  lemma StarTokens(p: Text)
    requires p == [STAR, 97, SLASH, QUESTION]
    ensures Tokens(p, 0, false) == [Star, Lit(97, false), Lit(SLASH, false), Any]
  {
    assert Tokens(p, 3, false) == [Any] + Tokens(p, 4, false) == [Any];
    assert Tokens(p, 2, false) == [Lit(SLASH, false)] + Tokens(p, 3, false);
    assert Tokens(p, 1, false) == [Lit(97, false)] + Tokens(p, 2, false);
  }

  /** Behind a star in front of a letter the flag is forgotten: that pattern accepts a/. */
  lemma StarForgetsPeriod()
    ensures var p: Text := [STAR, 97, SLASH, QUESTION]; var s: Text := [97, SLASH, DOT];
            var ts := Tokens(p, 0, false);
            Accepted(ts, s, 0, 0, BOTH) && !Strict(ts, s, 0, 0, BOTH)
  {
    StarTokens([STAR, 97, SLASH, QUESTION]);
    hide Tokens;
    var ts := [Star, Lit(97, false), Lit(SLASH, false), Any];
    var s: Text := [97, SLASH, DOT];
    var u, v, w := ts[1..], ts[1..][1..], ts[1..][1..][1..];
    assert u[0] == Lit(97, false) && v[0] == Lit(SLASH, false) && w == [Any] && w[1..] == [];
    var gl := BOTH.(period := false);
    assert Accepted(w[1..], s, 3, 0, gl);
    assert Accepted(w, s, 2, 0, gl);
    assert Accepted(v, s, 1, 0, gl);
    assert Accepted(u, s, 0, 0, gl) && Free(s, 0, 0, true);
    assert !Strict(w, s, 2, 0, BOTH);
    assert !Strict(v, s, 1, 0, BOTH);
    forall k | 0 <= k <= 3 ensures !Strict(u, s, k, 0, BOTH) {
      assert k < 3 ==> s[k] == if k == 0 then 97 else if k == 1 then SLASH else DOT;
    }
  }
}
