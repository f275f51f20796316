/**
  Brace expansion of glob patterns: globexp1 and globexp2, and what they
  deliver for a pattern whose braces are all matched.
 */
module GlobBrace {
  import opened GlobMatch

  const LBRACE := 123
  const RBRACE := 125
  const COMMA := 44

  /** A call of glob0: on a pattern, or on a buffer whose end was never marked. */
  datatype Call = Glob(pattern: Pattern) | Unmarked(prefix: Pattern)

  const HOLLOW: Pattern := [LBRACE, RBRACE]

  // ------------------------------------------------- what the two routines do

  /** The first occurrence of c at or after i; the length if there is none. */
  function Find(p: Pattern, c: int, i: nat): (j: nat)
    requires i <= |p|
    ensures i <= j <= |p| && (j < |p| ==> p[j] == c) && forall k :: i <= k < j ==> p[k] != c
    decreases |p| - i
  {
    if i == |p| || p[i] == c then i else Find(p, c, i + 1)
  }

  /** Behind the bracket expression opened at i, or behind the bracket alone if it is never closed. */
  function SkipBracket(p: Pattern, i: nat): (j: nat)
    requires i < |p|
    ensures i < j <= |p|
  {
    var e := Find(p, CLOSE, i + 1);
    if e == |p| then i + 1 else e + 1
  }

  /** The brace that balances, from i on, with depth braces still open; the length if there is none. */
  function Balance(p: Pattern, i: nat, depth: nat): (j: nat)
    requires i <= |p|
    ensures i <= j <= |p| && (j < |p| ==> p[j] == RBRACE)
    decreases |p| - i
  {
    if i == |p| then i
    else if p[i] == OPEN then Balance(p, SkipBracket(p, i), depth)
    else if p[i] == LBRACE then Balance(p, i + 1, depth + 1)
    else if p[i] == RBRACE then if depth == 0 then i else Balance(p, i + 1, depth - 1)
    else Balance(p, i + 1, depth)
  }

  /**
    The alternatives up to the closing brace at e: pl is where the current one
    is taken to begin, which an opening bracket moves forward.
   */
  function Alternatives(p: Pattern, pl: nat, pm: nat, e: nat, depth: nat): (r: seq<Pattern>)
    requires pl <= pm && e < |p|
    ensures forall i :: 0 <= i < |r| ==> |r[i]| <= e - pl
    decreases e + 1 - pm
  {
    if pm > e then []
    else if p[pm] == OPEN then Alternatives(p, pm, SkipBracket(p, pm), e, depth)
    else if p[pm] == LBRACE then Alternatives(p, pl, pm + 1, e, depth + 1)
    else if p[pm] == RBRACE && depth > 0 then Alternatives(p, pl, pm + 1, e, depth - 1)
    else if p[pm] == RBRACE || (p[pm] == COMMA && depth == 0) then
      [p[pl..pm]] + Alternatives(p, pm + 1, pm + 1, e, 0)
    else Alternatives(p, pl, pm + 1, e, depth)
  }

  /** The calls of glob0 that globexp1 makes for a pattern. */
  function Expand(p: Pattern): seq<Call>
    decreases |p|, 1
  {
    var i := Find(p, LBRACE, 0);
    if p == HOLLOW || i == |p| then [Glob(p)]
    else
      var e := Balance(p, i + 1, 0);
      if e == |p| then [Unmarked(p[..i])]
      else ExpandEach(p, i, e, Alternatives(p, i + 1, i + 1, e, 0))
  }

  /** The same for each alternative put in place of the braces between i and e. */
  function ExpandEach(p: Pattern, i: nat, e: nat, alts: seq<Pattern>): seq<Call>
    requires i < e < |p| && forall j :: 0 <= j < |alts| ==> |alts[j]| <= e - i - 1
    decreases |p|, 0, |alts|
  {
    if alts == [] then []
    else Expand(p[..i] + alts[0] + p[e + 1..]) + ExpandEach(p, i, e, alts[1..])
  }

  /** globexp1.  Every pattern it builds is shorter than the one it was given, so it fits the buffer. */
  method Globexp1(pattern: Pattern) returns (calls: seq<Call>)
    requires |pattern| <= MAXPATHLEN
    ensures calls == Expand(pattern)
    decreases |pattern|, 2
  {
    if |pattern| == 2 && pattern[0] == LBRACE && pattern[1] == RBRACE {
      return [Glob(pattern)];
    }
    var ptr := 0;
    while ptr < |pattern| && pattern[ptr] != LBRACE
      invariant ptr <= |pattern| && Find(pattern, LBRACE, ptr) == Find(pattern, LBRACE, 0)
    {
      ptr := ptr + 1;
    }
    if ptr < |pattern| {
      calls := Globexp2(ptr, pattern);
    } else {
      calls := [Glob(pattern)];
    }
  }

  /** Ignore everything between brackets: from the opening bracket at i to behind its end. */
  method Ignore(pattern: Pattern, i: nat) returns (j: nat)
    requires i < |pattern|
    ensures j == SkipBracket(pattern, i)
  {
    j := i + 1;
    while j < |pattern| && pattern[j] != CLOSE
      invariant i < j <= |pattern| && Find(pattern, CLOSE, j) == Find(pattern, CLOSE, i + 1)
    {
      j := j + 1;
    }
    if j == |pattern| {
      j := i;
    }
    j := j + 1;
  }

  /** The first loop of globexp2: find the balanced brace. */
  method FindBalance(pattern: Pattern, start: nat) returns (pe: nat)
    requires start <= |pattern|
    ensures pe == Balance(pattern, start, 0)
  {
    var i := 0;
    pe := start;
    while pe < |pattern|
      invariant start <= pe <= |pattern| && i >= 0
      invariant Balance(pattern, pe, i) == Balance(pattern, start, 0)
    {
      if pattern[pe] == OPEN {
        pe := Ignore(pattern, pe);
      } else {
        if pattern[pe] == LBRACE {
          i := i + 1;
        } else if pattern[pe] == RBRACE {
          if i == 0 {
            return;
          }
          i := i - 1;
        }
        pe := pe + 1;
      }
    }
  }

  /** globexp2: expand the brace at ptr. */
  method Globexp2(ptr: nat, pattern: Pattern) returns (calls: seq<Call>)
    requires ptr < |pattern| <= MAXPATHLEN && ptr == Find(pattern, LBRACE, 0) && pattern != HOLLOW
    ensures calls == Expand(pattern)
    decreases |pattern|, 1
  {
    var patbuf := pattern[..ptr];
    var pe := FindBalance(pattern, ptr + 1);
    if pe == |pattern| {
      return [Unmarked(patbuf)];
    }
    calls := Globexp3(ptr, pattern, pe);
  }

  /** The second loop of globexp2: each alternative in turn. */
  method Globexp3(ptr: nat, pattern: Pattern, pe: nat) returns (calls: seq<Call>)
    requires ptr < pe < |pattern| <= MAXPATHLEN
    ensures calls == ExpandEach(pattern, ptr, pe, Alternatives(pattern, ptr + 1, ptr + 1, pe, 0))
    decreases |pattern|, 0
  {
    hide Expand, ExpandEach, Find, SkipBracket;
    calls := [];
    EachNone(pattern, ptr, pe);
    ghost var all := ExpandEach(pattern, ptr, pe, Alternatives(pattern, ptr + 1, ptr + 1, pe, 0));
    var i, pl, pm := 0, ptr + 1, ptr + 1;
    while pm <= pe
      invariant ptr < pl <= pm <= |pattern| && i >= 0
      invariant calls + ExpandEach(pattern, ptr, pe, Alternatives(pattern, pl, pm, pe, i)) == all
      decreases pe + 1 - pm
    {
      var c := pattern[pm];
      if c == OPEN {
        pl := pm;
        pm := Ignore(pattern, pm);
      } else {
        if c == LBRACE {
          i := i + 1;
        } else if c == RBRACE && i > 0 {
          i := i - 1;
        } else if c == RBRACE || (c == COMMA && i == 0) {
          var patbuf := pattern[..ptr] + pattern[pl..pm] + pattern[pe + 1..];
          var more := Globexp1(patbuf);
          EachFirst(pattern, ptr, pe, pattern[pl..pm], Alternatives(pattern, pm + 1, pm + 1, pe, 0));
          calls := calls + more;
          pl := pm + 1;
        }
        pm := pm + 1;
      }
    }
  }

  lemma EachNone(p: Pattern, i: nat, e: nat)
    requires i < e < |p|
    ensures ExpandEach(p, i, e, []) == []
  {
  }

  lemma EachFirst(p: Pattern, i: nat, e: nat, alt: Pattern, alts: seq<Pattern>)
    requires i < e < |p| && |alt| <= e - i - 1 && forall j :: 0 <= j < |alts| ==> |alts[j]| <= e - i - 1
    ensures ExpandEach(p, i, e, [alt] + alts) == Expand(p[..i] + alt + p[e + 1..]) + ExpandEach(p, i, e, alts)
  {
    assert ([alt] + alts)[1..] == alts;
  }
}
