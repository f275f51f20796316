/** The first pass of glob: backslashes become protection bits. */
module GlobQuote {
  import opened GlobMatch
  import opened GlobCompile

  /**
    The pattern from i on.  When quoting, a backslash protects the character
    behind it; at the very end it protects itself.
   */
  function Quoted(s: seq<Byte>, i: nat, quote: bool): Pattern
    requires i <= |s|
    decreases |s| - i
  {
    if i == |s| then []
    else if !quote || s[i] != BACKSLASH then [s[i]] + Quoted(s, i + 1, quote)
    else if i + 1 == |s| then [BACKSLASH + PROTECT]
    else [s[i + 1] + PROTECT] + Quoted(s, i + 2, quote)
  }

  function Cut(p: Pattern): Pattern {
    if |p| <= MAXPATHLEN then p else p[..MAXPATHLEN]
  }

  lemma QuotedStep(s: seq<Byte>, i: nat, quote: bool)
    requires i < |s|
    ensures !quote || s[i] != BACKSLASH ==> Quoted(s, i, quote) == [s[i]] + Quoted(s, i + 1, quote)
    ensures quote && s[i] == BACKSLASH && i + 1 == |s| ==>
              Quoted(s, i, quote) == [BACKSLASH + PROTECT] + Quoted(s, i + 1, quote)
    ensures quote && s[i] == BACKSLASH && i + 1 < |s| ==>
              Quoted(s, i, quote) == [s[i + 1] + PROTECT] + Quoted(s, i + 2, quote)
  {
  }

  lemma QuotedEnd(s: seq<Byte>, quote: bool)
    ensures Quoted(s, |s|, quote) == []
  {
  }

  lemma Shift(done: seq<int>, c: int, rest: seq<int>)
    ensures done + ([c] + rest) == done + [c] + rest
  {
  }

  /** Copy the pattern to patbuf, which holds MAXPATHLEN characters and a terminator. */
  method Protect(pattern: seq<Byte>, quote: bool, patbuf: array<int>) returns (n: nat)
    requires patbuf.Length == MAXPATHLEN + 1
    modifies patbuf
    ensures n <= MAXPATHLEN && patbuf[n] == 0
    ensures patbuf[..n] == Cut(Quoted(pattern, 0, quote))
  {
    hide Quoted;
    n := 0;
    var i := 0;
    assert patbuf[..0] + Quoted(pattern, 0, quote) == Quoted(pattern, 0, quote);
    while n < MAXPATHLEN && i < |pattern|
      invariant n <= MAXPATHLEN && i <= |pattern|
      invariant patbuf[..n] + Quoted(pattern, i, quote) == Quoted(pattern, 0, quote)
      decreases |pattern| - i
    {
      ghost var done := patbuf[..n];
      QuotedStep(pattern, i, quote);
      var c: int := pattern[i];
      i := i + 1;
      if quote && c == BACKSLASH {
        if i < |pattern| {
          c := pattern[i];
          i := i + 1;
        }
        c := c + PROTECT;
      }
      Shift(done, c, Quoted(pattern, i, quote));
      patbuf[n] := c;
      n := n + 1;
      assert patbuf[..n] == done + [c];
    }
    ghost var done := patbuf[..n];
    assert i == |pattern| ==> Quoted(pattern, i, quote) == [] && done + [] == done by { QuotedEnd(pattern, quote); }
    patbuf[n] := 0;
    assert patbuf[..n] == done;
  }

  // ----------------------------------------------- protected means literal

  /** Every character with a backslash in front. */
  function Escape(s: seq<Byte>): seq<Byte> {
    if s == [] then [] else [BACKSLASH, s[0]] + Escape(s[1..])
  }

  function Protected(s: seq<Byte>): (p: Pattern)
    ensures |p| == |s| && forall i :: 0 <= i < |s| ==> p[i] == s[i] + PROTECT
  {
    if s == [] then [] else [s[0] + PROTECT] + Protected(s[1..])
  }

  function Literals(s: seq<Byte>): seq<Token> {
    if s == [] then [] else [Lit(s[0])] + Literals(s[1..])
  }

  lemma {:induction false} EscapeProtects(u: seq<Byte>, s: seq<Byte>)
    ensures Quoted(u + Escape(s), |u|, true) == Protected(s)
    decreases |s|
  {
    if s != [] {
      var v := u + [BACKSLASH, s[0]];
      assert u + Escape(s) == v + Escape(s[1..]);
      EscapeProtects(v, s[1..]);
    }
  }

  lemma {:induction false} ProtectedIsLiteral(s: seq<Byte>, i: nat, amiga: bool)
    requires i <= |s|
    ensures Tokens(Protected(s), i, amiga) == Literals(s[i..])
    decreases |s| - i
  {
    if i < |s| {
      ProtectedIsLiteral(s, i + 1, amiga);
      assert s[i..][1..] == s[i + 1..];
    }
  }

  /** The same name, up to case if case does not matter. */
  predicate SameName(a: seq<Byte>, b: seq<Byte>, nocase: bool) {
    |a| == |b| && forall i :: 0 <= i < |a| ==> Fold(a[i], nocase) == Fold(b[i], nocase)
  }

  lemma {:induction false} LiteralsMatchThemselves(s: seq<Byte>, name: seq<Byte>, nocase: bool)
    ensures Matches(Literals(s), name, nocase) <==> SameName(s, name, nocase)
  {
    if s != [] && name != [] {
      LiteralsMatchThemselves(s[1..], name[1..], nocase);
      SameStep(s, name, nocase);
    }
  }

  lemma SameStep(a: seq<Byte>, b: seq<Byte>, nocase: bool)
    requires a != [] && b != []
    ensures SameName(a, b, nocase) <==> Fold(a[0], nocase) == Fold(b[0], nocase) && SameName(a[1..], b[1..], nocase)
  {
    if SameName(a[1..], b[1..], nocase) && Fold(a[0], nocase) == Fold(b[0], nocase) {
      forall i | 0 <= i < |a| ensures |a| == |b| && Fold(a[i], nocase) == Fold(b[i], nocase) {
        assert |a[1..]| == |b[1..]|;
        if i > 0 { assert Fold(a[1..][i - 1], nocase) == Fold(b[1..][i - 1], nocase); }
      }
    }
  }

  /** As much of a name as the buffer holds. */
  function Held(s: seq<Byte>): seq<Byte> {
    if |s| <= MAXPATHLEN then s else s[..MAXPATHLEN]
  }

  /**
    A fully escaped name, whatever it contains, is a pattern for that name
    alone, as far as it fits the buffer.
   */
  lemma EscapedMatchesOnlyItself(s: seq<Byte>, name: seq<Byte>, amiga: bool, nocase: bool)
    ensures Matches(Tokens(Cut(Quoted(Escape(s), 0, true)), 0, amiga), name, nocase)
            <==> SameName(Held(s), name, nocase)
  {
    EscapeProtects([], s);
    assert [] + Escape(s) == Escape(s);
    assert Cut(Protected(s)) == Protected(Held(s));
    ProtectedIsLiteral(Held(s), 0, amiga);
    assert Held(s)[0..] == Held(s);
    LiteralsMatchThemselves(Held(s), name, nocase);
  }

  /**
    Quoting, compiling and matching, on buffers: of all names, a fully escaped
    one that fits the buffer accepts itself only.
   */
  method EscapedNameFound(s: seq<Byte>, name: seq<Byte>, amiga: bool, nocase: bool) returns (r: bool)
    requires |s| <= MAXPATHLEN
    ensures r <==> SameName(s, name, nocase)
  {
    hide Quoted, Tokens, Matches, SameName;
    var patbuf := new int[MAXPATHLEN + 1];
    var n := Protect(Escape(s), true, patbuf);
    ghost var p := Cut(Quoted(Escape(s), 0, true));
    assert forall i :: 0 <= i < n ==> patbuf[i] == patbuf[..n][i];
    r := CompileThenMatch(patbuf, patbuf, name, amiga, nocase, p);
    EscapedMatchesOnlyItself(s, name, amiga, nocase);
  }
}
