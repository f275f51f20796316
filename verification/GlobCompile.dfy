/**
  The compile loop of glob0.  Source and destination may be one and the same
  buffer, as they are after globtilde has expanded a home directory.
 */
module GlobCompile {
  import opened GlobMatch

  /** The source from q on has not been written over. */
  ghost predicate Unread(src: array<int>, p: Pattern, q: nat)
    reads src
  {
    |p| < src.Length && src[|p|] == 0 && forall i :: q <= i < |p| ==> src[i] == p[i]
  }

  /** g_strchr for a closing bracket; the length when there is none. */
  method FindClose(src: array<int>, i: nat, ghost p: Pattern) returns (j: nat)
    requires i <= |p| && Unread(src, p, i)
    ensures j == Closing(p, i)
  {
    j := i;
    while src[j] != 0 && src[j] != CLOSE
      invariant i <= j <= |p| && Closing(p, j) == Closing(p, i)
      decreases |p| - j
    {
      j := j + 1;
    }
  }

  lemma UnreadLater(src: array<int>, p: Pattern, i: nat, q: nat)
    requires Unread(src, p, i) && i <= q
    ensures Unread(src, p, q)
  {
  }

  /** What a read at or behind the cursor finds. */
  lemma ReadAt(src: array<int>, p: Pattern, i: nat, k: nat)
    requires Unread(src, p, i) && i <= k <= |p|
    ensures |p| < src.Length && src[k] == if k < |p| then p[k] else 0
  {
  }

  /** Store one code, before the read cursor q, and move on. */
  method Put(src: array<int>, dst: array<int>, b: nat, c: int, ghost p: Pattern, ghost q: nat) returns (n: nat)
    requires b < q <= |p| < dst.Length && Unread(src, p, q)
    modifies dst
    ensures n == b + 1 && dst[..n] == old(dst[..b]) + [c] && Unread(src, p, q)
  {
    dst[b] := c;
    n := b + 1;
  }

  lemma ItemsStep(p: Pattern, i: nat, e: nat)
    requires i < e < |p| && p[e] == CLOSE && forall k :: i < k < e ==> p[k] != CLOSE
    ensures var range := p[i + 1] == DASH && p[i + 2] != CLOSE;
            && i + 2 <= |p| && (p[i + 1] == DASH ==> i + 2 < |p|)
            && (range ==> i + 3 <= e && ItemCodes(Items(p[i..e]))
                          == [Strip(p[i]), M_RNG, Strip(p[i + 2])] + ItemCodes(Items(p[i + 3..e])))
            && (!range ==> i + 1 <= e && ItemCodes(Items(p[i..e])) == [Strip(p[i])] + ItemCodes(Items(p[i + 1..e])))
  {
    var s := p[i..e];
    assert p[i + 1] == DASH ==> i + 1 < e;
    if |s| >= 3 && s[1] == DASH {
      assert s[3..] == p[i + 3..e];
      assert s[2] == p[i + 2];
    } else {
      assert s[1..] == p[i + 1..e];
    }
  }

  lemma NoItems(p: Pattern, e: nat)
    requires e <= |p|
    ensures ItemCodes(Items(p[e..e])) == []
  {
  }

  /** The second half of a range. */
  method PutRange(src: array<int>, dst: array<int>, b0: nat, c: int, ghost p: Pattern, ghost q: nat) returns (b: nat)
    requires b0 + 1 < q <= |p| < dst.Length && Unread(src, p, q)
    modifies dst
    ensures b == b0 + 2 && Unread(src, p, q)
    ensures dst[..b] == old(dst[..b0]) + [M_RNG, if c > PROTECT then c - PROTECT else c]
  {
    hide Unread;
    b := Put(src, dst, b0, M_RNG, p, q);
    b := Put(src, dst, b, if c > PROTECT then c - PROTECT else c, p, q);
  }

  /** One element or range of a set, whose first character c was read just before q0. */
  method CompileItem(src: array<int>, dst: array<int>, b0: nat, q0: nat, c0: int, ghost p: Pattern, ghost e: nat)
    returns (b: nat, q: nat)
    requires b0 < q0 <= e < |p| && |p| < dst.Length && Unread(src, p, q0) && c0 == p[q0 - 1]
    requires p[e] == CLOSE && forall k :: q0 <= k < e ==> p[k] != CLOSE
    modifies dst
    ensures b <= q && q0 <= q <= e && Unread(src, p, q)
    ensures dst[..b] + ItemCodes(Items(p[q..e])) == old(dst[..b0]) + ItemCodes(Items(p[q0 - 1..e]))
  {
    hide Items, ItemCodes, Unread;
    ItemsStep(p, q0 - 1, e);
    ghost var start := dst[..b0];
    q := q0;
    b := Put(src, dst, b0, if c0 > PROTECT then c0 - PROTECT else c0, p, q0);
    ReadAt(src, p, q0, q0);
    ReadAt(src, p, q0, q0 + 1);
    if src[q] == DASH && src[q + 1] != CLOSE {
      var c := src[q + 1];
      UnreadLater(src, p, q0, q0 + 2);
      b := PutRange(src, dst, b, c, p, q0 + 2);
      q := q + 2;
      Three(start, Strip(c0), M_RNG, Strip(c), ItemCodes(Items(p[q..e])));
    } else {
      Associate(start, [Strip(c0)], ItemCodes(Items(p[q..e])));
    }
  }

  lemma Three(w: Codes, x: int, y: int, z: int, r: Codes)
    ensures w + [x] + [y, z] + r == w + ([x, y, z] + r)
  {
  }

  /** The body of a set: its items from q0 up to the closing bracket at e, then the end mark. */
  method CompileSet(src: array<int>, dst: array<int>, b0: nat, q0: nat, ghost p: Pattern, ghost e: nat)
    returns (b: nat, q: nat)
    requires Unread(src, p, q0) && |p| < dst.Length && b0 <= q0 < e < |p|
    requires p[e] == CLOSE && forall k :: q0 < k < e ==> p[k] != CLOSE
    modifies dst
    ensures q == e + 1 && b <= q && Unread(src, p, q)
    ensures dst[..b] == old(dst[..b0]) + ItemCodes(Items(p[q0..e])) + [M_END]
  {
    hide Items, ItemCodes, Unread;
    ReadAt(src, p, q0, q0);
    UnreadLater(src, p, q0, q0 + 1);
    ghost var whole := dst[..b0] + ItemCodes(Items(p[q0..e]));
    b, q := b0, q0;
    var c := src[q];
    q := q + 1;
    while true
      invariant b < q <= e && Unread(src, p, q) && c == p[q - 1]
      invariant dst[..b] + ItemCodes(Items(p[q - 1..e])) == whole
      decreases e - q
    {
      b, q := CompileItem(src, dst, b, q, c, p, e);
      ReadAt(src, p, q, q);
      UnreadLater(src, p, q, q + 1);
      c := src[q];
      q := q + 1;
      if c == CLOSE {
        break;
      }
    }
    NoItems(p, e);
    b := Put(src, dst, b, M_END, p, q);
  }

  /** The codes of the rest of a pattern, given whether a star was written last. */
  function Output(ts: seq<Token>, last: bool): Codes {
    Flatten(Collapse(ts, last))
  }

  lemma OutputFirst(ts: seq<Token>, last: bool)
    requires ts != []
    ensures ts[0].All? ==> Output(ts, last) == (if last then [] else [M_ALL]) + Output(ts[1..], true)
    ensures !ts[0].All? ==> Output(ts, last) == TokenCode(ts[0]) + Output(ts[1..], false)
  {
    if !(ts[0].All? && last) {
      var c := Collapse(ts, last);
      assert c[0] == ts[0] && c[1..] == Collapse(ts[1..], ts[0].All?);
    }
  }

  ghost predicate Magic(ts: seq<Token>) {
    exists i :: 0 <= i < |ts| && !ts[i].Lit?
  }

  lemma MagicFirst(ts: seq<Token>)
    requires ts != []
    ensures Magic(ts) <==> !ts[0].Lit? || Magic(ts[1..])
  {
    if Magic(ts[1..]) {
      var i :| 0 <= i < |ts[1..]| && !ts[1..][i].Lit?;
      assert !ts[i + 1].Lit?;
    }
    if Magic(ts) && ts[0].Lit? {
      var i :| 0 <= i < |ts| && !ts[i].Lit?;
      assert !ts[1..][i - 1].Lit?;
    }
  }

  /** The token at q was turned into codes; b and q moved on to b' and q'. */
  ghost predicate Wrote(before: Codes, after: Codes, p: Pattern, q: nat, q': nat, amiga: bool)
  {
    q < |p| && q < q' <= |p|
    && var ts := Tokens(p, q, amiga);
       ts != [] && ts[1..] == Tokens(p, q', amiga)
       && after == before + if ts[0].All? && EndsInStar(before) then [] else TokenCode(ts[0])
  }

  predicate EndsInStar(w: Codes) {
    w != [] && w[|w| - 1] == M_ALL
  }

  lemma WroteOutput(before: Codes, after: Codes, p: Pattern, q: nat, q': nat, amiga: bool)
    requires Wrote(before, after, p, q, q', amiga)
    ensures before + Output(Tokens(p, q, amiga), EndsInStar(before))
            == after + Output(Tokens(p, q', amiga), EndsInStar(after))
  {
    hide Tokens, Output, TokenCode;
    var ts := Tokens(p, q, amiga);
    OutputFirst(ts, EndsInStar(before));
    CodeEnds(ts[0]);
    assert EndsInStar(after) == ts[0].All?;
    var code := if ts[0].All? && EndsInStar(before) then [] else TokenCode(ts[0]);
    assert before + (code + Output(ts[1..], ts[0].All?)) == before + code + Output(ts[1..], ts[0].All?);
  }

  lemma CodeEnds(t: Token)
    ensures TokenCode(t) != [] && (TokenCode(t)[|TokenCode(t)| - 1] == M_ALL <==> t.All?)
    ensures t.All? ==> TokenCode(t) == [M_ALL]
  {
  }

  lemma WroteToken(before: Codes, code: Codes, p: Pattern, q: nat, q': nat, amiga: bool)
    requires q < q' <= |p| && Tokens(p, q, amiga) != [] && Tokens(p, q, amiga)[1..] == Tokens(p, q', amiga)
    requires code == if Tokens(p, q, amiga)[0].All? && EndsInStar(before) then []
                     else TokenCode(Tokens(p, q, amiga)[0])
    ensures Wrote(before, before + code, p, q, q', amiga)
  {
  }

  /** Whether the bracket opened at i is negated, and whether it is closed. */
  method Inspect(src: array<int>, i: nat, ghost p: Pattern) returns (not: bool, closed: bool)
    requires i < |p| && Unread(src, p, i)
    ensures Inside(p, i) == if not then i + 2 else i + 1
    ensures closed <==> Closed(p, i)
    ensures not <==> i + 1 < |p| && p[i + 1] == 33
    ensures closed <==> 93 in p[if i + (if not then 3 else 2) <= |p| then i + (if not then 3 else 2) else |p|..]
  {
    var q := i + 1;
    not := src[q] == BANG;
    if not {
      q := q + 1;
    }
    closed := src[q] != 0;
    if closed {
      var e := FindClose(src, q + 1, p);
      closed := src[e] != 0;
      assert p[q + 1..e] + p[e..] == p[q + 1..];
      assert e < |p| ==> p[e] == 93 && p[q + 1..][e - (q + 1)] == 93;
    }
  }

  /** The case of a set that is closed at e; its contents begin at q0. */
  method CompileClosed(src: array<int>, dst: array<int>, b0: nat, q0: nat, not: bool, ghost p: Pattern, ghost e: nat)
    returns (b: nat, q: nat)
    requires Unread(src, p, q0) && |p| < dst.Length && b0 + (if not then 2 else 1) <= q0 < e < |p|
    requires p[e] == CLOSE && forall k :: q0 < k < e ==> p[k] != CLOSE
    modifies dst
    ensures q == e + 1 && b <= q && Unread(src, p, q)
    ensures dst[..b] == old(dst[..b0]) + TokenCode(Set(not, Items(p[q0..e])))
  {
    hide Items, ItemCodes, Unread;
    ghost var start, items := dst[..b0], ItemCodes(Items(p[q0..e]));
    ghost var head := [M_SET] + if not then [M_NOT] else [];
    b := Put(src, dst, b0, M_SET, p, q0);
    if not {
      b := Put(src, dst, b, M_NOT, p, q0);
    }
    assert dst[..b] == start + head;
    b, q := CompileSet(src, dst, b, q0, p, e);
    assert start + head + items + [M_END] == start + (head + items + [M_END]);
  }

  /** The case of a bracket at i0 that is not closed: it stands for itself. */
  method CompileOpen(src: array<int>, dst: array<int>, b0: nat, i0: nat, ghost p: Pattern, ghost amiga: bool)
    returns (b: nat)
    requires b0 <= i0 < |p| < dst.Length && Unread(src, p, i0) && p[i0] == OPEN && !Closed(p, i0)
    modifies dst
    ensures b <= i0 + 1 && Unread(src, p, i0 + 1)
    ensures Wrote(old(dst[..b0]), dst[..b], p, i0, i0 + 1, amiga)
  {
    hide *;
    OpenToken(p, i0, amiga);
    LitCode(OPEN);
    WroteToken(dst[..b0], [OPEN], p, i0, i0 + 1, amiga);
    UnreadLater(src, p, i0, i0 + 1);
    b := Put(src, dst, b0, OPEN, p, i0 + 1);
  }

  /** The case of one that is closed. */
  method CompileWhole(src: array<int>, dst: array<int>, b0: nat, i0: nat, not: bool,
                      ghost p: Pattern, ghost amiga: bool)
    returns (b: nat, q: nat)
    requires b0 <= i0 < |p| < dst.Length && Unread(src, p, i0) && p[i0] == OPEN && Closed(p, i0)
    requires Inside(p, i0) == if not then i0 + 2 else i0 + 1
    modifies dst
    ensures b <= q <= |p| && Unread(src, p, q)
    ensures Wrote(old(dst[..b0]), dst[..b], p, i0, q, amiga)
  {
    hide *;
    SetToken(p, i0, amiga);
    ghost var start, e := dst[..b0], Closing(p, Inside(p, i0) + 1);
    var q0 := if not then i0 + 2 else i0 + 1;
    UnreadLater(src, p, i0, q0);
    b, q := CompileClosed(src, dst, b0, q0, not, p, e);
    WroteToken(start, TokenCode(Tokens(p, i0, amiga)[0]), p, i0, q, amiga);
  }

  /** The case of an opening bracket at i0. */
  method CompileBracket(src: array<int>, dst: array<int>, b0: nat, i0: nat, ghost p: Pattern, ghost amiga: bool)
    returns (b: nat, q: nat, magic: bool)
    requires b0 <= i0 < |p| < dst.Length && Unread(src, p, i0) && p[i0] == OPEN
    modifies dst
    ensures b <= q <= |p| && Unread(src, p, q)
    ensures Wrote(old(dst[..b0]), dst[..b], p, i0, q, amiga)
    ensures magic <==> !Tokens(p, i0, amiga)[0].Lit?
  {
    hide *;
    var not, closed := Inspect(src, i0, p);
    if closed {
      SetToken(p, i0, amiga);
      b, q := CompileWhole(src, dst, b0, i0, not, p, amiga);
    } else {
      OpenToken(p, i0, amiga);
      b := CompileOpen(src, dst, b0, i0, p, amiga);
      q := i0 + 1;
    }
    magic := closed;
  }

  lemma LitCode(c: Byte)
    ensures TokenCode(Lit(c)) == [c]
  {
  }

  /** What stands at an opening bracket that is closed ... */
  lemma SetToken(p: Pattern, i: nat, amiga: bool)
    requires i < |p| && p[i] == OPEN && Closed(p, i)
    ensures var ts, b := Tokens(p, i, amiga), Inside(p, i);
            var e := Closing(p, b + 1);
            && b < e < |p| && p[e] == CLOSE && (forall k :: b < k < e ==> p[k] != CLOSE)
            && ts != [] && ts[0] == Set(b == i + 2, Items(p[b..e])) && ts[1..] == Tokens(p, e + 1, amiga)
  {
    hide Items, Closing;
  }

  /** ... and at one that is not. */
  lemma OpenToken(p: Pattern, i: nat, amiga: bool)
    requires i < |p| && p[i] == OPEN && !Closed(p, i)
    ensures var ts := Tokens(p, i, amiga);
            ts != [] && ts[0] == Lit(OPEN) && ts[1..] == Tokens(p, i + 1, amiga)
  {
    hide Items, Closing, Closed;
  }

  /** What stands at any other character. */
  lemma PlainToken(p: Pattern, i: nat, amiga: bool)
    requires i < |p| && p[i] != OPEN
    ensures var ts := Tokens(p, i, amiga);
            ts != [] &&
            if p[i] == QUESTION then ts[0] == Any && ts[1..] == Tokens(p, i + 1, amiga)
            else if p[i] == STAR then ts[0] == All && ts[1..] == Tokens(p, i + 1, amiga)
            else if p[i] == HASH && amiga && i + 1 < |p| && p[i + 1] == QUESTION then
              ts[0] == All && ts[1..] == Tokens(p, i + 2, amiga)
            else ts[0] == Lit(Strip(p[i])) && ts[1..] == Tokens(p, i + 1, amiga)
  {
  }

  /** Write a star, unless one was written last. */
  method PutStar(src: array<int>, dst: array<int>, b0: nat, ghost p: Pattern, ghost q: nat) returns (b: nat)
    requires b0 < q <= |p| < dst.Length && Unread(src, p, q)
    modifies dst
    ensures b0 <= b <= b0 + 1 && Unread(src, p, q)
    ensures dst[..b] == old(dst[..b0]) + if EndsInStar(old(dst[..b0])) then [] else [M_ALL]
  {
    hide Unread;
    b := b0;
    assert b > 0 ==> dst[..b][b - 1] == dst[b - 1];
    if b == 0 || dst[b - 1] != M_ALL {
      b := Put(src, dst, b, M_ALL, p, q);
    }
  }

  /** The case of any other character, at i0. */
  method CompileOther(src: array<int>, dst: array<int>, b0: nat, i0: nat, amiga: bool, ghost p: Pattern)
    returns (b: nat, q: nat, magic: bool)
    requires b0 <= i0 < |p| < dst.Length && Unread(src, p, i0) && p[i0] != OPEN
    modifies dst
    ensures b <= q <= |p| && Unread(src, p, q)
    ensures Wrote(old(dst[..b0]), dst[..b], p, i0, q, amiga)
    ensures magic <==> !Tokens(p, i0, amiga)[0].Lit?
  {
    hide Tokens, Wrote, Unread, EndsInStar;
    PlainToken(p, i0, amiga);
    ReadAt(src, p, i0, i0);
    ReadAt(src, p, i0, i0 + 1);
    ghost var start := dst[..b0];
    var c := src[i0];
    q := i0 + 1;
    magic := true;
    b := b0;
    if c == QUESTION {
      WroteToken(start, [M_ONE], p, i0, q, amiga);
      UnreadLater(src, p, i0, q);
      b := Put(src, dst, b, M_ONE, p, q);
    } else if c == STAR || (c == HASH && amiga && src[q] == QUESTION) {
      if c == HASH {
        q := q + 1;
      }
      WroteToken(start, if EndsInStar(start) then [] else [M_ALL], p, i0, q, amiga);
      UnreadLater(src, p, i0, q);
      b := PutStar(src, dst, b, p, q);
    } else {
      magic := false;
      WroteToken(start, [Strip(c)], p, i0, q, amiga);
      UnreadLater(src, p, i0, q);
      b := Put(src, dst, b, if c > PROTECT then c - PROTECT else c, p, q);
    }
  }

  /**
    The compile loop.  The pattern is p with its terminator in src; the codes
    go to dst, which may be src itself.
   */
  method Compile(src: array<int>, dst: array<int>, amiga: bool, ghost p: Pattern) returns (b: nat, magic: bool)
    requires Unread(src, p, 0) && |p| < dst.Length
    modifies dst
    ensures b <= |p| && dst[b] == 0
    ensures dst[..b] == Flatten(Collapse(Tokens(p, 0, amiga), false))
    ensures magic <==> Magic(Tokens(p, 0, amiga))
  {
    hide Tokens, Wrote, Output;
    b, magic := 0, false;
    var q := 0;
    assert dst[..0] == [];
    while src[q] != 0
      invariant b <= q <= |p| && Unread(src, p, q)
      invariant dst[..b] + Output(Tokens(p, q, amiga), EndsInStar(dst[..b])) == Output(Tokens(p, 0, amiga), false)
      invariant magic || Magic(Tokens(p, q, amiga)) <==> Magic(Tokens(p, 0, amiga))
      decreases |p| - q
    {
      ghost var start, q0 := dst[..b], q;
      NextTokens(p, q, amiga);
      var m;
      if src[q] == OPEN {
        b, q, m := CompileBracket(src, dst, b, q, p, amiga);
      } else {
        b, q, m := CompileOther(src, dst, b, q, amiga, p);
      }
      WroteOutput(start, dst[..b], p, q0, q, amiga);
      WroteRest(start, dst[..b], p, q0, q, amiga);
      magic := magic || m;
    }
    NextTokens(p, q, amiga);
    OutputOfNothing(EndsInStar(dst[..b]));
    OutputIs(Tokens(p, 0, amiga));
    ghost var out := dst[..b];
    dst[b] := 0;
    assert dst[..b] == out;
  }

  lemma NextTokens(p: Pattern, q: nat, amiga: bool)
    requires q <= |p|
    ensures if q == |p| then Tokens(p, q, amiga) == [] && !Magic(Tokens(p, q, amiga)) else Tokens(p, q, amiga) != []
  {
  }

  lemma WroteRest(before: Codes, after: Codes, p: Pattern, q: nat, q': nat, amiga: bool)
    requires Wrote(before, after, p, q, q', amiga)
    ensures q < q' <= |p| && Tokens(p, q, amiga) != []
    ensures Magic(Tokens(p, q, amiga)) <==> !Tokens(p, q, amiga)[0].Lit? || Magic(Tokens(p, q', amiga))
  {
    hide Tokens;
    MagicFirst(Tokens(p, q, amiga));
  }

  lemma OutputOfNothing(last: bool)
    ensures Output([], last) == []
  {
  }

  lemma OutputIs(ts: seq<Token>)
    ensures Output(ts, false) == Flatten(Collapse(ts, false))
  {
  }

  /** Compiling a pattern, then running the matcher, decides what the pattern means. */
  method CompileThenMatch(src: array<int>, dst: array<int>, name: seq<Byte>, amiga: bool, nocase: bool,
                          ghost p: Pattern)
    returns (r: bool)
    requires Unread(src, p, 0) && |p| < dst.Length
    modifies dst
    ensures r <==> Matches(Tokens(p, 0, amiga), name, nocase)
  {
    hide Tokens, Matches, Flatten, Collapse;
    var b, _ := Compile(src, dst, amiga, p);
    ghost var ts := Tokens(p, 0, amiga);
    assert dst[..][0..b] == dst[..b];
    r := Match(name, 0, dst[..], 0, b, nocase, Collapse(ts, false));
    assert name[0..] == name;
    CollapseMeans(ts, name, nocase);
  }

  // ----------------------------------------------------------------- segments

  /** The number of tokens before the first separator. */
  function Before(ts: seq<Token>): (k: nat)
    ensures k <= |ts| && (k < |ts| ==> ts[k] == Lit(SEP))
  {
    if ts == [] || ts[0] == Lit(SEP) then 0 else 1 + Before(ts[1..])
  }

  predicate ItemAvoids(t: Item) {
    match t
    case One(c) => c != SEP
    case Range(lo, hi) => lo != SEP && hi != SEP
  }

  lemma {:induction false} ItemsAvoid(items: seq<Item>)
    ensures SEP !in ItemCodes(items) <==> forall j :: 0 <= j < |items| ==> ItemAvoids(items[j])
  {
    if items != [] {
      ItemsAvoid(items[1..]);
      assert SEP !in ItemCode(items[0]) <==> ItemAvoids(items[0]);
      assert forall j :: 0 < j < |items| ==> items[j] == items[1..][j - 1];
    }
  }

  predicate TokenAvoids(t: Token) {
    t.Set? ==> forall j :: 0 <= j < |t.items| ==> ItemAvoids(t.items[j])
  }

  lemma CodeAvoids(t: Token)
    requires t != Lit(SEP)
    ensures SEP !in TokenCode(t) <==> TokenAvoids(t)
    ensures HasMeta(TokenCode(t)) <==> !t.Lit?
  {
    if t.Set? { ItemsAvoid(t.items); }
    if !t.Lit? { assert TokenCode(t)[0] >= QUOTE; }
  }

  ghost predicate HasMeta(w: Codes) {
    exists i :: 0 <= i < |w| && w[i] >= QUOTE
  }

  lemma HasMetaConcat(v: Codes, w: Codes)
    ensures HasMeta(v + w) <==> HasMeta(v) || HasMeta(w)
  {
    if HasMeta(v) { var i :| 0 <= i < |v| && v[i] >= QUOTE; assert (v + w)[i] >= QUOTE; }
    if HasMeta(w) { var i :| 0 <= i < |w| && w[i] >= QUOTE; assert (v + w)[|v| + i] >= QUOTE; }
  }

  /** No set mentions a separator. */
  predicate SetsAvoidSlash(ts: seq<Token>) {
    forall i :: 0 <= i < |ts| ==> TokenAvoids(ts[i])
  }

  lemma AvoidFirst(ts: seq<Token>)
    requires ts != []
    ensures SetsAvoidSlash(ts) <==> TokenAvoids(ts[0]) && SetsAvoidSlash(ts[1..])
  {
    assert forall i :: 0 < i < |ts| ==> ts[i] == ts[1..][i - 1];
  }

  /**
    The codes of the tokens before the first separator hold a separator code
    exactly if a set among them mentions one.
   */
  lemma {:induction false} SegmentCodes(ts: seq<Token>)
    ensures var k := Before(ts);
            && Flatten(ts) == Flatten(ts[..k]) + Flatten(ts[k..])
            && (SEP !in Flatten(ts[..k]) <==> SetsAvoidSlash(ts[..k]))
            && (k < |ts| ==> Flatten(ts[k..]) != [] && Flatten(ts[k..])[0] == SEP)
            && (k == |ts| ==> Flatten(ts[k..]) == [])
            && (HasMeta(Flatten(ts[..k])) <==> Magic(ts[..k]))
  {
    var k := Before(ts);
    if ts == [] || ts[0] == Lit(SEP) {
      assert ts[..0] == [] && ts[0..] == ts;
    } else {
      SegmentCodes(ts[1..]);
      SegmentOneMore(ts, k - 1);
    }
  }

  lemma SegmentOneMore(ts: seq<Token>, l: nat)
    requires ts != [] && ts[0] != Lit(SEP) && l < |ts|
    requires var vs := ts[1..];
             && Flatten(vs) == Flatten(vs[..l]) + Flatten(vs[l..])
             && (SEP !in Flatten(vs[..l]) <==> SetsAvoidSlash(vs[..l]))
             && (HasMeta(Flatten(vs[..l])) <==> Magic(vs[..l]))
    ensures ts[1..][l..] == ts[l + 1..]
    ensures Flatten(ts) == Flatten(ts[..l + 1]) + Flatten(ts[l + 1..])
    ensures SEP !in Flatten(ts[..l + 1]) <==> SetsAvoidSlash(ts[..l + 1])
    ensures HasMeta(Flatten(ts[..l + 1])) <==> Magic(ts[..l + 1])
  {
    FlattenFirst(ts);
    hide *;
    Slices(ts, l);
    SegmentMore(ts[0], ts[..l + 1], ts[1..][..l]);
    Associate(TokenCode(ts[0]), Flatten(ts[1..][..l]), Flatten(ts[l + 1..]));
  }

  lemma Slices(ts: seq<Token>, l: nat)
    requires l < |ts|
    ensures ts[..l + 1] != [] && ts[..l + 1][0] == ts[0]
    ensures ts[..l + 1][1..] == ts[1..][..l] && ts[1..][l..] == ts[l + 1..]
  {
  }

  lemma Associate(a: Codes, b: Codes, c: Codes)
    ensures a + (b + c) == a + b + c
  {
  }

  lemma SegmentMore(t: Token, us: seq<Token>, vs: seq<Token>)
    requires t != Lit(SEP) && us != [] && us[0] == t && us[1..] == vs
    requires SEP !in Flatten(vs) <==> SetsAvoidSlash(vs)
    requires HasMeta(Flatten(vs)) <==> Magic(vs)
    ensures Flatten(us) == TokenCode(t) + Flatten(vs)
    ensures SEP !in Flatten(us) <==> SetsAvoidSlash(us)
    ensures HasMeta(Flatten(us)) <==> Magic(us)
  {
    assert Flatten(us) == TokenCode(t) + Flatten(vs);
    hide Flatten, TokenCode, SetsAvoidSlash, Magic, HasMeta, TokenAvoids;
    CodeAvoids(t);
    AvoidFirst(us);
    MagicFirst(us);
    HasMetaConcat(TokenCode(t), Flatten(vs));
  }

  /** The first separator code at or after i; the length if there is none. */
  function NextSep(code: Codes, i: nat): (e: nat)
    requires i <= |code|
    ensures i <= e <= |code| && (e < |code| ==> code[e] == SEP) && SEP !in code[i..e]
    decreases |code| - i
  {
    if i == |code| || code[i] == SEP then i
    else
      var e := NextSep(code, i + 1);
      assert code[i..e] == [code[i]] + code[i + 1..e];
      e
  }

  /** It ends the segment exactly if no set of the segment mentions a separator. */
  lemma SegmentSplit(code: Codes, pat: nat, ts: seq<Token>)
    requires pat <= |code| && code[pat..] == Flatten(ts)
    ensures var e := NextSep(code, pat); var k := Before(ts);
            && (code[pat..e] == Flatten(ts[..k]) <==> SetsAvoidSlash(ts[..k]))
            && (SetsAvoidSlash(ts[..k]) ==>
                  code[e..] == Flatten(ts[k..]) && (HasMeta(code[pat..e]) <==> Magic(ts[..k])))
  {
    SegmentCodes(ts);
    hide Flatten, Magic, HasMeta, SetsAvoidSlash;
    var k := Before(ts);
    FirstSep(code, pat, Flatten(ts[..k]), Flatten(ts[k..]));
  }

  lemma FirstSep(code: Codes, pat: nat, w: Codes, r: Codes)
    requires pat <= |code| && code[pat..] == w + r && (r != [] ==> r[0] == SEP)
    ensures var e := NextSep(code, pat);
            (code[pat..e] == w <==> SEP !in w) && (SEP !in w ==> code[e..] == r)
  {
    var m := pat + |w|;
    assert code[pat..m] == code[pat..][..|w|] == w && code[m..] == code[pat..][|w|..] == r;
    assert m < |code| ==> code[m] == r[0];
    if SEP !in w { NextSepIs(code, pat, m); }
  }

  lemma {:induction false} NextSepIs(code: Codes, i: nat, m: nat)
    requires i <= m <= |code| && SEP !in code[i..m] && (m < |code| ==> code[m] == SEP)
    ensures NextSep(code, i) == m
    decreases m - i
  {
    if i < m {
      assert code[i] == code[i..m][0] && code[i + 1..m] == code[i..m][1..];
      NextSepIs(code, i + 1, m);
    }
  }

  /** The scan of glob2 for the end of a segment, and for meta codes in it. */
  method SegmentEnd(code: Codes, pat: nat, ghost ts: seq<Token>) returns (p: nat, anymeta: bool)
    requires pat <= |code| && code[pat..] == Flatten(ts)
    ensures p == NextSep(code, pat)
    ensures code[pat..p] == Flatten(ts[..Before(ts)]) <==> SetsAvoidSlash(ts[..Before(ts)])
    ensures SetsAvoidSlash(ts[..Before(ts)]) ==>
              code[p..] == Flatten(ts[Before(ts)..]) && (anymeta <==> Magic(ts[..Before(ts)]))
  {
    hide Flatten, Magic, SetsAvoidSlash;
    SegmentSplit(code, pat, ts);
    p, anymeta := pat, false;
    while p < |code| && code[p] != SEP
      invariant pat <= p <= |code| && NextSep(code, p) == NextSep(code, pat)
      invariant anymeta <==> HasMeta(code[pat..p])
    {
      HasMetaConcat(code[pat..p], [code[p]]);
      assert code[pat..p + 1] == code[pat..p] + [code[p]];
      assert HasMeta([code[p]]) <==> code[p] >= QUOTE by { assert [code[p]][0] == code[p]; }
      anymeta := anymeta || code[p] >= QUOTE;
      p := p + 1;
    }
  }

  /** A set that mentions a separator is cut in two: the segment of [/] is the opening code alone. */
  lemma SlashCutsSet()
    ensures var code := Flatten([Set(false, [One(SEP)])]);
            code[..NextSep(code, 0)] == [M_SET]
  {
    var items, ts := [One(SEP)], [Set(false, [One(SEP)])];
    assert items[1..] == [] && ts[1..] == [];
    assert ItemCodes(items) == [SEP] + ItemCodes([]);
    assert TokenCode(ts[0]) == [M_SET] + [] + ItemCodes(items) + [M_END];
    assert TokenCode(ts[0]) == [M_SET, SEP, M_END];
    var code := Flatten(ts);
    assert code == TokenCode(ts[0]) + Flatten([]);
    assert code[0..1] == [M_SET];
    NextSepIs(code, 0, 1);
  }
}
