/**
  glob: the compilation of a pattern to 16-bit codes and the matcher that
  runs them, against what the pattern means.  Zero ends every string.
 */
module GlobMatch {
  const MAXPATHLEN := 1024

  /** A file name character. */
  type Byte = c: int | 0 < c < 256 witness 1

  const PROTECT := 0x4000

  /** A pattern character, protected from special meaning or not. */
  type Char = c: int | 0 < c < 256 || PROTECT < c < PROTECT + 256 witness 1

  type Pattern = seq<Char>

  function Strip(c: Char): Byte { if c > PROTECT then c - PROTECT else c }

  const BANG := 33
  const HASH := 35
  const STAR := 42
  const DASH := 45
  const SEP := 47
  const QUESTION := 63
  const OPEN := 91
  const BACKSLASH := 92
  const CLOSE := 93

  // -------------------------------------------------------- what patterns mean

  datatype Item = One(c: Byte) | Range(lo: Byte, hi: Byte)

  datatype Token = All | Any | Set(negate: bool, items: seq<Item>) | Lit(c: Byte)

  /** The elements and ranges written between brackets. */
  function Items(s: Pattern): (r: seq<Item>)
    ensures s != [] ==> r != []
  {
    if s == [] then []
    else if |s| >= 3 && s[1] == DASH then [Range(Strip(s[0]), Strip(s[2]))] + Items(s[3..])
    else [One(Strip(s[0]))] + Items(s[1..])
  }

  /** The first closing bracket at or after i; the length if there is none. */
  function Closing(p: Pattern, i: nat): (j: nat)
    ensures i <= |p| ==> i <= j <= |p| && (j < |p| ==> p[j] == CLOSE)
    ensures forall k :: i <= k < j && k < |p| ==> p[k] != CLOSE
    decreases |p| - i
  {
    if i >= |p| then i else if p[i] == CLOSE then i else Closing(p, i + 1)
  }

  /** Where the contents of a bracket opened at i begin. */
  function Inside(p: Pattern, i: nat): nat {
    if i + 1 < |p| && p[i + 1] == BANG then i + 2 else i + 1
  }

  /** A bracket has contents, even if only a closing bracket, and is closed after them. */
  predicate Closed(p: Pattern, i: nat) {
    Inside(p, i) < |p| && Closing(p, Inside(p, i) + 1) < |p|
  }

  /** The tokens of a pattern from i on. */
  function Tokens(p: Pattern, i: nat, amiga: bool): seq<Token>
    decreases |p| - i
  {
    if i >= |p| then []
    else if p[i] == OPEN && Closed(p, i) then
      var b := Inside(p, i);
      var e := Closing(p, b + 1);
      [Set(b == i + 2, Items(p[b..e]))] + Tokens(p, e + 1, amiga)
    else if p[i] == QUESTION then [Any] + Tokens(p, i + 1, amiga)
    else if p[i] == STAR then [All] + Tokens(p, i + 1, amiga)
    else if p[i] == HASH && amiga && i + 1 < |p| && p[i + 1] == QUESTION then
      [All] + Tokens(p, i + 2, amiga)
    else [Lit(Strip(p[i]))] + Tokens(p, i + 1, amiga)
  }

  function Lower(c: Byte): Byte { if 65 <= c <= 90 then c + 32 else c }

  function Fold(c: Byte, nocase: bool): Byte { if nocase then Lower(c) else c }

  predicate InItem(k: Byte, t: Item, nocase: bool) {
    match t
    case One(c) => Fold(c, nocase) == Fold(k, nocase)
    case Range(lo, hi) => Fold(lo, nocase) <= Fold(k, nocase) <= Fold(hi, nocase)
  }

  predicate InItems(k: Byte, ts: seq<Item>, nocase: bool) {
    exists i :: 0 <= i < |ts| && InItem(k, ts[i], nocase)
  }

  /** A token other than a star accepts one character. */
  predicate Accepts(t: Token, k: Byte, nocase: bool) {
    match t
    case All => false
    case Any => true
    case Set(negate, items) => InItems(k, items, nocase) != negate
    case Lit(c) => Fold(c, nocase) == Fold(k, nocase)
  }

  /** The meaning of a pattern. */
  ghost predicate Matches(ts: seq<Token>, name: seq<Byte>, nocase: bool) {
    if ts == [] then name == []
    else if ts[0].All? then
      exists k :: 0 <= k <= |name| && Matches(ts[1..], name[k..], nocase)
    else name != [] && Accepts(ts[0], name[0], nocase) && Matches(ts[1..], name[1..], nocase)
  }

  // ---------------------------------------------------------------- the codes

  const QUOTE := 0x8000
  const M_ALL := QUOTE + STAR
  const M_END := QUOTE + CLOSE
  const M_NOT := QUOTE + BANG
  const M_ONE := QUOTE + QUESTION
  const M_RNG := QUOTE + DASH
  const M_SET := QUOTE + OPEN

  type Codes = seq<int>

  function ItemCode(t: Item): Codes {
    match t
    case One(c) => [c]
    case Range(lo, hi) => [lo, M_RNG, hi]
  }

  function ItemCodes(ts: seq<Item>): Codes {
    if ts == [] then [] else ItemCode(ts[0]) + ItemCodes(ts[1..])
  }

  function TokenCode(t: Token): Codes {
    match t
    case All => [M_ALL]
    case Any => [M_ONE]
    case Lit(c) => [c]
    case Set(negate, items) => [M_SET] + (if negate then [M_NOT] else []) + ItemCodes(items) + [M_END]
  }

  function Flatten(ts: seq<Token>): Codes {
    if ts == [] then [] else TokenCode(ts[0]) + Flatten(ts[1..])
  }

  /** Stars that follow a star are dropped. */
  function Collapse(ts: seq<Token>, last: bool): seq<Token> {
    if ts == [] then []
    else if ts[0].All? && last then Collapse(ts[1..], true)
    else [ts[0]] + Collapse(ts[1..], ts[0].All?)
  }

  lemma TwoStars(r: seq<Token>, name: seq<Byte>, nocase: bool)
    ensures Matches([All] + ([All] + r), name, nocase) <==> Matches([All] + r, name, nocase)
  {
    var one, two := [All] + r, [All] + ([All] + r);
    assert one[1..] == r && two[1..] == one;
    if Matches(two, name, nocase) {
      var k :| 0 <= k <= |name| && Matches(one, name[k..], nocase);
      var l :| 0 <= l <= |name[k..]| && Matches(r, name[k..][l..], nocase);
      assert name[k..][l..] == name[k + l..];
    }
    if Matches(one, name, nocase) {
      assert name[0..] == name;
    }
  }

  /** Dropping them behind a star changes nothing that matches, ... */
  lemma {:induction false} CollapseBehindStar(ts: seq<Token>, name: seq<Byte>, nocase: bool)
    ensures Matches([All] + Collapse(ts, true), name, nocase) <==> Matches([All] + ts, name, nocase)
    decreases |ts|, 1
  {
    if ts != [] && ts[0].All? {
      CollapseBehindStar(ts[1..], name, nocase);
      assert [All] + ts[1..] == ts;
      TwoStars(ts[1..], name, nocase);
    } else {
      assert Collapse(ts, true) == Collapse(ts, false);
      assert ([All] + Collapse(ts, true))[1..] == Collapse(ts, false) && ([All] + ts)[1..] == ts;
      forall k | 0 <= k <= |name|
        ensures Matches(Collapse(ts, false), name[k..], nocase) <==> Matches(ts, name[k..], nocase)
      {
        CollapseMeans(ts, name[k..], nocase);
      }
    }
  }

  /** ... nor does dropping them anywhere. */
  lemma {:induction false} CollapseMeans(ts: seq<Token>, name: seq<Byte>, nocase: bool)
    ensures Matches(Collapse(ts, false), name, nocase) <==> Matches(ts, name, nocase)
    decreases |ts|, 0
  {
    if ts != [] {
      var c := Collapse(ts, false);
      assert c == [ts[0]] + Collapse(ts[1..], ts[0].All?) && c[1..] == Collapse(ts[1..], ts[0].All?);
      if ts[0].All? {
        assert [All] + ts[1..] == ts;
        CollapseBehindStar(ts[1..], name, nocase);
      } else if name != [] {
        CollapseMeans(ts[1..], name[1..], nocase);
      }
    }
  }

  // ---------------------------------------------------------- the match routine

  /** The character under a name cursor; the terminator at the end. */
  function At(name: seq<Byte>, i: nat): int {
    if i < |name| then name[i] else 0
  }

  lemma FlattenFirst(ts: seq<Token>)
    requires ts != []
    ensures Flatten(ts) == TokenCode(ts[0]) + Flatten(ts[1..]) && Flatten(ts) != []
    ensures Flatten(ts)[0] == match ts[0] {
                                case All => M_ALL
                                case Any => M_ONE
                                case Set(_, _) => M_SET
                                case Lit(c) => c
                              }
  {
  }

  /** Some suffix of the name from n up to, but not including, e matches. */
  ghost predicate SomeSuffix(ts: seq<Token>, name: seq<Byte>, n: nat, e: nat, nocase: bool)
    requires n <= e <= |name| + 1
  {
    exists k :: n <= k < e && Matches(ts, name[k..], nocase)
  }

  lemma AllIsSomeSuffix(ts: seq<Token>, name: seq<Byte>, n: nat, nocase: bool)
    requires ts != [] && ts[0].All? && n <= |name|
    ensures Matches(ts, name[n..], nocase) <==> SomeSuffix(ts[1..], name, n, |name| + 1, nocase)
  {
    forall k | n <= k <= |name| ensures name[n..][k - n..] == name[k..] {}
    if SomeSuffix(ts[1..], name, n, |name| + 1, nocase) {
      var k :| n <= k < |name| + 1 && Matches(ts[1..], name[k..], nocase);
      assert name[n..][k - n..] == name[k..];
    }
    if Matches(ts, name[n..], nocase) {
      var k :| 0 <= k <= |name[n..]| && Matches(ts[1..], name[n..][k..], nocase);
      assert name[n..][k..] == name[n + k..];
    }
  }

  lemma TrailingStar(name: seq<Byte>, n: nat, nocase: bool)
    requires n <= |name|
    ensures Matches([All], name[n..], nocase)
  {
    assert name[n..][|name| - n..] == [];
  }

  lemma OneStep(ts: seq<Token>, name: seq<Byte>, n: nat, nocase: bool)
    requires ts != [] && !ts[0].All? && n <= |name|
    ensures Matches(ts, name[n..], nocase)
            <==> n < |name| && Accepts(ts[0], name[n], nocase) && Matches(ts[1..], name[n + 1..], nocase)
  {
    if n < |name| { assert name[n..][1..] == name[n + 1..]; }
  }

  lemma InItemsSplit(k: Byte, ts: seq<Item>, m: nat, nocase: bool)
    requires m < |ts|
    ensures InItems(k, ts[..m + 1], nocase) <==> InItems(k, ts[..m], nocase) || InItem(k, ts[m], nocase)
  {
    assert forall i :: 0 <= i < m ==> ts[..m + 1][i] == ts[..m][i];
    if InItems(k, ts[..m], nocase) {
      var i :| 0 <= i < m && InItem(k, ts[..m][i], nocase);
      assert InItem(k, ts[..m + 1][i], nocase);
    }
    assert ts[..m + 1][m] == ts[m];
  }

  /** The codes left in a set: items from m on, the end mark, and what follows. */
  ghost predicate SetCodes(code: Codes, pat: nat, patend: nat, items: seq<Item>, m: nat, rest: Codes)
    requires pat <= patend <= |code| && m <= |items|
  {
    code[pat..patend] == ItemCodes(items[m..]) + ([M_END] + rest)
  }

  lemma SetCodesNext(code: Codes, pat: nat, patend: nat, items: seq<Item>, m: nat, rest: Codes)
    requires pat <= patend <= |code| && m <= |items| && SetCodes(code, pat, patend, items, m, rest)
    ensures pat < patend
    ensures m == |items| ==> code[pat] == M_END && code[pat + 1..patend] == rest
    ensures m < |items| && items[m].One? ==>
              && pat + 1 < patend && code[pat] == items[m].c && code[pat + 1] != M_RNG
              && SetCodes(code, pat + 1, patend, items, m + 1, rest)
    ensures m < |items| && items[m].Range? ==>
              && pat + 3 < patend && code[pat] == items[m].lo && code[pat + 1] == M_RNG
              && code[pat + 2] == items[m].hi && SetCodes(code, pat + 3, patend, items, m + 1, rest)
  {
    var w := code[pat..patend];
    if m == |items| {
      assert w == [M_END] + rest;
      assert code[pat + 1..patend] == w[1..];
    } else {
      assert items[m..][1..] == items[m + 1..];
      var tail := ItemCodes(items[m + 1..]) + ([M_END] + rest);
      assert w == ItemCode(items[m]) + tail;
      if items[m].One? {
        assert code[pat + 1..patend] == w[1..] == tail;
        if m + 1 < |items| { assert items[m + 1..][0] == items[m + 1]; }
        assert code[pat + 1] == tail[0];
      } else {
        assert |w| == 3 + |tail| && |tail| >= 1;
        assert w[1] == M_RNG && w[2] == items[m].hi;
        assert code[pat + 3..patend] == w[3..] == tail;
      }
    }
  }

  /** The inner loop of match: does the set that starts at pat contain k? */
  method InSet(code: Codes, pat0: nat, patend: nat, k0: Byte, nocase: bool, ghost items: seq<Item>, ghost rest: Codes)
    returns (ok: bool, pat: nat)
    requires pat0 <= patend <= |code| && SetCodes(code, pat0, patend, items, 0, rest)
    ensures ok <==> InItems(k0, items, nocase)
    ensures pat0 < pat <= patend && code[pat..patend] == rest
  {
    hide SetCodes;
    var k := Fold(k0, nocase);
    ok, pat := false, pat0;
    ghost var m := 0;
    SetCodesNext(code, pat, patend, items, m, rest);
    while code[pat] != M_END
      invariant pat0 <= pat < patend && m <= |items| && SetCodes(code, pat, patend, items, m, rest)
      invariant m == |items| ==> code[pat] == M_END && code[pat + 1..patend] == rest
      invariant m < |items| ==> code[pat] != M_END
      invariant ok <==> InItems(k0, items[..m], nocase)
      decreases |items| - m
    {
      SetCodesNext(code, pat, patend, items, m, rest);
      InItemsSplit(k0, items, m, nocase);
      var c := code[pat];
      pat := pat + 1;
      c := Fold(c, nocase);
      if code[pat] == M_RNG {
        if c <= k && k <= Fold(code[pat + 1], nocase) {
          ok := true;
        }
        pat := pat + 2;
      } else if c == k {
        ok := true;
      }
      m := m + 1;
      SetCodesNext(code, pat, patend, items, m, rest);
    }
    assert items[..m] == items;
    pat := pat + 1;
  }

  /** match: the codes between pat0 and patend, which stand for ts, against the name from n0. */
  method Match(name: seq<Byte>, n0: nat, code: Codes, pat0: nat, patend: nat, nocase: bool, ghost ts0: seq<Token>)
    returns (r: bool)
    requires n0 <= |name| && pat0 <= patend <= |code| && code[pat0..patend] == Flatten(ts0)
    ensures r <==> Matches(ts0, name[n0..], nocase)
    decreases patend - pat0
  {
    hide Matches, Flatten, InItems;
    var n, pat := n0, pat0;
    ghost var ts := ts0;
    while pat < patend
      invariant n0 <= n <= |name| && pat0 <= pat <= patend && code[pat..patend] == Flatten(ts)
      invariant Matches(ts0, name[n0..], nocase) <==> Matches(ts, name[n..], nocase)
    {
      FlattenCursor(code, pat, patend, ts);
      var c := code[pat];
      pat := pat + 1;
      if c == M_ALL {
        if pat == patend {
          EmptyCodes(ts[1..]);
          assert ts == [All];
          TrailingStar(name, n, nocase);
          return true;
        }
        AllIsSomeSuffix(ts, name, n, nocase);
        ghost var first := n;
        while true
          invariant first <= n <= |name| && !SomeSuffix(ts[1..], name, first, n, nocase)
          decreases |name| - n
        {
          var found := Match(name, n, code, pat, patend, nocase, ts[1..]);
          if found {
            return true;
          }
          if At(name, n) == 0 {
            return false;
          }
          n := n + 1;
        }
      }
      OneStep(ts, name, n, nocase);
      var k := At(name, n);
      if k == 0 {
        return false;
      }
      if c == M_ONE {
      } else if c == M_SET {
        var negate := code[pat] == M_NOT;
        if negate {
          pat := pat + 1;
        }
        var ok;
        ok, pat := InSet(code, pat, patend, k, nocase, ts[0].items, Flatten(ts[1..]));
        if ok == negate {
          return false;
        }
      } else if Fold(k, nocase) != Fold(c, nocase) {
        return false;
      }
      n := n + 1;
      ts := ts[1..];
    }
    EmptyCodes(ts);
    EndOfPattern(name, n, nocase);
    r := At(name, n) == 0;
  }

  lemma EndOfPattern(name: seq<Byte>, n: nat, nocase: bool)
    requires n <= |name|
    ensures Matches([], name[n..], nocase) <==> n == |name|
  {
  }

  lemma EmptyCodes(ts: seq<Token>)
    ensures Flatten(ts) == [] ==> ts == []
  {
    if ts != [] { FlattenFirst(ts); }
  }

  /** The token whose codes begin at pat. */
  lemma FlattenCursor(code: Codes, pat: nat, patend: nat, ts: seq<Token>)
    requires pat < patend <= |code| && code[pat..patend] == Flatten(ts)
    ensures ts != []
    ensures ts[0].All? <==> code[pat] == M_ALL
    ensures ts[0].Any? <==> code[pat] == M_ONE
    ensures ts[0].Set? <==> code[pat] == M_SET
    ensures ts[0].Lit? ==> code[pat] == ts[0].c
    ensures !ts[0].Set? ==> code[pat + 1..patend] == Flatten(ts[1..])
    ensures ts[0].Set? ==> pat + 1 < patend && (ts[0].negate <==> code[pat + 1] == M_NOT)
    ensures ts[0].Set? ==>
              var b := if ts[0].negate then pat + 2 else pat + 1;
              b <= patend && SetCodes(code, b, patend, ts[0].items, 0, Flatten(ts[1..]))
  {
    FlattenFirst(ts);
    var w := code[pat..patend];
    assert code[pat + 1..patend] == w[1..];
    hide Flatten, ItemCodes;
    if ts[0].Set? { SetCursor(code, pat, patend, ts[0].negate, ts[0].items, Flatten(ts[1..])); }
  }

  lemma SetCursor(code: Codes, pat: nat, patend: nat, negate: bool, items: seq<Item>, rest: Codes)
    requires pat < patend <= |code|
    requires code[pat..patend] == [M_SET] + (if negate then [M_NOT] else []) + ItemCodes(items) + [M_END] + rest
    ensures pat + 1 < patend && (negate <==> code[pat + 1] == M_NOT)
    ensures var b := if negate then pat + 2 else pat + 1;
            b <= patend && SetCodes(code, b, patend, items, 0, rest)
  {
    var w := code[pat..patend];
    var tail := ItemCodes(items) + ([M_END] + rest);
    assert items[0..] == items;
    if negate {
      assert w == [M_SET, M_NOT] + tail;
      assert code[pat + 2..patend] == w[2..] == tail;
      assert code[pat + 1] == w[1];
    } else {
      assert w == [M_SET] + tail;
      assert code[pat + 1..patend] == w[1..] == tail;
      assert code[pat + 1] == tail[0];
      if items != [] { assert tail[0] == ItemCode(items[0])[0]; }
    }
  }
}
