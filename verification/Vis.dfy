/**
  vis and unvis: a visual encoding of bytes and the state machine that
  decodes it, with one character of push-back.
 */
module Vis {
  import opened Arith
  import opened Option

  type Byte = b: int | 0 <= b < 256

  datatype Flags = Flags(octal: bool, cstyle: bool, sp: bool, tab: bool, nl: bool, safe: bool, noslash: bool)

  const BACKSLASH: Byte := 92

  predicate IsGraph(c: Byte) { 33 <= c <= 126 }

  predicate IsCntrl(c: Byte) { c < 32 || c == 127 }

  predicate IsOctal(c: Byte) { 48 <= c <= 55 }

  // ----------------------------------------------------------------- encoding

  /** Characters that stand for themselves. */
  predicate Plain(c: Byte, fl: Flags) {
    || IsGraph(c)
    || (!fl.sp && c == 32)
    || (!fl.tab && c == 9)
    || (!fl.nl && c == 10)
    || (fl.safe && (c == 8 || c == 7 || c == 13))
  }

  /** The letter of a C escape; zero when there is none. */
  function Letter(c: Byte): Byte {
    if c == 10 then 110 else if c == 13 then 114 else if c == 8 then 98
    else if c == 7 then 97 else if c == 11 then 118 else if c == 9 then 116
    else if c == 12 then 102 else if c == 32 then 115 else 0
  }

  function Digits(c: Byte): seq<Byte> {
    [48 + c / 64, 48 + c / 8 % 8, 48 + c % 8]
  }

  /** What comes behind the backslash, and behind the M of a byte above 127. */
  function Control(c: Byte): seq<Byte>
    requires c < 128
  {
    if c == 127 then [94, 63] else if c < 32 then [94, c + 64] else [45, c]
  }

  /** The characters vis writes for c when nextc is the byte that follows. */
  function Encode(c: Byte, fl: Flags, nextc: Byte): (w: seq<Byte>)
    ensures 1 <= |w| <= 4 && forall i :: 0 <= i < |w| ==> w[i] != 0
  {
    if Plain(c, fl) then
      if c == BACKSLASH && !fl.noslash then [c, BACKSLASH] else [c]
    else if fl.cstyle && Letter(c) != 0 then [BACKSLASH, Letter(c)]
    else if fl.cstyle && c == 0 then
      if IsOctal(nextc) then [BACKSLASH, 48, 48, 48] else [BACKSLASH, 48]
    else if c % 128 == 32 || fl.octal then [BACKSLASH] + Digits(c)
    else
      (if fl.noslash then [] else [BACKSLASH])
      + (if c >= 128 then [77] + Control(c - 128) else Control(c))
  }

  function NextByte(s: seq<Byte>, i: nat): Byte {
    if i + 1 < |s| then s[i + 1] else 0
  }

  /** Encoding of s from its i-th byte on, each byte encoded in view of the next. */
  function EncodeFrom(s: seq<Byte>, i: nat, fl: Flags): (w: seq<Byte>)
    requires i <= |s|
    ensures |w| <= 4 * (|s| - i)
    ensures forall j :: 0 <= j < |w| ==> w[j] != 0
    decreases |s| - i
  {
    if i == |s| then [] else Encode(s[i], fl, NextByte(s, i)) + EncodeFrom(s, i + 1, fl)
  }

  // ----------------------------------------------------------------- decoding

  datatype State = Ground | Start | Meta | Meta1 | Ctrl | Octal2 | Octal3

  datatype Code = Nothing | Valid | ValidPush | NoChar | SynBad

  /** Bitwise or of two natural numbers. */
  function Or(a: nat, b: nat): nat
    decreases a + b
  {
    if a == 0 then b else if b == 0 then a
    else (if a % 2 == 1 || b % 2 == 1 then 1 else 0) + 2 * Or(a / 2, b / 2)
  }

  lemma {:induction false} OrIsByte(a: nat, b: nat, k: nat)
    requires a < Pow2(k) && b < Pow2(k)
    ensures Or(a, b) < Pow2(k)
    decreases k
  {
    if k > 0 && a > 0 && b > 0 { OrIsByte(a / 2, b / 2, k - 1); }
  }

  /** A bit above all others is simply added. */
  lemma {:induction false} OrTopBit(v: nat, k: nat)
    requires v < Pow2(k)
    ensures Or(Pow2(k), v) == Pow2(k) + v
  {
    if k > 0 && v > 0 {
      OrTopBit(v / 2, k - 1);
    }
  }

  function OrByte(a: Byte, b: Byte): Byte {
    assert Pow2(8) == 256 by { assert Pow2(4) == 16; }
    OrIsByte(a, b, 8);
    Or(a, b)
  }

  /** What a letter behind the backslash means. */
  function Unletter(c: Byte): Option<Byte> {
    if c == BACKSLASH then Some(c)
    else if c == 110 then Some(10) else if c == 114 then Some(13) else if c == 98 then Some(8)
    else if c == 97 then Some(7) else if c == 118 then Some(11) else if c == 116 then Some(9)
    else if c == 102 then Some(12) else if c == 115 then Some(32) else if c == 69 then Some(27)
    else None
  }

  /** unvis on one more character: the return code, the byte built so far, the new state. */
  function Unvis(st: State, cp: Byte, c: Byte): (Code, Byte, State) {
    match st
    case Ground =>
      if c == BACKSLASH then (Nothing, 0, Start) else (Valid, c, Ground)
    case Start =>
      if IsOctal(c) then (Nothing, c - 48, Octal2)
      else if c == 77 then (Nothing, 128, Meta)
      else if c == 94 then (Nothing, cp, Ctrl)
      else if Unletter(c).Some? then (Valid, Unletter(c).value, Ground)
      else if c == 10 || c == 36 then (NoChar, cp, Ground)
      else (SynBad, cp, Ground)
    case Meta =>
      if c == 45 then (Nothing, cp, Meta1) else if c == 94 then (Nothing, cp, Ctrl) else (SynBad, cp, Ground)
    case Meta1 => (Valid, OrByte(cp, c), Ground)
    case Ctrl => (Valid, OrByte(cp, if c == 63 then 127 else c % 32), Ground)
    case Octal2 =>
      if IsOctal(c) then (Nothing, (cp * 8 + (c - 48)) % 256, Octal3) else (ValidPush, cp, Ground)
    case Octal3 =>
      if IsOctal(c) then (Valid, (cp * 8 + (c - 48)) % 256, Ground) else (ValidPush, cp, Ground)
  }

  function Cons(b: Byte, r: Option<seq<Byte>>): Option<seq<Byte>> {
    if r.None? then None else Some([b] + r.value)
  }

  /** What strunvis delivers for the rest of a string, from a given state; None on an error. */
  function Decode(src: seq<Byte>, st: State, cp: Byte): Option<seq<Byte>>
    decreases |src|, if st == Ground then 0 else 1
  {
    if src == [] then
      Some(if st == Octal2 || st == Octal3 then [cp] else [])
    else
      var (code, b, st') := Unvis(st, cp, src[0]);
      match code
      case Valid => Cons(b, Decode(src[1..], st', b))
      case ValidPush => Cons(b, Decode(src, st', b))
      case Nothing => Decode(src[1..], st', b)
      case NoChar => Decode(src[1..], st', b)
      case SynBad => None
  }

  // --------------------------------------------------------------- round trip

  lemma GroundIgnoresByte(src: seq<Byte>, b: Byte, d: Byte)
    ensures Decode(src, Ground, b) == Decode(src, Ground, d)
  {
  }

  /** Reading one character that completes nothing, or completes a byte. */
  lemma DecodeStep(c: Byte, rest: seq<Byte>, st: State, cp: Byte)
    ensures var (code, b, st') := Unvis(st, cp, c);
            && (code == Nothing ==> Decode([c] + rest, st, cp) == Decode(rest, st', b))
            && (code == Valid ==> Decode([c] + rest, st, cp) == Cons(b, Decode(rest, st', b)))
  {
    assert ([c] + rest)[1..] == rest;
  }

  lemma OrByteAdds(high: bool, v: Byte)
    requires v < 128
    ensures OrByte(if high then 128 else 0, v) == if high then v + 128 else v
  {
    assert Pow2(7) == 128 by { assert Pow2(4) == 16; }
    OrTopBit(v, 7);
  }

  /** The two characters behind the backslash or the M. */
  lemma DecodeControl(c: Byte, rest: seq<Byte>, high: bool)
    requires c < 128 && (IsCntrl(c) || high)
    ensures Decode(Control(c) + rest, if high then Meta else Start, if high then 128 else 0)
            == Cons(if high then c + 128 else c, Decode(rest, Ground, 0))
  {
    hide Decode, OrByte;
    var w := Control(c);
    assert w + rest == [w[0]] + ([w[1]] + rest);
    var cp: Byte, st := if high then 128 else 0, if w[0] == 94 then Ctrl else Meta1;
    OrByteAdds(high, c);
    DecodeStep(w[0], [w[1]] + rest, if high then Meta else Start, cp);
    DecodeStep(w[1], rest, st, cp);
    GroundIgnoresByte(rest, if high then c + 128 else c, 0);
  }

  lemma OctalDigits(c: Byte)
    ensures (c / 64 * 8 + c / 8 % 8) % 256 == c / 8 && (c / 8 * 8 + c % 8) % 256 == c
  {
  }

  lemma DecodeDigits(c: Byte, rest: seq<Byte>)
    ensures Decode(Digits(c) + rest, Start, 0) == Cons(c, Decode(rest, Ground, 0))
  {
    hide Decode, OrByte;
    var d := Digits(c);
    assert d + rest == [d[0]] + ([d[1]] + ([d[2]] + rest));
    OctalDigits(c);
    DecodeStep(d[0], [d[1]] + ([d[2]] + rest), Start, 0);
    DecodeStep(d[1], [d[2]] + rest, Octal2, c / 64);
    DecodeStep(d[2], rest, Octal3, c / 8);
    GroundIgnoresByte(rest, c, 0);
  }

  /** The short form of NUL ends where the next character is no octal digit. */
  lemma DecodeShortNul(rest: seq<Byte>)
    requires rest != [] ==> !IsOctal(rest[0])
    ensures Decode(rest, Octal2, 0) == Cons(0, Decode(rest, Ground, 0))
  {
    var none: seq<Byte> := [];
    assert [0] + none == [0];
  }

  lemma EncodeShape(c: Byte, fl: Flags, nextc: Byte)
    requires !fl.noslash
    ensures var w := Encode(c, fl, nextc);
            if |w| == 1 then w == [c] && c != BACKSLASH else w[0] == BACKSLASH
  {
  }

  /** One encoded byte is decoded to that byte, whatever follows it. */
  lemma DecodeOne(c: Byte, fl: Flags, nextc: Byte, rest: seq<Byte>)
    requires !fl.noslash && (rest != [] && IsOctal(rest[0]) ==> IsOctal(nextc))
    ensures Decode(Encode(c, fl, nextc) + rest, Ground, 0) == Cons(c, Decode(rest, Ground, 0))
  {
    hide Decode, Encode;
    var w := Encode(c, fl, nextc);
    EncodeShape(c, fl, nextc);
    GroundIgnoresByte(rest, c, 0);
    if |w| == 1 {
      DecodeStep(c, rest, Ground, 0);
    } else {
      var u := w[1..];
      assert w + rest == [BACKSLASH] + (u + rest);
      DecodeStep(BACKSLASH, u + rest, Ground, 0);
      DecodeEscaped(c, fl, nextc, u, rest);
    }
  }

  lemma ZeroDigits()
    ensures Digits(0) == [48, 48, 48]
  {
  }

  lemma DecodeEscaped(c: Byte, fl: Flags, nextc: Byte, u: seq<Byte>, rest: seq<Byte>)
    requires !fl.noslash && (rest != [] && IsOctal(rest[0]) ==> IsOctal(nextc))
    requires |Encode(c, fl, nextc)| > 1 && u == Encode(c, fl, nextc)[1..]
    ensures Decode(u + rest, Start, 0) == Cons(c, Decode(rest, Ground, 0))
  {
    ZeroDigits();
    hide Decode, OrByte, Digits, Or;
    GroundIgnoresByte(rest, c, 0);
    if Plain(c, fl) || (fl.cstyle && Letter(c) != 0) {
      DecodeStep(u[0], rest, Start, 0);
    } else if fl.cstyle && c == 0 && !IsOctal(nextc) {
      DecodeStep(48, rest, Start, 0);
      DecodeShortNul(rest);
    } else if (fl.cstyle && c == 0) || c % 128 == 32 || fl.octal {
      assert u == Digits(c);
      DecodeDigits(c, rest);
    } else if c >= 128 {
      assert u + rest == [77] + (Control(c - 128) + rest);
      DecodeStep(77, Control(c - 128) + rest, Start, 0);
      DecodeControl(c - 128, rest, true);
    } else {
      assert u == Control(c);
      DecodeControl(c, rest, false);
    }
  }

  /** The encoding of a byte starts with an octal digit only if the byte is one. */
  lemma EncodeStarts(s: seq<Byte>, i: nat, fl: Flags)
    requires i < |s| && !fl.noslash
    ensures EncodeFrom(s, i, fl) != []
    ensures IsOctal(EncodeFrom(s, i, fl)[0]) ==> IsOctal(s[i])
  {
    var w := Encode(s[i], fl, NextByte(s, i));
    assert EncodeFrom(s, i, fl)[0] == w[0];
  }

  /** Decoding undoes encoding, for every byte sequence and every style that keeps the backslash. */
  lemma {:induction false} RoundTrip(s: seq<Byte>, i: nat, fl: Flags)
    requires i <= |s| && !fl.noslash
    ensures Decode(EncodeFrom(s, i, fl), Ground, 0) == Some(s[i..])
    decreases |s| - i
  {
    if i == |s| {
      assert s[i..] == [];
    } else {
      var rest := EncodeFrom(s, i + 1, fl);
      if i + 1 < |s| { EncodeStarts(s, i + 1, fl); }
      DecodeOne(s[i], fl, NextByte(s, i), rest);
      RoundTrip(s, i + 1, fl);
      assert [s[i]] + s[i + 1..] == s[i..];
    }
  }

  // ------------------------------------------------------------- the routines

  /** Store one character and move on. */
  method Put(dst: array<Byte>, at: nat, c: Byte) returns (n: nat)
    requires at < dst.Length
    modifies dst
    ensures n == at + 1 && dst[..n] == old(dst[..at]) + [c]
  {
    dst[at] := c;
    n := at + 1;
  }

  /** A backslash and three octal digits. */
  method PutOctal(dst: array<Byte>, at: nat, c: Byte) returns (n: nat)
    requires at + 4 < dst.Length
    modifies dst
    ensures n == at + 4 && dst[..n] == old(dst[..at]) + ([BACKSLASH] + Digits(c))
  {
    n := Put(dst, at, BACKSLASH);
    n := Put(dst, n, 48 + c / 64);
    n := Put(dst, n, 48 + c / 8 % 8);
    n := Put(dst, n, 48 + c % 8);
  }

  /** vis: append the encoding of c to the first `at` characters of the buffer, and terminate it. */
  method VisInto(dst: array<Byte>, at: nat, c: Byte, fl: Flags, nextc: Byte) returns (n: nat)
    requires at + 4 < dst.Length
    modifies dst
    ensures n == at + |Encode(c, fl, nextc)| && dst[..n] == old(dst[..at]) + Encode(c, fl, nextc) && dst[n] == 0
  {
    ghost var before := dst[..at];
    n := at;
    if Plain(c, fl) {
      n := Put(dst, n, c);
      if c == BACKSLASH && !fl.noslash {
        n := Put(dst, n, BACKSLASH);
      }
    } else if fl.cstyle && Letter(c) != 0 {
      n := Put(dst, n, BACKSLASH);
      n := Put(dst, n, Letter(c));
    } else if fl.cstyle && c == 0 {
      n := Put(dst, n, BACKSLASH);
      n := Put(dst, n, 48);
      if IsOctal(nextc) {
        n := Put(dst, n, 48);
        n := Put(dst, n, 48);
      }
    } else if c % 128 == 32 || fl.octal {
      n := PutOctal(dst, n, c);
    } else {
      n := PutControl(dst, n, c, fl.noslash);
    }
    assert dst[..n] == before + Encode(c, fl, nextc);
    dst[n] := 0;
  }

  method PutControl(dst: array<Byte>, at: nat, c0: Byte, noslash: bool) returns (n: nat)
    requires at + 4 < dst.Length
    modifies dst
    ensures var w := (if noslash then [] else [BACKSLASH])
                     + (if c0 >= 128 then [77] + Control(c0 - 128) else Control(c0));
            n == at + |w| && dst[..n] == old(dst[..at]) + w
  {
    n := at;
    var c := c0;
    if !noslash {
      n := Put(dst, n, BACKSLASH);
    }
    if c >= 128 {
      c := c - 128;
      n := Put(dst, n, 77);
    }
    if IsCntrl(c) {
      n := Put(dst, n, 94);
      n := Put(dst, n, if c == 127 then 63 else c + 64);
    } else {
      n := Put(dst, n, 45);
      n := Put(dst, n, c);
    }
  }

  /** strvis: encode a string.  An empty one is not even terminated. */
  method Strvis(dst: array<Byte>, src: seq<Byte>, fl: Flags) returns (n: nat)
    requires forall i :: 0 <= i < |src| ==> src[i] != 0
    requires 4 * |src| < dst.Length
    modifies dst
    ensures n < dst.Length && dst[..n] == EncodeFrom(src, 0, fl)
    ensures if src == [] then dst[..] == old(dst[..]) else dst[n] == 0
  {
    hide Encode;
    n := 0;
    var i := 0;
    while i < |src|
      invariant i <= |src| && n <= 4 * i
      invariant dst[..n] + EncodeFrom(src, i, fl) == EncodeFrom(src, 0, fl)
      invariant if i == 0 then dst[..] == old(dst[..]) else dst[n] == 0
    {
      n := VisInto(dst, n, src[i], fl, NextByte(src, i));
      i := i + 1;
    }
  }

  function Append(s: seq<Byte>, r: Option<seq<Byte>>): Option<seq<Byte>> {
    if r.None? then None else Some(s + r.value)
  }

  lemma AppendCons(s: seq<Byte>, b: Byte, r: Option<seq<Byte>>)
    ensures Append(s, Cons(b, r)) == Append(s + [b], r)
  {
    if r.Some? { assert s + ([b] + r.value) == s + [b] + r.value; }
  }

  /** strunvis: decode a string into dst; the number of bytes, or -1 on a bad sequence. */
  method Strunvis(dst: array<Byte>, src: seq<Byte>) returns (r: int)
    requires forall i :: 0 <= i < |src| ==> src[i] != 0
    requires |src| < dst.Length
    modifies dst
    ensures match Decode(src, Ground, 0)
            case None => r == -1
            case Some(out) => r == |out| < dst.Length && dst[..r] == out && dst[r] == 0
  {
    hide Unvis;
    var n, i, state := 0, 0, Ground;
    GroundIgnoresByte(src, 0, dst[0]);
    AppendNothing(Decode(src, Ground, dst[0]));
    assert src[0..] == src && dst[..0] == [];
    while i < |src|
      invariant i <= |src| && n + (if state == Ground then 0 else 1) <= i
      invariant Decode(src, Ground, 0) == Append(dst[..n], Decode(src[i..], state, dst[n]))
      decreases |src| - i, state != Ground
    {
      var (code, b, next) := Unvis(state, dst[n], src[i]);
      UnvisStates(state, dst[n], src[i]);
      ghost var before := dst[..n];
      assert src[i..][0] == src[i] && src[i..][1..] == src[i + 1..];
      dst[n] := b;
      state := next;
      assert dst[..n] == before;
      match code
      case Valid =>
        AppendCons(before, b, Decode(src[i + 1..], Ground, b));
        GroundIgnoresByte(src[i + 1..], b, dst[n + 1]);
        n := n + 1;
        i := i + 1;
        assert dst[..n] == before + [b];
      case ValidPush =>
        // the character is pushed back: it is read again in the ground state
        AppendCons(before, b, Decode(src[i..], Ground, b));
        GroundIgnoresByte(src[i..], b, dst[n + 1]);
        n := n + 1;
        assert dst[..n] == before + [b];
      case Nothing =>
        i := i + 1;
      case NoChar =>
        GroundIgnoresByte(src[i + 1..], b, dst[n]);
        i := i + 1;
      case SynBad =>
        return -1;
    }
    assert src[i..] == [];
    if state == Octal2 || state == Octal3 {
      n := n + 1;
    }
    r := n;
    ghost var out := dst[..n];
    dst[n] := 0;
    assert dst[..n] == out;
  }

  lemma AppendNothing(r: Option<seq<Byte>>)
    ensures Append([], r) == r
  {
    if r.Some? { assert [] + r.value == r.value; }
  }

  /** A byte is delivered in the ground state; pushing back happens in the octal states only. */
  lemma UnvisStates(st: State, cp: Byte, c: Byte)
    ensures var (code, b, next) := Unvis(st, cp, c);
            && (code == Valid || code == ValidPush || code == NoChar || code == SynBad ==> next == Ground)
            && (code == Nothing ==> next != Ground)
            && (code == ValidPush ==> st != Ground)
  {
  }

  // ------------------------------------------------------------------ strvisx

  /** What strvisx writes: its loop never moves on from the first byte. */
  function Stuck(c: Byte, nextc: Byte, len: nat, fl: Flags): (w: seq<Byte>)
    ensures |w| <= 4 * len
  {
    if len == 0 then []
    else if len == 1 then Encode(c, fl, 0)
    else Encode(c, fl, nextc) + Stuck(c, nextc, len - 1, fl)
  }

  /** strvisx (dst, src, |src|, flag). */
  method Strvisx(dst: array<Byte>, src: seq<Byte>, fl: Flags) returns (n: nat)
    requires 4 * |src| < dst.Length
    modifies dst
    ensures n < dst.Length
    ensures dst[..n] == if src == [] then [] else Stuck(src[0], NextByte(src, 0), |src|, fl)
  {
    hide Encode;
    n := 0;
    var len := |src|;
    while len > 1
      invariant 0 <= len <= |src| && n <= 4 * (|src| - len) && (src != [] ==> len > 0)
      invariant src != [] ==> dst[..n] + Stuck(src[0], NextByte(src, 0), len, fl)
                              == Stuck(src[0], NextByte(src, 0), |src|, fl)
    {
      n := VisInto(dst, n, src[0], fl, src[1]);
      len := len - 1;
    }
    if len > 0 {
      n := VisInto(dst, n, src[0], fl, 0);
    }
  }

  lemma NextMattersForNul(c: Byte, fl: Flags, a: Byte, b: Byte)
    requires c != 0
    ensures Encode(c, fl, a) == Encode(c, fl, b)
  {
  }

  lemma StuckStarts(c: Byte, nextc: Byte, len: nat, fl: Flags)
    requires len > 0 && !fl.noslash
    ensures Stuck(c, nextc, len, fl) != []
    ensures IsOctal(Stuck(c, nextc, len, fl)[0]) ==> IsOctal(c)
  {
  }

  /** Decoding the output of strvisx gives the first byte over and over. */
  lemma {:induction false} StuckDecodes(c: Byte, nextc: Byte, len: nat, fl: Flags)
    requires !fl.noslash
    ensures Decode(Stuck(c, nextc, len, fl), Ground, 0) == Some(seq(len, _ => c))
  {
    hide Encode;
    var none: seq<Byte> := [];
    if len == 0 {
    } else if len == 1 {
      DecodeOne(c, fl, 0, none);
      assert Encode(c, fl, 0) + none == Encode(c, fl, 0);
      assert [c] + none == seq(1, _ => c);
    } else {
      var rest := Stuck(c, nextc, len - 1, fl);
      StuckStarts(c, nextc, len - 1, fl);
      StuckDecodes(c, nextc, len - 1, fl);
      var next: Byte := if c == 0 then nextc else c;
      if c != 0 { NextMattersForNul(c, fl, nextc, c); }
      DecodeOne(c, fl, next, rest);
      assert [c] + seq(len - 1, _ => c) == seq(len, _ => c);
    }
  }

  /** So strvisx loses data exactly when the bytes are not all the same. */
  lemma StrvisxRoundTrip(src: seq<Byte>, fl: Flags)
    requires src != [] && !fl.noslash
    ensures Decode(Stuck(src[0], NextByte(src, 0), |src|, fl), Ground, 0) == Some(src)
            <==> forall i :: 0 <= i < |src| ==> src[i] == src[0]
  {
    StuckDecodes(src[0], NextByte(src, 0), |src|, fl);
    var same := seq(|src|, _ => src[0]);
    if forall i :: 0 <= i < |src| ==> src[i] == src[0] {
      assert same == src;
    }
  }

  /** The smallest case: two different bytes come back as the first one twice. */
  lemma StrvisxExample()
    ensures var fl := Flags(false, false, false, false, false, false, false);
            Decode(Stuck(97, 98, 2, fl), Ground, 0) == Some([97, 97])
  {
    var fl := Flags(false, false, false, false, false, false, false);
    StuckDecodes(97, 98, 2, fl);
    var s := seq(2, _ => 97);
    assert s == [97, 97];
  }
}
