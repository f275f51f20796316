/**
  What each style flag of vis guarantees, and what each escape means to unvis,
  character by character.
 */
module VisStyles {
  import opened Arith
  import opened Option
  import opened Vis

  // --------------------------------------------------------------- vis styles

  /** A backslash and three octal digits whose value is c. */
  predicate ThreeDigits(w: seq<Byte>, c: Byte) {
    && |w| == 4 && w[0] == 92
    && 48 <= w[1] <= 51 && 48 <= w[2] <= 55 && 48 <= w[3] <= 55
    && 64 * (w[1] - 48) + 8 * (w[2] - 48) + (w[3] - 48) == c
  }

  /** Bytes that are left alone: graphic ones, white space that is not asked for, and safe controls. */
  predicate LeftAlone(c: Byte, fl: Flags) {
    || 33 <= c <= 126
    || (c == 32 && !fl.sp) || (c == 9 && !fl.tab) || (c == 10 && !fl.nl)
    || (fl.safe && (c == 7 || c == 8 || c == 13))
  }

  /** They come out as themselves, a backslash twice unless VIS_NOSLASH says otherwise; others never do. */
  lemma AloneStyle(c: Byte, fl: Flags, nextc: Byte)
    ensures LeftAlone(c, fl) && (c != 92 || fl.noslash) <==> Encode(c, fl, nextc) == [c]
    ensures c == 92 && !fl.noslash ==> Encode(c, fl, nextc) == [92, 92]
  {
  }

  /** VIS_OCTAL: everything else as three octal digits. */
  lemma OctalStyle(c: Byte, fl: Flags, nextc: Byte)
    requires fl.octal && !fl.cstyle
    ensures var w := Encode(c, fl, nextc); w == [c] || w == [92, 92] == [c, c] || ThreeDigits(w, c)
  {
    DigitsValue(c);
  }

  lemma DigitsValue(c: Byte)
    ensures ThreeDigits([92] + Digits(c), c)
  {
    OctalDigits(c);
  }

  /** Without VIS_OCTAL they come out for spaces, and for a NUL that a digit follows. */
  lemma DigitsOnlyFor(c: Byte, fl: Flags, nextc: Byte)
    requires !fl.octal && ThreeDigits(Encode(c, fl, nextc), c)
    ensures c % 128 == 32 || (c == 0 && fl.cstyle && 48 <= nextc <= 55)
  {
  }

  /** With all white space asked for and nothing safe, only visible characters are written. */
  lemma VisibleStyle(c: Byte, fl: Flags, nextc: Byte)
    requires fl.sp && fl.tab && fl.nl && !fl.safe
    ensures forall i :: 0 <= i < |Encode(c, fl, nextc)| ==> 33 <= Encode(c, fl, nextc)[i] <= 126
  {
  }

  /** So every string comes out visible. */
  lemma {:induction false} VisibleText(s: seq<Byte>, i: nat, fl: Flags)
    requires i <= |s| && fl.sp && fl.tab && fl.nl && !fl.safe
    ensures forall j :: 0 <= j < |EncodeFrom(s, i, fl)| ==> 33 <= EncodeFrom(s, i, fl)[j] <= 126
    decreases |s| - i
  {
    hide Encode;
    if i < |s| {
      VisibleStyle(s[i], fl, NextByte(s, i));
      VisibleText(s, i + 1, fl);
    }
  }

  /** VIS_CSTYLE: the escapes of C. */
  lemma CStyle(c: Byte, fl: Flags, nextc: Byte)
    requires fl.cstyle && !LeftAlone(c, fl)
    ensures var w := Encode(c, fl, nextc);
            && (c == 7 ==> w == [92, 'a' as int]) && (c == 8 ==> w == [92, 'b' as int])
            && (c == 9 ==> w == [92, 't' as int]) && (c == 10 ==> w == [92, 'n' as int])
            && (c == 11 ==> w == [92, 'v' as int]) && (c == 12 ==> w == [92, 'f' as int])
            && (c == 13 ==> w == [92, 'r' as int]) && (c == 32 ==> w == [92, 's' as int])
            && (c == 0 ==> w == if 48 <= nextc <= 55 then [92, 48, 48, 48] else [92, 48])
  {
  }

  /** Any other style: a caret for control characters, M for the upper half. */
  lemma CaretStyle(c: Byte, fl: Flags, nextc: Byte)
    requires !fl.octal && !LeftAlone(c, fl) && c % 128 != 32
    requires fl.cstyle ==> !(7 <= c <= 13) && c != 0
    ensures var w := Encode(c, fl, nextc); var slash := if fl.noslash then [] else [92];
            && (c < 32 ==> w == slash + ['^' as int, c + 64])
            && (c == 127 ==> w == slash + ['^' as int, '?' as int])
            && (128 <= c < 160 ==> w == slash + ['M' as int, '^' as int, c - 64])
            && (c == 255 ==> w == slash + ['M' as int, '^' as int, '?' as int])
            && (160 < c < 255 ==> w == slash + ['M' as int, '-' as int, c - 128])
  {
    assert c % 128 == if c >= 128 then c - 128 else c;
    var d := if c >= 128 then c - 128 else c;
    assert [77] + Control(d) == if d == 127 then [77, 94, 63] else if d < 32 then [77, 94, d + 64] else [77, 45, d];
  }

  // ------------------------------------------------------------- unvis escapes

  predicate NoDigit(rest: seq<Byte>) {
    rest != [] ==> !(48 <= rest[0] <= 55)
  }

  lemma PushBack(rest: seq<Byte>, st: State, cp: Byte)
    requires st == Octal2 || st == Octal3
    requires NoDigit(rest)
    ensures Decode(rest, st, cp) == Cons(cp, Decode(rest, Ground, 0))
  {
    GroundIgnoresByte(rest, cp, 0);
    assert [cp] + [] == [cp];
  }

  /** Any other character stands for itself. */
  lemma Plainly(c: Byte, rest: seq<Byte>)
    requires c != 92
    ensures Decode([c] + rest, Ground, 0) == Cons(c, Decode(rest, Ground, 0))
  {
    DecodeStep(c, rest, Ground, 0);
    GroundIgnoresByte(rest, c, 0);
  }

  lemma BehindBackslash(rest: seq<Byte>)
    ensures Decode([92] + rest, Ground, 0) == Decode(rest, Start, 0)
  {
    DecodeStep(92, rest, Ground, 0);
  }

  /** One octal digit, if no other follows. */
  lemma OneDigit(d: Byte, rest: seq<Byte>)
    requires 48 <= d <= 55 && NoDigit(rest)
    ensures Decode([92, d] + rest, Ground, 0) == Cons(d - 48, Decode(rest, Ground, 0))
  {
    hide Decode, OrByte;
    assert [92, d] + rest == [92] + ([d] + rest);
    BehindBackslash([d] + rest);
    DecodeStep(d, rest, Start, 0);
    PushBack(rest, Octal2, d - 48);
  }

  /** Two octal digits, if no third follows. */
  lemma TwoDigits(d: Byte, e: Byte, rest: seq<Byte>)
    requires 48 <= d <= 55 && 48 <= e <= 55 && NoDigit(rest)
    ensures Decode([92, d, e] + rest, Ground, 0)
            == Cons(8 * (d - 48) + (e - 48), Decode(rest, Ground, 0))
  {
    hide Decode, OrByte;
    assert [92, d, e] + rest == [92] + ([d] + ([e] + rest));
    BehindBackslash([d] + ([e] + rest));
    DecodeStep(d, [e] + rest, Start, 0);
    DecodeStep(e, rest, Octal2, d - 48);
    PushBack(rest, Octal3, 8 * (d - 48) + (e - 48));
  }

  /** Three octal digits, whatever follows; only eight bits are kept. */
  lemma ThreeOctals(d: Byte, e: Byte, f: Byte, rest: seq<Byte>)
    requires 48 <= d <= 55 && 48 <= e <= 55 && 48 <= f <= 55
    ensures Decode([92, d, e, f] + rest, Ground, 0)
            == Cons((64 * (d - 48) + 8 * (e - 48) + (f - 48)) % 256, Decode(rest, Ground, 0))
  {
    hide Decode, OrByte;
    var two := 8 * (d - 48) + (e - 48);
    assert [92, d, e, f] + rest == [92] + ([d] + ([e] + ([f] + rest)));
    BehindBackslash([d] + ([e] + ([f] + rest)));
    DecodeStep(d, [e] + ([f] + rest), Start, 0);
    DecodeStep(e, [f] + rest, Octal2, d - 48);
    DecodeStep(f, rest, Octal3, two);
    GroundIgnoresByte(rest, (two * 8 + (f - 48)) % 256, 0);
  }

  /** The byte that a letter escape stands for. */
  function LetterValue(c: Byte): Option<Byte> {
    if c == 92 then Some(92)
    else if c == 'a' as int then Some(7) else if c == 'b' as int then Some(8)
    else if c == 't' as int then Some(9) else if c == 'n' as int then Some(10)
    else if c == 'v' as int then Some(11) else if c == 'f' as int then Some(12)
    else if c == 'r' as int then Some(13) else if c == 's' as int then Some(32)
    else if c == 'E' as int then Some(27) else None
  }

  lemma LetterEscape(c: Byte, rest: seq<Byte>)
    requires LetterValue(c).Some?
    ensures Decode([92, c] + rest, Ground, 0) == Cons(LetterValue(c).value, Decode(rest, Ground, 0))
  {
    hide Decode, OrByte;
    assert [92, c] + rest == [92] + ([c] + rest);
    BehindBackslash([c] + rest);
    DecodeStep(c, rest, Start, 0);
    GroundIgnoresByte(rest, LetterValue(c).value, 0);
  }

  /** A hidden newline and a hidden marker deliver nothing. */
  lemma HiddenEscape(c: Byte, rest: seq<Byte>)
    requires c == 10 || c == '$' as int
    ensures Decode([92, c] + rest, Ground, 0) == Decode(rest, Ground, 0)
  {
    assert [92, c] + rest == [92] + ([c] + rest);
    BehindBackslash([c] + rest);
    assert ([c] + rest)[1..] == rest;
  }

  /** A caret takes the low five bits of the next character, a question mark means 127. */
  lemma CaretEscape(c: Byte, rest: seq<Byte>)
    ensures Decode([92, '^' as int, c] + rest, Ground, 0)
            == Cons(if c == '?' as int then 127 else c % 32, Decode(rest, Ground, 0))
  {
    hide Decode, OrByte;
    assert [92, '^' as int, c] + rest == [92] + (['^' as int] + ([c] + rest));
    BehindBackslash(['^' as int] + ([c] + rest));
    DecodeStep('^' as int, [c] + rest, Start, 0);
    OrByteAdds(false, if c == '?' as int then 127 else c % 32);
    DecodeStep(c, rest, Ctrl, 0);
    GroundIgnoresByte(rest, if c == '?' as int then 127 else c % 32, 0);
  }

  lemma {:induction false} OrSetBit(v: nat, k: nat)
    requires v < Pow2(k)
    ensures Or(Pow2(k), Pow2(k) + v) == Pow2(k) + v
  {
    if k > 0 { OrSetBit(v / 2, k - 1); }
  }

  /** The upper bit is set. */
  lemma OrHigh(c: Byte)
    ensures OrByte(128, c) == if c < 128 then c + 128 else c
  {
    assert Pow2(7) == 128 by { assert Pow2(4) == 16; }
    if c < 128 { OrTopBit(c, 7); } else { OrSetBit(c - 128, 7); }
  }

  /** M sets the upper bit of the character behind a hyphen, or of what a caret makes of it. */
  lemma MetaEscape(m: Byte, c: Byte, rest: seq<Byte>)
    requires m == '-' as int || m == '^' as int
    ensures var v := if m == '-' as int then c else if c == '?' as int then 127 else c % 32;
            Decode([92, 'M' as int, m, c] + rest, Ground, 0)
            == Cons(if v < 128 then v + 128 else v, Decode(rest, Ground, 0))
  {
    hide Decode, OrByte;
    var v := if m == '-' as int then c else if c == '?' as int then 127 else c % 32;
    assert [92, 'M' as int, m, c] + rest == [92] + (['M' as int] + ([m] + ([c] + rest)));
    BehindBackslash(['M' as int] + ([m] + ([c] + rest)));
    DecodeStep('M' as int, [m] + ([c] + rest), Start, 0);
    DecodeStep(m, [c] + rest, Meta, 128);
    OrHigh(v);
    DecodeStep(c, rest, if m == '-' as int then Meta1 else Ctrl, 128);
    GroundIgnoresByte(rest, if v < 128 then v + 128 else v, 0);
  }

  predicate Escapable(c: Byte) {
    48 <= c <= 55 || LetterValue(c).Some? || c == 'M' as int || c == '^' as int || c == 10 || c == '$' as int
  }

  /** A backslash before any other character is an error, whatever follows, and before these it is not. */
  lemma BadEscape(c: Byte, rest: seq<Byte>)
    ensures !Escapable(c) ==> Decode([92, c] + rest, Ground, 0) == None
    ensures Escapable(c) <==> Decode([92, c], Ground, 0).Some?
  {
    assert [92, c] + rest == [92] + ([c] + rest);
    BehindBackslash([c] + rest);
    BehindBackslash([c]);
    assert [92] + [c] == [92, c] && [c][1..] == [] && ([c] + rest)[0] == c;
  }

  /** Behind the M only a hyphen and a caret will do. */
  lemma BadMeta(m: Byte, rest: seq<Byte>)
    requires m != '-' as int && m != '^' as int
    ensures Decode([92, 'M' as int, m] + rest, Ground, 0) == None
  {
    assert [92, 'M' as int, m] + rest == [92] + (['M' as int] + ([m] + rest));
    BehindBackslash(['M' as int] + ([m] + rest));
    DecodeStep('M' as int, [m] + rest, Start, 0);
    assert ([m] + rest)[0] == m;
  }
}
