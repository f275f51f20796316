/**
  __write on a console: the buffer goes out line by line, so that the user can
  stop it, and newlines are sent as CR NL when the terminal mode asks for it.
 */
module TtyWrite {

  type Byte = b: int | 0 <= b < 256

  const NL: Byte := 10
  const CR: Byte := 13

  datatype Mode = Mode(raw: bool, opost: bool, onlcr: bool)

  /** Translation happens only when all three flags are set. */
  predicate Enabled(m: Mode) { m.raw && m.opost && m.onlcr }

  /** What the terminal should receive for a run of bytes. */
  function Translate(s: seq<Byte>, nlcr: bool): seq<Byte> {
    if s == [] then [] else (if nlcr && s[0] == NL then [CR, NL] else [s[0]]) + Translate(s[1..], nlcr)
  }

  lemma {:induction false} TranslateConcat(s: seq<Byte>, t: seq<Byte>, nlcr: bool)
    ensures Translate(s + t, nlcr) == Translate(s, nlcr) + Translate(t, nlcr)
  {
    if s == [] {
      assert s + t == t;
    } else {
      TranslateConcat(s[1..], t, nlcr);
      assert (s + t)[1..] == s[1..] + t && (s + t)[0] == s[0];
    }
  }

  lemma {:induction false} TranslateLine(s: seq<Byte>, nlcr: bool)
    requires nlcr ==> NL !in s
    ensures Translate(s, nlcr) == s
  {
    if s != [] { TranslateLine(s[1..], nlcr); }
  }

  /** A terminal that takes CR NL for a newline. */
  function Untranslate(t: seq<Byte>): seq<Byte> {
    if t == [] then []
    else if |t| > 1 && t[0] == 13 && t[1] == 10 then [10] + Untranslate(t[2..])
    else [t[0]] + Untranslate(t[1..])
  }

  /** Every newline is led by a carriage return, and taking those away gives the bytes back. */
  lemma {:induction false} TranslateUndone(s: seq<Byte>)
    ensures Untranslate(Translate(s, true)) == s
    ensures forall i :: 0 <= i < |Translate(s, true)| && Translate(s, true)[i] == 10 ==>
                          i > 0 && Translate(s, true)[i - 1] == 13
    ensures Translate(s, true) != [] ==> Translate(s, true)[0] != 10
  {
    if s != [] {
      TranslateUndone(s[1..]);
      var t, r := Translate(s, true), Translate(s[1..], true);
      if s[0] == 10 {
        assert t == [13, 10] + r && t[2..] == r;
        assert forall i :: 2 <= i < |t| ==> t[i] == r[i - 2];
      } else {
        assert t == [s[0]] + r && t[1..] == r;
        assert forall i :: 1 <= i < |t| ==> t[i] == r[i - 1];
      }
    }
  }

  /** The translation grows by the part of a line that was written. */
  lemma Extend(buf: seq<Byte>, l: nat, n: nat, w: seq<Byte>, nlcr: bool)
    requires l + |w| <= |buf| && n <= |w| && w == buf[l..l + |w|] && (nlcr ==> NL !in w)
    ensures Translate(buf[..l + n], nlcr) == Translate(buf[..l], nlcr) + w[..n]
  {
    assert buf[..l + n] == buf[..l] + w[..n];
    TranslateConcat(buf[..l], w[..n], nlcr);
    TranslateLine(w[..n], nlcr);
  }

  lemma Extend1(buf: seq<Byte>, l: nat)
    requires l < |buf| && buf[l] == NL
    ensures Translate(buf[..l + 1], true) == Translate(buf[..l], true) + [CR, NL]
  {
    assert buf[..l + 1] == buf[..l] + [NL];
    TranslateConcat(buf[..l], [NL], true);
    assert [NL][1..] == [];
  }

  /** The result of the k-th lower write of m bytes: -1, or how many were written. */
  function Outcome(results: seq<int>, k: nat, m: nat): (r: int)
    ensures -1 <= r <= m
    ensures k < |results| && -1 <= results[k] <= m ==> r == results[k]
    ensures k >= |results| ==> r == m
  {
    if k >= |results| || results[k] > m then m else if results[k] < -1 then -1 else results[k]
  }

  /** What one lower write sends at most: a CR NL pair, a newline, or part of a line. */
  predicate Piece(w: seq<Byte>) {
    w == [CR, NL] || w == [NL] || (1 <= |w| <= 256 && NL !in w)
  }

  /** The lower writes made so far went through completely. */
  predicate Complete(pieces: seq<seq<Byte>>, results: seq<int>) {
    forall i :: 0 <= i < |pieces| ==> Outcome(results, i, |pieces[i]|) == |pieces[i]|
  }

  predicate AllPieces(pieces: seq<seq<Byte>>) {
    forall i :: 0 <= i < |pieces| ==> Piece(pieces[i])
  }

  /** What the terminal shows once n bytes of the buffer are reported as written. */
  predicate Shows(out: seq<Byte>, buf: seq<Byte>, n: nat, nlcr: bool)
    requires n <= |buf|
  {
    || out == Translate(buf[..n], nlcr)
    || (nlcr && n < |buf| && buf[n] == NL && out == Translate(buf[..n], nlcr) + [CR])
  }

  /** Of a piece handed down, what a lower write that returned r lets through. */
  function Part(w: seq<Byte>, r: int): seq<Byte>
    requires r <= |w|
  {
    if r < 0 then [] else w[..r]
  }

  /** What reaches the terminal when the pieces are handed down one after the other. */
  function Reached(pieces: seq<seq<Byte>>, results: seq<int>): seq<Byte> {
    if pieces == [] then []
    else
      var n := |pieces| - 1;
      Reached(pieces[..n], results) + Part(pieces[n], Outcome(results, n, |pieces[n]|))
  }

  /** The pieces in a row. */
  function Joined(pieces: seq<seq<Byte>>): seq<Byte> {
    if pieces == [] then [] else Joined(pieces[..|pieces| - 1]) + pieces[|pieces| - 1]
  }

  /** Part of a line is handed down only when the rest would be too much, or is already there. */
  predicate Greedy(pieces: seq<seq<Byte>>) {
    forall i :: 0 <= i < |pieces| - 1 && NL !in pieces[i] && |pieces[i]| < 256 ==> NL in pieces[i + 1]
  }

  /**
    The outcome of a whole __write: res bytes reported, out shown, pieces
    handed down.  Every piece but the last was written completely, and the
    last one decides how the call ends.
   */
  predicate Written(buf: seq<Byte>, nlcr: bool, results: seq<int>, res: int, out: seq<Byte>, pieces: seq<seq<Byte>>) {
    && -1 <= res <= |buf|
    && AllPieces(pieces) && Greedy(pieces)
    && (exists m :: 0 <= m <= |buf| && Joined(pieces) == Translate(buf[..m], nlcr))
    && out == Reached(pieces, results)
    && (res >= 0 ==> Shows(out, buf, res, nlcr))
    && (res == |buf| <==> Complete(pieces, results))
    && (res == -1 <==> |pieces| > 0 && Outcome(results, |pieces| - 1, |pieces[|pieces| - 1]|) == -1)
    && (|pieces| > 0 ==> Complete(pieces[..|pieces| - 1], results))
  }

  /** The length of the part of a line that starts at l: up to a newline, 256 bytes or the end. */
  method Scan(buf: seq<Byte>, l: nat) returns (bytes: nat)
    requires l < |buf| && buf[l] != NL
    ensures 1 <= bytes <= 256 && l + bytes <= |buf| && NL !in buf[l..l + bytes]
    ensures bytes < 256 && l + bytes < |buf| ==> buf[l + bytes] == NL
  {
    bytes := 0;
    while l + bytes < |buf| && buf[l + bytes] != NL && bytes < 256
      invariant bytes <= 256 && l + bytes <= |buf| && NL !in buf[l..l + bytes]
    {
      assert buf[l..l + bytes + 1] == buf[l..l + bytes] + [buf[l + bytes]];
      bytes := bytes + 1;
    }
  }

  /** One turn of the loop at l: the piece handed down, and how many input bytes it stands for. */
  method NextPiece(buf: seq<Byte>, l: nat, nlcr: bool) returns (w: seq<Byte>, bytes: nat)
    requires l < |buf|
    ensures 1 <= bytes && l + bytes <= |buf| && Piece(w)
    ensures w == if nlcr && buf[l] == NL then [CR, NL] else buf[l..l + bytes]
    ensures buf[l] == NL ==> bytes == 1
    ensures buf[l] == NL <==> NL in w
    ensures Translate(buf[..l + bytes], nlcr) == Translate(buf[..l], nlcr) + w
    ensures NL !in w && |w| < 256 && l + bytes < |buf| ==> buf[l + bytes] == NL
  {
    hide Translate;
    if buf[l] == NL {
      bytes := 1;
      if nlcr {
        w := [CR, NL];
        assert w[1] == NL;
        Extend1(buf, l);
      } else {
        w := buf[l..l + 1];
        assert w[0] == NL;
        Extend(buf, l, 1, w, nlcr);
        assert w[..1] == w;
      }
    } else {
      bytes := Scan(buf, l);
      w := buf[l..l + bytes];
      Extend(buf, l, bytes, w, nlcr);
      assert w[..bytes] == w;
    }
  }

  /** How many input bytes a lower write that returned tmp >= 0 accounts for. */
  function Credit(crnl: bool, tmp: nat): nat {
    if !crnl then tmp else if tmp == 2 then 1 else 0
  }

  /** A short write leaves the terminal as Shows says. */
  lemma ShortWrite(buf: seq<Byte>, l: nat, nlcr: bool, w: seq<Byte>, bytes: nat, tmp: nat)
    requires l + bytes <= |buf| && 1 <= bytes && tmp < |w|
    requires (buf[l] != NL ==> NL !in w) && (buf[l] == NL ==> bytes == 1)
    requires w == if nlcr && buf[l] == NL then [CR, NL] else buf[l..l + bytes]
    ensures l + Credit(nlcr && buf[l] == NL, tmp) < l + bytes
    ensures Shows(Translate(buf[..l], nlcr) + w[..tmp], buf, l + Credit(nlcr && buf[l] == NL, tmp), nlcr)
  {
    hide Translate;
    var t := Translate(buf[..l], nlcr);
    if nlcr && buf[l] == NL {
      if tmp == 0 {
        assert t + w[..tmp] == t;
      } else {
        assert w[..tmp] == [CR];
      }
    } else {
      Extend(buf, l, tmp, w, nlcr);
    }
  }

  lemma CompleteMore(pieces: seq<seq<Byte>>, w: seq<Byte>, results: seq<int>)
    requires Complete(pieces, results) && AllPieces(pieces) && Piece(w)
    ensures Complete(pieces + [w], results) <==> Outcome(results, |pieces|, |w|) == |w|
    ensures AllPieces(pieces + [w])
  {
    var all := pieces + [w];
    assert all[|pieces|] == w;
  }

  /** One more piece. */
  lemma OneMore(pieces: seq<seq<Byte>>, w: seq<Byte>, results: seq<int>)
    ensures Joined(pieces + [w]) == Joined(pieces) + w
    ensures Reached(pieces + [w], results)
            == Reached(pieces, results) + Part(w, Outcome(results, |pieces|, |w|))
  {
    var all := pieces + [w];
    assert all[..|pieces|] == pieces && all[|pieces|] == w;
  }

  lemma GreedyMore(pieces: seq<seq<Byte>>, w: seq<Byte>)
    requires Greedy(pieces)
    requires pieces != [] && NL !in pieces[|pieces| - 1] && |pieces[|pieces| - 1]| < 256 ==> NL in w
    ensures Greedy(pieces + [w])
  {
    var all := pieces + [w];
    assert forall i :: 0 <= i < |pieces| ==> all[i] == pieces[i];
  }

  /** The last piece ends where a newline follows, unless it is as long as allowed. */
  predicate EndsWell(pieces: seq<seq<Byte>>, buf: seq<Byte>, l: nat) {
    pieces != [] && NL !in pieces[|pieces| - 1] && |pieces[|pieces| - 1]| < 256 && l < |buf| ==> buf[l] == NL
  }

  /** The loop of __write. */
  method WriteLines(buf: seq<Byte>, nlcr: bool, results: seq<int>)
    returns (res: int, out: seq<Byte>, pieces: seq<seq<Byte>>)
    ensures Written(buf, nlcr, results, res, out, pieces)
  {
    hide Translate, Piece, Greedy, Joined, Reached, Complete, AllPieces;
    res, out, pieces := 0, [], [];
    var l := 0;
    StartsEmpty(buf, nlcr, results);
    while l < |buf|
      invariant 0 <= l <= |buf| && res == l && out == Translate(buf[..l], nlcr)
      invariant AllPieces(pieces) && Complete(pieces, results) && Greedy(pieces) && EndsWell(pieces, buf, l)
      invariant Joined(pieces) == Translate(buf[..l], nlcr) && out == Reached(pieces, results)
      decreases |buf| - l
    {
      var w, bytes := NextPiece(buf, l, nlcr);
      var tmp := Outcome(results, |pieces|, |w|);
      ghost var sofar := pieces;
      OneMore(pieces, w, results);
      GreedyMore(pieces, w);
      pieces := pieces + [w];
      assert pieces[..|pieces| - 1] == sofar && pieces[|pieces| - 1] == w;
      CompleteMore(sofar, w, results);
      assert Joined(pieces) == Translate(buf[..l + bytes], nlcr);
      out := out + Part(w, tmp);
      if tmp == -1 {
        res := -1;
        return;
      }
      if tmp != |w| {
        ShortWrite(buf, l, nlcr, w, bytes, tmp);
        res := res + Credit(nlcr && buf[l] == NL, tmp);
        return;
      }
      assert w[..tmp] == w;
      res := res + bytes;
      l := l + bytes;
    }
    if |pieces| > 0 { CompleteBefore(pieces, results); }
  }

  lemma CompleteBefore(pieces: seq<seq<Byte>>, results: seq<int>)
    requires pieces != [] && Complete(pieces, results)
    ensures Complete(pieces[..|pieces| - 1], results)
    ensures |pieces[|pieces| - 1]| == Outcome(results, |pieces| - 1, |pieces[|pieces| - 1]|)
  {
  }

  lemma StartsEmpty(buf: seq<Byte>, nlcr: bool, results: seq<int>)
    ensures Translate(buf[..0], nlcr) == [] == Joined([]) == Reached([], results)
    ensures Greedy([]) && Complete([], results) && AllPieces([])
  {
  }

  datatype File = File(nil: bool, interactive: bool, mode: Mode)

  /** __write: nothing reaches a nil handler, and other files take one plain write. */
  method Write(f: File, buf: seq<Byte>, results: seq<int>) returns (res: int, out: seq<Byte>, pieces: seq<seq<Byte>>)
    ensures f.nil ==> res == |buf| && out == [] && pieces == []
    ensures !f.nil && f.interactive ==>
              Written(buf, f.mode.raw && f.mode.opost && f.mode.onlcr, results, res, out, pieces)
    ensures !f.nil && !f.interactive && buf == [] ==> res == 0 && out == [] && pieces == []
    ensures !f.nil && !f.interactive && buf != [] ==>
              && pieces == [buf] && res == Outcome(results, 0, |buf|)
              && out == if res == -1 then [] else buf[..res]
  {
    if f.nil {
      return |buf|, [], [];
    }
    if f.interactive {
      res, out, pieces := WriteLines(buf, Enabled(f.mode), results);
    } else if buf == [] {
      return 0, [], [];
    } else {
      res := Outcome(results, 0, |buf|);
      out := if res == -1 then [] else buf[..res];
      pieces := [buf];
    }
  }

  /** When every lower write goes through, the terminal gets the whole translation. */
  lemma WholeBuffer(buf: seq<Byte>, nlcr: bool, results: seq<int>, res: int, out: seq<Byte>, pieces: seq<seq<Byte>>)
    requires Written(buf, nlcr, results, res, out, pieces)
    requires forall i :: 0 <= i < |results| ==> results[i] >= 256
    ensures res == |buf| && out == Translate(buf, nlcr)
  {
    assert buf[..|buf|] == buf;
    assert forall i :: 0 <= i < |pieces| ==> Outcome(results, i, |pieces[i]|) == |pieces[i]|;
  }
}
