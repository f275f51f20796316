/** random.c: the static cursors, and the state arrays they point into. */
module RandomState {
  import opened Arith
  import opened RandomGen

  const RANDTBL: seq<Word> := [
    3,
    0x9a319039, 0x32d9c024, 0x9b663182, 0x5da1f342,
    0xde3b81e0, 0xdf0a6fb5, 0xf103bc02, 0x48f340fb,
    0x7449e56b, 0xbeb1dbb0, 0xab5c5918, 0x946554fd,
    0x8c2e680f, 0xeb3d799f, 0xb11ee0b7, 0x2d436b86,
    0xda672e2a, 0x1588ca88, 0xe369735d, 0x904f35f7,
    0xd7158fd6, 0x6fa6f051, 0x616e6b96, 0xac94efdc,
    0x36413f93, 0xc622c298, 0xf5a42ab8, 0x8a88d77b,
    0xf5ad9d0e, 0x8999220b, 0x27fb47b9]

  /** Word 0 of an array holds its type and a position of its rear cursor. */
  ghost predicate Marked(s: seq<Word>) {
    |s| > 1 && var t := s[0] % MAX_TYPES; |s| > Deg(t) && (t > 0 ==> s[0] / MAX_TYPES < Deg(t))
  }

  /** The generator that an array with such a mark stands for. */
  ghost function MarkedGen(s: seq<Word>): Gen
    requires Marked(s)
  {
    GenOf(s[1..], s[0] % MAX_TYPES, s[0] / MAX_TYPES)
  }

  /** The array stands for g at the position its word 0 tells. */
  ghost predicate Parked(a: array<Word>, g: Gen)
    reads a
  {
    Marked(a[..]) && g == MarkedGen(a[..])
  }

  class Randomizer {
    /** The array in use; the C code's state[i] is its word i + 1. */
    var state: array<Word>
    var randType: nat
    var randDeg: nat
    var randSep: nat
    var fptr: nat
    var rptr: nat
    var endPtr: nat

    /** Every array initialised so far, with the generator it stands for. */
    ghost var gens: map<array<Word>, Gen>

    /** How far the rear cursor has moved, around the ring, from the position in word 0. */
    ghost var moved: nat

    ghost predicate Cursors()
      reads this
    {
      && Cursors0()
      && (randType > 0 ==> rptr < randDeg && fptr == Wrap(rptr + randSep, randDeg))
    }

    /** The same before the cursors have been placed. */
    ghost predicate Cursors0()
      reads this
    {
      && randType <= 4 && randDeg == Deg(randType) && randSep == Sep(randType) && endPtr == randDeg
      && state.Length > randDeg && state.Length > 1
    }

    /** The array in use: its mark is the position at the time it was selected. */
    ghost predicate Current()
      reads this, state
    {
      && Cursors() && Marked(state[..]) && state[0] % MAX_TYPES == randType
      && (randType > 0 ==> rptr == (state[0] / MAX_TYPES + moved) % randDeg)
      && state in gens && gens[state] == GenOf(state[1..], randType, rptr)
    }

    ghost predicate Valid()
      reads this, state, gens.Keys
    {
      Current() && forall a :: a in gens && a != state ==> Parked(a, gens[a])
    }

    ghost predicate AllParked()
      reads this, gens.Keys
    {
      forall a :: a in gens ==> Parked(a, gens[a])
    }

    ghost function View(): World<array<Word>>
      reads this
    {
      World(gens, state)
    }

    /** The statics as they are initialised, with the default table of type 3. */
    constructor ()
      ensures Valid() && fresh(state) && state[..] == RANDTBL && gens.Keys == {state}
      ensures rptr == 0 && randType == 3
    {
      var table := new Word[32](i requires 0 <= i < 32 => RANDTBL[i]);
      state := table;
      randType, randDeg, randSep, endPtr := 3, 31, 3, 31;
      fptr, rptr := 3, 0;
      gens := map[table := GenOf(table[1..], 3, 0)];
      moved := 0;
      new;
      assert state[..] == RANDTBL;
    }

    /** The work of random(). */
    method Step() returns (i: Word)
      requires Cursors()
      modifies this`fptr, this`rptr, state
      ensures Cursors() && state[0] == old(state[0])
      ensures randType > 0 ==> rptr == Wrap(old(rptr) + 1, randDeg)
      ensures (i, GenOf(state[1..], randType, rptr)) == Draw(GenOf(old(state[1..]), randType, old(rptr)))
    {
      hide Draw, GenOf, LcgNext, Add;
      ghost var s := state[1..];
      if randType == 0 {
        LcgStep(s, rptr, s[0 := LcgNext(s[0])]);
        state[1] := LcgNext(state[1]);
        assert state[1..] == s[0 := LcgNext(s[0])];
        return state[1];
      }
      state[1 + fptr] := Add(state[1 + fptr], state[1 + rptr]);
      assert state[1..] == s[fptr := Add(s[fptr], s[rptr])];
      RingStep(s, randType, rptr, state[1..]);
      i := state[1 + fptr] / 2;
      Advance();
    }

    /** Move both cursors on; at most one of them wraps. */
    method Advance()
      requires Cursors() && randType > 0
      modifies this`fptr, this`rptr
      ensures Cursors() && rptr == Wrap(old(rptr) + 1, randDeg)
    {
      NotBothWrap(randType, rptr);
      fptr := fptr + 1;
      if fptr >= endPtr {
        fptr := 0;
        rptr := rptr + 1;
      } else {
        rptr := rptr + 1;
        if rptr >= endPtr {
          rptr := 0;
        }
      }
    }

    /** random() */
    method Random() returns (i: Word)
      requires Valid()
      modifies this, state
      ensures Valid() && WorldOk(old(View())) && View() == Apply(old(View()), Op.Random)
      ensures i == Draw(old(gens)[state]).0 && moved == old(moved) + 1
      ensures state[0] == old(state[0]) && randType == old(randType)
      ensures randType > 0 ==> rptr == Wrap(old(rptr) + 1, randDeg)
    {
      hide Draw, GenOf;
      if randType > 0 { NextMod(state[0] / MAX_TYPES + moved, randDeg); }
      i := Step();
      gens := gens[state := Draw(gens[state]).1];
      moved := moved + 1;
    }

    /** The work of srandom(). */
    method Seed(x: Word)
      requires Cursors0()
      modifies this`fptr, this`rptr, state
      ensures Cursors() && state[0] == old(state[0])
      ensures GenOf(state[1..], randType, rptr) == Seeded(x, randType)
      ensures randType > 0 ==> rptr == 0
    {
      hide Draw, GenOf, DrawMany, FillNext;
      state[1] := x;
      if randType == 0 {
        SeededLcg(state[1..], rptr, x);
        return;
      }
      var i := 1;
      while i < randDeg
        invariant 1 <= i <= randDeg && state[0] == old(state[0])
        invariant state[1..1 + i] == Fill(x, i)
      {
        assert state[i] == state[1..1 + i][i - 1];
        state[1 + i] := FillNext(state[i]);
        i := i + 1;
        assert state[1..1 + i] == state[1..i] + [state[i]];
      }
      fptr := randSep;
      rptr := 0;
      FillOnly(state[1..], randType, Fill(x, randDeg));
      ghost var g := GenOf(Fill(x, randDeg), randType, 0);
      i := 0;
      DrawNone(g);
      while i < 10 * randDeg
        invariant Cursors() && 0 <= i <= 10 * randDeg && rptr == i % randDeg && state[0] == old(state[0])
        invariant GenOf(state[1..], randType, rptr) == DrawMany(g, i)
      {
        NextMod(i, randDeg);
        var _ := Step();
        DrawOneMore(g, i);
        i := i + 1;
      }
      QuotientIs(i, randDeg, 10, 0);
      SeededRegister(x, randType);
    }

    /** Note the type and the rear cursor in word 0. */
    method Save()
      requires Valid()
      modifies state
      ensures state[1..] == old(state[1..]) && AllParked()
      ensures state[0] % MAX_TYPES == randType && (randType > 0 ==> state[0] / MAX_TYPES == rptr)
    {
      hide GenOf;
      ghost var s := state[1..];
      state[0] := if randType == 0 then randType else MAX_TYPES * rptr + randType;
      assert state[1..] == s && state[..][1..] == s;
      QuotientIs(state[0], MAX_TYPES, if randType == 0 then 0 else rptr, randType);
      if randType == 0 { LcgAnywhere(s, 0, rptr); }
      assert Parked(state, gens[state]);
    }

    /** srandom() */
    method Srandom(x: Word)
      requires Valid()
      modifies this, state
      ensures Valid() && WorldOk(old(View())) && View() == Apply(old(View()), Init(old(state), x, old(randType)))
      ensures randType > 0 ==> rptr == 0
    {
      hide Seeded, GenOf;
      Seed(x);
      gens := gens[state := Seeded(x, randType)];
      if randType > 0 {
        moved := randDeg - state[0] / MAX_TYPES;
        QuotientIs(randDeg, randDeg, 1, 0);
      }
    }

    /** Point the statics at an array of the given type. */
    method Install(arg: array<Word>, kind: nat)
      requires kind <= 4 && arg.Length > Deg(kind) && arg.Length > 1
      modifies this`state, this`randType, this`randDeg, this`randSep, this`endPtr
      ensures Cursors0() && state == arg && randType == kind
    {
      randType, randDeg, randSep := kind, Deg(kind), Sep(kind);
      state := arg;
      endPtr := randDeg;
    }

    /** initstate(); null stands for the refusal of too small an array. */
    method Initstate(seed: Word, arg: array<Word>, n: int) returns (ostate: array?<Word>)
      requires Valid() && n <= 4 * arg.Length
      modifies this, state, arg
      ensures Valid()
      ensures n < 8 ==> ostate == null && View() == old(View())
      ensures n >= 8 ==> ostate == old(state) && WorldOk(old(View()))
                         && View() == Apply(old(View()), Init(arg, seed, KindFor(n)))
      ensures n >= 32 ==> rptr == 0
    {
      hide Seeded, GenOf;
      ostate := state;
      Save();
      if n < 8 {
        StayMarked();
        return null;
      }
      if n < 32 {
        Install(arg, 0);
      } else if n < 64 {
        Install(arg, 1);
      } else if n < 128 {
        Install(arg, 2);
      } else if n < 256 {
        Install(arg, 3);
      } else {
        Install(arg, 4);
      }
      Start(seed);
    }

    /** Nothing has moved since the position was saved. */
    ghost method StayMarked()
      requires Cursors() && AllParked() && state in gens && state[0] % MAX_TYPES == randType
      requires randType > 0 ==> state[0] / MAX_TYPES == rptr
      modifies this`moved
      ensures Valid()
    {
      hide GenOf;
      moved := 0;
      assert Parked(state, gens[state]);
      assert state[..][1..] == state[1..];
      if randType > 0 { WrapIsMod(rptr, randDeg); } else { LcgAnywhere(state[1..], state[0] / MAX_TYPES, rptr); }
    }

    /** Seed the array just installed and mark it. */
    method Start(seed: Word)
      requires Cursors0() && forall a :: a in gens && a != state ==> Parked(a, gens[a])
      modifies this`fptr, this`rptr, this`gens, this`moved, state
      ensures Valid() && gens == old(gens)[state := Seeded(seed, randType)]
      ensures randType > 0 ==> rptr == 0
    {
      hide Seeded, GenOf;
      Seed(seed);
      gens := gens[state := Seeded(seed, randType)];
      ghost var s := state[1..];
      state[0] := if randType == 0 then randType else MAX_TYPES * rptr + randType;
      assert state[1..] == s && state[..][1..] == s;
      QuotientIs(state[0], MAX_TYPES, 0, randType);
      if randType == 0 { LcgAnywhere(s, 0, rptr); }
      StayMarked();
    }

    /** Take type and position from what word 0 was found to hold. */
    method Load(arg: array<Word>, kind: nat, rear: nat)
      requires kind <= 4 && arg.Length > Deg(kind) && arg.Length > 1 && (kind > 0 ==> rear < Deg(kind))
      modifies this`state, this`randType, this`randDeg, this`randSep, this`endPtr, this`fptr, this`rptr
      ensures Cursors() && state == arg && randType == kind && (kind > 0 ==> rptr == rear)
    {
      randType, randDeg, randSep := kind, Deg(kind), Sep(kind);
      state := arg;
      if randType != 0 {
        rptr := rear;
        fptr := (rear + randSep) % randDeg;
        WrapIsMod(rear + randSep, randDeg);
      }
      endPtr := randDeg;
    }

    lemma AllGensOk()
      requires Valid()
      ensures WorldOk(View())
    {
      forall a | a in gens ensures GenOk(gens[a]) { assert a != state ==> Parked(a, gens[a]); }
    }

    /** What word 0 of an array to be selected tells. */
    lemma MarkOf(arg: array<Word>)
      requires Valid() && (arg in gens || Marked(arg[..]))
      ensures Marked(arg[..])
      ensures arg in gens && arg != state ==> gens[arg] == MarkedGen(arg[..])
      ensures arg == state && randType > 0 ==> (arg[0] / MAX_TYPES == rptr <==> moved % randDeg == 0)
      ensures arg == state && (randType > 0 ==> moved % randDeg == 0) ==> MarkedGen(arg[..]) == gens[arg]
    {
      hide GenOf;
      assert arg in gens && arg != state ==> Parked(arg, gens[arg]);
      assert arg[..][1..] == arg[1..];
      if arg == state {
        if randType > 0 { BackToMark(arg[0] / MAX_TYPES, moved, randDeg); }
        else { LcgAnywhere(arg[1..], arg[0] / MAX_TYPES, rptr); }
      }
    }

    /** The array just loaded has been left as it was found. */
    ghost method SelectOther(arg: array<Word>, w: seq<Word>)
      requires Cursors() && state == arg && w == arg[..] && Marked(w)
      requires arg[0] % MAX_TYPES == randType && (randType > 0 ==> arg[0] / MAX_TYPES == rptr)
      requires arg in gens && gens[arg] == MarkedGen(w) && forall a :: a in gens && a != arg ==> Parked(a, gens[a])
      modifies this`moved
      ensures Valid()
    {
      hide GenOf;
      StayMarked();
    }

    /**
      setstate(), for an array whose word 0 holds a type and a position.  For
      the array already in use the position is taken from there before the
      current one is saved.
     */
    method Setstate(arg: array<Word>) returns (ostate: array<Word>)
      requires Valid() && (arg in gens || Marked(arg[..]))
      modifies this, state
      ensures Valid() && ostate == old(state) && state == arg
      ensures arg != old(state) && arg in old(gens) ==>
                WorldOk(old(View())) && View() == Apply(old(View()), Select(arg))
      ensures arg !in old(gens) ==> View() == World(old(gens)[arg := MarkedGen(old(arg[..]))], arg)
      ensures arg == old(state) ==>
                && Marked(old(arg[..])) && gens == old(gens)[arg := MarkedGen(old(arg[..]))]
                && (randType > 0 ==> (rptr == old(rptr) <==> old(moved) % randDeg == 0))
      ensures arg == old(state) && (randType > 0 ==> old(moved) % randDeg == 0) ==> View() == old(View())
    {
      hide GenOf, Parked;
      AllGensOk();
      MarkOf(arg);
      var kind, rear := arg[0] % MAX_TYPES, arg[0] / MAX_TYPES;
      ghost var w, front := arg[..], rptr;
      ostate := state;
      Save();
      Load(arg, kind, rear);
      hide MarkedGen;
      if arg == ostate {
        TurnBack(rear, front, w);
      } else {
        gens := gens[arg := MarkedGen(w)];
        SelectOther(arg, w);
        assert arg in old(gens) ==> gens == old(gens);
      }
    }

    /** Account for the cursor having been moved from `front` to where the mark in w told. */
    ghost method TurnBack(rear: nat, front: nat, w: seq<Word>)
      requires Cursors() && Marked(w) && state in gens && forall a :: a in gens && a != state ==> Parked(a, gens[a])
      requires Marked(state[..]) && state[0] % MAX_TYPES == randType == w[0] % MAX_TYPES && rear == w[0] / MAX_TYPES
      requires state[1..] == w[1..]
      requires randType > 0 ==> rptr == rear && state[0] / MAX_TYPES == front < randDeg
      modifies this`moved, this`gens
      ensures Valid() && gens == old(gens)[state := MarkedGen(w)]
    {
      hide GenOf;
      gens := gens[state := MarkedGen(w)];
      if randType > 0 {
        moved := rear + randDeg - front;
        WrapIsMod(rear + randDeg, randDeg);
      } else {
        LcgAnywhere(w[1..], rear, rptr);
      }
    }
  }

  function KindFor(n: int): nat {
    if n < 32 then 0 else if n < 64 then 1 else if n < 128 then 2 else if n < 256 then 3 else 4
  }

  /** The largest register that fits into the array together with its header word. */
  lemma KindGreatest(n: int)
    requires n >= 32
    ensures KindFor(n) <= 4 && 4 * (Deg(KindFor(n)) + 1) <= n
    ensures forall t :: KindFor(n) < t <= 4 ==> n < 4 * (Deg(t) + 1)
  {
  }

  lemma LcgAnywhere(s: seq<Word>, a: nat, b: nat)
    requires |s| > 0
    ensures GenOf(s, 0, a) == GenOf(s, 0, b)
  {
  }

  lemma WrapIsMod(i: nat, d: nat)
    requires 0 < d && i < 2 * d
    ensures i % d == Wrap(i, d)
  {
    QuotientIs(i, d, if i >= d then 1 else 0, Wrap(i, d));
  }

  /** A cursor is back at its mark exactly after whole turns. */
  lemma BackToMark(mark: nat, moved: nat, d: nat)
    requires mark < d
    ensures (mark + moved) % d == mark <==> moved % d == 0
  {
    DivMod(moved, d);
    var r := moved % d;
    var i := mark + r;
    if i >= d {
      MulPlus(moved / d, 1, d);
      QuotientIs(mark + moved, d, moved / d + 1, i - d);
    } else {
      QuotientIs(mark + moved, d, moved / d, i);
    }
  }

  lemma SeededLcg(s: seq<Word>, rear: nat, x: Word)
    requires |s| > 0 && s[0] == x
    ensures GenOf(s, 0, rear) == Seeded(x, 0)
  {
  }

  lemma SeededRegister(x: Word, t: nat)
    requires 1 <= t <= 4
    ensures Seeded(x, t) == DrawMany(GenOf(Fill(x, Deg(t)), t, 0), 10 * Deg(t))
  {
  }

  /** Words behind the ring do not matter. */
  lemma FillOnly(s: seq<Word>, t: nat, f: seq<Word>)
    requires 1 <= t <= 4 && |f| == Deg(t) <= |s| && s[..Deg(t)] == f
    ensures GenOf(s, t, 0) == GenOf(f, t, 0)
  {
    assert Ring(s, Sep(t), Deg(t)) == Ring(f, Sep(t), Deg(t));
  }

  lemma DrawNone(g: Gen)
    requires GenOk(g)
    ensures DrawMany(g, 0) == g
  {
  }

  lemma DrawOneMore(g: Gen, n: nat)
    requires GenOk(g)
    ensures DrawMany(g, n + 1) == Draw(DrawMany(g, n)).1
  {
  }

  /** Moving a cursor on, once around the ring and so on. */
  lemma NextMod(n: nat, d: nat)
    requires d > 0
    ensures (n + 1) % d == Wrap(n % d + 1, d)
  {
    DivMod(n, d);
    if n % d + 1 == d {
      MulPlus(n / d, 1, d);
      QuotientIs(n + 1, d, n / d + 1, 0);
    } else {
      QuotientIs(n + 1, d, n / d, n % d + 1);
    }
  }

  lemma RingsEqual(u: seq<Word>, v: seq<Word>, from: nat, d: nat)
    requires |u| == |v| == d && from < d && Ring(u, from, d) == Ring(v, from, d)
    ensures u == v
  {
    forall i | 0 <= i < d ensures u[i] == v[i] {
      var k := if i >= from then i - from else i + d - from;
      assert Ring(u, from, d)[k] == u[i] && Ring(v, from, d)[k] == v[i];
    }
  }

  /** The next number of a register of type 3 whose rear cursor is at r. */
  lemma NextNumber(t: seq<Word>, r: nat)
    requires |t| == 31 && r < 28
    ensures Draw(GenOf(t, 3, r)).0 == Add(t[r + 3], t[r]) / 2
  {
    var w := Ring(t, r + 3, 31);
    assert w[0] == t[r + 3] && w[28] == t[r];
  }

  /** From the default table, one call on: the next number depends on where the cursor is. */
  lemma CursorMatters(s: seq<Word>, t: seq<Word>)
    requires s == RANDTBL[1..] && t == s[3 := Add(s[3], s[0])]
    ensures Draw(GenOf(s, 3, 0)).1 == GenOf(t, 3, 1)
    ensures Draw(GenOf(t, 3, 1)).0 != Draw(GenOf(t, 3, 0)).0
  {
    assert s[0] == 0x9a319039 && s[1] == 0x32d9c024 && s[3] == 0x5da1f342 && s[4] == 0xde3b81e0;
    hide Draw, GenOf, RANDTBL;
    RingStep(s, 3, 0, t);
    NextNumber(t, 0);
    NextNumber(t, 1);
  }

  /** The default table after one call. */
  ghost function Once(): seq<Word> { RANDTBL[1..][3 := Add(RANDTBL[1..][3], RANDTBL[1..][0])] }

  /** The second number drawn from the default table ... */
  method SecondNumber() returns (a: Word)
    ensures a == Draw(GenOf(Once(), 3, 1)).0
  {
    var p := new Randomizer();
    assert p.state[1..] == p.state[..][1..];
    CursorMatters(RANDTBL[1..], Once());
    hide Draw, GenOf, Once;
    var _ := p.Random();
    a := p.Random();
  }

  /** ... and the one drawn when the table is selected again in between. */
  method SecondAfterReselecting() returns (b: Word)
    ensures b == Draw(GenOf(Once(), 3, 0)).0
  {
    var q := new Randomizer();
    assert q.state[1..] == q.state[..][1..];
    CursorMatters(RANDTBL[1..], Once());
    hide Draw, GenOf, Once;
    var _ := q.Random();
    SameWords(q.state[1..], Once());
    assert q.state[..][1..] == q.state[1..];
    var _ := q.Setstate(q.state);
    b := q.Random();
  }

  /** They differ. */
  method ReselectingDisturbs() returns (a: Word, b: Word)
    ensures a != b && a == Draw(GenOf(Once(), 3, 1)).0 && b == Draw(GenOf(Once(), 3, 0)).0
  {
    CursorMatters(RANDTBL[1..], Once());
    a := SecondNumber();
    b := SecondAfterReselecting();
  }

  lemma SameWords(u: seq<Word>, v: seq<Word>)
    requires |u| == |v| == 31 && GenOf(u, 3, 1) == GenOf(v, 3, 1)
    ensures u == v
  {
    RingsEqual(u, v, 4, 31);
  }
}
