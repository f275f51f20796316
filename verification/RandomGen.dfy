/**
  The generators behind random(): a linear congruential one, and shift
  registers that add two words of their past.  This is the meaning of a state
  array, apart from where its cursors happen to stand.
 */
module RandomGen {
  type Word = w: int | 0 <= w < 0x1_0000_0000

  const MAX_TYPES := 5

  /** Degree of the polynomial, by type. */
  function Deg(t: nat): nat
  {
    if t == 1 then 7 else if t == 2 then 15 else if t == 3 then 31 else if t == 4 then 63 else 0
  }

  /** Separation of its two lower terms. */
  function Sep(t: nat): (s: nat)
    ensures 1 <= t <= 4 ==> 1 <= s < Deg(t)
  {
    if t == 1 || t == 3 then 3 else if t == 2 || t == 4 then 1 else 0
  }

  /** The last Deg words produced, the oldest first. */
  datatype Gen = Lcg(x: Word) | Register(kind: nat, window: seq<Word>)

  ghost predicate GenOk(g: Gen) {
    g.Register? ==> 1 <= g.kind <= 4 && |g.window| == Deg(g.kind)
  }

  function Add(x: int, y: int): Word { (x + y) % 0x1_0000_0000 }

  /** The congruential step of srandom, in 32 bits, and that of random, in 31. */
  function FillNext(x: int): Word { (1103515245 * x + 12345) % 0x1_0000_0000 }

  function LcgNext(x: int): Word { (x * 1103515245 + 12345) % 0x8000_0000 }

  /** x[k] = x[k - deg] + x[k - sep], modulo 2^32. */
  function RegisterNext(t: nat, w: seq<Word>): Word
    requires 1 <= t <= 4 && |w| == Deg(t)
  {
    Add(w[0], w[Deg(t) - Sep(t)])
  }

  /** One call of random(): the number returned, and the generator afterwards. */
  function Draw(g: Gen): (Word, Gen)
    requires GenOk(g)
  {
    match g
    case Lcg(x) => (LcgNext(x), Lcg(LcgNext(x)))
    case Register(t, w) => (RegisterNext(t, w) / 2, Register(t, w[1..] + [RegisterNext(t, w)]))
  }

  function DrawMany(g: Gen, n: nat): (h: Gen)
    requires GenOk(g)
    ensures GenOk(h)
  {
    if n == 0 then g else Draw(DrawMany(g, n - 1)).1
  }

  /** The first n numbers of a generator. */
  function Stream(g: Gen, n: nat): (s: seq<Word>)
    requires GenOk(g)
    ensures |s| == n
  {
    if n == 0 then [] else Stream(g, n - 1) + [Draw(DrawMany(g, n - 1)).0]
  }

  /** The words srandom writes first. */
  function Fill(x: Word, n: nat): (s: seq<Word>)
    ensures |s| == n
  {
    if n == 0 then []
    else if n == 1 then [x]
    else var s := Fill(x, n - 1); s + [FillNext(s[n - 2])]
  }

  /** The seed, and then each word the congruential successor of the one before. */
  lemma {:induction false} FillSuccessor(x: Word, n: nat, k: nat)
    requires k < n
    ensures Fill(x, n)[0] == x
    ensures k > 0 ==> Fill(x, n)[k] == (1103515245 * Fill(x, n)[k - 1] as int + 12345) % 0x1_0000_0000
  {
    if n > 1 { FillSuccessor(x, n - 1, if k < n - 1 then k else 0); }
  }

  /** So are the numbers of the congruential generator, in 31 bits. */
  lemma {:induction false} LcgStream(x: Word, n: nat, k: nat)
    requires k < n
    ensures var s := Stream(Lcg(x), n);
            s[k] == (1103515245 * (if k == 0 then x else s[k - 1]) as int + 12345) % 0x8000_0000
    decreases n
  {
    LcgLast(x, n);
    if k < n - 1 { LcgStream(x, n - 1, k); }
  }

  lemma {:induction false} LcgLast(x: Word, n: nat)
    ensures DrawMany(Lcg(x), n) == Lcg(if n == 0 then x else Stream(Lcg(x), n)[n - 1])
    ensures n > 0 ==>
              var v := if n == 1 then x else Stream(Lcg(x), n - 1)[n - 2];
              Stream(Lcg(x), n) == Stream(Lcg(x), n - 1) + [LcgNext(v)]
  {
    hide LcgNext;
    if n > 0 { LcgLast(x, n - 1); }
  }

  /** The window of a register followed by the first n words it produces. */
  function Words(g: Gen, n: nat): (s: seq<Word>)
    requires GenOk(g) && g.Register?
    ensures |s| == Deg(g.kind) + n
  {
    if n == 0 then g.window
    else var h := DrawMany(g, n - 1);
         RegisterStays(g, n - 1);
         Words(g, n - 1) + [RegisterNext(h.kind, h.window)]
  }

  lemma {:induction false} RegisterStays(g: Gen, n: nat)
    requires GenOk(g) && g.Register?
    ensures DrawMany(g, n).Register? && DrawMany(g, n).kind == g.kind
  {
    if n > 0 { RegisterStays(g, n - 1); }
  }

  lemma {:induction false} WindowSlides(g: Gen, n: nat)
    requires GenOk(g) && g.Register?
    ensures DrawMany(g, n) == Register(g.kind, Words(g, n)[n..])
  {
    if n > 0 {
      RegisterStays(g, n - 1);
      WindowSlides(g, n - 1);
      var s, t := Words(g, n - 1), Words(g, n);
      assert t[n..] == s[n - 1..][1..] + [t[|t| - 1]];
    } else {
      assert g.window[0..] == g.window;
    }
  }

  /** Over any run each word is the sum of two earlier ones, and each number its upper 31 bits. */
  lemma Recurrence(g: Gen, n: nat, k: nat)
    requires GenOk(g) && g.Register? && k < n
    ensures var s, deg, sep := Words(g, n), Deg(g.kind), Sep(g.kind);
            s[deg + k] == Add(s[k], s[deg + k - sep]) && Stream(g, n)[k] == s[deg + k] / 2
    decreases n
  {
    hide Words, Stream, Add;
    LastWord(g, n - 1);
    if k < n - 1 { Recurrence(g, n - 1, k); }
  }

  /** The four polynomials. */
  lemma Polynomials(g: Gen, n: nat, k: nat)
    requires GenOk(g) && g.Register? && k < n
    ensures var s := Words(g, n);
            && (g.kind == 1 ==> s[k + 7] == (s[k] as int + s[k + 4] as int) % 0x1_0000_0000)
            && (g.kind == 2 ==> s[k + 15] == (s[k] as int + s[k + 14] as int) % 0x1_0000_0000)
            && (g.kind == 3 ==> s[k + 31] == (s[k] as int + s[k + 28] as int) % 0x1_0000_0000)
            && (g.kind == 4 ==> s[k + 63] == (s[k] as int + s[k + 62] as int) % 0x1_0000_0000)
  {
    Recurrence(g, n, k);
    hide Words;
  }

  lemma LastWord(g: Gen, n: nat)
    requires GenOk(g) && g.Register?
    ensures var s, deg, sep := Words(g, n), Deg(g.kind), Sep(g.kind);
            var v := Add(s[n], s[deg + n - sep]);
            Words(g, n + 1) == s + [v] && Stream(g, n + 1) == Stream(g, n) + [v / 2]
  {
    WindowSlides(g, n);
    hide Add;
    var s, w := Words(g, n), Words(g, n)[n..];
    assert w[0] == s[n] && w[Deg(g.kind) - Sep(g.kind)] == s[Deg(g.kind) + n - Sep(g.kind)];
    assert DrawMany(g, n) == Register(g.kind, w);
  }

  // ------------------------------------------------------------- ring buffers

  function Wrap(i: nat, deg: nat): nat { if i >= deg then i - deg else i }

  /** The words of a ring of deg words, starting at `from`. */
  function Ring(s: seq<Word>, from: nat, deg: nat): (w: seq<Word>)
    requires from < deg <= |s|
    ensures |w| == deg && forall i :: 0 <= i < deg ==> w[i] == s[Wrap(from + i, deg)]
  {
    s[from..deg] + s[..from]
  }

  /** The generator that a state array stands for when its rear cursor is at `rear`. */
  function GenOf(s: seq<Word>, t: nat, rear: nat): (g: Gen)
    requires t <= 4 && |s| > 0 && (t > 0 ==> rear < Deg(t) <= |s|)
    ensures GenOk(g)
  {
    if t == 0 then Lcg(s[0]) else Register(t, Ring(s, Wrap(rear + Sep(t), Deg(t)), Deg(t)))
  }

  function Seeded(x: Word, t: nat): (g: Gen)
    requires t <= 4
    ensures GenOk(g)
  {
    if t == 0 then Lcg(x) else DrawMany(GenOf(Fill(x, Deg(t)), t, 0), 10 * Deg(t))
  }

  /** Adding the word at the rear cursor into the one at the front, and moving both on. */
  lemma RingShift(s: seq<Word>, front: nat, deg: nat, s': seq<Word>, v: Word)
    requires front < deg <= |s| && s' == s[front := v]
    ensures Ring(s, front, deg)[1..] + [v] == Ring(s', Wrap(front + 1, deg), deg)
  {
    var n, w := Ring(s, front, deg)[1..] + [v], Ring(s', Wrap(front + 1, deg), deg);
    hide Ring;
    forall i | 0 <= i < deg ensures n[i] == w[i] {
      if i < deg - 1 { assert n[i] == Ring(s, front, deg)[i + 1]; }
    }
  }

  lemma RingStep(s: seq<Word>, t: nat, rear: nat, s': seq<Word>)
    requires 1 <= t <= 4 && rear < Deg(t) <= |s|
    requires var front := Wrap(rear + Sep(t), Deg(t));
             s' == s[front := Add(s[front], s[rear])]
    ensures Draw(GenOf(s, t, rear))
            == (s'[Wrap(rear + Sep(t), Deg(t))] / 2, GenOf(s', t, Wrap(rear + 1, Deg(t))))
  {
    var deg := Deg(t);
    var front := Wrap(rear + Sep(t), deg);
    var w := Ring(s, front, deg);
    assert w[0] == s[front] && w[deg - Sep(t)] == s[rear];
    assert Wrap(Wrap(rear + 1, deg) + Sep(t), deg) == Wrap(front + 1, deg);
    var v := RegisterNext(t, w);
    assert v == s'[front];
    RingShift(s, front, deg, s', v);
  }

  lemma LcgStep(s: seq<Word>, rear: nat, s': seq<Word>)
    requires |s| > 0 && s' == s[0 := LcgNext(s[0])]
    ensures Draw(GenOf(s, 0, rear)) == (s'[0], GenOf(s', 0, rear))
  {
  }

  /** The two cursors never wrap in the same call. */
  lemma NotBothWrap(t: nat, rear: nat)
    requires 1 <= t <= 4 && rear < Deg(t)
    ensures Wrap(rear + Sep(t), Deg(t)) + 1 == Deg(t) ==> rear + 1 < Deg(t)
  {
  }

  // -------------------------------------------- switching between state arrays

  /** The initialised arrays with their generators, and the one in use. */
  datatype World<A> = World(gens: map<A, Gen>, cur: A)

  datatype Op<A> = Random | Select(target: A) | Init(target: A, seed: Word, kind: nat)

  ghost predicate WorldOk<A>(w: World<A>) {
    w.cur in w.gens && forall a :: a in w.gens ==> GenOk(w.gens[a])
  }

  ghost predicate Allowed<A>(w: World<A>, op: Op<A>) {
    match op
    case Random => true
    case Select(a) => a in w.gens && a != w.cur
    case Init(_, _, t) => t <= 4
  }

  ghost function Apply<A>(w: World<A>, op: Op<A>): (v: World<A>)
    requires WorldOk(w) && Allowed(w, op)
    ensures WorldOk(v)
  {
    match op
    case Random => w.(gens := w.gens[w.cur := Draw(w.gens[w.cur]).1])
    case Select(a) => w.(cur := a)
    case Init(a, x, t) => World(w.gens[a := Seeded(x, t)], a)
  }

  ghost predicate Legal<A>(w: World<A>, ops: seq<Op<A>>)
    requires WorldOk(w)
    decreases |ops|
  {
    ops != [] ==> Allowed(w, ops[0]) && Legal(Apply(w, ops[0]), ops[1..])
  }

  /** The numbers that a run returns while array a is in use. */
  ghost function Numbers<A>(w: World<A>, ops: seq<Op<A>>, a: A): seq<Word>
    requires WorldOk(w) && Legal(w, ops)
    decreases |ops|
  {
    if ops == [] then []
    else (if ops[0].Random? && w.cur == a then [Draw(w.gens[a]).0] else [])
         + Numbers(Apply(w, ops[0]), ops[1..], a)
  }

  lemma {:induction false} DrawManyShift(g: Gen, n: nat)
    requires GenOk(g)
    ensures DrawMany(Draw(g).1, n) == DrawMany(g, n + 1)
  {
    if n > 0 { DrawManyShift(g, n - 1); }
  }

  lemma {:induction false} StreamShift(g: Gen, n: nat)
    requires GenOk(g)
    ensures Stream(g, n + 1) == [Draw(g).0] + Stream(Draw(g).1, n)
  {
    if n > 0 {
      StreamShift(g, n - 1);
      DrawManyShift(g, n - 1);
    }
  }

  /**
    However a run switches between arrays, each array delivers its own stream,
    uninterrupted, for as long as it is not initialised again.
   */
  lemma {:induction false} StreamsAreIndependent<A>(w: World<A>, ops: seq<Op<A>>, a: A)
    requires WorldOk(w) && Legal(w, ops) && a in w.gens
    requires forall i :: 0 <= i < |ops| ==> !(ops[i].Init? && ops[i].target == a)
    ensures Numbers(w, ops, a) == Stream(w.gens[a], |Numbers(w, ops, a)|)
    decreases |ops|
  {
    if ops != [] {
      var v := Apply(w, ops[0]);
      StreamsAreIndependent(v, ops[1..], a);
      var n := Numbers(v, ops[1..], a);
      if ops[0].Random? && w.cur == a {
        StreamShift(w.gens[a], |n|);
      } else {
        assert v.gens[a] == w.gens[a];
        assert [] + n == n;
      }
    }
  }
}
