/**
  32-bit multiplication and division for the 68000, whose own instructions
  multiply 16 by 16 and divide 32 by 16 bits.  One assignment per instruction.
 */
module Arith68k {
  import opened Arith

  const B := 0x1_0000
  const B2 := 0x1_0000_0000

  /** A register, and the low word of one. */
  type Reg = x: int | 0 <= x < B2
  type Half = x: int | 0 <= x < B

  function Lo(x: Reg): Half { x % B }

  function Hi(x: Reg): Half { x / B }

  function Swap(x: Reg): Reg { x % B * B + x / B }

  /** movew: replace the low word. */
  function MoveW(s: Reg, d: Reg): Reg { d / B * B + s % B }

  function ClrW(d: Reg): Reg { d / B * B }

  function AddL(s: int, d: int): Reg { (s + d) % B2 }

  function AddW(s: int, d: int): Reg
    requires 0 <= d < B2
  {
    d / B * B + (s + d) % B
  }

  /** mulu: product of the low words. */
  function MulW(s: Reg, d: Reg): Reg {
    HalfProduct(Lo(s), Lo(d));
    var p: int := Lo(s) * Lo(d);
    p
  }

  /** divu: remainder and quotient in one register; untouched when the quotient does not fit. */
  function DivW(s: Reg, d: Reg): Reg
    requires Lo(s) != 0
  {
    var q: int, r: int := d / Lo(s), d % Lo(s);
    if q < B then r * B + q else d
  }

  lemma HalfProduct(a: Half, b: Half)
    ensures 0 <= a as int * b as int <= 0xfffe_0001
  {
    MulBound(a, b);
  }

  lemma MulBound(a: int, b: int)
    requires 0 <= a < B && 0 <= b < B
    ensures 0 <= a * b <= 0xffff * 0xffff
  {
    MulMonotone(a, 0xffff, b);
    MulMonotone(b, 0xffff, 0xffff);
  }

  lemma MulMonotone(a: int, c: int, b: int)
    requires 0 <= a <= c && 0 <= b
    ensures 0 <= a * b <= c * b
  {
    if b > 0 {
      MulMonotone(a, c, b - 1);
      assert a * b == a * (b - 1) + a;
      assert c * b == c * (b - 1) + c;
    }
  }

  // ----------------------------------------------------------- multiplication

  lemma ModOfSum(t: int, k: int, m: int)
    requires m > 0
    ensures (k * m + t) % m == t % m
  {
    DivMod(t, m);
    MulPlus(k, t / m, m);
    QuotientIs(k * m + t, m, k + t / m, t % m);
  }

  /** Long multiplication in base 2^16. */
  lemma CrossProducts(a: int, b: int, c: int, d: int)
    ensures (a * B + b) * (c * B + d) == (a * c) * B2 + (a * d + b * c) * B + b * d
  {
  }

  /** Only the low words of the cross products reach the result. */
  lemma Truncated(ac: int, ad: int, bc: int, bd: int)
    ensures (ac * B2 + (ad + bc) * B + bd) % B2 == (bd + (ad % B + bc % B) % B * B) % B2
  {
    var s := ad % B + bc % B;
    var k := ac + ad / B + bc / B + s / B;
    var t := bd + s % B * B;
    assert ac * B2 + (ad + bc) * B + bd == k * B2 + t;
    ModOfSum(t, k, B2);
  }

  lemma MulSwapped(s: Reg, d: Reg)
    ensures MulW(s, Swap(d)) as int == Lo(s) * Hi(d)
  {
    QuotientIs(Swap(d), B, Lo(d), Hi(d));
  }

  /** mulu: the product modulo 2^32. */
  method Mulu(u: Reg, v: Reg) returns (d0: Reg)
    ensures d0 == (u as int * v as int) % B2
  {
    hide Swap, MulW, AddW, AddL, ClrW;
    MulSwapped(v, u);
    MulSwapped(u, v);
    d0 := u;
    var d1 := v;
    var d2 := d0;
    var d3 := d1;
    d2 := Swap(d2);
    d3 := Swap(d3);
    d2 := MulW(d1, d2);
    d3 := MulW(d0, d3);
    d0 := MulW(d1, d0);
    ghost var x, y := d2, d3;
    d2 := AddW(d3, d2);
    d2 := Swap(d2);
    d2 := ClrW(d2);
    d0 := AddL(d2, d0);
    MuluIs(u, v, x, y);
  }

  lemma Shifted(x: Reg, y: Reg)
    ensures ClrW(Swap(AddW(y, x))) == (x % B + y % B) % B * B
  {
    var h, l := x / B, (y as int + x) % B;
    assert AddW(y, x) == h * B + l;
    QuotientIs(h * B + l, B, h, l);
    QuotientIs(l * B + h, B, l, h);
  }

  lemma MuluIs(u: Reg, v: Reg, x: Reg, y: Reg)
    requires x as int == Lo(v) * Hi(u) && y as int == Lo(u) * Hi(v)
    ensures AddL(ClrW(Swap(AddW(y, x))), MulW(v, u)) == (u as int * v as int) % B2
  {
    var a: int, b: int, c: int, d: int := Hi(u), Lo(u), Hi(v), Lo(v);
    Shifted(x, y);
    DivMod(u, B);
    DivMod(v, B);
    CrossProducts(a, b, c, d);
    Truncated(a * c, a * d, b * c, b * d);
    Commutes(a, d);
    Commutes(b, d);
  }

  lemma Commutes(a: int, b: int)
    ensures a * b == b * a
  {
  }

  // ----------------------------------------------------------------- division

  /** Schoolbook division by one digit in base 2^16. */
  lemma TwoDigits(n: int, d: int, h: int, l: int, m: int)
    requires d > 0 && n == h * B + l && m == h % d * B + l
    ensures n == (h / d * B + m / d) * d + m % d
  {
    DivMod(h, d);
    DivMod(m, d);
    MulPlus(h / d * B, m / d, d);
    Regroup3(h / d, B, d);
  }

  lemma Regroup3(a: int, b: int, c: int)
    ensures (a * b) * c == (a * c) * b
  {
  }

  lemma DigitFits(r: int, l: int, d: int)
    requires 0 <= r < d && 0 <= l < B
    ensures 0 <= (r * B + l) / d < B
  {
    var m := r * B + l;
    DivMod(m, d);
    if m / d >= B {
      MulMonotone(B, m / d, d);
    }
  }

  /** A register with the given halves. */
  function Pack(h: Half, l: Half): Reg { h as int * B + l }

  lemma PackHalves(h: Half, l: Half)
    ensures Hi(Pack(h, l)) == h && Lo(Pack(h, l)) == l && Swap(Pack(h, l)) == Pack(l, h)
  {
    QuotientIs(h as int * B + l, B, h, l);
  }

  lemma PackMove(a: Half, b: Half, c: Half, d: Half)
    ensures MoveW(Pack(a, b), Pack(c, d)) == Pack(c, b)
  {
    PackHalves(a, b);
    PackHalves(c, d);
  }

  lemma Unpack(x: Reg)
    ensures x == Pack(Hi(x), Lo(x))
  {
    DivMod(x, B);
  }

  /** divu on a quotient that fits. */
  lemma PackDiv(s: Reg, d: Reg, q: int, r: int)
    requires 0 < s < B && d as int == q * s + r && 0 <= r < s && 0 <= q < B
    ensures Lo(s) == s && DivW(s, d) == Pack(r, q)
  {
    QuotientIs(s, B, 0, s);
    QuotientIs(d, s, q, r);
  }

  lemma QuotientSmall(h: int, d: int)
    requires 0 <= h < B && d > 0
    ensures 0 <= h / d < B && 0 <= h % d < d
  {
    DivMod(h, d);
    if h / d > h { MulAtLeast(d, h / d); }
  }

  /** divmodu for divisors of 16 bits: two divu instructions, neither of which overflows. */
  method DivSmall(n: Reg, d: Reg) returns (d0: Reg, d1: Reg)
    requires 0 < d < B
    ensures n as int == d0 as int * d as int + d1 && d1 < d
  {
    hide Swap, MoveW, DivW, Pack, Lo, Hi;
    ghost var h, l := Hi(n), Lo(n);
    Unpack(n);
    SmallDivision(n, d, h, l);
    ghost var q: Half, r: Half := h as int / d as int, h as int % d as int;
    ghost var m: int := r as int * B + l;
    ghost var q2: Half, r2: Half := m / d as int, m % d as int;
    d0, d1 := n, d;
    var d3 := d1;
    d0 := Swap(d0);
    d3 := MoveW(d0, d3);
    SmallRegisters(d, h, l, q, r, q2, r2);
    if Lo(d0) != 0 {
      d3 := DivW(d1, d3);
      d0 := MoveW(d3, d0);
    }
    d0 := Swap(d0);
    d3 := MoveW(d0, d3);
    d3 := DivW(d1, d3);
    d0 := MoveW(d3, d0);
    d3 := Swap(d3);
    d1 := MoveW(d3, d1);
  }

  lemma SmallDivision(n: Reg, d: Reg, h: Half, l: Half)
    requires n == Pack(h, l) && 0 < d < B
    ensures var q, r := h as int / d as int, h as int % d as int;
            var m := r * B + l;
            var q2, r2 := m / d as int, m % d as int;
            && 0 <= q < B && 0 <= r < d && 0 <= q2 < B && 0 <= r2 < d && 0 <= m < B2
            && h == q * d + r && m == q2 * d + r2
            && n == (q * B + q2) * d + r2
  {
    var q, r := h as int / d as int, h as int % d as int;
    var m := r * B + l;
    QuotientSmall(h, d);
    DivMod(h, d);
    DigitFits(r, l, d);
    DivMod(m, d);
    TwoDigits(n, d, h, l, m);
  }

  /** What the registers hold after each instruction. */
  lemma SmallRegisters(d: Reg, h: Half, l: Half, q: Half, r: Half, q2: Half, r2: Half)
    requires 0 < d < B && r < d && r2 < d && h as int == q as int * d as int + r
    requires r as int * B + l == q2 as int * d as int + r2
    ensures Lo(d) == d && Swap(Pack(h, l)) == Pack(l, h) && Lo(Pack(l, h)) == h
    ensures MoveW(Pack(l, h), d) == Pack(0, h)
    ensures h != 0 ==> DivW(d, Pack(0, h)) == Pack(r, q)
    ensures h == 0 ==> Pack(r, q) == Pack(0, h) && q == 0
    ensures MoveW(Pack(r, q), Pack(l, h)) == Pack(l, q) && Swap(Pack(l, q)) == Pack(q, l)
    ensures MoveW(Pack(q, l), Pack(r, q)) == Pack(r, l) && DivW(d, Pack(r, l)) == Pack(r2, q2)
    ensures MoveW(Pack(r2, q2), Pack(q, l)) == Pack(q, q2) && Swap(Pack(r2, q2)) == Pack(q2, r2)
    ensures MoveW(Pack(q2, r2), d) == r2 && Pack(q, q2) == q as int * B + q2
  {
    hide Swap, MoveW, DivW;
    assert d == Pack(0, d);
    PackHalves(0, d);
    PackHalves(h, l);
    PackHalves(l, h);
    PackMove(l, h, 0, d);
    PackDiv(d, Pack(0, h), q, r);
    PackMove(r, q, l, h);
    PackHalves(l, q);
    PackMove(q, l, r, q);
    PackDiv(d, Pack(r, l), q2, r2);
    PackMove(r2, q2, q, l);
    PackHalves(r2, q2);
    PackMove(q2, r2, 0, d);
    if h == 0 { ZeroQuotient(q, d, r); }
  }

  lemma ZeroQuotient(q: int, d: int, r: int)
    requires 0 == q * d + r && 0 <= r && 0 <= q && 0 < d
    ensures q == 0 && r == 0
  {
    if q > 0 { MulAtLeast(q, d); }
  }

  // ------------------------------------------------- the shift-subtract loop

  /**
    The state of the loop when s is the weight of the dividend bits still to be
    brought in and p that of the quotient bits found: d0 holds those bits w on
    top of the quotient so far, d1 the remainder.
   */
  ghost predicate Shifting(n: int, d: int, d0: int, d1: int, s: int, p: int, w: int, q: int) {
    && s >= 1 && p >= 1 && p * s == B && 0 <= w < s && 0 <= q < p && 0 <= d1 < d
    && d0 == w * (p * B) + q && n == (q * d + d1) * s + w
  }

  /** Splitting off the top bit of w, before d0 is doubled. */
  lemma TopBit(s: int, p: int, w: int, q: int, d0: int)
    requires s >= 1 && p >= 1 && p * (2 * s) == B && 0 <= w < 2 * s && 0 <= q < p && d0 == w * (p * B) + q
    ensures var bit := if w >= s then 1 else 0;
            var v := w - bit * s;
            && 0 <= v < s && d0 == bit * 0x8000_0000 + v * (p * B) + q
            && 0 <= v * (p * B) + q < 0x8000_0000
  {
    var bit := if w >= s then 1 else 0;
    var v := w - bit * s;
    assert s * (p * B) == 0x8000_0000 by {
      assert p * (2 * s) == 2 * (p * s) by { MulDouble(p, s); }
      assert s * (p * B) == (p * s) * B by { Regroup3(s, p, B); Commutes(s, p); Assoc(s, p, B); }
    }
    MulMinus(w, bit * s, p * B);
    MulMonotone(v, s - 1, p * B);
    MulMinus(s, 1, p * B);
  }

  lemma Assoc(a: int, b: int, c: int)
    ensures a * (b * c) == (a * b) * c
  {
  }

  /** The remainder shifted left by one bit still fits a register. */
  lemma NoOverflow(n: int, q: int, d: int, r: int, s: int, v: int)
    requires n < B2 && q >= 0 && d > 0 && r >= 0 && s >= 1 && v >= 0 && n == (q * d + r) * s + v
    ensures r < B2
  {
    MulMonotone(0, q, d);
    MulMonotone(r, q * d + r, s);
    MulAtLeast(s, r);
    Commutes(s, r);
  }

  lemma DividendShifts(n: int, q: int, d: int, r: int, s: int, w: int, bit: int)
    requires n == (q * d + r) * (2 * s) + w
    ensures n == (2 * q * d + (2 * r + bit)) * s + (w - bit * s)
  {
    var x := q * d + r;
    assert x * (2 * s) == 2 * (x * s) == (2 * x) * s by { MulDouble(x, s); }
    assert 2 * q * d == 2 * (q * d) by { Assoc(2, q, d); }
    MulPlus(2 * x, bit, s);
  }

  lemma QuotientBit(q: int, d: int, r: int)
    ensures (2 * q + 1) * d + (r - d) == 2 * q * d + r
  {
    MulPlus(2 * q, 1, d);
  }

  lemma Doubled(a: Reg, bit: int, body: int, v: int, p: int, q: int)
    requires (bit == 0 || bit == 1) && a as int == bit * 0x8000_0000 + body && 0 <= body < 0x8000_0000
    requires body == v * (p * B) + q
    ensures AddL(a, a) == 2 * body && 2 * body == v * (2 * p * B) + 2 * q
    ensures a >= 0x8000_0000 <==> bit == 1
  {
    QuotientIs(a as int + a, B2, bit, 2 * body);
    assert v * (2 * (p * B)) == 2 * (v * (p * B)) by { MulDouble(v, p * B); }
    Assoc(2, p, B);
  }

  /** addqw never carries out of the quotient. */
  lemma LowBitSet(d0: Reg, v: int, p: int, q: int)
    requires v >= 0 && 0 <= q && q + 1 < p <= B && d0 as int == v * (p * B) + q
    ensures AddW(1, d0) == d0 + 1 && d0 + 1 < B2
  {
    Assoc(v, p, B);
    QuotientIs(d0, B, v * p, q);
    QuotientIs(1 + d0 as int, B, v * p, q + 1);
  }

  lemma WeightBound(p: int, s: int)
    requires p >= 1 && s >= 1 && p * (2 * s) == B
    ensures 2 * p <= B && (2 * p) * s == B
  {
    MulDouble(p, s);
    MulAtLeast(s, 2 * p);
    Commutes(s, 2 * p);
  }

  /** One turn of the loop. */
  method ShiftSubtract(a: Reg, b: Reg, d3: Reg, ghost n: Reg, ghost s: int, ghost p: int, ghost w: int, ghost q: int)
    returns (d0: Reg, d1: Reg, ghost v: int, ghost q': int)
    requires s >= 1 && Shifting(n, d3, a, b, 2 * s, p, w, q)
    ensures Shifting(n, d3, d0, d1, s, 2 * p, v, q')
  {
    TopBit(s, p, w, q, a);
    ghost var bit := if w >= s then 1 else 0;
    v := w - bit * s;
    ghost var r: int := 2 * b as int + bit;
    DividendShifts(n, q, d3, b, s, w, bit);
    MulMonotone(0, 2 * q, d3);
    NoOverflow(n, 2 * q, d3, r, s, v);
    Doubled(a, bit, v * (p * B) + q, v, p, q);
    WeightBound(p, s);
    hide AddL, AddW;
    var x := if a >= 0x8000_0000 then 1 else 0;
    d0 := AddL(a, a);
    d1 := AddL(b as int + x, b);
    Sums(b, x, r);
    q' := 2 * q;
    if !(d3 > d1) {
      LowBitSet(d0, v, 2 * p, 2 * q);
      QuotientBit(q, d3, r);
      d1 := d1 - d3;
      d0 := AddW(1, d0);
      q' := q' + 1;
    }
  }

  lemma Sums(b: Reg, x: int, r: int)
    requires 0 <= x && r == b as int + b + x && r < B2
    ensures AddL(b as int + x, b) == r
  {
  }

  lemma Pow2Is16()
    ensures Pow2(16) == B
  {
    assert Pow2(4) == 16;
    assert Pow2(8) == 256;
    assert Pow2(12) == 4096;
  }

  /** divmodu for larger divisors: sixteen steps of shift and subtract. */
  method DivLarge(n: Reg, d: Reg) returns (d0: Reg, d1: Reg)
    requires d >= B
    ensures n as int == d0 as int * d as int + d1 && d1 < d
  {
    var d3 := d;
    d0, d1 := n, n;
    d1 := ClrW(d1);
    d1 := Swap(d1);
    d0 := Swap(d0);
    d0 := ClrW(d0);
    LargeStart(n, d);
    Pow2Is16();
    var d2 := 15;
    ghost var p, w, q := 1, n % B, 0;
    while d2 >= 0
      invariant -1 <= d2 <= 15 && Shifting(n, d, d0, d1, Pow2(d2 + 1), p, w, q)
      decreases d2
    {
      d0, d1, w, q := ShiftSubtract(d0, d1, d3, n, Pow2(d2), p, w, q);
      p := 2 * p;
      d2 := d2 - 1;
    }
  }

  lemma LargeStart(n: Reg, d: Reg)
    requires d >= B
    ensures Shifting(n, d, ClrW(Swap(n)), Swap(ClrW(n)), B, 1, n % B, 0)
  {
    var h: Half, l: Half := n / B, n % B;
    Unpack(n);
    PackHalves(h, l);
    PackHalves(l, h);
    PackHalves(h, 0);
    PackHalves(0, h);
    assert ClrW(n) == Pack(h, 0) && Swap(ClrW(n)) == h;
    assert ClrW(Swap(n)) == Pack(l, 0);
  }

  // ----------------------------------------------------- what C programs call

  /** divmodu: quotient and remainder for every dividend and every divisor but zero. */
  method Divmodu(n: Reg, d: Reg) returns (q: Reg, r: Reg)
    requires d != 0
    ensures q as int == n as int / d as int && r as int == n as int % d as int
  {
    if d > 0xffff {
      q, r := DivLarge(n, d);
    } else {
      q, r := DivSmall(n, d);
    }
    QuotientIs(n, d, q, r);
  }

  type Int = x: int | -0x8000_0000 <= x < 0x8000_0000

  /** A register read as a signed number, and back. */
  function Signed(x: Reg): Int { if x >= 0x8000_0000 then x - B2 else x }

  function Unsigned(x: Int): Reg { if x < 0 then x + B2 else x }

  /** Reduction of any number to 32 bits, read as a signed number. */
  function Wrap(x: int): Int { Signed(x % B2) }

  /** The one number of that range that differs from x by a multiple of 2^32. */
  lemma WrapLaw(x: int)
    ensures -0x8000_0000 <= Wrap(x) < 0x8000_0000 && (x - Wrap(x)) % 0x1_0000_0000 == 0
  {
    var q := x / B2 + if x % B2 >= 0x8000_0000 then 1 else 0;
    assert x - Wrap(x) == q * B2;
  }

  function Abs(x: int): nat { if x < 0 then -x else x }

  /** Division and remainder as C defines them, rounding toward zero. */
  function TruncDiv(a: int, b: int): int
    requires b != 0
  {
    if (a < 0) == (b < 0) then Abs(a) / Abs(b) else -(Abs(a) / Abs(b))
  }

  function TruncMod(a: int, b: int): int
    requires b != 0
  {
    if a < 0 then -(Abs(a) % Abs(b)) else Abs(a) % Abs(b)
  }

  lemma TruncLaw(a: int, b: int)
    requires b != 0
    ensures a == TruncDiv(a, b) * b + TruncMod(a, b)
    ensures Abs(TruncMod(a, b)) < Abs(b)
    ensures (a >= 0 ==> TruncMod(a, b) >= 0) && (a <= 0 ==> TruncMod(a, b) <= 0)
  {
    DivMod(Abs(a), Abs(b));
    var q := Abs(a) / Abs(b);
    MulMinus(0, q, b);
    MulMinus(0, q, -b);
    MulMinus(0, b, q);
    Commutes(q, b);
    Commutes(q, -b);
  }

  /** The negation of a 32-bit number, and the magnitude it has as an unsigned one. */
  function Negate(a: Int): Int { Wrap(-(a as int)) }

  lemma Magnitude(a: Int)
    ensures Unsigned(if a < 0 then Negate(a) else a) == Abs(a)
  {
  }

  /** Negating an unsigned result and reading it as signed. */
  lemma NegatedResult(x: int)
    requires 0 <= x < B2
    ensures Signed((-x) % B2) == Wrap(-x) && Signed(x) == Wrap(x)
  {
  }

  method Divsi3(a0: Int, b0: Int) returns (r: Int)
    requires b0 != 0
    ensures r == Wrap(TruncDiv(a0, b0))
  {
    var a, b := a0, b0;
    var neg := (a < 0) != (b < 0);
    if a < 0 {
      a := Negate(a);
    }
    if b < 0 {
      b := Negate(b);
    }
    Magnitude(a0);
    Magnitude(b0);
    var q, _ := Divmodu(Unsigned(a), Unsigned(b));
    NegatedResult(q);
    r := if neg then Signed((-(q as int)) % B2) else Signed(q);
  }

  method Modsi3(a0: Int, b0: Int) returns (r: Int)
    requires b0 != 0
    ensures r == TruncMod(a0, b0)
  {
    var a, b := a0, b0;
    var neg := a < 0;
    if a < 0 {
      a := Negate(a);
    }
    if b < 0 {
      b := Negate(b);
    }
    Magnitude(a0);
    Magnitude(b0);
    var _, m := Divmodu(Unsigned(a), Unsigned(b));
    RemainderFits(Abs(a0), Abs(b0), m);
    NegatedResult(m);
    r := if neg then Signed((-(m as int)) % B2) else Signed(m);
  }

  lemma RemainderFits(a: nat, b: nat, m: int)
    requires 0 < b <= 0x8000_0000 && m == a % b
    ensures 0 <= m < 0x8000_0000 && Wrap(-m) == -m && Wrap(m) == m
  {
    DivMod(a, b);
  }

  method Mulsi3(a0: Int, b0: Int) returns (r: Int)
    ensures r == Wrap(a0 as int * b0 as int)
  {
    var a, b := a0, b0;
    var neg := (a < 0) != (b < 0);
    if a < 0 {
      a := Negate(a);
    }
    if b < 0 {
      b := Negate(b);
    }
    Magnitude(a0);
    Magnitude(b0);
    var u := Mulu(Unsigned(a), Unsigned(b));
    var res := Signed(u);
    SignedProduct(a0, b0);
    r := if neg then Negate(res) else res;
    NegatedProduct(Abs(a0) * Abs(b0));
  }

  lemma SignedProduct(a: int, b: int)
    ensures a * b == if (a < 0) != (b < 0) then -(Abs(a) * Abs(b)) else Abs(a) * Abs(b)
  {
    MulMinus(0, a, b);
    MulMinus(0, b, a);
    MulMinus(0, a, -b);
    Commutes(a, b);
    Commutes(a, -b);
  }

  lemma NegatedProduct(x: int)
    ensures Negate(Signed(x % B2)) == Wrap(-x)
  {
    var k, m := x / B2, x % B2;
    DivMod(x, B2);
    ModOfSum(-m, -k, B2);
    assert -x == -k * B2 + -m;
    var t := Signed(m);
    var e := if m >= 0x8000_0000 then 1 else 0;
    ModOfSum(-m, e, B2);
  }

  method Udivsi3(a: Reg, b: Reg) returns (q: Reg)
    requires b != 0
    ensures q as int == a as int / b as int
  {
    var r;
    q, r := Divmodu(a, b);
  }

  method Umodsi3(a: Reg, b: Reg) returns (r: Reg)
    requires b != 0
    ensures r as int == a as int % b as int
  {
    var q;
    q, r := Divmodu(a, b);
  }
}
