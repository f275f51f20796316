/**
  The shape of one 64K chunk of the buddy allocator: a binary tree whose
  leaves are the blocks, each either free or handed out.  A tree of level k
  that starts at address a covers the bytes from a up to a + Size(k).
 */
module BuddyTree {
  import opened Arith

  /** Number of bytes of a block of bucket k: 1 << (k + MINLOG2). */
  function Size(k: nat): (s: nat)
    ensures s >= 16
  {
    if k == 0 then 16 else 2 * Size(k - 1)
  }

  /** Level of a whole chunk: MAXLOG2 - MINLOG2. */
  const TOP: nat := 12

  /** Bytes of a chunk: MAXSIZE. */
  const CHUNK: nat := 65536

  lemma TopIsChunk()
    ensures Size(TOP) == CHUNK
  {
    assert Size(4) == 256;
    assert Size(8) == 4096;
  }

  lemma {:induction false} SizeMonotone(j: nat, k: nat)
    requires j <= k
    ensures Size(j) <= Size(k)
    decreases k
  {
    if j < k { SizeMonotone(j, k - 1); }
  }

  // ------------------------------------------------------------ addresses

  /** Bitwise exclusive or of two natural numbers. */
  function Xor(a: nat, b: nat): nat
    decreases a + b
  {
    if a == 0 then b else if b == 0 then a
    else (a % 2 + b % 2) % 2 + 2 * Xor(a / 2, b / 2)
  }

  /** Exclusive or with one power of two flips one binary digit. */
  lemma {:induction false} XorFlips(q: nat, e: nat, o: nat)
    requires o == q * Pow2(e)
    ensures Xor(o, Pow2(e)) == if q % 2 == 0 then o + Pow2(e) else o - Pow2(e)
  {
    if e == 0 {
      assert o == q;
    } else {
      var o' := q * Pow2(e - 1);
      MulDouble(q, Pow2(e - 1));
      XorFlips(q, e - 1, o');
      XorEven(o', Pow2(e - 1));
    }
  }

  lemma XorEven(a: nat, b: nat)
    ensures Xor(2 * a, 2 * b) == 2 * Xor(a, b)
  {
  }

  lemma {:induction false} SizeIsPow2(k: nat)
    ensures Size(k) == Pow2(k + 4)
  {
    if k == 0 { assert Pow2(4) == 16; } else { SizeIsPow2(k - 1); }
  }

  /** The address the allocator computes for the buddy of block x of level k. */
  function Buddy(base: nat, x: nat, k: nat): nat
    requires base <= x
  {
    base + Xor(x - base, Size(k))
  }

  lemma BuddyFlips(base: nat, x: nat, k: nat, q: nat)
    requires x == base + q * Size(k) && base <= x
    ensures Buddy(base, x, k) == if q % 2 == 0 then x + Size(k) else x - Size(k)
  {
    SizeIsPow2(k);
    XorFlips(q, k + 4, x - base);
  }

  // ---------------------------------------------------------------- trees

  datatype Tree = Free | Live | Split(lo: Tree, hi: Tree)

  /** No block is smaller than the smallest bucket. */
  ghost predicate Fits(t: Tree, k: nat) {
    t.Split? ==> k > 0 && Fits(t.lo, k - 1) && Fits(t.hi, k - 1)
  }

  /** Full coalescing: no two buddies are both free. */
  ghost predicate Coalesced(t: Tree) {
    t.Split? ==> !(t.lo.Free? && t.hi.Free?) && Coalesced(t.lo) && Coalesced(t.hi)
  }

  datatype Leaf = Leaf(level: nat, free: bool)

  /** The blocks of a tree, by start address. */
  ghost function Leaves(t: Tree, k: nat, a: nat): map<nat, Leaf>
    requires Fits(t, k)
  {
    match t
    case Free => map[a := Leaf(k, true)]
    case Live => map[a := Leaf(k, false)]
    case Split(lo, hi) => Leaves(lo, k - 1, a) + Leaves(hi, k - 1, a + Size(k - 1))
  }

  ghost predicate Inside(m: map<nat, Leaf>, k: nat, a: nat) {
    forall x :: x in m ==> a <= x && m[x].level <= k && x + Size(m[x].level) <= a + Size(k)
  }

  lemma {:induction false} LeavesInside(t: Tree, k: nat, a: nat)
    requires Fits(t, k)
    ensures Inside(Leaves(t, k, a), k, a)
  {
    if t.Split? {
      LeavesInside(t.lo, k - 1, a);
      LeavesInside(t.hi, k - 1, a + Size(k - 1));
    }
  }

  ghost predicate Apart(x: nat, l: Leaf, y: nat, m: Leaf) {
    x + Size(l.level) <= y || y + Size(m.level) <= x
  }

  ghost predicate Halves(m: map<nat, Leaf>, n: map<nat, Leaf>, k: nat, a: nat)
    requires k > 0
  {
    && Inside(m, k - 1, a) && Inside(n, k - 1, a + Size(k - 1))
    && forall x :: (x in m ==> x < a + Size(k - 1)) && (x in n ==> a + Size(k - 1) <= x)
  }

  /** The blocks of a divided chunk: those of the lower half and those of the upper. */
  lemma LeavesHalves(t: Tree, k: nat, a: nat) returns (m: map<nat, Leaf>, n: map<nat, Leaf>)
    requires Fits(t, k) && t.Split?
    ensures m == Leaves(t.lo, k - 1, a) && n == Leaves(t.hi, k - 1, a + Size(k - 1))
    ensures Leaves(t, k, a) == m + n && Halves(m, n, k, a)
  {
    m, n := Leaves(t.lo, k - 1, a), Leaves(t.hi, k - 1, a + Size(k - 1));
    LeavesInside(t.lo, k - 1, a);
    LeavesInside(t.hi, k - 1, a + Size(k - 1));
  }

  lemma AcrossHalves(m: map<nat, Leaf>, n: map<nat, Leaf>, k: nat, a: nat, x: nat, y: nat)
    requires k > 0 && Halves(m, n, k, a) && x in m && y in n
    ensures Apart(x, m[x], y, n[y]) && Apart(y, n[y], x, m[x])
  {
    hide Size;
  }

  lemma OneLeaf(t: Tree, k: nat, a: nat)
    requires !t.Split?
    ensures Leaves(t, k, a).Keys == {a}
  {
  }

  /** Blocks of a chunk never overlap ... */
  lemma {:induction false} LeavesApart(t: Tree, k: nat, a: nat, x: nat, y: nat)
    requires Fits(t, k)
    requires x in Leaves(t, k, a) && y in Leaves(t, k, a) && x != y
    ensures Apart(x, Leaves(t, k, a)[x], y, Leaves(t, k, a)[y])
  {
    hide Leaves, Size, Apart, Halves;
    if !t.Split? {
      OneLeaf(t, k, a);
    } else {
      var m, n := LeavesHalves(t, k, a);
      if x in n && y in n {
        LeavesApart(t.hi, k - 1, a + Size(k - 1), x, y);
      } else if x !in n && y !in n {
        LeavesApart(t.lo, k - 1, a, x, y);
      } else if x in n {
        AcrossHalves(m, n, k, a, y, x);
      } else {
        AcrossHalves(m, n, k, a, x, y);
      }
    }
  }

  /** ... and leave no byte of it uncovered. */
  lemma {:induction false} LeavesCover(t: Tree, k: nat, a: nat, z: nat) returns (x: nat)
    requires Fits(t, k) && a <= z < a + Size(k)
    ensures x in Leaves(t, k, a) && x <= z < x + Size(Leaves(t, k, a)[x].level)
  {
    if t.Split? {
      if z < a + Size(k - 1) {
        x := LeavesCover(t.lo, k - 1, a, z);
        LeavesInside(t.hi, k - 1, a + Size(k - 1));
      } else {
        x := LeavesCover(t.hi, k - 1, a + Size(k - 1), z);
      }
    } else {
      x := a;
    }
  }

  /** Larger blocks are whole, even multiples of smaller ones. */
  lemma {:induction false} SizeFactor(j: nat, k: nat) returns (m: nat)
    requires j <= k
    ensures Size(k) == m * Size(j)
    ensures j < k ==> m % 2 == 0
    decreases k
  {
    if j == k {
      m := 1;
    } else {
      var n := SizeFactor(j, k - 1);
      assert Size(k) == 2 * Size(k - 1);
      hide Size;
      m := 2 * n;
      MulDouble(n, Size(j));
    }
  }

  /** Every block is aligned to its own size, counted from the chunk base. */
  lemma {:induction false} LeavesAligned(t: Tree, k: nat, a: nat, x: nat) returns (q: nat)
    requires Fits(t, k) && x in Leaves(t, k, a)
    ensures x == a + q * Size(Leaves(t, k, a)[x].level)
  {
    LeafHasSub(t, k, a, x);
    q := SubAligned(t, k, a, x, Leaves(t, k, a)[x].level);
  }

  // -------------------------------------------------------------- subtrees

  /** Some node of level j starts at address x. */
  ghost predicate HasSub(t: Tree, k: nat, a: nat, x: nat, j: nat) {
    if j >= k then j == k && x == a
    else t.Split? && if x < a + Size(k - 1) then HasSub(t.lo, k - 1, a, x, j)
                     else HasSub(t.hi, k - 1, a + Size(k - 1), x, j)
  }

  ghost function Sub(t: Tree, k: nat, a: nat, x: nat, j: nat): Tree
    requires HasSub(t, k, a, x, j)
  {
    if j == k then t
    else if x < a + Size(k - 1) then Sub(t.lo, k - 1, a, x, j)
    else Sub(t.hi, k - 1, a + Size(k - 1), x, j)
  }

  /** The tree with the node of level j at x replaced by another. */
  ghost function Edit(t: Tree, k: nat, a: nat, x: nat, j: nat, sub: Tree): Tree
    requires HasSub(t, k, a, x, j)
  {
    if j == k then sub
    else if x < a + Size(k - 1) then Split(Edit(t.lo, k - 1, a, x, j, sub), t.hi)
    else Split(t.lo, Edit(t.hi, k - 1, a + Size(k - 1), x, j, sub))
  }

  lemma {:induction false} SubInside(t: Tree, k: nat, a: nat, x: nat, j: nat)
    requires HasSub(t, k, a, x, j) && Fits(t, k)
    ensures j <= k && a <= x && x + Size(j) <= a + Size(k)
    ensures Fits(Sub(t, k, a, x, j), j)
  {
    if j < k {
      if x < a + Size(k - 1) { SubInside(t.lo, k - 1, a, x, j); }
      else { SubInside(t.hi, k - 1, a + Size(k - 1), x, j); }
    }
  }

  /** The blocks lying in the node are the blocks of the node. */
  lemma {:induction false} SubLeaf(t: Tree, k: nat, a: nat, x: nat, j: nat, y: nat)
    requires HasSub(t, k, a, x, j) && Fits(t, k)
    ensures Fits(Sub(t, k, a, x, j), j)
    ensures y in Leaves(t, k, a) && x <= y < x + Size(j) <==> y in Leaves(Sub(t, k, a, x, j), j, x)
    ensures y in Leaves(Sub(t, k, a, x, j), j, x)
            ==> Leaves(t, k, a)[y] == Leaves(Sub(t, k, a, x, j), j, x)[y]
  {
    if j == k {
      LeavesInside(t, k, a);
    } else if x < a + Size(k - 1) {
      SubInside(t.lo, k - 1, a, x, j);
      LeavesInside(t.hi, k - 1, a + Size(k - 1));
      SubLeaf(t.lo, k - 1, a, x, j, y);
    } else {
      SubInside(t.hi, k - 1, a + Size(k - 1), x, j);
      LeavesInside(t.lo, k - 1, a);
      SubLeaf(t.hi, k - 1, a + Size(k - 1), x, j, y);
    }
  }

  lemma {:induction false} EditFits(t: Tree, k: nat, a: nat, x: nat, j: nat, sub: Tree)
    requires HasSub(t, k, a, x, j) && Fits(t, k) && Fits(sub, j)
    ensures Fits(Edit(t, k, a, x, j, sub), k)
  {
    if j < k {
      if x < a + Size(k - 1) { EditFits(t.lo, k - 1, a, x, j, sub); }
      else { EditFits(t.hi, k - 1, a + Size(k - 1), x, j, sub); }
    }
  }

  /** At y, the blocks n are those of r inside the node of level j at x, and those of m elsewhere. */
  ghost predicate Changed(m: map<nat, Leaf>, n: map<nat, Leaf>, r: map<nat, Leaf>, x: nat, j: nat, y: nat) {
    var part := if x <= y < x + Size(j) then r else m;
    (y in n <==> y in part) && (y in n ==> n[y] == part[y])
  }

  /** Replacing a node replaces exactly the blocks lying in it. */
  lemma {:induction false} EditLeaf(t: Tree, k: nat, a: nat, x: nat, j: nat, sub: Tree, y: nat)
    requires HasSub(t, k, a, x, j) && Fits(t, k) && Fits(sub, j)
    ensures Fits(Edit(t, k, a, x, j, sub), k)
    ensures Changed(Leaves(t, k, a), Leaves(Edit(t, k, a, x, j, sub), k, a), Leaves(sub, j, x), x, j, y)
  {
    hide Leaves, Size, Changed;
    EditFits(t, k, a, x, j, sub);
    if j == k {
      EditWhole(t, k, a, sub, y);
    } else if x < a + Size(k - 1) {
      EditLeaf(t.lo, k - 1, a, x, j, sub, y);
      EditLower(t, k, a, x, j, sub, y);
    } else {
      EditLeaf(t.hi, k - 1, a + Size(k - 1), x, j, sub, y);
      EditUpper(t, k, a, x, j, sub, y);
    }
  }

  lemma EditWhole(t: Tree, k: nat, a: nat, sub: Tree, y: nat)
    requires Fits(t, k) && Fits(sub, k)
    ensures Changed(Leaves(t, k, a), Leaves(sub, k, a), Leaves(sub, k, a), a, k, y)
  {
    LeavesInside(t, k, a);
    LeavesInside(sub, k, a);
    hide Leaves, Size;
  }

  lemma EditLower(t: Tree, k: nat, a: nat, x: nat, j: nat, sub: Tree, y: nat)
    requires k > 0 && t.Split? && Fits(t, k) && Fits(sub, j) && HasSub(t.lo, k - 1, a, x, j)
    requires Fits(Edit(t.lo, k - 1, a, x, j, sub), k - 1)
    requires Changed(Leaves(t.lo, k - 1, a), Leaves(Edit(t.lo, k - 1, a, x, j, sub), k - 1, a),
                     Leaves(sub, j, x), x, j, y)
    ensures var u := Split(Edit(t.lo, k - 1, a, x, j, sub), t.hi);
            Fits(u, k) && Changed(Leaves(t, k, a), Leaves(u, k, a), Leaves(sub, j, x), x, j, y)
  {
    hide Leaves, Size, Changed, HasSub, Edit;
    SubInside(t.lo, k - 1, a, x, j);
    var m, n := LeavesHalves(t, k, a);
    var m', _ := LeavesHalves(Split(Edit(t.lo, k - 1, a, x, j, sub), t.hi), k, a);
    LowerChanged(m, m', n, Leaves(sub, j, x), k, a, x, j, y);
  }

  lemma EditUpper(t: Tree, k: nat, a: nat, x: nat, j: nat, sub: Tree, y: nat)
    requires k > 0 && t.Split? && Fits(t, k) && Fits(sub, j) && HasSub(t.hi, k - 1, a + Size(k - 1), x, j)
    requires Fits(Edit(t.hi, k - 1, a + Size(k - 1), x, j, sub), k - 1)
    requires Changed(Leaves(t.hi, k - 1, a + Size(k - 1)),
                     Leaves(Edit(t.hi, k - 1, a + Size(k - 1), x, j, sub), k - 1, a + Size(k - 1)),
                     Leaves(sub, j, x), x, j, y)
    ensures var u := Split(t.lo, Edit(t.hi, k - 1, a + Size(k - 1), x, j, sub));
            Fits(u, k) && Changed(Leaves(t, k, a), Leaves(u, k, a), Leaves(sub, j, x), x, j, y)
  {
    hide Leaves, Size, Changed, HasSub, Edit;
    SubInside(t.hi, k - 1, a + Size(k - 1), x, j);
    var m, n := LeavesHalves(t, k, a);
    var _, n' := LeavesHalves(Split(t.lo, Edit(t.hi, k - 1, a + Size(k - 1), x, j, sub)), k, a);
    UpperChanged(m, n, n', Leaves(sub, j, x), k, a, x, j, y);
  }

  lemma LowerChanged(m: map<nat, Leaf>, m': map<nat, Leaf>, n: map<nat, Leaf>, r: map<nat, Leaf>,
                     k: nat, a: nat, x: nat, j: nat, y: nat)
    requires k > 0 && Halves(m, n, k, a) && Halves(m', n, k, a) && x + Size(j) <= a + Size(k - 1)
    requires Changed(m, m', r, x, j, y)
    ensures Changed(m + n, m' + n, r, x, j, y)
  {
    hide Size, Inside;
  }

  lemma UpperChanged(m: map<nat, Leaf>, n: map<nat, Leaf>, n': map<nat, Leaf>, r: map<nat, Leaf>,
                     k: nat, a: nat, x: nat, j: nat, y: nat)
    requires k > 0 && Halves(m, n, k, a) && Halves(m, n', k, a) && a + Size(k - 1) <= x
    requires Changed(n, n', r, x, j, y)
    ensures Changed(m + n, m + n', r, x, j, y)
  {
    hide Size, Inside;
  }

  lemma {:induction false} LeafHasSub(t: Tree, k: nat, a: nat, x: nat)
    requires Fits(t, k) && x in Leaves(t, k, a)
    ensures HasSub(t, k, a, x, Leaves(t, k, a)[x].level)
    ensures Sub(t, k, a, x, Leaves(t, k, a)[x].level)
            == if Leaves(t, k, a)[x].free then Free else Live
  {
    if t.Split? {
      var m, n := Leaves(t.lo, k - 1, a), Leaves(t.hi, k - 1, a + Size(k - 1));
      LeavesInside(t.lo, k - 1, a);
      LeavesInside(t.hi, k - 1, a + Size(k - 1));
      if x in n { LeafHasSub(t.hi, k - 1, a + Size(k - 1), x); }
      else { LeafHasSub(t.lo, k - 1, a, x); }
    }
  }

  /** Editing keeps the nodes around the edited one. */
  lemma {:induction false} EditSub(t: Tree, k: nat, a: nat, x: nat, j: nat, sub: Tree)
    requires HasSub(t, k, a, x, j)
    ensures HasSub(Edit(t, k, a, x, j, sub), k, a, x, j)
    ensures Sub(Edit(t, k, a, x, j, sub), k, a, x, j) == sub
    ensures Edit(t, k, a, x, j, Sub(t, k, a, x, j)) == t
  {
    if j < k {
      if x < a + Size(k - 1) { EditSub(t.lo, k - 1, a, x, j, sub); }
      else { EditSub(t.hi, k - 1, a + Size(k - 1), x, j, sub); }
    }
  }

  lemma {:induction false} EditTwice(t: Tree, k: nat, a: nat, x: nat, j: nat, u: Tree, v: Tree)
    requires HasSub(t, k, a, x, j)
    ensures HasSub(Edit(t, k, a, x, j, u), k, a, x, j)
    ensures Edit(Edit(t, k, a, x, j, u), k, a, x, j, v) == Edit(t, k, a, x, j, v)
  {
    if j < k {
      if x < a + Size(k - 1) { EditTwice(t.lo, k - 1, a, x, j, u, v); }
      else { EditTwice(t.hi, k - 1, a + Size(k - 1), x, j, u, v); }
    }
  }

  lemma {:induction false} EditCoalesced(t: Tree, k: nat, a: nat, x: nat, j: nat, sub: Tree)
    requires HasSub(t, k, a, x, j) && Coalesced(t) && Coalesced(sub) && !sub.Free?
    ensures Coalesced(Edit(t, k, a, x, j, sub))
    ensures !Edit(t, k, a, x, j, sub).Free?
  {
    if j < k {
      if x < a + Size(k - 1) { EditCoalesced(t.lo, k - 1, a, x, j, sub); }
      else { EditCoalesced(t.hi, k - 1, a + Size(k - 1), x, j, sub); }
    }
  }

  // --------------------------------------------------------------- buddies

  /** Two nodes of level j are the halves of one node of level j + 1. */
  ghost predicate Siblings(t: Tree, k: nat, a: nat, x: nat, y: nat, j: nat) {
    var l, h := if x < y then x else y, if x < y then y else x;
    && h == l + Size(j)
    && HasSub(t, k, a, l, j) && HasSub(t, k, a, h, j) && HasSub(t, k, a, l, j + 1)
    && Sub(t, k, a, l, j + 1) == Split(Sub(t, k, a, l, j), Sub(t, k, a, h, j))
  }

  lemma {:induction false} SubAligned(t: Tree, k: nat, a: nat, x: nat, j: nat) returns (q: nat)
    requires Fits(t, k) && HasSub(t, k, a, x, j)
    ensures x == a + q * Size(j)
  {
    if j == k {
      q := 0;
    } else if x < a + Size(k - 1) {
      q := SubAligned(t.lo, k - 1, a, x, j);
    } else {
      q := SubAligned(t.hi, k - 1, a + Size(k - 1), x, j);
      SubInside(t.hi, k - 1, a + Size(k - 1), x, j);
      var m := SizeFactor(j, k - 1);
      MulPlus(q, m, Size(j));
      q := q + m;
    }
  }

  lemma SlotShift(j: nat, k: nat, q: nat, x: nat, mid: nat, a: nat) returns (r: nat)
    requires j < k && x == mid + q * Size(j) && mid == a + Size(k)
    ensures x == a + r * Size(j) && r % 2 == q % 2
  {
    var m := SizeFactor(j, k);
    MulPlus(q, m, Size(j));
    r := q + m;
  }

  /** Even-numbered nodes have their sibling above them, odd ones below. */
  lemma {:induction false} EvenOddSibling(t: Tree, k: nat, a: nat, x: nat, j: nat)
    returns (q: nat, y: nat)
    requires Fits(t, k) && HasSub(t, k, a, x, j) && j < k
    ensures x == a + q * Size(j)
    ensures y == if q % 2 == 0 then x + Size(j) else x - Size(j)
    ensures Siblings(t, k, a, x, y, j)
  {
    var mid := a + Size(k - 1);
    if j == k - 1 {
      q, y := if x < mid then 0 else 1, if x < mid then mid else a;
    } else if x < mid {
      q, y := EvenOddSibling(t.lo, k - 1, a, x, j);
      SiblingsLift(t.lo, k - 1, a, x, y, j, t, a);
    } else {
      var q';
      q', y := EvenOddSibling(t.hi, k - 1, mid, x, j);
      q := SlotShift(j, k - 1, q', x, mid, a);
      SiblingsLift(t.hi, k - 1, mid, x, y, j, t, a);
    }
  }

  /** Siblings of a half are siblings of the whole. */
  lemma SiblingsLift(u: Tree, k: nat, c: nat, x: nat, y: nat, j: nat, t: Tree, a: nat)
    requires Fits(t, k + 1) && t.Split? && j < k && Siblings(u, k, c, x, y, j)
    requires (u == t.lo && c == a) || (u == t.hi && c == a + Size(k))
    ensures Siblings(t, k + 1, a, x, y, j)
  {
    var l, h := if x < y then x else y, if x < y then y else x;
    hide HasSub, Sub, Size;
    if u == t.lo && c == a {
      InLower(t, k, a, l, j);
      InLower(t, k, a, l, j + 1);
      InLower(t, k, a, h, j);
    } else {
      InUpper(t, k, a, l, j);
      InUpper(t, k, a, l, j + 1);
      InUpper(t, k, a, h, j);
    }
  }

  lemma InUpper(t: Tree, k: nat, a: nat, x: nat, j: nat)
    requires Fits(t, k + 1) && t.Split? && HasSub(t.hi, k, a + Size(k), x, j)
    ensures HasSub(t, k + 1, a, x, j) && Sub(t, k + 1, a, x, j) == Sub(t.hi, k, a + Size(k), x, j)
  {
    SubInside(t.hi, k, a + Size(k), x, j);
  }

  lemma InLower(t: Tree, k: nat, a: nat, x: nat, j: nat)
    requires Fits(t, k + 1) && t.Split? && HasSub(t.lo, k, a, x, j)
    ensures HasSub(t, k + 1, a, x, j) && Sub(t, k + 1, a, x, j) == Sub(t.lo, k, a, x, j)
  {
    SubInside(t.lo, k, a, x, j);
  }

  /** The computed buddy address is the start of the sibling node. */
  lemma BuddyIsSibling(t: Tree, k: nat, a: nat, x: nat, j: nat)
    requires Fits(t, k) && HasSub(t, k, a, x, j) && j < k && a <= x
    ensures Siblings(t, k, a, x, Buddy(a, x, j), j)
  {
    var q, y := EvenOddSibling(t, k, a, x, j);
    BuddyFlips(a, x, j, q);
  }

  /** Freeing the node keeps full coalescing when its sibling is not free. */
  lemma {:induction false} EditFreeCoalesced(t: Tree, k: nat, a: nat, x: nat, y: nat, j: nat)
    requires Fits(t, k) && Siblings(t, k, a, x, y, j) && HasSub(t, k, a, x, j)
    requires Coalesced(t) && !Sub(t, k, a, y, j).Free?
    ensures Coalesced(Edit(t, k, a, x, j, Free))
    ensures !Edit(t, k, a, x, j, Free).Free?
  {
    var l, h := if x < y then x else y, if x < y then y else x;
    SubInside(t, k, a, l, j + 1);
    SubInside(t, k, a, h, j);
    if j + 1 < k {
      if l < a + Size(k - 1) {
        SubInside(t.lo, k - 1, a, l, j + 1);
        EditFreeCoalesced(t.lo, k - 1, a, x, y, j);
      } else {
        EditFreeCoalesced(t.hi, k - 1, a + Size(k - 1), x, y, j);
      }
    }
  }

  /** A node's address is also the address of its first block. */
  lemma {:induction false} FirstLeaf(t: Tree, k: nat, a: nat)
    requires Fits(t, k)
    ensures a in Leaves(t, k, a) && Leaves(t, k, a)[a].level <= k
    ensures Leaves(t, k, a)[a].level == k <==> !t.Split?
    ensures Leaves(t, k, a)[a] == Leaf(k, true) <==> t.Free?
  {
    if t.Split? {
      FirstLeaf(t.lo, k - 1, a);
      LeavesInside(t.hi, k - 1, a + Size(k - 1));
    }
  }

  // ------------------------------------------------------------- live blocks

  /** The blocks in use, by start address, with their levels. */
  ghost function Lives(t: Tree, k: nat, a: nat): map<nat, nat>
    requires Fits(t, k)
  {
    LiveOf(Leaves(t, k, a))
  }

  ghost function LiveOf(m: map<nat, Leaf>): map<nat, nat> {
    map x | x in m && !m[x].free :: m[x].level
  }

  lemma {:induction false} CoalescedHasLive(t: Tree, k: nat, a: nat)
    requires Fits(t, k) && Coalesced(t)
    ensures t.Free? <==> Lives(t, k, a) == map[]
  {
    if t.Split? {
      LivesOfSplit(t, k, a);
      CoalescedHasLive(t.lo, k - 1, a);
      CoalescedHasLive(t.hi, k - 1, a + Size(k - 1));
      var m, n := Lives(t.lo, k - 1, a), Lives(t.hi, k - 1, a + Size(k - 1));
      if m != map[] { var x :| x in m; assert x in Lives(t, k, a); }
      else { assert n != map[]; var x :| x in n; assert x in Lives(t, k, a); }
    } else if t.Live? {
      assert a in Lives(t, k, a);
    }
  }

  ghost predicate Below(m: map<nat, nat>, z: nat) { forall x :: x in m ==> x < z }

  ghost predicate Above(m: map<nat, nat>, z: nat) { forall x :: x in m ==> z <= x }

  lemma LivesOfSplit(t: Tree, k: nat, a: nat)
    requires Fits(t, k) && t.Split?
    ensures Lives(t, k, a) == Lives(t.lo, k - 1, a) + Lives(t.hi, k - 1, a + Size(k - 1))
    ensures Below(Lives(t.lo, k - 1, a), a + Size(k - 1))
    ensures Above(Lives(t.hi, k - 1, a + Size(k - 1)), a + Size(k - 1))
    ensures forall x :: x in Lives(t, k, a) ==> Lives(t, k, a)[x] < k
  {
    var m, n := LeavesHalves(t, k, a);
    hide Leaves, Size;
    LiveOfHalves(m, n, k, a);
  }

  lemma LiveOfHalves(m: map<nat, Leaf>, n: map<nat, Leaf>, k: nat, a: nat)
    requires k > 0 && Halves(m, n, k, a)
    ensures LiveOf(m + n) == LiveOf(m) + LiveOf(n)
    ensures Below(LiveOf(m), a + Size(k - 1)) && Above(LiveOf(n), a + Size(k - 1))
    ensures forall x :: x in LiveOf(m + n) ==> LiveOf(m + n)[x] < k
  {
    hide Size;
    assert forall x :: x in m + n ==> (m + n)[x].level < k;
  }

  /**
    A fully coalesced chunk is determined by its live blocks alone: the order
    in which blocks came and went leaves no trace in how the rest is divided.
   */
  lemma {:induction false} LivesDetermineTree(t: Tree, u: Tree, k: nat, a: nat)
    requires Fits(t, k) && Coalesced(t) && Fits(u, k) && Coalesced(u)
    requires Lives(t, k, a) == Lives(u, k, a)
    ensures t == u
  {
    hide Lives;
    CoalescedHasLive(t, k, a);
    CoalescedHasLive(u, k, a);
    if t.Split? { SplitIsNotLive(t, k, a); }
    if u.Split? { SplitIsNotLive(u, k, a); }
    if t.Split? && u.Split? {
      LivesOfSplit(t, k, a);
      LivesOfSplit(u, k, a);
      var mid := a + Size(k - 1);
      HalvesEqual(Lives(t.lo, k - 1, a), Lives(t.hi, k - 1, mid),
                  Lives(u.lo, k - 1, a), Lives(u.hi, k - 1, mid), mid);
      LivesDetermineTree(t.lo, u.lo, k - 1, a);
      LivesDetermineTree(t.hi, u.hi, k - 1, mid);
    }
  }

  /** A divided chunk and one handed out whole differ in their live blocks. */
  lemma SplitIsNotLive(t: Tree, k: nat, a: nat)
    requires Fits(t, k) && t.Split?
    ensures Lives(t, k, a) != Lives(Live, k, a)
  {
    LivesOfSplit(t, k, a);
    assert a in Lives(Live, k, a) && Lives(Live, k, a)[a] == k;
  }

  lemma HalvesEqual(m: map<nat, nat>, n: map<nat, nat>, p: map<nat, nat>, q: map<nat, nat>, mid: nat)
    requires m + n == p + q
    requires Below(m, mid) && Below(p, mid) && Above(n, mid) && Above(q, mid)
    ensures m == p && n == q
  {
    forall x ensures x in m <==> x in p
      ensures x in n <==> x in q
      ensures x in m ==> m[x] == p[x]
      ensures x in n ==> n[x] == q[x]
    {
      assert x in m + n <==> x in p + q;
      if x in m { assert (m + n)[x] == m[x]; }
      if x in n { assert (m + n)[x] == n[x]; }
    }
  }
}
