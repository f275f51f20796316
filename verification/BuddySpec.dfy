/**
  The buddy allocator without its memory: what get_block and free_block do to
  the chunks and to the bucket lists, and what holds over every run of them.
 */
module BuddySpec {
  import opened Option
  import Arith
  import opened BuddyTree
  import opened BuddyForest

  /** Bucket lists by pool and level. */
  type Lists = seq<seq<seq<nat>>>

  datatype Heap = Heap(forest: Forest, lists: Lists)

  ghost predicate Distinct(s: seq<nat>) {
    forall i, j :: 0 <= i < j < |s| ==> s[i] != s[j]
  }

  ghost predicate Shape(l: Lists) {
    |l| == 2 && forall p :: 0 <= p < 2 ==> |l[p]| == TOP
  }

  ghost predicate IsFree(m: map<nat, Block>, p: nat, k: nat, x: nat) {
    x in m && m[x].free && m[x].pool == p && m[x].level == k
  }

  ghost predicate Lists1(l: seq<nat>, m: map<nat, Block>, p: nat, k: nat) {
    Distinct(l) && forall x :: x in l <==> IsFree(m, p, k, x)
  }

  /** Each free block is on exactly the list of its pool and level, once. */
  ghost predicate Listed(l: Lists, m: map<nat, Block>) {
    Shape(l) && forall p, k :: 0 <= p < 2 && 0 <= k < TOP ==> Lists1(l[p][k], m, p, k)
  }

  ghost predicate Valid(s: Heap) {
    Geometry(s.forest) && Packed(s.forest) && Listed(s.lists, Blocks(s.forest))
  }

  ghost function SetList(l: Lists, p: nat, k: nat, v: seq<nat>): Lists
    requires Shape(l) && p < 2 && k < TOP
  {
    l[p := l[p][k := v]]
  }

  ghost function Push(l: Lists, p: nat, k: nat, x: nat): Lists
    requires Shape(l) && p < 2 && k < TOP
  {
    SetList(l, p, k, [x] + l[p][k])
  }

  /** The list without its first occurrence of x. */
  ghost function Without(s: seq<nat>, x: nat): seq<nat> {
    if s == [] then [] else if s[0] == x then s[1..] else [s[0]] + Without(s[1..], x)
  }

  ghost function Drop(l: Lists, p: nat, k: nat, x: nat): Lists
    requires Shape(l) && p < 2 && k < TOP
  {
    SetList(l, p, k, Without(l[p][k], x))
  }

  lemma {:induction false} WithoutKeeps(s: seq<nat>, x: nat)
    requires Distinct(s)
    ensures Distinct(Without(s, x))
    ensures forall y :: y in Without(s, x) <==> y in s && y != x
  {
    if s != [] {
      if s[0] != x {
        WithoutKeeps(s[1..], x);
        var r := Without(s[1..], x);
        assert forall y :: y in s <==> y == s[0] || y in s[1..];
        assert s[0] !in s[1..];
      }
    }
  }

  // ------------------------------------------------- changes of the free lists

  lemma ListedPush(l: Lists, m: map<nat, Block>, m': map<nat, Block>, p: nat, k: nat, x: nat)
    requires Listed(l, m) && p < 2 && k < TOP && !IsFree(m, p, k, x)
    requires forall q, j, y :: IsFree(m', q, j, y) <==> IsFree(m, q, j, y) || (q == p && j == k && y == x)
    ensures Listed(Push(l, p, k, x), m')
  {
    assert Lists1(l[p][k], m, p, k);
    forall q, j | 0 <= q < 2 && 0 <= j < TOP ensures Lists1(Push(l, p, k, x)[q][j], m', q, j) {
      assert Lists1(l[q][j], m, q, j);
    }
  }

  lemma ListedDrop(l: Lists, m: map<nat, Block>, m': map<nat, Block>, p: nat, k: nat, x: nat)
    requires Listed(l, m) && p < 2 && k < TOP && IsFree(m, p, k, x)
    requires forall q, j, y :: IsFree(m', q, j, y) <==> IsFree(m, q, j, y) && y != x
    ensures Listed(Drop(l, p, k, x), m')
  {
    assert Lists1(l[p][k], m, p, k);
    WithoutKeeps(l[p][k], x);
    forall q, j | 0 <= q < 2 && 0 <= j < TOP ensures Lists1(Drop(l, p, k, x)[q][j], m', q, j) {
      assert Lists1(l[q][j], m, q, j);
    }
  }

  lemma ListedSame(l: Lists, m: map<nat, Block>, m': map<nat, Block>)
    requires Listed(l, m)
    requires forall q, j, y :: IsFree(m', q, j, y) <==> IsFree(m, q, j, y)
    ensures Listed(l, m')
  {
    forall q, j | 0 <= q < 2 && 0 <= j < TOP ensures Lists1(l[q][j], m', q, j) {
      assert Lists1(l[q][j], m, q, j);
    }
  }

  lemma PackedEdit(f: Forest, b: nat, x: nat, j: nat, sub: Tree)
    requires Geometry(f) && Packed(f) && NodeAt(f, b, x, j) && Fits(sub, j)
    requires Coalesced(sub) && !sub.Free?
    ensures Packed(SetNode(f, b, x, j, sub))
  {
    EditCoalesced(f[b].tree, TOP, b, x, j, sub);
  }

  // ---------------------------------------------------------- six small steps

  /** Reserve a free block: off its list, marked as in use. */
  ghost function Reserve(s: Heap, x: nat): Heap
    requires Valid(s) && x in Blocks(s.forest) && Blocks(s.forest)[x].free
    requires Blocks(s.forest)[x].level < TOP
  {
    BlockNode(s.forest, x);
    BlockBounds(s.forest, x);
    var m := Blocks(s.forest)[x];
    Heap(SetNode(s.forest, m.base, x, m.level, Live), Drop(s.lists, m.pool, m.level, x))
  }

  lemma FreeLevel(s: Heap, x: nat)
    requires Valid(s) && x in Blocks(s.forest) && Blocks(s.forest)[x].free
    ensures Blocks(s.forest)[x].level < TOP
  {
    hide Blocks;
    BlockNode(s.forest, x);
    BlockBounds(s.forest, x);
  }

  lemma ReserveValid(s: Heap, x: nat)
    requires Valid(s) && x in Blocks(s.forest) && Blocks(s.forest)[x].free
    requires Blocks(s.forest)[x].level < TOP
    ensures Valid(Reserve(s, x)) && Reserve(s, x).forest.Keys == s.forest.Keys
    ensures Blocks(Reserve(s, x).forest) == Blocks(s.forest)[x := Blocks(s.forest)[x].(free := false)]
  {
    hide Blocks;
    var f, m := s.forest, Blocks(s.forest)[x];
    BlockNode(f, x);
    BlockBounds(f, x);
    SetNodeGeometry(f, m.base, x, m.level, Live);
    PackedEdit(f, m.base, x, m.level, Live);
    EditOneLeaf(f, x, Live);
    ListedDrop(s.lists, Blocks(f), Blocks(Reserve(s, x).forest), m.pool, m.level, x);
  }

  /** Turning a block free or live changes just that entry. */
  lemma EditOneLeaf(f: Forest, x: nat, sub: Tree)
    requires Geometry(f) && x in Blocks(f) && !sub.Split?
    requires NodeAt(f, Blocks(f)[x].base, x, Blocks(f)[x].level)
    requires Geometry(SetNode(f, Blocks(f)[x].base, x, Blocks(f)[x].level, sub))
    ensures Blocks(SetNode(f, Blocks(f)[x].base, x, Blocks(f)[x].level, sub))
            == Blocks(f)[x := Blocks(f)[x].(free := sub.Free?)]
  {
    hide Blocks;
    var m := Blocks(f)[x];
    var g := SetNode(f, m.base, x, m.level, sub);
    forall y: nat
      ensures y in Blocks(g) <==> y in Blocks(f)
      ensures y in Blocks(g) ==> Blocks(g)[y] == if y == x then m.(free := sub.Free?) else Blocks(f)[y]
    {
      EditOneLeafAt(f, x, m, sub, y);
    }
  }

  lemma EditOneLeafAt(f: Forest, x: nat, m: Block, sub: Tree, y: nat)
    requires Geometry(f) && x in Blocks(f) && !sub.Split? && Blocks(f)[x] == m
    requires NodeAt(f, m.base, x, m.level) && Geometry(SetNode(f, m.base, x, m.level, sub))
    ensures var n := Blocks(SetNode(f, m.base, x, m.level, sub));
            && (y in n <==> y in Blocks(f))
            && (y in n ==> n[y] == if y == x then m.(free := sub.Free?) else Blocks(f)[y])
  {
    hide Blocks;
    BlockAfterEdit(f, m.base, x, m.level, sub, y);
    BlockBounds(f, x);
    if y in Blocks(f) && y != x { BlocksApart(f, x, y); }
  }

  /** Split a block in use and free its upper half. */
  ghost function Halve(s: Heap, x: nat): Heap
    requires Valid(s) && x in Blocks(s.forest) && !Blocks(s.forest)[x].free
    requires Blocks(s.forest)[x].level > 0
  {
    BlockNode(s.forest, x);
    BlockBounds(s.forest, x);
    var m := Blocks(s.forest)[x];
    Heap(SetNode(s.forest, m.base, x, m.level, Split(Live, Free)),
         Push(s.lists, m.pool, m.level - 1, x + Size(m.level - 1)))
  }

  lemma HalveValid(s: Heap, x: nat)
    requires Valid(s) && x in Blocks(s.forest) && !Blocks(s.forest)[x].free
    requires Blocks(s.forest)[x].level > 0
    ensures Valid(Halve(s, x)) && Halve(s, x).forest.Keys == s.forest.Keys
    ensures var m := Blocks(s.forest)[x].(level := Blocks(s.forest)[x].level - 1);
            && x + Size(m.level) !in Blocks(s.forest)
            && Blocks(Halve(s, x).forest)
               == Blocks(s.forest)[x := m][x + Size(m.level) := m.(free := true)]
  {
    hide Blocks;
    var f, m := s.forest, Blocks(s.forest)[x];
    BlockNode(f, x);
    BlockBounds(f, x);
    SetNodeGeometry(f, m.base, x, m.level, Split(Live, Free));
    PackedEdit(f, m.base, x, m.level, Split(Live, Free));
    HalveBlocks(f, x, m);
    ListedPush(s.lists, Blocks(f), Blocks(Halve(s, x).forest), m.pool, m.level - 1, x + Size(m.level - 1));
  }

  lemma HalveBlocks(f: Forest, x: nat, m: Block)
    requires Geometry(f) && x in Blocks(f) && Blocks(f)[x] == m && !m.free && m.level > 0
    requires NodeAt(f, m.base, x, m.level)
    requires Geometry(SetNode(f, m.base, x, m.level, Split(Live, Free)))
    ensures x + Size(m.level - 1) !in Blocks(f)
    ensures Blocks(SetNode(f, m.base, x, m.level, Split(Live, Free)))
            == Blocks(f)[x := m.(level := m.level - 1)]
                        [x + Size(m.level - 1) := m.(level := m.level - 1, free := true)]
  {
    hide Blocks;
    var h := x + Size(m.level - 1);
    if h in Blocks(f) { BlocksApart(f, x, h); }
    var e := Blocks(f)[x := m.(level := m.level - 1)][h := m.(level := m.level - 1, free := true)];
    var n := Blocks(SetNode(f, m.base, x, m.level, Split(Live, Free)));
    forall y: nat
      ensures y in n <==> y in e
      ensures y in n ==> n[y] == e[y]
    {
      HalveBlocksAt(f, x, m, h, y);
    }
  }

  lemma HalveBlocksAt(f: Forest, x: nat, m: Block, h: nat, y: nat)
    requires Geometry(f) && x in Blocks(f) && Blocks(f)[x] == m && !m.free && m.level > 0
    requires NodeAt(f, m.base, x, m.level)
    requires Geometry(SetNode(f, m.base, x, m.level, Split(Live, Free)))
    requires h == x + Size(m.level - 1) && h !in Blocks(f)
    ensures var n := Blocks(SetNode(f, m.base, x, m.level, Split(Live, Free)));
            && (y in n <==> y in Blocks(f) || y == h)
            && (y in n ==> n[y] == if y == x then m.(level := m.level - 1)
                                   else if y == h then m.(level := m.level - 1, free := true)
                                   else Blocks(f)[y])
  {
    hide Blocks;
    var sub := Split(Live, Free);
    BlockAfterEdit(f, m.base, x, m.level, sub, y);
    BlockBounds(f, x);
    assert Leaves(sub, m.level, x) == map[x := Leaf(m.level - 1, false)] + map[h := Leaf(m.level - 1, true)];
    if y in Blocks(f) && y != x { BlocksApart(f, x, y); }
  }

  // ------------------------------------------------------------ the buddy test

  /** The buddy of block x is a free block of the same size. */
  ghost predicate BuddyFree(s: Heap, x: nat)
    requires Geometry(s.forest) && x in Blocks(s.forest)
  {
    BlockBounds(s.forest, x);
    var m := Blocks(s.forest)[x];
    IsFree(Blocks(s.forest), m.pool, m.level, Buddy(m.base, x, m.level))
  }

  /**
    The buddy address of a block that is not a whole chunk is always the start
    of a block of the same chunk, and never of a larger one.
   */
  lemma BuddyIsBlock(f: Forest, x: nat)
    requires Geometry(f) && x in Blocks(f) && Blocks(f)[x].level < TOP
    ensures Blocks(f)[x].base <= x
    ensures var m := Blocks(f)[x]; var y := Buddy(m.base, x, m.level);
            && y in Blocks(f) && Blocks(f)[y].base == m.base && Blocks(f)[y].pool == m.pool
            && Blocks(f)[y].level <= m.level
            && NodeAt(f, m.base, y, m.level)
            && Siblings(f[m.base].tree, TOP, m.base, x, y, m.level)
            && (Blocks(f)[y].free && Blocks(f)[y].level == m.level <==> Node(f, m.base, y, m.level).Free?)
  {
    hide Blocks;
    BlockNode(f, x);
    BlockBounds(f, x);
    var m := Blocks(f)[x];
    var y := Buddy(m.base, x, m.level);
    BuddyIsSibling(f[m.base].tree, TOP, m.base, x, m.level);
    FirstLeafOfNode(f, m.base, y, m.level);
  }

  lemma FirstLeafOfNode(f: Forest, b: nat, y: nat, j: nat)
    requires Geometry(f) && NodeAt(f, b, y, j)
    ensures y in Blocks(f) && Blocks(f)[y].base == b && Blocks(f)[y].pool == f[b].pool
    ensures Blocks(f)[y].level <= j
    ensures Blocks(f)[y].free && Blocks(f)[y].level == j <==> Node(f, b, y, j).Free?
  {
    hide Blocks;
    SubLeaf(f[b].tree, TOP, b, y, j, y);
    FirstLeaf(Node(f, b, y, j), j, y);
    BlockAt(f, b, y);
  }

  /** Merge a block in use with its free buddy. */
  ghost function Join(s: Heap, x: nat): Heap
    requires Valid(s) && x in Blocks(s.forest) && !Blocks(s.forest)[x].free
    requires Blocks(s.forest)[x].level < TOP && BuddyFree(s, x)
  {
    BlockBounds(s.forest, x);
    BuddyIsBlock(s.forest, x);
    var m := Blocks(s.forest)[x];
    var y := Buddy(m.base, x, m.level);
    Heap(SetNode(s.forest, m.base, Lower(x, y), m.level + 1, Live), Drop(s.lists, m.pool, m.level, y))
  }

  function Lower(x: nat, y: nat): nat { if x < y then x else y }

  function Upper(x: nat, y: nat): nat { if x < y then y else x }

  lemma JoinBlocksAt(f: Forest, m: Block, x: nat, y: nat, z: nat)
    requires Geometry(f) && x in Blocks(f) && y in Blocks(f) && Blocks(f)[x] == m && m.level < TOP
    requires Blocks(f)[y].base == m.base && Blocks(f)[y].level == m.level
    requires m.base in f && Siblings(f[m.base].tree, TOP, m.base, x, y, m.level)
    requires Geometry(SetNode(f, m.base, Lower(x, y), m.level + 1, Live))
    ensures var n := Blocks(SetNode(f, m.base, Lower(x, y), m.level + 1, Live));
            && (z in n <==> z in Blocks(f) && z != Upper(x, y))
            && (z in n ==> n[z] == if z == Lower(x, y) then m.(level := m.level + 1, free := false) else Blocks(f)[z])
  {
    hide Blocks;
    var l, h := Lower(x, y), Upper(x, y);
    BlockBounds(f, x);
    BlockAfterEdit(f, m.base, l, m.level + 1, Live, z);
    if z in Blocks(f) && z != x { BlocksApart(f, x, z); }
    if z in Blocks(f) && z != y { BlocksApart(f, y, z); }
  }

  lemma JoinValid(s: Heap, x: nat)
    requires Valid(s) && x in Blocks(s.forest) && !Blocks(s.forest)[x].free
    requires Blocks(s.forest)[x].level < TOP && BuddyFree(s, x)
    ensures Valid(Join(s, x)) && Join(s, x).forest.Keys == s.forest.Keys
    ensures Blocks(s.forest)[x].base <= x
    ensures var m := Blocks(s.forest)[x]; var y := Buddy(m.base, x, m.level);
            && x != y && y in Blocks(s.forest)
            && Blocks(Join(s, x).forest)
               == (Blocks(s.forest) - {Upper(x, y)})[Lower(x, y) := m.(level := m.level + 1)]
  {
    hide Blocks;
    var f, m := s.forest, Blocks(s.forest)[x];
    BlockBounds(f, x);
    BuddyIsBlock(f, x);
    var y := Buddy(m.base, x, m.level);
    var l := Lower(x, y);
    SetNodeGeometry(f, m.base, l, m.level + 1, Live);
    PackedEdit(f, m.base, l, m.level + 1, Live);
    var n := Blocks(Join(s, x).forest);
    forall z: nat
      ensures z in n <==> z in Blocks(f) && z != Upper(x, y)
      ensures z in n ==> n[z] == if z == l then m.(level := m.level + 1) else Blocks(f)[z]
    {
      JoinBlocksAt(f, m, x, y, z);
    }
    ListedDrop(s.lists, Blocks(f), n, m.pool, m.level, y);
  }

  /** Put a block on its free list. */
  ghost function Release(s: Heap, x: nat): Heap
    requires Valid(s) && x in Blocks(s.forest) && !Blocks(s.forest)[x].free
    requires Blocks(s.forest)[x].level < TOP
  {
    BlockNode(s.forest, x);
    BlockBounds(s.forest, x);
    var m := Blocks(s.forest)[x];
    Heap(SetNode(s.forest, m.base, x, m.level, Free), Push(s.lists, m.pool, m.level, x))
  }

  lemma ReleaseValid(s: Heap, x: nat)
    requires Valid(s) && x in Blocks(s.forest) && !Blocks(s.forest)[x].free
    requires Blocks(s.forest)[x].level < TOP && !BuddyFree(s, x)
    ensures Valid(Release(s, x)) && Release(s, x).forest.Keys == s.forest.Keys
    ensures Blocks(Release(s, x).forest) == Blocks(s.forest)[x := Blocks(s.forest)[x].(free := true)]
  {
    hide Blocks;
    var f, m := s.forest, Blocks(s.forest)[x];
    BlockNode(f, x);
    BlockBounds(f, x);
    BuddyIsBlock(f, x);
    var y := Buddy(m.base, x, m.level);
    SetNodeGeometry(f, m.base, x, m.level, Free);
    EditFreeCoalesced(f[m.base].tree, TOP, m.base, x, y, m.level);
    EditOneLeaf(f, x, Free);
    ListedPush(s.lists, Blocks(f), Blocks(Release(s, x).forest), m.pool, m.level, x);
  }

  // --------------------------------------------------------- chunks from Exec

  /** Exec hands out areas that overlap no chunk already held. */
  ghost predicate FreshArea(f: Forest, b: nat) {
    && 0 < b && b % 4 == 0 && b + CHUNK <= 0x1_0000_0000
    && forall c :: c in f ==> c != b && Disjoint(b, c)
  }

  ghost function Grow(s: Heap, b: nat, p: nat): Heap {
    s.(forest := s.forest[b := Chunk(p, Live)])
  }

  lemma GrowValid(s: Heap, b: nat, p: nat)
    requires Valid(s) && FreshArea(s.forest, b) && p < 2
    ensures Valid(Grow(s, b, p)) && b !in Blocks(s.forest)
    ensures Blocks(Grow(s, b, p).forest) == Blocks(s.forest)[b := Block(b, p, TOP, false)]
  {
    hide Blocks;
    var f, g := s.forest, Grow(s, b, p).forest;
    if b in Blocks(f) { BlockBounds(f, b); }
    forall y: nat
      ensures y in Blocks(g) <==> y in Blocks(f) || y == b
      ensures y in Blocks(g) ==> Blocks(g)[y] == if y == b then Block(b, p, TOP, false) else Blocks(f)[y]
    {
      OtherChunk(g, b, f, y);
      if y in Blocks(g) { BlockBounds(g, y); }
      if y == b { assert StartsIn(g, b, b); BlockAt(g, b, b); }
    }
    ListedSame(s.lists, Blocks(f), Blocks(g));
  }

  /** Dropping a chunk leaves the blocks of the others. */
  lemma OtherChunk(g: Forest, b: nat, f: Forest, y: nat)
    requires Geometry(g) && b in g && f == g - {b}
    ensures Geometry(f)
    ensures y in Blocks(f) <==> y in Blocks(g) && Blocks(g)[y].base != b
    ensures y in Blocks(f) ==> Blocks(f)[y] == Blocks(g)[y]
  {
    hide Blocks;
    if y in Blocks(f) {
      BlockBounds(f, y);
      assert StartsIn(g, Blocks(f)[y].base, y);
      BlockAt(g, Blocks(f)[y].base, y);
    }
    if y in Blocks(g) && Blocks(g)[y].base != b {
      BlockBounds(g, y);
      assert StartsIn(f, Blocks(g)[y].base, y);
      BlockAt(f, Blocks(g)[y].base, y);
    }
  }

  ghost function Shrink(s: Heap, b: nat): Heap {
    s.(forest := s.forest - {b})
  }

  lemma ShrinkValid(s: Heap, b: nat)
    requires Valid(s) && b in Blocks(s.forest)
    requires Blocks(s.forest)[b].level == TOP && !Blocks(s.forest)[b].free
    ensures b in s.forest && Blocks(s.forest)[b].base == b && s.forest[b].tree == Live
    ensures Valid(Shrink(s, b))
    ensures Blocks(Shrink(s, b).forest) == Blocks(s.forest) - {b}
  {
    hide Blocks;
    var g, f := s.forest, Shrink(s, b).forest;
    BlockNode(g, b);
    BlockBounds(g, b);
    forall y: nat
      ensures y in Blocks(f) <==> y in Blocks(g) && y != b
      ensures y in Blocks(f) ==> Blocks(f)[y] == Blocks(g)[y]
    {
      OtherChunk(g, b, f, y);
      if y in Blocks(g) { BlockBounds(g, y); }
    }
    ListedSame(s.lists, Blocks(g), Blocks(f));
  }

  // ------------------------------------------------------ get_block, free_block

  /** A block of pool p and level k is in use at x. */
  ghost predicate InUse(s: Heap, p: nat, k: nat, x: nat)
    requires Geometry(s.forest)
  {
    var m := Blocks(s.forest);
    x in m && !m[x].free && m[x].pool == p && m[x].level == k
  }

  /**
    get_block: the smallest sufficient free block, or a new chunk from Exec,
    split down to level k.  `exec` is what Exec answers if it is asked.
   */
  ghost function Get(s: Heap, p: nat, k: nat, exec: Option<nat>): (r: (Heap, Option<nat>))
    requires Valid(s) && p < 2 && k <= TOP
    requires exec.Some? ==> FreshArea(s.forest, exec.value)
    ensures Valid(r.0)
    ensures r.1.None? ==> r.0 == s
    ensures r.1.Some? ==> InUse(r.0, p, k, r.1.value)
    decreases TOP - k
  {
    if k == TOP then
      if exec.None? then (s, None)
      else GrowValid(s, exec.value, p); (Grow(s, exec.value, p), exec)
    else if s.lists[p][k] != [] then
      var x := s.lists[p][k][0];
      ListHead(s, p, k);
      ReserveValid(s, x);
      (Reserve(s, x), Some(x))
    else
      var (t, r) := Get(s, p, k + 1, exec);
      if r.None? then (t, None)
      else HalveValid(t, r.value); (Halve(t, r.value), r)
  }

  lemma ListHead(s: Heap, p: nat, k: nat)
    requires Valid(s) && p < 2 && k < TOP && s.lists[p][k] != []
    ensures IsFree(Blocks(s.forest), p, k, s.lists[p][k][0])
  {
    hide Blocks;
    assert Lists1(s.lists[p][k], Blocks(s.forest), p, k);
  }

  /** free_block: merge the block with its free buddies as far up as they go. */
  ghost function Put(s: Heap, x: nat): (t: Heap)
    requires Valid(s) && x in Blocks(s.forest) && !Blocks(s.forest)[x].free
    ensures Valid(t)
    decreases TOP - Blocks(s.forest)[x].level
  {
    BlockBounds(s.forest, x);
    if Blocks(s.forest)[x].level == TOP then ShrinkValid(s, x); Shrink(s, x)
    else if BuddyFree(s, x) then
      JoinValid(s, x);
      var m := Blocks(s.forest)[x];
      Put(Join(s, x), Lower(x, Buddy(m.base, x, m.level)))
    else ReleaseValid(s, x); Release(s, x)
  }

  // ------------------------------------------------- allocating, then freeing

  /**
    Freeing what was just handed out puts back the chunks, and every bucket
    list in its old order.
   */
  lemma {:induction false} PutUndoesGet(s: Heap, p: nat, k: nat, exec: Option<nat>)
    requires Valid(s) && p < 2 && k <= TOP
    requires exec.Some? ==> FreshArea(s.forest, exec.value)
    requires Get(s, p, k, exec).1.Some?
    ensures Put(Get(s, p, k, exec).0, Get(s, p, k, exec).1.value) == s
    decreases TOP - k
  {
    hide Blocks;
    if k == TOP {
      GrowValid(s, exec.value, p);
      assert Shrink(Grow(s, exec.value, p), exec.value) == s;
    } else if s.lists[p][k] != [] {
      ListHead(s, p, k);
      ReleaseUndoesReserve(s, s.lists[p][k][0]);
    } else {
      PutUndoesGet(s, p, k + 1, exec);
      var (t, r) := Get(s, p, k + 1, exec);
      JoinUndoesHalve(t, r.value);
    }
  }

  lemma SetListBack(l: Lists, p: nat, k: nat, v: seq<nat>)
    requires Shape(l) && p < 2 && k < TOP
    ensures Shape(SetList(l, p, k, v)) && SetList(l, p, k, v)[p][k] == v
    ensures SetList(SetList(l, p, k, v), p, k, l[p][k]) == l
  {
    assert l[p][k := v][k := l[p][k]] == l[p];
  }

  lemma ReleaseUndoesReserve(s: Heap, x: nat)
    requires Valid(s) && x in Blocks(s.forest) && Blocks(s.forest)[x].free
    requires Blocks(s.forest)[x].level < TOP && Blocks(s.forest)[x].pool < 2
    requires s.lists[Blocks(s.forest)[x].pool][Blocks(s.forest)[x].level] != []
    requires s.lists[Blocks(s.forest)[x].pool][Blocks(s.forest)[x].level][0] == x
    ensures Valid(Reserve(s, x)) && InUse(Reserve(s, x), Blocks(s.forest)[x].pool, Blocks(s.forest)[x].level, x)
    ensures !BuddyFree(Reserve(s, x), x)
    ensures Release(Reserve(s, x), x) == s
  {
    hide Blocks;
    var f, m := s.forest, Blocks(s.forest)[x];
    ReserveValid(s, x);
    BlockNode(f, x);
    BuddyIsBlock(f, x);
    var t := f[m.base].tree;
    NoFreePair(t, TOP, m.base, x, Buddy(m.base, x, m.level), m.level);
    EditTwice(t, TOP, m.base, x, m.level, Live, Free);
    EditSub(t, TOP, m.base, x, m.level, Live);
    var g := Reserve(s, x).forest;
    assert SetNode(g, m.base, x, m.level, Free) == f;
    var l := s.lists[m.pool][m.level];
    assert [x] + l[1..] == l;
    SetListBack(s.lists, m.pool, m.level, l[1..]);
  }

  lemma {:induction false} NoFreePair(t: Tree, k: nat, a: nat, x: nat, y: nat, j: nat)
    requires Fits(t, k) && Siblings(t, k, a, x, y, j) && Coalesced(t)
    requires HasSub(t, k, a, x, j) && Sub(t, k, a, x, j).Free?
    ensures !Sub(t, k, a, y, j).Free?
  {
    SubCoalesced(t, k, a, Lower(x, y), j + 1);
  }

  lemma {:induction false} SubCoalesced(t: Tree, k: nat, a: nat, x: nat, j: nat)
    requires HasSub(t, k, a, x, j) && Coalesced(t)
    ensures Coalesced(Sub(t, k, a, x, j))
  {
    if j < k {
      if x < a + Size(k - 1) { SubCoalesced(t.lo, k - 1, a, x, j); }
      else { SubCoalesced(t.hi, k - 1, a + Size(k - 1), x, j); }
    }
  }

  lemma JoinUndoesHalve(s: Heap, x: nat)
    requires Valid(s) && x in Blocks(s.forest) && !Blocks(s.forest)[x].free
    requires Blocks(s.forest)[x].level > 0
    ensures Valid(Halve(s, x)) && x in Blocks(Halve(s, x).forest) && !Blocks(Halve(s, x).forest)[x].free
    ensures Blocks(Halve(s, x).forest)[x].level < TOP && BuddyFree(Halve(s, x), x)
    ensures Blocks(Halve(s, x).forest)[x].base <= x
    ensures x < Buddy(Blocks(Halve(s, x).forest)[x].base, x, Blocks(Halve(s, x).forest)[x].level)
    ensures Join(Halve(s, x), x) == s
  {
    hide Blocks;
    var f, m := s.forest, Blocks(s.forest)[x];
    var t := Halve(s, x);
    HalveValid(s, x);
    BlockNode(f, x);
    BlockBounds(f, x);
    var k := m.level - 1;
    var h := x + Size(k);
    BuddyIsBlock(t.forest, x);
    BlockNode(t.forest, x);
    EditSub(f[m.base].tree, TOP, m.base, x, m.level, Split(Live, Free));
    HalfBuddy(t.forest, m.base, x, k);
    EditTwice(f[m.base].tree, TOP, m.base, x, m.level, Split(Live, Free), Live);
    EditSub(f[m.base].tree, TOP, m.base, x, m.level, Live);
    assert SetNode(t.forest, m.base, x, m.level, Live) == f;
    assert Without([h] + s.lists[m.pool][k], h) == s.lists[m.pool][k];
    SetListBack(s.lists, m.pool, k, [h] + s.lists[m.pool][k]);
  }

  /** The buddy of the lower half of a node is its upper half. */
  lemma HalfBuddy(f: Forest, b: nat, x: nat, k: nat)
    requires Geometry(f) && NodeAt(f, b, x, k) && NodeAt(f, b, x, k + 1) && k < TOP && b <= x
    ensures Buddy(b, x, k) == x + Size(k)
  {
    var t := f[b].tree;
    var q := SubAligned(t, TOP, b, x, k + 1);
    Arith.MulDouble(q, Size(k));
    BuddyFlips(b, x, k, 2 * q);
  }

  // ------------------------------------------------------------- live blocks

  ghost function LiveOnly(m: map<nat, Block>): map<nat, Block> {
    map x | x in m && !m[x].free :: m[x]
  }

  /** The blocks handed out and not yet taken back. */
  ghost function LiveBlocks(s: Heap): map<nat, Block>
    requires Geometry(s.forest)
  {
    LiveOnly(Blocks(s.forest))
  }

  /** From m to n one more block came into use, at x. */
  ghost predicate OneMore(m: map<nat, Block>, n: map<nat, Block>, x: nat, p: nat, k: nat) {
    x !in LiveOnly(m) && x in n && LiveOnly(n) == LiveOnly(m)[x := Block(n[x].base, p, k, false)]
  }

  lemma OneMoreSet(m: map<nat, Block>, x: nat, b: Block)
    requires x in m ==> m[x].free
    requires !b.free
    ensures OneMore(m, m[x := b], x, b.pool, b.level)
  {
  }

  lemma OneMoreHalved(m: map<nat, Block>, n: map<nat, Block>, x: nat, p: nat, k: nat, h: nat)
    requires OneMore(m, n, x, p, k + 1) && h !in n && n[x] == Block(n[x].base, p, k + 1, false)
    ensures OneMore(m, n[x := n[x].(level := k)][h := n[x].(level := k, free := true)], x, p, k)
  {
    LiveHalved(n, x, h, k);
  }

  /** There is a free block of the level. */
  ghost predicate Stocked(s: Heap, p: nat, k: nat)
    requires Valid(s) && p < 2 && k < TOP
  {
    s.lists[p][k] != []
  }

  /** The three ways get_block goes. */
  lemma GetSteps(s: Heap, p: nat, k: nat, exec: Option<nat>)
    requires Valid(s) && p < 2 && k <= TOP
    requires exec.Some? ==> FreshArea(s.forest, exec.value)
    ensures k == TOP && exec.Some? ==> Get(s, p, k, exec) == (Grow(s, exec.value, p), exec)
    ensures k == TOP && exec.None? ==> Get(s, p, k, exec).1.None?
    ensures k < TOP && Stocked(s, p, k) ==>
              && IsFree(Blocks(s.forest), p, k, s.lists[p][k][0])
              && Get(s, p, k, exec) == (Reserve(s, s.lists[p][k][0]), Some(s.lists[p][k][0]))
    ensures k < TOP && !Stocked(s, p, k) ==>
              var (t, r) := Get(s, p, k + 1, exec);
              if r.None? then Get(s, p, k, exec).1.None? else Get(s, p, k, exec) == (Halve(t, r.value), r)
  {
    hide Blocks, FreshArea;
    if k < TOP && s.lists[p][k] != [] { ListHead(s, p, k); }
  }

  /** get_block hands out one more block and leaves the others in use alone. */
  lemma {:induction false} GetAddsOne(s: Heap, p: nat, k: nat, exec: Option<nat>)
    requires Valid(s) && p < 2 && k <= TOP
    requires exec.Some? ==> FreshArea(s.forest, exec.value)
    requires Get(s, p, k, exec).1.Some?
    ensures var (t, r) := Get(s, p, k, exec);
            OneMore(Blocks(s.forest), Blocks(t.forest), r.value, p, k)
    decreases TOP - k
  {
    GetSteps(s, p, k, exec);
    hide Blocks, OneMore, FreshArea, Get, Valid, Grow, Reserve, Halve;
    if k == TOP {
      GrowAddsOne(s, p, exec.value);
    } else if Stocked(s, p, k) {
      ReserveAddsOne(s, p, k, Get(s, p, k, exec).1.value);
    } else {
      GetAddsOne(s, p, k + 1, exec);
      HalveAddsOne(s, Get(s, p, k + 1, exec).0, p, k, Get(s, p, k, exec).1.value);
    }
  }

  lemma GrowAddsOne(s: Heap, p: nat, b: nat)
    requires Valid(s) && p < 2 && FreshArea(s.forest, b)
    ensures OneMore(Blocks(s.forest), Blocks(Grow(s, b, p).forest), b, p, TOP)
  {
    hide Blocks, OneMore, FreshArea;
    GrowValid(s, b, p);
    OneMoreSet(Blocks(s.forest), b, Block(b, p, TOP, false));
  }

  lemma ReserveAddsOne(s: Heap, p: nat, k: nat, x: nat)
    requires Valid(s) && p < 2 && k < TOP && IsFree(Blocks(s.forest), p, k, x)
    ensures Geometry(Reserve(s, x).forest) && OneMore(Blocks(s.forest), Blocks(Reserve(s, x).forest), x, p, k)
  {
    hide Blocks, OneMore;
    ReserveValid(s, x);
    OneMoreSet(Blocks(s.forest), x, Blocks(s.forest)[x].(free := false));
  }

  lemma HalveAddsOne(s: Heap, t: Heap, p: nat, k: nat, x: nat)
    requires Valid(s) && Valid(t) && InUse(t, p, k + 1, x)
    requires OneMore(Blocks(s.forest), Blocks(t.forest), x, p, k + 1)
    ensures Geometry(Halve(t, x).forest) && OneMore(Blocks(s.forest), Blocks(Halve(t, x).forest), x, p, k)
  {
    hide Blocks, OneMore;
    HalveValid(t, x);
    OneMoreHalved(Blocks(s.forest), Blocks(t.forest), x, p, k, x + Size(k));
  }

  lemma LiveHalved(m: map<nat, Block>, x: nat, h: nat, k: nat)
    requires x in m && !m[x].free && h !in m
    ensures LiveOnly(m[x := m[x].(level := k)][h := m[x].(level := k, free := true)])
            == LiveOnly(m)[x := m[x].(level := k)]
  {
  }

  /** free_block takes back exactly the block it is given. */
  lemma {:induction false} PutRemovesOne(s: Heap, x: nat)
    requires Valid(s) && x in Blocks(s.forest) && !Blocks(s.forest)[x].free
    ensures LiveBlocks(Put(s, x)) == LiveBlocks(s) - {x}
    decreases TOP - Blocks(s.forest)[x].level
  {
    hide Blocks;
    BlockBounds(s.forest, x);
    var m := Blocks(s.forest)[x];
    if m.level == TOP {
      ShrinkValid(s, x);
    } else if BuddyFree(s, x) {
      JoinValid(s, x);
      var y := Buddy(m.base, x, m.level);
      PutRemovesOne(Join(s, x), Lower(x, y));
      LiveJoined(Blocks(s.forest), x, y, m.(level := m.level + 1));
    } else {
      ReleaseValid(s, x);
    }
  }

  lemma LiveJoined(m: map<nat, Block>, x: nat, y: nat, b: Block)
    requires x in m && y in m && !m[x].free && m[y].free && !b.free && x != y
    ensures LiveOnly((m - {Upper(x, y)})[Lower(x, y) := b]) - {Lower(x, y)} == LiveOnly(m) - {x}
  {
  }

  // -------------------------------------------------- what every state satisfies

  /** Every byte of a held chunk lies in exactly one of its blocks. */
  lemma Tiled(s: Heap, b: nat, z: nat) returns (x: nat)
    requires Valid(s) && b in s.forest && b <= z < b + CHUNK
    ensures x in Blocks(s.forest) && Blocks(s.forest)[x].base == b
    ensures x <= z < x + Size(Blocks(s.forest)[x].level)
    ensures forall y :: y in Blocks(s.forest) && y <= z < y + Size(Blocks(s.forest)[y].level) ==> y == x
  {
    hide Blocks;
    TopIsChunk();
    x := LeavesCover(s.forest[b].tree, TOP, b, z);
    BlockAt(s.forest, b, x);
    forall y | y in Blocks(s.forest) && y <= z < y + Size(Blocks(s.forest)[y].level) ensures y == x {
      if y != x { BlocksApart(s.forest, x, y); }
    }
  }

  /** A chunk is held exactly as long as some block of it is in use. */
  lemma HeldIffLive(s: Heap, b: nat)
    requires Valid(s)
    ensures b in s.forest <==> exists x :: x in LiveBlocks(s) && LiveBlocks(s)[x].base == b
  {
    hide Blocks;
    if b in s.forest {
      CoalescedHasLive(s.forest[b].tree, TOP, b);
      var x :| x in Lives(s.forest[b].tree, TOP, b);
      BlockAt(s.forest, b, x);
      assert x in LiveBlocks(s);
    }
    forall x | x in LiveBlocks(s) ensures LiveBlocks(s)[x].base in s.forest {
      BlockBounds(s.forest, x);
    }
  }

  /**
    The blocks in use determine the rest: two states that agree on them hold
    the same chunks, divided in the same way, whatever happened before.
   */
  lemma LiveDetermineForest(s: Heap, t: Heap)
    requires Valid(s) && Valid(t) && LiveBlocks(s) == LiveBlocks(t)
    ensures s.forest == t.forest
    ensures forall p, k, x :: 0 <= p < 2 && 0 <= k < TOP ==> (x in s.lists[p][k] <==> x in t.lists[p][k])
  {
    hide Blocks;
    forall b ensures b in s.forest <==> b in t.forest {
      HeldIffLive(s, b);
      HeldIffLive(t, b);
    }
    forall b | b in s.forest ensures s.forest[b] == t.forest[b] {
      HeldIffLive(s, b);
      SameLives(s, t, b);
      SameLives(t, s, b);
      LivesDetermineTree(s.forest[b].tree, t.forest[b].tree, TOP, b);
    }
    assert s.forest == t.forest;
    forall p, k, x | 0 <= p < 2 && 0 <= k < TOP ensures x in s.lists[p][k] <==> x in t.lists[p][k] {
      assert Lists1(s.lists[p][k], Blocks(s.forest), p, k);
      assert Lists1(t.lists[p][k], Blocks(t.forest), p, k);
    }
  }

  lemma SameLives(s: Heap, t: Heap, b: nat)
    requires Valid(s) && Valid(t) && LiveBlocks(s) == LiveBlocks(t) && b in s.forest && b in t.forest
    ensures s.forest[b].pool == t.forest[b].pool
    ensures forall x :: x in Lives(s.forest[b].tree, TOP, b) ==>
              x in Lives(t.forest[b].tree, TOP, b)
              && Lives(s.forest[b].tree, TOP, b)[x] == Lives(t.forest[b].tree, TOP, b)[x]
  {
    hide Blocks;
    forall x | x in Lives(s.forest[b].tree, TOP, b)
      ensures s.forest[b].pool == t.forest[b].pool
      ensures x in Lives(t.forest[b].tree, TOP, b)
      ensures Lives(s.forest[b].tree, TOP, b)[x] == Lives(t.forest[b].tree, TOP, b)[x]
    {
      BlockAt(s.forest, b, x);
      assert x in LiveBlocks(s) && x in LiveBlocks(t);
      BlockBounds(t.forest, x);
    }
    CoalescedHasLive(s.forest[b].tree, TOP, b);
    var x :| x in Lives(s.forest[b].tree, TOP, b);
  }

  // -------------------------------------------------------------------- runs

  /** One call: get_block with Exec's answer should it be asked, or free_block. */
  datatype Call = Ask(pool: nat, level: nat, exec: Option<nat>) | Return(block: nat)

  ghost predicate Allowed(s: Heap, c: Call)
    requires Valid(s)
  {
    match c
    case Ask(p, k, exec) => p < 2 && k <= TOP && (exec.Some? ==> FreshArea(s.forest, exec.value))
    case Return(x) => x in LiveBlocks(s)
  }

  ghost function Step(s: Heap, c: Call): (t: Heap)
    requires Valid(s) && Allowed(s, c)
    ensures Valid(t)
  {
    match c
    case Ask(p, k, exec) => Get(s, p, k, exec).0
    case Return(x) => Put(s, x)
  }

  ghost predicate Legal(s: Heap, run: seq<Call>)
    requires Valid(s)
    decreases |run|
  {
    run != [] ==> Allowed(s, run[0]) && Legal(Step(s, run[0]), run[1..])
  }

  /** The state after a run of calls. */
  ghost function After(s: Heap, run: seq<Call>): (t: Heap)
    requires Valid(s) && Legal(s, run)
    ensures Valid(t)
    decreases |run|
  {
    if run == [] then s else After(Step(s, run[0]), run[1..])
  }

  ghost function Nothing(): (s: Heap)
    ensures Valid(s)
  {
    var l := seq(2, _ => seq(TOP, _ => []));
    NothingBlocks();
    Heap(map[], l)
  }

  lemma NothingBlocks()
    ensures Geometry(map[]) && Blocks(map[]) == map[]
  {
  }

  lemma HasMember(q: seq<nat>)
    ensures q == [] || exists x :: x in q
  {
    if q != [] { assert q[0] in q; }
  }

  /** When everything has been freed, nothing is kept back from Exec. */
  lemma AllFreedAllReturned(run: seq<Call>)
    requires Legal(Nothing(), run) && LiveBlocks(After(Nothing(), run)) == map[]
    ensures After(Nothing(), run).forest == map[]
    ensures forall p, k :: 0 <= p < 2 && 0 <= k < TOP ==> After(Nothing(), run).lists[p][k] == []
  {
    hide Blocks;
    NothingBlocks();
    var s, t := Nothing(), After(Nothing(), run);
    assert LiveBlocks(s) == map[];
    LiveDetermineForest(t, s);
    forall p, k | 0 <= p < 2 && 0 <= k < TOP ensures t.lists[p][k] == [] {
      assert Lists1(t.lists[p][k], Blocks(t.forest), p, k);
      HasMember(t.lists[p][k]);
    }
  }
}
