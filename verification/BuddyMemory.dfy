/**
  The words of memory behind the buddy allocator.  A block keeps one header
  word in front of what the application sees; while it is free it also keeps
  the two link words of its bucket list and the number of that bucket.

      offset 0   pool (2 bits), chunk address divided by four (30 bits)
      offset 4   next    offset 8   prev    offset 12   index
 */
module BuddyMemory {
  import opened Arith
  import opened BuddyTree
  import opened BuddyForest
  import opened BuddySpec

  /** Contents of memory, by byte address of each longword. */
  type Memory = map<nat, nat>

  const TAG: nat := 0x4000_0000

  function PoolBits(w: nat): nat { w / TAG }

  function BaseBits(w: nat): nat { w % TAG * 4 }

  function SetPoolBits(w: nat, pool: nat): nat { pool * TAG + w % TAG }

  function SetBaseBits(w: nat, base: nat): nat { w / TAG * TAG + base / 4 % TAG }

  function Header(pool: nat, base: nat): nat { pool * TAG + base / 4 }

  /** The two fields packed in a header word come apart again. */
  lemma HeaderFields(pool: nat, base: nat)
    requires base % 4 == 0 && base < 0x1_0000_0000
    ensures PoolBits(Header(pool, base)) == pool && BaseBits(Header(pool, base)) == base
    ensures forall p: nat :: SetPoolBits(Header(pool, base), p) == Header(p, base)
    ensures forall w: nat :: SetPoolBits(SetBaseBits(w, base), pool) == Header(pool, base)
  {
    QuotientIs(Header(pool, base), TAG, pool, base / 4);
    forall w: nat ensures SetPoolBits(SetBaseBits(w, base), pool) == Header(pool, base) {
      QuotientIs(SetBaseBits(w, base), TAG, w / TAG, base / 4);
    }
  }

  // ------------------------------------------------------------ linked lists

  function NodeOrNull(l: seq<nat>, i: int): nat {
    if 0 <= i < |l| then l[i] + 4 else 0
  }

  ghost predicate Link(mem: Memory, l: seq<nat>, i: nat)
    requires i < |l|
  {
    && l[i] + 4 in mem && mem[l[i] + 4] == NodeOrNull(l, i + 1)
    && l[i] + 8 in mem && mem[l[i] + 8] == NodeOrNull(l, i - 1)
  }

  /** A doubly linked list whose nodes start at offset 4 of the blocks l. */
  ghost predicate Chain(mem: Memory, head: nat, tail: nat, l: seq<nat>) {
    && head == NodeOrNull(l, 0) && tail == NodeOrNull(l, |l| - 1)
    && forall i :: 0 <= i < |l| ==> Link(mem, l, i)
  }

  /** Two blocks keep their fields in different words. */
  ghost predicate Clear(x: nat, y: nat) {
    x + 16 <= y || y + 16 <= x
  }

  ghost predicate Spread(l: seq<nat>) {
    forall i, j :: 0 <= i < |l| && 0 <= j < |l| && i != j ==> Clear(l[i], l[j])
  }

  /** z is a link word of some block of l. */
  ghost predicate IsLink(l: seq<nat>, z: nat) {
    exists i :: 0 <= i < |l| && (z == l[i] + 4 || z == l[i] + 8)
  }

  /** Memory m' differs from m in link words of l at most. */
  ghost predicate LinksOnly(m: Memory, m': Memory, l: seq<nat>) {
    m'.Keys == m.Keys && forall z :: z in m && !IsLink(l, z) ==> m'[z] == m[z]
  }

  /** ixinsert with no predecessor: the node becomes the head. */
  function Inserted(mem: Memory, head: nat, x: nat): Memory {
    var m := mem[x + 4 := head][x + 8 := 0];
    if head != 0 then m[head + 4 := x + 4] else m
  }

  lemma InsertedLinks(mem: Memory, head: nat, tail: nat, l: seq<nat>, x: nat)
    requires Chain(mem, head, tail, l) && Spread(l) && x + 4 in mem && x + 8 in mem
    requires forall i :: 0 <= i < |l| ==> Clear(l[i], x)
    ensures Chain(Inserted(mem, head, x), x + 4, if head == 0 then x + 4 else tail, [x] + l)
    ensures LinksOnly(mem, Inserted(mem, head, x), [x] + l)
  {
    var m, l' := Inserted(mem, head, x), [x] + l;
    assert l'[0] == x;
    if l != [] { assert Link(mem, l, 0); assert l'[1] == l[0]; }
    forall i | 0 <= i < |l'| ensures Link(m, l', i) {
      if i > 0 { assert Link(mem, l, i - 1); }
    }
  }

  /** ixremove: the neighbours are linked to each other. */
  function Removed(mem: Memory, x: nat): Memory
    requires x + 4 in mem && x + 8 in mem
  {
    var next, prev := mem[x + 4], mem[x + 8];
    var m := if prev != 0 then mem[prev := next] else mem;
    if next != 0 then m[next + 4 := prev] else m
  }

  lemma RemovedLinks(mem: Memory, head: nat, tail: nat, l: seq<nat>, i: nat)
    requires Chain(mem, head, tail, l) && Spread(l) && i < |l|
    requires Link(mem, l, i)
    ensures var next, prev := mem[l[i] + 4], mem[l[i] + 8];
            Chain(Removed(mem, l[i]), if prev != 0 then head else next, if next != 0 then tail else prev,
                  l[..i] + l[i + 1..])
    ensures LinksOnly(mem, Removed(mem, l[i]), l)
  {
    var m, l' := Removed(mem, l[i]), l[..i] + l[i + 1..];
    RemovedOnlyLinks(mem, l, i);
    forall j | 0 <= j < |l'| ensures Link(m, l', j) {
      RemovedLinkAt(mem, l, i, j);
    }
  }

  lemma RemovedOnlyLinks(mem: Memory, l: seq<nat>, i: nat)
    requires i < |l| && forall j :: 0 <= j < |l| ==> Link(mem, l, j)
    ensures Link(mem, l, i) && LinksOnly(mem, Removed(mem, l[i]), l)
  {
    if i > 0 { assert Link(mem, l, i - 1); }
    if i + 1 < |l| { assert Link(mem, l, i + 1); }
  }

  lemma RemovedLinkAt(mem: Memory, l: seq<nat>, i: nat, j: nat)
    requires i < |l| && j < |l| - 1 && Spread(l)
    requires forall j :: 0 <= j < |l| ==> Link(mem, l, j)
    ensures Link(mem, l, i) && Link(Removed(mem, l[i]), l[..i] + l[i + 1..], j)
  {
    var l' := l[..i] + l[i + 1..];
    var k := if j < i then j else j + 1;
    assert l'[j] == l[k];
    assert Link(mem, l, k);
    assert NodeOrNull(l', j + 1) == if k + 1 == i then NodeOrNull(l, i + 1) else NodeOrNull(l, k + 1);
    assert NodeOrNull(l', j - 1) == if k == i + 1 then NodeOrNull(l, i - 1) else NodeOrNull(l, k - 1);
    if i > 0 { assert Clear(l[k], l[i - 1]) || k == i - 1; }
    if i + 1 < |l| { assert Clear(l[k], l[i + 1]) || k == i + 1; }
  }

  /** A list none of whose words changed is still a list. */
  lemma ChainFrame(mem: Memory, m: Memory, head: nat, tail: nat, l: seq<nat>)
    requires Chain(mem, head, tail, l)
    requires forall z :: IsLink(l, z) && z in mem ==> z in m && m[z] == mem[z]
    ensures Chain(m, head, tail, l)
  {
    forall i | 0 <= i < |l| ensures Link(m, l, i) {
      assert Link(mem, l, i);
      assert IsLink(l, l[i] + 4) && IsLink(l, l[i] + 8);
    }
  }

  // --------------------------------------------------- memory against the model

  ghost predicate HeaderOk(mem: Memory, x: nat, m: Block) {
    && x in mem && mem[x] == Header(if m.free then 0 else m.pool + 1, m.base)
    && (m.free ==> x + 12 in mem && mem[x + 12] == m.level)
  }

  ghost predicate HeadersOk(mem: Memory, bs: map<nat, Block>) {
    forall x :: x in bs ==> HeaderOk(mem, x, bs[x])
  }

  ghost predicate InChunk(b: nat, z: nat) {
    b <= z < b + CHUNK
  }

  /** Memory consists of exactly the words of the held chunks. */
  ghost predicate Held(mem: Memory, f: Forest) {
    && (forall b, z :: b in f && InChunk(b, z) && z % 4 == 0 ==> z in mem)
    && (forall z :: z in mem ==> z % 4 == 0 && exists b :: b in f && InChunk(b, z))
  }

  /** List heads or tails, by pool and level. */
  type Ends = seq<seq<nat>>

  ghost predicate EndsShape(e: Ends) {
    |e| == 2 && |e[0]| == TOP && |e[1]| == TOP
  }

  function SetEnd(e: Ends, p: nat, k: nat, v: nat): Ends
    requires EndsShape(e) && p < 2 && k < TOP
  {
    var row: seq<nat> := e[p][k := v];
    e[p := row]
  }

  ghost predicate Chained(mem: Memory, heads: Ends, tails: Ends, lists: Lists) {
    && EndsShape(heads) && EndsShape(tails) && Shape(lists)
    && forall p, k :: 0 <= p < 2 && 0 <= k < TOP ==> Chain(mem, heads[p][k], tails[p][k], lists[p][k])
  }

  /** Memory and list ends hold the state s. */
  ghost predicate Represents(mem: Memory, heads: Ends, tails: Ends, s: Heap) {
    && Valid(s) && HeadersOk(mem, Blocks(s.forest)) && Held(mem, s.forest)
    && Chained(mem, heads, tails, s.lists)
  }

  lemma LeafOffset(t: Tree, k: nat, a: nat, x: nat) returns (w: nat)
    requires Fits(t, k) && x in Leaves(t, k, a)
    ensures x == a + w && w % 4 == 0
  {
    hide Leaves, Size;
    var q := LeavesAligned(t, k, a, x);
    SizeIsFours(Leaves(t, k, a)[x].level, q);
    w := x - a;
  }

  lemma BlockIsAligned(f: Forest, x: nat)
    requires Geometry(f) && x in Blocks(f)
    ensures x > 0 && x % 4 == 0
  {
    hide Blocks, Leaves, Size;
    BlockBounds(f, x);
    var b := Blocks(f)[x].base;
    assert Placed(b, f[b]);
    var w := LeafOffset(f[b].tree, TOP, b, x);
  }

  lemma UseRepresents(mem: Memory, heads: Ends, tails: Ends, s: Heap)
    requires Represents(mem, heads, tails, s)
    ensures Valid(s) && HeadersOk(mem, Blocks(s.forest)) && Held(mem, s.forest)
  {
  }

  /** Blocks start on a longword boundary and own their first four words. */
  lemma FieldsHeld(mem: Memory, f: Forest, x: nat)
    requires Geometry(f) && Held(mem, f) && x in Blocks(f)
    ensures x > 0 && x % 4 == 0 && x in mem && x + 4 in mem && x + 8 in mem && x + 12 in mem
  {
    hide Blocks;
    BlockIsAligned(f, x);
    BlockBounds(f, x);
    HeldWords(mem, f, Blocks(f)[x].base, x);
  }

  lemma HeldWords(mem: Memory, f: Forest, b: nat, x: nat)
    requires Held(mem, f) && b in f && b <= x && x + 16 <= b + CHUNK && x % 4 == 0
    ensures x in mem && x + 4 in mem && x + 8 in mem && x + 12 in mem
  {
    assert InChunk(b, x) && InChunk(b, x + 4) && InChunk(b, x + 8) && InChunk(b, x + 12);
  }

  lemma {:induction false} SizeIsFours(k: nat, q: nat)
    ensures q * Size(k) % 4 == 0
  {
    var m := SizeFactor(0, k);
    assert q * Size(k) == 4 * (4 * q * m) by {
      assert q * (m * 16) == 16 * (q * m);
    }
  }

  lemma BlocksClear(f: Forest, x: nat, y: nat)
    requires Geometry(f) && x in Blocks(f) && y in Blocks(f) && x != y
    ensures Clear(x, y)
  {
    hide Blocks;
    BlocksApart(f, x, y);
  }

  /** All of l are blocks. */
  ghost predicate AllBlocks(l: seq<nat>, f: Forest)
    requires Geometry(f)
  {
    forall i :: 0 <= i < |l| ==> l[i] in Blocks(f)
  }

  lemma ListIsBlocks(s: Heap, p: nat, k: nat)
    requires Valid(s) && p < 2 && k < TOP
    ensures AllBlocks(s.lists[p][k], s.forest) && Spread(s.lists[p][k])
  {
    hide Blocks;
    var l := s.lists[p][k];
    assert Lists1(l, Blocks(s.forest), p, k);
    forall i | 0 <= i < |l| ensures l[i] in Blocks(s.forest) { assert l[i] in l; }
    forall i, j | 0 <= i < |l| && 0 <= j < |l| && i != j ensures Clear(l[i], l[j]) {
      assert i < j ==> l[i] != l[j];
      assert j < i ==> l[j] != l[i];
      BlocksClear(s.forest, l[i], l[j]);
    }
  }

  /** Different lists have different link words, and no header is a link word. */
  lemma LinksApart(f: Forest, l: seq<nat>, r: seq<nat>, z: nat)
    requires Geometry(f) && AllBlocks(l, f) && AllBlocks(r, f)
    requires forall i :: 0 <= i < |l| ==> l[i] !in r
    ensures !(IsLink(l, z) && IsLink(r, z))
  {
    hide Blocks;
    if IsLink(l, z) && IsLink(r, z) {
      var i :| 0 <= i < |l| && (z == l[i] + 4 || z == l[i] + 8);
      var j :| 0 <= j < |r| && (z == r[j] + 4 || z == r[j] + 8);
      BlocksClear(f, l[i], r[j]);
      assert false;
    }
  }

  lemma FieldNotLink(f: Forest, l: seq<nat>, x: nat)
    requires Geometry(f) && AllBlocks(l, f) && x in Blocks(f)
    ensures !IsLink(l, x) && !IsLink(l, x + 12)
  {
    hide Blocks;
    forall i | 0 <= i < |l| ensures x != l[i] + 4 && x != l[i] + 8 && x + 8 != l[i] && x + 4 != l[i] {
      if l[i] != x { BlocksClear(f, l[i], x); }
    }
  }

  lemma HeadersFrame(f: Forest, mem: Memory, m: Memory, l: seq<nat>)
    requires Geometry(f) && HeadersOk(mem, Blocks(f)) && AllBlocks(l, f) && LinksOnly(mem, m, l)
    ensures HeadersOk(m, Blocks(f))
  {
    hide Blocks;
    forall x | x in Blocks(f) ensures HeaderOk(m, x, Blocks(f)[x]) {
      assert HeaderOk(mem, x, Blocks(f)[x]);
      FieldNotLink(f, l, x);
    }
  }

  /** Linking block y in front of list (p, k). */
  lemma PushRepresents(mem: Memory, heads: Ends, tails: Ends, m: Memory, heads': Ends, tails': Ends,
                       l: Lists, s: Heap, p: nat, k: nat, y: nat)
    requires Valid(s) && HeadersOk(mem, Blocks(s.forest)) && Held(mem, s.forest)
    requires Chained(mem, heads, tails, l) && p < 2 && k < TOP && s.lists == Push(l, p, k, y)
    requires m == Inserted(mem, heads[p][k], y) && heads' == SetEnd(heads, p, k, y + 4)
    requires tails' == if heads[p][k] == 0 then SetEnd(tails, p, k, y + 4) else tails
    ensures Represents(m, heads', tails', s)
  {
    hide Blocks, HeadersOk, Held, Chained;
    PushKeeps(mem, heads, tails, m, l, s, p, k, y);
    PushChained(mem, heads, tails, m, heads', tails', l, s, p, k, y);
  }

  lemma PushKeeps(mem: Memory, heads: Ends, tails: Ends, m: Memory, l: Lists, s: Heap, p: nat, k: nat, y: nat)
    requires Valid(s) && HeadersOk(mem, Blocks(s.forest)) && Held(mem, s.forest)
    requires Chained(mem, heads, tails, l) && p < 2 && k < TOP && s.lists == Push(l, p, k, y)
    requires m == Inserted(mem, heads[p][k], y)
    ensures HeadersOk(m, Blocks(s.forest)) && Held(m, s.forest)
  {
    hide Blocks;
    PushChain(mem, heads, tails, m, l, s, p, k, y);
    ListIsBlocks(s, p, k);
    HeadersFrame(s.forest, mem, m, s.lists[p][k]);
  }

  lemma PushChained(mem: Memory, heads: Ends, tails: Ends, m: Memory, heads': Ends, tails': Ends,
                    l: Lists, s: Heap, p: nat, k: nat, y: nat)
    requires Valid(s) && Held(mem, s.forest)
    requires Chained(mem, heads, tails, l) && p < 2 && k < TOP && s.lists == Push(l, p, k, y)
    requires m == Inserted(mem, heads[p][k], y) && heads' == SetEnd(heads, p, k, y + 4)
    requires tails' == if heads[p][k] == 0 then SetEnd(tails, p, k, y + 4) else tails
    ensures Chained(m, heads', tails', s.lists)
  {
    hide Blocks;
    PushChain(mem, heads, tails, m, l, s, p, k, y);
    hide Chain, LinksOnly, Held, Inserted;
    forall q, j | 0 <= q < 2 && 0 <= j < TOP ensures Chain(m, heads'[q][j], tails'[q][j], s.lists[q][j]) {
      if !(q == p && j == k) {
        assert Chain(mem, heads[q][j], tails[q][j], l[q][j]);
        OtherChain(mem, m, heads, tails, s, p, k, q, j);
      }
    }
  }

  lemma PushChain(mem: Memory, heads: Ends, tails: Ends, m: Memory, l: Lists, s: Heap, p: nat, k: nat, y: nat)
    requires Valid(s) && Held(mem, s.forest)
    requires Chained(mem, heads, tails, l) && p < 2 && k < TOP && s.lists == Push(l, p, k, y)
    requires m == Inserted(mem, heads[p][k], y)
    ensures Chain(m, y + 4, if heads[p][k] == 0 then y + 4 else tails[p][k], s.lists[p][k])
    ensures LinksOnly(mem, m, s.lists[p][k]) && m.Keys == mem.Keys
  {
    hide Blocks;
    var r := s.lists[p][k];
    ListIsBlocks(s, p, k);
    assert r[0] == y && r[1..] == l[p][k];
    FieldsHeld(mem, s.forest, y);
    TailClear(r);
    InsertedLinks(mem, heads[p][k], tails[p][k], l[p][k], y);
  }

  lemma TailClear(r: seq<nat>)
    requires Spread(r) && r != []
    ensures Spread(r[1..]) && forall i :: 0 <= i < |r[1..]| ==> Clear(r[1..][i], r[0])
  {
  }

  lemma OtherChain(mem: Memory, m: Memory, heads: Ends, tails: Ends, s: Heap, p: nat, k: nat, q: nat, j: nat)
    requires Valid(s) && p < 2 && k < TOP && q < 2 && j < TOP && !(q == p && j == k)
    requires LinksOnly(mem, m, s.lists[p][k]) && EndsShape(heads) && EndsShape(tails)
    requires Chain(mem, heads[q][j], tails[q][j], s.lists[q][j])
    ensures Chain(m, heads[q][j], tails[q][j], s.lists[q][j])
  {
    hide Blocks;
    var l, r := s.lists[p][k], s.lists[q][j];
    ListIsBlocks(s, p, k);
    ListIsBlocks(s, q, j);
    assert Lists1(l, Blocks(s.forest), p, k);
    assert Lists1(r, Blocks(s.forest), q, j);
    forall i | 0 <= i < |r| ensures r[i] !in l { assert r[i] in r; }
    forall z | IsLink(r, z) && z in mem ensures m[z] == mem[z] {
      LinksApart(s.forest, r, l, z);
    }
    ChainFrame(mem, m, heads[q][j], tails[q][j], r);
  }

  /** What ixremove leaves in the list ends of (p, k). */
  function HeadsWithout(mem: Memory, heads: Ends, p: nat, k: nat, y: nat): Ends
    requires EndsShape(heads) && p < 2 && k < TOP && y + 4 in mem && y + 8 in mem
  {
    if mem[y + 8] != 0 then heads else SetEnd(heads, p, k, mem[y + 4])
  }

  function TailsWithout(mem: Memory, tails: Ends, p: nat, k: nat, y: nat): Ends
    requires EndsShape(tails) && p < 2 && k < TOP && y + 4 in mem && y + 8 in mem
  {
    if mem[y + 4] != 0 then tails else SetEnd(tails, p, k, mem[y + 8])
  }

  lemma {:induction false} WithoutAt(l: seq<nat>, i: nat)
    requires Distinct(l) && i < |l|
    ensures Without(l, l[i]) == l[..i] + l[i + 1..]
  {
    if i > 0 {
      WithoutAt(l[1..], i - 1);
      assert l[1..][i - 1] == l[i] && l[0] != l[i];
      assert l[..i] + l[i + 1..] == [l[0]] + (l[1..][..i - 1] + l[1..][i..]);
    }
  }

  lemma DropChain(mem: Memory, heads: Ends, tails: Ends, s: Heap, p: nat, k: nat, y: nat)
    requires Valid(s) && Chained(mem, heads, tails, s.lists) && p < 2 && k < TOP
    requires y in s.lists[p][k] && y + 4 in mem && y + 8 in mem
    ensures Chain(Removed(mem, y), HeadsWithout(mem, heads, p, k, y)[p][k],
                  TailsWithout(mem, tails, p, k, y)[p][k], Without(s.lists[p][k], y))
    ensures LinksOnly(mem, Removed(mem, y), s.lists[p][k])
  {
    hide Blocks;
    var l := s.lists[p][k];
    assert Lists1(l, Blocks(s.forest), p, k);
    ListIsBlocks(s, p, k);
    assert Chain(mem, heads[p][k], tails[p][k], l);
    hide Valid, Chain, LinksOnly, Removed, Without, Spread;
    RemovedMember(mem, heads[p][k], tails[p][k], l, y);
  }

  /** Removing a node that is somewhere in the list. */
  lemma RemovedMember(mem: Memory, head: nat, tail: nat, l: seq<nat>, y: nat)
    requires Chain(mem, head, tail, l) && Spread(l) && Distinct(l) && y in l && y + 4 in mem && y + 8 in mem
    ensures var next, prev := mem[y + 4], mem[y + 8];
            Chain(Removed(mem, y), if prev != 0 then head else next, if next != 0 then tail else prev, Without(l, y))
    ensures LinksOnly(mem, Removed(mem, y), l)
  {
    hide *;
    var i := PlaceOf(mem, head, tail, l, y);
    WithoutAt(l, i);
    RemovedLinks(mem, head, tail, l, i);
  }

  lemma PlaceOf(mem: Memory, head: nat, tail: nat, l: seq<nat>, y: nat) returns (i: nat)
    requires Chain(mem, head, tail, l) && y in l
    ensures i < |l| && l[i] == y && Link(mem, l, i)
  {
    i :| 0 <= i < |l| && l[i] == y;
  }

  lemma DropChained(mem: Memory, heads: Ends, tails: Ends, s: Heap, p: nat, k: nat, y: nat)
    requires Valid(s) && Chained(mem, heads, tails, s.lists) && p < 2 && k < TOP
    requires y in s.lists[p][k] && y + 4 in mem && y + 8 in mem
    ensures Chained(Removed(mem, y), HeadsWithout(mem, heads, p, k, y), TailsWithout(mem, tails, p, k, y),
                    Drop(s.lists, p, k, y))
  {
    hide Blocks;
    DropChain(mem, heads, tails, s, p, k, y);
    hide Chain, LinksOnly, Removed;
    var heads', tails' := HeadsWithout(mem, heads, p, k, y), TailsWithout(mem, tails, p, k, y);
    var l, m := Drop(s.lists, p, k, y), Removed(mem, y);
    forall q, j | 0 <= q < 2 && 0 <= j < TOP ensures Chain(m, heads'[q][j], tails'[q][j], l[q][j]) {
      if !(q == p && j == k) {
        assert Chain(mem, heads[q][j], tails[q][j], s.lists[q][j]);
        OtherChain(mem, m, heads, tails, s, p, k, q, j);
      }
    }
  }

  // ------------------------------------------------------------ header writes

  /** A write to a header word disturbs no list. */
  lemma ChainedHeaderWrite(mem: Memory, heads: Ends, tails: Ends, s: Heap, f: Forest, x: nat, v: nat, w: nat)
    requires Valid(s) && Chained(mem, heads, tails, s.lists) && Geometry(f) && x in Blocks(f)
    requires Blocks(s.forest).Keys <= Blocks(f).Keys
    ensures Chained(mem[x := v], heads, tails, s.lists)
    ensures Chained(mem[x + 12 := w], heads, tails, s.lists)
  {
    hide Blocks;
    forall p, k | 0 <= p < 2 && 0 <= k < TOP
      ensures Chain(mem[x := v], heads[p][k], tails[p][k], s.lists[p][k])
      ensures Chain(mem[x + 12 := w], heads[p][k], tails[p][k], s.lists[p][k])
    {
      var l := s.lists[p][k];
      ListIsBlocks(s, p, k);
      FieldNotLink(f, l, x);
      assert Chain(mem, heads[p][k], tails[p][k], l);
      ChainFrame(mem, mem[x := v], heads[p][k], tails[p][k], l);
      ChainFrame(mem, mem[x + 12 := w], heads[p][k], tails[p][k], l);
    }
  }

  /** Block y is in both maps with the same header. */
  ghost predicate SameBlock(m: map<nat, Block>, n: map<nat, Block>, y: nat) {
    y in m && y in n && n[y].(level := m[y].level) == m[y] && (n[y].free ==> n[y] == m[y])
  }

  /** Writing the fields of one block keeps the headers of the others. */
  lemma HeadersWrite(mem: Memory, m: Memory, f: Forest, g: Forest, x: nat)
    requires Geometry(f) && Geometry(g) && HeadersOk(mem, Blocks(f)) && x in Blocks(g)
    requires forall z :: z in mem && z != x && z != x + 12 ==> z in m && m[z] == mem[z]
    requires forall y :: y in Blocks(g) && y != x ==> SameBlock(Blocks(f), Blocks(g), y)
    requires HeaderOk(m, x, Blocks(g)[x])
    ensures HeadersOk(m, Blocks(g))
  {
    hide Blocks;
    forall y | y in Blocks(g) ensures HeaderOk(m, y, Blocks(g)[y]) {
      if y != x {
        assert HeaderOk(mem, y, Blocks(f)[y]);
        BlocksClear(g, x, y);
      }
    }
  }

  // --------------------------------------------- the six steps, seen in memory

  lemma FreeIsListed(s: Heap, x: nat)
    requires Valid(s) && x in Blocks(s.forest) && Blocks(s.forest)[x].free
    ensures Blocks(s.forest)[x].level < TOP && Blocks(s.forest)[x].pool < 2
    ensures x in s.lists[Blocks(s.forest)[x].pool][Blocks(s.forest)[x].level]
  {
    hide Blocks;
    FreeLevel(s, x);
    BlockBounds(s.forest, x);
    var b := Blocks(s.forest)[x];
    assert Lists1(s.lists[b.pool][b.level], Blocks(s.forest), b.pool, b.level);
  }

  lemma HeldFrame(mem: Memory, m: Memory, f: Forest, g: Forest)
    requires Held(mem, f) && m.Keys == mem.Keys && g.Keys == f.Keys
    ensures Held(m, g)
  {
  }

  /** Setting the pool bits of a free block turns its header into that of one in use. */
  lemma ReservedHeader(mem: Memory, s: Heap, x: nat, v: nat)
    requires Valid(s) && HeadersOk(mem, Blocks(s.forest)) && Held(mem, s.forest)
    requires x in Blocks(s.forest) && Blocks(s.forest)[x].free && Blocks(s.forest)[x].level < TOP && x in mem
    requires v == SetPoolBits(mem[x], Blocks(s.forest)[x].pool + 1)
    ensures Valid(Reserve(s, x)) && HeadersOk(mem[x := v], Blocks(Reserve(s, x).forest))
  {
    hide Blocks;
    var b := Blocks(s.forest)[x];
    ReserveValid(s, x);
    BlockBounds(s.forest, x);
    assert HeaderOk(mem, x, b);
    assert Placed(b.base, s.forest[b.base]);
    HeaderFields(0, b.base);
    HeadersWrite(mem, mem[x := v], s.forest, Reserve(s, x).forest, x);
  }

  lemma ReserveRepresents(mem: Memory, heads: Ends, tails: Ends, s: Heap, x: nat, b: Block, m: Memory)
    requires Represents(mem, heads, tails, s) && x in Blocks(s.forest) && Blocks(s.forest)[x] == b && b.free
    requires b.level < TOP && b.pool < 2 && x in mem && m == mem[x := SetPoolBits(mem[x], b.pool + 1)]
    ensures x + 4 in m && x + 8 in m
    ensures Represents(Removed(m, x), HeadsWithout(m, heads, b.pool, b.level, x),
                       TailsWithout(m, tails, b.pool, b.level, x), Reserve(s, x))
  {
    hide Blocks, Chain, Listed, Packed, Held, HeadersOk, Removed;
    FieldsHeld(mem, s.forest, x);
    FreeIsListed(s, x);
    HeldFrame(mem, m, s.forest, s.forest);
    ReservedHeader(mem, s, x, m[x]);
    ReserveValid(s, x);
    ChainedHeaderWrite(mem, heads, tails, s, s.forest, x, m[x], 0);
    DropChained(m, heads, tails, s, b.pool, b.level, x);
    DropKeeps(m, heads, tails, s, Reserve(s, x), b.pool, b.level, x);
  }

  lemma DropKeeps(m: Memory, heads: Ends, tails: Ends, s: Heap, t: Heap, p: nat, k: nat, x: nat)
    requires Valid(s) && Chained(m, heads, tails, s.lists) && p < 2 && k < TOP
    requires x in s.lists[p][k] && x + 4 in m && x + 8 in m
    requires Geometry(t.forest) && HeadersOk(m, Blocks(t.forest)) && Held(m, s.forest)
    requires t.forest.Keys == s.forest.Keys && Blocks(t.forest).Keys == Blocks(s.forest).Keys
    ensures HeadersOk(Removed(m, x), Blocks(t.forest)) && Held(Removed(m, x), t.forest)
  {
    hide Blocks;
    DropChain(m, heads, tails, s, p, k, x);
    ListIsBlocks(s, p, k);
    HeadersFrame(t.forest, m, Removed(m, x), s.lists[p][k]);
    HeldFrame(m, Removed(m, x), s.forest, t.forest);
  }

  lemma RemovedCommutes(mem: Memory, x: nat, w: nat)
    requires x + 4 in mem && x + 8 in mem && mem[x + 8] == 0 && (mem[x + 4] != 0 ==> mem[x + 4] + 4 != x)
    ensures Removed(mem, x)[x := w] == Removed(mem[x := w], x)
    ensures x in mem ==> x in Removed(mem, x) && Removed(mem, x)[x] == mem[x]
  {
  }

  /** Unlinking the head and marking it commute. */
  lemma HeadCommutes(mem: Memory, head: nat, tail: nat, l: seq<nat>, w: nat)
    requires Chain(mem, head, tail, l) && Spread(l) && l != []
    ensures head == l[0] + 4 && l[0] + 4 in mem && l[0] + 8 in mem
    ensures Removed(mem, l[0])[l[0] := w] == Removed(mem[l[0] := w], l[0])
    ensures l[0] in mem ==> l[0] in Removed(mem, l[0]) && Removed(mem, l[0])[l[0]] == mem[l[0]]
  {
    hide Removed;
    assert Link(mem, l, 0);
    if |l| > 1 { assert Clear(l[0], l[1]); }
    RemovedCommutes(mem, l[0], w);
  }

  /** Two halves in use are, word for word, one block in use of twice the size. */
  lemma JoinRepresents(mem: Memory, heads: Ends, tails: Ends, s: Heap, x: nat, y: nat)
    requires Valid(s) && x in Blocks(s.forest) && !Blocks(s.forest)[x].free
    requires Blocks(s.forest)[x].level < TOP && BuddyFree(s, x) && Blocks(s.forest)[x].base <= x
    requires y == Buddy(Blocks(s.forest)[x].base, x, Blocks(s.forest)[x].level)
    requires Represents(mem, heads, tails, Reserve(s, y))
    ensures Represents(mem, heads, tails, Join(s, x))
  {
    hide Blocks;
    JoinValid(s, x);
    ReserveValid(s, y);
    BuddyIsBlock(s.forest, x);
    var t, u := Reserve(s, y).forest, Join(s, x).forest;
    var l := Lower(x, y);
    assert HeaderOk(mem, l, Blocks(t)[l]);
    HeadersWrite(mem, mem, t, u, l);
    HeldFrame(mem, mem, t, u);
    hide HeadersOk, Held, Chained, Valid;
  }

  /** Words of a block in use behind its header belong to the application. */
  ghost predicate Payload(s: Heap, x: nat, z: nat)
    requires Geometry(s.forest)
  {
    && x in Blocks(s.forest) && !Blocks(s.forest)[x].free
    && x + 4 <= z < x + Size(Blocks(s.forest)[x].level)
  }

  lemma PayloadIsNoField(s: Heap, x: nat, z: nat, y: nat)
    requires Geometry(s.forest) && Payload(s, x, z) && y in Blocks(s.forest)
    ensures y != z && (Blocks(s.forest)[y].free ==> y + 4 != z && y + 8 != z && y + 12 != z)
  {
    hide Blocks;
    if y != x { BlocksApart(s.forest, x, y); }
  }

  lemma PayloadIsNoLink(s: Heap, x: nat, z: nat, p: nat, k: nat)
    requires Valid(s) && Payload(s, x, z) && p < 2 && k < TOP
    ensures !IsLink(s.lists[p][k], z)
  {
    hide Blocks;
    var l := s.lists[p][k];
    assert Lists1(l, Blocks(s.forest), p, k);
    forall i | 0 <= i < |l| ensures z != l[i] + 4 && z != l[i] + 8 {
      assert l[i] in l;
      PayloadIsNoField(s, x, z, l[i]);
    }
  }

  /** Whatever is written there, the allocator's own data stays as it was. */
  lemma PayloadWrite(mem: Memory, heads: Ends, tails: Ends, s: Heap, x: nat, z: nat, v: nat)
    requires Represents(mem, heads, tails, s) && Payload(s, x, z) && z in mem
    ensures Represents(mem[z := v], heads, tails, s)
  {
    hide Blocks;
    PayloadHeaders(mem, s, x, z, v);
    HeldFrame(mem, mem[z := v], s.forest, s.forest);
    PayloadChains(mem, heads, tails, s, x, z, v);
    hide HeadersOk, Held, Chained, Valid;
  }

  lemma PayloadHeaders(mem: Memory, s: Heap, x: nat, z: nat, v: nat)
    requires Valid(s) && HeadersOk(mem, Blocks(s.forest)) && Payload(s, x, z) && z in mem
    ensures HeadersOk(mem[z := v], Blocks(s.forest))
  {
    hide Blocks;
    forall y | y in Blocks(s.forest) ensures HeaderOk(mem[z := v], y, Blocks(s.forest)[y]) {
      assert HeaderOk(mem, y, Blocks(s.forest)[y]);
      PayloadIsNoField(s, x, z, y);
    }
  }

  lemma PayloadChains(mem: Memory, heads: Ends, tails: Ends, s: Heap, x: nat, z: nat, v: nat)
    requires Valid(s) && Chained(mem, heads, tails, s.lists) && Payload(s, x, z) && z in mem
    ensures Chained(mem[z := v], heads, tails, s.lists)
  {
    hide Blocks;
    forall p, k | 0 <= p < 2 && 0 <= k < TOP
      ensures Chain(mem[z := v], heads[p][k], tails[p][k], s.lists[p][k])
    {
      PayloadIsNoLink(s, x, z, p, k);
      ChainFrame(mem, mem[z := v], heads[p][k], tails[p][k], s.lists[p][k]);
    }
  }

  /** Marking block x as free with index k, before it is put on its list. */
  lemma LinkedHeader(mem: Memory, heads: Ends, tails: Ends, s: Heap, t: Heap, x: nat, b: Block, m: Memory)
    requires Represents(mem, heads, tails, s) && Valid(t) && t.forest.Keys == s.forest.Keys
    requires x in Blocks(t.forest) && Blocks(t.forest)[x] == b && b.free
    requires Blocks(s.forest).Keys <= Blocks(t.forest).Keys
    requires forall y :: y in Blocks(t.forest) && y != x ==> SameBlock(Blocks(s.forest), Blocks(t.forest), y)
    requires x in mem && SetPoolBits(mem[x], 0) == Header(0, b.base)
    requires m == mem[x := SetPoolBits(mem[x], 0)][x + 12 := b.level]
    ensures HeadersOk(m, Blocks(t.forest)) && Held(m, t.forest) && Chained(m, heads, tails, s.lists)
  {
    hide Blocks, SetPoolBits, Header, SameBlock, HeadersOk, Held, Chained, Valid;
    LinkedHeaderBlocks(mem, heads, tails, s, t, x, b, m);
    LinkedHeaderChains(mem, heads, tails, s, t, x, mem[x := SetPoolBits(mem[x], 0)][x], b.level);
  }

  lemma LinkedHeaderBlocks(mem: Memory, heads: Ends, tails: Ends, s: Heap, t: Heap, x: nat, b: Block, m: Memory)
    requires Represents(mem, heads, tails, s) && Valid(t) && t.forest.Keys == s.forest.Keys
    requires x in Blocks(t.forest) && Blocks(t.forest)[x] == b && b.free
    requires forall y :: y in Blocks(t.forest) && y != x ==> SameBlock(Blocks(s.forest), Blocks(t.forest), y)
    requires x in mem && SetPoolBits(mem[x], 0) == Header(0, b.base)
    requires m == mem[x := SetPoolBits(mem[x], 0)][x + 12 := b.level]
    ensures HeadersOk(m, Blocks(t.forest)) && Held(m, t.forest)
  {
    hide Blocks, SetPoolBits, Chained, SameBlock, Packed, Listed, HeadersOk, Held;
    HeldFrame(mem, mem, s.forest, t.forest);
    FieldsHeld(mem, t.forest, x);
    assert HeaderOk(m, x, b);
    hide Header, HeaderOk;
    HeadersWrite(mem, m, s.forest, t.forest, x);
    HeldFrame(mem, m, s.forest, t.forest);
  }

  lemma LinkedHeaderChains(mem: Memory, heads: Ends, tails: Ends, s: Heap, t: Heap, x: nat, v: nat, w: nat)
    requires Represents(mem, heads, tails, s) && Valid(t) && x in Blocks(t.forest)
    requires Blocks(s.forest).Keys <= Blocks(t.forest).Keys
    ensures Chained(mem[x := v][x + 12 := w], heads, tails, s.lists)
  {
    hide Blocks, HeadersOk, Held, Chained;
    ChainedHeaderWrite(mem, heads, tails, s, t.forest, x, v, 0);
    ChainedHeaderWrite(mem[x := v], heads, tails, s, t.forest, x, 0, w);
  }

  // ---------------------------------------------------------- chunks from Exec

  /** What AllocMem returns: a place and whatever happens to be in it. */
  datatype Area = Area(base: nat, words: Memory)

  ghost predicate AreaOk(f: Forest, a: Area) {
    FreshArea(f, a.base) && forall z :: z in a.words <==> InChunk(a.base, z) && z % 4 == 0
  }

  lemma GrowRepresents(mem: Memory, heads: Ends, tails: Ends, s: Heap, a: Area, p: nat, m: Memory)
    requires Represents(mem, heads, tails, s) && AreaOk(s.forest, a) && p < 2
    requires m == (mem + a.words)[a.base := Header(p + 1, a.base)]
    ensures Represents(m, heads, tails, Grow(s, a.base, p))
  {
    hide Blocks;
    var t := Grow(s, a.base, p);
    GrowValid(s, a.base, p);
    GrowApart(mem, s.forest, a);
    GrowHeaders(mem, s, a, p, m);
    GrowChained(mem, heads, tails, s, m);
    GrowHeld(mem, s.forest, t.forest, a, m);
    hide HeadersOk, Held, Chained, Valid;
  }

  lemma GrowApart(mem: Memory, f: Forest, a: Area)
    requires Held(mem, f) && AreaOk(f, a)
    ensures forall z :: z in mem ==> z !in a.words && z != a.base
  {
    forall z | z in mem ensures !InChunk(a.base, z) {
      var b :| b in f && InChunk(b, z);
      assert Disjoint(a.base, b);
    }
  }

  lemma GrowHeaders(mem: Memory, s: Heap, a: Area, p: nat, m: Memory)
    requires Valid(s) && HeadersOk(mem, Blocks(s.forest)) && FreshArea(s.forest, a.base) && p < 2
    requires forall z :: z in mem ==> z in m && m[z] == mem[z]
    requires a.base in m && m[a.base] == Header(p + 1, a.base)
    ensures Valid(Grow(s, a.base, p)) && HeadersOk(m, Blocks(Grow(s, a.base, p).forest))
  {
    hide Blocks;
    GrowValid(s, a.base, p);
    var t := Grow(s, a.base, p);
    forall y | y in Blocks(t.forest) ensures HeaderOk(m, y, Blocks(t.forest)[y]) {
      if y != a.base { assert HeaderOk(mem, y, Blocks(s.forest)[y]); }
    }
  }

  lemma GrowChained(mem: Memory, heads: Ends, tails: Ends, s: Heap, m: Memory)
    requires Chained(mem, heads, tails, s.lists)
    requires forall z :: z in mem ==> z in m && m[z] == mem[z]
    ensures Chained(m, heads, tails, s.lists)
  {
    forall p, k | 0 <= p < 2 && 0 <= k < TOP
      ensures Chain(m, heads[p][k], tails[p][k], s.lists[p][k])
    {
      ChainFrame(mem, m, heads[p][k], tails[p][k], s.lists[p][k]);
    }
  }

  lemma GrowHeld(mem: Memory, f: Forest, g: Forest, a: Area, m: Memory)
    requires Held(mem, f) && AreaOk(f, a) && g.Keys == f.Keys + {a.base}
    requires m.Keys == mem.Keys + a.words.Keys
    ensures Held(m, g)
  {
    forall z | z in m ensures z % 4 == 0 && exists b :: b in g && InChunk(b, z) {
      if z in mem {
        var b :| b in f && InChunk(b, z);
        assert b in g;
      } else {
        assert z in a.words && a.base in g;
      }
    }
    forall b, z | b in g && InChunk(b, z) && z % 4 == 0 ensures z in m {
      if b == a.base { assert z in a.words; } else { assert z in mem; }
    }
  }

  /** Memory after FreeMem of the chunk at b. */
  function GivenBack(mem: Memory, b: nat): Memory {
    map z | z in mem && !(b <= z < b + CHUNK) :: mem[z]
  }

  lemma ShrinkRepresents(mem: Memory, heads: Ends, tails: Ends, s: Heap, b: nat)
    requires Represents(mem, heads, tails, s) && b in Blocks(s.forest)
    requires Blocks(s.forest)[b].level == TOP && !Blocks(s.forest)[b].free
    ensures Represents(GivenBack(mem, b), heads, tails, Shrink(s, b))
  {
    hide Blocks;
    var t := Shrink(s, b);
    ShrinkValid(s, b);
    ShrinkHeaders(mem, s, b);
    ShrinkChained(mem, heads, tails, s, b);
    ShrinkHeld(mem, s.forest, t.forest, b);
    hide HeadersOk, Held, Chained, Valid;
  }

  /** Fields of the other blocks lie outside the chunk given back. */
  lemma OutsideChunk(s: Heap, b: nat, y: nat)
    requires Valid(s) && b in s.forest && y in Blocks(s.forest) && Blocks(s.forest)[y].base != b
    ensures !InChunk(b, y) && !InChunk(b, y + 4) && !InChunk(b, y + 8) && !InChunk(b, y + 12)
  {
    hide Blocks;
    BlockBounds(s.forest, y);
    assert Disjoint(b, Blocks(s.forest)[y].base);
  }

  lemma ShrinkHeaders(mem: Memory, s: Heap, b: nat)
    requires Valid(s) && HeadersOk(mem, Blocks(s.forest)) && b in Blocks(s.forest)
    requires Blocks(s.forest)[b].level == TOP && !Blocks(s.forest)[b].free
    ensures Valid(Shrink(s, b)) && HeadersOk(GivenBack(mem, b), Blocks(Shrink(s, b).forest))
  {
    hide Blocks;
    ShrinkValid(s, b);
    var t := Shrink(s, b);
    forall y | y in Blocks(t.forest) ensures HeaderOk(GivenBack(mem, b), y, Blocks(t.forest)[y]) {
      assert HeaderOk(mem, y, Blocks(s.forest)[y]);
      BlockBounds(t.forest, y);
      OutsideChunk(s, b, y);
    }
  }

  lemma ShrinkChained(mem: Memory, heads: Ends, tails: Ends, s: Heap, b: nat)
    requires Valid(s) && Chained(mem, heads, tails, s.lists) && b in Blocks(s.forest)
    requires Blocks(s.forest)[b].level == TOP && !Blocks(s.forest)[b].free
    ensures Chained(GivenBack(mem, b), heads, tails, s.lists)
  {
    hide Blocks;
    ShrinkValid(s, b);
    forall p, k | 0 <= p < 2 && 0 <= k < TOP
      ensures Chain(GivenBack(mem, b), heads[p][k], tails[p][k], s.lists[p][k])
    {
      ShrinkChain(mem, s, b, p, k);
      ChainFrame(mem, GivenBack(mem, b), heads[p][k], tails[p][k], s.lists[p][k]);
    }
  }

  lemma ShrinkChain(mem: Memory, s: Heap, b: nat, p: nat, k: nat)
    requires Valid(s) && b in Blocks(s.forest) && p < 2 && k < TOP
    requires Blocks(s.forest)[b].level == TOP && !Blocks(s.forest)[b].free
    ensures forall z :: IsLink(s.lists[p][k], z) && z in mem ==> z in GivenBack(mem, b)
  {
    hide Blocks;
    ShrinkValid(s, b);
    var l := s.lists[p][k];
    assert Lists1(l, Blocks(s.forest), p, k);
    forall z | IsLink(l, z) && z in mem ensures z in GivenBack(mem, b) {
      var i :| 0 <= i < |l| && (z == l[i] + 4 || z == l[i] + 8);
      assert l[i] in l && l[i] in Blocks(Shrink(s, b).forest);
      BlockBounds(Shrink(s, b).forest, l[i]);
      OutsideChunk(s, b, l[i]);
    }
  }

  lemma ShrinkHeld(mem: Memory, f: Forest, g: Forest, b: nat)
    requires Geometry(f) && Held(mem, f) && b in f && g == f - {b}
    ensures Held(GivenBack(mem, b), g)
  {
    var m := GivenBack(mem, b);
    forall z | z in m ensures z % 4 == 0 && exists c :: c in g && InChunk(c, z) {
      var c :| c in f && InChunk(c, z);
      assert c in g;
    }
    forall c, z | c in g && InChunk(c, z) && z % 4 == 0 ensures z in m {
      assert Disjoint(b, c) && z in mem;
    }
  }

  // ------------------------------------------- what the allocator does in a step

  /** The words written into a new chunk. */
  lemma NewChunk(mem: Memory, heads: Ends, tails: Ends, s: Heap, a: Area, p: nat)
    requires Represents(mem, heads, tails, s) && AreaOk(s.forest, a) && p < 2
    ensures a.base in mem + a.words
    ensures var m := mem + a.words;
            var w := SetBaseBits(m[a.base], a.base);
            Represents(m[a.base := w][a.base := SetPoolBits(w, p + 1)], heads, tails, Grow(s, a.base, p))
  {
    hide Represents;
    var m := mem + a.words;
    assert a.base in a.words;
    HeaderFields(p + 1, a.base);
    var w := SetBaseBits(m[a.base], a.base);
    assert m[a.base := w][a.base := SetPoolBits(w, p + 1)] == m[a.base := Header(p + 1, a.base)];
    GrowRepresents(mem, heads, tails, s, a, p, m[a.base := Header(p + 1, a.base)]);
  }

  /** next differs from s in one more free block y, and shares the other headers. */
  ghost predicate MoreFree(s: Heap, next: Heap, p: nat, k: nat, y: nat) {
    && Valid(s) && Valid(next) && next.forest.Keys == s.forest.Keys
    && p < 2 && k < TOP && next.lists == Push(s.lists, p, k, y)
    && Blocks(s.forest).Keys <= Blocks(next.forest).Keys
    && IsFree(Blocks(next.forest), p, k, y)
    && forall z :: z in Blocks(next.forest) && z != y ==> SameBlock(Blocks(s.forest), Blocks(next.forest), z)
  }

  lemma HeaderOf(mem: Memory, s: Heap, x: nat, b: Block)
    requires Valid(s) && HeadersOk(mem, Blocks(s.forest)) && x in Blocks(s.forest) && Blocks(s.forest)[x] == b
    ensures x in mem && BaseBits(mem[x]) == b.base && PoolBits(mem[x]) == if b.free then 0 else b.pool + 1
    ensures SetPoolBits(mem[x], 0) == Header(0, b.base)
    ensures b.free ==> x + 12 in mem && mem[x + 12] == b.level
  {
    hide Blocks;
    assert HeaderOk(mem, x, b);
    BlockBounds(s.forest, x);
    assert Placed(b.base, s.forest[b.base]);
    HeaderFields(if b.free then 0 else b.pool + 1, b.base);
  }

  lemma HalvingState(s: Heap, x: nat, b: Block, y: nat)
    requires Valid(s) && x in Blocks(s.forest) && Blocks(s.forest)[x] == b
    requires !b.free && b.level > 0 && y == x + Size(b.level - 1)
    ensures b.pool < 2 && b.level <= TOP
    ensures MoreFree(s, Halve(s, x), b.pool, b.level - 1, y)
    ensures Blocks(Halve(s, x).forest)[y].base == b.base
  {
    hide Blocks, Packed, Listed, SameBlock, Size;
    BlockBounds(s.forest, x);
    HalveValid(s, x);
    HalvedShares(Blocks(s.forest), Blocks(Halve(s, x).forest), x, y, b);
  }

  lemma HalvedShares(m: map<nat, Block>, n: map<nat, Block>, x: nat, y: nat, b: Block)
    requires x in m && m[x] == b && !b.free && b.level > 0 && y !in m
    requires n == m[x := b.(level := b.level - 1)][y := b.(level := b.level - 1, free := true)]
    ensures m.Keys <= n.Keys && IsFree(n, b.pool, b.level - 1, y) && n[y].base == b.base
    ensures forall z :: z in n && z != y ==> SameBlock(m, n, z)
  {
  }

  /** Splitting off the upper half of x: its header word, and the state that results. */
  lemma Halving(mem: Memory, heads: Ends, tails: Ends, s: Heap, x: nat, b: Block, y: nat)
    requires Represents(mem, heads, tails, s) && x in Blocks(s.forest) && Blocks(s.forest)[x] == b
    requires !b.free && b.level > 0 && y == x + Size(b.level - 1)
    ensures x in mem && y in mem && BaseBits(mem[x]) == b.base
    ensures var w := SetBaseBits(mem[y], b.base);
            Represents(mem[y := w], heads, tails, s) && SetPoolBits(w, 0) == Header(0, b.base)
    ensures b.pool < 2 && b.level <= TOP
    ensures MoreFree(s, Halve(s, x), b.pool, b.level - 1, y)
    ensures Blocks(Halve(s, x).forest)[y].base == b.base
  {
    hide Blocks, Chained, Listed, Packed, HeadersOk, Held, SetPoolBits, SetBaseBits, Header;
    HalvingState(s, x, b, y);
    HeaderOf(mem, s, x, b);
    HeldFrame(mem, mem, s.forest, Halve(s, x).forest);
    FieldsHeld(mem, Halve(s, x).forest, y);
    BlockBounds(s.forest, x);
    assert Placed(b.base, s.forest[b.base]);
    HeaderFields(0, b.base);
    PayloadWrite(mem, heads, tails, s, x, y, SetBaseBits(mem[y], b.base));
  }

  /**
    The test that free_block makes on the words at the buddy's address is true
    exactly when the buddy is a free block of the same size: neither the data
    of an application nor an index left over from earlier can mislead it.
   */
  lemma BuddyTest(mem: Memory, heads: Ends, tails: Ends, s: Heap, x: nat, b: Block, y: nat)
    requires Represents(mem, heads, tails, s) && x in Blocks(s.forest) && Blocks(s.forest)[x] == b
    requires b.level < TOP && b.base <= x && y == Buddy(b.base, x, b.level)
    ensures y in mem && y + 12 in mem
    ensures PoolBits(mem[y]) == 0 && mem[y + 12] == b.level <==> BuddyFree(s, x)
  {
    hide Blocks, Chained, Held, HeadersOk;
    BuddyIsBlock(s.forest, x);
    FieldsHeld(mem, s.forest, y);
    HeaderOf(mem, s, y, Blocks(s.forest)[y]);
  }

  lemma ReleasingState(s: Heap, x: nat, b: Block)
    requires Valid(s) && x in Blocks(s.forest) && Blocks(s.forest)[x] == b && !b.free
    requires b.level < TOP && !BuddyFree(s, x)
    ensures b.pool < 2 && MoreFree(s, Release(s, x), b.pool, b.level, x)
    ensures Blocks(Release(s, x).forest)[x].base == b.base
  {
    hide Blocks;
    BlockBounds(s.forest, x);
    ReleaseValid(s, x);
    hide Packed, Geometry, Listed;
  }
}
