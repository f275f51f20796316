/**
  All the chunks that the buddy allocator holds, seen as one map of blocks,
  and the six elementary changes that splitting, merging, handing out and
  taking back a block are made of.
 */
module BuddyForest {
  import opened BuddyTree

  datatype Chunk = Chunk(pool: nat, tree: Tree)

  type Forest = map<nat, Chunk>

  /** One block: its chunk, the chunk's pool, its bucket, and whether it is free. */
  datatype Block = Block(base: nat, pool: nat, level: nat, free: bool)

  ghost predicate Placed(b: nat, c: Chunk) {
    0 < b && b % 4 == 0 && b + CHUNK <= 0x1_0000_0000 && c.pool < 2 && Fits(c.tree, TOP)
  }

  ghost predicate Disjoint(b: nat, c: nat) {
    b + CHUNK <= c || c + CHUNK <= b
  }

  /** Chunks are whole, longword aligned areas of the address space, pairwise disjoint. */
  ghost predicate Geometry(f: Forest) {
    && (forall b :: b in f ==> Placed(b, f[b]))
    && (forall b, c :: b in f && c in f && b != c ==> Disjoint(b, c))
  }

  /** No two buddies are both free, and no chunk is wholly free. */
  ghost predicate Packed(f: Forest) {
    forall b :: b in f ==> Coalesced(f[b].tree) && !f[b].tree.Free?
  }

  ghost function LeavesAt(f: Forest, b: nat): map<nat, Leaf>
    requires Geometry(f) && b in f
  {
    Leaves(f[b].tree, TOP, b)
  }

  ghost predicate StartsIn(f: Forest, b: nat, x: nat)
    requires Geometry(f)
  {
    b in f && x in LeavesAt(f, b)
  }

  ghost function Starts(f: Forest): set<nat>
    requires Geometry(f)
  {
    set b, x | b in f && x in LeavesAt(f, b) :: x
  }

  ghost function BaseOf(f: Forest, x: nat): (b: nat)
    requires Geometry(f) && x in Starts(f)
    ensures StartsIn(f, b, x)
  {
    var b :| b in f && x in LeavesAt(f, b);
    b
  }

  ghost function BlockIn(f: Forest, b: nat, x: nat): Block
    requires Geometry(f) && StartsIn(f, b, x)
  {
    Block(b, f[b].pool, LeavesAt(f, b)[x].level, LeavesAt(f, b)[x].free)
  }

  /** All blocks of all chunks, by start address. */
  ghost function Blocks(f: Forest): map<nat, Block>
    requires Geometry(f)
  {
    map x | x in Starts(f) :: BlockIn(f, BaseOf(f, x), x)
  }

  lemma StartBounds(f: Forest, b: nat, x: nat)
    requires Geometry(f) && StartsIn(f, b, x)
    ensures b <= x && LeavesAt(f, b)[x].level <= TOP
    ensures x + Size(LeavesAt(f, b)[x].level) <= b + CHUNK
  {
    TopIsChunk();
    LeavesInside(f[b].tree, TOP, b);
  }

  lemma StartIsIn(f: Forest, b: nat, x: nat)
    requires Geometry(f) && StartsIn(f, b, x)
    ensures x in Starts(f)
  {
  }

  lemma BlockAt(f: Forest, b: nat, x: nat)
    requires Geometry(f) && StartsIn(f, b, x)
    ensures x in Blocks(f) && Blocks(f)[x] == BlockIn(f, b, x)
  {
    StartIsIn(f, b, x);
    hide Starts;
    var c := BaseOf(f, x);
    StartBounds(f, b, x);
    StartBounds(f, c, x);
    assert c != b ==> Disjoint(b, c);
  }

  /** What is known of each block's place. */
  lemma BlockBounds(f: Forest, x: nat)
    requires Geometry(f) && x in Blocks(f)
    ensures var m := Blocks(f)[x];
            && StartsIn(f, m.base, x) && m == BlockIn(f, m.base, x)
            && m.level <= TOP && m.pool < 2
            && 0 < m.base <= x && x + Size(m.level) <= m.base + CHUNK
  {
    StartBounds(f, BaseOf(f, x), x);
  }

  /** Blocks never overlap, within a chunk or across chunks. */
  lemma BlocksApart(f: Forest, x: nat, y: nat)
    requires Geometry(f) && x in Blocks(f) && y in Blocks(f) && x != y
    ensures x + Size(Blocks(f)[x].level) <= y || y + Size(Blocks(f)[y].level) <= x
  {
    hide Blocks;
    BlockBounds(f, x);
    BlockBounds(f, y);
    var b, c := Blocks(f)[x].base, Blocks(f)[y].base;
    assert b != c ==> Disjoint(b, c);
    if b == c { LeavesApart(f[b].tree, TOP, b, x, y); }
  }

  // ---------------------------------------------------------------- editing

  ghost predicate NodeAt(f: Forest, b: nat, x: nat, j: nat) {
    b in f && HasSub(f[b].tree, TOP, b, x, j)
  }

  ghost function Node(f: Forest, b: nat, x: nat, j: nat): Tree
    requires NodeAt(f, b, x, j)
  {
    Sub(f[b].tree, TOP, b, x, j)
  }

  ghost function SetNode(f: Forest, b: nat, x: nat, j: nat, sub: Tree): Forest
    requires NodeAt(f, b, x, j)
  {
    f[b := f[b].(tree := Edit(f[b].tree, TOP, b, x, j, sub))]
  }

  lemma SetNodeGeometry(f: Forest, b: nat, x: nat, j: nat, sub: Tree)
    requires Geometry(f) && NodeAt(f, b, x, j) && Fits(sub, j)
    ensures Geometry(SetNode(f, b, x, j, sub))
  {
    EditFits(f[b].tree, TOP, b, x, j, sub);
  }

  /** A block inside the address range of a node of chunk b belongs to chunk b. */
  lemma RangeOwner(f: Forest, b: nat, x: nat, j: nat, y: nat)
    requires Geometry(f) && NodeAt(f, b, x, j) && y in Blocks(f) && x <= y < x + Size(j)
    ensures Blocks(f)[y].base == b
  {
    hide Blocks;
    TopIsChunk();
    SubInside(f[b].tree, TOP, b, x, j);
    BlockBounds(f, y);
    var c := Blocks(f)[y].base;
    assert c != b ==> Disjoint(b, c);
  }

  /** How an edit shows in the map of blocks, address by address. */
  lemma BlockAfterEdit(f: Forest, b: nat, x: nat, j: nat, sub: Tree, y: nat)
    requires Geometry(f) && NodeAt(f, b, x, j) && Fits(sub, j)
    requires Geometry(SetNode(f, b, x, j, sub))
    ensures var m := Blocks(SetNode(f, b, x, j, sub));
            if x <= y < x + Size(j) then
              && (y in m <==> y in Leaves(sub, j, x))
              && (y in m ==> m[y] == Block(b, f[b].pool, Leaves(sub, j, x)[y].level, Leaves(sub, j, x)[y].free))
            else
              && (y in m <==> y in Blocks(f))
              && (y in m ==> m[y] == Blocks(f)[y])
  {
    hide Blocks;
    var g := SetNode(f, b, x, j, sub);
    EditLeaf(f[b].tree, TOP, b, x, j, sub, y);
    if y in Blocks(g) {
      BlockBounds(g, y);
      var c := Blocks(g)[y].base;
      if x <= y < x + Size(j) {
        EditSub(f[b].tree, TOP, b, x, j, sub);
        RangeOwner(g, b, x, j, y);
      } else {
        assert StartsIn(f, c, y);
        BlockAt(f, c, y);
      }
    }
    if x <= y < x + Size(j) && y in Leaves(sub, j, x) {
      BlockAt(g, b, y);
    }
    if !(x <= y < x + Size(j)) && y in Blocks(f) {
      BlockBounds(f, y);
      assert StartsIn(g, Blocks(f)[y].base, y);
      BlockAt(g, Blocks(f)[y].base, y);
    }
  }

  lemma BlockNode(f: Forest, x: nat)
    requires Geometry(f) && x in Blocks(f)
    ensures var m := Blocks(f)[x];
            && NodeAt(f, m.base, x, m.level)
            && Node(f, m.base, x, m.level) == if m.free then Free else Live
  {
    hide Blocks;
    BlockBounds(f, x);
    LeafHasSub(f[Blocks(f)[x].base].tree, TOP, Blocks(f)[x].base, x);
  }
}
