/**
  The buddy allocator itself: b_alloc and b_free on words of memory, with the
  doubly linked bucket lists threaded through the free blocks.
 */
module BuddyAlloc {
  import opened Arith
  import opened Option
  import opened BuddyTree
  import opened BuddyForest
  import opened BuddySpec
  import opened BuddyMemory

  const MINLOG2 := 4
  const MINSIZE := 16
  const MAXLOG2 := 16

  /** Requests of this many bytes and more go straight to Exec (BUDDY_LIMIT less the header). */
  const LIMIT := 2044

  class Allocator {
    var mem: Memory
    var heads: Ends
    var tails: Ends
    ghost var heap: Heap

    ghost predicate Ok()
      reads this
    {
      Represents(mem, heads, tails, heap)
    }

    // ---------------------------------------------------------- linked lists

    /** ixremove on the list of one bucket. */
    method IxRemove(pool: nat, ind: nat, node: nat)
      requires EndsShape(heads) && EndsShape(tails) && pool < 2 && ind < TOP
      requires node != 0 ==> node >= 4 && node in mem && node + 4 in mem
      modifies this`mem, this`heads, this`tails
      ensures node == 0 ==> mem == old(mem) && heads == old(heads) && tails == old(tails)
      ensures node != 0 ==>
                && mem == Removed(old(mem), node - 4)
                && heads == HeadsWithout(old(mem), old(heads), pool, ind, node - 4)
                && tails == TailsWithout(old(mem), old(tails), pool, ind, node - 4)
    {
      if node != 0 {
        var next, prev := mem[node], mem[node + 4];
        if prev != 0 {
          mem := mem[prev := next];
        } else {
          heads := SetEnd(heads, pool, ind, next);
        }
        if next != 0 {
          mem := mem[next + 4 := prev];
        } else {
          tails := SetEnd(tails, pool, ind, prev);
        }
      }
    }

    /** ixaddhead on the list of one bucket. */
    method IxAddHead(pool: nat, ind: nat, node: nat)
      requires EndsShape(heads) && EndsShape(tails) && pool < 2 && ind < TOP && node >= 4
      modifies this`mem, this`heads, this`tails
      ensures mem == Inserted(old(mem), old(heads)[pool][ind], node - 4)
      ensures heads == SetEnd(old(heads), pool, ind, node)
      ensures tails == if old(heads)[pool][ind] == 0 then SetEnd(old(tails), pool, ind, node) else old(tails)
    {
      var next := heads[pool][ind];
      mem := mem[node := next];
      mem := mem[node + 4 := 0];
      heads := SetEnd(heads, pool, ind, node);
      if next != 0 {
        mem := mem[next + 4 := node];
      } else {
        tails := SetEnd(tails, pool, ind, node);
      }
    }

    // -------------------------------------------------- unlink_block, link_block

    /** Reserve the first block of the bucket, if there is one. */
    method UnlinkFirst(pool: nat, ind: nat) returns (fb: nat)
      requires Ok() && pool < 2 && ind < TOP
      modifies this
      ensures Ok()
      ensures fb == if old(heap).lists[pool][ind] == [] then 0 else old(heap).lists[pool][ind][0]
      ensures fb == 0 ==> heap == old(heap) && heap.lists[pool][ind] == []
      ensures fb != 0 ==> IsFree(Blocks(old(heap).forest), pool, ind, fb) && heap == Reserve(old(heap), fb)
    {
      hide Blocks, Removed, Held;
      fb := 0;
      var node := heads[pool][ind];
      ghost var l := heap.lists[pool][ind];
      assert Chain(mem, node, tails[pool][ind], l);
      if node != 0 {
        ListHead(heap, pool, ind);
        ListIsBlocks(heap, pool, ind);
        FieldsHeld(mem, heap.forest, l[0]);
        ghost var w := SetPoolBits(mem[l[0]], pool + 1);
        HeadCommutes(mem, node, tails[pool][ind], l, w);
        ReserveRepresents(mem, heads, tails, heap, l[0], Blocks(heap.forest)[l[0]], mem[l[0] := w]);
      }
      IxRemove(pool, ind, node);
      if node != 0 {
        fb := node - 4;
        mem := mem[fb := SetPoolBits(mem[fb], pool + 1)];
        heap := Reserve(heap, fb);
      }
    }

    /** Reserve the given free block, or the first of the bucket when block is null. */
    method UnlinkBlock(pool: nat, ind: nat, block: nat) returns (fb: nat)
      requires Ok() && pool < 2 && ind < TOP
      requires block != 0 ==> IsFree(Blocks(heap.forest), pool, ind, block)
      modifies this
      ensures Ok()
      ensures block != 0 ==> fb == block
      ensures block == 0 ==> fb == if old(heap).lists[pool][ind] == [] then 0 else old(heap).lists[pool][ind][0]
      ensures fb == 0 ==> block == 0 && heap == old(heap) && heap.lists[pool][ind] == []
      ensures fb != 0 ==> IsFree(Blocks(old(heap).forest), pool, ind, fb) && heap == Reserve(old(heap), fb)
    {
      hide Blocks, Removed, Held;
      fb := block;
      if fb == 0 {
        fb := UnlinkFirst(pool, ind);
      } else {
        FieldsHeld(mem, heap.forest, fb);
        assert HeaderOk(mem, fb, Blocks(heap.forest)[fb]);
        ReserveRepresents(mem, heads, tails, heap, fb, Blocks(heap.forest)[fb],
                          mem[fb := SetPoolBits(mem[fb], pool + 1)]);
        mem := mem[fb := SetPoolBits(mem[fb], pool + 1)];
        IxRemove(pool, mem[fb + 12], fb + 4);
        heap := Reserve(heap, fb);
      }
    }

    /** Mark the block as free and put it in front of its bucket; `next` is the state meant. */
    method LinkBlock(pool: nat, ind: nat, block: nat, ghost next: Heap)
      requires Ok() && pool < 2 && ind < TOP
      requires MoreFree(heap, next, pool, ind, block)
      requires block in mem && SetPoolBits(mem[block], 0) == Header(0, Blocks(next.forest)[block].base)
      modifies this
      ensures Ok() && heap == next
    {
      hide Blocks, Inserted, Held, HeadersOk;
      ghost var b := Blocks(next.forest)[block];
      LinkedHeader(mem, heads, tails, heap, next, block, b,
                   mem[block := SetPoolBits(mem[block], 0)][block + 12 := ind]);
      mem := mem[block := SetPoolBits(mem[block], 0)];
      mem := mem[block + 12 := ind];
      ghost var mem1, heads1, tails1 := mem, heads, tails;
      IxAddHead(pool, ind, block + 4);
      PushRepresents(mem1, heads1, tails1, mem, heads, tails, heap.lists, next, pool, ind, block);
      heap := next;
    }

    // ------------------------------------------------------ get_block, free_block

    /** `exec` is the answer to AllocMem (MAXSIZE), should it be called. */
    method GetBlock(pool: nat, index: nat, exec: Option<Area>) returns (fb: nat)
      requires Ok() && pool < 2 && index <= TOP
      requires exec.Some? ==> AreaOk(heap.forest, exec.value)
      modifies this
      ensures Ok()
      ensures var (t, r) := Get(old(heap), pool, index, Place(exec));
              heap == t && fb == if r.None? then 0 else r.value
      ensures fb == 0 <==> Get(old(heap), pool, index, Place(exec)).1.None?
      decreases TOP - index
    {
      hide Blocks, Represents;
      if index == TOP {
        if exec.None? {
          return 0;
        }
        fb := exec.value.base;
        NewChunk(mem, heads, tails, heap, exec.value, pool);
        mem := mem + exec.value.words;
        mem := mem[fb := SetBaseBits(mem[fb], fb)];
        mem := mem[fb := SetPoolBits(mem[fb], pool + 1)];
        heap := Grow(heap, fb, pool);
        return;
      }
      fb := UnlinkBlock(pool, index, 0);
      if fb != 0 {
        return;
      }
      fb := GetBlock(pool, index + 1, exec);
      if fb != 0 {
        var buddy := fb + Size(index);
        Halving(mem, heads, tails, heap, fb, Blocks(heap.forest)[fb], buddy);
        mem := mem[buddy := SetBaseBits(mem[buddy], BaseBits(mem[fb]))];
        LinkBlock(pool, index, buddy, Halve(heap, fb));
      }
    }

    method FreeBlock(pool: nat, index: nat, fb: nat)
      requires Ok() && index <= TOP && InUse(heap, pool, index, fb)
      modifies this
      ensures Ok() && heap == Put(old(heap), fb)
      decreases TOP - index
    {
      hide Blocks, Represents, HeadersOk, Held, Listed, Packed;
      UseRepresents(mem, heads, tails, heap);
      ghost var s, b := heap, Blocks(heap.forest)[fb];
      BlockBounds(s.forest, fb);
      HeaderOf(mem, s, fb, b);
      var buddy := Buddy(BaseBits(mem[fb]), fb, index);
      if index == TOP {
        ShrinkRepresents(mem, heads, tails, heap, fb);
        mem := GivenBack(mem, fb);
        heap := Shrink(heap, fb);
        return;
      }
      BuddyTest(mem, heads, tails, s, fb, b, buddy);
      if PoolBits(mem[buddy]) != 0 || mem[buddy + 12] != index {
        ReleasingState(s, fb, b);
        LinkBlock(pool, index, fb, Release(heap, fb));
        return;
      }
      var _ := UnlinkBlock(pool, index, buddy);
      JoinRepresents(mem, heads, tails, s, fb, buddy);
      JoinValid(s, fb);
      heap := Join(s, fb);
      FreeBlock(pool, index + 1, if fb < buddy then fb else buddy);
    }

    // ------------------------------------------------------------ entry points

    /** init_buddy: no chunks, and every bucket empty. */
    constructor ()
      ensures Ok() && heap == Nothing()
    {
      mem := map[];
      heads := seq(2, _ => seq(TOP, _ => 0));
      tails := seq(2, _ => seq(TOP, _ => 0));
      heap := Nothing();
      NothingBlocks();
    }

    /**
      b_alloc.  `chunk` and `direct` are what AllocMem answers when asked for
      a chunk, or for the whole of a large request.
     */
    method BAlloc(size: int, pool: nat, chunk: Option<Area>, direct: Option<nat>) returns (r: Option<nat>)
      requires Ok() && pool < 2
      requires chunk.Some? ==> AreaOk(heap.forest, chunk.value)
      modifies this
      ensures Ok()
      ensures size < 0 ==> r == None && heap == old(heap)
      ensures size >= LIMIT ==> r == direct && heap == old(heap)
      ensures 0 <= size < LIMIT ==>
                var (t, block) := Get(old(heap), pool, Bucket(size), Place(chunk));
                heap == t && r == if block.None? then None else Some(block.value + 4)
      ensures 0 <= size < 2044 && r.Some? ==> r.value >= 4 && Holds(heap, r.value - 4, pool, size)
    {
      hide Blocks, Represents, Get, Packed, Listed, Size, Bucket;
      if size < 0 {
        return None;
      }
      var n := if size < MINSIZE then MINSIZE else size;
      if n >= LIMIT {
        return direct;
      }
      var pow := Log2(n + 4);
      BucketIs(size, pow);
      BlockFits(size);
      var block := GetBlock(pool, pow - MINLOG2, chunk);
      r := if block != 0 then Some(block + 4) else None;
    }

    /** b_free of memory that b_alloc served for a request of the same size class. */
    method BFree(address: nat, size: int)
      requires Ok()
      requires size < LIMIT ==> Served(heap, address, size)
      modifies this
      ensures Ok()
      ensures size >= LIMIT ==> heap == old(heap)
      ensures size < LIMIT ==> heap == Put(old(heap), address - 4)
    {
      hide Blocks, Represents, HeadersOk, Held, Listed, Packed;
      var n := if size < MINSIZE then MINSIZE else size;
      if n >= LIMIT {
        return;
      }
      var pow := Log2(n + 4);
      BucketIs(size, pow);
      var fb := address - 4;
      UseRepresents(mem, heads, tails, heap);
      HeaderOf(mem, heap, fb, Blocks(heap.forest)[fb]);
      var pool := PoolBits(mem[fb]) - 1;
      FreeBlock(pool, pow - MINLOG2, fb);
    }

    /** The application writes a word of a block it holds. */
    method Scribble(ghost x: nat, z: nat, v: nat)
      requires Ok() && Payload(heap, x, z) && z in mem
      modifies this
      ensures Ok() && heap == old(heap) && mem == old(mem)[z := v]
    {
      PayloadWrite(mem, heads, tails, heap, x, z, v);
      mem := mem[z := v];
    }
  }

  /** log2 rounds up to the exponent of the next power of two. */
  method Log2(size: nat) returns (pow: nat)
    requires 1 <= size <= CHUNK
    ensures pow <= MAXLOG2 && size <= Pow2(pow) && (pow > 0 ==> Pow2(pow - 1) < size)
  {
    SizeIsPow2(TOP);
    TopIsChunk();
    SizeIsPow2(TOP - 1);
    assert 2 * Size(TOP - 1) == Size(TOP);
    pow := MAXLOG2;
    var lowerBound := 0x8000;
    while !(size > lowerBound)
      invariant pow <= MAXLOG2 && size <= Pow2(pow)
      invariant lowerBound == if pow == 0 then 0 else Pow2(pow - 1)
      decreases pow
    {
      lowerBound := lowerBound / 2;
      pow := pow - 1;
    }
  }

  function Rounded(size: int): nat {
    if size < MINSIZE then MINSIZE else size
  }

  /** The least level, from k up, whose blocks hold n bytes. */
  ghost function LeastLevel(n: nat, k: nat): (r: nat)
    ensures k <= TOP ==> r <= TOP
    decreases if k < TOP then TOP - k else 0
  {
    if n <= Size(k) || k >= TOP then k else LeastLevel(n, k + 1)
  }

  /** The bucket that serves a request of the given size. */
  ghost function Bucket(size: int): (k: nat)
    ensures k <= TOP
  {
    LeastLevel(Rounded(size) + 4, 0)
  }

  /** A block in use at x, with room for size bytes behind its header, and less than half of it to spare. */
  ghost predicate Holds(s: Heap, x: nat, pool: nat, size: int)
    requires Geometry(s.forest)
  {
    && x in Blocks(s.forest) && !Blocks(s.forest)[x].free && Blocks(s.forest)[x].pool == pool
    && size + 4 <= Size(Blocks(s.forest)[x].level) < 2 * ((if size < 16 then 16 else size) + 4)
  }

  /** The address lies just behind the header of a block in use, of the bucket of that size. */
  ghost predicate Served(s: Heap, address: nat, size: int)
    requires Geometry(s.forest)
  {
    && address >= 4 && address - 4 in Blocks(s.forest)
    && !Blocks(s.forest)[address - 4].free && Blocks(s.forest)[address - 4].level == Bucket(size)
  }

  lemma {:induction false} LeastLevelIs(n: nat, j: nat, k: nat)
    requires j <= k <= TOP && n <= Size(k) && (k > 0 ==> Size(k - 1) < n)
    ensures LeastLevel(n, j) == k
    decreases k - j
  {
    if j < k {
      SizeMonotone(j, k - 1);
      LeastLevelIs(n, j + 1, k);
    }
  }

  lemma BucketIs(size: int, pow: nat)
    requires size < LIMIT && pow <= MAXLOG2
    requires Rounded(size) + 4 <= Pow2(pow) && (pow > 0 ==> Pow2(pow - 1) < Rounded(size) + 4)
    ensures pow > MINLOG2 && Bucket(size) == pow - MINLOG2
  {
    assert pow <= 4 ==> Pow2(pow) <= 16 by {
      assert Pow2(4) == 16;
      if pow <= 4 { PowMonotone(pow, 4); }
    }
    SizeIsPow2(pow - 4);
    SizeIsPow2(pow - 5);
    LeastLevelIs(Rounded(size) + 4, 0, pow - 4);
  }

  lemma {:induction false} PowMonotone(d: nat, e: nat)
    requires d <= e
    ensures Pow2(d) <= Pow2(e)
    decreases e
  {
    if d < e { PowMonotone(d, e - 1); }
  }

  /**
    A block served holds the request behind its header, wastes less than half
    of itself, and comes from one of buckets 1 to 7: bucket 0 is never used.
   */
  lemma BlockFits(size: int)
    requires size < LIMIT
    ensures 1 <= Bucket(size) <= 7
    ensures size + 4 <= Size(Bucket(size)) < 2 * ((if size < 16 then 16 else size) + 4)
    ensures Size(Bucket(size) - 1) < (if size < 16 then 16 else size) + 4
  {
    var n := Rounded(size) + 4;
    assert Size(3) == 128 && Size(7) == 2048;
    var k := FirstFit(n, 0, 7);
    LeastLevelIs(n, 0, k);
  }

  lemma {:induction false} FirstFit(n: nat, j: nat, k: nat) returns (r: nat)
    requires j <= k && Size(j) < n <= Size(k)
    ensures j < r <= k && n <= Size(r) && Size(r - 1) < n
    decreases k
  {
    if n <= Size(k - 1) { r := FirstFit(n, j, k - 1); } else { r := k; }
  }

  /**
    What b_alloc served may be given to b_free with any size of the same
    class, and giving it back at once undoes the call.
   */
  lemma AllocThenFree(s: Heap, size: int, pool: nat, chunk: Option<nat>, size': int)
    requires Valid(s) && pool < 2 && size < LIMIT && (chunk.Some? ==> FreshArea(s.forest, chunk.value))
    requires Get(s, pool, Bucket(size), chunk).1.Some? && Bucket(size') == Bucket(size)
    ensures var (t, r) := Get(s, pool, Bucket(size), chunk);
            Served(t, r.value + 4, size') && Put(t, r.value) == s
  {
    hide Blocks, Bucket, Get, Put, FreshArea;
    PutUndoesGet(s, pool, Bucket(size), chunk);
  }

  /** No byte belongs to two applications' blocks, or to a block and a header. */
  lemma PayloadsDisjoint(s: Heap, x: nat, y: nat, z: nat)
    requires Valid(s) && Payload(s, x, z) && y in Blocks(s.forest) && y != x
    ensures !Payload(s, y, z) && !(y <= z < y + 4)
  {
    hide Blocks;
    BlocksApart(s.forest, x, y);
  }

  ghost function Place(exec: Option<Area>): Option<nat> {
    if exec.None? then None else Some(exec.value.base)
  }
}
