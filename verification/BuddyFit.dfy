/**
  Which block get_block picks and where free_block leaves one, said without
  their recursion: closed forms for every bucket list after a call.
 */
module BuddyFit {
  import opened Option
  import opened BuddyTree
  import opened BuddyForest
  import opened BuddySpec

  // ------------------------------------------------------------------ best fit

  /** Level i of pool q after a block at x of level j and pool p was split down to level k. */
  ghost function Left(l: Lists, p: nat, k: nat, j: nat, x: nat, q: nat, i: nat): seq<nat>
    requires Shape(l) && q < 2 && i < TOP
  {
    if q != p || i < k || j < i then l[q][i]
    else if i < j then [x + Size(i)]
    else if l[q][i] == [] then [] else l[q][i][1..]
  }

  ghost predicate SplitDown(l: Lists, n: Lists, p: nat, k: nat, j: nat, x: nat) {
    Shape(l) && Shape(n) && forall q, i :: 0 <= q < 2 && 0 <= i < TOP ==> n[q][i] == Left(l, p, k, j, x, q, i)
  }

  lemma SplitDownNone(l: Lists, p: nat, x: nat)
    requires Shape(l) && p < 2
    ensures SplitDown(l, l, p, TOP, TOP, x)
  {
  }

  lemma SplitDownHere(l: Lists, p: nat, k: nat, x: nat)
    requires Shape(l) && p < 2 && k < TOP && l[p][k] != [] && l[p][k][0] == x
    ensures SplitDown(l, Drop(l, p, k, x), p, k, k, x)
  {
  }

  lemma SplitDownMore(l: Lists, n: Lists, p: nat, k: nat, j: nat, x: nat)
    requires p < 2 && k < j && k < TOP && SplitDown(l, n, p, k + 1, j, x) && l[p][k] == []
    ensures SplitDown(l, Push(n, p, k, x + Size(k)), p, k, j, x)
  {
    var m := Push(n, p, k, x + Size(k));
    forall q, i | 0 <= q < 2 && 0 <= i < TOP ensures m[q][i] == Left(l, p, k, j, x, q, i) {
      assert n[q][i] == Left(l, p, k + 1, j, x, q, i);
      if q == p && i == k { assert n[p][k] == []; }
    }
  }

  lemma ReserveLists(s: Heap, p: nat, k: nat, x: nat)
    requires Valid(s) && p < 2 && k < TOP && IsFree(Blocks(s.forest), p, k, x)
    ensures Reserve(s, x).lists == Drop(s.lists, p, k, x) && Reserve(s, x).forest.Keys == s.forest.Keys
  {
    hide Blocks;
    ReserveValid(s, x);
  }

  lemma HalveLists(s: Heap, p: nat, k: nat, x: nat)
    requires Valid(s) && InUse(s, p, k + 1, x) && p < 2 && k < TOP
    ensures Halve(s, x).lists == Push(s.lists, p, k, x + Size(k)) && Halve(s, x).forest.Keys == s.forest.Keys
  {
    hide Blocks;
    HalveValid(s, x);
  }

  ghost function First(s: Heap, p: nat, k: nat): nat
    requires Valid(s) && p < 2 && k < TOP && Stocked(s, p, k)
  {
    s.lists[p][k][0]
  }

  /** How get_block goes, told by whether the level has a block. */
  lemma GetGoes(s: Heap, p: nat, k: nat, exec: Option<nat>)
    requires Valid(s) && p < 2 && k <= TOP
    requires exec.Some? ==> FreshArea(s.forest, exec.value)
    ensures k == TOP ==> Get(s, p, k, exec).1 == exec
    ensures k < TOP && Stocked(s, p, k) ==> Get(s, p, k, exec) == Get(s, p, k, None)
    ensures k < TOP && Stocked(s, p, k) ==> Get(s, p, k, exec).1 == Some(First(s, p, k))
    ensures k < TOP && !Stocked(s, p, k) ==> Get(s, p, k, exec).1 == Get(s, p, k + 1, exec).1
    ensures k < TOP && !Stocked(s, p, k) && Get(s, p, k + 1, exec) == Get(s, p, k + 1, None) ==>
              Get(s, p, k, exec) == Get(s, p, k, None)
  {
    hide Blocks, FreshArea;
  }

  /** No level from k up to j has a free block. */
  ghost predicate NoneFrom(s: Heap, p: nat, k: nat, j: nat)
    requires Valid(s) && p < 2 && j <= TOP
  {
    forall i :: k <= i < j ==> !Stocked(s, p, i)
  }

  /**
    get_block takes the first block of the least sufficient level that has
    one, and asks Exec only when no level has.
   */
  lemma {:induction false} BestFit(s: Heap, p: nat, k: nat, exec: Option<nat>) returns (j: nat)
    requires Valid(s) && p < 2 && k <= TOP
    requires exec.Some? ==> FreshArea(s.forest, exec.value)
    ensures k <= j <= TOP && NoneFrom(s, p, k, j)
    ensures j == TOP ==> Get(s, p, k, exec).1 == exec
    ensures j < TOP ==> Stocked(s, p, j) && Get(s, p, k, exec).1 == Some(First(s, p, j))
    ensures j < TOP ==> Get(s, p, k, exec) == Get(s, p, k, None)
    decreases TOP - k
  {
    hide Blocks, FreshArea, Valid, Get, Stocked, First;
    GetGoes(s, p, k, exec);
    if k == TOP {
      j := TOP;
    } else if Stocked(s, p, k) {
      j := k;
    } else {
      j := BestFit(s, p, k + 1, exec);
    }
  }

  lemma GrowSplits(s: Heap, p: nat, exec: Option<nat>)
    requires Valid(s) && p < 2 && exec.Some? && FreshArea(s.forest, exec.value)
    ensures Get(s, p, TOP, exec).1.Some?
    ensures var (t, r) := Get(s, p, TOP, exec); SplitDown(s.lists, t.lists, p, TOP, TOP, r.value)
  {
    hide Blocks, SplitDown;
    SplitDownNone(s.lists, p, exec.value);
  }

  lemma ReserveSplits(s: Heap, p: nat, k: nat, exec: Option<nat>)
    requires Valid(s) && p < 2 && k < TOP && Stocked(s, p, k)
    requires exec.Some? ==> FreshArea(s.forest, exec.value)
    ensures var (t, r) := Get(s, p, k, exec);
            r.Some? && SplitDown(s.lists, t.lists, p, k, k, r.value) && t.forest.Keys == s.forest.Keys
  {
    GetSteps(s, p, k, exec);
    hide Blocks, SplitDown, Reserve, Get, FreshArea;
    var x := s.lists[p][k][0];
    ReserveLists(s, p, k, x);
    SplitDownHere(s.lists, p, k, x);
  }

  lemma HalveSplits(s: Heap, p: nat, k: nat, exec: Option<nat>, j: nat)
    requires Valid(s) && p < 2 && k < j <= TOP && !Stocked(s, p, k)
    requires exec.Some? ==> FreshArea(s.forest, exec.value)
    requires Get(s, p, k + 1, exec).1.Some?
    requires var (t, r) := Get(s, p, k + 1, exec); SplitDown(s.lists, t.lists, p, k + 1, j, r.value)
    ensures var (t, r) := Get(s, p, k, exec); r.Some? && SplitDown(s.lists, t.lists, p, k, j, r.value)
    ensures Get(s, p, k, exec).0.forest.Keys == Get(s, p, k + 1, exec).0.forest.Keys
  {
    assert Shape(s.lists) && s.lists[p][k] == [];
    hide Blocks, Halve, Get, FreshArea, Valid, Stocked, SplitDown, InUse;
    GetSteps(s, p, k, exec);
    HalfAlone(s.lists, Get(s, p, k + 1, exec).0, p, k, j, Get(s, p, k + 1, exec).1.value);
  }

  lemma HalfAlone(l: Lists, t: Heap, p: nat, k: nat, j: nat, x: nat)
    requires Valid(t) && p < 2 && k < j <= TOP && InUse(t, p, k + 1, x)
    requires SplitDown(l, t.lists, p, k + 1, j, x) && l[p][k] == []
    ensures SplitDown(l, Halve(t, x).lists, p, k, j, x) && Halve(t, x).forest.Keys == t.forest.Keys
  {
    hide Blocks, Halve;
    HalveLists(t, p, k, x);
    SplitDownMore(l, t.lists, p, k, j, x);
  }

  /**
    The halves get_block splits off are then alone on their lists; the level
    it took from lost its first block, and no other list changed.
   */
  lemma {:induction false} GetLists(s: Heap, p: nat, k: nat, exec: Option<nat>, j: nat)
    requires Valid(s) && p < 2 && k <= j <= TOP && NoneFrom(s, p, k, j) && (j < TOP ==> Stocked(s, p, j))
    requires exec.Some? ==> FreshArea(s.forest, exec.value)
    requires Get(s, p, k, exec).1.Some?
    ensures var (t, r) := Get(s, p, k, exec); SplitDown(s.lists, t.lists, p, k, j, r.value)
    ensures j < TOP ==> Get(s, p, k, exec).0.forest.Keys == s.forest.Keys
    decreases TOP - k
  {
    hide Blocks, SplitDown, FreshArea, Valid, Get, Stocked, First, Reserve, Halve;
    GetGoes(s, p, k, exec);
    if k == TOP {
      GrowSplits(s, p, exec);
    } else if k == j {
      ReserveSplits(s, p, k, exec);
    } else {
      assert !Stocked(s, p, k);
      GetLists(s, p, k + 1, exec, j);
      HalveSplits(s, p, k, exec, j);
    }
  }

  // ------------------------------------------------------------------- merging

  /** Where the block that was at x on level k starts once it has been merged up to level i. */
  ghost function Climb(base: nat, x: nat, k: nat, i: nat): (y: nat)
    requires base <= x && k <= i
    ensures base <= y <= x
    decreases i - k
  {
    if i == k then x else Climb(base, Lower(x, Buddy(base, x, k)), k + 1, i)
  }

  /** Level i lost just the buddy that the block, merged up to there, has on that level. */
  ghost predicate LostBuddy(l: seq<nat>, n: seq<nat>, base: nat, x: nat, k: nat, i: nat)
    requires base <= x && k <= i
  {
    var z := Buddy(base, Climb(base, x, k, i), i);
    z in l && n == Without(l, z)
  }

  /** The bucket lists after the block of level k at x was merged up to level j. */
  ghost predicate MergedUp(l: Lists, n: Lists, p: nat, base: nat, x: nat, k: nat, j: nat)
    requires base <= x && k <= j
  {
    && Shape(l) && Shape(n)
    && (forall q, i :: 0 <= q < 2 && 0 <= i < TOP && (q != p || i < k || j < i) ==> n[q][i] == l[q][i])
    && (p < 2 && j < TOP ==> n[p][j] == [Climb(base, x, k, j)] + l[p][j])
    && (p < 2 && j <= TOP ==> forall i: nat :: k <= i < j ==> LostBuddy(l[p][i], n[p][i], base, x, k, i))
  }

  lemma MergedNone(l: Lists, p: nat, base: nat, x: nat)
    requires Shape(l) && p < 2 && base <= x
    ensures MergedUp(l, l, p, base, x, TOP, TOP)
  {
  }

  lemma MergedHere(l: Lists, p: nat, base: nat, x: nat, k: nat)
    requires Shape(l) && p < 2 && k < TOP && base <= x
    ensures MergedUp(l, Push(l, p, k, x), p, base, x, k, k)
  {
  }

  lemma ClimbOn(base: nat, x: nat, k: nat, i: nat)
    requires base <= x && k < i
    ensures Climb(base, x, k, i) == Climb(base, Lower(x, Buddy(base, x, k)), k + 1, i)
  {
  }

  lemma MergedMore(l: Lists, n: Lists, p: nat, base: nat, x: nat, k: nat, j: nat, z: nat)
    requires Shape(l) && p < 2 && k < j <= TOP && base <= x && z == Buddy(base, x, k) && z in l[p][k]
    requires MergedUp(Drop(l, p, k, z), n, p, base, Lower(x, z), k + 1, j)
    ensures MergedUp(l, n, p, base, x, k, j)
  {
    var m := Drop(l, p, k, z);
    assert n[p][k] == m[p][k] == Without(l[p][k], z);
    assert LostBuddy(l[p][k], n[p][k], base, x, k, k);
    hide Buddy, Climb, Without;
    forall i: nat | k <= i < j ensures LostBuddy(l[p][i], n[p][i], base, x, k, i) {
      if i > k {
        ClimbOn(base, x, k, i);
        assert m[p][i] == l[p][i];
        assert LostBuddy(m[p][i], n[p][i], base, Lower(x, z), k + 1, i);
      }
    }
    ClimbOn(base, x, k, j);
    hide LostBuddy;
  }

  /** free_block merges once: the state it goes on with. */
  lemma JoinLists(s: Heap, x: nat, m: Block, z: nat)
    requires Valid(s) && x in Blocks(s.forest) && Blocks(s.forest)[x] == m && !m.free
    requires m.level < TOP && BuddyFree(s, x) && m.base <= x && z == Buddy(m.base, x, m.level)
    ensures Join(s, x).lists == Drop(s.lists, m.pool, m.level, z) && Join(s, x).forest.Keys == s.forest.Keys
    ensures m.pool < 2 && Shape(s.lists) && z in s.lists[m.pool][m.level]
  {
    hide Blocks;
    BlockBounds(s.forest, x);
    BuddyIsBlock(s.forest, x);
    assert Lists1(s.lists[m.pool][m.level], Blocks(s.forest), m.pool, m.level);
    JoinValid(s, x);
  }

  lemma ReleaseLists(s: Heap, x: nat, m: Block)
    requires Valid(s) && x in Blocks(s.forest) && Blocks(s.forest)[x] == m && !m.free
    requires m.level < TOP && !BuddyFree(s, x)
    ensures m.pool < 2 && Shape(s.lists) && Release(s, x).lists == Push(s.lists, m.pool, m.level, x)
    ensures Release(s, x).forest.Keys == s.forest.Keys
  {
    hide Blocks;
    BlockBounds(s.forest, x);
    ReleaseValid(s, x);
  }

  /** The three ways free_block goes. */
  lemma PutGoes(s: Heap, x: nat, m: Block)
    requires Valid(s) && x in Blocks(s.forest) && Blocks(s.forest)[x] == m && !m.free
    ensures m.base <= x && m.level <= TOP
    ensures m.level == TOP ==> Put(s, x) == Shrink(s, x) && m.base == x
    ensures m.level < TOP && !BuddyFree(s, x) ==> Put(s, x) == Release(s, x)
    ensures m.level < TOP && BuddyFree(s, x) ==>
              var y := Lower(x, Buddy(m.base, x, m.level));
              && Valid(Join(s, x)) && y in Blocks(Join(s, x).forest)
              && Blocks(Join(s, x).forest)[y] == m.(level := m.level + 1)
              && Put(s, x) == Put(Join(s, x), y)
  {
    hide Blocks;
    BlockBounds(s.forest, x);
    if m.level == TOP {
      ShrinkValid(s, x);
    } else if BuddyFree(s, x) {
      JoinValid(s, x);
    }
  }

  /**
    Where free_block leaves a block: merged up to level j, then first on its
    list, or with the whole chunk given back to Exec.  Each level passed on the
    way lost just the buddy merged there.
   */
  lemma {:induction false} PutLists(s: Heap, x: nat, m: Block) returns (j: nat)
    requires Valid(s) && x in Blocks(s.forest) && Blocks(s.forest)[x] == m && !m.free
    ensures m.base <= x && m.pool < 2 && m.level <= j <= TOP
    ensures MergedUp(s.lists, Put(s, x).lists, m.pool, m.base, x, m.level, j)
    ensures Put(s, x).forest.Keys == if j == TOP then s.forest.Keys - {m.base} else s.forest.Keys
    ensures j == TOP ==> Climb(m.base, x, m.level, j) == m.base
    decreases TOP - m.level
  {
    PutGoes(s, x, m);
    assert Geometry(s.forest);
    hide Blocks, Put, Release, Join, Shrink, MergedUp, BuddyFree, Buddy, Geometry, Valid, Push, Drop;
    if m.level == TOP {
      j := TOP;
      ShrinkLists(s, x, m);
    } else if !BuddyFree(s, x) {
      j := m.level;
      ReleaseLists(s, x, m);
      MergedHere(s.lists, m.pool, m.base, x, m.level);
    } else {
      j := PutLists(Join(s, x), Lower(x, Buddy(m.base, x, m.level)), m.(level := m.level + 1));
      PutJoined(s, x, m, j);
    }
  }

  lemma PutJoined(s: Heap, x: nat, m: Block, j: nat)
    requires Valid(s) && x in Blocks(s.forest) && Blocks(s.forest)[x] == m && !m.free
    requires m.base <= x && m.level < j <= TOP && BuddyFree(s, x)
    requires MergedUp(Join(s, x).lists, Put(s, x).lists, m.pool, m.base, Lower(x, Buddy(m.base, x, m.level)),
                      m.level + 1, j)
    ensures m.pool < 2 && MergedUp(s.lists, Put(s, x).lists, m.pool, m.base, x, m.level, j)
    ensures Join(s, x).forest.Keys == s.forest.Keys
    ensures Climb(m.base, x, m.level, j) == Climb(m.base, Lower(x, Buddy(m.base, x, m.level)), m.level + 1, j)
  {
    hide *;
    var z := Buddy(m.base, x, m.level);
    JoinLists(s, x, m, z);
    MergedMore(s.lists, Put(s, x).lists, m.pool, m.base, x, m.level, j, z);
    ClimbOn(m.base, x, m.level, j);
  }

  lemma ShrinkLists(s: Heap, x: nat, m: Block)
    requires Valid(s) && x in Blocks(s.forest) && Blocks(s.forest)[x] == m && !m.free && m.level == TOP
    ensures m.pool < 2 && m.base == x && MergedUp(s.lists, Shrink(s, x).lists, m.pool, m.base, x, TOP, TOP)
    ensures Shrink(s, x).forest.Keys == s.forest.Keys - {x}
  {
    hide Blocks;
    BlockBounds(s.forest, x);
    ShrinkValid(s, x);
    MergedNone(s.lists, m.pool, x, x);
  }
}
