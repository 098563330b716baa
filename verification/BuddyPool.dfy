/**
  The buddy allocator's pool on values: for every order the numbers of its free
  chunks, and for every page the order of the free chunk that holds it. Taking
  chunks out, putting them back, splitting and merging keep the pool in order,
  and then no free aligned block is ever hidden from the free lists.
 */
module BuddyPool {
  import opened Common
  import opened BuddyBlocks

  const FREELIST_SIZE: nat := 52
  const NONE: int := -1

  datatype Pool = Pool(lists: seq<seq<nat>>, owner: seq<int>)

  /** A page belongs to no free chunk, or to the one of its recorded order. */
  predicate Owned(pool: Pool, p: nat)
    requires |pool.lists| == FREELIST_SIZE && p < |pool.owner|
  {
    pool.owner[p] == NONE ||
    (0 <= pool.owner[p] < FREELIST_SIZE && Up(p, pool.owner[p]) in pool.lists[pool.owner[p]])
  }

  /** All pages of block j of order k carry v. */
  predicate Painted(owner: seq<int>, j: nat, k: nat, v: int) {
    Base(j + 1, k) <= |owner| && forall p :: Base(j, k) <= p < Base(j + 1, k) ==> owner[p] == v
  }

  /** A listed chunk lies in the span, owns its pages, and its buddy is not listed beside it. */
  predicate ChunkOk(pool: Pool, k: nat, j: nat)
    requires k < |pool.lists|
  {
    Painted(pool.owner, j, k, k) && Buddy(j) !in pool.lists[k]
  }

  predicate ListOk(pool: Pool, k: nat)
    requires k < |pool.lists|
  {
    Distinct(pool.lists[k]) && forall j :: j in pool.lists[k] ==> ChunkOk(pool, k, j)
  }

  predicate PoolOk(pool: Pool) {
    && |pool.lists| == FREELIST_SIZE
    && (forall p :: 0 <= p < |pool.owner| ==> Owned(pool, p))
    && (forall k :: 0 <= k < FREELIST_SIZE ==> ListOk(pool, k))
  }

  // ----- Taking out and putting back -----

  function Paint(owner: seq<int>, j: nat, k: nat, v: int): (r: seq<int>)
    requires Base(j + 1, k) <= |owner|
  {
    seq(|owner|, p requires 0 <= p < |owner| => if Base(j, k) <= p < Base(j + 1, k) then v else owner[p])
  }

  function Detach(pool: Pool, k: nat, i: nat): (r: Pool)
    requires PoolOk(pool) && k < FREELIST_SIZE && i < |pool.lists[k]|
  {
    var j := pool.lists[k][i];
    assert ListOk(pool, k) && ChunkOk(pool, k, j);
    Pool(pool.lists[k := RemoveAt(pool.lists[k], i)], Paint(pool.owner, j, k, NONE))
  }

  function Attach(pool: Pool, k: nat, j: nat): (r: Pool)
    requires k < |pool.lists| && Base(j + 1, k) <= |pool.owner|
  {
    Pool(pool.lists[k := [j] + pool.lists[k]], Paint(pool.owner, j, k, k))
  }

  lemma WithoutMembers(s: seq<nat>, i: nat)
    requires i < |s| && Distinct(s)
    ensures Distinct(RemoveAt(s, i))
    ensures forall x :: x in RemoveAt(s, i) <==> x in s && x != s[i]
  {
    var r := RemoveAt(s, i);
    forall x | x in s && x != s[i] ensures x in r {
      var a :| 0 <= a < |s| && s[a] == x;
      assert r[if a < i then a else a - 1] == x;
    }
  }

  lemma ListedOwns(pool: Pool, k: nat, j: nat, p: nat)
    requires PoolOk(pool) && k < FREELIST_SIZE && j in pool.lists[k] && Up(p, k) == j
    ensures p < |pool.owner| && pool.owner[p] == k
  {
    assert ListOk(pool, k) && ChunkOk(pool, k, j);
    UpIffRange(p, j, k);
  }

  /** A block whose first page is not in a chunk of its order is not listed. */
  lemma UnownedNotListed(pool: Pool, k: nat, j: nat)
    requires PoolOk(pool) && k < FREELIST_SIZE
    requires Base(j, k) < |pool.owner| ==> pool.owner[Base(j, k)] != k
    ensures j !in pool.lists[k]
  {
    UpBase(j, k);
    if j in pool.lists[k] {
      ListedOwns(pool, k, j, Base(j, k));
    }
  }

  lemma BuddiesNotBothListed(pool: Pool, k: nat, j: nat)
    requires PoolOk(pool) && k < FREELIST_SIZE
    ensures !(2 * j in pool.lists[k] && 2 * j + 1 in pool.lists[k])
  {
    assert ListOk(pool, k);
    assert 2 * j in pool.lists[k] ==> ChunkOk(pool, k, 2 * j);
  }

  /** Different listed chunks have no page in common. */
  lemma ChunksDisjoint(pool: Pool, k: nat, j: nat, k': nat, j': nat, p: nat)
    requires PoolOk(pool) && k < FREELIST_SIZE && k' < FREELIST_SIZE
    requires j in pool.lists[k] && j' in pool.lists[k'] && (k, j) != (k', j')
    requires Base(j, k) <= p < Base(j + 1, k)
    ensures !(Base(j', k') <= p < Base(j' + 1, k'))
  {
    assert ListOk(pool, k) && ChunkOk(pool, k, j);
    assert ListOk(pool, k') && ChunkOk(pool, k', j');
    UpIffRange(p, j, k);
    UpIffRange(p, j', k');
    assert pool.owner[p] == k;
  }

  lemma DetachOk(pool: Pool, k: nat, i: nat)
    requires PoolOk(pool) && k < FREELIST_SIZE && i < |pool.lists[k]|
    ensures PoolOk(Detach(pool, k, i))
    ensures Painted(Detach(pool, k, i).owner, pool.lists[k][i], k, NONE)
  {
    var j, r := pool.lists[k][i], Detach(pool, k, i);
    assert ListOk(pool, k) && ChunkOk(pool, k, j);
    WithoutMembers(pool.lists[k], i);
    forall p | 0 <= p < |r.owner| ensures Owned(r, p) {
      assert Owned(pool, p);
      UpIffRange(p, j, k);
    }
    forall k' | 0 <= k' < FREELIST_SIZE ensures ListOk(r, k') {
      assert ListOk(pool, k');
      forall j' | j' in r.lists[k'] ensures ChunkOk(r, k', j') {
        assert ChunkOk(pool, k', j');
        forall p | Base(j', k') <= p < Base(j' + 1, k') ensures r.owner[p] == k' {
          ChunksDisjoint(pool, k', j', k, j, p);
        }
      }
    }
  }

  /** A block of pages that belong to no chunk may be listed when its buddy is not. */
  lemma AttachOk(pool: Pool, k: nat, j: nat)
    requires PoolOk(pool) && k < FREELIST_SIZE && Painted(pool.owner, j, k, NONE)
    requires Buddy(j) !in pool.lists[k]
    ensures PoolOk(Attach(pool, k, j))
  {
    var r := Attach(pool, k, j);
    BaseNext(j, k);
    UnownedNotListed(pool, k, j);
    forall p | 0 <= p < |r.owner| ensures Owned(r, p) {
      assert Owned(pool, p);
      UpIffRange(p, j, k);
    }
    forall k' | 0 <= k' < FREELIST_SIZE ensures ListOk(r, k') {
      assert ListOk(pool, k');
      forall j' | j' in r.lists[k'] ensures ChunkOk(r, k', j') {
        if (k', j') != (k, j) {
          assert ChunkOk(pool, k', j');
          forall p | Base(j', k') <= p < Base(j' + 1, k') ensures r.owner[p] == k' {
            assert pool.owner[p] == k';
          }
        }
      }
    }
  }

  // ----- Splitting and merging -----

  /** The upper half of a detached block may be listed; the lower half stays detached. */
  lemma SplitOk(pool: Pool, k: nat, j: nat)
    requires PoolOk(pool) && k < FREELIST_SIZE && Painted(pool.owner, j, k + 1, NONE)
    ensures Base(2 * j + 2, k) <= |pool.owner| && Painted(pool.owner, 2 * j + 1, k, NONE)
    ensures var r := Attach(pool, k, 2 * j + 1);
      PoolOk(r) && Painted(r.owner, 2 * j, k, NONE)
  {
    BaseNext(2 * j, k);
    BaseNext(2 * j + 1, k);
    assert Painted(pool.owner, 2 * j + 1, k, NONE);
    UnownedNotListed(pool, k, 2 * j);
    AttachOk(pool, k, 2 * j + 1);
  }

  /** A detached block and its listed buddy, taken out, make the detached block above. */
  lemma MergeOk(pool: Pool, k: nat, j: nat, i: nat)
    requires PoolOk(pool) && k < FREELIST_SIZE && Painted(pool.owner, j, k, NONE)
    requires i < |pool.lists[k]| && pool.lists[k][i] == Buddy(j)
    ensures var r := Detach(pool, k, i);
      PoolOk(r) && Painted(r.owner, j / 2, k + 1, NONE)
  {
    DetachOk(pool, k, i);
    var r, b := Detach(pool, k, i), Buddy(j);
    assert ListOk(pool, k) && ChunkOk(pool, k, b);
    forall p | Base(j / 2, k + 1) <= p < Base(j / 2 + 1, k + 1) ensures p < |r.owner| && r.owner[p] == NONE {
      UpIffRange(p, j / 2, k + 1);
      Halves(p, j, k);
      UpIffRange(p, j, k);
      UpIffRange(p, b, k);
    }
  }

  // ----- No free block is hidden -----

  /** Every page of block j of order k is in a free chunk. */
  predicate BlockFree(pool: Pool, k: nat, j: nat) {
    Base(j + 1, k) <= |pool.owner| && forall p :: Base(j, k) <= p < Base(j + 1, k) ==> pool.owner[p] != NONE
  }

  /** A chunk at least as large as a block, and holding one of its pages, holds it all. */
  lemma ChunkHoldsBlock(pool: Pool, k: nat, j: nat, p: nat, q: nat)
    requires PoolOk(pool) && BlockFree(pool, k, j)
    requires Base(j, k) <= p < Base(j + 1, k) && Base(j, k) <= q < Base(j + 1, k)
    requires pool.owner[p] >= k
    ensures pool.owner[q] == pool.owner[p] && Up(q, pool.owner[p]) == Up(p, pool.owner[p])
  {
    var o := pool.owner[p];
    assert Owned(pool, p);
    UpIffRange(p, j, k);
    UpIffRange(q, j, k);
    UpCoarser(p, q, k, o);
    var c := Up(p, o);
    assert ListOk(pool, o) && ChunkOk(pool, o, c);
    UpIffRange(q, c, o);
  }

  /** A free aligned block lies within one free chunk, because free buddies never stay apart. */
  lemma {:induction false} FreeBlockHeld(pool: Pool, k: nat, j: nat, p: nat)
    requires PoolOk(pool) && BlockFree(pool, k, j) && Base(j, k) <= p < Base(j + 1, k)
    ensures k <= pool.owner[p] < FREELIST_SIZE && Up(p, pool.owner[p]) in pool.lists[pool.owner[p]]
    decreases k
  {
    assert Owned(pool, p);
    if k > 0 {
      BaseNext(2 * j, k - 1);
      BaseNext(2 * j + 1, k - 1);
      var lo, hi := Base(2 * j, k - 1), Base(2 * j + 1, k - 1);
      FreeBlockHeld(pool, k - 1, 2 * j, lo);
      FreeBlockHeld(pool, k - 1, 2 * j + 1, hi);
      UpBase(2 * j, k - 1);
      UpBase(2 * j + 1, k - 1);
      BuddiesNotBothListed(pool, k - 1, j);
      if pool.owner[lo] >= k {
        ChunkHoldsBlock(pool, k, j, lo, p);
      } else {
        ChunkHoldsBlock(pool, k, j, hi, p);
      }
    }
  }

  /**
    A request can be met from the lists exactly when some aligned free block of
    its size exists.
   */
  lemma RequestMetExactlyWhenFree(pool: Pool, order: nat)
    requires PoolOk(pool)
    ensures (exists k :: order <= k < FREELIST_SIZE && pool.lists[k] != []) <==> (exists j :: BlockFree(pool, order, j))
  {
    if k :| order <= k < FREELIST_SIZE && pool.lists[k] != [] {
      var c := pool.lists[k][0];
      assert ListOk(pool, k) && ChunkOk(pool, k, c);
      var j := Up(Base(c, k), order);
      BaseFiner(c, order, k);
      BaseNext(c, k);
      BaseNext(j, order);
      SizeMono(order, k);
      assert BlockFree(pool, order, j);
    }
    if j :| BlockFree(pool, order, j) {
      BaseNext(j, order);
      FreeBlockHeld(pool, order, j, Base(j, order));
    }
  }

  /** The order of the chunk that holds a page depends on nothing but which pages are free. */
  lemma OwnerNotSmaller(a: Pool, b: Pool, p: nat)
    requires PoolOk(a) && PoolOk(b) && |a.owner| == |b.owner| && p < |a.owner| && b.owner[p] != NONE
    requires forall q :: 0 <= q < |a.owner| ==> (a.owner[q] == NONE <==> b.owner[q] == NONE)
    ensures a.owner[p] >= b.owner[p]
  {
    assert Owned(b, p);
    var k := b.owner[p];
    var j := Up(p, k);
    assert ListOk(b, k) && ChunkOk(b, k, j);
    UpIffRange(p, j, k);
    assert BlockFree(a, k, j) by {
      forall q | Base(j, k) <= q < Base(j + 1, k) ensures a.owner[q] != NONE {
        assert b.owner[q] == k;
      }
    }
    FreeBlockHeld(a, k, j, p);
  }

  /**
    The chunks are determined by the free pages alone. Whatever was allocated
    and released in between, the same free pages mean the same chunks.
   */
  lemma ChunksAreCanonical(a: Pool, b: Pool)
    requires PoolOk(a) && PoolOk(b) && |a.owner| == |b.owner|
    requires forall q :: 0 <= q < |a.owner| ==> (a.owner[q] == NONE <==> b.owner[q] == NONE)
    ensures a.owner == b.owner
    ensures forall k, j :: 0 <= k < FREELIST_SIZE ==> (j in a.lists[k] <==> j in b.lists[k])
  {
    forall p | 0 <= p < |a.owner| ensures a.owner[p] == b.owner[p] {
      if a.owner[p] != NONE {
        OwnerNotSmaller(a, b, p);
        OwnerNotSmaller(b, a, p);
      }
    }
    forall k, j | 0 <= k < FREELIST_SIZE ensures j in a.lists[k] <==> j in b.lists[k] {
      if j in a.lists[k] {
        SameOwnerListed(a, b, k, j);
      }
      if j in b.lists[k] {
        SameOwnerListed(b, a, k, j);
      }
    }
  }

  lemma SameOwnerListed(a: Pool, b: Pool, k: nat, j: nat)
    requires PoolOk(a) && PoolOk(b) && a.owner == b.owner && k < FREELIST_SIZE && j in a.lists[k]
    ensures j in b.lists[k]
  {
    UpBase(j, k);
    ListedOwns(a, k, j, Base(j, k));
    assert Owned(b, Base(j, k));
  }

  // ----- The buddy test of free_pages -----

  /**
    While block j of order k is detached, a page at its buddy's start that is in
    some chunk starts that chunk, and the chunk is no larger than the buddy.
   */
  lemma BuddyPageIsHead(pool: Pool, k: nat, j: nat)
    requires PoolOk(pool) && k < FREELIST_SIZE && Painted(pool.owner, j, k, NONE)
    requires Base(Buddy(j), k) < |pool.owner| && pool.owner[Base(Buddy(j), k)] != NONE
    ensures var b := Base(Buddy(j), k);
      && 0 <= pool.owner[b] <= k && Base(Up(b, pool.owner[b]), pool.owner[b]) == b
      && Up(b, pool.owner[b]) in pool.lists[pool.owner[b]]
  {
    var b := Base(Buddy(j), k);
    var o := pool.owner[b];
    assert Owned(pool, b);
    var p := Base(j, k);
    BaseNext(j, k);
    assert pool.owner[p] == NONE;
    UpBase(j, k);
    UpBase(Buddy(j), k);
    assert Up(p, k + 1) == Up(b, k + 1);
    if o > k {
      UpCoarser(p, b, k + 1, o);
      ListedOwns(pool, o, Up(b, o), p);
    } else {
      BaseFiner(Buddy(j), o, k);
    }
  }
}
