/**
  The page allocator of Mini-OS: a bitmap, free lists threaded through the free
  chunks, splitting on allocation and merging on release. Addresses are page
  numbers, and memory spans 2^top pages, of which the bitmap covers those up to
  the end of the pool.
 */
module PageAllocator {
  import opened BuddyBlocks
  import opened BuddyPool
  import opened FreeLists
  import opened AllocBitmap

  /** Page p is in block j of order k. */
  predicate InBlock(p: nat, j: nat, k: nat) {
    Base(j, k) <= p < Base(j + 1, k)
  }

  /** Block j of order k was free; now it is in no chunk, and for all other pages nothing changed. */
  predicate Taken(was: seq<int>, owner: seq<int>, j: nat, k: nat) {
    |was| == |owner| && forall p :: 0 <= p < |owner| ==>
      && (owner[p] == NONE) == (was[p] == NONE || InBlock(p, j, k))
      && (InBlock(p, j, k) ==> was[p] != NONE)
  }

  /** Listing the upper half of a taken block leaves the lower half taken. */
  lemma SplitTaken(was: seq<int>, pool: Pool, k: nat, j: nat)
    requires k < |pool.lists| && Base(2 * j + 2, k) <= |pool.owner| && Taken(was, pool.owner, j, k + 1)
    ensures Taken(was, Attach(pool, k, 2 * j + 1).owner, 2 * j, k)
  {
    BaseNext(2 * j, k);
    BaseNext(2 * j + 1, k);
  }

  /**
    Block j of order k is in no chunk. It is made of the block (j0, k0) being
    freed, which was in no chunk, and of pages that were in one; for all other
    pages nothing changed.
   */
  predicate Grown(was: seq<int>, owner: seq<int>, j0: nat, k0: nat, j: nat, k: nat) {
    |was| == |owner| && forall p :: 0 <= p < |owner| ==>
      && (owner[p] == NONE) == (was[p] == NONE || InBlock(p, j, k))
      && (InBlock(p, j0, k0) ==> InBlock(p, j, k))
      && (InBlock(p, j, k) ==> (was[p] == NONE <==> InBlock(p, j0, k0)))
  }

  /** Merging with the listed buddy grows the block. */
  lemma MergeGrown(was: seq<int>, pool: Pool, j0: nat, k0: nat, j: nat, k: nat, i: nat)
    requires PoolOk(pool) && k < FREELIST_SIZE && Grown(was, pool.owner, j0, k0, j, k)
    requires i < |pool.lists[k]| && pool.lists[k][i] == Buddy(j)
    ensures Grown(was, Detach(pool, k, i).owner, j0, k0, j / 2, k + 1)
  {
    var b := Buddy(j);
    assert ListOk(pool, k) && ChunkOk(pool, k, b);
    forall p | 0 <= p < |pool.owner| ensures InBlock(p, j / 2, k + 1) <==> InBlock(p, j, k) || InBlock(p, b, k) {
      UpIffRange(p, j / 2, k + 1);
      UpIffRange(p, j, k);
      UpIffRange(p, b, k);
      Halves(p, j, k);
    }
    forall p | 0 <= p < |pool.owner| && InBlock(p, b, k) ensures pool.owner[p] == k {
    }
  }

  /** The pages of a buddy are the neighbours of a block in the block above. */
  lemma BuddyAddress(j: nat, k: nat)
    ensures Up(Base(j, k), k) == j && !InBlock(Base(Buddy(j), k), j, k)
    ensures j % 2 == 1 ==> Base(Buddy(j), k) + Size(k) == Base(j, k) && Base(j / 2, k + 1) == Base(Buddy(j), k)
    ensures j % 2 == 0 ==> Base(Buddy(j), k) == Base(j, k) + Size(k) && Base(j / 2, k + 1) == Base(j, k)
  {
    UpBase(j, k);
    BaseNext(j, k);
    if j % 2 == 1 {
      BaseNext(j - 1, k);
    }
  }

  /** The bitmap reaches to page hi and marks exactly the pages in no chunk. */
  ghost predicate MapAgrees(words: seq<Word>, owner: seq<int>, hi: nat) {
    && hi / 64 < |words|
    && forall p :: 0 <= p < |owner| && p < 64 * |words| ==> Allocated(words, p) == (owner[p] == NONE)
  }

  /** No page of block j of order k is marked. */
  ghost predicate Unmarked(words: seq<Word>, n: nat, j: nat, k: nat) {
    Base(j + 1, k) <= n <= 64 * |words| && forall p :: InBlock(p, j, k) ==> !Allocated(words, p)
  }

  /** Only pages lo.. hi are ever in a chunk. */
  predicate Managed(owner: seq<int>, lo: nat, hi: nat) {
    forall p :: 0 <= p < |owner| && owner[p] != NONE ==> lo <= p < hi
  }

  lemma UnmarkedIsFree(words: seq<Word>, pool: Pool, lo: nat, hi: nat, j: nat, k: nat)
    requires MapAgrees(words, pool.owner, hi) && Managed(pool.owner, lo, hi) && hi <= |pool.owner|
    ensures Unmarked(words, hi, j, k) <==> BlockFree(pool, k, j)
  {
    BaseNext(j, k);
    if BlockFree(pool, k, j) {
      assert pool.owner[Base(j + 1, k) - 1] != NONE;
    }
  }

  // ----- Setting up -----

  /** Pages set aside for the bitmap: a byte for every eight pages, rounded down, then up to whole pages. */
  function BitmapPages(maxPage: nat): (n: nat) {
    (maxPage / 8 + 4095) / 4096
  }

  /** That bitmap has a bit for every page exactly unless one to seven pages are left over past its last full page. */
  lemma BitmapCovers(maxPage: nat)
    ensures 32768 * BitmapPages(maxPage) >= maxPage <==> maxPage % 32768 == 0 || maxPage % 32768 >= 8
    ensures 32768 * BitmapPages(32769) < 32769
  {
    BitmapRounds(maxPage);
  }

  lemma BitmapRounds(maxPage: nat)
    ensures BitmapPages(maxPage) == maxPage / 32768 + if maxPage % 32768 >= 8 then 1 else 0
  {
    var q, r := maxPage / 32768, maxPage % 32768;
    assert maxPage / 8 == 4096 * q + r / 8;
    assert BitmapPages(maxPage) == q + (r / 8 + 4095) / 4096;
  }

  /** Words of the bitmap that the code reads or writes: up to that of the page behind the last one. */
  function WordsUsed(maxPage: nat): (n: nat) {
    maxPage / 64 + 1
  }

  /**
    The bitmap has all the words used exactly unless at most seven pages are
    left over. Otherwise one word is missing, and what lies in its place is the
    first word of the first page put into the pool.
   */
  lemma BitmapInBounds(minPage: nat, maxPage: nat)
    ensures WordsUsed(maxPage) <= 512 * BitmapPages(maxPage) <==> maxPage % 32768 >= 8
    ensures WordsUsed(maxPage) > 512 * BitmapPages(maxPage) ==>
              && WordsUsed(maxPage) == 512 * BitmapPages(maxPage) + 1
              && 512 * minPage + maxPage / 64 == 512 * (minPage + BitmapPages(maxPage))
  {
    BitmapRounds(maxPage);
    var q, r := maxPage / 32768, maxPage % 32768;
    assert maxPage / 64 == 512 * q + r / 64;
  }

  /** Exactly pages lo.. cur are in a chunk. */
  predicate Placed(pool: Pool, lo: nat, cur: nat) {
    forall p :: 0 <= p < |pool.owner| ==> (pool.owner[p] != NONE) == (lo <= p < cur)
  }

  /** A chunk in the lower half of its parent is there because the parent does not fit before hi. */
  predicate CutAt(hi: nat, k: nat, j: nat) {
    j % 2 == 0 ==> Base(j + 2, k) > hi
  }

  predicate CutGreedily(pool: Pool, hi: nat) {
    forall k, j :: 0 <= k < |pool.lists| && j in pool.lists[k] ==> CutAt(hi, k, j)
  }

  /** The next chunk of the cut is unowned and its buddy is not listed. */
  lemma PlaceOk(pool: Pool, lo: nat, cur: nat, hi: nat, k: nat, j: nat)
    requires PoolOk(pool) && Placed(pool, lo, cur) && CutGreedily(pool, hi) && k < FREELIST_SIZE
    requires lo <= cur == Base(j, k) && Base(j + 1, k) <= hi <= |pool.owner|
    requires j % 2 == 0 ==> Base(j + 2, k) > hi
    ensures Painted(pool.owner, j, k, NONE) && Buddy(j) !in pool.lists[k]
    ensures Placed(Attach(pool, k, j), lo, Base(j + 1, k)) && CutGreedily(Attach(pool, k, j), hi)
  {
    BaseNext(j, k);
    if j % 2 == 1 {
      assert j - 1 in pool.lists[k] ==> CutAt(hi, k, j - 1);
    } else {
      UnownedNotListed(pool, k, j + 1);
    }
    var r := Attach(pool, k, j);
    forall k', j' | 0 <= k' < |r.lists| && j' in r.lists[k'] ensures CutAt(hi, k', j') {
      assert (k', j') == (k, j) || j' in pool.lists[k'];
    }
  }

  class Allocator {
    const top: nat
    const lo: nat
    const hi: nat
    const bitmap: Bitmap
    var lists: Lists
    ghost var pool: Pool

    /** All that does not concern the bitmap. */
    ghost predicate Pooled()
      reads this
    {
      && top < FREELIST_SIZE && 0 < lo <= hi <= Size(top) == |pool.owner|
      && PoolOk(pool) && AllLinked(lists, pool) && Managed(pool.owner, lo, hi)
    }

    ghost predicate Valid()
      reads this, bitmap, bitmap.words
    {
      Pooled() && MapAgrees(bitmap.words[..], pool.owner, hi)
    }

    /** Block j of order k has been taken out of the lists. */
    ghost predicate Detached(j: nat, k: nat)
      reads this
    {
      Painted(pool.owner, j, k, NONE) && lo <= Base(j, k) && Base(j + 1, k) <= hi
    }

    /** Splits a detached block down to the order asked for, listing the upper halves. */
    method Split(i0: nat, order: nat, page: nat, ghost j0: nat, ghost was: seq<int>) returns (ghost j: nat)
      requires Pooled() && order <= i0 < FREELIST_SIZE && page == Base(j0, i0) && Detached(j0, i0)
      requires Taken(was, pool.owner, j0, i0)
      modifies this`lists, this`pool
      ensures Pooled() && page == Base(j, order) && Detached(j, order) && Taken(was, pool.owner, j, order)
    {
      var i := i0;
      j := j0;
      while i != order
        invariant order <= i < FREELIST_SIZE && page == Base(j, i)
        invariant Pooled() && Detached(j, i) && Taken(was, pool.owner, j, i)
      {
        i := i - 1;
        SplitOk(pool, i, j);
        PushAll(lists, pool, i, 2 * j + 1);
        SplitTaken(was, pool, i, j);
        BaseNext(2 * j, i);
        BaseNext(2 * j + 1, i);
        var spare := page + Size(i);
        lists := Push(lists, i, spare);
        pool := Attach(pool, i, 2 * j + 1);
        j := 2 * j;
      }
    }

    /**
      Allocates 2^order pages, or returns 0. It fails exactly when no aligned
      block of that size is free, and otherwise marks one such block and no
      other page. The block is cut from the smallest order that has a chunk.
     */
    method AllocPages(order: nat) returns (page: nat, ghost j: nat, ghost from: nat)
      requires Valid() && order <= FREELIST_SIZE
      modifies this`lists, this`pool, bitmap.words
      ensures Valid()
      ensures page == 0 <==> forall b :: !Unmarked(old(bitmap.words[..]), hi, b, order)
      ensures page != 0 ==> page == Base(j, order) && Unmarked(old(bitmap.words[..]), hi, j, order)
      ensures page != 0 ==> order <= from < FREELIST_SIZE && old(pool.lists)[from] != []
      ensures page != 0 ==> page == Base(old(pool.lists)[from][0], from)
      ensures page != 0 ==> forall k :: order <= k < from ==> old(pool.lists)[k] == []
      ensures forall p :: 0 <= p < 64 * bitmap.words.Length ==>
                Allocated(bitmap.words[..], p)
                == (old(Allocated(bitmap.words[..], p)) || (page != 0 && InBlock(p, j, order)))
    {
      ghost var was := pool;
      ghost var words := bitmap.words[..];
      RequestMetExactlyWhenFree(pool, order);
      forall b: nat ensures Unmarked(words, hi, b, order) <==> BlockFree(pool, order, b) {
        UnmarkedIsFree(words, pool, lo, hi, b, order);
      }
      var i := order;
      while i < FREELIST_SIZE && lists.head[i].Tail?
        invariant order <= i <= FREELIST_SIZE
        invariant forall k :: order <= k < i ==> pool.lists[k] == []
      {
        assert Linked(lists, pool.lists[i], i);
        i := i + 1;
      }
      if i == FREELIST_SIZE {
        return 0, 0, 0;
      }
      from := i;
      assert Linked(lists, pool.lists[i], i);
      ghost var j0 := pool.lists[i][0];
      page := lists.head[i].page;
      TakeFirst(i, page);
      j := Split(i, order, page, j0, was.owner);
      BaseNext(j, order);
      assert BlockFree(was, order, j);
      bitmap.MapAlloc(page, Size(order));
    }

    /** Unlinks the first chunk of a list that has one. */
    method TakeFirst(i: nat, page: nat)
      requires Pooled() && i < FREELIST_SIZE && pool.lists[i] != [] && page == Base(pool.lists[i][0], i)
      modifies this`lists, this`pool
      ensures Pooled() && Detached(old(pool.lists[i][0]), i)
      ensures Taken(old(pool.owner), pool.owner, old(pool.lists[i][0]), i)
    {
      ghost var j := pool.lists[i][0];
      ListedFirst(pool, i, j);
      BaseNext(j, i);
      assert ListOk(pool, i) && ChunkOk(pool, i, j);
      assert pool.owner[Base(j + 1, i) - 1] == i;
      UnlinkAll(lists, pool, i, 0);
      DetachOk(pool, i, 0);
      lists := Unlink(lists, page);
      pool := Detach(pool, i, 0);
    }

    /** Merges a detached block with its buddy as long as that is a chunk of the same order. */
    method Merge(page: nat, order: nat, ghost j0: nat, ghost was: seq<int>)
      returns (freed: nat, level: nat, ghost j: nat)
      requires Pooled() && order < FREELIST_SIZE && page == Base(j0, order) && Detached(j0, order)
      requires Grown(was, pool.owner, j0, order, j0, order) && hi / 64 < bitmap.words.Length
      requires forall p :: 0 <= p < |was| && p < 64 * bitmap.words.Length ==>
                 Allocated(bitmap.words[..], p) == (was[p] == NONE && !InBlock(p, j0, order))
      modifies this`lists, this`pool
      ensures Pooled() && level < FREELIST_SIZE && freed == Base(j, level) && Detached(j, level)
      ensures Grown(was, pool.owner, j0, order, j, level) && Buddy(j) !in pool.lists[level]
    {
      freed, level, j := page, order, j0;
      while level < FREELIST_SIZE
        invariant level < FREELIST_SIZE && freed == Base(j, level)
        invariant Pooled() && Detached(j, level) && Grown(was, pool.owner, j0, order, j, level)
        decreases FREELIST_SIZE - level
      {
        BuddyAddress(j, level);
        InRange(j, level);
        BuddyTest(lists, pool, level, j);
        var mask := Size(level);
        var toMerge := if Up(freed, level) % 2 == 1 then freed - mask else freed + mask;
        assert toMerge == Base(Buddy(j), level) && !InBlock(toMerge, j, level);
        if Allocated(bitmap.words[..], toMerge) || lists.mem[toMerge].level != level {
          return;
        }
        if Up(freed, level) % 2 == 1 {
          freed := toMerge;
        }
        MergeStep(j, level, toMerge, j0, order, was);
        j, level := j / 2, level + 1;
      }
    }

    /** A managed block is below the order of the whole span, so its buddy is in it and starts no later than hi. */
    lemma InRange(j: nat, k: nat)
      requires Pooled() && Detached(j, k)
      ensures k < top && Base(Buddy(j), k) < |pool.owner| && Base(Buddy(j), k) <= hi
      ensures Base(Buddy(j) + 1, k) <= |pool.owner|
    {
      BuddyAddress(j, k);
      BaseNext(j, k);
      BaseZero(k);
      InnerBlock(j, k, top);
      BaseNext(Buddy(j), k);
    }

    /** Unlinks the buddy, a chunk of the same order, and joins it to the block. */
    method MergeStep(ghost j: nat, level: nat, toMerge: nat, ghost j0: nat, ghost k0: nat, ghost was: seq<int>)
      requires Pooled() && level < FREELIST_SIZE && Detached(j, level) && Grown(was, pool.owner, j0, k0, j, level)
      requires Buddy(j) in pool.lists[level] && toMerge == Base(Buddy(j), level)
      modifies this`lists, this`pool
      ensures Pooled() && level + 1 < FREELIST_SIZE && Detached(j / 2, level + 1)
      ensures Grown(was, pool.owner, j0, k0, j / 2, level + 1)
    {
      InRange(j, level);
      ghost var i := Listed(pool.lists[level], Buddy(j));
      MergeOk(pool, level, j, i);
      MergeGrown(was, pool, j0, k0, j, level, i);
      UnlinkAll(lists, pool, level, i);
      BuddyManaged(j, level);
      lists := Unlink(lists, toMerge);
      pool := Detach(pool, level, i);
    }

    /** A listed buddy is managed, so the merged block is. */
    lemma BuddyManaged(j: nat, k: nat)
      requires Pooled() && k < FREELIST_SIZE && Detached(j, k) && Buddy(j) in pool.lists[k]
      ensures lo <= Base(j / 2, k + 1) && Base(j / 2 + 1, k + 1) <= hi
    {
      var b := Buddy(j);
      assert ListOk(pool, k) && ChunkOk(pool, k, b);
      BaseNext(b, k);
      BaseNext(j, k);
      BuddyAddress(j, k);
      assert pool.owner[Base(b, k)] == k && pool.owner[Base(b + 1, k) - 1] == k;
    }

    /** Returns block j0 of the given order, all of whose pages are allocated, and merges what it can. */
    method FreePages(page: nat, order: nat, ghost j0: nat)
      requires Valid() && order < FREELIST_SIZE && page == Base(j0, order)
      requires lo <= Base(j0, order) && Base(j0 + 1, order) <= hi
      requires forall p :: InBlock(p, j0, order) ==> Allocated(bitmap.words[..], p)
      modifies this`lists, this`pool, bitmap.words
      ensures Valid()
      ensures forall p :: 0 <= p < 64 * bitmap.words.Length ==>
                Allocated(bitmap.words[..], p) == (old(Allocated(bitmap.words[..], p)) && !InBlock(p, j0, order))
    {
      ghost var was := pool.owner;
      BaseNext(j0, order);
      assert Detached(j0, order);
      bitmap.MapFree(page, Size(order));
      var freed, level;
      ghost var j;
      freed, level, j := Merge(page, order, j0, was);
      PushAll(lists, pool, level, j);
      AttachOk(pool, level, j);
      lists := Push(lists, level, freed);
      pool := Attach(pool, level, j);
    }

    /** The owner of allocated pages, or of pages past the pool, may write what it likes over their headers. */
    method UserWrite(p: nat, h: Header)
      requires Valid() && p < Size(top) && (p < hi ==> Allocated(bitmap.words[..], p))
      modifies this`lists
      ensures Valid() && lists.head == old(lists.head) && lists.mem == old(lists.mem)[p := h]
    {
      ScribbleAll(lists, pool, p, h);
      lists := lists.(mem := lists.mem[p := h]);
    }

    /**
      Places pages lo.. hi in the pool, cut into the largest aligned chunks that
      fit from left to right. Memory may hold anything beforehand. The bitmap is
      the one the source lays out, and the word it lacks for some sizes is added.
     */
    constructor (minPage: nat, maxPage: nat, top: nat, mem: seq<Header>)
      requires top < FREELIST_SIZE && |mem| == Size(top)
      requires 0 < minPage + BitmapPages(maxPage) <= maxPage <= Size(top)
      ensures Valid() && fresh(bitmap) && fresh(bitmap.words)
      ensures this.top == top && lo == minPage + BitmapPages(maxPage) && hi == maxPage
      ensures maxPage % 32768 >= 8 ==> bitmap.words.Length == 512 * BitmapPages(maxPage)
      ensures maxPage % 32768 < 8 ==> bitmap.words.Length == 512 * BitmapPages(maxPage) + 1
      ensures forall p :: 0 <= p < 64 * bitmap.words.Length ==> Allocated(bitmap.words[..], p) == !(lo <= p < hi)
    {
      this.top := top;
      lo, hi := minPage + BitmapPages(maxPage), maxPage;
      BitmapInBounds(minPage, maxPage);
      bitmap := new Bitmap(if maxPage % 32768 >= 8 then 512 * BitmapPages(maxPage) else WordsUsed(maxPage));
      lists := Lists(seq(FREELIST_SIZE, (i: nat) => Tail(i)), seq(FREELIST_SIZE, (i: nat) => HeadOf(i)), mem);
      pool := Pool(seq(FREELIST_SIZE, _ => []), seq(Size(top), _ => NONE));
      new;
      assert forall p :: 0 <= p < 64 * bitmap.words.Length ==> Allocated(bitmap.words[..], p);
      bitmap.MapFree(lo, hi - lo);
      ghost var words := bitmap.words[..];
      var cur, range := lo, hi - lo;
      while range != 0
        invariant lo <= cur <= hi == cur + range
        invariant Pooled() && Placed(pool, lo, cur) && CutGreedily(pool, hi)
        invariant bitmap.words[..] == words
        decreases range
      {
        cur, range := PlaceChunk(cur, range);
      }
    }

    /** The largest order at which the range starts aligned and into which it fits. */
    method ChunkOrder(cur: nat, range: nat) returns (i: nat)
      requires 0 < range && cur + range <= hi && Pooled()
      ensures i <= top && Base(Up(cur, i), i) == cur && Size(i) <= range
      ensures Up(cur, i) % 2 == 1 || range < Size(i + 1)
    {
      i := 0;
      while Size(i + 1) <= range && Up(cur, i) % 2 == 0
        invariant Base(Up(cur, i), i) == cur && Size(i) <= range
        invariant i <= top
        decreases top - i
      {
        i := i + 1;
        if top < i {
          SizeMono(top, i);
        }
      }
    }

    method PlaceChunk(cur: nat, range: nat) returns (cur': nat, range': nat)
      requires 0 < range && lo <= cur && cur + range == hi
      requires Pooled() && Placed(pool, lo, cur) && CutGreedily(pool, hi)
      modifies this`lists, this`pool
      ensures cur < cur' && cur' + range' == hi
      ensures Pooled() && Placed(pool, lo, cur') && CutGreedily(pool, hi)
    {
      var i := ChunkOrder(cur, range);
      ghost var j := Up(cur, i);
      BaseNext(j, i);
      BaseNext(j + 1, i);
      SizeDoubles(i);
      PlaceOk(pool, lo, cur, hi, i, j);
      PushAll(lists, pool, i, j);
      AttachOk(pool, i, j);
      lists := Push(lists, i, cur);
      pool := Attach(pool, i, j);
      cur', range' := cur + Size(i), range - Size(i);
    }
  }
}
