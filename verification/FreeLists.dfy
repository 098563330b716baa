/**
  The free lists as they are stored: list heads and tail sentinels, and a header
  in the first page of every free chunk. A header points forward to a chunk or
  to the sentinel of its list, and back to whatever points at it.
 */
module FreeLists {
  import opened Common
  import opened BuddyBlocks
  import opened BuddyPool

  datatype Node = Chunk(page: nat) | Tail(order: nat)
  datatype Slot = HeadOf(order: nat) | NextOf(page: nat)
  datatype Header = Header(next: Node, pprev: Slot, level: int)

  /** free_head, the pprev fields of free_tail, and the header at each page. */
  datatype Lists = Lists(head: seq<Node>, tail: seq<Slot>, mem: seq<Header>)

  predicate Sized(l: Lists, n: nat) {
    |l.head| == |l.tail| == FREELIST_SIZE && |l.mem| == n
  }

  // ----- Link updates -----

  /** *slot = node */
  function SetNext(l: Lists, slot: Slot, node: Node): (r: Lists) {
    match slot
    case HeadOf(k) => if k < |l.head| then l.(head := l.head[k := node]) else l
    case NextOf(p) => if p < |l.mem| then l.(mem := l.mem[p := l.mem[p].(next := node)]) else l
  }

  /** node->pprev = slot */
  function SetPprev(l: Lists, node: Node, slot: Slot): (r: Lists) {
    match node
    case Tail(k) => if k < |l.tail| then l.(tail := l.tail[k := slot]) else l
    case Chunk(p) => if p < |l.mem| then l.(mem := l.mem[p := l.mem[p].(pprev := slot)]) else l
  }

  /** Links a chunk in at the head of list k. */
  function Push(l: Lists, k: nat, page: nat): (r: Lists)
    requires k < |l.head| && page < |l.mem|
  {
    var l1 := l.(mem := l.mem[page := Header(l.head[k], HeadOf(k), k)]);
    var l2 := SetPprev(l1, l.head[k], NextOf(page));
    l2.(head := l2.head[k := Chunk(page)])
  }

  /** Links a chunk out of its list. */
  function Unlink(l: Lists, page: nat): (r: Lists)
    requires page < |l.mem|
  {
    var h := l.mem[page];
    SetPprev(SetNext(l, h.pprev, h.next), h.next, h.pprev)
  }

  // ----- Lists in order -----

  function NodeAt(list: seq<nat>, k: nat, i: nat): (n: Node) {
    if i < |list| then Chunk(Base(list[i], k)) else Tail(k)
  }

  function SlotAt(list: seq<nat>, k: nat, i: nat): (s: Slot)
    requires i <= |list|
  {
    if i == 0 then HeadOf(k) else NextOf(Base(list[i - 1], k))
  }

  /** The header of chunk i of list k names its neighbours and its order. */
  predicate NodeOk(mem: seq<Header>, list: seq<nat>, k: nat, i: nat)
    requires i < |list|
  {
    Base(list[i], k) < |mem| && mem[Base(list[i], k)] == Header(NodeAt(list, k, i + 1), SlotAt(list, k, i), k)
  }

  predicate Linked(l: Lists, list: seq<nat>, k: nat)
    requires k < |l.head| == |l.tail|
  {
    && l.head[k] == NodeAt(list, k, 0) && l.tail[k] == SlotAt(list, k, |list|)
    && forall i :: 0 <= i < |list| ==> NodeOk(l.mem, list, k, i)
  }

  lemma {:induction false} BaseInjective(a: nat, b: nat, k: nat)
    requires Base(a, k) == Base(b, k)
    ensures a == b
  {
    UpBase(a, k);
    UpBase(b, k);
  }

  lemma PushLinked(l: Lists, list: seq<nat>, k: nat, j: nat)
    requires k < |l.head| == |l.tail| && Linked(l, list, k) && Distinct(list) && j !in list && Base(j, k) < |l.mem|
    ensures Linked(Push(l, k, Base(j, k)), [j] + list, k)
  {
    var page, longer := Base(j, k), [j] + list;
    var r := Push(l, k, page);
    if list != [] && Base(list[0], k) == page {
      BaseInjective(list[0], j, k);
    }
    forall i | 0 <= i < |longer| ensures NodeOk(r.mem, longer, k, i) {
      if i > 0 {
        assert NodeOk(l.mem, list, k, i - 1);
        assert longer[i] == list[i - 1];
        if Base(list[i - 1], k) == page {
          BaseInjective(list[i - 1], j, k);
        }
        if i > 1 && Base(list[i - 1], k) == Base(list[0], k) {
          BaseInjective(list[i - 1], list[0], k);
        }
      }
    }
  }

  lemma UnlinkLinked(l: Lists, list: seq<nat>, k: nat, i: nat)
    requires k < |l.head| == |l.tail| && Linked(l, list, k) && Distinct(list)
    requires i < |list| && Base(list[i], k) < |l.mem|
    ensures Linked(Unlink(l, Base(list[i], k)), RemoveAt(list, i), k)
  {
    var r, rest := Unlink(l, Base(list[i], k)), RemoveAt(list, i);
    assert NodeOk(l.mem, list, k, i);
    forall a | 0 <= a < |rest| ensures NodeOk(r.mem, rest, k, a) {
      UnlinkedNode(l, list, k, i, a);
    }
    if i > 0 {
      assert NodeOk(l.mem, list, k, i - 1);
    }
    if i + 1 < |list| {
      assert NodeOk(l.mem, list, k, i + 1);
    }
  }

  lemma UnlinkedNode(l: Lists, list: seq<nat>, k: nat, i: nat, a: nat)
    requires k < |l.head| == |l.tail| && Linked(l, list, k) && Distinct(list)
    requires i < |list| && Base(list[i], k) < |l.mem| && a < |list| - 1
    ensures |RemoveAt(list, i)| == |list| - 1
    ensures NodeOk(l.mem, list, k, i) && NodeOk(Unlink(l, Base(list[i], k)).mem, RemoveAt(list, i), k, a)
  {
    var r, rest := Unlink(l, Base(list[i], k)), RemoveAt(list, i);
    var b := if a < i then a else a + 1;
    assert NodeOk(l.mem, list, k, i) && NodeOk(l.mem, list, k, b);
    assert rest[a] == list[b];
    if i > 0 && Base(list[i - 1], k) == Base(list[b], k) {
      BaseInjective(list[i - 1], list[b], k);
    }
    if i + 1 < |list| && Base(list[i + 1], k) == Base(list[b], k) {
      BaseInjective(list[i + 1], list[b], k);
    }
  }

  // ----- All lists together -----

  predicate AllLinked(l: Lists, pool: Pool) {
    && Sized(l, |pool.owner|) && |pool.lists| == FREELIST_SIZE
    && forall k :: 0 <= k < FREELIST_SIZE ==> Linked(l, pool.lists[k], k)
  }

  /** A list is untouched by writes elsewhere. */
  lemma LinkedFrame(l: Lists, r: Lists, list: seq<nat>, k: nat)
    requires k < |l.head| == |l.tail| == |r.head| == |r.tail| && |l.mem| == |r.mem| && Linked(l, list, k)
    requires l.head[k] == r.head[k] && l.tail[k] == r.tail[k]
    requires forall i :: 0 <= i < |list| && Base(list[i], k) < |l.mem| ==>
               r.mem[Base(list[i], k)] == l.mem[Base(list[i], k)]
    ensures Linked(r, list, k)
  {
    forall i | 0 <= i < |list| ensures NodeOk(r.mem, list, k, i) {
      assert NodeOk(l.mem, list, k, i);
    }
  }

  lemma ListedFirst(pool: Pool, k: nat, j: nat)
    requires PoolOk(pool) && k < FREELIST_SIZE && j in pool.lists[k]
    ensures Base(j, k) < |pool.owner| && pool.owner[Base(j, k)] == k
  {
    UpBase(j, k);
    ListedOwns(pool, k, j, Base(j, k));
  }

  /** Writing only to headers of unowned pages or of list k leaves the other lists alone. */
  lemma OthersLinked(l: Lists, r: Lists, pool: Pool, k: nat, k': nat)
    requires PoolOk(pool) && AllLinked(l, pool) && Sized(r, |pool.owner|) && k < FREELIST_SIZE
    requires k' < FREELIST_SIZE && k' != k
    requires l.head[k'] == r.head[k'] && l.tail[k'] == r.tail[k']
    requires forall p :: 0 <= p < |l.mem| && pool.owner[p] != NONE && pool.owner[p] != k ==> r.mem[p] == l.mem[p]
    ensures Linked(r, pool.lists[k'], k')
  {
    var list := pool.lists[k'];
    forall i | 0 <= i < |list| && Base(list[i], k') < |l.mem|
      ensures r.mem[Base(list[i], k')] == l.mem[Base(list[i], k')]
    {
      ListedFirst(pool, k', list[i]);
    }
    LinkedFrame(l, r, list, k');
  }

  lemma PushAll(l: Lists, pool: Pool, k: nat, j: nat)
    requires PoolOk(pool) && AllLinked(l, pool) && k < FREELIST_SIZE && Painted(pool.owner, j, k, NONE)
    ensures Base(j, k) < |l.mem|
    ensures AllLinked(Push(l, k, Base(j, k)), Attach(pool, k, j))
  {
    BaseNext(j, k);
    UnownedNotListed(pool, k, j);
    var list := pool.lists[k];
    assert ListOk(pool, k);
    PushLinked(l, list, k, j);
    var r := Push(l, k, Base(j, k));
    if list != [] {
      ListedFirst(pool, k, list[0]);
    }
    forall k' | 0 <= k' < FREELIST_SIZE && k' != k ensures Linked(r, pool.lists[k'], k') {
      OthersLinked(l, r, pool, k, k');
    }
  }

  lemma UnlinkAll(l: Lists, pool: Pool, k: nat, i: nat)
    requires PoolOk(pool) && AllLinked(l, pool) && k < FREELIST_SIZE && i < |pool.lists[k]|
    ensures Base(pool.lists[k][i], k) < |l.mem|
    ensures AllLinked(Unlink(l, Base(pool.lists[k][i], k)), Detach(pool, k, i))
  {
    var list := pool.lists[k];
    assert ListOk(pool, k);
    ListedFirst(pool, k, list[i]);
    UnlinkLinked(l, list, k, i);
    var r := Unlink(l, Base(list[i], k));
    assert NodeOk(l.mem, list, k, i);
    if i > 0 {
      ListedFirst(pool, k, list[i - 1]);
    }
    if i + 1 < |list| {
      ListedFirst(pool, k, list[i + 1]);
    }
    forall k' | 0 <= k' < FREELIST_SIZE && k' != k ensures Linked(r, pool.lists[k'], k') {
      OthersLinked(l, r, pool, k, k');
    }
  }

  /** Headers of pages that are in no free chunk may hold anything. */
  lemma ScribbleAll(l: Lists, pool: Pool, p: nat, h: Header)
    requires PoolOk(pool) && AllLinked(l, pool) && p < |l.mem| && pool.owner[p] == NONE
    ensures AllLinked(l.(mem := l.mem[p := h]), pool)
  {
    var r := l.(mem := l.mem[p := h]);
    forall k | 0 <= k < FREELIST_SIZE ensures Linked(r, pool.lists[k], k) {
      var list := pool.lists[k];
      forall i | 0 <= i < |list| && Base(list[i], k) < |l.mem|
        ensures r.mem[Base(list[i], k)] == l.mem[Base(list[i], k)]
      {
        ListedFirst(pool, k, list[i]);
      }
      LinkedFrame(l, r, list, k);
    }
  }

  /**
    The test free_pages makes on its buddy: not allocated, and a level equal to
    the order at hand. It holds exactly when the buddy is a chunk of that order.
   */
  lemma BuddyTest(l: Lists, pool: Pool, k: nat, j: nat)
    requires PoolOk(pool) && AllLinked(l, pool) && k < FREELIST_SIZE && Painted(pool.owner, j, k, NONE)
    requires Base(Buddy(j), k) < |pool.owner|
    ensures var b := Base(Buddy(j), k);
      (pool.owner[b] != NONE && l.mem[b].level == k) <==> Buddy(j) in pool.lists[k]
  {
    var b := Base(Buddy(j), k);
    if pool.owner[b] != NONE {
      BuddyPageIsHead(pool, k, j);
      ListedLevel(l, pool, pool.owner[b], Up(b, pool.owner[b]));
      UpBase(Buddy(j), k);
    }
    if Buddy(j) in pool.lists[k] {
      ListedFirst(pool, k, Buddy(j));
      ListedLevel(l, pool, k, Buddy(j));
    }
  }

  lemma ListedLevel(l: Lists, pool: Pool, k: nat, j: nat)
    requires PoolOk(pool) && AllLinked(l, pool) && k < FREELIST_SIZE && j in pool.lists[k]
    ensures Base(j, k) < |l.mem| && l.mem[Base(j, k)].level == k
  {
    var i :| 0 <= i < |pool.lists[k]| && pool.lists[k][i] == j;
    assert NodeOk(l.mem, pool.lists[k], k, i);
  }

  /** The position of a listed block. */
  lemma Listed(list: seq<nat>, j: nat) returns (i: nat)
    requires j in list
    ensures i < |list| && list[i] == j
  {
    i :| 0 <= i < |list| && list[i] == j;
  }
}
