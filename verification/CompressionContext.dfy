/**
  The compression context of the sender: the cache table with its list and
  index, the page buffer, and the operations on them. Each operation changes
  the context as module Checkpoint says it changes a Sender.
 */
module CompressionContext {
  import opened Common
  import opened PageDelta
  import opened DeltaCache
  import opened Checkpoint
  import PageList
  import PageCodec

  const NUM_CACHE_PAGES: nat := 8192

  class Cache {
    // The table of slots: what each caches and its neighbours in the list.
    var pfn: seq<nat>
    var next: seq<int>
    var prev: seq<int>
    var head: nat
    var tail: nat
    var pfn2cache: seq<int>
    ghost var order: seq<nat>

    ghost predicate Listed()
      reads this
    {
      && |order| > 0 && PageList.Linked(order, next, prev)
      && head == order[0] && tail == order[|order| - 1]
    }

    ghost predicate Valid()
      reads this
    {
      Listed() && |pfn| == |next| && PageList.Covers(order, |pfn|) && PageList.Indexed(pfn, pfn2cache)
    }

    /** All slots free, linked in table order. */
    constructor (n: nat, p2mSize: nat)
      requires 0 < n && p2mSize < INVALID_P2M_ENTRY
      ensures Valid() && |pfn| == n && |pfn2cache| == p2mSize
      ensures forall s :: 0 <= s < n ==> pfn[s] == INVALID_P2M_ENTRY
      ensures |order| == n && forall i :: 0 <= i < n ==> order[i] == i
    {
      pfn := seq(n, _ => INVALID_P2M_ENTRY);
      next := seq(n, i => if i + 1 == n then PageList.NULL else i + 1);
      prev := seq(n, i => if i == 0 then PageList.NULL else i - 1);
      head, tail := 0, n - 1;
      pfn2cache := seq(p2mSize, _ => PageList.NULL);
      order := seq(n, i => i);
      new;
      forall s | 0 <= s < n ensures PageList.Has(order, s) {
        assert order[s] == s;
      }
    }

    /** The slots as a sequence of entries, given the bytes in each. */
    ghost function Entries(bytes: seq<seq<byte>>): (c: seq<Entry>)
      requires Valid() && |bytes| == |pfn|
      reads this
    {
      PageList.Entries(order, pfn, bytes)
    }

    method UnlinkMiddle(item: nat, ghost i: nat)
      requires Listed() && 0 < i < |order| - 1 && order[i] == item
      modifies this`next, this`prev, this`order
      ensures Listed() && order == RemoveAt(old(order), i) && |next| == |old(next)|
    {
      PageList.UnlinkMiddle(order, next, prev, i);
      assert prev[item] == order[i - 1] && next[item] == order[i + 1];
      var before, after := prev[item], next[item];
      next := next[before := after];
      prev := prev[after := before];
      order := RemoveAt(order, i);
    }

    method UnlinkTail()
      requires Listed() && |order| > 1
      modifies this`next, this`tail, this`order
      ensures Listed() && order == RemoveAt(old(order), |old(order)| - 1) && |next| == |old(next)|
    {
      PageList.UnlinkTail(order, next, prev);
      assert prev[tail] == order[|order| - 2];
      tail := prev[tail];
      next := next[tail := PageList.NULL];
      order := RemoveAt(order, |order| - 1);
    }

    method UnlinkHead()
      requires Listed() && |order| > 1
      modifies this`prev, this`head, this`order
      ensures Listed() && order == RemoveAt(old(order), 0) && next == old(next)
    {
      PageList.UnlinkHead(order, next, prev);
      assert next[head] == order[1];
      head := next[head];
      prev := prev[head := PageList.NULL];
      order := RemoveAt(order, 0);
    }

    method PushHead(item: nat)
      requires Listed() && item !in order && item < |next|
      modifies this`next, this`prev, this`head, this`order
      ensures Listed() && order == [item] + old(order) && |next| == |old(next)|
    {
      PageList.PushHead(order, next, prev, item);
      prev := prev[item := PageList.NULL];
      next := next[item := head];
      prev := prev[head := item];
      head := item;
      order := [item] + order;
    }

    method PushTail(item: nat)
      requires Listed() && item !in order && item < |next|
      modifies this`next, this`prev, this`tail, this`order
      ensures Listed() && order == old(order) + [item] && |next| == |old(next)|
    {
      PageList.PushTail(order, next, prev, item);
      next := next[item := PageList.NULL];
      prev := prev[item := tail];
      next := next[tail := item];
      tail := item;
      order := order + [item];
    }

    /** Takes a slot out of a list of at least two. */
    method Unlink(item: nat, ghost i: nat)
      requires Listed() && |order| > 1 && i < |order| && order[i] == item
      modifies this`next, this`prev, this`head, this`tail, this`order
      ensures Listed() && order == RemoveAt(old(order), i) && |next| == |old(next)|
    {
      PageList.EndsAreDistinct(order, i);
      if item == tail {
        UnlinkTail();
      } else if item == head {
        UnlinkHead();
      } else {
        UnlinkMiddle(item, i);
      }
    }

    /** Moves a slot to the head of the list, unless it is there already. */
    method MoveToHead(item: nat, ghost i: nat)
      requires Listed() && i < |order| && order[i] == item
      modifies this`next, this`prev, this`head, this`tail, this`order
      ensures Listed() && order == [item] + RemoveAt(old(order), i) && |next| == |old(next)|
    {
      PageList.RemoveLacks(order, i);
      PageList.EndsAreDistinct(order, i);
      if item != head {
        Unlink(item, i);
        PushHead(item);
      }
    }

    /** Moves a slot to the tail of the list, unless it is there already. */
    method MoveToTail(item: nat, ghost i: nat)
      requires Listed() && i < |order| && order[i] == item
      modifies this`next, this`prev, this`head, this`tail, this`order
      ensures Listed() && order == RemoveAt(old(order), i) + [item] && |next| == |old(next)|
    {
      PageList.RemoveLacks(order, i);
      PageList.EndsAreDistinct(order, i);
      if item != tail {
        Unlink(item, i);
        PushTail(item);
      }
    }

    /**
      Finds or claims the slot for p and makes it the first. The bytes in the
      slot are left as they are.
     */
    method GetCachePage(p: nat, ghost bytes: seq<seq<byte>>) returns (israw: bool)
      requires Valid() && |bytes| == |pfn| && p < |pfn2cache|
      modifies this
      ensures Valid() && |pfn| == |old(pfn)| && |pfn2cache| == |old(pfn2cache)|
      ensures israw == !Cached(old(Entries(bytes)), p)
      ensures Entries(bytes) == Touch(old(Entries(bytes)), p)
      ensures bytes[head] == old(Entries(bytes))[SlotFor(old(Entries(bytes)), p)].page
    {
      ghost var c := Entries(bytes);
      ghost var i := SlotFor(c, p);
      PageList.IndexFinds(order, pfn, bytes, pfn2cache, p);
      PageList.TouchEntries(order, pfn, bytes, p);
      PageList.RotateCovers(order, |pfn|, i);
      var item := pfn2cache[p];
      israw := false;
      if item == PageList.NULL {
        PageList.Reindex(pfn, pfn2cache, tail, p);
        israw := true;
        item := tail;
        if pfn[item] != INVALID_P2M_ENTRY {
          pfn2cache := pfn2cache[pfn[item] := PageList.NULL];
        }
        pfn := pfn[item := p];
        pfn2cache := pfn2cache[p := item];
      } else {
        assert PageList.IndexAt(pfn, pfn2cache, p);
        assert pfn[item := p] == pfn;
      }
      MoveToHead(item, i);
    }

    /** Frees the slot of p, if it has one, and makes it the last. */
    method InvalidateCachePage(p: nat, ghost bytes: seq<seq<byte>>)
      requires Valid() && |bytes| == |pfn| && p < |pfn2cache|
      modifies this
      ensures Valid() && |pfn| == |old(pfn)| && |pfn2cache| == |old(pfn2cache)|
      ensures Entries(bytes) == Drop(old(Entries(bytes)), p)
    {
      ghost var c := Entries(bytes);
      ghost var i := IndexOf(c, p);
      PageList.IndexFinds(order, pfn, bytes, pfn2cache, p);
      var item := pfn2cache[p];
      if item != PageList.NULL {
        PageList.DropEntries(order, pfn, bytes, p);
        PageList.RotateCovers(order, |pfn|, i);
        PageList.Unindex(pfn, pfn2cache, item, p);
        MoveToTail(item, i);
        pfn2cache := pfn2cache[p := PageList.NULL];
        pfn := pfn[tail := INVALID_P2M_ENTRY];
      }
    }
  }

  /** The buffered pages, raw where no pfn is looked up. */
  function BufferItems(inputbuf: seq<seq<byte>>, sendbufPfns: seq<nat>, pagePfns: seq<nat>): (items: seq<Item>)
    requires |inputbuf| == |sendbufPfns| == |pagePfns|
  {
    seq(|inputbuf|, k requires 0 <= k < |inputbuf| =>
      Item(pagePfns[k], inputbuf[k], sendbufPfns[k] == INVALID_P2M_ENTRY))
  }

  /** Page k of the buffer looks up its own pfn, which is in range, unless it is raw. */
  predicate BufferedAt(inputbuf: seq<seq<byte>>, sendbufPfns: seq<nat>, pagePfns: seq<nat>, n: nat, k: nat)
    requires k < |inputbuf| == |sendbufPfns| == |pagePfns|
  {
    && IsPage(inputbuf[k]) && pagePfns[k] <= n
    && (sendbufPfns[k] == INVALID_P2M_ENTRY || sendbufPfns[k] == pagePfns[k] < n)
  }

  predicate BufferOk(inputbuf: seq<seq<byte>>, sendbufPfns: seq<nat>, pagePfns: seq<nat>, n: nat) {
    && |inputbuf| == |sendbufPfns| == |pagePfns| && n < INVALID_P2M_ENTRY
    && forall k :: 0 <= k < |inputbuf| ==> BufferedAt(inputbuf, sendbufPfns, pagePfns, n, k)
  }

  lemma BufferGrows(inputbuf: seq<seq<byte>>, sendbufPfns: seq<nat>, pagePfns: seq<nat>, n: nat,
                    page: seq<byte>, p: nat, israw: bool)
    requires BufferOk(inputbuf, sendbufPfns, pagePfns, n) && IsPage(page) && p <= n
    ensures var q := if israw then INVALID_P2M_ENTRY else p;
      && (BufferOk(inputbuf + [page], sendbufPfns + [q], pagePfns + [p], n) <==> p < n || israw)
      && BufferItems(inputbuf + [page], sendbufPfns + [q], pagePfns + [p])
         == BufferItems(inputbuf, sendbufPfns, pagePfns) + [Item(p, page, israw)]
  {
    var q := if israw then INVALID_P2M_ENTRY else p;
    var i', s', p' := inputbuf + [page], sendbufPfns + [q], pagePfns + [p];
    forall k | 0 <= k < |inputbuf| ensures BufferedAt(i', s', p', n, k) {
      assert BufferedAt(inputbuf, sendbufPfns, pagePfns, n, k);
    }
    assert BufferedAt(i', s', p', n, |inputbuf|) <==> p < n || israw;
  }

  lemma BufferIsReal(inputbuf: seq<seq<byte>>, sendbufPfns: seq<nat>, pagePfns: seq<nat>, n: nat)
    requires BufferOk(inputbuf, sendbufPfns, pagePfns, n)
    ensures RealItems(BufferItems(inputbuf, sendbufPfns, pagePfns))
  {
    forall k | 0 <= k < |inputbuf| ensures pagePfns[k] < INVALID_P2M_ENTRY {
      assert BufferedAt(inputbuf, sendbufPfns, pagePfns, n, k);
    }
  }

  /** A whole batch: the bytes already out, then all that the rest of the buffer emits. */
  ghost function WholeBatch(s: Sender, size: nat, out: seq<byte>): (r: Emission)
    requires Usable(s) && RealItems(s.items)
  {
    var rest := EmitAll(s, |out|, size);
    rest.(bytes := out + rest.bytes)
  }

  lemma BatchUnfolds(s: Sender, used: nat, size: nat, one: Emission, after: nat)
    requires Usable(s) && RealItems(s.items) && s.next < |s.items| && one == EmitOne(s, used, size) && one.ok
    requires Usable(one.sender) && one.sender.items == s.items && after == used + |one.bytes|
    ensures var rest := EmitAll(one.sender, after, size);
      EmitAll(s, used, size) == rest.(bytes := one.bytes + rest.bytes)
  {
  }

  lemma BatchGoesOn(s: Sender, size: nat, out: seq<byte>, one: Emission)
    requires Usable(s) && RealItems(s.items) && s.next < |s.items| && one == EmitOne(s, |out|, size) && one.ok
    requires Usable(one.sender) && one.sender.items == s.items
    ensures WholeBatch(s, size, out) == WholeBatch(one.sender, size, out + one.bytes)
  {
    BatchUnfolds(s, |out|, size, one, |out + one.bytes|);
    var rest := EmitAll(one.sender, |out + one.bytes|, size);
    assert out + (one.bytes + rest.bytes) == out + one.bytes + rest.bytes;
  }

  lemma BatchEnds(s: Sender, size: nat, out: seq<byte>, one: Emission)
    requires Usable(s) && RealItems(s.items) && s.next < |s.items| && one == EmitOne(s, |out|, size) && !one.ok
    ensures WholeBatch(s, size, out) == Emission(one.sender, out, false)
  {
    var all := EmitAll(s, |out|, size);
    assert all == one && one.bytes == [];
    assert out + [] == out;
  }

  /** One round moves the emission of its page from the rest to what went before. */
  lemma WholeBatchStep(s: Sender, size: nat, out: seq<byte>, one: Emission)
    requires Usable(s) && RealItems(s.items) && s.next < |s.items| && one == EmitOne(s, |out|, size)
    ensures Usable(one.sender) && one.sender.items == s.items
    ensures one.ok ==> WholeBatch(s, size, out) == WholeBatch(one.sender, size, out + one.bytes)
    ensures !one.ok ==> WholeBatch(s, size, out) == Emission(one.sender, out, false)
  {
    EmitOneUsable(s, |out|, size);
    if one.ok {
      BatchGoesOn(s, size, out, one);
    } else {
      BatchEnds(s, size, out, one);
    }
  }

  class Context {
    const cache: Cache
    const pages: seq<array<byte>>
    // The page buffer: a page and the pfn to look up for it, none for a raw page.
    var inputbuf: seq<seq<byte>>
    var sendbufPfns: seq<nat>
    var pfnsIndex: nat
    // What the slots hold, and which pfn each buffered page is for.
    ghost var bytes: seq<seq<byte>>
    ghost var pagePfns: seq<nat>

    constructor (p2mSize: nat)
      requires p2mSize < INVALID_P2M_ENTRY
      ensures Valid() && fresh(cache) && fresh(pages) && |cache.pfn2cache| == p2mSize
      ensures |View().cache| == NUM_CACHE_PAGES && Occupied(View().cache) == 0
      ensures View().items == [] && View().next == 0
    {
      var ps: seq<array<byte>> := [];
      ghost var bs: seq<seq<byte>> := [];
      while |ps| < NUM_CACHE_PAGES
        invariant |ps| == |bs| <= NUM_CACHE_PAGES && fresh(ps)
        invariant forall s :: 0 <= s < |ps| ==> ps[s].Length == XC_PAGE_SIZE && ps[s][..] == bs[s]
        invariant forall s, t :: 0 <= s < t < |ps| ==> ps[s] != ps[t]
        decreases NUM_CACHE_PAGES - |ps|
      {
        var page := new byte[XC_PAGE_SIZE];
        ps, bs := ps + [page], bs + [page[..]];
      }
      pages, bytes := ps, bs;
      cache := new Cache(NUM_CACHE_PAGES, p2mSize);
      inputbuf, sendbufPfns, pfnsIndex, pagePfns := [], [], 0, [];
      new;
      forall i | 0 <= i < NUM_CACHE_PAGES ensures View().cache[i].Free() && IsPage(View().cache[i].page) {
        PageList.EntryAt(cache.order, cache.pfn, bytes, i);
      }
    }

    /** Each slot has a page of its own, and bytes is what they hold. */
    ghost predicate Filed()
      reads this, pages
    {
      && |pages| == |bytes|
      && (forall s :: 0 <= s < |pages| ==> pages[s].Length == XC_PAGE_SIZE && pages[s][..] == bytes[s])
      && (forall s, t :: 0 <= s < t < |pages| ==> pages[s] != pages[t])
    }

    ghost predicate Stored()
      reads this, cache, pages
    {
      Filed() && cache.Valid() && |bytes| == |cache.pfn|
    }

    ghost predicate Buffered()
      reads this, cache
    {
      pfnsIndex <= |inputbuf| && BufferOk(inputbuf, sendbufPfns, pagePfns, |cache.pfn2cache|)
    }

    ghost predicate Valid()
      reads this, cache, pages
    {
      Stored() && Buffered() && Usable(View())
    }

    ghost function Items(): (items: seq<Item>)
      requires Buffered()
      reads this, cache
    {
      BufferItems(inputbuf, sendbufPfns, pagePfns)
    }

    /** The context as a Sender. */
    ghost function View(): (s: Sender)
      requires Stored() && Buffered()
      reads this, cache, pages
    {
      Sender(cache.Entries(bytes), Items(), pfnsIndex)
    }

    /**
      Buffers a page; a raw one leaves the cache at once. A pfn equal to the size
      of the index passes the check. An ordinary page of it breaks the buffer:
      GetCachePage, which the next batch calls for it, would read and write
      pfn2cache one word past its end. A raw page of it is looked up there now,
      where a null is taken to be.
     */
    method AddPage(page: seq<byte>, p: nat, israw: bool, behindIndex: int) returns (rc: int)
      requires Valid() && IsPage(page) && |inputbuf| < PAGE_BUFFER_PAGES
      requires israw && p == |cache.pfn2cache| ==> behindIndex == PageList.NULL
      modifies this`inputbuf, this`sendbufPfns, this`pagePfns, cache
      ensures |cache.pfn2cache| == old(|cache.pfn2cache|)
      ensures Valid() <==> p != |cache.pfn2cache| || israw
      ensures p > |cache.pfn2cache| ==> rc == -2 && View() == old(View())
      ensures p <= |cache.pfn2cache| && Valid() ==> View() == Add(old(View()), Item(p, page, israw))
      ensures p <= |cache.pfn2cache| ==> rc == if |old(inputbuf)| + 1 == PAGE_BUFFER_PAGES then -1 else 0
    {
      if p > |cache.pfn2cache| {
        return -2;
      }
      DropKeeps(cache.Entries(bytes), p);
      BufferGrows(inputbuf, sendbufPfns, pagePfns, |cache.pfn2cache|, page, p, israw);
      if israw {
        if p < |cache.pfn2cache| {
          cache.InvalidateCachePage(p, bytes);
        } else {
          PageList.PastIndexUncached(cache.order, cache.pfn, bytes, cache.pfn2cache, p);
        }
      }
      sendbufPfns := sendbufPfns + [if israw then INVALID_P2M_ENTRY else p];
      inputbuf := inputbuf + [page];
      pagePfns := pagePfns + [p];
      return if |inputbuf| == PAGE_BUFFER_PAGES then -1 else 0;
    }

    /** One round of the compression loop. */
    method EmitNext(size: nat, out: seq<byte>) returns (ok: bool, out': seq<byte>)
      requires Valid() && pfnsIndex < |inputbuf|
      modifies this`pfnsIndex, this`bytes, cache, pages
      ensures Valid() && Items() == old(Items())
      ensures var r := EmitOne(old(View()), |out|, size);
        View() == r.sender && out' == out + r.bytes && ok == r.ok
    {
      ghost var v := View();
      var page, p := inputbuf[pfnsIndex], sendbufPfns[pfnsIndex];
      BufferIsReal(inputbuf, sendbufPfns, pagePfns, |cache.pfn2cache|);
      EmitOneUsable(v, |out|, size);
      assert BufferedAt(inputbuf, sendbufPfns, pagePfns, |cache.pfn2cache|, pfnsIndex);
      assert v.items[v.next] == Item(pagePfns[pfnsIndex], page, p == INVALID_P2M_ENTRY);
      var rc;
      if p == INVALID_P2M_ENTRY {
        rc, out' := PageCodec.AddFullPage(out, size, page, null);
      } else {
        ghost var e := EmitOrdinary(v.cache, p, page, |out|, size);
        rc, out' := EmitCached(size, out, page, p);
        assert View() == Sender(e.cache, v.items, v.next);
      }
      ok := rc >= 0;
      if ok {
        pfnsIndex := pfnsIndex + 1;
      }
    }

    /** Emits a page whole or as a delta, and leaves it in the given slot. */
    method EmitThrough(size: nat, out: seq<byte>, page: seq<byte>, israw: bool, slot: nat)
      returns (rc: int, out': seq<byte>)
      requires Filed() && IsPage(page) && slot < |pages|
      modifies this`bytes, pages[slot]
      ensures Filed()
      ensures (rc >= 0) == (|out| + (if israw then FULL_PAGE_SIZE else WORST_COMP_PAGE_SIZE) <= size)
      ensures rc < 0 ==> out' == out && bytes == old(bytes)
      ensures rc >= 0 ==> bytes == old(bytes)[slot := page]
      ensures rc >= 0 ==> out' == out + if israw then EncodeFull(page) else Encode(old(bytes[slot]), page)
    {
      if israw {
        rc, out' := PageCodec.AddFullPage(out, size, page, pages[slot]);
      } else {
        rc, out' := PageCodec.CompressPage(out, size, page, pages[slot]);
      }
      if rc >= 0 {
        bytes := bytes[slot := page];
      }
    }

    /** Claims the slot for p and emits the page through it. */
    method EmitCached(size: nat, out: seq<byte>, page: seq<byte>, p: nat) returns (rc: int, out': seq<byte>)
      requires Stored() && WellFormed(cache.Entries(bytes)) && IsPage(page) && p < |cache.pfn2cache|
      modifies this`bytes, cache, pages
      ensures Stored() && |cache.pfn2cache| == |old(cache.pfn2cache)|
      ensures var e := EmitOrdinary(old(cache.Entries(bytes)), p, page, |out|, size);
        cache.Entries(bytes) == e.cache && out' == out + e.bytes && (rc >= 0) == e.ok
    {
      var israw := cache.GetCachePage(p, bytes);
      PageList.FillEntries(cache.order, cache.pfn, bytes, page);
      label Claimed:
      rc, out' := EmitThrough(size, out, page, israw, cache.head);
      assert unchanged@Claimed(cache);
    }

    /** One round leaves the batch as a whole unchanged, or ends it for want of space. */
    method EmitNextOf(size: nat, out: seq<byte>) returns (ok: bool, out': seq<byte>)
      requires Valid() && pfnsIndex < |inputbuf| && RealItems(View().items)
      modifies this`pfnsIndex, this`bytes, cache, pages
      ensures Valid() && pfnsIndex == old(pfnsIndex) + if ok then 1 else 0
      ensures RealItems(View().items)
      ensures ok ==> WholeBatch(View(), size, out') == old(WholeBatch(View(), size, out))
      ensures !ok ==> old(WholeBatch(View(), size, out)) == Emission(View(), out', false)
    {
      WholeBatchStep(View(), size, out, EmitOne(View(), |out|, size));
      ok, out' := EmitNext(size, out);
    }

    /** The loop over the buffered pages. */
    method EmitPending(size: nat) returns (ok: bool, out: seq<byte>)
      requires Valid() && RealItems(View().items)
      modifies this`pfnsIndex, this`bytes, cache, pages
      ensures Valid()
      ensures old(WholeBatch(View(), size, [])) == Emission(View(), out, ok)
    {
      out, ok := [], true;
      while pfnsIndex < |inputbuf|
        invariant Valid() && pfnsIndex <= |inputbuf| && ok && RealItems(View().items)
        invariant WholeBatch(View(), size, out) == old(WholeBatch(View(), size, []))
        decreases |inputbuf| - pfnsIndex
      {
        ok, out := EmitNextOf(size, out);
        if !ok {
          return;
        }
      }
      assert out + [] == out;
    }

    /**
      Emits buffered pages until the buffer of size bytes is full. The bytes and
      the state left behind are those of the batch in module Checkpoint.
     */
    method CompressPages(size: nat) returns (rc: int, out: seq<byte>)
      requires Valid()
      modifies this, cache, pages
      ensures Valid()
      ensures RealItems(old(View()).items)
      ensures var b := Compress(old(View()), size);
        View() == b.sender && out == b.bytes && rc == b.rc
    {
      BufferIsReal(inputbuf, sendbufPfns, pagePfns, |cache.pfn2cache|);
      if |sendbufPfns| == 0 || pfnsIndex == |sendbufPfns| {
        inputbuf, sendbufPfns, pagePfns, pfnsIndex := [], [], [], 0;
        return 0, [];
      }
      ghost var e := EmitAll(View(), 0, size);
      assert [] + e.bytes == e.bytes;
      var ok;
      ok, out := EmitPending(size);
      return if ok then 1 else -1, out;
    }
  }
}
