/**
  Checkpoint compression as a whole: the sender buffers dirty pages and emits
  them through its delta cache; the receiver, who is told the pfns in the same
  order, decodes the stream over its own copy of guest memory. The functions
  here are the sender's operations on values; the theorems say when the
  receiver's memory follows the sender's.
 */
module Checkpoint {
  import opened Common
  import opened PageDelta
  import opened DeltaCache

  const PAGE_BUFFER_PAGES: nat := 8192

  /** A buffered page. A raw page is a page table: sent whole and never cached. */
  datatype Item = Item(pfn: nat, page: seq<byte>, raw: bool)

  /** Pages before next have been emitted already. */
  datatype Sender = Sender(cache: seq<Entry>, items: seq<Item>, next: nat)

  predicate Usable(s: Sender) {
    s.next <= |s.items| && WellFormed(s.cache) && forall k :: 0 <= k < |s.items| ==> IsPage(s.items[k].page)
  }

  // ----- The sender's operations -----

  /** xc_compression_add_page on a pfn in range. A raw page leaves the cache at once. */
  function Add(s: Sender, item: Item): (r: Sender) {
    Sender(if item.raw then Drop(s.cache, item.pfn) else s.cache, s.items + [item], s.next)
  }

  datatype Emission = Emission(sender: Sender, bytes: seq<byte>, ok: bool)

  /** The next page has no copy in the cache although it will get one. */
  predicate Misses(s: Sender) {
    s.next < |s.items| && !s.items[s.next].raw && !Cached(s.cache, s.items[s.next].pfn)
  }

  datatype CacheEmission = CacheEmission(cache: seq<Entry>, bytes: seq<byte>, ok: bool)

  /**
    An ordinary page goes through the cache, with used bytes already written to
    a buffer of size bytes: whole on a miss, as a delta on a hit. The slot is
    claimed before the space check.
   */
  function EmitOrdinary(c: seq<Entry>, pfn: nat, page: seq<byte>, used: nat, size: nat): (r: CacheEmission)
    requires WellFormed(c) && IsPage(page)
  {
    var t := Touch(c, pfn);
    if !Cached(c, pfn) then
      if used + FULL_PAGE_SIZE > size then CacheEmission(t, [], false)
      else CacheEmission(Fill(t, page), EncodeFull(page), true)
    else
      if used + WORST_COMP_PAGE_SIZE > size then CacheEmission(t, [], false)
      else
        assert PageAt(c, SlotFor(c, pfn));
        CacheEmission(Fill(t, page), Encode(c[SlotFor(c, pfn)].page, page), true)
  }

  /** One round of the loop in xc_compression_compress_pages. */
  function EmitOne(s: Sender, used: nat, size: nat): (r: Emission)
    requires Usable(s) && s.next < |s.items|
  {
    var item := s.items[s.next];
    if item.raw then
      if used + FULL_PAGE_SIZE > size then Emission(s, [], false)
      else Emission(s.(next := s.next + 1), EncodeFull(item.page), true)
    else
      var e := EmitOrdinary(s.cache, item.pfn, item.page, used, size);
      Emission(Sender(e.cache, s.items, if e.ok then s.next + 1 else s.next), e.bytes, e.ok)
  }

  lemma EmitOneUsable(s: Sender, used: nat, size: nat)
    requires Usable(s) && s.next < |s.items| && s.items[s.next].pfn != INVALID_P2M_ENTRY
    ensures Usable(EmitOne(s, used, size).sender)
  {
    TouchKeeps(s.cache, s.items[s.next].pfn);
    FillKeeps(Touch(s.cache, s.items[s.next].pfn), s.items[s.next].page);
  }

  predicate RealItems(items: seq<Item>) {
    forall k :: 0 <= k < |items| ==> items[k].pfn < INVALID_P2M_ENTRY
  }

  /** The loop: emit pages until the buffer is full or none is left. */
  function EmitAll(s: Sender, used: nat, size: nat): (r: Emission)
    requires Usable(s) && RealItems(s.items)
    ensures Usable(r.sender) && r.sender.items == s.items && s.next <= r.sender.next
    ensures r.ok <==> r.sender.next == |s.items|
    decreases |s.items| - s.next
  {
    if s.next == |s.items| then Emission(s, [], true)
    else
      EmitOneUsable(s, used, size);
      var one := EmitOne(s, used, size);
      if !one.ok then one
      else
        var rest := EmitAll(one.sender, used + |one.bytes|, size);
        rest.(bytes := one.bytes + rest.bytes)
  }

  /** Return code of xc_compression_compress_pages: 0 nothing left, 1 all sent, -1 out of space. */
  datatype Batch = Batch(sender: Sender, bytes: seq<byte>, rc: int)

  function Compress(s: Sender, size: nat): (r: Batch)
    requires Usable(s) && RealItems(s.items)
    ensures Usable(r.sender) && RealItems(r.sender.items)
  {
    if s.next == |s.items| then Batch(Sender(s.cache, [], 0), [], 0)
    else
      var e := EmitAll(s, 0, size);
      Batch(e.sender, e.bytes, if e.ok then 1 else -1)
  }

  /** Room that the next page asks for: a full page, or the worst delta if it is cached. */
  function Needs(s: Sender): (n: nat)
    requires s.next < |s.items|
  {
    if s.items[s.next].raw || !Cached(s.cache, s.items[s.next].pfn) then FULL_PAGE_SIZE else WORST_COMP_PAGE_SIZE
  }

  /** One page goes out exactly if there is that room, and then it is the next one's turn. */
  lemma GoesOutExactly(s: Sender, used: nat, size: nat)
    requires Usable(s) && s.next < |s.items|
    ensures EmitOne(s, used, size).ok <==> used + Needs(s) <= size
    ensures EmitOne(s, used, size).sender.next == s.next + if used + Needs(s) <= size then 1 else 0
    ensures !EmitOne(s, used, size).ok ==> EmitOne(s, used, size).bytes == []
  {
  }

  /** The sender that is at page k of a batch, and the bytes the pages before it took. */
  ghost predicate ComesTo(s: Sender, used: nat, size: nat, k: nat, t: Sender, taken: nat)
    requires Usable(s) && RealItems(s.items)
    decreases |s.items| - s.next
  {
    if s.next >= k || s.next == |s.items| then t == s && taken == used
    else
      EmitOneUsable(s, used, size);
      var one := EmitOne(s, used, size);
      one.ok && ComesTo(one.sender, used + |one.bytes|, size, k, t, taken)
  }

  /** A batch stops short only at a page that does not have its room left. */
  lemma {:induction false} StopsForRoom(s: Sender, used: nat, size: nat) returns (t: Sender, taken: nat)
    requires Usable(s) && RealItems(s.items) && !EmitAll(s, used, size).ok
    ensures t.items == s.items && t.next == EmitAll(s, used, size).sender.next < |s.items|
    ensures ComesTo(s, used, size, t.next, t, taken) && taken + Needs(t) > size
    ensures taken == used + |EmitAll(s, used, size).bytes|
    decreases |s.items| - s.next
  {
    EmitOneUsable(s, used, size);
    var one, all := EmitOne(s, used, size), EmitAll(s, used, size);
    GoesOutExactly(s, used, size);
    if one.ok {
      t, taken := StopsForRoom(one.sender, used + |one.bytes|, size);
    } else {
      t, taken := s, used;
      assert all == one;
    }
  }

  /**
    The return code: 0 exactly if no page was waiting, and the buffer is emptied;
    1 exactly if all that waited went out; -1 exactly if some are left.
   */
  lemma CodeExactly(s: Sender, size: nat)
    requires Usable(s) && RealItems(s.items)
    ensures var b := Compress(s, size);
      && (b.rc == 0 <==> s.next == |s.items|) && (b.rc == 0 ==> b.bytes == [] && b.sender == Sender(s.cache, [], 0))
      && (b.rc == 1 <==> s.next < |s.items| && b.sender.next == |b.sender.items| && b.sender.items == s.items)
      && (b.rc == -1 <==> s.next < |s.items| && b.sender.next < |b.sender.items| && b.sender.items == s.items)
      && (b.rc == 0 || b.rc == 1 || b.rc == -1)
  {
  }

  // ----- The receiver -----

  /** Guest memory at the receiver, a page per pfn, or the verdict that the stream was corrupt. */
  datatype Replica = Memory(pages: seq<seq<byte>>) | Broken

  predicate IsMemory(m: seq<seq<byte>>) {
    |m| <= INVALID_P2M_ENTRY && forall p :: 0 <= p < |m| ==> IsPage(m[p])
  }

  predicate PfnsBelow(items: seq<Item>, n: nat) {
    forall k :: 0 <= k < |items| ==> items[k].pfn < n
  }

  /** Decode a chunk that carries the pages from.. upto of items; it must hold nothing else. */
  function Receive(m: seq<seq<byte>>, s: seq<byte>, items: seq<Item>, from: nat, upto: nat): (r: Replica)
    requires IsMemory(m) && from <= upto <= |items|
    decreases upto - from
  {
    if from == upto then (if s == [] then Memory(m) else Broken)
    else if items[from].pfn >= |m| then Broken
    else
      match Decode(s, m[items[from].pfn])
      case Restored(page, rest) => Receive(m[items[from].pfn := page], rest, items, from + 1, upto)
      case Corrupt(_) => Broken
  }

  /** Memory after the pages from.. upto of items were dirtied in order. */
  function Apply(m: seq<seq<byte>>, items: seq<Item>, from: nat, upto: nat): (r: seq<seq<byte>>)
    requires from <= upto <= |items| && PfnsBelow(items, |m|)
    ensures |r| == |m|
    decreases upto - from
  {
    if from == upto then m
    else Apply(m[items[from].pfn := items[from].page], items, from + 1, upto)
  }

  lemma {:induction false} ApplySplit(m: seq<seq<byte>>, items: seq<Item>, from: nat, mid: nat, upto: nat)
    requires from <= mid <= upto <= |items| && PfnsBelow(items, |m|)
    ensures Apply(m, items, from, upto) == Apply(Apply(m, items, from, mid), items, mid, upto)
    decreases mid - from
  {
    if from < mid {
      ApplySplit(m[items[from].pfn := items[from].page], items, from + 1, mid, upto);
    }
  }

  /** Later items do not change what the earlier ones do. */
  lemma {:induction false} ApplyPrefix(m: seq<seq<byte>>, items: seq<Item>, more: seq<Item>, from: nat, upto: nat)
    requires from <= upto <= |items| <= |more| && more[..|items|] == items
    requires PfnsBelow(items, |m|) && PfnsBelow(more, |m|)
    ensures Apply(m, items, from, upto) == Apply(m, more, from, upto)
    decreases upto - from
  {
    if from < upto {
      assert more[from] == items[from];
      ApplyPrefix(m[items[from].pfn := items[from].page], items, more, from + 1, upto);
    }
  }

  lemma ApplyAdded(m: seq<seq<byte>>, items: seq<Item>, item: Item, from: nat)
    requires from <= |items| && PfnsBelow(items, |m|) && item.pfn < |m|
    ensures Apply(m, items + [item], from, |items| + 1) == Apply(m, items, from, |items|)[item.pfn := item.page]
  {
    var more, n := items + [item], |items|;
    assert more[..n] == items && more[n] == item;
    ApplySplit(m, more, from, n, n + 1);
    ApplyPrefix(m, items, more, from, n);
  }

  lemma {:induction false} ApplyIsMemory(m: seq<seq<byte>>, items: seq<Item>, from: nat, upto: nat)
    requires IsMemory(m) && from <= upto <= |items| && PfnsBelow(items, |m|)
    requires forall k :: 0 <= k < |items| ==> IsPage(items[k].page)
    ensures IsMemory(Apply(m, items, from, upto))
    decreases upto - from
  {
    if from < upto {
      ApplyIsMemory(m[items[from].pfn := items[from].page], items, from + 1, upto);
    }
  }

  // ----- Agreement of cache and replica -----

  /** Every cached page is the receiver's copy of that page. */
  predicate InSync(c: seq<Entry>, m: seq<seq<byte>>) {
    forall i :: 0 <= i < |c| ==> EntryInSync(c, m, i)
  }

  predicate EntryInSync(c: seq<Entry>, m: seq<seq<byte>>, i: nat)
    requires i < |c|
  {
    !c[i].Free() ==> c[i].pfn < |m| && m[c[i].pfn] == c[i].page
  }

  /** No raw page is cached, and none waits behind an ordinary version of itself. */
  predicate RawSafe(s: Sender) {
    forall j :: s.next <= j < |s.items| ==> RawSafeAt(s, j)
  }

  predicate RawSafeAt(s: Sender, j: nat)
    requires j < |s.items|
  {
    s.items[j].raw ==>
      && !Cached(s.cache, s.items[j].pfn)
      && forall i :: s.next <= i < j && s.items[i].pfn == s.items[j].pfn ==> s.items[i].raw
  }

  predicate Agree(s: Sender, m: seq<seq<byte>>) {
    && Usable(s) && IsMemory(m) && InSync(s.cache, m) && RawSafe(s)
    && PfnsBelow(s.items, |m|)
  }

  /** Claiming a slot for pfn caches no other pfn anew. */
  lemma TouchKeepsRawSafe(s: Sender, page: seq<byte>)
    requires Usable(s) && RawSafe(s) && s.next < |s.items| && !s.items[s.next].raw
    requires s.items[s.next].pfn < INVALID_P2M_ENTRY
    ensures RawSafe(s.(cache := Touch(s.cache, s.items[s.next].pfn)))
    ensures RawSafe(Sender(Fill(Touch(s.cache, s.items[s.next].pfn), page), s.items, s.next + 1))
  {
    var p := s.items[s.next].pfn;
    var t := Touch(s.cache, p);
    var s1, s2 := s.(cache := t), Sender(Fill(t, page), s.items, s.next + 1);
    forall j | s.next <= j < |s.items| ensures RawSafeAt(s1, j) && RawSafeAt(s2, j) {
      assert RawSafeAt(s, j);
      var q := s.items[j].pfn;
      if s.items[j].raw {
        assert q != p;
        forall i | 0 < i < |t| ensures t[i].pfn != q {
          TouchOthers(s.cache, p, i);
        }
      }
    }
  }

  lemma TouchedInSync(c: seq<Entry>, m: seq<seq<byte>>, pfn: nat, page: seq<byte>)
    requires WellFormed(c) && IsMemory(m) && InSync(c, m) && pfn < |m|
    ensures Cached(c, pfn) ==> InSync(Touch(c, pfn), m)
    ensures InSync(Fill(Touch(c, pfn), page), m[pfn := page])
  {
    var t := Touch(c, pfn);
    var t', m' := Fill(t, page), m[pfn := page];
    forall j | 0 < j < |t| ensures EntryInSync(t, m, j) && EntryInSync(t', m', j) {
      TouchOthers(c, pfn, j);
      var i :| 0 <= i < |c| && c[i] == t[j];
      assert EntryInSync(c, m, i);
    }
    assert EntryInSync(t', m', 0);
    if Cached(c, pfn) {
      assert EntryInSync(c, m, IndexOf(c, pfn));
      assert EntryInSync(t, m, 0);
    }
  }

  lemma RawKeepsAgreement(s: Sender, m: seq<seq<byte>>)
    requires Agree(s, m) && s.next < |s.items| && s.items[s.next].raw
    ensures Agree(s.(next := s.next + 1), m[s.items[s.next].pfn := s.items[s.next].page])
  {
    var item, s' := s.items[s.next], s.(next := s.next + 1);
    var m' := m[item.pfn := item.page];
    assert RawSafeAt(s, s.next);
    forall j | s'.next <= j < |s.items| ensures RawSafeAt(s', j) {
      assert RawSafeAt(s, j);
    }
    forall i | 0 <= i < |s.cache| ensures EntryInSync(s.cache, m', i) {
      assert EntryInSync(s.cache, m, i);
    }
  }

  /**
    One page: when a miss has room, what is emitted restores the page at the
    receiver and sender and receiver still agree; when a raw page or a hit does
    not fit, nothing was emitted and they agree as before.
   */
  lemma EmitOneAgrees(s: Sender, m: seq<seq<byte>>, used: nat, size: nat, rest: seq<byte>)
    requires Agree(s, m) && s.next < |s.items|
    requires Misses(s) ==> used + FULL_PAGE_SIZE <= size
    ensures var r, item := EmitOne(s, used, size), s.items[s.next];
      if r.ok then
        && Agree(r.sender, m[item.pfn := item.page])
        && Decode(r.bytes + rest, m[item.pfn]) == Restored(item.page, rest)
      else
        Agree(r.sender, m) && r.bytes == []
  {
    var r, item := EmitOne(s, used, size), s.items[s.next];
    EmitOneUsable(s, used, size);
    FullRoundTrip(m[item.pfn], item.page, rest);
    if item.raw {
      RawKeepsAgreement(s, m);
    } else {
      TouchKeepsRawSafe(s, item.page);
      TouchedInSync(s.cache, m, item.pfn, item.page);
      if !Misses(s) {
        var held := s.cache[SlotFor(s.cache, item.pfn)];
        assert EntryInSync(s.cache, m, SlotFor(s.cache, item.pfn));
        RoundTrip(held.page, item.page, rest);
      }
    }
  }

  // ----- Whole batches -----

  /** Every page that misses the cache finds room in the buffer. */
  predicate MissesFit(s: Sender, used: nat, size: nat)
    requires Usable(s) && RealItems(s.items)
    decreases |s.items| - s.next
  {
    s.next == |s.items| ||
    (EmitOneUsable(s, used, size);
     var one := EmitOne(s, used, size);
     (Misses(s) ==> one.ok) && (one.ok ==> MissesFit(one.sender, used + |one.bytes|, size)))
  }

  lemma EmitOneFits(s: Sender, used: nat, size: nat)
    requires Usable(s) && s.next < |s.items|
    ensures |EmitOne(s, used, size).bytes| <= WORST_COMP_PAGE_SIZE
    ensures used + WORST_COMP_PAGE_SIZE <= size ==> EmitOne(s, used, size).ok
  {
    var item := s.items[s.next];
    assert PageAt(s.cache, SlotFor(s.cache, item.pfn));
    EncodeFits(s.cache[SlotFor(s.cache, item.pfn)].page, item.page);
  }

  /** With worst-case room the first page goes out, and the rest decides. */
  lemma FirstGoesOut(s: Sender, used: nat, size: nat) returns (one: Emission, used': nat)
    requires Usable(s) && RealItems(s.items) && s.next < |s.items| && used + WORST_COMP_PAGE_SIZE <= size
    ensures used <= used' <= used + WORST_COMP_PAGE_SIZE
    ensures Usable(one.sender) && one.sender.items == s.items && one.sender.next == s.next + 1
    ensures MissesFit(one.sender, used', size) ==> MissesFit(s, used, size)
    ensures EmitAll(one.sender, used', size).ok ==> EmitAll(s, used, size).ok
  {
    EmitOneUsable(s, used, size);
    EmitOneFits(s, used, size);
    one := EmitOne(s, used, size);
    used' := used + |one.bytes|;
  }

  /** A buffer of the worst size for every pending page is always enough, and everything is sent. */
  lemma {:induction false} RoomForAll(s: Sender, used: nat, size: nat)
    requires Usable(s) && RealItems(s.items)
    requires used + 4105 * (|s.items| - s.next) <= size
    ensures MissesFit(s, used, size) && EmitAll(s, used, size).ok
    decreases |s.items| - s.next
  {
    if s.next < |s.items| {
      var one, used' := FirstGoesOut(s, used, size);
      RoomForAll(one.sender, used', size);
    }
  }

  /** The worst size alone is enough for the loop to get past at least one page. */
  lemma MakesProgress(s: Sender, size: nat)
    requires Usable(s) && RealItems(s.items) && s.next < |s.items| && WORST_COMP_PAGE_SIZE <= size
    ensures s.next < Compress(s, size).sender.next
  {
    EmitOneUsable(s, 0, size);
  }

  /** After a page that went out, the loop is that of the advanced sender. */
  lemma EmitAllContinues(s: Sender, used: nat, size: nat, one: Emission, rest: Emission)
    requires Usable(s) && RealItems(s.items) && s.next < |s.items| && MissesFit(s, used, size)
    requires one == EmitOne(s, used, size) && one.ok && Usable(one.sender)
    requires rest == EmitAll(one.sender, used + |one.bytes|, size)
    ensures one.sender.items == s.items && one.sender.next == s.next + 1
    ensures MissesFit(one.sender, used + |one.bytes|, size)
    ensures EmitAll(s, used, size) == rest.(bytes := one.bytes + rest.bytes)
  {
    var all := EmitAll(s, used, size);
    assert all == rest.(bytes := one.bytes + rest.bytes);
  }

  /** The receiver's part of one more page at the front of a chunk. */
  lemma ReceivedStep(items: seq<Item>, from: nat, m: seq<seq<byte>>, bytes: seq<byte>, rest: Emission, all: Emission)
    requires IsMemory(m) && PfnsBelow(items, |m|) && from < rest.sender.next <= |items| && IsPage(items[from].page)
    requires all == rest.(bytes := bytes + rest.bytes)
    requires Decode(bytes + rest.bytes, m[items[from].pfn]) == Restored(items[from].page, rest.bytes)
    requires BatchAgrees(items, from + 1, m[items[from].pfn := items[from].page], rest)
    ensures BatchAgrees(items, from, m, all)
  {
  }

  /** The receiver decodes r into the pages emitted, nothing is left over, and both agree afterwards. */
  predicate BatchAgrees(items: seq<Item>, from: nat, m: seq<seq<byte>>, r: Emission)
    requires IsMemory(m) && PfnsBelow(items, |m|)
  {
    && from <= r.sender.next <= |items|
    && Receive(m, r.bytes, items, from, r.sender.next) == Memory(Apply(m, items, from, r.sender.next))
    && Agree(r.sender, Apply(m, items, from, r.sender.next))
  }

  /** A batch about to go out: all is what it emits. */
  predicate Batched(s: Sender, m: seq<seq<byte>>, used: nat, size: nat, all: Emission) {
    Agree(s, m) && RealItems(s.items) && MissesFit(s, used, size) && all == EmitAll(s, used, size)
  }

  /** A batch: sender and receiver agree again when it has been received. */
  lemma {:induction false} EmitAllAgrees(s: Sender, m: seq<seq<byte>>, used: nat, size: nat, all: Emission)
    requires Batched(s, m, used, size, all)
    ensures BatchAgrees(s.items, s.next, m, all)
    decreases |s.items| - s.next
  {
    if s.next < |s.items| {
      if all.sender.next == s.next {
        NoneWentOut(s, m, used, size);
      } else {
        var one, rest, m', used' := Unrolled(s, m, used, size, all);
        EmitAllAgrees(one.sender, m', used', size, rest);
        BatchContinues(s, m, one, rest, all);
      }
    }
  }

  lemma BatchContinues(s: Sender, m: seq<seq<byte>>, one: Emission, rest: Emission, all: Emission)
    requires Agree(s, m) && s.next < |s.items| && one.sender.items == s.items && one.sender.next == s.next + 1
    requires s.next < rest.sender.next <= |s.items| && all == rest.(bytes := one.bytes + rest.bytes)
    requires Decode(one.bytes + rest.bytes, m[s.items[s.next].pfn]) == Restored(s.items[s.next].page, rest.bytes)
    requires BatchAgrees(one.sender.items, one.sender.next, m[s.items[s.next].pfn := s.items[s.next].page], rest)
    ensures BatchAgrees(s.items, s.next, m, all)
  {
    ReceivedStep(s.items, s.next, m, one.bytes, rest, all);
  }

  lemma Unrolled(s: Sender, m: seq<seq<byte>>, used: nat, size: nat, all: Emission)
    returns (one: Emission, rest: Emission, m': seq<seq<byte>>, used': nat)
    requires Batched(s, m, used, size, all)
    requires s.next < |s.items| && all.sender.next != s.next
    ensures one.sender.items == s.items && one.sender.next == s.next + 1
    ensures m' == m[s.items[s.next].pfn := s.items[s.next].page] && Batched(one.sender, m', used', size, rest)
    ensures s.next < rest.sender.next <= |s.items|
    ensures all == rest.(bytes := one.bytes + rest.bytes)
    ensures Decode(one.bytes + rest.bytes, m[s.items[s.next].pfn]) == Restored(s.items[s.next].page, rest.bytes)
  {
    EmitOneUsable(s, used, size);
    one := EmitOne(s, used, size);
    m', used' := m[s.items[s.next].pfn := s.items[s.next].page], used + |one.bytes|;
    rest := EmitAll(one.sender, used', size);
    EmitOneAgrees(s, m, used, size, rest.bytes);
    EmitAllContinues(s, used, size, one, rest);
  }

  lemma NoneWentOut(s: Sender, m: seq<seq<byte>>, used: nat, size: nat)
    requires Agree(s, m) && RealItems(s.items) && MissesFit(s, used, size)
    requires s.next < |s.items| && EmitAll(s, used, size).sender.next == s.next
    ensures EmitAll(s, used, size).bytes == [] && Agree(EmitAll(s, used, size).sender, m)
  {
    EmitOneUsable(s, used, size);
    EmitOneAgrees(s, m, used, size, []);
  }

  // ----- Whole runs -----

  datatype Op = AddPage(item: Item) | CompressPages(size: nat)

  /** Both ends, and the last page the sender was given for every pfn. */
  datatype World = World(sender: Sender, replica: Replica, latest: seq<seq<byte>>)

  predicate Runnable(w: World) {
    Usable(w.sender) && RealItems(w.sender.items) && (w.replica.Memory? ==> IsMemory(w.replica.pages))
  }

  /** No ordinary version of pfn waits in the buffer. */
  predicate NoOrdinaryPending(s: Sender, pfn: nat) {
    forall i :: s.next <= i < |s.items| && s.items[i].pfn == pfn ==> s.items[i].raw
  }

  /** What can be asked of the sender at all. */
  predicate Possible(w: World, op: Op) {
    op.AddPage? ==>
      && op.item.pfn < |w.latest| && op.item.pfn < INVALID_P2M_ENTRY && IsPage(op.item.page)
      && |w.sender.items| < PAGE_BUFFER_PAGES
  }

  /** What the sender's callers must respect for the receiver to follow. */
  predicate Legal(w: World, op: Op)
    requires Runnable(w)
  {
    Possible(w, op)
    && match op
       case AddPage(item) => item.raw ==> NoOrdinaryPending(w.sender, item.pfn)
       case CompressPages(size) => MissesFit(w.sender, 0, size)
  }

  function Step(w: World, op: Op): (r: World)
    requires Runnable(w) && Possible(w, op)
  {
    match op
    case AddPage(item) => World(Add(w.sender, item), w.replica, w.latest[item.pfn := item.page])
    case CompressPages(size) =>
      var b := Compress(w.sender, size);
      var replica :=
        if b.rc == 0 || w.replica.Broken? then w.replica
        else Receive(w.replica.pages, b.bytes, w.sender.items, w.sender.next, b.sender.next);
      World(b.sender, replica, w.latest)
  }

  /** The replica is what the sender was given, less what still waits in the buffer. */
  predicate Replicated(w: World) {
    && Runnable(w) && w.replica.Memory? && Agree(w.sender, w.replica.pages)
    && Apply(w.replica.pages, w.sender.items, w.sender.next, |w.sender.items|) == w.latest
  }

  lemma AddKeepsRawSafe(s: Sender, item: Item)
    requires Usable(s) && RealItems(s.items) && RawSafe(s) && item.pfn < INVALID_P2M_ENTRY
    requires item.raw ==> NoOrdinaryPending(s, item.pfn)
    ensures RawSafe(Add(s, item))
  {
    var s' := Add(s, item);
    DropKeeps(s.cache, item.pfn);
    forall j | s'.next <= j < |s'.items| ensures RawSafeAt(s', j) {
      if j < |s.items| && s.items[j].raw {
        assert RawSafeAt(s, j);
        DropCachesNothing(s.cache, item.pfn, s.items[j].pfn);
      }
    }
  }

  lemma AddAgrees(s: Sender, m: seq<seq<byte>>, item: Item)
    requires Agree(s, m) && RealItems(s.items) && item.pfn < |m| && item.pfn < INVALID_P2M_ENTRY && IsPage(item.page)
    requires item.raw ==> NoOrdinaryPending(s, item.pfn)
    ensures Agree(Add(s, item), m) && RealItems(Add(s, item).items)
  {
    AddKeepsRawSafe(s, item);
    DropKeeps(s.cache, item.pfn);
    DropStaysInSync(s.cache, m, item.pfn);
  }

  lemma AddReplicated(w: World, item: Item)
    requires Replicated(w) && Legal(w, AddPage(item))
    ensures Replicated(Step(w, AddPage(item)))
  {
    var s, m := w.sender, w.replica.pages;
    AddAgrees(s, m, item);
    ApplyAdded(m, s.items, item, s.next);
  }

  lemma DropStaysInSync(c: seq<Entry>, m: seq<seq<byte>>, pfn: nat)
    requires InSync(c, m)
    ensures InSync(Drop(c, pfn), m)
  {
    var d, i := Drop(c, pfn), IndexOf(c, pfn);
    forall j | 0 <= j < |d| ensures EntryInSync(d, m, j) {
      assert EntryInSync(c, m, j);
      if i <= j < |d| - 1 {
        assert EntryInSync(c, m, j + 1);
      }
    }
  }

  lemma DropCachesNothing(c: seq<Entry>, pfn: nat, q: nat)
    requires WellFormed(c) && q < INVALID_P2M_ENTRY && !Cached(c, q)
    ensures !Cached(Drop(c, pfn), q)
  {
  }

  lemma CompressReplicated(w: World, size: nat)
    requires Replicated(w) && Legal(w, CompressPages(size))
    ensures Replicated(Step(w, CompressPages(size)))
  {
    var s, m := w.sender, w.replica.pages;
    if s.next < |s.items| {
      var e := EmitAll(s, 0, size);
      EmitAllAgrees(s, m, 0, size, EmitAll(s, 0, size));
      ApplyIsMemory(m, s.items, s.next, e.sender.next);
      ApplySplit(m, s.items, s.next, e.sender.next, |s.items|);
    }
  }

  predicate AllLegal(w: World, ops: seq<Op>)
    requires Runnable(w)
    decreases |ops|
  {
    ops == [] ||
    (Legal(w, ops[0]) && Runnable(Step(w, ops[0])) && AllLegal(Step(w, ops[0]), ops[1..]))
  }

  function Run(w: World, ops: seq<Op>): (r: World)
    requires Runnable(w) && AllLegal(w, ops)
    decreases |ops|
  {
    if ops == [] then w else Run(Step(w, ops[0]), ops[1..])
  }

  /** Compression starts with an empty cache and buffer and equal memories. */
  predicate Start(w: World) {
    && Usable(w.sender) && w.sender.items == [] && w.sender.next == 0 && Occupied(w.sender.cache) == 0
    && w.replica.Memory? && IsMemory(w.replica.pages) && w.replica.pages == w.latest
  }

  lemma {:induction false} RunReplicated(w: World, ops: seq<Op>)
    requires Replicated(w) && AllLegal(w, ops)
    ensures Replicated(Run(w, ops))
    decreases |ops|
  {
    if ops != [] {
      match ops[0] {
        case AddPage(item) => AddReplicated(w, item);
        case CompressPages(size) => CompressReplicated(w, size);
      }
      RunReplicated(Step(w, ops[0]), ops[1..]);
    }
  }

  /**
    Over every legal run no chunk is corrupt, every cached page is the
    receiver's copy, and once the buffer is drained the receiver holds, for
    every pfn, the last page the sender was given.
   */
  lemma RunFollows(w: World, ops: seq<Op>)
    requires Start(w) && AllLegal(w, ops)
    ensures var r := Run(w, ops);
      && r.replica.Memory? && InSync(r.sender.cache, r.replica.pages)
      && (r.sender.next == |r.sender.items| ==> r.replica.pages == r.latest)
  {
    Opened(w.sender.cache);
    assert forall i :: 0 <= i < |w.sender.cache| ==> w.sender.cache[i].Free();
    RunReplicated(w, ops);
  }
}
