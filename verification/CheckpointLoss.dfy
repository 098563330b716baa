/**
  Where sender and receiver of checkpoint compression lose their agreement: the
  two situations the code does not guard against, each with the exact condition
  under which it stays harmless.
 */
module CheckpointLoss {
  import opened Common
  import opened PageDelta
  import opened DeltaCache
  import opened Checkpoint

  /** A cached page that is not the receiver's: sending just that page again leaves the receiver as it was. */
  lemma OutOfStepCorrupts(c: seq<Entry>, m: seq<seq<byte>>, i: nat, rest: seq<byte>)
    requires WellFormed(c) && IsMemory(m) && i < |c| && !c[i].Free() && c[i].pfn < |m| && !EntryInSync(c, m, i)
    ensures IsPage(c[i].page) && c[i].page != m[c[i].pfn]
    ensures Decode(Encode(c[i].page, c[i].page) + rest, m[c[i].pfn]) == Restored(m[c[i].pfn], rest)
  {
    assert PageAt(c, i);
    SameUnchanged(c[i].page, MAX_DELTAS);
    assert ([EMPTY_PAGE] + rest)[1..] == rest;
  }

  // ----- A miss without room -----

  /** What sender and receiver must still satisfy after one round of the loop. */
  predicate RoundAgrees(s: Sender, m: seq<seq<byte>>, used: nat, size: nat)
    requires Usable(s) && s.next < |s.items|
  {
    var r, item := EmitOne(s, used, size), s.items[s.next];
    Agree(r.sender, if r.ok && item.pfn < |m| then m[item.pfn := item.page] else m)
  }

  /**
    A page that misses the cache and does not fit leaves its slot claimed with
    the bytes of the evicted page: the caches agree only by coincidence.
   */
  lemma MissWithoutRoom(s: Sender, m: seq<seq<byte>>, used: nat, size: nat)
    requires Agree(s, m) && RealItems(s.items) && Misses(s) && used + FULL_PAGE_SIZE > size
    ensures RoundAgrees(s, m, used, size) <==> s.cache[|s.cache| - 1].page == m[s.items[s.next].pfn]
  {
    var item := s.items[s.next];
    var t := Touch(s.cache, item.pfn);
    EmitOneUsable(s, used, size);
    TouchKeepsRawSafe(s, item.page);
    assert t[0] == Entry(item.pfn, s.cache[|s.cache| - 1].page);
    forall j | 0 < j < |t| ensures EntryInSync(t, m, j) {
      TouchOthers(s.cache, item.pfn, j);
      var i :| 0 <= i < |s.cache| && s.cache[i] == t[j];
      assert EntryInSync(s.cache, m, i);
    }
    assert InSync(t, m) ==> EntryInSync(t, m, 0);
  }

  /** The same sender with another page in its last slot, and the receiver's memory to match. */
  function WithLast(s: Sender, page: seq<byte>): (r: Sender)
    requires |s.cache| > 0
  {
    s.(cache := s.cache[|s.cache| - 1 := Entry(s.cache[|s.cache| - 1].pfn, page)])
  }

  function HeldWith(s: Sender, m: seq<seq<byte>>, page: seq<byte>): (r: seq<seq<byte>>)
    requires |s.cache| > 0
    ensures |r| == |m|
  {
    var q := s.cache[|s.cache| - 1].pfn;
    if q < |m| then m[q := page] else m
  }

  lemma LastSlotWellFormed(s: Sender, page: seq<byte>)
    requires Usable(s) && IsPage(page)
    ensures WellFormed(WithLast(s, page).cache)
    ensures forall pfn: nat :: Cached(WithLast(s, page).cache, pfn) == Cached(s.cache, pfn)
  {
    var c, c' := s.cache, WithLast(s, page).cache;
    forall i, j | 0 <= i < j < |c| ensures PairOk(c', i, j) {
      assert PairOk(c, i, j);
    }
    forall i | 0 <= i < |c| ensures PageAt(c', i) {
      assert PageAt(c, i);
    }
    assert forall i :: 0 <= i < |c| ==> c'[i].pfn == c[i].pfn;
    forall pfn: nat ensures Cached(c', pfn) == Cached(c, pfn) {
    }
  }

  lemma LastSlotInSync(s: Sender, m: seq<seq<byte>>, page: seq<byte>)
    requires Usable(s) && IsMemory(m) && InSync(s.cache, m) && IsPage(page)
    ensures InSync(WithLast(s, page).cache, HeldWith(s, m, page))
  {
    var c, n := s.cache, |s.cache| - 1;
    forall i | 0 <= i < |c| ensures EntryInSync(WithLast(s, page).cache, HeldWith(s, m, page), i) {
      assert EntryInSync(c, m, i) && EntryInSync(c, m, n);
      if i < n {
        assert PairOk(c, i, n);
      }
    }
  }

  /** Whatever page the last slot caches, free or not, the two sides agree if they both have it. */
  lemma LastIsArbitrary(s: Sender, m: seq<seq<byte>>, page: seq<byte>)
    requires Agree(s, m) && RealItems(s.items) && IsPage(page)
    ensures Agree(WithLast(s, page), HeldWith(s, m, page)) && Misses(WithLast(s, page)) == Misses(s)
  {
    var s' := WithLast(s, page);
    LastSlotWellFormed(s, page);
    LastSlotInSync(s, m, page);
    forall j | s.next <= j < |s.items| ensures RawSafeAt(s', j) {
      assert RawSafeAt(s, j);
    }
  }

  /**
    A round is safe whatever page its last slot holds, be the slot free or that
    of the page to be evicted, if and only if a miss has room for a full page.
   */
  lemma RoundSafeExactlyWithRoom(s: Sender, m: seq<seq<byte>>, used: nat, size: nat)
    requires Agree(s, m) && RealItems(s.items) && s.next < |s.items|
    ensures (forall page: seq<byte> :: IsPage(page) && Agree(WithLast(s, page), HeldWith(s, m, page)) ==>
               RoundAgrees(WithLast(s, page), HeldWith(s, m, page), used, size))
            <==> (Misses(s) ==> used + FULL_PAGE_SIZE <= size)
  {
    if Misses(s) ==> used + FULL_PAGE_SIZE <= size {
      forall page: seq<byte> | IsPage(page) && Agree(WithLast(s, page), HeldWith(s, m, page))
        ensures RoundAgrees(WithLast(s, page), HeldWith(s, m, page), used, size)
      {
        LastIsArbitrary(s, m, page);
        EmitOneAgrees(WithLast(s, page), HeldWith(s, m, page), used, size, []);
      }
    } else {
      var page := OtherPage(m[s.items[s.next].pfn]);
      LastIsArbitrary(s, m, page);
      MissWithoutRoom(WithLast(s, page), HeldWith(s, m, page), used, size);
    }
  }

  function OtherPage(p: seq<byte>): (r: seq<byte>)
    requires IsPage(p)
    ensures IsPage(r) && r[0] != p[0]
  {
    p[0 := if p[0] == 0 then 1 else 0]
  }

  /**
    The retry after such a failure sends a delta against the leftover bytes. It
    restores the page exactly when the receiver already holds every word that
    the leftover shares with the new page.
   */
  lemma RetryAfterLostMiss(s: Sender, m: seq<seq<byte>>, used: nat, size: nat, room: nat, rest: seq<byte>)
    requires Agree(s, m) && RealItems(s.items) && Misses(s) && used + FULL_PAGE_SIZE > size
    requires WORST_COMP_PAGE_SIZE <= room
    ensures Usable(EmitOne(s, used, size).sender) && PageAt(s.cache, |s.cache| - 1)
    ensures var retry := EmitOne(EmitOne(s, used, size).sender, 0, room);
      var item, spare := s.items[s.next], s.cache[|s.cache| - 1].page;
      && retry.ok && retry.bytes == Encode(spare, item.page)
      && (Decode(retry.bytes + rest, m[item.pfn]) == Restored(item.page, rest) <==>
          forall k :: 0 <= k < MAX_DELTAS && !Changed(spare, item.page, k) ==> !Changed(m[item.pfn], item.page, k))
  {
    EmitOneUsable(s, used, size);
    var item, spare := s.items[s.next], s.cache[|s.cache| - 1].page;
    var t := Touch(s.cache, item.pfn);
    assert t[0] == Entry(item.pfn, spare) && IndexOf(t, item.pfn) == 0;
    assert PageAt(s.cache, |s.cache| - 1);
    WrongBase(spare, item.page, m[item.pfn], rest);
  }

  // ----- Batches of cold pages -----

  /** Ordinary pages of different pfns, none of them cached. */
  predicate AllCold(s: Sender) {
    forall k :: s.next <= k < |s.items| ==> ColdAt(s, k)
  }

  predicate ColdAt(s: Sender, k: nat)
    requires k < |s.items|
  {
    && !s.items[k].raw && !Cached(s.cache, s.items[k].pfn)
    && forall l :: s.next <= l < |s.items| && l != k ==> s.items[l].pfn != s.items[k].pfn
  }

  /** A cold page costs a full page, or fails for want of that much room; the others stay cold. */
  lemma ColdPage(s: Sender, used: nat, size: nat) returns (one: Emission)
    requires Usable(s) && RealItems(s.items) && AllCold(s) && s.next < |s.items|
    ensures one == EmitOne(s, used, size) && Usable(one.sender) && Misses(s)
    ensures one.ok <==> used + FULL_PAGE_SIZE <= size
    ensures one.ok ==> |one.bytes| == FULL_PAGE_SIZE && one.sender.items == s.items && one.sender.next == s.next + 1
    ensures one.ok ==> AllCold(one.sender)
  {
    one := EmitOne(s, used, size);
    EmitOneUsable(s, used, size);
    assert ColdAt(s, s.next);
    if one.ok {
      forall k | s.next < k < |s.items| ensures ColdAt(one.sender, k) {
        assert ColdAt(s, k);
        StaysUncached(s.cache, s.items[s.next].pfn, s.items[s.next].page, s.items[k].pfn);
      }
    }
  }

  lemma StaysUncached(c: seq<Entry>, pfn: nat, page: seq<byte>, q: nat)
    requires WellFormed(c) && pfn != INVALID_P2M_ENTRY && q != INVALID_P2M_ENTRY && q != pfn && !Cached(c, q)
    ensures !Cached(Fill(Touch(c, pfn), page), q)
  {
    var t := Fill(Touch(c, pfn), page);
    forall j | 0 <= j < |t| ensures t[j].pfn != q {
      if j > 0 {
        TouchOthers(c, pfn, j);
      }
    }
  }

  /** A batch of cold pages meets no miss without room if and only if all of it fits, 4097 bytes a page. */
  lemma {:induction false} ColdBatchExactly(s: Sender, used: nat, size: nat)
    requires Usable(s) && RealItems(s.items) && AllCold(s) && used <= size
    ensures MissesFit(s, used, size) <==> used + 4097 * (|s.items| - s.next) <= size
    decreases |s.items| - s.next
  {
    if s.next < |s.items| {
      var one := ColdPage(s, used, size);
      if one.ok {
        ColdBatchExactly(one.sender, used + FULL_PAGE_SIZE, size);
      }
    }
  }

  /** The buffer the caller offers: 16 MiB less the header of a chunk. */
  const CALLERS_ROOM: nat := 16384 * 1024 - 12

  /** With that buffer 4094 cold pages are safe in one batch, and the page buffer takes 8192. */
  lemma CallersBatch(s: Sender)
    requires Usable(s) && RealItems(s.items) && AllCold(s)
    ensures MissesFit(s, 0, CALLERS_ROOM) <==> |s.items| - s.next <= 4094
  {
    ColdBatchExactly(s, 0, CALLERS_ROOM);
  }

  // ----- A run that corrupts a page -----

  /** Two cold pages, the second equal to what the second slot from the end last held. */
  predicate Unlucky(w: World, first: seq<byte>, second: seq<byte>) {
    && Start(w) && |w.sender.cache| >= 2 && |w.latest| >= 2 && IsPage(first) && IsPage(second)
    && second == w.sender.cache[|w.sender.cache| - 2].page && second != w.latest[1]
  }

  function Pair(first: seq<byte>, second: seq<byte>): (items: seq<Item>) {
    [Item(0, first, false), Item(1, second, false)]
  }

  /** The first page goes out whole. */
  lemma FirstGoes(c: seq<Entry>, first: seq<byte>, second: seq<byte>)
    requires WellFormed(c) && |c| >= 2 && Occupied(c) == 0 && IsPage(first) && IsPage(second)
    ensures var c1 := Fill(Touch(c, 0), first);
      && WellFormed(c1) && c1[|c1| - 1] == c[|c| - 2] && !Cached(c1, 1)
      && EmitOne(Sender(c, Pair(first, second), 0), 0, 8192)
         == Emission(Sender(c1, Pair(first, second), 1), EncodeFull(first), true)
  {
    Opened(c);
    assert forall i :: 0 <= i < |c| ==> c[i].Free();
    EmitOneUsable(Sender(c, Pair(first, second), 0), 0, 8192);
    TouchShifts(c, 0, |c| - 1);
    StaysUncached(c, 0, first, 1);
  }

  /** The second has no room, and its slot is left with the bytes it had. */
  lemma SecondFails(c: seq<Entry>, first: seq<byte>, second: seq<byte>)
    requires WellFormed(c) && |c| >= 2 && !Cached(c, 1) && IsPage(first) && IsPage(second) && c[|c| - 1].page == second
    ensures var c2 := Touch(c, 1);
      && WellFormed(c2) && c2[0] == Entry(1, second)
      && EmitOne(Sender(c, Pair(first, second), 1), 4097, 8192)
         == Emission(Sender(c2, Pair(first, second), 1), [], false)
  {
    EmitOneUsable(Sender(c, Pair(first, second), 1), 4097, 8192);
  }

  /** Tried again, it is taken for unchanged. */
  lemma SecondSkipped(c: seq<Entry>, first: seq<byte>, second: seq<byte>)
    requires WellFormed(c) && c[0] == Entry(1, second) && IsPage(first) && IsPage(second)
    ensures var r := EmitOne(Sender(c, Pair(first, second), 1), 0, 8192);
      r.ok && r.bytes == [EMPTY_PAGE] && r.sender.next == 2 && r.sender.items == Pair(first, second)
  {
    assert IndexOf(c, 1) == 0;
    SameUnchanged(second, MAX_DELTAS);
  }

  /** The two chunks the sender makes of them. */
  lemma TwoChunks(c: seq<Entry>, first: seq<byte>, second: seq<byte>) returns (s2: Sender, s3: Sender)
    requires WellFormed(c) && |c| >= 2 && Occupied(c) == 0 && IsPage(first) && IsPage(second)
    requires c[|c| - 2].page == second
    ensures Usable(s2) && s2.next == 1 && s2.items == Pair(first, second)
    ensures Compress(Sender(c, Pair(first, second), 0), 8192) == Batch(s2, EncodeFull(first), -1)
    ensures Compress(s2, 8192) == Batch(s3, [EMPTY_PAGE], 1) && s3.next == 2 && s3.items == Pair(first, second)
  {
    var s := Sender(c, Pair(first, second), 0);
    FirstGoes(c, first, second);
    var s1 := EmitOne(s, 0, 8192).sender;
    SecondFails(s1.cache, first, second);
    s2 := EmitOne(s1, 4097, 8192).sender;
    assert EmitAll(s1, 4097, 8192) == Emission(s2, [], false);
    assert EncodeFull(first) + [] == EncodeFull(first);
    SecondSkipped(s2.cache, first, second);
    var last := EmitOne(s2, 0, 8192);
    EmitOneUsable(s2, 0, 8192);
    s3 := last.sender;
    assert EmitAll(s3, 1, 8192) == Emission(s3, [], true);
    assert [EMPTY_PAGE] + [] == [EMPTY_PAGE];
  }

  /** What the receiver makes of them: the second page stays as it was. */
  lemma TwoReceived(m: seq<seq<byte>>, first: seq<byte>, second: seq<byte>)
    requires IsMemory(m) && |m| >= 2 && IsPage(first) && IsPage(second)
    ensures Receive(m, EncodeFull(first), Pair(first, second), 0, 1) == Memory(m[0 := first])
    ensures Receive(m[0 := first], [EMPTY_PAGE], Pair(first, second), 1, 2) == Memory(m[0 := first])
  {
    FullRoundTrip(m[0], first, []);
    assert EncodeFull(first) + [] == EncodeFull(first);
    var m1 := m[0 := first];
    assert Receive(m1, [], Pair(first, second), 1, 1) == Memory(m1);
    assert [EMPTY_PAGE][1..] == [];
    assert m1[1 := m1[1]] == m1;
  }

  predicate Stepped(w: World, op: Op, r: World) {
    Runnable(w) && Possible(w, op) && r == Step(w, op)
  }

  /** Both pages are added, then compressed in two batches. */
  predicate TwoPageRun(w: World, first: seq<byte>, second: seq<byte>, w1: World, w2: World, w3: World, w4: World) {
    && Stepped(w, AddPage(Item(0, first, false)), w1) && Stepped(w1, AddPage(Item(1, second, false)), w2)
    && Stepped(w2, CompressPages(8192), w3) && Stepped(w3, CompressPages(8192), w4)
  }

  /** Everything was sent, and the receiver still has the page of pfn 1 that it had. */
  predicate SecondLost(w: World, second: seq<byte>, r: World) {
    && r.sender.next == |r.sender.items| && r.replica.Memory? && |r.replica.pages| == |r.latest| == |w.latest| >= 2
    && r.replica.pages[1] == w.latest[1] != second == r.latest[1]
  }

  /**
    Adding two cold pages and emitting them through buffers of 8192 bytes, which
    is all the caller makes sure of, ends with everything sent and the second
    page wrong at the receiver.
   */
  lemma LostMiss(w: World, first: seq<byte>, second: seq<byte>) returns (w1: World, w2: World, w3: World, w4: World)
    requires Unlucky(w, first, second)
    ensures TwoPageRun(w, first, second, w1, w2, w3, w4) && SecondLost(w, second, w4)
  {
    w1 := Step(w, AddPage(Item(0, first, false)));
    w2 := Step(w1, AddPage(Item(1, second, false)));
    assert w2.sender == Sender(w.sender.cache, Pair(first, second), 0);
    var s2, s3 := TwoChunks(w.sender.cache, first, second);
    TwoReceived(w.latest, first, second);
    w3 := Step(w2, CompressPages(8192));
    w4 := Step(w3, CompressPages(8192));
  }

  function Filled(b: byte): (p: seq<byte>)
    ensures IsPage(p)
  {
    seq(XC_PAGE_SIZE, _ => b)
  }

  /** Such a start exists with as many slots as the context has. */
  lemma LostMissCorrupts() returns (w: World, w1: World, w2: World, w3: World, w4: World)
    ensures Start(w) && |w.sender.cache| == 8192 && TwoPageRun(w, Filled(2), Filled(1), w1, w2, w3, w4)
    ensures w4.sender.next == |w4.sender.items| && w4.replica.Memory? && w4.replica.pages != w4.latest
  {
    var c := seq(8192, _ => Entry(INVALID_P2M_ENTRY, Filled(1)));
    var m := [Filled(0), Filled(0)];
    w := World(Sender(c, [], 0), Memory(m), m);
    ColdStart(c, m);
    assert Filled(1)[0] != Filled(0)[0];
    w1, w2, w3, w4 := LostMiss(w, Filled(2), Filled(1));
  }

  lemma ColdStart(c: seq<Entry>, m: seq<seq<byte>>)
    requires |c| > 0 && IsMemory(m) && forall i :: 0 <= i < |c| ==> c[i] == Entry(INVALID_P2M_ENTRY, Filled(1))
    ensures Start(World(Sender(c, [], 0), Memory(m), m))
  {
    forall i, j | 0 <= i < j < |c| ensures PairOk(c, i, j) {
    }
    forall i | 0 <= i < |c| ensures PageAt(c, i) {
    }
  }

  // ----- A raw page behind an ordinary version of it -----

  /** The sender with one more item, the cache as it is. */
  function Plus(s: Sender, item: Item): (r: Sender) {
    s.(items := s.items + [item])
  }

  predicate Extends(s: Sender, item: Item) {
    Usable(s) && RealItems(s.items) && IsPage(item.page) && item.pfn < INVALID_P2M_ENTRY
  }

  lemma PlusUsable(s: Sender, item: Item)
    requires Extends(s, item)
    ensures Usable(Plus(s, item)) && RealItems(Plus(s, item).items)
  {
  }

  /** A later item does not change what becomes of the next one. */
  lemma EmitOnePlus(s: Sender, item: Item, used: nat, size: nat)
    requires Extends(s, item) && s.next < |s.items|
    ensures Usable(Plus(s, item))
    ensures var a, b := EmitOne(s, used, size), EmitOne(Plus(s, item), used, size);
      b.ok == a.ok && b.bytes == a.bytes && b.sender == Plus(a.sender, item)
  {
    PlusUsable(s, item);
    assert (s.items + [item])[s.next] == s.items[s.next];
  }

  /** All of s goes out, as e. */
  predicate GoesOut(s: Sender, used: nat, size: nat, e: Emission) {
    Usable(s) && RealItems(s.items) && e == EmitAll(s, used, size) && e.ok
  }

  /** With item behind s, the emission ends with cache c. */
  predicate EndsWith(s: Sender, item: Item, used: nat, size: nat, c: seq<Entry>) {
    && Usable(Plus(s, item)) && RealItems(Plus(s, item).items)
    && EmitAll(Plus(s, item), used, size).sender.cache == c
  }

  /** A raw page behind others that all go out leaves the cache as they left it. */
  lemma {:induction false} RawLast(s: Sender, item: Item, used: nat, size: nat, e: Emission)
    requires Extends(s, item) && item.raw && GoesOut(s, used, size, e)
    ensures EndsWith(s, item, used, size, e.sender.cache)
    decreases |s.items| - s.next
  {
    if s.next == |s.items| {
      RawAlone(s, item, used, size);
    } else {
      var one, rest, used' := FirstOf(s, item, used, size, e);
      RawLast(one.sender, item, used', size, rest);
      PlusUnrolls(s, item, used, size, one, used', rest.sender.cache);
    }
  }

  lemma RawAlone(s: Sender, item: Item, used: nat, size: nat)
    requires Extends(s, item) && item.raw && s.next == |s.items|
    ensures EndsWith(s, item, used, size, s.cache)
  {
    PlusUsable(s, item);
    var t := Plus(s, item);
    assert t.items[s.next] == item;
    EmitOneUsable(t, used, size);
  }

  /** The first page of a batch that all goes out, and the rest of it. */
  lemma FirstOf(s: Sender, item: Item, used: nat, size: nat, e: Emission)
    returns (one: Emission, rest: Emission, used': nat)
    requires Extends(s, item) && GoesOut(s, used, size, e) && s.next < |s.items|
    ensures one == EmitOne(s, used, size) && one.ok && used' == used + |one.bytes|
    ensures one.sender.items == s.items && one.sender.next == s.next + 1
    ensures Extends(one.sender, item) && GoesOut(one.sender, used', size, rest)
    ensures e.sender == rest.sender && used + |e.bytes| == used' + |rest.bytes|
  {
    EmitOneUsable(s, used, size);
    one := EmitOne(s, used, size);
    used' := used + |one.bytes|;
    rest := EmitAll(one.sender, used', size);
  }

  lemma PlusUnrolls(s: Sender, item: Item, used: nat, size: nat, one: Emission, used': nat, c: seq<Entry>)
    requires Extends(s, item) && s.next < |s.items|
    requires one == EmitOne(s, used, size) && one.ok && used' == used + |one.bytes|
    requires EndsWith(one.sender, item, used', size, c)
    ensures EndsWith(s, item, used, size, c)
  {
    PlusUsable(s, item);
    EmitOnePlus(s, item, used, size);
    ContinuesAs(Plus(s, item), used, size, Plus(one.sender, item), used');
  }

  /** After a page that goes out, the rest decides where the emission ends. */
  lemma ContinuesAs(s: Sender, used: nat, size: nat, s': Sender, used': nat)
    requires Usable(s) && RealItems(s.items) && s.next < |s.items| && Usable(s') && RealItems(s'.items)
    requires var one := EmitOne(s, used, size); one.ok && one.sender == s' && used + |one.bytes| == used'
    ensures EmitAll(s, used, size).sender == EmitAll(s', used', size).sender
  {
    var all, rest := EmitAll(s, used, size), EmitAll(s', used', size);
    assert all.sender == rest.sender;
  }

  /** The sender as a raw page leaves its cache. */
  function Dropped(s: Sender, pfn: nat): (r: Sender) {
    s.(cache := Drop(s.cache, pfn))
  }

  lemma DroppedAgrees(s: Sender, m: seq<seq<byte>>, pfn: nat)
    requires Agree(s, m) && RealItems(s.items) && pfn < |m|
    ensures Agree(Dropped(s, pfn), m) && !Cached(Drop(s.cache, pfn), pfn)
  {
    var s0 := Dropped(s, pfn);
    DropKeeps(s.cache, pfn);
    DropStaysInSync(s.cache, m, pfn);
    forall j | s.next <= j < |s.items| ensures RawSafeAt(s0, j) {
      assert RawSafeAt(s, j);
      if s.items[j].raw {
        DropCachesNothing(s.cache, pfn, s.items[j].pfn);
      }
    }
  }

  /** Memory changes at one page: a cache in step stays so unless it caches that page. */
  lemma InSyncAfter(c: seq<Entry>, m: seq<seq<byte>>, pfn: nat, page: seq<byte>)
    requires InSync(c, m) && pfn < |m| && pfn != INVALID_P2M_ENTRY
    ensures InSync(c, m[pfn := page]) <==> !Cached(c, pfn) || m[pfn] == page
  {
    var m' := m[pfn := page];
    forall i | 0 <= i < |c| ensures EntryInSync(c, m', i) <==> c[i].pfn != pfn || m[pfn] == page {
      assert EntryInSync(c, m, i);
    }
    if Cached(c, pfn) {
      assert InSync(c, m') ==> EntryInSync(c, m', IndexOf(c, pfn));
    }
  }

  /** Whether cache and receiver are in step once item has joined the buffer and all of it was sent. */
  predicate DrainsInSync(s: Sender, m: seq<seq<byte>>, item: Item, size: nat) {
    var t := Add(s, item);
    && Usable(t) && RealItems(t.items) && PfnsBelow(t.items, |m|)
    && EmitAll(t, 0, size).ok && InSync(EmitAll(t, 0, size).sender.cache, Apply(m, t.items, t.next, |t.items|))
  }

  /** Sender and receiver agree, and the send buffer has worst-case room for one page more than wait. */
  predicate RoomForOneMore(s: Sender, m: seq<seq<byte>>, pfn: nat, size: nat) {
    Agree(s, m) && RealItems(s.items) && pfn < |m| && 4105 * (|s.items| + 1 - s.next) <= size
  }

  /** Without the raw page everything goes out, and both sides agree about the pages before it. */
  lemma BeforeRaw(s: Sender, m: seq<seq<byte>>, pfn: nat, size: nat) returns (e: Emission)
    requires RoomForOneMore(s, m, pfn, size)
    ensures Agree(Dropped(s, pfn), m) && GoesOut(Dropped(s, pfn), 0, size, e)
    ensures e.sender.items == s.items && e.sender.next == |s.items|
    ensures Agree(e.sender, Apply(m, s.items, s.next, |s.items|))
  {
    DroppedAgrees(s, m, pfn);
    RoomForAll(Dropped(s, pfn), 0, size);
    e := EmitAll(Dropped(s, pfn), 0, size);
    EmitAllAgrees(Dropped(s, pfn), m, 0, size, e);
  }

  /** With it everything goes out as well, and the cache ends the same. */
  lemma WithRaw(s: Sender, item: Item, size: nat, e: Emission)
    requires Extends(Dropped(s, item.pfn), item) && item.raw && GoesOut(Dropped(s, item.pfn), 0, size, e)
    requires 4105 * (|s.items| + 1 - s.next) <= size && e.sender.items == s.items && e.sender.next == |s.items|
    ensures Usable(Add(s, item)) && RealItems(Add(s, item).items)
    ensures EmitAll(Add(s, item), 0, size).ok && EmitAll(Add(s, item), 0, size).sender.cache == e.sender.cache
  {
    var s0 := Dropped(s, item.pfn);
    assert Add(s, item) == Plus(s0, item);
    PlusUsable(s0, item);
    RoomForAll(Add(s, item), 0, size);
    RawLast(s0, item, 0, size, e);
  }

  /**
    A raw page joins any buffer. When everything has been sent, cache and
    receiver are in step if and only if the cache does not hold the page again,
    or the version buffered last before it was equal to it.
   */
  lemma RawJoins(s: Sender, m: seq<seq<byte>>, item: Item, size: nat)
    requires RoomForOneMore(s, m, item.pfn, size) && item.raw && IsPage(item.page)
    ensures Usable(Dropped(s, item.pfn)) && EmitAll(Dropped(s, item.pfn), 0, size).ok
    ensures DrainsInSync(s, m, item, size) <==>
      || !Cached(EmitAll(Dropped(s, item.pfn), 0, size).sender.cache, item.pfn)
      || Apply(m, s.items, s.next, |s.items|)[item.pfn] == item.page
  {
    var e := BeforeRaw(s, m, item.pfn, size);
    WithRaw(s, item, size, e);
    ApplyAdded(m, s.items, item, s.next);
    InSyncAfter(e.sender.cache, Apply(m, s.items, s.next, |s.items|), item.pfn, item.page);
  }

  /** A page used comes first, any other moves back by at most one slot. */
  lemma UsedComesFirst(c: seq<Entry>, q: nat, page: seq<byte>, pfn: nat)
    requires WellFormed(c) && q != INVALID_P2M_ENTRY && pfn != INVALID_P2M_ENTRY
    ensures var t := Fill(Touch(c, q), page);
      && (q == pfn ==> Cached(t, pfn) && IndexOf(t, pfn) == 0)
      && (q != pfn && !Cached(c, pfn) ==> !Cached(t, pfn))
      && (Cached(c, pfn) && IndexOf(c, pfn) + 1 < |c| ==> Cached(t, pfn) && IndexOf(t, pfn) <= IndexOf(c, pfn) + 1)
  {
    var t, i := Fill(Touch(c, q), page), IndexOf(c, pfn);
    if q != pfn && !Cached(c, pfn) {
      StaysUncached(c, q, page, pfn);
    }
    if q != pfn && i + 1 < |c| {
      if i > 0 {
        TouchShifts(c, q, i);
      }
      TouchShifts(c, q, i + 1);
      assert t[i + 1].pfn == pfn || (i > 0 && t[i].pfn == pfn);
    }
  }

  /** What the cache holds of pfn after a batch of n pages that took it from c to d. */
  predicate HoldsAfter(c: seq<Entry>, d: seq<Entry>, pfn: nat, pending: bool, n: nat) {
    && (!Cached(c, pfn) && !pending ==> !Cached(d, pfn))
    && (Cached(c, pfn) && IndexOf(c, pfn) + n < |c| ==> Cached(d, pfn))
    && (pending && n <= |c| ==> Cached(d, pfn))
  }

  lemma HoldsAfterOneMore(c: seq<Entry>, c1: seq<Entry>, d: seq<Entry>, q: nat, page: seq<byte>, pfn: nat,
                          pending: bool, n: nat)
    requires WellFormed(c) && q != INVALID_P2M_ENTRY && pfn != INVALID_P2M_ENTRY
    requires c1 == Fill(Touch(c, q), page) && HoldsAfter(c1, d, pfn, pending, n)
    ensures HoldsAfter(c, d, pfn, pending || q == pfn, n + 1)
  {
    UsedComesFirst(c, q, page, pfn);
  }

  lemma PendingSplits(s: Sender, t: Sender, pfn: nat)
    requires s.next < |s.items| && t.items == s.items && t.next == s.next + 1
    ensures NoOrdinaryPending(s, pfn) <==>
            NoOrdinaryPending(t, pfn) && (s.items[s.next].raw || s.items[s.next].pfn != pfn)
  {
  }

  /** Every page of a batch that all goes out moves a cached one back by at most one slot. */
  lemma {:induction false} CachedAfter(s: Sender, pfn: nat, used: nat, size: nat, e: Emission)
    requires GoesOut(s, used, size, e) && pfn < INVALID_P2M_ENTRY
    ensures HoldsAfter(s.cache, e.sender.cache, pfn, !NoOrdinaryPending(s, pfn), |s.items| - s.next)
    decreases |s.items| - s.next
  {
    if s.next < |s.items| {
      var item, n := s.items[s.next], |s.items| - s.next - 1;
      var one, rest, used' := FirstOf(s, item, used, size, e);
      CachedAfter(one.sender, pfn, used', size, rest);
      var pending := !NoOrdinaryPending(one.sender, pfn);
      PendingSplits(s, one.sender, pfn);
      if !item.raw {
        HoldsAfterOneMore(s.cache, one.sender.cache, rest.sender.cache, item.pfn, item.page, pfn, pending, n);
      }
    }
  }

  /**
    With no more pages waiting than the cache has slots, which holds of the
    context's buffer and cache, a raw page joins safely whatever it contains if
    and only if no ordinary version of it waits in the buffer.
   */
  lemma RawJoinsExactly(s: Sender, m: seq<seq<byte>>, pfn: nat, size: nat)
    requires RoomForOneMore(s, m, pfn, size) && |s.items| - s.next <= |s.cache|
    ensures (forall page: seq<byte> :: IsPage(page) ==> DrainsInSync(s, m, Item(pfn, page, true), size))
            <==> NoOrdinaryPending(s, pfn)
  {
    var e := BeforeRaw(s, m, pfn, size);
    DroppedAgrees(s, m, pfn);
    CachedAfter(Dropped(s, pfn), pfn, 0, size, e);
    if NoOrdinaryPending(s, pfn) {
      forall page: seq<byte> | IsPage(page) ensures DrainsInSync(s, m, Item(pfn, page, true), size) {
        RawJoins(s, m, Item(pfn, page, true), size);
      }
    } else {
      ApplyIsMemory(m, s.items, s.next, |s.items|);
      var other := OtherPage(Apply(m, s.items, s.next, |s.items|)[pfn]);
      RawJoins(s, m, Item(pfn, other, true), size);
    }
  }

  // ----- A run that corrupts a page behind a raw one -----

  /** An ordinary page, a raw version of it, both sent; then the ordinary version again. */
  predicate RawRun(w: World, a: seq<byte>, b: seq<byte>,
                   w1: World, w2: World, w3: World, w4: World, w5: World, w6: World)
  {
    && Stepped(w, AddPage(Item(0, a, false)), w1) && Stepped(w1, AddPage(Item(0, b, true)), w2)
    && Stepped(w2, CompressPages(16384), w3) && Stepped(w3, CompressPages(16384), w4)
    && Stepped(w4, AddPage(Item(0, a, false)), w5) && Stepped(w5, CompressPages(16384), w6)
  }

  function BothItems(a: seq<byte>, b: seq<byte>): (items: seq<Item>) {
    [Item(0, a, false), Item(0, b, true)]
  }

  /** Both pages go out whole, and the ordinary one stays in the cache. */
  lemma BothGo(c: seq<Entry>, a: seq<byte>, b: seq<byte>) returns (c1: seq<Entry>)
    requires WellFormed(c) && Occupied(c) == 0 && IsPage(a) && IsPage(b)
    ensures Drop(c, 0) == c && WellFormed(c1) && c1[0] == Entry(0, a)
    ensures Usable(Sender(c, BothItems(a, b), 0)) && RealItems(BothItems(a, b))
    ensures Compress(Sender(c, BothItems(a, b), 0), 16384)
         == Batch(Sender(c1, BothItems(a, b), 2), EncodeFull(a) + EncodeFull(b), 1)
  {
    Opened(c);
    assert forall i :: 0 <= i < |c| ==> c[i].Free();
    c1 := Fill(Touch(c, 0), a);
    var s0, s1, s2 := Sender(c, BothItems(a, b), 0), Sender(c1, BothItems(a, b), 1), Sender(c1, BothItems(a, b), 2);
    EmitOneUsable(s0, 0, 16384);
    EmitOneUsable(s1, 4097, 16384);
    assert EmitOne(s0, 0, 16384) == Emission(s1, EncodeFull(a), true);
    assert EmitOne(s1, 4097, 16384) == Emission(s2, EncodeFull(b), true);
    assert EmitAll(s2, 8194, 16384) == Emission(s2, [], true);
    assert EncodeFull(b) + [] == EncodeFull(b);
    assert EmitAll(s1, 4097, 16384) == Emission(s2, EncodeFull(b), true);
  }

  lemma BothReceived(m: seq<seq<byte>>, a: seq<byte>, b: seq<byte>)
    requires IsMemory(m) && |m| >= 1 && IsPage(a) && IsPage(b)
    ensures Receive(m, EncodeFull(a) + EncodeFull(b), BothItems(a, b), 0, 2) == Memory(m[0 := b])
  {
    FullRoundTrip(m[0], a, EncodeFull(b));
    FullRoundTrip(a, b, []);
    assert EncodeFull(b) + [] == EncodeFull(b);
    var m1 := m[0 := a];
    assert m1[0 := b] == m[0 := b];
    assert Receive(m1[0 := b], [], BothItems(a, b), 2, 2) == Memory(m1[0 := b]);
    assert Receive(m1, EncodeFull(b), BothItems(a, b), 1, 2) == Memory(m1[0 := b]);
  }

  /** The ordinary page is then taken for unchanged, by both sides. */
  lemma AgainSkipped(c: seq<Entry>, a: seq<byte>, m: seq<seq<byte>>) returns (s: Sender)
    requires WellFormed(c) && c[0] == Entry(0, a) && IsPage(a) && IsMemory(m) && |m| >= 1
    ensures Usable(Sender(c, [Item(0, a, false)], 0)) && s.next == |s.items| == 1
    ensures Compress(Sender(c, [Item(0, a, false)], 0), 16384) == Batch(s, [EMPTY_PAGE], 1)
    ensures Receive(m, [EMPTY_PAGE], [Item(0, a, false)], 0, 1) == Memory(m)
  {
    assert IndexOf(c, 0) == 0;
    SameUnchanged(a, MAX_DELTAS);
    var s0 := Sender(c, [Item(0, a, false)], 0);
    var one := EmitOne(s0, 0, 16384);
    EmitOneUsable(s0, 0, 16384);
    s := one.sender;
    assert EmitAll(s, 1, 16384) == Emission(s, [], true);
    assert [EMPTY_PAGE] + [] == [EMPTY_PAGE];
    assert [EMPTY_PAGE][1..] == [];
    assert m[0 := m[0]] == m;
    assert Receive(m, [], [Item(0, a, false)], 1, 1) == Memory(m);
  }

  /** The first four steps: both pages are sent and the buffer is empty again. */
  lemma RawFirstHalf(w: World, a: seq<byte>, b: seq<byte>) returns (w1: World, w2: World, w3: World, w4: World)
    requires Start(w) && |w.latest| >= 1 && IsPage(a) && IsPage(b)
    ensures Stepped(w, AddPage(Item(0, a, false)), w1) && Stepped(w1, AddPage(Item(0, b, true)), w2)
    ensures Stepped(w2, CompressPages(16384), w3) && Stepped(w3, CompressPages(16384), w4)
    ensures w4.sender.items == [] && w4.sender.next == 0 && WellFormed(w4.sender.cache)
    ensures w4.sender.cache[0] == Entry(0, a) && w4.replica == Memory(w.latest[0 := b]) && w4.latest == w.latest[0 := b]
  {
    var c, m := w.sender.cache, w.latest;
    var c1 := BothGo(c, a, b);
    BothReceived(m, a, b);
    var m' := m[0 := b];
    assert m[0 := a][0 := b] == m';
    w1 := World(Sender(c, [Item(0, a, false)], 0), Memory(m), m[0 := a]);
    w2 := World(Sender(c, BothItems(a, b), 0), Memory(m), m');
    w3 := World(Sender(c1, BothItems(a, b), 2), Memory(m'), m');
    w4 := World(Sender(c1, [], 0), Memory(m'), m');
  }

  /** The other two: the ordinary page once more. */
  lemma RawSecondHalf(w4: World, a: seq<byte>) returns (w5: World, w6: World)
    requires w4.sender.items == [] && w4.sender.next == 0 && WellFormed(w4.sender.cache)
    requires w4.sender.cache[0] == Entry(0, a) && IsPage(a) && w4.replica.Memory? && IsMemory(w4.replica.pages)
    requires |w4.replica.pages| == |w4.latest| >= 1
    ensures Stepped(w4, AddPage(Item(0, a, false)), w5) && Stepped(w5, CompressPages(16384), w6)
    ensures w6.sender.next == |w6.sender.items| && w6.replica == w4.replica && w6.latest == w4.latest[0 := a]
  {
    var c, m := w4.sender.cache, w4.replica.pages;
    var s := AgainSkipped(c, a, m);
    w5 := World(Sender(c, [Item(0, a, false)], 0), Memory(m), w4.latest[0 := a]);
    w6 := World(s, Memory(m), w4.latest[0 := a]);
  }

  /** From any start: everything is sent, and the receiver has the raw page where the ordinary one was added last. */
  lemma RawLost(w: World, a: seq<byte>, b: seq<byte>)
    returns (w1: World, w2: World, w3: World, w4: World, w5: World, w6: World)
    requires Start(w) && |w.latest| >= 1 && IsPage(a) && IsPage(b)
    ensures RawRun(w, a, b, w1, w2, w3, w4, w5, w6) && w6.sender.next == |w6.sender.items|
    ensures w6.replica == Memory(w.latest[0 := b]) && w6.latest == w.latest[0 := a]
    ensures w6.replica.pages == w6.latest <==> a == b
  {
    w1, w2, w3, w4 := RawFirstHalf(w, a, b);
    w5, w6 := RawSecondHalf(w4, a);
    assert w.latest[0 := b][0 := a] == w.latest[0 := a];
    assert w.latest[0 := b][0] == b && w.latest[0 := a][0] == a;
  }
}
