/**
  The sender's cache as it is stored: slots of a fixed table, linked both ways
  in order of use by slot number, and an index from pfns to slots. Every
  operation is proved to do to the links what module DeltaCache says it does to
  the sequence of entries.
 */
module PageList {
  import opened Common
  import opened PageDelta
  import opened DeltaCache

  const NULL: int := -1

  ghost function At(order: seq<nat>, k: int): (slot: int) {
    if 0 <= k < |order| then order[k] else NULL
  }

  /** Neighbours in order point at each other; the ends point nowhere. */
  ghost predicate Linked(order: seq<nat>, next: seq<int>, prev: seq<int>) {
    && Distinct(order) && |next| == |prev|
    && (forall k :: 0 <= k < |order| ==> order[k] < |next|)
    && (forall k {:trigger next[order[k]]} :: 0 <= k < |order| ==> next[order[k]] == At(order, k + 1))
    && (forall k {:trigger prev[order[k]]} :: 0 <= k < |order| ==> prev[order[k]] == At(order, k - 1))
  }

  lemma UnlinkMiddle(order: seq<nat>, next: seq<int>, prev: seq<int>, i: nat)
    requires Linked(order, next, prev) && 0 < i < |order| - 1
    ensures Linked(RemoveAt(order, i), next[order[i - 1] := order[i + 1]], prev[order[i + 1] := order[i - 1]])
  {
    var rest := RemoveAt(order, i);
    var next', prev' := next[order[i - 1] := order[i + 1]], prev[order[i + 1] := order[i - 1]];
    forall k | 0 <= k < |rest|
      ensures rest[k] < |next'| && next'[rest[k]] == At(rest, k + 1) && prev'[rest[k]] == At(rest, k - 1)
    {
      UnlinkedNode(order, next, prev, i, k);
    }
  }

  lemma UnlinkedNode(order: seq<nat>, next: seq<int>, prev: seq<int>, i: nat, k: nat)
    requires Linked(order, next, prev) && 0 < i < |order| - 1 && k < |order| - 1
    ensures var rest, node := RemoveAt(order, i), RemoveAt(order, i)[k];
      && node < |next|
      && next[order[i - 1] := order[i + 1]][node] == At(rest, k + 1)
      && prev[order[i + 1] := order[i - 1]][node] == At(rest, k - 1)
  {
    if k < i - 1 {
      assert order[k] != order[i - 1] && order[k] != order[i + 1];
    } else if k > i {
      assert order[k + 1] != order[i - 1] && order[k + 1] != order[i + 1];
    }
  }

  lemma UnlinkTail(order: seq<nat>, next: seq<int>, prev: seq<int>)
    requires Linked(order, next, prev) && |order| > 1
    ensures Linked(RemoveAt(order, |order| - 1), next[order[|order| - 2] := NULL], prev)
  {
  }

  lemma UnlinkHead(order: seq<nat>, next: seq<int>, prev: seq<int>)
    requires Linked(order, next, prev) && |order| > 1
    ensures Linked(RemoveAt(order, 0), next, prev[order[1] := NULL])
  {
  }

  lemma PushHead(order: seq<nat>, next: seq<int>, prev: seq<int>, item: nat)
    requires Linked(order, next, prev) && |order| > 0 && item !in order && item < |next|
    ensures Linked([item] + order, next[item := order[0]], prev[item := NULL][order[0] := item])
  {
  }

  lemma PushTail(order: seq<nat>, next: seq<int>, prev: seq<int>, item: nat)
    requires Linked(order, next, prev) && |order| > 0 && item !in order && item < |next|
    ensures Linked(order + [item], next[item := NULL][order[|order| - 1] := item], prev[item := order[|order| - 1]])
  {
    var longer, n := order + [item], |order|;
    var next', prev' := next[item := NULL][order[n - 1] := item], prev[item := order[n - 1]];
    forall k | 0 <= k < |longer|
      ensures longer[k] < |next'| && next'[longer[k]] == At(longer, k + 1) && prev'[longer[k]] == At(longer, k - 1)
    {
      if k < n - 1 {
        assert order[k] != order[n - 1];
      }
    }
  }

  // ----- Slots and entries -----

  /** Position k of the list is a slot of the table. */
  predicate SlotAt(order: seq<nat>, n: nat, k: nat)
    requires k < |order|
  {
    order[k] < n
  }

  predicate Slots(order: seq<nat>, n: nat) {
    forall k :: 0 <= k < |order| ==> SlotAt(order, n, k)
  }

  /** What the cache holds, slot by slot in the order of the list. */
  function Entries(order: seq<nat>, pfn: seq<nat>, bytes: seq<seq<byte>>): (c: seq<Entry>)
    requires |pfn| == |bytes| && Slots(order, |pfn|)
    ensures |c| == |order|
  {
    if order == [] then []
    else
      var last := |order| - 1;
      assert SlotAt(order, |pfn|, last);
      assert forall k :: 0 <= k < last ==> SlotAt(order, |pfn|, k) ==> SlotAt(order[..last], |pfn|, k);
      Entries(order[..last], pfn, bytes) + [Entry(pfn[order[last]], bytes[order[last]])]
  }

  lemma {:induction false} EntryAt(order: seq<nat>, pfn: seq<nat>, bytes: seq<seq<byte>>, k: nat)
    requires |pfn| == |bytes| && Slots(order, |pfn|) && k < |order|
    ensures order[k] < |pfn| && Entries(order, pfn, bytes)[k] == Entry(pfn[order[k]], bytes[order[k]])
  {
    assert SlotAt(order, |pfn|, k);
    if k < |order| - 1 {
      var rest := order[..|order| - 1];
      assert forall j :: 0 <= j < |rest| ==> SlotAt(order, |pfn|, j) ==> SlotAt(rest, |pfn|, j);
      EntryAt(rest, pfn, bytes, k);
    }
  }

  /** The index entry of p is empty or names a slot that caches p. */
  predicate IndexAt(pfn: seq<nat>, pfn2cache: seq<int>, p: nat)
    requires p < |pfn2cache|
  {
    pfn2cache[p] == NULL || (0 <= pfn2cache[p] < |pfn| && pfn[pfn2cache[p]] == p)
  }

  /** An occupied slot is found through the index. */
  predicate FoundAt(pfn: seq<nat>, pfn2cache: seq<int>, s: nat)
    requires s < |pfn|
  {
    pfn[s] != INVALID_P2M_ENTRY ==> pfn[s] < |pfn2cache| && pfn2cache[pfn[s]] == s
  }

  /** The index and the slots name each other. */
  ghost predicate Indexed(pfn: seq<nat>, pfn2cache: seq<int>) {
    && |pfn2cache| < INVALID_P2M_ENTRY
    && (forall p :: 0 <= p < |pfn2cache| ==> IndexAt(pfn, pfn2cache, p))
    && (forall s :: 0 <= s < |pfn| ==> FoundAt(pfn, pfn2cache, s))
  }

  /** Slot s taken over by p, whose previous pfn, if any, leaves the index. */
  lemma Reindex(pfn: seq<nat>, pfn2cache: seq<int>, s: nat, p: nat)
    requires Indexed(pfn, pfn2cache) && s < |pfn| && p < |pfn2cache| && pfn2cache[p] == NULL
    ensures pfn[s] != INVALID_P2M_ENTRY ==> pfn[s] < |pfn2cache|
    ensures var cleared := if pfn[s] == INVALID_P2M_ENTRY then pfn2cache else pfn2cache[pfn[s] := NULL];
      Indexed(pfn[s := p], cleared[p := s])
  {
    assert FoundAt(pfn, pfn2cache, s);
    var cleared := if pfn[s] == INVALID_P2M_ENTRY then pfn2cache else pfn2cache[pfn[s] := NULL];
    var pfn', index' := pfn[s := p], cleared[p := s];
    forall q | 0 <= q < |index'| ensures IndexAt(pfn', index', q) {
      assert IndexAt(pfn, pfn2cache, q);
    }
    forall t | 0 <= t < |pfn'| ensures FoundAt(pfn', index', t) {
      assert FoundAt(pfn, pfn2cache, t);
    }
  }

  lemma Unindex(pfn: seq<nat>, pfn2cache: seq<int>, s: nat, p: nat)
    requires Indexed(pfn, pfn2cache) && s < |pfn| && p < |pfn2cache| && pfn2cache[p] == s
    ensures Indexed(pfn[s := INVALID_P2M_ENTRY], pfn2cache[p := NULL])
  {
    var pfn', index' := pfn[s := INVALID_P2M_ENTRY], pfn2cache[p := NULL];
    assert IndexAt(pfn, pfn2cache, p);
    forall q | 0 <= q < |index'| ensures IndexAt(pfn', index', q) {
      assert IndexAt(pfn, pfn2cache, q);
    }
    forall t | 0 <= t < |pfn'| ensures FoundAt(pfn', index', t) {
      assert FoundAt(pfn, pfn2cache, t);
    }
  }

  predicate Has(order: seq<nat>, s: nat) {
    s in order
  }

  /** The list holds every slot. */
  ghost predicate Covers(order: seq<nat>, n: nat) {
    |order| == n && Slots(order, n) && forall s :: 0 <= s < n ==> Has(order, s)
  }

  /** The index finds exactly the cached pfns. */
  lemma IndexFinds(order: seq<nat>, pfn: seq<nat>, bytes: seq<seq<byte>>, pfn2cache: seq<int>, p: nat)
    requires |pfn| == |bytes| && Covers(order, |pfn|) && Indexed(pfn, pfn2cache) && p < |pfn2cache|
    ensures pfn2cache[p] == NULL || 0 <= pfn2cache[p] < |pfn|
    ensures pfn2cache[p] != NULL <==> Cached(Entries(order, pfn, bytes), p)
    ensures pfn2cache[p] != NULL ==> order[IndexOf(Entries(order, pfn, bytes), p)] == pfn2cache[p]
  {
    var c := Entries(order, pfn, bytes);
    assert IndexAt(pfn, pfn2cache, p);
    if pfn2cache[p] != NULL {
      assert Has(order, pfn2cache[p]);
      var k :| 0 <= k < |order| && order[k] == pfn2cache[p];
      EntryAt(order, pfn, bytes, k);
    }
    var i := IndexOf(c, p);
    if i < |c| {
      EntryAt(order, pfn, bytes, i);
      assert FoundAt(pfn, pfn2cache, order[i]);
    }
  }

  /** No slot has a pfn that the index does not reach. */
  lemma PastIndexUncached(order: seq<nat>, pfn: seq<nat>, bytes: seq<seq<byte>>, pfn2cache: seq<int>, p: nat)
    requires |pfn| == |bytes| && Covers(order, |pfn|) && Indexed(pfn, pfn2cache)
    requires |pfn2cache| <= p < INVALID_P2M_ENTRY
    ensures !Cached(Entries(order, pfn, bytes), p)
  {
    var c := Entries(order, pfn, bytes);
    forall i | 0 <= i < |c| ensures c[i].pfn != p {
      EntryAt(order, pfn, bytes, i);
      assert FoundAt(pfn, pfn2cache, order[i]);
    }
  }

  /** Moving the slot that serves p to the front, under that pfn, is a touch of p. */
  lemma TouchEntries(order: seq<nat>, pfn: seq<nat>, bytes: seq<seq<byte>>, p: nat)
    requires |pfn| == |bytes| && Covers(order, |pfn|) && Distinct(order) && |order| > 0
    ensures var i := SlotFor(Entries(order, pfn, bytes), p);
      && order[i] < |pfn| && Slots([order[i]] + RemoveAt(order, i), |pfn|)
      && Entries(order, pfn, bytes)[i].page == bytes[order[i]]
      && Entries([order[i]] + RemoveAt(order, i), pfn[order[i] := p], bytes) == Touch(Entries(order, pfn, bytes), p)
  {
    var c := Entries(order, pfn, bytes);
    var i := SlotFor(c, p);
    EntryAt(order, pfn, bytes, i);
    RotateCovers(order, |pfn|, i);
    var order', pfn' := [order[i]] + RemoveAt(order, i), pfn[order[i] := p];
    var c' := Entries(order', pfn', bytes);
    forall k | 0 <= k < |order| ensures c'[k] == Touch(c, p)[k] {
      EntryAt(order', pfn', bytes, k);
      if k > 0 {
        TouchShifts(c, p, k);
        EntryAt(order, pfn, bytes, if k <= i then k - 1 else k);
        assert order'[k] == RemoveAt(order, i)[k - 1];
      }
    }
  }

  /** Moving the slot of p to the back, freed, drops p. */
  lemma DropEntries(order: seq<nat>, pfn: seq<nat>, bytes: seq<seq<byte>>, p: nat)
    requires |pfn| == |bytes| && Covers(order, |pfn|) && Distinct(order)
    requires Cached(Entries(order, pfn, bytes), p)
    ensures var i := IndexOf(Entries(order, pfn, bytes), p);
      && order[i] < |pfn| && Slots(RemoveAt(order, i) + [order[i]], |pfn|)
      && Entries(RemoveAt(order, i) + [order[i]], pfn[order[i] := INVALID_P2M_ENTRY], bytes)
         == Drop(Entries(order, pfn, bytes), p)
  {
    var c := Entries(order, pfn, bytes);
    var i := IndexOf(c, p);
    EntryAt(order, pfn, bytes, i);
    RotateCovers(order, |pfn|, i);
    var order', pfn' := RemoveAt(order, i) + [order[i]], pfn[order[i] := INVALID_P2M_ENTRY];
    var c' := Entries(order', pfn', bytes);
    forall k | 0 <= k < |order| ensures c'[k] == Drop(c, p)[k] {
      EntryAt(order', pfn', bytes, k);
      if k < |order| - 1 {
        EntryAt(order, pfn, bytes, if k < i then k else k + 1);
        assert order'[k] == RemoveAt(order, i)[k];
      }
    }
  }

  /** New bytes in the first slot fill the first entry. */
  lemma FillEntries(order: seq<nat>, pfn: seq<nat>, bytes: seq<seq<byte>>, page: seq<byte>)
    requires |pfn| == |bytes| && Covers(order, |pfn|) && Distinct(order) && |order| > 0
    ensures order[0] < |pfn|
    ensures Entries(order, pfn, bytes[order[0] := page]) == Fill(Entries(order, pfn, bytes), page)
  {
    EntryAt(order, pfn, bytes, 0);
    var bytes' := bytes[order[0] := page];
    var c, c' := Entries(order, pfn, bytes), Entries(order, pfn, bytes');
    forall k | 0 <= k < |order| ensures c'[k] == Fill(c, page)[k] {
      EntryAt(order, pfn, bytes, k);
      EntryAt(order, pfn, bytes', k);
    }
  }

  lemma RotateCovers(order: seq<nat>, n: nat, i: nat)
    requires Covers(order, n) && i < n
    ensures Covers([order[i]] + RemoveAt(order, i), n)
    ensures Covers(RemoveAt(order, i) + [order[i]], n)
  {
    var front, back := [order[i]] + RemoveAt(order, i), RemoveAt(order, i) + [order[i]];
    assert SlotAt(order, n, i);
    forall k | 0 <= k < n ensures SlotAt(front, n, k) && SlotAt(back, n, k) {
      assert SlotAt(order, n, k);
      if k > 0 {
        assert SlotAt(order, n, k - 1);
      }
      if k < n - 1 {
        assert SlotAt(order, n, k + 1);
      }
    }
    forall s | 0 <= s < n ensures Has(front, s) && Has(back, s) {
      assert Has(order, s);
      var k :| 0 <= k < n && order[k] == s;
      if k < i {
        assert RemoveAt(order, i)[k] == s;
      } else if k > i {
        assert RemoveAt(order, i)[k - 1] == s;
      }
    }
  }

  lemma EndsAreDistinct(order: seq<nat>, i: nat)
    requires Distinct(order) && i < |order|
    ensures order[i] == order[0] <==> i == 0
    ensures order[i] == order[|order| - 1] <==> i == |order| - 1
    ensures i == 0 ==> [order[i]] + RemoveAt(order, i) == order
    ensures i == |order| - 1 ==> RemoveAt(order, i) + [order[i]] == order
  {
  }

  lemma RemoveLacks(order: seq<nat>, i: nat)
    requires Distinct(order) && i < |order|
    ensures order[i] !in RemoveAt(order, i)
  {
  }
}
