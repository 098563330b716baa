/**
  The delta cache as a value: its slots from the most to the least recently
  used, each with the pfn it caches (or none) and the bytes it holds. Bytes
  stay in a slot after its page is dropped.
 */
module DeltaCache {
  import opened Common
  import opened PageDelta

  const INVALID_P2M_ENTRY: nat := 0xFFFF_FFFF_FFFF_FFFF

  datatype Entry = Entry(pfn: nat, page: seq<byte>) {
    predicate Free() { pfn == INVALID_P2M_ENTRY }
  }

  /** First slot at or after k that caches pfn, or |c|. */
  function IndexFrom(c: seq<Entry>, pfn: nat, k: nat): (i: nat)
    requires k <= |c|
    ensures k <= i <= |c| && (i < |c| ==> c[i].pfn == pfn)
    ensures forall j :: k <= j < i ==> c[j].pfn != pfn
    decreases |c| - k
  {
    if k == |c| || c[k].pfn == pfn then k else IndexFrom(c, pfn, k + 1)
  }

  function IndexOf(c: seq<Entry>, pfn: nat): (i: nat)
    ensures i <= |c| && (i < |c| ==> c[i].pfn == pfn)
    ensures forall j :: 0 <= j < i ==> c[j].pfn != pfn
  {
    IndexFrom(c, pfn, 0)
  }

  predicate Cached(c: seq<Entry>, pfn: nat) {
    IndexOf(c, pfn) < |c|
  }

  /** The slot that serves pfn: its own on a hit, the last one on a miss. */
  function SlotFor(c: seq<Entry>, pfn: nat): (i: nat)
    requires |c| > 0
    ensures i < |c|
  {
    if Cached(c, pfn) then IndexOf(c, pfn) else |c| - 1
  }

  /** get_cache_page: the slot that serves pfn moves to the front, with the bytes it held. */
  function Touch(c: seq<Entry>, pfn: nat): (r: seq<Entry>)
    requires |c| > 0
    ensures |r| == |c| && r[0].pfn == pfn
  {
    var i := SlotFor(c, pfn);
    [Entry(pfn, c[i].page)] + RemoveAt(c, i)
  }

  /** invalidate_cache_page: the slot of pfn becomes the last one, free. */
  function Drop(c: seq<Entry>, pfn: nat): (r: seq<Entry>)
    ensures |r| == |c|
  {
    var i := IndexOf(c, pfn);
    if i < |c| then RemoveAt(c, i) + [Entry(INVALID_P2M_ENTRY, c[i].page)] else c
  }

  /** The bytes of the front slot become those of page. */
  function Fill(c: seq<Entry>, page: seq<byte>): (r: seq<Entry>)
    requires |c| > 0
    ensures |r| == |c|
  {
    c[0 := Entry(c[0].pfn, page)]
  }

  // ----- What every access keeps -----

  predicate FreeAtEnd(c: seq<Entry>) {
    forall i, j :: 0 <= i < j < |c| && c[i].Free() ==> c[j].Free()
  }

  predicate DistinctPfns(c: seq<Entry>) {
    forall i, j :: 0 <= i < j < |c| && c[i].pfn == c[j].pfn ==> c[i].Free()
  }

  /** Of two slots the later is free if the earlier is, and they cache different pfns unless free. */
  predicate PairOk(c: seq<Entry>, i: nat, j: nat)
    requires i < |c| && j < |c|
  {
    (c[i].Free() ==> c[j].Free()) && (c[i].pfn == c[j].pfn ==> c[i].Free())
  }

  predicate PageAt(c: seq<Entry>, i: nat)
    requires i < |c|
  {
    IsPage(c[i].page)
  }

  predicate WellFormed(c: seq<Entry>) {
    && |c| > 0 && (forall i, j :: 0 <= i < j < |c| ==> PairOk(c, i, j))
    && forall i :: 0 <= i < |c| ==> PageAt(c, i)
  }

  lemma Opened(c: seq<Entry>)
    requires WellFormed(c)
    ensures FreeAtEnd(c) && DistinctPfns(c)
  {
    forall i, j | 0 <= i < j < |c| && c[i].Free() ensures c[j].Free() {
      assert PairOk(c, i, j);
    }
    forall i, j | 0 <= i < j < |c| && c[i].pfn == c[j].pfn ensures c[i].Free() {
      assert PairOk(c, i, j);
    }
  }

  lemma FillKeeps(c: seq<Entry>, page: seq<byte>)
    requires WellFormed(c) && IsPage(page)
    ensures WellFormed(Fill(c, page))
  {
    var f := Fill(c, page);
    forall i, j | 0 <= i < j < |f| ensures PairOk(f, i, j) {
      assert PairOk(c, i, j);
    }
    forall i | 0 <= i < |f| ensures PageAt(f, i) {
      assert PageAt(c, i);
    }
  }

  /** The front slot serves pfn; the others keep their order. */
  lemma TouchShifts(c: seq<Entry>, pfn: nat, j: nat)
    requires 0 < j < |c|
    ensures Touch(c, pfn)[j] == if j <= SlotFor(c, pfn) then c[j - 1] else c[j]
  {
  }

  /** No slot but the front one serves pfn, and each of the others was there before. */
  lemma TouchOthers(c: seq<Entry>, pfn: nat, j: nat)
    requires WellFormed(c) && pfn != INVALID_P2M_ENTRY && 0 < j < |c|
    ensures Touch(c, pfn)[j].pfn != pfn && Touch(c, pfn)[j] in c
  {
    Opened(c);
    TouchShifts(c, pfn, j);
  }

  lemma TouchFreeAtEnd(c: seq<Entry>, pfn: nat)
    requires WellFormed(c) && pfn != INVALID_P2M_ENTRY
    ensures FreeAtEnd(Touch(c, pfn))
  {
    Opened(c);
    var t := Touch(c, pfn);
    forall i, j | 0 <= i < j < |t| && t[i].Free() ensures t[j].Free() {
      TouchShifts(c, pfn, i);
      TouchShifts(c, pfn, j);
    }
  }

  lemma TouchDistinct(c: seq<Entry>, pfn: nat)
    requires WellFormed(c) && pfn != INVALID_P2M_ENTRY
    ensures DistinctPfns(Touch(c, pfn))
  {
    Opened(c);
    var t := Touch(c, pfn);
    forall i, j | 0 <= i < j < |t| && t[i].pfn == t[j].pfn ensures t[i].Free() {
      TouchShifts(c, pfn, j);
      if i > 0 {
        TouchShifts(c, pfn, i);
      }
    }
  }

  lemma TouchKeeps(c: seq<Entry>, pfn: nat)
    requires WellFormed(c) && pfn != INVALID_P2M_ENTRY
    ensures WellFormed(Touch(c, pfn))
  {
    TouchFreeAtEnd(c, pfn);
    TouchDistinct(c, pfn);
    var t := Touch(c, pfn);
    assert PageAt(c, SlotFor(c, pfn));
    forall i | 0 <= i < |t| ensures PageAt(t, i) {
      if i > 0 {
        TouchShifts(c, pfn, i);
        assert PageAt(c, i - 1) && PageAt(c, i);
      }
    }
  }

  /** Slot j after the drop, by the slot it was. */
  lemma DropShifts(c: seq<Entry>, pfn: nat, j: nat)
    requires Cached(c, pfn) && j < |c| - 1
    ensures Drop(c, pfn)[j] == if j < IndexOf(c, pfn) then c[j] else c[j + 1]
  {
  }

  lemma DropKeeps(c: seq<Entry>, pfn: nat)
    requires WellFormed(c) && pfn != INVALID_P2M_ENTRY
    ensures WellFormed(Drop(c, pfn))
    ensures !Cached(Drop(c, pfn), pfn)
  {
    Opened(c);
    var i, n := IndexOf(c, pfn), |c| - 1;
    var d := Drop(c, pfn);
    if i < |c| {
      assert PageAt(c, i);
      forall j | 0 <= j < n ensures d[j].pfn != pfn && PageAt(d, j) {
        DropShifts(c, pfn, j);
        assert PageAt(c, j) && PageAt(c, j + 1);
      }
      assert PageAt(d, n);
      forall a, b | 0 <= a < b < |d| ensures PairOk(d, a, b) {
        DropShifts(c, pfn, a);
        if b < n {
          DropShifts(c, pfn, b);
        }
      }
    }
  }

  // ----- Least recently used -----

  datatype Access = Use(pfn: nat) | Forget(pfn: nat)

  /** The cache after a sequence of accesses, latest last. */
  function AfterAll(c: seq<Entry>, h: seq<Access>): (r: seq<Entry>)
    requires |c| > 0
    ensures |r| == |c|
  {
    if h == [] then c
    else
      var before := AfterAll(c, h[..|h| - 1]);
      match h[|h| - 1]
      case Use(p) => Touch(before, p)
      case Forget(p) => Drop(before, p)
  }

  function Position(s: seq<nat>, p: nat): (i: nat)
    ensures i <= |s| && (i < |s| ==> s[i] == p)
    ensures forall j :: 0 <= j < i ==> s[j] != p
  {
    if s == [] || s[0] == p then 0 else 1 + Position(s[1..], p)
  }

  function Without(s: seq<nat>, p: nat): (r: seq<nat>) {
    var i := Position(s, p);
    if i < |s| then RemoveAt(s, i) else s
  }

  /** All pfns ever used and not forgotten since, by recency, with no bound on their number. */
  function Recency(h: seq<Access>): (r: seq<nat>) {
    if h == [] then []
    else
      var before := Recency(h[..|h| - 1]);
      match h[|h| - 1]
      case Use(p) => [p] + Without(before, p)
      case Forget(p) => Without(before, p)
  }

  /** Number of occupied slots: those before the first free one. */
  function Occupied(c: seq<Entry>): (n: nat)
    ensures n <= |c|
  {
    IndexOf(c, INVALID_P2M_ENTRY)
  }

  /** The occupied slots cache, in order, the first pfns of r. */
  predicate Prefixed(c: seq<Entry>, r: seq<nat>) {
    Occupied(c) <= |r| && forall i :: 0 <= i < Occupied(c) ==> c[i].pfn == r[i]
  }

  predicate RealPfns(h: seq<Access>) {
    forall k :: 0 <= k < |h| ==> h[k].pfn != INVALID_P2M_ENTRY
  }

  lemma OccupiedIs(c: seq<Entry>, n: nat)
    requires n <= |c| && (forall i :: 0 <= i < n ==> !c[i].Free()) && (n < |c| ==> c[n].Free())
    ensures Occupied(c) == n
  {
  }

  /** A miss takes a free slot if there is one; only a full cache loses a page, and then its last. */
  lemma TouchOccupied(c: seq<Entry>, pfn: nat)
    requires WellFormed(c) && pfn != INVALID_P2M_ENTRY
    ensures Cached(c, pfn) ==> Occupied(Touch(c, pfn)) == Occupied(c)
    ensures !Cached(c, pfn) && Occupied(c) < |c| ==> Occupied(Touch(c, pfn)) == Occupied(c) + 1
    ensures !Cached(c, pfn) && Occupied(c) == |c| ==> Occupied(Touch(c, pfn)) == |c|
  {
    Opened(c);
    var n, s, t := Occupied(c), SlotFor(c, pfn), Touch(c, pfn);
    forall j | 0 < j < |t| ensures t[j] == if j <= s then c[j - 1] else c[j] {
    }
    OccupiedIs(t, if Cached(c, pfn) then n else if n < |c| then n + 1 else n);
  }

  /** Taking pfn out of r does to its first entries what it does to the occupied slots. */
  lemma WithoutPrefixed(c: seq<Entry>, pfn: nat, r: seq<nat>, j: nat)
    requires WellFormed(c) && pfn != INVALID_P2M_ENTRY && Prefixed(c, r)
    requires j < if Cached(c, pfn) then Occupied(c) - 1 else Occupied(c)
    ensures j < |Without(r, pfn)|
    ensures Without(r, pfn)[j] == if j < IndexOf(c, pfn) then c[j].pfn else c[j + 1].pfn
  {
    Opened(c);
    var i, k, n := IndexOf(c, pfn), Position(r, pfn), Occupied(c);
    if i < |c| {
      assert i < n && k == i;
    } else {
      assert k >= n;
    }
  }

  lemma TouchPrefixed(c: seq<Entry>, pfn: nat, r: seq<nat>)
    requires WellFormed(c) && pfn != INVALID_P2M_ENTRY && Prefixed(c, r)
    ensures Prefixed(Touch(c, pfn), [pfn] + Without(r, pfn))
  {
    Opened(c);
    TouchOccupied(c, pfn);
    var t, q := Touch(c, pfn), [pfn] + Without(r, pfn);
    assert Cached(c, pfn) ==> IndexOf(c, pfn) < Occupied(c);
    forall j | 0 < j < Occupied(t) ensures j < |q| && t[j].pfn == q[j] {
      TouchShifts(c, pfn, j);
      WithoutPrefixed(c, pfn, r, j - 1);
    }
  }

  lemma DropPrefixed(c: seq<Entry>, pfn: nat, r: seq<nat>)
    requires WellFormed(c) && pfn != INVALID_P2M_ENTRY && Prefixed(c, r)
    ensures Prefixed(Drop(c, pfn), Without(r, pfn))
  {
    Opened(c);
    var n, d := Occupied(c), Drop(c, pfn);
    if Cached(c, pfn) {
      assert IndexOf(c, pfn) < n;
      OccupiedIs(d, n - 1);
    }
    forall j | 0 <= j < Occupied(d) ensures j < |Without(r, pfn)| && d[j].pfn == Without(r, pfn)[j] {
      WithoutPrefixed(c, pfn, r, j);
    }
  }

  /**
    After any accesses from an empty cache, the cached pages are the most
    recently used ones: no page outside the cache was used after one inside it.
   */
  lemma {:induction false} KeepsMostRecent(c: seq<Entry>, h: seq<Access>)
    requires WellFormed(c) && Occupied(c) == 0 && RealPfns(h)
    ensures WellFormed(AfterAll(c, h)) && Prefixed(AfterAll(c, h), Recency(h))
  {
    if h != [] {
      var h', last := h[..|h| - 1], h[|h| - 1];
      KeepsMostRecent(c, h');
      var before := AfterAll(c, h');
      TouchKeeps(before, last.pfn);
      DropKeeps(before, last.pfn);
      TouchPrefixed(before, last.pfn, Recency(h'));
      DropPrefixed(before, last.pfn, Recency(h'));
    }
  }

  /** While nothing is forgotten no slot is wasted: the cache holds as many of them as it can. */
  lemma {:induction false} HoldsAsManyAsFit(c: seq<Entry>, h: seq<Access>)
    requires WellFormed(c) && Occupied(c) == 0 && RealPfns(h)
    requires forall k :: 0 <= k < |h| ==> h[k].Use?
    ensures Occupied(AfterAll(c, h)) == if |Recency(h)| < |c| then |Recency(h)| else |c|
  {
    if h != [] {
      var h', p := h[..|h| - 1], h[|h| - 1].pfn;
      HoldsAsManyAsFit(c, h');
      KeepsMostRecent(c, h');
      var before := AfterAll(c, h');
      TouchOccupied(before, p);
      if Cached(before, p) {
        assert Position(Recency(h'), p) < |Recency(h')|;
      }
    }
  }
}
