/**
  How kexec in the pv-grub stub domain rearranges its memory: the new kernel's
  pages are exchanged into the low page frame numbers of the new domain's P2M
  table, later pages may follow, and the machine-to-physical table is brought
  up to date at the end. Page frames are numbers; p2m is the P2M the domain
  runs on, host the table being built.
 */
module KexecExchange {
  import opened Common

  function Swapped(s: seq<nat>, i: nat, j: nat): (r: seq<nat>)
    requires i < |s| && j < |s|
    ensures |r| == |s|
  {
    s[i := s[j]][j := s[i]]
  }

  lemma SwapPermutes(s: seq<nat>, i: nat, j: nat)
    requires i < |s| && j < |s|
    ensures multiset(Swapped(s, i, j)) == multiset(s)
    ensures Distinct(s) ==> Distinct(Swapped(s, i, j))
  {
  }

  /** Follows where a page was moved to; a page that moved nowhere further stays. */
  function Dest(moved: seq<nat>, q: nat): (d: nat)
    ensures d >= q
    decreases |moved| - q
  {
    if q < |moved| && moved[q] > q then Dest(moved, moved[q]) else q
  }

  /** Recording the move of page |moved| redirects exactly the chains that ended there. */
  lemma {:induction false} DestGrows(moved: seq<nat>, d: nat, q: nat)
    requires d >= |moved|
    ensures Dest(moved + [d], q) == if Dest(moved, q) == |moved| then d else Dest(moved, q)
    decreases |moved| - q
  {
    if q < |moved| && moved[q] > q {
      DestGrows(moved, d, moved[q]);
    }
  }

  /** A page of the pool that has not been handed out. */
  predicate Unused(pool: set<nat>, pages: seq<nat>, q: nat) {
    q in pool && q !in pages
  }

  /** Following the moves from a page still in the pool finds its machine frame, above the part already built. */
  predicate FoundAt(p2m: seq<nat>, host: seq<nat>, moved: seq<nat>, q: nat) {
    q < |p2m| && |moved| <= Dest(moved, q) < |host| && host[Dest(moved, q)] == p2m[q]
  }

  ghost predicate Settled(p2m: seq<nat>, host: seq<nat>, pool: set<nat>, pages: seq<nat>, moved: seq<nat>) {
    && |moved| == |pages| <= |host| == |p2m| && Distinct(p2m) && Distinct(host) && multiset(host) == multiset(p2m)
    && forall q: nat :: Unused(pool, pages, q) ==> FoundAt(p2m, host, moved, q)
  }

  /** The next page: the chase from p ends at d, and the two table entries change places. */
  lemma PlaceSettles(p2m: seq<nat>, host: seq<nat>, pool: set<nat>, pages: seq<nat>, moved: seq<nat>, p: nat, d: nat)
    requires Settled(p2m, host, pool, pages, moved) && Unused(pool, pages, p) && d == Dest(moved, p) && |pages| < |host|
    ensures FoundAt(p2m, host, moved, p)
    ensures Settled(p2m, Swapped(host, |pages|, d), pool, pages + [p], moved + [d])
  {
    assert FoundAt(p2m, host, moved, p);
    var i, host' := |pages|, Swapped(host, |pages|, d);
    SwapPermutes(host, i, d);
    forall q: nat | Unused(pool, pages + [p], q) ensures FoundAt(p2m, host', moved + [d], q) {
      assert Unused(pool, pages, q) && FoundAt(p2m, host, moved, q);
      assert p2m[q] != p2m[p];
      DestGrows(moved, d, q);
    }
  }

  /** The machine frame is that of a page still in the pool. */
  ghost predicate UnusedFrame(p2m: seq<nat>, pool: set<nat>, pages: seq<nat>, mfn: nat) {
    exists q: nat :: Unused(pool, pages, q) && q < |p2m| && p2m[q] == mfn
  }

  /**
    An exchange of entries a and b keeps the pool findable exactly if neither
    entry holds the frame of a page still in the pool, or nothing moves.
   */
  lemma ExchangeSettles(p2m: seq<nat>, host: seq<nat>, pool: set<nat>, pages: seq<nat>, moved: seq<nat>, a: nat, b: nat)
    requires Settled(p2m, host, pool, pages, moved) && a < |host| && b < |host|
    ensures Settled(p2m, Swapped(host, a, b), pool, pages, moved) <==>
            (a == b || (!UnusedFrame(p2m, pool, pages, host[a]) && !UnusedFrame(p2m, pool, pages, host[b])))
  {
    var host' := Swapped(host, a, b);
    SwapPermutes(host, a, b);
    if a == b {
      assert host' == host;
    } else if !UnusedFrame(p2m, pool, pages, host[a]) && !UnusedFrame(p2m, pool, pages, host[b]) {
      forall q: nat | Unused(pool, pages, q) ensures FoundAt(p2m, host', moved, q) {
        assert FoundAt(p2m, host, moved, q);
      }
    } else {
      var x := if UnusedFrame(p2m, pool, pages, host[a]) then a else b;
      var q: nat :| Unused(pool, pages, q) && q < |p2m| && p2m[q] == host[x];
      assert FoundAt(p2m, host, moved, q);
      assert Dest(moved, q) == x;
      assert !FoundAt(p2m, host', moved, q);
    }
  }

  /** Below the built part no entry holds the frame of a page still in the pool. */
  lemma BuiltHoldsNoUnused(p2m: seq<nat>, host: seq<nat>, pool: set<nat>, pages: seq<nat>, moved: seq<nat>, k: nat)
    requires Settled(p2m, host, pool, pages, moved) && k < |pages|
    ensures !UnusedFrame(p2m, pool, pages, host[k])
  {
    forall q: nat | Unused(pool, pages, q) && q < |p2m| ensures p2m[q] != host[k] {
      assert FoundAt(p2m, host, moved, q);
    }
  }

  // ----- A smaller bound -----

  /** The chain from a page follows the moves that are left, then those that were cut off. */
  lemma {:induction false} DestCut(moved: seq<nat>, n: nat, q: nat)
    requires n <= |moved|
    ensures Dest(moved, q) == Dest(moved, Dest(moved[..n], q))
    decreases |moved| - q
  {
    if q < n && moved[q] > q {
      DestCut(moved, n, moved[q]);
    }
  }

  /** The pages of the pool that are not lost when only the first n pages obtained are kept. */
  function Left(pool: set<nat>, pages: seq<nat>, n: nat): (r: set<nat>)
    requires n <= |pages|
  {
    set q | q in pool && q !in pages[n..]
  }

  /** No page still in the pool was moved to one of the places given up. */
  ghost predicate CutSpares(pool: set<nat>, pages: seq<nat>, moved: seq<nat>, n: nat)
    requires n <= |moved|
  {
    forall q: nat :: Unused(pool, pages, q) ==> Dest(moved[..n], q) >= |moved|
  }

  lemma CutUnused(pool: set<nat>, pages: seq<nat>, n: nat, q: nat)
    requires n <= |pages|
    ensures Unused(Left(pool, pages, n), pages[..n], q) <==> Unused(pool, pages, q)
  {
    assert pages == pages[..n] + pages[n..];
  }

  lemma CutFinds(p2m: seq<nat>, host: seq<nat>, moved: seq<nat>, n: nat, q: nat)
    requires Distinct(host) && FoundAt(p2m, host, moved, q) && n <= |moved|
    ensures FoundAt(p2m, host, moved[..n], q) <==> Dest(moved[..n], q) >= |moved|
  {
    DestCut(moved, n, q);
    var d, e := Dest(moved, q), Dest(moved[..n], q);
    assert e < |moved| ==> e < d;
  }

  /** Keeping only the first n pages keeps the pool findable exactly if none of it was moved to the places given up. */
  lemma CutSettles(p2m: seq<nat>, host: seq<nat>, pool: set<nat>, pages: seq<nat>, moved: seq<nat>, n: nat)
    requires Settled(p2m, host, pool, pages, moved) && n <= |pages|
    ensures Settled(p2m, host, Left(pool, pages, n), pages[..n], moved[..n]) <==> CutSpares(pool, pages, moved, n)
  {
    forall q: nat | Unused(pool, pages, q)
      ensures FoundAt(p2m, host, moved[..n], q) <==> Dest(moved[..n], q) >= |moved|
      ensures Unused(Left(pool, pages, n), pages[..n], q)
    {
      assert FoundAt(p2m, host, moved, q);
      CutUnused(pool, pages, n, q);
      CutFinds(p2m, host, moved, n, q);
    }
    forall q: nat | Unused(Left(pool, pages, n), pages[..n], q) ensures Unused(pool, pages, q) {
      CutUnused(pool, pages, n, q);
    }
  }

  /** Pages 2 and 0 were obtained and then the second given up: the frame of page 1 is no longer found. */
  lemma CutCanLose()
    ensures Settled([10, 11, 12], [12, 10, 11], {0, 1, 2}, [2, 0], [2, 2])
    ensures !Settled([10, 11, 12], [12, 10, 11], Left({0, 1, 2}, [2, 0], 1), [2], [2])
  {
    var pool, pages, moved: seq<nat> := {0, 1, 2}, [2, 0], [2, 2];
    assert multiset([12, 10, 11]) == multiset([10, 11, 12]);
    forall q: nat | Unused(pool, pages, q) ensures FoundAt([10, 11, 12], [12, 10, 11], moved, q) {
      assert q == 1 && Dest(moved, 2) == 2;
    }
    assert pages[..1] == [2] && moved[..1] == [2];
    assert Unused(pool, pages, 1) && Dest(moved[..1], 1) == 1;
    CutSettles([10, 11, 12], [12, 10, 11], pool, pages, moved, 1);
  }

  // ----- The machine-to-physical table -----

  datatype Update = Update(mfn: nat, pfn: nat)

  /** The table maps every frame of p2m back to its page. */
  predicate Inverse(m2p: map<nat, nat>, p2m: seq<nat>) {
    forall pfn :: 0 <= pfn < |p2m| ==> p2m[pfn] in m2p && m2p[p2m[pfn]] == pfn
  }

  /** The entries of pages below n that changed. */
  function Updates(p2m: seq<nat>, host: seq<nat>, n: nat): (us: seq<Update>)
    requires n <= |host| == |p2m|
  {
    if n == 0 then []
    else
      Updates(p2m, host, n - 1)
      + if host[n - 1] != p2m[n - 1] then [Update(host[n - 1], n - 1)] else []
  }

  function ApplyUpdates(m2p: map<nat, nat>, us: seq<Update>): (r: map<nat, nat>) {
    if us == [] then m2p
    else ApplyUpdates(m2p, us[..|us| - 1])[us[|us| - 1].mfn := us[|us| - 1].pfn]
  }

  function Updated(p2m: seq<nat>, host: seq<nat>, m2p: map<nat, nat>, n: nat): (r: map<nat, nat>)
    requires n <= |host| == |p2m|
  {
    ApplyUpdates(m2p, Updates(p2m, host, n))
  }

  lemma UpdatedStep(p2m: seq<nat>, host: seq<nat>, m2p: map<nat, nat>, n: nat)
    requires 0 < n <= |host| == |p2m|
    ensures host[n - 1] != p2m[n - 1] ==>
              Updated(p2m, host, m2p, n) == Updated(p2m, host, m2p, n - 1)[host[n - 1] := n - 1]
    ensures host[n - 1] == p2m[n - 1] ==> Updated(p2m, host, m2p, n) == Updated(p2m, host, m2p, n - 1)
  {
    var us := Updates(p2m, host, n - 1);
    if host[n - 1] != p2m[n - 1] {
      assert Updates(p2m, host, n) == us + [Update(host[n - 1], n - 1)];
      ApplyOneMore(m2p, us, Update(host[n - 1], n - 1));
    } else {
      assert Updates(p2m, host, n) == us;
    }
  }

  /** After the updates below n, the frame of page k maps to k if k is below n, and as before if not. */
  lemma {:induction false} UpdatesInvert(p2m: seq<nat>, host: seq<nat>, m2p: map<nat, nat>, n: nat, k: nat)
    requires n <= |host| == |p2m| && Distinct(host) && Inverse(m2p, p2m) && k < |host| && host[k] in m2p
    ensures host[k] in Updated(p2m, host, m2p, n)
    ensures Updated(p2m, host, m2p, n)[host[k]] == if k < n then k else m2p[host[k]]
  {
    if n > 0 {
      UpdatesInvert(p2m, host, m2p, n - 1, k);
      UpdatedStep(p2m, host, m2p, n);
      if k != n - 1 {
        assert host[k] != host[n - 1];
      }
    }
  }

  /** A frame of no page keeps what it maps to. */
  lemma {:induction false} UpdatesKeepOthers(p2m: seq<nat>, host: seq<nat>, m2p: map<nat, nat>, n: nat, mfn: nat)
    requires n <= |host| == |p2m| && mfn !in host
    ensures mfn in Updated(p2m, host, m2p, n) <==> mfn in m2p
    ensures mfn in m2p ==> Updated(p2m, host, m2p, n)[mfn] == m2p[mfn]
  {
    if n > 0 {
      UpdatesKeepOthers(p2m, host, m2p, n - 1, mfn);
      UpdatedStep(p2m, host, m2p, n);
    }
  }

  lemma ApplyOneMore(m2p: map<nat, nat>, us: seq<Update>, u: Update)
    ensures ApplyUpdates(m2p, us + [u]) == ApplyUpdates(m2p, us)[u.mfn := u.pfn]
  {
    assert (us + [u])[..|us|] == us;
  }

  lemma SameFrames(p2m: seq<nat>, host: seq<nat>)
    requires multiset(host) == multiset(p2m)
    ensures forall mfn :: mfn in host <==> mfn in p2m
  {
    forall mfn ensures mfn in host <==> mfn in p2m {
      assert mfn in host <==> mfn in multiset(host);
    }
  }

  /** The updates turn the inverse of the old table into the inverse of the new one and touch no other frame. */
  lemma UpdatesComplete(p2m: seq<nat>, host: seq<nat>, m2p: map<nat, nat>)
    requires |host| == |p2m| && Distinct(host) && multiset(host) == multiset(p2m) && Inverse(m2p, p2m)
    ensures Inverse(Updated(p2m, host, m2p, |host|), host)
    ensures forall mfn :: mfn !in p2m ==> (mfn in Updated(p2m, host, m2p, |host|) <==> mfn in m2p)
    ensures forall mfn :: mfn !in p2m && mfn in m2p ==> Updated(p2m, host, m2p, |host|)[mfn] == m2p[mfn]
  {
    SameFrames(p2m, host);
    forall k | 0 <= k < |host|
      ensures host[k] in Updated(p2m, host, m2p, |host|) && Updated(p2m, host, m2p, |host|)[host[k]] == k
    {
      assert host[k] in p2m;
      UpdatesInvert(p2m, host, m2p, |host|, k);
    }
    forall mfn: nat | mfn !in p2m
      ensures mfn in Updated(p2m, host, m2p, |host|) <==> mfn in m2p
      ensures mfn in m2p ==> Updated(p2m, host, m2p, |host|)[mfn] == m2p[mfn]
    {
      UpdatesKeepOthers(p2m, host, m2p, |host|, mfn);
    }
  }

  /** No update is idle: each changes the entry of its frame. */
  lemma {:induction false} UpdatesAreUseful(p2m: seq<nat>, host: seq<nat>, m2p: map<nat, nat>, n: nat, j: nat)
    requires n <= |host| == |p2m| && multiset(host) == multiset(p2m) && Inverse(m2p, p2m)
    requires j < |Updates(p2m, host, n)|
    ensures var u := Updates(p2m, host, n)[j]; u.mfn in m2p && m2p[u.mfn] != u.pfn
  {
    if j >= |Updates(p2m, host, n - 1)| {
      SameFrames(p2m, host);
      var u := Updates(p2m, host, n)[j];
      assert u == Update(host[n - 1], n - 1) && u.mfn in p2m;
      var q :| 0 <= q < |p2m| && p2m[q] == u.mfn;
      assert q != n - 1;
    } else {
      UpdatesAreUseful(p2m, host, m2p, n - 1, j);
    }
  }

  // ----- The tables that are updated in place -----

  class Kexec {
    /** The P2M in force, and the pages alloc_page can return. */
    const p2m: seq<nat>
    ghost var pool: set<nat>
    const p2mHost: array<nat>
    /** Page i of the new domain: the page frame obtained for it, its frame, and where the old page i went. */
    var pages: seq<nat>
    var pagesMfns: seq<nat>
    var movedTo: seq<nat>
    var built: nat

    ghost predicate Valid()
      reads this, p2mHost
    {
      && Settled(p2m, p2mHost[..], pool, pages, movedTo) && built == |pages| == |pagesMfns|
      && forall k :: 0 <= k < |pages| ==> pages[k] < |p2m| && pagesMfns[k] == p2m[pages[k]]
    }

    /** Every page obtained so far is where the new domain expects it. */
    ghost predicate Placed()
      reads this, p2mHost
    {
      |pagesMfns| <= p2mHost.Length && forall k :: 0 <= k < |pagesMfns| ==> p2mHost[k] == pagesMfns[k]
    }

    constructor (p2m: seq<nat>, ghost pool: set<nat>)
      requires Distinct(p2m) && forall q :: q in pool ==> q < |p2m|
      ensures Valid() && Placed() && built == 0 && fresh(p2mHost)
      ensures this.p2m == p2m && this.pool == pool && p2mHost[..] == p2m
    {
      this.p2m, this.pool := p2m, pool;
      p2mHost := new nat[|p2m|](i requires 0 <= i < |p2m| => p2m[i]);
      pages, pagesMfns, movedTo, built := [], [], [], 0;
      new;
      assert p2mHost[..] == p2m;
      forall q: nat | Unused(pool, pages, q) ensures FoundAt(p2m, p2mHost[..], movedTo, q) {
        assert q in pool;
      }
    }

    /** Where the page of a pool page frame is now. It ends, because no chain of a pool page turns back. */
    method Chase(newPfn: nat) returns (d: nat)
      requires Valid() && Unused(pool, pages, newPfn)
      ensures d == Dest(movedTo, newPfn) && FoundAt(p2m, p2mHost[..], movedTo, newPfn)
    {
      assert FoundAt(p2m, p2mHost[..], movedTo, newPfn);
      d := newPfn;
      while d < |movedTo|
        invariant Dest(movedTo, d) == Dest(movedTo, newPfn)
        decreases |movedTo| - d
      {
        d := movedTo[d];
      }
    }

    /** One more page: the old page of this number and the new one change places. */
    method Exchange(newPfn: nat)
      requires Valid() && Unused(pool, pages, newPfn) && built < p2mHost.Length
      modifies this`pages, this`pagesMfns, this`movedTo, this`built, p2mHost
      ensures Valid() && pages == old(pages) + [newPfn] && built == old(built) + 1
      ensures p2mHost[old(built)] == p2m[newPfn]
      ensures forall k :: 0 <= k < old(built) ==> p2mHost[k] == old(p2mHost[k]) && pagesMfns[k] == old(pagesMfns[k])
    {
      ghost var host := p2mHost[..];
      var i := built;
      var oldMfn := p2mHost[i];
      var d := Chase(newPfn);
      PlaceSettles(p2m, host, pool, pages, movedTo, newPfn, d);
      pages := pages + [newPfn];
      pagesMfns := pagesMfns + [p2m[newPfn]];
      movedTo := movedTo + [d];
      p2mHost[d] := oldMfn;
      p2mHost[i] := p2m[newPfn];
      built := i + 1;
      assert p2mHost[..] == Swapped(host, i, d);
    }

    /** Grows the new domain to upTo pages; got are the pages alloc_page returned for them. */
    method Grow(upTo: nat, got: seq<nat>)
      requires Valid() && built <= upTo <= p2mHost.Length && Fresh(got, upTo - built)
      modifies this`pages, this`pagesMfns, this`movedTo, this`built, p2mHost
      ensures Valid() && built == upTo && pages == old(pages) + got
      ensures forall k :: old(built) <= k < upTo ==> p2mHost[k] == p2m[pages[k]]
      ensures forall k :: 0 <= k < old(built) ==> p2mHost[k] == old(p2mHost[k])
      ensures old(Placed()) ==> Placed()
    {
      var before := built;
      while built < upTo
        invariant Valid() && before <= built <= upTo
        invariant pages == old(pages) + got[..built - before]
        invariant forall k :: before <= k < built ==> p2mHost[k] == p2m[pages[k]]
        invariant forall k :: 0 <= k < before ==> p2mHost[k] == old(p2mHost[k]) && pagesMfns[k] == old(pagesMfns[k])
        decreases upTo - built
      {
        var newPfn := got[built - before];
        Exchange(newPfn);
      }
    }

    /** The pages are of the pool, not in use, and different. */
    ghost predicate Fresh(got: seq<nat>, n: nat)
      reads this
    {
      |got| == n && forall k :: 0 <= k < n ==> got[k] in pool && got[k] !in pages && got[k] !in got[..k]
    }

    /** Forgets the pages from upTo on. They are not given back, and the table stays as it is. */
    method Cut(upTo: nat)
      requires Valid() && upTo <= built
      modifies this`pages, this`pagesMfns, this`movedTo, this`built, this`pool
      ensures built == upTo && pages == old(pages)[..upTo] && pool == Left(old(pool), old(pages), upTo)
      ensures Valid() <==> CutSpares(old(pool), old(pages), old(movedTo), upTo)
      ensures old(Placed()) ==> Placed()
    {
      CutSettles(p2m, p2mHost[..], pool, pages, movedTo, upTo);
      pool := Left(pool, pages, upTo);
      pages, pagesMfns, movedTo, built := pages[..upTo], pagesMfns[..upTo], movedTo[..upTo], upTo;
    }

    /**
      Makes the new domain upTo pages long. A longer one keeps everything in
      order; a shorter one does so exactly if no page still in the pool was
      moved to one of the places given up.
     */
    method Allocate(upTo: nat, got: seq<nat>)
      requires Valid() && upTo <= p2mHost.Length && (built <= upTo ==> Fresh(got, upTo - built))
      modifies this`pages, this`pagesMfns, this`movedTo, this`built, this`pool, p2mHost
      ensures built == upTo && (old(Placed()) ==> Placed())
      ensures old(built) <= upTo ==> Valid() && pages == old(pages) + got && pool == old(pool)
      ensures old(built) <= upTo ==> forall k :: old(built) <= k < upTo ==> p2mHost[k] == p2m[pages[k]]
      ensures old(built) <= upTo ==> forall k :: 0 <= k < old(built) ==> p2mHost[k] == old(p2mHost[k])
      ensures upTo < old(built) ==> pages == old(pages)[..upTo] && p2mHost[..] == old(p2mHost[..])
      ensures upTo < old(built) ==> (Valid() <==> CutSpares(old(pool), old(pages), old(movedTo), upTo))
    {
      if built <= upTo {
        Grow(upTo, got);
      } else {
        Cut(upTo);
      }
    }

    /** Brings a frame to the target page; the page it was on gets the target's. Fails if it is on no page. */
    method DoExchange(targetPfn: nat, sourceMfn: nat) returns (found: bool)
      requires Valid() && targetPfn < p2mHost.Length
      modifies p2mHost
      ensures found <==> sourceMfn in p2m
      ensures !found ==> p2mHost[..] == old(p2mHost[..])
      ensures found ==> p2mHost[targetPfn] == sourceMfn && multiset(p2mHost[..]) == multiset(p2m)
      ensures found ==> forall k :: 0 <= k < p2mHost.Length && k != targetPfn && old(p2mHost[k]) != sourceMfn ==>
        p2mHost[k] == old(p2mHost[k])
      ensures found ==>
        (Valid() <==>
         (old(p2mHost[targetPfn]) == sourceMfn
          || (!UnusedFrame(p2m, pool, pages, sourceMfn) && !UnusedFrame(p2m, pool, pages, old(p2mHost[targetPfn])))))
      ensures targetPfn < built && !UnusedFrame(p2m, pool, pages, sourceMfn) ==> Valid()
    {
      ghost var host := p2mHost[..];
      SameFrames(p2m, host);
      var sourcePfn := 0;
      while sourcePfn < p2mHost.Length && p2mHost[sourcePfn] != sourceMfn
        invariant sourcePfn <= p2mHost.Length
        invariant forall k :: 0 <= k < sourcePfn ==> host[k] != sourceMfn
      {
        sourcePfn := sourcePfn + 1;
      }
      if sourcePfn == p2mHost.Length {
        return false;
      }
      ExchangeSettles(p2m, host, pool, pages, movedTo, sourcePfn, targetPfn);
      SwapPermutes(host, sourcePfn, targetPfn);
      if targetPfn < built {
        BuiltHoldsNoUnused(p2m, host, pool, pages, movedTo, targetPfn);
      }
      var targetMfn := p2mHost[targetPfn];
      p2mHost[sourcePfn] := targetMfn;
      p2mHost[targetPfn] := sourceMfn;
      assert p2mHost[..] == Swapped(host, sourcePfn, targetPfn);
      return true;
    }

    /** The update list, counted first and then filled; it fits exactly. */
    method M2pUpdates() returns (us: array<Update>)
      requires p2mHost.Length == |p2m|
      ensures fresh(us) && us[..] == Updates(p2m, p2mHost[..], |p2m|)
    {
      ghost var host := p2mHost[..];
      var nr, pfn := 0, 0;
      while pfn < |p2m|
        invariant pfn <= |p2m| && nr == |Updates(p2m, host, pfn)|
      {
        if p2mHost[pfn] != p2m[pfn] {
          nr := nr + 1;
        }
        pfn := pfn + 1;
      }
      us := new Update[nr](_ => Update(0, 0));
      var i := 0;
      pfn := 0;
      while pfn < |p2m|
        invariant pfn <= |p2m| && i == |Updates(p2m, host, pfn)| <= nr == |Updates(p2m, host, |p2m|)|
        invariant us[..i] == Updates(p2m, host, pfn) && p2mHost[..] == host
      {
        UpdatesGrow(p2m, host, pfn + 1, |p2m|);
        if p2mHost[pfn] != p2m[pfn] {
          us[i] := Update(p2mHost[pfn], pfn);
          i := i + 1;
          assert us[..i] == us[..i - 1] + [us[i - 1]];
        }
        pfn := pfn + 1;
      }
    }
  }

  lemma {:induction false} UpdatesGrow(p2m: seq<nat>, host: seq<nat>, n: nat, m: nat)
    requires n <= m <= |host| == |p2m|
    ensures |Updates(p2m, host, n)| <= |Updates(p2m, host, m)|
  {
    if n < m {
      UpdatesGrow(p2m, host, n, m - 1);
    }
  }
}
