/**
  The processing order of xenalyze: the active physical cpus in a
  null-terminated array, kept sorted by the time stamp of the record each of
  them has in hand.
 */
module RecordOrder {
  import opened Common

  const MAX_CPUS: nat := 256
  const NULL: int := -1

  // ----- Orders as sequences of cpu numbers -----

  predicate Pids(s: seq<nat>, n: nat) {
    forall k :: 0 <= k < |s| ==> s[k] < n
  }

  predicate InOrder(s: seq<nat>, tsc: seq<nat>)
    requires Pids(s, |tsc|)
  {
    forall i, j :: 0 <= i < j < |s| ==> tsc[s[i]] <= tsc[s[j]]
  }

  /** Different cpus are at most as many as there are numbers for them. */
  lemma {:induction false} AtMostAll(s: seq<nat>, n: nat)
    requires Distinct(s) && Pids(s, n)
    ensures |s| <= n
  {
    if s != [] {
      assert s[0] < n;
      if n - 1 in s {
        var k :| 0 <= k < |s| && s[k] == n - 1;
        AtMostAll(s[..k] + s[k + 1..], n - 1);
      } else {
        AtMostAll(s, n - 1);
      }
    }
  }

  /** Where a scan for time stamp v that starts at from stops: at the first cpu not below v. */
  predicate StopsAt(s: seq<nat>, tsc: seq<nat>, from: nat, i: nat, v: nat)
    requires Pids(s, |tsc|)
  {
    && from <= i <= |s| && (forall k :: from <= k < i ==> tsc[s[k]] < v)
    && (i < |s| ==> tsc[s[i]] >= v)
  }

  /** The list with p put before position i. */
  function Inserted(s: seq<nat>, i: nat, p: nat): (r: seq<nat>)
    requires i <= |s|
  {
    seq(|s| + 1, k requires 0 <= k <= |s| => if k < i then s[k] else if k == i then p else s[k - 1])
  }

  /** The list when the cpu at position k has moved down to just before position j. */
  function Bubbled(s: seq<nat>, k: nat, j: nat): (r: seq<nat>)
    requires k < j <= |s|
  {
    seq(|s|, i requires 0 <= i < |s| => if i < k || j <= i then s[i] else if i == j - 1 then s[k] else s[i + 1])
  }

  lemma InsertSorts(s: seq<nat>, tsc: seq<nat>, p: nat, i: nat)
    requires Pids(s, |tsc|) && p < |tsc| && p !in s && StopsAt(s, tsc, 0, i, tsc[p]) && Distinct(s)
    ensures Pids(Inserted(s, i, p), |tsc|) && Distinct(Inserted(s, i, p))
    ensures InOrder(s, tsc) ==> InOrder(Inserted(s, i, p), tsc)
  {
  }

  lemma InsertedMembers(s: seq<nat>, i: nat, p: nat)
    requires i <= |s|
    ensures forall q :: q in Inserted(s, i, p) <==> q in s || q == p
  {
    var r := Inserted(s, i, p);
    assert r[i] == p;
    forall k | 0 <= k < |s| ensures s[k] in r {
      assert s[k] == r[if k < i then k else k + 1];
    }
  }

  lemma BubbledMembers(s: seq<nat>, k: nat, j: nat)
    requires k < j <= |s|
    ensures forall q :: q in Bubbled(s, k, j) <==> q in s
  {
    var r := Bubbled(s, k, j);
    forall i | 0 <= i < |s| ensures s[i] in r {
      assert s[i] == r[if i < k || j <= i then i else if i == k then j - 1 else i - 1];
    }
  }

  lemma RemovedMembers(s: seq<nat>, k: nat)
    requires k < |s| && Distinct(s)
    ensures forall q :: q in RemoveAt(s, k) <==> q in s && q != s[k]
  {
    var r := RemoveAt(s, k);
    forall i | 0 <= i < |s| && i != k ensures s[i] in r {
      assert s[i] == r[if i < k then i else i - 1];
    }
  }

  lemma RemoveKeeps(s: seq<nat>, tsc: seq<nat>, k: nat)
    requires k < |s| && Pids(s, |tsc|) && Distinct(s)
    ensures Pids(RemoveAt(s, k), |tsc|) && Distinct(RemoveAt(s, k))
    ensures InOrder(s, tsc) ==> InOrder(RemoveAt(s, k), tsc)
  {
  }

  lemma BubbledDistinct(s: seq<nat>, n: nat, k: nat, j: nat)
    requires k < j <= |s| && Pids(s, n) && Distinct(s)
    ensures Pids(Bubbled(s, k, j), n) && Distinct(Bubbled(s, k, j))
  {
  }

  lemma BubbledPair(s: seq<nat>, tsc: seq<nat>, k: nat, j: nat, before: nat, a: nat, b: nat)
    requires k < j <= |s| && Pids(s, |tsc|) && Distinct(s) && InOrder(s, tsc[s[k] := before]) && a < b < |s|
    requires StopsAt(s, tsc, k + 1, j, tsc[s[k]]) && (k == 0 || tsc[s[k - 1]] <= tsc[s[k]])
    requires Pids(Bubbled(s, k, j), |tsc|)
    ensures tsc[Bubbled(s, k, j)[a]] <= tsc[Bubbled(s, k, j)[b]]
  {
    var was := tsc[s[k] := before];
    if b == j - 1 && a < k {
      assert was[s[a]] <= was[s[k - 1]];
    } else if a == j - 1 {
      assert was[s[j]] <= was[s[b]];
    }
  }

  /**
    A list in order but for the new time stamp of the cpu at k. When that cpu
    has bubbled down, the list is in order exactly if the new time stamp is not
    below that of the cpu before it; in particular if it did not decrease.
   */
  lemma BubbleSorts(s: seq<nat>, tsc: seq<nat>, k: nat, j: nat, before: nat)
    requires k < j <= |s| && Pids(s, |tsc|) && Distinct(s) && InOrder(s, tsc[s[k] := before])
    requires StopsAt(s, tsc, k + 1, j, tsc[s[k]])
    ensures Pids(Bubbled(s, k, j), |tsc|)
    ensures InOrder(Bubbled(s, k, j), tsc) <==> (k == 0 || tsc[s[k - 1]] <= tsc[s[k]])
    ensures before <= tsc[s[k]] ==> InOrder(Bubbled(s, k, j), tsc)
  {
    BubbledDistinct(s, |tsc|, k, j);
    var r, was := Bubbled(s, k, j), tsc[s[k] := before];
    if k > 0 {
      assert was[s[k - 1]] <= was[s[k]];
      assert r[k - 1] == s[k - 1] && r[j - 1] == s[k];
    }
    if k == 0 || tsc[s[k - 1]] <= tsc[s[k]] {
      forall a, b | 0 <= a < b < |s| ensures tsc[r[a]] <= tsc[r[b]] {
        BubbledPair(s, tsc, k, j, before, a, b);
      }
    }
  }

  // ----- Cpus that may step back -----

  /** In order but for the cpus in back, which may stand too far down the list. */
  predicate InOrderBut(s: seq<nat>, tsc: seq<nat>, back: set<nat>)
    requires Pids(s, |tsc|)
  {
    forall i, j :: 0 <= i < j < |s| && s[j] !in back ==> tsc[s[i]] <= tsc[s[j]]
  }

  lemma InsertKeepsBut(s: seq<nat>, tsc: seq<nat>, p: nat, i: nat, back: set<nat>)
    requires Pids(s, |tsc|) && p < |tsc| && p !in s && StopsAt(s, tsc, 0, i, tsc[p]) && InOrderBut(s, tsc, back)
    ensures Pids(Inserted(s, i, p), |tsc|) && InOrderBut(Inserted(s, i, p), tsc, back)
  {
    var r := Inserted(s, i, p);
    forall a, b | 0 <= a < b < |r| && r[b] !in back ensures tsc[r[a]] <= tsc[r[b]] {
      if a == i && i < b - 1 {
        assert tsc[s[i]] <= tsc[s[b - 1]];
      }
    }
  }

  /** A cpu that bubbled down: it did not step back, or it is one of those that may. */
  lemma BubbleKeepsBut(s: seq<nat>, tsc: seq<nat>, k: nat, j: nat, before: nat, back: set<nat>)
    requires k < j <= |s| && Pids(s, |tsc|) && Distinct(s) && InOrderBut(s, tsc[s[k] := before], back)
    requires StopsAt(s, tsc, k + 1, j, tsc[s[k]]) && (before <= tsc[s[k]] || s[k] in back)
    ensures Pids(Bubbled(s, k, j), |tsc|) && InOrderBut(Bubbled(s, k, j), tsc, back)
  {
    BubbledDistinct(s, |tsc|, k, j);
    var r, was := Bubbled(s, k, j), tsc[s[k] := before];
    forall a, b | 0 <= a < b < |s| && r[b] !in back ensures tsc[r[a]] <= tsc[r[b]] {
      if b == j - 1 && a < k {
        assert was[s[a]] <= was[s[k]];
      } else if a == j - 1 && j < b {
        assert was[s[j]] <= was[s[b]];
      }
    }
  }

  lemma RemoveKeepsBut(s: seq<nat>, tsc: seq<nat>, k: nat, back: set<nat>)
    requires k < |s| && Pids(s, |tsc|) && InOrderBut(s, tsc, back)
    ensures Pids(RemoveAt(s, k), |tsc|) && InOrderBut(RemoveAt(s, k), tsc, back)
  {
  }

  // ----- The scans as functions -----

  /** Where a scan from i stops. */
  function Place(s: seq<nat>, tsc: seq<nat>, v: nat, i: nat): (k: nat)
    requires Pids(s, |tsc|) && i <= |s|
    ensures i <= k <= |s|
    decreases |s| - i
  {
    if i < |s| && tsc[s[i]] < v then Place(s, tsc, v, i + 1) else i
  }

  lemma {:induction false} PlaceStops(s: seq<nat>, tsc: seq<nat>, v: nat, i: nat)
    requires Pids(s, |tsc|) && i <= |s|
    ensures StopsAt(s, tsc, i, Place(s, tsc, v, i), v)
    decreases |s| - i
  {
    if i < |s| && tsc[s[i]] < v {
      PlaceStops(s, tsc, v, i + 1);
    }
  }

  lemma StopsOnce(s: seq<nat>, tsc: seq<nat>, from: nat, i: nat, v: nat)
    requires Pids(s, |tsc|) && StopsAt(s, tsc, from, i, v)
    ensures from <= |s| && i == Place(s, tsc, v, from)
  {
    PlaceStops(s, tsc, v, from);
  }

  function IndexFrom(s: seq<nat>, p: nat, i: nat): (k: nat)
    requires i <= |s|
    ensures i <= k <= |s| && (k < |s| ==> s[k] == p)
    decreases |s| - i
  {
    if i == |s| || s[i] == p then i else IndexFrom(s, p, i + 1)
  }

  /** The first position of p, or the length of the list. */
  function IndexOf(s: seq<nat>, p: nat): (k: nat) {
    IndexFrom(s, p, 0)
  }

  lemma {:induction false} FoundFrom(s: seq<nat>, p: nat, i: nat, k: nat)
    requires Distinct(s) && i <= k < |s| && s[k] == p
    ensures IndexFrom(s, p, i) == k
    decreases k - i
  {
    if i < k {
      FoundFrom(s, p, i + 1, k);
    }
  }

  lemma OneIndex(s: seq<nat>, p: nat, k: nat)
    requires Distinct(s) && k < |s| && s[k] == p
    ensures IndexOf(s, p) == k
  {
    FoundFrom(s, p, 0, k);
  }

  lemma IndexIs(s: seq<nat>, p: nat)
    requires Distinct(s) && p in s
    ensures IndexOf(s, p) < |s| && s[IndexOf(s, p)] == p
  {
    var k :| 0 <= k < |s| && s[k] == p;
    OneIndex(s, p, k);
  }

  /** The list when p has bubbled to its place, and when p has left it. */
  function Moved(s: seq<nat>, tsc: seq<nat>, p: nat): (r: seq<nat>)
    requires Pids(s, |tsc|) && p < |tsc|
  {
    var k := IndexOf(s, p);
    if k < |s| then Bubbled(s, k, Place(s, tsc, tsc[p], k + 1)) else s
  }

  /** Bubbling from where p is to where it stops is that move. */
  lemma BubbleMoves(s: seq<nat>, tsc: seq<nat>, p: nat, k: nat, j: nat)
    requires Pids(s, |tsc|) && Distinct(s) && k < |s| && s[k] == p && StopsAt(s, tsc, k + 1, j, tsc[p])
    ensures Bubbled(s, k, j) == Moved(s, tsc, p)
  {
    OneIndex(s, p, k);
    StopsOnce(s, tsc, k + 1, j, tsc[p]);
  }

  /** It sorts a list that was in order before the stamp changed exactly under the condition above. */
  lemma BubbleSortsIf(s: seq<nat>, tsc: seq<nat>, p: nat, before: nat, k: nat, j: nat)
    requires Pids(s, |tsc|) && Distinct(s) && k < |s| && s[k] == p && StopsAt(s, tsc, k + 1, j, tsc[p])
    requires Pids(Bubbled(s, k, j), |tsc|)
    ensures InOrder(s, tsc[p := before]) ==>
              (InOrder(Bubbled(s, k, j), tsc) <==> (k == 0 || tsc[s[k - 1]] <= tsc[p]))
    ensures InOrder(s, tsc[p := before]) && before <= tsc[p] ==> InOrder(Bubbled(s, k, j), tsc)
  {
    if InOrder(s, tsc[p := before]) {
      BubbleSorts(s, tsc, k, j, before);
    }
  }

  function Gone(s: seq<nat>, p: nat): (r: seq<nat>) {
    if IndexOf(s, p) < |s| then RemoveAt(s, IndexOf(s, p)) else s
  }

  lemma MovedKeeps(s: seq<nat>, tsc: seq<nat>, p: nat)
    requires Pids(s, |tsc|) && p < |tsc| && Distinct(s) && p in s
    ensures Pids(Moved(s, tsc, p), |tsc|) && Distinct(Moved(s, tsc, p))
    ensures forall q :: q in Moved(s, tsc, p) <==> q in s
  {
    IndexIs(s, p);
    var k := IndexOf(s, p);
    BubbledDistinct(s, |tsc|, k, Place(s, tsc, tsc[p], k + 1));
    BubbledMembers(s, k, Place(s, tsc, tsc[p], k + 1));
  }

  lemma GoneKeeps(s: seq<nat>, n: nat, p: nat)
    requires Pids(s, n) && Distinct(s) && p in s
    ensures Pids(Gone(s, p), n) && Distinct(Gone(s, p))
    ensures forall q :: q in Gone(s, p) <==> q in s && q != p
  {
    IndexIs(s, p);
    RemovedMembers(s, IndexOf(s, p));
  }

  lemma MovedOrdered(s: seq<nat>, was: seq<nat>, tsc: seq<nat>, p: nat, back: set<nat>)
    requires |was| == |tsc| && Pids(s, |tsc|) && Distinct(s) && p in s && p < |tsc|
    requires was == tsc[p := was[p]] && InOrderBut(s, was, back) && (was[p] <= tsc[p] || p in back)
    ensures Pids(Moved(s, tsc, p), |tsc|) && InOrderBut(Moved(s, tsc, p), tsc, back)
  {
    IndexIs(s, p);
    var k := IndexOf(s, p);
    PlaceStops(s, tsc, tsc[p], k + 1);
    BubbleKeepsBut(s, tsc, k, Place(s, tsc, tsc[p], k + 1), was[p], back);
  }

  lemma GoneOrdered(s: seq<nat>, tsc: seq<nat>, p: nat, back: set<nat>)
    requires Pids(s, |tsc|) && Distinct(s) && p in s && InOrderBut(s, tsc, back)
    ensures Pids(Gone(s, p), |tsc|) && InOrderBut(Gone(s, p), tsc, back)
  {
    IndexIs(s, p);
    RemoveKeepsBut(s, tsc, IndexOf(s, p), back);
  }

  /** The list when p has been put in its place. */
  function Joined(s: seq<nat>, tsc: seq<nat>, p: nat): (r: seq<nat>)
    requires Pids(s, |tsc|) && p < |tsc|
  {
    Inserted(s, Place(s, tsc, tsc[p], 0), p)
  }

  lemma JoinedKeeps(s: seq<nat>, tsc: seq<nat>, p: nat, back: set<nat>)
    requires Pids(s, |tsc|) && p < |tsc| && Distinct(s) && p !in s && InOrderBut(s, tsc, back)
    ensures Pids(Joined(s, tsc, p), |tsc|) && Distinct(Joined(s, tsc, p))
    ensures InOrderBut(Joined(s, tsc, p), tsc, back)
    ensures forall q :: q in Joined(s, tsc, p) <==> q in s || q == p
  {
    var i := Place(s, tsc, tsc[p], 0);
    PlaceStops(s, tsc, tsc[p], 0);
    InsertSorts(s, tsc, p, i);
    InsertKeepsBut(s, tsc, p, i, back);
    InsertedMembers(s, i, p);
  }

  // ----- The null-terminated array -----

  /** The array lists s and holds nothing after it. */
  predicate Lists(order: seq<int>, s: seq<nat>) {
    && |order| == MAX_CPUS + 1 && |s| <= MAX_CPUS
    && (forall k :: 0 <= k < |s| ==> order[k] == s[k])
    && (forall k :: |s| <= k < |order| ==> order[k] == NULL)
  }

  class Order {
    const slots: array<int>
    ghost var list: seq<nat>

    ghost predicate Valid()
      reads this, slots
    {
      Lists(slots[..], list) && Distinct(list) && Pids(list, MAX_CPUS)
    }

    constructor ()
      ensures Valid() && list == [] && fresh(slots)
    {
      slots := new int[MAX_CPUS + 1](_ => NULL);
      list := [];
    }

    method Find(p: nat) returns (i: nat)
      requires Valid() && p in list
      ensures i < |list| && list[i] == p
    {
      ghost var at :| 0 <= at < |list| && list[at] == p;
      i := 0;
      while slots[i] != NULL && slots[i] != p
        invariant i <= at
        decreases at - i
      {
        i := i + 1;
      }
    }

    method Scan(tsc: seq<nat>, from: nat, v: nat) returns (i: nat)
      requires Valid() && |tsc| == MAX_CPUS && from <= |list|
      ensures StopsAt(list, tsc, from, i, v)
    {
      i := from;
      while slots[i] != NULL && tsc[slots[i]] < v
        invariant from <= i <= |list| && forall k :: from <= k < i ==> tsc[list[k]] < v
        decreases |list| - i
      {
        i := i + 1;
      }
    }

    /** Adds a cpu before the first whose time stamp is not smaller; there is always room for it. */
    method Insert(tsc: seq<nat>, p: nat) returns (ghost i: nat)
      requires Valid() && |tsc| == MAX_CPUS && p < MAX_CPUS && p !in list
      modifies this, slots
      ensures Valid() && StopsAt(old(list), tsc, 0, i, tsc[p]) && list == Inserted(old(list), i, p)
      ensures list == Joined(old(list), tsc, p)
      ensures InOrder(old(list), tsc) ==> InOrder(list, tsc)
    {
      var at := Scan(tsc, 0, tsc[p]);
      i := at;
      InsertSorts(list, tsc, p, at);
      StopsOnce(list, tsc, 0, at, tsc[p]);
      AtMostAll(Inserted(list, at, p), MAX_CPUS);
      PushDown(at, p);
      list := Inserted(list, at, p);
    }

    /** Moves everything from position at one place down and puts p there. */
    method PushDown(at: nat, p: nat)
      requires Valid() && at <= |list| < MAX_CPUS
      modifies slots
      ensures Lists(slots[..], Inserted(list, at, p))
    {
      ghost var s := slots[..];
      var i, carried: int := at, p;
      while carried != NULL
        invariant at <= i <= |list| + 1
        invariant carried == if i == at then p else if i == |list| + 1 then NULL else list[i - 1]
        invariant forall k :: 0 <= k < at ==> slots[k] == s[k]
        invariant i > at ==> slots[at] == p
        invariant forall k :: at < k < i ==> slots[k] == s[k - 1]
        invariant forall k :: i <= k <= MAX_CPUS ==> slots[k] == s[k]
        decreases |list| + 1 - i
      {
        var t := slots[i];
        slots[i] := carried;
        carried := t;
        i := i + 1;
      }
    }

    /**
      Moves a cpu whose time stamp has changed from before down to its place,
      past those with smaller ones only.
     */
    method Bubble(tsc: seq<nat>, p: nat, ghost before: nat) returns (ghost k: nat, ghost j: nat)
      requires Valid() && |tsc| == MAX_CPUS && p in list
      modifies this, slots
      ensures Valid() && k < |old(list)| && old(list)[k] == p && StopsAt(old(list), tsc, k + 1, j, tsc[p])
      ensures list == Bubbled(old(list), k, j) == Moved(old(list), tsc, p)
      ensures InOrder(old(list), tsc[p := before]) ==>
                (InOrder(list, tsc) <==> (k == 0 || tsc[old(list)[k - 1]] <= tsc[p]))
      ensures InOrder(old(list), tsc[p := before]) && before <= tsc[p] ==> InOrder(list, tsc)
    {
      var from := Find(p);
      var upto := Sink(tsc, from, p);
      k, j := from, upto;
      BubbleMoves(list, tsc, p, from, upto);
      BubbledDistinct(list, MAX_CPUS, from, upto);
      BubbleSortsIf(list, tsc, p, before, from, upto);
      list := Bubbled(list, from, upto);
    }

    /** Shifts those with smaller time stamps up into the gap at k and puts p behind them. */
    method Sink(tsc: seq<nat>, k: nat, p: nat) returns (j: nat)
      requires Valid() && |tsc| == MAX_CPUS && k < |list| && list[k] == p
      modifies slots
      ensures StopsAt(list, tsc, k + 1, j, tsc[p]) && Lists(slots[..], Bubbled(list, k, j))
    {
      ghost var s := slots[..];
      var i := k;
      while slots[i + 1] != NULL && tsc[slots[i + 1]] < tsc[p]
        invariant k <= i < |list|
        invariant forall m :: 0 <= m < k || i < m <= MAX_CPUS ==> slots[m] == s[m]
        invariant forall m :: k <= m < i ==> slots[m] == s[m + 1]
        invariant forall m :: k < m <= i ==> tsc[list[m]] < tsc[p]
        decreases |list| - i
      {
        slots[i] := slots[i + 1];
        i := i + 1;
      }
      slots[i] := p;
      return i + 1;
    }

    method Remove(ghost tsc: seq<nat>, p: nat) returns (ghost k: nat)
      requires Valid() && |tsc| == MAX_CPUS && p in list
      modifies this, slots
      ensures Valid() && k < |old(list)| && old(list)[k] == p && list == RemoveAt(old(list), k) == Gone(old(list), p)
      ensures InOrder(old(list), tsc) ==> InOrder(list, tsc)
    {
      var i := Find(p);
      k := i;
      OneIndex(list, p, i);
      RemoveKeeps(list, tsc, i);
      CloseUp(i);
      list := RemoveAt(list, i);
    }

    method CloseUp(at: nat)
      requires Valid() && at < |list|
      modifies slots
      ensures Lists(slots[..], RemoveAt(list, at))
    {
      ghost var s := slots[..];
      var i := at;
      slots[i] := slots[i + 1];
      while slots[i] != NULL
        invariant at <= i < |list| && slots[i] == s[i + 1]
        invariant forall m :: 0 <= m < at || i < m <= MAX_CPUS ==> slots[m] == s[m]
        invariant forall m :: at <= m < i ==> slots[m] == s[m + 1]
        decreases |list| - i
      {
        i := i + 1;
        slots[i] := slots[i + 1];
      }
    }

    /**
      The first of the list, or none if no cpu is active. Its time stamp is no
      larger than that of any cpu that did not step back.
     */
    method ChooseNext(ghost tsc: seq<nat>, ghost back: set<nat>) returns (p: int)
      requires Valid() && |tsc| == MAX_CPUS && InOrderBut(list, tsc, back)
      ensures p == NULL <==> list == []
      ensures p != NULL ==> 0 <= p < MAX_CPUS && p in list && p == list[0]
      ensures p != NULL ==> forall q :: q in list && q !in back ==> tsc[p] <= tsc[q]
    {
      p := slots[0];
      if p != NULL {
        assert p == list[0];
      }
    }
  }
}
