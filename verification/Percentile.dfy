/**
  The percentile of a set of samples in xenalyze: selection by repeated
  partitioning around the element at the wanted rank, in place.
 */
module Percentile {

  const INT_MAX: nat := 0x7fff_ffff

  // ----- What rank k means -----

  predicate Sorted(s: seq<int>) {
    forall i, j :: 0 <= i < j < |s| ==> s[i] <= s[j]
  }

  /** Nothing larger to the left of k and nothing smaller to its right. */
  predicate Selected(s: seq<int>, k: nat) {
    k < |s| && (forall p :: 0 <= p < k ==> s[p] <= s[k]) && (forall q :: k < q < |s| ==> s[k] <= s[q])
  }

  function CountBelow(s: seq<int>, v: int): (n: nat) {
    if s == [] then 0 else CountBelow(s[..|s| - 1], v) + if s[|s| - 1] < v then 1 else 0
  }

  lemma CountOneMore(s: seq<int>, x: int, v: int)
    ensures CountBelow(s + [x], v) == CountBelow(s, v) + if x < v then 1 else 0
  {
    assert (s + [x])[..|s|] == s;
  }

  lemma {:induction false} CountBelowSplit(s: seq<int>, j: nat, v: int)
    requires j < |s|
    ensures CountBelow(s, v) == CountBelow(s[..j] + s[j + 1..], v) + if s[j] < v then 1 else 0
  {
    var n := |s| - 1;
    var init, last := s[..n], s[n];
    assert s == init + [last];
    CountOneMore(init, last, v);
    if j < n {
      CountBelowSplit(init, j, v);
      var rest := init[..j] + init[j + 1..];
      assert s[..j] + s[j + 1..] == rest + [last];
      CountOneMore(rest, last, v);
    } else {
      assert s[..j] + s[j + 1..] == init;
    }
  }

  lemma RemoveOne(s: seq<int>, j: nat)
    requires j < |s|
    ensures multiset(s[..j] + s[j + 1..]) == multiset(s) - multiset{s[j]}
  {
    assert s == s[..j] + [s[j]] + s[j + 1..];
  }

  /** How many elements are below v does not depend on their order. */
  lemma {:induction false} CountBelowPermuted(s: seq<int>, t: seq<int>, v: int)
    requires multiset(s) == multiset(t)
    ensures CountBelow(s, v) == CountBelow(t, v)
  {
    if s == [] {
      assert |multiset(t)| == 0;
    } else {
      var n := |s| - 1;
      assert s[n] in multiset(t);
      var j :| 0 <= j < |t| && t[j] == s[n];
      RemoveOne(s, n);
      RemoveOne(t, j);
      assert s[..n] + s[n + 1..] == s[..n];
      CountBelowPermuted(s[..n], t[..j] + t[j + 1..], v);
      CountBelowSplit(t, j, v);
    }
  }

  lemma {:induction false} CountAtMost(s: seq<int>, v: int, k: nat)
    requires k <= |s| && forall q :: k <= q < |s| ==> s[q] >= v
    ensures CountBelow(s, v) <= k
  {
    if s != [] {
      var n := |s| - 1;
      CountAtMost(s[..n], v, if k <= n then k else n);
    }
  }

  lemma {:induction false} CountAtLeast(s: seq<int>, v: int, k: nat)
    requires k <= |s| && forall p :: 0 <= p < k ==> s[p] < v
    ensures CountBelow(s, v) >= k
  {
    if k > 0 {
      var n := |s| - 1;
      CountAtLeast(s[..n], v, if k <= n then k else n);
    }
  }

  /** A selected element is the one that sorting the samples would put at its place. */
  lemma SelectedIsRank(s: seq<int>, t: seq<int>, k: nat)
    requires Selected(s, k) && Sorted(t) && multiset(s) == multiset(t)
    ensures |t| == |s| && t[k] == s[k]
  {
    assert |multiset(s)| == |s| && |multiset(t)| == |t|;
    var v := s[k];
    CountBelowPermuted(s, t, v);
    CountBelowPermuted(s, t, v + 1);
    CountAtMost(s, v, k);
    CountAtLeast(s, v + 1, k + 1);
    if t[k] < v {
      CountAtLeast(t, v, k + 1);
    } else if t[k] > v {
      CountAtMost(t, v + 1, k);
    }
  }

  // ----- The selection -----

  /** Every element below position m is at most every element from m on. */
  predicate Parted(s: seq<int>, m: int) {
    forall p, q :: 0 <= p < m <= q < |s| ==> s[p] <= s[q]
  }

  predicate AtMost(s: seq<int>, from: int, upto: int, x: int) {
    forall p :: from <= p < upto && 0 <= p < |s| ==> s[p] <= x
  }

  predicate AtLeast(s: seq<int>, from: int, upto: int, x: int) {
    forall q :: from <= q < upto && 0 <= q < |s| ==> s[q] >= x
  }

  /** A pass over l..r around x that has scanned up to i and down to j. */
  predicate Passing(s: seq<int>, l: int, r: int, i: int, j: int, x: int) {
    && Parted(s, l) && Parted(s, r + 1)
    && AtMost(s, l, i, x) && AtLeast(s, j + 1, r + 1, x)
  }

  /** Exchanging two elements that stopped the scans. */
  lemma PassSwap(s: seq<int>, l: nat, r: nat, i: int, j: int, x: int)
    requires l <= i <= j <= r < |s| && Passing(s, l, r, i, j, x) && s[i] >= x && s[j] <= x
    ensures var t := s[i := s[j]][j := s[i]];
      Passing(t, l, r, i + 1, j - 1, x) && multiset(t) == multiset(s) && t[i] <= x && t[j] >= x
  {
  }

  /** One partitioning pass over l..r around the value at k. The scans need no bounds checks of their own. */
  method Partition(a: array<int>, l: nat, r: nat, k: nat) returns (i: int, j: int, ghost x: int)
    requires l <= k <= r < a.Length && l < r && Parted(a[..], l) && Parted(a[..], r + 1)
    modifies a
    ensures multiset(a[..]) == multiset(old(a[..])) && Passing(a[..], l, r, i, j, x)
    ensures l < i <= r + 1 && l - 1 <= j < r && j < i
  {
    var pivot := a[k];
    x := pivot;
    i, j := l, r;
    ghost var lo, hi := k, k;
    while i <= j
      invariant (i == l && j == r && lo == hi) || (l < i <= r + 1 && l - 1 <= j < r)
      invariant multiset(a[..]) == multiset(old(a[..])) && Passing(a[..], l, r, i, j, x)
      invariant i <= j ==> i <= hi <= r && a[hi] >= x && l <= lo <= j && a[lo] <= x
      decreases j - i
    {
      i := ScanUp(a, l, i, hi, pivot);
      j := ScanDown(a, r, j, lo, pivot);
      if i <= j {
        Exchange(a, l, r, i, j, x);
        lo, hi := i, j;
        i, j := i + 1, j - 1;
      }
    }
  }

  /** Exchanges the two elements that stopped the scans. */
  method Exchange(a: array<int>, ghost l: nat, ghost r: nat, i: int, j: int, ghost x: int)
    requires l <= i <= j <= r < a.Length && Passing(a[..], l, r, i, j, x) && a[i] >= x && a[j] <= x
    modifies a
    ensures multiset(a[..]) == multiset(old(a[..])) && Passing(a[..], l, r, i + 1, j - 1, x)
    ensures a[i] <= x && a[j] >= x
  {
    ghost var s := a[..];
    PassSwap(s, l, r, i, j, x);
    a[i], a[j] := a[j], a[i];
    assert a[..] == s[i := s[j]][j := s[i]];
  }

  method ScanUp(a: array<int>, l: nat, from: int, ghost hi: int, x: int) returns (i: int)
    requires l <= from <= hi < a.Length && a[hi] >= x && AtMost(a[..], l, from, x)
    ensures from <= i <= hi && a[i] >= x && AtMost(a[..], l, i, x)
  {
    i := from;
    while a[i] < x
      invariant from <= i <= hi && AtMost(a[..], l, i, x)
      decreases hi - i
    {
      i := i + 1;
    }
  }

  method ScanDown(a: array<int>, r: nat, from: int, ghost lo: int, x: int) returns (j: int)
    requires 0 <= lo <= from <= r < a.Length && a[lo] <= x && AtLeast(a[..], from + 1, r + 1, x)
    ensures lo <= j <= from && a[j] <= x && AtLeast(a[..], j + 1, r + 1, x)
  {
    j := from;
    while x < a[j]
      invariant lo <= j <= from && AtLeast(a[..], j + 1, r + 1, x)
      decreases j - lo
    {
      j := j - 1;
    }
  }

  /** The parting after a pass: at i if k is to the right of j, after j if k is to the left of i. */
  lemma Narrows(s: seq<int>, l: nat, r: nat, i: int, j: int, x: int)
    requires l <= r < |s| && l < i <= r + 1 && l - 1 <= j < r && j < i && Passing(s, l, r, i, j, x)
    ensures Parted(s, i) && Parted(s, j + 1)
    ensures forall k: nat :: j < k < i && k < |s| ==> Selected(s, k)
  {
  }

  /** The element of rank N * ple / 100, with the samples rearranged around it; 0 if there are none. */
  method Percentile(a: array<int>, ple: nat) returns (v: int)
    requires ple < 100 && a.Length * ple <= INT_MAX
    modifies a
    ensures multiset(a[..]) == multiset(old(a[..]))
    ensures a.Length == 0 ==> v == 0
    ensures a.Length > 0 ==> Selected(a[..], a.Length * ple / 100) && v == a[a.Length * ple / 100]
    ensures forall t :: a.Length > 0 && Sorted(t) && multiset(t) == multiset(old(a[..])) ==>
              |t| == a.Length && v == t[a.Length * ple / 100]
  {
    if a.Length == 0 {
      return 0;
    }
    var k := a.Length * ple / 100;
    Select(a, k);
    v := a[k];
    forall t | Sorted(t) && multiset(t) == multiset(old(a[..])) ensures |t| == a.Length && v == t[k] {
      SelectedIsRank(a[..], t, k);
    }
  }

  method Select(a: array<int>, k: nat)
    requires k < a.Length
    modifies a
    ensures multiset(a[..]) == multiset(old(a[..])) && Selected(a[..], k)
  {
    var l, r := 0, a.Length - 1;
    while l < r
      invariant 0 <= l && r < a.Length && multiset(a[..]) == multiset(old(a[..]))
      invariant (l <= k <= r && Parted(a[..], l) && Parted(a[..], r + 1)) || (r < l && Selected(a[..], k))
      decreases r - l
    {
      var i, j, x := Partition(a, l, r, k);
      Narrows(a[..], l, r, i, j, x);
      if j < k {
        l := i;
      }
      if k < i {
        r := j;
      }
    }
  }
}
