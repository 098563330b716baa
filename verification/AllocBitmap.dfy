/**
  The allocation bitmap: one bit per page, packed into machine words. A word is
  its 64 bits, least significant first, with decrement and negation defined by
  borrow and carry; the masks of map_alloc and map_free are computed with them.
 */
module AllocBitmap {

  // ----- Machine words -----

  type Word = w: seq<bool> | |w| == 64 witness seq(64, _ => false)

  /** w - 1, modulo 2 to the length of w. */
  function Dec(w: seq<bool>): (r: seq<bool>)
    ensures |r| == |w|
  {
    if w == [] then [] else if w[0] then [false] + w[1..] else [true] + Dec(w[1..])
  }

  /** w + 1, modulo 2 to the length of w. */
  function Inc(w: seq<bool>): (r: seq<bool>)
    ensures |r| == |w|
  {
    if w == [] then [] else if w[0] then [false] + Inc(w[1..]) else [true] + w[1..]
  }

  function Not(w: seq<bool>): (r: seq<bool>)
  {
    seq(|w|, i requires 0 <= i < |w| => !w[i])
  }

  function And(v: Word, w: Word): (r: Word)
  {
    seq(64, i requires 0 <= i < 64 => v[i] && w[i])
  }

  function Or(v: Word, w: Word): (r: Word)
  {
    seq(64, i requires 0 <= i < 64 => v[i] || w[i])
  }

  /** 1 << n in len bits. */
  function OneShl(n: nat, len: nat): (r: seq<bool>)
  {
    seq(len, i => i == n)
  }

  function Filled(v: bool): (w: Word)
  {
    seq(64, _ => v)
  }

  /** (1 << n) - 1 sets all bits below n. */
  lemma {:induction false} BelowMask(n: nat, len: nat)
    requires n < len
    ensures forall i :: 0 <= i < len ==> Dec(OneShl(n, len))[i] == (i < n)
    decreases n
  {
    if n > 0 {
      BelowMask(n - 1, len - 1);
      assert OneShl(n, len)[1..] == OneShl(n - 1, len - 1);
    }
  }

  /** -(1 << n) sets all bits from n on. */
  lemma {:induction false} FromMask(n: nat, len: nat)
    requires n < len
    ensures forall i :: 0 <= i < len ==> Inc(Not(OneShl(n, len)))[i] == (i >= n)
    decreases n
  {
    var w := Not(OneShl(n, len));
    if n > 0 {
      FromMask(n - 1, len - 1);
      assert w[1..] == Not(OneShl(n - 1, len - 1));
    }
  }

  function Below(n: nat): (w: Word)
    requires n < 64
  {
    Dec(OneShl(n, 64))
  }

  function From(n: nat): (w: Word)
    requires n < 64
  {
    Inc(Not(OneShl(n, 64)))
  }

  // ----- The bitmap -----

  /** Page pn is marked allocated. */
  predicate Allocated(words: seq<Word>, pn: nat)
    requires pn < 64 * |words|
  {
    words[pn / 64][pn % 64]
  }

  /** Word i of the map after marking pages first.. last with v. */
  ghost predicate Marked(before: Word, after: Word, i: nat, first: nat, last: nat, v: bool) {
    forall b :: 0 <= b < 64 ==> after[b] == if first <= 64 * i + b < last then v else before[b]
  }

  /** Marked word by word is marked page by page. */
  lemma MarkedPages(before: seq<Word>, after: seq<Word>, first: nat, last: nat, v: bool)
    requires |before| == |after| && forall i :: 0 <= i < |before| ==> Marked(before[i], after[i], i, first, last, v)
    ensures forall pn :: 0 <= pn < 64 * |before| ==>
              Allocated(after, pn) == if first <= pn < last then v else Allocated(before, pn)
  {
    forall pn | 0 <= pn < 64 * |before|
      ensures Allocated(after, pn) == if first <= pn < last then v else Allocated(before, pn)
    {
      assert Marked(before[pn / 64], after[pn / 64], pn / 64, first, last, v);
    }
  }

  class Bitmap {
    const words: array<Word>

    constructor (n: nat)
      ensures fresh(words) && words.Length == n && forall i :: 0 <= i < n ==> words[i] == Filled(true)
    {
      words := new Word[n](_ => Filled(true));
    }

    /** Marks nr pages from first as allocated, and no others. */
    method MapAlloc(first: nat, nr: nat)
      requires (first + nr) / 64 < words.Length
      modifies words
      ensures forall pn :: 0 <= pn < 64 * words.Length ==>
                Allocated(words[..], pn) == (first <= pn < first + nr || old(Allocated(words[..], pn)))
    {
      ghost var before, last := words[..], first + nr;
      var currIdx, startOff := first / 64, first % 64;
      var endIdx, endOff := (first + nr) / 64, (first + nr) % 64;
      FromMask(startOff, 64);
      BelowMask(endOff, 64);
      if currIdx == endIdx {
        words[currIdx] := Or(words[currIdx], And(Below(endOff), From(startOff)));
      } else {
        words[currIdx] := Or(words[currIdx], From(startOff));
        currIdx := currIdx + 1;
        while currIdx < endIdx
          invariant first / 64 < currIdx <= endIdx
          invariant forall i :: 0 <= i < currIdx ==> Marked(before[i], words[i], i, first, last, true)
          invariant forall i :: currIdx <= i < words.Length ==> words[i] == before[i]
        {
          words[currIdx] := Filled(true);
          assert Marked(before[currIdx], words[currIdx], currIdx, first, last, true);
          currIdx := currIdx + 1;
        }
        words[currIdx] := Or(words[currIdx], Below(endOff));
      }
      assert forall i :: 0 <= i < words.Length ==> Marked(before[i], words[i], i, first, last, true);
      MarkedPages(before, words[..], first, last, true);
    }

    /** Marks nr pages from first as free, and no others. */
    method MapFree(first: nat, nr: nat)
      requires (first + nr) / 64 < words.Length
      modifies words
      ensures forall pn :: 0 <= pn < 64 * words.Length ==>
                Allocated(words[..], pn) == (!(first <= pn < first + nr) && old(Allocated(words[..], pn)))
    {
      ghost var before, last := words[..], first + nr;
      var currIdx, startOff := first / 64, first % 64;
      var endIdx, endOff := (first + nr) / 64, (first + nr) % 64;
      FromMask(endOff, 64);
      BelowMask(startOff, 64);
      if currIdx == endIdx {
        words[currIdx] := And(words[currIdx], Or(From(endOff), Below(startOff)));
      } else {
        words[currIdx] := And(words[currIdx], Below(startOff));
        currIdx := currIdx + 1;
        while currIdx != endIdx
          invariant first / 64 < currIdx <= endIdx
          invariant forall i :: 0 <= i < currIdx ==> Marked(before[i], words[i], i, first, last, false)
          invariant forall i :: currIdx <= i < words.Length ==> words[i] == before[i]
          decreases endIdx - currIdx
        {
          words[currIdx] := Filled(false);
          assert Marked(before[currIdx], words[currIdx], currIdx, first, last, false);
          currIdx := currIdx + 1;
        }
        words[currIdx] := And(words[currIdx], From(endOff));
      }
      assert forall i :: 0 <= i < words.Length ==> Marked(before[i], words[i], i, first, last, false);
      MarkedPages(before, words[..], first, last, false);
    }
  }
}
