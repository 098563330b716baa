/**
  Power-of-two blocks of page numbers. Block j of order k holds the pages that
  give j when shifted right k times; its halves are blocks 2j and 2j + 1 of the
  order below, each other's buddies.
 */
module BuddyBlocks {

  /** The number of the order-k block that holds page p: p >> k. */
  function Up(p: nat, k: nat): (j: nat) {
    if k == 0 then p else Up(p, k - 1) / 2
  }

  /** The first page of block j of order k: j << k. */
  function Base(j: nat, k: nat): (p: nat)
    decreases k
  {
    if k == 0 then j else Base(2 * j, k - 1)
  }

  /** Pages in a block of order k: 1 << k. */
  function Size(k: nat): (n: nat) {
    Base(1, k)
  }

  function Buddy(j: nat): (b: nat)
    ensures b != j && b / 2 == j / 2
  {
    if j % 2 == 1 then j - 1 else j + 1
  }

  lemma {:induction false} BaseNext(j: nat, k: nat)
    ensures Base(j + 1, k) == Base(j, k) + Size(k)
    ensures Size(k) >= 1
    decreases k
  {
    if k > 0 {
      BaseNext(2 * j, k - 1);
      BaseNext(2 * j + 1, k - 1);
      BaseNext(1, k - 1);
    }
  }

  lemma {:induction false} BaseZero(k: nat)
    ensures Base(0, k) == 0
  {
    if k > 0 {
      BaseZero(k - 1);
    }
  }

  lemma {:induction false} BaseMono(i: nat, j: nat, k: nat)
    requires i <= j
    ensures Base(i, k) + (j - i) <= Base(j, k)
  {
    if i < j {
      BaseMono(i, j - 1, k);
      BaseNext(j - 1, k);
    }
  }

  /** A block is exactly its range of pages. */
  lemma {:induction false} UpIffRange(p: nat, j: nat, k: nat)
    ensures Up(p, k) == j <==> Base(j, k) <= p < Base(j + 1, k)
    decreases k
  {
    if k > 0 {
      var h := Up(p, k - 1);
      UpIffRange(p, 2 * j, k - 1);
      UpIffRange(p, 2 * j + 1, k - 1);
      assert h / 2 == j <==> h == 2 * j || h == 2 * j + 1;
      BaseMono(2 * j, 2 * j + 1, k - 1);
      BaseMono(2 * j + 1, 2 * j + 2, k - 1);
    }
  }

  lemma UpBase(j: nat, k: nat)
    ensures Up(Base(j, k), k) == j
  {
    UpIffRange(Base(j, k), j, k);
    BaseNext(j, k);
  }

  /** Pages of one block are pages of one larger block. */
  lemma {:induction false} UpCoarser(p: nat, q: nat, a: nat, b: nat)
    requires a <= b && Up(p, a) == Up(q, a)
    ensures Up(p, b) == Up(q, b)
  {
    if a < b {
      UpCoarser(p, q, a, b - 1);
    }
  }

  /** A page that starts a block starts every smaller block it lies in. */
  lemma {:induction false} BaseFiner(j: nat, a: nat, b: nat)
    requires a <= b
    ensures Base(Up(Base(j, b), a), a) == Base(j, b)
    decreases b
  {
    if a < b {
      BaseFiner(2 * j, a, b - 1);
    } else {
      UpBase(j, b);
    }
  }

  /** Two halves make a block, and one of any page's halves is its buddy's. */
  lemma Halves(p: nat, j: nat, k: nat)
    ensures Up(p, k + 1) == j <==> Up(p, k) == 2 * j || Up(p, k) == 2 * j + 1
    ensures Up(p, k + 1) == j / 2 <==> Up(p, k) == j || Up(p, k) == Buddy(j)
  {
  }

  lemma {:induction false} UpShrinks(p: nat, k: nat)
    ensures Up(p, k) <= p
  {
    if k > 0 {
      UpShrinks(p, k - 1);
    }
  }

  lemma {:induction false} SizeMono(a: nat, b: nat)
    requires a <= b
    ensures Size(a) <= Size(b)
    ensures a < b ==> 2 * Size(a) <= Size(b)
  {
    if a < b {
      SizeMono(a, b - 1);
      SizeDoubles(b - 1);
    }
  }

  lemma SizeDoubles(k: nat)
    ensures Size(k + 1) == 2 * Size(k)
  {
    BaseNext(1, k);
    BaseZero(k);
    BaseNext(0, k);
  }

  /** In a span of 2^top pages a block without page 0 is below order top, and so its buddy is within the span. */
  lemma InnerBlock(j: nat, k: nat, top: nat)
    requires 0 < j && Base(j + 1, k) <= Size(top)
    ensures k < top && Base(Buddy(j) + 1, k) <= Size(top)
  {
    BaseMono(1, j, k);
    BaseNext(j, k);
    if k >= top {
      SizeMono(top, k);
    } else {
      BlockCount(j, k, top);
    }
  }

  /** The blocks of a span come in pairs below its own order. */
  lemma {:induction false} BlockCount(j: nat, k: nat, top: nat)
    requires k < top && Base(j + 1, k) <= Size(top)
    ensures Base(2 * (j / 2) + 2, k) <= Size(top)
    decreases k
  {
    SpanBase(k, top);
    var n := Base(1, top - k);
    if n <= j {
      BaseMono(n, j, k);
      BaseNext(j, k);
    }
    SizeDoubles(top - k - 1);
    BaseMono(2 * (j / 2) + 2, n, k);
  }

  /** The span of order top is 2^(top - k) blocks of order k. */
  lemma {:induction false} SpanBase(k: nat, top: nat)
    requires k <= top
    ensures Base(Base(1, top - k), k) == Size(top)
    decreases k
  {
    BaseCompose(1, top - k, k);
  }

  lemma {:induction false} BaseCompose(j: nat, a: nat, b: nat)
    ensures Base(Base(j, a), b) == Base(j, a + b)
    decreases b
  {
    if b > 0 {
      BaseDouble(j, a);
      BaseCompose(2 * j, a, b - 1);
    }
  }

  lemma {:induction false} BaseDouble(j: nat, k: nat)
    ensures Base(2 * j, k) == 2 * Base(j, k)
    decreases k
  {
    if k > 0 {
      BaseDouble(2 * j, k - 1);
    }
  }
}
