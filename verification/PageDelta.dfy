/**
  The page-delta stream format of checkpoint compression: run headers, the
  encoder of one page against an older copy of it, and the receiver's decoder.
  Pages and streams are byte sequences; a delta word is four bytes.
 */
module PageDelta {
  import opened Common

  const XC_PAGE_SIZE: nat := 4096
  const MAX_DELTAS: nat := 1024
  const LENMASK: nat := 127
  const SKIPFLAG: nat := 128
  const EMPTY_PAGE: nat := 0
  const FULL_PAGE: nat := 128
  const FULL_PAGE_SIZE: nat := XC_PAGE_SIZE + 1
  const WORST_COMP_PAGE_SIZE: nat := XC_PAGE_SIZE + 9

  predicate IsPage(p: seq<byte>) {
    |p| == XC_PAGE_SIZE
  }

  // ----- One page against its older copy -----

  /** Word k differs between the two pages. */
  predicate Changed(older: seq<byte>, newer: seq<byte>, k: nat)
    requires IsPage(older) && IsPage(newer) && k < MAX_DELTAS
  {
    var b := 4 * k;
    !(older[b] == newer[b] && older[b + 1] == newer[b + 1]
      && older[b + 2] == newer[b + 2] && older[b + 3] == newer[b + 3])
  }

  /** Which of the first n words of the page differ from its older copy. */
  function DiffTo(older: seq<byte>, newer: seq<byte>, n: nat): (ch: seq<bool>)
    requires IsPage(older) && IsPage(newer) && n <= MAX_DELTAS
    ensures |ch| == n
  {
    if n == 0 then [] else DiffTo(older, newer, n - 1) + [Changed(older, newer, n - 1)]
  }

  function Diff(older: seq<byte>, newer: seq<byte>): (ch: seq<bool>)
    requires IsPage(older) && IsPage(newer)
    ensures |ch| == MAX_DELTAS
  {
    DiffTo(older, newer, MAX_DELTAS)
  }

  lemma {:induction false} DiffWord(older: seq<byte>, newer: seq<byte>, n: nat, k: nat)
    requires IsPage(older) && IsPage(newer) && k < n <= MAX_DELTAS
    ensures DiffTo(older, newer, n)[k] == Changed(older, newer, k)
  {
    if k < n - 1 {
      DiffWord(older, newer, n - 1, k);
    }
  }

  lemma {:induction false} SameUnchanged(p: seq<byte>, n: nat)
    requires IsPage(p) && n <= MAX_DELTAS
    ensures true !in DiffTo(p, p, n)
  {
    if n > 0 {
      SameUnchanged(p, n - 1);
    }
  }

  /** First word after k that cannot extend the run begun at start. */
  function RunEnd(ch: seq<bool>, start: nat, k: nat): (e: nat)
    requires start < k <= |ch| && k - start <= LENMASK
    ensures k <= e <= |ch| && e - start <= LENMASK
    decreases |ch| - k
  {
    if k == |ch| || k - start == LENMASK || ch[k] != ch[start] then k else RunEnd(ch, start, k + 1)
  }

  /** Words start.. e are of one kind. */
  predicate OneKind(ch: seq<bool>, start: nat, e: nat)
    requires start < e <= |ch|
  {
    forall j :: start <= j < e ==> ch[j] == ch[start]
  }

  /** A run is of one kind, and stops only at a word of the other kind, at 127 words or at the end. */
  lemma {:induction false} RunIsMaximal(ch: seq<bool>, start: nat, k: nat)
    requires start < k <= |ch| && k - start <= LENMASK && OneKind(ch, start, k)
    ensures var e := RunEnd(ch, start, k);
      OneKind(ch, start, e) && (e < |ch| && e - start < LENMASK ==> ch[e] != ch[start])
    decreases |ch| - k
  {
    if k < |ch| && k - start < LENMASK && ch[k] == ch[start] {
      RunIsMaximal(ch, start, k + 1);
    }
  }

  /** One run: a header byte, followed by the new words when they are copied. */
  function EncodeRun(ch: seq<bool>, newer: seq<byte>, start: nat, e: nat): (s: seq<byte>)
    requires |ch| == MAX_DELTAS && IsPage(newer) && start < e <= |ch| && e - start <= LENMASK
  {
    if ch[start] then [e - start] + newer[4 * start..4 * e] else [SKIPFLAG + (e - start)]
  }

  /** The runs that cover words start.. of the page. */
  function EncodeRuns(ch: seq<bool>, newer: seq<byte>, start: nat): (s: seq<byte>)
    requires |ch| == MAX_DELTAS && IsPage(newer) && start <= MAX_DELTAS
    decreases |ch| - start
  {
    if start == MAX_DELTAS then []
    else
      var e := RunEnd(ch, start, start + 1);
      EncodeRun(ch, newer, start, e) + EncodeRuns(ch, newer, e)
  }

  /** The delta of a page: the empty marker if no word changed, else its runs. */
  function Encode(older: seq<byte>, newer: seq<byte>): (s: seq<byte>)
    requires IsPage(older) && IsPage(newer)
  {
    var ch := Diff(older, newer);
    if true in ch then EncodeRuns(ch, newer, 0) else [EMPTY_PAGE]
  }

  function EncodeFull(newer: seq<byte>): (s: seq<byte>) {
    [FULL_PAGE] + newer
  }

  // ----- The receiver -----

  /** Outcome of decoding one page; a corrupt page may be partly overwritten. */
  datatype Decoded = Restored(page: seq<byte>, rest: seq<byte>) | Corrupt(partial: seq<byte>)

  /** buf with data laid over it at position at. */
  function Overlay(buf: seq<byte>, at: nat, data: seq<byte>): (r: seq<byte>)
    requires at + |data| <= |buf|
    ensures |r| == |buf|
  {
    buf[..at] + data + buf[at + |data|..]
  }

  /** One pass of the decoder's run loop: carry on with the rest, or stop. */
  datatype RunStep = More(rest: seq<byte>, page: seq<byte>, pagepos: nat) | Stop(result: Decoded)

  /** Where the decoder goes after a run. */
  function AfterRun(rest: seq<byte>, page: seq<byte>, pagepos: nat): (r: RunStep) {
    if pagepos < XC_PAGE_SIZE && |rest| > 0 then More(rest, page, pagepos)
    else if pagepos == XC_PAGE_SIZE then Stop(Restored(page, rest))
    else Stop(Corrupt(page))
  }

  function DecodeRun(s: seq<byte>, page: seq<byte>, pagepos: nat): (r: RunStep)
    requires |s| > 0 && IsPage(page) && pagepos < XC_PAGE_SIZE
    ensures r.More? ==> 0 < |r.rest| < |s| && IsPage(r.page) && r.pagepos < XC_PAGE_SIZE
    ensures r.Stop? && r.result.Restored? ==> |r.result.rest| < |s| && IsPage(r.result.page)
    ensures r.Stop? && r.result.Corrupt? ==> IsPage(r.result.partial)
  {
    var words: int := s[0] % 128;
    var len := words * 4;
    if len == 0 then Stop(Corrupt(page))
    else if s[0] >= SKIPFLAG then AfterRun(s[1..], page, pagepos + len)
    else if 1 + len > |s| || pagepos + len > XC_PAGE_SIZE then Stop(Corrupt(page))
    else AfterRun(s[1 + len..], Overlay(page, pagepos, s[1..1 + len]), pagepos + len)
  }

  function DecodeRuns(s: seq<byte>, page: seq<byte>, pagepos: nat): (r: Decoded)
    requires |s| > 0 && IsPage(page) && pagepos < XC_PAGE_SIZE
    ensures r.Restored? ==> |r.rest| < |s| && IsPage(r.page)
    ensures r.Corrupt? ==> IsPage(r.partial)
    decreases |s|
  {
    match DecodeRun(s, page, pagepos)
    case More(s', page', pagepos') => DecodeRuns(s', page', pagepos')
    case Stop(result) => result
  }

  /** The receiver's step: read one page from the front of s over its copy. */
  function Decode(s: seq<byte>, page: seq<byte>): (r: Decoded)
    requires IsPage(page)
    ensures r.Restored? ==> |r.rest| < |s| && IsPage(r.page)
    ensures r.Corrupt? ==> IsPage(r.partial)
  {
    if |s| == 0 then Corrupt(page)
    else if s[0] == EMPTY_PAGE then Restored(page, s[1..])
    else if s[0] == FULL_PAGE then
      if FULL_PAGE_SIZE > |s| then Corrupt(page)
      else Restored(s[1..FULL_PAGE_SIZE], s[FULL_PAGE_SIZE..])
    else DecodeRuns(s, page, 0)
  }

  // ----- Size -----

  /** Upper bound on the encoding of n remaining words. */
  function WorstSize(n: nat): (b: nat) {
    4 * n + (n + 126) / 127
  }

  /** The bound is three bytes better when the first remaining word is unchanged. */
  lemma {:induction false} RunsFit(ch: seq<bool>, newer: seq<byte>, start: nat)
    requires |ch| == MAX_DELTAS && IsPage(newer) && start <= MAX_DELTAS
    ensures |EncodeRuns(ch, newer, start)| <= WorstSize(MAX_DELTAS - start)
    ensures start < MAX_DELTAS && !ch[start] ==> |EncodeRuns(ch, newer, start)| + 3 <= WorstSize(MAX_DELTAS - start)
    decreases MAX_DELTAS - start
  {
    if start < MAX_DELTAS {
      RunIsMaximal(ch, start, start + 1);
      RunsFit(ch, newer, RunEnd(ch, start, start + 1));
    }
  }

  /** compress_page never writes more than 4105 bytes, whatever changed. */
  lemma EncodeFits(older: seq<byte>, newer: seq<byte>)
    requires IsPage(older) && IsPage(newer)
    ensures 1 <= |Encode(older, newer)| <= WORST_COMP_PAGE_SIZE
  {
    RunsFit(Diff(older, newer), newer, 0);
  }

  /** The bound is reached: a page whose every word changed needs all of it. */
  lemma {:induction false} AllChangedIsWorst(ch: seq<bool>, newer: seq<byte>, start: nat)
    requires |ch| == MAX_DELTAS && IsPage(newer) && start <= MAX_DELTAS
    requires forall k :: start <= k < MAX_DELTAS ==> ch[k]
    ensures |EncodeRuns(ch, newer, start)| == WorstSize(MAX_DELTAS - start)
    decreases MAX_DELTAS - start
  {
    if start < MAX_DELTAS {
      RunIsMaximal(ch, start, start + 1);
      AllChangedIsWorst(ch, newer, RunEnd(ch, start, start + 1));
    }
  }

  // ----- Round trip -----

  /** A page whose first `words` words are already those of newer. */
  function Mixed(older: seq<byte>, newer: seq<byte>, words: nat): (p: seq<byte>)
    requires IsPage(older) && IsPage(newer) && words <= MAX_DELTAS
    ensures IsPage(p)
  {
    newer[..4 * words] + older[4 * words..]
  }

  lemma MixedEnds(older: seq<byte>, newer: seq<byte>)
    requires IsPage(older) && IsPage(newer)
    ensures Mixed(older, newer, 0) == older && Mixed(older, newer, MAX_DELTAS) == newer
  {
  }

  lemma UnchangedRun(older: seq<byte>, newer: seq<byte>, start: nat, e: nat)
    requires IsPage(older) && IsPage(newer) && start <= e <= MAX_DELTAS
    requires forall k :: start <= k < e ==> !Changed(older, newer, k)
    ensures forall i :: 4 * start <= i < 4 * e ==> older[i] == newer[i]
  {
    forall i | 4 * start <= i < 4 * e ensures older[i] == newer[i] {
      assert !Changed(older, newer, i / 4);
    }
  }

  /** The page held, with the words marked in ch replaced by those of newer. */
  function Patch(ch: seq<bool>, newer: seq<byte>, held: seq<byte>): (p: seq<byte>)
    requires |ch| == MAX_DELTAS && IsPage(newer) && IsPage(held)
    ensures IsPage(p)
  {
    seq(XC_PAGE_SIZE, i requires 0 <= i < XC_PAGE_SIZE => if ch[i / 4] then newer[i] else held[i])
  }

  /** Applying one run to a mixed page extends its patched part over that run. */
  lemma RunExtendsMixed(ch: seq<bool>, newer: seq<byte>, held: seq<byte>, start: nat, e: nat)
    requires |ch| == MAX_DELTAS && IsPage(newer) && IsPage(held)
    requires start < e <= MAX_DELTAS && OneKind(ch, start, e)
    ensures var p := Patch(ch, newer, held);
      if ch[start] then Overlay(Mixed(held, p, start), 4 * start, newer[4 * start..4 * e]) == Mixed(held, p, e)
      else Mixed(held, p, start) == Mixed(held, p, e)
  {
    var p := Patch(ch, newer, held);
    forall i | 4 * start <= i < 4 * e ensures p[i] == if ch[start] then newer[i] else held[i] {
      assert ch[i / 4] == ch[start];
    }
  }

  lemma DecodeCopied(page: seq<byte>, pagepos: nat, data: seq<byte>, after: seq<byte>)
    requires IsPage(page) && 0 < |data| && pagepos + |data| <= XC_PAGE_SIZE
    requires |data| % 4 == 0 && |data| / 4 <= LENMASK
    ensures DecodeRun([|data| / 4] + data + after, page, pagepos)
            == AfterRun(after, Overlay(page, pagepos, data), pagepos + |data|)
  {
    var s := [|data| / 4] + data + after;
    assert s[1..1 + |data|] == data && s[1 + |data|..] == after;
  }

  lemma DecodeSkipped(page: seq<byte>, pagepos: nat, n: nat, after: seq<byte>)
    requires IsPage(page) && pagepos < XC_PAGE_SIZE && 0 < n <= LENMASK
    ensures DecodeRun([SKIPFLAG + n] + after, page, pagepos) == AfterRun(after, page, pagepos + 4 * n)
  {
    assert ([SKIPFLAG + n] + after)[1..] == after;
  }

  /** Reading one run moves past it and extends the patched part of the page. */
  lemma DecodeOneRun(ch: seq<bool>, newer: seq<byte>, held: seq<byte>, start: nat, e: nat, after: seq<byte>)
    requires |ch| == MAX_DELTAS && IsPage(newer) && IsPage(held)
    requires start < e <= MAX_DELTAS && e - start <= LENMASK && OneKind(ch, start, e)
    ensures var p := Patch(ch, newer, held);
      DecodeRun(EncodeRun(ch, newer, start, e) + after, Mixed(held, p, start), 4 * start)
      == AfterRun(after, Mixed(held, p, e), 4 * e)
  {
    RunExtendsMixed(ch, newer, held, start, e);
    var page := Mixed(held, Patch(ch, newer, held), start);
    if ch[start] {
      var data := newer[4 * start..4 * e];
      assert EncodeRun(ch, newer, start, e) == [|data| / 4] + data;
      DecodeCopied(page, 4 * start, data, after);
    } else {
      DecodeSkipped(page, 4 * start, e - start, after);
    }
  }

  /** A stream that opens with the runs from word start on completes the patch there. */
  lemma {:induction false} RunsDecode(ch: seq<bool>, newer: seq<byte>, held: seq<byte>, start: nat, after: seq<byte>)
    requires |ch| == MAX_DELTAS && IsPage(newer) && IsPage(held) && start < MAX_DELTAS
    ensures |EncodeRuns(ch, newer, start)| > 0
    ensures var p := Patch(ch, newer, held);
      DecodeRuns(EncodeRuns(ch, newer, start) + after, Mixed(held, p, start), 4 * start) == Restored(p, after)
    decreases MAX_DELTAS - start
  {
    RunIsMaximal(ch, start, start + 1);
    var e := RunEnd(ch, start, start + 1);
    var run, rest := EncodeRun(ch, newer, start, e), EncodeRuns(ch, newer, e);
    assert EncodeRuns(ch, newer, start) + after == run + (rest + after);
    DecodeOneRun(ch, newer, held, start, e, rest + after);
    if e == MAX_DELTAS {
      assert rest + after == after;
      MixedEnds(held, Patch(ch, newer, held));
    } else {
      RunsDecode(ch, newer, held, e, after);
    }
  }

  /** Neither marker byte can open a run, so a decoder never mistakes one for the other. */
  lemma RunsOpenUnambiguously(older: seq<byte>, newer: seq<byte>)
    requires IsPage(older) && IsPage(newer) && true in Diff(older, newer)
    ensures |Encode(older, newer)| > 0
    ensures Encode(older, newer)[0] !in {EMPTY_PAGE, FULL_PAGE}
  {
    var ch := Diff(older, newer);
    assert EncodeRuns(ch, newer, 0)[0] == EncodeRun(ch, newer, 0, RunEnd(ch, 0, 1))[0];
  }

  lemma PatchOwnBase(older: seq<byte>, newer: seq<byte>)
    requires IsPage(older) && IsPage(newer)
    ensures Patch(Diff(older, newer), newer, older) == newer
  {
    forall i | 0 <= i < XC_PAGE_SIZE ensures Patch(Diff(older, newer), newer, older)[i] == newer[i] {
      DiffWord(older, newer, MAX_DELTAS, i / 4);
    }
  }

  /**
    What a delta means to a receiver that may hold a different page: it takes
    over the words that changed between older and newer and keeps its own rest.
    Exactly the bytes the encoder produced are consumed, whatever follows them.
   */
  lemma DecodeDelta(older: seq<byte>, newer: seq<byte>, held: seq<byte>, after: seq<byte>)
    requires IsPage(older) && IsPage(newer) && IsPage(held)
    ensures Decode(Encode(older, newer) + after, held) == Restored(Patch(Diff(older, newer), newer, held), after)
  {
    var ch := Diff(older, newer);
    var p := Patch(ch, newer, held);
    if true !in ch {
      assert ([EMPTY_PAGE] + after)[1..] == after;
      assert p == held;
    } else {
      RunsOpenUnambiguously(older, newer);
      RunsDecode(ch, newer, held, 0, after);
      MixedEnds(held, p);
    }
  }

  /** A receiver that holds the page the delta was taken against ends with the new page. */
  lemma RoundTrip(older: seq<byte>, newer: seq<byte>, after: seq<byte>)
    requires IsPage(older) && IsPage(newer)
    ensures Decode(Encode(older, newer) + after, older) == Restored(newer, after)
  {
    DecodeDelta(older, newer, older, after);
    PatchOwnBase(older, newer);
  }

  /** A word of the patched page is wrong exactly when the delta skipped it and the receiver's was wrong. */
  lemma PatchedWord(older: seq<byte>, newer: seq<byte>, held: seq<byte>, k: nat)
    requires IsPage(older) && IsPage(newer) && IsPage(held) && k < MAX_DELTAS
    ensures Changed(Patch(Diff(older, newer), newer, held), newer, k)
            == (!Changed(older, newer, k) && Changed(held, newer, k))
  {
    DiffWord(older, newer, MAX_DELTAS, k);
    assert forall i :: 4 * k <= i < 4 * k + 4 ==> i / 4 == k;
  }

  lemma EqualWhenUnchanged(p: seq<byte>, q: seq<byte>)
    requires IsPage(p) && IsPage(q)
    ensures p == q <==> forall k :: 0 <= k < MAX_DELTAS ==> !Changed(p, q, k)
  {
    if forall k :: 0 <= k < MAX_DELTAS ==> !Changed(p, q, k) {
      UnchangedRun(p, q, 0, MAX_DELTAS);
    }
  }

  /** A delta against the wrong base restores the page exactly when the receiver already has every word it skips. */
  lemma WrongBase(older: seq<byte>, newer: seq<byte>, held: seq<byte>, after: seq<byte>)
    requires IsPage(older) && IsPage(newer) && IsPage(held)
    ensures Decode(Encode(older, newer) + after, held) == Restored(newer, after)
            <==> forall k :: 0 <= k < MAX_DELTAS && !Changed(older, newer, k) ==> !Changed(held, newer, k)
  {
    DecodeDelta(older, newer, held, after);
    var p := Patch(Diff(older, newer), newer, held);
    forall k | 0 <= k < MAX_DELTAS
      ensures Changed(p, newer, k) == (!Changed(older, newer, k) && Changed(held, newer, k))
    {
      PatchedWord(older, newer, held, k);
    }
    EqualWhenUnchanged(p, newer);
  }

  /** A full page replaces whatever the receiver held. */
  lemma FullRoundTrip(held: seq<byte>, newer: seq<byte>, after: seq<byte>)
    requires IsPage(held) && IsPage(newer)
    ensures Decode(EncodeFull(newer) + after, held) == Restored(newer, after)
  {
    var s := EncodeFull(newer) + after;
    assert s[1..FULL_PAGE_SIZE] == newer && s[FULL_PAGE_SIZE..] == after;
  }
}
