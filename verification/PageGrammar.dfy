/**
  What the receiver of a checkpoint accepts, told without its decoder: a page is
  an empty marker, a full page, or runs that cover all its words exactly. The
  decoder takes such a page off the front of a stream and refuses any other.
 */
module PageGrammar {
  import opened Common
  import opened PageDelta

  /** A run: words passed over, or words carried in the stream. */
  datatype Piece = Skip(words: nat) | Copy(words: nat, bytes: seq<byte>)

  predicate PieceOk(p: Piece) {
    1 <= p.words <= 127 && (p.Copy? ==> |p.bytes| == 4 * p.words)
  }

  /** A header byte with the number of words, from 128 on if they are passed over, and the words carried. */
  function PieceBytes(p: Piece): (s: seq<byte>)
    requires PieceOk(p)
  {
    match p
    case Skip(n) => [128 + n]
    case Copy(n, b) => [n] + b
  }

  datatype Runs = End | Then(first: Piece, more: Runs)

  predicate RunsOk(r: Runs) {
    r.Then? ==> PieceOk(r.first) && RunsOk(r.more)
  }

  function Sum(r: Runs): (n: nat) {
    match r
    case End => 0
    case Then(p, more) => p.words + Sum(more)
  }

  function Flat(r: Runs): (s: seq<byte>)
    requires RunsOk(r)
  {
    match r
    case End => []
    case Then(p, more) => PieceBytes(p) + Flat(more)
  }

  /** Runs that cover a whole page. */
  ghost predicate IsRuns(u: seq<byte>) {
    exists r :: Covers(r, u)
  }

  predicate Covers(r: Runs, u: seq<byte>) {
    RunsOk(r) && Sum(r) == 1024 && u == Flat(r)
  }

  /** One page in the stream. */
  ghost predicate IsUnit(u: seq<byte>) {
    u == [0] || (|u| == 4097 && u[0] == 128) || IsRuns(u)
  }

  /** What a run makes of the page from word w on. */
  function Put(p: Piece, page: seq<byte>, w: nat): (r: seq<byte>)
    requires PieceOk(p) && IsPage(page) && w + p.words <= MAX_DELTAS
    ensures IsPage(r)
  {
    match p
    case Skip(_) => page
    case Copy(_, b) => Overlay(page, 4 * w, b)
  }

  /** The page with the words carried laid over it from word w on. */
  function Laid(r: Runs, page: seq<byte>, w: nat): (laid: seq<byte>)
    requires RunsOk(r) && IsPage(page) && w + Sum(r) <= MAX_DELTAS
    ensures IsPage(laid)
    decreases r
  {
    match r
    case End => page
    case Then(p, more) => Laid(more, Put(p, page, w), w + p.words)
  }

  /** One run at the front of a stream is read as such. */
  lemma PieceDecodes(s: seq<byte>, p: Piece, after: seq<byte>, page: seq<byte>, w: nat)
    requires PieceOk(p) && s == PieceBytes(p) + after && IsPage(page) && w + p.words <= MAX_DELTAS
    ensures |s| > 0 && DecodeRun(s, page, 4 * w) == AfterRun(after, Put(p, page, w), 4 * (w + p.words))
  {
    match p {
      case Skip(n) => DecodeSkipped(page, 4 * w, n, after);
      case Copy(n, b) => DecodeCopied(page, 4 * w, b, after);
    }
  }

  /** The decoder's loop in one step. */
  lemma RunsStep(s: seq<byte>, page: seq<byte>, pagepos: nat, step: RunStep)
    requires |s| > 0 && IsPage(page) && pagepos < XC_PAGE_SIZE && step == DecodeRun(s, page, pagepos)
    ensures step.Stop? ==> DecodeRuns(s, page, pagepos) == step.result
    ensures step.More? ==> DecodeRuns(s, page, pagepos) == DecodeRuns(step.rest, step.page, step.pagepos)
  {
    var d := DecodeRuns(s, page, pagepos);
    if step.More? {
      assert d == DecodeRuns(step.rest, step.page, step.pagepos);
    }
  }

  /** The last run of a page completes it. */
  lemma LastPiece(s: seq<byte>, p: Piece, after: seq<byte>, page: seq<byte>, w: nat)
    requires PieceOk(p) && s == PieceBytes(p) + after && IsPage(page) && w + p.words == MAX_DELTAS
    ensures |s| > 0 && DecodeRuns(s, page, 4 * w) == Restored(Put(p, page, w), after)
  {
    PieceDecodes(s, p, after, page, w);
    RunsStep(s, page, 4 * w, DecodeRun(s, page, 4 * w));
  }

  /** After any other the rest of the stream decides. */
  lemma PieceGoesOn(s: seq<byte>, p: Piece, after: seq<byte>, page: seq<byte>, w: nat)
    requires PieceOk(p) && s == PieceBytes(p) + after && |after| > 0 && IsPage(page) && w + p.words < MAX_DELTAS
    ensures |s| > 0 && DecodeRuns(s, page, 4 * w) == DecodeRuns(after, Put(p, page, w), 4 * (w + p.words))
  {
    PieceDecodes(s, p, after, page, w);
    RunsStep(s, page, 4 * w, DecodeRun(s, page, 4 * w));
  }

  lemma InOrder(a: seq<byte>, b: seq<byte>, c: seq<byte>)
    ensures a + b + c == a + (b + c)
  {
  }

  /** s is runs that cover the page from word w on, and after. */
  predicate RunsIn(r: Runs, after: seq<byte>, s: seq<byte>, w: nat) {
    r.Then? && RunsOk(r) && w + Sum(r) == MAX_DELTAS && s == Flat(r) + after
  }

  /** The decoder makes d of the page from word w on. */
  predicate Makes(s: seq<byte>, page: seq<byte>, w: nat, d: Decoded) {
    |s| > 0 && IsPage(page) && w < MAX_DELTAS && d == DecodeRuns(s, page, 4 * w)
  }

  lemma RunsInRest(r: Runs, after: seq<byte>, s: seq<byte>, w: nat) returns (behind: seq<byte>)
    requires RunsIn(r, after, s, w)
    ensures PieceOk(r.first) && s == PieceBytes(r.first) + behind && w + r.first.words <= MAX_DELTAS
    ensures r.more.End? ==> behind == after && w + r.first.words == MAX_DELTAS
    ensures r.more.Then? ==> RunsIn(r.more, after, behind, w + r.first.words) && w + r.first.words < MAX_DELTAS
    ensures r.more.Then? ==> |behind| > 0
  {
    behind := Flat(r.more) + after;
    InOrder(PieceBytes(r.first), Flat(r.more), after);
  }

  lemma LastMakes(s: seq<byte>, p: Piece, after: seq<byte>, page: seq<byte>, w: nat)
    requires PieceOk(p) && s == PieceBytes(p) + after && IsPage(page) && w + p.words == MAX_DELTAS
    ensures Makes(s, page, w, Restored(Put(p, page, w), after))
  {
    LastPiece(s, p, after, page, w);
  }

  lemma OneMoreMakes(s: seq<byte>, p: Piece, behind: seq<byte>, page: seq<byte>, w: nat, d: Decoded)
    requires PieceOk(p) && s == PieceBytes(p) + behind && IsPage(page) && w + p.words < MAX_DELTAS
    requires Makes(behind, Put(p, page, w), w + p.words, d)
    ensures Makes(s, page, w, d)
  {
    PieceGoesOn(s, p, behind, page, w);
    var e := DecodeRuns(s, page, 4 * w);
    assert e == d;
  }

  /** What the runs in s make of the page from word w on. */
  predicate Means(r: Runs, after: seq<byte>, s: seq<byte>, page: seq<byte>, w: nat, d: Decoded) {
    RunsIn(r, after, s, w) && IsPage(page) && d == Restored(Laid(r, page, w), after)
  }

  lemma MeansRest(r: Runs, after: seq<byte>, s: seq<byte>, page: seq<byte>, w: nat, d: Decoded)
    returns (behind: seq<byte>, next: seq<byte>)
    requires Means(r, after, s, page, w, d)
    ensures PieceOk(r.first) && s == PieceBytes(r.first) + behind && w + r.first.words <= MAX_DELTAS
    ensures next == Put(r.first, page, w)
    ensures r.more.End? ==> w + r.first.words == MAX_DELTAS && behind == after && d == Restored(next, after)
    ensures r.more.Then? ==> w + r.first.words < MAX_DELTAS && Means(r.more, after, behind, next, w + r.first.words, d)
  {
    behind := RunsInRest(r, after, s, w);
    next := Put(r.first, page, w);
    var laid := Laid(r, page, w);
    assert laid == Laid(r.more, next, w + r.first.words);
    assert r.more.End? ==> laid == next;
  }

  /** Such runs are taken for what they mean, and nothing behind them. */
  lemma {:induction false} RunsTaken(r: Runs, after: seq<byte>, s: seq<byte>, page: seq<byte>, w: nat, d: Decoded)
    requires Means(r, after, s, page, w, d)
    ensures Makes(s, page, w, d)
    decreases r
  {
    var behind, next := MeansRest(r, after, s, page, w, d);
    if r.more.End? {
      LastMakes(s, r.first, after, page, w);
    } else {
      RunsTaken(r.more, after, behind, next, w + r.first.words, d);
      OneMoreMakes(s, r.first, behind, page, w, d);
    }
  }

  /** The run at the front of a stream that the decoder does not refuse. */
  lemma FirstPiece(s: seq<byte>, page: seq<byte>, w: nat) returns (p: Piece, after: seq<byte>)
    requires |s| > 0 && IsPage(page) && w < MAX_DELTAS
    requires DecodeRun(s, page, 4 * w).More? || DecodeRun(s, page, 4 * w).result.Restored?
    ensures PieceOk(p) && s == PieceBytes(p) + after && w + p.words <= MAX_DELTAS
  {
    var n: int := s[0] % 128;
    if s[0] >= 128 {
      p, after := Skip(n), s[1..];
      assert s == [128 + n] + after;
      DecodeSkipped(page, 4 * w, n, after);
    } else {
      p, after := Copy(n, s[1..1 + 4 * n]), s[1 + 4 * n..];
    }
  }

  /** The run at the front of a stream that the decoder accepts, and what it goes on with. */
  lemma TakesPiece(s: seq<byte>, page: seq<byte>, w: nat) returns (p: Piece, after: seq<byte>)
    requires |s| > 0 && IsPage(page) && w < MAX_DELTAS && DecodeRuns(s, page, 4 * w).Restored?
    ensures PieceOk(p) && s == PieceBytes(p) + after && |after| < |s| && w + p.words <= MAX_DELTAS
    ensures w + p.words < MAX_DELTAS ==>
              |after| > 0 && DecodeRuns(after, Put(p, page, w), 4 * (w + p.words)).Restored?
  {
    var step := DecodeRun(s, page, 4 * w);
    RunsStep(s, page, 4 * w, step);
    p, after := FirstPiece(s, page, w);
    PieceDecodes(s, p, after, page, w);
  }

  /** What the decoder takes is made of such runs. */
  lemma {:induction false} DecodedRuns(s: seq<byte>, page: seq<byte>, w: nat) returns (r: Runs)
    requires |s| > 0 && IsPage(page) && w < MAX_DELTAS && DecodeRuns(s, page, 4 * w).Restored?
    ensures RunsOk(r) && w + Sum(r) == MAX_DELTAS && Flat(r) <= s
    decreases |s|
  {
    var p, after := TakesPiece(s, page, w);
    var more := End;
    if w + p.words < MAX_DELTAS {
      more := DecodedRuns(after, Put(p, page, w), w + p.words);
    }
    r := Then(p, more);
  }

  lemma RunsNotMarked(r: Runs, u: seq<byte>)
    requires Covers(r, u)
    ensures r.Then? && |u| > 0 && u[0] != 0 && u[0] != 128
  {
  }

  /** A page in the stream is taken off its front whatever follows, with its meaning for the page held. */
  lemma UnitDecodes(u: seq<byte>, after: seq<byte>, page: seq<byte>)
    requires IsUnit(u) && IsPage(page)
    ensures Decode(u + after, page).Restored? && Decode(u + after, page).rest == after
    ensures u == [0] ==> Decode(u + after, page).page == page
    ensures |u| == 4097 && u[0] == 128 ==> Decode(u + after, page).page == u[1..]
    ensures forall r :: Covers(r, u) ==> Decode(u + after, page).page == Laid(r, page, 0)
  {
    var s := u + after;
    forall r | Covers(r, u) ensures Decode(s, page) == Restored(Laid(r, page, 0), after) {
      RunsNotMarked(r, u);
      RunsTaken(r, after, s, page, 0, Restored(Laid(r, page, 0), after));
    }
    if u == [0] {
      assert s[1..] == after;
    } else if |u| == 4097 && u[0] == 128 {
      assert s[1..4097] == u[1..] && s[4097..] == after;
    }
  }

  /** Accepted is exactly a stream that begins with a page. */
  lemma AcceptedExactly(s: seq<byte>, page: seq<byte>)
    requires IsPage(page)
    ensures Decode(s, page).Restored? <==> exists u :: IsUnit(u) && u <= s
  {
    if Decode(s, page).Restored? {
      var u;
      if s[0] == 0 {
        u := [0];
      } else if s[0] == 128 {
        u := s[..4097];
      } else {
        var r := DecodedRuns(s, page, 0);
        u := Flat(r);
        assert Covers(r, u);
      }
      assert IsUnit(u) && u <= s;
    }
    forall u | IsUnit(u) && u <= s ensures Decode(s, page).Restored? {
      assert s == u + s[|u|..];
      UnitDecodes(u, s[|u|..], page);
    }
  }

  /** What is accepted stays so, with the same page, whatever is appended. */
  lemma AcceptedStays(s: seq<byte>, more: seq<byte>, page: seq<byte>)
    requires IsPage(page) && Decode(s, page).Restored?
    ensures Decode(s + more, page).Restored? && Decode(s + more, page).rest == Decode(s, page).rest + more
    ensures Decode(s + more, page).page == Decode(s, page).page
  {
    AcceptedExactly(s, page);
    var u :| IsUnit(u) && u <= s;
    var after := s[|u|..];
    Regrouped(s, u, more);
    UnitDecodes(u, after, page);
    UnitDecodes(u, after + more, page);
    if IsRuns(u) {
      var r :| Covers(r, u);
    }
  }

  lemma Regrouped(s: seq<byte>, u: seq<byte>, more: seq<byte>)
    requires u <= s
    ensures s == u + s[|u|..] && s + more == u + (s[|u|..] + more)
  {
  }

  /** A page that arrives short of its last byte is refused, at any point and over any page. */
  lemma CutShortIsCorrupt(older: seq<byte>, newer: seq<byte>, held: seq<byte>, n: nat)
    requires IsPage(older) && IsPage(newer) && IsPage(held)
    ensures n < |Encode(older, newer)| ==> Decode(Encode(older, newer)[..n], held).Corrupt?
    ensures n < |EncodeFull(newer)| ==> Decode(EncodeFull(newer)[..n], held).Corrupt?
  {
    DecodeDelta(older, newer, held, []);
    FullRoundTrip(held, newer, []);
    NoShorter(Encode(older, newer), held, n);
    NoShorter(EncodeFull(newer), held, n);
  }

  lemma NoShorter(s: seq<byte>, held: seq<byte>, n: nat)
    requires IsPage(held) && Decode(s + [], held).Restored? && Decode(s + [], held).rest == []
    ensures n < |s| ==> Decode(s[..n], held).Corrupt?
  {
    if n < |s| {
      assert s[..n] + s[n..] == s + [] && |s[n..]| > 0;
      if Decode(s[..n], held).Restored? {
        AcceptedStays(s[..n], s[n..], held);
      }
    }
  }
}
