/**
  One direction of a vchan: a writer in blocking libxenvchan_write and a reader
  in blocking libxenvchan_read share a ring, its free-running 32-bit indices and
  the two notification bits. Every access to shared memory is a step of its own
  and the two sides interleave at will; each byte of a copy is one step.
 */
module Vchan {

  const WORD: nat := 0x1_0000_0000

  /** Ring sizes are powers of two, so they divide 2^32; at most 2^30 here, for int arithmetic. */
  datatype Config = Config(size: nat)

  predicate ConfigOk(c: Config) {
    0 < c.size <= 0x4000_0000 && WORD % c.size == 0
  }

  /** Where the writer is, with the amount this round sends. */
  datatype WriterPc =
    | WIdle
    | WSpace
    | WRequest
    | WSpaceAgain
    | WCopy(avail: nat, i: nat)
    | WPublish(avail: nat)
    | WNotify(avail: nat)
    | WSignal(avail: nat)
    | WAfter(avail: nat)
    | WWait

  datatype Writer = Writer(pc: WriterPc, data: seq<int>, pos: nat)

  datatype ReaderPc =
    | RIdle
    | RReady
    | RRequest
    | RReadyAgain
    | RCopy(n: nat, i: nat)
    | RPublish(n: nat)
    | RNotify
    | RSignal
    | RWait

  datatype Reader = Reader(pc: ReaderPc, want: nat, buf: seq<int>)

  /**
    The shared ring page, both sides, and the history: every byte handed to a
    write call, every byte published, every byte consumed.
   */
  datatype State = State(
    ring: seq<int>, prod: nat, cons: nat,
    notifyWrite: bool, notifyRead: bool, readerEvent: bool, writerEvent: bool,
    w: Writer, r: Reader,
    offered: seq<int>, sent: seq<int>, rcvd: seq<int>)

  predicate Init(c: Config, s: State) {
    && |s.ring| == c.size && s.prod == 0 && s.cons == 0
    && s.w == Writer(WIdle, [], 0) && s.r == Reader(RIdle, 0, [])
    && s.offered == [] && s.sent == [] && s.rcvd == []
  }

  // ----- Index arithmetic, as in the source -----

  /** prod - cons on 32-bit unsigned integers. */
  function Used(s: State): (n: nat) {
    (s.prod - s.cons) % WORD
  }

  function Space(c: Config, s: State): (n: nat) {
    if Used(s) <= c.size then c.size - Used(s) else 0
  }

  /** Where byte i of a transfer of n bytes at index goes: up to the end of the ring, then from its start. */
  function Place(c: Config, index: nat, n: nat, i: nat): (at: int)
    requires c.size > 0
  {
    var realIdx := index % c.size;
    var contig := if c.size - realIdx > n then n else c.size - realIdx;
    if i < contig then realIdx + i else i - contig
  }

  // ----- Steps -----

  datatype Action = WriteCall(data: seq<int>) | WriterStep | ReadCall(want: nat) | ReaderStep

  /** A waiting side moves only on an event; an idle one only when called. */
  predicate Enabled(s: State, a: Action) {
    match a
    case WriteCall(_) => s.w.pc.WIdle?
    case ReadCall(_) => s.r.pc.RIdle?
    case WriterStep => !s.w.pc.WIdle? && (s.w.pc.WWait? ==> s.writerEvent)
    case ReaderStep => !s.r.pc.RIdle? && (s.r.pc.RWait? ==> s.readerEvent)
  }

  /** The amount to send, cut to what is left, decides between copying and going on. */
  function Decide(s: State, avail: nat): (pc: WriterPc)
    requires s.w.pos <= |s.w.data|
  {
    var n := if s.w.pos + avail > |s.w.data| then |s.w.data| - s.w.pos else avail;
    if n > 0 then WCopy(n, 0) else WAfter(0)
  }

  /** A state whose writer and copy registers make sense for the next step. */
  predicate WriterReady(c: Config, s: State) {
    && s.w.pos <= |s.w.data| && |s.ring| == c.size && c.size > 0
    && match s.w.pc
       case WCopy(avail, i) => i < avail <= c.size && s.w.pos + avail <= |s.w.data|
       case WPublish(avail) => s.w.pos + avail <= |s.w.data|
       case WNotify(avail) => s.w.pos + avail <= |s.w.data|
       case WSignal(avail) => s.w.pos + avail <= |s.w.data|
       case WAfter(avail) => s.w.pos + avail <= |s.w.data|
       case _ => true
  }

  predicate ReaderReady(c: Config, s: State) {
    && |s.ring| == c.size && c.size > 0
    && match s.r.pc
       case RCopy(n, i) => i < n <= c.size
       case _ => true
  }

  function WriterDo(c: Config, s: State): (t: State)
    requires WriterReady(c, s) && !s.w.pc.WIdle?
  {
    match s.w.pc
    case WSpace =>
      if Space(c, s) >= |s.w.data| - s.w.pos then
        s.(w := s.w.(pc := Decide(s, Space(c, s))))
      else s.(w := s.w.(pc := WRequest))
    case WRequest => s.(notifyRead := true, w := s.w.(pc := WSpaceAgain))
    case WSpaceAgain => s.(w := s.w.(pc := Decide(s, Space(c, s))))
    case WCopy(avail, i) =>
      var at := Place(c, s.prod, avail, i);
      var pc := if i + 1 < avail then WCopy(avail, i + 1) else WPublish(avail);
      s.(ring := if 0 <= at < |s.ring| then s.ring[at := s.w.data[s.w.pos + i]] else s.ring, w := s.w.(pc := pc))
    case WPublish(avail) =>
      s.(prod := (s.prod + avail) % WORD,
         sent := s.sent + s.w.data[s.w.pos..s.w.pos + avail],
         w := s.w.(pc := WNotify(avail)))
    case WNotify(avail) =>
      s.(notifyWrite := false,
         w := s.w.(pc := if s.notifyWrite then WSignal(avail) else WAfter(avail)))
    case WSignal(avail) => s.(readerEvent := true, w := s.w.(pc := WAfter(avail)))
    case WAfter(avail) =>
      var pos := s.w.pos + avail;
      s.(w := Writer(if pos == |s.w.data| then WIdle else WWait, s.w.data, pos))
    case WWait => s.(writerEvent := false, w := s.w.(pc := WSpace))
  }

  function ReaderDecide(s: State, avail: nat): (pc: ReaderPc) {
    if avail == 0 then RWait
    else
      var n := if s.r.want > avail then avail else s.r.want;
      if n > 0 then RCopy(n, 0) else RPublish(0)
  }

  function ReaderDo(c: Config, s: State): (t: State)
    requires ReaderReady(c, s) && !s.r.pc.RIdle?
  {
    match s.r.pc
    case RReady =>
      s.(r := s.r.(pc := if Used(s) >= s.r.want then ReaderDecide(s, Used(s)) else RRequest, buf := []))
    case RRequest => s.(notifyWrite := true, r := s.r.(pc := RReadyAgain))
    case RReadyAgain => s.(r := s.r.(pc := ReaderDecide(s, Used(s))))
    case RCopy(n, i) =>
      var at := Place(c, s.cons, n, i);
      var b := if 0 <= at < |s.ring| then [s.ring[at]] else [];
      s.(r := s.r.(pc := if i + 1 < n then RCopy(n, i + 1) else RPublish(n), buf := s.r.buf + b))
    case RPublish(n) =>
      s.(cons := (s.cons + n) % WORD, rcvd := s.rcvd + s.r.buf, r := s.r.(pc := RNotify))
    case RNotify => s.(notifyRead := false, r := s.r.(pc := if s.notifyRead then RSignal else RIdle))
    case RSignal => s.(writerEvent := true, r := s.r.(pc := RIdle))
    case RWait => s.(readerEvent := false, r := s.r.(pc := RReady))
  }

  function Do(c: Config, s: State, a: Action): (t: State)
    requires WriterReady(c, s) && ReaderReady(c, s) && Enabled(s, a)
  {
    match a
    case WriteCall(data) => s.(w := Writer(WSpace, data, 0), offered := s.offered + data)
    case ReadCall(want) => s.(r := Reader(RReady, want, []))
    case WriterStep => WriterDo(c, s)
    case ReaderStep => ReaderDo(c, s)
  }

  // ----- Modular facts -----

  lemma {:induction false} ModShift(a: nat, b: nat, n: nat)
    requires n > 0
    ensures (n * a + b) % n == b % n
  {
    if a > 0 {
      ModShift(a - 1, b, n);
      assert n * a + b == (n * (a - 1) + b) + n;
      ModPlus(n * (a - 1) + b, n);
    }
  }

  lemma ModPlus(x: nat, n: nat)
    requires n > 0
    ensures (x + n) % n == x % n
  {
    var q, r := x / n, x % n;
    assert x + n == n * (q + 1) + r;
    ModUnique(x + n, n, q + 1, r);
  }

  lemma ModUnique(x: nat, n: nat, q: nat, r: nat)
    requires n > 0 && x == n * q + r && r < n
    ensures x % n == r
  {
    var q', r' := x / n, x % n;
    assert n * q' + r' == n * q + r;
    if q' < q {
      MulGap(n, q', q);
    } else if q < q' {
      MulGap(n, q, q');
    }
  }

  lemma MulGap(n: nat, a: nat, b: nat)
    requires a < b
    ensures n * a + n <= n * b
  {
    assert n * (a + 1) <= n * b;
  }

  /** Wrapping an index at a multiple of the ring size does not move it in the ring. */
  lemma ModMod(x: nat, m: nat, n: nat)
    requires 0 < n && 0 < m && m % n == 0
    ensures x % m % n == x % n
  {
    var k, q, r := m / n, x / m, x % m;
    assert m == n * k;
    assert x == n * (k * q) + r;
    ModShift(k * q, r, n);
  }

  /** The place of stream position i in a ring of n bytes. */
  function RingPos(i: nat, n: nat): (at: nat)
    requires n > 0
    ensures at < n
  {
    if i < n then i else RingPos(i - n, n)
  }

  lemma {:induction false} RingPosIsMod(i: nat, n: nat)
    requires n > 0
    ensures RingPos(i, n) == i % n
  {
    if i >= n {
      RingPosIsMod(i - n, n);
      ModPlus(i - n, n);
    }
  }

  /** Positions less than a ring apart are different places. */
  lemma Apart(a: nat, b: nat, n: nat)
    requires 0 < n && a < b < a + n
    ensures RingPos(a, n) != RingPos(b, n)
  {
    ModStep(a, b - a, n);
    RingPosIsMod(a, n);
    RingPosIsMod(b, n);
  }

  lemma ModStep(a: nat, i: nat, n: nat)
    requires 0 < n && i < n
    ensures (a + i) % n == if a % n + i < n then a % n + i else a % n + i - n
  {
    var q, r := a / n, a % n;
    assert a == n * q + r;
    if r + i < n {
      ModUnique(a + i, n, q, r + i);
    } else {
      assert a + i == n * (q + 1) + (r + i - n);
      ModUnique(a + i, n, q + 1, r + i - n);
    }
  }

  /** Both parts of a copy land where the byte's position says, whatever the index wrapped to. */
  lemma PlaceIs(c: Config, at: nat, n: nat, i: nat)
    requires ConfigOk(c) && i < n <= c.size
    ensures Place(c, at % WORD, n, i) == RingPos(at + i, c.size)
  {
    RingPosIsMod(at + i, c.size);
    ModMod(at, WORD, c.size);
    ModStep(at, i, c.size);
  }

  /** Indices less than 2^32 apart are as far apart as their wrapped values say. */
  lemma UsedIs(p: nat, q: nat)
    requires q <= p < q + WORD
    ensures (p % WORD - q % WORD) % WORD == p - q
  {
  }

  lemma WrapAdd(p: nat, n: nat)
    ensures (p % WORD + n) % WORD == (p + n) % WORD
  {
  }

  // ----- Safety -----

  /** Byte i of the stream is in its place in the ring. */
  predicate Holds(c: Config, ring: seq<int>, i: nat, b: int)
    requires c.size > 0
  {
    |ring| == c.size && ring[RingPos(i, c.size)] == b
  }

  predicate Indices(c: Config, s: State) {
    && s.prod == |s.sent| % WORD && s.cons == |s.rcvd| % WORD
    && |s.rcvd| <= |s.sent| <= |s.rcvd| + c.size
  }

  predicate Unread(c: Config, s: State)
    requires c.size > 0
  {
    forall i :: |s.rcvd| <= i < |s.sent| ==> Holds(c, s.ring, i, s.sent[i])
  }

  /** The part of the current write that has been put in the ring but not published. */
  predicate Copied(c: Config, s: State, avail: nat, i: nat)
    requires c.size > 0
  {
    && |s.sent| - |s.rcvd| + avail <= c.size && s.w.pos + avail <= |s.w.data| && i <= avail
    && forall u :: 0 <= u < i ==> CopiedAt(c, s, u)
  }

  predicate CopiedAt(c: Config, s: State, u: nat)
    requires c.size > 0 && s.w.pos + u < |s.w.data|
  {
    Holds(c, s.ring, |s.sent| + u, s.w.data[s.w.pos + u])
  }

  predicate WriterOk(c: Config, s: State)
    requires c.size > 0
  {
    match s.w.pc
    case WCopy(avail, i) => Copied(c, s, avail, i)
    case WPublish(avail) => Copied(c, s, avail, avail)
    case WIdle => s.w.pos == |s.w.data|
    case _ => true
  }

  predicate ReaderOk(c: Config, s: State) {
    match s.r.pc
    case RRequest => s.r.buf == []
    case RReadyAgain => s.r.buf == []
    case RCopy(n, i) => |s.rcvd| + n <= |s.sent| && i <= n && s.r.buf == s.sent[|s.rcvd|..|s.rcvd| + i]
    case RPublish(n) => |s.rcvd| + n <= |s.sent| && s.r.buf == s.sent[|s.rcvd|..|s.rcvd| + n]
    case _ => true
  }

  /** The part of the current write not yet published. */
  function Unsent(w: Writer): (rest: seq<int>) {
    var from := match w.pc
      case WNotify(avail) => w.pos + avail
      case WSignal(avail) => w.pos + avail
      case WAfter(avail) => w.pos + avail
      case _ => w.pos;
    if from <= |w.data| then w.data[from..] else []
  }

  /** Everything that keeps the byte stream intact. */
  predicate Safe(c: Config, s: State) {
    && ConfigOk(c) && WriterReady(c, s) && ReaderReady(c, s)
    && Indices(c, s) && s.rcvd == s.sent[..|s.rcvd|] && Unread(c, s)
    && WriterOk(c, s) && ReaderOk(c, s) && s.offered == s.sent + Unsent(s.w)
  }

  lemma UsedNow(c: Config, s: State)
    requires ConfigOk(c) && Indices(c, s)
    ensures Used(s) == |s.sent| - |s.rcvd| && Space(c, s) == c.size - (|s.sent| - |s.rcvd|)
  {
    UsedIs(|s.sent|, |s.rcvd|);
  }

  /** A byte written less than a round behind them leaves the unread bytes. */
  lemma UnreadStill(c: Config, ring: seq<int>, sent: seq<int>, r: nat, p: nat, v: int)
    requires 0 < c.size == |ring| && |sent| <= p < r + c.size
    requires forall q :: r <= q < |sent| ==> Holds(c, ring, q, sent[q])
    ensures forall q :: r <= q < |sent| ==> Holds(c, ring[RingPos(p, c.size) := v], q, sent[q])
  {
    forall q | r <= q < |sent| ensures Holds(c, ring[RingPos(p, c.size) := v], q, sent[q]) {
      assert Holds(c, ring, q, sent[q]);
      Apart(q, p, c.size);
    }
  }

  /** It leaves the bytes copied before it, too. */
  lemma CopiedStill(c: Config, s: State, t: State, u: nat, i: nat)
    requires 0 < c.size == |s.ring| && u < i < c.size && s.w.pos + i < |s.w.data| && CopiedAt(c, s, u)
    requires t.sent == s.sent && t.w.data == s.w.data && t.w.pos == s.w.pos
    requires t.ring == s.ring[RingPos(|s.sent| + i, c.size) := s.w.data[s.w.pos + i]]
    ensures CopiedAt(c, t, u)
  {
    Apart(|s.sent| + u, |s.sent| + i, c.size);
  }

  /** What one step of a copy does to the ring: the byte goes to its place in the stream. */
  lemma CopyWrites(c: Config, s: State, t: State, p: nat)
    requires Safe(c, s) && s.w.pc.WCopy? && t == WriterDo(c, s) && p == |s.sent| + s.w.pc.i
    ensures |s.ring| == c.size && s.w.pos + s.w.pc.i < |s.w.data|
    ensures t.ring == s.ring[RingPos(p, c.size) := s.w.data[s.w.pos + s.w.pc.i]]
    ensures t.sent == s.sent && t.rcvd == s.rcvd && t.w.data == s.w.data && t.w.pos == s.w.pos
  {
    PlaceIs(c, |s.sent|, s.w.pc.avail, s.w.pc.i);
  }

  /** Writing the next byte of a copy disturbs no unread byte and none copied before. */
  lemma CopyKeepsBytes(c: Config, s: State, t: State)
    requires Safe(c, s) && s.w.pc.WCopy? && t == WriterDo(c, s)
    ensures Unread(c, t) && Copied(c, t, s.w.pc.avail, s.w.pc.i + 1)
  {
    var i := s.w.pc.i;
    CopyWrites(c, s, t, |s.sent| + i);
    UnreadStill(c, s.ring, s.sent, |s.rcvd|, |s.sent| + i, s.w.data[s.w.pos + i]);
    forall u | 0 <= u < i + 1 ensures CopiedAt(c, t, u) {
      if u < i {
        assert CopiedAt(c, s, u);
        CopiedStill(c, s, t, u, i);
      }
    }
  }

  lemma CopySafe(c: Config, s: State)
    requires Safe(c, s) && s.w.pc.WCopy?
    ensures Safe(c, WriterDo(c, s))
  {
    CopyKeepsBytes(c, s, WriterDo(c, s));
  }

  /** The copied bytes become the last unread ones. */
  lemma PublishedUnread(c: Config, s: State, t: State)
    requires Safe(c, s) && s.w.pc.WPublish? && t == WriterDo(c, s)
    ensures Unread(c, t)
  {
    forall q | |t.rcvd| <= q < |t.sent| ensures Holds(c, t.ring, q, t.sent[q]) {
      if q < |s.sent| {
        assert Holds(c, s.ring, q, s.sent[q]);
      } else {
        assert CopiedAt(c, s, q - |s.sent|);
      }
    }
  }

  /** The stream only grows at its end, so what the reader relies on stays. */
  lemma PublishedPrefix(c: Config, s: State, t: State)
    requires Safe(c, s) && s.sent <= t.sent && t.rcvd == s.rcvd && t.r == s.r
    ensures t.rcvd == t.sent[..|t.rcvd|] && ReaderOk(c, t)
  {
    assert t.sent[..|s.rcvd|] == s.sent[..|s.rcvd|];
    match s.r.pc {
      case RCopy(n, i) => assert t.sent[|s.rcvd|..|s.rcvd| + i] == s.sent[|s.rcvd|..|s.rcvd| + i];
      case RPublish(n) => assert t.sent[|s.rcvd|..|s.rcvd| + n] == s.sent[|s.rcvd|..|s.rcvd| + n];
      case _ =>
    }
  }

  lemma HandedOver(sent: seq<int>, data: seq<int>, pos: nat, n: nat)
    requires pos + n <= |data|
    ensures sent + data[pos..] == sent + data[pos..pos + n] + data[pos + n..]
  {
  }

  lemma PublishedIndices(c: Config, s: State, t: State)
    requires Safe(c, s) && s.w.pc.WPublish? && t == WriterDo(c, s)
    ensures Indices(c, t) && s.sent <= t.sent
  {
    WrapAdd(|s.sent|, s.w.pc.avail);
  }

  /** Publishing moves bytes from the unsent part of the write to the stream. */
  lemma PublishedOffered(c: Config, s: State, t: State)
    requires Safe(c, s) && s.w.pc.WPublish? && t == WriterDo(c, s)
    ensures Indices(c, t) && s.sent <= t.sent && t.offered == t.sent + Unsent(t.w)
  {
    PublishedIndices(c, s, t);
    HandedOver(s.sent, s.w.data, s.w.pos, s.w.pc.avail);
  }

  lemma PublishSafe(c: Config, s: State)
    requires Safe(c, s) && s.w.pc.WPublish?
    ensures Safe(c, WriterDo(c, s))
  {
    var t := WriterDo(c, s);
    PublishedUnread(c, s, t);
    PublishedOffered(c, s, t);
    PublishedPrefix(c, s, t);
  }

  /** A step that moves no byte and no index keeps the stream intact. */
  lemma QuietWriter(c: Config, s: State, t: State)
    requires Safe(c, s) && t.ring == s.ring && t.prod == s.prod && t.cons == s.cons && t.r == s.r
    requires t.offered == s.offered && t.sent == s.sent && t.rcvd == s.rcvd
    requires WriterReady(c, t) && WriterOk(c, t) && Unsent(t.w) == Unsent(s.w)
    ensures Safe(c, t)
  {
    forall q | |t.rcvd| <= q < |t.sent| ensures Holds(c, t.ring, q, t.sent[q]) {
      assert Holds(c, s.ring, q, s.sent[q]);
    }
  }

  /** Deciding how much to send respects the space just read. */
  lemma DecideSafe(c: Config, s: State)
    requires Safe(c, s) && (s.w.pc.WSpace? || s.w.pc.WSpaceAgain?)
    ensures Safe(c, s.(w := s.w.(pc := Decide(s, Space(c, s)))))
  {
    UsedNow(c, s);
    var t := s.(w := s.w.(pc := Decide(s, Space(c, s))));
    QuietWriter(c, s, t);
  }

  lemma SpaceSafe(c: Config, s: State)
    requires Safe(c, s) && s.w.pc.WSpace?
    ensures Safe(c, WriterDo(c, s))
  {
    DecideSafe(c, s);
    QuietWriter(c, s, s.(w := s.w.(pc := WRequest)));
  }

  lemma HandshakeSafe(c: Config, s: State)
    requires Safe(c, s) && (s.w.pc.WRequest? || s.w.pc.WNotify? || s.w.pc.WSignal?)
    ensures Safe(c, WriterDo(c, s))
  {
    QuietWriter(c, s, WriterDo(c, s));
  }

  lemma AfterSafe(c: Config, s: State)
    requires Safe(c, s) && (s.w.pc.WAfter? || s.w.pc.WWait?)
    ensures Safe(c, WriterDo(c, s))
  {
    QuietWriter(c, s, WriterDo(c, s));
  }

  lemma WriterSafe(c: Config, s: State)
    requires Safe(c, s) && !s.w.pc.WIdle?
    ensures Safe(c, WriterDo(c, s))
  {
    match s.w.pc {
      case WCopy(_, _) => CopySafe(c, s);
      case WPublish(_) => PublishSafe(c, s);
      case WSpace => SpaceSafe(c, s);
      case WSpaceAgain => DecideSafe(c, s);
      case WAfter(_) => AfterSafe(c, s);
      case WWait => AfterSafe(c, s);
      case _ => HandshakeSafe(c, s);
    }
  }

  /** The byte taken from the ring is the next one of the stream. */
  lemma ReaderCopiesByte(c: Config, s: State)
    requires Safe(c, s) && s.r.pc.RCopy?
    ensures ReaderDo(c, s).r.buf == s.sent[|s.rcvd|..|s.rcvd| + s.r.pc.i + 1]
  {
    var n, i := s.r.pc.n, s.r.pc.i;
    var p := |s.rcvd| + i;
    PlaceIs(c, |s.rcvd|, n, i);
    assert Holds(c, s.ring, p, s.sent[p]);
    assert s.sent[|s.rcvd|..p + 1] == s.sent[|s.rcvd|..p] + [s.sent[p]];
  }

  lemma ReaderCopySafe(c: Config, s: State)
    requires Safe(c, s) && s.r.pc.RCopy?
    ensures Safe(c, ReaderDo(c, s))
  {
    ReaderCopiesByte(c, s);
    OthersUntouched(c, s, ReaderDo(c, s));
  }

  lemma ReaderPublishSafe(c: Config, s: State)
    requires Safe(c, s) && s.r.pc.RPublish?
    ensures Safe(c, ReaderDo(c, s))
  {
    var n, t := s.r.pc.n, ReaderDo(c, s);
    WrapAdd(|s.rcvd|, n);
    assert s.sent[..|s.rcvd| + n] == s.sent[..|s.rcvd|] + s.sent[|s.rcvd|..|s.rcvd| + n];
    OthersUntouched(c, s, t);
  }

  /** What the reader does leaves the ring, the stream and the writer's part of it alone. */
  lemma OthersUntouched(c: Config, s: State, t: State)
    requires Safe(c, s) && t.ring == s.ring && t.sent == s.sent && t.w == s.w && |s.rcvd| <= |t.rcvd|
    ensures Unread(c, t) && WriterOk(c, t)
  {
    forall q | |t.rcvd| <= q < |t.sent| ensures Holds(c, t.ring, q, t.sent[q]) {
      assert Holds(c, s.ring, q, s.sent[q]);
    }
    match s.w.pc {
      case WCopy(avail, i) => CopiedStays(c, s, t, avail, i);
      case WPublish(avail) => CopiedStays(c, s, t, avail, avail);
      case _ =>
    }
  }

  lemma CopiedStays(c: Config, s: State, t: State, avail: nat, i: nat)
    requires c.size > 0 && Copied(c, s, avail, i)
    requires t.ring == s.ring && t.sent == s.sent && t.w == s.w && |s.rcvd| <= |t.rcvd|
    ensures Copied(c, t, avail, i)
  {
    forall u | 0 <= u < i ensures CopiedAt(c, t, u) {
      assert CopiedAt(c, s, u);
    }
  }

  /** Deciding how much to take respects the amount just read. */
  lemma ReaderDecideSafe(c: Config, s: State, t: State)
    requires Safe(c, s) && t == s.(r := s.r.(pc := ReaderDecide(s, Used(s)), buf := []))
    ensures Safe(c, t)
  {
    UsedNow(c, s);
    OthersUntouched(c, s, t);
    assert s.sent[|s.rcvd|..|s.rcvd|] == [];
  }

  lemma ReadySafe(c: Config, s: State)
    requires Safe(c, s) && s.r.pc.RReady?
    ensures Safe(c, ReaderDo(c, s))
  {
    ReaderDecideSafe(c, s, s.(r := s.r.(pc := ReaderDecide(s, Used(s)), buf := [])));
    OthersUntouched(c, s, s.(r := s.r.(pc := RRequest, buf := [])));
  }

  lemma ReaderQuietSafe(c: Config, s: State)
    requires Safe(c, s) && (s.r.pc.RRequest? || s.r.pc.RNotify? || s.r.pc.RSignal? || s.r.pc.RWait?)
    ensures Safe(c, ReaderDo(c, s))
  {
    OthersUntouched(c, s, ReaderDo(c, s));
  }

  lemma ReaderSafe(c: Config, s: State)
    requires Safe(c, s) && !s.r.pc.RIdle?
    ensures Safe(c, ReaderDo(c, s))
  {
    match s.r.pc {
      case RCopy(_, _) => ReaderCopySafe(c, s);
      case RPublish(_) => ReaderPublishSafe(c, s);
      case RReady => ReadySafe(c, s);
      case RReadyAgain =>
        ReaderDecideSafe(c, s, s.(r := s.r.(pc := ReaderDecide(s, Used(s)), buf := [])));
      case _ => ReaderQuietSafe(c, s);
    }
  }

  lemma CallSafe(c: Config, s: State, a: Action)
    requires Safe(c, s) && Enabled(s, a) && (a.WriteCall? || a.ReadCall?)
    ensures Safe(c, Do(c, s, a))
  {
    var t := Do(c, s, a);
    forall q | |t.rcvd| <= q < |t.sent| ensures Holds(c, t.ring, q, t.sent[q]) {
      assert Holds(c, s.ring, q, s.sent[q]);
    }
    if a.WriteCall? {
      assert s.sent + [] == s.sent;
    } else {
      OthersUntouched(c, s, t);
    }
  }

  lemma StepSafe(c: Config, s: State, a: Action)
    requires Safe(c, s) && Enabled(s, a)
    ensures Safe(c, Do(c, s, a))
  {
    match a {
      case WriterStep => WriterSafe(c, s);
      case ReaderStep => ReaderSafe(c, s);
      case _ => CallSafe(c, s, a);
    }
  }
}
