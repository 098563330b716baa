/**
  Whole runs of the vchan protocol: the byte stream stays intact, no wake-up is
  lost, the two sides come to rest after a bounded number of steps, and they
  deadlock exactly if reads of no bytes are allowed.
 */
module VchanProgress {
  import opened Vchan

  // ----- Runs -----

  ghost predicate Reaches(c: Config, s: State, acts: seq<Action>, t: State)
    decreases |acts|
  {
    if acts == [] then s == t
    else
      && WriterReady(c, s) && ReaderReady(c, s) && Enabled(s, acts[0])
      && Reaches(c, Do(c, s, acts[0]), acts[1..], t)
  }

  lemma StartSafe(c: Config, s: State)
    requires ConfigOk(c) && Init(c, s)
    ensures Safe(c, s) && Cared(c, s)
  {
    assert s.sent + Unsent(s.w) == [];
  }

  lemma {:induction false} RunSafe(c: Config, s: State, acts: seq<Action>, t: State)
    requires Safe(c, s) && Cared(c, s) && Reaches(c, s, acts, t)
    ensures Safe(c, t) && Cared(c, t)
    decreases |acts|
  {
    if acts != [] {
      StepSafe(c, s, acts[0]);
      StepCared(c, s, acts[0]);
      RunSafe(c, Do(c, s, acts[0]), acts[1..], t);
    }
  }

  /**
    Whatever the interleaving, the bytes consumed are the first bytes written,
    in order, and the indices are at most a ring apart, on both sides of the
    32-bit wrap.
   */
  lemma StreamIntact(c: Config, s: State, acts: seq<Action>, t: State)
    requires ConfigOk(c) && Init(c, s) && Reaches(c, s, acts, t)
    ensures t.rcvd <= t.sent <= t.offered
    ensures Used(t) == |t.sent| - |t.rcvd| <= c.size
  {
    StartSafe(c, s);
    RunSafe(c, s, acts, t);
    UsedNow(c, t);
  }

  // ----- Wake-ups -----

  /** An event for the writer is pending, about to be sent, or requested with nothing to report yet. */
  predicate WriterWoken(c: Config, s: State, pending: nat) {
    s.writerEvent || s.r.pc.RSignal?
    || (s.notifyRead && (|s.sent| - |s.rcvd| + pending == c.size || s.r.pc.RNotify?))
  }

  predicate ReaderWoken(s: State) {
    s.readerEvent || s.w.pc.WSignal? || (s.notifyWrite && (|s.sent| == |s.rcvd| || s.w.pc.WNotify?))
  }

  /** Sending avail bytes leaves the write unfinished. */
  predicate Short(w: Writer, avail: nat) {
    w.pos + avail < |w.data|
  }

  /** A round that cannot finish the write will be followed by an event. */
  predicate WriterCared(c: Config, s: State) {
    match s.w.pc
    case WSpaceAgain => s.writerEvent || s.r.pc.RSignal? || s.notifyRead
    case WCopy(avail, _) => Short(s.w, avail) ==> WriterWoken(c, s, avail)
    case WPublish(avail) => Short(s.w, avail) ==> WriterWoken(c, s, avail)
    case WNotify(avail) => Short(s.w, avail) ==> WriterWoken(c, s, 0)
    case WSignal(avail) => Short(s.w, avail) ==> WriterWoken(c, s, 0)
    case WAfter(avail) => Short(s.w, avail) ==> WriterWoken(c, s, 0)
    case WWait => WriterWoken(c, s, 0)
    case _ => true
  }

  /** A read of at least one byte waits only for an event that will come, and takes no more than it asked for. */
  predicate ReaderCared(s: State) {
    match s.r.pc
    case RReadyAgain => s.readerEvent || s.w.pc.WSignal? || s.notifyWrite
    case RWait => s.r.want > 0 ==> ReaderWoken(s)
    case RCopy(n, _) => n <= s.r.want
    case RPublish(n) => n <= s.r.want && (s.r.want > 0 ==> n > 0)
    case _ => true
  }

  predicate Cared(c: Config, s: State) {
    WriterCared(c, s) && ReaderCared(s)
  }

  /** What the steps of either side read: the amounts are those of the stream. */
  predicate Counted(c: Config, s: State) {
    && WriterReady(c, s) && ReaderReady(c, s) && |s.rcvd| <= |s.sent| <= |s.rcvd| + c.size
    && Used(s) == |s.sent| - |s.rcvd| && Space(c, s) == c.size - (|s.sent| - |s.rcvd|)
  }

  lemma SafeCounted(c: Config, s: State)
    requires Safe(c, s)
    ensures Counted(c, s)
  {
    UsedNow(c, s);
  }

  lemma WriterCaresOn(c: Config, s: State)
    requires Counted(c, s) && WriterCared(c, s) && Enabled(s, WriterStep)
    ensures WriterCared(c, WriterDo(c, s))
  {
    if !s.w.pc.WSpace? && !s.w.pc.WSpaceAgain? {
      WriterRoundCared(c, s);
    }
  }

  lemma WriterRoundCared(c: Config, s: State)
    requires Counted(c, s) && WriterCared(c, s) && Enabled(s, WriterStep)
    requires !s.w.pc.WSpace? && !s.w.pc.WSpaceAgain?
    ensures WriterCared(c, WriterDo(c, s))
  {
  }

  lemma ReaderStaysCared(c: Config, s: State)
    requires Counted(c, s) && ReaderCared(s) && Enabled(s, WriterStep)
    ensures ReaderCared(WriterDo(c, s))
  {
  }

  lemma ReaderCaresOn(c: Config, s: State)
    requires Counted(c, s) && ReaderCared(s) && Enabled(s, ReaderStep)
    ensures ReaderCared(ReaderDo(c, s))
  {
  }

  lemma WriterStaysCared(c: Config, s: State)
    requires Counted(c, s) && WriterCared(c, s) && Enabled(s, ReaderStep)
    ensures WriterCared(c, ReaderDo(c, s))
  {
  }

  lemma StepCared(c: Config, s: State, a: Action)
    requires Safe(c, s) && Cared(c, s) && Enabled(s, a)
    ensures Cared(c, Do(c, s, a))
  {
    SafeCounted(c, s);
    match a {
      case WriterStep =>
        WriterCaresOn(c, s);
        ReaderStaysCared(c, s);
      case ReaderStep =>
        ReaderCaresOn(c, s);
        WriterStaysCared(c, s);
      case _ =>
    }
  }

  // ----- Coming to rest -----

  predicate Stuck(s: State) {
    !Enabled(s, WriterStep) && !Enabled(s, ReaderStep)
  }

  /**
    Where a run can come to rest. A write that has returned has sent all it was
    given; a read that still waits for its first byte has been given every byte
    there is; a write that still waits has filled the ring, nobody reads, and
    the next read will wake it. Only a read of no bytes escapes this.
   */
  lemma StuckMeansDone(c: Config, s: State, acts: seq<Action>, t: State)
    requires ConfigOk(c) && Init(c, s) && Reaches(c, s, acts, t) && Stuck(t)
    ensures t.w.pc.WIdle? ==> t.sent == t.offered
    ensures t.r.pc.RWait? && t.r.want > 0 ==> t.w.pc.WIdle? && t.rcvd == t.offered
    ensures t.w.pc.WWait? ==> Used(t) == c.size && t.notifyRead && (t.r.pc.RIdle? || t.r.want == 0)
  {
    StartSafe(c, s);
    RunSafe(c, s, acts, t);
    UsedNow(c, t);
    if t.w.pc.WIdle? {
      assert Unsent(t.w) == [];
      assert t.offered == t.sent;
    }
    assert t.sent[..|t.sent|] == t.sent;
  }

  function Rounds(c: Config): (k: nat) {
    c.size + 8
  }

  /** Whether this round of the writer may still send an event. */
  predicate MaySignal(pc: WriterPc) {
    !pc.WIdle? && !pc.WWait? && !pc.WAfter?
  }

  /** Steps left in the current round of the writer. */
  function WriterLeft(c: Config, pc: WriterPc): (n: int) {
    match pc
    case WSpace => c.size + 7
    case WRequest => c.size + 6
    case WSpaceAgain => c.size + 5
    case WCopy(avail, i) => 4 + avail - i
    case WPublish(_) => 4
    case WNotify(_) => 3
    case WSignal(_) => 2
    case WAfter(_) => 1
    case _ => 0
  }

  function ReaderLeft(c: Config, pc: ReaderPc): (n: int) {
    match pc
    case RReady => c.size + 6
    case RRequest => c.size + 5
    case RReadyAgain => c.size + 4
    case RCopy(n, i) => 3 + n - i
    case RPublish(_) => 3
    case RNotify => 2
    case RSignal => 1
    case _ => 0
  }

  /** Each pending or possible event pays for the rounds it may start, on both sides. */
  function Credit(c: Config, s: State): (n: nat) {
    var k := Rounds(c);
    (if s.writerEvent then 2 * k else 0) + (if s.r.pc.RIdle? then 0 else 2 * k)
    + (if s.readerEvent then k else 0) + (if MaySignal(s.w.pc) then k else 0)
  }

  function StepsLeft(c: Config, s: State): (n: int) {
    Credit(c, s) + WriterLeft(c, s.w.pc) + ReaderLeft(c, s.r.pc)
  }

  lemma WriterShrinks(c: Config, s: State)
    requires Counted(c, s) && Enabled(s, WriterStep)
    ensures StepsLeft(c, WriterDo(c, s)) < StepsLeft(c, s)
  {
    if s.w.pc.WWait? {
      WriterWakes(c, s);
    } else {
      WriterRound(c, s);
      WriterCredit(c, s);
      assert WriterDo(c, s).r == s.r;
    }
  }

  lemma WriterWakes(c: Config, s: State)
    requires Counted(c, s) && Enabled(s, WriterStep) && s.w.pc.WWait?
    ensures StepsLeft(c, WriterDo(c, s)) < StepsLeft(c, s)
  {
    var t := WriterDo(c, s);
    assert Credit(c, t) == Credit(c, s) - Rounds(c);
  }

  /** Within a round the writer spends no more than it had. */
  lemma WriterCredit(c: Config, s: State)
    requires Counted(c, s) && Enabled(s, WriterStep) && !s.w.pc.WWait?
    ensures Credit(c, WriterDo(c, s)) <= Credit(c, s)
  {
  }

  lemma WriterRound(c: Config, s: State)
    requires Counted(c, s) && Enabled(s, WriterStep) && !s.w.pc.WWait?
    ensures WriterLeft(c, WriterDo(c, s).w.pc) < WriterLeft(c, s.w.pc)
  {
    if s.w.pc.WSpace? || s.w.pc.WSpaceAgain? {
      assert WriterLeft(c, Decide(s, Space(c, s))) <= c.size + 4;
    } else {
      WriterCopies(c, s);
    }
  }

  lemma WriterCopies(c: Config, s: State)
    requires WriterReady(c, s) && !s.w.pc.WIdle? && !s.w.pc.WWait? && !s.w.pc.WSpace? && !s.w.pc.WSpaceAgain?
    ensures WriterLeft(c, WriterDo(c, s).w.pc) < WriterLeft(c, s.w.pc)
  {
  }

  lemma ReaderShrinks(c: Config, s: State)
    requires Counted(c, s) && Enabled(s, ReaderStep)
    ensures StepsLeft(c, ReaderDo(c, s)) < StepsLeft(c, s)
  {
    var t := ReaderDo(c, s);
    if s.r.pc.RWait? {
      assert Credit(c, t) == Credit(c, s) - Rounds(c);
    } else {
      ReaderRound(c, s);
      assert Credit(c, t) <= Credit(c, s);
    }
  }

  lemma ReaderRound(c: Config, s: State)
    requires Counted(c, s) && Enabled(s, ReaderStep) && !s.r.pc.RWait?
    ensures ReaderLeft(c, ReaderDo(c, s).r.pc) < ReaderLeft(c, s.r.pc)
  {
    if s.r.pc.RReady? || s.r.pc.RReadyAgain? {
      assert ReaderLeft(c, ReaderDecide(s, Used(s))) <= c.size + 3;
    } else {
      ReaderCopies(c, s);
    }
  }

  lemma ReaderCopies(c: Config, s: State)
    requires ReaderReady(c, s) && !s.r.pc.RIdle? && !s.r.pc.RWait? && !s.r.pc.RReady? && !s.r.pc.RReadyAgain?
    ensures ReaderLeft(c, ReaderDo(c, s).r.pc) < ReaderLeft(c, s.r.pc)
  {
  }

  lemma StepsBounded(c: Config, s: State)
    requires Counted(c, s)
    ensures 0 <= StepsLeft(c, s) <= 8 * c.size + 64
  {
  }

  /** Without further calls, no interleaving makes more than 8 * size + 64 steps. */
  lemma {:induction false} ComesToRest(c: Config, s: State, acts: seq<Action>, t: State)
    requires Safe(c, s) && Reaches(c, s, acts, t)
    requires forall i :: 0 <= i < |acts| ==> acts[i].WriterStep? || acts[i].ReaderStep?
    ensures StepsLeft(c, t) >= 0 && |acts| <= StepsLeft(c, s) - StepsLeft(c, t) <= 8 * c.size + 64
    decreases |acts|
  {
    SafeCounted(c, s);
    StepsBounded(c, s);
    if acts != [] {
      if acts[0].WriterStep? {
        WriterShrinks(c, s);
      } else {
        ReaderShrinks(c, s);
      }
      StepSafe(c, s, acts[0]);
      ComesToRest(c, Do(c, s, acts[0]), acts[1..], t);
    }
  }
}
