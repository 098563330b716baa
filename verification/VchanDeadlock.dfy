/**
  When both sides of a vchan can sleep for good: exactly if a reader may ask for
  no bytes. Such a read waits on an empty ring without having asked to be told.
 */
module VchanDeadlock {
  import opened Vchan
  import opened VchanProgress

  predicate Deadlocked(s: State) {
    s.w.pc.WWait? && s.r.pc.RWait? && Stuck(s)
  }

  predicate ReadsAtLeast(acts: seq<Action>, least: nat) {
    forall i :: 0 <= i < |acts| && acts[i].ReadCall? ==> acts[i].want >= least
  }

  ghost predicate CanDeadlock(c: Config, least: nat) {
    exists s, acts, t ::
      Reaches(c, s, acts, t) && Init(c, s) && s == Opened(c) && ReadsAtLeast(acts, least) && Deadlocked(t)
  }

  lemma {:induction false} WantKept(c: Config, s: State, acts: seq<Action>, t: State, least: nat)
    requires Reaches(c, s, acts, t) && ReadsAtLeast(acts, least)
    requires s.r.pc.RIdle? || s.r.want >= least
    ensures t.r.pc.RIdle? || t.r.want >= least
    decreases |acts|
  {
    if acts != [] {
      var a := acts[0];
      assert ReadsAtLeast(acts[1..], least);
      assert a.ReadCall? ==> a.want >= least;
      assert Do(c, s, a).r.pc.RIdle? || Do(c, s, a).r.want >= least;
      WantKept(c, Do(c, s, a), acts[1..], t, least);
    }
  }

  /** Reader and writer are never both asleep with nothing pending, unless the read is for no bytes. */
  lemma DeadlockNeedsEmptyRead(c: Config, s: State, acts: seq<Action>, t: State)
    requires ConfigOk(c) && Init(c, s) && Reaches(c, s, acts, t) && Deadlocked(t)
    ensures t.r.want == 0 && !ReadsAtLeast(acts, 1)
  {
    StuckMeansDone(c, s, acts, t);
    if ReadsAtLeast(acts, 1) {
      WantKept(c, s, acts, t, 1);
    }
  }

  // ----- A run into the deadlock, from the bits the set-up code leaves -----

  function Opened(c: Config): (s: State) {
    State(seq(c.size, (i: nat) => 0), 0, 0, true, false, false, false,
          Writer(WIdle, [], 0), Reader(RIdle, 0, []), [], [], [])
  }

  lemma {:induction false} ReachesOneMore(c: Config, s: State, acts: seq<Action>, t: State, a: Action)
    requires Reaches(c, s, acts, t) && WriterReady(c, t) && ReaderReady(c, t) && Enabled(t, a)
    ensures Reaches(c, s, acts + [a], Do(c, t, a))
    decreases |acts|
  {
    if acts == [] {
      assert acts + [a] == [a];
      assert [a][1..] == [];
    } else {
      ReachesOneMore(c, Do(c, s, acts[0]), acts[1..], t, a);
      assert (acts + [a])[1..] == acts[1..] + [a];
    }
  }

  /** A safe state at the end of a run from the opened channel. */
  ghost predicate At(c: Config, acts: seq<Action>, s: State) {
    Reaches(c, Opened(c), acts, s) && Safe(c, s)
  }

  lemma Next(c: Config, acts: seq<Action>, s: State, a: Action) returns (acts': seq<Action>, t: State)
    requires At(c, acts, s) && Enabled(s, a)
    ensures acts' == acts + [a] && t == Do(c, s, a) && At(c, acts', t)
  {
    acts', t := acts + [a], Do(c, s, a);
    StepSafe(c, s, a);
    ReachesOneMore(c, Opened(c), acts, s, a);
  }

  lemma {:induction false} CopyAll(c: Config, acts: seq<Action>, s: State) returns (acts': seq<Action>, t: State)
    requires At(c, acts, s) && s.w.pc.WCopy?
    ensures At(c, acts', t) && t == s.(ring := t.ring, w := s.w.(pc := WPublish(s.w.pc.avail)))
    decreases s.w.pc.avail - s.w.pc.i
  {
    acts', t := Next(c, acts, s, WriterStep);
    if t.w.pc.WCopy? {
      acts', t := CopyAll(c, acts', t);
    }
  }

  lemma CopyAndPublish(c: Config, acts: seq<Action>, s: State) returns (acts': seq<Action>, t: State)
    requires At(c, acts, s) && s.w.pc.WCopy?
    ensures At(c, acts', t) && t.w == s.w.(pc := WNotify(s.w.pc.avail))
    ensures t.r == s.r && t.rcvd == s.rcvd && |t.sent| == |s.sent| + s.w.pc.avail
    ensures t.notifyRead == s.notifyRead && t.writerEvent == s.writerEvent
    ensures t.notifyWrite == s.notifyWrite && t.readerEvent == s.readerEvent
  {
    acts', t := CopyAll(c, acts, s);
    acts', t := Next(c, acts', t, WriterStep);
  }

  lemma TellReader(c: Config, acts: seq<Action>, s: State) returns (acts': seq<Action>, t: State)
    requires At(c, acts, s) && s.w.pc.WNotify?
    ensures At(c, acts', t)
    ensures t == s.(notifyWrite := false, readerEvent := s.readerEvent || s.notifyWrite,
                    w := s.w.(pc := WAfter(s.w.pc.avail)))
  {
    acts', t := Next(c, acts, s, WriterStep);
    if t.w.pc.WSignal? {
      acts', t := Next(c, acts', t, WriterStep);
    }
  }

  /** The rest of a round that copies: the other side is told if it asked. */
  lemma Send(c: Config, acts: seq<Action>, s: State) returns (acts': seq<Action>, t: State)
    requires At(c, acts, s) && s.w.pc.WCopy?
    ensures At(c, acts', t) && t.r == s.r && t.rcvd == s.rcvd && |t.sent| == |s.sent| + s.w.pc.avail
    ensures t.notifyRead == s.notifyRead && t.writerEvent == s.writerEvent
    ensures !t.notifyWrite && t.readerEvent == (s.readerEvent || s.notifyWrite)
    ensures t.w.pc == if s.w.pos + s.w.pc.avail == |s.w.data| then WIdle else WWait
  {
    acts', t := CopyAndPublish(c, acts, s);
    acts', t := TellReader(c, acts', t);
    acts', t := Next(c, acts', t, WriterStep);
  }

  /** One byte is written, and nobody has asked for anything since. */
  lemma WriteOne(c: Config) returns (acts: seq<Action>, t: State)
    requires ConfigOk(c)
    ensures At(c, acts, t) && t.w.pc.WIdle? && t.r.pc.RIdle? && |t.sent| == 1 && |t.rcvd| == 0
    ensures !t.notifyWrite && !t.notifyRead && !t.writerEvent && t.readerEvent
  {
    acts, t := [], Opened(c);
    StartSafe(c, t);
    acts, t := Next(c, acts, t, WriteCall([0]));
    UsedNow(c, t);
    acts, t := Next(c, acts, t, WriterStep);
    acts, t := Send(c, acts, t);
  }

  /** The byte is read back; the event it caused is left over. */
  lemma ReadOne(c: Config) returns (acts: seq<Action>, t: State)
    requires ConfigOk(c)
    ensures At(c, acts, t) && t.w.pc.WIdle? && t.r.pc.RIdle? && |t.sent| == 1 && |t.rcvd| == 1
    ensures !t.notifyWrite && !t.notifyRead && !t.writerEvent && t.readerEvent
  {
    acts, t := WriteOne(c);
    acts, t := Next(c, acts, t, ReadCall(1));
    UsedNow(c, t);
    acts, t := Next(c, acts, t, ReaderStep);
    acts, t := Next(c, acts, t, ReaderStep);
    acts, t := Next(c, acts, t, ReaderStep);
    acts, t := Next(c, acts, t, ReaderStep);
  }

  /** A read of no bytes waits on the empty ring and uses up the event. */
  lemma ReadNothing(c: Config) returns (acts: seq<Action>, t: State)
    requires ConfigOk(c)
    ensures At(c, acts, t) && t.w.pc.WIdle? && t.r.pc.RWait? && |t.sent| == |t.rcvd|
    ensures !t.notifyWrite && !t.writerEvent && !t.readerEvent
  {
    acts, t := ReadOne(c);
    UsedNow(c, t);
    acts, t := Next(c, acts, t, ReadCall(0));
    acts, t := Next(c, acts, t, ReaderStep);
    acts, t := Next(c, acts, t, ReaderStep);
    acts, t := Next(c, acts, t, ReaderStep);
  }

  /** A write of more than the ring holds finds it empty and asks to be told. */
  lemma WriteTooMuch(c: Config, data: seq<int>) returns (acts: seq<Action>, t: State)
    requires ConfigOk(c) && |data| == c.size + 1
    ensures At(c, acts, t) && t.w == Writer(WSpaceAgain, data, 0) && t.r.pc.RWait? && |t.sent| == |t.rcvd|
    ensures !t.notifyWrite && !t.writerEvent && !t.readerEvent
  {
    acts, t := ReadNothing(c);
    acts, t := Next(c, acts, t, WriteCall(data));
    UsedNow(c, t);
    acts, t := Next(c, acts, t, WriterStep);
    acts, t := Next(c, acts, t, WriterStep);
  }

  /** It fills the ring and then waits as well. */
  lemma EmptyReadDeadlocks(c: Config) returns (acts: seq<Action>, t: State)
    requires ConfigOk(c)
    ensures At(c, acts, t) && Deadlocked(t)
  {
    acts, t := WriteTooMuch(c, seq(c.size + 1, _ => 0));
    UsedNow(c, t);
    acts, t := Next(c, acts, t, WriterStep);
    acts, t := Send(c, acts, t);
  }

  /** Blocking reads and writes can deadlock if and only if reads of no bytes are among them. */
  lemma DeadlockExactly(c: Config, least: nat)
    requires ConfigOk(c)
    ensures CanDeadlock(c, least) <==> least == 0
  {
    if least == 0 {
      var acts, t := EmptyReadDeadlocks(c);
      assert ReadsAtLeast(acts, 0);
      assert Reaches(c, Opened(c), acts, t);
    } else if CanDeadlock(c, least) {
      var s, acts, t :|
        Reaches(c, s, acts, t) && Init(c, s) && s == Opened(c) && ReadsAtLeast(acts, least) && Deadlocked(t);
      DeadlockNeedsEmptyRead(c, s, acts, t);
      WantKept(c, s, acts, t, least);
    }
  }
}
