/**
  What the calls on a vchan return, whatever the other side does meanwhile: a
  read takes as much as it asked for of what was ready when it last looked, and
  a write has sent all it was given.
 */
module VchanCalls {
  import opened Vchan
  import opened VchanProgress

  function Min(a: int, b: int): (m: int) {
    if a < b then a else b
  }

  // ----- Reads -----

  /** The next step of the reader looks at how much is ready. */
  predicate Looks(s: State) {
    s.r.pc.RReady? || s.r.pc.RReadyAgain?
  }

  /** The reader has taken nothing yet in this call. */
  predicate Searching(s: State) {
    Looks(s) || s.r.pc.RRequest? || s.r.pc.RWait?
  }

  predicate NoReadCall(acts: seq<Action>) {
    forall i :: 0 <= i < |acts| ==> !acts[i].ReadCall?
  }

  /** The reader looks in no state of the run from s. */
  ghost predicate LooksNoMore(c: Config, s: State, acts: seq<Action>)
    decreases |acts|
  {
    !Looks(s)
    && (acts != [] && WriterReady(c, s) && ReaderReady(c, s) && Enabled(s, acts[0]) ==>
          LooksNoMore(c, Do(c, s, acts[0]), acts[1..]))
  }

  /** A call that had base bytes before it and takes n: not yet, or already. */
  predicate Taking(s: State, base: nat, n: nat) {
    match s.r.pc
    case RCopy(k, _) => k == n && |s.rcvd| == base
    case RPublish(k) => k == n && |s.rcvd| == base
    case RNotify => |s.rcvd| == base + n
    case RSignal => |s.rcvd| == base + n
    case RIdle => |s.rcvd| == base + n
    case _ => false
  }

  /** What the writer does leaves the reader alone and only adds to the stream. */
  lemma WriterApart(c: Config, s: State, a: Action)
    requires WriterReady(c, s) && ReaderReady(c, s) && Enabled(s, a) && (a.WriterStep? || a.WriteCall?)
    ensures var t := Do(c, s, a); t.r == s.r && t.rcvd == s.rcvd && s.sent <= t.sent
  {
  }

  lemma ReaderApart(c: Config, s: State, a: Action)
    requires WriterReady(c, s) && ReaderReady(c, s) && Enabled(s, a) && (a.ReaderStep? || a.ReadCall?)
    ensures Do(c, s, a).sent == s.sent
  {
  }

  lemma ReaderTakes(c: Config, s: State, base: nat, n: nat)
    requires ReaderReady(c, s) && ReaderOk(c, s) && Enabled(s, ReaderStep) && Taking(s, base, n)
    ensures Taking(ReaderDo(c, s), base, n)
  {
  }

  lemma TakingStep(c: Config, s: State, a: Action, base: nat, n: nat)
    requires Safe(c, s) && Enabled(s, a) && !a.ReadCall? && Taking(s, base, n)
    ensures Taking(Do(c, s, a), base, n)
  {
    if a.ReaderStep? {
      ReaderTakes(c, s, base, n);
    } else {
      WriterApart(c, s, a);
    }
  }

  /** Once it takes, it looks no more and ends with that many bytes. */
  lemma {:induction false} TakesOn(c: Config, s: State, acts: seq<Action>, t: State, base: nat, n: nat)
    requires Safe(c, s) && Reaches(c, s, acts, t) && NoReadCall(acts) && Taking(s, base, n)
    ensures Taking(t, base, n) && LooksNoMore(c, s, acts)
    decreases |acts|
  {
    if acts != [] {
      StepSafe(c, s, acts[0]);
      TakingStep(c, s, acts[0], base, n);
      TakesOn(c, Do(c, s, acts[0]), acts[1..], t, base, n);
    }
  }

  /** A look finds nothing and goes on searching, or takes what is ready up to what is wanted. */
  lemma LookDecides(c: Config, s: State)
    requires Safe(c, s) && Looks(s)
    ensures var t := Do(c, s, ReaderStep);
      || (Searching(t) && t.rcvd == s.rcvd && t.r.want == s.r.want)
      || (|s.sent| > |s.rcvd| && Taking(t, |s.rcvd|, Min(s.r.want, |s.sent| - |s.rcvd|)))
  {
    UsedNow(c, s);
  }

  lemma SearchStep(c: Config, s: State, a: Action)
    requires Safe(c, s) && Searching(s) && Enabled(s, a) && !a.ReadCall? && !(Looks(s) && a.ReaderStep?)
    ensures var t := Do(c, s, a); Searching(t) && t.rcvd == s.rcvd && t.r.want == s.r.want
  {
    if !a.ReaderStep? {
      WriterApart(c, s, a);
    }
  }

  /** The bytes a look at s would take. */
  function Take(s: State): (n: int) {
    Min(s.r.want, |s.sent| - |s.rcvd|)
  }

  /** One action of a search: it goes on, or was the look that decides. */
  lemma SearchGoesOn(c: Config, s: State, a: Action)
    requires Safe(c, s) && Searching(s) && Enabled(s, a) && !a.ReadCall?
    ensures var t := Do(c, s, a);
      if Searching(t) then t.rcvd == s.rcvd && t.r.want == s.r.want
      else Looks(s) && a.ReaderStep? && |s.sent| > |s.rcvd| && Taking(t, |s.rcvd|, Take(s))
  {
    if Looks(s) && a.ReaderStep? {
      LookDecides(c, s);
    } else {
      SearchStep(c, s, a);
    }
  }

  /** The state at the last look of the call, the look being action i of the run. */
  ghost predicate LastLook(c: Config, s: State, acts: seq<Action>, i: nat, u: State) {
    && i < |acts| && Reaches(c, s, acts[..i], u) && Looks(u) && acts[i].ReaderStep?
    && WriterReady(c, u) && ReaderReady(c, u) && LooksNoMore(c, Do(c, u, ReaderStep), acts[i + 1..])
  }

  lemma LookedFirst(c: Config, s: State, acts: seq<Action>)
    requires acts != [] && Looks(s) && acts[0].ReaderStep? && WriterReady(c, s) && ReaderReady(c, s)
    requires LooksNoMore(c, Do(c, s, ReaderStep), acts[1..])
    ensures LastLook(c, s, acts, 0, s)
  {
    assert acts[..0] == [];
  }

  lemma LookedLater(c: Config, s: State, acts: seq<Action>, i: nat, u: State)
    requires acts != [] && WriterReady(c, s) && ReaderReady(c, s) && Enabled(s, acts[0])
    requires LastLook(c, Do(c, s, acts[0]), acts[1..], i, u)
    ensures LastLook(c, s, acts, i + 1, u)
  {
    assert acts[..i + 1][0] == acts[0] && acts[..i + 1][1..] == acts[1..][..i];
    assert acts[1..][i + 1..] == acts[i + 2..] && acts[1..][i] == acts[i + 1];
  }

  /** A search that ends with the call returned ends in a look that decides. */
  lemma {:induction false} SearchEnds(c: Config, s: State, acts: seq<Action>, t: State) returns (i: nat, u: State)
    requires Safe(c, s) && Searching(s) && Reaches(c, s, acts, t) && NoReadCall(acts) && t.r.pc.RIdle?
    ensures LastLook(c, s, acts, i, u) && u.rcvd == s.rcvd && u.r.want == s.r.want && |u.sent| > |s.rcvd|
    ensures |t.rcvd| == |s.rcvd| + Min(s.r.want, |u.sent| - |s.rcvd|)
    decreases |acts|
  {
    var a, next := acts[0], Do(c, s, acts[0]);
    StepSafe(c, s, a);
    assert NoReadCall(acts[1..]);
    SearchGoesOn(c, s, a);
    if Searching(next) {
      i, u := SearchEnds(c, next, acts[1..], t);
      LookedLater(c, s, acts, i, u);
      i := i + 1;
    } else {
      i, u := 0, s;
      TakesOn(c, next, acts[1..], t, |s.rcvd|, Take(s));
      LookedFirst(c, s, acts);
    }
  }

  /**
    A read that returns has taken, of the bytes ready when it last looked, as
    many as it wanted or all there were, and there was at least one. So it is
    never short of what it wants while that much is ready, and what it adds to
    the bytes received is the next of the stream.
   */
  lemma ReadTakesWhatIsReady(c: Config, s: State, want: nat, acts: seq<Action>, t: State) returns (i: nat, u: State)
    requires Safe(c, s) && Cared(c, s) && s.r.pc.RIdle? && Reaches(c, s, [ReadCall(want)] + acts, t)
    requires NoReadCall(acts) && t.r.pc.RIdle?
    ensures LastLook(c, Do(c, s, ReadCall(want)), acts, i, u) && u.rcvd == s.rcvd && |u.sent| > |s.rcvd|
    ensures |t.rcvd| == |s.rcvd| + Min(want, |u.sent| - |s.rcvd|)
    ensures t.rcvd == u.sent[..|t.rcvd|] && s.rcvd <= t.rcvd
  {
    var all := [ReadCall(want)] + acts;
    assert all[0] == ReadCall(want) && all[1..] == acts;
    var called := Do(c, s, ReadCall(want));
    StepSafe(c, s, ReadCall(want));
    i, u := SearchEnds(c, called, acts, t);
    StepCared(c, s, ReadCall(want));
    Received(c, called, acts, i, u, t);
  }

  lemma Received(c: Config, s: State, acts: seq<Action>, i: nat, u: State, t: State)
    requires Safe(c, s) && Cared(c, s) && Reaches(c, s, acts, t) && LastLook(c, s, acts, i, u)
    requires u.rcvd == s.rcvd && |s.rcvd| <= |t.rcvd| <= |u.sent|
    ensures t.rcvd == u.sent[..|t.rcvd|] && s.rcvd <= t.rcvd
  {
    RunSafe(c, s, acts, t);
    RunSafe(c, s, acts[..i], u);
    Split(c, s, acts, i, u, t);
    SentGrows(c, u, acts[i..], t);
    assert t.rcvd == t.sent[..|t.rcvd|] == u.sent[..|t.rcvd|];
    assert s.rcvd == u.sent[..|s.rcvd|] == t.rcvd[..|s.rcvd|];
  }

  lemma {:induction false} Split(c: Config, s: State, acts: seq<Action>, i: nat, u: State, t: State)
    requires i <= |acts| && Reaches(c, s, acts[..i], u) && Reaches(c, s, acts, t)
    ensures Reaches(c, u, acts[i..], t)
    decreases i
  {
    if i > 0 {
      assert acts[..i][0] == acts[0] && acts[..i][1..] == acts[1..][..i - 1];
      Split(c, Do(c, s, acts[0]), acts[1..], i - 1, u, t);
      assert acts[1..][i - 1..] == acts[i..];
    } else {
      assert acts[i..] == acts;
    }
  }

  lemma {:induction false} SentGrows(c: Config, s: State, acts: seq<Action>, t: State)
    requires Safe(c, s) && Reaches(c, s, acts, t)
    ensures s.sent <= t.sent
    decreases |acts|
  {
    if acts != [] {
      StepSafe(c, s, acts[0]);
      if acts[0].WriterStep? || acts[0].WriteCall? {
        WriterApart(c, s, acts[0]);
      } else {
        ReaderApart(c, s, acts[0]);
      }
      SentGrows(c, Do(c, s, acts[0]), acts[1..], t);
    }
  }

  // ----- Writes -----

  predicate NoWriteCall(acts: seq<Action>) {
    forall i :: 0 <= i < |acts| ==> !acts[i].WriteCall?
  }

  lemma {:induction false} OfferedStays(c: Config, s: State, acts: seq<Action>, t: State)
    requires Safe(c, s) && Reaches(c, s, acts, t) && NoWriteCall(acts)
    ensures t.offered == s.offered && Safe(c, t)
    decreases |acts|
  {
    if acts != [] {
      StepSafe(c, s, acts[0]);
      OfferedStays(c, Do(c, s, acts[0]), acts[1..], t);
    }
  }

  /** A write that returns has sent all it was given, right behind what was sent before. */
  lemma WriteSendsAll(c: Config, s: State, data: seq<int>, acts: seq<Action>, t: State)
    requires Safe(c, s) && s.w.pc.WIdle? && Reaches(c, s, [WriteCall(data)] + acts, t)
    requires NoWriteCall(acts) && t.w.pc.WIdle?
    ensures t.sent == s.sent + data
  {
    var all := [WriteCall(data)] + acts;
    assert all[0] == WriteCall(data) && all[1..] == acts;
    var called := Do(c, s, WriteCall(data));
    StepSafe(c, s, WriteCall(data));
    OfferedStays(c, called, acts, t);
    assert Unsent(s.w) == [] && Unsent(t.w) == [];
    assert s.offered == s.sent && t.offered == t.sent;
  }
}
