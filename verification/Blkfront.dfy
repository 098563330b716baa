/**
  Completion of block requests in Mini-OS's blkfront: blkfront_aio_poll takes
  responses off the ring, ends the grants of each and calls its callback, which
  may call blkfront_aio_poll again. The backend answers at any time and in any
  order; each access to the ring is a step of its own.
 */
module Blkfront {
  import opened Common

  /** A request, with the grants made for its pages; barriers and flushes have none. */
  datatype Req = Req(grefs: seq<nat>)

  datatype Pc = Entered | Looping | InCallback | Called | Finishing

  /** One activation of blkfront_aio_poll with its local rp and cons. */
  datatype Frame = Frame(pc: Pc, rp: nat, cons: nat)

  /**
    Requests are numbered in order of issue. The response ring holds request
    numbers; rspCons is the shared consumer index, done the requests completed
    so far and held the grants in force. The last frame of the stack is the
    one running. bad is set if a grant is ended that is not in force.
   */
  datatype State = State(
    issued: seq<Req>, responses: seq<nat>, rspCons: nat,
    held: set<nat>, done: seq<nat>, stack: seq<Frame>, bad: bool)

  function Start(): (s: State) {
    State([], [], 0, {}, [], [], false)
  }

  datatype Action = Issue(req: Req) | Answer(id: nat) | Poll | Run

  function Top(s: State): (f: Frame)
    requires s.stack != []
  {
    s.stack[|s.stack| - 1]
  }

  /** Code outside the poll loop runs when no poll is active or the innermost one is in its callback. */
  predicate Outside(s: State) {
    s.stack == [] || Top(s).pc == InCallback
  }

  /** New grants are ones not in force; the backend answers each request once. */
  predicate Legal(s: State, a: Action) {
    match a
    case Issue(req) => Outside(s) && Distinct(req.grefs) && forall g :: g in req.grefs ==> g !in s.held
    case Answer(id) => id < |s.issued| && id !in s.responses
    case Poll => Outside(s)
    case Run => s.stack != []
  }

  function SetOf(q: seq<nat>): (r: set<nat>) {
    set g | g in q
  }

  function WithTop(s: State, f: Frame): (r: State)
    requires s.stack != []
  {
    s.(stack := s.stack[|s.stack| - 1 := f])
  }

  /** Takes the response at cons: ends its grants, moves the shared index on, and enters the callback. */
  function Complete(s: State, f: Frame): (r: State)
    requires s.stack != [] && f.cons < |s.responses|
  {
    var id := s.responses[f.cons];
    var grefs := if id < |s.issued| then s.issued[id].grefs else [];
    WithTop(s, Frame(InCallback, f.rp, f.cons + 1)).(
      rspCons := f.cons + 1, done := s.done + [id], held := s.held - SetOf(grefs),
      bad := s.bad || !(SetOf(grefs) <= s.held))
  }

  function RunTop(s: State): (r: State)
    requires s.stack != []
  {
    var f := Top(s);
    match f.pc
    case Entered => WithTop(s, Frame(Looping, |s.responses|, s.rspCons))
    case Looping =>
      if f.cons == f.rp then WithTop(s, f.(pc := Finishing))
      else if f.cons >= |s.responses| then s.(bad := true)
      else Complete(s, f)
    case InCallback => WithTop(s, f.(pc := Called))
    case Called => WithTop(s, f.(pc := if s.rspCons != f.cons then Finishing else Looping))
    case Finishing =>
      if |s.responses| != s.rspCons then WithTop(s, f.(pc := Entered))
      else s.(stack := s.stack[..|s.stack| - 1])
  }

  function Step(s: State, a: Action): (r: State)
    requires Legal(s, a)
  {
    match a
    case Issue(req) => s.(issued := s.issued + [req], held := s.held + SetOf(req.grefs))
    case Answer(id) => s.(responses := s.responses + [id])
    case Poll => s.(stack := s.stack + [Frame(Entered, 0, 0)])
    case Run => RunTop(s)
  }

  // ----- The invariant -----

  /** Responses taken so far are exactly those below the shared index, each once, in ring order. */
  predicate RingOk(s: State) {
    && Distinct(s.responses) && (forall k :: 0 <= k < |s.responses| ==> s.responses[k] < |s.issued|)
    && s.rspCons <= |s.responses| && s.done == s.responses[..s.rspCons]
  }

  /** A loop that runs agrees with the shared index; one that waits in a callback may have been overtaken. */
  predicate FrameOk(s: State, k: nat)
    requires k < |s.stack|
  {
    var f := s.stack[k];
    && (k < |s.stack| - 1 ==> f.pc == InCallback)
    && (f.pc == InCallback || f.pc == Called ==> f.cons <= f.rp <= |s.responses| && f.cons <= s.rspCons)
    && (f.pc == Looping ==> f.cons <= f.rp <= |s.responses| && f.cons == s.rspCons)
  }

  predicate Pending(s: State, id: nat) {
    id < |s.issued| && id !in s.done
  }

  /** The grants of requests that are not done are in force, each for one request only. */
  ghost predicate GrantsOk(s: State) {
    && (forall id :: Pending(s, id) ==> HasGrants(s, id))
    && (forall id, jd :: Pending(s, id) && Pending(s, jd) && id != jd ==> Apart(s, id, jd))
    && (forall g :: g in s.held ==> exists id :: Pending(s, id) && InForce(s, id, g))
  }

  predicate HasGrants(s: State, id: nat)
    requires id < |s.issued|
  {
    SetOf(s.issued[id].grefs) <= s.held
  }

  predicate Apart(s: State, id: nat, jd: nat)
    requires id < |s.issued| && jd < |s.issued|
  {
    SetOf(s.issued[id].grefs) !! SetOf(s.issued[jd].grefs)
  }

  predicate InForce(s: State, id: nat, g: nat)
    requires id < |s.issued|
  {
    g in s.issued[id].grefs
  }

  ghost predicate Inv(s: State) {
    && !s.bad && RingOk(s) && GrantsOk(s)
    && forall k :: 0 <= k < |s.stack| ==> FrameOk(s, k)
  }

  /** The response a running loop takes is of a request that is not done. */
  lemma TakesPending(s: State)
    requires Inv(s) && s.stack != [] && Top(s).pc == Looping && Top(s).cons != Top(s).rp
    ensures Top(s).cons == s.rspCons < |s.responses| && Pending(s, s.responses[s.rspCons])
  {
    assert FrameOk(s, |s.stack| - 1);
  }

  lemma CompleteRing(s: State)
    requires Inv(s) && s.stack != [] && Top(s).pc == Looping && Top(s).cons != Top(s).rp
    ensures RingOk(RunTop(s)) && !RunTop(s).bad
  {
    TakesPending(s);
    var k := s.rspCons;
    assert HasGrants(s, s.responses[k]);
    assert s.responses[..k + 1] == s.responses[..k] + [s.responses[k]];
  }

  lemma CompleteGrants(s: State)
    requires Inv(s) && s.stack != [] && Top(s).pc == Looping && Top(s).cons != Top(s).rp
    ensures GrantsOk(RunTop(s))
  {
    TakesPending(s);
    var t, taken := RunTop(s), s.responses[s.rspCons];
    forall id: nat | Pending(t, id) ensures Pending(s, id) && HasGrants(t, id) {
      assert Pending(s, id) && HasGrants(s, id) && Apart(s, id, taken);
    }
    forall id: nat, jd: nat | Pending(t, id) && Pending(t, jd) && id != jd ensures Apart(t, id, jd) {
      assert Apart(s, id, jd);
    }
    forall g | g in t.held ensures exists id: nat :: Pending(t, id) && InForce(t, id, g) {
      var id: nat :| Pending(s, id) && InForce(s, id, g);
      assert id != taken;
      assert Pending(t, id) && InForce(t, id, g);
    }
  }

  /** Steps that neither issue nor complete a request leave the grants as they are. */
  lemma SameGrants(s: State, t: State)
    requires GrantsOk(s) && t.issued == s.issued && t.done == s.done && t.held == s.held
    ensures GrantsOk(t)
  {
    forall id: nat | Pending(t, id) ensures HasGrants(t, id) {
      assert Pending(s, id) && HasGrants(s, id);
    }
    forall id: nat, jd: nat | Pending(t, id) && Pending(t, jd) && id != jd ensures Apart(t, id, jd) {
      assert Pending(s, id) && Pending(s, jd) && Apart(s, id, jd);
    }
    forall g | g in t.held ensures exists id: nat :: Pending(t, id) && InForce(t, id, g) {
      var id: nat :| Pending(s, id) && InForce(s, id, g);
      assert Pending(t, id) && InForce(t, id, g);
    }
  }

  lemma IssueGrants(s: State, req: Req)
    requires Inv(s) && Legal(s, Issue(req))
    ensures GrantsOk(Step(s, Issue(req)))
  {
    var t, n := Step(s, Issue(req)), |s.issued|;
    forall id: nat | Pending(t, id) ensures HasGrants(t, id) && (id != n ==> Pending(s, id) && HasGrants(s, id)) {
      if id != n {
        assert Pending(s, id) && HasGrants(s, id);
      }
    }
    forall id: nat, jd: nat | Pending(t, id) && Pending(t, jd) && id != jd ensures Apart(t, id, jd) {
      if id != n && jd != n {
        assert Apart(s, id, jd);
      } else {
        assert HasGrants(s, if id == n then jd else id);
      }
    }
    assert n !in s.done;
    forall g | g in t.held ensures exists id: nat :: Pending(t, id) && InForce(t, id, g) {
      if g in s.held {
        var id: nat :| Pending(s, id) && InForce(s, id, g);
        assert Pending(t, id) && InForce(t, id, g);
      } else {
        assert Pending(t, n) && InForce(t, n, g);
      }
    }
  }

  lemma RingKept(s: State, a: Action)
    requires Inv(s) && Legal(s, a)
    ensures RingOk(Step(s, a)) && !Step(s, a).bad
  {
    match a {
      case Answer(id) => assert (s.responses + [id])[..s.rspCons] == s.responses[..s.rspCons];
      case Run =>
        assert FrameOk(s, |s.stack| - 1);
        if Top(s).pc == Looping && Top(s).cons != Top(s).rp {
          CompleteRing(s);
        }
      case _ =>
    }
  }

  lemma GrantsKept(s: State, a: Action)
    requires Inv(s) && Legal(s, a)
    ensures GrantsOk(Step(s, a))
  {
    match a {
      case Issue(req) => IssueGrants(s, req);
      case Run =>
        assert FrameOk(s, |s.stack| - 1);
        if Top(s).pc == Looping && Top(s).cons != Top(s).rp {
          CompleteGrants(s);
        } else {
          SameGrants(s, Step(s, a));
        }
      case _ => SameGrants(s, Step(s, a));
    }
  }

  lemma FrameKept(s: State, a: Action, k: nat)
    requires Inv(s) && Legal(s, a) && k < |Step(s, a).stack|
    ensures FrameOk(Step(s, a), k)
  {
    if k < |s.stack| {
      assert FrameOk(s, k);
    }
    if s.stack != [] {
      assert FrameOk(s, |s.stack| - 1);
    }
    if a.Run? && Top(s).pc == Looping && Top(s).cons != Top(s).rp {
      TakesPending(s);
    }
  }

  lemma StepKeeps(s: State, a: Action)
    requires Inv(s) && Legal(s, a)
    ensures Inv(Step(s, a))
  {
    RingKept(s, a);
    GrantsKept(s, a);
    forall k | 0 <= k < |Step(s, a).stack| ensures FrameOk(Step(s, a), k) {
      FrameKept(s, a, k);
    }
  }

  // ----- Whole runs -----

  ghost predicate Reaches(s: State, acts: seq<Action>, t: State)
    decreases |acts|
  {
    if acts == [] then s == t
    else Legal(s, acts[0]) && Reaches(Step(s, acts[0]), acts[1..], t)
  }

  lemma {:induction false} RunKeeps(s: State, acts: seq<Action>, t: State)
    requires Inv(s) && Reaches(s, acts, t)
    ensures Inv(t)
    decreases |acts|
  {
    if acts != [] {
      StepKeeps(s, acts[0]);
      RunKeeps(Step(s, acts[0]), acts[1..], t);
    }
  }

  /**
    However deep callbacks re-enter the poll and whenever the backend answers:
    responses are completed once each and in ring order, no grant is ended that
    is not in force, and the grants in force are those of requests not done.
   */
  lemma CompletedOnceInOrder(acts: seq<Action>, t: State)
    requires Reaches(Start(), acts, t)
    ensures !t.bad && t.done <= t.responses && |t.done| == t.rspCons && Distinct(t.done)
    ensures forall g :: g in t.held <==> exists id: nat :: Pending(t, id) && InForce(t, id, g)
  {
    assert Inv(Start());
    RunKeeps(Start(), acts, t);
    forall id: nat, g | Pending(t, id) && InForce(t, id, g) ensures g in t.held {
      assert HasGrants(t, id);
    }
  }

  /** When a poll returns, every response the backend had given by then is completed. */
  lemma ReturnsWhenDrained(acts: seq<Action>, t: State)
    requires Reaches(Start(), acts, t) && t.stack != [] && |Step(t, Run).stack| < |t.stack|
    ensures t.done == t.responses
  {
    assert Inv(Start());
    RunKeeps(Start(), acts, t);
    assert t.responses[..|t.responses|] == t.responses;
  }

  // ----- Progress -----

  /** How far the innermost poll is from completing a response or returning, if nobody else moves. */
  function Ahead(s: State, f: Frame): (n: nat) {
    var more := s.rspCons < |s.responses|;
    match f.pc
    case Entered => if more then 2 else 3
    case Looping => if f.cons != f.rp then 1 else if more then 4 else 2
    case Finishing => if more then 3 else 1
    case Called => 5
    case InCallback => 6
  }

  /** The steps that the polls in progress and the responses at hand can still take. */
  function Work(s: State): (n: int) {
    6 * (|s.responses| - s.rspCons) + if s.stack == [] then 0 else 6 * (|s.stack| - 1) + Ahead(s, Top(s))
  }

  /** Every step of a poll lowers it. */
  lemma RunLowers(s: State)
    requires Inv(s) && s.stack != []
    ensures Work(RunTop(s)) < Work(s)
  {
    assert FrameOk(s, |s.stack| - 1);
    if Top(s).pc == Finishing && s.rspCons == |s.responses| && |s.stack| > 1 {
      assert FrameOk(s, |s.stack| - 2);
    }
  }

  lemma WorkIsThere(s: State)
    requires Inv(s)
    ensures Work(s) >= 0 && (s.stack != [] ==> Work(s) > 0)
  {
  }

  /** The polls run for k steps, or until all have returned. */
  ghost function Runs(s: State, k: nat): (t: State)
    decreases k
  {
    if k == 0 || s.stack == [] then s else Runs(RunTop(s), k - 1)
  }

  /**
    Left to themselves, polls at any depth return within Work(s) steps, and then
    every response has been completed.
   */
  lemma {:induction false} PollsReturn(s: State, k: nat)
    requires Inv(s) && Work(s) <= k
    ensures Runs(s, k).stack == [] && Inv(Runs(s, k))
    ensures Runs(s, k).responses == s.responses && Runs(s, k).issued == s.issued
    ensures s.stack != [] ==> Runs(s, k).done == s.responses
    decreases k
  {
    WorkIsThere(s);
    if s.stack != [] {
      var t := RunTop(s);
      StepKeeps(s, Run);
      RunLowers(s);
      PollsReturn(t, k - 1);
      assert t.responses == s.responses;
      if t.stack == [] {
        assert s.responses[..|s.responses|] == s.responses;
      }
    }
  }

  /** So from every state that any run can reach. */
  lemma PollsDrain(acts: seq<Action>, t: State)
    requires Reaches(Start(), acts, t) && t.stack != []
    ensures Work(t) > 0 && Runs(t, Work(t)).stack == [] && Runs(t, Work(t)).done == t.responses
  {
    assert Inv(Start());
    RunKeeps(Start(), acts, t);
    WorkIsThere(t);
    PollsReturn(t, Work(t));
  }

  /** A pass that finds a response completes it: the next one of the ring, with its grants. */
  lemma PassCompletes(s: State)
    requires Inv(s) && s.stack != [] && Top(s).pc == Entered && s.rspCons < |s.responses|
    ensures var t := RunTop(RunTop(s));
      && t.stack != [] && Top(t).pc == InCallback && t.done == s.done + [s.responses[s.rspCons]]
      && s.responses[s.rspCons] < |s.issued|
      && t.held == s.held - SetOf(s.issued[s.responses[s.rspCons]].grefs)
  {
  }

  function Count(acts: seq<Action>, a: Action): (n: nat) {
    if acts == [] then 0 else Count(acts[1..], a) + if acts[0] == a then 1 else 0
  }

  function Answers(acts: seq<Action>): (n: nat) {
    if acts == [] then 0 else Answers(acts[1..]) + if acts[0].Answer? then 1 else 0
  }

  /** What one action adds to the work or takes from it. */
  lemma StepWork(s: State, a: Action)
    requires Inv(s) && Legal(s, a)
    ensures Work(Step(s, a)) <= Work(s) + if a.Answer? then 8 else if a.Poll? then 3 else if a.Run? then -1 else 0
  {
    if a.Run? {
      RunLowers(s);
    }
  }

  lemma {:induction false} RunsPaid(s: State, acts: seq<Action>, t: State)
    requires Inv(s) && Reaches(s, acts, t)
    ensures Count(acts, Run) + Work(t) <= Work(s) + 8 * Answers(acts) + 3 * Count(acts, Poll)
    decreases |acts|
  {
    if acts != [] {
      StepKeeps(s, acts[0]);
      StepWork(s, acts[0]);
      RunsPaid(Step(s, acts[0]), acts[1..], t);
    }
  }

  /** In no run do polls spin: they take at most eight steps for each answer and three for each call. */
  lemma PollsDoNotSpin(acts: seq<Action>, t: State)
    requires Reaches(Start(), acts, t)
    ensures Count(acts, Run) <= 8 * Answers(acts) + 3 * Count(acts, Poll)
  {
    assert Inv(Start());
    RunKeeps(Start(), acts, t);
    RunsPaid(Start(), acts, t);
    WorkIsThere(t);
  }
}
