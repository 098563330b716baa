/**
  The grant references of Mini-OS: free ones form a list threaded through an
  array, a semaphore counts them, and any number of threads take and return
  references. Each section with interrupts disabled is one step.
 */
module Gnttab {
  import opened Common

  const NR_RESERVED_ENTRIES: nat := 8
  const NR_GRANT_ENTRIES: nat := 2048

  predicate Grantable(ref: nat) {
    NR_RESERVED_ENTRIES <= ref < NR_GRANT_ENTRIES
  }

  /** Where a thread is: past down but before the list, about to put back ref, or past the list but before up. */
  datatype Pc = Resting | GotSem | Ending(ref: nat) | Pushed

  /** bug is set if one of the range checks on a reference ever fails. */
  datatype State = State(links: seq<nat>, count: nat, pcs: seq<Pc>, held: set<nat>, bug: bool)

  /** busy: the other domain still uses the grant, and the attempt to end it fails. */
  datatype Action = Down(t: nat) | Pop(t: nat) | EndAccess(t: nat, ref: nat, busy: bool) | Push(t: nat) | Up(t: nat)

  /** A thread ends only a grant it was given and has not ended. */
  predicate Legal(s: State, a: Action) {
    && a.t < |s.pcs|
    && match a
       case Down(t) => s.pcs[t].Resting? && s.count > 0
       case Pop(t) => s.pcs[t].GotSem?
       case EndAccess(t, ref, _) => s.pcs[t].Resting? && ref in s.held
       case Push(t) => s.pcs[t].Ending?
       case Up(t) => s.pcs[t].Pushed?
  }

  function PutLinks(links: seq<nat>, ref: nat): (r: seq<nat>)
    requires 0 < ref < |links|
  {
    links[ref := links[0]][0 := ref]
  }

  function Step(s: State, a: Action): (r: State)
    requires Legal(s, a) && |s.links| == NR_GRANT_ENTRIES
  {
    match a
    case Down(t) => s.(count := s.count - 1, pcs := s.pcs[t := GotSem])
    case Pop(t) =>
      var ref := s.links[0];
      if !Grantable(ref) then s.(bug := true)
      else s.(links := s.links[0 := s.links[ref]], pcs := s.pcs[t := Resting], held := s.held + {ref})
    case EndAccess(t, ref, busy) =>
      if !Grantable(ref) then s.(bug := true)
      else if busy then s
      else s.(pcs := s.pcs[t := Ending(ref)], held := s.held - {ref})
    case Push(t) =>
      if !Grantable(s.pcs[t].ref) then s
      else s.(links := PutLinks(s.links, s.pcs[t].ref), pcs := s.pcs[t := Pushed])
    case Up(t) => s.(count := s.count + 1, pcs := s.pcs[t := Resting])
  }

  // ----- The list in the array -----

  function At(free: seq<nat>, k: nat): (ref: nat) {
    if k < |free| then free[k] else 0
  }

  /** From entry 0 the array lists free and then leads back to 0. */
  predicate Chain(links: seq<nat>, free: seq<nat>) {
    && |links| == NR_GRANT_ENTRIES && links[0] == At(free, 0) && Distinct(free)
    && (forall k :: 0 <= k < |free| ==> Grantable(free[k]) && LinkedAt(links, free, k))
  }

  predicate LinkedAt(links: seq<nat>, free: seq<nat>, k: nat)
    requires k < |free|
  {
    free[k] < |links| && links[free[k]] == At(free, k + 1)
  }

  lemma PushChain(links: seq<nat>, free: seq<nat>, ref: nat)
    requires Chain(links, free) && Grantable(ref) && ref !in free
    ensures Chain(PutLinks(links, ref), [ref] + free)
  {
    var r, f := PutLinks(links, ref), [ref] + free;
    forall k | 0 <= k < |f| ensures Grantable(f[k]) && LinkedAt(r, f, k) {
      if k > 0 {
        assert LinkedAt(links, free, k - 1);
      }
    }
  }

  lemma PopChain(links: seq<nat>, free: seq<nat>)
    requires Chain(links, free) && free != []
    ensures Grantable(links[0]) && links[0] == free[0]
    ensures Chain(links[0 := links[links[0]]], free[1..])
  {
    var r, f := links[0 := links[links[0]]], free[1..];
    assert LinkedAt(links, free, 0);
    forall k | 0 <= k < |f| ensures Grantable(f[k]) && LinkedAt(r, f, k) {
      assert LinkedAt(links, free, k + 1);
    }
  }

  // ----- The invariant -----

  /** Threads that have been promised a reference, or have returned one that is not counted yet. */
  function InFlight(pcs: seq<Pc>): (n: nat) {
    if pcs == [] then 0
    else InFlight(pcs[..|pcs| - 1]) + if pcs[|pcs| - 1].GotSem? || pcs[|pcs| - 1].Pushed? then 1 else 0
  }

  lemma {:induction false} InFlightUpdate(pcs: seq<Pc>, t: nat, pc: Pc)
    requires t < |pcs|
    ensures InFlight(pcs[t := pc]) == InFlight(pcs)
      - (if pcs[t].GotSem? || pcs[t].Pushed? then 1 else 0) + (if pc.GotSem? || pc.Pushed? then 1 else 0)
  {
    var n := |pcs| - 1;
    if t < n {
      InFlightUpdate(pcs[..n], t, pc);
      assert pcs[t := pc][..n] == pcs[..n][t := pc];
    } else {
      assert pcs[t := pc][..n] == pcs[..n];
    }
  }

  lemma {:induction false} InFlightPositive(pcs: seq<Pc>, t: nat)
    requires t < |pcs| && pcs[t].GotSem?
    ensures InFlight(pcs) > 0
  {
    if t < |pcs| - 1 {
      InFlightPositive(pcs[..|pcs| - 1], t);
    }
  }

  /** A thread that is putting a reference back is the only one to have it. */
  predicate EndingOk(s: State, free: seq<nat>, t: nat)
    requires t < |s.pcs|
  {
    s.pcs[t].Ending? ==>
      && Grantable(s.pcs[t].ref) && s.pcs[t].ref !in s.held && s.pcs[t].ref !in free
      && forall u :: 0 <= u < |s.pcs| && u != t ==> s.pcs[u] != s.pcs[t]
  }

  /** Every grantable reference is in the list, in use, or being put back: none is lost. */
  predicate Accounted(s: State, free: seq<nat>, ref: nat) {
    ref in free || ref in s.held || exists t :: 0 <= t < |s.pcs| && s.pcs[t] == Ending(ref)
  }

  ghost predicate Inv(s: State, free: seq<nat>) {
    && Chain(s.links, free) && !s.bug && s.count + InFlight(s.pcs) == |free|
    && (forall ref :: ref in s.held ==> Grantable(ref) && ref !in free)
    && (forall t :: 0 <= t < |s.pcs| ==> EndingOk(s, free, t))
    && (forall ref: nat :: Grantable(ref) ==> Accounted(s, free, ref))
  }

  /** The free list after a step. */
  function FreeAfter(s: State, free: seq<nat>, a: Action): (r: seq<nat>)
    requires Legal(s, a)
  {
    match a
    case Pop(t) => if free == [] then [] else free[1..]
    case Push(t) => [s.pcs[t].ref] + free
    case _ => free
  }

  lemma CountKept(s: State, free: seq<nat>, a: Action)
    requires Inv(s, free) && Legal(s, a)
    ensures a.Pop? ==> free != []
    ensures Chain(Step(s, a).links, FreeAfter(s, free, a)) && !Step(s, a).bug
    ensures Step(s, a).count + InFlight(Step(s, a).pcs) == |FreeAfter(s, free, a)|
  {
    match a {
      case Down(t) => InFlightUpdate(s.pcs, t, GotSem);
      case Pop(t) =>
        InFlightPositive(s.pcs, t);
        InFlightUpdate(s.pcs, t, Resting);
        PopChain(s.links, free);
      case EndAccess(t, ref, busy) => InFlightUpdate(s.pcs, t, Ending(ref));
      case Push(t) =>
        assert EndingOk(s, free, t);
        InFlightUpdate(s.pcs, t, Pushed);
        PushChain(s.links, free, s.pcs[t].ref);
      case Up(t) => InFlightUpdate(s.pcs, t, Resting);
    }
  }

  lemma EndingKept(s: State, free: seq<nat>, a: Action, t: nat)
    requires Inv(s, free) && Legal(s, a) && t < |s.pcs| && (a.Pop? ==> free != [])
    ensures EndingOk(Step(s, a), FreeAfter(s, free, a), t)
  {
    assert EndingOk(s, free, t) && EndingOk(s, free, a.t);
    if a.Pop? {
      assert s.links[0] == free[0];
    } else if a.EndAccess? && !a.busy && t == a.t {
      forall u | 0 <= u < |s.pcs| && u != t ensures s.pcs[u] != Ending(a.ref) {
        assert EndingOk(s, free, u);
      }
    }
  }

  lemma AccountedKept(s: State, free: seq<nat>, a: Action, ref: nat)
    requires Inv(s, free) && Legal(s, a) && Grantable(ref) && (a.Pop? ==> free != [])
    ensures Accounted(Step(s, a), FreeAfter(s, free, a), ref)
  {
    var s', free' := Step(s, a), FreeAfter(s, free, a);
    assert Accounted(s, free, ref);
    if ref in free {
      if a.Pop? {
        assert free == [free[0]] + free[1..];
      }
    } else if ref in s.held {
      if a.EndAccess? && !a.busy && a.ref == ref {
        assert s'.pcs[a.t] == Ending(ref);
      }
    } else {
      var t :| 0 <= t < |s.pcs| && s.pcs[t] == Ending(ref);
      if t != a.t {
        assert s'.pcs[t] == Ending(ref);
      }
    }
  }

  lemma HeldKept(s: State, free: seq<nat>, a: Action)
    requires Inv(s, free) && Legal(s, a) && (a.Pop? ==> free != [])
    ensures forall ref :: ref in Step(s, a).held ==> Grantable(ref) && ref !in FreeAfter(s, free, a)
  {
    assert EndingOk(s, free, a.t);
    if a.Pop? {
      PopChain(s.links, free);
      assert free == [free[0]] + free[1..];
    }
  }

  /** Every step of every thread keeps the books. */
  lemma StepKeeps(s: State, free: seq<nat>, a: Action)
    requires Inv(s, free) && Legal(s, a)
    ensures Inv(Step(s, a), FreeAfter(s, free, a))
  {
    CountKept(s, free, a);
    HeldKept(s, free, a);
    forall t | 0 <= t < |s.pcs| ensures EndingOk(Step(s, a), FreeAfter(s, free, a), t) {
      EndingKept(s, free, a, t);
    }
    forall ref: nat | Grantable(ref) ensures Accounted(Step(s, a), FreeAfter(s, free, a), ref) {
      AccountedKept(s, free, a, ref);
    }
  }

  // ----- Initialisation and whole runs -----

  /** The array after init_gnttab has put back the references below n. */
  function InitLinks(n: nat): (links: seq<nat>)
    requires NR_RESERVED_ENTRIES <= n <= NR_GRANT_ENTRIES
    ensures |links| == NR_GRANT_ENTRIES
  {
    if n == NR_RESERVED_ENTRIES then seq(NR_GRANT_ENTRIES, _ => 0) else PutLinks(InitLinks(n - 1), n - 1)
  }

  function Descending(n: nat): (free: seq<nat>)
    requires NR_RESERVED_ENTRIES <= n
    ensures |free| == n - NR_RESERVED_ENTRIES
    ensures forall ref :: ref in free <==> NR_RESERVED_ENTRIES <= ref < n
  {
    if n == NR_RESERVED_ENTRIES then [] else [n - 1] + Descending(n - 1)
  }

  lemma {:induction false} InitChain(n: nat)
    requires NR_RESERVED_ENTRIES <= n <= NR_GRANT_ENTRIES
    ensures Chain(InitLinks(n), Descending(n))
  {
    if n > NR_RESERVED_ENTRIES {
      InitChain(n - 1);
      PushChain(InitLinks(n - 1), Descending(n - 1), n - 1);
    }
  }

  function Start(threads: nat): (s: State) {
    State(InitLinks(NR_GRANT_ENTRIES), NR_GRANT_ENTRIES - NR_RESERVED_ENTRIES, seq(threads, _ => Resting), {}, false)
  }

  lemma {:induction false} NoneInFlight(n: nat)
    ensures InFlight(seq(n, _ => Resting)) == 0
  {
    if n > 0 {
      NoneInFlight(n - 1);
      assert seq(n, _ => Resting)[..n - 1] == seq(n - 1, _ => Resting);
    }
  }

  lemma StartKeeps(threads: nat)
    ensures Inv(Start(threads), Descending(NR_GRANT_ENTRIES))
  {
    InitChain(NR_GRANT_ENTRIES);
    NoneInFlight(threads);
  }

  predicate LegalRun(s: State, acts: seq<Action>)
    requires |s.links| == NR_GRANT_ENTRIES
    decreases |acts|
  {
    acts != [] ==> Legal(s, acts[0]) && LegalRun(Step(s, acts[0]), acts[1..])
  }

  function Run(s: State, acts: seq<Action>): (r: State)
    requires |s.links| == NR_GRANT_ENTRIES && LegalRun(s, acts)
    decreases |acts|
  {
    if acts == [] then s else Run(Step(s, acts[0]), acts[1..])
  }

  lemma {:induction false} RunKeeps(s: State, free: seq<nat>, acts: seq<Action>) returns (free': seq<nat>)
    requires Inv(s, free) && LegalRun(s, acts)
    ensures Inv(Run(s, acts), free')
    decreases |acts|
  {
    if acts == [] {
      free' := free;
    } else {
      StepKeeps(s, free, acts[0]);
      free' := RunKeeps(Step(s, acts[0]), FreeAfter(s, free, acts[0]), acts[1..]);
    }
  }

  /**
    In any interleaving of any number of threads the range check never fails,
    the array lists exactly the references that nobody has, a reference taken
    is one that was not in use, and the semaphore never exceeds the list.
   */
  lemma NeverHandedOutTwice(threads: nat, acts: seq<Action>) returns (free: seq<nat>)
    requires LegalRun(Start(threads), acts)
    ensures var s := Run(Start(threads), acts);
      && !s.bug && Chain(s.links, free) && s.count <= |free|
      && (forall ref: nat :: Grantable(ref) ==> (ref in free <==> ref !in s.held && Ending(ref) !in s.pcs))
      && (forall t :: Legal(s, Pop(t)) ==>
            Grantable(s.links[0]) && s.links[0] !in s.held && Ending(s.links[0]) !in s.pcs)
  {
    StartKeeps(threads);
    free := RunKeeps(Start(threads), Descending(NR_GRANT_ENTRIES), acts);
    var s := Run(Start(threads), acts);
    forall ref: nat | Grantable(ref) ensures ref in free <==> ref !in s.held && Ending(ref) !in s.pcs {
      assert Accounted(s, free, ref);
      if Ending(ref) in s.pcs {
        var t :| 0 <= t < |s.pcs| && s.pcs[t] == Ending(ref);
        assert EndingOk(s, free, t);
      }
    }
    forall t | Legal(s, Pop(t)) ensures Grantable(s.links[0]) && s.links[0] in free {
      CountKept(s, free, Pop(t));
      PopChain(s.links, free);
    }
  }

  /** When every thread rests, the semaphore counts exactly the references not in use. */
  lemma QuietCount(threads: nat, acts: seq<Action>)
    requires LegalRun(Start(threads), acts)
    requires forall t :: 0 <= t < |Run(Start(threads), acts).pcs| ==> Run(Start(threads), acts).pcs[t].Resting?
    ensures exists free :: Chain(Run(Start(threads), acts).links, free) && Run(Start(threads), acts).count == |free|
  {
    StartKeeps(threads);
    var free := RunKeeps(Start(threads), Descending(NR_GRANT_ENTRIES), acts);
    RestingInFlight(Run(Start(threads), acts).pcs);
  }

  lemma {:induction false} RestingInFlight(pcs: seq<Pc>)
    requires forall t :: 0 <= t < |pcs| ==> pcs[t].Resting?
    ensures InFlight(pcs) == 0
  {
    if pcs != [] {
      RestingInFlight(pcs[..|pcs| - 1]);
    }
  }

  // ----- What a call does -----

  /** Ending a grant nobody uses puts its reference back at the head of the list, and one more can be taken. */
  lemma EndedIsFree(s: State, free: seq<nat>, t: nat, ref: nat) returns (s1: State, s2: State, s3: State)
    requires Inv(s, free) && Legal(s, EndAccess(t, ref, false))
    ensures s1 == Step(s, EndAccess(t, ref, false)) && |s1.links| == NR_GRANT_ENTRIES
    ensures Legal(s1, Push(t)) && s2 == Step(s1, Push(t)) && |s2.links| == NR_GRANT_ENTRIES
    ensures Legal(s2, Up(t)) && s3 == Step(s2, Up(t))
    ensures Inv(s3, [ref] + free) && s3.count == s.count + 1 && s3.held == s.held - {ref} && s3.pcs == s.pcs
  {
    s1 := Step(s, EndAccess(t, ref, false));
    StepKeeps(s, free, EndAccess(t, ref, false));
    s2 := Step(s1, Push(t));
    StepKeeps(s1, free, Push(t));
    s3 := Step(s2, Up(t));
    StepKeeps(s2, [ref] + free, Up(t));
  }

  /** A grant still in use stays what it is: its reference is held, and nothing can be taken for it. */
  lemma BusyStaysHeld(s: State, free: seq<nat>, t: nat, ref: nat)
    requires Inv(s, free) && Legal(s, EndAccess(t, ref, true))
    ensures var s1 := Step(s, EndAccess(t, ref, true));
      ref in s1.held && ref !in free && s1.links == s.links && s1.count == s.count && s1.pcs == s.pcs
  {
  }

  /** Granting takes the head of the list. */
  lemma TakenIsHeld(s: State, free: seq<nat>, t: nat) returns (s1: State, s2: State)
    requires Inv(s, free) && Legal(s, Down(t))
    ensures s1 == Step(s, Down(t)) && |s1.links| == NR_GRANT_ENTRIES && Legal(s1, Pop(t)) && s2 == Step(s1, Pop(t))
    ensures free != [] && Inv(s2, free[1..]) && s2.held == s.held + {free[0]} && free[0] !in s.held
    ensures s2.count == s.count - 1 && s2.pcs == s.pcs
  {
    s1 := Step(s, Down(t));
    StepKeeps(s, free, Down(t));
    s2 := Step(s1, Pop(t));
    CountKept(s1, free, Pop(t));
    PopChain(s1.links, free);
    StepKeeps(s1, free, Pop(t));
  }
}
