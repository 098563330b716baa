/**
  The round-robin scheduler of Mini-OS: each pass takes the first thread of the
  list that can run, waking sleepers whose time has come, and moves it to the
  end of the list.
 */
module Sched {
  import opened Common

  /** Ten seconds, in nanoseconds: the longest the domain blocks. */
  const MAX_BLOCK: nat := 10_000_000_000

  /** A wake-up time of 0 means none. */
  datatype Thread = Thread(runnable: bool, wakeup: nat)

  datatype State = State(list: seq<nat>, threads: map<nat, Thread>)

  predicate Ok(s: State) {
    Distinct(s.list) && (forall i :: 0 <= i < |s.list| ==> s.list[i] in s.threads)
  }

  /** Whether a pass at time now would run this thread. */
  predicate Ready(th: Thread, now: nat) {
    th.runnable || (th.wakeup != 0 && th.wakeup <= now)
  }

  predicate ReadyAt(s: State, i: nat, now: nat)
    requires Ok(s) && i < |s.list|
  {
    Ready(s.threads[s.list[i]], now)
  }

  /** The position of the first thread from i on that can run, or the length of the list. */
  function FirstReady(s: State, now: nat, i: nat): (k: nat)
    requires Ok(s) && i <= |s.list|
    ensures i <= k <= |s.list| && (k < |s.list| ==> ReadyAt(s, k, now))
    ensures forall j :: i <= j < k ==> !ReadyAt(s, j, now)
    decreases |s.list| - i
  {
    if i == |s.list| || ReadyAt(s, i, now) then i else FirstReady(s, now, i + 1)
  }

  function Awake(th: Thread): (r: Thread) {
    if th.runnable then th else Thread(true, 0)
  }

  function ToEnd(list: seq<nat>, k: nat): (r: seq<nat>)
    requires k < |list|
  {
    seq(|list|, i requires 0 <= i < |list| =>
      if i < k then list[i] else if i < |list| - 1 then list[i + 1] else list[k])
  }

  /** x comes before y in the list. */
  predicate Before(list: seq<nat>, x: nat, y: nat) {
    exists i, j :: 0 <= i < j < |list| && list[i] == x && list[j] == y
  }

  lemma RemoveKeeps(list: seq<nat>, t: nat, k: nat)
    requires k < |list| && list[k] == t && Distinct(list)
    ensures var r := RemoveAt(list, k);
      && t !in r && (forall x :: x != t ==> (x in r <==> x in list))
      && (forall i, j :: 0 <= i < j < |r| ==> Before(list, r[i], r[j]))
  {
    var r := RemoveAt(list, k);
    forall i, j | 0 <= i < j < |r| ensures Before(list, r[i], r[j]) {
      assert r[i] == list[if i < k then i else i + 1] && r[j] == list[if j < k then j else j + 1];
    }
    forall x | x in list && x != t ensures x in r {
      var i :| 0 <= i < |list| && list[i] == x;
      assert r[if i < k then i else i - 1] == x;
    }
  }

  // ----- Whole runs -----

  /** What threads and events do between and in passes; until is a time in the future. */
  datatype Event =
    | Create(t: nat)
    | Exit(t: nat)
    | Block(t: nat)
    | Wake(t: nat)
    | Sleep(t: nat, until: nat)
    | Pass(now: nat)

  predicate Legal(s: State, e: Event) {
    match e
    case Create(t) => t !in s.threads
    case Exit(t) => t in s.list
    case Pass(_) => true
    case _ => e.t in s.threads
  }

  function IndexOf(list: seq<nat>, t: nat, i: nat): (k: nat)
    requires i <= |list| && exists j :: i <= j < |list| && list[j] == t
    ensures i <= k < |list| && list[k] == t
    decreases |list| - i
  {
    if list[i] == t then i else IndexOf(list, t, i + 1)
  }

  function Step(s: State, e: Event): (r: State)
    requires Ok(s) && Legal(s, e)
  {
    match e
    case Create(t) => State(s.list + [t], s.threads[t := Thread(true, 0)])
    case Exit(t) => State(RemoveAt(s.list, IndexOf(s.list, t, 0)), s.threads[t := s.threads[t].(runnable := false)])
    case Block(t) => s.(threads := s.threads[t := Thread(false, 0)])
    case Wake(t) => s.(threads := s.threads[t := Thread(true, 0)])
    case Sleep(t, until) => s.(threads := s.threads[t := Thread(false, until)])
    case Pass(now) =>
      var k := FirstReady(s, now, 0);
      if k == |s.list| then s
      else State(ToEnd(s.list, k), s.threads[s.list[k] := Awake(s.threads[s.list[k]])])
  }

  lemma StepOk(s: State, e: Event)
    requires Ok(s) && Legal(s, e)
    ensures Ok(Step(s, e))
  {
    if e.Create? {
      forall i | 0 <= i < |s.list| ensures s.list[i] != e.t {
        assert s.list[i] in s.threads;
      }
    }
  }

  predicate Picks(s: State, e: Event, x: nat)
    requires Ok(s)
  {
    e.Pass? && FirstReady(s, e.now, 0) < |s.list| && s.list[FirstReady(s, e.now, 0)] == x
  }

  function Passes(es: seq<Event>): (n: nat) {
    if es == [] then 0 else (if es[0].Pass? then 1 else 0) + Passes(es[1..])
  }

  predicate LegalRun(s: State, es: seq<Event>)
    requires Ok(s)
    decreases |es|
  {
    es != [] ==> Legal(s, es[0]) && (StepOk(s, es[0]); LegalRun(Step(s, es[0]), es[1..]))
  }

  /** x never exits and could run at every pass. */
  predicate KeepsReady(s: State, es: seq<Event>, x: nat)
    requires Ok(s) && LegalRun(s, es)
    decreases |es|
  {
    es != [] ==>
      && es[0] != Exit(x) && (es[0].Pass? ==> x in s.threads && Ready(s.threads[x], es[0].now))
      && (StepOk(s, es[0]); KeepsReady(Step(s, es[0]), es[1..], x))
  }

  predicate PickedInRun(s: State, es: seq<Event>, x: nat)
    requires Ok(s) && LegalRun(s, es)
    decreases |es|
  {
    es != [] && (Picks(s, es[0], x) || (StepOk(s, es[0]); PickedInRun(Step(s, es[0]), es[1..], x)))
  }

  /** Unless a pass picks x, x moves up one place with every pass and never down otherwise. */
  lemma MovesUp(s: State, e: Event, k: nat) returns (k': nat)
    requires Ok(s) && Legal(s, e) && k < |s.list| && e != Exit(s.list[k]) && !Picks(s, e, s.list[k])
    requires e.Pass? ==> ReadyAt(s, k, e.now)
    ensures k' < |Step(s, e).list| && Step(s, e).list[k'] == s.list[k]
    ensures k' <= k - if e.Pass? then 1 else 0
  {
    match e {
      case Pass(now) => k' := k - 1;
      case Exit(t) =>
        var at := IndexOf(s.list, t, 0);
        k' := if at < k then k - 1 else k;
      case _ => k' := k;
    }
  }

  /**
    A thread at position k that could run at every pass is picked within k + 1
    passes, whatever the others create, end, block, wake or put to sleep.
   */
  lemma {:induction false} BoundedWaiting(s: State, es: seq<Event>, k: nat)
    requires Ok(s) && k < |s.list| && LegalRun(s, es) && KeepsReady(s, es, s.list[k]) && Passes(es) > k
    ensures PickedInRun(s, es, s.list[k])
    decreases |es|
  {
    if !Picks(s, es[0], s.list[k]) {
      StepOk(s, es[0]);
      var k' := MovesUp(s, es[0], k);
      BoundedWaiting(Step(s, es[0]), es[1..], k');
    }
  }

  /** A new thread has its turn after at most one pass for each thread that was there before it. */
  lemma CreatedHasItsTurn(s: State, t: nat, es: seq<Event>)
    requires Ok(s) && Legal(s, Create(t)) && Ok(Step(s, Create(t)))
    requires LegalRun(Step(s, Create(t)), es) && KeepsReady(Step(s, Create(t)), es, t) && Passes(es) > |s.list|
    ensures PickedInRun(Step(s, Create(t)), es, t)
  {
    BoundedWaiting(Step(s, Create(t)), es, |s.list|);
  }

  // ----- Threads that do not run -----

  predicate NeverPicked(s: State, es: seq<Event>, x: nat)
    requires Ok(s) && LegalRun(s, es)
    decreases |es|
  {
    es != [] ==> !Picks(s, es[0], x) && (StepOk(s, es[0]); NeverPicked(Step(s, es[0]), es[1..], x))
  }

  /** Nobody wakes x, no pass comes at its wake-up time or later, and x does not end. */
  predicate LeftAlone(s: State, es: seq<Event>, x: nat)
    requires Ok(s) && LegalRun(s, es)
    decreases |es|
  {
    es != [] ==>
      && es[0] != Wake(x) && es[0] != Exit(x) && x in s.threads
      && (es[0].Pass? && s.threads[x].wakeup != 0 ==> es[0].now < s.threads[x].wakeup)
      && (StepOk(s, es[0]); LeftAlone(Step(s, es[0]), es[1..], x))
  }

  /** A thread that blocked or went to sleep does not run before it is woken or its time has come. */
  lemma {:induction false} StaysAsleep(s: State, es: seq<Event>, x: nat)
    requires Ok(s) && LegalRun(s, es) && x in s.threads && !s.threads[x].runnable && LeftAlone(s, es, x)
    ensures NeverPicked(s, es, x)
    decreases |es|
  {
    if es != [] {
      StepOk(s, es[0]);
      StaysAsleep(Step(s, es[0]), es[1..], x);
    }
  }

  /** Nobody wakes x or puts it to sleep anew, and every pass comes before until, if that is not 0. */
  predicate Undisturbed(es: seq<Event>, x: nat, until: nat) {
    forall i :: 0 <= i < |es| ==> Leaves(es[i], x, until)
  }

  predicate Leaves(e: Event, x: nat, until: nat) {
    e != Wake(x) && !(e.Sleep? && e.t == x) && (e.Pass? && until != 0 ==> e.now < until)
  }

  lemma {:induction false} AsleepUntil(s: State, es: seq<Event>, x: nat, until: nat)
    requires Ok(s) && LegalRun(s, es) && x in s.threads && Undisturbed(es, x, until)
    requires !s.threads[x].runnable && (s.threads[x].wakeup == 0 || s.threads[x].wakeup == until)
    ensures NeverPicked(s, es, x)
    decreases |es|
  {
    if es != [] {
      assert Leaves(es[0], x, until);
      StepOk(s, es[0]);
      AsleepUntil(Step(s, es[0]), es[1..], x, until);
    }
  }

  /** A thread that blocks is not chosen unless it is woken, however late. */
  lemma BlockedIsNotPicked(s: State, x: nat, es: seq<Event>)
    requires Ok(s) && Legal(s, Block(x)) && Ok(Step(s, Block(x))) && LegalRun(Step(s, Block(x)), es)
    requires Undisturbed(es, x, 0)
    ensures NeverPicked(Step(s, Block(x)), es, x)
  {
    AsleepUntil(Step(s, Block(x)), es, x, 0);
  }

  /** One that goes to sleep is not chosen before its time, unless it is woken. */
  lemma SleeperIsNotPicked(s: State, x: nat, until: nat, es: seq<Event>)
    requires Ok(s) && Legal(s, Sleep(x, until)) && Ok(Step(s, Sleep(x, until)))
    requires LegalRun(Step(s, Sleep(x, until)), es) && Undisturbed(es, x, until)
    ensures NeverPicked(Step(s, Sleep(x, until)), es, x)
  {
    AsleepUntil(Step(s, Sleep(x, until)), es, x, until);
  }

  // ----- Threads that are woken -----

  /** Passes at until or later. */
  function LatePasses(es: seq<Event>, until: nat): (n: nat) {
    if es == [] then 0 else LatePasses(es[1..], until) + if es[0].Pass? && es[0].now >= until then 1 else 0
  }

  /** x neither blocks nor sleeps nor ends. */
  predicate StaysUp(es: seq<Event>, x: nat) {
    forall i :: 0 <= i < |es| ==> !Stops(es[i], x)
  }

  predicate Stops(e: Event, x: nat) {
    (e.Block? || e.Sleep? || e.Exit?) && e.t == x
  }

  /** x can run, or will from until on. */
  predicate DueBy(th: Thread, until: nat) {
    th.runnable || 0 < th.wakeup <= until
  }

  /** Whether it can run yet or not, x never moves down, and moves up at every pass that could have taken it. */
  lemma NeverDown(s: State, e: Event, k: nat, until: nat) returns (k': nat)
    requires Ok(s) && Legal(s, e) && k < |s.list| && !Stops(e, s.list[k]) && !Picks(s, e, s.list[k])
    requires DueBy(s.threads[s.list[k]], until)
    ensures k' < |Step(s, e).list| && Step(s, e).list[k'] == s.list[k]
    ensures k' <= k - if e.Pass? && e.now >= until then 1 else 0
    ensures s.list[k] in Step(s, e).threads && DueBy(Step(s, e).threads[s.list[k]], until)
  {
    match e {
      case Pass(now) =>
        var f := FirstReady(s, now, 0);
        assert now >= until ==> ReadyAt(s, k, now);
        k' := if f < k then k - 1 else k;
      case Exit(t) =>
        var at := IndexOf(s.list, t, 0);
        k' := if at < k then k - 1 else k;
      case _ => k' := k;
    }
  }

  /** Such a thread at position k is chosen within k + 1 late passes. */
  lemma {:induction false} DueIsPicked(s: State, es: seq<Event>, k: nat, until: nat)
    requires Ok(s) && LegalRun(s, es) && k < |s.list| && StaysUp(es, s.list[k])
    requires DueBy(s.threads[s.list[k]], until) && LatePasses(es, until) > k
    ensures PickedInRun(s, es, s.list[k])
    decreases |es|
  {
    assert !Stops(es[0], s.list[k]);
    if !Picks(s, es[0], s.list[k]) {
      StepOk(s, es[0]);
      var k' := NeverDown(s, es[0], k, until);
      DueIsPicked(Step(s, es[0]), es[1..], k', until);
    }
  }

  /** A thread that is woken is chosen within as many passes as threads stand before it, and one. */
  lemma WokenIsPicked(s: State, k: nat, es: seq<Event>)
    requires Ok(s) && k < |s.list| && Legal(s, Wake(s.list[k])) && Ok(Step(s, Wake(s.list[k])))
    requires LegalRun(Step(s, Wake(s.list[k])), es) && StaysUp(es, s.list[k]) && Passes(es) > k
    ensures PickedInRun(Step(s, Wake(s.list[k])), es, s.list[k])
  {
    EveryPassIsLate(es);
    DueIsPicked(Step(s, Wake(s.list[k])), es, k, 0);
  }

  lemma {:induction false} EveryPassIsLate(es: seq<Event>)
    ensures LatePasses(es, 0) == Passes(es)
  {
    if es != [] {
      EveryPassIsLate(es[1..]);
    }
  }

  /** One that sleeps is so once its time has come, without anybody waking it. */
  lemma SleeperIsPicked(s: State, k: nat, until: nat, es: seq<Event>)
    requires Ok(s) && k < |s.list| && Legal(s, Sleep(s.list[k], until)) && Ok(Step(s, Sleep(s.list[k], until)))
    requires until > 0 && LegalRun(Step(s, Sleep(s.list[k], until)), es) && StaysUp(es, s.list[k])
    requires LatePasses(es, until) > k
    ensures PickedInRun(Step(s, Sleep(s.list[k], until)), es, s.list[k])
  {
    DueIsPicked(Step(s, Sleep(s.list[k], until)), es, k, until);
  }

  // ----- Threads that have ended -----

  lemma ExitStaysOut(s: State, e: Event, x: nat)
    requires Ok(s) && Legal(s, e) && x in s.threads && x !in s.list
    ensures x in Step(s, e).threads && x !in Step(s, e).list && !Picks(s, e, x)
  {
  }

  /** A thread that has ended never runs again, not even if it is woken. */
  lemma {:induction false} EndedNeverRuns(s: State, es: seq<Event>, x: nat)
    requires Ok(s) && LegalRun(s, es) && x in s.threads && x !in s.list
    ensures NeverPicked(s, es, x)
    decreases |es|
  {
    if es != [] {
      StepOk(s, es[0]);
      ExitStaysOut(s, es[0], x);
      EndedNeverRuns(Step(s, es[0]), es[1..], x);
    }
  }

  // ----- The bound is reached -----

  predicate AllReady(s: State)
    requires Ok(s)
  {
    forall i :: 0 <= i < |s.list| ==> s.threads[s.list[i]].runnable
  }

  /** The state after n passes in which nothing else happens. */
  function AfterPasses(s: State, nows: seq<nat>): (r: State)
    requires Ok(s)
    decreases |nows|
  {
    if nows == [] then s
    else
      StepOk(s, Pass(nows[0]));
      AfterPasses(Step(s, Pass(nows[0])), nows[1..])
  }

  function Rotated(list: seq<nat>, n: nat): (r: seq<nat>)
    requires n <= |list|
  {
    seq(|list|, i requires 0 <= i < |list| => if i + n < |list| then list[i + n] else list[i + n - |list|])
  }

  /** If everyone can run, the threads take turns: n passes rotate the list by n, and a full round restores it. */
  lemma {:induction false} TakeTurns(s: State, nows: seq<nat>)
    requires Ok(s) && AllReady(s) && |nows| <= |s.list|
    ensures AfterPasses(s, nows) == State(Rotated(s.list, |nows|), s.threads)
    ensures |nows| == |s.list| ==> AfterPasses(s, nows) == s
    decreases |nows|
  {
    if nows == [] {
      assert Rotated(s.list, 0) == s.list;
    } else {
      var t := Step(s, Pass(nows[0]));
      StepOk(s, Pass(nows[0]));
      FirstIsReady(s, nows[0]);
      assert t.list == Rotated(s.list, 1);
      assert |nows[1..]| < |nows|;
      TakeTurns(t, nows[1..]);
      assert Rotated(t.list, |nows| - 1) == Rotated(s.list, |nows|);
      assert Rotated(s.list, |s.list|) == s.list;
    }
  }

  lemma FirstIsReady(s: State, now: nat)
    requires Ok(s) && AllReady(s) && s.list != []
    ensures FirstReady(s, now, 0) == 0 && Step(s, Pass(now)).threads == s.threads
    ensures Step(s, Pass(now)).list == ToEnd(s.list, 0)
  {
    assert ReadyAt(s, 0, now);
    assert s.threads[s.list[0] := s.threads[s.list[0]]] == s.threads;
  }

  // ----- The scheduler's own data -----

  class Scheduler {
    var list: seq<nat>
    var threads: map<nat, Thread>

    ghost function View(): (s: State)
      reads this
    {
      State(list, threads)
    }

    constructor ()
      ensures Ok(View()) && list == []
    {
      list, threads := [], map[];
    }

    /** create_thread, for a thread not seen before: it is last in the list and can run at any time. */
    method CreateThread(t: nat)
      requires Ok(View()) && t !in threads
      modifies this
      ensures Ok(View()) && View() == Step(old(View()), Create(t))
      ensures |list| == |old(list)| + 1 && list[|old(list)|] == t && t !in old(list)
      ensures forall i :: 0 <= i < |old(list)| ==> list[i] == old(list)[i] && threads[list[i]] == old(threads)[list[i]]
      ensures forall now :: ReadyAt(View(), |old(list)|, now)
    {
      StepOk(View(), Create(t));
      assert forall i :: 0 <= i < |list| ==> list[i] in threads;
      threads := threads[t := Thread(false, 0)];
      threads := threads[t := threads[t].(runnable := true)];
      list := list + [t];
    }

    /**
      The part of exit_thread before the last call of schedule: the thread is in
      the list no more, and the others are, in the order they had.
     */
    method ExitThread(t: nat)
      requires Ok(View()) && t in list
      modifies this
      ensures Ok(View()) && View() == Step(old(View()), Exit(t))
      ensures t in threads && t !in list && forall x :: x != t ==> (x in list <==> x in old(list))
      ensures forall i, j :: 0 <= i < j < |list| ==> Before(old(list), list[i], list[j])
      ensures forall x :: x in list ==> threads[x] == old(threads)[x]
    {
      StepOk(View(), Exit(t));
      RemoveKeeps(list, t, IndexOf(list, t, 0));
      assert forall i :: 0 <= i < |list| ==> list[i] in threads;
      list := RemoveAt(list, IndexOf(list, t, 0));
      threads := threads[t := threads[t].(runnable := false)];
    }

    /** block: the thread cannot run, at whatever time. */
    method BlockThread(t: nat)
      requires Ok(View()) && t in threads
      modifies this`threads
      ensures Ok(View()) && View() == Step(old(View()), Block(t))
      ensures forall now :: !Ready(threads[t], now)
      ensures forall x :: x in threads && x != t ==> x in old(threads) && threads[x] == old(threads)[x]
    {
      StepOk(View(), Block(t));
      threads := threads[t := threads[t].(wakeup := 0)];
      threads := threads[t := threads[t].(runnable := false)];
    }

    /** wake: the thread can run, at whatever time. */
    method WakeThread(t: nat)
      requires Ok(View()) && t in threads
      modifies this`threads
      ensures Ok(View()) && View() == Step(old(View()), Wake(t))
      ensures forall now :: Ready(threads[t], now)
      ensures forall x :: x in threads && x != t ==> x in old(threads) && threads[x] == old(threads)[x]
    {
      StepOk(View(), Wake(t));
      threads := threads[t := threads[t].(wakeup := 0)];
      threads := threads[t := threads[t].(runnable := true)];
    }

    /** The part of msleep before it calls schedule: the thread can run again at time now + d, unless that is 0. */
    method SleepThread(t: nat, now: nat, d: nat)
      requires Ok(View()) && t in threads
      modifies this`threads
      ensures Ok(View()) && View() == Step(old(View()), Sleep(t, now + d))
      ensures forall later: nat :: Ready(threads[t], later) <==> later >= now + d > 0
      ensures forall x :: x in threads && x != t ==> x in old(threads) && threads[x] == old(threads)[x]
    {
      StepOk(View(), Sleep(t, now + d));
      threads := threads[t := threads[t].(wakeup := now + d)];
      threads := threads[t := threads[t].(runnable := false)];
    }

    /**
      One pass of schedule over the list. If a thread can run, it is the first
      such one and now last in the list; if none can, nothing has changed and
      wakeAt is the earliest pending wake-up, or ten seconds ahead.
     */
    method SchedulePass(now: nat) returns (picked: bool, next: nat, wakeAt: nat)
      requires Ok(View())
      modifies this
      ensures Ok(View()) && View() == Step(old(View()), Pass(now))
      ensures picked <==> exists x :: Picks(old(View()), Pass(now), x)
      ensures picked ==> Picks(old(View()), Pass(now), next) && threads[next].runnable
      ensures !picked ==> View() == old(View()) && wakeAt <= now + MAX_BLOCK
      ensures !picked ==> forall i :: 0 <= i < |list| && threads[list[i]].wakeup != 0 ==>
                wakeAt <= threads[list[i]].wakeup
      ensures !picked ==> wakeAt == now + MAX_BLOCK || exists i :: 0 <= i < |list| && threads[list[i]].wakeup == wakeAt
    {
      ghost var s := View();
      StepOk(s, Pass(now));
      wakeAt := now + MAX_BLOCK;
      picked, next := false, 0;
      var i := 0;
      while i < |list|
        invariant i <= |list| && View() == s && FirstReady(s, now, 0) == FirstReady(s, now, i)
        invariant wakeAt <= now + MAX_BLOCK
        invariant forall j :: 0 <= j < i && threads[list[j]].wakeup != 0 ==> wakeAt <= threads[list[j]].wakeup
        invariant wakeAt == now + MAX_BLOCK || exists j :: 0 <= j < i && threads[list[j]].wakeup == wakeAt
      {
        var t := list[i];
        if !threads[t].runnable && threads[t].wakeup != 0 {
          if threads[t].wakeup <= now {
            threads := threads[t := Thread(true, 0)];
          } else if threads[t].wakeup < wakeAt {
            wakeAt := threads[t].wakeup;
          }
        }
        if threads[t].runnable {
          assert ReadyAt(s, i, now);
          assert Picks(s, Pass(now), t);
          list := ToEnd(list, i);
          assert threads == s.threads[t := Awake(s.threads[t])];
          return true, t, wakeAt;
        }
        assert !ReadyAt(s, i, now);
        i := i + 1;
      }
    }
  }
}
