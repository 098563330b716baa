/**
  A trace that xenalyze processes in part twice. Its windows are: cpu 0 with a
  record at time 1, cpu 1 at 10, cpu 1 at 20, cpu 0 at 5. Cpu 0 is through with
  the file before cpu 1 comes to its second window and scans ahead; that scan
  finds cpu 0's last window and starts cpu 0 there again.
 */
module RecordRestart {
  import opened Common
  import opened RecordOrder
  import opened RecordMerge

  const SIZE: nat := 8

  function Plain(off: nat, tsc: nat): (r: Rec) {
    Rec(off, true, tsc, None, None, None)
  }

  function Change(off: nat, mark: Mark, scan: Option<Mark>): (r: Rec) {
    Rec(off, false, 0, None, Some(mark), scan)
  }

  function First(): (s: seq<Rec>) {
    [Change(0, Mark(0, 0), Some(Mark(1, 0))), Plain(1, 1), Change(2, Mark(1, 0), None),
     Change(4, Mark(1, 2), None), Change(6, Mark(0, 4), None), Plain(7, 5)]
  }

  function Second(): (s: seq<Rec>) {
    [Change(2, Mark(1, 0), Some(Mark(1, 2))), Plain(3, 10), Change(4, Mark(1, 2), Some(Mark(0, 4))),
     Plain(5, 20), Change(6, Mark(0, 4), None)]
  }

  function Streams(): (s: seq<seq<Rec>>)
    ensures |s| == MAX_CPUS && s[0] == First() && s[1] == Second()
  {
    seq(MAX_CPUS, i => if i == 0 then First() else if i == 1 then Second() else [])
  }

  lemma FirstOk(streams: seq<seq<Rec>>)
    requires |streams| == MAX_CPUS && streams[0] == First() && streams[1] == Second()
    ensures StreamOk(streams, SIZE, 0)
  {
    var s := First();
    assert s[0].off == 0 && s[1].off == 1 && s[2].off == 2 && s[3].off == 4 && s[4].off == 6 && s[5].off == 7;
    forall i | 0 <= i < |s| ensures RecOk(streams, SIZE, s[i]) {
    }
  }

  lemma SecondOk(streams: seq<seq<Rec>>)
    requires |streams| == MAX_CPUS && streams[0] == First() && streams[1] == Second()
    ensures StreamOk(streams, SIZE, 1)
  {
    var s := Second();
    assert s[0].off == 2 && s[1].off == 3 && s[2].off == 4 && s[3].off == 5 && s[4].off == 6;
    assert First()[4].off == 6;
    forall i | 0 <= i < |s| ensures RecOk(streams, SIZE, s[i]) {
    }
  }

  lemma TraceIsLegal()
    ensures StreamsOk(Streams(), SIZE)
  {
    FirstOk(Streams());
    SecondOk(Streams());
  }

  // ----- Lists of one or two cpus -----

  lemma TwoMoved(tsc: seq<nat>, a: nat, b: nat)
    requires a < |tsc| && b < |tsc| && a != b
    ensures Pids([a, b], |tsc|) && Moved([a, b], tsc, a) == if tsc[b] < tsc[a] then [b, a] else [a, b]
  {
    assert IndexFrom([a, b], a, 0) == 0;
    assert Place([a, b], tsc, tsc[a], 1) == if tsc[b] < tsc[a] then 2 else 1;
    assert Bubbled([a, b], 0, 2) == [b, a];
    assert Bubbled([a, b], 0, 1) == [a, b];
  }

  lemma OneMoved(tsc: seq<nat>, a: nat)
    requires a < |tsc|
    ensures Pids([a], |tsc|) && Moved([a], tsc, a) == [a]
  {
    assert IndexFrom([a], a, 0) == 0;
    assert Bubbled([a], 0, 1) == [a];
  }

  lemma TwoGone(a: nat, b: nat)
    requires a != b
    ensures Gone([a, b], a) == [b]
  {
    assert IndexFrom([a, b], a, 0) == 0;
    assert RemoveAt([a, b], 0) == [b];
  }

  lemma OneJoined(tsc: seq<nat>, a: nat, b: nat)
    requires a < |tsc| && b < |tsc| && a != b
    ensures Pids([a], |tsc|) && Joined([a], tsc, b) == if tsc[a] < tsc[b] then [a, b] else [b, a]
  {
    assert Place([a], tsc, tsc[b], 0) == if tsc[a] < tsc[b] then 1 else 0;
    assert Inserted([a], 0, b) == [b, a];
    assert Inserted([a], 1, b) == [a, b];
  }

  // ----- The run -----

  /** What the run depends on: which records are stamped, and the two scans that find a window. */
  predicate IsTrace(t: seq<seq<Rec>>, size: nat) {
    && StreamsOk(t, size) && |t[0]| == 6 && |t[1]| == 5
    && (forall i :: 0 <= i < 6 ==> (t[0][i].stamped <==> i == 1 || i == 5))
    && (forall i :: 0 <= i < 5 ==> (t[1][i].stamped <==> i == 1 || i == 3))
    && t[0][1].tsc == 1 && t[0][5].tsc == 5 && t[1][1].tsc == 10 && t[1][3].tsc == 20
    && (forall i :: 0 <= i < 6 && t[0][i].change.Some? ==> t[0][i].change.value.pid < 2)
    && (forall i :: 0 <= i < 5 && t[1][i].change.Some? ==> t[1][i].change.value.pid < 2)
    && (forall i :: 0 <= i < 6 ==> t[0][i].lost.None?) && (forall i :: 0 <= i < 5 ==> t[1][i].lost.None?)
    && (forall i :: 0 < i < 6 ==> t[0][i].scan.None?) && t[0][0].scan == Some(Mark(1, 0))
    && t[1][0].scan == Some(Mark(1, 2)) && t[1][1].scan.None? && t[1][2].scan == Some(Mark(0, 4))
  }

  /** Both cpus started once; where they are and at which stamps, and how many records of cpu 0 are done. */
  predicate At(t: seq<seq<Rec>>, size: nat, m: Merge, list: seq<nat>, tsc0: nat, tsc1: nat, pos0: nat, pos1: nat) {
    && Ok(t, size, m) && m.list == list && m.c.tsc[0] == tsc0 && m.c.tsc[1] == tsc1
    && m.c.pos[0] == pos0 && m.c.pos[1] == pos1 && m.begun[0] == [0] && m.begun[1] == [0]
    && m.c.started[0] && m.c.started[1]
  }

  lemma EmptyOk(t: seq<seq<Rec>>, size: nat)
    requires StreamsOk(t, size)
    ensures Ok(t, size, Empty())
  {
    forall q | 0 <= q < MAX_CPUS ensures CpuOk(t, Empty(), q) {
    }
  }

  lemma BegunFirst(t: seq<seq<Rec>>, size: nat) returns (m: Merge)
    requires IsTrace(t, size)
    ensures m == Begin(t, Empty(), Mark(0, 0)) && Core(t, size, m) && m.list == [0] && m.out == []
    ensures m.c.tsc[0] == 0 && m.c.tsc[1] == 0 && m.c.pos[0] == 0 && m.begun[0] == [0] && m.begun[1] == []
    ensures m.c.started[0]
  {
    EmptyOk(t, size);
    m := Begin(t, Empty(), Mark(0, 0));
    BeginOk(t, size, Empty(), Mark(0, 0));
    assert Inserted([], 0, 0) == [0];
  }

  /** The order as the set-up scan leaves it. */
  lemma Begun(t: seq<seq<Rec>>, size: nat) returns (m: Merge)
    requires IsTrace(t, size)
    ensures m == Begin(t, Begin(t, Empty(), Mark(0, 0)), Mark(1, 0)) && At(t, size, m, [1, 0], 0, 0, 0, 0)
  {
    var m0 := BegunFirst(t, size);
    m := Begin(t, m0, Mark(1, 0));
    BeginOk(t, size, m0, Mark(1, 0));
    OneJoined(m.c.tsc, 0, 1);
  }

  lemma Play(t: seq<seq<Rec>>, size: nat, m: Merge, p: nat) returns (n: Merge)
    requires IsTrace(t, size) && Ok(t, size, m) && m.list != [] && p == m.list[0] < 2
    requires m.c.started[0] && m.c.started[1] && m.c.pos[p] < |t[p]| && !StartsOnScan(m, p, t[p][m.c.pos[p]])
    ensures n == Round(t, size, m) && Ok(t, size, n)
    ensures n == Advanced(t, m, p, Out(p, m.c.pos[p], false, m.c.tsc[p], |m.begun[p]| > 1, false))
  {
    var r := t[p][m.c.pos[p]];
    assert CpuOk(t, m, p);
    assert r.change.Some? ==> r.change.value.pid < 2;
    QuietRound(t, size, m, p, r);
    RoundOk(t, size, m);
    n := Round(t, size, m);
  }

  /** Cpu 1 takes its first time stamp in hand and goes behind cpu 0. */
  lemma FirstRound(t: seq<seq<Rec>>, size: nat, m: Merge) returns (n: Merge)
    requires IsTrace(t, size) && At(t, size, m, [1, 0], 0, 0, 0, 0)
    ensures n == Round(t, size, m) && At(t, size, n, [0, 1], 0, 10, 0, 1)
  {
    n := Play(t, size, m, 1);
    TwoMoved(n.c.tsc, 1, 0);
  }

  /** Cpu 0 goes through its records, all before time 10. */
  lemma NextRound(t: seq<seq<Rec>>, size: nat, m: Merge, pos: nat, tsc: nat) returns (n: Merge, now: nat)
    requires IsTrace(t, size) && pos < 5 && At(t, size, m, [0, 1], tsc, 10, pos, 1) && tsc <= 5
    ensures n == Round(t, size, m) && At(t, size, n, [0, 1], now, 10, pos + 1, 1) && now <= 5
    ensures pos == 4 ==> now == 5
  {
    assert m.list[1] == 1 && 1 in m.list;
    n := Play(t, size, m, 0);
    var c := n.c;
    now := c.tsc[0];
    assert c == NextCpus(t, m.c, 0) && c.pos[0] == pos + 1 && now <= 5 && c.tsc[1] == 10;
    TwoMoved(c.tsc, 0, 1);
  }

  /** Cpu 0 comes to the end of the file. */
  lemma LastRound(t: seq<seq<Rec>>, size: nat, m: Merge) returns (n: Merge)
    requires IsTrace(t, size) && At(t, size, m, [0, 1], 5, 10, 5, 1)
    ensures n == Round(t, size, m) && At(t, size, n, [1], 5, 10, 6, 1)
  {
    n := Play(t, size, m, 0);
    TwoGone(0, 1);
  }

  /** Cpu 1 processes time 10 and takes its second window in hand. */
  lemma SecondWindow(t: seq<seq<Rec>>, size: nat, m: Merge) returns (n: Merge)
    requires IsTrace(t, size) && At(t, size, m, [1], 5, 10, 6, 1)
    ensures n == Round(t, size, m) && At(t, size, n, [1], 5, 10, 6, 2)
  {
    n := Play(t, size, m, 1);
    OneMoved(n.c.tsc, 1);
  }

  /** On that window's record the scan finds cpu 0's last window. */
  lemma ScanFinds(t: seq<seq<Rec>>, size: nat, m: Merge) returns (m2: Merge, o: Out)
    requires IsTrace(t, size) && At(t, size, m, [1], 5, 10, 6, 2) && MarkOk(t, Mark(0, 4))
    ensures m2 == Begin(t, m, Mark(0, 4)) && Shaped(m2) && 1 in m2.list && m2.c.pos[1] < |t[1]|
    ensures Round(t, size, m) == Advanced(t, m2, 1, o) && o.tsc == 10
  {
    var p, r, m1;
    p, r, m1, m2, o := RoundParts(t, size, m);
    assert r.change.Some? ==> r.change.value.pid < 2;
    assert m1 == m && StartsOnScan(m, 1, r);
  }

  /** So cpu 0 starts there again. */
  lemma ScanStartsAgain(t: seq<seq<Rec>>, size: nat, m: Merge) returns (n: Merge)
    requires IsTrace(t, size) && At(t, size, m, [1], 5, 10, 6, 2) && MarkOk(t, Mark(0, 4))
    ensures n == Round(t, size, m) && Ok(t, size, n) && n.list == [0, 1] && n.begun[0] == [0, 4]
    ensures n.c.pos[0] == 4 && n.c.tsc[0] == 5 && n.c.started[0] && n.c.started[1]
    ensures n.out != [] && n.out[|n.out| - 1].tsc == 10
  {
    var m2, o := ScanFinds(t, size, m);
    RoundOk(t, size, m);
    n := Round(t, size, m);
    OneJoined(m2.c.tsc, 1, 0);
    RestartedRound(t, m2, o);
  }

  lemma RestartedRound(t: seq<seq<Rec>>, m: Merge, o: Out)
    requires |t| == MAX_CPUS && |t[1]| == 5 && t[1][2].lost.None? && t[1][3].stamped && t[1][3].tsc == 20
    requires Shaped(m) && m.list == [0, 1] && m.c.tsc[0] == 5 && m.c.pos[1] == 2
    ensures Advanced(t, m, 1, o).list == [0, 1]
  {
    var tsc := NextCpus(t, m.c, 1).tsc;
    assert IndexFrom([0, 1], 1, 0) == IndexFrom([0, 1], 1, 1) == 1;
    assert Place([0, 1], tsc, tsc[1], 2) == 2;
    assert Bubbled([0, 1], 1, 2) == [0, 1];
  }

  /** Cpu 0's last window is processed a second time, at time 5 and after time 10. */
  lemma Repeats(t: seq<seq<Rec>>, size: nat, m: Merge) returns (n: Merge)
    requires IsTrace(t, size) && Ok(t, size, m) && m.list == [0, 1] && m.begun[0] == [0, 4]
    requires m.c.pos[0] == 4 && m.c.tsc[0] == 5 && m.c.started[0] && m.c.started[1]
    ensures n == Round(t, size, m) && Ok(t, size, n) && !Distinct(Trace(n.out, 0))
    ensures n.out == m.out + [Out(0, 4, false, 5, true, false)]
  {
    n := Play(t, size, m, 0);
    assert CpuOk(t, n, 0);
    FourTwice(t[0], Trace(n.out, 0));
  }

  lemma FourTwice(s: seq<Rec>, trace: seq<nat>)
    requires |s| == 6 && (forall i :: 0 <= i < 6 ==> s[i].lost.None?) && trace == Visits(s, [0, 4], 5, false)
    ensures !Distinct(trace)
  {
    assert [0, 4][..1] == [0];
    FullOnce(s, 0);
    var early, full, last := Span(s, 0, 4), Full(s, [0]), Span(s, 4, 5);
    assert Span(s, 0, 5) == early + [8];
    assert full == early + [8] + [10];
    assert last == Span(s, 4, 4) + [8];
    assert trace == full + (last + []);
    assert trace[|early|] == trace[|full|];
  }

  /**
    Started as the set-up scan leaves it and run for ten rounds, the merge has
    processed a record of cpu 0 twice, and time has gone back from 10 to 5.
   */
  predicate GoesBack(t: seq<seq<Rec>>, size: nat, m: Merge, n: Merge) {
    && |t| == MAX_CPUS && MarkOk(t, Mark(0, 0)) && MarkOk(t, Mark(1, 0))
    && m == Begin(t, Begin(t, Empty(), Mark(0, 0)), Mark(1, 0))
    && Ok(t, size, m) && n == Rounds(t, size, m, 10) && !Distinct(Trace(n.out, 0))
    && |n.out| >= 2 && n.out[|n.out| - 2].tsc == 10 && n.out[|n.out| - 1].tsc == 5
  }

  /** So it is with the four windows of this trace. */
  lemma RestartRepeats() returns (t: seq<seq<Rec>>, m: Merge, n: Merge)
    ensures t == Streams() && StreamsOk(t, SIZE) && GoesBack(t, SIZE, m, n)
  {
    t := Streams();
    TraceIsLegal();
    m, n := Replay(t, SIZE);
  }

  lemma Replay(t: seq<seq<Rec>>, size: nat) returns (m: Merge, n: Merge)
    requires IsTrace(t, size) && MarkOk(t, Mark(0, 4))
    ensures GoesBack(t, size, m, n)
  {
    m := Begun(t, size);
    var m7 := UntilEnd(t, size, m);
    var m8 := SecondWindow(t, size, m7);
    RoundsOneMore(t, size, m, 7);
    var m9 := ScanStartsAgain(t, size, m8);
    RoundsOneMore(t, size, m, 8);
    n := Repeats(t, size, m9);
    RoundsOneMore(t, size, m, 9);
  }

  lemma UntilEnd(t: seq<seq<Rec>>, size: nat, m: Merge) returns (n: Merge)
    requires IsTrace(t, size) && At(t, size, m, [1, 0], 0, 0, 0, 0)
    ensures n == Rounds(t, size, m, 7) && At(t, size, n, [1], 5, 10, 6, 1)
  {
    n := FirstRound(t, size, m);
    RoundsOneMore(t, size, m, 0);
    var tsc, k := 0, 0;
    while k < 5
      invariant k <= 5 && n == Rounds(t, size, m, k + 1) && At(t, size, n, [0, 1], tsc, 10, k, 1) && tsc <= 5
      invariant k == 5 ==> tsc == 5
    {
      RoundsOneMore(t, size, m, k + 1);
      n, tsc := NextRound(t, size, n, k, tsc);
      k := k + 1;
    }
    n := LastRound(t, size, n);
    RoundsOneMore(t, size, m, 6);
  }
}
