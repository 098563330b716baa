/**
  The main loop of xenalyze over whole traces: a merge of the record streams of
  all cpus. A cpu starts when its first window is come across; the scan ahead of
  the highest active cpu may start one again that had come to its end.
 */
module RecordMerge {
  import opened Common
  import opened RecordOrder

  /** A window come across: whose it is, and which of that cpu's records opens it. */
  datatype Mark = Mark(pid: nat, at: nat)

  /**
    A record at file offset off. Only stamped ones carry a time stamp. A record
    of lost records is processed twice, first at the time of the first one lost
    and then at the time it was written itself (lost). A cpu-change record
    announces the window it opens (change) and, if it opens a window of its own
    cpu, the window after that (scan).
   */
  datatype Rec = Rec(off: nat, stamped: bool, tsc: nat, lost: Option<nat>, change: Option<Mark>, scan: Option<Mark>)

  predicate MarkOk(streams: seq<seq<Rec>>, mark: Mark) {
    mark.pid < |streams| && mark.at < |streams[mark.pid]|
  }

  predicate RecOk(streams: seq<seq<Rec>>, size: nat, r: Rec) {
    && r.off < size && (r.change.Some? ==> MarkOk(streams, r.change.value))
    && (r.lost.Some? ==> r.change.None? && r.scan.None? && (r.stamped ==> r.tsc <= r.lost.value))
    && (r.scan.Some? ==>
          MarkOk(streams, r.scan.value) && r.off < streams[r.scan.value.pid][r.scan.value.at].off)
  }

  /** No time of r is after one of t. */
  predicate Earlier(r: Rec, t: Rec) {
    && (t.stamped ==> (r.stamped ==> r.tsc <= t.tsc) && (r.lost.Some? ==> r.lost.value <= t.tsc))
    && (t.lost.Some? ==> (r.stamped ==> r.tsc <= t.lost.value) && (r.lost.Some? ==> r.lost.value <= t.lost.value))
  }

  /** What a file of size bytes may hold: records lie one after the other, and the stamps of a cpu never decrease. */
  predicate StreamOk(streams: seq<seq<Rec>>, size: nat, p: nat)
    requires p < |streams|
  {
    var s := streams[p];
    && (forall i, j :: 0 <= i < j < |s| ==> s[i].off < s[j].off)
    && (forall i, j :: 0 <= i < j < |s| ==> Earlier(s[i], s[j]))
    && (forall i :: 0 <= i < |s| ==> RecOk(streams, size, s[i]) && ScansOwn(s[i], p))
  }

  /** The scan ahead is made on a cpu's own window only. */
  predicate ScansOwn(r: Rec, p: nat) {
    r.scan.Some? ==> r.change.Some? && r.change.value.pid == p
  }

  predicate StreamsOk(streams: seq<seq<Rec>>, size: nat) {
    |streams| == MAX_CPUS && forall p :: 0 <= p < |streams| ==> StreamOk(streams, size, p)
  }

  // ----- The loop on values -----

  /**
    Per cpu: the time stamp in force, the record in hand, whether that one is on
    its second pass, and whether the cpu ever started.
   */
  datatype Cpus = Cpus(tsc: seq<nat>, pos: seq<nat>, half: seq<bool>, started: seq<bool>)

  predicate CpusOk(c: Cpus) {
    |c.tsc| == |c.pos| == |c.half| == |c.started| == MAX_CPUS
  }

  /**
    A record processed: of which cpu, which of its records and whether for the
    second time, at which time stamp; again if the cpu had been started more than
    once by then, opens if a cpu started for the first time on it.
   */
  datatype Out = Out(pid: nat, idx: nat, second: bool, tsc: nat, again: bool, opens: bool)

  /** begun lists, per cpu, the records it was started at. */
  datatype Merge = Merge(c: Cpus, list: seq<nat>, begun: seq<seq<nat>>, out: seq<Out>)

  predicate Shaped(m: Merge) {
    CpusOk(m.c) && |m.begun| == MAX_CPUS && Pids(m.list, MAX_CPUS) && Distinct(m.list)
  }

  function Empty(): (m: Merge)
    ensures Shaped(m)
  {
    Merge(Cpus(seq(MAX_CPUS, _ => 0), seq(MAX_CPUS, _ => 0), seq(MAX_CPUS, _ => false), seq(MAX_CPUS, _ => false)),
          [], seq(MAX_CPUS, _ => []), [])
  }

  function Stamp(tsc: seq<nat>, p: nat, r: Rec): (now: seq<nat>)
    requires p < |tsc|
    ensures |now| == |tsc|
  {
    if r.stamped then tsc[p := r.tsc] else tsc
  }

  /** The cpu of a mark starts there and takes its place in the order. */
  function Begin(streams: seq<seq<Rec>>, m: Merge, mark: Mark): (r: Merge)
    requires Shaped(m) && |streams| == MAX_CPUS && MarkOk(streams, mark)
  {
    var q := mark.pid;
    var tsc := Stamp(m.c.tsc, q, streams[q][mark.at]);
    Merge(Cpus(tsc, m.c.pos[q := mark.at], m.c.half[q := false], m.c.started[q := true]),
          Joined(m.list, tsc, q), m.begun[q := m.begun[q] + [mark.at]], m.out)
  }

  /** On coming across its window, a cpu starts if it never did before. */
  predicate StartsOnChange(m: Merge, r: Rec)
    requires Shaped(m)
  {
    r.change.Some? && r.change.value.pid < MAX_CPUS && !m.c.started[r.change.value.pid]
  }

  /** The scan ahead, made for the highest active cpu only, starts any cpu that is not active. */
  predicate StartsOnScan(m: Merge, p: nat, r: Rec) {
    r.scan.Some? && (forall q :: q in m.list ==> q <= p) && r.scan.value.pid !in m.list
  }

  function AfterChange(streams: seq<seq<Rec>>, size: nat, m: Merge, r: Rec): (n: Merge)
    requires Shaped(m) && |streams| == MAX_CPUS && RecOk(streams, size, r)
  {
    if StartsOnChange(m, r) then Begin(streams, m, r.change.value) else m
  }

  function AfterScan(streams: seq<seq<Rec>>, size: nat, m: Merge, p: nat, r: Rec): (n: Merge)
    requires Shaped(m) && |streams| == MAX_CPUS && RecOk(streams, size, r)
  {
    if StartsOnScan(m, p, r) then Begin(streams, m, r.scan.value) else m
  }

  /** The record p has processed is one of lost records and due a second time. */
  predicate Stays(streams: seq<seq<Rec>>, c: Cpus, p: nat)
    requires CpusOk(c) && p < MAX_CPUS == |streams|
  {
    c.pos[p] < |streams[p]| && streams[p][c.pos[p]].lost.Some? && !c.half[p]
  }

  /** p has something left to process. */
  predicate GoesOn(streams: seq<seq<Rec>>, c: Cpus, p: nat)
    requires CpusOk(c) && p < MAX_CPUS == |streams|
  {
    Stays(streams, c, p) || c.pos[p] + 1 < |streams[p]|
  }

  /** The second time stamp of a record counts only if it is the later one. */
  function Later(tsc: seq<nat>, p: nat, v: nat): (now: seq<nat>)
    requires p < |tsc|
    ensures |now| == |tsc|
  {
    if v > tsc[p] then tsc[p := v] else tsc
  }

  /** The time stamps when p goes on: to the second pass, to the next record, or past the last. */
  function NextTsc(streams: seq<seq<Rec>>, c: Cpus, p: nat): (tsc: seq<nat>)
    requires CpusOk(c) && p < MAX_CPUS == |streams|
    ensures |tsc| == MAX_CPUS
  {
    if Stays(streams, c, p) then Later(c.tsc, p, streams[p][c.pos[p]].lost.value)
    else if c.pos[p] + 1 < |streams[p]| then Stamp(c.tsc, p, streams[p][c.pos[p] + 1])
    else c.tsc
  }

  /** The data of p when it goes on. */
  function NextCpus(streams: seq<seq<Rec>>, c: Cpus, p: nat): (r: Cpus)
    requires CpusOk(c) && p < MAX_CPUS == |streams|
    ensures CpusOk(r)
  {
    var stays := Stays(streams, c, p);
    c.(tsc := NextTsc(streams, c, p), half := c.half[p := stays],
       pos := if stays then c.pos else c.pos[p := c.pos[p] + 1])
  }

  /** p goes on and takes its place in the order, or leaves it at the end of the file. */
  function Advanced(streams: seq<seq<Rec>>, m: Merge, p: nat, o: Out): (n: Merge)
    requires Shaped(m) && |streams| == MAX_CPUS && p in m.list
  {
    var c := NextCpus(streams, m.c, p);
    Merge(c, if GoesOn(streams, m.c, p) then Moved(m.list, c.tsc, p) else Gone(m.list, p), m.begun, m.out + [o])
  }

  /** One round: the first cpu of the order has its record processed and reads the next. */
  function Round(streams: seq<seq<Rec>>, size: nat, m: Merge): (n: Merge)
    requires Core(streams, size, m) && m.list != []
  {
    var p := m.list[0];
    assert CpuOk(streams, m, p) && StreamOk(streams, size, p);
    var r := streams[p][m.c.pos[p]];
    ChangeOk(streams, size, m, r);
    var m1 := AfterChange(streams, size, m, r);
    ScanOk(streams, size, m1, p, r);
    Advanced(streams, AfterScan(streams, size, m1, p, r), p, Processed(streams, size, m, p, r))
  }

  /** The record as it is processed: opens if a cpu that never started does so on it. */
  function Processed(streams: seq<seq<Rec>>, size: nat, m: Merge, p: nat, r: Rec): (o: Out)
    requires Shaped(m) && |streams| == MAX_CPUS && RecOk(streams, size, r) && p < MAX_CPUS
    requires Shaped(AfterChange(streams, size, m, r))
  {
    var m1 := AfterChange(streams, size, m, r);
    Out(p, m.c.pos[p], m.c.half[p], m.c.tsc[p], |m.begun[p]| > 1,
        StartsOnChange(m, r) || (StartsOnScan(m1, p, r) && !m1.c.started[r.scan.value.pid]))
  }

  // ----- What has been processed -----

  /** The passes over record i are numbered 2 * i and, if there is a second one, 2 * i + 1. */
  function PassNo(i: nat, second: bool): (n: nat) {
    if second then 2 * i + 1 else 2 * i
  }

  /** The passes made for p, by number, in order. */
  function Trace(out: seq<Out>, p: nat): (t: seq<nat>) {
    if out == [] then []
    else
      var o := out[|out| - 1];
      Trace(out[..|out| - 1], p) + if o.pid == p then [PassNo(o.idx, o.second)] else []
  }

  lemma TraceOneMore(out: seq<Out>, o: Out, p: nat)
    ensures Trace(out + [o], p) == Trace(out, p) + if o.pid == p then [PassNo(o.idx, o.second)] else []
  {
    assert (out + [o])[..|out|] == out;
  }

  /** The passes that record i is due: two for one of lost records. */
  function Passes(r: Rec, i: nat): (t: seq<nat>) {
    if r.lost.Some? then [2 * i, 2 * i + 1] else [2 * i]
  }

  /** The passes over records a up to z. */
  function Span(s: seq<Rec>, a: nat, z: nat): (t: seq<nat>)
    requires z <= |s|
  {
    if z <= a then [] else Span(s, a, z - 1) + Passes(s[z - 1], z - 1)
  }

  /** All passes over the records of a cpu, once for each time it started, from there to the end. */
  function Full(s: seq<Rec>, begun: seq<nat>): (t: seq<nat>) {
    if begun == [] then [] else Full(s, begun[..|begun| - 1]) + Span(s, begun[|begun| - 1], |s|)
  }

  /** The same with the last time still going on, at record pos or, if half, after its first pass. */
  function Visits(s: seq<Rec>, begun: seq<nat>, pos: nat, half: bool): (t: seq<nat>)
    requires pos <= |s|
  {
    if begun == [] then []
    else Full(s, begun[..|begun| - 1]) + (Span(s, begun[|begun| - 1], pos) + if half then [2 * pos] else [])
  }

  /** Every time stamp still to come of a cpu is at least v. */
  predicate Ahead(s: seq<Rec>, pos: nat, half: bool, v: nat) {
    && (pos < |s| && !half && s[pos].lost.Some? ==> v <= s[pos].lost.value)
    && (forall j :: pos < j < |s| ==> AheadOf(s[j], v))
  }

  predicate AheadOf(r: Rec, v: nat) {
    (r.stamped ==> v <= r.tsc) && (r.lost.Some? ==> v <= r.lost.value)
  }

  /** A stamped record is taken at its own time stamp, and the second time at its second one. */
  predicate AtStamp(r: Rec, second: bool, v: nat) {
    r.stamped ==> v == if second && r.lost.Some? then r.lost.value else r.tsc
  }

  /** A cpu in the order is at its next record; one that is not has not started or is through. */
  predicate CpuOk(streams: seq<seq<Rec>>, m: Merge, q: nat)
    requires Shaped(m) && q < MAX_CPUS == |streams|
  {
    var b, s, pos, half := m.begun[q], streams[q], m.c.pos[q], m.c.half[q];
    && m.c.started[q] == (b != []) && (forall i :: 0 <= i < |b| ==> b[i] < |s|)
    && (q in m.list ==> b != [] && b[|b| - 1] <= pos < |s| && AtStamp(s[pos], half, m.c.tsc[q]))
    && (q in m.list && half ==> s[pos].lost.Some?)
    && (q !in m.list ==> !half && pos == if b == [] then 0 else |s|)
    && Trace(m.out, q) == Visits(s, b, pos, half)
    && (b == [] ==> m.c.tsc[q] == 0) && (|b| == 1 ==> Ahead(s, pos, half, m.c.tsc[q]))
  }

  /** What was processed is a record of its cpu, at its time stamp. */
  predicate OutOk(streams: seq<seq<Rec>>, o: Out) {
    && o.pid < |streams| && o.idx < |streams[o.pid]| && (o.second ==> streams[o.pid][o.idx].lost.Some?)
    && AtStamp(streams[o.pid][o.idx], o.second, o.tsc)
  }

  /** The cpus that were started more than once. */
  function Again(m: Merge): (back: set<nat>)
    requires Shaped(m)
  {
    set q | 0 <= q < MAX_CPUS && |m.begun[q]| > 1
  }

  /** No cpu starts for the first time on records i up to j. */
  predicate Quiet(out: seq<Out>, i: nat, j: nat)
    requires j <= |out|
  {
    forall k :: i <= k < j ==> !out[k].opens
  }

  /** Leaving out cpus that were started again, time never goes back except where a cpu starts. */
  predicate SortedOnce(out: seq<Out>) {
    forall i, j :: 0 <= i < j < |out| && !out[i].again && !out[j].again && Quiet(out, i, j) ==> out[i].tsc <= out[j].tsc
  }

  /** Everything but the claim about the last records processed. */
  predicate Core(streams: seq<seq<Rec>>, size: nat, m: Merge) {
    && StreamsOk(streams, size) && Shaped(m) && (forall q :: 0 <= q < MAX_CPUS ==> CpuOk(streams, m, q))
    && InOrderBut(m.list, m.c.tsc, Again(m)) && SortedOnce(m.out)
    && forall k :: 0 <= k < |m.out| ==> OutOk(streams, m.out[k])
  }

  predicate OutBehind(m: Merge, i: nat)
    requires Shaped(m) && i < |m.out|
  {
    !m.out[i].again && Quiet(m.out, i, |m.out|) ==>
      forall q :: q in m.list && |m.begun[q]| == 1 ==> m.out[i].tsc <= m.c.tsc[q]
  }

  /** Time stamps processed are behind those in hand, unless a cpu started since. */
  predicate Behind(m: Merge)
    requires Shaped(m)
  {
    forall i :: 0 <= i < |m.out| ==> OutBehind(m, i)
  }

  predicate Ok(streams: seq<seq<Rec>>, size: nat, m: Merge) {
    Core(streams, size, m) && Behind(m)
  }

  // ----- Each part of a round keeps this -----

  lemma BeginShaped(streams: seq<seq<Rec>>, m: Merge, mark: Mark)
    requires Shaped(m) && |streams| == MAX_CPUS && MarkOk(streams, mark) && mark.pid !in m.list
    requires InOrderBut(m.list, m.c.tsc, Again(m))
    ensures var n := Begin(streams, m, mark);
      && Shaped(n) && InOrderBut(n.list, n.c.tsc, Again(n))
      && forall q :: q in n.list <==> q in m.list || q == mark.pid
  {
    var n := Begin(streams, m, mark);
    var back := set q | 0 <= q < MAX_CPUS && |n.begun[q]| > 1;
    assert Again(m) <= back;
    assert InOrderBut(m.list, n.c.tsc, back);
    JoinedKeeps(m.list, n.c.tsc, mark.pid, back);
  }

  /** A cpu none of whose data changed. */
  lemma CpuSame(streams: seq<seq<Rec>>, m: Merge, n: Merge, q: nat)
    requires Shaped(m) && Shaped(n) && q < MAX_CPUS == |streams| && CpuOk(streams, m, q)
    requires Trace(n.out, q) == Trace(m.out, q) && (q in n.list <==> q in m.list)
    requires n.c.tsc[q] == m.c.tsc[q] && n.c.pos[q] == m.c.pos[q] && n.c.half[q] == m.c.half[q]
    requires n.begun[q] == m.begun[q] && n.c.started[q] == m.c.started[q]
    ensures CpuOk(streams, n, q)
  {
  }

  lemma BegunAhead(s: seq<Rec>, tsc: seq<nat>, q: nat, at: nat)
    requires at < |s| && q < |tsc| && tsc[q] == 0
    requires s[at].stamped && s[at].lost.Some? ==> s[at].tsc <= s[at].lost.value
    requires forall i, j :: 0 <= i < j < |s| ==> Earlier(s[i], s[j])
    ensures Ahead(s, at, false, Stamp(tsc, q, s[at])[q])
  {
    forall j | at < j < |s| ensures AheadOf(s[j], Stamp(tsc, q, s[at])[q]) {
      assert Earlier(s[at], s[j]);
    }
  }

  /** The cpu of a mark after it started there. */
  lemma CpuBegun(streams: seq<seq<Rec>>, size: nat, m: Merge, mark: Mark, n: Merge)
    requires Core(streams, size, m) && MarkOk(streams, mark) && mark.pid !in m.list && Shaped(n)
    requires n.out == m.out && mark.pid in n.list && n.c.started[mark.pid] && n.c.pos[mark.pid] == mark.at
    requires !n.c.half[mark.pid]
    requires n.begun[mark.pid] == m.begun[mark.pid] + [mark.at]
    requires n.c.tsc == Stamp(m.c.tsc, mark.pid, streams[mark.pid][mark.at])
    ensures CpuOk(streams, n, mark.pid)
  {
    var q := mark.pid;
    assert CpuOk(streams, m, q) && StreamOk(streams, size, q);
    VisitsBegun(streams[q], m.begun[q], mark.at, m.c.pos[q]);
    if m.begun[q] == [] {
      assert RecOk(streams, size, streams[q][mark.at]);
      BegunAhead(streams[q], m.c.tsc, q, mark.at);
    }
  }

  lemma VisitsBegun(s: seq<Rec>, b: seq<nat>, at: nat, pos: nat)
    requires at <= |s| && pos <= |s| && (b != [] ==> pos == |s|)
    ensures Visits(s, b + [at], at, false) == Visits(s, b, pos, false)
  {
    assert (b + [at])[..|b|] == b;
    assert Span(s, at, at) == [];
    assert Visits(s, b + [at], at, false) == Full(s, b) + ([] + []) == Full(s, b);
    if b != [] {
      var last := Span(s, b[|b| - 1], |s|);
      assert last + [] == last;
    }
  }

  lemma BeginOk(streams: seq<seq<Rec>>, size: nat, m: Merge, mark: Mark)
    requires Core(streams, size, m) && MarkOk(streams, mark) && mark.pid !in m.list
    ensures Core(streams, size, Begin(streams, m, mark))
  {
    var n := Begin(streams, m, mark);
    BeginShaped(streams, m, mark);
    CpuBegun(streams, size, m, mark, n);
    forall q | 0 <= q < MAX_CPUS ensures CpuOk(streams, n, q) {
      if q != mark.pid {
        assert CpuOk(streams, m, q);
        CpuSame(streams, m, n, q);
      }
    }
  }

  /** What starting cpus leaves as it was. */
  predicate Onward(m: Merge, n: Merge)
    requires Shaped(m) && Shaped(n)
  {
    && n.out == m.out && (forall q :: q in m.list ==> q in n.list)
    && (forall q :: q in m.list ==> n.c.tsc[q] == m.c.tsc[q] && n.c.pos[q] == m.c.pos[q] && n.c.half[q] == m.c.half[q])
    && (forall q :: q in m.list ==> n.begun[q] == m.begun[q])
  }

  lemma BeginOnward(streams: seq<seq<Rec>>, size: nat, m: Merge, mark: Mark)
    requires Core(streams, size, m) && MarkOk(streams, mark) && mark.pid !in m.list
    requires Shaped(Begin(streams, m, mark))
    ensures Onward(m, Begin(streams, m, mark))
    ensures forall q :: q in Begin(streams, m, mark).list <==> q in m.list || q == mark.pid
  {
    BeginShaped(streams, m, mark);
  }

  lemma ChangeOk(streams: seq<seq<Rec>>, size: nat, m: Merge, r: Rec)
    requires Core(streams, size, m) && RecOk(streams, size, r)
    ensures Core(streams, size, AfterChange(streams, size, m, r)) && Onward(m, AfterChange(streams, size, m, r))
  {
    if StartsOnChange(m, r) {
      assert CpuOk(streams, m, r.change.value.pid);
      BeginOk(streams, size, m, r.change.value);
      BeginOnward(streams, size, m, r.change.value);
    }
  }

  lemma ScanOk(streams: seq<seq<Rec>>, size: nat, m: Merge, p: nat, r: Rec)
    requires Core(streams, size, m) && RecOk(streams, size, r)
    ensures Core(streams, size, AfterScan(streams, size, m, p, r)) && Onward(m, AfterScan(streams, size, m, p, r))
  {
    if StartsOnScan(m, p, r) {
      BeginOk(streams, size, m, r.scan.value);
      BeginOnward(streams, size, m, r.scan.value);
    }
  }

  lemma AdvancedShaped(streams: seq<seq<Rec>>, m: Merge, p: nat, o: Out)
    requires Shaped(m) && |streams| == MAX_CPUS && p in m.list
    ensures Shaped(Advanced(streams, m, p, o))
    ensures forall q :: q in Advanced(streams, m, p, o).list <==>
                        q in m.list && (q != p || GoesOn(streams, m.c, p))
  {
    var c := NextCpus(streams, m.c, p);
    if GoesOn(streams, m.c, p) {
      MovedKeeps(m.list, c.tsc, p);
    } else {
      GoneKeeps(m.list, MAX_CPUS, p);
    }
  }

  /** The stamps of a cpu started once do not decrease from record to record. */
  lemma StampAhead(s: seq<Rec>, tsc: seq<nat>, p: nat, pos: nat, half: bool)
    requires p < |tsc| && pos + 1 < |s| && Ahead(s, pos, half, tsc[p])
    requires s[pos + 1].stamped && s[pos + 1].lost.Some? ==> s[pos + 1].tsc <= s[pos + 1].lost.value
    requires forall i, j :: 0 <= i < j < |s| ==> Earlier(s[i], s[j])
    ensures tsc[p] <= Stamp(tsc, p, s[pos + 1])[p] && Ahead(s, pos + 1, false, Stamp(tsc, p, s[pos + 1])[p])
  {
    var v := Stamp(tsc, p, s[pos + 1])[p];
    assert AheadOf(s[pos + 1], tsc[p]);
    forall j | pos + 1 < j < |s| ensures AheadOf(s[j], v) {
      assert Earlier(s[pos + 1], s[j]) && AheadOf(s[j], tsc[p]);
    }
  }

  /** Nor do they on the second pass. */
  lemma LaterAhead(s: seq<Rec>, tsc: seq<nat>, p: nat, pos: nat)
    requires p < |tsc| && pos < |s| && s[pos].lost.Some? && Ahead(s, pos, false, tsc[p])
    requires forall i, j :: 0 <= i < j < |s| ==> Earlier(s[i], s[j])
    ensures tsc[p] <= Later(tsc, p, s[pos].lost.value)[p] == s[pos].lost.value
    ensures Ahead(s, pos, true, s[pos].lost.value)
  {
    forall j | pos < j < |s| ensures AheadOf(s[j], s[pos].lost.value) {
      assert Earlier(s[pos], s[j]);
    }
  }

  /** What p has made when it goes on is what it had made and the pass now over. */
  lemma VisitsOneMore(s: seq<Rec>, b: seq<nat>, pos: nat, half: bool, stays: bool)
    requires b != [] && b[|b| - 1] <= pos < |s| && (half ==> s[pos].lost.Some?)
    requires stays <==> s[pos].lost.Some? && !half
    ensures Visits(s, b, if stays then pos else pos + 1, stays) == Visits(s, b, pos, half) + [PassNo(pos, half)]
  {
    var before, start := Full(s, b[..|b| - 1]), b[|b| - 1];
    var span := Span(s, start, pos);
    assert Span(s, start, pos + 1) == span + Passes(s[pos], pos);
    assert half ==> span + [2 * pos, 2 * pos + 1] == span + [2 * pos] + [2 * pos + 1];
    var was, now := span + (if half then [2 * pos] else []), [PassNo(pos, half)];
    assert before + (was + now) == before + was + now;
    if stays {
      assert span + [2 * pos] == was + now;
    } else {
      assert Span(s, start, pos + 1) + [] == was + now;
    }
  }

  /** The cpu that went on. */
  lemma CpuOnward(streams: seq<seq<Rec>>, size: nat, m: Merge, p: nat, o: Out, n: Merge)
    requires Core(streams, size, m) && p in m.list && Shaped(n)
    requires o.pid == p && o.idx == m.c.pos[p] && o.second == m.c.half[p]
    requires n.out == m.out + [o] && n.begun == m.begun && n.c == NextCpus(streams, m.c, p)
    requires p in n.list <==> GoesOn(streams, m.c, p)
    ensures CpuOk(streams, n, p)
  {
    var s, pos, half := streams[p], m.c.pos[p], m.c.half[p];
    assert CpuOk(streams, m, p) && StreamOk(streams, size, p) && RecOk(streams, size, s[pos]);
    TraceOneMore(m.out, o, p);
    VisitsOneMore(s, m.begun[p], pos, half, Stays(streams, m.c, p));
    NextAtStamp(streams, size, m.c, p, n.c);
    if |m.begun[p]| == 1 {
      CpuAhead(streams, size, m, p, n);
    }
  }

  lemma NextAtStamp(streams: seq<seq<Rec>>, size: nat, c: Cpus, p: nat, n: Cpus)
    requires CpusOk(c) && p < MAX_CPUS == |streams| && c.pos[p] < |streams[p]| && n == NextCpus(streams, c, p)
    requires RecOk(streams, size, streams[p][c.pos[p]]) && AtStamp(streams[p][c.pos[p]], c.half[p], c.tsc[p])
    ensures n.pos[p] < |streams[p]| ==> AtStamp(streams[p][n.pos[p]], n.half[p], n.tsc[p])
  {
  }

  lemma CpuAhead(streams: seq<seq<Rec>>, size: nat, m: Merge, p: nat, n: Merge)
    requires Core(streams, size, m) && p in m.list && Shaped(n) && |m.begun[p]| == 1
    requires n.c == NextCpus(streams, m.c, p)
    ensures Ahead(streams[p], n.c.pos[p], n.c.half[p], n.c.tsc[p])
  {
    var s, pos := streams[p], m.c.pos[p];
    assert CpuOk(streams, m, p) && StreamOk(streams, size, p);
    if Stays(streams, m.c, p) {
      LaterAhead(s, m.c.tsc, p, pos);
    } else if pos + 1 < |s| {
      assert RecOk(streams, size, s[pos + 1]);
      StampAhead(s, m.c.tsc, p, pos, m.c.half[p]);
    }
  }

  lemma NotBefore(streams: seq<seq<Rec>>, size: nat, m: Merge, p: nat)
    requires Core(streams, size, m) && p in m.list
    ensures var tsc := NextTsc(streams, m.c, p);
      m.c.tsc == tsc[p := m.c.tsc[p]] && (m.c.tsc[p] <= tsc[p] || p in Again(m))
  {
    var s, pos := streams[p], m.c.pos[p];
    assert CpuOk(streams, m, p) && StreamOk(streams, size, p);
    if |m.begun[p]| == 1 && !Stays(streams, m.c, p) && pos + 1 < |s| {
      assert RecOk(streams, size, s[pos + 1]);
      StampAhead(s, m.c.tsc, p, pos, m.c.half[p]);
    }
  }

  lemma AdvancedOrdered(streams: seq<seq<Rec>>, size: nat, m: Merge, p: nat, o: Out)
    requires Core(streams, size, m) && p in m.list && Shaped(Advanced(streams, m, p, o))
    ensures var n := Advanced(streams, m, p, o); InOrderBut(n.list, n.c.tsc, Again(m))
  {
    var n, back := Advanced(streams, m, p, o), Again(m);
    if GoesOn(streams, m.c, p) {
      var tsc := NextTsc(streams, m.c, p);
      assert n.c.tsc == tsc && n.list == Moved(m.list, tsc, p);
      NotBefore(streams, size, m, p);
      MovedOrdered(m.list, m.c.tsc, tsc, p, back);
    } else {
      assert n.c.tsc == m.c.tsc && n.list == Gone(m.list, p);
      GoneOrdered(m.list, m.c.tsc, p, back);
    }
  }

  /** o is the pass that p is due. */
  predicate IsOf(m: Merge, p: nat, o: Out)
    requires Shaped(m) && p < MAX_CPUS
  {
    o.pid == p && o.idx == m.c.pos[p] && o.second == m.c.half[p] && o.tsc == m.c.tsc[p]
  }

  lemma AdvanceOk(streams: seq<seq<Rec>>, size: nat, m: Merge, p: nat, o: Out)
    requires Core(streams, size, m) && p in m.list && IsOf(m, p, o) && SortedOnce(m.out + [o])
    ensures Core(streams, size, Advanced(streams, m, p, o))
  {
    var n := Advanced(streams, m, p, o);
    AdvancedShaped(streams, m, p, o);
    CpuOnward(streams, size, m, p, o, n);
    forall q | 0 <= q < MAX_CPUS ensures CpuOk(streams, n, q) {
      if q != p {
        assert CpuOk(streams, m, q);
        TraceOneMore(m.out, o, q);
        CpuSame(streams, m, n, q);
      }
    }
    AdvancedOrdered(streams, size, m, p, o);
    assert Again(n) == Again(m);
    assert CpuOk(streams, m, p);
  }

  lemma SortedOneMore(m: Merge, o: Out)
    requires Shaped(m) && SortedOnce(m.out) && Behind(m)
    requires !o.again ==> o.pid in m.list && |m.begun[o.pid]| == 1 && o.tsc == m.c.tsc[o.pid]
    ensures SortedOnce(m.out + [o])
  {
    var out := m.out + [o];
    forall i, j | 0 <= i < j < |out| && !out[i].again && !out[j].again && Quiet(out, i, j)
      ensures out[i].tsc <= out[j].tsc
    {
      assert forall k :: i <= k < j ==> m.out[k] == out[k];
      if j == |m.out| {
        assert Quiet(m.out, i, j) && OutBehind(m, i);
      } else {
        assert Quiet(m.out, i, j);
      }
    }
  }

  // ----- Whole rounds and runs -----

  /** The states a round goes through. */
  lemma RoundParts(streams: seq<seq<Rec>>, size: nat, m: Merge) returns (p: nat, r: Rec, m1: Merge, m2: Merge, o: Out)
    requires Core(streams, size, m) && m.list != []
    ensures p == m.list[0] && m.c.pos[p] < |streams[p]| && r == streams[p][m.c.pos[p]] && RecOk(streams, size, r)
    ensures ScansOwn(r, p) && m.c.started[p]
    ensures m1 == AfterChange(streams, size, m, r) && Core(streams, size, m1) && Onward(m, m1)
    ensures m2 == AfterScan(streams, size, m1, p, r) && Core(streams, size, m2) && Onward(m1, m2)
    ensures o == Processed(streams, size, m, p, r) && Round(streams, size, m) == Advanced(streams, m2, p, o)
  {
    p := m.list[0];
    assert CpuOk(streams, m, p) && StreamOk(streams, size, p);
    r := streams[p][m.c.pos[p]];
    ChangeOk(streams, size, m, r);
    m1 := AfterChange(streams, size, m, r);
    ScanOk(streams, size, m1, p, r);
    m2 := AfterScan(streams, size, m1, p, r);
    o := Processed(streams, size, m, p, r);
  }

  /** A round in which no cpu starts. */
  lemma QuietRound(streams: seq<seq<Rec>>, size: nat, m: Merge, p: nat, r: Rec)
    requires Core(streams, size, m) && m.list != [] && p == m.list[0]
    requires m.c.pos[p] < |streams[p]| && r == streams[p][m.c.pos[p]] && !StartsOnChange(m, r) && !StartsOnScan(m, p, r)
    ensures Round(streams, size, m)
         == Advanced(streams, m, p, Out(p, m.c.pos[p], m.c.half[p], m.c.tsc[p], |m.begun[p]| > 1, false))
  {
    var p', r', m1, m2, o := RoundParts(streams, size, m);
  }

  /** Going on adds no cpu, and the stamp of one started once does not decrease. */
  lemma AdvancedOnce(streams: seq<seq<Rec>>, size: nat, m: Merge, p: nat, o: Out, q: nat)
    requires Core(streams, size, m) && p in m.list
    requires q in Advanced(streams, m, p, o).list && q < MAX_CPUS && |m.begun[q]| == 1
    ensures q in m.list && m.c.tsc[q] <= Advanced(streams, m, p, o).c.tsc[q]
  {
    AdvancedShaped(streams, m, p, o);
    if q == p {
      NotBefore(streams, size, m, p);
    }
  }

  /** A scan that starts no cpu for the first time adds none that was started once only. */
  lemma ScanOnce(streams: seq<seq<Rec>>, size: nat, m: Merge, p: nat, r: Rec, q: nat)
    requires Core(streams, size, m) && RecOk(streams, size, r)
    requires StartsOnScan(m, p, r) ==> m.c.started[r.scan.value.pid]
    requires var n := AfterScan(streams, size, m, p, r); q < MAX_CPUS && q in n.list && |n.begun[q]| == 1
    ensures q in m.list && |m.begun[q]| == 1 && m.c.tsc[q] == AfterScan(streams, size, m, p, r).c.tsc[q]
  {
    if StartsOnScan(m, p, r) {
      var mark := r.scan.value;
      assert CpuOk(streams, m, mark.pid);
      BeginShaped(streams, m, mark);
      BeginOnward(streams, size, m, mark);
    }
  }

  /** In a round that starts no cpu for the first time, a cpu started once was there before, at no later stamp. */
  lemma RoundOnce(streams: seq<seq<Rec>>, size: nat, m: Merge, q: nat)
    requires Core(streams, size, m) && m.list != [] && q < MAX_CPUS
    requires var n := Round(streams, size, m);
      |n.out| > 0 && !n.out[|n.out| - 1].opens && q in n.list && |n.begun| == MAX_CPUS && |n.begun[q]| == 1
    ensures q in m.list && |m.begun[q]| == 1 && |Round(streams, size, m).c.tsc| == MAX_CPUS
    ensures m.c.tsc[q] <= Round(streams, size, m).c.tsc[q]
  {
    var p, r, m1, m2, o := RoundParts(streams, size, m);
    AdvancedShaped(streams, m2, p, o);
    AdvancedOnce(streams, size, m2, p, o, q);
    ScanOnce(streams, size, m1, p, r, q);
  }

  /** The cpu at the head is behind every cpu started once. */
  lemma HeadIsFirst(m: Merge, q: nat)
    requires Shaped(m) && InOrderBut(m.list, m.c.tsc, Again(m)) && q in m.list && |m.begun[q]| == 1
    ensures m.c.tsc[m.list[0]] <= m.c.tsc[q]
  {
    var k :| 0 <= k < |m.list| && m.list[k] == q;
    if k > 0 {
      assert m.list[k] !in Again(m);
    }
  }

  lemma RoundBehind(streams: seq<seq<Rec>>, size: nat, m: Merge, i: nat)
    requires Ok(streams, size, m) && m.list != [] && Shaped(Round(streams, size, m))
    requires i < |Round(streams, size, m).out|
    ensures OutBehind(Round(streams, size, m), i)
  {
    var n := Round(streams, size, m);
    var p, r, m1, m2, o := RoundParts(streams, size, m);
    assert n.out == m.out + [o];
    if !n.out[i].again && Quiet(n.out, i, |n.out|) {
      assert !n.out[|n.out| - 1].opens;
      forall q | q in n.list && |n.begun[q]| == 1 ensures n.out[i].tsc <= n.c.tsc[q] {
        RoundOnce(streams, size, m, q);
        if i < |m.out| {
          assert forall k :: i <= k < |m.out| ==> n.out[k] == m.out[k];
          assert Quiet(m.out, i, |m.out|) && OutBehind(m, i);
        } else {
          HeadIsFirst(m, q);
        }
      }
    }
  }

  /** Every round keeps the merge in order. */
  lemma RoundOk(streams: seq<seq<Rec>>, size: nat, m: Merge)
    requires Ok(streams, size, m) && m.list != []
    ensures Ok(streams, size, Round(streams, size, m))
  {
    var p, r, m1, m2, o := RoundParts(streams, size, m);
    assert CpuOk(streams, m, p);
    SortedOneMore(m, o);
    AdvanceOk(streams, size, m2, p, o);
    forall i | 0 <= i < |Round(streams, size, m).out| ensures OutBehind(Round(streams, size, m), i) {
      RoundBehind(streams, size, m, i);
    }
  }

  /** The merge after k rounds of the loop, or where it ended before. */
  function Rounds(streams: seq<seq<Rec>>, size: nat, m: Merge, k: nat): (n: Merge)
    requires Ok(streams, size, m)
    ensures Ok(streams, size, n)
    decreases k
  {
    if k == 0 then m
    else
      var before := Rounds(streams, size, m, k - 1);
      if before.list == [] then before
      else
        RoundOk(streams, size, before);
        Round(streams, size, before)
  }

  lemma RoundsOneMore(streams: seq<seq<Rec>>, size: nat, m: Merge, k: nat)
    requires Ok(streams, size, m) && Rounds(streams, size, m, k).list != []
    ensures Rounds(streams, size, m, k + 1) == Round(streams, size, Rounds(streams, size, m, k))
  {
  }

  // ----- Once each, or not -----

  predicate Increasing(t: seq<nat>) {
    forall i, j :: 0 <= i < j < |t| ==> t[i] < t[j]
  }

  /** No pass is made twice from one start to the end. */
  lemma {:induction false} SpanIncreases(s: seq<Rec>, a: nat, z: nat)
    requires a <= z <= |s|
    ensures Increasing(Span(s, a, z)) && forall k :: 0 <= k < |Span(s, a, z)| ==> 2 * a <= Span(s, a, z)[k] < 2 * z
    decreases z
  {
    if a < z {
      SpanIncreases(s, a, z - 1);
    }
  }

  /** The last pass over the last record. */
  function LastPass(s: seq<Rec>): (n: nat)
    requires s != []
  {
    PassNo(|s| - 1, s[|s| - 1].lost.Some?)
  }

  lemma FullEnd(s: seq<Rec>, begun: seq<nat>)
    requires begun != [] && forall i :: 0 <= i < |begun| ==> begun[i] < |s|
    ensures |Full(s, begun)| > 0 && Full(s, begun)[|Full(s, begun)| - 1] == LastPass(s)
    ensures |Full(s, begun[..|begun| - 1])| < |Full(s, begun)|
  {
    var before, last := Full(s, begun[..|begun| - 1]), Span(s, begun[|begun| - 1], |s|);
    assert Full(s, begun) == before + last;
    assert last == Span(s, begun[|begun| - 1], |s| - 1) + Passes(s[|s| - 1], |s| - 1);
  }

  lemma FullOnce(s: seq<Rec>, a: nat)
    requires a < |s|
    ensures Full(s, [a]) == Span(s, a, |s|)
  {
    assert [a][..0] == [];
    assert Full(s, [a]) == [] + Span(s, a, |s|);
  }

  /** Passes are repeated exactly if the cpu was started more than once. */
  lemma RepeatedExactly(s: seq<Rec>, begun: seq<nat>)
    requires forall i :: 0 <= i < |begun| ==> begun[i] < |s|
    ensures Distinct(Full(s, begun)) <==> |begun| <= 1
  {
    if |begun| == 1 {
      assert begun == [begun[0]];
      FullOnce(s, begun[0]);
      SpanIncreases(s, begun[0], |s|);
    } else if |begun| > 1 {
      var before := begun[..|begun| - 1];
      FullEnd(s, before);
      FullEnd(s, begun);
      var t, k := Full(s, begun), |Full(s, before)| - 1;
      assert t[k] == Full(s, before)[k] == t[|t| - 1];
    }
  }

  /** The records the passes are over. */
  function Records(t: seq<nat>): (r: seq<nat>) {
    seq(|t|, k requires 0 <= k < |t| => t[k] / 2)
  }

  /** From one start on each record has its one pass, or two if it is one of lost records. */
  lemma {:induction false} SpanOnce(s: seq<Rec>, a: nat, z: nat)
    requires a <= z <= |s|
    ensures Distinct(Records(Span(s, a, z))) <==> forall i :: a <= i < z ==> s[i].lost.None?
    ensures forall k :: 0 <= k < |Span(s, a, z)| ==> a <= Span(s, a, z)[k] / 2 < z
    decreases z
  {
    if a < z {
      SpanOnce(s, a, z - 1);
      var before, t, r := Span(s, a, z - 1), Span(s, a, z), s[z - 1];
      assert t == before + Passes(r, z - 1);
      assert forall k :: 0 <= k < |before| ==> Records(t)[k] == Records(before)[k] < z - 1;
      if r.lost.Some? {
        assert Records(t)[|before|] == Records(t)[|before| + 1];
      } else {
        assert Records(t)[|before|] == z - 1;
        RecordsPrefix(before, t, z - 1);
      }
    }
  }

  lemma RecordsPrefix(before: seq<nat>, t: seq<nat>, last: nat)
    requires |t| == |before| + 1 && Records(t)[|before|] == last
    requires forall k :: 0 <= k < |before| ==> Records(t)[k] == Records(before)[k] < last
    ensures Distinct(Records(t)) <==> Distinct(Records(before))
  {
    var x, y := Records(t), Records(before);
    if Distinct(x) {
      forall i, j | 0 <= i < j < |y| ensures y[i] != y[j] {
        assert x[i] != x[j];
      }
    }
  }

  /**
    A record is processed twice exactly if its cpu was started more than once,
    or if it is one of lost records from the start on.
   */
  lemma OncePerRecordExactly(s: seq<Rec>, begun: seq<nat>)
    requires forall i :: 0 <= i < |begun| ==> begun[i] < |s|
    ensures Distinct(Records(Full(s, begun))) <==>
      || begun == []
      || (|begun| == 1 && forall i :: begun[0] <= i < |s| ==> s[i].lost.None?)
  {
    var t := Full(s, begun);
    if |begun| == 1 {
      assert begun == [begun[0]];
      FullOnce(s, begun[0]);
      SpanOnce(s, begun[0], |s|);
    } else if |begun| > 1 {
      RepeatedExactly(s, begun);
      var i, j :| 0 <= i < j < |t| && t[i] == t[j];
      assert Records(t)[i] == Records(t)[j];
    }
  }

  /** One window with one record of lost records: the cpu starts once, and the record is processed twice. */
  lemma LostIsTwice()
    ensures var s := [Rec(0, false, 0, None, Some(Mark(0, 0)), None), Rec(1, true, 3, Some(7), None, None)];
      Full(s, [0]) == [0, 2, 3] && Records(Full(s, [0])) == [0, 1, 1]
  {
    var s := [Rec(0, false, 0, None, Some(Mark(0, 0)), None), Rec(1, true, 3, Some(7), None, None)];
    FullOnce(s, 0);
    assert Span(s, 0, 1) == Span(s, 0, 0) + [0];
    assert Span(s, 0, 2) == Span(s, 0, 1) + [2, 3];
  }

  // ----- The loop ends -----

  function Times(n: nat, x: nat): (t: nat) {
    if n == 0 then 0 else x + Times(n - 1, x)
  }

  lemma {:induction false} TimesMono(n: nat, m: nat, x: nat, y: nat)
    requires n <= m && x <= y
    ensures Times(n, x) <= Times(m, y)
  {
    if n > 0 {
      TimesMono(n - 1, m - 1, x, y);
    } else if m > 0 {
      TimesMono(0, m - 1, x, y);
    }
  }

  /** What a record at distance d from the end of the file may still cost, if a cpu has at most len passes to make. */
  function Pot(len: nat, d: nat): (n: nat)
    ensures n > 0
  {
    if d == 0 then 1 else 1 + Times(len, Pot(len, d - 1))
  }

  lemma {:induction false} PotMono(len: nat, d: nat, e: nat)
    requires d <= e
    ensures Pot(len, d) <= Pot(len, e)
    decreases e
  {
    if 0 < d {
      PotMono(len, d - 1, e - 1);
      TimesMono(len, len, Pot(len, d - 1), Pot(len, e - 1));
    }
  }

  function Dist(size: nat, r: Rec): (d: nat) {
    if r.off < size then size - r.off else 0
  }

  /** What the passes left over a record may cost. */
  function Left(r: Rec, half: bool, size: nat, len: nat): (n: nat) {
    Pot(len, Dist(size, r)) + if r.lost.Some? && !half then Pot(len, Dist(size, r)) else 0
  }

  /** What the records of a cpu from one on may cost. */
  function Seg(s: seq<Rec>, size: nat, len: nat, from: nat): (n: nat)
    decreases |s| - from
  {
    if from >= |s| then 0 else Left(s[from], false, size, len) + Seg(s, size, len, from + 1)
  }

  lemma {:induction false} SegBound(s: seq<Rec>, size: nat, len: nat, from: nat, d: nat)
    requires from <= |s| && forall i :: from <= i < |s| ==> Dist(size, s[i]) <= d
    ensures Seg(s, size, len, from) <= Times(2 * (|s| - from), Pot(len, d))
    decreases |s| - from
  {
    if from < |s| {
      SegBound(s, size, len, from + 1, d);
      PotMono(len, Dist(size, s[from]), d);
      TimesTwoMore(2 * (|s| - from - 1), Pot(len, d));
    }
  }

  lemma TimesTwoMore(n: nat, x: nat)
    ensures Times(n + 2, x) == x + x + Times(n, x)
  {
    assert Times(n + 2, x) == x + Times(n + 1, x);
  }

  lemma SegOfMark(streams: seq<seq<Rec>>, size: nat, len: nat, mark: Mark, d: nat)
    requires StreamsOk(streams, size) && MarkOk(streams, mark) && 2 * |streams[mark.pid]| <= len
    requires Dist(size, streams[mark.pid][mark.at]) <= d
    ensures Seg(streams[mark.pid], size, len, mark.at) <= Times(len, Pot(len, d))
  {
    var s := streams[mark.pid];
    assert StreamOk(streams, size, mark.pid);
    SegBound(s, size, len, mark.at, d);
    TimesMono(2 * (|s| - mark.at), len, Pot(len, d), Pot(len, d));
  }

  function CpuPot(streams: seq<seq<Rec>>, size: nat, len: nat, m: Merge, q: nat): (n: nat)
    requires Shaped(m) && q < MAX_CPUS == |streams|
  {
    if q in m.list && m.c.pos[q] < |streams[q]| then
      Left(streams[q][m.c.pos[q]], m.c.half[q], size, len) + Seg(streams[q], size, len, m.c.pos[q] + 1)
    else if m.c.started[q] then 0
    else Times(len, Pot(len, size))
  }

  function Total(streams: seq<seq<Rec>>, size: nat, len: nat, m: Merge, n: nat): (t: nat)
    requires Shaped(m) && n <= MAX_CPUS == |streams|
  {
    if n == 0 then 0 else Total(streams, size, len, m, n - 1) + CpuPot(streams, size, len, m, n - 1)
  }

  lemma {:induction false} TotalChange(streams: seq<seq<Rec>>, size: nat, len: nat, m: Merge, m': Merge, n: nat, x: nat)
    requires Shaped(m) && Shaped(m') && x < MAX_CPUS && n <= MAX_CPUS == |streams|
    requires forall q :: 0 <= q < MAX_CPUS && q != x ==>
               CpuPot(streams, size, len, m', q) == CpuPot(streams, size, len, m, q)
    ensures x < n ==>
              Total(streams, size, len, m', n) + CpuPot(streams, size, len, m, x)
              == Total(streams, size, len, m, n) + CpuPot(streams, size, len, m', x)
    ensures n <= x ==> Total(streams, size, len, m', n) == Total(streams, size, len, m, n)
  {
    if n > 0 {
      TotalChange(streams, size, len, m, m', n - 1, x);
    }
  }

  /** No cpu has more than len passes to make. */
  predicate AtMost(streams: seq<seq<Rec>>, len: nat) {
    forall q :: 0 <= q < |streams| ==> 2 * |streams[q]| <= len
  }

  /** Two passes for each record of the longest of the first n streams. */
  function Longest(streams: seq<seq<Rec>>, n: nat): (len: nat)
    requires n <= |streams|
    ensures forall q :: 0 <= q < n ==> 2 * |streams[q]| <= len
  {
    if n == 0 then 0
    else
      var before := Longest(streams, n - 1);
      if 2 * |streams[n - 1]| > before then 2 * |streams[n - 1]| else before
  }

  lemma MarkCosts(streams: seq<seq<Rec>>, size: nat, len: nat, n: Merge, mark: Mark, d: nat)
    requires StreamsOk(streams, size) && MarkOk(streams, mark) && AtMost(streams, len) && Shaped(n)
    requires mark.pid in n.list && n.c.pos[mark.pid] == mark.at && !n.c.half[mark.pid]
    requires Dist(size, streams[mark.pid][mark.at]) <= d
    ensures CpuPot(streams, size, len, n, mark.pid) <= Times(len, Pot(len, d))
  {
    var s := streams[mark.pid];
    assert Seg(s, size, len, mark.at) == Left(s[mark.at], false, size, len) + Seg(s, size, len, mark.at + 1);
    SegOfMark(streams, size, len, mark, d);
  }

  /** Starting a cpu adds at most what its records cost; one that never started had that set aside. */
  lemma BeginCosts(streams: seq<seq<Rec>>, size: nat, len: nat, m: Merge, mark: Mark, d: nat)
    requires Core(streams, size, m) && MarkOk(streams, mark) && mark.pid !in m.list && AtMost(streams, len)
    requires Dist(size, streams[mark.pid][mark.at]) <= d && Shaped(Begin(streams, m, mark))
    ensures var more := if m.c.started[mark.pid] then Times(len, Pot(len, d)) else 0;
      Total(streams, size, len, Begin(streams, m, mark), MAX_CPUS) <= Total(streams, size, len, m, MAX_CPUS) + more
  {
    var n := Begin(streams, m, mark);
    BeginOnward(streams, size, m, mark);
    MarkCosts(streams, size, len, n, mark, if m.c.started[mark.pid] then d else size);
    forall q | 0 <= q < MAX_CPUS && q != mark.pid
      ensures CpuPot(streams, size, len, n, q) == CpuPot(streams, size, len, m, q)
    {
      SamePot(streams, size, len, m, n, q);
    }
    TotalChange(streams, size, len, m, n, MAX_CPUS, mark.pid);
  }

  lemma SamePot(streams: seq<seq<Rec>>, size: nat, len: nat, m: Merge, n: Merge, q: nat)
    requires Shaped(m) && Shaped(n) && q < MAX_CPUS == |streams| && (q in n.list <==> q in m.list)
    requires n.c.pos[q] == m.c.pos[q] && n.c.half[q] == m.c.half[q] && n.c.started[q] == m.c.started[q]
    ensures CpuPot(streams, size, len, n, q) == CpuPot(streams, size, len, m, q)
  {
  }

  lemma CpuSaves(streams: seq<seq<Rec>>, size: nat, len: nat, m: Merge, p: nat, n: Merge)
    requires Shaped(m) && Shaped(n) && p in m.list && p < MAX_CPUS == |streams| && m.c.pos[p] < |streams[p]|
    requires n.c == NextCpus(streams, m.c, p) && n.c.started[p] && (m.c.half[p] ==> streams[p][m.c.pos[p]].lost.Some?)
    requires p in n.list <==> GoesOn(streams, m.c, p)
    ensures CpuPot(streams, size, len, n, p) + Pot(len, Dist(size, streams[p][m.c.pos[p]]))
         == CpuPot(streams, size, len, m, p)
  {
    var s, pos := streams[p], m.c.pos[p];
    if !Stays(streams, m.c, p) && pos + 1 < |s| {
      assert Seg(s, size, len, pos + 1) == Left(s[pos + 1], false, size, len) + Seg(s, size, len, pos + 2);
    }
  }

  lemma AdvanceSaves(streams: seq<seq<Rec>>, size: nat, len: nat, m: Merge, p: nat, o: Out)
    requires Core(streams, size, m) && p in m.list && Shaped(Advanced(streams, m, p, o)) && m.c.pos[p] < |streams[p]|
    ensures Total(streams, size, len, Advanced(streams, m, p, o), MAX_CPUS)
            + Pot(len, Dist(size, streams[p][m.c.pos[p]]))
         == Total(streams, size, len, m, MAX_CPUS)
  {
    assert CpuOk(streams, m, p);
    AdvancedShaped(streams, m, p, o);
    var n := Advanced(streams, m, p, o);
    CpuSaves(streams, size, len, m, p, n);
    forall q | 0 <= q < MAX_CPUS && q != p
      ensures CpuPot(streams, size, len, n, q) == CpuPot(streams, size, len, m, q)
    {
      SamePot(streams, size, len, m, n, q);
    }
    TotalChange(streams, size, len, m, n, MAX_CPUS, p);
  }

  lemma ChangeCosts(streams: seq<seq<Rec>>, size: nat, len: nat, m: Merge, r: Rec)
    requires Core(streams, size, m) && RecOk(streams, size, r) && AtMost(streams, len)
    requires Shaped(AfterChange(streams, size, m, r))
    ensures Total(streams, size, len, AfterChange(streams, size, m, r), MAX_CPUS)
            <= Total(streams, size, len, m, MAX_CPUS)
  {
    if StartsOnChange(m, r) {
      assert CpuOk(streams, m, r.change.value.pid);
      BeginCosts(streams, size, len, m, r.change.value, size);
    }
  }

  /** The scan starts a cpu only further on in the file, so its records cost less than the one at hand. */
  lemma ScanCosts(streams: seq<seq<Rec>>, size: nat, len: nat, m: Merge, p: nat, r: Rec)
    requires Core(streams, size, m) && RecOk(streams, size, r) && AtMost(streams, len)
    requires Shaped(AfterScan(streams, size, m, p, r))
    ensures Total(streams, size, len, AfterScan(streams, size, m, p, r), MAX_CPUS)
         <= Total(streams, size, len, m, MAX_CPUS) + Times(len, Pot(len, Dist(size, r) - 1))
  {
    if StartsOnScan(m, p, r) {
      BeginCosts(streams, size, len, m, r.scan.value, Dist(size, r) - 1);
    }
  }

  /** A round costs something, although it may start a cpu again. */
  lemma RoundCosts(streams: seq<seq<Rec>>, size: nat, len: nat, m: Merge)
    requires Core(streams, size, m) && m.list != [] && AtMost(streams, len) && Shaped(Round(streams, size, m))
    ensures Total(streams, size, len, Round(streams, size, m), MAX_CPUS) < Total(streams, size, len, m, MAX_CPUS)
  {
    var p, r, m1, m2, o := RoundParts(streams, size, m);
    ChangeCosts(streams, size, len, m, r);
    ScanCosts(streams, size, len, m1, p, r);
    AdvanceSaves(streams, size, len, m2, p, o);
  }
}
