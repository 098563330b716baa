/**
  When xenalyze starts a cpu, over whole runs: for the first time exactly when
  one of its windows is come across, and another time exactly when the scan ahead
  finds one after the cpu has ended. So every cpu whose window is come across has
  its records processed from there on, and each once unless it was started again.
 */
module RecordStarts {
  import opened Common
  import opened RecordOrder
  import opened RecordMerge

  // ----- One round -----

  /** The record in hand of the cpu whose turn it is. */
  function Hand(streams: seq<seq<Rec>>, size: nat, m: Merge): (r: Rec)
    requires Core(streams, size, m) && m.list != []
  {
    var p := m.list[0];
    assert CpuOk(streams, m, p);
    streams[p][m.c.pos[p]]
  }

  /** The record opens a window of q. */
  predicate Meets(r: Rec, q: nat) {
    r.change.Some? && r.change.value.pid == q
  }

  /** It opens a window of the highest active cpu, and the window after that is q's. */
  predicate Finds(list: seq<nat>, r: Rec, q: nat) {
    list != [] && (forall x :: x in list ==> x <= list[0]) && r.scan.Some? && r.scan.value.pid == q
  }

  /** The starts of q after the record has been processed: at the window met or found, if there is one. */
  function StartsBy(b: seq<nat>, list: seq<nat>, r: Rec, q: nat): (b': seq<nat>) {
    if b == [] then
      if Meets(r, q) then [r.change.value.at] else if Finds(list, r, q) then [r.scan.value.at] else []
    else
      if q !in list && Finds(list, r, q) then b + [r.scan.value.at] else b
  }

  /** A record that has a scan opens a window of its own cpu, which is active, and so starts nobody else. */
  lemma ChangeStarts(streams: seq<seq<Rec>>, size: nat, m: Merge, p: nat, r: Rec, m1: Merge, q: nat)
    requires Core(streams, size, m) && RecOk(streams, size, r) && q < MAX_CPUS && p in m.list && m.c.started[p]
    requires ScansOwn(r, p) && m1 == AfterChange(streams, size, m, r) && Shaped(m1)
    ensures r.scan.Some? ==> m1 == m
    ensures m1.begun[q] == if m.begun[q] == [] && Meets(r, q) then [r.change.value.at] else m.begun[q]
  {
    assert CpuOk(streams, m, q);
  }

  lemma ScanStarts(streams: seq<seq<Rec>>, size: nat, m1: Merge, p: nat, r: Rec, m2: Merge, q: nat)
    requires Shaped(m1) && |streams| == MAX_CPUS && RecOk(streams, size, r) && q < MAX_CPUS
    requires m2 == AfterScan(streams, size, m1, p, r)
    ensures |m2.begun| == MAX_CPUS
    ensures m2.begun[q] == if StartsOnScan(m1, p, r) && r.scan.value.pid == q then m1.begun[q] + [r.scan.value.at]
                           else m1.begun[q]
  {
  }

  /** Both together. */
  lemma BothStart(b: seq<nat>, b1: seq<nat>, b2: seq<nat>, list: seq<nat>, r: Rec, q: nat, again: bool)
    requires list != [] && (b == [] ==> q !in list) && ScansOwn(r, list[0])
    requires b1 == if b == [] && Meets(r, q) then [r.change.value.at] else b
    requires again <==> q !in list && Finds(list, r, q)
    requires b2 == if again then b1 + [r.scan.value.at] else b1
    ensures b2 == StartsBy(b, list, r, q)
  {
    assert again ==> r.change.value.pid != q;
    assert [] + [if r.scan.Some? then r.scan.value.at else 0] == [if r.scan.Some? then r.scan.value.at else 0];
  }

  /** A round starts a cpu exactly then, and at that window. */
  lemma StartsExactly(streams: seq<seq<Rec>>, size: nat, m: Merge, q: nat)
    requires Core(streams, size, m) && m.list != [] && q < MAX_CPUS
    ensures |Round(streams, size, m).begun| == MAX_CPUS
    ensures Round(streams, size, m).begun[q] == StartsBy(m.begun[q], m.list, Hand(streams, size, m), q)
  {
    var p, r, m1, m2, o := RoundParts(streams, size, m);
    ChangeStarts(streams, size, m, p, r, m1, q);
    ScanStarts(streams, size, m1, p, r, m2, q);
    assert CpuOk(streams, m, q);
    var again := StartsOnScan(m1, p, r) && r.scan.value.pid == q;
    assert again <==> q !in m.list && Finds(m.list, r, q);
    BothStart(m.begun[q], m1.begun[q], m2.begun[q], m.list, r, q, again);
    var n, hand := Round(streams, size, m), Hand(streams, size, m);
    assert n.begun == m2.begun && hand == r;
  }

  // ----- Whole runs -----

  /** Round i from m comes across a window of q. */
  predicate AnnouncedAt(streams: seq<seq<Rec>>, size: nat, m: Merge, i: nat, q: nat)
    requires Ok(streams, size, m)
  {
    var n := Rounds(streams, size, m, i);
    n.list != [] && (Meets(Hand(streams, size, n), q) || Finds(n.list, Hand(streams, size, n), q))
  }

  /** The record that opens that window. */
  function Where(streams: seq<seq<Rec>>, size: nat, m: Merge, i: nat, q: nat): (at: nat)
    requires Ok(streams, size, m) && AnnouncedAt(streams, size, m, i, q)
  {
    var r := Hand(streams, size, Rounds(streams, size, m, i));
    if Meets(r, q) then r.change.value.at else r.scan.value.at
  }

  /** No round of the first k comes across a window of q. */
  predicate NeverAnnounced(streams: seq<seq<Rec>>, size: nat, m: Merge, k: nat, q: nat)
    requires Ok(streams, size, m)
  {
    forall i :: 0 <= i < k ==> !AnnouncedAt(streams, size, m, i, q)
  }

  /** In round i from m the scan finds a window of q, which had come to its end. */
  predicate RestartsAt(streams: seq<seq<Rec>>, size: nat, m: Merge, i: nat, q: nat)
    requires Ok(streams, size, m) && q < MAX_CPUS
  {
    var n := Rounds(streams, size, m, i);
    n.list != [] && n.begun[q] != [] && q !in n.list && Finds(n.list, Hand(streams, size, n), q)
  }

  /** No round of the first k starts q another time. */
  predicate NeverRestarts(streams: seq<seq<Rec>>, size: nat, m: Merge, k: nat, q: nat)
    requires Ok(streams, size, m) && q < MAX_CPUS
  {
    forall i :: 0 <= i < k ==> !RestartsAt(streams, size, m, i, q)
  }

  /** The starts of q after i rounds. */
  ghost function Begun(streams: seq<seq<Rec>>, size: nat, m: Merge, i: nat, q: nat): (b: seq<nat>)
    requires Ok(streams, size, m) && q < MAX_CPUS
  {
    Rounds(streams, size, m, i).begun[q]
  }

  /** b' extends b by a start: for the first time if announced, at place w, or another time if found again. */
  predicate OneMore(b: seq<nat>, b': seq<nat>, announced: bool, w: nat, again: bool) {
    && (b == [] ==> b' == if announced then [w] else [])
    && (b != [] && !again ==> b' == b) && (b != [] && again ==> |b'| == |b| + 1 && b'[0] == b[0])
    && (again ==> b != [])
  }

  /** What one more round does to the starts of q. */
  lemma OneMoreStart(streams: seq<seq<Rec>>, size: nat, m: Merge, i: nat, q: nat)
    returns (b: seq<nat>, b': seq<nat>, announced: bool, w: nat, again: bool)
    requires Ok(streams, size, m) && q < MAX_CPUS
    ensures b == Begun(streams, size, m, i, q) && b' == Begun(streams, size, m, i + 1, q)
    ensures announced == AnnouncedAt(streams, size, m, i, q) && again == RestartsAt(streams, size, m, i, q)
    ensures announced ==> w == Where(streams, size, m, i, q)
    ensures OneMore(b, b', announced, w, again)
  {
    var n := Rounds(streams, size, m, i);
    b, b' := Begun(streams, size, m, i, q), Begun(streams, size, m, i + 1, q);
    announced, again := AnnouncedAt(streams, size, m, i, q), RestartsAt(streams, size, m, i, q);
    w := if announced then Where(streams, size, m, i, q) else 0;
    if n.list != [] {
      RoundsOneMore(streams, size, m, i);
      StartsExactly(streams, size, n, q);
      assert b' == StartsBy(b, n.list, Hand(streams, size, n), q);
    }
  }

  /** A cpu that had not started has done so exactly if one of its windows was come across. */
  lemma {:induction false} StartedExactly(streams: seq<seq<Rec>>, size: nat, m: Merge, k: nat, q: nat)
    requires Ok(streams, size, m) && q < MAX_CPUS && m.begun[q] == []
    ensures Begun(streams, size, m, k, q) == [] <==> NeverAnnounced(streams, size, m, k, q)
    decreases k
  {
    if k > 0 {
      StartedExactly(streams, size, m, k - 1, q);
      var b, b', announced, w, again := OneMoreStart(streams, size, m, k - 1, q);
      NotOnceMore(streams, size, m, k - 1, q);
    }
  }

  lemma NotOnceMore(streams: seq<seq<Rec>>, size: nat, m: Merge, i: nat, q: nat)
    requires Ok(streams, size, m)
    ensures NeverAnnounced(streams, size, m, i + 1, q) <==>
            NeverAnnounced(streams, size, m, i, q) && !AnnouncedAt(streams, size, m, i, q)
  {
  }

  lemma NotRestartedOnceMore(streams: seq<seq<Rec>>, size: nat, m: Merge, i: nat, q: nat)
    requires Ok(streams, size, m) && q < MAX_CPUS
    ensures NeverRestarts(streams, size, m, i + 1, q) <==>
            NeverRestarts(streams, size, m, i, q) && !RestartsAt(streams, size, m, i, q)
  {
  }

  /** After i rounds q has started, the first time at the given window. */
  ghost predicate FirstAt(streams: seq<seq<Rec>>, size: nat, m: Merge, i: nat, q: nat, at: nat)
    requires Ok(streams, size, m) && q < MAX_CPUS
  {
    var b := Begun(streams, size, m, i, q);
    b != [] && b[0] == at
  }

  lemma FirstStays(streams: seq<seq<Rec>>, size: nat, m: Merge, i: nat, q: nat, at: nat)
    requires Ok(streams, size, m) && q < MAX_CPUS && FirstAt(streams, size, m, i, q, at)
    ensures FirstAt(streams, size, m, i + 1, q, at)
  {
    var b, b', announced, w, again := OneMoreStart(streams, size, m, i, q);
  }

  lemma {:induction false} FirstLasts(streams: seq<seq<Rec>>, size: nat, m: Merge, i: nat, k: nat, q: nat, at: nat)
    requires Ok(streams, size, m) && q < MAX_CPUS && i <= k && FirstAt(streams, size, m, i, q, at)
    ensures FirstAt(streams, size, m, k, q, at)
    decreases k - i
  {
    if i < k {
      FirstStays(streams, size, m, i, q, at);
      FirstLasts(streams, size, m, i + 1, k, q, at);
    }
  }

  /** A cpu's first start is at the window come across first. */
  lemma StartsWhereAnnounced(streams: seq<seq<Rec>>, size: nat, m: Merge, i: nat, k: nat, q: nat)
    requires Ok(streams, size, m) && q < MAX_CPUS && m.begun[q] == [] && i < k
    requires NeverAnnounced(streams, size, m, i, q) && AnnouncedAt(streams, size, m, i, q)
    ensures FirstAt(streams, size, m, k, q, Where(streams, size, m, i, q))
  {
    StartedExactly(streams, size, m, i, q);
    var b, b', announced, w, again := OneMoreStart(streams, size, m, i, q);
    FirstLasts(streams, size, m, i + 1, k, q, w);
  }

  /** A cpu has been started at most once exactly if the scan never started it another time. */
  lemma {:induction false} StartedOnceExactly(streams: seq<seq<Rec>>, size: nat, m: Merge, k: nat, q: nat)
    requires Ok(streams, size, m) && q < MAX_CPUS && |m.begun[q]| <= 1
    ensures |Begun(streams, size, m, k, q)| <= 1 <==> NeverRestarts(streams, size, m, k, q)
    decreases k
  {
    if k > 0 {
      StartedOnceExactly(streams, size, m, k - 1, q);
      var b, b', announced, w, again := OneMoreStart(streams, size, m, k - 1, q);
      NotRestartedOnceMore(streams, size, m, k - 1, q);
    }
  }

  // ----- What has been processed in the end -----

  /**
    A cpu after k rounds from m, through with its records. It has made all passes
    from where it started, for each time it did. If it had not started before, it
    has exactly if one of its windows was come across; and if it had been started
    at most once, no pass was made twice exactly if the scan never started it
    another time.
   */
  predicate Done(streams: seq<seq<Rec>>, size: nat, m: Merge, k: nat, q: nat)
    requires Ok(streams, size, m) && q < MAX_CPUS
  {
    var n := Rounds(streams, size, m, k);
    && Trace(n.out, q) == Full(streams[q], n.begun[q])
    && (m.begun[q] == [] ==> (n.begun[q] == [] <==> NeverAnnounced(streams, size, m, k, q)))
    && (|m.begun[q]| <= 1 ==> (Distinct(Trace(n.out, q)) <==> NeverRestarts(streams, size, m, k, q)))
  }

  lemma ThroughIsDone(streams: seq<seq<Rec>>, size: nat, m: Merge, k: nat, q: nat)
    requires Ok(streams, size, m) && q < MAX_CPUS && q !in Rounds(streams, size, m, k).list
    ensures Done(streams, size, m, k, q)
  {
    var n := Rounds(streams, size, m, k);
    assert CpuOk(streams, n, q);
    ThroughIsFull(streams[q], n.begun[q], n.c.pos[q]);
    RepeatedExactly(streams[q], n.begun[q]);
    if m.begun[q] == [] {
      StartedExactly(streams, size, m, k, q);
    }
    if |m.begun[q]| <= 1 {
      StartedOnceExactly(streams, size, m, k, q);
    }
  }

  lemma ThroughIsFull(s: seq<Rec>, b: seq<nat>, pos: nat)
    requires pos <= |s| && (b != [] ==> pos == |s|)
    ensures Visits(s, b, pos, false) == Full(s, b)
  {
    if b != [] {
      var last := Span(s, b[|b| - 1], |s|);
      assert last + [] == last;
    }
  }

  lemma {:induction false} SpanHas(s: seq<Rec>, a: nat, z: nat, j: nat)
    requires a <= j < z <= |s|
    ensures PassNo(j, false) in Span(s, a, z) && (s[j].lost.Some? ==> PassNo(j, true) in Span(s, a, z))
    decreases z
  {
    if j < z - 1 {
      SpanHas(s, a, z - 1, j);
    }
  }

  lemma {:induction false} FullHas(s: seq<Rec>, begun: seq<nat>, j: nat)
    requires begun != [] && begun[0] <= j < |s|
    ensures PassNo(j, false) in Full(s, begun) && (s[j].lost.Some? ==> PassNo(j, true) in Full(s, begun))
    decreases |begun|
  {
    var before := begun[..|begun| - 1];
    if before == [] {
      SpanHas(s, begun[0], |s|, j);
    } else {
      FullHas(s, before, j);
    }
  }

  /** Once a window of q is come across, every record of q from that window on is processed, lost ones twice. */
  lemma FromWindowOn(streams: seq<seq<Rec>>, size: nat, m: Merge, i: nat, k: nat, q: nat, j: nat)
    requires Ok(streams, size, m) && q < MAX_CPUS && m.begun[q] == [] && i < k
    requires NeverAnnounced(streams, size, m, i, q) && AnnouncedAt(streams, size, m, i, q)
    requires q !in Rounds(streams, size, m, k).list
    requires Where(streams, size, m, i, q) <= j < |streams[q]|
    ensures var t := Trace(Rounds(streams, size, m, k).out, q);
      PassNo(j, false) in t && (streams[q][j].lost.Some? ==> PassNo(j, true) in t)
  {
    StartsWhereAnnounced(streams, size, m, i, k, q);
    ThroughIsDone(streams, size, m, k, q);
    FullHas(streams[q], Rounds(streams, size, m, k).begun[q], j);
  }
}
