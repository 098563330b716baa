/**
  xenalyze's main loop over its own data: the order, the cpus' positions and
  time stamps, their active flags and the highest active cpu. Each method does
  to this data what the merge on values says.
 */
module RecordAnalysis {
  import opened Common
  import opened RecordOrder
  import opened RecordMerge
  import opened RecordStarts

  /** The active flags are those of the cpus in the order, and top is the highest of them, or -1. */
  predicate FlagsOk(list: seq<nat>, active: seq<bool>, top: int) {
    && |active| == MAX_CPUS && (forall q :: 0 <= q < MAX_CPUS ==> (active[q] <==> q in list))
    && -1 <= top < MAX_CPUS && (top >= 0 ==> active[top]) && (forall q :: top < q < MAX_CPUS ==> !active[q])
  }

  /** The guard of the scan, and the test whether a cpu is the highest, in terms of the order. */
  lemma FlagsDecide(list: seq<nat>, active: seq<bool>, top: int, p: nat, q: nat)
    requires FlagsOk(list, active, top) && Pids(list, MAX_CPUS) && p in list && q < MAX_CPUS
    ensures p == top <==> forall x :: x in list ==> x <= p
    ensures (q > top || !active[q]) <==> q !in list
  {
    assert active[p];
    if p != top {
      assert top in list;
    }
  }

  /** An active cpu has a record in hand. */
  lemma InHand(streams: seq<seq<Rec>>, size: nat, m: Merge, p: nat)
    requires Core(streams, size, m) && p in m.list
    ensures m.c.pos[p] < |streams[p]|
  {
    assert CpuOk(streams, m, p);
  }

  class Analysis {
    const streams: seq<seq<Rec>>
    const size: nat
    const order: Order
    var cpus: Cpus
    var active: seq<bool>
    var top: int
    ghost var begun: seq<seq<nat>>
    ghost var out: seq<Out>

    ghost function View(): (m: Merge)
      reads this, order
    {
      Merge(cpus, order.list, begun, out)
    }

    ghost predicate Built()
      reads this, order, order.slots
    {
      order.Valid() && FlagsOk(order.list, active, top) && Core(streams, size, View())
    }

    ghost predicate Valid()
      reads this, order, order.slots
    {
      Built() && Behind(View())
    }

    constructor (streams: seq<seq<Rec>>, size: nat)
      requires StreamsOk(streams, size)
      ensures Valid() && fresh(order) && fresh(order.slots) && this.streams == streams && this.size == size
      ensures View() == Empty()
    {
      this.streams, this.size := streams, size;
      order := new Order();
      cpus := Cpus(seq(MAX_CPUS, _ => 0), seq(MAX_CPUS, _ => 0), seq(MAX_CPUS, _ => false), seq(MAX_CPUS, _ => false));
      active, top := seq(MAX_CPUS, _ => false), -1;
      begun, out := seq(MAX_CPUS, _ => []), [];
    }

    /** Puts a cpu in the order and keeps the flags. */
    method Join(q: nat)
      requires order.Valid() && CpusOk(cpus) && FlagsOk(order.list, active, top) && q < MAX_CPUS && q !in order.list
      modifies this`active, this`top, order, order.slots
      ensures order.Valid() && FlagsOk(order.list, active, top) && order.list == Joined(old(order.list), cpus.tsc, q)
    {
      ghost var list := order.list;
      active := active[q := true];
      var i := order.Insert(cpus.tsc, q);
      InsertedMembers(list, i, q);
      if q > top {
        top := q;
      }
    }

    /** Activates the cpu of a window, at that window. */
    method Activate(mark: Mark)
      requires Built() && MarkOk(streams, mark) && mark.pid !in order.list
      modifies this`cpus, this`active, this`top, this`begun, order, order.slots
      ensures Built() && View() == Begin(streams, old(View()), mark)
    {
      var q := mark.pid;
      BeginOk(streams, size, View(), mark);
      cpus := Cpus(Stamp(cpus.tsc, q, streams[q][mark.at]), cpus.pos[q := mark.at],
                   cpus.half[q := false], cpus.started[q := true]);
      begun := begun[q := begun[q] + [mark.at]];
      Join(q);
    }

    /** Part of process_cpu_change: a cpu that never was active is activated at the window come across. */
    method OnChange(r: Rec)
      requires Built() && RecOk(streams, size, r)
      modifies this`cpus, this`active, this`top, this`begun, order, order.slots
      ensures Built() && View() == AfterChange(streams, size, old(View()), r)
    {
      if r.change.Some? && !cpus.started[r.change.value.pid] {
        assert CpuOk(streams, View(), r.change.value.pid);
        Activate(r.change.value);
      }
    }

    /** scan_for_new_pcpu, called for the highest active cpu. */
    method OnScan(p: nat, r: Rec)
      requires Built() && RecOk(streams, size, r) && p in order.list
      modifies this`cpus, this`active, this`top, this`begun, order, order.slots
      ensures Built() && View() == AfterScan(streams, size, old(View()), p, r)
    {
      if r.scan.Some? {
        var mark := r.scan.value;
        FlagsDecide(order.list, active, top, p, mark.pid);
        if p == top {
          if mark.pid > top || !active[mark.pid] {
            Activate(mark);
          }
        }
      }
    }

    /** deactivate_pcpu: takes the cpu out of the order and finds the highest of the others if need be. */
    method Deactivate(p: nat)
      requires order.Valid() && CpusOk(cpus) && FlagsOk(order.list, active, top) && p in order.list
      modifies this`active, this`top, order, order.slots
      ensures order.Valid() && FlagsOk(order.list, active, top)
      ensures order.list == Gone(old(order.list), p)
    {
      ghost var list := order.list;
      active := active[p := false];
      var k := order.Remove(cpus.tsc, p);
      RemovedMembers(list, k);
      if p == top {
        var i, highest := 0, -1;
        while i <= top
          invariant 0 <= i <= top + 1 && -1 <= highest < i && (highest >= 0 ==> active[highest])
          invariant forall q :: highest < q < i ==> !active[q]
        {
          if active[i] {
            highest := i;
          }
          i := i + 1;
        }
        top := highest;
      }
    }

    /** A record of lost records is kept in hand for its second pass, at the time it was written. */
    method PassAgain(p: nat, lost: nat)
      requires order.Valid() && CpusOk(cpus) && FlagsOk(order.list, active, top) && p in order.list
      requires |streams| == MAX_CPUS && Stays(streams, cpus, p) && streams[p][cpus.pos[p]].lost == Some(lost)
      modifies this`cpus, order, order.slots
      ensures order.Valid() && FlagsOk(order.list, active, top)
      ensures cpus == NextCpus(streams, old(cpus), p)
      ensures order.list == Moved(old(order.list), cpus.tsc, p)
    {
      cpus := cpus.(half := cpus.half[p := true]);
      if lost > cpus.tsc[p] {
        cpus := cpus.(tsc := cpus.tsc[p := lost]);
      }
      Reorder(p);
    }

    /** Moves p to its place in the order. */
    method Reorder(p: nat)
      requires order.Valid() && CpusOk(cpus) && FlagsOk(order.list, active, top) && p in order.list
      modifies order, order.slots
      ensures order.Valid() && FlagsOk(order.list, active, top)
      ensures order.list == Moved(old(order.list), cpus.tsc, p)
    {
      ghost var list := order.list;
      var k, j := order.Bubble(cpus.tsc, p, 0);
      BubbledMembers(list, k, j);
    }

    /** Takes the next record of p in hand and moves p to its place in the order. */
    method ReadNext(p: nat, next: nat)
      requires order.Valid() && CpusOk(cpus) && FlagsOk(order.list, active, top) && p in order.list
      requires |streams| == MAX_CPUS && next == cpus.pos[p] + 1 < |streams[p]| && !Stays(streams, cpus, p)
      modifies this`cpus, order, order.slots
      ensures order.Valid() && FlagsOk(order.list, active, top)
      ensures cpus == NextCpus(streams, old(cpus), p)
      ensures order.list == Moved(old(order.list), cpus.tsc, p)
    {
      cpus := cpus.(tsc := Stamp(cpus.tsc, p, streams[p][next]), pos := cpus.pos[p := next],
                    half := cpus.half[p := false]);
      Reorder(p);
    }

    /** Deactivates p past its last record. */
    method ReadEnd(p: nat, next: nat)
      requires order.Valid() && CpusOk(cpus) && FlagsOk(order.list, active, top) && p in order.list
      requires |streams| == MAX_CPUS && next == cpus.pos[p] + 1 >= |streams[p]| && !Stays(streams, cpus, p)
      modifies this`cpus, this`active, this`top, order, order.slots
      ensures order.Valid() && FlagsOk(order.list, active, top)
      ensures cpus == NextCpus(streams, old(cpus), p) && order.list == Gone(old(order.list), p)
    {
      cpus := cpus.(pos := cpus.pos[p := next], half := cpus.half[p := false]);
      Deactivate(p);
    }

    /** Goes on to the second pass, to the next record, or at the end of the file out of the order. */
    method MoveOn(p: nat)
      requires order.Valid() && CpusOk(cpus) && FlagsOk(order.list, active, top) && p in order.list
      requires |streams| == MAX_CPUS && cpus.pos[p] < |streams[p]|
      modifies this`cpus, this`active, this`top, order, order.slots
      ensures order.Valid() && FlagsOk(order.list, active, top) && cpus == NextCpus(streams, old(cpus), p)
      ensures order.list == if GoesOn(streams, old(cpus), p) then Moved(old(order.list), cpus.tsc, p)
                            else Gone(old(order.list), p)
    {
      var r, next := streams[p][cpus.pos[p]], cpus.pos[p] + 1;
      if r.lost.Some? && !cpus.half[p] {
        PassAgain(p, r.lost.value);
      } else if next < |streams[p]| {
        ReadNext(p, next);
      } else {
        ReadEnd(p, next);
      }
    }

    method Advance(p: nat, ghost o: Out)
      requires Built() && p in order.list && IsOf(View(), p, o) && SortedOnce(out + [o])
      modifies this, order, order.slots
      ensures Built() && View() == Advanced(streams, old(View()), p, o)
    {
      ghost var m := View();
      ghost var n := Advanced(streams, m, p, o);
      InHand(streams, size, m, p);
      AdvanceOk(streams, size, m, p, o);
      assert n.out == m.out + [o] && n.begun == m.begun && n.c == NextCpus(streams, m.c, p);
      MoveOn(p);
      out := out + [o];
      assert order.list == n.list;
    }

    /** One iteration of the loop in process_records, for the cpu chosen. */
    method ProcessOne(p: nat)
      requires Valid() && order.list != [] && p == order.list[0]
      modifies this, order, order.slots
      ensures Valid() && View() == Round(streams, size, old(View()))
    {
      ghost var m := View();
      ghost var p', r', m1, m2, o := RoundParts(streams, size, m);
      RoundOk(streams, size, m);
      assert CpuOk(streams, m, p);
      SortedOneMore(m, o);
      var r := streams[p][cpus.pos[p]];
      OnChange(r);
      OnScan(p, r);
      Advance(p, o);
    }

    /**
      Makes every pass over the records of every cpu from where it was started to
      the end, for each time it was started: that is k rounds. A cpu is started
      exactly if one of its windows is come across, and no pass is made twice
      exactly for the cpus that the scan never started another time; apart from
      the others time never goes back except where a cpu starts.
     */
    method ProcessRecords() returns (ghost k: nat)
      requires Valid()
      modifies this, order, order.slots
      ensures Valid() && order.list == [] && SortedOnce(out)
      ensures Ok(streams, size, old(View())) && View() == Rounds(streams, size, old(View()), k)
      ensures forall q :: 0 <= q < MAX_CPUS ==> Done(streams, size, old(View()), k, q)
    {
      ghost var len, m := Longest(streams, |streams|), View();
      k := 0;
      var p := order.ChooseNext(cpus.tsc, Again(View()));
      while p != NULL
        invariant Valid() && (p == NULL <==> order.list == []) && (p != NULL ==> 0 <= p && p == order.list[0])
        invariant View() == Rounds(streams, size, m, k)
        decreases Total(streams, size, len, View(), MAX_CPUS)
      {
        RoundOk(streams, size, View());
        RoundCosts(streams, size, len, View());
        RoundsOneMore(streams, size, m, k);
        ProcessOne(p);
        k := k + 1;
        p := order.ChooseNext(cpus.tsc, Again(View()));
      }
      forall q | 0 <= q < MAX_CPUS ensures Done(streams, size, m, k, q) {
        ThroughIsDone(streams, size, m, k, q);
      }
    }
  }
}
