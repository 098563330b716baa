/**
  Random access to a trace file through a handful of mapped windows: xenalyze's
  mread. Windows are aligned, found by a scan, and replaced by a clock with one
  reference bit each.
 */
module Mread {

  const MREAD_MAPS: nat := 8
  const MREAD_BUF_SIZE: nat := 0x20_0000

  /** A slot of the window table; the buffer is what mmap shows of the file. */
  datatype Slot = Slot(mapped: bool, buffer: seq<bv8>, start: nat, accessed: bool)

  function Window(offset: nat): (start: nat)
    ensures start <= offset < start + MREAD_BUF_SIZE
  {
    offset - offset % MREAD_BUF_SIZE
  }

  /** What a mapping at start shows: the file from there, up to a window or the end. */
  function Shown(file: seq<bv8>, start: nat): (b: seq<bv8>)
    requires start <= |file|
  {
    file[start..if start + MREAD_BUF_SIZE <= |file| then start + MREAD_BUF_SIZE else |file|]
  }

  /** Bytes of a window are the bytes of the file at its place. */
  lemma ShownIsFile(file: seq<bv8>, start: nat, from: nat, n: nat)
    requires start <= |file| && from + n <= MREAD_BUF_SIZE && start + from + n <= |file|
    ensures Shown(file, start)[from..from + n] == file[start + from..start + from + n]
  {
    var b := Shown(file, start);
    assert forall i :: 0 <= i < |b| ==> b[i] == file[start + i];
    var x, y := b[from..from + n], file[start + from..start + from + n];
    assert forall i :: 0 <= i < n ==> x[i] == y[i];
  }

  /** Two reads that meet are one read. */
  lemma Adjacent(file: seq<bv8>, offset: nat, n: nat, m: nat)
    requires offset + n + m <= |file|
    ensures file[offset..offset + n] + file[offset + n..offset + n + m] == file[offset..offset + n + m]
  {
  }

  predicate SlotOk(file: seq<bv8>, s: Slot) {
    s.mapped ==> s.start <= |file| && s.start == Window(s.start) && s.buffer == Shown(file, s.start)
  }

  predicate NoTwins(s: Slot, t: Slot) {
    s.mapped && t.mapped ==> s.start != t.start
  }

  predicate WindowsOk(file: seq<bv8>, maps: seq<Slot>) {
    && |maps| == MREAD_MAPS
    && (forall k :: 0 <= k < |maps| ==> SlotOk(file, maps[k]))
    && (forall j, k :: 0 <= j < k < |maps| ==> NoTwins(maps[j], maps[k]))
  }

  predicate Holds(s: Slot, offset: nat) {
    s.mapped && s.start == Window(offset)
  }

  predicate SameWindow(s: Slot, t: Slot) {
    s.mapped == t.mapped && s.start == t.start && s.buffer == t.buffer
  }

  // ----- Replacement -----

  /** Whether the clock stops at a slot. */
  predicate Replaceable(s: Slot) {
    !s.mapped || !s.accessed
  }

  function After(clock: nat, steps: nat): (k: nat)
    ensures k < MREAD_MAPS
  {
    (clock + steps) % MREAD_MAPS
  }

  lemma AfterNext(clock: nat, steps: nat)
    ensures After(clock, steps + 1) == if After(clock, steps) + 1 >= MREAD_MAPS then 0 else After(clock, steps) + 1
  {
  }

  /** None of the first n slots after the clock would stop it. */
  predicate AllUsed(maps: seq<Slot>, clock: nat, n: nat)
    requires |maps| == MREAD_MAPS
  {
    forall t :: 1 <= t <= n ==> !Replaceable(maps[After(clock, t)])
  }

  /** The reference bits of the first n slots after the clock are clear, all else is as before. */
  predicate Swept(before: seq<Slot>, maps: seq<Slot>, clock: nat, n: nat)
    requires |before| == MREAD_MAPS
  {
    && |maps| == MREAD_MAPS
    && (forall k :: 0 <= k < |maps| ==> maps[k] == before[k] || maps[k] == before[k].(accessed := false))
    && (forall t :: 1 <= t <= n ==> !maps[After(clock, t)].accessed)
    && (forall t :: n < t <= MREAD_MAPS ==> maps[After(clock, t)] == before[After(clock, t)])
  }

  /** The slot to give up: the first after the hand that is free or not accessed, or the next if all are in use. */
  predicate Evicts(maps: seq<Slot>, clock: nat, steps: nat, k: nat) {
    && |maps| == MREAD_MAPS && 1 <= steps <= MREAD_MAPS + 1 && k == After(clock, steps)
    && AllUsed(maps, clock, steps - 1)
    && (Replaceable(maps[k]) || forall j :: 0 <= j < MREAD_MAPS ==> !Replaceable(maps[j]))
  }

  lemma AllUsedEverywhere(maps: seq<Slot>, clock: nat)
    requires |maps| == MREAD_MAPS && clock < MREAD_MAPS && AllUsed(maps, clock, MREAD_MAPS)
    ensures forall k :: 0 <= k < MREAD_MAPS ==> !Replaceable(maps[k])
  {
    forall k | 0 <= k < MREAD_MAPS ensures !Replaceable(maps[k]) {
      var t := if clock < k then k - clock else k + MREAD_MAPS - clock;
      assert After(clock, t) == k;
    }
  }

  /** Sweeping changes no window. */
  lemma SweptWindows(file: seq<bv8>, before: seq<Slot>, maps: seq<Slot>, clock: nat, n: nat)
    requires WindowsOk(file, before) && Swept(before, maps, clock, n)
    ensures WindowsOk(file, maps)
  {
  }

  /** Mapping a window nobody holds keeps the table in order. */
  lemma MappedWindows(file: seq<bv8>, maps: seq<Slot>, k: nat, offset: nat)
    requires WindowsOk(file, maps) && k < |maps| && offset <= |file|
    requires forall j :: 0 <= j < |maps| ==> !Holds(maps[j], offset)
    ensures WindowsOk(file, maps[k := Slot(true, Shown(file, Window(offset)), Window(offset), true)])
  {
    var start := Window(offset);
    var s := Slot(true, Shown(file, start), start, true);
    assert SlotOk(file, s);
    var maps' := maps[k := s];
    forall j | 0 <= j < |maps| && j != k ensures NoTwins(maps[j], s) {
      assert !Holds(maps[j], offset);
    }
  }

  class Handle {
    const file: seq<bv8>
    const maps: array<Slot>
    var clock: nat
    var last: nat

    ghost predicate Valid()
      reads this, maps
    {
      WindowsOk(file, maps[..]) && clock < MREAD_MAPS && last < MREAD_MAPS
    }

    constructor (file: seq<bv8>)
      ensures Valid() && this.file == file && fresh(maps) && clock == last == 0
      ensures forall k :: 0 <= k < MREAD_MAPS ==> !maps[k].mapped
    {
      this.file := file;
      maps := new Slot[MREAD_MAPS](_ => Slot(false, [], 0, false));
      clock, last := 0, 0;
    }

    /**
      Advances the clock to the slot to replace: the first one after the hand
      that is free or not accessed since the hand last passed, or the very next
      one if there is none. Reference bits passed over are cleared.
     */
    method Tick() returns (ghost steps: nat)
      requires Valid()
      modifies maps, this`clock
      ensures Valid() && 1 <= steps <= MREAD_MAPS + 1 && clock == After(old(clock), steps)
      ensures AllUsed(old(maps[..]), old(clock), steps - 1)
      ensures Replaceable(old(maps[..])[clock]) || forall k :: 0 <= k < MREAD_MAPS ==> !Replaceable(old(maps[..])[k])
      ensures Swept(old(maps[..]), maps[..], old(clock), steps - 1)
    {
      ghost var before, c0 := maps[..], clock;
      steps := 0;
      while true
        invariant 0 <= steps <= MREAD_MAPS && clock == After(c0, steps)
        invariant AllUsed(before, c0, steps) && Swept(before, maps[..], c0, steps)
        decreases MREAD_MAPS - steps
      {
        AfterNext(c0, steps);
        clock := clock + 1;
        if clock >= MREAD_MAPS {
          clock := 0;
        }
        steps := steps + 1;
        if !maps[clock].mapped {
          break;
        }
        if !maps[clock].accessed {
          break;
        }
        SweepOne(before, maps[..], c0, steps);
        maps[clock] := maps[clock].(accessed := false);
      }
      SweptWindows(file, before, maps[..], c0, steps - 1);
      if steps == MREAD_MAPS + 1 {
        AllUsedEverywhere(before, c0);
      }
    }

    /**
      Finds the slot whose window holds the offset, or makes the one at which the
      clock stops hold it. Only a window that is found keeps the hand where it is.
     */
    method Locate(offset: nat) returns (bind: nat, ghost steps: nat)
      requires Valid() && offset <= |file|
      modifies maps, this`clock, this`last
      ensures Valid() && bind == last < MREAD_MAPS && Holds(maps[bind], offset) && maps[bind].accessed
      ensures forall k :: 0 <= k < MREAD_MAPS && k != bind ==> SameWindow(maps[k], old(maps[..])[k])
      ensures Holds(old(maps[..])[bind], offset) || forall k :: 0 <= k < MREAD_MAPS ==> !Holds(old(maps[..])[k], offset)
      ensures Holds(old(maps[..])[bind], offset) ==> clock == old(clock)
      ensures Holds(old(maps[..])[bind], offset) ==>
                maps[..] == old(maps[..])[bind := old(maps[..])[bind].(accessed := true)]
      ensures !Holds(old(maps[..])[bind], offset) ==> Evicts(old(maps[..]), old(clock), steps, bind) && clock == bind
    {
      steps := 0;
      if maps[last].mapped && Window(offset) == maps[last].start {
        bind := last;
      } else {
        bind := Scan(offset);
        if bind == MREAD_MAPS {
          ghost var before := maps[..];
          steps := Tick();
          forall j | 0 <= j < MREAD_MAPS ensures !Holds(maps[j], offset) {
            assert !Holds(before[j], offset);
            assert maps[..][j] == before[j] || maps[..][j] == before[j].(accessed := false);
          }
          MappedWindows(file, maps[..], clock, offset);
          ghost var swept := maps[..];
          maps[clock] := Slot(true, Shown(file, Window(offset)), Window(offset), true);
          assert maps[..] == swept[clock := maps[clock]];
          bind := clock;
        }
        last := bind;
      }
      Touch(bind);
    }

    method Scan(offset: nat) returns (bind: nat)
      requires Valid()
      ensures bind <= MREAD_MAPS && (bind < MREAD_MAPS ==> Holds(maps[bind], offset))
      ensures bind == MREAD_MAPS ==> forall j :: 0 <= j < MREAD_MAPS ==> !Holds(maps[j], offset)
    {
      bind := 0;
      while bind < MREAD_MAPS && !(maps[bind].mapped && Window(offset) == maps[bind].start)
        invariant bind <= MREAD_MAPS && forall j :: 0 <= j < bind ==> !Holds(maps[j], offset)
      {
        bind := bind + 1;
      }
    }

    method Touch(bind: nat)
      requires Valid() && bind < MREAD_MAPS
      modifies maps
      ensures Valid() && maps[..] == old(maps[..])[bind := old(maps[bind]).(accessed := true)]
    {
      ghost var before := maps[..];
      maps[bind] := maps[bind].(accessed := true);
      assert maps[..] == before[bind := before[bind].(accessed := true)];
    }

    /** Reads like pread: the bytes of the file from offset, as many as there are up to len. */
    method Read(len: nat, offset: nat) returns (n: nat, rec: seq<bv8>)
      requires Valid()
      modifies maps, this`clock, this`last
      ensures Valid()
      ensures n == if offset > |file| then 0 else if offset + len > |file| then |file| - offset else len
      ensures offset <= |file| ==> rec == file[offset..offset + n]
      ensures offset > |file| ==> rec == []
      decreases len
    {
      if offset > |file| {
        return 0, [];
      }
      n := if offset + len > |file| then |file| - offset else len;
      var bind, steps := Locate(offset);
      var boffset := offset - maps[bind].start;
      var bsize := if boffset + n > MREAD_BUF_SIZE then MREAD_BUF_SIZE - boffset else n;
      ShownIsFile(file, maps[bind].start, boffset, bsize);
      assert SlotOk(file, maps[..][bind]);
      rec := maps[bind].buffer[boffset..boffset + bsize];
      if n > bsize {
        var m, more := Read(n - bsize, offset + bsize);
        rec := rec + more;
        Adjacent(file, offset, bsize, m);
      }
    }
  }

  /** The hand meets every slot once in a round. */
  lemma MeetsOnce(clock: nat, s: nat, t: nat)
    requires 1 <= s <= MREAD_MAPS && 1 <= t <= MREAD_MAPS && s != t
    ensures After(clock, s) != After(clock, t)
  {
  }

  lemma RoundRepeats(clock: nat)
    ensures After(clock, MREAD_MAPS + 1) == After(clock, 1)
  {
  }

  /** Clearing one more bit extends the sweep. */
  lemma SweepOne(before: seq<Slot>, maps: seq<Slot>, clock: nat, steps: nat)
    requires |before| == MREAD_MAPS && 1 <= steps <= MREAD_MAPS + 1
    requires AllUsed(before, clock, steps - 1) && Swept(before, maps, clock, steps - 1)
    requires !Replaceable(maps[After(clock, steps)])
    ensures steps <= MREAD_MAPS && AllUsed(before, clock, steps)
    ensures Swept(before, maps[After(clock, steps) := maps[After(clock, steps)].(accessed := false)], clock, steps)
  {
    var k := After(clock, steps);
    RoundRepeats(clock);
    assert steps <= MREAD_MAPS;
    var maps' := maps[k := maps[k].(accessed := false)];
    forall t | 1 <= t <= MREAD_MAPS && t != steps ensures After(clock, t) != k {
      MeetsOnce(clock, steps, t);
    }
  }
}
