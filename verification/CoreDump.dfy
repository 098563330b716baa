/**
  The writer of domain core files in libxc. Section headers are filled in while
  the sizes of the sections become known, shifted once the number of headers is
  known, and written before the sections; the pages of the domain are copied
  out in batches, and the table beside them says which page is which.
 */
module CoreDump {
  import opened Common
  import opened ElfFormat

  const PAGE_SIZE: nat := 4096
  const UINT16_MAX: nat := 0xffff
  const UINT64_MAX: nat := 0xffff_ffff_ffff_ffff
  const DUMP_INCREMENT: nat := 4096
  const SHT_PROGBITS: nat := 1
  const SHT_STRTAB: nat := 3
  const SHT_NOTE: nat := 7

  // ----- The string table -----

  function Ascii(name: string): (b: seq<byte>) {
    seq(|name|, i requires 0 <= i < |name| => if 0 < name[i] as int < 256 then name[i] as int else 63)
  }

  /** The length of a string with its terminator, in 16 bits. */
  function Len16(name: seq<byte>): (len: nat) {
    (|name| + 1) % 0x1_0000
  }

  /** A table of null-terminated strings: what was copied into its buffer of max bytes, and the length on record. */
  class StringTable {
    var strings: seq<byte>
    var length: nat
    var max: nat

    /** The record is right, and nothing was copied past the buffer. */
    ghost predicate Valid()
      reads this
    {
      && 0 < |strings| == length <= max && max in {4096, 8192, 16384, 32768}
      && strings[0] == 0 && strings[|strings| - 1] == 0
    }

    constructor ()
      ensures Valid() && strings == [0] && max == PAGE_SIZE
    {
      strings, length, max := [0], 1, PAGE_SIZE;
    }

    /** The table has no place for the name: 16 bits would not do, or the buffer may not be doubled. */
    predicate Refuses(name: seq<byte>)
      reads this
    {
      length + Len16(name) > UINT16_MAX || (length + Len16(name) > max && max > UINT16_MAX / 2)
    }

    /**
      Appends a name and returns where it is, or 0 if the table refuses it. The
      buffer is doubled at most once, so the name stays inside exactly when it
      is no longer than what that leaves.
     */
    method Get(name: seq<byte>) returns (index: nat)
      requires Valid() && 0 !in name
      modifies this
      ensures index == 0 <==> old(Refuses(name))
      ensures index == 0 ==> strings == old(strings) && length == old(length) && max == old(max)
      ensures index != 0 ==> strings == old(strings) + name + [0] && index == |old(strings)|
      ensures index != 0 ==> (Valid() <==> |old(strings)| + |name| + 1 <= 2 * old(max))
      ensures index != 0 && Valid() ==> max == if |strings| <= old(max) then old(max) else 2 * old(max)
    {
      var len := Len16(name);
      if length > UINT16_MAX - len {
        return 0;
      }
      if length + len > max {
        if max > UINT16_MAX / 2 {
          return 0;
        }
        max := max * 2;
      }
      index := length;
      strings := strings + name + [0];
      length := length + len;
    }
  }

  lemma {:induction false} NameFrom(t: seq<byte>, i: nat, name: seq<byte>, j: nat)
    requires j <= |name| && i + |name| < |t| && 0 !in name
    requires (forall k :: 0 <= k < |name| ==> t[i + k] == name[k]) && t[i + |name|] == 0
    ensures NameAt(t, i + j) == name[j..]
    decreases |name| - j
  {
    if j < |name| {
      NameFrom(t, i, name, j + 1);
      assert t[i + j] == name[j] && name[j] in name;
      assert name[j..] == [name[j]] + name[j + 1..];
    }
  }

  /** A name is read back from where it was put, whatever is appended later. */
  lemma NameThere(strings: seq<byte>, name: seq<byte>, more: seq<byte>)
    requires 0 !in name
    ensures NameAt(strings + name + [0] + more, |strings|) == name
  {
    var t := strings + name + [0] + more;
    NameFrom(t, |strings|, name, 0);
    assert name[0..] == name;
  }

  // ----- The pages -----

  datatype Range = Range(start: nat, count: nat)

  datatype Entry = Entry(pfn: nat, gmfn: nat)

  /**
    What the dump sees of the domain. A pfn missing from p2m has no valid entry,
    or may not be present in an auto-translated domain, where a gmfn is the pfn;
    a gmfn missing from frames cannot be mapped.
   */
  datatype Domain = Domain(
    notes: seq<byte>, ctxts: seq<byte>, ctxtSize: nat, shinfo: Option<seq<byte>>, nrPages: nat,
    autoTranslated: bool, memoryMap: seq<Range>, p2m: map<nat, nat>, frames: map<nat, seq<byte>>)

  const INVALID: Entry := Entry(UINT64_MAX, UINT64_MAX)

  predicate DomainOk(d: Domain) {
    && |d.notes| < Cap(7) && |d.ctxts| < Cap(7) && d.ctxtSize < Cap(8) && d.nrPages < Cap(5)
    && (d.shinfo.Some? ==> |d.shinfo.value| == PAGE_SIZE)
    && UINT64_MAX !in d.frames && (forall g :: g in d.frames ==> |d.frames[g]| == PAGE_SIZE)
    && (forall p :: p in d.p2m ==> p <= UINT64_MAX && d.p2m[p] <= UINT64_MAX)
    && (d.autoTranslated ==> forall p :: p in d.p2m ==> d.p2m[p] == p)
  }

  predicate Dumpable(d: Domain, pfn: nat) {
    pfn in d.p2m && d.p2m[pfn] in d.frames
  }

  /** The entries with that of one more page, if it can be dumped. */
  function Plus(d: Domain, es: seq<Entry>, pfn: nat): (r: seq<Entry>) {
    if Dumpable(d, pfn) then es + [Entry(pfn, d.p2m[pfn])] else es
  }

  /** Where a walk over the memory map can be: n pfns into range m, or at the end. */
  predicate OnMap(d: Domain, m: nat, n: nat) {
    if m < |d.memoryMap| then n <= d.memoryMap[m].count else m == |d.memoryMap| && n == 0
  }

  /** The pages that can be dumped among those before that place, in the order of the map. */
  function Kept(d: Domain, m: nat, n: nat): (es: seq<Entry>)
    requires OnMap(d, m, n)
    decreases m, n
  {
    if n > 0 then Plus(d, Kept(d, m, n - 1), d.memoryMap[m].start + n - 1)
    else if m > 0 then Kept(d, m - 1, d.memoryMap[m - 1].count)
    else []
  }

  lemma KeptOneMore(d: Domain, m: nat, n: nat)
    requires m < |d.memoryMap| && n < d.memoryMap[m].count
    ensures Kept(d, m, n + 1) == Plus(d, Kept(d, m, n), d.memoryMap[m].start + n)
  {
  }

  lemma NextRange(d: Domain, m: nat)
    requires m < |d.memoryMap|
    ensures OnMap(d, m + 1, 0) && Kept(d, m + 1, 0) == Kept(d, m, d.memoryMap[m].count)
  {
  }

  /** All pages that can be dumped. */
  function AllKept(d: Domain): (es: seq<Entry>) {
    Kept(d, |d.memoryMap|, 0)
  }

  /** What was kept up to a place is the beginning of what is kept up to a later one. */
  lemma {:induction false} KeptGrows(d: Domain, m: nat, n: nat, m': nat, n': nat)
    requires OnMap(d, m, n) && OnMap(d, m', n') && (m < m' || (m == m' && n <= n'))
    ensures Kept(d, m, n) <= Kept(d, m', n')
    decreases m', n'
  {
    if m != m' || n != n' {
      if n' > 0 {
        KeptGrows(d, m, n, m', n' - 1);
      } else {
        KeptGrows(d, m, n, m' - 1, d.memoryMap[m' - 1].count);
      }
    }
  }

  function ZeroPage(): (p: seq<byte>)
    ensures |p| == PAGE_SIZE
  {
    seq(PAGE_SIZE, _ => 0)
  }

  function PageOf(d: Domain, e: Entry): (p: seq<byte>)
    requires DomainOk(d)
    ensures |p| == PAGE_SIZE
  {
    if e.gmfn in d.frames then d.frames[e.gmfn] else ZeroPage()
  }

  function PageList(d: Domain, es: seq<Entry>): (r: seq<seq<byte>>)
    requires DomainOk(d)
  {
    seq(|es|, k requires 0 <= k < |es| => PageOf(d, es[k]))
  }

  /** The pages of the entries, one after the other. */
  function PageBytes(d: Domain, es: seq<Entry>): (b: seq<byte>)
    requires DomainOk(d)
  {
    Flatten(PageList(d, es), |es|)
  }

  lemma PageBytesOneMore(d: Domain, es: seq<Entry>, e: Entry)
    requires DomainOk(d)
    ensures PageBytes(d, es + [e]) == PageBytes(d, es) + PageOf(d, e)
  {
    assert PageList(d, es + [e]) == PageList(d, es) + [PageOf(d, e)];
    FlattenOneMore(PageList(d, es), PageOf(d, e));
  }

  lemma PageBytesSize(d: Domain, es: seq<Entry>)
    requires DomainOk(d)
    ensures |PageBytes(d, es)| == 4096 * |es|
  {
    FixedOff(PageList(d, es), 4096, |es|);
  }

  /** Page k of the section is the page of entry k. */
  lemma PageAt(d: Domain, es: seq<Entry>, k: nat)
    requires DomainOk(d) && k < |es|
    ensures |PageBytes(d, es)| == 4096 * |es|
    ensures PageBytes(d, es)[4096 * k..4096 * k + 4096] == PageOf(d, es[k])
  {
    PageBytesSize(d, es);
    FixedOff(PageList(d, es), 4096, k);
    PartAt(PageList(d, es), |es|, k);
  }

  /** The entries for nr pages: those that could be dumped, cut or padded to that number. */
  predicate EntriesOk(d: Domain, es: seq<Entry>) {
    var kept := AllKept(d);
    && |es| == d.nrPages
    && forall k :: 0 <= k < |es| ==> es[k] == if k < |kept| then kept[k] else INVALID
  }

  /** The pfn is that of a page in one of the ranges. */
  predicate InMap(d: Domain, pfn: nat) {
    exists m :: 0 <= m < |d.memoryMap| && InRange(d.memoryMap[m], pfn)
  }

  predicate InRange(r: Range, pfn: nat) {
    r.start <= pfn < r.start + r.count
  }

  lemma {:induction false} KeptEntry(d: Domain, m: nat, n: nat, k: nat)
    requires OnMap(d, m, n) && k < |Kept(d, m, n)|
    ensures var e := Kept(d, m, n)[k]; InMap(d, e.pfn) && Dumpable(d, e.pfn) && e.gmfn == d.p2m[e.pfn]
    decreases m, n
  {
    if n > 0 {
      assert InRange(d.memoryMap[m], d.memoryMap[m].start + n - 1);
      if k < |Kept(d, m, n - 1)| {
        KeptEntry(d, m, n - 1, k);
      }
    } else {
      KeptEntry(d, m - 1, d.memoryMap[m - 1].count, k);
    }
  }

  /** A page of the map that can be dumped is, in the place the pages before it leave to it. */
  lemma MapPageKept(d: Domain, m: nat, n: nat)
    requires m < |d.memoryMap| && n < d.memoryMap[m].count && Dumpable(d, d.memoryMap[m].start + n)
    ensures |Kept(d, m, n)| < |AllKept(d)|
    ensures var pfn := d.memoryMap[m].start + n; AllKept(d)[|Kept(d, m, n)|] == Entry(pfn, d.p2m[pfn])
  {
    KeptOneMore(d, m, n);
    KeptGrows(d, m, n + 1, |d.memoryMap|, 0);
  }

  /** So it is in the file, unless the announced number of pages was reached before it. */
  lemma MapPageDumped(d: Domain, es: seq<Entry>, m: nat, n: nat)
    requires DomainOk(d) && EntriesOk(d, es) && m < |d.memoryMap| && n < d.memoryMap[m].count
    requires Dumpable(d, d.memoryMap[m].start + n) && |Kept(d, m, n)| < d.nrPages
    ensures var pfn, k := d.memoryMap[m].start + n, |Kept(d, m, n)|;
      && es[k] == Entry(pfn, d.p2m[pfn])
      && |PageBytes(d, es)| == 4096 * d.nrPages && PageBytes(d, es)[4096 * k..4096 * k + 4096] == d.frames[d.p2m[pfn]]
  {
    MapPageKept(d, m, n);
    PageAt(d, es, |Kept(d, m, n)|);
  }

  /** The entry of page k names its frame; a page that is missing is zero and its entry invalid. */
  lemma EntryDescribesPage(d: Domain, es: seq<Entry>, k: nat)
    requires DomainOk(d) && EntriesOk(d, es) && k < |es|
    ensures |PageBytes(d, es)| == 4096 * d.nrPages
    ensures var page := PageBytes(d, es)[4096 * k..4096 * k + 4096];
      if es[k] == INVALID then page == ZeroPage()
      else
        && InMap(d, es[k].pfn) && Dumpable(d, es[k].pfn)
        && es[k].gmfn == d.p2m[es[k].pfn] && page == d.frames[d.p2m[es[k].pfn]]
  {
    PageAt(d, es, k);
    if k < |AllKept(d)| {
      KeptEntry(d, |d.memoryMap|, 0, k);
    }
  }

  /** j pages have been copied: those of es, all but the ones still in the buffer written out. */
  ghost predicate Copying(d: Domain, table: seq<Entry>, j: nat, out: seq<byte>, buffer: seq<byte>, es: seq<Entry>)
    requires DomainOk(d)
  {
    && j == |es| <= |table| == d.nrPages && (forall k :: 0 <= k < j ==> table[k] == es[k])
    && out + buffer == PageBytes(d, es) && |buffer| == 4096 * (j % 4096)
  }

  /** One more page in the buffer, which is written out when it holds DUMP_INCREMENT pages. */
  lemma CopyOne(d: Domain, table: seq<Entry>, j: nat, out: seq<byte>, buffer: seq<byte>, es: seq<Entry>, e: Entry)
    requires DomainOk(d) && Copying(d, table, j, out, buffer, es) && j < |table| && table[j] == e
    ensures (j + 1) % DUMP_INCREMENT == 0 ==> Copying(d, table, j + 1, out + (buffer + PageOf(d, e)), [], es + [e])
    ensures (j + 1) % DUMP_INCREMENT != 0 ==> Copying(d, table, j + 1, out, buffer + PageOf(d, e), es + [e])
    ensures |buffer + PageOf(d, e)| <= 4096 * DUMP_INCREMENT
  {
    PageBytesOneMore(d, es, e);
    assert out + (buffer + PageOf(d, e)) == (out + buffer) + PageOf(d, e);
    assert out + (buffer + PageOf(d, e)) + [] == out + (buffer + PageOf(d, e));
  }

  /** The pages of range m of the memory map; full says that nr pages were reached, after n pfns of it. */
  method DumpRange(d: Domain, m: nat, table: array<Entry>, j0: nat, out0: seq<byte>, buffer0: seq<byte>,
                   ghost es0: seq<Entry>)
    returns (full: bool, j: nat, out: seq<byte>, buffer: seq<byte>, ghost es: seq<Entry>, n: nat)
    requires DomainOk(d) && Copying(d, table[..], j0, out0, buffer0, es0) && m < |d.memoryMap| && es0 == Kept(d, m, 0)
    modifies table
    ensures Copying(d, table[..], j, out, buffer, es) && n <= d.memoryMap[m].count && es == Kept(d, m, n)
    ensures if full then j == d.nrPages else n == d.memoryMap[m].count
  {
    full, j, out, buffer, es, n := false, j0, out0, buffer0, es0, 0;
    while n < d.memoryMap[m].count
      invariant n <= d.memoryMap[m].count && !full && Copying(d, table[..], j, out, buffer, es)
      invariant es == Kept(d, m, n)
    {
      if j >= d.nrPages {
        return true, j, out, buffer, es, n;
      }
      KeptOneMore(d, m, n);
      j, out, buffer, es := DumpPage(d, d.memoryMap[m].start + n, table, j, out, buffer, es);
      n := n + 1;
    }
  }

  /** One page of the domain, if it can be dumped. Its table entry is written before the page is mapped. */
  method DumpPage(d: Domain, pfn: nat, table: array<Entry>, j0: nat, out0: seq<byte>, buffer0: seq<byte>,
                  ghost es0: seq<Entry>)
    returns (j: nat, out: seq<byte>, buffer: seq<byte>, ghost es: seq<Entry>)
    requires DomainOk(d) && Copying(d, table[..], j0, out0, buffer0, es0) && j0 < d.nrPages
    modifies table
    ensures Copying(d, table[..], j, out, buffer, es)
    ensures es == Plus(d, es0, pfn)
  {
    j, out, buffer, es := j0, out0, buffer0, es0;
    if pfn !in d.p2m {
      return;
    }
    var e := Entry(pfn, d.p2m[pfn]);
    table[j] := e;
    if e.gmfn !in d.frames {
      return;
    }
    CopyOne(d, table[..], j, out, buffer, es, e);
    buffer := buffer + d.frames[e.gmfn];
    if (j + 1) % DUMP_INCREMENT == 0 {
      out := out + buffer;
      buffer := [];
    }
    es := es + [e];
    j := j + 1;
  }

  /** The loops over the memory map: all pages that can be dumped, up to the announced number. */
  method CopyPages(d: Domain, table: array<Entry>) returns (j: nat, out: seq<byte>, ghost es: seq<Entry>)
    requires DomainOk(d) && table.Length == d.nrPages
    modifies table
    ensures j == |es| <= d.nrPages && (forall k :: 0 <= k < j ==> table[k] == es[k]) && out == PageBytes(d, es)
    ensures es <= AllKept(d) && (j < d.nrPages ==> es == AllKept(d))
  {
    var buffer, full, m: nat, n := [], false, 0, 0;
    j, out, es := 0, [], [];
    while m < |d.memoryMap| && !full
      invariant m <= |d.memoryMap| && Copying(d, table[..], j, out, buffer, es)
      invariant OnMap(d, m, n) && es == Kept(d, m, n) && if full then j == d.nrPages else n == 0
      decreases |d.memoryMap| - m, !full
    {
      full, j, out, buffer, es, n := DumpRange(d, m, table, j, out, buffer, es);
      if !full {
        NextRange(d, m);
        m, n := m + 1, 0;
      }
    }
    KeptGrows(d, m, n, |d.memoryMap|, 0);
    out := out + buffer;
  }

  /** Zero pages and invalid entries for what is missing. */
  method PadPages(d: Domain, table: array<Entry>, j0: nat, out0: seq<byte>, ghost es0: seq<Entry>)
    returns (out: seq<byte>)
    requires DomainOk(d) && j0 == |es0| <= d.nrPages == table.Length && out0 == PageBytes(d, es0)
    requires forall k :: 0 <= k < j0 ==> table[k] == es0[k]
    modifies table
    ensures out == PageBytes(d, table[..])
    ensures forall k :: 0 <= k < table.Length ==> table[k] == if k < j0 then es0[k] else INVALID
  {
    var j := j0;
    out := out0;
    ghost var es := es0;
    while j < d.nrPages
      invariant j0 <= j == |es| <= d.nrPages && out == PageBytes(d, es)
      invariant forall k :: 0 <= k < j ==> table[k] == es[k] == if k < j0 then es0[k] else INVALID
    {
      PageBytesOneMore(d, es, INVALID);
      out := out + ZeroPage();
      table[j] := INVALID;
      es := es + [INVALID];
      j := j + 1;
    }
    assert table[..] == es;
  }

  /** Copies the pages out, cut or padded with zero pages to the announced number, and fills the table beside them. */
  method DumpPages(d: Domain) returns (out: seq<byte>, table: array<Entry>)
    requires DomainOk(d)
    ensures fresh(table) && EntriesOk(d, table[..]) && out == PageBytes(d, table[..])
  {
    table := new Entry[d.nrPages](_ => Entry(0, 0));
    var j, copied, es := CopyPages(d, table);
    out := PadPages(d, table, j, copied, es);
  }
}
