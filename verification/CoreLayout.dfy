/**
  The layout of a core file: what xc_domain_dumpcore_via_callback promises about
  the file as a whole, told by a reader that knows nothing but ELF.
 */
module CoreLayout {
  import opened Common
  import opened ElfFormat
  import opened CoreDump

  // ----- The p2m or pfn table -----

  function EntrySize(d: Domain): (n: nat) {
    if d.autoTranslated then 8 else 16
  }

  function EntryBytes(d: Domain, e: Entry): (b: seq<byte>)
    ensures |b| == EntrySize(d)
  {
    if d.autoTranslated then LE(e.pfn, 8) else LE(e.pfn, 8) + LE(e.gmfn, 8)
  }

  function EntryList(d: Domain, es: seq<Entry>): (r: seq<seq<byte>>) {
    seq(|es|, k requires 0 <= k < |es| => EntryBytes(d, es[k]))
  }

  function TableBytes(d: Domain, es: seq<Entry>): (b: seq<byte>) {
    Flatten(EntryList(d, es), |es|)
  }

  /** Where entry k is. */
  function EntryOff(d: Domain, k: nat): (off: nat) {
    if d.autoTranslated then 8 * k else 16 * k
  }

  /** Entry k of the section is that of page k. */
  lemma EntryAt(d: Domain, es: seq<Entry>, k: nat)
    requires k < |es|
    ensures |TableBytes(d, es)| == EntryOff(d, |es|) && EntryOff(d, k) + EntrySize(d) <= EntryOff(d, |es|)
    ensures TableBytes(d, es)[EntryOff(d, k)..EntryOff(d, k) + EntrySize(d)] == EntryBytes(d, es[k])
  {
    FixedOff(EntryList(d, es), EntrySize(d), k);
    FixedOff(EntryList(d, es), EntrySize(d), |es|);
    PartAt(EntryList(d, es), |es|, k);
  }

  /** The entry a reader makes of its bytes; without a frame number of its own a pfn stands for both. */
  function ReadEntry(d: Domain, b: seq<byte>): (e: Entry)
    requires |b| == EntrySize(d)
  {
    Entry(FromLE(b[..8]), if d.autoTranslated then FromLE(b[..8]) else FromLE(b[8..]))
  }

  lemma EntryRoundTrip(d: Domain, e: Entry)
    requires e.pfn < Cap(8) && e.gmfn < Cap(8) && (d.autoTranslated ==> e.pfn == e.gmfn)
    ensures ReadEntry(d, EntryBytes(d, e)) == e
  {
    RoundTripLE(e.pfn, 8);
    RoundTripLE(e.gmfn, 8);
    assert EntryBytes(d, e)[..8] == LE(e.pfn, 8);
    if !d.autoTranslated {
      assert EntryBytes(d, e)[8..] == LE(e.gmfn, 8);
    }
  }

  // ----- The section headers while they are filled in -----

  /** The string at index i of the table is this name. */
  predicate Named(strings: seq<byte>, i: nat, name: seq<byte>) {
    && 0 !in name && i + |name| < |strings| && strings[i + |name|] == 0
    && forall k :: 0 <= k < |name| ==> strings[i + k] == name[k]
  }

  lemma NamedIs(strings: seq<byte>, i: nat, name: seq<byte>)
    requires Named(strings, i, name)
    ensures NameAt(strings, i) == name
  {
    NameFrom(strings, i, name, 0);
    assert name[0..] == name;
  }

  const SHDR_INIT: nat := 16
  const SHDR_INC: nat := 4
  const NO_SHDR: Shdr := Shdr(0, 0, 0, 0, 0, 0)

  /** Headers never outgrow 16 bits in steps of four. */
  const SHDR_MOST: nat := 65532

  class Headers {
    const strtab: StringTable
    var shdrs: seq<Shdr>
    var max: nat
    ghost var names: seq<seq<byte>>

    ghost predicate Valid()
      reads this, strtab
    {
      && strtab.Valid() && 0 < |shdrs| == |names| <= max <= SHDR_MOST && max % 4 == 0
      && forall k :: 1 <= k < |shdrs| ==> Named(strtab.strings, shdrs[k].name, names[k])
    }

    /** With the null section. */
    constructor ()
      ensures Valid() && fresh(strtab) && names == [[]] && shdrs == [NO_SHDR]
      ensures strtab.strings == [0] && strtab.max == PAGE_SIZE
    {
      strtab := new StringTable();
      shdrs, max := [NO_SHDR], SHDR_INIT;
      names := [[]];
    }

    /** One more header, all zero, unless there are as many as there can be. */
    method Get() returns (ok: bool)
      requires Valid()
      modifies this
      ensures Valid() && (ok <==> |old(shdrs)| < SHDR_MOST)
      ensures ok ==> shdrs == old(shdrs) + [NO_SHDR] && names == old(names) + [[]]
      ensures !ok ==> shdrs == old(shdrs) && names == old(names)
    {
      if |shdrs| == max {
        if max > UINT16_MAX - SHDR_INC {
          return false;
        }
        max := max + SHDR_INC;
      }
      shdrs := shdrs + [NO_SHDR];
      names := names + [[]];
      return true;
    }

    /** Fills in the last header. A name that is refused leaves it zero. */
    method Set(name: seq<byte>, kind: nat, offset: nat, size: nat, addralign: nat, entsize: nat) returns (ok: bool)
      requires Valid() && 0 !in name && |shdrs| > 1
      modifies this, strtab
      ensures ok <==> !old(strtab.Refuses(name))
      ensures !ok ==> Valid() && shdrs == old(shdrs) && names == old(names) && strtab.strings == old(strtab.strings)
      ensures ok ==> strtab.strings == old(strtab.strings) + name + [0]
      ensures ok ==> (Valid() <==> |old(strtab.strings)| + |name| + 1 <= 2 * old(strtab.max))
      ensures ok ==> names == old(names)[|old(shdrs)| - 1 := name]
      ensures ok ==> shdrs == old(shdrs)[|old(shdrs)| - 1 :=
                       Shdr(|old(strtab.strings)|, kind, offset, size, addralign, entsize)]
      ensures |strtab.strings| <= old(strtab.max) ==> strtab.max == old(strtab.max)
    {
      var index := strtab.Get(name);
      if index == 0 {
        return false;
      }
      shdrs := shdrs[|shdrs| - 1 := Shdr(index, kind, offset, size, addralign, entsize)];
      names := names[|names| - 1 := name];
      return true;
    }

    /**
      One more header under its name. It is refused if there are as many as there
      can be, or if the string table refuses the name; then a zero header stays.
     */
    method Add(name: seq<byte>, kind: nat, offset: nat, size: nat, addralign: nat, entsize: nat) returns (ok: bool)
      requires Valid() && 0 !in name
      modifies this, strtab
      ensures ok <==> |old(shdrs)| < SHDR_MOST && !old(strtab.Refuses(name))
      ensures !ok ==> Valid() && strtab.strings == old(strtab.strings)
      ensures !ok ==> shdrs == if |old(shdrs)| < SHDR_MOST then old(shdrs) + [NO_SHDR] else old(shdrs)
      ensures ok ==> names == old(names) + [name] && strtab.strings == old(strtab.strings) + name + [0]
      ensures ok ==> shdrs == old(shdrs) + [Shdr(|old(strtab.strings)|, kind, offset, size, addralign, entsize)]
      ensures ok ==> (Valid() <==> |old(strtab.strings)| + |name| + 1 <= 2 * old(strtab.max))
    {
      ok := Get();
      if ok {
        ok := Set(name, kind, offset, size, addralign, entsize);
      }
    }

    /** The headers of core sections are few and their names short, so none of them is refused. */
    method AddShort(name: seq<byte>, kind: nat, offset: nat, size: nat, addralign: nat, entsize: nat)
      requires Valid() && 0 !in name && |name| < 32 && |shdrs| < SHDR_MOST && |strtab.strings| <= 1024
      modifies this, strtab
      ensures Valid() && names == old(names) + [name]
      ensures strtab.strings == old(strtab.strings) + name + [0]
      ensures shdrs == old(shdrs) + [Shdr(|old(strtab.strings)|, kind, offset, size, addralign, entsize)]
    {
      var ok := Add(name, kind, offset, size, addralign, entsize);
    }

    /** The place and size of the strings, known when no name can follow. */
    method PlaceStrings(offset: nat)
      requires Valid() && |shdrs| > 1
      modifies this`shdrs
      ensures Valid() && shdrs == old(shdrs)[1 := old(shdrs)[1].(offset := offset, size := |strtab.strings|)]
    {
      shdrs := shdrs[1 := shdrs[1].(offset := offset, size := strtab.length)];
    }

    /** Makes room for the headers in front of the sections placed so far. */
    method Shift(fixup: nat)
      requires Valid()
      modifies this`shdrs
      ensures Valid() && |shdrs| == |old(shdrs)| && shdrs[0] == old(shdrs)[0]
      ensures forall k :: 1 <= k < |shdrs| ==> shdrs[k] == old(shdrs)[k].(offset := old(shdrs)[k].offset + fixup)
    {
      var i := 1;
      while i < |shdrs|
        invariant 1 <= i <= |shdrs| == |old(shdrs)| && shdrs[0] == old(shdrs)[0]
        invariant forall k :: i <= k < |shdrs| ==> shdrs[k] == old(shdrs)[k]
        invariant forall k :: 1 <= k < i ==> shdrs[k] == old(shdrs)[k].(offset := old(shdrs)[k].offset + fixup)
      {
        shdrs := shdrs[i := shdrs[i].(offset := shdrs[i].offset + fixup)];
        i := i + 1;
      }
    }
  }

  // ----- The whole file -----

  function ShinfoPart(d: Domain): (b: seq<byte>) {
    match d.shinfo
    case Some(b) => b
    case None => []
  }

  /** The names of the sections, by number. */
  function Names(d: Domain): (names: seq<string>)
    ensures |names| == if d.shinfo.Some? then 7 else 6
  {
    ["", ".shstrtab", ".note.Xen", ".xen_prstatus"]
    + (if d.shinfo.Some? then [".xen_shared_info"] else [])
    + [".xen_pages", if d.autoTranslated then ".xen_pfn" else ".xen_p2m"]
  }

  /**
    The parts of the file in the order they are written: ELF header, section
    headers, notes, vcpu contexts, shared info, padding, pages, table, strings.
   */
  function Parts(d: Domain, ehdr: seq<byte>, shdrs: seq<Shdr>, pad: nat, es: seq<Entry>, strings: seq<byte>)
    : (parts: seq<seq<byte>>)
    requires DomainOk(d)
    ensures |parts| == 9
  {
    [ehdr, ShdrTable(shdrs), d.notes, d.ctxts, ShinfoPart(d), seq(pad, _ => 0),
     PageBytes(d, es), TableBytes(d, es), strings]
  }

  /** Which part is the content of section k. */
  function PartOf(d: Domain, k: nat): (p: nat)
    requires 1 <= k < |Names(d)|
    ensures p < 9
  {
    if k == 1 then 8
    else if k < 4 then k
    else if d.shinfo.Some? then (if k == 4 then 4 else k + 1) else k + 2
  }

  function TableSize(d: Domain): (n: nat) {
    EntryOff(d, d.nrPages)
  }

  /** The form of each section. */
  function SectionForm(d: Domain, k: nat): (f: Form)
    requires 1 <= k < |Names(d)|
  {
    if k == 1 then Form(SHT_STRTAB, 0, 0)
    else if k == 2 then Form(SHT_NOTE, 0, 0)
    else if k == 3 then Form(SHT_PROGBITS, 16, d.ctxtSize)
    else if k == |Names(d)| - 2 then Form(SHT_PROGBITS, PAGE_SIZE, PAGE_SIZE)
    else if k == |Names(d)| - 1 then Form(SHT_PROGBITS, 8, EntrySize(d))
    else Form(SHT_PROGBITS, 8, PAGE_SIZE)
  }

  predicate Formed(d: Domain, shdrs: seq<Shdr>) {
    |shdrs| <= |Names(d)| && forall k :: 1 <= k < |shdrs| ==> FormOf(shdrs[k]) == SectionForm(d, k)
  }

  /** Where the sections before the padding begin, where those after it do, and where the strings are. */
  function First(d: Domain): (n: nat) {
    64 + 64 * |Names(d)|
  }

  function Second(d: Domain, pad: nat): (n: nat) {
    First(d) + |d.notes| + |d.ctxts| + |ShinfoPart(d)| + pad
  }

  function Last(d: Domain, pad: nat): (n: nat) {
    Second(d, pad) + 4096 * d.nrPages + TableSize(d)
  }

  lemma Offsets(parts: seq<seq<byte>>)
    requires |parts| == 9
    ensures Off(parts, 2) == |parts[0]| + |parts[1]|
    ensures Off(parts, 3) == Off(parts, 2) + |parts[2]| && Off(parts, 4) == Off(parts, 3) + |parts[3]|
    ensures Off(parts, 6) == Off(parts, 4) + |parts[4]| + |parts[5]|
    ensures Off(parts, 7) == Off(parts, 6) + |parts[6]| && Off(parts, 8) == Off(parts, 7) + |parts[7]|
  {
    assert Off(parts, 1) == |parts[0]|;
    assert Off(parts, 5) == Off(parts, 4) + |parts[4]|;
  }

  lemma PartSizes(d: Domain, ehdr: seq<byte>, shdrs: seq<Shdr>, pad: nat, es: seq<Entry>, strings: seq<byte>)
    requires DomainOk(d) && |es| == d.nrPages && |ehdr| == 64 && |shdrs| == |Names(d)|
    ensures var parts := Parts(d, ehdr, shdrs, pad, es, strings);
      && |parts[0]| + |parts[1]| == First(d) && |parts[5]| == pad
      && |parts[6]| == 4096 * d.nrPages && |parts[7]| == TableSize(d)
  {
    PageBytesSize(d, es);
    FixedOff(EntryList(d, es), EntrySize(d), |es|);
    FixedOff(ShdrList(shdrs), 64, |shdrs|);
  }

  lemma PartOffsets(d: Domain, ehdr: seq<byte>, shdrs: seq<Shdr>, pad: nat, es: seq<Entry>, strings: seq<byte>)
    requires DomainOk(d) && |es| == d.nrPages && |ehdr| == 64 && |shdrs| == |Names(d)|
    ensures var parts := Parts(d, ehdr, shdrs, pad, es, strings);
      && Off(parts, 2) == First(d) && Off(parts, 3) == First(d) + |d.notes|
      && Off(parts, 4) == First(d) + |d.notes| + |d.ctxts|
      && Off(parts, 6) == Second(d, pad) && Off(parts, 7) == Second(d, pad) + 4096 * d.nrPages
      && Off(parts, 8) == Last(d, pad)
  {
    PartSizes(d, ehdr, shdrs, pad, es, strings);
    Offsets(Parts(d, ehdr, shdrs, pad, es, strings));
  }

  /** What the headers must say. */
  predicate Laid(d: Domain, shdrs: seq<Shdr>, pad: nat, strings: nat)
    requires DomainOk(d)
  {
    var n := |Names(d)|;
    && |shdrs| == n && Formed(d, shdrs) && pad < PAGE_SIZE && Second(d, pad) % PAGE_SIZE == 0
    && shdrs[1].offset == Last(d, pad) && shdrs[1].size == strings
    && shdrs[2].offset == First(d) && shdrs[2].size == |d.notes|
    && shdrs[3].offset == First(d) + |d.notes| && shdrs[3].size == |d.ctxts|
    && (d.shinfo.Some? ==> shdrs[4].offset == First(d) + |d.notes| + |d.ctxts| && shdrs[4].size == PAGE_SIZE)
    && shdrs[n - 2].offset == Second(d, pad) && shdrs[n - 2].size == 4096 * d.nrPages
    && shdrs[n - 1].offset == Second(d, pad) + 4096 * d.nrPages && shdrs[n - 1].size == TableSize(d)
  }

  /** Each header then describes its part. */
  lemma LaidDescribes(d: Domain, ehdr: seq<byte>, shdrs: seq<Shdr>, pad: nat, es: seq<Entry>, strings: seq<byte>,
                      k: nat)
    requires DomainOk(d) && |es| == d.nrPages && |ehdr| == 64 && Laid(d, shdrs, pad, |strings|) && 1 <= k < |Names(d)|
    ensures Describes(shdrs[k], Parts(d, ehdr, shdrs, pad, es, strings), PartOf(d, k))
  {
    PartSizes(d, ehdr, shdrs, pad, es, strings);
    PartOffsets(d, ehdr, shdrs, pad, es, strings);
    DescribesByNumber(d, shdrs, pad, Parts(d, ehdr, shdrs, pad, es, strings), |strings|, k);
  }

  /** The parts are where and as long as the headers say. */
  predicate Placed(d: Domain, parts: seq<seq<byte>>, pad: nat, strings: nat) {
    && |parts| == 9 && |parts[2]| == |d.notes| && |parts[3]| == |d.ctxts|
    && (d.shinfo.Some? ==> |parts[4]| == PAGE_SIZE)
    && |parts[6]| == 4096 * d.nrPages && |parts[7]| == TableSize(d) && |parts[8]| == strings
    && Off(parts, 2) == First(d) && Off(parts, 3) == First(d) + |d.notes|
    && Off(parts, 4) == First(d) + |d.notes| + |d.ctxts|
    && Off(parts, 6) == Second(d, pad) && Off(parts, 7) == Second(d, pad) + 4096 * d.nrPages
    && Off(parts, 8) == Last(d, pad)
  }

  lemma DescribesByNumber(d: Domain, shdrs: seq<Shdr>, pad: nat, parts: seq<seq<byte>>, strings: nat, k: nat)
    requires DomainOk(d) && Laid(d, shdrs, pad, strings) && Placed(d, parts, pad, strings) && 1 <= k < |Names(d)|
    ensures Describes(shdrs[k], parts, PartOf(d, k))
  {
  }

  // ----- The dump -----

  lemma AsciiOk(name: string)
    ensures |Ascii(name)| == |name| && 0 !in Ascii(name)
  {
  }

  /** The fields that do not depend on the layout are small. */
  predicate Plain(h: Shdr) {
    h.name < PAGE_SIZE && h.kind < 16 && h.addralign <= PAGE_SIZE && h.entsize < Cap(8)
  }

  predicate AllPlain(shdrs: seq<Shdr>) {
    forall k :: 0 <= k < |shdrs| ==> Plain(shdrs[k])
  }

  /** The headers of the sections before the pages, when the first of these sections begins at base. */
  predicate FrontLaid(d: Domain, shdrs: seq<Shdr>, base: nat) {
    && |shdrs| == |Names(d)| - 2 && AllPlain(shdrs) && Formed(d, shdrs) && shdrs[0].offset == 0 && shdrs[0].size == 0
    && shdrs[2].offset == base && shdrs[2].size == |d.notes|
    && shdrs[3].offset == base + |d.notes| && shdrs[3].size == |d.ctxts|
    && (d.shinfo.Some? ==> shdrs[4].offset == base + |d.notes| + |d.ctxts| && shdrs[4].size == PAGE_SIZE)
  }

  /** The sections have their names. */
  predicate NamesAre(d: Domain, names: seq<seq<byte>>, n: nat) {
    n == |names| <= |Names(d)| && forall k :: 1 <= k < n ==> names[k] == Ascii(Names(d)[k])
  }

  method FrontHeaders(d: Domain) returns (h: Headers, offset: nat)
    requires DomainOk(d)
    ensures fresh(h) && fresh(h.strtab) && h.Valid() && NamesAre(d, h.names, |h.shdrs|)
    ensures FrontLaid(d, h.shdrs, EHDR_SIZE) && |h.strtab.strings| <= 512
    ensures offset == EHDR_SIZE + |d.notes| + |d.ctxts| + |ShinfoPart(d)|
  {
    Caps();
    AsciiOk(".shstrtab");
    AsciiOk(".note.Xen");
    AsciiOk(".xen_prstatus");
    AsciiOk(".xen_shared_info");
    h := new Headers();
    h.AddShort(Ascii(".shstrtab"), SHT_STRTAB, 0, 0, 0, 0);
    offset := EHDR_SIZE;
    h.AddShort(Ascii(".note.Xen"), SHT_NOTE, offset, |d.notes|, 0, 0);
    offset := offset + |d.notes|;
    h.AddShort(Ascii(".xen_prstatus"), SHT_PROGBITS, offset, |d.ctxts|, 16, d.ctxtSize);
    offset := offset + |d.ctxts|;
    if d.shinfo.Some? {
      h.AddShort(Ascii(".xen_shared_info"), SHT_PROGBITS, offset, PAGE_SIZE, 8, PAGE_SIZE);
      offset := offset + PAGE_SIZE;
    }
  }

  lemma ShiftLaid(d: Domain, shdrs: seq<Shdr>, shifted: seq<Shdr>, base: nat, fixup: nat)
    requires FrontLaid(d, shdrs, base) && |shifted| == |shdrs| && shifted[0] == shdrs[0]
    requires forall k :: 1 <= k < |shdrs| ==> shifted[k] == shdrs[k].(offset := shdrs[k].offset + fixup)
    ensures FrontLaid(d, shifted, base + fixup)
  {
    forall k | 0 <= k < |shifted| ensures Plain(shifted[k]) && FormOf(shifted[k]) == FormOf(shdrs[k]) {
      assert Plain(shdrs[k]);
    }
  }

  /** The headers of all sections: those before the padding shifted, the last two and the strings behind it. */
  method BuildHeaders(d: Domain) returns (h: Headers, pad: nat)
    requires DomainOk(d)
    ensures fresh(h) && fresh(h.strtab) && h.Valid() && Laid(d, h.shdrs, pad, |h.strtab.strings|)
    ensures NamesAre(d, h.names, |Names(d)|) && AllPlain(h.shdrs) && h.shdrs[0].offset == 0 && h.shdrs[0].size == 0
  {
    var offset;
    h, offset := FrontHeaders(d);
    var fixup := (|h.shdrs| + 2) * SHDR_SIZE;
    ghost var front := h.shdrs;
    h.Shift(fixup);
    ShiftLaid(d, front, h.shdrs, EHDR_SIZE, fixup);
    offset := offset + fixup;
    pad := Padding(offset);
    offset := offset + pad;
    BackHeaders(d, h, offset, pad);
  }

  method Padding(offset: nat) returns (pad: nat)
    ensures pad < PAGE_SIZE && (offset + pad) % PAGE_SIZE == 0
  {
    pad := (offset + PAGE_SIZE - 1) / PAGE_SIZE * PAGE_SIZE - offset;
  }

  /** The last two headers behind those of the front, and the place of the strings. */
  predicate Completed(d: Domain, front: seq<Shdr>, shdrs: seq<Shdr>, pad: nat, strings: nat, i: nat, j: nat) {
    && |shdrs| == |front| + 2 && |front| > 1 && i <= 1024 && j <= 1024
    && shdrs[1] == front[1].(offset := Last(d, pad), size := strings)
    && (forall k :: 0 <= k < |front| && k != 1 ==> shdrs[k] == front[k])
    && shdrs[|front|] == Shdr(i, SHT_PROGBITS, Second(d, pad), 4096 * d.nrPages, PAGE_SIZE, PAGE_SIZE)
    && shdrs[|front| + 1]
       == Shdr(j, SHT_PROGBITS, Second(d, pad) + 4096 * d.nrPages, TableSize(d), 8, EntrySize(d))
  }

  lemma CompletedLaid(d: Domain, front: seq<Shdr>, shdrs: seq<Shdr>, pad: nat, strings: nat, i: nat, j: nat)
    requires DomainOk(d) && FrontLaid(d, front, First(d)) && Completed(d, front, shdrs, pad, strings, i, j)
    requires pad < PAGE_SIZE && Second(d, pad) % PAGE_SIZE == 0
    ensures AllPlain(shdrs) && Laid(d, shdrs, pad, strings) && shdrs[0].offset == 0 && shdrs[0].size == 0
  {
    Caps();
    forall k | 0 <= k < |shdrs| ensures Plain(shdrs[k]) {
      assert k < |front| ==> Plain(front[k]);
    }
    forall k | 1 <= k < |shdrs| ensures FormOf(shdrs[k]) == SectionForm(d, k) {
      assert k < |front| ==> FormOf(shdrs[k]) == FormOf(front[k]);
    }
  }

  lemma NamesCompleted(d: Domain, names: seq<seq<byte>>, pages: seq<byte>, table: seq<byte>)
    requires NamesAre(d, names, |Names(d)| - 2) && pages == Ascii(".xen_pages")
    requires table == Ascii(if d.autoTranslated then ".xen_pfn" else ".xen_p2m")
    ensures NamesAre(d, names + [pages] + [table], |Names(d)|)
  {
  }

  method BackHeaders(d: Domain, h: Headers, at: nat, ghost pad: nat)
    requires DomainOk(d) && h.Valid() && FrontLaid(d, h.shdrs, First(d)) && NamesAre(d, h.names, |h.shdrs|)
    requires pad < PAGE_SIZE && at == Second(d, pad) && at % PAGE_SIZE == 0 && |h.strtab.strings| <= 512
    modifies h, h.strtab
    ensures h.Valid() && NamesAre(d, h.names, |Names(d)|) && AllPlain(h.shdrs)
    ensures Laid(d, h.shdrs, pad, |h.strtab.strings|) && h.shdrs[0].offset == 0 && h.shdrs[0].size == 0
  {
    ghost var front, names := h.shdrs, h.names;
    var table := if d.autoTranslated then ".xen_pfn" else ".xen_p2m";
    ghost var i, j := AddTables(d, h, at, Ascii(".xen_pages"), Ascii(table));
    h.PlaceStrings(at + 4096 * d.nrPages + TableSize(d));
    NamesCompleted(d, names, Ascii(".xen_pages"), Ascii(table));
    CompletedLaid(d, front, h.shdrs, pad, |h.strtab.strings|, i, j);
  }

  method AddTables(d: Domain, h: Headers, at: nat, pages: seq<byte>, table: seq<byte>)
    returns (ghost i: nat, ghost j: nat)
    requires h.Valid() && |h.shdrs| < 16 && |h.strtab.strings| <= 512
    requires 0 !in pages && 0 !in table && |pages| < 32 && |table| < 32
    modifies h, h.strtab
    ensures h.Valid() && h.names == old(h.names) + [pages] + [table] && i <= 1024 && j <= 1024
    ensures h.shdrs == old(h.shdrs) + [Shdr(i, SHT_PROGBITS, at, 4096 * d.nrPages, PAGE_SIZE, PAGE_SIZE)]
                       + [Shdr(j, SHT_PROGBITS, at + 4096 * d.nrPages, TableSize(d), 8, EntrySize(d))]
  {
    i := |h.strtab.strings|;
    h.AddShort(pages, SHT_PROGBITS, at, 4096 * d.nrPages, PAGE_SIZE, PAGE_SIZE);
    j := |h.strtab.strings|;
    h.AddShort(table, SHT_PROGBITS, at + 4096 * d.nrPages, TableSize(d), 8, EntrySize(d));
  }

  // ----- Writing it out and reading it back -----

  const EM_X86_64: nat := 62

  function Ident(): (b: seq<byte>)
    ensures |b| == 16
  {
    [0x7f, 'E' as byte, 'L' as byte, 'F' as byte, ELFCLASS64, ELFDATA2LSB, EV_CURRENT, 0]
    + [EV_CURRENT, 0, 0, 0, 0, 0, 0, 0]
  }

  /** The ELF header up to the program header offset, and from the flags to the size of a section header. */
  function EhdrFront(): (b: seq<byte>)
    ensures |b| == 40
  {
    Ident() + LE(ET_CORE, 2) + LE(EM_X86_64, 2) + LE(1, 4) + (LE(0, 8) + LE(0, 8))
  }

  function EhdrBack(): (b: seq<byte>)
    ensures |b| == 12
  {
    LE(0, 4) + LE(64, 2) + LE(56, 2) + LE(0, 2) + LE(64, 2)
  }

  function Ehdr(d: Domain): (b: seq<byte>)
    ensures |b| == 64
  {
    EhdrBytes(EhdrFront(), EhdrBack(), 64, |Names(d)|, 1)
  }

  predicate EhdrOk(d: Domain, ehdr: seq<byte>) {
    && |ehdr| == EHDR_SIZE && IsCore(ehdr) && ShoffOf(ehdr) == EHDR_SIZE
    && ShnumOf(ehdr) == |Names(d)| && ShstrndxOf(ehdr) == 1
  }

  lemma FrontFields(ident: seq<byte>, a: seq<byte>, b: seq<byte>, c: seq<byte>, rest: seq<byte>)
    requires |ident| == 16 && |a| == 2 && |b| == 2 && |c| == 4
    ensures var f := ident + a + b + c + rest; f[..16] == ident && f[16..18] == a && f[20..24] == c
  {
  }

  lemma BackFields(a: seq<byte>, b: seq<byte>, c: seq<byte>, e: seq<byte>, f: seq<byte>)
    requires |a| == 4 && |b| == 2 && |c| == 2 && |e| == 2 && |f| == 2
    ensures var s := a + b + c + e + f; s[4..6] == b && s[10..12] == f
  {
  }

  /** A header with these fields is one that a reader takes. */
  lemma CoreFields(h: seq<byte>, front: seq<byte>, back: seq<byte>)
    requires |h| == 64 && |front| == 40 && |back| == 12 && h[..40] == front && h[48..60] == back
    requires front[..16] == Ident() && front[16..18] == LE(ET_CORE, 2) && front[20..24] == LE(1, 4)
    requires back[4..6] == LE(64, 2) && back[10..12] == LE(64, 2)
    ensures IsCore(h)
  {
    SmallFirst(ET_CORE);
    SmallFirst(1);
    SmallFirst(64);
    assert h[..16] == front[..16] && h[..4] == Ident()[..4];
    assert h[4] == Ident()[4] && h[5] == Ident()[5] && h[6] == Ident()[6];
    SubSlice(h, 0, front, 16, 2);
    SubSlice(h, 0, front, 20, 4);
    SubSlice(h, 48, back, 4, 2);
    SubSlice(h, 48, back, 10, 2);
  }

  lemma EhdrIsCore(d: Domain)
    ensures IsCore(Ehdr(d))
  {
    var h, front, back := Ehdr(d), EhdrFront(), EhdrBack();
    EhdrPieces(front, back, 64, |Names(d)|, 1);
    FrontFields(Ident(), LE(ET_CORE, 2), LE(EM_X86_64, 2), LE(1, 4), LE(0, 8) + LE(0, 8));
    BackFields(LE(0, 4), LE(64, 2), LE(56, 2), LE(0, 2), LE(64, 2));
    CoreFields(h, front, back);
  }

  lemma EhdrIsOk(d: Domain)
    ensures EhdrOk(d, Ehdr(d))
  {
    Caps();
    EhdrRoundTrip(EhdrFront(), EhdrBack(), 64, |Names(d)|, 1);
    EhdrIsCore(d);
  }

  /** What a reader should find in section k. */
  function Content(d: Domain, es: seq<Entry>, strings: seq<byte>, k: nat): (b: seq<byte>)
    requires DomainOk(d) && 1 <= k < |Names(d)|
  {
    if k == 1 then strings
    else if k == 2 then d.notes
    else if k == 3 then d.ctxts
    else if k == |Names(d)| - 2 then PageBytes(d, es)
    else if k == |Names(d)| - 1 then TableBytes(d, es)
    else ShinfoPart(d)
  }

  lemma LaidFits(d: Domain, shdrs: seq<Shdr>, pad: nat, strings: nat, k: nat)
    requires DomainOk(d) && Laid(d, shdrs, pad, strings) && AllPlain(shdrs) && strings < 0x1_0000 && 1 <= k < |shdrs|
    ensures ShdrFits(shdrs[k])
  {
    Caps();
    assert Cap(5) == 256 * Cap(4);
    assert Cap(8) == 256 * Cap(7);
    assert Plain(shdrs[k]);
  }

  lemma FileBegins(d: Domain, ehdr: seq<byte>, shdrs: seq<Shdr>, pad: nat, es: seq<Entry>, strings: seq<byte>)
    requires DomainOk(d) && Laid(d, shdrs, pad, |strings|) && AllPlain(shdrs) && |strings| < 0x1_0000
    requires shdrs[0].offset == 0 && shdrs[0].size == 0 && EhdrOk(d, ehdr)
    ensures Begins(Parts(d, ehdr, shdrs, pad, es, strings), shdrs, 1)
  {
    forall k | 0 <= k < |shdrs| ensures ShdrFits(shdrs[k]) {
      if k > 0 {
        LaidFits(d, shdrs, pad, |strings|, k);
      } else {
        Caps();
        assert Plain(shdrs[0]);
      }
    }
  }

  /** All that the headers and the names say, as the dump leaves them. */
  predicate Written(d: Domain, ehdr: seq<byte>, shdrs: seq<Shdr>, pad: nat, es: seq<Entry>, strings: seq<byte>)
    requires DomainOk(d)
  {
    && EhdrOk(d, ehdr) && Laid(d, shdrs, pad, |strings|) && AllPlain(shdrs) && |strings| < 0x1_0000
    && shdrs[0].offset == 0 && shdrs[0].size == 0 && |es| == d.nrPages
    && forall k :: 1 <= k < |Names(d)| ==> Named(strings, shdrs[k].name, Ascii(Names(d)[k]))
  }

  lemma PartContent(d: Domain, ehdr: seq<byte>, shdrs: seq<Shdr>, pad: nat, es: seq<Entry>, strings: seq<byte>, k: nat)
    requires DomainOk(d) && 1 <= k < |Names(d)|
    ensures Parts(d, ehdr, shdrs, pad, es, strings)[PartOf(d, k)] == Content(d, es, strings, k)
  {
  }

  /** Each section is read back under its name, with its form and content. */
  lemma SectionReadBack(d: Domain, ehdr: seq<byte>, shdrs: seq<Shdr>, pad: nat, es: seq<Entry>, strings: seq<byte>,
                        k: nat)
    requires DomainOk(d) && Written(d, ehdr, shdrs, pad, es, strings) && 1 <= k < |Names(d)|
    ensures SectionAt(Flatten(Parts(d, ehdr, shdrs, pad, es, strings), 9), k)
         == Some(Section(Ascii(Names(d)[k]), SectionForm(d, k), Content(d, es, strings, k)))
  {
    FileBegins(d, ehdr, shdrs, pad, es, strings);
    LaidDescribes(d, ehdr, shdrs, pad, es, strings, 1);
    LaidDescribes(d, ehdr, shdrs, pad, es, strings, k);
    PartContent(d, ehdr, shdrs, pad, es, strings, k);
    NamedIs(strings, shdrs[k].name, Ascii(Names(d)[k]));
    ReadBack(Parts(d, ehdr, shdrs, pad, es, strings), shdrs, 1, 8, k, PartOf(d, k));
  }

  lemma FlattenNine(p: seq<seq<byte>>)
    requires |p| == 9
    ensures Flatten(p, 9) == p[0] + p[1] + p[2] + p[3] + p[4] + p[5] + p[6] + p[7] + p[8]
  {
    assert Flatten(p, 1) == p[0];
    assert Flatten(p, 2) == p[0] + p[1];
    assert Flatten(p, 4) == p[0] + p[1] + p[2] + p[3];
    assert Flatten(p, 6) == p[0] + p[1] + p[2] + p[3] + p[4] + p[5];
    assert Flatten(p, 8) == p[0] + p[1] + p[2] + p[3] + p[4] + p[5] + p[6] + p[7];
  }

  lemma WrittenReadsBack(d: Domain, ehdr: seq<byte>, shdrs: seq<Shdr>, pad: nat, es: seq<Entry>, strings: seq<byte>)
    requires DomainOk(d) && Written(d, ehdr, shdrs, pad, es, strings)
    ensures ReadsBack(d, Flatten(Parts(d, ehdr, shdrs, pad, es, strings), 9), es, strings)
  {
    var file := Flatten(Parts(d, ehdr, shdrs, pad, es, strings), 9);
    forall k | 1 <= k < |Names(d)|
      ensures SectionAt(file, k) == Some(Section(Ascii(Names(d)[k]), SectionForm(d, k), Content(d, es, strings, k)))
    {
      SectionReadBack(d, ehdr, shdrs, pad, es, strings, k);
    }
  }

  /** A reader that starts from the ELF header finds every section under its name, of its form, exactly its content. */
  predicate ReadsBack(d: Domain, file: seq<byte>, es: seq<Entry>, strings: seq<byte>)
    requires DomainOk(d)
  {
    forall k :: 1 <= k < |Names(d)| ==>
      SectionAt(file, k) == Some(Section(Ascii(Names(d)[k]), SectionForm(d, k), Content(d, es, strings, k)))
  }

  /**
    Entry k of the table in the file names the frame whose bytes are page k of
    the pages in the file, or is invalid beside a page of zeros.
   */
  predicate NamesPage(d: Domain, file: seq<byte>, k: nat) {
    match (SectionAt(file, |Names(d)| - 2), SectionAt(file, |Names(d)| - 1))
    case (Some(pages), Some(table)) => EntryNames(d, pages.data, table.data, EntryOff(d, k), 4096 * k)
    case _ => false
  }

  /** The entry at off in the table names the page at at. */
  predicate EntryNames(d: Domain, pages: seq<byte>, table: seq<byte>, off: nat, at: nat) {
    && off + EntrySize(d) <= |table| && at + PAGE_SIZE <= |pages|
    && EntryIs(d, ReadEntry(d, table[off..off + EntrySize(d)]), pages[at..at + PAGE_SIZE])
  }

  predicate EntryIs(d: Domain, e: Entry, page: seq<byte>) {
    if e == INVALID then page == ZeroPage()
    else e.pfn in d.p2m && d.p2m[e.pfn] == e.gmfn && e.gmfn in d.frames && d.frames[e.gmfn] == page
  }

  lemma EntryNamesPage(d: Domain, es: seq<Entry>, k: nat)
    requires DomainOk(d) && EntriesOk(d, es) && k < d.nrPages
    ensures EntryNames(d, PageBytes(d, es), TableBytes(d, es), EntryOff(d, k), 4096 * k)
  {
    EntryDescribesPage(d, es, k);
    EntryAt(d, es, k);
    Caps();
    EntryRoundTrip(d, es[k]);
  }

  lemma TableNamesPages(d: Domain, file: seq<byte>, es: seq<Entry>, strings: seq<byte>, k: nat)
    requires DomainOk(d) && EntriesOk(d, es) && ReadsBack(d, file, es, strings) && k < d.nrPages
    ensures NamesPage(d, file, k)
  {
    var n := |Names(d)|;
    var pages, table := SectionAt(file, n - 2), SectionAt(file, n - 1);
    assert pages.Some? && pages.value.data == Content(d, es, strings, n - 2);
    assert table.Some? && table.value.data == Content(d, es, strings, n - 1);
    EntryNamesPage(d, es, k);
  }

  /** Everything before the pages. */
  method WriteFront(d: Domain, ehdr: seq<byte>, shdrs: seq<Shdr>, pad: nat) returns (out: seq<byte>)
    ensures out == ehdr + ShdrTable(shdrs) + d.notes + d.ctxts + ShinfoPart(d) + seq(pad, _ => 0)
  {
    out := ehdr;
    out := out + ShdrTable(shdrs);
    out := out + d.notes;
    out := out + d.ctxts;
    if d.shinfo.Some? {
      out := out + d.shinfo.value;
    } else {
      assert out + [] == out;
    }
    out := out + seq(pad, _ => 0);
  }

  /**
    Writes the core file: the headers first, then each section. A reader finds
    every section, the announced number of pages, and beside page k its entry.
   */
  method DumpCore(d: Domain) returns (file: seq<byte>, table: array<Entry>, strings: seq<byte>)
    requires DomainOk(d)
    ensures EntriesOk(d, table[..]) && ReadsBack(d, file, table[..], strings)
    ensures forall k :: 0 <= k < d.nrPages ==> NamesPage(d, file, k)
  {
    var h, pad := BuildHeaders(d);
    strings := h.strtab.strings;
    var ehdr, shdrs := Ehdr(d), h.shdrs;
    EhdrIsOk(d);
    file := WriteFront(d, ehdr, shdrs, pad);
    var pages;
    pages, table := DumpPages(d);
    file := file + pages;
    file := file + TableBytes(d, table[..]);
    file := file + strings;
    FlattenNine(Parts(d, ehdr, shdrs, pad, table[..], strings));
    WrittenReadsBack(d, ehdr, shdrs, pad, table[..], strings);
    forall k | 0 <= k < d.nrPages ensures NamesPage(d, file, k) {
      TableNamesPages(d, file, table[..], strings, k);
    }
  }
}
