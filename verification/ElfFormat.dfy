/**
  The parts of the 64-bit little-endian ELF format that a core file uses, both
  ways: how headers are laid out as bytes, and a reader that finds a section by
  its number from the bytes alone. ELF Header and Section Header, chapter 4 of
  the System V gABI.
 */
module ElfFormat {
  import opened Common

  const EHDR_SIZE: nat := 64
  const SHDR_SIZE: nat := 64

  const ELFCLASS64: byte := 2
  const ELFDATA2LSB: byte := 1
  const EV_CURRENT: byte := 1
  const ET_CORE: nat := 4

  // ----- Concatenated parts -----

  function Flatten(parts: seq<seq<byte>>, n: nat): (r: seq<byte>)
    requires n <= |parts|
    ensures |r| == Off(parts, n)
  {
    if n == 0 then [] else Flatten(parts, n - 1) + parts[n - 1]
  }

  function Off(parts: seq<seq<byte>>, k: nat): (off: nat)
    requires k <= |parts|
  {
    if k == 0 then 0 else Off(parts, k - 1) + |parts[k - 1]|
  }

  /** A part is found at its offset. */
  lemma {:induction false} PartAt(parts: seq<seq<byte>>, n: nat, k: nat)
    requires k < n <= |parts|
    ensures Off(parts, k) + |parts[k]| <= |Flatten(parts, n)|
    ensures Flatten(parts, n)[Off(parts, k)..Off(parts, k) + |parts[k]|] == parts[k]
  {
    if k < n - 1 {
      PartAt(parts, n - 1, k);
      var off := Off(parts, k);
      assert Flatten(parts, n)[off..off + |parts[k]|] == Flatten(parts, n - 1)[off..off + |parts[k]|];
    }
  }

  /** Parts of one size follow each other at multiples of it. */
  lemma {:induction false} FixedOff(parts: seq<seq<byte>>, w: nat, k: nat)
    requires k <= |parts| && forall i :: 0 <= i < |parts| ==> |parts[i]| == w
    ensures Off(parts, k) == w * k
  {
    if k > 0 {
      FixedOff(parts, w, k - 1);
      assert w * k == w * (k - 1) + w;
    }
  }

  lemma {:induction false} FlattenPrefix(parts: seq<seq<byte>>, more: seq<seq<byte>>, n: nat)
    requires n <= |parts|
    ensures Flatten(parts + more, n) == Flatten(parts, n)
  {
    if n > 0 {
      FlattenPrefix(parts, more, n - 1);
    }
  }

  lemma FlattenOneMore(parts: seq<seq<byte>>, p: seq<byte>)
    ensures Flatten(parts + [p], |parts| + 1) == Flatten(parts, |parts|) + p
  {
    FlattenPrefix(parts, [p], |parts|);
  }

  // ----- Numbers -----

  function LE(n: nat, w: nat): (r: seq<byte>)
    ensures |r| == w
  {
    if w == 0 then [] else [n % 256] + LE(n / 256, w - 1)
  }

  function FromLE(b: seq<byte>): (n: nat) {
    if b == [] then 0 else b[0] + 256 * FromLE(b[1..])
  }

  function Cap(w: nat): (n: nat) {
    if w == 0 then 1 else 256 * Cap(w - 1)
  }

  lemma {:induction false} RoundTripLE(n: nat, w: nat)
    requires n < Cap(w)
    ensures FromLE(LE(n, w)) == n
  {
    if w > 0 {
      RoundTripLE(n / 256, w - 1);
      assert LE(n, w)[1..] == LE(n / 256, w - 1);
    }
  }

  /** The least significant byte comes first. */
  lemma SmallFirst(n: nat)
    requires n < 256
    ensures LE(n, 2) == [n, 0] && LE(n, 4) == [n, 0, 0, 0]
  {
    assert LE(0, 2) == [0, 0];
    assert LE(0, 3) == [0] + LE(0, 2);
  }

  lemma Caps()
    ensures Cap(2) == 0x1_0000 && Cap(4) == 0x1_0000_0000 && Cap(8) == 0x1_0000_0000_0000_0000
  {
    assert Cap(2) == 256 * 256;
    assert Cap(4) == 256 * 256 * Cap(2);
    assert Cap(6) == 256 * 256 * Cap(4);
    assert Cap(8) == 256 * 256 * Cap(6);
  }

  /** The number stored as one of the parts. */
  lemma FieldAt(parts: seq<seq<byte>>, k: nat, n: nat, w: nat)
    requires k < |parts| && parts[k] == LE(n, w) && n < Cap(w)
    ensures Off(parts, k) + w <= |Flatten(parts, |parts|)|
    ensures FromLE(Flatten(parts, |parts|)[Off(parts, k)..Off(parts, k) + w]) == n
  {
    PartAt(parts, |parts|, k);
    RoundTripLE(n, w);
  }

  // ----- Headers -----

  /** A section header; the fields a core file leaves zero are omitted. */
  datatype Shdr = Shdr(name: nat, kind: nat, offset: nat, size: nat, addralign: nat, entsize: nat)

  predicate ShdrFits(h: Shdr) {
    && h.name < Cap(4) && h.kind < Cap(4) && h.offset < Cap(8)
    && h.size < Cap(8) && h.addralign < Cap(8) && h.entsize < Cap(8)
  }

  function ShdrParts(h: Shdr): (parts: seq<seq<byte>>)
    ensures |parts| == 10
  {
    [LE(h.name, 4), LE(h.kind, 4), LE(0, 8), LE(0, 8), LE(h.offset, 8),
     LE(h.size, 8), LE(0, 4), LE(0, 4), LE(h.addralign, 8), LE(h.entsize, 8)]
  }

  lemma ShdrOffsets(h: Shdr)
    ensures var p := ShdrParts(h);
      && Off(p, 0) == 0 && Off(p, 1) == 4 && Off(p, 4) == 24 && Off(p, 5) == 32
      && Off(p, 8) == 48 && Off(p, 9) == 56 && Off(p, 10) == 64
  {
    var p := ShdrParts(h);
    assert Off(p, 2) == 8 && Off(p, 3) == 16;
    assert Off(p, 6) == 40 && Off(p, 7) == 44;
  }

  function ShdrBytes(h: Shdr): (b: seq<byte>)
    ensures |b| == SHDR_SIZE
  {
    ShdrOffsets(h);
    Flatten(ShdrParts(h), 10)
  }

  function ReadShdr(b: seq<byte>): (h: Shdr)
    requires |b| == SHDR_SIZE
  {
    Shdr(FromLE(b[0..4]), FromLE(b[4..8]), FromLE(b[24..32]), FromLE(b[32..40]), FromLE(b[48..56]), FromLE(b[56..64]))
  }

  /** What a section holds and how: its type, its alignment and the size of its entries. */
  datatype Form = Form(kind: nat, addralign: nat, entsize: nat)

  function FormOf(h: Shdr): (f: Form) {
    Form(h.kind, h.addralign, h.entsize)
  }

  lemma ShdrRoundTrip(h: Shdr)
    requires ShdrFits(h)
    ensures ReadShdr(ShdrBytes(h)) == h
  {
    var p := ShdrParts(h);
    ShdrOffsets(h);
    FieldAt(p, 0, h.name, 4);
    FieldAt(p, 1, h.kind, 4);
    FieldAt(p, 4, h.offset, 8);
    FieldAt(p, 5, h.size, 8);
    FieldAt(p, 8, h.addralign, 8);
    FieldAt(p, 9, h.entsize, 8);
  }

  /** The ELF header of a core file: what comes before the table's offset, and what comes between it and the counts. */
  function EhdrParts(front: seq<byte>, back: seq<byte>, shoff: nat, shnum: nat, shstrndx: nat)
    : (parts: seq<seq<byte>>)
  {
    [front, LE(shoff, 8), back, LE(shnum, 2), LE(shstrndx, 2)]
  }

  lemma EhdrOffsets(front: seq<byte>, back: seq<byte>, shoff: nat, shnum: nat, shstrndx: nat)
    requires |front| == 40 && |back| == 12
    ensures var p := EhdrParts(front, back, shoff, shnum, shstrndx);
      && Off(p, 1) == 40 && Off(p, 3) == 60 && Off(p, 4) == 62 && Off(p, 5) == 64
  {
    var p := EhdrParts(front, back, shoff, shnum, shstrndx);
    assert Off(p, 1) == 40;
    assert Off(p, 2) == 48;
    assert Off(p, 3) == 60;
  }

  function EhdrBytes(front: seq<byte>, back: seq<byte>, shoff: nat, shnum: nat, shstrndx: nat): (b: seq<byte>)
    requires |front| == 40 && |back| == 12
    ensures |b| == EHDR_SIZE
  {
    EhdrOffsets(front, back, shoff, shnum, shstrndx);
    Flatten(EhdrParts(front, back, shoff, shnum, shstrndx), 5)
  }

  function ShoffOf(b: seq<byte>): (n: nat)
    requires |b| >= EHDR_SIZE
  {
    FromLE(b[40..48])
  }

  function ShnumOf(b: seq<byte>): (n: nat)
    requires |b| >= EHDR_SIZE
  {
    FromLE(b[60..62])
  }

  function ShstrndxOf(b: seq<byte>): (n: nat)
    requires |b| >= EHDR_SIZE
  {
    FromLE(b[62..64])
  }

  lemma EhdrRoundTrip(front: seq<byte>, back: seq<byte>, shoff: nat, shnum: nat, shstrndx: nat)
    requires |front| == 40 && |back| == 12 && shoff < Cap(8) && shnum < Cap(2) && shstrndx < Cap(2)
    ensures var b := EhdrBytes(front, back, shoff, shnum, shstrndx);
      ShoffOf(b) == shoff && ShnumOf(b) == shnum && ShstrndxOf(b) == shstrndx
  {
    var p := EhdrParts(front, back, shoff, shnum, shstrndx);
    EhdrOffsets(front, back, shoff, shnum, shstrndx);
    FieldAt(p, 1, shoff, 8);
    FieldAt(p, 3, shnum, 2);
    FieldAt(p, 4, shstrndx, 2);
  }

  lemma EhdrPieces(front: seq<byte>, back: seq<byte>, shoff: nat, shnum: nat, shstrndx: nat)
    requires |front| == 40 && |back| == 12
    ensures var b := EhdrBytes(front, back, shoff, shnum, shstrndx); b[..40] == front && b[48..60] == back
  {
    var p := EhdrParts(front, back, shoff, shnum, shstrndx);
    EhdrOffsets(front, back, shoff, shnum, shstrndx);
    PartAt(p, 5, 0);
    PartAt(p, 5, 2);
    assert Off(p, 2) == 48;
  }

  // ----- A reader -----

  datatype Section = Section(name: seq<byte>, form: Form, data: seq<byte>)

  /** The header is that of a core file, 64 bits wide and little-endian, with headers of the sizes known here. */
  predicate IsCore(b: seq<byte>)
    requires |b| == EHDR_SIZE
  {
    && b[..4] == [0x7f, 'E' as byte, 'L' as byte, 'F' as byte]
    && b[4] == ELFCLASS64 && b[5] == ELFDATA2LSB && b[6] == EV_CURRENT
    && b[16..18] == [ET_CORE, 0] && b[20..24] == [EV_CURRENT, 0, 0, 0]
    && b[52..54] == [EHDR_SIZE, 0] && b[58..60] == [SHDR_SIZE, 0]
  }

  function Slice(file: seq<byte>, off: nat, len: nat): (r: Option<seq<byte>>) {
    if off + len <= |file| then Some(file[off..off + len]) else None
  }

  /** The null-terminated string at i. */
  function NameAt(strtab: seq<byte>, i: nat): (name: seq<byte>)
    decreases |strtab| - i
  {
    if i >= |strtab| || strtab[i] == 0 then [] else [strtab[i]] + NameAt(strtab, i + 1)
  }

  function HeaderAt(file: seq<byte>, k: nat): (r: Option<Shdr>) {
    if |file| < EHDR_SIZE || !IsCore(file[..EHDR_SIZE]) || k >= ShnumOf(file) then None
    else
      match Slice(file, ShoffOf(file) + 64 * k, SHDR_SIZE)
      case None => None
      case Some(b) => Some(ReadShdr(b))
  }

  /** Section k of a core file: its name from the string table the ELF header names, its form and its bytes. */
  function SectionAt(file: seq<byte>, k: nat): (r: Option<Section>) {
    if |file| < EHDR_SIZE then None
    else
      match (HeaderAt(file, ShstrndxOf(file)), HeaderAt(file, k))
      case (Some(hs), Some(h)) =>
        (match (Slice(file, hs.offset, hs.size), Slice(file, h.offset, h.size))
         case (Some(strtab), Some(data)) => Some(Section(NameAt(strtab, h.name), FormOf(h), data))
         case _ => None)
      case _ => None
  }

  // ----- Reading back what was laid out -----

  function ShdrList(shdrs: seq<Shdr>): (r: seq<seq<byte>>) {
    seq(|shdrs|, i requires 0 <= i < |shdrs| => ShdrBytes(shdrs[i]))
  }

  /** The section header table. */
  function ShdrTable(shdrs: seq<Shdr>): (b: seq<byte>) {
    Flatten(ShdrList(shdrs), |shdrs|)
  }

  lemma ShdrInTable(shdrs: seq<Shdr>, k: nat)
    requires k < |shdrs|
    ensures |ShdrTable(shdrs)| == 64 * |shdrs|
    ensures ShdrTable(shdrs)[64 * k..64 * k + 64] == ShdrBytes(shdrs[k])
  {
    FixedOff(ShdrList(shdrs), 64, k);
    FixedOff(ShdrList(shdrs), 64, |shdrs|);
    PartAt(ShdrList(shdrs), |shdrs|, k);
  }

  /** The file begins with an ELF header and the table right behind it, string table at index. */
  predicate Begins(parts: seq<seq<byte>>, shdrs: seq<Shdr>, strndx: nat) {
    && |parts| >= 2 && strndx < |shdrs| < 0x1_0000 && parts[1] == ShdrTable(shdrs)
    && |parts[0]| == EHDR_SIZE && IsCore(parts[0]) && ShoffOf(parts[0]) == EHDR_SIZE
    && ShnumOf(parts[0]) == |shdrs| && ShstrndxOf(parts[0]) == strndx
    && forall k :: 0 <= k < |shdrs| ==> ShdrFits(shdrs[k])
  }

  lemma EhdrInFile(parts: seq<seq<byte>>, shdrs: seq<Shdr>, strndx: nat)
    requires Begins(parts, shdrs, strndx)
    ensures var file := Flatten(parts, |parts|);
      && |file| >= EHDR_SIZE && IsCore(file[..EHDR_SIZE]) && ShoffOf(file) == EHDR_SIZE
      && ShnumOf(file) == |shdrs| && ShstrndxOf(file) == strndx
  {
    PartAt(parts, |parts|, 0);
    var file := Flatten(parts, |parts|);
    assert file[..EHDR_SIZE] == parts[0];
    SubSlice(file, 0, parts[0], 40, 8);
    SubSlice(file, 0, parts[0], 60, 2);
    SubSlice(file, 0, parts[0], 62, 2);
  }

  lemma SubSlice(file: seq<byte>, off: nat, t: seq<byte>, a: nat, len: nat)
    requires off + |t| <= |file| && file[off..off + |t|] == t && a + len <= |t|
    ensures file[off + a..off + a + len] == t[a..a + len]
  {
    assert forall i :: 0 <= i < |t| ==> file[off + i] == t[i];
  }

  lemma HeaderIs(file: seq<byte>, k: nat, h: Shdr)
    requires |file| >= EHDR_SIZE && IsCore(file[..EHDR_SIZE]) && ShoffOf(file) == EHDR_SIZE && k < ShnumOf(file)
    requires ReadShdr(ShdrBytes(h)) == h
    requires 64 + 64 * k + 64 <= |file| && file[64 + 64 * k..64 + 64 * k + 64] == ShdrBytes(h)
    ensures HeaderAt(file, k) == Some(h)
  {
    assert Slice(file, ShoffOf(file) + 64 * k, SHDR_SIZE) == Some(ShdrBytes(h));
  }

  lemma TableInFile(parts: seq<seq<byte>>, shdrs: seq<Shdr>, k: nat)
    requires |parts| >= 2 && |parts[0]| == 64 && parts[1] == ShdrTable(shdrs) && k < |shdrs|
    ensures 64 + 64 * k + 64 <= |Flatten(parts, |parts|)|
    ensures Flatten(parts, |parts|)[64 + 64 * k..64 + 64 * k + 64] == ShdrBytes(shdrs[k])
  {
    SecondPart(parts);
    ShdrInTable(shdrs, k);
    SubSlice(Flatten(parts, |parts|), 64, parts[1], 64 * k, 64);
  }

  lemma SecondPart(parts: seq<seq<byte>>)
    requires |parts| >= 2 && |parts[0]| == 64
    ensures 64 + |parts[1]| <= |Flatten(parts, |parts|)|
    ensures Flatten(parts, |parts|)[64..64 + |parts[1]|] == parts[1]
  {
    PartAt(parts, |parts|, 1);
    assert Off(parts, 1) == 64;
  }

  lemma HeaderInFile(parts: seq<seq<byte>>, shdrs: seq<Shdr>, strndx: nat, k: nat)
    requires Begins(parts, shdrs, strndx) && k < |shdrs|
    ensures HeaderAt(Flatten(parts, |parts|), k) == Some(shdrs[k])
  {
    EhdrInFile(parts, shdrs, strndx);
    TableInFile(parts, shdrs, k);
    ShdrRoundTrip(shdrs[k]);
    HeaderIs(Flatten(parts, |parts|), k, shdrs[k]);
  }

  /** A header describes a part: where it starts and how long it is. */
  predicate Describes(h: Shdr, parts: seq<seq<byte>>, p: nat)
    requires p < |parts|
  {
    h.offset == Off(parts, p) && h.size == |parts[p]|
  }

  lemma PartIs(parts: seq<seq<byte>>, h: Shdr, p: nat)
    requires p < |parts| && Describes(h, parts, p)
    ensures Slice(Flatten(parts, |parts|), h.offset, h.size) == Some(parts[p])
  {
    PartAt(parts, |parts|, p);
    SliceIs(Flatten(parts, |parts|), Off(parts, p), parts[p]);
  }

  lemma SliceIs(file: seq<byte>, off: nat, t: seq<byte>)
    requires off + |t| <= |file| && file[off..off + |t|] == t
    ensures Slice(file, off, |t|) == Some(t)
  {
  }

  /** A reader finds in section k the part its header describes, under the name its header points to. */
  lemma ReadBack(parts: seq<seq<byte>>, shdrs: seq<Shdr>, strndx: nat, s: nat, k: nat, p: nat)
    requires Begins(parts, shdrs, strndx) && k < |shdrs| && s < |parts| && p < |parts|
    requires Describes(shdrs[strndx], parts, s) && Describes(shdrs[k], parts, p)
    ensures SectionAt(Flatten(parts, |parts|), k)
         == Some(Section(NameAt(parts[s], shdrs[k].name), FormOf(shdrs[k]), parts[p]))
  {
    EhdrInFile(parts, shdrs, strndx);
    HeaderInFile(parts, shdrs, strndx, k);
    HeaderInFile(parts, shdrs, strndx, strndx);
    PartIs(parts, shdrs[strndx], s);
    PartIs(parts, shdrs[k], p);
    SectionIs(Flatten(parts, |parts|), shdrs[strndx], parts[s], k, shdrs[k], parts[p]);
  }

  lemma SectionIs(file: seq<byte>, hs: Shdr, strtab: seq<byte>, k: nat, h: Shdr, data: seq<byte>)
    requires |file| >= EHDR_SIZE && HeaderAt(file, ShstrndxOf(file)) == Some(hs) && HeaderAt(file, k) == Some(h)
    requires Slice(file, hs.offset, hs.size) == Some(strtab) && Slice(file, h.offset, h.size) == Some(data)
    ensures SectionAt(file, k) == Some(Section(NameAt(strtab, h.name), FormOf(h), data))
  {
  }
}
