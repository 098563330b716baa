/**
  The loops that write and read the page-delta stream in place: the sender's
  one-pass compressor, which also brings the cached copy up to date, and the
  receiver's decoder. Each is proved against the format of module PageDelta.
 */
module PageCodec {
  import opened Common
  import opened PageDelta

  /** memcpy of a value into a buffer. */
  method CopyInto(dest: array<byte>, at: nat, data: seq<byte>)
    requires at + |data| <= dest.Length
    modifies dest
    ensures dest[..] == Overlay(old(dest[..]), at, data)
  {
    for i := 0 to |data|
      invariant forall j :: 0 <= j < i ==> dest[at + j] == data[j]
      invariant forall k :: 0 <= k < dest.Length && !(at <= k < at + i) ==> dest[k] == old(dest[k])
    {
      dest[at + i] := data[i];
    }
    assert dest[..at] == old(dest[..at]);
    assert dest[at..at + |data|] == data;
    assert dest[at + |data|..] == old(dest[at + |data|..]);
  }

  /**
    Sends a page whole, and installs it in its cache slot when it has one.
    out holds the bytes written so far to a buffer of size bytes.
   */
  method AddFullPage(out: seq<byte>, size: nat, src: seq<byte>, cache: array?<byte>)
    returns (rc: int, out': seq<byte>)
    requires IsPage(src) && (cache != null ==> cache.Length == XC_PAGE_SIZE)
    modifies if cache != null then {cache} else {}
    ensures rc == if |out| + FULL_PAGE_SIZE > size then -1 else FULL_PAGE_SIZE
    ensures rc < 0 ==> out' == out && (cache != null ==> cache[..] == old(cache[..]))
    ensures rc >= 0 ==> out' == out + EncodeFull(src) && (cache != null ==> cache[..] == src)
  {
    if |out| + FULL_PAGE_SIZE > size {
      return -1, out;
    }
    if cache != null {
      CopyInto(cache, 0, src);
    }
    return FULL_PAGE_SIZE, out + [FULL_PAGE] + src;
  }

  /** The run being scanned: words runptr..off, all copied or all skipped. */
  ghost predicate Scanning(ch: seq<bool>, runptr: nat, off: nat, copying: bool) {
    && |ch| == MAX_DELTAS && runptr < off <= MAX_DELTAS && off - runptr <= LENMASK
    && OneKind(ch, runptr, off) && ch[runptr] == copying
  }

  /** No further word can join the run. */
  ghost predicate Finished(ch: seq<bool>, runptr: nat, off: nat, copying: bool)
    requires |ch| == MAX_DELTAS && off <= MAX_DELTAS
  {
    off == MAX_DELTAS || off - runptr == LENMASK || ch[off] != copying
  }

  lemma {:induction false} RunEndsAt(ch: seq<bool>, start: nat, k: nat, off: nat, copying: bool)
    requires Scanning(ch, start, off, copying) && Finished(ch, start, off, copying) && start < k <= off
    ensures RunEnd(ch, start, k) == off
    decreases off - k
  {
    if k < off {
      assert ch[k] == ch[start];
      RunEndsAt(ch, start, k + 1, off, copying);
    }
  }

  /** The stream once the runs from word start on have followed out. */
  ghost function EncodeOnto(out: seq<byte>, ch: seq<bool>, newer: seq<byte>, start: nat): (s: seq<byte>)
    requires |ch| == MAX_DELTAS && IsPage(newer) && start <= MAX_DELTAS
    decreases |ch| - start
  {
    if start == MAX_DELTAS then out
    else
      var e := RunEnd(ch, start, start + 1);
      EncodeOnto(out + EncodeRun(ch, newer, start, e), ch, newer, e)
  }

  lemma {:induction false} EncodeOntoAppends(out: seq<byte>, ch: seq<bool>, newer: seq<byte>, start: nat)
    requires |ch| == MAX_DELTAS && IsPage(newer) && start <= MAX_DELTAS
    ensures EncodeOnto(out, ch, newer, start) == out + EncodeRuns(ch, newer, start)
    decreases |ch| - start
  {
    var onto, runs := EncodeOnto(out, ch, newer, start), EncodeRuns(ch, newer, start);
    if start == MAX_DELTAS {
      assert onto == out && runs == [];
    } else {
      var e := RunEnd(ch, start, start + 1);
      var run, rest := EncodeRun(ch, newer, start, e), EncodeRuns(ch, newer, e);
      EncodeOntoAppends(out + run, ch, newer, e);
      assert onto == out + run + rest && runs == run + rest;
      InOrder(out, run, rest);
    }
  }

  lemma InOrder(a: seq<byte>, b: seq<byte>, c: seq<byte>)
    ensures a + b + c == a + (b + c)
  {
  }

  /** A run that cannot grow past off is the run the format asks for. */
  lemma RunEmitted(ch: seq<bool>, newer: seq<byte>, runptr: nat, off: nat, copying: bool, out: seq<byte>)
    requires IsPage(newer) && Scanning(ch, runptr, off, copying) && Finished(ch, runptr, off, copying)
    ensures EncodeOnto(out + EncodeRun(ch, newer, runptr, off), ch, newer, off) == EncodeOnto(out, ch, newer, runptr)
    ensures SkippedBytes(ch, off) == SkippedBytes(ch, runptr) + if copying then 0 else 4 * (off - runptr)
  {
    RunEndsAt(ch, runptr, runptr + 1, off, copying);
    SkippedRun(ch, runptr, off, copying);
  }

  /** Bytes of the unchanged words below off. */
  ghost function SkippedBytes(ch: seq<bool>, off: nat): (n: nat)
    requires off <= |ch|
    ensures n <= 4 * off
  {
    if off == 0 then 0 else SkippedBytes(ch, off - 1) + if ch[off - 1] then 0 else 4
  }

  lemma {:induction false} SkippedRun(ch: seq<bool>, runptr: nat, off: nat, copying: bool)
    requires runptr <= off <= |ch| && forall k :: runptr <= k < off ==> ch[k] == copying
    ensures SkippedBytes(ch, off) == SkippedBytes(ch, runptr) + if copying then 0 else 4 * (off - runptr)
  {
    if runptr < off {
      SkippedRun(ch, runptr, off - 1, copying);
    }
  }

  lemma {:induction false} SkippedAll(ch: seq<bool>, off: nat)
    requires off <= |ch| && SkippedBytes(ch, off) == 4 * off
    ensures forall k :: 0 <= k < off ==> !ch[k]
  {
    if off > 0 {
      SkippedAll(ch, off - 1);
    }
  }

  /** Every byte of the page is skipped exactly when no word changed. */
  lemma EmptyExactlyWhenUnchanged(ch: seq<bool>)
    requires |ch| == MAX_DELTAS
    ensures SkippedBytes(ch, MAX_DELTAS) == XC_PAGE_SIZE <==> true !in ch
  {
    if true !in ch {
      SkippedRun(ch, 0, MAX_DELTAS, false);
    } else if SkippedBytes(ch, MAX_DELTAS) == XC_PAGE_SIZE {
      SkippedAll(ch, MAX_DELTAS);
    }
  }

  /** What the scan produces, with the check for an empty page, is the delta. */
  lemma EncodeByScan(older: seq<byte>, newer: seq<byte>)
    requires IsPage(older) && IsPage(newer)
    ensures Encode(older, newer)
            == if SkippedBytes(Diff(older, newer), MAX_DELTAS) == XC_PAGE_SIZE then [EMPTY_PAGE]
               else EncodeOnto([], Diff(older, newer), newer, 0)
  {
    var ch := Diff(older, newer);
    EmptyExactlyWhenUnchanged(ch);
    EncodeOntoAppends([], ch, newer, 0);
    assert [] + EncodeRuns(ch, newer, 0) == EncodeRuns(ch, newer, 0);
  }

  /** Word off joins the run, or begins a new one after a flush. */
  lemma ScanWord(ch: seq<bool>, runptr: nat, off: nat, copying: bool)
    requires |ch| == MAX_DELTAS && runptr <= off < MAX_DELTAS && copying == ch[off]
    requires runptr < off ==> off - runptr < LENMASK && Scanning(ch, runptr, off, copying)
    ensures Scanning(ch, runptr, off + 1, copying)
  {
  }

  /**
    Compares word off of the page and its cached copy. Words the compressor has
    not flushed are still those of the older page.
   */
  method CompareWord(src: seq<byte>, cache: array<byte>, off: nat, ghost older: seq<byte>, ghost runptr: nat)
    returns (differs: bool)
    requires cache.Length == XC_PAGE_SIZE && IsPage(older) && IsPage(src) && runptr <= off < MAX_DELTAS
    requires cache[..] == Mixed(older, src, runptr)
    ensures differs == Diff(older, src)[off]
  {
    var b := 4 * off;
    differs := !(cache[b] == src[b] && cache[b + 1] == src[b + 1]
                 && cache[b + 2] == src[b + 2] && cache[b + 3] == src[b + 3]);
    assert forall i :: b <= i < b + 4 ==> cache[..][i] == older[i];
    DiffWord(older, src, MAX_DELTAS, off);
  }

  /** Writes a finished run: its header and, when copied, its words to stream and cache. */
  method FlushRun(out: seq<byte>, src: seq<byte>, cache: array<byte>, runptr: nat, runlen: nat, copying: bool,
                  ghost older: seq<byte>, ghost ch: seq<bool>)
    returns (out': seq<byte>, skipped: nat)
    requires cache.Length == XC_PAGE_SIZE && IsPage(older) && IsPage(src) && ch == Diff(older, src)
    requires Scanning(ch, runptr, runptr + runlen, copying)
    requires cache[..] == Mixed(older, src, runptr)
    modifies cache
    ensures out' == out + EncodeRun(ch, src, runptr, runptr + runlen)
    ensures cache[..] == Mixed(older, src, runptr + runlen)
    ensures skipped == if copying then 0 else 4 * runlen
  {
    PatchOwnBase(older, src);
    RunExtendsMixed(ch, src, older, runptr, runptr + runlen);
    var runbytes := runlen * 4;
    skipped := 0;
    if copying {
      var pageoff := runptr * 4;
      out' := out + ([runlen] + src[pageoff..pageoff + runbytes]);
      CopyInto(cache, pageoff, src[pageoff..pageoff + runbytes]);
    } else {
      out' := out + [SKIPFLAG + runlen];
      skipped := runbytes;
    }
  }

  /** Progress of the scan: runs below runptr are out, the cached page is new below runptr. */
  ghost predicate Emitted(dest: seq<byte>, bytesSkipped: nat, ch: seq<bool>, newer: seq<byte>, runptr: nat) {
    && |ch| == MAX_DELTAS && IsPage(newer) && runptr <= MAX_DELTAS
    && EncodeOnto(dest, ch, newer, runptr) == EncodeOnto([], ch, newer, 0)
    && bytesSkipped == SkippedBytes(ch, runptr)
  }

  /** The body of the loop up to the point where word off is added to a run. */
  method FlushAt(off: nat, copying: bool, src: seq<byte>, cache: array<byte>, dest: seq<byte>, bytesSkipped: nat,
                 runptr: nat, runlen: nat, wascopying: bool, ghost older: seq<byte>, ghost ch: seq<bool>)
    returns (dest': seq<byte>, bytesSkipped': nat, runptr': nat, runlen': nat)
    requires cache.Length == XC_PAGE_SIZE && IsPage(older) && IsPage(src) && ch == Diff(older, src)
    requires off <= MAX_DELTAS && runlen == off - runptr && Emitted(dest, bytesSkipped, ch, src, runptr)
    requires runlen > 0 ==> Scanning(ch, runptr, off, wascopying)
    requires copying == if off < MAX_DELTAS then ch[off] else !wascopying
    requires cache[..] == Mixed(older, src, runptr)
    modifies cache
    ensures Emitted(dest', bytesSkipped', ch, src, runptr') && cache[..] == Mixed(older, src, runptr')
    ensures runlen' == off - runptr' && (off == MAX_DELTAS && runlen > 0 ==> runptr' == off)
    ensures runlen' > 0 ==> runlen' < LENMASK && Scanning(ch, runptr', off, copying)
  {
    dest', bytesSkipped', runptr', runlen' := dest, bytesSkipped, runptr, runlen;
    if runlen > 0 && (wascopying != copying || runlen == LENMASK) {
      RunEmitted(ch, src, runptr, off, wascopying, dest);
      var skipped;
      dest', skipped := FlushRun(dest, src, cache, runptr, runlen, wascopying, older, ch);
      bytesSkipped' := bytesSkipped + skipped;
      runlen' := 0;
      runptr' := off;
    }
  }

  /** The scan never writes more than 4105 bytes, not even before an unchanged page is cut to one. */
  lemma ScanFits(dest: seq<byte>, bytesSkipped: nat, ch: seq<bool>, src: seq<byte>)
    requires |ch| == MAX_DELTAS && IsPage(src) && Emitted(dest, bytesSkipped, ch, src, MAX_DELTAS)
    ensures |dest| <= WORST_COMP_PAGE_SIZE
  {
    EncodeOntoAppends([], ch, src, 0);
    RunsFit(ch, src, 0);
  }

  /** The scan over the words of the page, with the final flush at off == MAX_DELTAS. */
  method CompressRuns(src: seq<byte>, cache: array<byte>, ghost older: seq<byte>, ghost ch: seq<bool>)
    returns (dest: seq<byte>, bytesSkipped: nat)
    requires IsPage(src) && IsPage(older) && cache.Length == XC_PAGE_SIZE
    requires cache[..] == older && ch == Diff(older, src)
    modifies cache
    ensures cache[..] == Mixed(older, src, MAX_DELTAS)
    ensures Emitted(dest, bytesSkipped, ch, src, MAX_DELTAS) && |dest| <= WORST_COMP_PAGE_SIZE
  {
    var off: nat, runptr: nat, runlen: nat, wascopying := 0, 0, 0, false;
    dest, bytesSkipped := [], 0;
    MixedEnds(older, src);
    while off <= MAX_DELTAS
      invariant off <= MAX_DELTAS + 1 && (off > MAX_DELTAS ==> runptr == MAX_DELTAS)
      invariant off <= MAX_DELTAS ==> runptr <= off && runlen == off - runptr && (off > 0 ==> runlen > 0)
      invariant off <= MAX_DELTAS && runlen > 0 ==> Scanning(ch, runptr, off, wascopying)
      invariant Emitted(dest, bytesSkipped, ch, src, runptr) && cache[..] == Mixed(older, src, runptr)
    {
      var copying := !wascopying;
      if off < MAX_DELTAS {
        copying := CompareWord(src, cache, off, older, runptr);
      }
      dest, bytesSkipped, runptr, runlen :=
        FlushAt(off, copying, src, cache, dest, bytesSkipped, runptr, runlen, wascopying, older, ch);
      if off < MAX_DELTAS {
        ScanWord(ch, runptr, off, copying);
      }
      runlen := runlen + 1;
      wascopying := copying;
      off := off + 1;
    }
    ScanFits(dest, bytesSkipped, ch, src);
  }

  /**
    The sender's compressor. One space check covers every write; the cached
    copy ends equal to the page sent, and the bytes emitted are the delta.
   */
  method CompressPage(out: seq<byte>, size: nat, src: seq<byte>, cache: array<byte>)
    returns (rc: int, out': seq<byte>)
    requires IsPage(src) && cache.Length == XC_PAGE_SIZE
    modifies cache
    ensures (rc < 0) == (|out| + WORST_COMP_PAGE_SIZE > size)
    ensures rc < 0 ==> rc == -1 && out' == out && cache[..] == old(cache[..])
    ensures rc >= 0 ==> rc == |Encode(old(cache[..]), src)| && out' == out + Encode(old(cache[..]), src)
    ensures rc >= 0 ==> cache[..] == src && |out'| <= size
  {
    if |out| + WORST_COMP_PAGE_SIZE > size {
      return -1, out;
    }
    ghost var older := cache[..];
    EncodeFits(older, src);
    EncodeByScan(older, src);
    MixedEnds(older, src);
    var dest, bytesSkipped := CompressRuns(src, cache, older, Diff(older, src));
    if bytesSkipped == XC_PAGE_SIZE {
      dest := [EMPTY_PAGE];
    }
    return |dest|, out + dest;
  }

  /** What is left of the stream at pos. */
  function Tail(compbuf: seq<byte>, pos: nat): (s: seq<byte>) {
    if pos <= |compbuf| then compbuf[pos..] else []
  }

  /** One pass of the receiver's run loop. */
  method ReadRun(compbuf: seq<byte>, pos: nat, dest: array<byte>, pagepos: nat)
    returns (ok: bool, pos': nat, pagepos': nat)
    requires dest.Length == XC_PAGE_SIZE && pos < |compbuf| && pagepos < XC_PAGE_SIZE
    modifies dest
    ensures !ok ==> DecodeRun(compbuf[pos..], old(dest[..]), pagepos) == Stop(Corrupt(dest[..]))
    ensures ok ==> pos < pos' <= |compbuf|
    ensures ok ==> DecodeRun(compbuf[pos..], old(dest[..]), pagepos) == AfterRun(compbuf[pos'..], dest[..], pagepos')
  {
    ghost var s := compbuf[pos..];
    var words: int := compbuf[pos] % 128;
    var len := words * 4;
    if len == 0 {
      return false, pos, pagepos;
    }
    pos' := pos + 1;
    assert s[1..] == compbuf[pos'..];
    if compbuf[pos] < SKIPFLAG {
      if pos' + len > |compbuf| || pagepos + len > XC_PAGE_SIZE {
        return false, pos, pagepos;
      }
      assert s[1..1 + len] == compbuf[pos'..pos' + len];
      assert s[1 + len..] == compbuf[pos' + len..];
      CopyInto(dest, pagepos, compbuf[pos'..pos' + len]);
      pos' := pos' + len;
    }
    return true, pos', pagepos + len;
  }

  /** The receiver's decoder, writing over its copy of the page in place. */
  method UncompressPage(compbuf: seq<byte>, pos: nat, dest: array<byte>) returns (rc: int, pos': nat)
    requires dest.Length == XC_PAGE_SIZE
    modifies dest
    ensures match Decode(Tail(compbuf, pos), old(dest[..]))
      case Restored(page, rest) => rc == 0 && dest[..] == page && pos' <= |compbuf| && compbuf[pos'..] == rest
      case Corrupt(partial) => rc == -1 && dest[..] == partial && pos' == pos
  {
    if pos >= |compbuf| {
      return -1, pos;
    }
    ghost var s := compbuf[pos..];
    if compbuf[pos] == EMPTY_PAGE {
      assert s[1..] == compbuf[pos + 1..];
      return 0, pos + 1;
    }
    if compbuf[pos] == FULL_PAGE {
      if pos + FULL_PAGE_SIZE > |compbuf| {
        return -1, pos;
      }
      assert s[1..FULL_PAGE_SIZE] == compbuf[pos + 1..pos + FULL_PAGE_SIZE];
      assert s[FULL_PAGE_SIZE..] == compbuf[pos + FULL_PAGE_SIZE..];
      CopyInto(dest, 0, compbuf[pos + 1..pos + FULL_PAGE_SIZE]);
      return 0, pos + FULL_PAGE_SIZE;
    }
    ghost var result := DecodeRuns(s, dest[..], 0);
    var pagepos: nat := 0;
    pos' := pos;
    while true
      invariant pos <= pos' < |compbuf| && pagepos < XC_PAGE_SIZE
      invariant DecodeRuns(compbuf[pos'..], dest[..], pagepos) == result
      decreases |compbuf| - pos'
    {
      var ok;
      ok, pos', pagepos := ReadRun(compbuf, pos', dest, pagepos);
      if !ok {
        return -1, pos;
      }
      if pagepos >= XC_PAGE_SIZE || pos' >= |compbuf| {
        break;
      }
    }
    if pagepos != XC_PAGE_SIZE {
      return -1, pos;
    }
    return 0, pos';
  }
}
