/**
 The user-space ELF loader of tools/dlopen-poc/minidl.c: address span, segment mapping, the walk over
 the dynamic section and the relocation passes, with 64-bit modular addresses. The reserved span is an
 array of bytes; an address stands for the index at its distance from the start of the span.
 */
module Loader {
  import opened LittleEndian

  const M := 0x1_0000_0000_0000_0000
  const PAGE := 0x1000

  function PageDown(x: nat): (r: nat)
    ensures r <= x < r + PAGE
  {
    x - x % PAGE
  }

  /** PAGE_UP, with the wrap of a 64-bit addition. */
  function PageUp(x: nat): nat {
    PageDown((x + PAGE - 1) % M)
  }

  datatype Kind = Load | Dynamic | OtherKind

  datatype Phdr = Phdr(kind: Kind, write: bool, offset: Word, vaddr: Word, filesz: Word, memsz: Word)

  // ----- The span

  /** Lowest address, highest end (wrapping) and dynamic section of the first n headers. */
  datatype Extent = Extent(vmin: nat, vmax: nat, dyn: nat)

  ghost function ExtentOf(ph: seq<Phdr>, n: nat): (e: Extent)
    requires n <= |ph|
    ensures e.vmin < M
  {
    if n == 0 then Extent(M - 1, 0, 0) else
    var e, p := ExtentOf(ph, n - 1), ph[n - 1];
    match p.kind
    case Load => e.(vmin := if p.vaddr < e.vmin then p.vaddr else e.vmin,
                    vmax := if (p.vaddr + p.memsz) % M > e.vmax then (p.vaddr + p.memsz) % M else e.vmax)
    case Dynamic => e.(dyn := p.vaddr)
    case OtherKind => e
  }

  /** Every loadable segment lies within the extent, and both of its ends are those of segments. */
  lemma {:induction false} ExtentIsTight(ph: seq<Phdr>, n: nat)
    requires n <= |ph|
    ensures var e := ExtentOf(ph, n);
            && (forall i | 0 <= i < n && ph[i].kind == Load ::
                  e.vmin <= ph[i].vaddr && (ph[i].vaddr + ph[i].memsz) % M <= e.vmax)
            && (e.vmin == M - 1 || exists i :: 0 <= i < n && ph[i].kind == Load && ph[i].vaddr == e.vmin)
            && (e.vmax == 0 || exists i :: 0 <= i < n && ph[i].kind == Load && (ph[i].vaddr + ph[i].memsz) % M == e.vmax)
  {
    if n > 0 {
      ExtentIsTight(ph, n - 1);
    }
  }

  method Span(ph: seq<Phdr>) returns (vmin: nat, vmax: nat, dyn: nat)
    ensures Extent(vmin, vmax, dyn) == ExtentOf(ph, |ph|)
  {
    vmin, vmax, dyn := M - 1, 0, 0;
    for i := 0 to |ph|
      invariant Extent(vmin, vmax, dyn) == ExtentOf(ph, i)
    {
      var p := ph[i];
      if p.kind == Load {
        if p.vaddr < vmin {
          vmin := p.vaddr;
        }
        if (p.vaddr + p.memsz) % M > vmax {
          vmax := (p.vaddr + p.memsz) % M;
        }
      } else if p.kind == Dynamic {
        dyn := p.vaddr;
      }
    }
  }

  /** A segment the loader can map: no wrap, file bytes present, file and address congruent by page. */
  predicate SegmentOk(fileLen: nat, p: Phdr) {
    && p.vaddr + p.memsz + PAGE <= M && p.filesz <= p.memsz
    && p.offset + p.filesz <= fileLen && p.vaddr % PAGE == p.offset % PAGE
  }

  /** No two segments share a page. */
  predicate Apart(p: Phdr, q: Phdr) {
    || PageUp(p.vaddr + p.memsz) <= PageDown(q.vaddr)
    || PageUp(q.vaddr + q.memsz) <= PageDown(p.vaddr)
  }

  ghost predicate LayoutOk(fileLen: nat, ph: seq<Phdr>) {
    && (forall i | 0 <= i < |ph| :: ph[i].kind == Load ==> SegmentOk(fileLen, ph[i]))
    && (forall i, j | 0 <= i < j < |ph| :: ph[i].kind == Load && ph[j].kind == Load ==> Apart(ph[i], ph[j]))
  }

  // ----- Addresses

  /** The load bias: start of the span minus the lowest page of the object, modulo 2^64. */
  function Bias(base: nat, low: nat): (r: nat)
    requires low <= M
    ensures r < M
  {
    (base + M - low) % M
  }

  /** The index in the span of an address. */
  function Index(base: nat, a: nat): nat
    requires base <= M
  {
    (a % M + M - base) % M
  }

  /** bias + v lands as far from the start of the span as v is from the object's lowest page. */
  lemma BiasedIndex(base: nat, low: nat, v: nat)
    requires low <= v < M && base < M
    ensures Index(base, Bias(base, low) + v) == v - low
  {
  }

  /** The index of bias + v. */
  method Place(base: nat, low: nat, v: nat) returns (i: nat)
    requires low <= v < M && base < M
    ensures i == v - low
  {
    BiasedIndex(base, low, v);
    i := Index(base, Bias(base, low) + v);
  }

  // ----- Mapping the segments

  /** Where the pages of a segment lie in the span. */
  ghost predicate InPages(p: Phdr, low: nat, i: nat) {
    PageDown(p.vaddr) <= low + i < PageUp(p.vaddr + p.memsz)
  }

  /** The segment's file bytes are at its address, and zeroes behind them if it is writable. */
  ghost predicate Mapped(img: seq<byte>, file: seq<byte>, p: Phdr, low: nat) {
    && low <= p.vaddr && p.vaddr - low + p.memsz <= |img| && p.filesz <= p.memsz && p.offset + p.filesz <= |file|
    && (forall i | p.vaddr - low <= i < p.vaddr - low + p.filesz :: img[i] == file[i - (p.vaddr - low) + p.offset])
    && (p.write ==> forall i | p.vaddr - low + p.filesz <= i < p.vaddr - low + p.memsz :: img[i] == 0)
  }

  /** mmap, anonymous and fixed: zero pages over [at, at + n). */
  method MapAnonymous(image: array<byte>, at: nat, n: nat)
    requires at + n <= image.Length
    modifies image
    ensures forall i | 0 <= i < image.Length :: image[i] == if at <= i < at + n then 0 else old(image[i])
  {
    forall i | at <= i < at + n { image[i] := 0; }
  }

  /** mmap, file-backed and fixed: the file from off on, zeroes past its end. */
  method MapFile(image: array<byte>, at: nat, n: nat, file: seq<byte>, off: nat)
    requires at + n <= image.Length
    modifies image
    ensures forall i | 0 <= i < image.Length ::
              image[i] == if at <= i < at + n then (if off + (i - at) < |file| then file[off + (i - at)] else 0) else old(image[i])
  {
    forall i | at <= i < at + n { image[i] := if off + (i - at) < |file| then file[off + (i - at)] else 0; }
  }

  /** memcpy from the file buffer. */
  method CopyIn(image: array<byte>, at: nat, n: nat, file: seq<byte>, off: nat)
    requires at + n <= image.Length && off + n <= |file|
    modifies image
    ensures forall i | 0 <= i < image.Length ::
              image[i] == if at <= i < at + n then file[off + (i - at)] else old(image[i])
  {
    forall i | at <= i < at + n { image[i] := file[off + (i - at)]; }
  }

  lemma PageDownAligned(x: nat)
    ensures PageDown(x) % PAGE == 0
  {
  }

  /** The last and the next multiple of 4096. */
  lemma PageExactly(x: nat)
    ensures PageDown(x) % 4096 == 0 && PageDown(x) <= x < PageDown(x) + 4096
    ensures x + 4096 <= 0x1_0000_0000_0000_0000 ==> PageUp(x) % 4096 == 0 && x <= PageUp(x) < x + 4096
  {
    if x + 4096 <= M {
      PageUpReaches(x);
    }
  }

  lemma PageUpReaches(x: nat)
    requires x + PAGE <= M
    ensures x <= PageUp(x) < x + PAGE && PageUp(x) % PAGE == 0
  {
  }

  lemma PageUpMonotonic(x: nat, y: nat)
    requires x <= y && y + PAGE <= M
    ensures PageUp(x) <= PageUp(y)
  {
  }

  lemma NoWrap(x: nat)
    requires x < M
    ensures x % M == x
  {
  }

  lemma AlignedBelow(low: nat, v: nat)
    requires low % PAGE == 0 && low <= v
    ensures low <= PageDown(v)
  {
  }

  lemma SameOffset(v: nat, o: nat)
    requires v % PAGE == o % PAGE
    ensures o == PageDown(o) + (v - PageDown(v))
  {
  }

  /** Where the pieces of a segment go, in plain arithmetic. */
  lemma SegmentFacts(p: Phdr, low: nat, len: nat, fileLen: nat, end: nat, size: nat)
    requires SegmentOk(fileLen, p) && low % PAGE == 0 && low <= p.vaddr && PageUp(p.vaddr + p.memsz) - low <= len
    requires p.filesz <= size <= p.memsz && end == PageUp((p.vaddr + size) % M)
    ensures low <= PageDown(p.vaddr) <= end && end - low <= len
    ensures p.vaddr + size <= end <= PageUp(p.vaddr + p.memsz)
    ensures p.offset == PageDown(p.offset) + (p.vaddr - PageDown(p.vaddr))
    ensures p.vaddr - low + p.memsz <= len
  {
    NoWrap(p.vaddr + size);
    PageUpReaches(p.vaddr + size);
    PageUpReaches(p.vaddr + p.memsz);
    PageUpMonotonic(p.vaddr + size, p.vaddr + p.memsz);
    AlignedBelow(low, p.vaddr);
    SameOffset(p.vaddr, p.offset);
  }

  /** The span after the bytes of [start, end) were replaced: by file bytes and zeroes, or by the file from off on. */
  ghost function Replaced(img: seq<byte>, file: seq<byte>, p: Phdr, low: nat, start: nat, end: nat,
                          off: nat): (r: seq<byte>)
    ensures |r| == |img|
  {
    seq(|img|, i requires 0 <= i < |img| =>
      if !(start <= low + i < end) then img[i]
      else if p.write then
        if p.vaddr <= low + i < p.vaddr + p.filesz && low + i - p.vaddr + p.offset < |file|
        then file[low + i - p.vaddr + p.offset] else 0
      else
        if off + (low + i - start) < |file| then file[off + (low + i - start)] else 0)
  }

  /** The span after mapping one segment: its pages are replaced, the rest stays. */
  ghost function MapOne(img: seq<byte>, file: seq<byte>, p: Phdr, low: nat): (r: seq<byte>)
    ensures |r| == |img|
  {
    Replaced(img, file, p, low, PageDown(p.vaddr), PageUp((p.vaddr + if p.write then p.memsz else p.filesz) % M),
             PageDown(p.offset))
  }

  ghost function MapAll(img: seq<byte>, file: seq<byte>, ph: seq<Phdr>, low: nat, n: nat): (r: seq<byte>)
    requires n <= |ph|
    ensures |r| == |img|
  {
    if n == 0 then img else
    var r := MapAll(img, file, ph, low, n - 1);
    if ph[n - 1].kind == Load then MapOne(r, file, ph[n - 1], low) else r
  }

  /** Replacing [start, end) maps the segment and keeps every byte outside [start, last). */
  lemma ReplacedMaps(img: seq<byte>, file: seq<byte>, p: Phdr, low: nat, start: nat, end: nat, off: nat, last: nat)
    requires low <= start <= p.vaddr && p.filesz <= p.memsz && p.offset + p.filesz <= |file|
    requires p.vaddr - low + p.memsz <= |img| && p.vaddr + (if p.write then p.memsz else p.filesz) <= end <= last
    requires p.offset == off + (p.vaddr - start)
    ensures Mapped(Replaced(img, file, p, low, start, end, off), file, p, low)
    ensures forall i: nat | i < |img| && !(start <= low + i < last) ::
            Replaced(img, file, p, low, start, end, off)[i] == img[i]
  {
  }

  lemma MapOneMaps(img: seq<byte>, file: seq<byte>, p: Phdr, low: nat)
    requires SegmentOk(|file|, p) && low % PAGE == 0 && low <= p.vaddr && PageUp(p.vaddr + p.memsz) - low <= |img|
    ensures Mapped(MapOne(img, file, p, low), file, p, low)
    ensures forall i: nat | i < |img| && !InPages(p, low, i) :: MapOne(img, file, p, low)[i] == img[i]
  {
    var size := if p.write then p.memsz else p.filesz;
    var start, end := PageDown(p.vaddr), PageUp((p.vaddr + size) % M);
    SegmentFacts(p, low, |img|, |file|, end, size);
    ReplacedMaps(img, file, p, low, start, end, PageDown(p.offset), PageUp(p.vaddr + p.memsz));
  }

  /** One round of minidl_open's second loop, with the places already worked out. */
  method MapAt(image: array<byte>, file: seq<byte>, p: Phdr, low: Word, want: nat, dst: nat, n: nat)
    requires SegmentOk(|file|, p) && low <= PageDown(p.vaddr) && want == PageDown(p.vaddr) - low && dst == p.vaddr - low
    requires want + n <= image.Length && dst + p.filesz <= want + n
    requires low + want + n == PageUp((p.vaddr + if p.write then p.memsz else p.filesz) % M)
    modifies image
    ensures image[..] == MapOne(old(image[..]), file, p, low)
  {
    if p.write {
      MapAnonymous(image, want, n);
      CopyIn(image, dst, p.filesz, file, p.offset);
    } else {
      MapFile(image, want, n, file, PageDown(p.offset));
    }
  }

  /** One round of minidl_open's second loop. */
  method MapSegment(image: array<byte>, file: seq<byte>, p: Phdr, base: Word, low: Word)
    requires SegmentOk(|file|, p) && low % PAGE == 0 && low <= p.vaddr && PageUp(p.vaddr + p.memsz) - low <= image.Length
    modifies image
    ensures image[..] == MapOne(old(image[..]), file, p, low)
  {
    var start := PageDown(p.vaddr);
    var size := if p.write then p.memsz else p.filesz;
    var end := PageUp((p.vaddr + size) % M);
    SegmentFacts(p, low, image.Length, |file|, end, size);
    var want := Place(base, low, start);
    var dst := Place(base, low, p.vaddr);
    MapAt(image, file, p, low, want, dst, end - start);
  }

  ghost predicate SpanCovers(ph: seq<Phdr>, low: nat, len: nat) {
    forall i | 0 <= i < |ph| && ph[i].kind == Load :: low <= ph[i].vaddr && PageUp(ph[i].vaddr + ph[i].memsz) - low <= len
  }

  lemma SegmentInSpan(fileLen: nat, p: Phdr, vmin: nat, vmax: nat)
    requires SegmentOk(fileLen, p) && vmin <= p.vaddr && (p.vaddr + p.memsz) % M <= vmax && vmax + PAGE <= M
    ensures PageDown(vmin) <= p.vaddr && PageUp(p.vaddr + p.memsz) <= PageUp(vmax)
  {
    assert (p.vaddr + p.memsz) % M == p.vaddr + p.memsz;
    PageUpMonotonic(p.vaddr + p.memsz, vmax);
  }

  lemma ExtentFits(fileLen: nat, ph: seq<Phdr>)
    requires LayoutOk(fileLen, ph)
    ensures ExtentOf(ph, |ph|).vmax + PAGE <= M
  {
    ExtentIsTight(ph, |ph|);
    var e := ExtentOf(ph, |ph|);
    if e.vmax > 0 {
      var i :| 0 <= i < |ph| && ph[i].kind == Load && (ph[i].vaddr + ph[i].memsz) % M == e.vmax;
      SegmentFits(fileLen, ph[i]);
    }
  }

  lemma SegmentFits(fileLen: nat, p: Phdr)
    requires SegmentOk(fileLen, p)
    ensures (p.vaddr + p.memsz) % M + PAGE <= M
  {
  }

  /** The reserved span covers every segment. */
  lemma SpanSuffices(fileLen: nat, ph: seq<Phdr>)
    requires LayoutOk(fileLen, ph) && ExtentOf(ph, |ph|).vmin != M - 1
    ensures var e := ExtentOf(ph, |ph|);
            && PageDown(e.vmin) % PAGE == 0 && PageDown(e.vmin) <= PageUp(e.vmax) && e.vmin < M
            && SpanCovers(ph, PageDown(e.vmin), PageUp(e.vmax) - PageDown(e.vmin))
  {
    var e := ExtentOf(ph, |ph|);
    ExtentIsTight(ph, |ph|);
    ExtentFits(fileLen, ph);
    forall i | 0 <= i < |ph| && ph[i].kind == Load
      ensures PageDown(e.vmin) <= ph[i].vaddr && PageUp(ph[i].vaddr + ph[i].memsz) <= PageUp(e.vmax)
    {
      SegmentInSpan(fileLen, ph[i], e.vmin, e.vmax);
    }
    var i :| 0 <= i < |ph| && ph[i].kind == Load && ph[i].vaddr == e.vmin;
    PageDownAligned(e.vmin);
    PageUpReaches(ph[i].vaddr + ph[i].memsz);
  }

  /** All PT_LOAD segments in turn; what they leave does not depend on where the span lies. */
  method MapSegments(image: array<byte>, file: seq<byte>, ph: seq<Phdr>, base: Word, low: Word)
    requires LayoutOk(|file|, ph) && low % PAGE == 0 && SpanCovers(ph, low, image.Length)
    modifies image
    ensures image[..] == MapAll(old(image[..]), file, ph, low, |ph|)
  {
    for n := 0 to |ph|
      invariant image[..] == MapAll(old(image[..]), file, ph, low, n)
    {
      if ph[n].kind == Load {
        MapSegment(image, file, ph[n], base, low);
      }
    }
  }

  /** Segments mapped earlier keep their bytes: no later segment touches their pages. */
  lemma ApartKeeps(p: Phdr, q: Phdr, low: nat, fileLen: nat, i: nat)
    requires SegmentOk(fileLen, p) && Apart(p, q) && low <= p.vaddr && low <= q.vaddr
    requires p.vaddr <= low + i < p.vaddr + p.memsz
    ensures !InPages(q, low, i)
  {
    PageUpReaches(p.vaddr + p.memsz);
  }

  lemma StillMapped(before: seq<byte>, after: seq<byte>, file: seq<byte>, p: Phdr, q: Phdr, low: nat)
    requires SegmentOk(|file|, p) && Apart(p, q) && low <= q.vaddr
    requires Mapped(before, file, p, low) && |after| == |before|
    requires forall i | 0 <= i < |after| && !InPages(q, low, i) :: after[i] == before[i]
    ensures Mapped(after, file, p, low)
  {
    forall i: nat | p.vaddr - low <= i < p.vaddr - low + p.memsz ensures after[i] == before[i] {
      ApartKeeps(p, q, low, |file|, i);
    }
  }

  /** Every segment ends up with its file bytes and, if writable, its zeroes; pages of no segment are untouched. */
  lemma {:induction false} AllMapped(img: seq<byte>, file: seq<byte>, ph: seq<Phdr>, low: nat, n: nat)
    requires LayoutOk(|file|, ph) && low % PAGE == 0 && SpanCovers(ph, low, |img|) && n <= |ph|
    ensures forall j | 0 <= j < n && ph[j].kind == Load :: Mapped(MapAll(img, file, ph, low, n), file, ph[j], low)
    ensures forall i | 0 <= i < |img| && (forall j | 0 <= j < n && ph[j].kind == Load :: !InPages(ph[j], low, i)) ::
              MapAll(img, file, ph, low, n)[i] == img[i]
  {
    if n > 0 {
      AllMapped(img, file, ph, low, n - 1);
      if ph[n - 1].kind == Load {
        var before := MapAll(img, file, ph, low, n - 1);
        MapOneMaps(before, file, ph[n - 1], low);
        forall j | 0 <= j < n - 1 && ph[j].kind == Load ensures Mapped(MapAll(img, file, ph, low, n), file, ph[j], low) {
          StillMapped(before, MapOne(before, file, ph[n - 1], low), file, ph[j], ph[n - 1], low);
        }
      }
    }
  }

  // ----- The dynamic section

  const DT_NULL := 0
  const DT_PLTRELSZ := 2
  const DT_HASH := 4
  const DT_STRTAB := 5
  const DT_SYMTAB := 6
  const DT_RELA := 7
  const DT_RELASZ := 8
  const DT_JMPREL := 23

  /** Tag and value of an entry of the dynamic section. */
  datatype Dyn = Dyn(tag: nat, val: nat)

  function DynAt(img: seq<byte>, d: nat, k: nat): Dyn
    requires d + 16 * k + 16 <= |img|
  {
    Dyn(U64(img, d + 16 * k), U64(img, d + 16 * k + 8))
  }

  ghost function DynSection(img: seq<byte>, d: nat, n: nat): (r: seq<Dyn>)
    requires d + 16 * n <= |img|
    ensures |r| == n
  {
    seq(n, k requires 0 <= k < n => DynAt(img, d, k))
  }

  /** The last entry with the given tag, -1 if there is none. */
  ghost function LastTag(es: seq<Dyn>, tag: nat, n: nat): (r: int)
    requires n <= |es|
    ensures -1 <= r < n
  {
    if n == 0 then -1 else if es[n - 1].tag == tag then n - 1 else LastTag(es, tag, n - 1)
  }

  lemma {:induction false} LastTagIsLast(es: seq<Dyn>, tag: nat, n: nat)
    requires n <= |es|
    ensures var r := LastTag(es, tag, n);
            (r >= 0 ==> es[r].tag == tag) && forall k | r < k < n :: es[k].tag != tag
  {
    if n > 0 && es[n - 1].tag != tag {
      LastTagIsLast(es, tag, n - 1);
    }
  }

  /** A pointer field: bias plus the last value given for the tag, NULL if none was. */
  ghost function PointerFor(es: seq<Dyn>, tag: nat, n: nat, bias: nat): nat
    requires n <= |es|
  {
    var k := LastTag(es, tag, n);
    if k < 0 then 0 else (bias + es[k].val) % M
  }

  ghost function SizeFor(es: seq<Dyn>, tag: nat, n: nat): nat
    requires n <= |es|
  {
    var k := LastTag(es, tag, n);
    if k < 0 then 0 else es[k].val
  }

  datatype Tables = Tables(symtab: nat, strtab: nat, hash: nat, rela: nat, relasz: nat, jmprel: nat, pltrelsz: nat)

  /** For every tag the last entry counts. */
  ghost function TablesOf(es: seq<Dyn>, n: nat, bias: nat): Tables
    requires n <= |es|
  {
    Tables(PointerFor(es, DT_SYMTAB, n, bias), PointerFor(es, DT_STRTAB, n, bias), PointerFor(es, DT_HASH, n, bias),
           PointerFor(es, DT_RELA, n, bias), SizeFor(es, DT_RELASZ, n),
           PointerFor(es, DT_JMPREL, n, bias), SizeFor(es, DT_PLTRELSZ, n))
  }

  /** The switch of the walk. */
  function NoteEntry(t: Tables, e: Dyn, bias: nat): Tables {
    var p := (bias + e.val) % M;
    if e.tag == DT_SYMTAB then t.(symtab := p)
    else if e.tag == DT_STRTAB then t.(strtab := p)
    else if e.tag == DT_HASH then t.(hash := p)
    else if e.tag == DT_RELA then t.(rela := p)
    else if e.tag == DT_RELASZ then t.(relasz := e.val)
    else if e.tag == DT_JMPREL then t.(jmprel := p)
    else if e.tag == DT_PLTRELSZ then t.(pltrelsz := e.val)
    else t
  }

  lemma NoteIsLast(es: seq<Dyn>, n: nat, bias: nat)
    requires n < |es|
    ensures TablesOf(es, n + 1, bias) == NoteEntry(TablesOf(es, n, bias), es[n], bias)
  {
    TagStep(es, DT_SYMTAB, n, bias);
    TagStep(es, DT_STRTAB, n, bias);
    TagStep(es, DT_HASH, n, bias);
    TagStep(es, DT_RELA, n, bias);
    TagStep(es, DT_RELASZ, n, bias);
    TagStep(es, DT_JMPREL, n, bias);
    TagStep(es, DT_PLTRELSZ, n, bias);
  }

  lemma TagStep(es: seq<Dyn>, tag: nat, n: nat, bias: nat)
    requires n < |es|
    ensures PointerFor(es, tag, n + 1, bias) == if es[n].tag == tag then (bias + es[n].val) % M else PointerFor(es, tag, n, bias)
    ensures SizeFor(es, tag, n + 1) == if es[n].tag == tag then es[n].val else SizeFor(es, tag, n)
  {
  }

  /** The dynamic section at d ends in DT_NULL at entry n. */
  predicate Terminated(img: seq<byte>, d: nat, n: nat) {
    && d + 16 * n + 16 <= |img| && DynAt(img, d, n).tag == DT_NULL
    && forall k | 0 <= k < n :: DynAt(img, d, k).tag != DT_NULL
  }

  /** The walk over the dynamic section up to DT_NULL, entry n. */
  method WalkDynamic(img: seq<byte>, d: nat, bias: nat, ghost n: nat) returns (t: Tables)
    requires Terminated(img, d, n)
    ensures t == TablesOf(DynSection(img, d, n), n, bias)
  {
    t := Tables(0, 0, 0, 0, 0, 0, 0);
    var k := 0;
    ghost var es := DynSection(img, d, n);
    while DynAt(img, d, k).tag != DT_NULL
      invariant k <= n && t == TablesOf(es, k, bias)
      decreases n - k
    {
      NoteIsLast(es, k, bias);
      t := NoteEntry(t, DynAt(img, d, k), bias);
      k := k + 1;
    }
  }

  // ----- Symbols

  type Name = seq<byte>

  /** The C string at i. */
  function CString(img: seq<byte>, i: nat): Name
    decreases |img| - i
  {
    if i >= |img| || img[i] == 0 then [] else [img[i]] + CString(img, i + 1)
  }

  /** The first host export of that name, NULL if there is none. */
  ghost function HostAddr(host: seq<(Name, Word)>, name: Name, i: nat): Word
    requires i <= |host|
    decreases |host| - i
  {
    if i == |host| then 0 else if host[i].0 == name then host[i].1 else HostAddr(host, name, i + 1)
  }

  /** What relocation needs to know: the object's lowest page, its symbol and string tables, the host's exports. */
  datatype Link = Link(low: nat, symtab: nat, strtab: nat, host: seq<(Name, Word)>)

  /** The index of symbol table entry sym, and of a name, in the span. */
  function SymIndex(l: Link, sym: nat): int {
    l.symtab + 24 * sym - l.low
  }

  predicate SymbolInside(img: seq<byte>, l: Link, sym: nat) {
    0 <= SymIndex(l, sym) && SymIndex(l, sym) + 24 <= |img|
  }

  function NameIndex(img: seq<byte>, l: Link, sym: nat): int
    requires SymbolInside(img, l, sym)
  {
    l.strtab + U32(img, SymIndex(l, sym)) - l.low
  }

  predicate IsLocal(img: seq<byte>, l: Link, sym: nat)
    requires SymbolInside(img, l, sym)
  {
    U16(img, SymIndex(l, sym) + 6) != 0
  }

  ghost predicate NameInside(img: seq<byte>, l: Link, sym: nat)
    requires SymbolInside(img, l, sym)
  {
    NameIndex(img, l, sym) >= 0
  }

  /** resolve: bias + st_value for a symbol of the object, else the host's address, else NULL. */
  ghost function Resolved(img: seq<byte>, l: Link, bias: nat, sym: nat): nat
    requires SymbolInside(img, l, sym) && NameInside(img, l, sym)
  {
    if IsLocal(img, l, sym) then (bias + U64(img, SymIndex(l, sym) + 8)) % M
    else HostAddr(l.host, CString(img, NameIndex(img, l, sym)), 0)
  }

  method Resolve(img: seq<byte>, l: Link, base: nat, sym: nat) returns (r: nat)
    requires SymbolInside(img, l, sym) && NameInside(img, l, sym) && base < M
    requires l.symtab + 24 * sym < M && l.low <= l.symtab && l.strtab + U32(img, SymIndex(l, sym)) < M
    ensures r == Resolved(img, l, Bias(base, l.low), sym)
  {
    var s := Place(base, l.low, l.symtab + 24 * sym);
    var nameAt := Place(base, l.low, l.strtab + U32(img, s));
    var name := CString(img, nameAt);
    if U16(img, s + 6) != 0 {
      return (Bias(base, l.low) + U64(img, s + 8)) % M;
    }
    for i := 0 to |l.host|
      invariant HostAddr(l.host, name, i) == HostAddr(l.host, name, 0)
    {
      if l.host[i].0 == name {
        return l.host[i].1;
      }
    }
    return 0;
  }

  // ----- Relocation

  const R_ABS64 := 257
  const R_GLOB_DAT := 1025
  const R_JUMP_SLOT := 1026
  const R_RELATIVE := 1027

  datatype Rela = Rela(offset: nat, info: nat, addend: nat) {
    function Type(): nat { info % 0x1_0000_0000 }
    function Sym(): nat { info / 0x1_0000_0000 }
    predicate BySymbol() { Type() == R_GLOB_DAT || Type() == R_JUMP_SLOT || Type() == R_ABS64 }
  }

  function RelaAt(img: seq<byte>, i: nat): Rela
    requires i + 24 <= |img|
  {
    Rela(U64(img, i), U64(img, i + 8), U64(img, i + 16))
  }

  datatype Error = NoSegments | NoTables | Unresolved | Unsupported

  datatype Result<+T> = Ok(value: T) | Err(error: Error)

  /** What a relocation stands for: the object's own address, a symbol of the object, a host address (0 if unknown). */
  datatype Target = Self | Own(value: nat) | Foreign(addr: nat) | NoTarget

  /** A relocation read from the tables: where it writes, what it refers to, and its addend. */
  datatype Reloc = Reloc(slot: nat, target: Target, addend: nat)

  /** The symbol a relocation goes by, if any, and its name are inside the tables, without wrap. */
  ghost predicate SymbolOk(img: seq<byte>, l: Link, r: Rela) {
    r.BySymbol() ==>
      && SymbolInside(img, l, r.Sym()) && NameInside(img, l, r.Sym())
      && l.symtab + 24 * r.Sym() < M && l.strtab + U32(img, SymIndex(l, r.Sym())) < M
  }

  /** Entry at names a slot in the span, a symbol inside the tables, and wraps nowhere. */
  ghost predicate EntryOk(img: seq<byte>, l: Link, at: nat) {
    match l
    case Link(low, symtab, _, _) =>
      && at + 24 <= |img| && low <= symtab && low < M
      && var r := RelaAt(img, at); low <= r.offset < M && r.offset - low + 8 <= |img| && SymbolOk(img, l, r)
  }

  ghost function TargetOf(img: seq<byte>, l: Link, r: Rela): Target
    requires SymbolOk(img, l, r)
  {
    if r.Type() == R_RELATIVE then Self
    else if !r.BySymbol() then NoTarget
    else if IsLocal(img, l, r.Sym()) then Own(U64(img, SymIndex(l, r.Sym()) + 8))
    else Foreign(HostAddr(l.host, CString(img, NameIndex(img, l, r.Sym())), 0))
  }

  ghost function RelocAt(img: seq<byte>, l: Link, at: nat): Reloc
    requires EntryOk(img, l, at)
  {
    var r := RelaAt(img, at);
    Reloc(r.offset - l.low, TargetOf(img, l, r), r.addend)
  }

  /** The word a relocation stores at a given bias, or why there is none. */
  function WordFor(r: Reloc, bias: nat): Result<nat> {
    match r.target
    case Self => Ok((bias + r.addend) % M)
    case Own(x) => var val := (bias + x) % M; if val == 0 then Err(Unresolved) else Ok((val + r.addend) % M)
    case Foreign(a) => if a == 0 then Err(Unresolved) else Ok((a + r.addend) % M)
    case NoTarget => Err(Unsupported)
  }

  /** *where = v */
  method Write64(image: array<byte>, i: nat, v: nat)
    requires i + 8 <= image.Length && v < M
    modifies image
    ensures U64(image[..], i) == v
    ensures forall x | 0 <= x < image.Length && !(i <= x < i + 8) :: image[x] == old(image[x])
  {
    var bytes := Le64(v);
    forall x | i <= x < i + 8 { image[x] := bytes[x - i]; }
    assert image[..][i..i + 8] == bytes;
    Reads64(image[..], i, v);
  }

  /** Where the entry at `at` writes, and the word it stores or the error it ends in. */
  method Evaluate(img: seq<byte>, l: Link, base: nat, at: nat) returns (slot: nat, v: Result<nat>)
    requires base < M && EntryOk(img, l, at)
    ensures slot == RelocAt(img, l, at).slot && v == WordFor(RelocAt(img, l, at), Bias(base, l.low))
  {
    var r := RelaAt(img, at);
    var bias := Bias(base, l.low);
    slot := Place(base, l.low, r.offset);
    if r.Type() == R_RELATIVE {
      v := Ok((bias + r.addend) % M);
    } else if r.BySymbol() {
      var val := Resolve(img, l, base, r.Sym());
      v := if val == 0 then Err(Unresolved) else Ok((val + r.addend) % M);
    } else {
      v := Err(Unsupported);
    }
  }

  // ----- What an entry reads does not change while other slots are written

  /** The bytes that processing the entry at `at` reads: the entry, its symbol and the symbol's name. */
  ghost predicate ReadBy(img: seq<byte>, l: Link, at: nat, x: nat)
    requires EntryOk(img, l, at)
  {
    || at <= x < at + 24
    || (RelaAt(img, at).BySymbol() &&
        var s := SymIndex(l, RelaAt(img, at).Sym());
        var n := NameIndex(img, l, RelaAt(img, at).Sym());
        s <= x < s + 24 || n <= x <= n + |CString(img, n)|)
  }

  ghost predicate SameBytes(a: seq<byte>, b: seq<byte>, i: nat, j: nat) {
    |a| == |b| && j <= |a| && forall x | i <= x < j :: a[x] == b[x]
  }

  lemma SameWords(a: seq<byte>, b: seq<byte>, i: nat)
    requires SameBytes(a, b, i, i + 8)
    ensures U64(a, i) == U64(b, i) && U32(a, i) == U32(b, i) && U16(a, i + 6) == U16(b, i + 6)
  {
  }

  lemma {:induction false} SameCString(a: seq<byte>, b: seq<byte>, i: nat)
    requires |a| == |b| && forall x | i <= x <= i + |CString(b, i)| && x < |b| :: a[x] == b[x]
    ensures CString(a, i) == CString(b, i)
    decreases |b| - i
  {
    if i < |b| && b[i] != 0 {
      SameCString(a, b, i + 1);
    }
  }

  ghost predicate SameWhereRead(now: seq<byte>, img: seq<byte>, l: Link, at: nat)
    requires EntryOk(img, l, at)
  {
    |now| == |img| && forall x: nat | x < |img| && ReadBy(img, l, at, x) :: now[x] == img[x]
  }

  lemma SameRela(now: seq<byte>, img: seq<byte>, l: Link, at: nat)
    requires EntryOk(img, l, at) && SameWhereRead(now, img, l, at)
    ensures RelaAt(now, at) == RelaAt(img, at)
  {
    assert forall x | at <= x < at + 24 :: ReadBy(img, l, at, x);
    SameWords(now, img, at);
    SameWords(now, img, at + 8);
    SameWords(now, img, at + 16);
  }

  lemma SameSymbol(now: seq<byte>, img: seq<byte>, l: Link, at: nat)
    requires EntryOk(img, l, at) && SameWhereRead(now, img, l, at) && RelaAt(img, at).BySymbol()
    ensures SymbolOk(now, l, RelaAt(img, at)) && TargetOf(now, l, RelaAt(img, at)) == TargetOf(img, l, RelaAt(img, at))
  {
    var sym := RelaAt(img, at).Sym();
    var s: nat, i: nat := SymIndex(l, sym), NameIndex(img, l, sym);
    assert forall x: nat | s <= x < s + 24 :: ReadBy(img, l, at, x);
    SameWords(now, img, s);
    SameWords(now, img, s + 8);
    assert forall x: nat | i <= x <= i + |CString(img, i)| :: ReadBy(img, l, at, x);
    SameCString(now, img, i);
  }

  lemma SameReloc(now: seq<byte>, img: seq<byte>, l: Link, at: nat)
    requires EntryOk(img, l, at) && SameWhereRead(now, img, l, at)
    ensures EntryOk(now, l, at) && RelocAt(now, l, at) == RelocAt(img, l, at)
  {
    SameRela(now, img, l, at);
    if RelaAt(img, at).BySymbol() {
      SameSymbol(now, img, l, at);
    }
  }

  // ----- The passes

  predicate Clear(slot: nat, x: nat) {
    x < slot || slot + 8 <= x
  }

  /** rs[k] is what the mapped object says at es[k]; no slot holds a byte that an entry reads. */
  ghost predicate ReadsAs(img: seq<byte>, l: Link, at: nat, r: Reloc) {
    match r
    case Reloc(slot, _, _) => EntryOk(img, l, at) && r == RelocAt(img, l, at) && slot + 8 <= |img|
  }

  ghost predicate KeepsOff(img: seq<byte>, l: Link, at: nat, slot: nat)
    requires EntryOk(img, l, at)
  {
    forall x: nat | ReadBy(img, l, at, x) :: Clear(slot, x)
  }

  /** The relocations rs of the entries es: no two slots overlap, and none overlaps what an entry reads. */
  ghost predicate RelocsOk(img: seq<byte>, l: Link, work: Work) {
    match work
    case Work(es, rs) =>
      && |rs| == |es| && (forall k {:trigger ReadsAs(img, l, es[k], rs[k])} | 0 <= k < |es| ::
         ReadsAs(img, l, es[k], rs[k]))
      && (forall j, k | 0 <= j < |rs| && 0 <= k < |rs| && j != k ::
         rs[j].slot + 8 <= rs[k].slot || rs[k].slot + 8 <= rs[j].slot)
      && (forall j, k {:trigger KeepsOff(img, l, es[j], rs[k].slot)} | 0 <= j < |rs| && 0 <= k < |rs|
         && EntryOk(img, l, es[j]) ::
            KeepsOff(img, l, es[j], rs[k].slot))
  }

  /** The entries of the tables, by index, and their relocations. */
  datatype Work = Work(es: seq<nat>, rs: seq<Reloc>)

  ghost predicate Stored(now: seq<byte>, r: Reloc, bias: nat) {
    match r
    case Reloc(slot, _, _) => slot + 8 <= |now| && WordFor(r, bias) == Ok(U64(now, slot))
  }

  /** The relocations of an object and the bias it is loaded at. */
  datatype Plan = Plan(rs: seq<Reloc>, bias: nat)

  /** x lies in none of the first n slots. */
  ghost predicate Untouched(rs: seq<Reloc>, n: nat, x: nat)
    requires n <= |rs|
  {
    forall k | 0 <= k < n :: Clear(rs[k].slot, x)
  }

  /** The first n slots hold their words; every other byte is as mapped. */
  ghost predicate Patched(now: seq<byte>, img: seq<byte>, plan: Plan, n: nat) {
    match plan
    case Plan(rs, bias) =>
      && |now| == |img| && n <= |rs|
      && (forall k {:trigger Stored(now, rs[k], bias)} | 0 <= k < n :: Stored(now, rs[k], bias))
      && (forall x: nat | x < |img| && Untouched(rs, n, x) :: now[x] == img[x])
  }

  lemma StillTheSame(now: seq<byte>, img: seq<byte>, l: Link, es: seq<nat>, rs: seq<Reloc>, bias: nat, n: nat, k: nat)
    requires RelocsOk(img, l, Work(es, rs)) && Patched(now, img, Plan(rs, bias), n) && k < |es|
    ensures EntryOk(now, l, es[k]) && RelocAt(now, l, es[k]) == rs[k]
  {
    assert ReadsAs(img, l, es[k], rs[k]);
    forall x: nat | x < |img| && ReadBy(img, l, es[k], x) ensures now[x] == img[x] {
      forall j | 0 <= j < n ensures Clear(rs[j].slot, x) {
        assert KeepsOff(img, l, es[k], rs[j].slot);
      }
      assert Untouched(rs, n, x);
    }
    SameReloc(now, img, l, es[k]);
  }

  lemma NothingPatched(img: seq<byte>, rs: seq<Reloc>, bias: nat)
    ensures Patched(img, img, Plan(rs, bias), 0)
  {
  }

  /** Writing slot n leaves the earlier ones as they are. */
  lemma PatchNext(now: seq<byte>, next: seq<byte>, img: seq<byte>, rs: seq<Reloc>, bias: nat, n: nat)
    requires Patched(now, img, Plan(rs, bias), n) && n < |rs| && |next| == |now| && Stored(next, rs[n], bias)
    requires forall j | 0 <= j < n :: rs[j].slot + 8 <= rs[n].slot || rs[n].slot + 8 <= rs[j].slot
    requires forall x: nat | x < |now| && Clear(rs[n].slot, x) :: next[x] == now[x]
    ensures Patched(next, img, Plan(rs, bias), n + 1)
  {
    forall k | 0 <= k < n ensures Stored(next, rs[k], bias) {
      assert Stored(now, rs[k], bias);
      SameWords(next, now, rs[k].slot);
    }
    forall x: nat | x < |img| && Untouched(rs, n + 1, x) ensures next[x] == img[x] {
      assert Clear(rs[n].slot, x) && Untouched(rs, n, x);
    }
  }

  ghost predicate HaveWords(rs: seq<Reloc>, bias: nat, lo: nat, hi: nat) {
    forall k | lo <= k < hi && k < |rs| :: WordFor(rs[k], bias).Ok?
  }

  lemma OneMoreWord(rs: seq<Reloc>, bias: nat, lo: nat, k: nat)
    requires HaveWords(rs, bias, lo, k) && (k < |rs| ==> WordFor(rs[k], bias).Ok?)
    ensures HaveWords(rs, bias, lo, k + 1)
  {
  }

  lemma NoWord(rs: seq<Reloc>, bias: nat, lo: nat, hi: nat, k: nat)
    requires lo <= k < hi && k < |rs| && !WordFor(rs[k], bias).Ok?
    ensures !HaveWords(rs, bias, lo, hi)
  {
  }

  /** From lo on, relocation k is the first without a word, for the reason e. */
  ghost predicate FailsFirst(rs: seq<Reloc>, bias: nat, lo: nat, k: nat, e: Error) {
    lo <= k < |rs| && HaveWords(rs, bias, lo, k) && WordFor(rs[k], bias) == Err(e)
  }

  ghost predicate Fails(rs: seq<Reloc>, bias: nat, e: Error) {
    exists k: nat :: FailsFirst(rs, bias, 0, k, e)
  }

  lemma FailsLater(rs: seq<Reloc>, bias: nat, lo: nat, k: nat, e: Error)
    requires HaveWords(rs, bias, 0, lo) && FailsFirst(rs, bias, lo, k, e)
    ensures Fails(rs, bias, e)
  {
    assert FailsFirst(rs, bias, 0, k, e);
  }

  /** Entry k of the tables. */
  method Process(image: array<byte>, l: Link, base: nat, at: nat, ghost img: seq<byte>, ghost es: seq<nat>,
                 ghost rs: seq<Reloc>, ghost k: nat)
    returns (r: Result<nat>)
    requires base < M && l.low < M && RelocsOk(img, l, Work(es, rs)) && k < |es| && at == es[k]
    requires Patched(image[..], img, Plan(rs, Bias(base, l.low)), k)
    modifies image
    ensures r == WordFor(rs[k], Bias(base, l.low))
    ensures r.Ok? ==> Patched(image[..], img, Plan(rs, Bias(base, l.low)), k + 1)
    ensures r.Err? ==> image[..] == old(image[..])
  {
    ghost var now := image[..];
    StillTheSame(now, img, l, es, rs, Bias(base, l.low), k, k);
    assert ReadsAs(img, l, es[k], rs[k]);
    var slot;
    slot, r := Evaluate(image[..], l, base, at);
    if r.Ok? {
      Write64(image, slot, r.value);
      PatchNext(now, image[..], img, rs, Bias(base, l.low), k);
    }
  }

  /** One relocation pass over a table of n entries at index at. */
  method RelocatePass(image: array<byte>, l: Link, base: nat, at: nat, n: nat,
                      ghost img: seq<byte>, ghost es: seq<nat>, ghost rs: seq<Reloc>, ghost k0: nat)
    returns (r: Result<nat>)
    requires base < M && l.low < M && RelocsOk(img, l, Work(es, rs))
    requires k0 + n <= |es| && forall j | 0 <= j < n :: es[k0 + j] == at + 24 * j
    requires Patched(image[..], img, Plan(rs, Bias(base, l.low)), k0)
    modifies image
    ensures r.Ok? ==> Patched(image[..], img, Plan(rs, Bias(base, l.low)), k0 + n)
    ensures r.Ok? <==> HaveWords(rs, Bias(base, l.low), k0, k0 + n)
    ensures r.Err? ==> exists k: nat :: FailsFirst(rs, Bias(base, l.low), k0, k, r.error)
    ensures r != Err(NoSegments) && r != Err(NoTables)
  {
    ghost var bias := Bias(base, l.low);
    for j := 0 to n
      invariant Patched(image[..], img, Plan(rs, bias), k0 + j)
      invariant HaveWords(rs, bias, k0, k0 + j)
    {
      assert es[k0 + j] == at + 24 * j;
      r := Process(image, l, base, at + 24 * j, img, es, rs, k0 + j);
      if r.Err? {
        NoWord(rs, bias, k0, k0 + n, k0 + j);
        assert FailsFirst(rs, bias, k0, k0 + j, r.error);
        return;
      }
      OneMoreWord(rs, bias, k0, k0 + j);
    }
    r := Ok(0);
  }

  /** Places of n entries of a table. */
  function Places(at: nat, n: nat): seq<nat> {
    seq(n, j requires 0 <= j < n => at + 24 * j)
  }

  /** Both passes, .rela.dyn and then .rela.plt: it fails exactly if some relocation has no word. */
  method Relocate(image: array<byte>, l: Link, base: nat, at0: nat, n0: nat, at1: nat, n1: nat,
                  ghost img: seq<byte>, ghost es: seq<nat>, ghost rs: seq<Reloc>)
    returns (r: Result<nat>)
    requires base < M && l.low < M && RelocsOk(img, l, Work(es, rs)) && |rs| == |es| == n0 + n1 && image[..] == img
    requires (forall j | 0 <= j < n0 :: es[0 + j] == at0 + 24 * j) && forall j | 0 <= j < n1 :: es[n0 + j] == at1 + 24 * j
    modifies image
    ensures r.Ok? ==> Patched(image[..], img, Plan(rs, Bias(base, l.low)), |rs|)
    ensures r.Ok? <==> HaveWords(rs, Bias(base, l.low), 0, |rs|)
    ensures r.Err? ==> Fails(rs, Bias(base, l.low), r.error)
    ensures r != Err(NoSegments) && r != Err(NoTables)
  {
    NothingPatched(img, rs, Bias(base, l.low));
    r := RelocatePass(image, l, base, at0, n0, img, es, rs, 0);
    if r.Ok? {
      r := RelocatePass(image, l, base, at1, n1, img, es, rs, n0);
      if r.Err? {
        ghost var k: nat :| FailsFirst(rs, Bias(base, l.low), n0, k, r.error);
        FailsLater(rs, Bias(base, l.low), n0, k, r.error);
      }
    }
  }

  lemma TwoTables(at0: nat, n0: nat, at1: nat, n1: nat) returns (es: seq<nat>)
    ensures es == Places(at0, n0) + Places(at1, n1) && |es| == n0 + n1
    ensures forall j | 0 <= j < n0 :: es[0 + j] == at0 + 24 * j
    ensures forall j | 0 <= j < n1 :: es[n0 + j] == at1 + 24 * j
  {
    es := Places(at0, n0) + Places(at1, n1);
  }

  // ----- Two load addresses

  lemma ModAdd(a: nat, b: nat)
    ensures (a % M + b) % M == (a + b) % M
  {
  }

  lemma ModShift(a: nat)
    ensures (a + M) % M == a % M
  {
  }

  lemma ShiftsBy(a: nat, b: nat, x: nat)
    requires a < M && b < M
    ensures (b + x) % M == ((a + x) % M + (b + M - a)) % M
  {
    ModAdd(a + x, b + M - a);
    ModShift(b + x);
  }

  ghost predicate WordShifted(w1: nat, w2: nat, target: Target, bias1: nat, bias2: nat) {
    match target
    case Self => bias1 < M && w2 == (w1 + (bias2 + M - bias1)) % M
    case Own(_) => bias1 < M && w2 == (w1 + (bias2 + M - bias1)) % M
    case _ => w2 == w1
  }

  ghost predicate Shifted(now1: seq<byte>, now2: seq<byte>, r: Reloc, bias1: nat, bias2: nat) {
    match r
    case Reloc(slot, target, _) =>
      && slot + 8 <= |now1| && slot + 8 <= |now2|
      && WordShifted(U64(now1, slot), U64(now2, slot), target, bias1, bias2)
  }

  /** The words of one relocation at two biases: shifted by their difference if it refers to the object, else equal. */
  lemma WordMoves(r: Reloc, bias1: nat, bias2: nat, w1: nat, w2: nat)
    requires bias1 < M && bias2 < M && WordFor(r, bias1) == Ok(w1) && WordFor(r, bias2) == Ok(w2)
    ensures WordShifted(w1, w2, r.target, bias1, bias2)
  {
    match r.target
    case Self => ShiftsBy(bias1, bias2, r.addend);
    case Own(x) =>
      ModAdd(bias1 + x, r.addend);
      ModAdd(bias2 + x, r.addend);
      ShiftsBy(bias1, bias2, x + r.addend);
    case Foreign(_) =>
    case NoTarget =>
  }

  /**
   The same object loaded at two addresses: words that refer to the object differ by the difference of
   the biases modulo 2^64, host addresses are equal, and so is every byte outside the slots.
   */
  lemma TwoBiases(img: seq<byte>, rs: seq<Reloc>, bias1: nat, bias2: nat, now1: seq<byte>, now2: seq<byte>)
    requires bias1 < M && bias2 < M
    requires Patched(now1, img, Plan(rs, bias1), |rs|) && Patched(now2, img, Plan(rs, bias2), |rs|)
    ensures forall k | 0 <= k < |rs| :: Shifted(now1, now2, rs[k], bias1, bias2)
    ensures forall x: nat | x < |img| && Untouched(rs, |rs|, x) :: now1[x] == now2[x]
  {
    forall k | 0 <= k < |rs| ensures Shifted(now1, now2, rs[k], bias1, bias2) {
      assert Stored(now1, rs[k], bias1) && Stored(now2, rs[k], bias2);
      WordMoves(rs[k], bias1, bias2, U64(now1, rs[k].slot), U64(now2, rs[k].slot));
    }
  }

  // ----- Opening an object

  function Zeroes(n: nat): (r: seq<byte>)
    ensures |r| == n
  {
    seq(n, i requires 0 <= i < n => 0)
  }

  /** The object as mapped into a span of zero pages, wherever that lies. */
  ghost function ImageOf(file: seq<byte>, ph: seq<Phdr>): seq<byte> {
    var e := ExtentOf(ph, |ph|);
    var low := PageDown(e.vmin);
    if PageUp(e.vmax) < low then [] else MapAll(Zeroes(PageUp(e.vmax) - low), file, ph, low, |ph|)
  }

  /** Virtual address and entries of the relocation tables, from the dynamic section. */
  datatype Layout = Layout(link: Link, at0: nat, n0: nat, at1: nat, n1: nat)

  /** The last entry with the tag, if there is one, gives an address of the object, at index i of the span. */
  ghost predicate InObject(es: seq<Dyn>, tag: nat, n: nat, low: nat, i: int)
    requires n <= |es|
  {
    var k := LastTag(es, tag, n);
    k >= 0 ==> low <= es[k].val < M && i == es[k].val - low
  }

  /** Both the symbol and the string table are named. */
  ghost predicate HasTables(es: seq<Dyn>, n: nat)
    requires n <= |es|
  {
    LastTag(es, DT_SYMTAB, n) >= 0 && LastTag(es, DT_STRTAB, n) >= 0
  }

  /** The tables that the entries name are those of lay; a table of relocations is named if it has a size. */
  ghost predicate Describes(es: seq<Dyn>, low: nat, n: nat, lay: Layout)
    requires n <= |es|
  {
    match lay
    case Layout(link, at0, n0, at1, n1) =>
      && link.low == low
      && InObject(es, DT_SYMTAB, n, low, link.symtab - low) && InObject(es, DT_STRTAB, n, low, link.strtab - low)
      && (SizeFor(es, DT_RELASZ, n) >= 24 ==> LastTag(es, DT_RELA, n) >= 0 && InObject(es, DT_RELA, n, low, at0))
      && (SizeFor(es, DT_PLTRELSZ, n) >= 24 ==> LastTag(es, DT_JMPREL, n) >= 0 && InObject(es, DT_JMPREL, n, low, at1))
      && n0 == SizeFor(es, DT_RELASZ, n) / 24 && n1 == SizeFor(es, DT_PLTRELSZ, n) / 24
  }

  lemma PointerIndex(es: seq<Dyn>, tag: nat, n: nat, base: nat, low: nat, i: int)
    requires n <= |es| && LastTag(es, tag, n) >= 0 && InObject(es, tag, n, low, i) && base < M && low < M
    ensures Index(base, PointerFor(es, tag, n, Bias(base, low))) == i
  {
    var k := LastTag(es, tag, n);
    BiasedIndex(base, low, es[k].val);
    ModTwice(Bias(base, low) + es[k].val);
  }

  lemma ModTwice(a: nat)
    ensures a % M % M == a % M
  {
  }

  /** The symbol and string tables, from the pointers the walk found. */
  method MakeLink(t: Tables, base: nat, low: nat, host: seq<(Name, Word)>, ghost es: seq<Dyn>, ghost n: nat,
                  ghost lay: Layout)
    returns (link: Link)
    requires base < M && low < M && n <= |es| && t == TablesOf(es, n, Bias(base, low)) && lay.link.host == host
    requires HasTables(es, n) && Describes(es, low, n, lay)
    ensures link == lay.link
  {
    PointerIndex(es, DT_SYMTAB, n, base, low, lay.link.symtab - low);
    PointerIndex(es, DT_STRTAB, n, base, low, lay.link.strtab - low);
    link := Link(low, Index(base, t.symtab) + low, Index(base, t.strtab) + low, host);
  }

  /** Both passes over the tables the dynamic section names. */
  method RelocateFrom(image: array<byte>, link: Link, base: nat, t: Tables,
                      ghost img: seq<byte>, ghost es: seq<Dyn>, ghost n: nat, ghost lay: Layout, ghost rs: seq<Reloc>)
    returns (r: Result<nat>)
    requires base < M && link.low < M && link == lay.link && n <= |es| && t == TablesOf(es, n, Bias(base, link.low))
             && image[..] == img
    requires Describes(es, link.low, n, lay)
    requires RelocsOk(img, link, Work(Places(lay.at0, lay.n0) + Places(lay.at1, lay.n1), rs))
    modifies image
    ensures r.Ok? ==> Patched(image[..], img, Plan(rs, Bias(base, link.low)), |rs|)
    ensures r.Ok? <==> HaveWords(rs, Bias(base, link.low), 0, |rs|)
    ensures r.Err? ==> Fails(rs, Bias(base, link.low), r.error)
    ensures r != Err(NoSegments) && r != Err(NoTables)
  {
    if t.relasz >= 24 {
      PointerIndex(es, DT_RELA, n, base, link.low, lay.at0);
    }
    if t.pltrelsz >= 24 {
      PointerIndex(es, DT_JMPREL, n, base, link.low, lay.at1);
    }
    var at0, at1 := Index(base, t.rela), Index(base, t.jmprel);
    assert Places(at0, t.relasz / 24) == Places(lay.at0, lay.n0);
    assert Places(at1, t.pltrelsz / 24) == Places(lay.at1, lay.n1);
    ghost var at := TwoTables(at0, t.relasz / 24, at1, t.pltrelsz / 24);
    r := Relocate(image, link, base, at0, t.relasz / 24, at1, t.pltrelsz / 24, img, at, rs);
  }

  /** Reservation and mapping. */
  method MapObject(file: seq<byte>, ph: seq<Phdr>, base: nat, vmin: nat, vmax: nat) returns (image: array<byte>)
    requires base < M && LayoutOk(|file|, ph) && vmin != M - 1
    requires vmin == ExtentOf(ph, |ph|).vmin && vmax == ExtentOf(ph, |ph|).vmax
    ensures fresh(image) && image[..] == ImageOf(file, ph)
  {
    SpanSuffices(|file|, ph);
    var low := PageDown(vmin);
    var span := PageUp(vmax) - low;
    image := new byte[span](_ => 0);
    assert image[..] == Zeroes(span);
    MapSegments(image, file, ph, base, low);
  }

  /** An object: its file and headers, the length of its dynamic section, its tables and its relocations. */
  datatype Object = Object(file: seq<byte>, ph: seq<Phdr>, n: nat, lay: Layout, rs: seq<Reloc>) {
    ghost function Extent(): Extent { ExtentOf(ph, |ph|) }

    ghost function Low(): nat { PageDown(Extent().vmin) }

    ghost function Image(): seq<byte> { ImageOf(file, ph) }

    ghost function BiasAt(base: nat): nat { Bias(base, Low()) }

    /** No loadable segment, or no dynamic section. */
    ghost predicate Bare() {
      Extent().vmin == M - 1 || Extent().dyn == 0
    }

    /** The dynamic section is in the image and ends in DT_NULL at entry n. */
    ghost predicate Dynamic() {
      Low() <= Extent().dyn < M && Terminated(Image(), Extent().dyn - Low(), n)
    }

    ghost function Entries(): seq<Dyn>
      requires Dynamic()
    {
      DynSection(Image(), Extent().dyn - Low(), n)
    }

    /** The tables and the relocations, if the symbol and the string table are named. */
    ghost predicate Linked()
      requires Dynamic()
    {
      HasTables(Entries(), n) ==>
        && Describes(Entries(), Low(), n, lay)
        && RelocsOk(Image(), lay.link, Work(Places(lay.at0, lay.n0) + Places(lay.at1, lay.n1), rs))
    }

    /** A regular layout: what is there lies inside the object and does not overlap. */
    ghost predicate Regular() {
      LayoutOk(|file|, ph) && (!Bare() ==> Dynamic() && Linked())
    }

    /** At this base the pointer to the symbol or the string table is NULL: not named, or an address that wraps to 0. */
    ghost predicate Unnamed(base: nat)
      requires Dynamic()
    {
      PointerFor(Entries(), DT_SYMTAB, n, BiasAt(base)) == 0 || PointerFor(Entries(), DT_STRTAB, n, BiasAt(base)) == 0
    }

    /** The image at this base: the mapped file with exactly the relocated words patched. */
    ghost predicate LoadedAs(now: seq<byte>, base: nat) {
      Patched(now, Image(), Plan(rs, BiasAt(base)), |rs|)
    }
  }

  /** A table with a pointer that is not NULL is named. */
  lemma NamedTables(es: seq<Dyn>, n: nat, bias: nat)
    requires n <= |es| && PointerFor(es, DT_SYMTAB, n, bias) != 0 && PointerFor(es, DT_STRTAB, n, bias) != 0
    ensures HasTables(es, n)
  {
  }

  /** From the tables found to the end of the relocations. */
  method LinkUp(image: array<byte>, base: nat, low: nat, t: Tables, host: seq<(Name, Word)>,
                ghost es: seq<Dyn>, ghost n: nat, ghost lay: Layout, ghost rs: seq<Reloc>)
    returns (r: Result<nat>)
    requires base < M && low < M && n <= |es| && t == TablesOf(es, n, Bias(base, low)) && lay.link.host == host
    requires HasTables(es, n) ==>
               && Describes(es, low, n, lay)
               && RelocsOk(image[..], lay.link, Work(Places(lay.at0, lay.n0) + Places(lay.at1, lay.n1), rs))
    modifies image
    ensures r != Err(NoSegments) && (r == Err(NoTables) <==> t.symtab == 0 || t.strtab == 0)
    ensures r.Ok? <==> t.symtab != 0 && t.strtab != 0 && HaveWords(rs, Bias(base, low), 0, |rs|)
    ensures r.Err? && r != Err(NoTables) ==> Fails(rs, Bias(base, low), r.error)
    ensures r.Ok? ==> Patched(image[..], old(image[..]), Plan(rs, Bias(base, low)), |rs|)
  {
    if t.symtab == 0 || t.strtab == 0 {
      return Err(NoTables);
    }
    NamedTables(es, n, Bias(base, low));
    var link := MakeLink(t, base, low, host, es, n, lay);
    r := RelocateFrom(image, link, base, t, image[..], es, n, lay, rs);
  }

  /**
   The checks and steps of minidl_open up to the relocations, for an object with a regular layout, and exactly when
   each of them fails.
   */
  method Open(file: seq<byte>, ph: seq<Phdr>, base: nat, host: seq<(Name, Word)>, ghost o: Object)
    returns (r: Result<nat>, image: array<byte>)
    requires base < M && o.file == file && o.ph == ph && o.lay.link.host == host && o.Regular()
    ensures r == Err(NoSegments) <==> o.Bare()
    ensures r == Err(NoTables) <==> !o.Bare() && o.Unnamed(base)
    ensures r.Ok? <==> !o.Bare() && !o.Unnamed(base) && HaveWords(o.rs, o.BiasAt(base), 0, |o.rs|)
    ensures r == Err(Unresolved) || r == Err(Unsupported) ==> Fails(o.rs, o.BiasAt(base), r.error)
    ensures r.Ok? ==> o.LoadedAs(image[..], base)
  {
    var vmin, vmax, dyn := Span(ph);
    if vmin == M - 1 || dyn == 0 {
      image := new byte[0];
      return Err(NoSegments), image;
    }
    var low := PageDown(vmin);
    image := MapObject(file, ph, base, vmin, vmax);
    var d := Place(base, low, dyn);
    var t := WalkDynamic(image[..], d, Bias(base, low), o.n);
    r := LinkUp(image, base, low, t, host, o.Entries(), o.n, o.lay, o.rs);
  }

  /** Byte i of segment p is the file's byte, or 0 behind the file bytes if the segment is writable. */
  ghost predicate InPlace(now: seq<byte>, o: Object, p: Phdr, i: nat)
    requires i < |now| && p.vaddr <= o.Low() + i
  {
    var k := o.Low() + i - p.vaddr;
    && (k < p.filesz ==> p.offset + k < |o.file| && now[i] == o.file[p.offset + k])
    && (p.filesz <= k < p.memsz && p.write ==> now[i] == 0)
  }

  lemma ImageIsMapped(o: Object, p: Phdr)
    requires o.Regular() && !o.Bare() && p in o.ph && p.kind == Load
    ensures Mapped(o.Image(), o.file, p, o.Low())
  {
    var low, span := o.Low(), PageUp(o.Extent().vmax) - o.Low();
    SpanSuffices(|o.file|, o.ph);
    AllMapped(Zeroes(span), o.file, o.ph, low, |o.ph|);
  }

  lemma MappedInPlace(o: Object, img: seq<byte>, p: Phdr, i: nat)
    requires Mapped(img, o.file, p, o.Low()) && i < |img| && p.vaddr <= o.Low() + i
    ensures InPlace(img, o, p, i)
  {
  }

  /** After Open every byte of the file and of the bss outside the relocated words is at its place. */
  lemma OpenedAsMapped(o: Object, base: nat, now: seq<byte>, p: Phdr, i: nat)
    requires o.Regular() && !o.Bare() && o.LoadedAs(now, base) && p in o.ph && p.kind == Load
    requires i < |now| && Untouched(o.rs, |o.rs|, i) && p.vaddr <= o.Low() + i
    ensures InPlace(now, o, p, i)
  {
    ImageIsMapped(o, p);
    assert now[i] == o.Image()[i];
    MappedInPlace(o, o.Image(), p, i);
  }

  /** One object opened at two bases: the images are related word by word and equal elsewhere. */
  method OpenTwice(file: seq<byte>, ph: seq<Phdr>, base1: nat, base2: nat, host: seq<(Name, Word)>, ghost o: Object)
    returns (r1: Result<nat>, image1: array<byte>, r2: Result<nat>, image2: array<byte>)
    requires base1 < M && base2 < M && o.file == file && o.ph == ph && o.lay.link.host == host && o.Regular()
    ensures r1.Ok? && r2.Ok? ==> forall k | 0 <= k < |o.rs| ::
      Shifted(image1[..], image2[..], o.rs[k], o.BiasAt(base1), o.BiasAt(base2))
    ensures r1.Ok? && r2.Ok? ==> image1.Length == image2.Length
    ensures r1.Ok? && r2.Ok? ==> forall x: nat | x < image1.Length && Untouched(o.rs, |o.rs|, x) ::
      image1[x] == image2[x]
  {
    r1, image1 := Open(file, ph, base1, host, o);
    ghost var now1 := image1[..];
    r2, image2 := Open(file, ph, base2, host, o);
    if r1.Ok? && r2.Ok? {
      TwoBiases(o.Image(), o.rs, o.BiasAt(base1), o.BiasAt(base2), now1, image2[..]);
    }
  }
}
