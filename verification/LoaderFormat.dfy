/**
 The tables of a shared object as bytes, in the layouts of tools/dlopen-poc/minidl.c (Elf64_Dyn, Elf64_Sym,
 Elf64_Rela), and what opening an object with such tables stores.
 */
module LoaderFormat {
  import opened LittleEndian
  import opened Loader

  type Half = x: nat | x < 0x1_0000_0000

  type Quarter = x: nat | x < 0x1_0000

  // ----- The entries and their bytes

  /** d_tag and d_val. */
  datatype DynEntry = DynEntry(tag: Word, value: Word)

  /** st_name, st_info, st_other, st_shndx, st_value and st_size. */
  datatype SymEntry = SymEntry(name: Half, info: byte, other: byte, shndx: Quarter, value: Word, size: Word)

  /** r_offset, the symbol and the type in r_info, and r_addend. */
  datatype RelEntry = RelEntry(offset: Word, sym: Half, kind: Half, addend: Word)

  ghost function Byte(img: seq<byte>, i: int): nat
    requires 0 <= i < |img|
  {
    img[i]
  }

  /** The bytes from i on are a little-endian number of two, four or eight bytes. */
  ghost predicate Number16(img: seq<byte>, i: int, v: nat) {
    0 <= i && i + 2 <= |img| && v == Byte(img, i) + 256 * Byte(img, i + 1)
  }

  ghost predicate Number32(img: seq<byte>, i: int, v: nat) {
    && 0 <= i && i + 4 <= |img|
    && v == Byte(img, i) + 256 * Byte(img, i + 1) + 0x1_0000 * Byte(img, i + 2) + 0x100_0000 * Byte(img, i + 3)
  }

  ghost predicate Number64(img: seq<byte>, i: int, v: nat) {
    && 0 <= i && i + 8 <= |img|
    && v == Byte(img, i) + 256 * Byte(img, i + 1) + 0x1_0000 * Byte(img, i + 2) + 0x100_0000 * Byte(img, i + 3)
            + 0x1_0000_0000 * Byte(img, i + 4) + 0x100_0000_0000 * Byte(img, i + 5) + 0x1_0000_0000_0000 * Byte(img, i + 6)
            + 0x100_0000_0000_0000 * Byte(img, i + 7)
  }

  /** d_tag, then d_val. */
  ghost predicate DynAtIndex(img: seq<byte>, i: int, e: DynEntry) {
    Number64(img, i, e.tag) && Number64(img, i + 8, e.value)
  }

  /** Four bytes of name, one of info, one of other, two of section, eight of value, eight of size. */
  ghost predicate SymAtIndex(img: seq<byte>, i: int, e: SymEntry) {
    && Number32(img, i, e.name) && i + 24 <= |img| && img[i + 4] == e.info && img[i + 5] == e.other
    && Number16(img, i + 6, e.shndx) && Number64(img, i + 8, e.value) && Number64(img, i + 16, e.size)
  }

  /** Eight bytes of offset, the type in the lower and the symbol in the upper half of the next eight, then the addend. */
  ghost predicate RelAtIndex(img: seq<byte>, i: int, e: RelEntry) {
    && Number64(img, i, e.offset) && Number32(img, i + 8, e.kind) && Number32(img, i + 12, e.sym)
    && Number64(img, i + 16, e.addend)
  }

  /** The bytes b stand at index i. */
  ghost predicate At(img: seq<byte>, i: int, b: seq<byte>) {
    0 <= i && i + |b| <= |img| && forall k | 0 <= k < |b| :: img[i + k] == b[k]
  }

  lemma {:induction false} Reads(img: seq<byte>, i: int, v: nat)
    ensures Number16(img, i, v) ==> U16(img, i) == v
    ensures Number32(img, i, v) ==> U32(img, i) == v
    ensures Number64(img, i, v) ==> U64(img, i) == v
  {
  }

  /** An entry of the dynamic section is read. */
  lemma {:induction false} DynIsRead(img: seq<byte>, d: nat, k: nat, e: DynEntry)
    requires DynAtIndex(img, d + 16 * k, e)
    ensures d + 16 * k + 16 <= |img| && DynAt(img, d, k) == Dyn(e.tag, e.value)
  {
    var i := d + 16 * k;
    Reads(img, i, e.tag);
    Reads(img, i + 8, e.value);
  }

  lemma {:induction false} TwoHalves(lo: Half, hi: Half)
    ensures (lo + 0x1_0000_0000 * hi) % 0x1_0000_0000 == lo && (lo + 0x1_0000_0000 * hi) / 0x1_0000_0000 == hi
  {
  }

  /** A relocation is read. */
  lemma {:induction false} RelIsRead(img: seq<byte>, i: nat, e: RelEntry)
    requires RelAtIndex(img, i, e)
    ensures i + 24 <= |img|
    ensures var r := RelaAt(img, i); r.offset == e.offset && r.Type() == e.kind && r.Sym() == e.sym && r.addend == e.addend
  {
    Reads(img, i, e.offset);
    Reads(img, i + 8, e.kind);
    Reads(img, i + 12, e.sym);
    Reads(img, i + 16, e.addend);
    assert U64(img, i + 8) == U32(img, i + 8) + 0x1_0000_0000 * U32(img, i + 12);
    TwoHalves(e.kind, e.sym);
  }

  /** A symbol is read. */
  lemma {:induction false} SymIsRead(img: seq<byte>, l: Link, sym: nat, e: SymEntry)
    requires SymAtIndex(img, SymIndex(l, sym), e)
    ensures SymbolInside(img, l, sym)
    ensures U32(img, SymIndex(l, sym)) == e.name && U64(img, SymIndex(l, sym) + 8) == e.value
    ensures IsLocal(img, l, sym) <==> e.shndx != 0
  {
    var i := SymIndex(l, sym);
    Reads(img, i, e.name);
    Reads(img, i + 6, e.shndx);
    Reads(img, i + 8, e.value);
  }

  /** A name is read. */
  lemma {:induction false} NameIsRead(img: seq<byte>, i: nat, name: Name)
    requires At(img, i, name + [0]) && 0 !in name
    ensures CString(img, i) == name
    decreases |name|
  {
    var b := name + [0];
    assert img[i + 0] == b[0];
    if name != [] {
      assert name[0] in name;
      assert forall k | 0 <= k < |name| :: img[i + 1 + k] == img[i + (1 + k)] == b[1 + k] == (name[1..] + [0])[k];
      NameIsRead(img, i + 1, name[1..]);
      assert name == [name[0]] + name[1..];
    }
  }

  // ----- An object's tables

  /** The dynamic section, the addresses its entries name, and what stands there. */
  datatype Contents = Contents(
    dyns: seq<DynEntry>, end: Word,          // the entries, and the value beside the final tag 0
    symtab: Word, syms: seq<SymEntry>,
    strtab: Word, names: seq<Name>,          // the name of each symbol
    rela: Word, relas: seq<RelEntry>,
    jmprel: Word, plts: seq<RelEntry>)
  {
    /** The relocations in the order they are applied. */
    ghost function All(): seq<RelEntry> {
      relas + plts
    }

    /** The index of relocation k. */
    ghost function Place(low: nat, k: nat): int {
      if k < |relas| then rela - low + 24 * k else jmprel - low + 24 * (k - |relas|)
    }
  }

  /** The last entry with the tag has this value. */
  ghost predicate Gives(dyns: seq<DynEntry>, tag: nat, v: nat) {
    exists k: nat :: GivesAt(dyns, tag, v, k)
  }

  ghost predicate GivesAt(dyns: seq<DynEntry>, tag: nat, v: nat, k: nat) {
    k < |dyns| && dyns[k].tag == tag && dyns[k].value == v && forall j | k < j < |dyns| :: dyns[j].tag != tag
  }

  ghost predicate NoTag(dyns: seq<DynEntry>, tag: nat) {
    forall j | 0 <= j < |dyns| :: dyns[j].tag != tag
  }

  /** A table of count relocations at addr: its size in bytes is given, and its address unless it is empty. */
  ghost predicate TableAt(dyns: seq<DynEntry>, tag: nat, sizeTag: nat, addr: nat, count: nat) {
    || (NoTag(dyns, sizeTag) && count == 0)
    || exists z: nat :: Gives(dyns, sizeTag, z) && z / 24 == count && (count > 0 ==> Gives(dyns, tag, addr))
  }

  /** The dynamic section stands at index d, and names the tables by the tags of System V: 5 to 8, 23 and 2. */
  ghost predicate DynamicHeld(img: seq<byte>, d: nat, c: Contents) {
    match c
    case Contents(dyns, end, symtab, _, strtab, _, rela, relas, jmprel, plts) =>
      && (forall k | 0 <= k < |dyns| :: dyns[k].tag != 0 && DynAtIndex(img, d + 16 * k, dyns[k]))
      && DynAtIndex(img, d + 16 * |dyns|, DynEntry(0, end))
      && Gives(dyns, 6, symtab) && Gives(dyns, 5, strtab)
      && TableAt(dyns, 7, 8, rela, |relas|) && TableAt(dyns, 23, 2, jmprel, |plts|)
  }

  /** R_AARCH64_ABS64, R_AARCH64_GLOB_DAT or R_AARCH64_JUMP_SLOT. */
  ghost predicate Symbolic(kind: nat) {
    kind == 257 || kind == 1025 || kind == 1026
  }

  /** The symbol of a relocation that goes by one, and its name, stand in their tables. */
  ghost predicate SymbolHeld(img: seq<byte>, low: nat, c: Contents, e: RelEntry) {
    Symbolic(e.kind) ==>
      && e.sym < |c.syms| == |c.names| && low <= c.symtab
      && SymAtIndex(img, c.symtab - low + 24 * e.sym, c.syms[e.sym])
      && At(img, c.strtab - low + c.syms[e.sym].name, c.names[e.sym] + [0]) && 0 !in c.names[e.sym]
      && c.symtab + 24 * e.sym < 0x1_0000_0000_0000_0000 && c.strtab + c.syms[e.sym].name < 0x1_0000_0000_0000_0000
  }

  /** Relocation k stands in its table, and so does what it refers to; its word lies in the object. */
  ghost predicate EntryHeld(img: seq<byte>, low: nat, c: Contents, k: nat)
    requires k < |c.All()|
  {
    var e := c.All()[k];
    && RelAtIndex(img, c.Place(low, k), e) && SymbolHeld(img, low, c, e)
    && low <= e.offset && e.offset - low + 8 <= |img|
  }

  /** The word at i shares no byte with the n bytes at j. */
  predicate Off(i: int, j: int, n: nat) {
    i + 8 <= j || j + n <= i
  }

  /** Word k is not part of relocation j, its symbol or its name. */
  ghost predicate Separate(low: nat, c: Contents, j: nat, k: nat)
    requires j < |c.All()| && k < |c.All()|
  {
    var e, i := c.All()[j], c.All()[k].offset - low;
    && Off(i, c.Place(low, j), 24)
    && (Symbolic(e.kind) && e.sym < |c.syms| == |c.names| ==>
          Off(i, c.symtab - low + 24 * e.sym, 24) && Off(i, c.strtab - low + c.syms[e.sym].name, |c.names[e.sym]| + 1))
  }

  /** The image holds these tables; no two words overlap, and none overlaps what is read to relocate. */
  ghost predicate Holds(img: seq<byte>, low: nat, d: nat, c: Contents) {
    && DynamicHeld(img, d, c)
    && low <= c.symtab && low <= c.strtab && (c.relas != [] ==> low <= c.rela) && (c.plts != [] ==> low <= c.jmprel)
    && (forall k: nat {:trigger EntryHeld(img, low, c, k)} | k < |c.All()| :: EntryHeld(img, low, c, k))
    && (forall j: nat, k: nat {:trigger Separate(low, c, j, k)} | j < |c.All()| && k < |c.All()| :: Separate(low, c, j, k))
    && (forall j: nat, k: nat | j < |c.All()| && k < |c.All()| && j != k :: Off(c.All()[j].offset, c.All()[k].offset, 8))
  }

  // ----- What the loader reads from them

  ghost function LinkOf(low: nat, c: Contents, host: seq<(Name, Word)>): Link {
    Link(low, c.symtab, c.strtab, host)
  }

  /** What a relocation means, by its type: 1027 is the object itself, 257, 1025 and 1026 are a symbol. */
  ghost function Meaning(low: nat, c: Contents, host: seq<(Name, Word)>, e: RelEntry): Reloc
    requires low <= e.offset
  {
    Reloc(e.offset - low,
          if e.kind == 1027 then Self
          else if !Symbolic(e.kind) || e.sym >= |c.syms| || e.sym >= |c.names| then NoTarget
          else if c.syms[e.sym].shndx != 0 then Own(c.syms[e.sym].value)
          else Foreign(HostAddr(host, c.names[e.sym], 0)),
          e.addend)
  }

  ghost function Meanings(low: nat, c: Contents, host: seq<(Name, Word)>): (rs: seq<Reloc>)
    requires forall k: nat | k < |c.All()| :: low <= c.All()[k].offset
    ensures |rs| == |c.All()|
  {
    seq(|c.All()|, k requires 0 <= k < |c.All()| => Meaning(low, c, host, c.All()[k]))
  }

  lemma {:induction false} BySymbolIs(r: Rela, kind: nat)
    requires r.Type() == kind
    ensures r.BySymbol() <==> Symbolic(kind)
  {
  }

  /** Symbol and name of a relocation are found. */
  lemma {:induction false} SymbolRead(img: seq<byte>, low: nat, c: Contents, host: seq<(Name, Word)>, e: RelEntry)
    requires SymbolHeld(img, low, c, e) && Symbolic(e.kind) && low <= c.symtab && low <= c.strtab
    ensures var l, y := LinkOf(low, c, host), c.syms[e.sym];
            && SymbolInside(img, l, e.sym) && NameInside(img, l, e.sym)
            && NameIndex(img, l, e.sym) == c.strtab - low + y.name
            && CString(img, NameIndex(img, l, e.sym)) == c.names[e.sym]
            && (IsLocal(img, l, e.sym) <==> y.shndx != 0) && U64(img, SymIndex(l, e.sym) + 8) == y.value
            && l.strtab + U32(img, SymIndex(l, e.sym)) < M && l.symtab + 24 * e.sym < M
  {
    var l := LinkOf(low, c, host);
    SymIsRead(img, l, e.sym, c.syms[e.sym]);
    NameIsRead(img, c.strtab - low + c.syms[e.sym].name, c.names[e.sym]);
  }

  /** A relocation is read for what it means. */
  lemma {:induction false} EntryRead(img: seq<byte>, low: nat, c: Contents, host: seq<(Name, Word)>, k: nat)
    requires k < |c.All()| && EntryHeld(img, low, c, k) && low <= c.symtab && low <= c.strtab && low < M
    ensures var l, at := LinkOf(low, c, host), c.Place(low, k);
            at >= 0 && EntryOk(img, l, at) && RelocAt(img, l, at) == Meaning(low, c, host, c.All()[k])
  {
    var e, at := c.All()[k], c.Place(low, k);
    RelIsRead(img, at, e);
    BySymbolIs(RelaAt(img, at), e.kind);
    if Symbolic(e.kind) {
      SymbolRead(img, low, c, host, e);
    }
  }

  lemma {:induction false} Keeps(img: seq<byte>, low: nat, c: Contents, host: seq<(Name, Word)>, j: nat, k: nat)
    requires j < |c.All()| && k < |c.All()| && EntryHeld(img, low, c, j) && EntryHeld(img, low, c, k)
    requires Separate(low, c, j, k) && low <= c.symtab && low <= c.strtab && low < M
    ensures c.Place(low, j) >= 0 && EntryOk(img, LinkOf(low, c, host), c.Place(low, j))
    ensures KeepsOff(img, LinkOf(low, c, host), c.Place(low, j), c.All()[k].offset - low)
  {
    var e, at := c.All()[j], c.Place(low, j);
    EntryRead(img, low, c, host, j);
    RelIsRead(img, at, e);
    BySymbolIs(RelaAt(img, at), e.kind);
    if Symbolic(e.kind) {
      SymbolRead(img, low, c, host, e);
    }
  }

  ghost function LayoutOf(low: nat, c: Contents, host: seq<(Name, Word)>): Layout
    requires (c.relas != [] ==> low <= c.rela) && (c.plts != [] ==> low <= c.jmprel)
  {
    Layout(LinkOf(low, c, host), if c.relas == [] then 0 else c.rela - low, |c.relas|,
           if c.plts == [] then 0 else c.jmprel - low, |c.plts|)
  }

  ghost function PlacesOf(low: nat, c: Contents, host: seq<(Name, Word)>): (es: seq<nat>)
    requires (c.relas != [] ==> low <= c.rela) && (c.plts != [] ==> low <= c.jmprel)
    ensures |es| == |c.All()|
  {
    var lay := LayoutOf(low, c, host);
    Places(lay.at0, lay.n0) + Places(lay.at1, lay.n1)
  }

  lemma {:induction false} PlaceIs(low: nat, c: Contents, host: seq<(Name, Word)>, k: nat)
    requires (c.relas != [] ==> low <= c.rela) && (c.plts != [] ==> low <= c.jmprel) && k < |c.All()|
    ensures PlacesOf(low, c, host)[k] == c.Place(low, k)
  {
  }

  ghost function WorkOf(low: nat, c: Contents, host: seq<(Name, Word)>): Work
    requires (c.relas != [] ==> low <= c.rela) && (c.plts != [] ==> low <= c.jmprel)
    requires forall k: nat | k < |c.All()| :: low <= c.All()[k].offset
  {
    Work(PlacesOf(low, c, host), Meanings(low, c, host))
  }

  lemma {:induction false} Inside(img: seq<byte>, low: nat, d: nat, c: Contents)
    requires Holds(img, low, d, c)
    ensures forall k: nat | k < |c.All()| :: low <= c.All()[k].offset && c.All()[k].offset - low + 8 <= |img|
  {
    forall k: nat | k < |c.All()| ensures low <= c.All()[k].offset && c.All()[k].offset - low + 8 <= |img| {
      assert EntryHeld(img, low, c, k);
    }
  }

  /** The relocations are read for what they mean, and none disturbs another. */
  lemma {:induction false} RelocsRead(img: seq<byte>, low: nat, d: nat, c: Contents, host: seq<(Name, Word)>, work: Work)
    requires Holds(img, low, d, c) && low < M
    requires forall k: nat | k < |c.All()| :: low <= c.All()[k].offset && c.All()[k].offset - low + 8 <= |img|
    requires work == WorkOf(low, c, host)
    ensures RelocsOk(img, LinkOf(low, c, host), work)
  {
    var l, es, rs := LinkOf(low, c, host), work.es, work.rs;
    forall k | 0 <= k < |es| ensures ReadsAs(img, l, es[k], rs[k]) {
      PlaceIs(low, c, host, k);
      assert EntryHeld(img, low, c, k);
      EntryRead(img, low, c, host, k);
    }
    forall j, k | 0 <= j < |rs| && 0 <= k < |rs| && j != k
      ensures rs[j].slot + 8 <= rs[k].slot || rs[k].slot + 8 <= rs[j].slot
    {
      assert Off(c.All()[j].offset, c.All()[k].offset, 8);
    }
    forall j, k | 0 <= j < |rs| && 0 <= k < |rs| && EntryOk(img, l, es[j]) ensures KeepsOff(img, l, es[j], rs[k].slot) {
      PlaceIs(low, c, host, j);
      assert EntryHeld(img, low, c, j) && EntryHeld(img, low, c, k) && Separate(low, c, j, k);
      Keeps(img, low, c, host, j, k);
    }
  }

  ghost function DynsOf(c: Contents): (es: seq<Dyn>)
    ensures |es| == |c.dyns|
  {
    seq(|c.dyns|, k requires 0 <= k < |c.dyns| => Dyn(c.dyns[k].tag, c.dyns[k].value))
  }

  /** The dynamic section is read up to its end. */
  lemma {:induction false} DynamicRead(img: seq<byte>, d: nat, c: Contents)
    requires DynamicHeld(img, d, c)
    ensures Terminated(img, d, |c.dyns|) && DynSection(img, d, |c.dyns|) == DynsOf(c)
  {
    var n := |c.dyns|;
    DynIsRead(img, d, n, DynEntry(0, c.end));
    forall k: nat | k < n ensures d + 16 * k + 16 <= |img| && DynAt(img, d, k) == Dyn(c.dyns[k].tag, c.dyns[k].value) {
      DynIsRead(img, d, k, c.dyns[k]);
    }
  }

  lemma {:induction false} GivenIsLast(c: Contents, tag: nat, v: nat)
    requires Gives(c.dyns, tag, v)
    ensures var k := LastTag(DynsOf(c), tag, |c.dyns|); k >= 0 && DynsOf(c)[k].val == v
    ensures SizeFor(DynsOf(c), tag, |c.dyns|) == v
  {
    var k: nat :| GivesAt(c.dyns, tag, v, k);
    LastTagIsLast(DynsOf(c), tag, |c.dyns|);
    var r := LastTag(DynsOf(c), tag, |c.dyns|);
    assert DynsOf(c)[k].tag == tag;
  }

  lemma {:induction false} NotGiven(c: Contents, tag: nat)
    requires NoTag(c.dyns, tag)
    ensures SizeFor(DynsOf(c), tag, |c.dyns|) == 0
  {
    LastTagIsLast(DynsOf(c), tag, |c.dyns|);
  }

  lemma {:induction false} TableRead(c: Contents, tag: nat, sizeTag: nat, addr: nat, count: nat, low: nat)
    requires TableAt(c.dyns, tag, sizeTag, addr, count) && (count > 0 ==> low <= addr < M)
    ensures var es, n := DynsOf(c), |c.dyns|;
            && SizeFor(es, sizeTag, n) / 24 == count
            && (SizeFor(es, sizeTag, n) >= 24 ==> LastTag(es, tag, n) >= 0 && InObject(es, tag, n, low, addr - low))
  {
    if NoTag(c.dyns, sizeTag) && count == 0 {
      NotGiven(c, sizeTag);
    } else {
      var z: nat :| Gives(c.dyns, sizeTag, z) && z / 24 == count && (count > 0 ==> Gives(c.dyns, tag, addr));
      GivenIsLast(c, sizeTag, z);
      if z >= 24 {
        GivenIsLast(c, tag, addr);
      }
    }
  }

  /** The tables are found where they stand. */
  lemma {:induction false} TablesRead(img: seq<byte>, low: nat, d: nat, c: Contents, host: seq<(Name, Word)>)
    requires Holds(img, low, d, c)
    ensures HasTables(DynsOf(c), |c.dyns|) && Describes(DynsOf(c), low, |c.dyns|, LayoutOf(low, c, host))
  {
    GivenIsLast(c, 6, c.symtab);
    GivenIsLast(c, 5, c.strtab);
    TableRead(c, 7, 8, c.rela, |c.relas|, low);
    TableRead(c, 23, 2, c.jmprel, |c.plts|, low);
  }

  // ----- Opening

  /** The address a relocation's symbol has at this bias: its own, or the first export of its name, or 0. */
  ghost function AddressOf(c: Contents, host: seq<(Name, Word)>, bias: nat, e: RelEntry): nat
    requires e.sym < |c.syms| == |c.names|
  {
    if c.syms[e.sym].shndx != 0 then (bias + c.syms[e.sym].value) % 0x1_0000_0000_0000_0000
    else HostAddr(host, c.names[e.sym], 0)
  }

  /** The word relocation e calls for is at its offset. */
  ghost predicate WordStored(now: seq<byte>, low: nat, c: Contents, host: seq<(Name, Word)>, bias: nat, e: RelEntry) {
    && low <= e.offset && e.offset - low + 8 <= |now|
    && var w := U64(now, e.offset - low);
       if e.kind == 1027 then w == (bias + e.addend) % 0x1_0000_0000_0000_0000
       else Symbolic(e.kind) && e.sym < |c.syms| == |c.names|
            && w == (AddressOf(c, host, bias, e) + e.addend) % 0x1_0000_0000_0000_0000
  }

  /** Relocation e can be applied: its type is known, and its symbol, if it goes by one, has an address. */
  ghost predicate Applies(c: Contents, host: seq<(Name, Word)>, bias: nat, e: RelEntry) {
    e.kind == 1027 || (Symbolic(e.kind) && e.sym < |c.syms| == |c.names| && AddressOf(c, host, bias, e) != 0)
  }

  lemma {:induction false} MeaningHasWord(low: nat, c: Contents, host: seq<(Name, Word)>, bias: nat, e: RelEntry)
    requires low <= e.offset && (Symbolic(e.kind) ==> e.sym < |c.syms| == |c.names|)
    ensures WordFor(Meaning(low, c, host, e), bias).Ok? <==> Applies(c, host, bias, e)
    ensures WordFor(Meaning(low, c, host, e), bias) == Err(Unsupported) <==> e.kind != 1027 && !Symbolic(e.kind)
  {
  }

  lemma {:induction false} MeaningIsStored(now: seq<byte>, low: nat, c: Contents, host: seq<(Name, Word)>, bias: nat,
                                           e: RelEntry)
    requires low <= e.offset && (Symbolic(e.kind) ==> e.sym < |c.syms| == |c.names|)
    requires Stored(now, Meaning(low, c, host, e), bias)
    ensures WordStored(now, low, c, host, bias, e)
  {
  }

  /** Relocation k is the first that does not apply: its type is not known, or its symbol has no address. */
  ghost predicate FirstBad(c: Contents, host: seq<(Name, Word)>, bias: nat, k: nat, error: Error) {
    && k < |c.All()| && (forall j: nat | j < k :: Applies(c, host, bias, c.All()[j])) && !Applies(c, host, bias, c.All()[k])
    && error == if Symbolic(c.All()[k].kind) then Unresolved else Unsupported
  }

  ghost predicate Blames(c: Contents, host: seq<(Name, Word)>, bias: nat, error: Error) {
    exists k: nat :: FirstBad(c, host, bias, k, error)
  }

  ghost predicate AllApply(c: Contents, host: seq<(Name, Word)>, bias: nat) {
    forall k: nat | k < |c.All()| :: Applies(c, host, bias, c.All()[k])
  }

  ghost predicate AllStored(now: seq<byte>, low: nat, c: Contents, host: seq<(Name, Word)>, bias: nat) {
    forall k: nat | k < |c.All()| :: WordStored(now, low, c, host, bias, c.All()[k])
  }

  ghost function ObjectOf(file: seq<byte>, ph: seq<Phdr>, low: nat, c: Contents, host: seq<(Name, Word)>): Object
    requires (c.relas != [] ==> low <= c.rela) && (c.plts != [] ==> low <= c.jmprel)
    requires forall k: nat | k < |c.All()| :: low <= c.All()[k].offset
  {
    Object(file, ph, |c.dyns|, LayoutOf(low, c, host), Meanings(low, c, host))
  }

  /** What reading the tables gives. */
  ghost predicate Read(img: seq<byte>, d: nat, low: nat, es: seq<Dyn>, n: nat, lay: Layout, rs: seq<Reloc>) {
    && Terminated(img, d, n) && es == DynSection(img, d, n) && HasTables(es, n) && Describes(es, low, n, lay)
    && RelocsOk(img, lay.link, Work(Places(lay.at0, lay.n0) + Places(lay.at1, lay.n1), rs))
  }

  lemma {:induction false} TablesAreRead(img: seq<byte>, low: nat, d: nat, c: Contents, host: seq<(Name, Word)>)
    requires Holds(img, low, d, c) && low < M
    requires forall k: nat | k < |c.All()| :: low <= c.All()[k].offset
    ensures Read(img, d, low, DynsOf(c), |c.dyns|, LayoutOf(low, c, host), Meanings(low, c, host))
  {
    DynamicRead(img, d, c);
    TablesRead(img, low, d, c, host);
    Inside(img, low, d, c);
    RelocsRead(img, low, d, c, host, WorkOf(low, c, host));
  }

  lemma {:induction false} ReadIsRegular(o: Object, d: nat, es: seq<Dyn>)
    requires LayoutOk(|o.file|, o.ph) && o.Low() <= o.Extent().dyn < M && d == o.Extent().dyn - o.Low()
    requires Read(o.Image(), d, o.Low(), es, o.n, o.lay, o.rs)
    ensures o.Regular() && o.Dynamic() && o.Entries() == es
  {
  }

  /** Where the object lies: its lowest page and its dynamic section. */
  ghost predicate Lies(fileLen: nat, ph: seq<Phdr>, low: nat, d: nat) {
    && LayoutOk(fileLen, ph)
    && var e := ExtentOf(ph, |ph|);
       e.vmin != M - 1 && e.dyn != 0 && low == PageDown(e.vmin) && low <= e.dyn < M && d == e.dyn - low
  }

  lemma {:induction false} ObjectIsRegular(file: seq<byte>, ph: seq<Phdr>, low: nat, d: nat, c: Contents, o: Object)
    requires Lies(|file|, ph, low, d) && o.file == file && o.ph == ph
    requires Read(ImageOf(file, ph), d, low, DynsOf(c), o.n, o.lay, o.rs)
    ensures o.Regular() && o.Dynamic() && o.Entries() == DynsOf(c) && !o.Bare() && low < M && o.Low() == low
  {
    ReadIsRegular(o, d, DynsOf(c));
  }

  lemma {:induction false} WordsAre(img: seq<byte>, low: nat, d: nat, c: Contents, host: seq<(Name, Word)>, bias: nat,
                                    rs: seq<Reloc>)
    requires Holds(img, low, d, c)
    requires forall k: nat | k < |c.All()| :: low <= c.All()[k].offset
    requires rs == Meanings(low, c, host)
    ensures HaveWords(rs, bias, 0, |rs|) <==> AllApply(c, host, bias)
    ensures forall now | Patched(now, img, Plan(rs, bias), |rs|) :: AllStored(now, low, c, host, bias)
  {
    forall k: nat | k < |c.All()| ensures WordFor(rs[k], bias).Ok? <==> Applies(c, host, bias, c.All()[k]) {
      assert EntryHeld(img, low, c, k);
      MeaningHasWord(low, c, host, bias, c.All()[k]);
    }
    forall now | Patched(now, img, Plan(rs, bias), |rs|) ensures AllStored(now, low, c, host, bias) {
      forall k: nat | k < |c.All()| ensures WordStored(now, low, c, host, bias, c.All()[k]) {
        assert EntryHeld(img, low, c, k) && Stored(now, rs[k], bias);
        MeaningIsStored(now, low, c, host, bias, c.All()[k]);
      }
    }
  }

  lemma {:induction false} FailureIs(img: seq<byte>, low: nat, d: nat, c: Contents, host: seq<(Name, Word)>,
                                     bias: nat, rs: seq<Reloc>, error: Error)
    requires Holds(img, low, d, c) && Fails(rs, bias, error)
    requires forall k: nat | k < |c.All()| :: low <= c.All()[k].offset
    requires rs == Meanings(low, c, host)
    ensures Blames(c, host, bias, error)
  {
    forall k: nat | k < |c.All()|
      ensures WordFor(rs[k], bias).Ok? <==> Applies(c, host, bias, c.All()[k])
      ensures WordFor(rs[k], bias) == Err(Unsupported) <==> c.All()[k].kind != 1027 && !Symbolic(c.All()[k].kind)
    {
      assert EntryHeld(img, low, c, k);
      MeaningHasWord(low, c, host, bias, c.All()[k]);
    }
    var k: nat :| FailsFirst(rs, bias, 0, k, error);
    assert FirstBad(c, host, bias, k, error);
  }

  /** The pointer to a table is NULL. */
  ghost predicate WrapsToNull(bias: nat, addr: nat) {
    (bias + addr) % 0x1_0000_0000_0000_0000 == 0
  }

  ghost predicate NoTable(c: Contents, bias: nat) {
    WrapsToNull(bias, c.symtab) || WrapsToNull(bias, c.strtab)
  }

  lemma {:induction false} PointerIs(c: Contents, tag: nat, v: nat, bias: nat)
    requires Gives(c.dyns, tag, v)
    ensures PointerFor(DynsOf(c), tag, |c.dyns|, bias) == (bias + v) % M
  {
    GivenIsLast(c, tag, v);
  }

  /** A table is at address 0 exactly if the pointer to it is NULL. */
  lemma {:induction false} UnnamedIs(o: Object, c: Contents, base: nat, bias: nat)
    requires o.Dynamic() && o.Entries() == DynsOf(c) && o.n == |c.dyns| && bias == o.BiasAt(base)
    requires Gives(c.dyns, 6, c.symtab) && Gives(c.dyns, 5, c.strtab)
    ensures o.Unnamed(base) <==> NoTable(c, bias)
  {
    PointerIs(c, 6, c.symtab, bias);
    PointerIs(c, 5, c.strtab, bias);
  }

  /** What Open says of an object at this base: its result and the image it leaves. */
  ghost predicate Opened(o: Object, base: nat, r: Result<nat>, now: seq<byte>) {
    match r
    case Ok(_) =>
      && !o.Bare() && o.Dynamic() && !o.Unnamed(base)
      && HaveWords(o.rs, o.BiasAt(base), 0, |o.rs|) && o.LoadedAs(now, base)
    case Err(NoSegments) => o.Bare()
    case Err(NoTables) => !o.Bare() && o.Dynamic() && o.Unnamed(base)
    case Err(error) =>
      && !o.Bare() && o.Dynamic() && !o.Unnamed(base)
      && !HaveWords(o.rs, o.BiasAt(base), 0, |o.rs|) && Fails(o.rs, o.BiasAt(base), error)
  }

  method OpenObject(file: seq<byte>, ph: seq<Phdr>, base: nat, host: seq<(Name, Word)>, ghost o: Object)
    returns (r: Result<nat>, image: array<byte>)
    requires base < M && o.file == file && o.ph == ph && o.lay.link.host == host && o.Regular()
    ensures Opened(o, base, r, image[..])
  {
    r, image := Open(file, ph, base, host, o);
  }

  /** For an object that is read as these contents, what Open says of it is said of them. */
  lemma {:induction false} OutcomeIs(o: Object, base: nat, r: Result<nat>, now: seq<byte>,
                                     img: seq<byte>, low: nat, d: nat, c: Contents, host: seq<(Name, Word)>, bias: nat)
    requires Opened(o, base, r, now) && !o.Bare() && o.Dynamic() && o.Entries() == DynsOf(c) && o.n == |c.dyns|
    requires img == o.Image() && Holds(img, low, d, c) && bias == o.BiasAt(base)
    requires (forall k: nat | k < |c.All()| :: low <= c.All()[k].offset) && o.rs == Meanings(low, c, host)
    ensures Outcome(r, now, low, c, host, bias)
  {
    UnnamedIs(o, c, base, bias);
    WordsAre(img, low, d, c, host, bias, o.rs);
    match r {
      case Ok(_) => assert Patched(now, img, Plan(o.rs, bias), |o.rs|);
      case Err(NoSegments) =>
      case Err(NoTables) =>
      case Err(error) => FailureIs(img, low, d, c, host, bias, o.rs, error);
    }
  }

  /** The object of these contents. */
  ghost predicate IsObject(o: Object, file: seq<byte>, ph: seq<Phdr>, low: nat, d: nat, c: Contents,
                           host: seq<(Name, Word)>) {
    match o
    case Object(f, p, n, lay, rs) =>
      && f == file && p == ph && lay.link.host == host && n == |c.dyns| && low < M
      && o.Regular() && !o.Bare() && o.Dynamic() && o.Entries() == DynsOf(c) && o.Low() == low
      && Holds(o.Image(), low, d, c)
      && (forall k: nat | k < |c.All()| :: low <= c.All()[k].offset) && rs == Meanings(low, c, host)
  }

  method OpenThis(file: seq<byte>, ph: seq<Phdr>, base: nat, host: seq<(Name, Word)>, ghost o: Object, ghost low: nat,
                  ghost d: nat, ghost c: Contents)
    returns (r: Result<nat>, image: array<byte>)
    requires base < M && IsObject(o, file, ph, low, d, c, host)
    ensures Opened(o, base, r, image[..])
  {
    r, image := OpenObject(file, ph, base, host, o);
  }

  /** The bias is the base minus the lowest page, modulo 2^64. */
  lemma {:induction false} BiasExactly(base: nat, low: nat)
    requires low <= 0x1_0000_0000_0000_0000
    ensures Bias(base, low) == (base + 0x1_0000_0000_0000_0000 - low) % 0x1_0000_0000_0000_0000
  {
  }

  lemma {:induction false} OutcomeFollows(o: Object, file: seq<byte>, ph: seq<Phdr>, base: nat, r: Result<nat>,
                                          now: seq<byte>, low: nat, d: nat, c: Contents, host: seq<(Name, Word)>,
                                          bias: nat)
    requires IsObject(o, file, ph, low, d, c, host) && Opened(o, base, r, now) && bias == Bias(base, low)
    ensures Outcome(r, now, low, c, host, bias)
  {
    OutcomeIs(o, base, r, now, o.Image(), low, d, c, host, bias);
  }

  lemma {:induction false} ObjectIs(file: seq<byte>, ph: seq<Phdr>, low: nat, d: nat, c: Contents,
                                    host: seq<(Name, Word)>)
    returns (o: Object)
    requires Lies(|file|, ph, low, d) && Holds(ImageOf(file, ph), low, d, c)
    ensures low < M && IsObject(o, file, ph, low, d, c, host)
  {
    var img := ImageOf(file, ph);
    Inside(img, low, d, c);
    o := ObjectOf(file, ph, low, c, host);
    TablesAreRead(img, low, d, c, host);
    ObjectIsRegular(file, ph, low, d, c, o);
  }

  /** How opening an object with these contents ends, and what it leaves. */
  ghost predicate Outcome(r: Result<nat>, now: seq<byte>, low: nat, c: Contents, host: seq<(Name, Word)>, bias: nat) {
    match r
    case Ok(_) => !NoTable(c, bias) && AllApply(c, host, bias) && AllStored(now, low, c, host, bias)
    case Err(error) =>
      if NoTable(c, bias) then error == NoTables else !AllApply(c, host, bias) && Blames(c, host, bias, error)
  }

  /**
   An object whose mapped image holds these tables. Unless a table lies at address 0 it opens exactly if every
   relocation applies; then bias plus addend, or the address of the symbol plus addend, is stored at the offset of each.
   Else the first that does not apply gives the reason.
   */
  method OpenEncoded(file: seq<byte>, ph: seq<Phdr>, base: nat, host: seq<(Name, Word)>,
                     ghost low: nat, ghost d: nat, ghost c: Contents, ghost bias: nat)
    returns (r: Result<nat>, image: array<byte>)
    requires base < M && Lies(|file|, ph, low, d) && Holds(ImageOf(file, ph), low, d, c)
    requires low <= M && bias == Bias(base, low)
    ensures Outcome(r, image[..], low, c, host, bias)
  {
    ghost var o := ObjectIs(file, ph, low, d, c, host);
    r, image := OpenThis(file, ph, base, host, o, low, d, c);
    OutcomeFollows(o, file, ph, base, r, image[..], low, d, c, host, bias);
  }
}
