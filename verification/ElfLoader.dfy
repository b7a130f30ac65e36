/** load_elf64mmu: program headers (chapter 5 of the System V gABI) to mapped, initialised memory. */
module ElfLoader {
  import opened Bits
  import opened Ranges
  import opened RamList
  import opened Descriptors
  import opened TableTree
  import opened Mapping
  import opened Translation
  import opened PageTables
  import opened Wrappers
  import R = RamRuns

  const PT_LOAD: nat := 1
  const PF_W: nat := 2

  datatype Phdr = Phdr(ptype: nat, flags: nat, offset: nat, vaddr: nat, paddr: nat, filesz: nat, memsz: nat)

  predicate Writable(flags: nat) { flags / PF_W % 2 == 1 }

  /** set_pte's attributes for the segment flags R, W and X, which elf_map turns into protections. */
  type Protections = seq<Attrs>

  ghost predicate ProtectionsValid(ps: Protections) {
    |ps| == 8 && forall i :: 0 <= i < 8 ==> ps[i].Valid()
  }

  /** The file bytes of a segment: where mkifs placed them, or in the image at addr. */
  function Source(addr: nat, ph: Phdr): nat {
    if ph.paddr != 0 then ph.paddr else addr + ph.offset
  }

  /** The pages a segment takes in virtual memory. */
  function SegStart(g: Granule, ph: Phdr): nat { TruncPage(g, ph.vaddr) }
  function SegSize(g: Granule, ph: Phdr): nat { RoundPage(g, ph.memsz + ph.vaddr % g.PageSize()) }

  /** No page of the range goes through the self map. */
  ghost predicate OrdinaryRange(L: Layout, va: nat, size: nat)
    requires L.Valid()
  {
    forall x: nat :: va <= x < va + size ==> Ordinary(L, L.IsHigh(va), PageOf(L.g, x))
  }

  /** The sizes load_elf64mmu goes on with: counted from the start of the page, and rounded up where
      there is nothing behind the file part. */
  predicate Adjusted(g: Granule, ph: Phdr, filesz: nat, memsz: nat) {
    || (filesz == ph.filesz + ph.vaddr % g.PageSize() && memsz == ph.memsz + ph.vaddr % g.PageSize())
    || (ph.filesz == ph.memsz && filesz == memsz == SegSize(g, ph))
  }

  /** n bytes from the start of the first page end with the file part, or behind the segment. */
  predicate FileEnds(g: Granule, ph: Phdr, n: nat) {
    || n == ph.filesz + ph.vaddr % g.PageSize()
    || (ph.filesz == ph.memsz && n >= ph.memsz + ph.vaddr % g.PageSize())
  }

  /** What a program header must satisfy: the file part is not larger than the segment, source and
      destination agree in their page offset, and the pages lie outside the self map. */
  ghost predicate SegmentFits(L: Layout, addr: nat, ph: Phdr) {
    && L.Valid()
    && ph.filesz <= ph.memsz && (ph.paddr == 0 ==> 0 < ph.memsz + ph.vaddr % L.g.PageSize())
    && ph.vaddr < TWO64 && ph.memsz + 4 * L.g.PageSize() < TWO48
    && Source(addr, ph) < TWO48 && Source(addr, ph) % L.g.PageSize() == ph.vaddr % L.g.PageSize()
    && TruncPage(L.g, Source(addr, ph)) + SegSize(L.g, ph) <= TWO48
    && OrdinaryRange(L, SegStart(L.g, ph), SegSize(L.g, ph))
  }

  /** Memory that no allocation can touch: neither free nor a translation table. */
  ghost predicate Stable(g: Granule, p: Phys, a: nat) {
    a !in p.s.free && !InTables(g, p.tables, a)
  }

  ghost predicate InTables(g: Granule, t: Tables, a: nat) {
    exists f :: f in t && f <= a < f + g.PageSize()
  }

  /** The program reads the byte b at va, from memory that is safely its own, by a descriptor with
      these attributes. */
  ghost predicate Reads(L: Layout, p: Phys, va: nat, b: nat, a: Attrs)
    requires L.Valid()
  {
    var w := Walk(L, p.tables, va);
    && L.InHalf(va) && Ordinary(L, L.IsHigh(va), PageOf(L.g, va))
    && w.Some? && Stable(L.g, p, w.value) && p.mem(w.value) == b && HasAttrs(L, p.tables, va, a)
  }

  /** What the gABI wants at an address of the segment: the file byte, or zero behind the file part. */
  ghost function Expected(m0: nat -> Byte, addr: nat, ph: Phdr, va: nat): nat
    requires va >= ph.vaddr
  {
    if va - ph.vaddr < ph.filesz then m0(Source(addr, ph) + (va - ph.vaddr)) else 0
  }

  /** Every byte of the segment reads as it should, with the protections of its page. */
  ghost predicate Loaded(L: Layout, p: Phys, m0: nat -> Byte, addr: nat, ph: Phdr, a: Attrs)
    requires L.Valid()
  {
    forall va: nat :: ph.vaddr <= va < ph.vaddr + ph.memsz ==> Reads(L, p, va, Expected(m0, addr, ph, va), a)
  }

  /** A loaded segment, byte by byte: what lies d bytes behind p_paddr, or where that is zero, d bytes
      behind p_offset in the image at addr, and zeros behind p_filesz. */
  lemma SegmentBytes(L: Layout, p: Phys, m0: nat -> Byte, addr: nat, ph: Phdr, a: Attrs, d: nat)
    requires L.Valid() && Loaded(L, p, m0, addr, ph, a) && d < ph.memsz
    ensures Reads(L, p, ph.vaddr + d,
                  if d >= ph.filesz then 0
                  else if ph.paddr != 0 then m0(ph.paddr + d)
                  else m0(addr + ph.offset + d), a)
  {
    hide Reads;
    assert Reads(L, p, ph.vaddr + d, Expected(m0, addr, ph, ph.vaddr + d), a);
  }

  lemma BytesOf(f: nat, size: nat, a: nat)
    ensures f <= a < f + size <==> a in R.Bytes(Range(f, size))
  {
  }

  lemma StableStays(g: Granule, p: Phys, q: Phys, a: nat)
    requires Grown(g, p, q) && Stable(g, p, a)
    ensures Stable(g, q, a) && q.mem(a) == p.mem(a)
  {
    forall f | f in q.tables ensures !(f <= a < f + g.PageSize()) {
      BytesOf(f, g.PageSize(), a);
    }
  }

  /** A byte read elsewhere is not disturbed by a mapping. */
  lemma ReadsStays(L: Layout, p: Phys, q: Phys, va: nat, size: nat, pa: nat, attrs: Attrs, x: nat, b: nat, a: Attrs)
    requires L.Valid() && Grown(L.g, p, q) && Mapped(L, p.tables, q.tables, va, size, pa, attrs)
    requires Reads(L, p, x, b, a) && !(va <= x < va + size)
    ensures Reads(L, q, x, b, a)
  {
    hide Lookup, AttrsOf, Ordinary;
    StableStays(L.g, p, q, Walk(L, p.tables, x).value);
  }

  /** A fresh block is neither free any more nor a table. */
  lemma BlockStable(g: Granule, p: Phys, q: Phys, m: Range, a: nat)
    requires R.Safe(p.s) && R.Step(p.s, R.Allocate(m), q.s) && q.tables == p.tables
    requires forall f :: f in p.tables ==> Range(f, g.PageSize()) in p.s.given
    requires m.addr <= a < m.End()
    ensures Stable(g, q, a)
  {
    R.StepSafe(p.s, R.Allocate(m), q.s);
    assert a in R.Bytes(m);
    forall f | f in q.tables ensures !(f <= a < f + g.PageSize()) {
      BytesOf(f, g.PageSize(), a);
      var i :| 0 <= i < |p.s.given| && p.s.given[i] == Range(f, g.PageSize());
      assert R.Bytes(p.s.given[i]) !! R.Bytes(m);
    }
  }

  /** The whole block is out of reach of later allocations. */
  ghost predicate BlockTaken(g: Granule, p: Phys, q: Phys, daddr: nat, size: nat) {
    && Grown(g, p, q) && q.tables == p.tables
    && PageAddress(g, daddr) && daddr + size <= PADDR_LIMIT
    && forall a: nat :: daddr <= a < daddr + size ==> a in p.s.free && Stable(g, q, a)
  }

  lemma AllocatedIsTaken(g: Granule, p: Phys, q: Phys, daddr: nat, size: nat)
    requires R.Safe(p.s) && R.Step(p.s, R.Allocate(Range(daddr, size)), q.s) && q.tables == p.tables
    requires p.inStep ==> q.inStep
    requires forall f :: f in p.tables ==> Range(f, g.PageSize()) in p.s.given
    requires forall a: nat :: q.mem(a) == if daddr <= a < daddr + size then 0 else p.mem(a)
    requires PageAddress(g, daddr) && daddr + size <= PADDR_LIMIT
    ensures BlockTaken(g, p, q, daddr, size)
  {
    hide Stable;
    forall a: nat | daddr <= a < daddr + size ensures a in p.s.free && Stable(g, q, a) {
      BlockStable(g, p, q, Range(daddr, size), a);
      BytesOf(daddr, size, a);
    }
    forall a: nat | a !in p.s.free ensures q.mem(a) == p.mem(a) {
      if daddr <= a < daddr + size {
        BytesOf(daddr, size, a);
      }
    }
  }

  /** calloc_ram of whole pages. Where it finds no memory the loader goes on with an unusable
      address; the model stops. */
  method ClearedBlock(pt: PageTables, size: nat) returns (daddr: nat, o: Outcome)
    requires pt.Valid() && 0 < size
    modifies pt`mem, pt.ram`given, pt.ram.ram`len, pt.ram.ram.list, pt.ram.asinfo
    ensures o.Done? ==> pt.Valid() && BlockTaken(pt.L.g, old(pt.Memory()), pt.Memory(), daddr, size)
    ensures o.Done? ==> forall a: nat :: daddr <= a < daddr + size ==> pt.mem(a) == 0
    ensures o.Crash? ==> pt.ram.Refuses(size, pt.L.g.PageSize())
  {
    hide Tree, BlockTaken, R.Safe, B.BootRam.Refuses;
    ghost var p0 := pt.Memory();
    var r;
    r, o := pt.CallocRam(size, pt.L.g.PageSize());
    if r.None? || o.Crash? {
      return 0, Crash;
    }
    daddr := r.value;
    BlockAligned(old(pt.ram.ram.Contents()), old(pt.ram.avoid), pt.L.g, size, daddr);
    AllocatedIsTaken(pt.L.g, p0, pt.Memory(), daddr, size);
  }

  /** A cleared block with the bytes of src in front, not yet mapped. */
  method CopyToBlock(pt: PageTables, size: nat, src: nat, len: nat) returns (daddr: nat, o: Outcome)
    requires pt.Valid() && 0 < size && len <= size
    modifies pt`mem, pt.ram`given, pt.ram.ram`len, pt.ram.ram.list, pt.ram.asinfo
    ensures o.Done? ==> pt.Valid() && BlockTaken(pt.L.g, old(pt.Memory()), pt.Memory(), daddr, size)
    ensures o.Done? ==> BlockFilled(old(pt.Memory()), pt.Memory(), daddr, size, src, len)
    ensures o.Crash? ==> pt.ram.Refuses(size, pt.L.g.PageSize())
  {
    hide Tree, Stable, BlockTaken, BlockFilled;
    ghost var p0 := pt.Memory();
    daddr, o := ClearedBlock(pt, size);
    if o.Crash? {
      return;
    }
    ghost var p1 := pt.Memory();
    pt.CopyMemory(daddr, src, len);
    CopyInBlock(pt.L.g, p0, p1, pt.Memory(), daddr, size, src, len);
  }

  /** The block holds len bytes from src, where those were in use, and zeros behind them. */
  ghost predicate BlockFilled(p: Phys, q: Phys, daddr: nat, size: nat, src: nat, len: nat) {
    && (forall a: nat :: daddr + len <= a < daddr + size ==> q.mem(a) == 0)
    && (forall a: nat :: daddr <= a < daddr + len && src + (a - daddr) !in p.s.free ==>
          q.mem(a) == p.mem(src + (a - daddr)))
  }

  /** Writing into the block changes nothing that was in use before. */
  lemma CopyInBlock(g: Granule, p: Phys, q: Phys, r: Phys, daddr: nat, size: nat, src: nat, len: nat)
    requires BlockTaken(g, p, q, daddr, size) && len <= size
    requires forall a: nat :: daddr <= a < daddr + size ==> q.mem(a) == 0
    requires r == q.(mem := Copied(q.mem, daddr, src, len))
    ensures BlockTaken(g, p, r, daddr, size)
    ensures BlockFilled(p, r, daddr, size, src, len)
  {
    CopyKeepsBlock(g, p, q, r, daddr, size);
    CopyFills(g, p, q, r, daddr, size, src, len);
  }

  lemma CopyKeepsBlock(g: Granule, p: Phys, q: Phys, r: Phys, daddr: nat, size: nat)
    requires BlockTaken(g, p, q, daddr, size) && r == q.(mem := r.mem)
    requires forall a: nat :: !(daddr <= a < daddr + size) ==> r.mem(a) == q.mem(a)
    ensures BlockTaken(g, p, r, daddr, size)
  {
    hide InTables;
    forall a: nat ensures Stable(g, r, a) <==> Stable(g, q, a) {
      SameTables(g, q, r, a);
    }
  }

  lemma SameTables(g: Granule, p: Phys, q: Phys, a: nat)
    requires p.tables == q.tables
    ensures InTables(g, p.tables, a) <==> InTables(g, q.tables, a)
  {
  }

  lemma CopyFills(g: Granule, p: Phys, q: Phys, r: Phys, daddr: nat, size: nat, src: nat, len: nat)
    requires BlockTaken(g, p, q, daddr, size) && len <= size
    requires forall a: nat :: daddr <= a < daddr + size ==> q.mem(a) == 0
    requires r == q.(mem := Copied(q.mem, daddr, src, len))
    ensures BlockFilled(p, r, daddr, size, src, len)
  {
    hide Stable, Copied, Grown;
    forall a: nat | daddr + len <= a < daddr + size ensures r.mem(a) == 0 {
      CopiedAt(q.mem, daddr, src, len, a);
    }
    forall a: nat | daddr <= a < daddr + len && src + (a - daddr) !in p.s.free
      ensures r.mem(a) == p.mem(src + (a - daddr))
    {
      CopiedAt(q.mem, daddr, src, len, a);
      KeptAt(g, p, q, src + (a - daddr));
    }
  }

  lemma CopiedAt(m: nat -> Byte, dst: nat, src: nat, len: nat, a: nat)
    ensures Copied(m, dst, src, len)(a) == if dst <= a < dst + len then m(src + (a - dst)) else m(a)
  {
  }

  lemma KeptAt(g: Granule, p: Phys, q: Phys, a: nat)
    requires Grown(g, p, q) && a !in p.s.free
    ensures q.mem(a) == p.mem(a)
  {
  }

  /** The file part of a segment lies in memory of its own. */
  ghost predicate SourceStable(g: Granule, p: Phys, addr: nat, ph: Phdr) {
    forall a: nat :: Source(addr, ph) <= a < Source(addr, ph) + ph.filesz ==> Stable(g, p, a)
  }

  /** Whatever the program could read outside the range it still reads. */
  ghost predicate KeepsReads(L: Layout, p: Phys, q: Phys, va: nat, size: nat)
    requires L.Valid()
  {
    forall x: nat, b: nat, a: Attrs :: Reads(L, p, x, b, a) && !(va <= x < va + size) ==> Reads(L, q, x, b, a)
  }

  /** A mapped range shows the memory behind it, where that is stable. */
  lemma MappedReads(L: Layout, p: Phys, q: Phys, va: nat, size: nat, pa: nat, attrs: Attrs, x: nat)
    requires L.Valid() && Grown(L.g, p, q) && Mapped(L, p.tables, q.tables, va, size, pa, attrs)
    requires InOneHalf(L, va, size) && OrdinaryRange(L, va, size)
    requires va <= x < va + size && Stable(L.g, p, pa + (x - va))
    ensures Reads(L, q, x, p.mem(pa + (x - va)), attrs)
  {
    hide Lookup, AttrsOf, Ordinary, Stable;
    StableStays(L.g, p, q, pa + (x - va));
  }

  lemma MapKeepsReads(L: Layout, p: Phys, q: Phys, va: nat, size: nat, pa: nat, attrs: Attrs)
    requires L.Valid() && Grown(L.g, p, q) && Mapped(L, p.tables, q.tables, va, size, pa, attrs)
    ensures KeepsReads(L, p, q, va, size)
  {
    hide Reads, Grown, Mapped;
    forall x: nat, b: nat, a: Attrs | Reads(L, p, x, b, a) && !(va <= x < va + size) ensures Reads(L, q, x, b, a) {
      ReadsStays(L, p, q, va, size, pa, attrs, x, b, a);
    }
  }

  lemma MappedOutside(L: Layout, t0: Tables, t: Tables, va: nat, size: nat, pa: nat, attrs: Attrs)
    requires L.Valid() && Mapped(L, t0, t, va, size, pa, attrs)
    ensures SameOutside(L, t0, t, va, size)
  {
  }

  /** elf_map of whole pages. */
  method MapPages(pt: PageTables, va: nat, pa: nat, asked: nat, attrs: Attrs) returns (o: Outcome)
    requires pt.Valid() && pt.isVirtual && attrs.Valid()
    requires va % pt.L.g.PageSize() == 0 && va < TWO64 && PageAddress(pt.L.g, pa)
    requires asked + 2 * pt.L.g.PageSize() < TWO48 && pa + RoundPage(pt.L.g, asked) <= TWO48
    requires OrdinaryRange(pt.L, va, RoundPage(pt.L.g, asked))
    modifies pt`mem, pt`tables, pt`at, pt`freeVaddr, pt.ram`given, pt.ram.ram`len, pt.ram.ram.list, pt.ram.asinfo
    ensures o.Done? ==> pt.Valid() && Grown(pt.L.g, old(pt.Memory()), pt.Memory())
    ensures o.Done? ==> InOneHalf(pt.L, va, RoundPage(pt.L.g, asked))
    ensures o.Done? ==> Mapped(pt.L, old(pt.tables), pt.tables, va, RoundPage(pt.L.g, asked), pa, attrs)
    ensures o.Done? ==> KeepsReads(pt.L, old(pt.Memory()), pt.Memory(), va, RoundPage(pt.L.g, asked))
    ensures o.Crash? ==> !InOneHalf(pt.L, va, RoundPage(pt.L.g, asked)) || pt.NoPage()
    ensures o.Done? ==> pt.freeVaddr == old(pt.freeVaddr)
  {
    hide Tree, Lookup, Ordinary, Mapped, Reads, Grown, RoundPage, InOneHalf, PageTables.NoPage;
    assert pa % pt.L.g.PageSize() == 0 && TruncPage(pt.L.g, va) == va;
    var r;
    r, o := pt.Map(Some(va), pa, asked, attrs);
    if o.Done? {
      MapKeepsReads(pt.L, old(pt.Memory()), pt.Memory(), va, RoundPage(pt.L.g, asked), pa, attrs);
    }
  }

  /** The byte at the distance of x from va: one of len bytes at src, or zero behind them. */
  function CopyByte(p: Phys, va: nat, src: nat, len: nat, x: nat): nat
    requires va <= x
  {
    if x - va < len then p.mem(src + (x - va)) else 0
  }

  /** The range shows len bytes from src, as they were, and zeros behind them, with the attributes. */
  ghost predicate Shows(L: Layout, p: Phys, q: Phys, va: nat, size: nat, src: nat, len: nat, attrs: Attrs)
    requires L.Valid()
  {
    forall x: nat :: va <= x < va + size && (x - va < len ==> src + (x - va) !in p.s.free) ==>
      Reads(L, q, x, CopyByte(p, va, src, len, x), attrs)
  }

  /** From the filled block to the addresses that show it. */
  lemma BlockShows(L: Layout, p: Phys, q: Phys, r: Phys, va: nat, size: nat, src: nat, len: nat, daddr: nat,
                   attrs: Attrs)
    requires L.Valid() && BlockTaken(L.g, p, q, daddr, size) && len <= size
    requires BlockFilled(p, q, daddr, size, src, len)
    requires Grown(L.g, q, r) && Mapped(L, q.tables, r.tables, va, size, daddr, attrs)
    requires InOneHalf(L, va, size) && OrdinaryRange(L, va, size)
    ensures Shows(L, p, r, va, size, src, len, attrs)
  {
    hide Reads, Mapped, Grown, InOneHalf, OrdinaryRange, Stable;
    forall x: nat | va <= x < va + size && (x - va < len ==> src + (x - va) !in p.s.free)
      ensures Reads(L, r, x, CopyByte(p, va, src, len, x), attrs)
    {
      var a := daddr + (x - va);
      assert Stable(L.g, q, a);
      MappedReads(L, q, r, va, size, daddr, attrs, x);
    }
  }

  /** Taking a block disturbs nothing that can be read. */
  lemma BlockKeepsReads(L: Layout, p: Phys, q: Phys, daddr: nat, size: nat, x: nat, b: nat, a: Attrs)
    requires L.Valid() && BlockTaken(L.g, p, q, daddr, size) && Reads(L, p, x, b, a)
    ensures Reads(L, q, x, b, a)
  {
    hide Lookup, AttrsOf, Ordinary;
    StableStays(L.g, p, q, Walk(L, p.tables, x).value);
  }

  lemma KeepsReadsAfterBlock(L: Layout, p: Phys, q: Phys, r: Phys, daddr: nat, va: nat, size: nat)
    requires L.Valid() && BlockTaken(L.g, p, q, daddr, size) && KeepsReads(L, q, r, va, size)
    ensures KeepsReads(L, p, r, va, size)
  {
    hide Reads, BlockTaken;
    forall x: nat, b: nat, a: Attrs | Reads(L, p, x, b, a) && !(va <= x < va + size) ensures Reads(L, r, x, b, a) {
      BlockKeepsReads(L, p, q, daddr, size, x, b, a);
    }
  }

  /** calloc_ram, copy_memory and elf_map: new pages that show a copy. */
  method CopyAndMap(pt: PageTables, va: nat, memsz: nat, src: nat, len: nat, attrs: Attrs) returns (o: Outcome)
    requires pt.Valid() && pt.isVirtual && attrs.Valid()
    requires va % pt.L.g.PageSize() == 0 && va < TWO64
    requires 0 < memsz && memsz + 2 * pt.L.g.PageSize() < TWO48 && len <= RoundPage(pt.L.g, memsz)
    requires OrdinaryRange(pt.L, va, RoundPage(pt.L.g, memsz))
    modifies pt`mem, pt`tables, pt`at, pt`freeVaddr, pt.ram`given, pt.ram.ram`len, pt.ram.ram.list, pt.ram.asinfo
    ensures o.Done? ==> pt.Valid() && Grown(pt.L.g, old(pt.Memory()), pt.Memory())
    ensures o.Done? ==> Shows(pt.L, old(pt.Memory()), pt.Memory(), va, RoundPage(pt.L.g, memsz), src, len, attrs)
    ensures o.Done? ==> KeepsReads(pt.L, old(pt.Memory()), pt.Memory(), va, RoundPage(pt.L.g, memsz))
    ensures o.Done? ==> SameOutside(pt.L, old(pt.tables), pt.tables, va, RoundPage(pt.L.g, memsz))
    ensures o.Crash? ==>
              var n := RoundPage(pt.L.g, memsz); !InOneHalf(pt.L, va, n) || pt.NoPage() || pt.NoBlock(n)
    ensures o.Done? ==> pt.freeVaddr == old(pt.freeVaddr)
  {
    hide Tree, Lookup, Ordinary, Mapped, Reads, Grown, Stable, InOneHalf, RoundPage, KeepsReads, Shows;
    hide B.BootRam.Refuses;
    ghost var p0 := pt.Memory();
    var size := RoundPage(pt.L.g, memsz);
    RoundedRange(pt.L.g, va, 0, memsz);
    var daddr;
    daddr, o := CopyToBlock(pt, size, src, len);
    if o.Crash? {
      return;
    }
    ghost var p1 := pt.Memory();
    o := MapPages(pt, va, daddr, memsz, attrs);
    if o.Crash? {
      return;
    }
    BlockShows(pt.L, p0, p1, pt.Memory(), va, size, src, len, daddr, attrs);
    MappedOutside(pt.L, p1.tables, pt.tables, va, size, daddr, attrs);
    KeepsReadsAfterBlock(pt.L, p0, p1, pt.Memory(), daddr, va, size);
    GrownTrans(pt.L.g, p0, p1, pt.Memory());
  }

  /** The part of the segment that the first mapping shows, in place. */
  lemma BodyLoaded(L: Layout, p: Phys, q: Phys, addr: nat, ph: Phdr, body: nat, x: nat, a: Attrs)
    requires SegmentFits(L, addr, ph) && SourceStable(L.g, p, addr, ph)
    requires Grown(L.g, p, q)
    requires var va, pa := SegStart(L.g, ph), TruncPage(L.g, Source(addr, ph));
             && Mapped(L, p.tables, q.tables, va, body, pa, a) && InOneHalf(L, va, body)
             && ph.vaddr <= x < va + body
    requires body <= SegSize(L.g, ph) && x - ph.vaddr < ph.filesz
    ensures Reads(L, q, x, Expected(p.mem, addr, ph, x), a)
  {
    hide Reads, Mapped, Grown, InOneHalf, RoundPage, Stable;
    var va, pa := SegStart(L.g, ph), TruncPage(L.g, Source(addr, ph));
    assert pa + (x - va) == Source(addr, ph) + (x - ph.vaddr);
    MappedReads(L, p, q, va, body, pa, a, x);
  }

  /** The part of the segment that was copied. body bytes come before it, and the last of the copied
      bytes is the last of the file part, or lies behind the segment. */
  lemma TailLoaded(L: Layout, p: Phys, q: Phys, r: Phys, addr: nat, ph: Phdr, body: nat, size: nat, len: nat, x: nat,
                   a: Attrs)
    requires SegmentFits(L, addr, ph) && SourceStable(L.g, p, addr, ph)
    requires Grown(L.g, p, q)
    requires var va, src := SegStart(L.g, ph) + body, TruncPage(L.g, Source(addr, ph)) + body;
             && Shows(L, q, r, va, size, src, len, a)
             && va <= x < va + size && ph.vaddr <= x < ph.vaddr + ph.memsz
    requires FileEnds(L.g, ph, body + len)
    ensures Reads(L, r, x, Expected(p.mem, addr, ph, x), a)
  {
    hide Reads, Grown, RoundPage;
    var va, src := SegStart(L.g, ph) + body, TruncPage(L.g, Source(addr, ph)) + body;
    if x - va < len {
      var y := src + (x - va);
      assert y == Source(addr, ph) + (x - ph.vaddr);
      assert Stable(L.g, p, y);
      StableStays(L.g, p, q, y);
    }
    assert CopyByte(q, va, src, len, x) == Expected(p.mem, addr, ph, x);
  }

  /** The first mapping and the second make up the segment's pages. */
  lemma Halves(g: Granule, ph: Phdr, filesz: nat, memsz: nat)
    requires ph.filesz <= ph.memsz
    requires Adjusted(g, ph, filesz, memsz)
    ensures var body := filesz - filesz % g.PageSize();
            && body % g.PageSize() == 0 && RoundPage(g, body) == body
            && body <= memsz
            && body + RoundPage(g, memsz - body) == SegSize(g, ph)
            && filesz % g.PageSize() <= RoundPage(g, memsz - body)
            && RoundPage(g, RoundPage(g, memsz - body)) == RoundPage(g, memsz - body)
  {
    hide UpTo;
    var p := g.PageSize();
    var k := filesz / p;
    var body := filesz - filesz % p;
    assert body == k * p;
    UpToWhole(k, p);
    UpToShifted(k, memsz - body, p);
    UpToTwice(memsz - body, p);
    UpToTwice(ph.memsz + ph.vaddr % p, p);
  }

  lemma PartOrdinary(L: Layout, va: nat, size: nat, lo: nat, n: nat)
    requires L.Valid() && OrdinaryRange(L, va, size) && va <= lo && lo + n <= va + size
    requires lo == va || InOneHalf(L, va, lo - va)
    ensures OrdinaryRange(L, lo, n)
  {
    hide Ordinary;
  }

  /** The part of a segment that mkifs has placed in memory and that is mapped where it is: the whole
      pages of the file part, and all pages if nothing follows it. */
  function PlacedPart(g: Granule, ph: Phdr): nat {
    var n := ph.filesz + ph.vaddr % g.PageSize();
    if ph.paddr == 0 then 0 else if ph.filesz == ph.memsz then SegSize(g, ph) else n - n % g.PageSize()
  }

  /** No copy is made of that part. */
  ghost predicate InPlace(L: Layout, t: Tables, ph: Phdr, n: nat)
    requires L.Valid()
  {
    forall x: nat :: SegStart(L.g, ph) <= x < SegStart(L.g, ph) + n ==>
      && L.InHalf(x) && Ordinary(L, L.IsHigh(x), PageOf(L.g, x))
      && Walk(L, t, x) == Some(TruncPage(L.g, ph.paddr) + (x - SegStart(L.g, ph)))
  }

  /** The bytes of a segment read as they should, with its protections, the part that is in place has
      not been copied, and outside its pages everything is as before. */
  ghost predicate SegmentDone(L: Layout, p: Phys, q: Phys, addr: nat, ph: Phdr, a: Attrs)
    requires L.Valid()
  {
    && Loaded(L, q, p.mem, addr, ph, a)
    && InPlace(L, q.tables, ph, PlacedPart(L.g, ph))
    && KeepsReads(L, p, q, SegStart(L.g, ph), SegSize(L.g, ph))
    && SameOutside(L, p.tables, q.tables, SegStart(L.g, ph), SegSize(L.g, ph))
  }

  lemma PartsFit(L: Layout, addr: nat, ph: Phdr, filesz: nat, memsz: nat)
    requires SegmentFits(L, addr, ph) && ph.paddr != 0
    requires Adjusted(L.g, ph, filesz, memsz)
    ensures var va, pa := SegStart(L.g, ph), TruncPage(L.g, ph.paddr);
            var body := filesz - filesz % L.g.PageSize();
            && va % L.g.PageSize() == 0 && va < TWO64 && PageAddress(L.g, pa)
            && body <= memsz && body + 2 * L.g.PageSize() < TWO48 && pa + RoundPage(L.g, body) <= TWO48
            && RoundPage(L.g, body) == body && OrdinaryRange(L, va, body)
            && var rest := RoundPage(L.g, memsz - body);
            && (va + body) % L.g.PageSize() == 0 && rest + 2 * L.g.PageSize() < TWO48
            && RoundPage(L.g, rest) == rest && filesz % L.g.PageSize() <= rest && body + rest == SegSize(L.g, ph)
            && (InOneHalf(L, va, body) ==> va + body < TWO64 && OrdinaryRange(L, va + body, rest))
  {
    hide Ordinary, RoundPage, OrdinaryRange, TruncPage, SegStart, SegSize;
    var va, size := SegStart(L.g, ph), SegSize(L.g, ph);
    var body := filesz - filesz % L.g.PageSize();
    Halves(L.g, ph, filesz, memsz);
    SegmentPages(L, addr, ph);
    SumAligned(L.g, va, body);
    PartOrdinary(L, va, size, va, body);
    if InOneHalf(L, va, body) {
      PartOrdinary(L, va, size, va + body, RoundPage(L.g, memsz - body));
    }
  }

  lemma SegmentPages(L: Layout, addr: nat, ph: Phdr)
    requires SegmentFits(L, addr, ph)
    ensures SegStart(L.g, ph) % L.g.PageSize() == 0 && SegStart(L.g, ph) < TWO64
    ensures PageAddress(L.g, TruncPage(L.g, Source(addr, ph)))
    ensures SegSize(L.g, ph) + 2 * L.g.PageSize() < TWO48
  {
    hide Ordinary, RoundPage, OrdinaryRange;
    RoundedRange(L.g, Source(addr, ph), ph.vaddr, 0);
    RoundedRange(L.g, ph.vaddr, 0, 0);
    RoundedRange(L.g, 0, 0, ph.memsz + ph.vaddr % L.g.PageSize());
  }

  /** Why a segment was not loaded: its pages do not lie in one half, or there is no block for them
      or for a table. */
  ghost predicate CannotLoad(pt: PageTables, ph: Phdr)
    reads pt.ram, pt.ram.ram, pt.ram.ram.list, pt.ram.asinfo
  {
    || !InOneHalf(pt.L, SegStart(pt.L.g, ph), SegSize(pt.L.g, ph))
    || pt.NoPage() || pt.NoBlock(SegSize(pt.L.g, ph))
  }

  /** What stops the first n bytes of the pages or the k bytes behind them stops the segment. */
  lemma PartNotLoaded(pt: PageTables, ph: Phdr, n: nat, k: nat)
    requires n + k == SegSize(pt.L.g, ph)
    requires var va := SegStart(pt.L.g, ph);
             !InOneHalf(pt.L, va, n) || !InOneHalf(pt.L, va + n, k) || pt.NoPage() || pt.NoBlock(k)
    ensures CannotLoad(pt, ph)
  {
    hide SegStart, SegSize, B.BootRam.Refuses;
  }

  /** A segment in place: the whole pages of the file part are mapped where they are, and the rest
      is copied. */
  method LoadInPlace(pt: PageTables, ps: Protections, addr: nat, ph: Phdr, filesz: nat, memsz: nat) returns (o: Outcome)
    requires pt.Valid() && pt.isVirtual && ProtectionsValid(ps)
    requires SegmentFits(pt.L, addr, ph) && SourceStable(pt.L.g, pt.Memory(), addr, ph) && ph.paddr != 0
    requires Adjusted(pt.L.g, ph, filesz, memsz)
    requires ph.filesz == ph.memsz ==> filesz == memsz == SegSize(pt.L.g, ph)
    modifies pt`mem, pt`tables, pt`at, pt`freeVaddr, pt.ram`given, pt.ram.ram`len, pt.ram.ram.list, pt.ram.asinfo
    ensures o.Done? ==> pt.Valid() && Grown(pt.L.g, old(pt.Memory()), pt.Memory())
    ensures o.Done? ==> SegmentDone(pt.L, old(pt.Memory()), pt.Memory(), addr, ph, ps[ph.flags % 8])
    ensures o.Crash? ==> CannotLoad(pt, ph)
    ensures o.Done? ==> pt.freeVaddr == old(pt.freeVaddr)
  {
    hide Tree, Lookup, Ordinary, Mapped, Reads, Grown, Stable, RoundPage, OrdinaryRange, SourceStable, KeepsReads;
    hide Loaded, Shows, SegmentFits, SegSize, SegStart, TruncPage, InOneHalf, PageAddress, SegmentDone, CannotLoad;
    hide PageTables.NoPage, PageTables.NoBlock;
    ghost var p0 := pt.Memory();
    var va, pa := SegStart(pt.L.g, ph), TruncPage(pt.L.g, ph.paddr);
    var body := filesz - filesz % pt.L.g.PageSize();
    PartsFit(pt.L, addr, ph, filesz, memsz);
    o := MapPages(pt, va, pa, body, ps[ph.flags % 8]);
    if o.Crash? {
      PartNotLoaded(pt, ph, body, SegSize(pt.L.g, ph) - body);
      return;
    }
    ghost var p1 := pt.Memory();
    var rest := RoundPage(pt.L.g, memsz - body);
    if rest != 0 {
      o := CopyAndMap(pt, va + body, rest, pa + body, filesz % pt.L.g.PageSize(), ps[ph.flags % 8]);
      if o.Crash? {
        PartNotLoaded(pt, ph, body, rest);
        return;
      }
      GrownTrans(pt.L.g, p0, p1, pt.Memory());
    }
    TwoParts(pt.L, p0, p1, pt.Memory(), addr, ph, filesz, memsz, ps[ph.flags % 8]);
  }

  lemma TwoParts(L: Layout, p: Phys, q: Phys, r: Phys, addr: nat, ph: Phdr, filesz: nat, memsz: nat, a: Attrs)
    requires SegmentFits(L, addr, ph) && SourceStable(L.g, p, addr, ph) && ph.paddr != 0
    requires Adjusted(L.g, ph, filesz, memsz)
    requires Grown(L.g, p, q)
    requires var body := filesz - filesz % L.g.PageSize(); var va := SegStart(L.g, ph);
             && body <= memsz
             && Mapped(L, p.tables, q.tables, va, body, TruncPage(L.g, ph.paddr), a) && InOneHalf(L, va, body)
             && KeepsReads(L, p, q, va, body)
             && var rest := RoundPage(L.g, memsz - body);
             if rest == 0 then r == q else
               && Shows(L, q, r, va + body, rest, TruncPage(L.g, ph.paddr) + body, filesz % L.g.PageSize(), a)
               && KeepsReads(L, q, r, va + body, rest)
               && SameOutside(L, q.tables, r.tables, va + body, rest)
    requires ph.filesz == ph.memsz ==> filesz == memsz == SegSize(L.g, ph)
    ensures SegmentDone(L, p, r, addr, ph, a)
  {
    hide Lookup, AttrsOf, Ordinary, Mapped, Reads, Grown, Stable, RoundPage, OrdinaryRange, SourceStable, Shows;
    hide SameOutside, InPlace;
    hide SegStart, SegSize, TruncPage, InOneHalf, Expected, Adjusted;
    var body, va := filesz - filesz % L.g.PageSize(), SegStart(L.g, ph);
    Halves(L.g, ph, filesz, memsz);
    AdjustedEnds(L.g, ph, filesz, memsz);
    PlacedIs(L.g, ph, filesz, memsz);
    TwoPartsPlaced(L, p.tables, q.tables, r.tables, addr, ph, body, SegSize(L.g, ph) - body, a);
    forall x: nat | ph.vaddr <= x < ph.vaddr + ph.memsz ensures Reads(L, r, x, Expected(p.mem, addr, ph, x), a) {
      InsideSegment(L.g, ph, x);
      if x < va + body {
        BodyLoaded(L, p, q, addr, ph, body, x, a);
      } else {
        TailLoaded(L, p, q, r, addr, ph, body, RoundPage(L.g, memsz - body), filesz % L.g.PageSize(), x, a);
      }
    }
  }

  lemma PlacedIs(g: Granule, ph: Phdr, filesz: nat, memsz: nat)
    requires ph.paddr != 0 && Adjusted(g, ph, filesz, memsz)
    requires ph.filesz == ph.memsz ==> filesz == memsz == SegSize(g, ph)
    ensures PlacedPart(g, ph) == filesz - filesz % g.PageSize()
  {
    hide RoundPage;
    RoundedRange(g, 0, 0, ph.memsz + ph.vaddr % g.PageSize());
  }

  /** The second mapping leaves the first one alone, and both leave the rest. */
  lemma TwoPartsPlaced(L: Layout, t0: Tables, t1: Tables, t2: Tables, addr: nat, ph: Phdr, body: nat, rest: nat,
                       a: Attrs)
    requires SegmentFits(L, addr, ph) && body + rest == SegSize(L.g, ph)
    requires var va := SegStart(L.g, ph);
             && Mapped(L, t0, t1, va, body, TruncPage(L.g, ph.paddr), a) && InOneHalf(L, va, body)
             && if rest == 0 then t2 == t1 else SameOutside(L, t1, t2, va + body, rest)
    ensures InPlace(L, t2, ph, body) && SameOutside(L, t0, t2, SegStart(L.g, ph), SegSize(L.g, ph))
  {
    hide Lookup, AttrsOf, Ordinary, TruncPage, SegSize, SegStart, HasAttrs;
    var va := SegStart(L.g, ph);
    forall x: nat | va <= x < va + body
      ensures L.InHalf(x) && Ordinary(L, L.IsHigh(x), PageOf(L.g, x))
      ensures Walk(L, t2, x) == Some(TruncPage(L.g, ph.paddr) + (x - va))
    {
      assert L.IsHigh(x) == L.IsHigh(va);
      assert Ordinary(L, L.IsHigh(va), PageOf(L.g, x));
      assert Walk(L, t1, x) == Some(TruncPage(L.g, ph.paddr) + (x - va));
    }
  }

  lemma AdjustedEnds(g: Granule, ph: Phdr, filesz: nat, memsz: nat)
    requires Adjusted(g, ph, filesz, memsz)
    ensures FileEnds(g, ph, filesz)
    ensures SegStart(g, ph) + filesz == ph.vaddr + ph.filesz || ph.filesz == ph.memsz
  {
    hide RoundPage;
    RoundedRange(g, 0, 0, ph.memsz + ph.vaddr % g.PageSize());
  }

  lemma CopyLoads(L: Layout, p: Phys, q: Phys, addr: nat, ph: Phdr, len: nat, a: Attrs)
    requires SegmentFits(L, addr, ph) && SourceStable(L.g, p, addr, ph)
    requires Shows(L, p, q, SegStart(L.g, ph), SegSize(L.g, ph), TruncPage(L.g, Source(addr, ph)), len, a)
    requires FileEnds(L.g, ph, len)
    ensures Loaded(L, q, p.mem, addr, ph, a)
  {
    hide Lookup, AttrsOf, Ordinary, Reads, RoundPage, SourceStable, Shows;
    RoundedRange(L.g, 0, 0, ph.memsz + ph.vaddr % L.g.PageSize());
    GrownSame(L.g, p, p.tables);
    forall x: nat | ph.vaddr <= x < ph.vaddr + ph.memsz ensures Reads(L, q, x, Expected(p.mem, addr, ph, x), a) {
      TailLoaded(L, p, p, q, addr, ph, 0, SegSize(L.g, ph), len, x, a);
    }
  }

  lemma NonePlaced(L: Layout, t: Tables, ph: Phdr)
    requires L.Valid() && ph.paddr == 0
    ensures InPlace(L, t, ph, PlacedPart(L.g, ph))
  {
  }

  /** One PT_LOAD header of load_elf64mmu. */
  method LoadSegment(pt: PageTables, ps: Protections, addr: nat, ph: Phdr) returns (o: Outcome)
    requires pt.Valid() && pt.isVirtual && ProtectionsValid(ps)
    requires SegmentFits(pt.L, addr, ph) && SourceStable(pt.L.g, pt.Memory(), addr, ph)
    modifies pt`mem, pt`tables, pt`at, pt`freeVaddr, pt.ram`given, pt.ram.ram`len, pt.ram.ram.list, pt.ram.asinfo
    ensures o.Done? ==> pt.Valid() && Grown(pt.L.g, old(pt.Memory()), pt.Memory())
    ensures o.Done? ==> SegmentDone(pt.L, old(pt.Memory()), pt.Memory(), addr, ph, ps[ph.flags % 8])
    ensures o.Crash? ==> CannotLoad(pt, ph)
    ensures o.Done? ==> pt.freeVaddr == old(pt.freeVaddr)
  {
    hide Tree, Lookup, Ordinary, Mapped, Reads, Grown, Stable, RoundPage, OrdinaryRange, SourceStable, KeepsReads,
        Loaded, Shows;
    var inPage := ph.vaddr % pt.L.g.PageSize();
    var memsz, filesz := ph.memsz + inPage, ph.filesz + inPage;
    RoundedRange(pt.L.g, ph.vaddr, 0, memsz);
    if !Writable(ph.flags) && memsz == filesz {
      filesz := RoundPage(pt.L.g, filesz);
      memsz := filesz;
      Halves(pt.L.g, ph, filesz, memsz);
    }
    if ph.paddr != 0 {
      if ph.memsz == ph.filesz {
        filesz := RoundPage(pt.L.g, filesz);
        memsz := filesz;
      }
      o := LoadInPlace(pt, ps, addr, ph, filesz, memsz);
    } else {
      o := CopyAndMap(pt, SegStart(pt.L.g, ph), memsz, addr + ph.offset - inPage, filesz, ps[ph.flags % 8]);
      if o.Done? {
        CopyLoads(pt.L, old(pt.Memory()), pt.Memory(), addr, ph, filesz, ps[ph.flags % 8]);
        NonePlaced(pt.L, pt.tables, ph);
      }
    }
  }

  /** No page belongs to two of the loadable segments. */
  ghost predicate SegmentsApart(g: Granule, phs: seq<Phdr>) {
    forall i, j :: 0 <= i < j < |phs| && phs[i].ptype == PT_LOAD && phs[j].ptype == PT_LOAD ==>
      || SegStart(g, phs[i]) + SegSize(g, phs[i]) <= SegStart(g, phs[j])
      || SegStart(g, phs[j]) + SegSize(g, phs[j]) <= SegStart(g, phs[i])
  }

  /** What the loader may be given. */
  ghost predicate ImageFits(L: Layout, p: Phys, addr: nat, phs: seq<Phdr>) {
    && L.Valid()
    && SegmentsApart(L.g, phs)
    && (forall i :: 0 <= i < |phs| && phs[i].ptype == PT_LOAD ==>
          SegmentFits(L, addr, phs[i]) && SourceStable(L.g, p, addr, phs[i]))
  }

  /** The first n headers are done, each with the protections its flags call for. */
  ghost predicate LoadedUpTo(L: Layout, q: Phys, m0: nat -> Byte, addr: nat, phs: seq<Phdr>, n: nat, ps: Protections)
    requires L.Valid() && n <= |phs| && |ps| == 8
  {
    forall i :: 0 <= i < n && phs[i].ptype == PT_LOAD ==>
      Loaded(L, q, m0, addr, phs[i], ps[phs[i].flags % 8]) && InPlace(L, q.tables, phs[i], PlacedPart(L.g, phs[i]))
  }

  /** Outside the pages of the first n segments every translation is as it was. */
  ghost predicate Elsewhere(L: Layout, t0: Tables, t: Tables, phs: seq<Phdr>, n: nat)
    requires L.Valid() && n <= |phs|
  {
    forall x: nat :: L.InHalf(x) && Ordinary(L, L.IsHigh(x), PageOf(L.g, x)) && InNone(L.g, phs, n, x) ==>
      Lookup(L, t, x) == Lookup(L, t0, x)
  }

  ghost predicate InNone(g: Granule, phs: seq<Phdr>, n: nat, x: nat)
    requires n <= |phs|
  {
    forall i :: 0 <= i < n && phs[i].ptype == PT_LOAD ==>
      !(SegStart(g, phs[i]) <= x < SegStart(g, phs[i]) + SegSize(g, phs[i]))
  }

  lemma ElsewhereStep(L: Layout, t0: Tables, t: Tables, t': Tables, phs: seq<Phdr>, n: nat)
    requires L.Valid() && n < |phs| && Elsewhere(L, t0, t, phs, n)
    requires if phs[n].ptype == PT_LOAD
             then SameOutside(L, t, t', SegStart(L.g, phs[n]), SegSize(L.g, phs[n])) else t' == t
    ensures Elsewhere(L, t0, t', phs, n + 1)
  {
    hide Lookup, Ordinary, SegStart, SegSize;
    forall x: nat | L.InHalf(x) && Ordinary(L, L.IsHigh(x), PageOf(L.g, x)) && InNone(L.g, phs, n + 1, x)
      ensures Lookup(L, t', x) == Lookup(L, t0, x)
    {
      assert InNone(L.g, phs, n, x);
    }
  }

  /** A segment's source is as it was when loading began. */
  lemma SourceStays(L: Layout, p: Phys, q: Phys, addr: nat, ph: Phdr)
    requires L.Valid() && Grown(L.g, p, q) && SourceStable(L.g, p, addr, ph)
    ensures SourceStable(L.g, q, addr, ph)
    ensures forall x: nat :: x >= ph.vaddr ==> Expected(q.mem, addr, ph, x) == Expected(p.mem, addr, ph, x)
  {
    hide Grown, Stable;
    forall a: nat | Source(addr, ph) <= a < Source(addr, ph) + ph.filesz
      ensures Stable(L.g, q, a) && q.mem(a) == p.mem(a)
    {
      StableStays(L.g, p, q, a);
    }
  }

  /** The pages of a segment hold all of it. */
  lemma InsideSegment(g: Granule, ph: Phdr, x: nat)
    requires ph.vaddr <= x < ph.vaddr + ph.memsz
    ensures SegStart(g, ph) <= x < SegStart(g, ph) + SegSize(g, ph)
  {
    hide RoundPage;
    RoundedRange(g, 0, 0, ph.memsz + ph.vaddr % g.PageSize());
  }

  /** One more segment leaves the earlier ones readable. */
  lemma OneMoreLoaded(L: Layout, p: Phys, q: Phys, r: Phys, addr: nat, phs: seq<Phdr>, n: nat, ps: Protections)
    requires L.Valid() && |ps| == 8 && n < |phs| && ImageFits(L, p, addr, phs) && Grown(L.g, p, q)
    requires LoadedUpTo(L, q, p.mem, addr, phs, n, ps)
    requires if phs[n].ptype == PT_LOAD then SegmentDone(L, q, r, addr, phs[n], ps[phs[n].flags % 8]) else r == q
    ensures LoadedUpTo(L, r, p.mem, addr, phs, n + 1, ps)
  {
    hide Reads, Grown, RoundPage, SourceStable, SegmentFits, Stable;
    if phs[n].ptype == PT_LOAD {
      SourceStays(L, p, q, addr, phs[n]);
      forall i | 0 <= i < n && phs[i].ptype == PT_LOAD
        ensures Loaded(L, r, p.mem, addr, phs[i], ps[phs[i].flags % 8])
        ensures InPlace(L, r.tables, phs[i], PlacedPart(L.g, phs[i]))
      {
        StaysLoaded(L, q, r, p.mem, addr, phs[i], phs[n], ps[phs[i].flags % 8]);
        PlacedInside(L, addr, phs[i]);
        StaysInPlace(L, q.tables, r.tables, phs[i], phs[n], PlacedPart(L.g, phs[i]));
      }
    }
  }

  lemma PlacedInside(L: Layout, addr: nat, ph: Phdr)
    requires SegmentFits(L, addr, ph)
    ensures PlacedPart(L.g, ph) <= SegSize(L.g, ph)
  {
    hide RoundPage, OrdinaryRange;
    RoundedRange(L.g, 0, 0, ph.memsz + ph.vaddr % L.g.PageSize());
  }

  lemma StaysInPlace(L: Layout, t: Tables, t': Tables, ph: Phdr, next: Phdr, n: nat)
    requires L.Valid() && InPlace(L, t, ph, n) && n <= SegSize(L.g, ph)
    requires SameOutside(L, t, t', SegStart(L.g, next), SegSize(L.g, next))
    requires SegStart(L.g, ph) + SegSize(L.g, ph) <= SegStart(L.g, next)
             || SegStart(L.g, next) + SegSize(L.g, next) <= SegStart(L.g, ph)
    ensures InPlace(L, t', ph, n)
  {
    hide SegStart, SegSize, Lookup, Ordinary, TruncPage;
  }

  lemma StaysLoaded(L: Layout, q: Phys, r: Phys, m0: nat -> Byte, addr: nat, ph: Phdr, next: Phdr, a: Attrs)
    requires L.Valid() && Loaded(L, q, m0, addr, ph, a)
    requires KeepsReads(L, q, r, SegStart(L.g, next), SegSize(L.g, next))
    requires SegStart(L.g, ph) + SegSize(L.g, ph) <= SegStart(L.g, next)
             || SegStart(L.g, next) + SegSize(L.g, next) <= SegStart(L.g, ph)
    ensures Loaded(L, r, m0, addr, ph, a)
  {
    hide Reads, SegStart, SegSize, Expected;
    forall x: nat | ph.vaddr <= x < ph.vaddr + ph.memsz ensures Reads(L, r, x, Expected(m0, addr, ph, x), a) {
      InsideSegment(L.g, ph, x);
      assert Reads(L, q, x, Expected(m0, addr, ph, x), a);
    }
  }

  /** The start pages and the ends of the loadable segments. */
  function Starts(g: Granule, phs: seq<Phdr>): (s: seq<nat>) {
    if phs == [] then []
    else Starts(g, phs[..|phs| - 1]) +
         if phs[|phs| - 1].ptype == PT_LOAD then [SegStart(g, phs[|phs| - 1])] else []
  }

  function Ends(phs: seq<Phdr>): (s: seq<nat>) {
    if phs == [] then []
    else Ends(phs[..|phs| - 1]) +
         var ph := phs[|phs| - 1]; if ph.ptype == PT_LOAD then [ph.vaddr + ph.memsz] else []
  }

  /** boot_vaddr_base after the given start pages. */
  function BaseAfter(base: nat, starts: seq<nat>): nat {
    if starts == [] then base
    else NextBase(BaseAfter(base, starts[..|starts| - 1]), starts[|starts| - 1])
  }

  function NextBase(b: nat, v: nat): nat { if b == 0 || b > v then v else b }

  /** boot_vaddr_base and boot_vaddr_end after the headers, from base0 and end0. */
  ghost predicate Bounds(g: Granule, phs: seq<Phdr>, base0: nat, end0: nat, base: nat, end: nat) {
    && base == BaseAfter(base0, Starts(g, phs))
    && end >= end0 && (end == end0 || end in Ends(phs))
    && forall e :: e in Ends(phs) ==> e <= end
  }

  ghost predicate IsLeast(b: nat, s: seq<nat>) { b in s && forall v :: v in s ==> b <= v }

  /** Zero stands for "not set": the base is the lowest start page unless page zero is followed by
      another segment. */
  lemma {:induction false} BaseIsLeast(starts: seq<nat>)
    requires starts != []
    ensures IsLeast(BaseAfter(0, starts), starts) <==> (0 !in starts || starts[|starts| - 1] == 0)
    ensures 0 !in starts ==> BaseAfter(0, starts) != 0
  {
    var front, v := starts[..|starts| - 1], starts[|starts| - 1];
    assert starts == front + [v];
    if front != [] {
      BaseIsLeast(front);
      if 0 in front && v != 0 {
        assert 0 in starts && BaseAfter(0, starts) != 0;
      }
    }
  }

  /** A segment at page zero and one behind it. */
  lemma BaseNotLeastInput()
    ensures BaseAfter(0, [0, 0x1000]) == 0x1000 && !IsLeast(0x1000, [0, 0x1000])
  {
    var starts: seq<nat> := [0, 0x1000];
    assert starts[..1] == [0] && starts[..1][..0] == [];
    assert BaseAfter(0, starts[..1]) == 0;
    assert 0 in starts;
  }

  /** The loader's globals. */
  class Loader {
    const pt: PageTables
    const ps: Protections
    var bootVaddrBase: nat
    var bootVaddrEnd: nat

    constructor (pt: PageTables, ps: Protections)
      ensures this.pt == pt && this.ps == ps && bootVaddrBase == 0 && bootVaddrEnd == 0
    {
      this.pt, this.ps, bootVaddrBase, bootVaddrEnd := pt, ps, 0, 0;
    }

    /** load_elf64mmu. */
    method LoadElf64mmu(addr: nat, phs: seq<Phdr>) returns (o: Outcome)
      requires pt.Valid() && pt.isVirtual && ProtectionsValid(ps)
      requires ImageFits(pt.L, pt.Memory(), addr, phs)
      modifies this, pt`mem, pt`tables, pt`at, pt`freeVaddr
      modifies pt.ram`given, pt.ram.ram`len, pt.ram.ram.list, pt.ram.asinfo
      ensures o.Done? ==> pt.Valid() && Grown(pt.L.g, old(pt.Memory()), pt.Memory())
      // every byte of every segment reads as the file, or as zero, says, and is mapped as the flags say
      ensures o.Done? ==> LoadedUpTo(pt.L, pt.Memory(), old(pt.mem), addr, phs, |phs|, ps)
      ensures o.Done? ==> Elsewhere(pt.L, old(pt.tables), pt.tables, phs, |phs|)
      ensures o.Done? ==> Bounds(pt.L.g, phs, old(bootVaddrBase), old(bootVaddrEnd), bootVaddrBase, bootVaddrEnd)
      // it does not return only where a segment does not lie in one half, or there is no block for it
      ensures o.Crash? ==> exists i :: 0 <= i < |phs| && phs[i].ptype == PT_LOAD && CannotLoad(pt, phs[i])
      ensures o.Done? ==> pt.freeVaddr == old(pt.freeVaddr)
    {
      hide Tree, Ordinary, Reads, Grown, ImageFits, LoadedUpTo, Elsewhere, Bounds;
      ghost var p0 := pt.Memory();
      var i := 0;
      GrownSame(pt.L.g, p0, pt.tables);
      NothingLoaded(pt.L, p0, addr, phs, bootVaddrBase, bootVaddrEnd, ps);
      assert phs[..0] == [];
      while i < |phs|
        invariant 0 <= i <= |phs|
        invariant pt.Valid() && Grown(pt.L.g, p0, pt.Memory()) && pt.freeVaddr == old(pt.freeVaddr)
        invariant LoadedUpTo(pt.L, pt.Memory(), p0.mem, addr, phs, i, ps)
        invariant Elsewhere(pt.L, p0.tables, pt.tables, phs, i)
        invariant Bounds(pt.L.g, phs[..i], old(bootVaddrBase), old(bootVaddrEnd), bootVaddrBase, bootVaddrEnd)
      {
        ghost var base, end := bootVaddrBase, bootVaddrEnd;
        assert phs[..i + 1][..i] == phs[..i];
        if phs[i].ptype == PT_LOAD {
          Mark(phs[i]);
        }
        BoundsStep(pt.L.g, phs[..i + 1], old(bootVaddrBase), old(bootVaddrEnd), base, end, bootVaddrBase, bootVaddrEnd);
        o := LoadOne(addr, phs, i, p0);
        if o.Crash? {
          return;
        }
        i := i + 1;
      }
      assert phs[..i] == phs;
      o := Done;
    }

    /** One round of the loop. */
    method LoadOne(addr: nat, phs: seq<Phdr>, i: nat, ghost p0: Phys) returns (o: Outcome)
      requires pt.Valid() && pt.isVirtual && ProtectionsValid(ps)
      requires i < |phs| && ImageFits(pt.L, p0, addr, phs) && Grown(pt.L.g, p0, pt.Memory())
      requires LoadedUpTo(pt.L, pt.Memory(), p0.mem, addr, phs, i, ps)
      requires Elsewhere(pt.L, p0.tables, pt.tables, phs, i)
      modifies pt`mem, pt`tables, pt`at, pt`freeVaddr, pt.ram`given, pt.ram.ram`len, pt.ram.ram.list, pt.ram.asinfo
      ensures o.Done? ==> pt.Valid() && Grown(pt.L.g, p0, pt.Memory())
      ensures o.Done? ==> LoadedUpTo(pt.L, pt.Memory(), p0.mem, addr, phs, i + 1, ps)
      ensures o.Done? ==> Elsewhere(pt.L, p0.tables, pt.tables, phs, i + 1)
      ensures o.Crash? ==> phs[i].ptype == PT_LOAD && CannotLoad(pt, phs[i])
      ensures o.Done? ==> pt.freeVaddr == old(pt.freeVaddr)
    {
      hide Tree, Ordinary, Reads, Grown, SourceStable, SegmentFits, LoadedUpTo, Elsewhere, SegmentDone, SegmentsApart;
      ghost var p1 := pt.Memory();
      o := Done;
      if phs[i].ptype == PT_LOAD {
        SourceStays(pt.L, p0, p1, addr, phs[i]);
        o := LoadSegment(pt, ps, addr, phs[i]);
        if o.Crash? {
          return;
        }
        GrownTrans(pt.L.g, p0, p1, pt.Memory());
      }
      OneMoreLoaded(pt.L, p0, p1, pt.Memory(), addr, phs, i, ps);
      if phs[i].ptype == PT_LOAD {
        DoneOutside(pt.L, p1, pt.Memory(), addr, phs[i], ps[phs[i].flags % 8]);
      }
      ElsewhereStep(pt.L, p0.tables, p1.tables, pt.tables, phs, i);
    }

    method Mark(ph: Phdr)
      modifies this
      ensures bootVaddrBase == NextBase(old(bootVaddrBase), SegStart(pt.L.g, ph))
      ensures bootVaddrEnd == if old(bootVaddrEnd) < ph.vaddr + ph.memsz then ph.vaddr + ph.memsz else old(bootVaddrEnd)
    {
      var inPage := ph.vaddr % pt.L.g.PageSize();
      var vaddr := ph.vaddr - inPage;
      if bootVaddrBase == 0 || bootVaddrBase > vaddr {
        bootVaddrBase := vaddr;
      }
      if bootVaddrEnd < vaddr + (ph.memsz + inPage) {
        bootVaddrEnd := vaddr + (ph.memsz + inPage);
      }
    }
  }

  lemma DoneOutside(L: Layout, p: Phys, q: Phys, addr: nat, ph: Phdr, a: Attrs)
    requires L.Valid() && SegmentDone(L, p, q, addr, ph, a)
    ensures SameOutside(L, p.tables, q.tables, SegStart(L.g, ph), SegSize(L.g, ph))
  {
  }

  lemma NothingLoaded(L: Layout, p: Phys, addr: nat, phs: seq<Phdr>, base: nat, end: nat, ps: Protections)
    requires L.Valid() && |ps| == 8
    ensures LoadedUpTo(L, p, p.mem, addr, phs, 0, ps) && Elsewhere(L, p.tables, p.tables, phs, 0)
    ensures Bounds(L.g, [], base, end, base, end)
  {
  }

  lemma BoundsStep(g: Granule, phs: seq<Phdr>, base0: nat, end0: nat, base: nat, end: nat, base': nat, end': nat)
    requires phs != [] && Bounds(g, phs[..|phs| - 1], base0, end0, base, end)
    requires var ph := phs[|phs| - 1];
             if ph.ptype == PT_LOAD then
               && base' == NextBase(base, SegStart(g, ph))
               && end' == if end < ph.vaddr + ph.memsz then ph.vaddr + ph.memsz else end
             else base' == base && end' == end
    ensures Bounds(g, phs, base0, end0, base', end')
  {
    var ph := phs[|phs| - 1];
    if ph.ptype == PT_LOAD {
      var front := Starts(g, phs[..|phs| - 1]);
      var s := Starts(g, phs);
      assert s == front + [SegStart(g, ph)];
      assert s[..|s| - 1] == front && s[|s| - 1] == SegStart(g, ph);
    } else {
      assert Starts(g, phs) == Starts(g, phs[..|phs| - 1]);
    }
  }
}
