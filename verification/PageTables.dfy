/** aarch64_map.c: the translation tables in physical memory, the loops that fill them, and
    translation. Table pages come from the boot allocator. */
module PageTables {
  import opened Bits
  import opened Ranges
  import opened RamList
  import opened RamSearch
  import opened Descriptors
  import opened TableTree
  import opened TableUpdates
  import opened Mapping
  import opened Translation
  import opened Wrappers
  import R = RamRuns
  import B = BootRam

  /** Memory after len bytes at src have been copied to dst. */
  function Copied(m: nat -> Byte, dst: nat, src: nat, len: nat): nat -> Byte {
    (a: nat) => if dst <= a < dst + len then m(src + (a - dst)) else m(a)
  }

  /** Blocks asked for with page alignment start at a page address. */
  lemma BlockAligned(list: seq<Range>, avoid: seq<Avoid>, g: Granule, size: nat, addr: nat)
    requires NonEmpty(list) && Within(list, PADDR_LIMIT) && AvoidsValid(avoid) && size > 0
    requires FirstFit(list, avoid, size, g.PageSize(), Some(addr))
    ensures PageAddress(g, addr)
  {
    var i :| 0 <= i < |list| && FitIn(list[i], avoid, size, g.PageSize()) == Some(addr);
    FitIsFree(list, avoid, i, size, g.PageSize(), addr);
    assert Pow2(8) == 256;
    Pow2Adds(8, 4);
    Pow2Adds(8, 8);
    assert Pow2(4) == 16;
    assert g.PageSize() == Pow2(if g.Page4K? then 12 else 16);
  }

  /** Physical memory: what is free, whether its two views agree, the bytes, and the table pages. */
  datatype Phys = Phys(s: R.State, inStep: bool, mem: nat -> Byte, tables: Tables)

  /** Some blocks have been taken from the free memory, new tables among them; what was not free
      has kept its contents. */
  ghost predicate Grown(g: Granule, p: Phys, p': Phys) {
    && p.s.given <= p'.s.given && p'.s.free <= p.s.free && p'.s.avoided == p.s.avoided
    && (p.inStep ==> p'.inStep)
    && (forall a: nat :: a !in p.s.free ==> p'.mem(a) == p.mem(a))
    && (forall f :: f in p.tables ==> f in p'.tables)
    && (forall f :: f in p'.tables && f !in p.tables ==> R.Bytes(Range(f, g.PageSize())) <= p.s.free)
  }

  lemma GrownTrans(g: Granule, p: Phys, q: Phys, r: Phys)
    requires Grown(g, p, q) && Grown(g, q, r)
    ensures Grown(g, p, r)
  {
    forall f | f in r.tables && f !in p.tables ensures R.Bytes(Range(f, g.PageSize())) <= p.s.free {
      assert f in q.tables ==> R.Bytes(Range(f, g.PageSize())) <= p.s.free;
    }
  }

  lemma GrownInStep(g: Granule, p: Phys, p': Phys)
    requires Grown(g, p, p')
    ensures p.inStep ==> p'.inStep
  {
  }

  lemma GrownSame(g: Granule, p: Phys, t: Tables)
    requires t.Keys == p.tables.Keys
    ensures Grown(g, p, p.(tables := t))
  {
  }

  class PageTables {
    const L: Layout
    const ram: B.BootRam
    const tableAttrs: Attrs   // set_pte's attributes for PROT_READ|PROT_WRITE
    const isVirtual: bool     // STARTUP_HDR_FLAGS1_VIRTUAL
    var tables: Tables        // the contents of the table pages, by physical address
    var mem: nat -> Byte      // all other physical memory
    var freeVaddr: nat
    ghost var at: map<Node, nat>

    /** Tables that aarch64_map_init has set up. */
    constructor (L: Layout, ram: B.BootRam, tableAttrs: Attrs, isVirtual: bool, tables: Tables,
                 mem: nat -> Byte, freeVaddr: nat, ghost at: map<Node, nat>)
      ensures this.L == L && this.ram == ram && this.tableAttrs == tableAttrs && this.isVirtual == isVirtual
      ensures this.tables == tables && this.mem == mem && this.freeVaddr == freeVaddr && this.at == at
    {
      this.L, this.ram, this.tableAttrs, this.isVirtual := L, ram, tableAttrs, isVirtual;
      this.tables, this.mem, this.freeVaddr, this.at := tables, mem, freeVaddr, at;
    }

    ghost predicate Valid()
      reads this, ram, ram.ram, ram.ram.list, ram.asinfo
    {
      && L.Valid() && tableAttrs.Valid()
      && ram.Valid() && R.Safe(ram.State())
      && Tree(L, tables, at) && Linked(L, tables, at, tableAttrs)
      && TablesGiven(tables, ram.given)
      && freeVaddr % L.g.PageSize() == 0
    }

    ghost function Memory(): Phys
      requires ram.Valid()
      reads this, ram, ram.ram, ram.ram.list, ram.asinfo
    {
      Phys(ram.State(), ram.InStep(), mem, tables)
    }

    /** Every table page was handed out by the allocator. */
    ghost predicate TablesGiven(t: Tables, given: seq<Range>) {
      forall f :: f in t ==> Range(f, L.g.PageSize()) in given
    }

    /** calloc_ram has just found no page for a table. */
    ghost predicate NoPage()
      reads ram, ram.ram, ram.ram.list, ram.asinfo
    {
      ram.Refuses(L.g.PageSize(), L.g.PageSize())
    }

    /** calloc_ram has just found no block of at most the given size for pages. */
    ghost predicate NoBlock(most: nat)
      reads ram, ram.ram, ram.ram.list, ram.asinfo
    {
      exists n: nat :: 0 < n <= most && ram.Refuses(n, L.g.PageSize())
    }

    /** calloc_ram: the block is also cleared. */
    method CallocRam(size: nat, align: nat) returns (r: Option<nat>, o: Outcome)
      requires Valid() && 0 < align <= PADDR_LIMIT && size > 0
      modifies this`mem, ram`given, ram.ram`len, ram.ram.list, ram.asinfo
      ensures o.Done? ==> Valid()
      ensures FirstFit(old(ram.ram.Contents()), old(ram.avoid), size, align, r)
      ensures r.None? ==> o.Done? && mem == old(mem) && ram.State() == old(ram.State())
      ensures r.None? || o.Crash? ==> ram.Refuses(size, align)
      ensures r.Some? && o.Done? ==>
                && R.Step(old(ram.State()), R.Allocate(Range(r.value, size)), ram.State())
                && R.NotGiven(old(ram.State()), Range(r.value, size))
                && r.value + size <= PADDR_LIMIT
                && forall a: nat :: mem(a) == if r.value <= a < r.value + size then 0 else old(mem)(a)
      ensures o.Done? && old(ram.InStep()) ==> ram.InStep()
    {
      ghost var s := ram.State();
      r, o := ram.AllocRam(None, size, align);
      if r.Some? && o.Done? {
        R.StepSafe(s, R.Allocate(Range(r.value, size)), ram.State());
        var was, lo := mem, r.value;
        mem := (a: nat) => if lo <= a < lo + size then 0 as Byte else was(a);
      }
    }

    /** pt_alloc: a cleared page and the descriptor that points to it as a table. */
    method PtAlloc() returns (pa: nat, w: nat, o: Outcome)
      requires Valid()
      modifies this`mem, ram`given, ram.ram`len, ram.ram.list, ram.asinfo
      ensures o.Done? ==> Valid()
      ensures o.Done? ==> pa !in tables && PageAddress(L.g, pa) && Range(pa, L.g.PageSize()) in ram.given
      ensures o.Done? ==> R.Bytes(Range(pa, L.g.PageSize())) <= old(ram.State()).free
      ensures o.Done? ==> w != 0 && PtpValid(w) && !PtpBlock(w) && PtpPaddr(L.g, w) == pa && AttrsOf(w) == tableAttrs
      ensures o.Done? ==> Grown(L.g, old(Memory()), Memory())
      ensures o.Crash? ==> NoPage()
    {
      var r;
      r, o := CallocRam(L.g.PageSize(), L.g.PageSize());
      if r.None? {
        return 0, 0, Crash;
      }
      pa := r.value;
      w := Word(pa, tableAttrs, false);
      if o.Crash? {
        return;
      }
      BlockAligned(old(ram.ram.Contents()), old(ram.avoid), L.g, L.g.PageSize(), pa);
      WordFields(L.g, pa, tableAttrs, false);
      FreshTable(tables, old(ram.State()), pa);
      assert ram.given[|ram.given| - 1] == Range(pa, L.g.PageSize());
    }

    /** An empty slot gets a new table: `L1[L1i] = pt_alloc()` and its like. */
    method HangTable(f: nat, j: nat, ghost n: Node) returns (o: Outcome)
      requires Valid() && n in at && at[n] == f && !n.Leaf? && j < L.g.Slots() && (n, j) !in L.self
      requires TableAt(L, tables, f) && tables[f][j] == 0 && InRange(L, Child(L.g, n, j))
      modifies this`mem, this`tables, this`at, ram`given, ram.ram`len, ram.ram.list, ram.asinfo
      ensures o.Done? ==> Valid()
      ensures o.Done? ==> forall m :: m in at <==> m in old(at) || m == Child(L.g, n, j)
      ensures o.Done? ==> forall m :: m in old(at) ==> at[m] == old(at)[m]
      ensures o.Done? ==> forall h: bool, q: nat ::
                PageWord(L, tables, at, h, q) == PageWord(L, old(tables), old(at), h, q)
      ensures o.Done? ==> Grown(L.g, old(Memory()), Memory())
      ensures o.Crash? ==> NoPage()
    {
      hide Tree, Linked, NoPage;
      var t0 := tables;
      ghost var a0 := at;
      var pa, w;
      pa, w, o := PtAlloc();
      if o.Crash? {
        return;
      }
      assert tables == t0 && at == a0;
      HangKeepsAll(L, t0, a0, n, j, pa, w);
      HangKeepsLinked(L, t0, a0, n, j, pa, w, tableAttrs);
      var t: seq<nat> := t0[f][j := w];
      Install(t0[pa := EmptyTable(L.g)][f := t], a0[Child(L.g, n, j) := pa]);
    }

    /** Store one descriptor. */
    method Store(f: nat, k: nat, w: nat)
      requires Valid() && f in tables && k < |tables[f]|
      requires Tree(L, Written(tables, f, k, w), at) && Linked(L, Written(tables, f, k, w), at, tableAttrs)
      modifies this`tables
      ensures Valid() && tables == Written(old(tables), f, k, w) && tables.Keys == old(tables).Keys
    {
      hide Tree, Linked;
      var t: seq<nat> := tables[f][k := w];
      tables := tables[f := t];
    }

    /** Store changed tables. */
    method Install(t: Tables, ghost at': map<Node, nat>)
      requires Valid() && Tree(L, t, at') && Linked(L, t, at', tableAttrs) && TablesGiven(t, ram.given)
      modifies this`tables, this`at
      ensures Valid() && tables == t && at == at'
    {
      tables := t;
      at := at';
    }

    /** L3[L3i++] = pte, n times: one page, or the pages of a contiguous block. */
    method WriteRun(f: nat, l3: nat, pte: nat, n: nat, ghost q: nat, ghost m: Map, ghost t0: Tables,
                    ghost at0: map<Node, nat>)
      requires Valid() && MapValid(L, m) && Progress(L, t0, at0, tables, at, m, q)
      requires LeafOf(L.g, m.h, q) in at && at[LeafOf(L.g, m.h, q)] == f
      requires q + n <= m.hi && q >= l3 && (q - l3) % L.g.Slots() == 0 && l3 + n <= L.g.Slots()
      requires m.lo <= q && n > 0 && pte == Wanted(L.g, m, q)
      requires forall x :: q < x < q + n ==> Wanted(L.g, m, x) == Wanted(L.g, m, x - 1) + L.g.PageSize()
      modifies this`tables
      ensures Valid() && Progress(L, t0, at0, tables, at, m, q + n)
      ensures tables.Keys == old(tables).Keys
    {
      hide Tree, Progress, Wanted, PageWord, Written;
      var i := 0;
      var w := pte;
      while i < n
        invariant 0 <= i <= n
        invariant Valid() && Progress(L, t0, at0, tables, at, m, q + i)
        invariant tables.Keys == old(tables).Keys
        invariant i < n ==> w == Wanted(L.g, m, q + i)
      {
        SlotOfPage(L.g, q - l3, l3 + i);
        SlotOfPage(L.g, q - l3, l3);
        WriteStep(L, t0, at0, tables, at, m, q + i, w);
        WriteKeepsLinked(L, tables, at, LeafOf(L.g, m.h, q + i), l3 + i, w, tableAttrs);
        Store(f, l3 + i, w);
        w := w + L.g.PageSize();
        i := i + 1;
      }
    }

    /** The body of the innermost loop of aarch64_map: one page or one contiguous block. */
    method FillStep(f: nat, l3: nat, va: nat, end: nat, pte: nat,
                    ghost q: nat, ghost m: Map, ghost t0: Tables, ghost at0: map<Node, nat>)
      returns (n: nat, va': nat, pte': nat)
      requires Valid() && MapValid(L, m) && Progress(L, t0, at0, tables, at, m, q)
      requires LeafOf(L.g, m.h, q) in at && at[LeafOf(L.g, m.h, q)] == f
      requires InStep(L, m, q, va, pte) && q < m.hi && end - va == (m.hi - q) * L.g.PageSize()
      requires l3 < L.g.Slots() && q >= l3 && (q - l3) % L.g.Slots() == 0
      modifies this`tables
      ensures Valid() && n > 0 && l3 + n <= L.g.Slots() && q + n <= m.hi
      ensures Progress(L, t0, at0, tables, at, m, q + n)
      ensures InStep(L, m, q + n, va', pte')
      ensures tables.Keys == old(tables).Keys
    {
      hide Tree, Progress, InStep, MapValid, UseContig, B.BootRam.Valid, R.Safe, TablesGiven;
      NextStep(L, m, q, va, pte, l3);
      var w := pte;
      n := 1;
      if UseContig(L.g, va, pte, end - va) {
        w := w + CONTIG_BIT;
        n := L.g.Contig();
      }
      WriteRun(f, l3, w, n, q, m, t0, at0);
      va', pte' := va + n * L.g.PageSize(), w + n * L.g.PageSize();
      if n == L.g.Contig() {
        pte' := pte' - CONTIG_BIT;
      }
    }

    /** The innermost loop of aarch64_map: the descriptors of one level 3 table. */
    method FillTable(f: nat, va0: nat, end: nat, pte0: nat,
                     ghost q0: nat, ghost m: Map, ghost t0: Tables, ghost at0: map<Node, nat>)
      returns (va: nat, pte: nat, ghost q: nat)
      requires Valid() && MapValid(L, m) && Progress(L, t0, at0, tables, at, m, q0)
      requires LeafOf(L.g, m.h, q0) in at && at[LeafOf(L.g, m.h, q0)] == f
      requires InStep(L, m, q0, va0, pte0) && q0 < m.hi && end == Va(L.g, m, m.hi)
      modifies this`tables
      ensures Valid() && Progress(L, t0, at0, tables, at, m, q)
      ensures InStep(L, m, q, va, pte) && q > q0
      ensures q == m.hi || (q % L.g.Slots() == 0 && q / L.g.Slots() == q0 / L.g.Slots() + 1)
      ensures tables.Keys == old(tables).Keys
    {
      hide Tree, Progress, PageWord, InStep, MapValid, Va, B.BootRam.Valid, R.Safe, TablesGiven;
      va, pte, q := va0, pte0, q0;
      TableBegins(L, m, q0, va, pte);
      var l3 := L3Index(L.g, va);
      ghost var first := q0 - l3;
      while l3 < L.g.Slots() && va < end
        invariant Valid() && Progress(L, t0, at0, tables, at, m, q)
        invariant InStep(L, m, q, va, pte) && q0 <= q
        invariant l3 <= L.g.Slots() && q == first + l3 && (q == q0 ==> l3 < L.g.Slots())
        invariant tables.Keys == old(tables).Keys
        invariant LeafOf(L.g, m.h, q0) in at && at[LeafOf(L.g, m.h, q0)] == f
        decreases m.hi - q
      {
        TableGoesOn(L, m, q, va, pte, first, l3);
        var n;
        n, va, pte := FillStep(f, l3, va, end, pte, q, m, t0, at0);
        l3 := l3 + n;
        q := q + n;
      }
      TableEnds(L, m, q, va, pte, first, l3);
    }

    /** One slot of a level 2 table: hang a level 3 table if there is none, then fill it. */
    method FillSlot(f2: nat, l2: nat, va0: nat, end: nat, pte0: nat,
                    ghost q0: nat, ghost m: Map, ghost t0: Tables, ghost at0: map<Node, nat>, ghost p: Node)
      returns (o: Outcome, va: nat, pte: nat, ghost q: nat)
      requires Valid() && MapValid(L, m) && Progress(L, t0, at0, tables, at, m, q0)
      requires InStep(L, m, q0, va0, pte0) && q0 < m.hi && end == Va(L.g, m, m.hi)
      requires p == ParentOf(L.g, LeafOf(L.g, m.h, q0)) && p in at && at[p] == f2
      requires m.lo <= q0 && l2 == SlotOf(L.g, LeafOf(L.g, m.h, q0))
      modifies this`mem, this`tables, this`at, ram`given, ram.ram`len, ram.ram.list, ram.asinfo
      ensures o.Done? ==> Valid() && Progress(L, t0, at0, tables, at, m, q)
      ensures o.Done? ==> InStep(L, m, q, va, pte) && q > q0
      ensures o.Done? ==> q == m.hi || (q % L.g.Slots() == 0 && q / L.g.Slots() == q0 / L.g.Slots() + 1)
      ensures o.Done? ==> forall n :: n in old(at) ==> n in at && at[n] == old(at)[n]
      ensures o.Done? ==> Grown(L.g, old(Memory()), Memory())
      ensures o.Crash? ==> NoPage()
    {
      hide Tree, Progress, PageWord, InStep, Va, Grown, B.BootRam.Valid, R.Safe, TablesGiven;
      ghost var p0 := Memory();
      GrownSame(L.g, p0, tables);
      o, va, pte, q := Done, va0, pte0, q0;
      SlotFacts(L, tables, at, m, q0);
      if tables[f2][l2] == 0 {
        ghost var t1, a1 := tables, at;
        o := HangTable(f2, l2, p);
        if o.Crash? {
          return;
        }
        ProgressKept(L, t0, at0, t1, a1, tables, at, m, q0);
      }
      SlotFacts(L, tables, at, m, q0);
      var f3 := PtpPaddr(L.g, tables[f2][l2]);
      ghost var p1 := Memory();
      va, pte, q := FillTable(f3, va0, end, pte0, q0, m, t0, at0);
      GrownSame(L.g, p1, tables);
      GrownTrans(L.g, p0, p1, Memory());
    }

    /** The middle loop of aarch64_map: the slots of one level 2 table. */
    method FillDirectory(f2: nat, va0: nat, end: nat, pte0: nat,
                         ghost q0: nat, ghost m: Map, ghost t0: Tables, ghost at0: map<Node, nat>, ghost p: Node)
      returns (o: Outcome, va: nat, pte: nat, ghost q: nat)
      requires Valid() && MapValid(L, m) && Progress(L, t0, at0, tables, at, m, q0)
      requires InStep(L, m, q0, va0, pte0) && m.lo <= q0 < m.hi && end == Va(L.g, m, m.hi)
      requires p == ParentOf(L.g, LeafOf(L.g, m.h, q0)) && p in at && at[p] == f2
      modifies this`mem, this`tables, this`at, ram`given, ram.ram`len, ram.ram.list, ram.asinfo
      ensures o.Done? ==> Valid() && Progress(L, t0, at0, tables, at, m, q)
      ensures o.Done? ==> InStep(L, m, q, va, pte) && q > q0
      ensures o.Done? ==> q == m.hi || (L.g.Page4K? && NextDirectory(q0, q))
      ensures o.Done? ==> forall n :: n in old(at) ==> n in at && at[n] == old(at)[n]
      ensures o.Done? ==> Grown(L.g, old(Memory()), Memory())
      ensures o.Crash? ==> NoPage()
    {
      hide Tree, Progress, PageWord, WholeBlock, Va, Pa, Word, Grown;
      GrownSame(L.g, Memory(), tables);
      o, va, pte, q := Done, va0, pte0, q0;
      PageOfVa(L, m, q0, 0);
      IndexDigits(L.g, va);
      var l2: nat := L2Index(L.g, va);
      while l2 < L.g.Slots() && va < end
        invariant Valid() && Progress(L, t0, at0, tables, at, m, q)
        invariant InStep(L, m, q, va, pte) && q0 <= q && (q == q0 ==> l2 < L.g.Slots())
        invariant p in at && at[p] == f2
        invariant o.Done? && (q == m.hi || InDirectory(L.g, m.h, p, l2, q0, q))
        invariant forall n :: n in old(at) ==> n in at && at[n] == old(at)[n]
        invariant Grown(L.g, old(Memory()), Memory())
        decreases m.hi - q
      {
        AddressOrder(L.g, m, q);
        ghost var q1, p1 := q, Memory();
        o, va, pte, q := FillSlot(f2, l2, va, end, pte, q, m, t0, at0, p);
        if o.Crash? {
          return;
        }
        GrownTrans(L.g, old(Memory()), p1, Memory());
        if q != m.hi {
          DirectoryStep(L.g, m.h, p, l2, q0, q1, q);
        }
        l2 := l2 + 1;
      }
      AddressOrder(L.g, m, q);
    }

    /** One slot of the level 1 table (4K): hang a level 2 table if there is none, then fill it. */
    method FillTop(l1: nat, i: nat, va0: nat, end: nat, pte0: nat,
                   ghost q0: nat, ghost m: Map, ghost t0: Tables, ghost at0: map<Node, nat>)
      returns (o: Outcome, va: nat, pte: nat, ghost q: nat)
      requires Valid() && L.g.Page4K? && MapValid(L, m) && Progress(L, t0, at0, tables, at, m, q0)
      requires InStep(L, m, q0, va0, pte0) && m.lo <= q0 < m.hi && end == Va(L.g, m, m.hi)
      requires l1 == L.RootOf(m.h) && i == q0 / 512 / 512
      modifies this`mem, this`tables, this`at, ram`given, ram.ram`len, ram.ram.list, ram.asinfo
      ensures o.Done? ==> Valid() && Progress(L, t0, at0, tables, at, m, q)
      ensures o.Done? ==> InStep(L, m, q, va, pte) && q > q0
      ensures o.Done? ==> q == m.hi || NextDirectory(q0, q)
      ensures o.Done? ==> Grown(L.g, old(Memory()), Memory())
      ensures o.Crash? ==> NoPage()
    {
      hide Tree, Progress, PageWord, WholeBlock, Va, Pa, Word, InStep, Grown;
      ghost var p0 := Memory();
      GrownSame(L.g, p0, tables);
      o, va, pte, q := Done, va0, pte0, q0;
      TopFacts(L, tables, at, m, q0);
      if tables[l1][i] == 0 {
        ghost var t1, a1 := tables, at;
        o := HangTable(l1, i, Root(m.h));
        if o.Crash? {
          return;
        }
        ProgressKept(L, t0, at0, t1, a1, tables, at, m, q0);
      }
      TopFacts(L, tables, at, m, q0);
      var f2 := PtpPaddr(L.g, tables[l1][i]);
      ghost var p1 := Memory();
      o, va, pte, q := FillDirectory(f2, va, end, pte, q, m, t0, at0, Mid(m.h, i));
      if o.Done? {
        GrownTrans(L.g, p0, p1, Memory());
      }
    }

    /** The outer loop of aarch64_map over the level 1 table l1. With large pages that table is the
        level 2 table, and one round does all. */
    method FillRange(l1: nat, va0: nat, end: nat, pte0: nat, ghost m: Map)
      returns (o: Outcome)
      requires Valid() && MapValid(L, m) && InStep(L, m, m.lo, va0, pte0) && end == Va(L.g, m, m.hi)
      requires l1 == L.RootOf(m.h)
      modifies this`mem, this`tables, this`at, ram`given, ram.ram`len, ram.ram.list, ram.asinfo
      ensures o.Done? ==> Valid() && Progress(L, old(tables), old(at), tables, at, m, m.hi)
      ensures o.Done? ==> Grown(L.g, old(Memory()), Memory())
      ensures o.Crash? ==> NoPage()
    {
      hide Tree, PageWord, WholeBlock, Va, Pa, Word, Grown;
      GrownSame(L.g, Memory(), tables);
      var va: nat, pte: nat := va0, pte0;
      ghost var q: nat := m.lo;
      ghost var t0, at0 := tables, at;
      if m.lo < m.hi {
        PageOfVa(L, m, m.lo, 0);
        IndexDigits(L.g, va);
      } else {
        AddressOrder(L.g, m, m.lo);
      }
      var i: nat := if L.g.Page64K? then 0 else L1Index(va);
      while i < L.g.Slots() && va < end
        invariant Valid() && Progress(L, t0, at0, tables, at, m, q)
        invariant InStep(L, m, q, va, pte)
        invariant q == m.hi || (if L.g.Page4K? then i == q / 512 / 512 else i == 0)
        invariant Grown(L.g, old(Memory()), Memory())
        decreases m.hi - q
      {
        hide Progress;
        ghost var p1 := Memory();
        AddressOrder(L.g, m, q);
        if L.g.Page64K? {
          RootFacts(L, tables, at, m.h);
          o, va, pte, q := FillDirectory(l1, va, end, pte, q, m, t0, at0, Root(m.h));
        } else {
          o, va, pte, q := FillTop(l1, i, va, end, pte, q, m, t0, at0);
        }
        if o.Crash? {
          return;
        }
        GrownTrans(L.g, old(Memory()), p1, Memory());
        i := i + 1;
      }
      AddressOrder(L.g, m, q);
      o := Done;
    }

    /** Why a range was not mapped: the address that is named has another offset in its page, the
        range does not lie in one half, or there is no page for a table. */
    ghost predicate CannotMap(vaddr: Option<nat>, next: nat, paddr: nat, asked: nat)
      reads ram, ram.ram, ram.ram.list, ram.asinfo
    {
      var off := paddr % L.g.PageSize();
      || (vaddr.Some? && vaddr.value % L.g.PageSize() != off)
      || !InOneHalf(L, TruncPage(L.g, if vaddr.Some? then vaddr.value else next), RoundPage(L.g, asked + off))
      || NoPage()
    }

    /** What a call that returns has done: every address of the rounded range translates to the
        physical address at the same distance, with the attributes asked for, nothing else outside
        the self map has changed, and the next address to be assigned has moved on if one was. */
    ghost predicate IsMapped(t0: Tables, at0: map<Node, nat>, free0: nat, vaddr: Option<nat>, paddr: nat, asked: nat,
                             attrs: Attrs, r: nat)
      requires L.Valid()
      reads this
    {
      var off := paddr % L.g.PageSize();
      var pa: nat := paddr - off;
      var size, named := RoundPage(L.g, asked + off), if vaddr.Some? then vaddr.value else free0;
      var va := TruncPage(L.g, named);
      && r == named + off && (vaddr.Some? ==> named % L.g.PageSize() == off)
      && freeVaddr == (if vaddr.Some? then free0 else free0 + size)
      && InOneHalf(L, va, size) && Mapped(L, t0, tables, va, size, pa, attrs)
      && PagesDescribed(t0, at0, va, size, pa, attrs)
    }

    lemma MappedIs(t0: Tables, at0: map<Node, nat>, free0: nat, vaddr: Option<nat>, paddr: nat, asked: nat,
                   attrs: Attrs, v: nat, size: nat)
      requires L.Valid() && v == (if vaddr.Some? then vaddr.value else free0)
      requires vaddr.Some? ==> v % L.g.PageSize() == paddr % L.g.PageSize()
      requires size == RoundPage(L.g, asked + paddr % L.g.PageSize())
      requires freeVaddr == (if vaddr.Some? then free0 else free0 + size)
      requires InOneHalf(L, TruncPage(L.g, v), size)
      requires Mapped(L, t0, tables, TruncPage(L.g, v), size, paddr - paddr % L.g.PageSize(), attrs)
      requires PagesDescribed(t0, at0, TruncPage(L.g, v), size, paddr - paddr % L.g.PageSize(), attrs)
      ensures IsMapped(t0, at0, free0, vaddr, paddr, asked, attrs, v + paddr % L.g.PageSize())
    {
      hide Mapped, PagesDescribed, InOneHalf, TruncPage, RoundPage;
    }

    /** aarch64_map. None as vaddr asks for an address to be assigned. On success every address of
        the rounded range translates to the physical address at the same distance, and no other
        translation outside the self map has changed. */
    method Map(vaddr: Option<nat>, paddr: nat, asked: nat, attrs: Attrs) returns (r: nat, o: Outcome)
      requires Valid() && attrs.Valid()
      requires asked + 2 * L.g.PageSize() < TWO48 && (vaddr.Some? ==> vaddr.value < TWO64)
      requires isVirtual ==> RangeFits(L, if vaddr.Some? then vaddr.value else freeVaddr, paddr, asked)
      modifies this`mem, this`tables, this`at, this`freeVaddr, ram`given, ram.ram`len, ram.ram.list, ram.asinfo
      ensures !isVirtual ==> o.Done? && r == paddr && tables == old(tables) && mem == old(mem)
      ensures !isVirtual ==> freeVaddr == old(freeVaddr) && ram.given == old(ram.given)
      ensures isVirtual && o.Done? ==>
                IsMapped(old(tables), old(at), old(freeVaddr), vaddr, paddr, asked, attrs, r)
      ensures o.Done? ==> Valid()
      ensures o.Done? ==> Grown(L.g, old(Memory()), Memory())
      // with "sysram" entries or without, the two views of free memory stay in step
      ensures o.Done? && old(ram.InStep()) ==> ram.InStep()
      ensures isVirtual && o.Crash? ==> CannotMap(vaddr, old(freeVaddr), paddr, asked)
    {
      hide Tree, Progress, PageWord, WholeBlock, Lookup, Mapped, PagesDescribed, RangeValid, RangeFits, RoundPage;
      hide Grown, InOneHalf, NoPage, IsMapped, TruncPage, Linked, Ordinary, B.BootRam.InStep, R.Safe;
      GrownSame(L.g, Memory(), tables);
      o := Done;
      if !isVirtual {
        return paddr, Done;
      }
      var off := paddr % L.g.PageSize();
      var pa := paddr - off;
      var size := RoundPage(L.g, asked + off);
      var v;
      if vaddr.None? {
        v := freeVaddr;
        RoundedRange(L.g, v, paddr, asked);
        SumAligned(L.g, freeVaddr, size);
        freeVaddr := freeVaddr + size;
      } else {
        v := vaddr.value;
        if v % L.g.PageSize() != off {
          return 0, Crash;
        }
      }
      var va := TruncPage(L.g, v);
      var end := va + size;
      HalfTest(L, va, size);
      if end >= TWO64 {
        return 0, Crash;
      }
      if va < L.userEnd {
        if end >= L.userEnd {
          return 0, Crash;
        }
      } else {
        if va < L.startupBase {
          return 0, Crash;
        }
      }
      RequestValid(L, v, paddr, asked);
      o := MapRange(va, size, pa, attrs);
      r := v + off;
      if o.Done? {
        MappedIs(old(tables), old(at), old(freeVaddr), vaddr, paddr, asked, attrs, v, size);
        GrownInStep(L.g, old(Memory()), Memory());
      }
    }

    /** The part of aarch64_map that writes tables. */
    method MapRange(va: nat, size: nat, pa: nat, attrs: Attrs) returns (o: Outcome)
      requires Valid() && attrs.Valid() && RangeValid(L, va, size, pa)
      modifies this`mem, this`tables, this`at, ram`given, ram.ram`len, ram.ram.list, ram.asinfo
      ensures o.Done? ==> Valid()
      ensures o.Done? ==> Mapped(L, old(tables), tables, va, size, pa, attrs)
      ensures o.Done? ==> PagesDescribed(old(tables), old(at), va, size, pa, attrs)
      ensures o.Done? ==> Grown(L.g, old(Memory()), Memory())
      ensures o.Crash? ==> NoPage()
    {
      hide Tree, Progress, PageWord, WholeBlock, Lookup, Ordinary, Mapped, Word, PageOf, Grown;
      var l1 := if va < L.userEnd then L.low else L.high;
      var pte := Word(pa, attrs, false);
      ghost var t0, at0 := tables, at;
      RangeIsMap(L, va, size, pa, attrs);
      ghost var m := MapOf(L, va, size, pa, attrs);
      FirstInStep(L, m);
      o := FillRange(l1, va, va + size, pte, m);
      if o.Done? {
        AllMapped(t0, at0, va, size, pa, attrs);
      }
    }

    /** Every page of the range has the descriptor its position calls for. */
    ghost predicate PagesDescribed(t0: Tables, at0: map<Node, nat>, va: nat, size: nat, pa: nat, attrs: Attrs)
      reads this
    {
      var m := MapOf(L, va, size, pa, attrs);
      Progress(L, t0, at0, tables, at, m, m.hi)
    }

    lemma AllMapped(t0: Tables, at0: map<Node, nat>, va: nat, size: nat, pa: nat, attrs: Attrs)
      requires L.Valid() && RangeValid(L, va, size, pa) && attrs.Valid() && Tree(L, t0, at0)
      requires var m := MapOf(L, va, size, pa, attrs); Progress(L, t0, at0, tables, at, m, m.hi)
      ensures Mapped(L, t0, tables, va, size, pa, attrs)
    {
      hide Tree, Progress, Lookup, AttrsOf, Ordinary, RangeValid, Placed, SlotsRight, Parented;
      forall x: nat | va <= x < va + size
        ensures Walk(L, tables, x) == Some(pa + (x - va)) && HasAttrs(L, tables, x, attrs)
      {
        TranslatesInside(L, t0, at0, tables, at, va, size, pa, attrs, x);
      }
      forall x: nat | L.InHalf(x) && !(va <= x < va + size) && Ordinary(L, L.IsHigh(x), PageOf(L.g, x))
        ensures Lookup(L, tables, x) == Lookup(L, t0, x)
      {
        TranslatesOutside(L, t0, at0, tables, at, va, size, pa, attrs, x);
      }
    }

    /** copy_memory, as one slice copy. */
    method CopyMemory(dst: nat, src: nat, len: nat)
      modifies this`mem
      ensures mem == Copied(old(mem), dst, src, len)
    {
      mem := Copied(mem, dst, src, len);
    }

    /** A page that was not handed out before is not one of the tables. */
    lemma FreshTable(t: Tables, s: R.State, pa: nat)
      requires TablesGiven(t, s.given) && R.NotGiven(s, Range(pa, L.g.PageSize()))
      ensures pa !in t
    {
      NotAmongGiven(s, Range(pa, L.g.PageSize()));
    }
  }

  lemma NotAmongGiven(s: R.State, m: Range)
    requires R.NotGiven(s, m) && m.size > 0
    ensures m !in s.given
  {
    assert m.addr in R.Bytes(m);
  }

  /** A page for a level 1 table. */
  method AllocPage(ram: B.BootRam, g: Granule) returns (pa: nat, o: Outcome)
    requires ram.Valid() && R.Safe(ram.State())
    modifies ram`given, ram.ram`len, ram.ram.list, ram.asinfo
    ensures o.Done? ==> ram.Valid() && R.Safe(ram.State()) && PageAddress(g, pa)
    ensures o.Done? ==> ram.given == old(ram.given) + [Range(pa, g.PageSize())]
    ensures o.Done? ==> R.NotGiven(old(ram.State()), Range(pa, g.PageSize()))
    ensures o.Crash? ==> ram.Refuses(g.PageSize(), g.PageSize())
  {
    ghost var s := ram.State();
    var r;
    r, o := ram.AllocRam(None, g.PageSize(), g.PageSize());
    if r.None? || o.Crash? {
      return 0, Crash;
    }
    pa := r.value;
    BlockAligned(old(ram.ram.Contents()), old(ram.avoid), g, g.PageSize(), pa);
    R.StepSafe(s, R.Allocate(Range(pa, g.PageSize())), ram.State());
  }

  method AllocRoots(ram: B.BootRam, g: Granule) returns (low: nat, high: nat, o: Outcome)
    requires ram.Valid() && R.Safe(ram.State())
    modifies ram`given, ram.ram`len, ram.ram.list, ram.asinfo
    ensures o.Done? ==> ram.Valid() && R.Safe(ram.State()) && low != high
    ensures o.Done? ==> PageAddress(g, low) && PageAddress(g, high)
    ensures o.Done? ==> ram.given == old(ram.given) + [Range(low, g.PageSize()), Range(high, g.PageSize())]
    ensures o.Crash? ==> ram.Refuses(g.PageSize(), g.PageSize())
  {
    low, o := AllocPage(ram, g);
    if o.Crash? {
      return 0, 0, Crash;
    }
    ghost var s1 := ram.State();
    assert s1.given[|s1.given| - 1] == Range(low, g.PageSize());
    high, o := AllocPage(ram, g);
    if o.Done? {
      DistinctPages(s1, low, high, g.PageSize());
    }
  }

  /** aarch64_map_init up to the per-cpu L0 tables: the level 1 tables of both halves, the self map
      of the high one and, with 4K pages, the first level 2 table with its own self map slot. */
  method MapInit(g: Granule, userEnd: nat, startupBase: nat, ram: B.BootRam, tableAttrs: Attrs, isVirtual: bool,
                 mem0: nat -> Byte, firstVaddr: nat, l1l1: nat, l1l2: nat, l2l2: nat)
    returns (pt: PageTables?, o: Outcome)
    requires ram.Valid() && R.Safe(ram.State()) && tableAttrs.Valid()
    requires 0 < userEnd <= g.Window() && TWO64 - g.Window() <= startupBase < TWO64
    requires firstVaddr % g.PageSize() == 0
    requires l1l1 < g.Slots() && l1l2 < g.Slots() && l2l2 < g.Slots() && l1l1 != l1l2
    modifies ram`given, ram.ram`len, ram.ram.list, ram.asinfo
    ensures o.Done? ==> pt != null && fresh(pt) && pt.Valid()
    ensures o.Done? ==> pt.ram == ram && pt.L.g == g && pt.isVirtual == isVirtual && pt.freeVaddr == firstVaddr
    ensures o.Done? ==> pt.L.userEnd == userEnd && pt.L.startupBase == startupBase
    ensures o.Done? ==> pt.L.self == SelfMap(g, l1l1, l1l2, l2l2)
    // nothing is mapped yet
    ensures o.Done? ==> forall va: nat :: pt.L.InHalf(va) && Ordinary(pt.L, pt.L.IsHigh(va), PageOf(g, va)) ==>
                          Walk(pt.L, pt.tables, va).None?
    ensures o.Crash? ==> ram.Refuses(g.PageSize(), g.PageSize())
  {
    hide Tree, Linked, Lookup, Ordinary, Word, AttrsOf, B.BootRam.Valid, B.BootRam.Refuses, R.Safe;
    pt := null;
    var low, high;
    low, high, o := AllocRoots(ram, g);
    if o.Crash? {
      return;
    }
    var l1pte := Word(high, tableAttrs, false);
    WordFields(g, high, tableAttrs, false);
    var L := Layout(g, userEnd, startupBase, low, high, SelfMap(g, l1l1, l1l2, l2l2));
    var tables := FirstTables(g, low, high, l1l1, l1pte);
    ghost var at := FirstNodes(low, high);
    var l2 := low;
    if g.Page4K? {
      l2, o := AllocDirectory(ram, g, low, high);
      if o.Crash? {
        return;
      }
      var l2pte := Word(l2, tableAttrs, false);
      WordFields(g, l2, tableAttrs, false);
      FirstDirectoryTree(L, l1l1, l1pte, l1l2, l2, l2pte, l2l2);
      FirstDirectoryLinked(L, l1l1, l1pte, l1l2, l2, l2pte, l2l2, tableAttrs);
      tables, at := FirstDirectory(L, l1l1, l1pte, l1l2, l2, l2pte, l2l2), at[Mid(true, l1l2) := l2];
    } else {
      FirstTree(L, l1l1, l1pte);
      FirstLinked(L, l1l1, l1pte, tableAttrs);
    }
    var zeroed := (a: nat) =>
      if low <= a < low + g.PageSize() || high <= a < high + g.PageSize() || l2 <= a < l2 + g.PageSize() then 0 as Byte
      else mem0(a);
    pt := new PageTables(L, ram, tableAttrs, isVirtual, tables, zeroed, firstVaddr, at);
    NothingMapped(pt.L, pt.tables, pt.at);
  }

  /** A page for the level 2 table, apart from the level 1 tables. */
  method AllocDirectory(ram: B.BootRam, g: Granule, low: nat, high: nat) returns (pa: nat, o: Outcome)
    requires ram.Valid() && R.Safe(ram.State())
    requires Range(low, g.PageSize()) in ram.given && Range(high, g.PageSize()) in ram.given
    modifies ram`given, ram.ram`len, ram.ram.list, ram.asinfo
    ensures o.Done? ==> ram.Valid() && R.Safe(ram.State()) && PageAddress(g, pa) && pa != low && pa != high
    ensures o.Done? ==> ram.given == old(ram.given) + [Range(pa, g.PageSize())]
    ensures o.Crash? ==> ram.Refuses(g.PageSize(), g.PageSize())
  {
    ghost var s := ram.State();
    pa, o := AllocPage(ram, g);
    if o.Done? {
      DistinctPages(s, low, pa, g.PageSize());
      DistinctPages(s, high, pa, g.PageSize());
    }
  }

  function SelfMap(g: Granule, l1l1: nat, l1l2: nat, l2l2: nat): set<(Node, nat)> {
    {(Root(true), l1l1)} + (if g.Page4K? then {(Mid(true, l1l2), l2l2)} else {})
  }

  lemma DistinctPages(s: R.State, a: nat, b: nat, size: nat)
    requires Range(a, size) in s.given && R.NotGiven(s, Range(b, size)) && size > 0
    ensures a != b
  {
    NotAmongGiven(s, Range(b, size));
  }

  /** Without a level 3 table no walk finds a page. */
  lemma NothingMapped(L: Layout, tables: Tables, at: map<Node, nat>)
    requires L.Valid() && Tree(L, tables, at) && forall n :: n in at ==> !n.Leaf?
    ensures forall va: nat :: L.InHalf(va) && Ordinary(L, L.IsHigh(va), PageOf(L.g, va)) ==> Walk(L, tables, va).None?
  {
    forall va: nat | L.InHalf(va) && Ordinary(L, L.IsHigh(va), PageOf(L.g, va)) ensures Walk(L, tables, va).None? {
      WalkReadsPageWord(L, tables, at, va);
    }
  }
}
