/** One call of aarch64_map seen page by page: the descriptor every page of the range gets, and the
    arithmetic that ties the running va and pte to page numbers. */
module Mapping {
  import opened Descriptors
  import opened TableTree
  import opened TableUpdates
  import opened Bits

  /** The pages lo up to hi of one half are mapped to consecutive pages from pa on; base is the
      address of the half's page zero. */
  datatype Map = Map(h: bool, base: nat, lo: nat, hi: nat, pa: nat, attrs: Attrs)

  ghost predicate MapValid(L: Layout, m: Map) {
    && L.Valid()
    && m.base == (if m.h then TWO64 - L.g.Window() else 0)
    && m.lo <= m.hi <= L.g.Pages()
    && m.attrs.Valid()
    && PageAddress(L.g, m.pa)
    && m.pa + (m.hi - m.lo) * L.g.PageSize() <= TWO48
    && forall q :: m.lo <= q < m.hi ==> Ordinary(L, m.h, q)
  }

  /** The address of a page, and the physical address it is mapped to. */
  function Va(g: Granule, m: Map, q: nat): nat { m.base + q * g.PageSize() }

  function Pa(g: Granule, m: Map, q: nat): nat
    requires m.lo <= q
  {
    m.pa + (q - m.lo) * g.PageSize()
  }

  /** The first page of the aligned block that page q is in. */
  function BlockOf(g: Granule, q: nat): nat { q - q % g.Contig() }

  /** The block of page q lies wholly in the range and its physical block is equally aligned. */
  predicate WholeBlock(g: Granule, m: Map, q: nat) {
    var b := BlockOf(g, q);
    && m.lo <= b && b + g.Contig() <= m.hi
    && (m.pa / g.PageSize() + (b - m.lo)) % g.Contig() == 0
  }

  /** The descriptor page q ends up with: CONTIG exactly on whole, equally aligned blocks. */
  function Wanted(g: Granule, m: Map, q: nat): nat
    requires m.lo <= q
  {
    Word(Pa(g, m, q), m.attrs, WholeBlock(g, m, q))
  }

  /** After pages lo up to q have been written: those have their descriptors, and no other page
      outside the self map, in either half, has changed. */
  ghost predicate Progress(L: Layout, t0: Tables, at0: map<Node, nat>, t: Tables, at: map<Node, nat>, m: Map, q: nat)
  {
    && m.lo <= q <= m.hi
    && Tree(L, t, at)
    && (forall x :: m.lo <= x < q ==> PageWord(L, t, at, m.h, x) == Wanted(L.g, m, x))
    && (forall h: bool, x: nat :: !(h == m.h && m.lo <= x < q) ==>
        PageWord(L, t, at, h, x) == PageWord(L, t0, at0, h, x))
  }

  lemma NextPage(g: Granule, m: Map, q: nat)
    requires m.lo <= q
    ensures Va(g, m, q + 1) == Va(g, m, q) + g.PageSize()
    ensures Pa(g, m, q + 1) == Pa(g, m, q) + g.PageSize()
  {
  }

  lemma PageAddresses(L: Layout, m: Map, q: nat)
    requires MapValid(L, m) && m.lo <= q < m.hi
    ensures PageAddress(L.g, Pa(L.g, m, q))
  {
    if L.g.Page4K? {
      Bits.DivModUnique(Pa(L.g, m, q), 0x1000, m.pa / 0x1000 + (q - m.lo), 0);
    } else {
      Bits.DivModUnique(Pa(L.g, m, q), 0x1_0000, m.pa / 0x1_0000 + (q - m.lo), 0);
    }
  }

  /** The page number can be read off the address, and the other way round for any offset. */
  lemma PageOfVa(L: Layout, m: Map, q: nat, k: nat)
    requires L.Valid() && m.base == (if m.h then TWO64 - L.g.Window() else 0)
    requires q < L.g.Pages() && k < L.g.PageSize()
    ensures PageOf(L.g, Va(L.g, m, q) + k) == q && Offset(L.g, Va(L.g, m, q) + k) == k
  {
    var w, p := L.g.Window(), L.g.PageSize();
    var va := Va(L.g, m, q) + k;
    if L.g.Page4K? {
      Bits.DivModUnique(va, 0x80_0000_0000, if m.h then 0x200_0000 - 1 else 0, 0x1000 * q + k);
      Bits.DivModUnique(0x1000 * q + k, 0x1000, q, k);
      Bits.DivModUnique(va, 0x1000, (if m.h then 0xF_FFFF_F800_0000 else 0) + q, k);
    } else {
      Bits.DivModUnique(va, 0x400_0000_0000, if m.h then 0x40_0000 - 1 else 0, 0x1_0000 * q + k);
      Bits.DivModUnique(0x1_0000 * q + k, 0x1_0000, q, k);
      Bits.DivModUnique(va, 0x1_0000, (if m.h then 0xFFFF_FC00_0000 else 0) + q, k);
    }
  }

  /** USE_CONTIG. The or of the two addresses has no bit below the block size set exactly when
      neither of them has. */
  predicate UseContig(g: Granule, va: nat, pte: nat, left: nat) {
    var c := g.Contig() * g.PageSize();
    left >= c && va % c == 0 && (pte - pte % g.PageSize()) % c == 0
  }

  /** When the loop is at page q outside the middle of a whole block, the test decides exactly
      whether a whole block starts here. */
  lemma ContigTest(L: Layout, m: Map, q: nat)
    requires MapValid(L, m) && m.lo <= q < m.hi
    ensures UseContig(L.g, Va(L.g, m, q), Word(Pa(L.g, m, q), m.attrs, false), (m.hi - q) * L.g.PageSize())
            <==> q % L.g.Contig() == 0 && WholeBlock(L.g, m, q)
  {
    var g := L.g;
    PageAddresses(L, m, q);
    BaseAligned(L, m, q);
    PteAligned(g, Pa(g, m, q), m.attrs);
    FrameAligned(g, m, q);
    assert (m.hi - q) * g.PageSize() >= g.Contig() * g.PageSize() <==> m.hi - q >= g.Contig();
  }

  lemma BaseAligned(L: Layout, m: Map, q: nat)
    requires L.Valid() && m.base == (if m.h then TWO64 - L.g.Window() else 0)
    ensures Va(L.g, m, q) % (L.g.Contig() * L.g.PageSize()) == 0 <==> q % L.g.Contig() == 0
  {
    var d, r := q / L.g.Contig(), q % L.g.Contig();
    if L.g.Page4K? {
      Bits.DivModUnique(Va(L.g, m, q), 0x1_0000, (if m.h then 0xFFFF_FF80_0000 else 0) + d, 0x1000 * r);
    } else {
      Bits.DivModUnique(Va(L.g, m, q), 0x20_0000, (if m.h then 0x7FF_FFE0_0000 else 0) + d, 0x1_0000 * r);
    }
  }

  lemma PteAligned(g: Granule, pa: nat, a: Attrs)
    requires PageAddress(g, pa) && a.Valid()
    ensures var pte, c := Word(pa, a, false), g.Contig() * g.PageSize();
            (pte - pte % g.PageSize()) % c == pa % c
  {
    var pte := Word(pa, a, false);
    if g.Page4K? {
      Bits.DivModUnique(pte, 0x1000, pa / 0x1000 + 0x200_0000_0000 * a.hi, a.lo);
      Bits.DivModUnique(pte - a.lo, 0x1_0000, pa / 0x1_0000 + 0x20_0000_0000 * a.hi, pa % 0x1_0000);
    } else {
      Bits.DivModUnique(pte, 0x1_0000, pa / 0x1_0000 + 0x20_0000_0000 * a.hi, a.lo);
      Bits.DivModUnique(pte - a.lo, 0x20_0000, pa / 0x20_0000 + 0x1_0000_0000 * a.hi, pa % 0x20_0000);
    }
  }

  lemma FrameAligned(g: Granule, m: Map, q: nat)
    requires m.lo <= q && m.pa % g.PageSize() == 0
    ensures Pa(g, m, q) % (g.Contig() * g.PageSize()) == 0
            <==> (m.pa / g.PageSize() + (q - m.lo)) % g.Contig() == 0
  {
    var f := m.pa / g.PageSize() + (q - m.lo);
    var d, r := f / g.Contig(), f % g.Contig();
    assert Pa(g, m, q) == f * g.PageSize();
    if g.Page4K? {
      Bits.DivModUnique(Pa(g, m, q), 0x1_0000, d, 0x1000 * r);
    } else {
      Bits.DivModUnique(Pa(g, m, q), 0x20_0000, d, 0x1_0000 * r);
    }
  }

  /** What CONTIG promises the hardware: the pages of a block so marked lie in one table, are all
      marked, have the same attributes and map to consecutive, equally aligned addresses. */
  lemma BlockIsConsistent(g: Granule, m: Map, q: nat, x: nat)
    requires m.lo <= q < m.hi && m.attrs.Valid() && WholeBlock(g, m, q)
    requires BlockOf(g, q) <= x < BlockOf(g, q) + g.Contig()
    ensures m.lo <= x < m.hi && WholeBlock(g, m, x)
    ensures x / g.Slots() == q / g.Slots()
    ensures Wanted(g, m, x) == Wanted(g, m, BlockOf(g, q)) + (x - BlockOf(g, q)) * g.PageSize()
  {
    SameBlock(g, q, x);
    SameBlock(g, q, BlockOf(g, q));
    SameTable(g, q, x);
    var b := BlockOf(g, q);
    assert Pa(g, m, x) == Pa(g, m, b) + (x - b) * g.PageSize();
  }

  lemma SameBlock(g: Granule, q: nat, x: nat)
    requires BlockOf(g, q) <= x < BlockOf(g, q) + g.Contig()
    ensures BlockOf(g, x) == BlockOf(g, q)
  {
    Bits.DivModUnique(x, g.Contig(), q / g.Contig(), x - BlockOf(g, q));
  }

  lemma SameTable(g: Granule, q: nat, x: nat)
    requires BlockOf(g, q) <= x < BlockOf(g, q) + g.Contig()
    ensures x / g.Slots() == q / g.Slots()
  {
    SameBlock(g, q, x);
    if g.Page4K? {
      DivDiv(x, 16, 32);
      DivDiv(q, 16, 32);
    } else {
      DivDiv(x, 32, 256);
      DivDiv(q, 32, 256);
    }
  }

  /** Writing the descriptor of page q. */
  lemma WriteStep(L: Layout, t0: Tables, at0: map<Node, nat>, t: Tables, at: map<Node, nat>, m: Map, q: nat, w: nat)
    requires Progress(L, t0, at0, t, at, m, q) && q < m.hi && w == Wanted(L.g, m, q)
    requires LeafOf(L.g, m.h, q) in at
    ensures var f := at[LeafOf(L.g, m.h, q)];
            && TableAt(L, t, f)
            && Progress(L, t0, at0, Written(t, f, q % L.g.Slots(), w), at, m, q + 1)
  {
    var n := LeafOf(L.g, m.h, q);
    WriteKeepsTree(L, t, at, n, q % L.g.Slots(), w);
    forall h: bool, x: nat
      ensures PageWord(L, Written(t, at[n], q % L.g.Slots(), w), at, h, x)
           == if h == m.h && x == q then w else PageWord(L, t, at, h, x)
    {
      WriteSetsPageWord(L, t, at, m.h, q, w, h, x);
    }
  }

  /** The state the loops carry from page to page: va, pte and the page number agree, and the page
      is not in the middle of a block that is mapped as a whole. */
  ghost predicate InStep(L: Layout, m: Map, q: nat, va: nat, pte: nat) {
    && m.lo <= q <= m.hi
    && va == Va(L.g, m, q)
    && pte == Word(Pa(L.g, m, q), m.attrs, false)
    && (q < m.hi && q % L.g.Contig() != 0 ==> !WholeBlock(L.g, m, q))
  }

  /** A whole block is about to be written. */
  lemma BlockStep(L: Layout, m: Map, q: nat, va: nat, pte: nat)
    requires MapValid(L, m) && InStep(L, m, q, va, pte) && q < m.hi
    requires q % L.g.Contig() == 0 && WholeBlock(L.g, m, q)
    ensures q + L.g.Contig() <= m.hi
    ensures pte + CONTIG_BIT == Wanted(L.g, m, q)
    ensures forall x :: q <= x < q + L.g.Contig() ==> x / L.g.Slots() == q / L.g.Slots()
    ensures forall x :: q < x < q + L.g.Contig() ==> Wanted(L.g, m, x) == Wanted(L.g, m, x - 1) + L.g.PageSize()
    ensures InStep(L, m, q + L.g.Contig(), va + L.g.Contig() * L.g.PageSize(), pte + L.g.Contig() * L.g.PageSize())
  {
    forall x | q <= x < q + L.g.Contig()
      ensures x / L.g.Slots() == q / L.g.Slots() && WholeBlock(L.g, m, x)
      ensures x > q ==> Pa(L.g, m, x) == Pa(L.g, m, x - 1) + L.g.PageSize()
    {
      SameTable(L.g, q, x);
      SameBlock(L.g, q, x);
      if x > q {
        NextPage(L.g, m, x - 1);
      }
    }
    NextBlock(L.g, m, q);
  }

  lemma NextBlock(g: Granule, m: Map, q: nat)
    requires m.lo <= q && q % g.Contig() == 0
    ensures (q + g.Contig()) % g.Contig() == 0
    ensures Va(g, m, q + g.Contig()) == Va(g, m, q) + g.Contig() * g.PageSize()
    ensures Pa(g, m, q + g.Contig()) == Pa(g, m, q) + g.Contig() * g.PageSize()
  {
  }

  /** A single page is about to be written. */
  lemma PageStep(L: Layout, m: Map, q: nat, va: nat, pte: nat)
    requires MapValid(L, m) && InStep(L, m, q, va, pte) && q < m.hi
    requires !(q % L.g.Contig() == 0 && WholeBlock(L.g, m, q))
    ensures pte == Wanted(L.g, m, q)
    ensures InStep(L, m, q + 1, va + L.g.PageSize(), pte + L.g.PageSize())
  {
    NextPage(L.g, m, q);
    if (q + 1) % L.g.Contig() != 0 {
      NextInBlock(L.g, q);
    }
  }

  lemma NextInBlock(g: Granule, q: nat)
    requires (q + 1) % g.Contig() != 0
    ensures BlockOf(g, q + 1) == BlockOf(g, q)
  {
    var r := q % g.Contig();
    if r + 1 == g.Contig() {
      Bits.DivModUnique(q + 1, g.Contig(), q / g.Contig() + 1, 0);
    } else {
      Bits.DivModUnique(q + 1, g.Contig(), q / g.Contig(), r + 1);
    }
  }

  /** Slots of one table hold consecutive pages. */
  lemma SlotOfPage(g: Granule, first: nat, k: nat)
    requires first % g.Slots() == 0 && k < g.Slots()
    ensures (first + k) % g.Slots() == k && (first + k) / g.Slots() == first / g.Slots()
  {
    Bits.DivModUnique(first + k, g.Slots(), first / g.Slots(), k);
  }

  lemma FirstOfTable(g: Granule, q: nat)
    ensures var first := q - q % g.Slots();
            first % g.Slots() == 0 && first / g.Slots() == q / g.Slots()
  {
    Bits.DivModUnique(q - q % g.Slots(), g.Slots(), q / g.Slots(), 0);
  }

  lemma NextTable(g: Granule, first: nat)
    requires first % g.Slots() == 0
    ensures (first + g.Slots()) % g.Slots() == 0 && (first + g.Slots()) / g.Slots() == first / g.Slots() + 1
  {
    Bits.DivModUnique(first + g.Slots(), g.Slots(), first / g.Slots() + 1, 0);
  }

  /** What the innermost loop does next: one page, or a whole contiguous block. */
  lemma NextStep(L: Layout, m: Map, q: nat, va: nat, pte: nat, l3: nat)
    requires MapValid(L, m) && InStep(L, m, q, va, pte) && q < m.hi
    requires l3 < L.g.Slots() && q >= l3 && (q - l3) % L.g.Slots() == 0
    ensures var contig := UseContig(L.g, va, pte, (m.hi - q) * L.g.PageSize());
            var n := if contig then L.g.Contig() else 1;
            && m.lo <= q && q + n <= m.hi && l3 + n <= L.g.Slots()
            && Wanted(L.g, m, q) == pte + (if contig then CONTIG_BIT else 0)
            && (forall x :: q < x < q + n ==> Wanted(L.g, m, x) == Wanted(L.g, m, x - 1) + L.g.PageSize())
            && InStep(L, m, q + n, va + n * L.g.PageSize(), pte + n * L.g.PageSize())
  {
    hide Wanted, WholeBlock, UseContig, MapValid, Va, Pa, Word;
    SlotOfPage(L.g, q - l3, l3);
    ContigTest(L, m, q);
    hide InStep;
    if UseContig(L.g, va, pte, (m.hi - q) * L.g.PageSize()) {
      BlockStep(L, m, q, va, pte);
      BlockInTable(L.g, q - l3, l3, L.g.Contig());
    } else {
      PageStep(L, m, q, va, pte);
    }
  }

  /** The loop over one level 3 table: where it begins, goes on and ends. */
  lemma TableBegins(L: Layout, m: Map, q: nat, va: nat, pte: nat)
    requires MapValid(L, m) && InStep(L, m, q, va, pte) && q < m.hi
    ensures var l3 := L3Index(L.g, va);
            && l3 == q % L.g.Slots() && l3 <= q && (q - l3) % L.g.Slots() == 0
            && (q - l3) / L.g.Slots() == q / L.g.Slots()
  {
    PageOfVa(L, m, q, 0);
    IndexDigits(L.g, va);
    FirstOfTable(L.g, q);
  }

  lemma TableGoesOn(L: Layout, m: Map, q: nat, va: nat, pte: nat, first: nat, l3: nat)
    requires MapValid(L, m) && InStep(L, m, q, va, pte)
    requires first % L.g.Slots() == 0 && q == first + l3 && l3 < L.g.Slots() && va < Va(L.g, m, m.hi)
    ensures q < m.hi && Va(L.g, m, m.hi) - va == (m.hi - q) * L.g.PageSize()
    ensures q % L.g.Slots() == l3 && q / L.g.Slots() == first / L.g.Slots()
  {
    AddressOrder(L.g, m, q);
    SlotOfPage(L.g, first, l3);
  }

  lemma TableEnds(L: Layout, m: Map, q: nat, va: nat, pte: nat, first: nat, l3: nat)
    requires MapValid(L, m) && InStep(L, m, q, va, pte)
    requires first % L.g.Slots() == 0 && q == first + l3 && l3 <= L.g.Slots()
    requires l3 == L.g.Slots() || va >= Va(L.g, m, m.hi)
    ensures q == m.hi || (q % L.g.Slots() == 0 && q / L.g.Slots() == first / L.g.Slots() + 1)
  {
    AddressOrder(L.g, m, q);
    NextTable(L.g, first);
  }

  lemma BlockInTable(g: Granule, first: nat, l3: nat, n: nat)
    requires first % g.Slots() == 0 && l3 < g.Slots() && 0 < n <= g.Slots()
    requires (first + l3 + n - 1) / g.Slots() == first / g.Slots()
    ensures l3 + n <= g.Slots()
  {
    var x := first + l3 + n - 1;
    assert x == g.Slots() * (first / g.Slots()) + x % g.Slots();
    assert first == g.Slots() * (first / g.Slots());
  }

  /** Addresses are ordered as their pages, and the bytes left are the pages left. */
  lemma AddressOrder(g: Granule, m: Map, q: nat)
    requires m.lo <= q <= m.hi
    ensures Va(g, m, q) < Va(g, m, m.hi) <==> q < m.hi
    ensures Va(g, m, m.hi) - Va(g, m, q) == (m.hi - q) * g.PageSize()
  {
  }

  /** The slot that leads to the table of page q. */
  lemma SlotFacts(L: Layout, t: Tables, at: map<Node, nat>, m: Map, q: nat)
    requires Tree(L, t, at) && MapValid(L, m) && m.lo <= q < m.hi
    requires ParentOf(L.g, LeafOf(L.g, m.h, q)) in at
    ensures var n := LeafOf(L.g, m.h, q);
            var p, j := ParentOf(L.g, n), SlotOf(L.g, n);
            && j < L.g.Slots() && Child(L.g, p, j) == n && InRange(L, n) && (p, j) !in L.self
            && TableAt(L, t, at[p])
            && (t[at[p]][j] == 0 <==> n !in at)
            && (t[at[p]][j] != 0 ==> PtpPaddr(L.g, t[at[p]][j]) == at[n])
  {
    hide Tree, ParentOf, SlotOf, Child;
    LeafFacts(L, t, at, m.h, q);
    LeafInRange(L, m.h, q);
  }

  lemma ProgressKept(L: Layout, t0: Tables, at0: map<Node, nat>, t1: Tables, at1: map<Node, nat>,
                     t2: Tables, at2: map<Node, nat>, m: Map, q: nat)
    requires Progress(L, t0, at0, t1, at1, m, q) && Tree(L, t2, at2)
    requires forall h: bool, x: nat :: PageWord(L, t2, at2, h, x) == PageWord(L, t1, at1, h, x)
    ensures Progress(L, t0, at0, t2, at2, m, q)
  {
    hide Tree, PageWord, Wanted;
  }

  /** The first page behind the 512 tables that the level 2 table of page q0 leads to (4K). */
  ghost predicate NextDirectory(q0: nat, q: nat) {
    q % 512 == 0 && q / 512 % 512 == 0 && q / 512 / 512 == q0 / 512 / 512 + 1
  }

  /** Where the middle loop stands with slot l2 of the level 2 table p. */
  ghost predicate InDirectory(g: Granule, h: bool, p: Node, l2: nat, q0: nat, q: nat) {
    && l2 <= g.Slots()
    && q < g.Pages()
    && (if l2 < g.Slots() then ParentOf(g, LeafOf(g, h, q)) == p && SlotOf(g, LeafOf(g, h, q)) == l2
        else g.Page4K? && NextDirectory(q0, q))
    && (l2 < g.Slots() && g.Page4K? ==> q / 512 / 512 == q0 / 512 / 512)
  }

  lemma DirectoryStep(g: Granule, h: bool, p: Node, l2: nat, q0: nat, q1: nat, q: nat)
    requires InDirectory(g, h, p, l2, q0, q1) && l2 < g.Slots() && q < g.Pages()
    requires q % g.Slots() == 0 && q / g.Slots() == q1 / g.Slots() + 1
    ensures InDirectory(g, h, p, l2 + 1, q0, q)
  {
    if g.Page4K? {
      var t := q1 / 512;
      if t % 512 + 1 < 512 {
        Bits.DivModUnique(t + 1, 512, t / 512, t % 512 + 1);
      } else {
        Bits.DivModUnique(t + 1, 512, t / 512 + 1, 0);
      }
    }
  }

  lemma RootFacts(L: Layout, t: Tables, at: map<Node, nat>, h: bool)
    requires Tree(L, t, at)
    ensures Root(h) in at && at[Root(h)] == L.RootOf(h) && TableAt(L, t, at[Root(h)])
  {
  }

  /** The level 1 slot on the way to page q (4K). */
  lemma TopFacts(L: Layout, t: Tables, at: map<Node, nat>, m: Map, q: nat)
    requires Tree(L, t, at) && L.g.Page4K? && MapValid(L, m) && m.lo <= q < m.hi
    ensures var i := q / 512 / 512;
            var l1 := L.RootOf(m.h);
            && i < 512 && (Root(m.h), i) !in L.self && InRange(L, Mid(m.h, i))
            && ParentOf(L.g, LeafOf(L.g, m.h, q)) == Mid(m.h, i)
            && Root(m.h) in at && at[Root(m.h)] == l1 && TableAt(L, t, l1)
            && (t[l1][i] == 0 <==> Mid(m.h, i) !in at)
            && (t[l1][i] != 0 ==> PtpPaddr(L.g, t[l1][i]) == at[Mid(m.h, i)])
  {
    var i := q / 512 / 512;
    assert Ordinary(L, m.h, q);
    MidFacts(L, t, at, m.h, i);
  }
}
