/** Map and translate: what the walk returns after a range has been mapped. */
module Translation {
  import opened Descriptors
  import opened TableTree
  import opened Mapping
  import opened Bits
  import opened Wrappers

  /** ROUNDPG, for sizes that do not wrap. */
  function RoundPage(g: Granule, x: nat): nat { UpTo(x, g.PageSize()) }

  lemma RoundPageIsRound(g: Granule, x: nat)
    requires x + g.PageSize() <= TWO64
    ensures RoundPage(g, x) == Round(x, g.PageSize())
  {
    hide Round;
    FixedPowers();
    UpToIsRound(x, if g.Page4K? then 12 else 16);
  }

  function TruncPage(g: Granule, x: nat): nat { x - x % g.PageSize() }

  /** The mapping of `size` bytes, a multiple of the page size, from va to pa. */
  function MapOf(L: Layout, va: nat, size: nat, pa: nat, attrs: Attrs): Map {
    Map(L.IsHigh(va), if L.IsHigh(va) then TWO64 - L.g.Window() else 0,
        PageOf(L.g, va), PageOf(L.g, va) + size / L.g.PageSize(), pa, attrs)
  }

  /** The range lies in one half, the physical range below 2^48, and no page of it goes through the
      self map. */
  ghost predicate RangeValid(L: Layout, va: nat, size: nat, pa: nat) {
    && L.Valid()
    && va % L.g.PageSize() == 0 && size % L.g.PageSize() == 0 && PageAddress(L.g, pa)
    && InOneHalf(L, va, size)
    && pa + size <= TWO48
    && forall x: nat :: va <= x < va + size ==> Ordinary(L, L.IsHigh(va), PageOf(L.g, x))
  }

  /** An address is its half's base, its page and its offset. */
  lemma AddressSplits(L: Layout, x: nat)
    requires L.Valid() && L.InHalf(x)
    ensures var base := if L.IsHigh(x) then TWO64 - L.g.Window() else 0;
            x == base + PageOf(L.g, x) * L.g.PageSize() + Offset(L.g, x)
  {
    var w, p := L.g.Window(), L.g.PageSize();
    var base := if L.IsHigh(x) then TWO64 - w else 0;
    var y := x - base;
    if L.g.Page4K? {
      Bits.DivModUnique(x, 0x80_0000_0000, if L.IsHigh(x) then 0x200_0000 - 1 else 0, y);
      Bits.DivModUnique(x, 0x1000, (if L.IsHigh(x) then 0xF_FFFF_F800_0000 else 0) + y / 0x1000, y % 0x1000);
    } else {
      Bits.DivModUnique(x, 0x400_0000_0000, if L.IsHigh(x) then 0x40_0000 - 1 else 0, y);
      Bits.DivModUnique(x, 0x1_0000, (if L.IsHigh(x) then 0xFFFF_FC00_0000 else 0) + y / 0x1_0000, y % 0x1_0000);
    }
  }

  lemma Quotient(g: Granule, size: nat)
    requires size % g.PageSize() == 0
    ensures size / g.PageSize() * g.PageSize() == size
  {
  }

  /** A valid range is a valid map, and its addresses are those of its pages. */
  lemma RangeIsMap(L: Layout, va: nat, size: nat, pa: nat, attrs: Attrs)
    requires RangeValid(L, va, size, pa) && attrs.Valid()
    ensures var m := MapOf(L, va, size, pa, attrs);
            && MapValid(L, m)
            && Va(L.g, m, m.lo) == va && Va(L.g, m, m.hi) == va + size
            && Pa(L.g, m, m.lo) == pa
  {
    var m := MapOf(L, va, size, pa, attrs);
    Endpoints(L, va, size, pa, attrs);
    PagesFit(L, va, size);
    forall q | m.lo <= q < m.hi ensures Ordinary(L, m.h, q) {
      PageOrdinary(L, va, size, pa, attrs, q);
    }
  }

  lemma Endpoints(L: Layout, va: nat, size: nat, pa: nat, attrs: Attrs)
    requires L.Valid() && L.InHalf(va)
    requires va % L.g.PageSize() == 0 && size % L.g.PageSize() == 0
    ensures var m := MapOf(L, va, size, pa, attrs);
            && Va(L.g, m, m.lo) == va && Va(L.g, m, m.hi) == va + size
            && Pa(L.g, m, m.lo) == pa
            && (m.hi - m.lo) * L.g.PageSize() == size
  {
    var m := MapOf(L, va, size, pa, attrs);
    AddressSplits(L, va);
    Quotient(L.g, size);
    assert m.hi * L.g.PageSize() == m.lo * L.g.PageSize() + size / L.g.PageSize() * L.g.PageSize();
  }

  lemma PageOrdinary(L: Layout, va: nat, size: nat, pa: nat, attrs: Attrs, q: nat)
    requires RangeValid(L, va, size, pa)
    requires var m := MapOf(L, va, size, pa, attrs); m.lo <= q < m.hi
    ensures Ordinary(L, L.IsHigh(va), q)
  {
    hide Ordinary;
    var m := MapOf(L, va, size, pa, attrs);
    Endpoints(L, va, size, pa, attrs);
    PagesFit(L, va, size);
    PageOfVa(L, m, q, 0);
    VaInside(L.g, m, q);
    assert Ordinary(L, m.h, PageOf(L.g, Va(L.g, m, q)));
  }

  lemma VaInside(g: Granule, m: Map, q: nat)
    requires m.lo <= q < m.hi
    ensures Va(g, m, m.lo) <= Va(g, m, q) && Va(g, m, q) + g.PageSize() <= Va(g, m, m.hi)
  {
  }

  lemma PagesFit(L: Layout, va: nat, size: nat)
    requires L.Valid() && va % L.g.PageSize() == 0 && size % L.g.PageSize() == 0
    requires if L.IsHigh(va) then L.startupBase <= va && va + size < TWO64 else va + size < L.userEnd
    ensures PageOf(L.g, va) + size / L.g.PageSize() <= L.g.Pages()
  {
    AddressSplits(L, va);
    Quotient(L.g, size);
    assert L.g.Window() == L.g.Pages() * L.g.PageSize();
    assert (PageOf(L.g, va) + size / L.g.PageSize()) * L.g.PageSize() <= L.g.Pages() * L.g.PageSize();
  }

  /** The page an address of the range lies in, and the distance it is mapped at. */
  lemma PageInside(L: Layout, va: nat, size: nat, pa: nat, attrs: Attrs, x: nat)
    requires RangeValid(L, va, size, pa) && va <= x < va + size
    ensures var m, q := MapOf(L, va, size, pa, attrs), PageOf(L.g, x);
            && L.IsHigh(x) == m.h && m.lo <= q < m.hi
            && Pa(L.g, m, q) + Offset(L.g, x) == pa + (x - va)
  {
    hide Ordinary;
    var m, q := MapOf(L, va, size, pa, attrs), PageOf(L.g, x);
    Endpoints(L, va, size, pa, attrs);
    AddressSplits(L, x);
    PageBetween(L.g, m, q, x, Offset(L.g, x));
    assert (q - m.lo) * L.g.PageSize() == q * L.g.PageSize() - m.lo * L.g.PageSize();
  }

  /** The descriptor at the end of the walk has these attributes. */
  ghost predicate HasAttrs(L: Layout, t: Tables, va: nat, a: Attrs)
    requires L.Valid()
  {
    var f := Lookup(L, t, va);
    f.Some? && AttrsOf(f.value.word) == a
  }

  /** Inside the range the walk returns the physical address at the same distance, from a descriptor
      with the attributes asked for. */
  lemma TranslatesInside(L: Layout, t0: Tables, at0: map<Node, nat>, t: Tables, at: map<Node, nat>,
                         va: nat, size: nat, pa: nat, attrs: Attrs, x: nat)
    requires RangeValid(L, va, size, pa) && attrs.Valid()
    requires var m := MapOf(L, va, size, pa, attrs); Progress(L, t0, at0, t, at, m, m.hi)
    requires va <= x < va + size
    ensures Walk(L, t, x) == Some(pa + (x - va)) && HasAttrs(L, t, x, attrs)
  {
    hide Tree, PageWord, Lookup, WholeBlock, PageOf, Offset, Word, PtpPaddr, PteValid, AttrsOf;
    var m, q := MapOf(L, va, size, pa, attrs), PageOf(L.g, x);
    PageInside(L, va, size, pa, attrs, x);
    RangeIsMap(L, va, size, pa, attrs);
    WalkReadsPageWord(L, t, at, x);
    PageAddresses(L, m, q);
    WordFields(L.g, Pa(L.g, m, q), attrs, WholeBlock(L.g, m, q));
    assert PageWord(L, t, at, m.h, q) == Wanted(L.g, m, q);
  }

  lemma PageBetween(g: Granule, m: Map, q: nat, x: nat, k: nat)
    requires m.lo <= m.hi && x == m.base + q * g.PageSize() + k && k < g.PageSize()
    ensures Va(g, m, m.lo) <= x < Va(g, m, m.hi) <==> m.lo <= q < m.hi
  {
    if q < m.lo {
      assert (q + 1) * g.PageSize() <= m.lo * g.PageSize();
    } else if q < m.hi {
      assert (q + 1) * g.PageSize() <= m.hi * g.PageSize();
      assert m.lo * g.PageSize() <= q * g.PageSize();
    } else {
      assert m.hi * g.PageSize() <= q * g.PageSize();
    }
  }

  /** Outside the range, in both halves, no translation has changed, nor the descriptor it is from. */
  lemma TranslatesOutside(L: Layout, t0: Tables, at0: map<Node, nat>, t: Tables, at: map<Node, nat>,
                          va: nat, size: nat, pa: nat, attrs: Attrs, x: nat)
    requires RangeValid(L, va, size, pa) && attrs.Valid() && Tree(L, t0, at0)
    requires var m := MapOf(L, va, size, pa, attrs); Progress(L, t0, at0, t, at, m, m.hi)
    requires L.InHalf(x) && !(va <= x < va + size) && Ordinary(L, L.IsHigh(x), PageOf(L.g, x))
    ensures Lookup(L, t, x) == Lookup(L, t0, x)
  {
    hide Tree, PageWord, Lookup, WholeBlock, Ordinary;
    var m := MapOf(L, va, size, pa, attrs);
    RangeIsMap(L, va, size, pa, attrs);
    AddressSplits(L, x);
    if L.IsHigh(x) == m.h {
      PageBetween(L.g, m, PageOf(L.g, x), x, Offset(L.g, x));
    }
    WalkReadsPageWord(L, t, at, x);
    WalkReadsPageWord(L, t0, at0, x);
  }

  lemma FirstInStep(L: Layout, m: Map)
    requires m.lo <= m.hi
    requires Pa(L.g, m, m.lo) == m.pa
    ensures InStep(L, m, m.lo, Va(L.g, m, m.lo), Word(m.pa, m.attrs, false))
  {
    if m.lo % L.g.Contig() != 0 {
      assert BlockOf(L.g, m.lo) < m.lo;
    }
  }

  /** What rounding does to a request. */
  lemma RoundedRange(g: Granule, v: nat, paddr: nat, asked: nat)
    ensures var off := paddr % g.PageSize();
            && TruncPage(g, v) % g.PageSize() == 0
            && (paddr - off) % g.PageSize() == 0
            && RoundPage(g, asked + off) % g.PageSize() == 0
            && asked + off <= RoundPage(g, asked + off) < asked + off + g.PageSize()
  {
    var p := g.PageSize();
    Bits.DivModUnique(v - v % p, p, v / p, 0);
    Bits.DivModUnique(paddr - paddr % p, p, paddr / p, 0);
    var x := asked + paddr % p + p - 1;
    assert x / p * p == x - x % p;
    Bits.DivModUnique(x / p * p, p, x / p, 0);
  }

  lemma SumAligned(g: Granule, x: nat, y: nat)
    requires x % g.PageSize() == 0 && y % g.PageSize() == 0
    ensures (x + y) % g.PageSize() == 0
  {
    Bits.DivModUnique(x + y, g.PageSize(), x / g.PageSize() + y / g.PageSize(), 0);
  }

  /** What aarch64_map's callers owe it: the rounded range avoids the self map, and its physical end
      is below 2^48. */
  ghost predicate RangeFits(L: Layout, v: nat, paddr: nat, asked: nat) {
    var off := paddr % L.g.PageSize();
    var va, size := TruncPage(L.g, v), RoundPage(L.g, asked + off);
    && paddr < TWO48 && paddr - off + size <= TWO48
    && forall x: nat :: va <= x < va + size ==> Ordinary(L, L.IsHigh(va), PageOf(L.g, x))
  }

  /** The range lies in one half of the address space. */
  ghost predicate InOneHalf(L: Layout, va: nat, size: nat) {
    if L.IsHigh(va) then L.startupBase <= va && va + size < TWO64 else va + size < L.userEnd
  }

  /** The tests in aarch64_map. */
  lemma HalfTest(L: Layout, va: nat, size: nat)
    requires L.Valid()
    ensures InOneHalf(L, va, size) <==>
              va + size < TWO64 && if va < L.userEnd then va + size < L.userEnd else va >= L.startupBase
  {
  }

  /** What they add to the demands on a request. */
  lemma RequestValid(L: Layout, v: nat, paddr: nat, asked: nat)
    requires L.Valid() && RangeFits(L, v, paddr, asked)
    requires InOneHalf(L, TruncPage(L.g, v), RoundPage(L.g, asked + paddr % L.g.PageSize()))
    ensures RangeValid(L, TruncPage(L.g, v), RoundPage(L.g, asked + paddr % L.g.PageSize()),
                       paddr - paddr % L.g.PageSize())
  {
    hide Ordinary;
    RoundedRange(L.g, v, paddr, asked);
  }

  /** The translations and attributes after a mapping, compared with those before. */
  ghost predicate Mapped(L: Layout, t0: Tables, t: Tables, va: nat, size: nat, pa: nat, attrs: Attrs)
    requires L.Valid()
  {
    && (forall x: nat :: va <= x < va + size ==> Walk(L, t, x) == Some(pa + (x - va)) && HasAttrs(L, t, x, attrs))
    && SameOutside(L, t0, t, va, size)
  }

  /** Outside the range and the self map no translation has changed. */
  ghost predicate SameOutside(L: Layout, t0: Tables, t: Tables, va: nat, size: nat)
    requires L.Valid()
  {
    forall x: nat :: L.InHalf(x) && !(va <= x < va + size) && Ordinary(L, L.IsHigh(x), PageOf(L.g, x)) ==>
      Lookup(L, t, x) == Lookup(L, t0, x)
  }

  /** An assigned address begins a page, and what aarch64_map returns for it translates to the
      physical address asked for, byte by byte. */
  lemma AssignedAddress(L: Layout, t0: Tables, t: Tables, v: nat, paddr: nat, asked: nat, k: nat, attrs: Attrs)
    requires L.Valid() && v % L.g.PageSize() == 0 && k < asked
    requires Mapped(L, t0, t, TruncPage(L.g, v), RoundPage(L.g, asked + paddr % L.g.PageSize()),
                    paddr - paddr % L.g.PageSize(), attrs)
    ensures Walk(L, t, v + paddr % L.g.PageSize() + k) == Some(paddr + k)
  {
    hide Lookup, Ordinary, RoundPage;
    RoundedRange(L.g, v, paddr, asked);
  }

  /** For an address the caller named, the page offset is added a second time. Where twice the
      offset still lies in the mapped range, the address returned translates to paddr exactly when
      the offset is zero; where it does not, the address returned was not mapped by the call. */
  lemma NamedAddress(L: Layout, t0: Tables, t: Tables, v: nat, paddr: nat, asked: nat, attrs: Attrs)
    requires L.Valid() && v % L.g.PageSize() == paddr % L.g.PageSize()
    requires Mapped(L, t0, t, TruncPage(L.g, v), RoundPage(L.g, asked + paddr % L.g.PageSize()),
                    paddr - paddr % L.g.PageSize(), attrs)
    ensures var off := paddr % L.g.PageSize();
            var r := v + off;
            if 2 * off < RoundPage(L.g, asked + off) then
              Walk(L, t, r) == Some(paddr) <==> off == 0
            else
              L.InHalf(r) && Ordinary(L, L.IsHigh(r), PageOf(L.g, r)) ==> Walk(L, t, r) == Walk(L, t0, r)
  {
    hide Lookup, Ordinary, RoundPage;
    RoundedRange(L.g, v, paddr, asked);
  }

  /** Sixteen bytes at 0x5008, mapped at 0x4_1008: the call returns 0x4_1010, which translates to
      0x5010. */
  lemma NamedAddressInput(L: Layout, t0: Tables, t: Tables, attrs: Attrs)
    requires L.Valid() && L.g.Page4K?
    requires Mapped(L, t0, t, TruncPage(L.g, 0x4_1008), RoundPage(L.g, 16 + 8), 0x5000, attrs)
    ensures Walk(L, t, 0x4_1008 + 8) == Some(0x5010)
  {
    hide Lookup, Ordinary;
    assert TruncPage(L.g, 0x4_1008) == 0x4_1000 && RoundPage(L.g, 16 + 8) == 0x1000;
  }

  /** The block an address lies in begins at an address of the block's size. */
  lemma BlockStart(L: Layout, m: Map, q: nat, x: nat, k: nat)
    requires L.Valid() && m.base == (if m.h then TWO64 - L.g.Window() else 0)
    requires x == m.base + q * L.g.PageSize() + k && k < L.g.PageSize()
    ensures var c := if L.g.Page4K? then 0x1_0000 else 0x20_0000; x - x % c == Va(L.g, m, BlockOf(L.g, q))
  {
    var d, r := q / L.g.Contig(), q % L.g.Contig();
    if L.g.Page4K? {
      Bits.DivModUnique(x, 0x1_0000, (if m.h then 0xFFFF_FF80_0000 else 0) + d, 0x1000 * r + k);
    } else {
      Bits.DivModUnique(x, 0x20_0000, (if m.h then 0x7FF_FFE0_0000 else 0) + d, 0x1_0000 * r + k);
    }
  }

  lemma BlockInRange(g: Granule, m: Map, b: nat)
    ensures var c := if g.Page4K? then 0x1_0000 else 0x20_0000;
            && c == g.Contig() * g.PageSize()
            && (Va(g, m, m.lo) <= Va(g, m, b) <==> m.lo <= b)
            && (Va(g, m, b) + c <= Va(g, m, m.hi) <==> b + g.Contig() <= m.hi)
            && (m.lo <= b ==> Pa(g, m, b) == m.pa + (Va(g, m, b) - Va(g, m, m.lo)))
  {
  }

  /** Whole blocks, told from the addresses. */
  lemma BlockAddresses(L: Layout, va: nat, size: nat, pa: nat, attrs: Attrs, x: nat)
    requires RangeValid(L, va, size, pa) && va <= x < va + size
    ensures var m, c := MapOf(L, va, size, pa, attrs), if L.g.Page4K? then 0x1_0000 else 0x20_0000;
            var b := x - x % c;
            WholeBlock(L.g, m, PageOf(L.g, x)) <==> va <= b && b + c <= va + size && (pa + (b - va)) % c == 0
  {
    hide Ordinary, PageOf, Va, Pa, Offset;
    var m, q := MapOf(L, va, size, pa, attrs), PageOf(L.g, x);
    PageInside(L, va, size, pa, attrs, x);
    Endpoints(L, va, size, pa, attrs);
    AddressSplits(L, x);
    OffsetInPage(L.g, x);
    BlockStart(L, m, q, x, Offset(L.g, x));
    var b := BlockOf(L.g, q);
    BlockInRange(L.g, m, b);
    if m.lo <= b {
      FrameAligned(L.g, m, b);
    }
  }

  lemma OffsetInPage(g: Granule, x: nat)
    ensures Offset(g, x) < g.PageSize()
  {
  }

  /** After a call of aarch64_map the descriptor of a page of the range has CONTIG set exactly when
      the page's block lies wholly in the range and is mapped to an equally aligned block. */
  lemma ContigExact(L: Layout, t0: Tables, at0: map<Node, nat>, t: Tables, at: map<Node, nat>,
                    va: nat, size: nat, pa: nat, attrs: Attrs, x: nat)
    requires RangeValid(L, va, size, pa) && attrs.Valid() && va <= x < va + size
    requires var m := MapOf(L, va, size, pa, attrs); Progress(L, t0, at0, t, at, m, m.hi)
    ensures var c := if L.g.Page4K? then 0x1_0000 else 0x20_0000;
            var b := x - x % c;
            IsContig(PageWord(L, t, at, L.IsHigh(va), PageOf(L.g, x)))
            <==> va <= b && b + c <= va + size && (pa + (b - va)) % c == 0
  {
    hide Tree, PageWord, WholeBlock, PageOf, Offset, Word, PtpPaddr, PteValid, IsContig;
    BlockAddresses(L, va, size, pa, attrs, x);
    var m, q := MapOf(L, va, size, pa, attrs), PageOf(L.g, x);
    PageInside(L, va, size, pa, attrs, x);
    RangeIsMap(L, va, size, pa, attrs);
    PageAddresses(L, m, q);
    WordFields(L.g, Pa(L.g, m, q), attrs, WholeBlock(L.g, m, q));
    assert PageWord(L, t, at, m.h, q) == Wanted(L.g, m, q);
  }
}
