/** VMSAv8-64 descriptors and address fields as aarch64_map.c uses them, for both page sizes
    (section D8.3 of the Arm Architecture Reference Manual, DDI 0487). Words are written as sums of
    their fields; aarch64/mmu.h, which names the attribute bits, is not part of this model. */
module Descriptors {
  import opened Bits

  const TWO48: nat := 0x1_0000_0000_0000
  const CONTIG_BIT: nat := 0x10_0000_0000_0000        // bit 52
  const UPPER_UNIT: nat := 0x20_0000_0000_0000        // bit 53, the first of the upper attributes

  datatype Granule = Page4K | Page64K {
    function PageSize(): nat { if Page4K? then 0x1000 else 0x10000 }
    // NPTE_PTBL
    function Slots(): nat { if Page4K? then 512 else 8192 }
    // CONTIG_PAGES and CONTIG_PAGES_64K
    function Contig(): nat { if Page4K? then 16 else 32 }
    // the number of pages one level 1 table (64K: level 2 table) can describe
    function Pages(): nat { if Page4K? then 0x800_0000 else 0x400_0000 }
    // the bytes those pages span: 39 or 42 bits of address
    function Window(): nat { if Page4K? then 0x80_0000_0000 else 0x400_0000_0000 }
  }

  /** The attribute bits of set_pte: `lo` in bits 11:0, with the type bits 1:0 set, and `hi` in
      bits 63:53. */
  datatype Attrs = Attrs(lo: nat, hi: nat) {
    predicate Valid() { lo < 0x1000 && lo % 4 == 3 && hi < 0x800 }
  }

  /** A descriptor for the output address pa. */
  function Word(pa: nat, a: Attrs, contig: bool): nat {
    pa + a.lo + (if contig then CONTIG_BIT else 0) + a.hi * UPPER_UNIT
  }

  /** PTP_PADDR: bits 47:12 without the bits below the page size. */
  function PtpPaddr(g: Granule, w: nat): nat {
    w % TWO48 - w % TWO48 % g.PageSize()
  }

  /** The attributes of a descriptor: bits 11:0 and bits 63:53. */
  function AttrsOf(w: nat): Attrs { Attrs(w % 0x1000, w / UPPER_UNIT) }

  predicate IsContig(w: nat) { w / CONTIG_BIT % 2 == 1 }

  predicate PtpValid(w: nat) { w % 2 == 1 }

  predicate PtpBlock(w: nat) { w % 4 == 1 }

  predicate PteValid(w: nat) { w % 4 == 3 }

  ghost predicate PageAddress(g: Granule, pa: nat) {
    pa % g.PageSize() == 0 && pa < TWO48
  }

  /** The fields of a descriptor can be read back from its word. */
  lemma WordFields(g: Granule, pa: nat, a: Attrs, contig: bool)
    requires PageAddress(g, pa) && a.Valid()
    ensures PtpPaddr(g, Word(pa, a, contig)) == pa
    ensures PteValid(Word(pa, a, contig)) && PtpValid(Word(pa, a, contig)) && !PtpBlock(Word(pa, a, contig))
    ensures Word(pa, a, contig) != 0
    ensures IsContig(Word(pa, a, contig)) == contig
    ensures AttrsOf(Word(pa, a, contig)) == a
  {
    hide IsContig, PtpPaddr, Word;
    SmallPage(g, pa);
    AttrBits(pa, a, contig);
    ContigBit(pa + a.lo, contig, a.hi);
    SameWord(pa, a, contig);
    FieldsOfWord(g, pa, a.lo, (if contig then 16 else 0) + a.hi * 32);
  }

  lemma FieldsOfWord(g: Granule, pa: nat, lo: nat, k: nat)
    requires PageAddress(g, pa) && pa % 0x1000 == 0 && lo < 0x1000 && lo % 4 == 3
    ensures var w := pa + lo + k * TWO48;
            PtpPaddr(g, w) == pa && PteValid(w) && PtpValid(w) && !PtpBlock(w) && w != 0
  {
    Bits.DivMod(pa, 0x1000);
    Bits.DivMod(lo, 4);
    LowBits(pa / 0x1000, lo / 4, k);
    OffsetBits(g, pa, lo);
  }

  lemma SameWord(pa: nat, a: Attrs, contig: bool)
    ensures Word(pa, a, contig) == pa + a.lo + ((if contig then 16 else 0) + a.hi * 32) * TWO48
  {
  }

  lemma SmallPage(g: Granule, pa: nat)
    requires pa % g.PageSize() == 0
    ensures pa % 0x1000 == 0
  {
    var k := pa / g.PageSize();
    if g.Page64K? {
      Bits.DivModUnique(pa, 0x1000, 16 * k, 0);
    }
  }

  lemma AttrBits(pa: nat, a: Attrs, contig: bool)
    requires pa % 0x1000 == 0 && pa < TWO48 && a.Valid()
    ensures AttrsOf(Word(pa, a, contig)) == a
  {
    var w, c := Word(pa, a, contig), if contig then 1 else 0;
    Bits.DivModUnique(w, 0x1000, pa / 0x1000 + 0x100_0000_0000 * c + 0x200_0000_0000 * a.hi, a.lo);
    Bits.DivModUnique(w, UPPER_UNIT, a.hi, pa + a.lo + c * CONTIG_BIT);
  }

  /** A word whose bits 1:0 are set, of the page p and the attribute bits l. */
  lemma LowBits(p: nat, l: nat, k: nat)
    requires 0x1000 * p < TWO48 && l < 0x400
    ensures var low := 0x1000 * p + 4 * l + 3; var w := low + k * TWO48;
            w % TWO48 == low && w % 4 == 3 && w % 2 == 1
  {
    var low := 0x1000 * p + 4 * l + 3;
    var w := low + k * TWO48;
    Bits.DivModUnique(w, TWO48, k, low);
    Bits.DivModUnique(w, 4, 0x400 * p + l + 0x4000_0000_0000 * k, 3);
    Bits.DivModUnique(w, 2, 0x800 * p + 2 * l + 1 + 0x8000_0000_0000 * k, 1);
  }

  lemma OffsetBits(g: Granule, pa: nat, lo: nat)
    requires pa % g.PageSize() == 0 && lo < 0x1000
    ensures (pa + lo) - (pa + lo) % g.PageSize() == pa
  {
  }

  lemma ContigBit(low: nat, contig: bool, hi: nat)
    requires low < CONTIG_BIT
    ensures IsContig(low + (if contig then CONTIG_BIT else 0) + hi * UPPER_UNIT) == contig
  {
    var c := if contig then 1 else 0;
    var w := low + c * CONTIG_BIT + hi * UPPER_UNIT;
    assert w == low + CONTIG_BIT * (c + 2 * hi);
    assert w / CONTIG_BIT == c + 2 * hi;
  }

  // Address fields. A page number counts pages from the start of the half of the address space
  // that the level 1 table describes.

  function PageOf(g: Granule, va: nat): nat { va % g.Window() / g.PageSize() }

  function Offset(g: Granule, va: nat): nat { va % g.PageSize() }

  // __L1_IDX (bits 38:30), __L2_IDX (bits 29:21) and __L3_IDX (bits 20:12); with large pages
  // __L2_IDX_64K (bits 41:29) and __L3_IDX_64K (bits 28:16)
  function L1Index(va: nat): nat { va / 0x4000_0000 % 512 }
  function L2Index(g: Granule, va: nat): nat {
    if g.Page4K? then va / 0x20_0000 % 512 else va / 0x2000_0000 % 8192
  }
  function L3Index(g: Granule, va: nat): nat {
    if g.Page4K? then va / 0x1000 % 512 else va / 0x1_0000 % 8192
  }

  /** The index fields are the digits of the page number. */
  lemma IndexDigits(g: Granule, va: nat)
    ensures PageOf(g, va) < g.Pages()
    ensures L3Index(g, va) == PageOf(g, va) % g.Slots()
    ensures g.Page4K? ==> L2Index(g, va) == PageOf(g, va) / 512 % 512 && L1Index(va) == PageOf(g, va) / 512 / 512
    ensures g.Page64K? ==> L2Index(g, va) == PageOf(g, va) / 8192
  {
    if g.Page4K? {
      Digits4K(va);
    } else {
      Digits64K(va);
    }
  }

  lemma Digits4K(va: nat)
    ensures var q := va % 0x80_0000_0000 / 0x1000;
            && q < 0x800_0000
            && va / 0x1000 % 512 == q % 512
            && va / 0x20_0000 % 512 == q / 512 % 512
            && va / 0x4000_0000 % 512 == q / 512 / 512
  {
    var a := va / 0x1000;
    FieldOf(va, 0x1000, 0x800_0000);
    DivDiv(va, 0x1000, 512);
    DivDiv(va, 0x20_0000, 512);
    FieldOf(a, 512, 0x4_0000);
    LowDigit(a, 512, 0x4_0000);
    FieldOf(a / 512, 512, 512);
    LowDigit(a / 512, 512, 512);
  }

  lemma Digits64K(va: nat)
    ensures var q := va % 0x400_0000_0000 / 0x1_0000;
            && q < 0x400_0000
            && va / 0x1_0000 % 8192 == q % 8192
            && va / 0x2000_0000 % 8192 == q / 8192
  {
    var a := va / 0x1_0000;
    FieldOf(va, 0x1_0000, 0x400_0000);
    DivDiv(va, 0x1_0000, 8192);
    FieldOf(a, 8192, 8192);
    LowDigit(a, 8192, 8192);
  }

  lemma DivDiv(x: nat, a: nat, b: nat)
    requires a > 0 && b > 0
    ensures a * b > 0 && x / a / b == x / (a * b)
  {
    var h, l, k, m := Bits.Fields(x, a, b);
  }

  /** x % (a b) % a == x % a. */
  lemma LowDigit(x: nat, a: nat, b: nat)
    requires a > 0 && b > 0
    ensures a * b > 0 && x % (a * b) % a == x % a
  {
    var h, l, k, m := Bits.Fields(x, a, b);
  }

  /** Dropping the low part of a bit field: x % (a b) / a == x / a % b. */
  lemma FieldOf(x: nat, a: nat, b: nat)
    requires a > 0 && b > 0
    ensures a * b > 0 && x % (a * b) / a == x / a % b
  {
    var h, l, k, m := Bits.Fields(x, a, b);
  }
}
