/** The translation tables in memory, the walk elf_vaddr_to_paddr makes through them, and the tree
    they form. */
module TableTree {
  import opened Bits
  import opened Descriptors
  import opened Wrappers

  /** Where a table hangs: below a half of the address space (low: TTBR0, high: TTBR1), at level 2
      of the 4K layout, or at level 3, counted through. */
  datatype Node = Root(high: bool) | Mid(high: bool, i: nat) | Leaf(high: bool, t: nat)

  /** What does not change: the page size, the split of the address space, the two level 1 tables
      and the slots that aarch64_map_init points back into the tables. */
  datatype Layout = Layout(g: Granule, userEnd: nat, startupBase: nat, low: nat, high: nat, self: set<(Node, nat)>)
  {
    function RootOf(h: bool): nat { if h then high else low }

    function IsHigh(va: nat): bool { va >= userEnd }

    /** Each half fits the window its level 1 table describes. */
    ghost predicate Valid() {
      && 0 < userEnd <= g.Window()
      && TWO64 - g.Window() <= startupBase < TWO64
      && low != high
    }

    /** The address lies in one of the halves; the others crash. */
    predicate InHalf(va: nat) { va < userEnd || startupBase <= va < TWO64 }
  }

  type Tables = map<nat, seq<nat>>

  /** The node that slot j of a table leads to. */
  function Child(g: Granule, n: Node, j: nat): Node
    requires !n.Leaf?
  {
    match n
    case Root(h) => if g.Page4K? then Mid(h, j) else Leaf(h, j)
    case Mid(h, i) => Leaf(h, 512 * i + j)
  }

  ghost predicate TableAt(L: Layout, tables: Tables, f: nat) {
    f in tables && |tables[f]| == L.g.Slots() && PageAddress(L.g, f)
  }

  /** Slot j of n is empty, or leads to the table of the child node, and no other. */
  ghost predicate SlotRight(L: Layout, tables: Tables, at: map<Node, nat>, n: Node, j: nat)
    requires n in at && TableAt(L, tables, at[n]) && j < L.g.Slots() && !n.Leaf?
  {
    var w := tables[at[n]][j];
    var c := Child(L.g, n, j);
    && (w == 0 <==> c !in at)
    && (w != 0 ==> PtpValid(w) && !PtpBlock(w) && PtpPaddr(L.g, w) == at[c])
  }

  ghost predicate InRange(L: Layout, n: Node) {
    match n
    case Root(h) => true
    case Mid(h, i) => L.g.Page4K? && i < 512
    case Leaf(h, t) => t < L.g.Pages() / L.g.Slots()
  }

  /** The tables form a tree: distinct nodes have distinct tables, every slot outside the self map
      leads to its own child or is empty, and every table but the roots hangs on its parent. */
  ghost predicate Tree(L: Layout, tables: Tables, at: map<Node, nat>) {
    && Placed(L, tables, at)
    && SlotsRight(L, tables, at)
    && Parented(L, at)
  }

  /** The roots are where they were put, and nodes and tables correspond one to one. */
  ghost predicate Placed(L: Layout, tables: Tables, at: map<Node, nat>) {
    && (forall h :: Root(h) in at && at[Root(h)] == L.RootOf(h))
    && (forall n :: n in at ==> TableAt(L, tables, at[n]) && InRange(L, n))
    && (forall n, m :: n in at && m in at && n != m ==> at[n] != at[m])
    && tables.Keys == at.Values
  }

  ghost predicate SlotsRight(L: Layout, tables: Tables, at: map<Node, nat>) {
    forall n, j :: n in at && !n.Leaf? && 0 <= j < L.g.Slots() && (n, j) !in L.self ==>
      TableAt(L, tables, at[n]) && SlotRight(L, tables, at, n, j)
  }

  ghost predicate Parented(L: Layout, at: map<Node, nat>) {
    forall n :: n in at && !n.Root? ==> ParentOf(L.g, n) in at && (ParentOf(L.g, n), SlotOf(L.g, n)) !in L.self
  }

  function ParentOf(g: Granule, n: Node): (p: Node)
    requires !n.Root?
    ensures !p.Leaf?
  {
    match n
    case Mid(h, i) => Root(h)
    case Leaf(h, t) => if g.Page4K? then Mid(h, t / 512) else Root(h)
  }

  function SlotOf(g: Granule, n: Node): nat
    requires !n.Root?
  {
    match n
    case Mid(h, i) => i
    case Leaf(h, t) => if g.Page4K? then t % 512 else t
  }

  lemma ChildOfParent(L: Layout, n: Node)
    requires !n.Root? && InRange(L, n)
    ensures Child(L.g, ParentOf(L.g, n), SlotOf(L.g, n)) == n
    ensures SlotOf(L.g, n) < L.g.Slots()
  {
  }

  lemma ChildUnique(g: Granule, n: Node, j: nat, m: Node, k: nat)
    requires !n.Leaf? && !m.Leaf? && j < g.Slots() && k < g.Slots()
    requires Child(g, n, j) == Child(g, m, k)
    requires (n.Mid? || m.Mid?) ==> g.Page4K?
    ensures n == m && j == k
  {
  }

  /** In a tree every table but a root is reached from exactly one slot outside the self map. */
  lemma OneSlotPerTable(L: Layout, tables: Tables, at: map<Node, nat>, c: Node)
    requires Tree(L, tables, at) && c in at && !c.Root?
    ensures var n, j := ParentOf(L.g, c), SlotOf(L.g, c);
            && n in at && j < L.g.Slots() && (n, j) !in L.self
            && tables[at[n]][j] != 0 && PtpPaddr(L.g, tables[at[n]][j]) == at[c]
    ensures forall m, k :: m in at && !m.Leaf? && 0 <= k < L.g.Slots() && (m, k) !in L.self
              && tables[at[m]][k] != 0 && PtpPaddr(L.g, tables[at[m]][k]) == at[c]
              ==> m == ParentOf(L.g, c) && k == SlotOf(L.g, c)
  {
    ChildOfParent(L, c);
    assert SlotRight(L, tables, at, ParentOf(L.g, c), SlotOf(L.g, c));
    forall m, k | m in at && !m.Leaf? && 0 <= k < L.g.Slots() && (m, k) !in L.self
              && tables[at[m]][k] != 0 && PtpPaddr(L.g, tables[at[m]][k]) == at[c]
      ensures m == ParentOf(L.g, c) && k == SlotOf(L.g, c)
    {
      assert SlotRight(L, tables, at, m, k);
      assert Child(L.g, m, k) == c;
      ChildUnique(L.g, m, k, ParentOf(L.g, c), SlotOf(L.g, c));
    }
  }

  // The walk

  /** The descriptor a walk ends at, and the address it gives. */
  datatype Found = Found(word: nat, pa: nat)

  /** elf_vaddr_to_paddr for an address in one of the halves; None is NULL_PADDR. */
  function Walk(L: Layout, tables: Tables, va: nat): Option<nat>
    requires L.Valid()
  {
    var f := Lookup(L, tables, va);
    if f.None? then None else Some(f.value.pa)
  }

  /** The walk, with the descriptor at its end. */
  function Lookup(L: Layout, tables: Tables, va: nat): Option<Found>
    requires L.Valid()
  {
    var l1 := L.RootOf(L.IsHigh(va));
    if l1 !in tables || |tables[l1]| != L.g.Slots() then None
    else if L.g.Page64K? then Lookup2(L, tables, va, l1)
    else
      IndexDigits(L.g, va);
      var pa := tables[l1][L1Index(va)];
      if !PtpValid(pa) then None
      else if PtpBlock(pa) then Some(Found(pa, PtpPaddr(L.g, pa) + va % 0x4000_0000))
      else Lookup2(L, tables, va, PtpPaddr(L.g, pa))
  }

  function Lookup2(L: Layout, tables: Tables, va: nat, l2: nat): Option<Found>
  {
    if l2 !in tables || |tables[l2]| != L.g.Slots() then None
    else
      IndexDigits(L.g, va);
      var pa := tables[l2][L2Index(L.g, va)];
      if !PtpValid(pa) then None
      else if PtpBlock(pa) then
        Some(Found(pa, PtpPaddr(L.g, pa) + (if L.g.Page4K? then va % 0x20_0000 else va % 0x2000_0000)))
      else Lookup3(L, tables, va, PtpPaddr(L.g, pa))
  }

  function Lookup3(L: Layout, tables: Tables, va: nat, l3: nat): Option<Found>
  {
    if l3 !in tables || |tables[l3]| != L.g.Slots() then None
    else
      IndexDigits(L.g, va);
      var pa := tables[l3][L3Index(L.g, va)];
      if !PteValid(pa) then None else Some(Found(pa, PtpPaddr(L.g, pa) + Offset(L.g, va)))
  }

  /** A block descriptor, which startup's tables have none of, maps its whole range in one piece: two
      megabytes or half a gigabyte from a level 2 table... */
  lemma DirectoryBlock(L: Layout, tables: Tables, va: nat, l2: nat, k: nat)
    requires l2 in tables && |tables[l2]| == L.g.Slots()
    requires va % (if L.g.Page4K? then 0x20_0000 else 0x2000_0000) == 0
    requires k < if L.g.Page4K? then 0x20_0000 else 0x2000_0000
    requires L2Index(L.g, va) < L.g.Slots() && PtpBlock(tables[l2][L2Index(L.g, va)])
    ensures var w := tables[l2][L2Index(L.g, va)];
            Lookup2(L, tables, va + k, l2) == Some(Found(w, PtpPaddr(L.g, w) + k))
  {
    hide PtpPaddr, PtpBlock, PtpValid, L2Index;
    BlockIsValid(tables[l2][L2Index(L.g, va)]);
    SameDirectorySlot(L.g, va, k);
  }

  lemma BlockIsValid(w: nat)
    requires PtpBlock(w)
    ensures PtpValid(w)
  {
  }

  lemma SameDirectorySlot(g: Granule, va: nat, k: nat)
    requires va % (if g.Page4K? then 0x20_0000 else 0x2000_0000) == 0
    requires k < if g.Page4K? then 0x20_0000 else 0x2000_0000
    ensures L2Index(g, va + k) == L2Index(g, va)
    ensures (va + k) % (if g.Page4K? then 0x20_0000 else 0x2000_0000) == k
  {
    if g.Page4K? {
      Bits.DivModUnique(va + k, 0x20_0000, va / 0x20_0000, k);
    } else {
      Bits.DivModUnique(va + k, 0x2000_0000, va / 0x2000_0000, k);
    }
  }

  /** ...and a gigabyte from the level 1 table (4K). */
  lemma TopBlock(L: Layout, tables: Tables, va: nat, k: nat)
    requires L.Valid() && L.g.Page4K? && va % 0x4000_0000 == 0 && k < 0x4000_0000
    requires L.IsHigh(va) == L.IsHigh(va + k)
    requires var l1 := L.RootOf(L.IsHigh(va));
             && l1 in tables && |tables[l1]| == L.g.Slots()
             && L1Index(va) < 512 && PtpBlock(tables[l1][L1Index(va)])
    ensures var w := tables[L.RootOf(L.IsHigh(va))][L1Index(va)];
            Lookup(L, tables, va + k) == Some(Found(w, PtpPaddr(L.g, w) + k))
  {
    hide PtpPaddr, PtpBlock, PtpValid, L1Index, Lookup2;
    BlockIsValid(tables[L.RootOf(L.IsHigh(va))][L1Index(va)]);
    SameTopSlot(va, k);
  }

  lemma SameTopSlot(va: nat, k: nat)
    requires va % 0x4000_0000 == 0 && k < 0x4000_0000
    ensures L1Index(va + k) == L1Index(va) && (va + k) % 0x4000_0000 == k
  {
    Bits.DivModUnique(va + k, 0x4000_0000, va / 0x4000_0000, k);
  }

  /** The level 3 table that describes page q of a half, and the descriptor in it; a missing table
      is as good as an empty descriptor. */
  function LeafOf(g: Granule, h: bool, q: nat): Node { Leaf(h, q / g.Slots()) }

  ghost function PageWord(L: Layout, tables: Tables, at: map<Node, nat>, h: bool, q: nat): nat
  {
    var n := LeafOf(L.g, h, q);
    if n in at && at[n] in tables && |tables[at[n]]| == L.g.Slots() then tables[at[n]][q % L.g.Slots()] else 0
  }

  /** The way to page q leads through no slot of the self map. */
  ghost predicate Ordinary(L: Layout, h: bool, q: nat) {
    var n := LeafOf(L.g, h, q);
    var p := ParentOf(L.g, n);
    && (p, SlotOf(L.g, n)) !in L.self
    && (p.Mid? ==> (ParentOf(L.g, p), SlotOf(L.g, p)) !in L.self)
  }

  /** Every table but a root hangs on its parent. */
  lemma ParentThere(L: Layout, tables: Tables, at: map<Node, nat>, n: Node)
    requires Tree(L, tables, at) && n in at
    ensures TableAt(L, tables, at[n]) && (!n.Root? ==> ParentOf(L.g, n) in at)
  {
  }

  lemma SlotThere(L: Layout, tables: Tables, at: map<Node, nat>, p: Node, j: nat)
    requires Tree(L, tables, at) && p in at && !p.Leaf? && j < L.g.Slots() && (p, j) !in L.self
    ensures TableAt(L, tables, at[p]) && SlotRight(L, tables, at, p, j)
  {
  }

  lemma LeafInRange(L: Layout, h: bool, q: nat)
    requires q < L.g.Pages()
    ensures InRange(L, LeafOf(L.g, h, q))
  {
  }

  /** What the tree says along the way from the leaf of page q up to its parent. */
  lemma LeafFacts(L: Layout, tables: Tables, at: map<Node, nat>, h: bool, q: nat)
    requires Tree(L, tables, at) && Ordinary(L, h, q) && q < L.g.Pages()
    ensures var n := LeafOf(L.g, h, q);
            var p, j := ParentOf(L.g, n), SlotOf(L.g, n);
            && j < L.g.Slots() && Child(L.g, p, j) == n
            && (n in at ==> p in at && TableAt(L, tables, at[n]))
            && (p in at ==> TableAt(L, tables, at[p]) && SlotRight(L, tables, at, p, j))
  {
    hide Tree, TableAt, SlotRight, ParentOf, SlotOf, Child;
    var n := LeafOf(L.g, h, q);
    LeafInRange(L, h, q);
    ChildOfParent(L, n);
    if n in at {
      ParentThere(L, tables, at, n);
    }
    if ParentOf(L.g, n) in at {
      SlotThere(L, tables, at, ParentOf(L.g, n), SlotOf(L.g, n));
    }
  }

  /** The same for the level above, which only the 4K layout has. */
  lemma MidFacts(L: Layout, tables: Tables, at: map<Node, nat>, h: bool, i: nat)
    requires Tree(L, tables, at) && L.g.Page4K? && i < 512 && (Root(h), i) !in L.self
    ensures Root(h) in at && at[Root(h)] == L.RootOf(h) && TableAt(L, tables, at[Root(h)])
    ensures SlotRight(L, tables, at, Root(h), i)
  {
  }

  /** Outside the self map the walk reads the page's descriptor and nothing else decides. */
  lemma WalkReadsPageWord(L: Layout, tables: Tables, at: map<Node, nat>, va: nat)
    requires L.Valid() && Tree(L, tables, at)
    requires Ordinary(L, L.IsHigh(va), PageOf(L.g, va))
    ensures var w := PageWord(L, tables, at, L.IsHigh(va), PageOf(L.g, va));
            Lookup(L, tables, va) == if PteValid(w) then Some(Found(w, PtpPaddr(L.g, w) + Offset(L.g, va))) else None
  {
    hide Tree, TableAt, SlotRight, Lookup, Lookup2, PageWord, PteValid, PtpPaddr, Ordinary;
    var h, q := L.IsHigh(va), PageOf(L.g, va);
    IndexDigits(L.g, va);
    LeafFacts(L, tables, at, h, q);
    if L.g.Page64K? {
      Walk64ReadsPageWord(L, tables, at, va);
    } else {
      UpperSlot(L, h, q);
      MidFacts(L, tables, at, h, L1Index(va));
      Walk1ReadsPageWord(L, tables, at, va, h, ParentOf(L.g, LeafOf(L.g, h, q)));
    }
  }

  /** In the 4K layout the leaf's parent hangs in the slot that bits 38:30 name. */
  lemma UpperSlot(L: Layout, h: bool, q: nat)
    requires L.g.Page4K? && q < L.g.Pages() && Ordinary(L, h, q)
    ensures q / 512 / 512 < 512 && (Root(h), q / 512 / 512) !in L.self
    ensures Child(L.g, Root(h), q / 512 / 512) == ParentOf(L.g, LeafOf(L.g, h, q))
  {
  }

  /** The whole walk of the 64K layout. */
  lemma Walk64ReadsPageWord(L: Layout, tables: Tables, at: map<Node, nat>, va: nat)
    requires L.Valid() && L.g.Page64K? && Tree(L, tables, at)
    requires var h, n := L.IsHigh(va), LeafOf(L.g, L.IsHigh(va), PageOf(L.g, va));
             && ParentOf(L.g, n) == Root(h) && SlotOf(L.g, n) < L.g.Slots() && Child(L.g, Root(h), SlotOf(L.g, n)) == n
             && (n in at ==> TableAt(L, tables, at[n]))
             && (Root(h) in at ==> TableAt(L, tables, at[Root(h)]) && SlotRight(L, tables, at, Root(h), SlotOf(L.g, n)))
    ensures var w := PageWord(L, tables, at, L.IsHigh(va), PageOf(L.g, va));
            Lookup(L, tables, va) == if PteValid(w) then Some(Found(w, PtpPaddr(L.g, w) + Offset(L.g, va))) else None
  {
    hide SlotRight, Lookup2, PageWord, PteValid, PtpPaddr, SlotsRight, Parented, PageOf, LeafOf;
    var h := L.IsHigh(va);
    assert Root(h) in at && at[Root(h)] == L.RootOf(h);
    Walk2ReadsPageWord(L, tables, at, va, h, Root(h));
  }

  /** The whole walk of the 4K layout. */
  lemma Walk1ReadsPageWord(L: Layout, tables: Tables, at: map<Node, nat>, va: nat, h: bool, p: Node)
    requires L.Valid() && L.g.Page4K? && h == L.IsHigh(va)
    requires p == ParentOf(L.g, LeafOf(L.g, h, PageOf(L.g, va)))
    requires var n := LeafOf(L.g, h, PageOf(L.g, va)); n in at ==> p in at && TableAt(L, tables, at[n])
    requires Root(h) in at && at[Root(h)] == L.RootOf(h) && TableAt(L, tables, at[Root(h)])
    requires L1Index(va) < 512 && SlotRight(L, tables, at, Root(h), L1Index(va))
    requires Child(L.g, Root(h), L1Index(va)) == p
    requires p in at ==> TableAt(L, tables, at[p])
    requires var j := SlotOf(L.g, LeafOf(L.g, h, PageOf(L.g, va)));
             && j < L.g.Slots() && Child(L.g, p, j) == LeafOf(L.g, h, PageOf(L.g, va))
             && (p in at ==> SlotRight(L, tables, at, p, j))
    ensures var w := PageWord(L, tables, at, h, PageOf(L.g, va));
            Lookup(L, tables, va) == if PteValid(w) then Some(Found(w, PtpPaddr(L.g, w) + Offset(L.g, va))) else None
  {
    IndexDigits(L.g, va);
    if p in at {
      Walk2ReadsPageWord(L, tables, at, va, h, p);
    }
  }

  /** The second level of the walk, from the table of the leaf's parent. */
  lemma Walk2ReadsPageWord(L: Layout, tables: Tables, at: map<Node, nat>, va: nat, h: bool, p: Node)
    requires L.Valid() && p in at && TableAt(L, tables, at[p])
    requires p == ParentOf(L.g, LeafOf(L.g, h, PageOf(L.g, va)))
    requires var n := LeafOf(L.g, h, PageOf(L.g, va)); n in at ==> TableAt(L, tables, at[n])
    requires var j := SlotOf(L.g, LeafOf(L.g, h, PageOf(L.g, va)));
             && j < L.g.Slots()
             && SlotRight(L, tables, at, p, j) && Child(L.g, p, j) == LeafOf(L.g, h, PageOf(L.g, va))
    ensures var w := PageWord(L, tables, at, h, PageOf(L.g, va));
            Lookup2(L, tables, va, at[p]) ==
              if PteValid(w) then Some(Found(w, PtpPaddr(L.g, w) + Offset(L.g, va))) else None
  {
    IndexDigits(L.g, va);
  }
}
