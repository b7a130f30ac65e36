/** The two ways aarch64_map changes the translation tables, and what they leave alone. */
module TableUpdates {
  import opened Descriptors
  import opened TableTree

  function EmptyTable(g: Granule): (t: seq<nat>)
    ensures |t| == g.Slots() && forall i :: 0 <= i < |t| ==> t[i] == 0
  {
    seq(g.Slots(), i => 0)
  }

  /** A new, empty table at f is hung into slot j of n. */
  ghost predicate CanHang(L: Layout, tables: Tables, at: map<Node, nat>, n: Node, j: nat, f: nat, w: nat) {
    && Tree(L, tables, at)
    && n in at && !n.Leaf? && j < L.g.Slots() && (n, j) !in L.self
    && Child(L.g, n, j) !in at && InRange(L, Child(L.g, n, j))
    && f !in tables && PageAddress(L.g, f)
    && w != 0 && PtpValid(w) && !PtpBlock(w) && PtpPaddr(L.g, w) == f
  }

  function Hung(L: Layout, tables: Tables, at: map<Node, nat>, n: Node, j: nat, f: nat, w: nat): Tables
    requires n in at && at[n] in tables && j < |tables[at[n]]|
  {
    var t: seq<nat> := tables[at[n]][j := w];
    tables[f := EmptyTable(L.g)][at[n] := t]
  }

  lemma HungSlots(L: Layout, tables: Tables, at: map<Node, nat>, n: Node, j: nat, f: nat, w: nat, m: Node, k: nat)
    requires CanHang(L, tables, at, n, j, f, w)
    requires var at' := at[Child(L.g, n, j) := f]; m in at' && !m.Leaf? && k < L.g.Slots() && (m, k) !in L.self
    ensures var at' := at[Child(L.g, n, j) := f];
            TableAt(L, Hung(L, tables, at, n, j, f, w), at'[m])
            && SlotRight(L, Hung(L, tables, at, n, j, f, w), at', m, k)
  {
    var c := Child(L.g, n, j);
    var d := Child(L.g, m, k);
    assert InRange(L, m) && InRange(L, n);
    if m == c {
      // the new table is empty, and nothing hangs below a node that was not there
      if d in at {
        HungParent(L, c, k);
        assert false;
      }
    } else {
      assert SlotRight(L, tables, at, m, k);
      assert at[m] in tables;
      if m != n || k != j {
        if d == c {
          ChildUnique(L.g, m, k, n, j);
        }
      }
    }
  }

  lemma HangKeepsTree(L: Layout, tables: Tables, at: map<Node, nat>, n: Node, j: nat, f: nat, w: nat)
    requires CanHang(L, tables, at, n, j, f, w)
    ensures Tree(L, Hung(L, tables, at, n, j, f, w), at[Child(L.g, n, j) := f])
  {
    var at' := at[Child(L.g, n, j) := f];
    var tables' := Hung(L, tables, at, n, j, f, w);
    HangKeepsPlaces(L, tables, at, n, j, f, w);
    forall m, k | m in at' && !m.Leaf? && 0 <= k < L.g.Slots() && (m, k) !in L.self
      ensures TableAt(L, tables', at'[m]) && SlotRight(L, tables', at', m, k)
    {
      HungSlots(L, tables, at, n, j, f, w, m, k);
    }
    HungParent(L, n, j);
  }

  lemma HangKeepsPlaces(L: Layout, tables: Tables, at: map<Node, nat>, n: Node, j: nat, f: nat, w: nat)
    requires CanHang(L, tables, at, n, j, f, w)
    ensures Placed(L, Hung(L, tables, at, n, j, f, w), at[Child(L.g, n, j) := f])
  {
    hide SlotsRight, Parented;
    assert forall m :: m in at ==> at[m] in tables;
    ValuesWith(at, Child(L.g, n, j), f);
  }

  lemma ValuesWith(at: map<Node, nat>, c: Node, f: nat)
    requires c !in at
    ensures at[c := f].Values == at.Values + {f}
  {
    var at' := at[c := f];
    forall t ensures t in at'.Values <==> t in at.Values || t == f {
      if t in at.Values {
        var m :| m in at && at[m] == t;
        assert m in at' && at'[m] == t;
      }
      assert c in at' && at'[c] == f;
    }
  }

  lemma HungParent(L: Layout, n: Node, j: nat)
    requires !n.Leaf? && j < L.g.Slots() && InRange(L, n) && InRange(L, Child(L.g, n, j))
    ensures ParentOf(L.g, Child(L.g, n, j)) == n && SlotOf(L.g, Child(L.g, n, j)) == j
  {
  }

  lemma HangKeepsPageWord(L: Layout, tables: Tables, at: map<Node, nat>, n: Node, j: nat, f: nat, w: nat, h: bool,
                          q: nat)
    requires CanHang(L, tables, at, n, j, f, w)
    ensures PageWord(L, Hung(L, tables, at, n, j, f, w), at[Child(L.g, n, j) := f], h, q)
         == PageWord(L, tables, at, h, q)
  {
    var m := LeafOf(L.g, h, q);
    if m in at {
      assert TableAt(L, tables, at[m]) && at[m] != at[n];
    }
  }

  lemma HangKeepsAll(L: Layout, tables: Tables, at: map<Node, nat>, n: Node, j: nat, f: nat, w: nat)
    requires Tree(L, tables, at) && n in at && !n.Leaf? && j < L.g.Slots() && (n, j) !in L.self
    requires TableAt(L, tables, at[n]) && tables[at[n]][j] == 0 && InRange(L, Child(L.g, n, j))
    requires f !in tables && PageAddress(L.g, f)
    requires w != 0 && PtpValid(w) && !PtpBlock(w) && PtpPaddr(L.g, w) == f
    ensures CanHang(L, tables, at, n, j, f, w)
    ensures var c := Child(L.g, n, j);
            var tables', at' := Hung(L, tables, at, n, j, f, w), at[c := f];
            && Tree(L, tables', at')
            && forall h: bool, q: nat :: PageWord(L, tables', at', h, q) == PageWord(L, tables, at, h, q)
  {
    assert SlotRight(L, tables, at, n, j);
    HangKeepsTree(L, tables, at, n, j, f, w);
    forall h: bool, q: nat
      ensures PageWord(L, Hung(L, tables, at, n, j, f, w), at[Child(L.g, n, j) := f], h, q)
           == PageWord(L, tables, at, h, q)
    {
      HangKeepsPageWord(L, tables, at, n, j, f, w, h, q);
    }
  }

  /** A descriptor is written into a level 3 table. */
  function Written(tables: Tables, f: nat, k: nat, w: nat): Tables
    requires f in tables && k < |tables[f]|
  {
    var t: seq<nat> := tables[f][k := w];
    tables[f := t]
  }

  lemma WriteKeepsTree(L: Layout, tables: Tables, at: map<Node, nat>, n: Node, k: nat, w: nat)
    requires Tree(L, tables, at) && n in at && n.Leaf? && k < L.g.Slots()
    ensures TableAt(L, tables, at[n])
    ensures Tree(L, Written(tables, at[n], k, w), at)
  {
    hide SlotRight, Parented;
    assert TableAt(L, tables, at[n]);
    var tables' := Written(tables, at[n], k, w);
    forall m, j | m in at && !m.Leaf? && 0 <= j < L.g.Slots() && (m, j) !in L.self
      ensures TableAt(L, tables', at[m]) && SlotRight(L, tables', at, m, j)
    {
      SlotThere(L, tables, at, m, j);
      SelfWriteSlot(L, tables, at, n, k, w, m, j);
    }
  }

  /** A slot outside the self map is not the one that was written. */
  lemma SelfWriteSlot(L: Layout, tables: Tables, at: map<Node, nat>, n: Node, k: nat, w: nat, m: Node, j: nat)
    requires n in at && m in at && !m.Leaf? && k < L.g.Slots() && j < L.g.Slots() && (n != m ==> at[n] != at[m])
    requires TableAt(L, tables, at[n]) && TableAt(L, tables, at[m]) && SlotRight(L, tables, at, m, j)
    requires (n, k) != (m, j)
    ensures TableAt(L, Written(tables, at[n], k, w), at[m]) && SlotRight(L, Written(tables, at[n], k, w), at, m, j)
  {
  }

  /** The page that was written has the new descriptor, and no other page has changed. */
  lemma WriteSetsPageWord(L: Layout, tables: Tables, at: map<Node, nat>, h: bool, q: nat, w: nat, h': bool, x: nat)
    requires Tree(L, tables, at) && LeafOf(L.g, h, q) in at
    ensures TableAt(L, tables, at[LeafOf(L.g, h, q)])
    ensures PageWord(L, Written(tables, at[LeafOf(L.g, h, q)], q % L.g.Slots(), w), at, h', x)
         == if h' == h && x == q then w else PageWord(L, tables, at, h', x)
  {
    hide SlotsRight, Parented;
    var n, m := LeafOf(L.g, h, q), LeafOf(L.g, h', x);
    assert TableAt(L, tables, at[n]);
    if m in at && m != n {
      assert at[m] != at[n];
    }
  }

  // The tables that aarch64_map_init starts from

  /** The two level 1 tables; slot l1l1 of the high one holds the self map. */
  function FirstTables(g: Granule, low: nat, high: nat, l1l1: nat, l1pte: nat): Tables
    requires l1l1 < g.Slots()
  {
    var t: seq<nat> := EmptyTable(g)[l1l1 := l1pte];
    map[low := EmptyTable(g)][high := t]
  }

  function FirstNodes(low: nat, high: nat): map<Node, nat> { map[Root(false) := low, Root(true) := high] }

  lemma FirstTree(L: Layout, l1l1: nat, l1pte: nat)
    requires L.low != L.high && PageAddress(L.g, L.low) && PageAddress(L.g, L.high)
    requires l1l1 < L.g.Slots() && (Root(true), l1l1) in L.self
    ensures Tree(L, FirstTables(L.g, L.low, L.high, l1l1, l1pte), FirstNodes(L.low, L.high))
  {
    hide PageAddress;
    var tables, at := FirstTables(L.g, L.low, L.high, l1l1, l1pte), FirstNodes(L.low, L.high);
    assert Root(false) in at && Root(true) in at;
    assert tables.Keys == {L.low, L.high} == at.Values;
    forall n, j | n in at && !n.Leaf? && 0 <= j < L.g.Slots() && (n, j) !in L.self
      ensures TableAt(L, tables, at[n]) && SlotRight(L, tables, at, n, j)
    {
      assert tables[at[n]][j] == 0;
    }
  }

  /** A descriptor is written into a slot of the self map. */
  lemma SelfWriteKeepsTree(L: Layout, tables: Tables, at: map<Node, nat>, n: Node, k: nat, w: nat)
    requires Tree(L, tables, at) && n in at && !n.Leaf? && k < L.g.Slots() && (n, k) in L.self
    ensures TableAt(L, tables, at[n])
    ensures Tree(L, Written(tables, at[n], k, w), at)
  {
    hide SlotRight, Parented;
    assert TableAt(L, tables, at[n]);
    var tables' := Written(tables, at[n], k, w);
    forall m, j | m in at && !m.Leaf? && 0 <= j < L.g.Slots() && (m, j) !in L.self
      ensures TableAt(L, tables', at[m]) && SlotRight(L, tables', at, m, j)
    {
      SlotThere(L, tables, at, m, j);
      SelfWriteSlot(L, tables, at, n, k, w, m, j);
    }
  }

  // What every descriptor of a table says

  /** The slots of the self map are filled and lead back to the level 1 table of the high half, and
      every descriptor in a table but the last has the attributes of tables. */
  ghost predicate Linked(L: Layout, tables: Tables, at: map<Node, nat>, a: Attrs) {
    && (forall n, j :: (n, j) in L.self ==> n in at && !n.Leaf?)
    && (forall n, j :: n in at && !n.Leaf? && 0 <= j < L.g.Slots() && TableAt(L, tables, at[n]) ==>
          LinkRight(L, tables, at, n, j, a))
  }

  ghost predicate LinkRight(L: Layout, tables: Tables, at: map<Node, nat>, n: Node, j: nat, a: Attrs)
    requires n in at && TableAt(L, tables, at[n]) && j < L.g.Slots()
  {
    var w := tables[at[n]][j];
    && (w != 0 ==> AttrsOf(w) == a)
    && ((n, j) in L.self ==> w != 0 && PtpValid(w) && !PtpBlock(w) && PtpPaddr(L.g, w) == L.high)
  }

  lemma HangKeepsLinked(L: Layout, tables: Tables, at: map<Node, nat>, n: Node, j: nat, f: nat, w: nat, a: Attrs)
    requires CanHang(L, tables, at, n, j, f, w) && Linked(L, tables, at, a) && AttrsOf(w) == a
    ensures Linked(L, Hung(L, tables, at, n, j, f, w), at[Child(L.g, n, j) := f], a)
  {
    hide SlotsRight, Parented, AttrsOf, PtpValid, PtpBlock, PtpPaddr;
    var c := Child(L.g, n, j);
    var tables', at' := Hung(L, tables, at, n, j, f, w), at[c := f];
    forall m, k | m in at' && !m.Leaf? && 0 <= k < L.g.Slots() && TableAt(L, tables', at'[m])
      ensures LinkRight(L, tables', at', m, k, a)
    {
      if m != c {
        assert TableAt(L, tables, at[m]) && LinkRight(L, tables, at, m, k, a);
      }
    }
  }

  lemma WriteKeepsLinked(L: Layout, tables: Tables, at: map<Node, nat>, n: Node, k: nat, w: nat, a: Attrs)
    requires Tree(L, tables, at) && n in at && n.Leaf? && k < L.g.Slots() && Linked(L, tables, at, a)
    ensures TableAt(L, tables, at[n]) && Linked(L, Written(tables, at[n], k, w), at, a)
  {
    hide SlotsRight, Parented, AttrsOf, PtpValid, PtpBlock, PtpPaddr;
    assert TableAt(L, tables, at[n]);
    var tables' := Written(tables, at[n], k, w);
    forall m, j | m in at && !m.Leaf? && 0 <= j < L.g.Slots() && TableAt(L, tables', at[m])
      ensures LinkRight(L, tables', at, m, j, a)
    {
      assert TableAt(L, tables, at[m]) && LinkRight(L, tables, at, m, j, a);
    }
  }

  /** The tables aarch64_map_init sets up with large pages. */
  lemma FirstLinked(L: Layout, l1l1: nat, l1pte: nat, a: Attrs)
    requires L.low != L.high && PageAddress(L.g, L.low) && PageAddress(L.g, L.high)
    requires l1l1 < L.g.Slots() && L.self == {(Root(true), l1l1)}
    requires l1pte != 0 && PtpValid(l1pte) && !PtpBlock(l1pte) && PtpPaddr(L.g, l1pte) == L.high && AttrsOf(l1pte) == a
    ensures Linked(L, FirstTables(L.g, L.low, L.high, l1l1, l1pte), FirstNodes(L.low, L.high), a)
  {
    hide PageAddress, AttrsOf, PtpValid, PtpBlock, PtpPaddr;
  }

  /** With 4K pages there is a level 2 table as well, hung below slot l1l2, with a slot that leads
      back to the level 1 table. */
  function FirstDirectory(L: Layout, l1l1: nat, l1pte: nat, l1l2: nat, l2: nat, l2pte: nat, l2l2: nat): Tables
    requires l1l1 < L.g.Slots() && l1l2 < L.g.Slots() && l2l2 < L.g.Slots() && l2 != L.high && L.low != L.high
  {
    var t := FirstTables(L.g, L.low, L.high, l1l1, l1pte);
    Written(Hung(L, t, FirstNodes(L.low, L.high), Root(true), l1l2, l2, l2pte), l2, l2l2, l1pte)
  }

  lemma FirstDirectoryTree(L: Layout, l1l1: nat, l1pte: nat, l1l2: nat, l2: nat, l2pte: nat, l2l2: nat)
    requires L.g.Page4K? && L.low != L.high && l2 != L.low && l2 != L.high
    requires PageAddress(L.g, L.low) && PageAddress(L.g, L.high) && PageAddress(L.g, l2)
    requires l1l1 < 512 && l1l2 < 512 && l2l2 < 512 && l1l1 != l1l2
    requires L.self == {(Root(true), l1l1), (Mid(true, l1l2), l2l2)}
    requires l2pte != 0 && PtpValid(l2pte) && !PtpBlock(l2pte) && PtpPaddr(L.g, l2pte) == l2
    ensures var at := FirstNodes(L.low, L.high)[Mid(true, l1l2) := l2];
            && Tree(L, FirstDirectory(L, l1l1, l1pte, l1l2, l2, l2pte, l2l2), at)
            && FirstDirectory(L, l1l1, l1pte, l1l2, l2, l2pte, l2l2).Keys == {L.low, L.high, l2}
            && forall n :: n in at ==> !n.Leaf?
  {
    hide Tree, PtpValid, PtpBlock, PtpPaddr;
    var t, at := FirstTables(L.g, L.low, L.high, l1l1, l1pte), FirstNodes(L.low, L.high);
    FirstTree(L, l1l1, l1pte);
    HangKeepsAll(L, t, at, Root(true), l1l2, l2, l2pte);
    SelfWriteKeepsTree(L, Hung(L, t, at, Root(true), l1l2, l2, l2pte), at[Mid(true, l1l2) := l2], Mid(true, l1l2), l2l2,
                       l1pte);
  }

  lemma FirstDirectoryLinked(L: Layout, l1l1: nat, l1pte: nat, l1l2: nat, l2: nat, l2pte: nat, l2l2: nat, a: Attrs)
    requires L.g.Page4K? && L.low != L.high && l2 != L.low && l2 != L.high
    requires l1l1 < 512 && l1l2 < 512 && l2l2 < 512 && l1l1 != l1l2
    requires L.self == {(Root(true), l1l1), (Mid(true, l1l2), l2l2)}
    requires l1pte != 0 && PtpValid(l1pte) && !PtpBlock(l1pte) && PtpPaddr(L.g, l1pte) == L.high && AttrsOf(l1pte) == a
    requires AttrsOf(l2pte) == a
    ensures Linked(L, FirstDirectory(L, l1l1, l1pte, l1l2, l2, l2pte, l2l2),
                   FirstNodes(L.low, L.high)[Mid(true, l1l2) := l2], a)
  {
    hide PageAddress, AttrsOf, PtpValid, PtpBlock, PtpPaddr;
    var tables := FirstDirectory(L, l1l1, l1pte, l1l2, l2, l2pte, l2l2);
    var at := FirstNodes(L.low, L.high)[Mid(true, l1l2) := l2];
    forall n, j | n in at && !n.Leaf? && 0 <= j < L.g.Slots() && TableAt(L, tables, at[n])
      ensures LinkRight(L, tables, at, n, j, a)
    {
    }
  }
}
