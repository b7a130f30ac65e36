/** syspage_memory.c: many sections share one buffer. Growing one shifts all that follow, together
    with the registered pointers into them. */
module Arena {
  import opened Bits

  /** A section as startup keeps it: its address and its size. */
  datatype Sect = Sect(p: nat, size: nat) {
    function End(): nat { p + size }
  }

  /** callouts.c's patch_data: the slot a callout is registered under, and its data. */
  datatype Patch = Patch(owner: nat, data: nat)

  /** The page so far. The first section is the system page header. */
  datatype State = State(base: nat, sects: seq<Sect>, bytes: seq<Byte>, fixed: nat, max: nat, owners: seq<Patch>)

  /** ROUND(x, sizeof(uint64_t)). */
  function Round8(x: nat): nat { UpTo(x, 8) }

  lemma Round8Exactly(x: nat, n: nat)
    ensures n == Round8(x) <==> x <= n < x + 8 && n % 8 == 0
  {
    var q := (x + 7) / 8;
    DivMod(x + 7, 8);
    DivModUnique(8 * q, 8, q, 0);
    assert Round8(x) == 8 * q;
  }

  function Zeros(n: nat): seq<Byte> { seq(n, _ => 0) }

  /** Sum of the section sizes. */
  function Sum(sects: seq<Sect>): nat {
    if sects == [] then 0 else Sum(sects[..|sects| - 1]) + sects[|sects| - 1].size
  }

  predicate Apart(a: Sect, b: Sect) { a.End() <= b.p || b.End() <= a.p }

  /** Section i holds the byte at address x. */
  predicate Holds(s: State, i: nat, x: nat) { i < |s.sects| && s.sects[i].p <= x < s.sects[i].End() }

  ghost predicate Inside(s: State) {
    forall i :: 0 <= i < |s.sects| ==> s.base <= s.sects[i].p && s.sects[i].End() <= s.base + |s.bytes|
  }

  ghost predicate AllApart(s: State) {
    forall i, j :: 0 <= i < j < |s.sects| ==> Apart(s.sects[i], s.sects[j])
  }

  ghost predicate Covered(s: State) {
    forall x: nat :: s.base <= x < s.base + |s.bytes| ==> Held(s, x)
  }

  ghost predicate Held(s: State, x: nat) { exists i: nat :: Holds(s, i, x) }

  /** The sections tile the page: every byte lies in exactly one. */
  ghost predicate Tiled(s: State) {
    Inside(s) && AllApart(s) && Covered(s) && Sum(s.sects) == |s.bytes|
  }

  /** What a section contains. */
  function Content(s: State, i: nat): seq<Byte>
    requires i < |s.sects| && s.base <= s.sects[i].p && s.sects[i].End() <= s.base + |s.bytes|
  {
    s.bytes[s.sects[i].p - s.base..s.sects[i].End() - s.base]
  }

  // ---- grow ----

  /** A section after section i has grown by add. */
  function Shifted(sects: seq<Sect>, i: nat, add: nat, j: nat): Sect
    requires i < |sects| && j < |sects|
  {
    var c := sects[j];
    if j == i then Sect(c.p, c.size + add)
    else if c.p >= sects[i].End() then Sect(c.p + add, c.size)
    else c
  }

  /** callout_reloc_data: a registered pointer into [from, from + len) moves along. */
  function Relocated(o: Patch, from: nat, len: nat, diff: int): Patch
    requires from <= o.owner < from + len ==> o.owner + diff >= 0
  {
    if from <= o.owner < from + len then o.(owner := o.owner + diff) else o
  }

  /** grow_syspage_section, without the check of the maximum. */
  function Grow(s: State, i: nat, add: nat): State
    requires i < |s.sects| && s.base <= s.sects[i].End() <= s.base + |s.bytes|
  {
    var bottom := s.sects[i].End();
    var b := bottom - s.base;
    s.(sects := seq(|s.sects|, j requires 0 <= j < |s.sects| => Shifted(s.sects, i, add, j)),
       bytes := s.bytes[..b] + Zeros(add) + s.bytes[b..],
       owners := seq(|s.owners|, q requires 0 <= q < |s.owners| => Relocated(s.owners[q], bottom, |s.bytes| - b, add)))
  }

  lemma {:induction false} SumUpdate(a: seq<Sect>, b: seq<Sect>, i: nat, add: nat)
    requires |a| == |b| && i < |a|
    requires forall j :: 0 <= j < |a| ==> b[j].size == a[j].size + if j == i then add else 0
    ensures Sum(b) == Sum(a) + add
  {
    var n := |a| - 1;
    if i == n {
      SumSame(a[..n], b[..n]);
    } else {
      SumUpdate(a[..n], b[..n], i, add);
    }
  }

  lemma {:induction false} SumSame(a: seq<Sect>, b: seq<Sect>)
    requires |a| == |b| && forall j :: 0 <= j < |a| ==> b[j].size == a[j].size
    ensures Sum(b) == Sum(a)
  {
    if a != [] {
      SumSame(a[..|a| - 1], b[..|a| - 1]);
    }
  }

  lemma ShiftKeepsApart(s: State, i: nat, add: nat, j: nat, k: nat)
    requires Tiled(s) && i < |s.sects| && j < |s.sects| && k < |s.sects| && j != k
    ensures Apart(Shifted(s.sects, i, add, j), Shifted(s.sects, i, add, k))
  {
    hide Sum, Covered;
    assert forall a, b :: 0 <= a < |s.sects| && 0 <= b < |s.sects| && a != b ==> Apart(s.sects[a], s.sects[b]);
  }

  /** A section that holds a byte at or behind the end of another starts there too. */
  lemma HolderMoves(s: State, i: nat, j: nat, x: nat)
    requires AllApart(s) && i < |s.sects| && Holds(s, j, x) && x >= s.sects[i].End()
    ensures j != i && s.sects[j].p >= s.sects[i].End()
  {
    assert Apart(s.sects[i], s.sects[j]);
  }

  lemma GrowCovers(s: State, i: nat, add: nat, x: nat)
    requires Tiled(s) && i < |s.sects| && s.base <= x < s.base + |s.bytes| + add
    ensures Held(Grow(s, i, add), x)
  {
    hide Sum;
    var t, bottom := Grow(s, i, add), s.sects[i].End();
    if x < bottom {
      assert Held(s, x);
      var j: nat :| Holds(s, j, x);
      assert Holds(t, j, x);
    } else if x < bottom + add {
      assert Holds(t, i, x);
    } else {
      assert Held(s, x - add);
      var j: nat :| Holds(s, j, x - add);
      HolderMoves(s, i, j, x - add);
      assert Holds(t, j, x);
    }
  }

  /** What Grow does to the sections and the length. */
  lemma GrownShape(s: State, i: nat, add: nat)
    requires Inside(s) && i < |s.sects|
    ensures var t := Grow(s, i, add);
            && t.base == s.base && |t.bytes| == |s.bytes| + add && |t.sects| == |s.sects|
            && forall j :: 0 <= j < |s.sects| ==> t.sects[j] == Shifted(s.sects, i, add, j)
  {
  }

  lemma GrownSectionsInside(s: State, t: State, i: nat, add: nat)
    requires Inside(s) && i < |s.sects| && t.base == s.base && |t.bytes| == |s.bytes| + add
    requires |t.sects| == |s.sects| && forall j :: 0 <= j < |s.sects| ==> t.sects[j] == Shifted(s.sects, i, add, j)
    ensures Inside(t)
  {
  }

  /** Growing any section keeps the tiling. */
  lemma GrowTiled(s: State, i: nat, add: nat)
    requires Tiled(s) && i < |s.sects|
    ensures Tiled(Grow(s, i, add)) && |Grow(s, i, add).bytes| == |s.bytes| + add
  {
    var t := Grow(s, i, add);
    GrownShape(s, i, add);
    hide Held, Covered, Grow, Sum;
    SumUpdate(s.sects, t.sects, i, add);
    GrownSectionsInside(s, t, i, add);
    hide Inside;
    forall j, k | 0 <= j < k < |t.sects| ensures Apart(t.sects[j], t.sects[k]) {
      ShiftKeepsApart(s, i, add, j, k);
    }
    hide Apart, Shifted;
    forall x: nat | t.base <= x < t.base + |t.bytes| ensures Held(t, x) {
      GrowCovers(s, i, add, x);
    }
    CoveredByAll(t);
  }

  lemma CoveredByAll(t: State)
    requires forall x: nat :: t.base <= x < t.base + |t.bytes| ==> Held(t, x)
    ensures Covered(t)
  {
  }

  /** Every section keeps its bytes; the one that grew has zeros behind them. */
  lemma GrowContent(s: State, i: nat, add: nat, j: nat)
    requires Tiled(s) && i < |s.sects| && j < |s.sects|
    requires Tiled(Grow(s, i, add))
    ensures Content(Grow(s, i, add), j) == Content(s, j) + if j == i then Zeros(add) else []
  {
    hide Sum, Covered;
    var b, c := s.sects[i].End() - s.base, s.sects[j];
    assert j != i ==> Apart(s.sects[i], c);
    Spliced(s.bytes, b, Zeros(add), c.p - s.base, c.End() - s.base);
  }

  /** Slices of a sequence with z inserted at b. */
  lemma Spliced(a: seq<Byte>, b: nat, z: seq<Byte>, lo: nat, hi: nat)
    requires b <= |a| && lo <= hi <= |a|
    ensures var t := a[..b] + z + a[b..];
            && (hi <= b ==> t[lo..hi] == a[lo..hi])
            && (hi == b ==> t[lo..hi + |z|] == a[lo..hi] + z)
            && (b <= lo ==> t[lo + |z|..hi + |z|] == a[lo..hi])
  {
  }

  // ---- set ----

  /** set_syspage_section: the section is put behind those set before, and grown. */
  function Set(s: State, i: nat, size: nat): State
    requires i < |s.sects| && s.fixed + s.sects[i].size <= |s.bytes|
  {
    Grow(Moved(s, i, size), i, size)
  }

  /** sect->p = base + fixed_size; fixed_size += size. */
  function Moved(s: State, i: nat, size: nat): State
    requires i < |s.sects|
  {
    s.(sects := s.sects[i := Sect(s.base + s.fixed, s.sects[i].size)], fixed := s.fixed + size)
  }

  /** No section but i lies across the address where set puts the next one. */
  ghost predicate Boundary(s: State, i: nat) {
    forall j :: 0 <= j < |s.sects| && j != i ==>
      s.sects[j].End() <= s.base + s.fixed || s.base + s.fixed <= s.sects[j].p
  }

  /** Moving an empty section to a boundary keeps the tiling. */
  lemma MovedTiled(s: State, i: nat, size: nat)
    requires Tiled(s) && i < |s.sects| && s.sects[i].size == 0 && s.fixed <= |s.bytes|
    requires Boundary(s, i)
    ensures Tiled(Moved(s, i, size))
  {
    var t := Moved(s, i, size);
    SumSame(s.sects, t.sects);
    forall x: nat | t.base <= x < t.base + |t.bytes| ensures Held(t, x) {
      assert Held(s, x);
      var j: nat :| Holds(s, j, x);
      assert Holds(t, j, x);
    }
  }

  /** Set keeps the tiling exactly when it puts the (empty) section between two others, not into
      one. */
  lemma SetTiled(s: State, i: nat, size: nat)
    requires Tiled(s) && i < |s.sects| && s.sects[i].size == 0 && s.fixed <= |s.bytes|
    ensures Tiled(Set(s, i, size)) <==> Boundary(s, i)
  {
    if Boundary(s, i) {
      MovedTiled(s, i, size);
      GrowTiled(Moved(s, i, size), i, size);
    } else {
      hide Sum;
      var t := Set(s, i, size);
      var j :| 0 <= j < |s.sects| && j != i
               && !(s.sects[j].End() <= s.base + s.fixed || s.base + s.fixed <= s.sects[j].p);
      assert !Apart(t.sects[i], t.sects[j]);
    }
  }

  /** A section that was set and then grown is cut in two by every later set. */
  lemma GrownFixedSection(s: State, i: nat, size: nat, add: nat, j: nat, more: nat)
    requires Tiled(s) && i < |s.sects| && j < |s.sects| && i != j && s.fixed <= |s.bytes| && Boundary(s, i)
    requires s.sects[i].size == 0 && s.sects[j].size == 0 && size > 0 && add > 0 && more > 0
    ensures var u := Grow(Set(s, i, size), i, add);
            Tiled(u) && u.fixed <= |u.bytes| && u.sects[j].size == 0 && !Tiled(Set(u, j, more))
  {
    hide Sum, Covered;
    var t := Set(s, i, size);
    SetTiled(s, i, size);
    MovedTiled(s, i, size);
    GrowTiled(Moved(s, i, size), i, size);
    GrowTiled(t, i, add);
    var u := Grow(t, i, add);
    assert u.sects[i] == Sect(s.base + s.fixed, size + add) && u.fixed == s.fixed + size;
    assert !Boundary(u, j);
    SetTiled(u, j, more);
  }
}
