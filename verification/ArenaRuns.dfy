/** Whole runs over the shared buffer refine a plain list of sections whose contents only their own
    operations touch. */
module ArenaRuns {
  import opened Bits
  import opened Arena
  import opened Wrappers

  /** A registered pointer by what it means: the slot k bytes into section i. */
  datatype Named = Named(i: nat, k: nat, data: nat)

  /** A section as its users see it: where in the page it begins, and what it contains. */
  datatype Part = Part(at: nat, bytes: seq<Byte>)

  datatype Page = Page(parts: seq<Part>, fixed: nat, patches: seq<Named>)

  datatype Op =
    | Extend(i: nat, add: nat)              // grow_syspage_section
    | Place(i: nat, size: nat)              // set_syspage_section
    | Write(i: nat, k: nat, b: seq<Byte>)   // stores into a section
    | Register(i: nat, k: nat, data: nat)   // callout_register_data, where it registers
    | Relocate(base: nat, max: nat)         // reloc_syspage_memory

  // ---- the simple machine ----

  /** The place for the next section to be set is between two sections, not inside one. */
  predicate Orderly(a: Page) {
    forall j :: 0 <= j < |a.parts| ==> Beside(a, j)
  }

  predicate Beside(a: Page, j: nat)
    requires j < |a.parts|
  {
    a.parts[j].at + |a.parts[j].bytes| <= a.fixed || a.fixed <= a.parts[j].at
  }

  /** What the calls themselves ask: sections and slots that exist, and only empty sections are set. */
  predicate Called(a: Page, op: Op) {
    match op
    case Extend(i, add) => i < |a.parts|
    case Place(i, size) => i < |a.parts| && a.parts[i].bytes == []
    case Write(i, k, b) => i < |a.parts| && k + |b| <= |a.parts[i].bytes|
    case Register(i, k, data) => i < |a.parts| && k < |a.parts[i].bytes|
    case Relocate(base, max) => true
  }

  /** ...and what setting a section asks besides. */
  predicate Allowed(a: Page, op: Op) { Called(a, op) && (op.Place? ==> Orderly(a)) }

  predicate Registered(ps: seq<Named>, i: nat, k: nat) { exists q :: 0 <= q < |ps| && ps[q].i == i && ps[q].k == k }

  function Overwrite(s: seq<Byte>, k: nat, b: seq<Byte>): seq<Byte>
    requires k + |b| <= |s|
  {
    s[..k] + b + s[k + |b|..]
  }

  /** Section i gets n zeros, and what lies behind it moves. */
  function Stretched(a: Page, i: nat, n: nat): Page
    requires i < |a.parts|
  {
    a.(parts := seq(|a.parts|, j requires 0 <= j < |a.parts| =>
                  if j == i then Part(a.parts[j].at, a.parts[j].bytes + Zeros(n))
                  else if a.parts[j].at >= a.parts[i].at + |a.parts[i].bytes| then
                    Part(a.parts[j].at + n, a.parts[j].bytes)
                  else a.parts[j]))
  }

  /** Section i begins where the next set section goes. */
  function Headed(a: Page, i: nat): Page
    requires i < |a.parts|
  {
    a.(parts := a.parts[i := Part(a.fixed, a.parts[i].bytes)])
  }

  function PageStep(a: Page, op: Op): Page
    requires Called(a, op)
  {
    match op
    case Extend(i, add) => Stretched(a, i, Round8(add))
    case Place(i, size) => Stretched(Headed(a, i), i, Round8(size)).(fixed := a.fixed + Round8(size))
    case Write(i, k, b) => a.(parts := a.parts[i := Part(a.parts[i].at, Overwrite(a.parts[i].bytes, k, b))])
    case Register(i, k, data) =>
      if Registered(a.patches, i, k) then a else a.(patches := [Named(i, k, data)] + a.patches)
    case Relocate(base, max) => a
  }

  // ---- the buffer ----

  /** The registered address o is that of byte k of section i. */
  predicate Names(s: State, o: nat, i: nat, k: nat) {
    i < |s.sects| && k < s.sects[i].size && o == s.sects[i].p + k
  }

  /** The buffer represents the page. */
  ghost predicate Represents(s: State, a: Page) {
    && Tiled(s)
    && |a.parts| == |s.sects|
    && (forall i :: 0 <= i < |s.sects| ==> a.parts[i] == Part(s.sects[i].p - s.base, Content(s, i)))
    && a.fixed == s.fixed <= |s.bytes|
    && |a.patches| == |s.owners|
    && (forall q :: 0 <= q < |s.owners| ==>
          s.owners[q].data == a.patches[q].data && Names(s, s.owners[q].owner, a.patches[q].i, a.patches[q].k))
  }

  predicate Taken(os: seq<Patch>, o: nat) { exists q :: 0 <= q < |os| && os[q].owner == o }

  /** reloc_syspage_memory. */
  function Relocation(s: State, base: nat, max: nat): State
    requires Inside(s)
  {
    var diff := base - s.base;
    s.(base := base, max := max,
       sects := seq(|s.sects|, i requires 0 <= i < |s.sects| => Sect(s.sects[i].p + diff, s.sects[i].size)),
       owners := seq(|s.owners|, q requires 0 <= q < |s.owners| => Relocated(s.owners[q], s.base, |s.bytes|, diff)))
  }

  function Store(s: State, i: nat, k: nat, b: seq<Byte>): State
    requires Inside(s) && i < |s.sects| && k + |b| <= s.sects[i].size
  {
    s.(bytes := Overwrite(s.bytes, s.sects[i].p - s.base + k, b))
  }

  /** What the code does; None where it crashes because the page would exceed its maximum. */
  function Step(s: State, a: Page, op: Op): Option<State>
    requires Represents(s, a) && Allowed(a, op)
  {
    match op
    case Extend(i, add) => if add > 0 && |s.bytes| + Round8(add) > s.max then None else Some(Grow(s, i, Round8(add)))
    case Place(i, size) =>
      if size > 0 && |s.bytes| + Round8(size) > s.max then None else Some(Set(s, i, Round8(size)))
    case Write(i, k, b) => Some(Store(s, i, k, b))
    case Register(i, k, data) =>
      var o := s.sects[i].p + k;
      Some(if Taken(s.owners, o) then s else s.(owners := [Patch(o, data)] + s.owners))
    case Relocate(base, max) => Some(Relocation(s, base, max))
  }

  // ---- one step ----

  lemma GrowNames(s: State, i: nat, add: nat, q: nat, j: nat, k: nat)
    requires Tiled(s) && i < |s.sects| && q < |s.owners| && Names(s, s.owners[q].owner, j, k)
    ensures Names(Grow(s, i, add), Grow(s, i, add).owners[q].owner, j, k)
  {
    hide Sum, Covered;
    var o := s.owners[q].owner;
    assert Holds(s, j, o);
    if o >= s.sects[i].End() {
      HolderMoves(s, i, j, o);
    }
  }

  lemma ExtendRefines(s: State, a: Page, i: nat, n: nat)
    requires Represents(s, a) && i < |a.parts|
    ensures Represents(Grow(s, i, n), Stretched(a, i, n))
  {
    hide Covered, Apart, Sum, Content, Names;
    var t, b := Grow(s, i, n), Stretched(a, i, n);
    GrowTiled(s, i, n);
    GrownShape(s, i, n);
    ContentLength(s, i);
    forall j | 0 <= j < |s.sects| ensures b.parts[j] == Part(t.sects[j].p - t.base, Content(t, j)) {
      GrowContent(s, i, n, j);
    }
    forall q | 0 <= q < |s.owners| ensures Names(t, t.owners[q].owner, b.patches[q].i, b.patches[q].k) {
      GrowNames(s, i, n, q, a.patches[q].i, a.patches[q].k);
    }
  }

  lemma ContentLength(s: State, i: nat)
    requires Inside(s) && i < |s.sects|
    ensures |Content(s, i)| == s.sects[i].size
  {
  }

  /** The page's own test is the one on the buffer. */
  lemma OrderlyIsBoundary(s: State, a: Page, i: nat)
    requires Represents(s, a) && i < |a.parts| && a.parts[i].bytes == []
    ensures Orderly(a) <==> Boundary(s, i)
    ensures s.sects[i].size == 0
  {
    hide Sum, Covered, AllApart, Names, Content;
    ContentLength(s, i);
    forall j | 0 <= j < |s.sects| && j != i
      ensures Beside(a, j) <==> s.sects[j].End() <= s.base + s.fixed || s.base + s.fixed <= s.sects[j].p
    {
      ContentLength(s, j);
    }
    assert Beside(a, i);
  }

  lemma MovedContent(s: State, i: nat, j: nat)
    requires Inside(s) && s.fixed <= |s.bytes| && i < |s.sects| && s.sects[i].size == 0 && j < |s.sects|
    ensures Inside(Moved(s, i, 0)) && Content(Moved(s, i, 0), j) == Content(s, j)
  {
  }

  lemma MovedNames(s: State, i: nat, o: nat, j: nat, k: nat)
    requires i < |s.sects| && s.sects[i].size == 0 && Names(s, o, j, k)
    ensures Names(Moved(s, i, 0), o, j, k)
  {
  }

  lemma MovedRepresents(s: State, a: Page, i: nat)
    requires Represents(s, a) && Allowed(a, Place(i, 0))
    ensures Represents(Moved(s, i, 0), Headed(a, i))
  {
    hide Sum, Covered, AllApart, Apart, Names, Content, Orderly;
    OrderlyIsBoundary(s, a, i);
    MovedTiled(s, i, 0);
    var t, b := Moved(s, i, 0), Headed(a, i);
    forall j | 0 <= j < |s.sects| ensures b.parts[j] == Part(t.sects[j].p - t.base, Content(t, j)) {
      MovedContent(s, i, j);
    }
    forall q | 0 <= q < |s.owners| ensures Names(t, s.owners[q].owner, a.patches[q].i, a.patches[q].k) {
      MovedNames(s, i, s.owners[q].owner, a.patches[q].i, a.patches[q].k);
    }
  }

  lemma SetIsGrow(s: State, i: nat, n: nat)
    requires Inside(s) && s.fixed <= |s.bytes| && i < |s.sects| && s.sects[i].size == 0
    ensures Set(s, i, n) == Grow(Moved(s, i, 0), i, n).(fixed := s.fixed + n)
  {
  }

  lemma PlaceRefines(s: State, a: Page, i: nat, size: nat)
    requires Represents(s, a) && Allowed(a, Place(i, size)) && s.sects[i].size == 0
    ensures Represents(Set(s, i, Round8(size)), PageStep(a, Place(i, size)))
  {
    hide AllApart, Covered, Sum, Names, Grow, Moved, Set, Stretched, Orderly;
    var n := Round8(size);
    SetIsGrow(s, i, n);
    MovedRepresents(s, a, i);
    ExtendRefines(Moved(s, i, 0), Headed(a, i), i, n);
    GrowLength(Moved(s, i, 0), i, n);
    Refixed(Grow(Moved(s, i, 0), i, n), Stretched(Headed(a, i), i, n), s.fixed + n);
  }

  lemma GrowLength(s: State, i: nat, n: nat)
    requires Inside(s) && i < |s.sects|
    ensures |Grow(s, i, n).bytes| == |s.bytes| + n && Grow(s, i, n).fixed == s.fixed
  {
  }

  /** fixed concerns nothing but the next section to be set. */
  lemma Refixed(s: State, a: Page, fixed: nat)
    requires Represents(s, a) && fixed <= |s.bytes|
    ensures Represents(s.(fixed := fixed), a.(fixed := fixed))
  {
    hide Sum, Apart, Covered, Content;
    var t := s.(fixed := fixed);
    SameTiling(s, t);
    forall j | 0 <= j < |t.sects| ensures Content(t, j) == Content(s, j) {
      SameContent(s, t, j);
    }
    forall q | 0 <= q < |s.owners| ensures Names(t, s.owners[q].owner, a.patches[q].i, a.patches[q].k) {
      assert Names(s, s.owners[q].owner, a.patches[q].i, a.patches[q].k);
    }
  }

  /** Setting an empty section leaves a page exactly if the place for it is between two sections. */
  lemma PlaceExactly(s: State, a: Page, i: nat, size: nat)
    requires Represents(s, a) && Called(a, Place(i, size))
    ensures s.sects[i].size == 0
    ensures (exists b :: Represents(Set(s, i, Round8(size)), b)) <==> Orderly(a)
  {
    hide Round8, Set, PageStep, Orderly;
    ContentLength(s, i);
    OrderlyIsBoundary(s, a, i);
    SetTiled(s, i, Round8(size));
    if Orderly(a) {
      PlaceRefines(s, a, i, size);
    }
  }

  lemma WriteRefines(s: State, a: Page, i: nat, k: nat, b: seq<Byte>)
    requires Represents(s, a) && Allowed(a, Write(i, k, b))
    ensures Represents(Store(s, i, k, b), PageStep(a, Write(i, k, b)))
  {
    hide Sum, Covered;
    var t := Store(s, i, k, b);
    assert |Content(s, i)| == s.sects[i].size;
    assert Covered(t) by { StoreCovers(s, t); }
    forall j | 0 <= j < |s.sects|
      ensures PageStep(a, Write(i, k, b)).parts[j] == Part(t.sects[j].p - t.base, Content(t, j))
    {
      StoreContent(s, i, k, b, j);
    }
  }

  lemma StoreCovers(s: State, t: State)
    requires Covered(s) && t.base == s.base && t.sects == s.sects && |t.bytes| == |s.bytes|
    ensures Covered(t)
  {
    forall x: nat | t.base <= x < t.base + |t.bytes| ensures Held(t, x) {
      assert Held(s, x);
      var j: nat :| Holds(s, j, x);
      assert Holds(t, j, x);
    }
  }

  lemma StoreContent(s: State, i: nat, k: nat, b: seq<Byte>, j: nat)
    requires Inside(s) && AllApart(s) && i < |s.sects| && k + |b| <= s.sects[i].size && j < |s.sects|
    ensures Content(Store(s, i, k, b), j) == if j == i then Overwrite(Content(s, i), k, b) else Content(s, j)
  {
    hide Overwrite;
    var at, lo, hi := s.sects[i].p - s.base + k, s.sects[j].p - s.base, s.sects[j].End() - s.base;
    if j == i {
      OverwriteIn(s.bytes, at, b, lo, hi);
    } else {
      assert Apart(s.sects[i], s.sects[j]);
      OverwriteOut(s.bytes, at, b, lo, hi);
    }
  }

  lemma OverwriteIn(s: seq<Byte>, at: nat, b: seq<Byte>, lo: nat, hi: nat)
    requires lo <= at && at + |b| <= hi <= |s|
    ensures |Overwrite(s, at, b)| == |s| && Overwrite(s, at, b)[lo..hi] == Overwrite(s[lo..hi], at - lo, b)
  {
  }

  lemma OverwriteOut(s: seq<Byte>, at: nat, b: seq<Byte>, lo: nat, hi: nat)
    requires at + |b| <= |s| && lo <= hi <= |s| && (hi <= at || at + |b| <= lo)
    ensures |Overwrite(s, at, b)| == |s| && Overwrite(s, at, b)[lo..hi] == s[lo..hi]
  {
    var t := Overwrite(s, at, b);
    assert forall x :: 0 <= x < at || at + |b| <= x < |s| ==> t[x] == s[x];
  }

  /** Different slots have different addresses. */
  lemma NamesUnique(s: State, o: nat, i: nat, k: nat, j: nat, l: nat)
    requires AllApart(s) && Names(s, o, i, k)
    ensures Names(s, o, j, l) <==> i == j && k == l
  {
    assert i < j < |s.sects| ==> Apart(s.sects[i], s.sects[j]);
    assert j < i < |s.sects| ==> Apart(s.sects[j], s.sects[i]);
  }

  /** Registered already, by address or by slot. */
  lemma TakenIsRegistered(s: State, a: Page, i: nat, k: nat)
    requires Represents(s, a) && i < |s.sects| && k < s.sects[i].size
    ensures Taken(s.owners, s.sects[i].p + k) <==> Registered(a.patches, i, k)
  {
    hide Sum, Covered, Content;
    var o := s.sects[i].p + k;
    forall q | 0 <= q < |s.owners|
      ensures s.owners[q].owner == o <==> a.patches[q].i == i && a.patches[q].k == k
    {
      NamesUnique(s, s.owners[q].owner, a.patches[q].i, a.patches[q].k, i, k);
      assert Names(s, o, i, k);
      NamesUnique(s, o, i, k, a.patches[q].i, a.patches[q].k);
    }
  }

  lemma RegisterRefines(s: State, a: Page, i: nat, k: nat, data: nat)
    requires Represents(s, a) && Allowed(a, Register(i, k, data))
    ensures Represents(Step(s, a, Register(i, k, data)).value, PageStep(a, Register(i, k, data)))
  {
    hide Sum, AllApart;
    ContentLength(s, i);
    TakenIsRegistered(s, a, i, k);
    var o := s.sects[i].p + k;
    if !Taken(s.owners, o) {
      NewOwner(s, a, Patch(o, data), Named(i, k, data));
    }
  }

  /** The tiling is a matter of the sections and the number of bytes. */
  lemma SameTiling(s: State, t: State)
    requires Tiled(s) && t.base == s.base && t.sects == s.sects && |t.bytes| == |s.bytes|
    ensures Tiled(t)
  {
    hide Sum, Apart;
    StoreCovers(s, t);
  }

  lemma SameContent(s: State, t: State, j: nat)
    requires Inside(s) && j < |s.sects| && t.base == s.base && t.sects == s.sects && t.bytes == s.bytes
    ensures Content(t, j) == Content(s, j)
  {
  }

  lemma NewOwner(s: State, a: Page, o: Patch, n: Named)
    requires Represents(s, a) && Names(s, o.owner, n.i, n.k) && o.data == n.data
    ensures Represents(s.(owners := [o] + s.owners), a.(patches := [n] + a.patches))
  {
    hide Sum, Covered, AllApart, Content;
    var t := s.(owners := [o] + s.owners);
    SameTiling(s, t);
    forall j | 0 <= j < |s.sects| ensures Content(t, j) == Content(s, j) {
      SameContent(s, t, j);
    }
    forall q | 0 <= q < |t.owners|
      ensures Names(t, t.owners[q].owner, (([n] + a.patches)[q]).i, ([n] + a.patches)[q].k)
    {
      assert q > 0 ==> Names(s, s.owners[q - 1].owner, a.patches[q - 1].i, a.patches[q - 1].k);
    }
  }

  lemma RelocateRefines(s: State, a: Page, base: nat, max: nat)
    requires Represents(s, a)
    ensures Represents(Relocation(s, base, max), a)
  {
    hide Sum;
    var t := Relocation(s, base, max);
    SumSame(s.sects, t.sects);
    forall x: nat | t.base <= x < t.base + |t.bytes| ensures Held(t, x) {
      var y := x - base + s.base;
      assert Held(s, y);
      var j: nat :| Holds(s, j, y);
      assert Holds(t, j, x);
    }
    forall j | 0 <= j < |s.sects| ensures Content(t, j) == Content(s, j) {
    }
    forall q | 0 <= q < |s.owners| ensures Names(t, t.owners[q].owner, a.patches[q].i, a.patches[q].k) {
      assert Names(s, s.owners[q].owner, a.patches[q].i, a.patches[q].k);
      assert Inside(s) ==> s.sects[a.patches[q].i].End() <= s.base + |s.bytes|;
    }
  }

  /** One operation on the buffer is the operation on the page. */
  lemma StepRefines(s: State, a: Page, op: Op)
    requires Represents(s, a) && Allowed(a, op)
    ensures Step(s, a, op).Some? ==> Represents(Step(s, a, op).value, PageStep(a, op))
  {
    hide AllApart, Covered, Sum, Names, Content, Stretched, Orderly;
    match op
    case Extend(i, add) => ExtendRefines(s, a, i, Round8(add));
    case Place(i, size) => ContentLength(s, i); PlaceRefines(s, a, i, size);
    case Write(i, k, b) => WriteRefines(s, a, i, k, b);
    case Register(i, k, data) => RegisterRefines(s, a, i, k, data);
    case Relocate(base, max) => RelocateRefines(s, a, base, max);
  }

  // ---- runs ----

  predicate AllAllowed(a: Page, ops: seq<Op>)
    decreases |ops|
  {
    ops == [] || (Allowed(a, ops[0]) && AllAllowed(PageStep(a, ops[0]), ops[1..]))
  }

  function PageRun(a: Page, ops: seq<Op>): Page
    requires AllAllowed(a, ops)
    decreases |ops|
  {
    if ops == [] then a else PageRun(PageStep(a, ops[0]), ops[1..])
  }

  /** The buffer after a run; None if some operation crashed. */
  ghost function Run(s: State, a: Page, ops: seq<Op>): Option<State>
    requires AllAllowed(a, ops) && Represents(s, a)
    decreases |ops|
  {
    if ops == [] then Some(s)
    else
      var t := Step(s, a, ops[0]);
      StepRefines(s, a, ops[0]);
      if t.None? then None else Run(t.value, PageStep(a, ops[0]), ops[1..])
  }

  /** Whatever is grown, set, written, registered and relocated, in whatever order: the sections tile
      the page, contain what the simple page says, and every registered pointer still names its
      slot. */
  lemma {:induction false} RunRefines(s: State, a: Page, ops: seq<Op>)
    requires AllAllowed(a, ops) && Represents(s, a)
    ensures Run(s, a, ops).Some? ==> Represents(Run(s, a, ops).value, PageRun(a, ops))
    decreases |ops|
  {
    hide Represents, Step, PageStep;
    if ops != [] {
      StepRefines(s, a, ops[0]);
      var t := Step(s, a, ops[0]);
      if t.Some? {
        RunRefines(t.value, PageStep(a, ops[0]), ops[1..]);
      }
    }
  }

  /** After any such run, of all empty sections: setting one leaves a page exactly if the place for
      it is between two sections. So the runs above are all there are. */
  lemma RunExactly(s: State, a: Page, ops: seq<Op>, i: nat, size: nat)
    requires AllAllowed(a, ops) && Represents(s, a) && Run(s, a, ops).Some?
    requires Called(PageRun(a, ops), Place(i, size))
    ensures var t := Run(s, a, ops).value;
            && i < |t.sects| && t.fixed <= |t.bytes| && t.sects[i].size == 0
            && ((exists b :: Represents(Set(t, i, Round8(size)), b)) <==> Orderly(PageRun(a, ops)))
  {
    hide Tiled, Orderly, Set, Names, Content;
    RunRefines(s, a, ops);
    PlaceExactly(Run(s, a, ops).value, PageRun(a, ops), i, size);
  }

  // ---- runs that grow nothing in front ----

  /** Growing a section that lies behind the set ones, and setting one, keeps the place for the next
      between two sections. */
  lemma StaysOrderly(a: Page, op: Op)
    requires Orderly(a) && Called(a, op)
    requires op.Extend? && op.add > 0 ==> a.parts[op.i].at >= a.fixed
    ensures Orderly(PageStep(a, op))
  {
    var b := PageStep(a, op);
    forall j | 0 <= j < |b.parts| ensures Beside(b, j) {
      assert Beside(a, j);
    }
  }

  /** Every call of the run is a proper one, and no section in front of base + fixed is grown. */
  predicate GrowsBehind(a: Page, ops: seq<Op>)
    decreases |ops|
  {
    ops == [] ||
    (Called(a, ops[0]) && (ops[0].Extend? && ops[0].add > 0 ==> a.parts[ops[0].i].at >= a.fixed)
     && GrowsBehind(PageStep(a, ops[0]), ops[1..]))
  }

  /** Such runs need no test of where the next section goes. */
  lemma {:induction false} BehindIsAllowed(a: Page, ops: seq<Op>)
    requires Orderly(a) && GrowsBehind(a, ops)
    ensures AllAllowed(a, ops) && Orderly(PageRun(a, ops))
    decreases |ops|
  {
    hide Orderly, PageStep, Called;
    if ops != [] {
      StaysOrderly(a, ops[0]);
      BehindIsAllowed(PageStep(a, ops[0]), ops[1..]);
    }
  }

  /** The step grows no other section that ends in front of section i. */
  predicate NotInFront(a: Page, op: Op, i: nat)
    requires i < |a.parts| && Called(a, op)
  {
    op.Extend? && op.add > 0 && op.i != i ==> a.parts[op.i].at + |a.parts[op.i].bytes| > a.parts[i].at
  }

  predicate NoneInFront(a: Page, ops: seq<Op>, i: nat)
    requires AllAllowed(a, ops) && i < |a.parts|
    decreases |ops|
  {
    ops == [] || (NotInFront(a, ops[0], i) && NoneInFront(PageStep(a, ops[0]), ops[1..], i))
  }

  lemma StepStays(a: Page, op: Op, i: nat)
    requires Allowed(a, op) && i < |a.parts| && a.parts[i].at < a.fixed && a.parts[i].bytes != []
    requires NotInFront(a, op, i)
    ensures var b := PageStep(a, op);
            && |b.parts| == |a.parts| && b.parts[i].at == a.parts[i].at < b.fixed && b.parts[i].bytes != []
            && (!(op.Extend? && op.i == i) ==> |b.parts[i].bytes| == |a.parts[i].bytes|)
  {
  }

  /** A section that was set stays where it is, over every run that grows no section in front of it,
      and keeps its length, unless it is grown itself. */
  lemma {:induction false} PlacedStays(a: Page, ops: seq<Op>, i: nat)
    requires AllAllowed(a, ops) && i < |a.parts| && a.parts[i].at < a.fixed && a.parts[i].bytes != []
    requires NoneInFront(a, ops, i)
    ensures |PageRun(a, ops).parts| == |a.parts| && PageRun(a, ops).parts[i].at == a.parts[i].at
    ensures (forall q :: 0 <= q < |ops| ==> !(ops[q].Extend? && ops[q].i == i)) ==>
              |PageRun(a, ops).parts[i].bytes| == |a.parts[i].bytes|
    decreases |ops|
  {
    hide PageStep, Called, Orderly;
    if ops != [] {
      StepStays(a, ops[0], i);
      PlacedStays(PageStep(a, ops[0]), ops[1..], i);
    }
  }

  /** Sections begin at multiples of eight and have such sizes, and so does the place for the next. */
  predicate WordAligned(a: Page) {
    && a.fixed % 8 == 0
    && forall j :: 0 <= j < |a.parts| ==> a.parts[j].at % 8 == 0 && |a.parts[j].bytes| % 8 == 0
  }

  lemma StepAligned(a: Page, op: Op)
    requires WordAligned(a) && Called(a, op)
    ensures WordAligned(PageStep(a, op))
  {
    hide Round8;
    if op.Extend? {
      Round8Exactly(op.add, Round8(op.add));
      SumOfWords(a, Round8(op.add));
    } else if op.Place? {
      Round8Exactly(op.size, Round8(op.size));
      SumOfWords(a, Round8(op.size));
    }
  }

  lemma SumOfWords(a: Page, n: nat)
    requires WordAligned(a) && n % 8 == 0
    ensures (a.fixed + n) % 8 == 0
    ensures forall j :: 0 <= j < |a.parts| ==> (a.parts[j].at + n) % 8 == 0 && (|a.parts[j].bytes| + n) % 8 == 0
  {
  }

  /** Over every run that stays so, whatever sizes are asked for. */
  lemma {:induction false} RunAligned(a: Page, ops: seq<Op>)
    requires WordAligned(a) && AllAllowed(a, ops)
    ensures WordAligned(PageRun(a, ops))
    decreases |ops|
  {
    hide PageStep, WordAligned, Orderly;
    if ops != [] {
      StepAligned(a, ops[0]);
      RunAligned(PageStep(a, ops[0]), ops[1..]);
    }
  }

  /** Without stores into it a section only gets zeros behind what it contains. */
  lemma {:induction false} OnlyZerosBehind(a: Page, ops: seq<Op>, i: nat)
    requires AllAllowed(a, ops) && i < |a.parts|
    requires forall q :: 0 <= q < |ops| ==> !(ops[q].Write? && ops[q].i == i)
    ensures |PageRun(a, ops).parts| == |a.parts|
    ensures exists n: nat :: PageRun(a, ops).parts[i].bytes == a.parts[i].bytes + Zeros(n)
    decreases |ops|
  {
    if ops == [] {
      assert a.parts[i].bytes == a.parts[i].bytes + Zeros(0);
    } else {
      var b := PageStep(a, ops[0]);
      OnlyZerosBehind(b, ops[1..], i);
      var n: nat :| PageRun(a, ops).parts[i].bytes == b.parts[i].bytes + Zeros(n);
      var m: nat := |b.parts[i].bytes| - |a.parts[i].bytes|;
      assert b.parts[i].bytes == a.parts[i].bytes + Zeros(m);
      assert PageRun(a, ops).parts[i].bytes == a.parts[i].bytes + Zeros(m + n);
    }
  }
}
