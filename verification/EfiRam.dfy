/** init_raminfo_efi: three passes over the sorted memory map that turn it into free memory. */
module EfiRam {
  import opened Bits
  import opened Ranges
  import opened RamList
  import opened RamSearch
  import opened EfiSort
  import opened Wrappers
  import R = RamRuns
  import B = BootRam

  const PAGE: nat := 0x1000

  /** The three groups of cases in the switch. */
  datatype Class = InUse | Conventional | Unusable

  function ClassOf(k: Kind): Class {
    match k
    case LoaderCode | LoaderData | BootServicesCode | BootServicesData
       | RuntimeServicesCode | RuntimeServicesData | AcpiReclaimMemory => InUse
    case ConventionalMemory => Conventional
    case Other => Unusable
  }

  function Memory(d: Desc): Range { Range(d.start, PAGE * d.pages) }

  ghost predicate ClassHas(ds: seq<Desc>, c: Class, x: int) {
    exists d :: d in ds && ClassOf(d.kind) == c && d.start <= x < Memory(d).End()
  }

  /** The addresses of all descriptors of a class. */
  ghost function ClassBytes(ds: seq<Desc>, c: Class): iset<int> { iset x: int | ClassHas(ds, c, x) }

  /** The addresses of all descriptors of some firmware types, and of all others. */
  ghost function KindBytes(ds: seq<Desc>, ks: set<Kind>): iset<int> { iset x: int | KindHas(ds, ks, x) }

  ghost predicate KindHas(ds: seq<Desc>, ks: set<Kind>, x: int) {
    exists d :: d in ds && d.kind in ks && d.start <= x < d.start + 0x1000 * d.pages
  }

  ghost function AllBut(ds: seq<Desc>, ks: set<Kind>): iset<int> { iset x: int | OtherHas(ds, ks, x) }

  ghost predicate OtherHas(ds: seq<Desc>, ks: set<Kind>, x: int) {
    exists d :: d in ds && d.kind !in ks && d.start <= x < d.start + 0x1000 * d.pages
  }

  /** The firmware types behind the classes. */
  lemma ClassKinds(ds: seq<Desc>)
    ensures ClassBytes(ds, Conventional) == KindBytes(ds, {ConventionalMemory})
    ensures ClassBytes(ds, InUse) == AllBut(ds, {ConventionalMemory, Other})
    ensures UsableBytes(ds) == AllBut(ds, {Other})
    ensures AvoidBytes(ds) == AllBut(ds, {ConventionalMemory})
  {
    forall x: int
      ensures ClassHas(ds, Conventional, x) <==> KindHas(ds, {ConventionalMemory}, x)
      ensures ClassHas(ds, InUse, x) <==> OtherHas(ds, {ConventionalMemory, Other}, x)
      ensures ClassHas(ds, InUse, x) || ClassHas(ds, Conventional, x) <==> OtherHas(ds, {Other}, x)
      ensures ClassHas(ds, InUse, x) || ClassHas(ds, Unusable, x) <==> OtherHas(ds, {ConventionalMemory}, x)
    {
    }
  }

  lemma ClassPermuted(s: seq<Desc>, t: seq<Desc>, c: Class)
    requires multiset(s) == multiset(t)
    ensures ClassBytes(s, c) == ClassBytes(t, c)
  {
    assert forall d :: d in s <==> d in multiset(s);
    assert forall d :: d in t <==> d in multiset(t);
  }

  lemma ClassExtends(ds: seq<Desc>, k: nat, c: Class)
    requires k < |ds|
    ensures ClassBytes(ds[..k + 1], c) ==
            ClassBytes(ds[..k], c)
            + (if ClassOf(ds[k].kind) == c then R.Bytes(Memory(ds[k])) else iset{})
  {
    assert ds[..k + 1] == ds[..k] + [ds[k]];
    forall x
      ensures ClassHas(ds[..k + 1], c, x) <==>
              ClassHas(ds[..k], c, x)
              || (ClassOf(ds[k].kind) == c && Between(ds[k].start, x, Memory(ds[k]).End()))
    {
      if ClassHas(ds[..k + 1], c, x) {
        var d :| d in ds[..k + 1] && ClassOf(d.kind) == c && d.start <= x < Memory(d).End();
        assert d in ds[..k] || d == ds[k];
      }
      if ClassHas(ds[..k], c, x) {
        var d :| d in ds[..k] && ClassOf(d.kind) == c && d.start <= x < Memory(d).End();
        assert d in ds[..k + 1];
      }
    }
  }

  /** What the firmware guarantees of its map: real, nonempty, disjoint pieces of memory. */
  ghost predicate MapValid(ds: seq<Desc>) {
    && (forall d :: d in ds ==> d.pages > 0 && Memory(d).End() <= PADDR_LIMIT)
    && (forall d, e :: d in ds && e in ds && d != e ==>
          Memory(d).End() <= e.start || Memory(e).End() <= d.start)
    && (forall d :: d in ds ==> multiset(ds)[d] == 1)
  }

  lemma MapPermuted(s: seq<Desc>, t: seq<Desc>)
    requires multiset(s) == multiset(t) && MapValid(s)
    ensures MapValid(t)
  {
    assert forall d :: d in s <==> d in multiset(s);
    assert forall d :: d in t <==> d in multiset(t);
  }

  /** In order and disjoint: each descriptor ends before the next begins. */
  ghost predicate InOrder(ds: seq<Desc>) {
    && (forall i :: 0 <= i < |ds| ==> ds[i].pages > 0 && Memory(ds[i]).End() <= PADDR_LIMIT)
    && (forall i, j :: 0 <= i < j < |ds| ==> Memory(ds[i]).End() <= ds[j].start)
  }

  lemma TwiceIn(ds: seq<Desc>, i: nat, j: nat)
    requires i < j < |ds| && ds[i] == ds[j]
    ensures multiset(ds)[ds[i]] >= 2
  {
    assert ds == ds[..i] + [ds[i]] + ds[i + 1..];
    assert ds[j] == ds[i + 1..][j - i - 1];
    assert ds[j] in multiset(ds[i + 1..]);
    assert multiset(ds) == multiset(ds[..i]) + multiset{ds[i]} + multiset(ds[i + 1..]);
  }

  lemma SortedMapInOrder(ds: seq<Desc>)
    requires MapValid(ds) && Ascending(ds)
    ensures InOrder(ds)
  {
    forall i, j | 0 <= i < j < |ds| ensures Memory(ds[i]).End() <= ds[j].start {
      assert ds[i] in ds && ds[j] in ds;
      if ds[i] == ds[j] {
        TwiceIn(ds, i, j);
        assert false;
      }
    }
  }

  /** The memory pass 1 puts on the free list. */
  ghost function UsableBytes(ds: seq<Desc>): iset<int> {
    ClassBytes(ds, InUse) + ClassBytes(ds, Conventional)
  }

  /** The memory pass 0 avoids. */
  ghost function AvoidBytes(ds: seq<Desc>): iset<int> {
    ClassBytes(ds, InUse) + ClassBytes(ds, Unusable)
  }

  lemma AvoidExtends(ds: seq<Desc>, k: nat)
    requires k < |ds|
    ensures AvoidBytes(ds[..k + 1]) ==
            AvoidBytes(ds[..k]) + (if ClassOf(ds[k].kind) != Conventional then R.Bytes(Memory(ds[k])) else iset{})
  {
    ClassExtends(ds, k, InUse);
    ClassExtends(ds, k, Unusable);
  }

  /** The first call of pass 1, made before any run has been collected: nothing at address ~0. */
  const FIRST_CALL: Range := Range(TWO64 - 1, 0)

  /** The state of pass 1 after the descriptors ds. `done` are the runs already added, cur is the
      run being collected; together they are the usable memory in normal form. */
  ghost predicate Collecting(ds: seq<Desc>, done: seq<Range>, cur: Range) {
    if cur.size == 0 then done == [] && cur == FIRST_CALL && UsableBytes(ds) == iset{}
    else
      && Normal(done + [cur])
      && Within(done + [cur], PADDR_LIMIT)
      && Covered(done + [cur]) == UsableBytes(ds)
      && exists d :: d in ds && cur.End() == Memory(d).End()
  }

  lemma CollectNothing(ds: seq<Desc>, k: nat, done: seq<Range>, cur: Range)
    requires k < |ds| && Collecting(ds[..k], done, cur) && ClassOf(ds[k].kind) == Unusable
    ensures Collecting(ds[..k + 1], done, cur)
  {
    ClassExtends(ds, k, InUse);
    ClassExtends(ds, k, Conventional);
    assert forall d :: d in ds[..k] ==> d in ds[..k + 1];
  }

  lemma UsableExtends(ds: seq<Desc>, k: nat)
    requires k < |ds| && ClassOf(ds[k].kind) != Unusable
    ensures UsableBytes(ds[..k + 1]) == UsableBytes(ds[..k]) + R.Bytes(Memory(ds[k]))
  {
    ClassExtends(ds, k, InUse);
    ClassExtends(ds, k, Conventional);
  }

  /** The descriptor continues the current run. */
  lemma CollectMore(ds: seq<Desc>, k: nat, done: seq<Range>, cur: Range)
    requires k < |ds| && InOrder(ds) && Collecting(ds[..k], done, cur) && ClassOf(ds[k].kind) != Unusable
    requires ds[k].start == cur.addr + cur.size
    ensures cur.size > 0 && Collecting(ds[..k + 1], done, Range(cur.addr, cur.size + PAGE * ds[k].pages))
  {
    hide Normal, Within, Covered, UsableBytes;
    UsableExtends(ds, k);
    StretchRun(done, cur, PAGE * ds[k].pages);
    assert ds[k] in ds[..k + 1];
  }

  lemma StretchRun(done: seq<Range>, cur: Range, more: nat)
    requires Normal(done + [cur]) && Within(done + [cur], PADDR_LIMIT) && cur.End() + more <= PADDR_LIMIT
    ensures var l := done + [Range(cur.addr, cur.size + more)];
            && Normal(l) && Within(l, PADDR_LIMIT)
            && Covered(l) == Covered(done + [cur]) + Span(cur.End(), cur.End() + more)
  {
    StretchNormal(done, cur, more);
    StretchCover(done, cur, more);
  }

  lemma StretchNormal(done: seq<Range>, cur: Range, more: nat)
    requires Normal(done + [cur]) && Within(done + [cur], PADDR_LIMIT) && cur.End() + more <= PADDR_LIMIT
    ensures var l := done + [Range(cur.addr, cur.size + more)]; Normal(l) && Within(l, PADDR_LIMIT)
  {
    var l, l0 := done + [Range(cur.addr, cur.size + more)], done + [cur];
    assert forall i :: 0 <= i < |done| ==> l[i] == l0[i];
    assert l0[|done|] == cur;
  }

  lemma StretchCover(done: seq<Range>, cur: Range, more: nat)
    ensures Covered(done + [Range(cur.addr, cur.size + more)]) ==
            Covered(done + [cur]) + Span(cur.End(), cur.End() + more)
  {
    hide Covered;
    var m := Range(cur.addr, cur.size + more);
    CoverSplit(done, m, []);
    CoverSplit(done, cur, []);
    assert done + [m] + [] == done + [m] && done + [cur] + [] == done + [cur];
    SpanUnion(cur.addr, cur.End(), cur.End(), cur.End() + more);
    NothingCovered();
  }

  lemma NothingCovered()
    ensures Covered([]) == iset{}
  {
  }

  /** The descriptor starts a new run. */
  lemma CollectNew(ds: seq<Desc>, k: nat, done: seq<Range>, cur: Range)
    requires k < |ds| && InOrder(ds) && Collecting(ds[..k], done, cur) && ClassOf(ds[k].kind) != Unusable
    requires ds[k].start != cur.addr + cur.size
    ensures Collecting(ds[..k + 1], if cur.size == 0 then [] else done + [cur], Memory(ds[k]))
    ensures Memory(ds[k]).size > 0
  {
    UsableExtends(ds, k);
    if cur.size == 0 {
      NewRun([], Memory(ds[k]));
      assert [] + [Memory(ds[k])] == [Memory(ds[k])];
    } else {
      RunsEndBefore(ds, k, done, cur);
      NewRun(done + [cur], Memory(ds[k]));
    }
    assert ds[k] in ds[..k + 1];
  }

  lemma RunsEndBefore(ds: seq<Desc>, k: nat, done: seq<Range>, cur: Range)
    requires k < |ds| && InOrder(ds) && cur.size > 0 && Normal(done + [cur])
    requires exists d :: d in ds[..k] && cur.End() == Memory(d).End()
    requires ds[k].start != cur.End()
    ensures forall j :: 0 <= j < |done + [cur]| ==> (done + [cur])[j].End() < ds[k].start
  {
    var d :| d in ds[..k] && cur.End() == Memory(d).End();
    var i :| 0 <= i < k && ds[i] == d;
    LastRunEnds(done, cur);
  }

  lemma LastRunEnds(done: seq<Range>, cur: Range)
    requires Normal(done + [cur])
    ensures forall j :: 0 <= j < |done| ==> (done + [cur])[j].End() < cur.addr
  {
    assert (done + [cur])[|done|] == cur;
  }

  lemma NewRun(l: seq<Range>, m: Range)
    requires Normal(l) && Within(l, PADDR_LIMIT) && m.size > 0 && m.End() <= PADDR_LIMIT
    requires forall j :: 0 <= j < |l| ==> l[j].End() < m.addr
    ensures Normal(l + [m]) && Within(l + [m], PADDR_LIMIT)
    ensures Covered(l + [m]) == Covered(l) + R.Bytes(m)
  {
    CoverSplit(l, m, []);
    assert l + [m] + [] == l + [m];
    assert Covered([]) == iset{};
  }

  /** The boot image behind startup itself. */
  ghost function Behind(ram: B.BootRam): iset<int> {
    Span(ram.imageStart + ram.startupSize, ram.imageStart + ram.ramSize)
  }

  lemma BehindIs(ram: B.BootRam)
    requires ram.startupSize <= ram.ramSize
    ensures Behind(ram) == R.Bytes(ram.Image())
  {
  }

  /** What pass 1 has done to the allocator after some calls of add_ram. */
  ghost predicate Supplied(s: R.State, free0: iset<int>, image: Range, calls: seq<Range>) {
    && s.free == (if calls == [] then free0 else (free0 + Covered(calls)) - R.Bytes(image))
    && R.Safe(s)
    && (forall i :: 0 <= i < |s.given| ==> R.Bytes(s.given[i]) <= Covered(calls) || R.Bytes(s.given[i]) <= s.avoided)
  }

  lemma SuppliedFacts(s: R.State, image: Range, calls: seq<Range>)
    requires Supplied(s, iset{}, image, calls)
    ensures R.Safe(s) && s.free == if calls == [] then iset{} else Covered(calls) - R.Bytes(image)
  {
  }

  /** Every block handed out so far came from the early area and is avoided. */
  ghost predicate AllAvoided(s: R.State) {
    forall i :: 0 <= i < |s.given| ==> R.Bytes(s.given[i]) <= s.avoided
  }

  /** The allocator between ws_init and the first add_ram. */
  ghost predicate Booting(s: R.State) {
    && s.free == iset{} && R.Safe(s) && AllAvoided(s)
    && (forall i :: 0 <= i < |s.given| ==> s.given[i].End() <= s.next)
  }

  /** The early blocks handed out before main, such as the first system page, are where
      init_raminfo_efi expects them. */
  lemma {:induction false} StillBooting(s: R.State, ops: seq<R.Op>)
    requires Booting(s) && R.Possible(s, ops)
    requires forall k :: 0 <= k < |ops| ==> ops[k].EarlyWorkspace? || ops[k].Avoid?
    ensures Booting(R.After(s, ops))
    decreases |ops|
  {
    if ops != [] {
      var u, op := R.After(s, R.Front(ops)), R.Last(ops);
      StillBooting(s, R.Front(ops));
      R.StepSafe(u, op, R.Next(u, op));
    }
  }

  lemma OneMoreSupply(s: R.State, t: R.State, image: Range, calls: seq<Range>, m: Range)
    requires Supplied(s, iset{}, image, calls) && Covered(calls) !! R.Bytes(m)
    requires t.free == s.free + R.Bytes(m) - R.Bytes(image)
    requires R.MaySupply(s, m) ==> R.Safe(t)
    requires B.GivenAfter(s, t) && s.avoided <= t.avoided
    ensures Supplied(t, iset{}, image, calls + [m])
  {
    CoverSplit(calls, m, []);
    assert calls + [m] + [] == calls + [m] && Covered([]) == iset{};
    assert R.MaySupply(s, m);
  }

  ghost function Avoiding(s: R.State, more: iset<int>): R.State {
    s.(avoided := s.avoided + more)
  }

  lemma AvoidNothing(s: R.State)
    ensures Avoiding(s, iset{}) == s
  {
  }

  /** What pass 0 does with descriptor k. */
  lemma AvoidStep(s0: R.State, s: R.State, t: R.State, ds: seq<Desc>, k: nat)
    requires k < |ds| && s == Avoiding(s0, AvoidBytes(ds[..k]))
    requires if ClassOf(ds[k].kind) != Conventional then R.Step(s, R.Avoid(Memory(ds[k])), t) else t == s
    ensures t == Avoiding(s0, AvoidBytes(ds[..k + 1]))
  {
    hide AvoidBytes, R.Bytes;
    AvoidExtends(ds, k);
  }

  lemma NothingYet(ds: seq<Desc>)
    ensures AvoidBytes(ds[..0]) == iset{} && UsableBytes(ds[..0]) == iset{} && ClassBytes(ds[..0], InUse) == iset{}
    ensures Covered([]) == iset{}
  {
  }

  /** Pass 0: everything that is not plain conventional memory is avoided, and nothing else. */
  method AvoidPass(ram: B.BootRam, descs: array<Desc>) returns (o: Outcome)
    requires ram.Valid() && InOrder(descs[..])
    modifies ram`avoid
    ensures ram.Valid()
    ensures o.Done? ==> ram.State() == Avoiding(old(ram.State()), AllBut(descs[..], {ConventionalMemory}))
    ensures o.Done? ==> ram.AvoidNeed() <= old(ram.AvoidNeed()) + descs.Length
    ensures old(ram.AvoidNeed()) + descs.Length < B.MAX_AVOID_SLOTS ==> o.Done?
  {
    var k := 0;
    ghost var ds := descs[..];
    hide AvoidBytes, Avoiding, AllBut;
    NothingYet(ds);
    AvoidNothing(ram.State());
    while k < descs.Length
      invariant 0 <= k <= descs.Length && ram.Valid() && descs[..] == ds
      invariant ram.State() == Avoiding(old(ram.State()), AvoidBytes(ds[..k]))
      invariant ram.AvoidNeed() <= old(ram.AvoidNeed()) + k
    {
      ghost var s := ram.State();
      if ClassOf(descs[k].kind) != Conventional {
        o := ram.AvoidRam(descs[k].start, PAGE * descs[k].pages);
        if o.Crash? {
          return;
        }
      }
      AvoidStep(old(ram.State()), s, ram.State(), ds, k);
      k := k + 1;
    }
    assert ds[..k] == ds;
    ClassKinds(ds);
    return Done;
  }

  /** One add_ram call of pass 1. */
  method SupplyRun(ram: B.BootRam, start: nat, size: nat, ghost calls: seq<Range>) returns (o: Outcome)
    requires ram.Valid() && !ram.sysramAdded && 0 < start + size < TWO64
    requires size > 0 ==> start + size <= PADDR_LIMIT
    requires Supplied(ram.State(), iset{}, ram.Image(), calls)
    requires Covered(calls) !! R.Bytes(Range(start, size))
    modifies ram`avoid, ram`given, ram`tempSyspage, ram.ram`len, ram.ram.list, ram.asinfo
    ensures o.Done? ==> ram.Valid() && Supplied(ram.State(), iset{}, ram.Image(), calls + [Range(start, size)])
    ensures o.Done? ==> old(ram.State()).avoided <= ram.State().avoided
    ensures o.Done? ==> ram.ram.len <= old(ram.ram.len) + 2 && ram.AvoidNeed() <= old(ram.AvoidNeed())
    ensures old(ram.ram.len) + 2 <= MAX_SLOTS && old(ram.AvoidNeed()) < B.MAX_AVOID_SLOTS ==> o.Done?
  {
    hide Covered, R.Safe, B.RamEntryAdded, B.Started;
    ghost var s := ram.State();
    ghost var before := ram.tempSyspage;
    o := ram.AddRam(start, size);
    if o.Done? {
      if R.MaySupply(s, Range(start, size)) {
        R.RunSafe(s, ram.AddRamOps(start, size, before, ram.tempSyspage), ram.State());
      }
      OneMoreSupply(s, ram.State(), ram.Image(), calls, Range(start, size));
    }
  }

  /** A run still being collected is apart from those already added. */
  lemma CurrentIsApart(ds: seq<Desc>, done: seq<Range>, cur: Range)
    requires Collecting(ds, done, cur)
    ensures Covered(if cur.size == 0 then [] else [FIRST_CALL] + done) !! R.Bytes(cur)
    ensures Covered([FIRST_CALL] + done) == Covered(done)
    ensures 0 < cur.End() < TWO64 && (cur.size > 0 ==> cur.End() <= PADDR_LIMIT)
  {
    CoverConcat([FIRST_CALL], done);
    CoverSplit([], FIRST_CALL, []);
    assert [] + [FIRST_CALL] + [] == [FIRST_CALL] && Covered([]) == iset{};
    if cur.size > 0 {
      LastRunEnds(done, cur);
      assert (done + [cur])[|done|] == cur;
      forall x | In(done, x) ensures x < cur.addr {
        var i :| 0 <= i < |done| && done[i].addr <= x < done[i].End();
        assert (done + [cur])[i] == done[i];
      }
    }
  }

  /** The calls made so far and the run being collected, after the descriptors ds. */
  ghost predicate Pass1(ds: seq<Desc>, done: seq<Range>, cur: Range, calls: seq<Range>) {
    && Collecting(ds, done, cur)
    && calls == (if cur.size == 0 then [] else [FIRST_CALL] + done)
  }

  lemma CallsMore(ds: seq<Desc>, done: seq<Range>, cur: Range, calls: seq<Range>)
    requires Pass1(ds, done, cur, calls)
    ensures calls + [cur] == [FIRST_CALL] + (if cur.size == 0 then [] else done + [cur])
  {
    hide Normal, Within, Covered, UsableBytes;
  }

  /** What pass 1 does with descriptor k. */
  method SupplyOne(ram: B.BootRam, d: Desc, start: nat, size: nat,
                   ghost ds: seq<Desc>, ghost k: nat, ghost done: seq<Range>, ghost calls: seq<Range>)
    returns (o: Outcome, start': nat, size': nat, ghost done': seq<Range>, ghost calls': seq<Range>)
    requires ram.Valid() && !ram.sysramAdded && InOrder(ds) && k < |ds| && ds[k] == d
    requires Pass1(ds[..k], done, Range(start, size), calls)
    requires Supplied(ram.State(), iset{}, ram.Image(), calls)
    modifies ram`avoid, ram`given, ram`tempSyspage, ram.ram`len, ram.ram.list, ram.asinfo
    ensures o.Done? ==> ram.Valid()
    ensures o.Done? ==> Pass1(ds[..k + 1], done', Range(start', size'), calls')
    ensures o.Done? ==> Supplied(ram.State(), iset{}, ram.Image(), calls')
    ensures o.Done? ==> old(ram.State()).avoided <= ram.State().avoided
    ensures o.Done? ==> ram.ram.len <= old(ram.ram.len) + 2 && ram.AvoidNeed() <= old(ram.AvoidNeed())
    ensures old(ram.ram.len) + 2 <= MAX_SLOTS && old(ram.AvoidNeed()) < B.MAX_AVOID_SLOTS ==> o.Done?
  {
    hide Supplied, Collecting, InOrder, Covered, UsableBytes;
    o, start', size', done', calls' := Done, start, size, done, calls;
    var sz := PAGE * d.pages;
    ghost var cur := Range(start, size);
    if ClassOf(d.kind) != Unusable {
      if d.start == start + size {
        CollectMore(ds, k, done, cur);
        size' := size + sz;
      } else {
        CurrentIsApart(ds[..k], done, cur);
        CollectNew(ds, k, done, cur);
        CallsMore(ds[..k], done, cur, calls);
        o := SupplyRun(ram, start, size, calls);
        calls' := calls + [cur];
        done' := if size == 0 then [] else done + [cur];
        start' := d.start;
        size' := sz;
      }
    } else {
      CollectNothing(ds, k, done, cur);
    }
  }

  /** Pass 1: the usable memory is added run by run. `calls` are the arguments of add_ram. */
  method SupplyPass(ram: B.BootRam, descs: array<Desc>) returns (o: Outcome, ghost calls: seq<Range>)
    requires ram.Valid() && !ram.sysramAdded && InOrder(descs[..])
    requires ram.State().free == iset{} && R.Safe(ram.State()) && AllAvoided(ram.State())
    modifies ram`avoid, ram`given, ram`tempSyspage, ram.ram`len, ram.ram.list, ram.asinfo
    ensures o.Done? ==> ram.Valid()
    // nothing for a map without usable memory; else one empty call and then the maximal runs
    ensures o.Done? ==> Pass1Calls(AllBut(descs[..], {Other}), calls)
    ensures o.Done? ==> R.Safe(ram.State())
    ensures o.Done? ==> ram.State().free == AllBut(descs[..], {Other}) - Behind(ram)
    ensures o.Done? ==> old(ram.State()).avoided <= ram.State().avoided
    ensures o.Done? ==> ram.ram.len <= old(ram.ram.len) + 2 * descs.Length + 2
    ensures old(ram.ram.len) + 2 * descs.Length + 2 <= MAX_SLOTS && old(ram.AvoidNeed()) < B.MAX_AVOID_SLOTS ==> o.Done?
  {
    var curStart: nat, curSize: nat := TWO64 - 1, 0;
    calls := [];
    ghost var done: seq<Range> := [];
    var k := 0;
    ghost var ds := descs[..];
    NothingYet(ds);
    hide Supplied, InOrder, AllBut, UsableBytes, Behind, R.Bytes;
    ClassKinds(ds);
    while k < descs.Length
      invariant 0 <= k <= descs.Length && ram.Valid() && !ram.sysramAdded && descs[..] == ds
      invariant Pass1(ds[..k], done, Range(curStart, curSize), calls)
      invariant Supplied(ram.State(), iset{}, ram.Image(), calls)
      invariant old(ram.State()).avoided <= ram.State().avoided
      invariant ram.ram.len <= old(ram.ram.len) + 2 * k && ram.AvoidNeed() <= old(ram.AvoidNeed())
    {
      o, curStart, curSize, done, calls := SupplyOne(ram, descs[k], curStart, curSize, ds, k, done, calls);
      if o.Crash? {
        return;
      }
      k := k + 1;
    }
    assert ds[..k] == ds;
    o := Done;
    CurrentIsApart(ds, done, Range(curStart, curSize));
    if curSize != 0 {
      o := SupplyRun(ram, curStart, curSize, calls);
      calls := calls + [Range(curStart, curSize)];
      AllSupplied(ds, done, Range(curStart, curSize));
    }
    if o.Done? {
      SuppliedFacts(ram.State(), ram.Image(), calls);
      BehindIs(ram);
    }
  }

  /** The calls of a complete pass 1 over maps with the given usable memory. */
  ghost predicate Pass1Calls(usable: iset<int>, calls: seq<Range>) {
    if usable == iset{} then calls == []
    else |calls| > 1 && calls[0] == FIRST_CALL && Normal(calls[1..]) && Covered(calls[1..]) == usable
  }

  lemma AllSupplied(ds: seq<Desc>, done: seq<Range>, cur: Range)
    requires Collecting(ds, done, cur) && cur.size > 0
    ensures Covered([FIRST_CALL] + done + [cur]) == UsableBytes(ds) && UsableBytes(ds) != iset{}
    ensures Pass1Calls(UsableBytes(ds), [FIRST_CALL] + done + [cur])
  {
    assert ([FIRST_CALL] + done + [cur])[1..] == done + [cur];
    CurrentIsApart(ds, done, cur);
    CoverConcat([FIRST_CALL] + done, [cur]);
    CoverConcat(done, [cur]);
    assert (done + [cur])[|done|] == cur;
    assert cur.addr in Covered(done + [cur]);
  }

  /** Pass 2: memory that is still in use leaves the free list. */
  method TakePass(ram: B.BootRam, descs: array<Desc>) returns (o: Outcome)
    requires ram.Valid() && !ram.sysramAdded && InOrder(descs[..]) && R.Safe(ram.State())
    modifies ram`given, ram.ram`len, ram.ram.list, ram.asinfo
    ensures o.Done? ==> ram.Valid() && R.Safe(ram.State())
    ensures o.Done? ==> ram.State().free == old(ram.State()).free - AllBut(descs[..], {ConventionalMemory, Other})
    ensures o.Done? ==> ram.State().given == old(ram.State()).given
    ensures o.Done? ==> ram.State().avoided == old(ram.State()).avoided
    ensures old(ram.ram.len) + descs.Length <= MAX_SLOTS ==> o.Done?
  {
    var k := 0;
    ghost var ds := descs[..];
    NothingYet(ds);
    hide AllBut;
    while k < descs.Length
      invariant 0 <= k <= descs.Length && ram.Valid() && !ram.sysramAdded && descs[..] == ds
      invariant R.Safe(ram.State())
      invariant ram.State().free == old(ram.State()).free - ClassBytes(ds[..k], InUse)
      invariant ram.given == old(ram.given) && ram.State().avoided == old(ram.State()).avoided
      invariant ram.ram.len <= old(ram.ram.len) + k
    {
      ClassExtends(ds, k, InUse);
      if ClassOf(descs[k].kind) == InUse {
        ghost var s := ram.State();
        var _, o1 := ram.AllocRam(Some(descs[k].start), PAGE * descs[k].pages, 0);
        if o1.Crash? {
          return Crash;
        }
        R.StepSafe(s, R.Withdraw(Memory(ds[k])), ram.State());
      }
      k := k + 1;
    }
    assert ds[..k] == ds;
    ClassKinds(ds);
    return Done;
  }

  lemma DisjointClasses(ds: seq<Desc>)
    requires MapValid(ds)
    ensures UsableBytes(ds) - ClassBytes(ds, InUse) == ClassBytes(ds, Conventional)
  {
    forall x | ClassHas(ds, InUse, x) ensures !ClassHas(ds, Conventional, x) {
      var d :| d in ds && ClassOf(d.kind) == InUse && d.start <= x < Memory(d).End();
      forall e | e in ds && ClassOf(e.kind) == Conventional ensures !(e.start <= x < Memory(e).End()) {
        assert d != e;
      }
    }
  }

  /** Both lists have room for a map of n descriptors: each may need an avoid entry in pass 0, two
      list entries in pass 1 and one in pass 2. */
  predicate HasRoom(len: nat, avoids: nat, n: nat) {
    len + 3 * n + 2 <= MAX_SLOTS && avoids + n < B.MAX_AVOID_SLOTS
  }

  /** The three passes over a map that is in order. */
  method RunPasses(ram: B.BootRam, descs: array<Desc>) returns (o: Outcome)
    requires ram.Valid() && !ram.sysramAdded && InOrder(descs[..])
    requires ram.State().free == iset{} && R.Safe(ram.State()) && AllAvoided(ram.State())
    modifies ram`avoid, ram`given, ram`tempSyspage, ram.ram`len, ram.ram.list, ram.asinfo
    ensures o.Done? ==> ram.Valid() && R.Safe(ram.State())
    ensures o.Done? ==> ram.State().free ==
                        AllBut(descs[..], {Other}) - Behind(ram)
                        - AllBut(descs[..], {ConventionalMemory, Other})
    ensures o.Done? ==> AllBut(descs[..], {ConventionalMemory}) <= ram.State().avoided
    ensures HasRoom(old(ram.ram.len), old(ram.AvoidNeed()), descs.Length) ==> o.Done?
  {
    o := AvoidPass(ram, descs);
    if o.Crash? {
      return;
    }
    ghost var calls;
    o, calls := SupplyPass(ram, descs);
    if o.Crash? {
      return;
    }
    o := TakePass(ram, descs);
  }

  /** init_raminfo_efi on a fresh allocator. Whatever the order of the firmware's map, the free
      memory afterwards is the conventional memory without the boot image, everything else is
      avoided, and the blocks handed out on the way do not overlap. */
  method InitRaminfo(ram: B.BootRam, descs: array<Desc>) returns (o: Outcome)
    requires ram.Valid() && !ram.sysramAdded && descs.Length > 0 && MapValid(descs[..])
    requires ram.State().free == iset{} && R.Safe(ram.State()) && AllAvoided(ram.State())
    modifies ram`avoid, ram`given, ram`tempSyspage, ram.ram`len, ram.ram.list, ram.asinfo, descs
    ensures o.Done? ==> ram.Valid() && R.Safe(ram.State())
    ensures o.Done? ==> ram.State().free == KindBytes(old(descs[..]), {ConventionalMemory})
                                            - Span(ram.imageStart + ram.startupSize, ram.imageStart + ram.ramSize)
    ensures o.Done? ==> AllBut(old(descs[..]), {ConventionalMemory}) <= ram.State().avoided
    // it returns for every map that leaves room in both lists
    ensures HasRoom(old(ram.ram.len), old(ram.AvoidNeed()), descs.Length) ==> o.Done?
    ensures Ascending(descs[..]) && multiset(descs[..]) == multiset(old(descs[..]))
  {
    hide KindBytes, AllBut, ClassBytes;
    SortMap(descs);
    ghost var ds := descs[..];
    MapPermuted(old(descs[..]), ds);
    SortedMapInOrder(ds);
    o := RunPasses(ram, descs);
    DisjointClasses(ds);
    ClassPermuted(old(descs[..]), ds, InUse);
    ClassPermuted(old(descs[..]), ds, Conventional);
    ClassPermuted(old(descs[..]), ds, Unusable);
    ClassKinds(ds);
    ClassKinds(old(descs[..]));
  }
}
