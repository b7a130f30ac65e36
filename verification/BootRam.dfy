/** The state of ram.c and the calls that change it. Each call says which steps of the transition
    system in RamRuns it performs. */
module BootRam {
  import opened Bits
  import opened Ranges
  import opened RamList
  import opened RamSearch
  import opened Pieces
  import opened AddressSpace
  import opened Sysram
  import opened Views
  import opened Wrappers
  import R = RamRuns

  const MAX_AVOID_SLOTS: nat := 64        // MAX_AVOID_LIST_SIZE / sizeof(struct avoid_entry)
  const MAX_AVOID_LIST_SIZE: nat := 1024
  const MAX_RAM_LIST_SIZE: nat := 3072
  const TEMP_SYSPAGE_SIZE: nat := 48 * 1024
  const WORD: nat := 8                    // sizeof(uint64_t)
  const FOUR_GIG: nat := 0x1_0000_0000

  lemma FreeBlockAvailable(list: seq<Range>, avoid: seq<Avoid>, s: R.State, addr: nat, size: nat)
    requires FreeBlock(list, avoid, addr, size)
    requires s.free == Covered(list) && s.avoided == Avoided(avoid)
    ensures R.Available(s, Range(addr, size))
  {
    var i :| 0 <= i < |list| && list[i].addr <= addr && addr + size <= list[i].End();
    forall x | x in Span(addr, addr + size) ensures In(list, x) {
      assert list[i].addr <= x < list[i].End();
    }
  }

  lemma FoundBlock(list: seq<Range>, avoid: seq<Avoid>, size: nat, align: nat, addr: nat)
    requires NonEmpty(list) && Within(list, PADDR_LIMIT) && AvoidsValid(avoid) && align < TWO64
    requires exists i :: 0 <= i < |list| && FitIn(list[i], avoid, size, align) == Some(addr)
    ensures addr + size <= PADDR_LIMIT
    ensures 0 < align <= PADDR_LIMIT ==> FreeBlock(list, avoid, addr, size)
  {
    var i :| 0 <= i < |list| && FitIn(list[i], avoid, size, align) == Some(addr);
    UsableIsClear(EntryWindow(list[i]), avoid);
    if 0 < align <= PADDR_LIMIT {
      FitIsFree(list, avoid, i, size, align, addr);
    }
  }

  lemma TopBlockAvailable(list: seq<Range>, avoid: seq<Avoid>, s: R.State, size: nat, align: nat, pagesize: nat, r: nat)
    requires NonEmpty(list) && Within(list, PADDR_LIMIT) && AvoidsValid(avoid) && align < TWO64
    requires 0 < pagesize && size + pagesize <= PADDR_LIMIT && r != 0
    requires Round(size, pagesize) < TWO64
    requires TopResult(list, avoid, Round(size, pagesize), align, TWO64 - 1, r)
    requires s.free == Covered(list) && s.avoided == Avoided(avoid)
    ensures R.Available(s, Range(r, size)) && r + size <= PADDR_LIMIT
  {
    RoundBounds(size, pagesize);
    TopIsFree(list, avoid, Round(size, pagesize), align, TWO64 - 1, r);
    assert Span(r, r + size) <= Span(r, r + Round(size, pagesize));
    FreeBlockAvailable(list, avoid, s, r, size);
  }

  /** avoid_ram on the list: the last entry is stretched if the new range continues it. */
  function AvoidAdded(avoid: seq<Avoid>, start: nat, size: nat): seq<Avoid>
    requires avoid != []
  {
    var last := avoid[|avoid| - 1];
    if last.end == start then avoid[|avoid| - 1 := last.(end := last.end + size)]
    else avoid + [Avoid(start, start + size)]
  }

  lemma AvoidAddedCovers(avoid: seq<Avoid>, start: nat, size: nat)
    requires avoid != [] && AvoidsValid(avoid) && 0 < start + size < TWO64
    ensures AvoidsValid(AvoidAdded(avoid, start, size))
    ensures Avoided(AvoidAdded(avoid, start, size)) == Avoided(avoid) + Span(start, start + size)
  {
    var a' := AvoidAdded(avoid, start, size);
    var n := |avoid| - 1;
    forall x ensures IsAvoided(a', x) <==> IsAvoided(avoid, x) || Between(start, x, start + size) {
      if IsAvoided(avoid, x) {
        var i :| 0 <= i < |avoid| && avoid[i].start <= x < avoid[i].end;
        assert a'[i].start <= x < a'[i].end;
      }
      if Between(start, x, start + size) {
        assert a'[|a'| - 1].start <= x < a'[|a'| - 1].end;
      }
      if IsAvoided(a', x) {
        var i :| 0 <= i < |a'| && a'[i].start <= x < a'[i].end;
        if i <= n {
          assert avoid[i].start <= x < avoid[i].end || Between(start, x, start + size);
        }
      }
    }
  }

  /** The two lists touch, so they are one entry of the avoid list. */
  lemma FirstCovers(early: nat, start: nat, size: nat)
    requires early + MAX_AVOID_LIST_SIZE + MAX_RAM_LIST_SIZE < TWO64 && 0 < start + size < TWO64
    ensures var lists := AvoidAdded([Avoid(early, early + MAX_AVOID_LIST_SIZE)], early + MAX_AVOID_LIST_SIZE,
                                    MAX_RAM_LIST_SIZE);
            var avoid := AvoidAdded(lists, start, size);
            && lists != [] && avoid != [] && AvoidsValid(avoid)
            && Avoided(avoid) ==
               Span(early, early + MAX_AVOID_LIST_SIZE + MAX_RAM_LIST_SIZE) + Span(start, start + size)
  {
    var end := early + MAX_AVOID_LIST_SIZE + MAX_RAM_LIST_SIZE;
    var lists := AvoidAdded([Avoid(early, early + MAX_AVOID_LIST_SIZE)], early + MAX_AVOID_LIST_SIZE,
                            MAX_RAM_LIST_SIZE);
    assert lists == [Avoid(early, end)];
    OneAvoided(early, end);
    AvoidAddedCovers(lists, start, size);
  }

  lemma OneAvoided(start: nat, end: nat)
    ensures Avoided([Avoid(start, end)]) == Span(start, end)
  {
    var avoid := [Avoid(start, end)];
    forall x: int ensures x in Avoided(avoid) <==> x in Span(start, end) {
      assert avoid[0].start <= x < avoid[0].end <==> x in Span(start, end);
    }
  }

  /** The two entries that the first add_ram puts into an empty section. */
  function InitialEntries(memoryEnd: nat): seq<Entry> {
    [Entry(0, memoryEnd, None, "memory", Attr(0, false, true)),
     Entry(0, FOUR_GIG - 1, Some(0), "below4G", Attr(0, false, false))]
  }

  /** The section as the containing add in add_ram finds it. */
  function Started(es: seq<Entry>, memoryEnd: nat): seq<Entry> {
    if es == [] then InitialEntries(memoryEnd) else es
  }

  /** All memory up to its end, the part below four gigabytes named by itself, and no ram yet. */
  lemma InitialViews(memoryEnd: nat)
    requires FOUR_GIG <= memoryEnd + 1
    ensures OwnersBefore(InitialEntries(memoryEnd))
    ensures var es := InitialEntries(memoryEnd);
            && View(es, "memory") == Span(0, memoryEnd + 1) && View(es, "below4G") == Span(0, 0x1_0000_0000)
            && forall n :: n != "memory" && n != "below4G" ==> View(es, n) == iset{}
  {
    var es := InitialEntries(memoryEnd);
    forall n, x: int
      ensures Named(es, n, x) <==>
              (n == "memory" && 0 <= x <= memoryEnd) || (n == "below4G" && 0 <= x < 0x1_0000_0000)
    {
      assert Match(es, 0, n) <==> n == "memory";
      assert Match(es, 1, n) <==> n == "memory" || n == "below4G";
      if 0 <= x <= memoryEnd {
        assert es[0].Has(x);
      }
      if 0 <= x < 0x1_0000_0000 {
        assert es[1].Has(x);
      }
    }
    forall n | n != "memory" && n != "below4G" ensures View(es, n) == iset{} {
      assert forall x: int :: !Named(es, n, x);
    }
  }

  /** The section after add_ram has put [start, start + size) into its "memory" containers. */
  ghost predicate RamEntryAdded(es0: seq<Entry>, es: seq<Entry>, start: nat, size: nat)
    requires OwnersBefore(es0) && OwnersBefore(es)
  {
    && KeepsOwners(es0, es) && Extended(es0, es, "ram")
    && View(es, "ram") == View(es0, "ram") + Span(start, start + size) * View(es0, "memory")
    && View(es, "memory") == View(es0, "memory")
  }

  function RamOps(m: Range, image: Range, before: Option<nat>, after: Option<nat>): seq<R.Op> {
    [R.Supply(m), R.Withdraw(image)]
    + (if before.None? && after.Some? then [R.Workspace(Range(after.value, TEMP_SYSPAGE_SIZE))] else [])
  }

  lemma AddRamRuns(s0: R.State, s2: R.State, s3: R.State, m: Range, image: Range,
                   before: Option<nat>, after: Option<nat>)
    requires R.MaySupply(s0, m) && s2 == s0.(free := s0.free + Span(m.addr, m.addr + m.size) - R.Bytes(image))
    requires if before.None? && after.Some?
             then R.Step(s2, R.Workspace(Range(after.value, TEMP_SYSPAGE_SIZE)), s3) else s3 == s2
    ensures R.Run(s0, RamOps(m, image, before, after), s3)
  {
    var s1 := s0.(free := s0.free + Span(m.addr, m.addr + m.size));
    assert R.Step(s0, R.Supply(m), s1) && R.Step(s1, R.Withdraw(image), s2);
    R.RunOne(s0, R.Supply(m), s1);
    R.RunThen(s0, [R.Supply(m)], s1, R.Withdraw(image), s2);
    assert [R.Supply(m)] + [R.Withdraw(image)] == [R.Supply(m), R.Withdraw(image)];
    if before.None? && after.Some? {
      R.RunThen(s0, [R.Supply(m), R.Withdraw(image)], s2, R.Workspace(Range(after.value, TEMP_SYSPAGE_SIZE)), s3);
    } else {
      assert RamOps(m, image, before, after) == [R.Supply(m), R.Withdraw(image)];
    }
  }

  lemma RamEntryNames(es0: seq<Entry>, es: seq<Entry>, start: nat, size: nat, r: Option<nat>)
    requires OwnersBefore(es0) && OwnersBefore(es) && ProperRanges(es0) && 0 < start + size < TWO64
    requires size > 0 ==> start + size <= PADDR_LIMIT
    requires InWord(Containers(es0, |es0|, start, start + size - 1, "memory"))
    requires Contained(es0, es, Emitted(es0, start, start + size - 1, "memory"), PLAIN, "ram", r)
    ensures RamEntryAdded(es0, es, start, size)
  {
    var end := start + size - 1;
    ContainedExtends(es0, es, Emitted(es0, start, end, "memory"), PLAIN, "ram", r);
    forall x
      ensures Named(es, "memory", x) <==> Named(es0, "memory", x)
      ensures Named(es, "ram", x) <==> Named(es0, "ram", x) || (start <= x <= end && Named(es0, "memory", x))
    {
      ContainedNames(es0, es, Emitted(es0, start, end, "memory"), PLAIN, "ram", r, x);
      if start <= end {
        ContainerNameKept(es0, es, start, end, "ram", "memory", r, x);
        EmittedIsIntersection(es0, start, end, "memory", x);
      } else {
        EmptyWindow(es0, start, end, "memory");
        OtherNamesKept(es0, es, [], PLAIN, "ram", r, "memory", x);
      }
    }
  }

  lemma NoneBacked(es: seq<Entry>)
    requires OwnersBefore(es) && ProperRanges(es) && View(es, "sysram") == iset{}
    ensures Backed(es)
  {
    forall i | 0 <= i < |es| ensures !Match(es, i, "sysram") {
      assert es[i].Has(es[i].start) && es[i].start !in View(es, "sysram");
    }
  }

  lemma PrefixGrows(list: seq<Range>, k: nat, within: iset<int>)
    requires k < |list|
    ensures Covered(list[..k + 1]) * within == Covered(list[..k]) * within + Span(list[k].addr, list[k].End()) * within
  {
    CoverSplit(list[..k], list[k], []);
    assert list[..k] + [list[k]] + [] == list[..k + 1] && Covered([]) == iset{};
  }

  lemma NextIsApart(list: seq<Range>, k: nat)
    requires Normal(list) && k < |list|
    ensures Covered(list[..k]) !! Span(list[k].addr, list[k].End())
  {
    forall x | In(list[..k], x) ensures x < list[k].addr {
      var i :| 0 <= i < k && list[i].addr <= x < list[i].End();
    }
  }

  /** New "sysram" entries in clear memory are inside the entries that own them. */
  lemma AddedBacked(es0: seq<Entry>, es: seq<Entry>, start: nat, end: nat, r: Option<nat>)
    requires OwnersBefore(es0) && OwnersBefore(es) && ProperRanges(es0) && start <= end < TWO64 - 1
    requires InWord(Containers(es0, |es0|, start, end, "ram"))
    requires Contained(es0, es, Emitted(es0, start, end, "ram"), PLAIN, "sysram", r)
    requires Backed(es0) && forall x :: start <= x <= end ==> !Named(es0, "sysram", x)
    ensures Backed(es)
  {
    OwnersElsewhere(es0, start, end, "ram", "sysram");
    var ps := Emitted(es0, start, end, "ram");
    forall i | 0 <= i < |es| && Match(es, i, "sysram") ensures BackedAt(es, i) {
      if i < |es0| {
        MatchStable(es0, es, i, "sysram");
        assert BackedAt(es0, i);
        MatchStable(es0, es, es0[i].owner.value, "sysram");
      } else {
        var q := ps[i - |es0|];
        assert q in ps;
        MatchStable(es0, es, q.owner, "sysram");
      }
    }
  }

  /** At most one block has been handed out, and it lies in memory that is still on the list. */
  ghost predicate GivenAfter(s: R.State, t: R.State) {
    t.given == s.given || exists m :: t.given == s.given + [m] && R.Bytes(m) <= t.free
  }

  class BootRam {
    const ram: RamList
    const asinfo: AddressSpace
    const imageStart: nat     // full_ram_paddr
    const startupSize: nat    // shdr->startup_size
    const ramSize: nat        // shdr->ram_size
    const memoryEnd: nat      // the end of the address space that as_default adds
    const pagesize: nat       // __PAGESIZE
    var avoid: seq<Avoid>
    var wsEarlyNext: nat
    var sysramAdded: bool
    var tempSyspage: Option<nat>
    ghost var given: seq<Range>

    ghost predicate Valid()
      reads this, ram, ram.list, asinfo
    {
      && ram.Valid() && asinfo.Valid()
      && AvoidsValid(avoid) && avoid != []
      && Configured()
    }

    /** The two views of free memory: the free list and the "sysram" entries. */
    ghost predicate ViewsAgree()
      requires ram.Valid() && asinfo.Valid()
      reads this, ram, ram.list, asinfo
    {
      View(asinfo.entries, "sysram") == Covered(ram.Contents())
    }

    /** Once "sysram" entries exist, they describe the memory of the free list. */
    ghost predicate InStep()
      requires ram.Valid() && asinfo.Valid()
      reads this, ram, ram.list, asinfo
    {
      sysramAdded ==> ViewsAgree()
    }

    /** What the startup header and the processor guarantee. */
    ghost predicate Configured() {
      && imageStart + ramSize <= PADDR_LIMIT
      && startupSize <= ramSize
      && FOUR_GIG <= memoryEnd + 1 <= PADDR_LIMIT
      && 0 < pagesize <= 0x10000
    }

    ghost function State(): R.State
      requires 1 <= ram.len <= ram.list.Length
      reads this, ram, ram.list
    {
      R.State(Covered(ram.Contents()), Avoided(avoid), given, wsEarlyNext)
    }

    /** ws_init: the avoid list itself, the free list and the startup code are avoided. */
    constructor (imageStart: nat, startupSize: nat, ramSize: nat, memoryEnd: nat, pagesize: nat)
      requires imageStart + ramSize <= PADDR_LIMIT && startupSize <= ramSize
      requires FOUR_GIG <= memoryEnd + 1 <= PADDR_LIMIT && 0 < pagesize <= 0x10000
      requires imageStart + startupSize > 0
      ensures Valid() && fresh(ram) && fresh(ram.list) && fresh(asinfo)
      ensures !sysramAdded && given == [] && Covered(ram.Contents()) == iset{}
      ensures var early := Round(imageStart + ramSize, WORD);
              && wsEarlyNext == early + MAX_AVOID_LIST_SIZE + MAX_RAM_LIST_SIZE
              && Avoided(avoid) == Span(early, wsEarlyNext) + Span(imageStart, imageStart + startupSize)
    {
      hide Round, AvoidAdded, Avoided, AvoidsValid, Span;
      ram := new RamList();
      asinfo := new AddressSpace();
      this.imageStart, this.startupSize, this.ramSize := imageStart, startupSize, ramSize;
      this.memoryEnd, this.pagesize := memoryEnd, pagesize;
      sysramAdded, tempSyspage, given := false, None, [];
      RoundBounds(imageStart + ramSize, WORD);
      var early := Round(imageStart + ramSize, WORD);
      wsEarlyNext := early + MAX_AVOID_LIST_SIZE + MAX_RAM_LIST_SIZE;
      FirstCovers(early, imageStart, startupSize);
      var lists := AvoidAdded([Avoid(early, early + MAX_AVOID_LIST_SIZE)], early + MAX_AVOID_LIST_SIZE,
                              MAX_RAM_LIST_SIZE);
      avoid := AvoidAdded(lists, imageStart, startupSize);
    }

    /** avoid_ram. The crash comes after the list has already outgrown its space. */
    method AvoidRam(start: nat, size: nat) returns (o: Outcome)
      requires Valid() && 0 < start + size < TWO64
      modifies this`avoid
      ensures Valid() && avoid == AvoidAdded(old(avoid), start, size)
      ensures R.Step(old(State()), R.Avoid(Range(start, size)), State())
      ensures o.Crash? <==> |avoid| + 1 > MAX_AVOID_SLOTS
      ensures |avoid| <= |old(avoid)| + 1
    {
      AvoidAddedCovers(avoid, start, size);
      var n := |avoid| - 1;
      if avoid[n].end == start {
        avoid := avoid[n := avoid[n].(end := avoid[n].end + size)];
      } else {
        avoid := avoid + [Avoid(start, start + size)];
      }
      return if |avoid| + 1 > MAX_AVOID_SLOTS then Crash else Done;
    }

    /** Where taking a known range out of the two views of free memory crashes: the free list would
        outgrow its space, or a "sysram" entry would vanish. */
    ghost predicate TakeCrashes(len: nat, list: seq<Range>, es: seq<Entry>, addr: nat, size: nat)
      requires OwnersBefore(es) && (sysramAdded ==> addr + size > 0)
      reads this`sysramAdded
    {
      || (len >= MAX_SLOTS && Straddled(list, addr, addr + size))
      || (sysramAdded && SwallowsEntry(es, addr, addr + size - 1))
    }

    /** Why that crashed: the free list is full, or a "sysram" entry lies wholly inside the range. */
    ghost predicate CannotTake(addr: nat, size: nat)
      requires sysramAdded ==> addr + size > 0
      reads this`sysramAdded, ram, asinfo
    {
      || ram.len >= MAX_SLOTS
      || (sysramAdded && OwnersBefore(asinfo.entries) && SwallowsEntry(asinfo.entries, addr, addr + size - 1))
    }

    /** The allocator has just failed to hand out a block: none fits, or the block it chose could
        not be taken. */
    ghost predicate Refuses(size: nat, align: nat)
      requires align < TWO64
      reads this, ram, ram.list, asinfo
    {
      || (Valid() && FirstFit(ram.Contents(), avoid, size, align, None))
      || (given != [] && given[|given| - 1].size == size > 0 && CannotTake(given[|given| - 1].addr, size))
    }

    /** The part of alloc_ram that takes a known range out of both views of free memory. */
    method TakeRange(addr: nat, size: nat) returns (o: Outcome)
      requires Valid() && addr + size <= PADDR_LIMIT && (sysramAdded ==> addr + size > 0)
      modifies ram`len, ram.list, asinfo
      ensures o.Crash? <==> TakeCrashes(old(ram.len), old(ram.Contents()), old(asinfo.entries), addr, size)
      ensures o.Crash? ==> CannotTake(addr, size)
      ensures o.Done? ==> Valid() && ram.len <= old(ram.len) + 1
      ensures o.Done? ==> Covered(ram.Contents()) == old(Covered(ram.Contents())) - Span(addr, addr + size)
      ensures asinfo.Valid() && KeepsOwners(old(asinfo.entries), asinfo.entries)
      ensures !sysramAdded ==> asinfo.entries == old(asinfo.entries)
      ensures sysramAdded && o.Done? ==>
                View(asinfo.entries, "sysram") == View(old(asinfo.entries), "sysram") - Span(addr, addr + size)
      ensures sysramAdded && o.Done? && Backed(old(asinfo.entries)) ==>
                Backed(asinfo.entries) && OthersKept(old(asinfo.entries), asinfo.entries)
    {
      o := ram.TakeMem(addr, size);
      if o.Done? && sysramAdded {
        o := CutSysram(asinfo, addr, size);
      }
    }

    /** find_ram on the current lists. */
    method Find(size: nat, align: nat) returns (r: Option<nat>)
      requires Valid() && align < TWO64
      ensures r.Some? ==> r.value + size <= PADDR_LIMIT
      ensures r.Some? && 0 < align <= PADDR_LIMIT ==> R.Available(State(), Range(r.value, size))
      ensures FirstFit(ram.Contents(), avoid, size, align, r)
    {
      r := FindRam(ram.Contents(), avoid, size, align);
      if r.Some? {
        FoundBlock(ram.Contents(), avoid, size, align, r.value);
        if 0 < align <= PADDR_LIMIT {
          FreeBlockAvailable(ram.Contents(), avoid, State(), r.value, size);
        }
      }
    }

    /** alloc_ram. None stands for NULL_PADDR, as argument and as result. */
    method AllocRam(addr: Option<nat>, size: nat, align: nat) returns (r: Option<nat>, o: Outcome)
      requires Valid() && align < TWO64
      requires addr.Some? ==> addr.value + size <= PADDR_LIMIT
      requires sysramAdded ==> size > 0
      modifies this`given, ram`len, ram.list, asinfo
      ensures o.Done? ==> Valid() && ram.len <= old(ram.len) + 1
      ensures asinfo.Valid() && KeepsOwners(old(asinfo.entries), asinfo.entries)
      ensures !sysramAdded ==> asinfo.entries == old(asinfo.entries)
      ensures sysramAdded && o.Done? && r.Some? ==>
                View(asinfo.entries, "sysram") == View(old(asinfo.entries), "sysram") - Span(r.value, r.value + size)
      ensures r.None? ==> asinfo.entries == old(asinfo.entries)
      ensures sysramAdded && o.Done? && r.Some? && Backed(old(asinfo.entries)) ==>
                Backed(asinfo.entries) && OthersKept(old(asinfo.entries), asinfo.entries)
      // the two views of free memory stay in step
      ensures sysramAdded && o.Done? && old(ViewsAgree()) ==> ViewsAgree()
      ensures addr.Some? ==> r == addr && given == old(given)
      ensures addr.Some? && o.Done? ==> R.Step(old(State()), R.Withdraw(Range(addr.value, size)), State())
      ensures addr.None? ==> FirstFit(old(ram.Contents()), old(avoid), size, align, r)
      ensures addr.None? && r.None? ==> o.Done? && State() == old(State())
      ensures addr.None? && size > 0 && (r.None? || o.Crash?) ==> Refuses(size, align)
      ensures addr.None? && r.Some? ==> r.value + size <= PADDR_LIMIT && given == old(given) + [Range(r.value, size)]
      ensures addr.None? && r.Some? && o.Done? ==>
                State().free == old(State().free) - Span(r.value, r.value + size)
      ensures addr.None? && r.Some? && o.Done? && 0 < align <= PADDR_LIMIT ==>
                R.Step(old(State()), R.Allocate(Range(r.value, size)), State())
      ensures r.Some? ==>
                (o.Crash? <==> TakeCrashes(old(ram.len), old(ram.Contents()), old(asinfo.entries), r.value, size))
    {
      hide Backed, OthersKept, View, FirstFit, TakeCrashes, AvoidsValid;
      r := addr;
      if addr.None? {
        r := Find(size, align);
        if r.None? {
          return None, Done;
        }
        given := given + [Range(r.value, size)];
      }
      o := TakeRange(r.value, size);
    }

    /** ws_alloc. None stands for a null pointer. */
    method WsAlloc(asked: nat) returns (r: Option<nat>, o: Outcome)
      requires Valid() && 0 < asked && asked + WORD <= TWO64
      requires wsEarlyNext + asked + WORD < TWO64
      modifies this`avoid, this`wsEarlyNext, this`given
      ensures Valid()
      ensures r.None? ==> o.Done? && State() == old(State()) && old(ram.len) > 1
      ensures old(ram.len) > 1 ==> wsEarlyNext == old(wsEarlyNext)
      ensures old(ram.len) > 1 ==> FirstFit(old(ram.Contents()), old(avoid), Round(asked, WORD), WORD, r)
      ensures old(ram.len) <= 1 ==> r == Some(old(wsEarlyNext)) && wsEarlyNext == r.value + Round(asked, WORD)
      ensures asked <= Round(asked, WORD) < asked + 8 && Round(asked, WORD) % 8 == 0
      ensures r.Some? && old(ram.len) > 1 ==>
                R.Step(old(State()), R.Workspace(Range(r.value, Round(asked, WORD))), State())
      ensures old(ram.len) <= 1 ==>
                R.Step(old(State()), R.EarlyWorkspace(Range(r.value, Round(asked, WORD))), State())
    {
      hide FirstFit, Round, AvoidsValid;
      RoundBounds(asked, WORD);
      FixedPowers();
      PowerOfTwoAlignment(asked, 3);
      var size := Round(asked, WORD);
      if ram.len <= 1 {
        r := Some(wsEarlyNext);
        wsEarlyNext := wsEarlyNext + size;
      } else {
        r := Find(size, WORD);
        if r.None? {
          return None, Done;
        }
      }
      given := given + [Range(r.value, size)];
      o := AvoidRam(r.value, size);
    }

    /** The call add_sysram makes for one free range. */
    method AddSysramEntry(m: Range)
      requires asinfo.Valid() && m.size > 0 && m.End() <= PADDR_LIMIT
      modifies asinfo
      ensures asinfo.Valid() && KeepsOwners(old(asinfo.entries), asinfo.entries)
      ensures Extended(old(asinfo.entries), asinfo.entries, "sysram")
      ensures Backed(old(asinfo.entries)) && View(old(asinfo.entries), "sysram") !! Span(m.addr, m.End()) ==>
                Backed(asinfo.entries)
      ensures View(asinfo.entries, "ram") == View(old(asinfo.entries), "ram")
      ensures View(asinfo.entries, "sysram") ==
              View(old(asinfo.entries), "sysram") + Span(m.addr, m.End()) * View(old(asinfo.entries), "ram")
    {
      ghost var es := asinfo.entries;
      var start, end := m.addr, m.addr + m.size - 1;
      var r := asinfo.AddContaining(start, end, PLAIN, "sysram", "ram");
      ContainedExtends(es, asinfo.entries, Emitted(es, start, end, "ram"), PLAIN, "sysram", r);
      forall x
        ensures Named(asinfo.entries, "ram", x) <==> Named(es, "ram", x)
        ensures Named(asinfo.entries, "sysram", x) <==>
                Named(es, "sysram", x) || (start <= x <= end && Named(es, "ram", x))
      {
        ContainerNameKept(es, asinfo.entries, start, end, "sysram", "ram", r, x);
        ContainedNames(es, asinfo.entries, Emitted(es, start, end, "ram"), PLAIN, "sysram", r, x);
        EmittedIsIntersection(es, start, end, "ram", x);
      }
      if Backed(es) && View(es, "sysram") !! Span(m.addr, m.End()) {
        forall x | start <= x <= end ensures !Named(es, "sysram", x) {
          assert x in Span(m.addr, m.End());
        }
        AddedBacked(es, asinfo.entries, start, end, r);
      }
    }

    /** add_sysram: the "sysram" entries become the part of the free list that lies in "ram"
        entries. So the two views agree exactly when all free memory does. */
    method AddSysram()
      requires Valid() && View(asinfo.entries, "sysram") == iset{}
      modifies this`sysramAdded, asinfo
      ensures Valid() && sysramAdded && State() == old(State())
      ensures KeepsOwners(old(asinfo.entries), asinfo.entries)
      ensures Extended(old(asinfo.entries), asinfo.entries, "sysram")
      ensures View(asinfo.entries, "sysram") == State().free * View(old(asinfo.entries), "ram")
      ensures ViewsAgree() <==> State().free <= View(old(asinfo.entries), "ram")
      ensures Backed(asinfo.entries)
    {
      var list := ram.Contents();
      var k := 0;
      ghost var es0 := asinfo.entries;
      hide View, Backed, AvoidsValid;
      assert Covered(list[..0]) == iset{};
      NoneBacked(es0);
      while k < |list|
        invariant 0 <= k <= |list| && asinfo.Valid() && KeepsOwners(es0, asinfo.entries)
        invariant Extended(es0, asinfo.entries, "sysram")
        invariant View(asinfo.entries, "ram") == View(es0, "ram")
        invariant View(asinfo.entries, "sysram") == Covered(list[..k]) * View(es0, "ram")
        invariant Backed(asinfo.entries)
      {
        NextIsApart(list, k);
        AddSysramEntry(list[k]);
        PrefixGrows(list, k, View(es0, "ram"));
        k := k + 1;
      }
      assert list[..k] == list;
      sysramAdded := true;
    }

    /** The memory the boot image occupies behind startup itself. */
    function Image(): Range
      requires startupSize <= ramSize
    {
      Range(imageStart + startupSize, ramSize - startupSize)
    }

    /** The entries add_ram starts an empty section with; init_asinfo is left to the board. */
    method StartSection()
      requires asinfo.Valid() && Configured()
      modifies asinfo
      ensures asinfo.Valid() && asinfo.entries == Started(old(asinfo.entries), memoryEnd)
    {
      if |asinfo.entries| == 0 {
        var mem := asinfo.Add(0, memoryEnd, PLAIN, "memory", None);
        var _ := asinfo.Add(0, FOUR_GIG - 1, PLAIN, "below4G", Some(mem));
      }
    }

    /** The address space part of add_ram. */
    method AddRamEntry(start: nat, size: nat)
      requires asinfo.Valid() && Configured() && 0 < start + size < TWO64
      requires size > 0 ==> start + size <= PADDR_LIMIT
      modifies asinfo
      ensures asinfo.Valid()
      ensures OwnersBefore(Started(old(asinfo.entries), memoryEnd))
      ensures RamEntryAdded(Started(old(asinfo.entries), memoryEnd), asinfo.entries, start, size)
      ensures old(asinfo.entries) == [] ==>
                && View(asinfo.entries, "memory") == Span(0, memoryEnd + 1)
                && View(asinfo.entries, "ram") == Span(start, start + size) * Span(0, memoryEnd + 1)
    {
      InitialViews(memoryEnd);
      StartSection();
      ghost var es := asinfo.entries;
      var end := start + size - 1;
      var r := asinfo.AddContaining(start, end, PLAIN, "ram", "memory");
      RamEntryNames(es, asinfo.entries, start, size, r);
    }

    /** The avoid entries in use, and the one the temporary system page may still need. */
    ghost function AvoidNeed(): nat
      reads this
    {
      |avoid| + if tempSyspage.None? then 1 else 0
    }

    /** The search for the temporary system page in add_ram. */
    method PlaceTempSyspage() returns (o: Outcome)
      requires Valid()
      modifies this`avoid, this`given, this`tempSyspage
      ensures Valid() && State().free == old(State().free)
      ensures GivenAfter(old(State()), State()) && old(State()).avoided <= State().avoided
      ensures old(tempSyspage).Some? ==> State() == old(State()) && tempSyspage == old(tempSyspage) && o.Done?
      ensures old(tempSyspage).None? && tempSyspage.None? ==> State() == old(State()) && o.Done?
      ensures old(tempSyspage).None? && tempSyspage.Some? ==>
                R.Step(old(State()), R.Workspace(Range(tempSyspage.value, TEMP_SYSPAGE_SIZE)), State())
      ensures old(tempSyspage).None? ==>
                FirstFit(ram.Contents(), old(avoid), TEMP_SYSPAGE_SIZE, pagesize, tempSyspage)
      ensures AvoidNeed() <= old(AvoidNeed()) && (AvoidNeed() < MAX_AVOID_SLOTS ==> o.Done?)
    {
      o := Done;
      if tempSyspage.None? {
        tempSyspage := Find(TEMP_SYSPAGE_SIZE, pagesize);
        if tempSyspage.Some? {
          given := given + [Range(tempSyspage.value, TEMP_SYSPAGE_SIZE)];
          o := AvoidRam(tempSyspage.value, TEMP_SYSPAGE_SIZE);
        }
      }
    }

    /** add_ram. The memory of the image never stays free, and the first memory large enough gives
        up a block for the temporary system page. */
    method AddRam(start: nat, size: nat) returns (o: Outcome)
      requires Valid() && !sysramAdded && 0 < start + size < TWO64
      requires size > 0 ==> start + size <= PADDR_LIMIT
      modifies this`avoid, this`given, this`tempSyspage, ram`len, ram.list, asinfo
      ensures asinfo.Valid() && OwnersBefore(Started(old(asinfo.entries), memoryEnd))
      ensures RamEntryAdded(Started(old(asinfo.entries), memoryEnd), asinfo.entries, start, size)
      // the first call finds an empty section, and sets up all memory there can be
      ensures old(asinfo.entries) == [] ==>
                && View(asinfo.entries, "memory") == Span(0, memoryEnd + 1)
                && View(asinfo.entries, "ram") == Span(start, start + size) * Span(0, memoryEnd + 1)
      ensures o.Done? ==> Valid()
      ensures o.Done? ==> State().free == old(State().free) + Span(start, start + size)
                                          - Span(imageStart + startupSize, imageStart + ramSize)
      ensures o.Done? ==> GivenAfter(old(State()), State())
      ensures o.Done? ==> old(State()).avoided <= State().avoided
      ensures o.Done? && R.MaySupply(old(State()), Range(start, size)) ==>
                R.Run(old(State()), AddRamOps(start, size, old(tempSyspage), tempSyspage), State())
      // it returns while both lists have room
      ensures o.Done? ==> ram.len <= old(ram.len) + 2 && AvoidNeed() <= old(AvoidNeed())
      ensures old(ram.len) + 2 <= MAX_SLOTS && old(AvoidNeed()) < MAX_AVOID_SLOTS ==> o.Done?
    {
      hide RamEntryAdded, View, Started, AvoidsValid, Covered, R.MaySupply, R.Step, R.Run, RamOps, FirstFit;
      ghost var s0 := State();
      AddRamEntry(start, size);
      o := SupplyRam(start, size);
      if o.Crash? {
        return;
      }
      ghost var s2 := State();
      ghost var before := tempSyspage;
      o := PlaceTempSyspage();
      if R.MaySupply(s0, Range(start, size)) {
        AddRamRuns(s0, s2, State(), Range(start, size), Image(), before, tempSyspage);
      }
    }

    /** The free list part of add_ram. */
    method SupplyRam(start: nat, size: nat) returns (o: Outcome)
      requires Valid() && !sysramAdded && (size > 0 ==> start + size <= PADDR_LIMIT)
      modifies this`given, ram`len, ram.list, asinfo
      ensures asinfo.entries == old(asinfo.entries)
      ensures o.Done? ==> Valid()
      ensures o.Done? ==> State() == old(State()).(free :=
                old(State().free) + Span(start, start + size) - R.Bytes(Image()))
      ensures o.Done? ==> ram.len <= old(ram.len) + 2
      ensures old(ram.len) + 2 <= MAX_SLOTS ==> o.Done?
    {
      o := ram.AddMem(start, size);
      if o.Done? {
        var taken;
        taken, o := AllocRam(Some(imageStart + startupSize), ramSize - startupSize, 1);
      }
    }

    /** The steps of one add_ram. */
    ghost function AddRamOps(start: nat, size: nat, before: Option<nat>, after: Option<nat>): seq<R.Op>
      requires startupSize <= ramSize
    {
      RamOps(Range(start, size), Image(), before, after)
    }

    /** The entry reserve_ram adds for its block. */
    method NameReserved(addr: nat, size: nat, name: string)
      requires asinfo.Valid() && 0 < size && addr + size <= PADDR_LIMIT
      modifies asinfo
      ensures asinfo.Valid() && KeepsOwners(old(asinfo.entries), asinfo.entries)
      ensures Extended(old(asinfo.entries), asinfo.entries, name)
      ensures View(asinfo.entries, name) ==
              View(old(asinfo.entries), name) + Span(addr, addr + size) * View(old(asinfo.entries), "ram")
      ensures name != "sysram" && View(old(asinfo.entries), "sysram") !! Span(addr, addr + size) ==>
                View(asinfo.entries, "sysram") == View(old(asinfo.entries), "sysram")
    {
      ghost var es := asinfo.entries;
      var start, end := addr, addr + size - 1;
      var r := asinfo.AddContaining(start, end, PLAIN, name, "ram");
      ghost var ps := Emitted(es, start, end, "ram");
      ContainedExtends(es, asinfo.entries, ps, PLAIN, name, r);
      forall x
        ensures Named(asinfo.entries, name, x) <==> Named(es, name, x) || (start <= x <= end && Named(es, "ram", x))
      {
        ContainedNames(es, asinfo.entries, ps, PLAIN, name, r, x);
        EmittedIsIntersection(es, start, end, "ram", x);
      }
      if name != "sysram" && View(es, "sysram") !! Span(addr, addr + size) {
        forall x | start <= x <= end ensures !Named(es, "sysram", x) {
          assert x in Span(addr, addr + size);
        }
        OwnersElsewhere(es, start, end, "ram", "sysram");
        forall x ensures Named(asinfo.entries, "sysram", x) <==> Named(es, "sysram", x) {
          OtherNamesKept(es, asinfo.entries, ps, PLAIN, name, r, "sysram", x);
        }
      }
    }

    /** The block reserve_ram takes: from the top of memory, or with the first fit if asked for the
        low region. */
    method ReserveBlock(size: nat, a: nat, pageSize: nat, lowRegion: bool) returns (r: Option<nat>, o: Outcome)
      requires Valid() && 0 < pageSize <= 0x1_0000_0000 && 0 < a <= 0x1_0000_0000 && 0 < size <= 0x1_0000_0000
      modifies this`given, ram`len, ram.list, asinfo
      ensures asinfo.Valid() && KeepsOwners(old(asinfo.entries), asinfo.entries)
      ensures o.Done? ==> Valid() && r.Some? && r.value + size <= PADDR_LIMIT
      ensures o.Done? ==> R.Step(old(State()), R.Allocate(Range(r.value, size)), State())
      ensures lowRegion ==> FirstFit(old(ram.Contents()), old(avoid), size, a, r)
      ensures Round(size, pageSize) < TWO64
      ensures !lowRegion ==>
                TopResult(old(ram.Contents()), old(avoid), Round(size, pageSize), a, TWO64 - 1,
                          if r.Some? then r.value else 0)
      // it crashes without a block, and where taking the block out of the lists does
      ensures o.Crash? <==>
                r.None? || TakeCrashes(old(ram.len), old(ram.Contents()), old(asinfo.entries), r.value, size)
      ensures !sysramAdded ==> asinfo.entries == old(asinfo.entries)
      ensures sysramAdded && o.Done? ==>
                View(asinfo.entries, "sysram") == View(old(asinfo.entries), "sysram") - Span(r.value, r.value + size)
      ensures sysramAdded && o.Done? && Backed(old(asinfo.entries)) ==>
                Backed(asinfo.entries) && OthersKept(old(asinfo.entries), asinfo.entries)
    {
      hide Backed, OthersKept, View, FirstFit, TopResult, ViewsAgree;
      var top := None;
      if !lowRegion {
        top := FindTopRam(ram.Contents(), avoid, size, a, pageSize, TWO64 - 1);
        if top.None? {
          return None, Crash;
        }
        TopBlockAvailable(ram.Contents(), avoid, State(), size, a, pageSize, top.value);
      }
      r, o := AllocRam(top, size, a);
      if r.None? {
        o := Crash;
      } else if top.Some? {
        given := given + [Range(r.value, size)];
      }
    }

    /** reserve_ram. */
    method ReserveRam(size: nat, align: nat, asked: string, pageSize: nat, lowRegion: bool)
      returns (r: Option<nat>, o: Outcome)
      requires Valid() && 0 < pageSize <= 0x1_0000_0000 && align <= 0x1_0000_0000 && size <= 0x1_0000_0000
      modifies this`given, ram`len, ram.list, asinfo
      ensures o.Done? ==> Valid()
      ensures size == 0 ==> o.Done? && r.None? && State() == old(State()) && asinfo.entries == old(asinfo.entries)
      ensures size > 0 && o.Done? ==> r.Some?
      ensures size > 0 && o.Done? ==> R.Step(old(State()), R.Allocate(Range(r.value, size)), State())
      ensures size > 0 && lowRegion ==>
                FirstFit(old(ram.Contents()), old(avoid), size, if align != 0 then align else pageSize, r)
      ensures Round(size, pageSize) < TWO64
      ensures size > 0 && !lowRegion ==>
                TopResult(old(ram.Contents()), old(avoid), Round(size, pageSize),
                          if align != 0 then align else pageSize, TWO64 - 1, if r.Some? then r.value else 0)
      ensures o.Crash? <==>
                && size > 0
                && (|| r.None?
                    || TakeCrashes(old(ram.len), old(ram.Contents()), old(asinfo.entries), r.value, size))
      ensures sysramAdded && o.Done? && asked != "sysram" && old(ViewsAgree()) ==> ViewsAgree()
      // the part of the block in "ram" entries gets the name, before add_sysram and after it
      ensures size > 0 && o.Done? && (!sysramAdded || (Backed(old(asinfo.entries)) && asked != "sysram")) ==>
                var name := if asked == "" then "reserved" else asked;
                View(asinfo.entries, name) == View(old(asinfo.entries), name)
                  + Span(r.value, r.value + size) * View(old(asinfo.entries), "ram")
    {
      hide FirstFit, TopResult, KeepsOwners, Round, Backed, OthersKept;
      RoundInWord(size, pageSize);
      if size == 0 {
        return None, Done;
      }
      r, o := ReserveBlock(size, if align != 0 then align else pageSize, pageSize, lowRegion);
      if o.Done? {
        if sysramAdded && Backed(old(asinfo.entries)) {
          OtherViews(old(asinfo.entries), asinfo.entries, if asked == "" then "reserved" else asked);
          OtherViews(old(asinfo.entries), asinfo.entries, "ram");
        }
        NameReserved(r.value, size, if asked == "" then "reserved" else asked);
      }
    }
  }
}
