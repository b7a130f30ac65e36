/** syspage_memory.c over its buffer, and the list of registered callout data of callouts.c. */
module Syspage {
  import opened Bits
  import opened Arena
  import opened ArenaRuns
  import opened Wrappers

  /** memmove to a higher address: the bytes are copied from the last to the first. */
  method MoveUp(buf: array<Byte>, from: nat, len: nat, add: nat)
    requires from + len + add <= buf.Length
    modifies buf
    ensures forall x :: from + add <= x < from + add + len ==> buf[x] == old(buf[x - add])
    ensures forall x :: 0 <= x < from + add || from + add + len <= x < buf.Length ==> buf[x] == old(buf[x])
  {
    var k := len;
    while k > 0
      invariant 0 <= k <= len
      invariant forall x :: from + add + k <= x < from + add + len ==> buf[x] == old(buf[x - add])
      invariant forall x :: 0 <= x < from + add + k || from + add + len <= x < buf.Length ==> buf[x] == old(buf[x])
    {
      k := k - 1;
      buf[from + add + k] := buf[from + k];
    }
  }

  method Clear(buf: array<Byte>, from: nat, len: nat)
    requires from + len <= buf.Length
    modifies buf
    ensures forall x :: from <= x < from + len ==> buf[x] == 0
    ensures forall x :: 0 <= x < from || from + len <= x < buf.Length ==> buf[x] == old(buf[x])
  {
    var k := 0;
    while k < len
      invariant 0 <= k <= len
      invariant forall x :: from <= x < from + k ==> buf[x] == 0
      invariant forall x :: 0 <= x < from || from + k <= x < buf.Length ==> buf[x] == old(buf[x])
    {
      buf[from + k] := 0;
      k := k + 1;
    }
  }

  lemma InsideOf(s: State, i: nat)
    requires Arena.Inside(s) && i < |s.sects|
    ensures s.base <= s.sects[i].p && s.sects[i].End() <= s.base + |s.bytes|
  {
  }

  /** What the loops of grow_syspage_section leave is the grown state. */
  lemma GrowIs(s: State, t: State, i: nat, add: nat)
    requires Arena.Inside(s) && i < |s.sects| && |t.sects| == |s.sects| && |t.owners| == |s.owners|
    requires t.base == s.base && t.fixed == s.fixed && t.max == s.max
    requires s.base <= s.sects[i].End() <= s.base + |s.bytes|
    requires t.sects[i] == Sect(s.sects[i].p, s.sects[i].size + add)
    requires forall j :: 0 <= j < |s.sects| && j != i ==> t.sects[j] == Shifted(s.sects, i, add, j)
    requires var b := s.sects[i].End() - s.base; t.bytes == s.bytes[..b] + Zeros(add) + s.bytes[b..]
    requires forall q :: 0 <= q < |s.owners| ==>
               t.owners[q] == Relocated(s.owners[q], s.sects[i].End(), |s.bytes| - (s.sects[i].End() - s.base), add)
    ensures t == Arena.Grow(s, i, add) && Arena.Inside(t)
  {
  }

  lemma GrowNothing(s: State, i: nat)
    requires Arena.Inside(s) && i < |s.sects| && s.base <= s.sects[i].End() <= s.base + |s.bytes|
    ensures Arena.Grow(s, i, 0) == s
  {
  }

  lemma Round8Twice(x: nat)
    ensures Round8(Round8(x)) == Round8(x) && (Round8(x) > 0 <==> x > 0)
  {
  }

  /** The page as init_syspage_memory first sets it up. */
  function EmptyPage(n: nat, spsize: nat): Page
    requires n > 0
  {
    Page(seq(n, i => if i == 0 then Part(0, Zeros(spsize)) else Part(spsize, [])), spsize, [])
  }

  function InitOps(callout: nat, calloutSize: nat, typedStrings: nat, strings: nat, hwinfo: nat, prefixSize: nat,
                   gicMap: nat, gicSize: nat): seq<Op>
  {
    [Place(callout, calloutSize), Extend(typedStrings, 4), Extend(strings, 1), Extend(hwinfo, prefixSize),
     Place(gicMap, gicSize)]
  }

  /** The sections that init_syspage_memory sets and those that it grows are different ones, and none
      is the header. */
  predicate InitSections(n: nat, callout: nat, typedStrings: nat, strings: nat, hwinfo: nat, gicMap: nat) {
    && 0 < callout < n && 0 < gicMap < n && callout != gicMap
    && 0 < typedStrings < n && typedStrings != callout && typedStrings != gicMap
    && 0 < strings < n && strings != callout && strings != gicMap
    && 0 < hwinfo < n && hwinfo != callout && hwinfo != gicMap
  }

  /** What the page looks like while it is initialised: the header and the set section in front, the
      others behind, and the one to be set last still empty. */
  predicate Starting(p: Page, callout: nat, gicMap: nat) {
    && callout < |p.parts| && gicMap < |p.parts| && p.parts[gicMap].bytes == []
    && forall j :: 0 <= j < |p.parts| && j != 0 && j != callout ==> p.parts[j].at >= p.fixed
  }

  lemma StillStarting(p: Page, i: nat, add: nat, callout: nat, gicMap: nat)
    requires Starting(p, callout, gicMap) && i < |p.parts| && i != 0 && i != callout && i != gicMap
    ensures Starting(PageStep(p, Extend(i, add)), callout, gicMap)
  {
  }

  lemma ExtendFirst(p: Page, i: nat, add: nat, ops: seq<Op>, callout: nat, gicMap: nat)
    requires Starting(p, callout, gicMap) && i < |p.parts| && i != 0 && i != callout
    requires GrowsBehind(PageStep(p, Extend(i, add)), ops)
    ensures GrowsBehind(p, [Extend(i, add)] + ops)
  {
    hide PageStep;
    assert ([Extend(i, add)] + ops)[1..] == ops;
  }

  lemma PlaceFirst(p: Page, i: nat, size: nat, ops: seq<Op>)
    requires i < |p.parts| && p.parts[i].bytes == [] && GrowsBehind(PageStep(p, Place(i, size)), ops)
    ensures GrowsBehind(p, [Place(i, size)] + ops)
  {
    hide PageStep;
    assert ([Place(i, size)] + ops)[1..] == ops;
  }

  /** So the calls of init_syspage_memory are proper ones. */
  lemma InitAllowed(n: nat, spsize: nat, callout: nat, calloutSize: nat, typedStrings: nat, strings: nat, hwinfo: nat,
                    prefixSize: nat, gicMap: nat, gicSize: nat)
    requires spsize > 0 && InitSections(n, callout, typedStrings, strings, hwinfo, gicMap)
    ensures AllAllowed(EmptyPage(n, spsize),
                       InitOps(callout, calloutSize, typedStrings, strings, hwinfo, prefixSize, gicMap, gicSize))
  {
    var p := EmptyPage(n, spsize);
    var p1 := PageStep(p, Place(callout, calloutSize));
    var p2 := PageStep(p1, Extend(typedStrings, 4));
    var p3 := PageStep(p2, Extend(strings, 1));
    var p4 := PageStep(p3, Extend(hwinfo, prefixSize));
    assert Orderly(p);
    assert Starting(p1, callout, gicMap) && |p1.parts| == |p2.parts| == |p3.parts| == |p4.parts| == n;
    StillStarting(p1, typedStrings, 4, callout, gicMap);
    StillStarting(p2, strings, 1, callout, gicMap);
    StillStarting(p3, hwinfo, prefixSize, callout, gicMap);
    hide PageStep, Orderly;
    PlaceFirst(p4, gicMap, gicSize, []);
    ExtendFirst(p3, hwinfo, prefixSize, [Place(gicMap, gicSize)], callout, gicMap);
    ExtendFirst(p2, strings, 1, [Extend(hwinfo, prefixSize), Place(gicMap, gicSize)], callout, gicMap);
    ExtendFirst(p1, typedStrings, 4, [Extend(strings, 1), Extend(hwinfo, prefixSize), Place(gicMap, gicSize)],
                callout, gicMap);
    PlaceFirst(p, callout, calloutSize, InitOps(callout, calloutSize, typedStrings, strings, hwinfo, prefixSize,
                                                gicMap, gicSize)[1..]);
    BehindIsAllowed(p, InitOps(callout, calloutSize, typedStrings, strings, hwinfo, prefixSize, gicMap, gicSize));
  }

  /** Where section j is at the end of init_syspage_memory, and how long it is: the header, the two set
      sections, the three grown ones, and behind them the empty ones. c, g and h are the sizes asked
      for, in whole words. */
  predicate InitPart(q: Part, j: nat, spsize: nat, callout: nat, c: nat, typedStrings: nat, strings: nat, hwinfo: nat,
                     h: nat, gicMap: nat, g: nat)
  {
    if j == 0 then q == Part(0, Zeros(spsize))
    else if j == callout then q == Part(spsize, Zeros(c))
    else if j == gicMap then q == Part(spsize + c, Zeros(g))
    else if j == typedStrings then q == Part(spsize + c + g, Zeros(8))
    else if j == strings then q == Part(spsize + c + g + 8, Zeros(8))
    else if j == hwinfo then q == Part(spsize + c + g + 16, Zeros(h))
    else q == Part(spsize + c + g + 16 + h, [])
  }

  lemma InitResult(n: nat, spsize: nat, callout: nat, calloutSize: nat, c: nat, typedStrings: nat, strings: nat,
                   hwinfo: nat, prefixSize: nat, h: nat, gicMap: nat, gicSize: nat, g: nat, j: nat)
    requires spsize > 0 && InitSections(n, callout, typedStrings, strings, hwinfo, gicMap) && j < n
    requires typedStrings != strings && typedStrings != hwinfo && strings != hwinfo
    requires 0 < calloutSize <= c < calloutSize + 8 && c % 8 == 0 && 0 < prefixSize <= h < prefixSize + 8 && h % 8 == 0
    requires gicSize <= g < gicSize + 8 && g % 8 == 0
    requires AllAllowed(EmptyPage(n, spsize),
                        InitOps(callout, calloutSize, typedStrings, strings, hwinfo, prefixSize, gicMap, gicSize))
    ensures var p := PageRun(EmptyPage(n, spsize),
                       InitOps(callout, calloutSize, typedStrings, strings, hwinfo, prefixSize, gicMap, gicSize));
            && |p.parts| == n && p.fixed == spsize + c + g
            && InitPart(p.parts[j], j, spsize, callout, c, typedStrings, strings, hwinfo, h, gicMap, g)
  {
    hide Round8, AllAllowed, PageRun, PageStep;
    Round8Exactly(calloutSize, c);
    Round8Exactly(4, 8);
    Round8Exactly(1, 8);
    Round8Exactly(prefixSize, h);
    Round8Exactly(gicSize, g);
    var ops := InitOps(callout, calloutSize, typedStrings, strings, hwinfo, prefixSize, gicMap, gicSize);
    var p := EmptyPage(n, spsize);
    FirstOf(p, ops);
    var p1 := PageStep(p, Place(callout, calloutSize));
    assert ops[1..] ==
           [Extend(typedStrings, 4), Extend(strings, 1), Extend(hwinfo, prefixSize), Place(gicMap, gicSize)];
    FirstOf(p1, ops[1..]);
    var p2 := PageStep(p1, Extend(typedStrings, 4));
    assert ops[1..][1..] == [Extend(strings, 1), Extend(hwinfo, prefixSize), Place(gicMap, gicSize)];
    FirstOf(p2, ops[1..][1..]);
    var p3 := PageStep(p2, Extend(strings, 1));
    assert ops[1..][1..][1..] == [Extend(hwinfo, prefixSize), Place(gicMap, gicSize)];
    FirstOf(p3, ops[1..][1..][1..]);
    var p4 := PageStep(p3, Extend(hwinfo, prefixSize));
    assert ops[1..][1..][1..][1..] == [Place(gicMap, gicSize)];
    FirstOf(p4, ops[1..][1..][1..][1..]);
    ThreeSteps(n, spsize, callout, calloutSize, c, typedStrings, strings, p1, p2);
    FiveSteps(n, spsize, callout, c, typedStrings, strings, hwinfo, prefixSize, h, gicMap, gicSize, g, j, p3, p4);
    NoSteps(PageStep(p4, Place(gicMap, gicSize)));
  }

  lemma FirstOf(p: Page, ops: seq<Op>)
    requires ops != [] && AllAllowed(p, ops)
    ensures Called(p, ops[0]) && AllAllowed(PageStep(p, ops[0]), ops[1..])
    ensures PageRun(p, ops) == PageRun(PageStep(p, ops[0]), ops[1..])
  {
  }

  lemma NoSteps(p: Page)
    ensures AllAllowed(p, []) && PageRun(p, []) == p
  {
  }

  /** After the header, the first set section and the first two grown ones. */
  predicate ThirdPart(q: Part, j: nat, spsize: nat, callout: nat, c: nat, typedStrings: nat, strings: nat) {
    if j == 0 then q == Part(0, Zeros(spsize))
    else if j == callout then q == Part(spsize, Zeros(c))
    else if j == typedStrings then q == Part(spsize + c, Zeros(8))
    else if j == strings then q == Part(spsize + c + 8, Zeros(8))
    else q == Part(spsize + c + 16, [])
  }

  lemma ThreeSteps(n: nat, spsize: nat, callout: nat, calloutSize: nat, c: nat, typedStrings: nat, strings: nat,
                   p1: Page, p2: Page)
    requires spsize > 0 && 0 < callout < n && 0 < typedStrings < n && 0 < strings < n
    requires callout != typedStrings && callout != strings && typedStrings != strings
    requires 0 < c == Round8(calloutSize) && 8 == Round8(4) == Round8(1)
    requires var p := EmptyPage(n, spsize);
             && Called(p, Place(callout, calloutSize)) && p1 == PageStep(p, Place(callout, calloutSize))
             && Called(p1, Extend(typedStrings, 4)) && p2 == PageStep(p1, Extend(typedStrings, 4))
             && Called(p2, Extend(strings, 1))
    ensures var p3 := PageStep(p2, Extend(strings, 1));
            && |p3.parts| == n && p3.fixed == spsize + c
            && forall j :: 0 <= j < n ==> ThirdPart(p3.parts[j], j, spsize, callout, c, typedStrings, strings)
  {
    hide Round8;
    assert [] + Zeros(8) == Zeros(8) && [] + Zeros(c) == Zeros(c);
  }

  lemma FiveSteps(n: nat, spsize: nat, callout: nat, c: nat, typedStrings: nat, strings: nat,
                  hwinfo: nat, prefixSize: nat, h: nat, gicMap: nat, gicSize: nat, g: nat, j: nat, p3: Page, p4: Page)
    requires spsize > 0 && InitSections(n, callout, typedStrings, strings, hwinfo, gicMap) && j < n
    requires typedStrings != strings && typedStrings != hwinfo && strings != hwinfo
    requires 0 < c && 0 < h == Round8(prefixSize) && g == Round8(gicSize)
    requires |p3.parts| == n && p3.fixed == spsize + c
    requires forall k :: 0 <= k < n ==> ThirdPart(p3.parts[k], k, spsize, callout, c, typedStrings, strings)
    requires Called(p3, Extend(hwinfo, prefixSize)) && p4 == PageStep(p3, Extend(hwinfo, prefixSize))
    requires Called(p4, Place(gicMap, gicSize))
    ensures var p5 := PageStep(p4, Place(gicMap, gicSize));
            && |p5.parts| == n && p5.fixed == spsize + c + g
            && InitPart(p5.parts[j], j, spsize, callout, c, typedStrings, strings, hwinfo, h, gicMap, g)
  {
    hide Round8;
    assert [] + Zeros(h) == Zeros(h) && [] + Zeros(g) == Zeros(g);
    assert ThirdPart(p3.parts[hwinfo], hwinfo, spsize, callout, c, typedStrings, strings);
    assert ThirdPart(p3.parts[gicMap], gicMap, spsize, callout, c, typedStrings, strings);
    assert ThirdPart(p3.parts[j], j, spsize, callout, c, typedStrings, strings);
  }

  lemma EmptyRepresents(s: State, spsize: nat)
    requires |s.sects| > 0 && s.sects[0] == Sect(s.base, spsize) && 0 < spsize
    requires forall i :: 1 <= i < |s.sects| ==> s.sects[i] == Sect(s.base + spsize, 0)
    requires s.bytes == Zeros(spsize) && s.fixed == spsize && s.owners == []
    ensures Represents(s, EmptyPage(|s.sects|, spsize))
  {
    hide Sum, Covered, Held, Content;
    OneNonempty(s.sects);
    HeaderHolds(s);
    forall i | 0 <= i < |s.sects|
      ensures EmptyPage(|s.sects|, spsize).parts[i] == Part(s.sects[i].p - s.base, Content(s, i))
    {
      EmptyContent(s, i);
    }
  }

  lemma HeaderHolds(s: State)
    requires |s.sects| > 0 && s.sects[0] == Sect(s.base, |s.bytes|)
    ensures Covered(s)
  {
    forall x: nat | s.base <= x < s.base + |s.bytes| ensures Held(s, x) {
      assert Holds(s, 0, x);
    }
  }

  lemma EmptyContent(s: State, i: nat)
    requires Arena.Inside(s) && i < |s.sects| && s.sects[0] == Sect(s.base, |s.bytes|)
    ensures i == 0 ==> Content(s, i) == s.bytes
    ensures s.sects[i].size == 0 ==> Content(s, i) == []
  {
  }

  lemma {:induction false} OneNonempty(sects: seq<Sect>)
    requires |sects| > 0 && forall i :: 1 <= i < |sects| ==> sects[i].size == 0
    ensures Sum(sects) == sects[0].size
  {
    if |sects| > 1 {
      OneNonempty(sects[..|sects| - 1]);
    } else {
      assert Sum(sects[..0]) == 0;
    }
  }

  lemma Inserted(was: seq<Byte>, now: seq<Byte>, b: nat, add: nat)
    requires b <= |was| && |now| == |was| + add
    requires forall x :: 0 <= x < b ==> now[x] == was[x]
    requires forall x :: b <= x < b + add ==> now[x] == 0
    requires forall x :: b + add <= x < |now| ==> now[x] == was[x - add]
    ensures now == was[..b] + Zeros(add) + was[b..]
  {
  }

  class Syspage {
    var base: nat             // lsp.syspage.p
    var buf: array<Byte>      // what lies there
    const sects: array<Sect>  // lsp
    var total: nat            // lsp.syspage.p->total_size
    var max: nat              // lsp.syspage.p->size while the page grows
    var fixed: nat            // fixed_size
    var owners: seq<Patch>    // patch_data

    ghost predicate Valid()
      reads this, buf, sects
    {
      && total <= buf.Length && max <= buf.Length
      && Arena.Inside(State())
    }

    ghost function State(): State
      requires total <= buf.Length
      reads this, buf, sects
    {
      Arena.State(base, sects[..], buf[..total], fixed, max, owners)
    }

    constructor (sects: array<Sect>, buf: array<Byte>)
      ensures this.sects == sects && this.buf == buf && owners == []
    {
      this.sects, this.buf, owners := sects, buf, [];
    }

    /** The bytes from b on move up by add, and zeros fill the gap. */
    method Insert(b: nat, add: nat)
      requires b <= total && total + add <= buf.Length
      modifies this`total, buf
      ensures buf == old(buf) && total == old(total) + add
      ensures buf[..total] == old(buf[..total])[..b] + Zeros(add) + old(buf[..total])[b..]
    {
      ghost var was := buf[..total];
      MoveUp(buf, b, total - b, add);
      Clear(buf, b, add);
      total := total + add;
      Inserted(was, buf[..total], b, add);
    }

    /** The sections behind section i, by address, move up by add. */
    method ShiftSections(i: nat, add: nat)
      requires i < sects.Length
      modifies sects
      ensures sects[i] == old(sects[i])
      ensures forall j :: 0 <= j < sects.Length && j != i ==> sects[j] == Shifted(old(sects[..]), i, add, j)
    {
      var bottom := sects[i].End();
      var j := 0;
      while j < sects.Length
        invariant 0 <= j <= sects.Length && sects[i] == old(sects[i])
        invariant forall k :: 0 <= k < j && k != i ==> sects[k] == Shifted(old(sects[..]), i, add, k)
        invariant forall k :: j <= k < sects.Length ==> sects[k] == old(sects[k])
      {
        if j != i && sects[j].p >= bottom {
          sects[j] := Sect(sects[j].p + add, sects[j].size);
        }
        j := j + 1;
      }
    }

    /** callout_reloc_data. */
    method RelocData(from: nat, len: nat, diff: int)
      requires from + diff >= 0
      modifies this`owners
      ensures |owners| == |old(owners)|
      ensures forall q :: 0 <= q < |owners| ==> owners[q] == Relocated(old(owners)[q], from, len, diff)
    {
      var q := 0;
      while q < |owners|
        invariant 0 <= q <= |owners| == |old(owners)|
        invariant forall r :: 0 <= r < q ==> owners[r] == Relocated(old(owners)[r], from, len, diff)
        invariant forall r :: q <= r < |owners| ==> owners[r] == old(owners)[r]
      {
        var o := owners[q];
        if from <= o.owner && from + len > o.owner {
          owners := owners[q := o.(owner := o.owner + diff)];
        }
        q := q + 1;
      }
    }

    /** grow_syspage_section. */
    method Grow(i: nat, add0: nat) returns (p: nat, o: Outcome)
      requires Valid() && i < sects.Length
      modifies this`total, this`owners, buf, sects
      ensures o.Crash? <==> add0 > 0 && old(total) + Round8(add0) > max
      ensures o.Crash? ==> total == old(total) && State() == old(State())
      ensures o.Done? ==> Valid() && State() == Arena.Grow(old(State()), i, Round8(add0)) && p == sects[i].p
      // by a multiple of eight bytes
      ensures o.Done? ==> exists n: nat ::
                add0 <= n < add0 + 8 && n % 8 == 0 && State() == Arena.Grow(old(State()), i, n)
    {
      var add := add0;
      o := Done;
      if add > 0 {
        add := Round8(add);
        if total + add > max {
          return 0, Crash;
        }
        hide Arena.Grow, Arena.Inside;
        ghost var s := State();
        InsideOf(s, i);
        var bottom := sects[i].End();
        ShiftSections(i, add);
        var len := total - (bottom - base);
        Insert(bottom - base, add);
        RelocData(bottom, len, add);
        sects[i] := Sect(sects[i].p, sects[i].size + add);
        GrowIs(s, State(), i, add);
      }
      p := sects[i].p;
      GrowNothing(old(State()), i);
      Round8Exactly(add0, Round8(add0));
    }

    /** The first two assignments of set_syspage_section. */
    method PlaceBehind(i: nat, size: nat)
      requires Valid() && i < sects.Length && fixed + sects[i].size <= total
      modifies this`fixed, sects
      ensures Valid() && State() == Moved(old(State()), i, size)
    {
      ghost var s := State();
      sects[i] := Sect(base + fixed, sects[i].size);
      fixed := fixed + size;
      assert sects[..] == s.sects[i := sects[i]];
    }

    /** set_syspage_section. */
    method Set(i: nat, size0: nat) returns (p: nat, o: Outcome)
      requires Valid() && i < sects.Length && fixed + sects[i].size <= total
      modifies this`total, this`owners, this`fixed, buf, sects
      ensures o.Crash? <==> size0 > 0 && old(total) + Round8(size0) > max
      ensures o.Done? ==> Valid() && State() == Arena.Set(old(State()), i, Round8(size0)) && p == sects[i].p
      ensures o.Done? ==> exists n: nat ::
                size0 <= n < size0 + 8 && n % 8 == 0 && State() == Arena.Set(old(State()), i, n)
    {
      hide Round8, Arena.Grow, Moved, Arena.Inside;
      Round8Twice(size0);
      Round8Exactly(size0, Round8(size0));
      var size := Round8(size0);
      PlaceBehind(i, size);
      p, o := Grow(i, size);
    }

    /** callout_register_data for the slot at rp; `patched` says that the slot holds a callout with a
        patcher, and that data was given. */
    method RegisterData(rp: nat, data: nat, patched: bool)
      requires Valid()
      modifies this`owners
      ensures Valid()
      ensures owners == if patched && !Taken(old(owners), rp) then [Patch(rp, data)] + old(owners) else old(owners)
    {
      if patched {
        var q := 0;
        while q < |owners|
          invariant 0 <= q <= |owners|
          invariant forall r :: 0 <= r < q ==> owners[r].owner != rp
        {
          if owners[q].owner == rp {
            return;
          }
          q := q + 1;
        }
        owners := [Patch(rp, data)] + owners;
      }
    }

    /** The page init_syspage_memory starts from: nothing but the header. */
    method InitEmpty(base0: nat, max0: nat, spsize: nat)
      requires 0 < sects.Length && 0 < spsize <= buf.Length && max0 <= buf.Length
      modifies this`base, this`total, this`max, this`fixed, this`owners, buf, sects
      ensures Valid() && max == max0 && buf == old(buf)
      ensures Represents(State(), EmptyPage(sects.Length, spsize))
    {
      var j := 1;
      sects[0] := Sect(base0, spsize);
      while j < sects.Length
        invariant 1 <= j <= sects.Length
        invariant sects[0] == Sect(base0, spsize)
        invariant forall i :: 1 <= i < j ==> sects[i] == Sect(base0 + spsize, 0)
      {
        sects[j] := Sect(base0 + spsize, 0);
        j := j + 1;
      }
      Clear(buf, 0, spsize);
      base, total, max, fixed, owners := base0, spsize, max0, spsize, [];
      EmptyRepresents(State(), spsize);
    }

    /** init_syspage_memory, with cpu_init_syspage_memory: the sections of the empty page, then the
        two that are set and the three that are grown. */
    method Init(base0: nat, max0: nat, spsize: nat, callout: nat, calloutSize: nat,
                typedStrings: nat, strings: nat, hwinfo: nat, prefixSize: nat, gicMap: nat, gicSize: nat)
      returns (o: Outcome)
      requires 0 < sects.Length && 0 < spsize <= buf.Length && max0 <= buf.Length
      requires InitSections(sects.Length, callout, typedStrings, strings, hwinfo, gicMap)
      modifies this`base, this`total, this`max, this`fixed, this`owners, buf, sects
      ensures o.Done? ==> Valid()
      ensures AllAllowed(EmptyPage(sects.Length, spsize),
                         InitOps(callout, calloutSize, typedStrings, strings, hwinfo, prefixSize, gicMap, gicSize))
      ensures o.Done? ==> Represents(State(), PageRun(EmptyPage(sects.Length, spsize),
                InitOps(callout, calloutSize, typedStrings, strings, hwinfo, prefixSize, gicMap, gicSize)))
      // in words, if the header is
      ensures spsize % 8 == 0 ==> WordAligned(PageRun(EmptyPage(sects.Length, spsize),
                InitOps(callout, calloutSize, typedStrings, strings, hwinfo, prefixSize, gicMap, gicSize)))
    {
      hide Represents, Arena.Grow, Arena.Set, Called, Orderly, PageStep, Arena.Inside;
      InitAllowed(sects.Length, spsize, callout, calloutSize, typedStrings, strings, hwinfo, prefixSize, gicMap,
                  gicSize);
      InitEmpty(base0, max0, spsize);
      ghost var p := EmptyPage(sects.Length, spsize);
      ghost var ops := InitOps(callout, calloutSize, typedStrings, strings, hwinfo, prefixSize, gicMap, gicSize);
      ghost var end := PageRun(p, ops);
      if spsize % 8 == 0 {
        RunAligned(p, ops);
      }
      hide WordAligned;
      o := DoSet(callout, calloutSize, p);
      if o.Crash? {
        return;
      }
      p, ops := PageStep(p, Place(callout, calloutSize)), ops[1..];
      assert AllAllowed(p, ops) && PageRun(p, ops) == end;
      o := DoGrow(typedStrings, 4, p);
      if o.Crash? {
        return;
      }
      p, ops := PageStep(p, Extend(typedStrings, 4)), ops[1..];
      assert AllAllowed(p, ops) && PageRun(p, ops) == end;
      o := DoGrow(strings, 1, p);
      if o.Crash? {
        return;
      }
      p, ops := PageStep(p, Extend(strings, 1)), ops[1..];
      assert AllAllowed(p, ops) && PageRun(p, ops) == end;
      o := DoGrow(hwinfo, prefixSize, p);
      if o.Crash? {
        return;
      }
      p, ops := PageStep(p, Extend(hwinfo, prefixSize)), ops[1..];
      assert AllAllowed(p, ops) && PageRun(p, ops) == end;
      o := DoSet(gicMap, gicSize, p);
      if o.Crash? {
        return;
      }
      p, ops := PageStep(p, Place(gicMap, gicSize)), ops[1..];
      assert AllAllowed(p, ops) && PageRun(p, ops) == end;
    }

    method DoGrow(i: nat, add: nat, ghost p: Page) returns (o: Outcome)
      requires Valid() && Represents(State(), p) && Allowed(p, Extend(i, add))
      modifies this`total, this`owners, buf, sects
      ensures o.Done? ==> Valid() && Represents(State(), PageStep(p, Extend(i, add)))
    {
      hide Arena.Grow, Tiled;
      StepRefines(State(), p, Extend(i, add));
      ExtendRefines(State(), p, i, Round8(add));
      var q;
      q, o := Grow(i, add);
    }

    method DoSet(i: nat, size: nat, ghost p: Page) returns (o: Outcome)
      requires Valid() && Represents(State(), p) && Allowed(p, Place(i, size))
      modifies this`total, this`owners, this`fixed, buf, sects
      ensures o.Done? ==> Valid() && Represents(State(), PageStep(p, Place(i, size)))
    {
      ContentLength(State(), i);
      PlaceRefines(State(), p, i, size);
      var q;
      q, o := Set(i, size);
    }

    /** Every section moves along with the page. */
    method MoveSections(base2: nat)
      requires Valid()
      modifies sects
      ensures forall i :: 0 <= i < sects.Length ==>
                old(sects[i]).p >= base && sects[i] == Sect(old(sects[i]).p - base + base2, old(sects[i]).size)
    {
      assert forall i :: 0 <= i < sects.Length ==> State().sects[i].p >= base;
      var j := 0;
      while j < sects.Length
        invariant 0 <= j <= sects.Length
        invariant forall i :: 0 <= i < sects.Length ==> old(sects[i]).p >= base
        invariant forall i :: 0 <= i < j ==> sects[i] == Sect(old(sects[i]).p - base + base2, old(sects[i]).size)
        invariant forall i :: j <= i < sects.Length ==> sects[i] == old(sects[i])
      {
        sects[j] := Sect(sects[j].p - base + base2, sects[j].size);
        j := j + 1;
      }
    }

    /** reloc_syspage_memory: the page goes to buf2, at address base2. */
    method Reloc(buf2: array<Byte>, base2: nat, max2: nat)
      requires Valid() && total <= buf2.Length && max2 <= buf2.Length
      modifies this`base, this`buf, this`max, this`owners, sects, buf2
      ensures Valid() && buf == buf2 && State() == Relocation(old(State()), base2, max2)
    {
      CopyTo(buf, buf2, total);
      RelocData(base, total, base2 - base);
      MoveSections(base2);
      buf, base, max := buf2, base2, max2;
    }
  }

  /** memmove between buffers that do not overlap, or within one to the same place. */
  method CopyTo(buf: array<Byte>, buf2: array<Byte>, len: nat)
    requires len <= buf.Length && len <= buf2.Length
    modifies buf2
    ensures buf2[..len] == old(buf[..len])
    ensures buf[..] == old(buf[..])
  {
    var k := 0;
    while k < len
      invariant 0 <= k <= len
      invariant forall x :: 0 <= x < k ==> buf2[x] == old(buf[x])
      invariant forall x :: 0 <= x < buf.Length ==> buf[x] == old(buf[x])
    {
      buf2[k] := buf[k];
      k := k + 1;
    }
  }
}
