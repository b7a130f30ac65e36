/** callouts.c and the sizing of alloc_syspage_memory: one pass over the callout slots finds out how
    much space the routines and their read/write areas take, a second one copies them. */
module Callouts {
  import opened Bits
  import opened Descriptors
  import opened Translation
  import opened Arena
  import opened Wrappers

  /** struct callout_rtn: the code, and whose read/write area it uses, by the pointer rw_size. */
  datatype Rtn = Rtn(code: seq<Byte>, rw: Option<nat>, patched: bool)

  /** A slot is empty, holds a routine of startup's, or the address of its copy. */
  datatype Slot = Null | Routine(rtn: Rtn) | Copy(vaddr: nat)

  /** rw_addrs: the area of a rw_size pointer. */
  datatype Area = Area(data: nat, off: nat)

  /** What the patcher of a slot's routine is called with. */
  datatype Call = Call(slot: nat, rtnOff: nat, rwOff: nat, data: Option<nat>)

  function CodeSize(s: Slot): nat { if s.Routine? then |s.rtn.code| else 0 }

  /** Total code size of the slots. */
  function CodeTotal(slots: seq<Slot>): nat {
    if slots == [] then 0 else CodeTotal(slots[..|slots| - 1]) + CodeSize(slots[|slots| - 1])
  }

  /** The areas lie one behind the other, the newest first in the list; rw is the end. */
  predicate Stacked(areas: seq<Area>, sizes: map<nat, nat>, rw: nat)
    decreases |areas|
  {
    if areas == [] then rw == 0
    else
      && areas[0].data in sizes && areas[0].off + sizes[areas[0].data] == rw
      && Stacked(areas[1..], sizes, areas[0].off)
  }

  predicate HasArea(areas: seq<Area>, data: nat) { exists k :: 0 <= k < |areas| && areas[k].data == data }

  /** Where the area of a pointer starts. */
  function AreaOf(areas: seq<Area>, data: nat): nat
    decreases |areas|
  {
    if areas == [] then 0 else if areas[0].data == data then areas[0].off else AreaOf(areas[1..], data)
  }

  /** Where the next area starts. */
  function Top(areas: seq<Area>, sizes: map<nat, nat>): nat {
    if areas != [] && areas[0].data in sizes then areas[0].off + sizes[areas[0].data] else 0
  }

  predicate Uses(slots: seq<Slot>, data: nat) {
    exists j :: 0 <= j < |slots| && slots[j].Routine? && slots[j].rtn.rw == Some(data)
  }

  /** The sizes of all read/write areas are known. */
  ghost predicate SizesKnown(slots: seq<Slot>, sizes: map<nat, nat>) {
    forall j :: 0 <= j < |slots| && slots[j].Routine? && slots[j].rtn.rw.Some? ==> slots[j].rtn.rw.value in sizes
  }

  /** After the sizing pass over slots: each pointer in use has one area. */
  ghost predicate Sized(slots: seq<Slot>, sizes: map<nat, nat>, areas: seq<Area>, rw: nat) {
    && Stacked(areas, sizes, rw)
    && (forall i, k :: 0 <= i < k < |areas| ==> areas[i].data != areas[k].data)
    && (forall data :: HasArea(areas, data) <==> Uses(slots, data))
  }

  /** An area lies below the end of the stack. */
  lemma {:induction false} AreaInside(areas: seq<Area>, sizes: map<nat, nat>, rw: nat, data: nat)
    requires Stacked(areas, sizes, rw) && HasArea(areas, data)
    ensures data in sizes && AreaOf(areas, data) + sizes[data] <= rw
    decreases |areas|
  {
    if areas[0].data != data {
      AreaTail(areas, data);
      AreaInside(areas[1..], sizes, areas[0].off, data);
    }
  }

  lemma AreaTail(areas: seq<Area>, data: nat)
    requires HasArea(areas, data) && areas[0].data != data
    ensures HasArea(areas[1..], data) && AreaOf(areas, data) == AreaOf(areas[1..], data)
  {
    var k :| 0 <= k < |areas| && areas[k].data == data;
    assert areas[1..][k - 1].data == data;
  }

  /** Different pointers have disjoint areas. */
  lemma {:induction false} AreasDisjoint(areas: seq<Area>, sizes: map<nat, nat>, rw: nat, a: nat, b: nat)
    requires Stacked(areas, sizes, rw) && HasArea(areas, a) && HasArea(areas, b) && a != b
    ensures a in sizes && b in sizes
    ensures AreaOf(areas, a) + sizes[a] <= AreaOf(areas, b) || AreaOf(areas, b) + sizes[b] <= AreaOf(areas, a)
    decreases |areas|
  {
    AreaInside(areas, sizes, rw, a);
    AreaInside(areas, sizes, rw, b);
    if areas[0].data != a {
      AreaTail(areas, a);
    }
    if areas[0].data != b {
      AreaTail(areas, b);
    }
    if areas[0].data == a {
      AreaInside(areas[1..], sizes, areas[0].off, b);
    } else if areas[0].data == b {
      AreaInside(areas[1..], sizes, areas[0].off, a);
    } else {
      AreasDisjoint(areas[1..], sizes, areas[0].off, a, b);
    }
  }

  /** Sizing one slot. */
  lemma SizedStep(slots: seq<Slot>, sizes: map<nat, nat>, areas: seq<Area>, rw: nat, areas': seq<Area>, rw': nat)
    requires slots != [] && SizesKnown(slots, sizes)
    requires Sized(slots[..|slots| - 1], sizes, areas, rw)
    requires var s := slots[|slots| - 1];
             if s.Routine? && s.rtn.rw.Some? && !HasArea(areas, s.rtn.rw.value)
             then areas' == [Area(s.rtn.rw.value, rw)] + areas && rw' == rw + sizes[s.rtn.rw.value]
             else areas' == areas && rw' == rw
    ensures Sized(slots, sizes, areas', rw')
  {
    var front, s := slots[..|slots| - 1], slots[|slots| - 1];
    forall data: nat ensures Uses(slots, data) <==> Uses(front, data) || (s.Routine? && s.rtn.rw == Some(data)) {
      UsesLast(slots, data);
    }
    if areas' != areas {
      assert areas'[1..] == areas;
      forall data: nat ensures HasArea(areas', data) <==> HasArea(areas, data) || data == s.rtn.rw.value {
        HasFirst(areas', data);
      }
    }
  }

  lemma UsesLast(slots: seq<Slot>, data: nat)
    requires slots != []
    ensures var s := slots[|slots| - 1];
            Uses(slots, data) <==> Uses(slots[..|slots| - 1], data) || (s.Routine? && s.rtn.rw == Some(data))
  {
    var front := slots[..|slots| - 1];
    if Uses(slots, data) {
      var j :| 0 <= j < |slots| && slots[j].Routine? && slots[j].rtn.rw == Some(data);
      assert j < |front| ==> front[j] == slots[j];
    }
    if Uses(front, data) {
      var j :| 0 <= j < |front| && front[j].Routine? && front[j].rtn.rw == Some(data);
      assert slots[j] == front[j];
    }
  }

  lemma HasFirst(areas: seq<Area>, data: nat)
    requires areas != []
    ensures HasArea(areas, data) <==> HasArea(areas[1..], data) || areas[0].data == data
  {
    if HasArea(areas, data) && areas[0].data != data {
      AreaTail(areas, data);
    }
    if HasArea(areas[1..], data) {
      var k :| 0 <= k < |areas[1..]| && areas[1..][k].data == data;
      assert areas[k + 1].data == data;
    }
  }

  /** Where the copy of slot j begins, when the first begins at start. */
  function CopyAt(slots: seq<Slot>, start: nat, j: nat): (at: nat)
    requires j <= |slots|
    ensures at >= start
  {
    start + CodeTotal(slots[..j])
  }

  lemma {:induction false} CodeTotalGrows(slots: seq<Slot>, i: nat, j: nat)
    requires i <= j <= |slots|
    ensures CodeTotal(slots[..i]) <= CodeTotal(slots[..j])
  {
    if i < j {
      CodeTotalGrows(slots, i, j - 1);
      CodeTotalNext(slots, j - 1);
    }
  }

  lemma CodeTotalNext(slots: seq<Slot>, j: nat)
    requires j < |slots|
    ensures CodeTotal(slots[..j + 1]) == CodeTotal(slots[..j]) + CodeSize(slots[j])
  {
    assert slots[..j + 1][..j] == slots[..j];
  }

  /** The copies are disjoint, in the order of their slots. */
  lemma CopiesDisjoint(slots: seq<Slot>, start: nat, i: nat, j: nat)
    requires i < j < |slots|
    ensures start <= CopyAt(slots, start, i)
    ensures CopyAt(slots, start, i) + CodeSize(slots[i]) <= CopyAt(slots, start, j)
    ensures CopyAt(slots, start, j) + CodeSize(slots[j]) <= start + CodeTotal(slots)
  {
    hide CodeTotal, CodeSize;
    CodeTotalNext(slots, i);
    CodeTotalNext(slots, j);
    CodeTotalGrows(slots, i + 1, j);
    CodeTotalGrows(slots, j + 1, |slots|);
    assert slots[..|slots|] == slots;
  }

  /** There are no gaps: the first copy begins at start, and each where the one before it ends. */
  lemma CopiesPacked(slots: seq<Slot>, start: nat, j: nat)
    requires j < |slots|
    ensures CopyAt(slots, start, 0) == start
    ensures CopyAt(slots, start, j + 1) ==
            CopyAt(slots, start, j) + if slots[j].Routine? then |slots[j].rtn.code| else 0
  {
    CodeTotalNext(slots, j);
  }

  /** The space alloc_syspage_memory asks for: room for four more address space entries in front. */
  function Space(g: Granule, total: nat, rw: nat, code: nat, entry: nat): nat {
    RoundPage(g, total + rw + 4 * entry) + RoundPage(g, code)
  }

  /** The routines begin on a page of their own behind all areas, and what is left of the space
      holds them, if the page has grown to `now` bytes. */
  predicate RoutinesFit(g: Granule, now: nat, rw: nat, code: nat, space: nat) {
    var start := RoundPage(g, now + rw);
    start % g.PageSize() == 0 && now + rw <= start && start + RoundPage(g, code) <= space
  }

  /** Up to four entries may be added after the space was computed. */
  lemma SpaceSuffices(g: Granule, total: nat, rw: nat, code: nat, entry: nat, now: nat)
    requires now <= total + 4 * entry
    ensures RoutinesFit(g, now, rw, code, Space(g, total, rw, code, entry)) && code <= RoundPage(g, code)
  {
    RoundedRange(g, 0, 0, now + rw);
    RoundedRange(g, 0, 0, code);
    RoundMonotone(g, now + rw, total + rw + 4 * entry);
  }

  /** With more than four they need not fit. */
  lemma FifthEntry(g: Granule, total: nat, rw: nat, code: nat, entry: nat)
    requires entry > 0 && (total + rw + 4 * entry) % g.PageSize() == 0
    ensures !RoutinesFit(g, total + 5 * entry, rw, code, Space(g, total, rw, code, entry))
  {
    RoundedRange(g, 0, 0, total + 5 * entry + rw);
    Bits.UpToStays(total + rw + 4 * entry, g.PageSize());
    hide Bits.UpTo;
  }

  lemma RoundMonotone(g: Granule, x: nat, y: nat)
    requires x <= y
    ensures RoundPage(g, x) <= RoundPage(g, y)
  {
  }

  /** The data registered for a slot: callout_output_one's search of patch_data. */
  function DataFor(owners: seq<Patch>, rp: nat): Option<nat>
    decreases |owners|
  {
    if owners == [] then None else if owners[0].owner == rp then Some(owners[0].data) else DataFor(owners[1..], rp)
  }

  predicate AnyRoutine(slots: seq<Slot>) { exists j :: 0 <= j < |slots| && slots[j].Routine? }

  /** Where a routine's data is: its area, or the end of the page proper. */
  function DataAt(rtn: Rtn, areas: seq<Area>, total: nat): nat {
    total + if rtn.rw.Some? then AreaOf(areas, rtn.rw.value) else 0
  }

  /** The patcher calls for the slots, in order. */
  function Calls(slots: seq<Slot>, rps: seq<nat>, owners: seq<Patch>, areas: seq<Area>, total: nat,
                 start: nat): seq<Call>
    requires |rps| >= |slots|
    decreases |slots|
  {
    if slots == [] then []
    else
      var n := |slots| - 1;
      Calls(slots[..n], rps, owners, areas, total, start) +
      if slots[n].Routine? && slots[n].rtn.patched
      then [Call(n, start + CodeTotal(slots[..n]), DataAt(slots[n].rtn, areas, total), DataFor(owners, rps[n]))]
      else []
  }

  // ---- what the patchers are told ----

  predicate Patched(s: Slot) { s.Routine? && s.rtn.patched }

  /** The data of the first owner registered for the slot, or none. */
  ghost predicate DataRight(owners: seq<Patch>, rp: nat, data: Option<nat>) {
    match data
    case None => forall q :: 0 <= q < |owners| ==> owners[q].owner != rp
    case Some(v) =>
      exists q :: 0 <= q < |owners| && owners[q].owner == rp && owners[q].data == v
                  && forall p :: 0 <= p < q ==> owners[p].owner != rp
  }

  /** The patcher is told where the slot points to now, the data registered for the slot, and an area
      of its own pointer's size inside the read/write areas, or the end of the page proper. */
  ghost predicate CallRight(was: seq<Slot>, now: seq<Slot>, kern: nat, rps: seq<nat>, owners: seq<Patch>,
                            sizes: map<nat, nat>, total: nat, rw: nat, c: Call)
    requires |rps| >= |was| == |now|
  {
    && c.slot < |was| && Patched(was[c.slot]) && now[c.slot] == Copy(kern + c.rtnOff)
    && DataRight(owners, rps[c.slot], c.data)
    && match was[c.slot].rtn.rw
       case None => c.rwOff == total
       case Some(d) => d in sizes && total <= c.rwOff && c.rwOff + sizes[d] <= total + rw
  }

  /** Routines with one pointer share its area, and those with two have disjoint ones. */
  ghost predicate AreasRight(was: seq<Slot>, sizes: map<nat, nat>, c: Call, e: Call)
    requires c.slot < |was| && e.slot < |was| && Patched(was[c.slot]) && Patched(was[e.slot])
  {
    var a, b := was[c.slot].rtn.rw, was[e.slot].rtn.rw;
    a.Some? && b.Some? ==>
      if a == b then c.rwOff == e.rwOff
      else
        && a.value in sizes && b.value in sizes
        && (c.rwOff + sizes[a.value] <= e.rwOff || e.rwOff + sizes[b.value] <= c.rwOff)
  }

  /** Every patched routine has one call, in the order of the slots, and is told the right things. */
  ghost predicate CallsRight(was: seq<Slot>, now: seq<Slot>, kern: nat, rps: seq<nat>, owners: seq<Patch>,
                             sizes: map<nat, nat>, total: nat, rw: nat, calls: seq<Call>)
    requires |rps| >= |was| == |now|
  {
    && (forall k, l :: 0 <= k < l < |calls| ==> calls[k].slot < calls[l].slot)
    && (forall j :: 0 <= j < |was| && Patched(was[j]) ==> exists k :: 0 <= k < |calls| && calls[k].slot == j)
    && (forall k :: 0 <= k < |calls| ==> CallRight(was, now, kern, rps, owners, sizes, total, rw, calls[k]))
    && (forall k, l :: 0 <= k < |calls| && 0 <= l < |calls| ==> AreasRight(was, sizes, calls[k], calls[l]))
  }

  lemma {:induction false} DataForIs(owners: seq<Patch>, rp: nat)
    ensures DataRight(owners, rp, DataFor(owners, rp))
    decreases |owners|
  {
    if owners != [] && owners[0].owner != rp {
      DataForIs(owners[1..], rp);
      assert forall q :: 1 <= q < |owners| ==> owners[q] == owners[1..][q - 1];
      if DataFor(owners, rp).Some? {
        var rest := owners[1..];
        var q :| 0 <= q < |rest| && rest[q].owner == rp && rest[q].data == DataFor(owners, rp).value
                 && forall p :: 0 <= p < q ==> rest[p].owner != rp;
        assert owners[q + 1].owner == rp;
      }
    }
  }

  ghost predicate CallIs(slots: seq<Slot>, rps: seq<nat>, owners: seq<Patch>, areas: seq<Area>, total: nat, start: nat,
                         c: Call)
    requires |slots| <= |rps|
  {
    && c.slot < |slots| && Patched(slots[c.slot]) && c.rtnOff == CopyAt(slots, start, c.slot)
    && c.rwOff == DataAt(slots[c.slot].rtn, areas, total) && c.data == DataFor(owners, rps[c.slot])
  }

  /** The calls are for the patched slots among the first n, in order. */
  ghost predicate CallsFor(slots: seq<Slot>, n: nat, calls: seq<Call>)
    requires n <= |slots|
  {
    && (forall k, l :: 0 <= k < l < |calls| ==> calls[k].slot < calls[l].slot)
    && (forall j :: 0 <= j < n && Patched(slots[j]) ==> exists k :: 0 <= k < |calls| && calls[k].slot == j)
    && (forall k :: 0 <= k < |calls| ==> calls[k].slot < n)
  }

  lemma OneMoreCall(slots: seq<Slot>, n: nat, calls: seq<Call>, c: Call)
    requires n < |slots| && CallsFor(slots, n, calls) && c.slot == n
    ensures CallsFor(slots, n + 1, calls + [c])
  {
    var all := calls + [c];
    forall j | 0 <= j < n + 1 && Patched(slots[j]) ensures exists k :: 0 <= k < |all| && all[k].slot == j {
      if j == n {
        assert all[|calls|].slot == j;
      } else {
        var k :| 0 <= k < |calls| && calls[k].slot == j;
        assert all[k].slot == j;
      }
    }
  }

  lemma NoCallFor(slots: seq<Slot>, n: nat, calls: seq<Call>)
    requires n < |slots| && CallsFor(slots, n, calls) && !Patched(slots[n])
    ensures CallsFor(slots, n + 1, calls)
  {
  }

  lemma {:induction false} CallsInOrder(slots: seq<Slot>, n: nat, rps: seq<nat>, owners: seq<Patch>, areas: seq<Area>,
                                        total: nat, start: nat)
    requires n <= |slots| <= |rps|
    ensures CallsFor(slots, n, Calls(slots[..n], rps, owners, areas, total, start))
    ensures forall c :: c in Calls(slots[..n], rps, owners, areas, total, start) ==>
              CallIs(slots, rps, owners, areas, total, start, c)
  {
    if n > 0 {
      hide Calls, CallIs, CallsFor, Patched;
      var m := n - 1;
      CallsInOrder(slots, m, rps, owners, areas, total, start);
      NextCall(slots, m, rps, owners, areas, total, start);
      var front := Calls(slots[..m], rps, owners, areas, total, start);
      if !Patched(slots[m]) {
        NoCallFor(slots, m, front);
      } else {
        var c :| Calls(slots[..n], rps, owners, areas, total, start) == front + [c] && c.slot == m
          && CallIs(slots, rps, owners, areas, total, start, c);
        OneMoreCall(slots, m, front, c);
      }
    }
  }

  lemma NextCall(slots: seq<Slot>, m: nat, rps: seq<nat>, owners: seq<Patch>, areas: seq<Area>, total: nat,
                 start: nat)
    requires m < |slots| <= |rps|
    ensures var front := Calls(slots[..m], rps, owners, areas, total, start);
            var calls := Calls(slots[..m + 1], rps, owners, areas, total, start);
            if Patched(slots[m]) then
              exists c :: calls == front + [c] && c.slot == m && CallIs(slots, rps, owners, areas, total, start, c)
            else calls == front
  {
    hide DataAt, DataFor, CodeTotal;
    assert slots[..m + 1][..m] == slots[..m];
    if Patched(slots[m]) {
      var c := Call(m, start + CodeTotal(slots[..m]), DataAt(slots[m].rtn, areas, total), DataFor(owners, rps[m]));
      assert CallIs(slots, rps, owners, areas, total, start, c);
    }
  }

  lemma OneCallRight(was: seq<Slot>, now: seq<Slot>, page0: seq<Byte>, page: seq<Byte>, kern: nat, rps: seq<nat>,
                     owners: seq<Patch>, areas: seq<Area>, sizes: map<nat, nat>, total: nat, rw: nat, start: nat,
                     c: Call)
    requires |rps| >= |was| == |now| && |page| == |page0|
    requires Sized(was, sizes, areas, Top(areas, sizes)) && Top(areas, sizes) <= rw
    requires Copied(was, now, |was|, page0, page, total, rw, start, kern)
    requires CallIs(was, rps, owners, areas, total, start, c)
    ensures CallRight(was, now, kern, rps, owners, sizes, total, rw, c)
  {
    hide CodeTotal, DataFor, Top, AnyRoutine;
    DataForIs(owners, rps[c.slot]);
    if was[c.slot].rtn.rw.Some? {
      AreaForUse(was, sizes, areas, Top(areas, sizes), c.slot);
      AreaInside(areas, sizes, Top(areas, sizes), was[c.slot].rtn.rw.value);
    }
  }

  lemma TwoCallsRight(was: seq<Slot>, rps: seq<nat>, owners: seq<Patch>, areas: seq<Area>, sizes: map<nat, nat>,
                      total: nat, start: nat, c: Call, e: Call)
    requires |rps| >= |was| && Sized(was, sizes, areas, Top(areas, sizes))
    requires CallIs(was, rps, owners, areas, total, start, c) && CallIs(was, rps, owners, areas, total, start, e)
    ensures AreasRight(was, sizes, c, e)
  {
    hide CodeTotal, DataFor, Top;
    var a, b := was[c.slot].rtn.rw, was[e.slot].rtn.rw;
    if a.Some? && b.Some? && a != b {
      AreaForUse(was, sizes, areas, Top(areas, sizes), c.slot);
      AreaForUse(was, sizes, areas, Top(areas, sizes), e.slot);
      AreasDisjoint(areas, sizes, Top(areas, sizes), a.value, b.value);
    }
  }

  /** What the patchers are told, from the calls and where the copies are. */
  lemma CallsAreRight(was: seq<Slot>, now: seq<Slot>, page0: seq<Byte>, page: seq<Byte>, kern: nat, rps: seq<nat>,
                      owners: seq<Patch>, areas: seq<Area>, sizes: map<nat, nat>, total: nat, rw: nat, start: nat)
    requires |rps| >= |was| == |now| && |page| == |page0|
    requires Sized(was, sizes, areas, Top(areas, sizes)) && Top(areas, sizes) <= rw
    requires Copied(was, now, |was|, page0, page, total, rw, start, kern)
    ensures CallsRight(was, now, kern, rps, owners, sizes, total, rw,
                       Calls(was, rps, owners, areas, total, start))
  {
    hide Calls, CallIs, CallRight, AreasRight, Copied, Sized, Top, Patched;
    assert was[..|was|] == was;
    CallsInOrder(was, |was|, rps, owners, areas, total, start);
    var calls := Calls(was, rps, owners, areas, total, start);
    forall c | c in calls
      ensures c.slot < |was| && Patched(was[c.slot])
      ensures CallRight(was, now, kern, rps, owners, sizes, total, rw, c)
    {
      CallIsPatched(was, rps, owners, areas, total, start, c);
      OneCallRight(was, now, page0, page, kern, rps, owners, areas, sizes, total, rw, start, c);
    }
    forall c, e | c in calls && e in calls ensures AreasRight(was, sizes, c, e) {
      TwoCallsRight(was, rps, owners, areas, sizes, total, start, c, e);
    }
  }

  lemma CallIsPatched(slots: seq<Slot>, rps: seq<nat>, owners: seq<Patch>, areas: seq<Area>, total: nat, start: nat,
                      c: Call)
    requires |slots| <= |rps| && CallIs(slots, rps, owners, areas, total, start, c)
    ensures c.slot < |slots| && Patched(slots[c.slot])
  {
  }

  /** The first n slots have been copied: the page is as before except for the zeroed areas and the
      copies, and each of these slots points to its own copy. */
  ghost predicate Copied(was: seq<Slot>, now: seq<Slot>, n: nat, page0: seq<Byte>, page: seq<Byte>,
                         total: nat, rw: nat, start: nat, kern: nat)
    requires n <= |was| && |now| == |was| && |page| == |page0|
  {
    && (forall i :: n <= i < |was| ==> now[i] == was[i])
    && (forall i :: 0 <= i < n ==>
          now[i] == if was[i].Routine? then Copy(kern + CopyAt(was, start, i)) else was[i])
    && (forall i, x ::
          0 <= i < n && was[i].Routine? && 0 <= x < |was[i].rtn.code| && CopyAt(was, start, i) + x < |page| ==>
          page[CopyAt(was, start, i) + x] == was[i].rtn.code[x])
    && (forall x :: 0 <= x < |page| && (x < total || total + rw <= x < start || start + CodeTotal(was[..n]) <= x) ==>
          page[x] == page0[x])
    && (forall x :: total <= x < total + rw && x < |page| && AnyRoutine(was[..n]) ==> page[x] == 0)
    && (!AnyRoutine(was[..n]) ==> page == page0)
  }

  lemma AnyNext(slots: seq<Slot>, n: nat)
    requires n < |slots|
    ensures AnyRoutine(slots[..n + 1]) <==> AnyRoutine(slots[..n]) || slots[n].Routine?
  {
    var a, b := slots[..n], slots[..n + 1];
    if AnyRoutine(b) {
      var j :| 0 <= j < |b| && b[j].Routine?;
      assert j < n ==> a[j] == b[j];
    }
    if AnyRoutine(a) {
      var j :| 0 <= j < |a| && a[j].Routine?;
      assert b[j] == a[j];
    }
    if slots[n].Routine? {
      assert b[n].Routine?;
    }
  }

  /** An empty slot changes nothing. */
  lemma CopiedEmpty(was: seq<Slot>, now: seq<Slot>, n: nat, page0: seq<Byte>, page: seq<Byte>,
                    total: nat, rw: nat, start: nat, kern: nat)
    requires n < |was| == |now| && |page| == |page0| && !was[n].Routine?
    requires Copied(was, now, n, page0, page, total, rw, start, kern)
    ensures Copied(was, now, n + 1, page0, page, total, rw, start, kern)
  {
    hide CodeTotal, AnyRoutine;
    AnyNext(was, n);
    CodeTotalNext(was, n);
  }

  /** The page when the first copy is about to be made. */
  ghost predicate Prepared(was: seq<Slot>, n: nat, page: seq<Byte>, page': seq<Byte>, total: nat, rw: nat)
    requires n <= |was| && |page'| == |page|
  {
    forall x :: 0 <= x < |page| ==>
      page'[x] == if !AnyRoutine(was[..n]) && total <= x < total + rw then 0 else page[x]
  }

  /** One more copy. */
  lemma CopiedStep(was: seq<Slot>, now: seq<Slot>, n: nat, page0: seq<Byte>, page: seq<Byte>, page': seq<Byte>,
                   page'': seq<Byte>, total: nat, rw: nat, start: nat, kern: nat)
    requires n < |was| == |now| && |page| == |page0| == |page'| == |page''| && was[n].Routine?
    requires total + rw <= start && start + CodeTotal(was) <= |page|
    requires Copied(was, now, n, page0, page, total, rw, start, kern) && Prepared(was, n, page, page', total, rw)
    requires var at := CopyAt(was, start, n);
             && (forall x :: 0 <= x < |was[n].rtn.code| && at + x < |page| ==> page''[at + x] == was[n].rtn.code[x])
             && (forall x :: 0 <= x < |page| && !(at <= x < at + |was[n].rtn.code|) ==> page''[x] == page'[x])
    ensures Copied(was, now[n := Copy(kern + CopyAt(was, start, n))], n + 1, page0, page'', total, rw, start, kern)
  {
    hide CodeTotal, AnyRoutine;
    AnyNext(was, n);
    CodeTotalNext(was, n);
    forall i, x | 0 <= i < n && was[i].Routine? && 0 <= x < |was[i].rtn.code| && CopyAt(was, start, i) + x < |page|
      ensures page''[CopyAt(was, start, i) + x] == was[i].rtn.code[x]
    {
      CopiesDisjoint(was, start, i, n);
      assert page[CopyAt(was, start, i) + x] == was[i].rtn.code[x];
    }
  }

  /** The slots as the hooks visit them, and the statics of callouts.c. */
  class Output {
    const g: Granule
    const slots: array<Slot>
    const rps: seq<nat>           // the slots' addresses
    const sizes: map<nat, nat>    // what the rw_size pointers point to
    const owners: seq<Patch>      // patch_data
    var areas: seq<Area>          // rw_addrs
    var rwSize: nat
    var rtnSize: nat
    var calls: seq<Call>          // the patchers called

    ghost predicate Valid()
      reads this, slots
    {
      |rps| == slots.Length
    }

    constructor (g: Granule, slots: array<Slot>, rps: seq<nat>, sizes: map<nat, nat>, owners: seq<Patch>)
      requires |rps| == slots.Length
      ensures this.g == g && this.slots == slots && this.rps == rps && this.sizes == sizes && this.owners == owners
      ensures Valid() && areas == [] && rwSize == 0 && rtnSize == 0 && calls == []
    {
      this.g, this.slots, this.rps, this.sizes, this.owners := g, slots, rps, sizes, owners;
      areas, rwSize, rtnSize, calls := [], 0, 0, [];
    }

    /** callout_output_one when sizing. */
    method SizeOne(j: nat)
      requires j < slots.Length && SizesKnown(slots[..], sizes)
      modifies this`areas, this`rwSize, this`rtnSize
      ensures rtnSize == old(rtnSize) + CodeSize(slots[j])
      ensures var s := slots[j];
              if s.Routine? && s.rtn.rw.Some? && !HasArea(old(areas), s.rtn.rw.value)
              then areas == [Area(s.rtn.rw.value, old(rwSize))] + old(areas)
                && rwSize == old(rwSize) + sizes[s.rtn.rw.value]
              else areas == old(areas) && rwSize == old(rwSize)
    {
      if !slots[j].Routine? {
        return;
      }
      var rtn := slots[j].rtn;
      assert slots[..][j] == slots[j];
      rtnSize := rtnSize + |rtn.code|;
      if rtn.rw.Some? {
        var k := 0;
        while k < |areas|
          invariant 0 <= k <= |areas|
          invariant forall l :: 0 <= l < k ==> areas[l].data != rtn.rw.value
        {
          if areas[k].data == rtn.rw.value {
            return;
          }
          k := k + 1;
        }
        areas := [Area(rtn.rw.value, rwSize)] + areas;
        rwSize := rwSize + sizes[rtn.rw.value];
      }
    }

    /** output_callouts, sizing. */
    method OutputSizing() returns (size: nat, rw: nat)
      requires Valid() && SizesKnown(slots[..], sizes) && areas == [] && rwSize == 0 && rtnSize == 0
      modifies this`areas, this`rwSize, this`rtnSize
      ensures size == Round8(CodeTotal(slots[..])) && rtnSize == 0
      ensures rw == rwSize == Round8(Top(areas, sizes)) && Sized(slots[..], sizes, areas, Top(areas, sizes))
    {
      hide Sized;
      var j := 0;
      ghost var s := slots[..];
      NothingSized(sizes);
      assert s[..0] == [];
      while j < slots.Length
        invariant 0 <= j <= slots.Length
        invariant rtnSize == CodeTotal(s[..j]) && Sized(s[..j], sizes, areas, rwSize)
      {
        ghost var as0, rw0 := areas, rwSize;
        SizeOne(j);
        CodeTotalNext(s, j);
        assert s[..j + 1][..j] == s[..j];
        SizedStep(s[..j + 1], sizes, as0, rw0, areas, rwSize);
        j := j + 1;
      }
      assert s[..j] == s;
      TopIs(s, sizes, areas, rwSize);
      rwSize := Round8(rwSize);
      size := Round8(rtnSize);
      rtnSize := 0;
      rw := rwSize;
    }

    /** The search of rw_addrs for a routine that was sized. */
    method FindArea(data: nat) returns (off: nat)
      requires HasArea(areas, data)
      ensures off == AreaOf(areas, data)
    {
      var k := 0;
      assert areas[0..] == areas;
      while areas[k].data != data
        invariant 0 <= k < |areas| && HasArea(areas[k..], data)
        invariant AreaOf(areas[k..], data) == AreaOf(areas, data)
        decreases |areas| - k
      {
        AreaTail(areas[k..], data);
        assert areas[k..][1..] == areas[k + 1..];
        k := k + 1;
      }
      off := areas[k].off;
    }

    /** The search of patch_data. */
    method FindData(rp: nat) returns (data: Option<nat>)
      ensures data == DataFor(owners, rp)
    {
      var q := 0;
      assert owners[0..] == owners;
      while q < |owners|
        invariant 0 <= q <= |owners|
        invariant DataFor(owners[q..], rp) == DataFor(owners, rp)
      {
        if owners[q].owner == rp {
          return Some(owners[q].data);
        }
        assert owners[q..][1..] == owners[q + 1..];
        q := q + 1;
      }
      data := None;
    }

    /** The first routine of the write pass clears the areas and fixes where the copies begin. */
    method Prepare(page: array<Byte>, total: nat, ghost was: seq<Slot>, ghost j: nat)
      requires total + rwSize <= page.Length && j <= |was| && (rtnSize == 0 <==> !AnyRoutine(was[..j]))
      modifies this`rtnSize, page
      ensures rtnSize == if AnyRoutine(was[..j]) then old(rtnSize) else RoundPage(g, total + rwSize)
      ensures Prepared(was, j, old(page[..]), page[..], total, rwSize)
    {
      if rtnSize == 0 {
        Fill(page, total, seq(rwSize, _ => 0));
        rtnSize := RoundPage(g, total + rwSize);
      }
    }

    /** The code of slot j goes into the page. */
    method PlaceCode(page: array<Byte>, total: nat, kern: nat, j: nat, code: seq<Byte>,
                     ghost was: seq<Slot>, ghost now: seq<Slot>, ghost page0: seq<Byte>, ghost start: nat)
      requires j < |was| == |now| && |page0| == page.Length && was[j].Routine? && code == was[j].rtn.code
      requires start == RoundPage(g, total + rwSize) && start + CodeTotal(was) <= page.Length
      requires total + rwSize <= start && 0 < start
      requires Copied(was, now, j, page0, page[..], total, rwSize, start, kern)
      requires rtnSize == if AnyRoutine(was[..j]) then CopyAt(was, start, j) else 0
      modifies this`rtnSize, page
      ensures rtnSize == CopyAt(was, start, j)
      ensures Copied(was, now[j := Copy(kern + rtnSize)], j + 1, page0, page[..], total, rwSize, start, kern)
    {
      hide Copied, CodeTotal, AnyRoutine, Prepared, RoundPage;
      ghost var page1 := page[..];
      if !AnyRoutine(was[..j]) {
        NothingBefore(was, start, j);
      }
      CodeTotalNext(was, j);
      CodeTotalGrows(was, j + 1, |was|);
      assert was[..|was|] == was;
      Prepare(page, total, was, j);
      ghost var page2 := page[..];
      Fill(page, rtnSize, code);
      CopiedStep(was, now, j, page0, page1, page2, page[..], total, rwSize, start, kern);
    }

    /** The call of the patcher, which is told where code, area and data are. */
    method CallPatcher(rtn: Rtn, j: nat, total: nat)
      requires Valid() && j < slots.Length && (rtn.rw.Some? ==> HasArea(areas, rtn.rw.value))
      modifies this`calls
      ensures calls == old(calls) +
                if rtn.patched then [Call(j, rtnSize, DataAt(rtn, areas, total), DataFor(owners, rps[j]))] else []
    {
      var rwOff := total;
      if rtn.rw.Some? {
        var off := FindArea(rtn.rw.value);
        rwOff := rwOff + off;
      }
      if rtn.patched {
        var data := FindData(rps[j]);
        calls := calls + [Call(j, rtnSize, rwOff, data)];
      }
    }

    /** callout_output_one when writing. */
    method WriteOne(page: array<Byte>, total: nat, kern: nat, j: nat,
                    ghost was: seq<Slot>, ghost page0: seq<Byte>, ghost start: nat)
      requires Valid() && |was| == slots.Length && |page0| == page.Length && j < slots.Length
      requires start == RoundPage(g, total + rwSize) && total > 0 && start + CodeTotal(was) <= page.Length
      requires Copied(was, slots[..], j, page0, page[..], total, rwSize, start, kern)
      requires rtnSize == if AnyRoutine(was[..j]) then CopyAt(was, start, j) else 0
      requires calls == Calls(was[..j], rps, owners, areas, total, start)
      requires was[j].Routine? && was[j].rtn.rw.Some? ==> HasArea(areas, was[j].rtn.rw.value)
      modifies this`rtnSize, this`calls, slots, page
      ensures Copied(was, slots[..], j + 1, page0, page[..], total, rwSize, start, kern)
      ensures rtnSize == if AnyRoutine(was[..j + 1]) then CopyAt(was, start, j + 1) else 0
      ensures calls == Calls(was[..j + 1], rps, owners, areas, total, start)
    {
      hide Copied, CodeTotal, AnyRoutine, RoundPage, HasArea;
      RoundedRange(g, 0, 0, total + rwSize);
      AnyNext(was, j);
      CodeTotalNext(was, j);
      assert was[..j + 1][..j] == was[..j];
      SlotKept(was, slots[..], j, page0, page[..], total, rwSize, start, kern);
      if !slots[j].Routine? {
        CopiedEmpty(was, slots[..], j, page0, page[..], total, rwSize, start, kern);
        return;
      }
      var rtn := slots[j].rtn;
      ghost var now := slots[..];
      PlaceCode(page, total, kern, j, rtn.code, was, now, page0, start);
      CallPatcher(rtn, j, total);
      slots[j] := Copy(kern + rtnSize);
      assert slots[..] == now[j := Copy(kern + rtnSize)];
      rtnSize := rtnSize + |rtn.code|;
    }

    /** output_callouts, writing. */
    method OutputWriting(page: array<Byte>, total: nat, kern: nat)
      requires Valid() && total > 0 && rtnSize == 0 && calls == []
      requires RoundPage(g, total + rwSize) + CodeTotal(slots[..]) <= page.Length
      requires Sized(slots[..], sizes, areas, Top(areas, sizes)) && Top(areas, sizes) <= rwSize
      modifies this`rtnSize, this`calls, slots, page
      ensures var was, start := old(slots[..]), RoundPage(g, total + rwSize);
              && Copied(was, slots[..], |was|, old(page[..]), page[..], total, rwSize, start, kern)
              && calls == Calls(was, rps, owners, areas, total, start)
              && CallsRight(was, slots[..], kern, rps, owners, sizes, total, rwSize, calls)
    {
      hide Copied, CodeTotal, AnyRoutine, RoundPage, Sized, CallsRight;
      ghost var was, page0, start := slots[..], page[..], RoundPage(g, total + rwSize);
      NothingCopied(was, page0, total, rwSize, start, kern);
      var j := 0;
      while j < slots.Length
        invariant 0 <= j <= slots.Length
        invariant Copied(was, slots[..], j, page0, page[..], total, rwSize, start, kern)
        invariant rtnSize == if AnyRoutine(was[..j]) then CopyAt(was, start, j) else 0
        invariant calls == Calls(was[..j], rps, owners, areas, total, start)
      {
        if was[j].Routine? && was[j].rtn.rw.Some? {
          AreaForUse(was, sizes, areas, Top(areas, sizes), j);
        }
        WriteOne(page, total, kern, j, was, page0, start);
        j := j + 1;
      }
      assert was[..j] == was;
      CallsAreRight(was, slots[..], page0, page[..], kern, rps, owners, areas, sizes, total, rwSize, start);
    }

    /** alloc_syspage_memory, without the tables of offsets: total0 bytes of system page when the
        sizes are taken, and `total` when the routines are written. Behind the space are the per-cpu
        pages. */
    method AllocSyspageMemory(total0: nat, entry: nat, total: nat, cpuBytes: nat, kern: nat)
      returns (page: array<Byte>, code: nat)
      requires Valid() && SizesKnown(slots[..], sizes) && areas == [] && rwSize == 0 && rtnSize == 0 && calls == []
      requires 0 < total0 <= total <= total0 + 4 * entry
      modifies this, slots
      ensures fresh(page) && code == Round8(CodeTotal(old(slots[..])))
      ensures Sized(old(slots[..]), sizes, areas, Top(areas, sizes)) && rwSize == Round8(Top(areas, sizes))
      ensures page.Length == Space(g, total0, rwSize, code, entry) + cpuBytes
      ensures RoutinesFit(g, total, rwSize, code, page.Length - cpuBytes)
      ensures var was, start := old(slots[..]), RoundPage(g, total + rwSize);
              && Copied(was, slots[..], |was|, seq(page.Length, _ => 0), page[..], total, rwSize, start, kern)
              && calls == Calls(was, rps, owners, areas, total, start)
              && CallsRight(was, slots[..], kern, rps, owners, sizes, total, rwSize, calls)
    {
      hide Copied, CodeTotal, AnyRoutine, RoundPage, Sized, CallsRight, Calls, Space, Top;
      ghost var was := slots[..];
      var rw;
      code, rw := OutputSizing();
      var space := Space(g, total0, rw, code, entry);
      page := new Byte[space + cpuBytes](_ => 0);
      SpaceSuffices(g, total0, rw, code, entry, total);
      assert slots[..] == was && page[..] == seq(page.Length, _ => 0);
      OutputWriting(page, total, kern);
    }
  }

  lemma NothingCopied(was: seq<Slot>, page0: seq<Byte>, total: nat, rw: nat, start: nat, kern: nat)
    ensures Copied(was, was, 0, page0, page0, total, rw, start, kern)
    ensures !AnyRoutine(was[..0])
  {
  }

  lemma AreaForUse(slots: seq<Slot>, sizes: map<nat, nat>, areas: seq<Area>, rw: nat, j: nat)
    requires Sized(slots, sizes, areas, rw) && j < |slots| && slots[j].Routine? && slots[j].rtn.rw.Some?
    ensures HasArea(areas, slots[j].rtn.rw.value)
  {
    assert Uses(slots, slots[j].rtn.rw.value);
  }

  lemma SlotKept(was: seq<Slot>, now: seq<Slot>, n: nat, page0: seq<Byte>, page: seq<Byte>,
                 total: nat, rw: nat, start: nat, kern: nat)
    requires n < |was| == |now| && |page| == |page0| && Copied(was, now, n, page0, page, total, rw, start, kern)
    ensures now[n] == was[n]
  {
  }

  /** Without a routine so far the next copy is the first. */
  lemma {:induction false} NothingBefore(slots: seq<Slot>, start: nat, j: nat)
    requires j <= |slots| && !AnyRoutine(slots[..j])
    ensures CopyAt(slots, start, j) == start
  {
    if j > 0 {
      AnyNext(slots, j - 1);
      CodeTotalNext(slots, j - 1);
      NothingBefore(slots, start, j - 1);
    }
  }

  /** memmove of a sequence into the page. */
  method Fill(page: array<Byte>, at: nat, b: seq<Byte>)
    requires at + |b| <= page.Length
    modifies page
    ensures forall x :: 0 <= x < |b| ==> page[at + x] == b[x]
    ensures forall x :: at <= x < at + |b| ==> page[x] == b[x - at]
    ensures forall x :: 0 <= x < page.Length && !(at <= x < at + |b|) ==> page[x] == old(page[x])
  {
    var k := 0;
    while k < |b|
      invariant 0 <= k <= |b|
      invariant forall x :: at <= x < at + k ==> page[x] == b[x - at]
      invariant forall x :: 0 <= x < page.Length && !(at <= x < at + k) ==> page[x] == old(page[x])
    {
      page[at + k] := b[k];
      k := k + 1;
    }
  }

  lemma NothingSized(sizes: map<nat, nat>)
    ensures Sized([], sizes, [], 0)
  {
  }

  lemma TopIs(slots: seq<Slot>, sizes: map<nat, nat>, areas: seq<Area>, rw: nat)
    requires Sized(slots, sizes, areas, rw)
    ensures rw == Top(areas, sizes)
  {
  }
}
