/** The two searches of ram.c: which part of a free entry the avoid list leaves usable, and the
    block that is picked in it. */
module RamSearch {
  import opened Bits
  import opened Ranges
  import opened RamList
  import opened Wrappers

  /** An avoid_entry; the array's terminator, an entry with end zero, is not stored. */
  datatype Avoid = Avoid(start: nat, end: nat)

  /** A candidate block of memory, [start, end). */
  datatype Window = Window(start: nat, end: nat)

  ghost predicate AvoidsValid(avoid: seq<Avoid>) {
    forall i :: 0 <= i < |avoid| ==> avoid[i].start <= avoid[i].end && 0 < avoid[i].end < TWO64
  }

  /** The window shares no address with the avoided range. */
  ghost predicate Clear(w: Window, a: Avoid) {
    a.start < a.end ==> w.end <= a.start || a.end <= w.start
  }

  /** fix_size: what is left of the window beside one avoided range, the larger part if it has two. */
  function FixSize(w: Window, a: Avoid): (r: Option<Window>)
    requires w.start < w.end && a.start <= a.end
    ensures r.Some? ==> w.start <= r.value.start < r.value.end <= w.end && Clear(r.value, a)
    ensures r.None? <==> a.start <= w.start && w.end <= a.end
    // nothing larger beside the avoided range was given up, and of equal parts the upper one is kept
    ensures r.Some? ==> forall v: Window ::
              w.start <= v.start < v.end <= w.end && (v.end <= a.start || a.end <= v.start)
              ==> v.end - v.start < r.value.end - r.value.start
                  || (v.end - v.start == r.value.end - r.value.start && v.start <= r.value.start)
  {
    if w.start >= a.end || w.end <= a.start then Some(w)
    else if w.start >= a.start then
      if w.end <= a.end then None else Some(Window(a.end, w.end))
    else if w.end < a.end then Some(Window(w.start, a.start))
    else if a.start - w.start > w.end - a.end then Some(Window(w.start, a.start))
    else Some(Window(a.end, w.end))
  }

  /** What the avoid list leaves of a window. */
  function Usable(w: Window, avoid: seq<Avoid>): (r: Option<Window>)
    requires w.start < w.end && AvoidsValid(avoid)
    decreases |avoid|
  {
    if avoid == [] then Some(w)
    else
      match FixSize(w, avoid[0])
      case None => None
      case Some(v) => Usable(v, avoid[1..])
  }

  lemma {:induction false} UsableIsClear(w: Window, avoid: seq<Avoid>)
    requires w.start < w.end && AvoidsValid(avoid)
    ensures var r := Usable(w, avoid);
            r.Some? ==> w.start <= r.value.start < r.value.end <= w.end
                        && forall i :: 0 <= i < |avoid| ==> Clear(r.value, avoid[i])
    decreases |avoid|
  {
    if avoid != [] {
      var v := FixSize(w, avoid[0]);
      if v.Some? {
        UsableIsClear(v.value, avoid[1..]);
        var r := Usable(v.value, avoid[1..]);
        if r.Some? {
          assert Clear(r.value, avoid[0]);
          assert forall i :: 1 <= i < |avoid| ==> avoid[i] == avoid[1..][i - 1];
        }
      }
    }
  }

  /** The loop both searches run over the avoid list. */
  method Restrict(w: Window, avoid: seq<Avoid>) returns (r: Option<Window>)
    requires w.start < w.end && AvoidsValid(avoid)
    ensures r == Usable(w, avoid)
  {
    var v, k := w, 0;
    assert avoid[0..] == avoid;
    while k < |avoid|
      invariant 0 <= k <= |avoid| && v.start < v.end
      invariant Usable(w, avoid) == Usable(v, avoid[k..])
    {
      assert avoid[k..][0] == avoid[k] && avoid[k..][1..] == avoid[k + 1..];
      var f := FixSize(v, avoid[k]);
      if f.None? {
        return None;
      }
      v := f.value;
      k := k + 1;
    }
    return Some(v);
  }

  function EntryWindow(m: Range): Window { Window(m.addr, m.End()) }

  /** The addresses of the avoid list. */
  ghost function Avoided(avoid: seq<Avoid>): iset<int> { iset x: int | IsAvoided(avoid, x) }

  ghost predicate IsAvoided(avoid: seq<Avoid>, x: int) {
    exists i :: 0 <= i < |avoid| && avoid[i].start <= x < avoid[i].end
  }

  /** A block of free memory that no avoided range touches. */
  ghost predicate FreeBlock(list: seq<Range>, avoid: seq<Avoid>, addr: nat, size: nat) {
    && (exists i :: 0 <= i < |list| && list[i].addr <= addr && addr + size <= list[i].End())
    && Span(addr, addr + size) !! Avoided(avoid)
  }

  lemma InsideUsable(list: seq<Range>, avoid: seq<Avoid>, i: nat, addr: nat, size: nat)
    requires NonEmpty(list) && AvoidsValid(avoid) && i < |list|
    requires var u := Usable(EntryWindow(list[i]), avoid);
             u.Some? && u.value.start <= addr && addr + size <= u.value.end
    ensures FreeBlock(list, avoid, addr, size)
  {
    UsableIsClear(EntryWindow(list[i]), avoid);
    var u := Usable(EntryWindow(list[i]), avoid).value;
    forall x | x in Avoided(avoid) ensures x !in Span(addr, addr + size) {
      var k :| 0 <= k < |avoid| && avoid[k].start <= x < avoid[k].end;
      assert Clear(u, avoid[k]);
    }
  }

  /** Where find_ram would put a block in one entry, or None. */
  function FitIn(m: Range, avoid: seq<Avoid>, size: nat, align: nat): Option<nat>
    requires m.size > 0 && m.End() < TWO64 && AvoidsValid(avoid) && align < TWO64
  {
    match Usable(EntryWindow(m), avoid)
    case None => None
    case Some(u) =>
      UsableIsClear(EntryWindow(m), avoid);
      var addr := Round(u.start, align);
      if addr < u.end && size <= u.end - addr then Some(addr) else None
  }

  /** r is where the first entry that can hold the block puts it. */
  ghost predicate FirstFit(list: seq<Range>, avoid: seq<Avoid>, size: nat, align: nat, r: Option<nat>)
    requires NonEmpty(list) && Within(list, PADDR_LIMIT) && AvoidsValid(avoid) && align < TWO64
  {
    match r
    case None => forall i :: 0 <= i < |list| ==> FitIn(list[i], avoid, size, align).None?
    case Some(addr) =>
      exists i :: 0 <= i < |list| && FitIn(list[i], avoid, size, align) == Some(addr)
                  && forall j :: 0 <= j < i ==> FitIn(list[j], avoid, size, align).None?
  }

  /** find_ram with no colour and no range: the first entry that holds the block. */
  method FindRam(list: seq<Range>, avoid: seq<Avoid>, size: nat, align: nat) returns (r: Option<nat>)
    requires NonEmpty(list) && Within(list, PADDR_LIMIT) && AvoidsValid(avoid) && align < TWO64
    ensures FirstFit(list, avoid, size, align, r)
  {
    var k := 0;
    while k < |list|
      invariant 0 <= k <= |list|
      invariant forall j :: 0 <= j < k ==> FitIn(list[j], avoid, size, align).None?
    {
      var u := Restrict(EntryWindow(list[k]), avoid);
      if u.Some? {
        UsableIsClear(EntryWindow(list[k]), avoid);
        var addr := Round(u.value.start, align);
        if addr < u.value.end && size <= u.value.end - addr {
          return Some(addr);
        }
      }
      k := k + 1;
    }
    return None;
  }

  /** With any alignment but zero the block found is free and not avoided; with a power of two it
      is aligned. */
  lemma FitIsFree(list: seq<Range>, avoid: seq<Avoid>, i: nat, size: nat, align: nat, addr: nat)
    requires NonEmpty(list) && Within(list, PADDR_LIMIT) && AvoidsValid(avoid) && i < |list|
    requires 0 < align <= PADDR_LIMIT && FitIn(list[i], avoid, size, align) == Some(addr)
    ensures FreeBlock(list, avoid, addr, size)
    ensures forall k: nat :: align == Pow2(k) ==> addr % align == 0
  {
    UsableIsClear(EntryWindow(list[i]), avoid);
    var u := Usable(EntryWindow(list[i]), avoid).value;
    RoundBounds(u.start, align);
    InsideUsable(list, avoid, i, addr, size);
    forall k: nat | align == Pow2(k) ensures addr % align == 0 {
      PowerOfTwoAlignment(u.start, k);
    }
  }

  /** With alignment zero the block is always put at address zero, free or not: it lies in the
      usable part of the entry it was found in exactly when that part starts at zero (or the
      block is empty). */
  lemma ZeroAlignmentFit(m: Range, avoid: seq<Avoid>, size: nat)
    requires m.size > 0 && m.End() <= PADDR_LIMIT && AvoidsValid(avoid)
    requires FitIn(m, avoid, size, 0).Some?
    ensures FitIn(m, avoid, size, 0) == Some(0)
    ensures var u := Usable(EntryWindow(m), avoid).value;
            (u.start <= 0 && size <= u.end) <==> u.start == 0
  {
    UsableIsClear(EntryWindow(m), avoid);
    ZeroAlignment(Usable(EntryWindow(m), avoid).value.start);
  }

  /** The address find_top_ram_aligned_limit proposes in one entry, or None. */
  function TopIn(m: Range, avoid: seq<Avoid>, size: nat, align: nat): Option<nat>
    requires m.size > 0 && m.End() < TWO64 && AvoidsValid(avoid) && align < TWO64
  {
    match Usable(EntryWindow(m), avoid)
    case None => None
    case Some(u) =>
      UsableIsClear(EntryWindow(m), avoid);
      if u.end - u.start < size then None
      else
        var chk := if align != 0 then Trunc(u.end - size, align) else u.end - size;
        if chk >= u.start then Some(chk) else None
  }

  lemma TopInWindow(m: Range, avoid: seq<Avoid>, size: nat, align: nat)
    requires m.size > 0 && m.End() <= PADDR_LIMIT && AvoidsValid(avoid) && align < TWO64
    requires TopIn(m, avoid, size, align).Some?
    ensures var u, t := Usable(EntryWindow(m), avoid).value, TopIn(m, avoid, size, align).value;
            u.start <= t && t + size <= u.end && u.end <= m.End() && m.addr <= u.start
    ensures forall k: nat :: align == Pow2(k) ==> TopIn(m, avoid, size, align).value % align == 0
  {
    UsableIsClear(EntryWindow(m), avoid);
    var u := Usable(EntryWindow(m), avoid).value;
    if align != 0 {
      TruncBounds(u.end - size, align);
    }
    forall k: nat | align == Pow2(k) ensures TopIn(m, avoid, size, align).value % align == 0 {
      AlignDown(u.end - size, k);
    }
  }

  /** Unsigned 64-bit subtraction, with its wrap-around. */
  function Sub64(x: nat, y: nat): nat
    requires x < TWO64 && y < TWO64
  {
    if x >= y then x - y else x + TWO64 - y
  }

  /** What the scan of find_top_ram_aligned_limit knows: `top` is zero or was proposed by an entry
      before k and ends below the limit, and no entry before k proposed anything higher. */
  ghost predicate TopSoFar(list: seq<Range>, avoid: seq<Avoid>, size: nat, align: nat, limit: nat, k: nat, top: nat)
    requires NonEmpty(list) && Within(list, PADDR_LIMIT) && AvoidsValid(avoid) && align < TWO64 && k <= |list|
  {
    && (top != 0 ==> exists i :: 0 <= i < k && TopIn(list[i], avoid, size, align) == Some(top))
    && (forall i :: 0 <= i < k && TopIn(list[i], avoid, size, align).Some? ==>
          TopIn(list[i], avoid, size, align).value <= top)
    && (top != 0 ==> top + size < limit)
  }

  /** How find_top_ram_aligned_limit ends: either nothing reached the limit and the highest
      proposal stands, or entry k was the first to reach it. Then the block is moved down to end
      at the limit, or, if that leaves the entry's window, the earlier result is kept. */
  ghost predicate TopResult(list: seq<Range>, avoid: seq<Avoid>, size: nat, align: nat, limit: nat, r: nat)
    requires NonEmpty(list) && Within(list, PADDR_LIMIT) && AvoidsValid(avoid) && align < TWO64
    requires size < TWO64 && limit < TWO64
  {
    || TopSoFar(list, avoid, size, align, limit, |list|, r)
    || exists k: nat, before: nat ::
         && 0 <= k < |list| && TopSoFar(list, avoid, size, align, limit, k, before)
         && TopIn(list[k], avoid, size, align).Some?
         && TopIn(list[k], avoid, size, align).value > before
         && TopIn(list[k], avoid, size, align).value + size >= limit
         && r == (if Sub64(limit, size) < Usable(EntryWindow(list[k]), avoid).value.start
                  then before else Sub64(limit, size))
  }

  /** Entry k proposes nothing, or something that stays below the limit. */
  lemma TopNext(list: seq<Range>, avoid: seq<Avoid>, size: nat, align: nat, limit: nat, k: nat, top: nat)
    requires NonEmpty(list) && Within(list, PADDR_LIMIT) && AvoidsValid(avoid) && align < TWO64 && k < |list|
    requires TopSoFar(list, avoid, size, align, limit, k, top)
    requires var t := TopIn(list[k], avoid, size, align);
             t.Some? && t.value > top ==> t.value + size < limit
    ensures var t := TopIn(list[k], avoid, size, align);
            TopSoFar(list, avoid, size, align, limit, k + 1, if t.Some? && t.value > top then t.value else top)
  {
    hide TopIn;
    var t := TopIn(list[k], avoid, size, align);
    var top' := if t.Some? && t.value > top then t.value else top;
    if top' != 0 && top' == top {
      var i :| 0 <= i < k && TopIn(list[i], avoid, size, align) == Some(top);
    }
  }

  /** The body of the top search: what entry m proposes, and where its usable part starts. */
  method Propose(m: Range, avoid: seq<Avoid>, size: nat, align: nat) returns (chk: Option<nat>, s: nat)
    requires m.size > 0 && m.End() < TWO64 && AvoidsValid(avoid) && align < TWO64
    ensures chk == TopIn(m, avoid, size, align)
    ensures chk.Some? ==> s == Usable(EntryWindow(m), avoid).value.start
  {
    var u := Restrict(EntryWindow(m), avoid);
    if u.None? {
      return None, 0;
    }
    UsableIsClear(EntryWindow(m), avoid);
    s := u.value.start;
    var e := u.value.end;
    if e - s >= size {
      var t := if align != 0 then Trunc(e - size, align) else e - size;
      if t >= s {
        return Some(t), s;
      }
    }
    return None, s;
  }

  /** find_top_ram_aligned_limit. */
  method FindTopRam(list: seq<Range>, avoid: seq<Avoid>, asked: nat, align: nat, pagesize: nat, limit: nat)
    returns (r: Option<nat>)
    requires NonEmpty(list) && Within(list, PADDR_LIMIT) && AvoidsValid(avoid) && align < TWO64
    requires 0 < pagesize < TWO64 && asked < TWO64 && limit < TWO64
    ensures limit < asked ==> r.None?
    ensures Round(asked, pagesize) < TWO64
    ensures limit >= asked ==>
              TopResult(list, avoid, Round(asked, pagesize), align, limit, if r.Some? then r.value else 0)
    ensures r.Some? ==> r.value != 0
  {
    hide Round, TopIn, Usable;
    RoundInWord(asked, pagesize);
    if limit < asked {
      return None;
    }
    var size := Round(asked, pagesize);
    var top := 0;
    var k := 0;
    while k < |list|
      invariant 0 <= k <= |list|
      invariant TopSoFar(list, avoid, size, align, limit, k, top)
    {
      var chk, s := Propose(list[k], avoid, size, align);
      if chk.Some? && chk.value > top && chk.value + size >= limit {
        var ptop := top;
        top := Sub64(limit, size);
        if top < s {
          top := ptop;
        }
        assert TopResult(list, avoid, size, align, limit, top);
        break;
      }
      TopNext(list, avoid, size, align, limit, k, top);
      if chk.Some? && chk.value > top {
        top := chk.value;
      }
      k := k + 1;
    }
    return if top == 0 then None else Some(top);
  }

  /** When the rounded size fits below the limit, a block is free, not avoided and ends within the
      limit. */
  lemma TopIsFree(list: seq<Range>, avoid: seq<Avoid>, size: nat, align: nat, limit: nat, r: nat)
    requires NonEmpty(list) && Within(list, PADDR_LIMIT) && AvoidsValid(avoid) && align < TWO64
    requires size <= limit < TWO64 && r != 0 && TopResult(list, avoid, size, align, limit, r)
    ensures FreeBlock(list, avoid, r, size) && r + size <= limit
  {
    if i :| 0 <= i < |list| && TopIn(list[i], avoid, size, align) == Some(r) && r + size < limit {
      TopInWindow(list[i], avoid, size, align);
      InsideUsable(list, avoid, i, r, size);
    } else {
      var k: nat, before: nat :| 0 <= k < |list| && TopSoFar(list, avoid, size, align, limit, k, before)
         && TopIn(list[k], avoid, size, align).Some?
         && TopIn(list[k], avoid, size, align).value > before
         && TopIn(list[k], avoid, size, align).value + size >= limit
         && r == (if Sub64(limit, size) < Usable(EntryWindow(list[k]), avoid).value.start
                  then before else Sub64(limit, size));
      TopInWindow(list[k], avoid, size, align);
      InsideUsable(list, avoid, k, r, size);
    }
  }

  /** When the rounded size does not fit below the limit, the result is right only by there being
      none: anything returned has wrapped around the address space and is not free memory. */
  lemma TopWraps(list: seq<Range>, avoid: seq<Avoid>, size: nat, align: nat, limit: nat, r: nat)
    requires NonEmpty(list) && Within(list, PADDR_LIMIT) && AvoidsValid(avoid) && align < TWO64
    requires limit < size < PADDR_LIMIT && r != 0 && TopResult(list, avoid, size, align, limit, r)
    ensures r == limit + TWO64 - size && !FreeBlock(list, avoid, r, size)
  {
  }

  /** find_top_ram_aligned (limit ~0): the highest proposal of all entries, aligned. */
  lemma TopIsHighest(list: seq<Range>, avoid: seq<Avoid>, size: nat, align: nat, r: nat)
    requires NonEmpty(list) && Within(list, PADDR_LIMIT) && AvoidsValid(avoid) && align < TWO64
    requires size < TWO64 && TopResult(list, avoid, size, align, TWO64 - 1, r)
    ensures forall i :: 0 <= i < |list| && TopIn(list[i], avoid, size, align).Some? ==>
              TopIn(list[i], avoid, size, align).value <= r
    ensures r != 0 ==> forall k: nat :: align == Pow2(k) ==> r % align == 0
  {
    forall i | 0 <= i < |list| && TopIn(list[i], avoid, size, align).Some?
      ensures TopIn(list[i], avoid, size, align).value + size < TWO64 - 1
      ensures forall k: nat :: align == Pow2(k) ==> TopIn(list[i], avoid, size, align).value % align == 0
    {
      TopInWindow(list[i], avoid, size, align);
    }
  }

  /** Below a real limit the alignment can be lost, because the block is moved down to end at the
      limit. The result is aligned exactly if it ends before the limit or the limit suits it. */
  lemma TopAligned(list: seq<Range>, avoid: seq<Avoid>, size: nat, k: nat, limit: nat, r: nat)
    requires NonEmpty(list) && Within(list, PADDR_LIMIT) && AvoidsValid(avoid) && Pow2(k) < TWO64
    requires size <= limit < TWO64 && r != 0 && TopResult(list, avoid, size, Pow2(k), limit, r)
    ensures r % Pow2(k) == 0 <==> r + size < limit || (limit - size) % Pow2(k) == 0
  {
    forall i | 0 <= i < |list| && TopIn(list[i], avoid, size, Pow2(k)).Some?
      ensures TopIn(list[i], avoid, size, Pow2(k)).value % Pow2(k) == 0
    {
      TopInWindow(list[i], avoid, size, Pow2(k));
    }
  }

  /** A block the top search can return. */
  ghost predicate ResultOf(list: seq<Range>, avoid: seq<Avoid>, size: nat, align: nat, limit: nat, r: nat) {
    && NonEmpty(list) && Within(list, PADDR_LIMIT) && AvoidsValid(avoid) && align < TWO64
    && size < TWO64 && limit < TWO64 && r != 0 && TopResult(list, avoid, size, align, limit, r)
  }

  /** The limit suits the size and the alignment: a block that ends at the limit is aligned, or no
      aligned block of physical memory reaches the limit. */
  predicate Suits(size: nat, align: nat, limit: nat)
    requires align > 0 && size <= limit
  {
    (limit - size) % align == 0 || UpTo(limit - size, align) + size > PADDR_LIMIT
  }

  /** Free memory for which a limit that does not suit the size breaks the alignment. */
  lemma LimitBreaksAlignment(size: nat, k: nat, limit: nat)
    requires size <= limit < TWO64 && Pow2(k) < TWO64 && !Suits(size, Pow2(k), limit)
    ensures ResultOf([Range(0, UpTo(limit - size, Pow2(k)) + size)], [], size, Pow2(k), limit, limit - size)
  {
    hide Trunc, ResultOf, UpTo, Pow2;
    var e := UpTo(limit - size, Pow2(k));
    UpToTwice(limit - size, Pow2(k));
    AboveNonMultiple(limit - size, Pow2(k), e);
    AlignDown(e, k);
    MovedToLimit(Range(0, e + size), size, Pow2(k), limit);
  }

  lemma AboveNonMultiple(x: nat, n: nat, e: nat)
    requires n > 0 && x % n != 0 && e % n == 0 && e >= x
    ensures 0 < x < e
  {
  }

  lemma MovedToLimit(m: Range, size: nat, align: nat, limit: nat)
    requires 0 < m.size && m.addr == 0 && m.End() <= PADDR_LIMIT && align < TWO64
    requires size < limit < m.size
    requires 0 < align && limit - size < Trunc(m.size - size, align) <= m.size - size
    ensures ResultOf([m], [], size, align, limit, limit - size)
  {
    hide Trunc;
    assert Usable(EntryWindow(m), []) == Some(EntryWindow(m));
    assert TopIn(m, [], size, align) == Some(Trunc(m.size - size, align));
    assert TopSoFar([m], [], size, align, limit, 0, 0);
    assert [m][0] == m;
  }

  /** Whatever the free and avoided memory, a block the top search returns is aligned. */
  ghost predicate AlwaysAligned(size: nat, align: nat, limit: nat)
    requires align > 0
  {
    forall list: seq<Range>, avoid: seq<Avoid>, r: nat ::
      ResultOf(list, avoid, size, align, limit, r) ==> r % align == 0
  }

  /** Before the call, for a size that has been rounded and any limit: the result is always aligned
      exactly if the limit suits the size. */
  lemma TopAlwaysAligned(size: nat, k: nat, limit: nat)
    requires size <= limit < TWO64 && Pow2(k) < TWO64
    ensures AlwaysAligned(size, Pow2(k), limit) <==> Suits(size, Pow2(k), limit)
  {
    hide ResultOf, Pow2, Suits;
    if Suits(size, Pow2(k), limit) {
      forall list: seq<Range>, avoid: seq<Avoid>, r: nat | ResultOf(list, avoid, size, Pow2(k), limit, r)
        ensures r % Pow2(k) == 0
      {
        ResultAligned(list, avoid, size, k, limit, r);
      }
    } else {
      LimitBreaksAlignment(size, k, limit);
      NotAMultiple(size, Pow2(k), limit);
    }
  }

  lemma NotAMultiple(size: nat, align: nat, limit: nat)
    requires align > 0 && size <= limit && !Suits(size, align, limit)
    ensures (limit - size) % align != 0
  {
  }

  lemma ResultAligned(list: seq<Range>, avoid: seq<Avoid>, size: nat, k: nat, limit: nat, r: nat)
    requires size <= limit && ResultOf(list, avoid, size, Pow2(k), limit, r) && Suits(size, Pow2(k), limit)
    ensures r % Pow2(k) == 0
  {
    hide TopResult, UpTo, Pow2;
    if (limit - size) % Pow2(k) != 0 {
      NeverMoved(list, avoid, size, k, limit, r);
    }
    TopAligned(list, avoid, size, k, limit, r);
  }

  /** Where no aligned block reaches the limit, none is moved down to it. */
  lemma NeverMoved(list: seq<Range>, avoid: seq<Avoid>, size: nat, k: nat, limit: nat, r: nat)
    requires size <= limit && ResultOf(list, avoid, size, Pow2(k), limit, r)
    requires UpTo(limit - size, Pow2(k)) + size > PADDR_LIMIT
    ensures r + size < limit
  {
    hide UpTo, TopIn, Pow2, Usable;
    forall i | 0 <= i < |list| && TopIn(list[i], avoid, size, Pow2(k)).Some?
      ensures TopIn(list[i], avoid, size, Pow2(k)).value + size < limit
    {
      var v := TopIn(list[i], avoid, size, Pow2(k)).value;
      TopInWindow(list[i], avoid, size, Pow2(k));
      if v + size >= limit {
        LeastMultiple(limit - size, Pow2(k), v);
      }
    }
  }

  lemma LeastMultiple(x: nat, n: nat, v: nat)
    requires n > 0 && v % n == 0 && v >= x
    ensures v >= UpTo(x, n)
  {
    DivMod(v, n);
    DivMod(x + n - 1, n);
    AtLeast(n, v / n, (x + n - 1) / n, x, (x + n - 1) % n);
  }

  lemma AtLeast(n: nat, a: nat, u: nat, x: nat, r: nat)
    requires n > 0 && x + n - 1 == n * u + r && n * a >= x
    ensures n * a >= u * n
  {
    Commutes(n, u);
    if a < u {
      MulAtMost(n, a, u);
    } else {
      assert n * a - n * u == n * (a - u);
    }
  }

  /** Inputs for which a search returns memory that is not free: alignment zero with an entry above
      address zero, and a limit below the rounded size. */
  lemma ZeroAlignmentInput()
    ensures FitIn(Range(0x1000, 0x1000), [], 0x10, 0) == Some(0)
    ensures !FreeBlock([Range(0x1000, 0x1000)], [], 0, 0x10)
  {
    hide Round;
    ZeroAlignment(0x1000);
    assert Usable(EntryWindow(Range(0x1000, 0x1000)), []) == Some(Window(0x1000, 0x2000));
  }

  lemma TopWrapsInput()
    ensures TopResult([Range(0x1000, 0x10000)], [], 0x1000, 0, 0x800, TWO64 - 0x800)
    ensures !FreeBlock([Range(0x1000, 0x10000)], [], TWO64 - 0x800, 0x1000)
  {
    hide Trunc;
    var list := [Range(0x1000, 0x10000)];
    assert Usable(EntryWindow(list[0]), []) == Some(Window(0x1000, 0x11000));
    assert TopIn(list[0], [], 0x1000, 0) == Some(0x10000);
    assert TopSoFar(list, [], 0x1000, 0, 0x800, 0, 0);
  }
}
