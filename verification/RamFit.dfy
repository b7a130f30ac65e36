/** Which blocks the two searches of ram.c find, said of the free memory itself: the least aligned
    address that find_ram comes to, and the highest one below the limit for the top search. */
module RamFit {
  import opened Bits
  import opened Ranges
  import opened RamList
  import opened RamSearch
  import opened Wrappers

  // ---- what the avoid list leaves of an entry ----

  /** The range lies beside the window; an empty range between its ends does not. */
  predicate Beside(w: Window, a: Avoid) { w.end <= a.start || a.end <= w.start }

  /** An entry is left whole exactly if every avoided range lies beside it. */
  lemma {:induction false} UntouchedIsWhole(w: Window, avoid: seq<Avoid>)
    requires w.start < w.end && AvoidsValid(avoid)
    ensures Usable(w, avoid) == Some(w) <==> forall i :: 0 <= i < |avoid| ==> Beside(w, avoid[i])
    decreases |avoid|
  {
    if avoid != [] {
      var v := FixSize(w, avoid[0]);
      assert forall i :: 1 <= i < |avoid| ==> avoid[i] == avoid[1..][i - 1];
      if v.Some? {
        UntouchedIsWhole(v.value, avoid[1..]);
        UsableIsClear(v.value, avoid[1..]);
      }
    }
  }

  /** The list is gone through from the front, and the last range cuts what the others have left. */
  lemma {:induction false} UsableInOrder(w: Window, avoid: seq<Avoid>, a: Avoid)
    requires w.start < w.end && AvoidsValid(avoid) && a.start <= a.end && 0 < a.end < TWO64
    ensures var v := Usable(w, avoid);
            && (v.Some? ==> v.value.start < v.value.end)
            && Usable(w, avoid + [a]) == if v.None? then None else FixSize(v.value, a)
    decreases |avoid|
  {
    UsableIsClear(w, avoid);
    if avoid == [] {
      assert avoid + [a] == [a];
    } else {
      assert (avoid + [a])[1..] == avoid[1..] + [a];
      var v := FixSize(w, avoid[0]);
      if v.Some? {
        UsableInOrder(v.value, avoid[1..], a);
      }
    }
  }

  // ---- find_ram ----

  /** A block of this size lies at the aligned address, in what the avoid list leaves of the entry. */
  ghost predicate Holds(m: Range, avoid: seq<Avoid>, size: nat, align: nat, addr: nat)
    requires m.size > 0 && AvoidsValid(avoid) && align > 0
  {
    var u := Usable(EntryWindow(m), avoid);
    u.Some? && u.value.start <= addr && addr + size <= u.value.end && addr % align == 0
  }

  /** r is the least such address in the entry, or there is none. */
  ghost predicate LeastIn(m: Range, avoid: seq<Avoid>, size: nat, align: nat, r: Option<nat>)
    requires m.size > 0 && AvoidsValid(avoid) && align > 0
  {
    match r
    case None => forall b: nat :: !Holds(m, avoid, size, align, b)
    case Some(addr) =>
      Holds(m, avoid, size, align, addr) && forall b: nat :: Holds(m, avoid, size, align, b) ==> addr <= b
  }

  lemma FitExactly(m: Range, avoid: seq<Avoid>, size: nat, k: nat)
    requires m.size > 0 && m.End() <= PADDR_LIMIT && AvoidsValid(avoid) && size > 0 && Pow2(k) < TWO64
    ensures LeastIn(m, avoid, size, Pow2(k), FitIn(m, avoid, size, Pow2(k)))
  {
    hide Usable, Round, Pow2, UpTo;
    UsableIsClear(EntryWindow(m), avoid);
    var u := Usable(EntryWindow(m), avoid);
    if u.Some? {
      HalfWord(k);
      UpToIsRound(u.value.start, k);
      UpToTwice(u.value.start, Pow2(k));
      forall b: nat | Holds(m, avoid, size, Pow2(k), b) ensures Round(u.value.start, Pow2(k)) <= b {
        LeastMultiple(u.value.start, Pow2(k), b);
      }
    }
  }

  /** A power of two below 2^64 is at most 2^63. */
  lemma HalfWord(k: nat)
    requires Pow2(k) < TWO64
    ensures 2 * Pow2(k) <= TWO64
  {
    hide Pow2;
    Pow2Doubles(64);
    if k >= 64 {
      Pow2Adds(64, k - 64);
      MulAtMost(TWO64, 0, Pow2(k - 64));
      assert false;
    } else {
      Pow2Adds(k + 1, 63 - k);
      MulAtMost(Pow2(k + 1), 0, Pow2(63 - k));
      NextPower(k);
    }
  }

  lemma NextPower(k: nat)
    ensures Pow2(k + 1) == 2 * Pow2(k)
  {
  }

  /** r is the least aligned address in the first entry that holds such a block. */
  ghost predicate LeastFit(list: seq<Range>, avoid: seq<Avoid>, size: nat, align: nat, r: Option<nat>)
    requires NonEmpty(list) && AvoidsValid(avoid) && align > 0
  {
    match r
    case None => forall i, b: nat :: 0 <= i < |list| ==> !Holds(list[i], avoid, size, align, b)
    case Some(addr) =>
      exists i :: 0 <= i < |list| && LeastIn(list[i], avoid, size, align, r)
                  && forall j, b: nat :: 0 <= j < i ==> !Holds(list[j], avoid, size, align, b)
  }

  /** find_ram returns that address, and no other, for every power of two. */
  lemma FirstFitExactly(list: seq<Range>, avoid: seq<Avoid>, size: nat, k: nat, r: Option<nat>)
    requires NonEmpty(list) && Within(list, PADDR_LIMIT) && AvoidsValid(avoid) && size > 0 && Pow2(k) < TWO64
    ensures FirstFit(list, avoid, size, Pow2(k), r) <==> LeastFit(list, avoid, size, Pow2(k), r)
  {
    hide FitIn, Holds, Pow2;
    forall i | 0 <= i < |list|
      ensures LeastIn(list[i], avoid, size, Pow2(k), FitIn(list[i], avoid, size, Pow2(k)))
    {
      FitExactly(list[i], avoid, size, k);
    }
  }

  /** For any other alignment but zero the block begins less than the alignment behind the start of
      what is left of the entry, where none of the alignment's mask bits is set. */
  lemma OddAlignment(m: Range, avoid: seq<Avoid>, size: nat, align: nat, addr: nat)
    requires m.size > 0 && m.End() <= PADDR_LIMIT && AvoidsValid(avoid) && 0 < align <= PADDR_LIMIT
    requires FitIn(m, avoid, size, align) == Some(addr)
    ensures var u := Usable(EntryWindow(m), avoid).value;
            u.start <= addr < u.start + align && addr + size <= u.end
    ensures And(addr, align - 1) == 0
  {
    hide Usable, And;
    UsableIsClear(EntryWindow(m), avoid);
    var u := Usable(EntryWindow(m), avoid).value;
    RoundBounds(u.start, align);
    Cleared(u.start + (align - 1), align - 1);
  }

  // ---- find_top_ram ----

  /** r is the greatest such address in the entry, or there is none. */
  ghost predicate GreatestIn(m: Range, avoid: seq<Avoid>, size: nat, align: nat, r: Option<nat>)
    requires m.size > 0 && AvoidsValid(avoid) && align > 0
  {
    match r
    case None => forall b: nat :: !Holds(m, avoid, size, align, b)
    case Some(addr) =>
      Holds(m, avoid, size, align, addr) && forall b: nat :: Holds(m, avoid, size, align, b) ==> b <= addr
  }

  /** What an entry proposes to the top search; alignment zero stands for one. */
  lemma TopExactly(m: Range, avoid: seq<Avoid>, size: nat, k: nat)
    requires m.size > 0 && m.End() <= PADDR_LIMIT && AvoidsValid(avoid) && Pow2(k) < TWO64
    ensures GreatestIn(m, avoid, size, Pow2(k), TopIn(m, avoid, size, Pow2(k)))
    ensures GreatestIn(m, avoid, size, 1, TopIn(m, avoid, size, 0))
  {
    hide Usable, Trunc, Pow2;
    UsableIsClear(EntryWindow(m), avoid);
    var u := Usable(EntryWindow(m), avoid);
    if u.Some? && size <= u.value.end - u.value.start {
      AlignDown(u.value.end - size, k);
      forall b: nat | Holds(m, avoid, size, Pow2(k), b) ensures b <= Trunc(u.value.end - size, Pow2(k)) {
        GreatestMultiple(u.value.end - size, Pow2(k), b);
      }
    }
  }

  lemma GreatestMultiple(x: nat, n: nat, b: nat)
    requires n > 0 && b % n == 0 && b <= x
    ensures b <= x - x % n
  {
    DivMod(x, n);
    DivMod(b, n);
    if b / n > x / n {
      MulAtMost(n, x / n, b / n);
    } else if b / n < x / n {
      MulAtMost(n, b / n, x / n);
    }
  }

  /** The block is one of an entry. */
  ghost predicate Somewhere(list: seq<Range>, avoid: seq<Avoid>, size: nat, align: nat, addr: nat)
    requires NonEmpty(list) && AvoidsValid(avoid) && align > 0
  {
    exists i :: 0 <= i < |list| && Holds(list[i], avoid, size, align, addr)
  }

  /** The result is a block of some entry that ends within the limit, and at least as high as every
      aligned one that does; it is aligned, or ends at the limit. Zero stands for none, which only
      a block at address zero can belie. */
  ghost predicate Highest(list: seq<Range>, avoid: seq<Avoid>, size: nat, align: nat, limit: nat, r: nat)
    requires NonEmpty(list) && AvoidsValid(avoid) && align > 0
  {
    && (forall b: nat :: Somewhere(list, avoid, size, align, b) && b + size <= limit ==> b <= r)
    && (r != 0 ==> r + size <= limit && Somewhere(list, avoid, size, if r + size < limit then align else 1, r))
  }

  /** The top search under any limit that the size fits below, on a free list in normal form;
      alignment zero stands for one. */
  lemma TopIsHighestBelow(list: seq<Range>, avoid: seq<Avoid>, size: nat, k: nat, limit: nat, r: nat)
    requires Normal(list) && Within(list, PADDR_LIMIT) && AvoidsValid(avoid) && Pow2(k) < TWO64
    requires size <= limit < TWO64
    ensures TopResult(list, avoid, size, Pow2(k), limit, r) ==> Highest(list, avoid, size, Pow2(k), limit, r)
    ensures TopResult(list, avoid, size, 0, limit, r) ==> Highest(list, avoid, size, 1, limit, r)
  {
    hide TopIn, Holds, TopResult, Highest, Pow2;
    forall i | 0 <= i < |list|
      ensures GreatestIn(list[i], avoid, size, Pow2(k), TopIn(list[i], avoid, size, Pow2(k)))
      ensures GreatestIn(list[i], avoid, size, 1, TopIn(list[i], avoid, size, 0))
    {
      TopExactly(list[i], avoid, size, k);
    }
    if TopResult(list, avoid, size, Pow2(k), limit, r) {
      HighestOf(list, avoid, size, Pow2(k), Pow2(k), limit, r);
    }
    if TopResult(list, avoid, size, 0, limit, r) {
      HighestOf(list, avoid, size, 0, 1, limit, r);
    }
  }

  lemma HighestOf(list: seq<Range>, avoid: seq<Avoid>, size: nat, align: nat, unit: nat, limit: nat, r: nat)
    requires Normal(list) && Within(list, PADDR_LIMIT) && AvoidsValid(avoid) && align < TWO64 && unit > 0
    requires size <= limit < TWO64 && TopResult(list, avoid, size, align, limit, r)
    requires forall i :: 0 <= i < |list| ==> GreatestIn(list[i], avoid, size, unit, TopIn(list[i], avoid, size, align))
    ensures Highest(list, avoid, size, unit, limit, r)
  {
    hide TopIn, Usable;
    if TopSoFar(list, avoid, size, align, limit, |list|, r) {
      if r != 0 {
        var i :| 0 <= i < |list| && TopIn(list[i], avoid, size, align) == Some(r);
        assert Holds(list[i], avoid, size, unit, r);
      }
    } else {
      var k: nat, before: nat :| 0 <= k < |list| && TopSoFar(list, avoid, size, align, limit, k, before)
        && TopIn(list[k], avoid, size, align).Some?
        && TopIn(list[k], avoid, size, align).value > before
        && TopIn(list[k], avoid, size, align).value + size >= limit
        && r == (if Sub64(limit, size) < Usable(EntryWindow(list[k]), avoid).value.start
                 then before else Sub64(limit, size));
      MovedOrKept(list, avoid, size, align, unit, limit, k, before);
    }
  }

  /** The search stops at the first entry that reaches the limit: behind it nothing ends within. */
  lemma MovedOrKept(list: seq<Range>, avoid: seq<Avoid>, size: nat, align: nat, unit: nat, limit: nat, k: nat,
                    before: nat)
    requires Normal(list) && Within(list, PADDR_LIMIT) && AvoidsValid(avoid) && align < TWO64 && unit > 0
    requires size <= limit < TWO64 && k < |list| && TopSoFar(list, avoid, size, align, limit, k, before)
    requires forall i :: 0 <= i < |list| ==> GreatestIn(list[i], avoid, size, unit, TopIn(list[i], avoid, size, align))
    requires TopIn(list[k], avoid, size, align).Some? && TopIn(list[k], avoid, size, align).value + size >= limit
    ensures var u := Usable(EntryWindow(list[k]), avoid).value;
            Highest(list, avoid, size, unit, limit, if limit - size < u.start then before else limit - size)
  {
    hide TopIn, Usable;
    UsableIsClear(EntryWindow(list[k]), avoid);
    var u := Usable(EntryWindow(list[k]), avoid).value;
    assert Holds(list[k], avoid, size, unit, TopIn(list[k], avoid, size, align).value);
    if limit - size < u.start {
      forall i, b: nat | 0 <= i < |list| && Holds(list[i], avoid, size, unit, b) && b + size <= limit
        ensures b <= before
      {
        UsableIsClear(EntryWindow(list[i]), avoid);
      }
      if before != 0 {
        var i :| 0 <= i < k && TopIn(list[i], avoid, size, align) == Some(before);
        assert Holds(list[i], avoid, size, unit, before);
      }
    } else {
      assert Holds(list[k], avoid, size, 1, limit - size);
    }
  }
}
