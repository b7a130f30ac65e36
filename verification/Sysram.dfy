/** The second half of alloc_ram: taking an allocated range out of the "sysram" entries. */
module Sysram {
  import opened Bits
  import opened Ranges
  import opened RamList
  import opened AddressSpace
  import opened Wrappers

  const PLAIN: Request := Request(Attr(0, false, false), false)

  /** Some "sysram" entry lies wholly inside [addr, end]. */
  ghost predicate SwallowsEntry(es: seq<Entry>, addr: nat, end: nat)
    requires OwnersBefore(es)
  {
    exists i :: 0 <= i < |es| && Match(es, i, "sysram") && addr <= es[i].start && es[i].end <= end
  }

  /** The addresses outside [addr, end] keep their "sysram" status, and none gains it. */
  ghost predicate CutBetween(es: seq<Entry>, es': seq<Entry>, addr: nat, end: nat)
    requires OwnersBefore(es) && OwnersBefore(es')
  {
    && (forall x :: Named(es', "sysram", x) ==> Named(es, "sysram", x))
    && (forall x :: Named(es, "sysram", x) && !(addr <= x <= end) ==> Named(es', "sysram", x))
  }

  /** Every "sysram" entry is just that, and lies inside the entry that owns it. */
  ghost predicate Backed(es: seq<Entry>)
    requires OwnersBefore(es)
  {
    forall i :: 0 <= i < |es| && Match(es, i, "sysram") ==> BackedAt(es, i)
  }

  ghost predicate BackedAt(es: seq<Entry>, i: nat)
    requires OwnersBefore(es) && i < |es|
  {
    && es[i].name == "sysram" && es[i].owner.Some?
    && !Match(es, es[i].owner.value, "sysram")
    && es[es[i].owner.value].start <= es[i].start && es[i].end <= es[es[i].owner.value].end
  }

  /** Every other name has the addresses it had. */
  ghost predicate OthersKept(es: seq<Entry>, es': seq<Entry>)
    requires OwnersBefore(es) && OwnersBefore(es')
  {
    forall n, x :: n != "sysram" ==> (Named(es', n, x) <==> Named(es, n, x))
  }

  lemma OtherViews(es: seq<Entry>, es': seq<Entry>, name: string)
    requires OwnersBefore(es) && OwnersBefore(es') && OthersKept(es, es')
    ensures name != "sysram" ==> View(es', name) == View(es, name)
  {
  }

  /** What a cut does to entry k and behind the old entries. */
  ghost predicate CutAt(es: seq<Entry>, es': seq<Entry>, k: nat)
    requires OwnersBefore(es) && OwnersBefore(es') && k < |es|
  {
    && KeepsOwners(es, es') && Match(es, k, "sysram")
    && (forall i :: 0 <= i < |es| && i != k ==> SameButKids(es[i], es'[i]))
    && es[k].start <= es'[k].start && es'[k].end <= es[k].end
    && (forall i :: |es| <= i < |es'| ==>
          es'[i].name == "sysram" && es'[i].owner == es[k].owner
          && es[k].start <= es'[i].start && es'[i].end <= es[k].end)
  }

  /** Where all "sysram" entries are backed, a cut takes no address from any other name. */
  lemma CutKeepsOthers(es: seq<Entry>, es': seq<Entry>, k: nat)
    requires OwnersBefore(es) && OwnersBefore(es') && k < |es| && CutAt(es, es', k) && Backed(es)
    ensures Backed(es') && OthersKept(es, es')
  {
    assert BackedAt(es, k);
    var j := es[k].owner.value;
    forall i | 0 <= i < |es'| && Match(es', i, "sysram") ensures BackedAt(es', i) {
      BackedAfter(es, es', k, i);
    }
    forall n, x | n != "sysram" ensures Named(es', n, x) <==> Named(es, n, x) {
      MatchStable(es, es', j, n);
      if Named(es', n, x) {
        var i :| 0 <= i < |es'| && Match(es', i, n) && es'[i].Has(x);
        NamedBefore(es, es', k, n, i, x);
      }
      if Named(es, n, x) {
        var i :| 0 <= i < |es| && Match(es, i, n) && es[i].Has(x);
        var h := if i == k then j else i;
        MatchStable(es, es', h, n);
        assert Match(es', h, n) && es'[h].Has(x);
      }
    }
  }

  lemma BackedAfter(es: seq<Entry>, es': seq<Entry>, k: nat, i: nat)
    requires OwnersBefore(es) && OwnersBefore(es') && k < |es| && CutAt(es, es', k) && Backed(es)
    requires i < |es'| && Match(es', i, "sysram")
    ensures BackedAt(es', i)
  {
    var h := if i < |es| then i else k;
    MatchStable(es, es', h, "sysram");
    assert BackedAt(es, h);
    MatchStable(es, es', es[h].owner.value, "sysram");
  }

  lemma NamedBefore(es: seq<Entry>, es': seq<Entry>, k: nat, n: string, i: nat, x: int)
    requires OwnersBefore(es) && OwnersBefore(es') && k < |es| && CutAt(es, es', k) && Backed(es)
    requires n != "sysram" && i < |es'| && Match(es', i, n) && es'[i].Has(x)
    ensures Named(es, n, x)
  {
    if i < |es| {
      MatchStable(es, es', i, n);
      assert es[i].Has(x);
    } else {
      assert BackedAt(es, k);
      var j := es[k].owner.value;
      MatchStable(es, es', j, n);
      assert Match(es, j, n) && es[j].Has(x);
    }
  }

  lemma NothingCut(es: seq<Entry>, addr: nat, end: nat)
    requires OwnersBefore(es)
    ensures CutBetween(es, es, addr, end) && OthersKept(es, es)
  {
  }

  lemma OthersTwice(a: seq<Entry>, b: seq<Entry>, c: seq<Entry>)
    requires OwnersBefore(a) && OwnersBefore(b) && OwnersBefore(c) && OthersKept(a, b) && OthersKept(b, c)
    ensures OthersKept(a, c)
  {
  }

  /** The progress of the rescan: entries before `from` and entries added by it are clear of the
      range, the others are as they were. */
  ghost predicate Scanned(es0: seq<Entry>, es: seq<Entry>, from: nat, addr: nat, end: nat)
    requires OwnersBefore(es0)
  {
    && OwnersBefore(es) && ProperRanges(es)
    && from <= |es|
    && KeepsOwners(es0, es)
    && CutBetween(es0, es, addr, end)
    && (forall i :: from <= i < |es0| ==> SameButKids(es0[i], es[i]))
    && (forall i :: 0 <= i < |es| && (i < from || |es0| <= i) ==>
          Match(es, i, "sysram") ==> ClearOf(es[i], addr, end))
    && (forall i :: 0 <= i < from && i < |es0| && Match(es0, i, "sysram") ==>
          !(addr <= es0[i].start && es0[i].end <= end))
  }

  ghost predicate ClearOf(e: Entry, addr: nat, end: nat) {
    end < e.start || e.end < addr
  }

  /** Going on to a later hit: nothing in between needs cutting. */
  lemma SkipTo(es0: seq<Entry>, es: seq<Entry>, from: nat, to: nat, addr: nat, end: nat)
    requires OwnersBefore(es0) && ProperRanges(es0) && Scanned(es0, es, from, addr, end)
    requires from <= to <= |es| && addr <= end + 1
    requires forall i :: from <= i < to ==> !Hit(es, i, addr, end, "sysram")
    ensures Scanned(es0, es, to, addr, end)
  {
    forall i | from <= i < to && Match(es, i, "sysram") ensures ClearOf(es[i], addr, end) {
      assert !Hit(es, i, addr, end, "sysram");
    }
    forall i | from <= i < to && i < |es0| && Match(es0, i, "sysram")
      ensures !(addr <= es0[i].start && es0[i].end <= end)
    {
      MatchStable(es0, es, i, "sysram");
      assert !Hit(es, i, addr, end, "sysram");
    }
  }

  lemma NamedBy(es: seq<Entry>, i: nat, x: int)
    requires OwnersBefore(es) && i < |es| && Match(es, i, "sysram") && es[i].Has(x)
    ensures Named(es, "sysram", x)
  {
  }

  /** One cut: entry k is shortened and the rest of it, if any, becomes a new entry. */
  lemma CutKeepsView(es: seq<Entry>, es': seq<Entry>, k: nat, addr: nat, end: nat)
    requires OwnersBefore(es) && OwnersBefore(es') && KeepsOwners(es, es') && k < |es|
    requires Match(es, k, "sysram")
    requires forall i :: 0 <= i < |es| && i != k ==> SameButKids(es[i], es'[i])
    requires forall i :: |es| <= i < |es'| ==> es'[i].name == "sysram"
    requires forall i, x :: (i == k || |es| <= i < |es'|) && es'[i].Has(x) ==> es[k].Has(x)
    requires forall x :: es[k].Has(x) && !(addr <= x <= end) ==>
                           es'[k].Has(x) || (|es'| == |es| + 1 && es'[|es|].Has(x))
    ensures CutBetween(es, es', addr, end)
  {
    forall x | Named(es', "sysram", x) ensures Named(es, "sysram", x) {
      var i :| 0 <= i < |es'| && Match(es', i, "sysram") && es'[i].Has(x);
      if i < |es| && i != k {
        MatchStable(es, es', i, "sysram");
        NamedBy(es, i, x);
      } else {
        NamedBy(es, k, x);
      }
    }
    forall x | Named(es, "sysram", x) && !(addr <= x <= end) ensures Named(es', "sysram", x) {
      var i :| 0 <= i < |es| && Match(es, i, "sysram") && es[i].Has(x);
      MatchStable(es, es', i, "sysram");
      if i != k || es'[k].Has(x) {
        NamedBy(es', i, x);
      } else {
        NamedBy(es', |es|, x);
      }
    }
  }

  lemma CutCompose(a: seq<Entry>, b: seq<Entry>, c: seq<Entry>, addr: nat, end: nat)
    requires OwnersBefore(a) && OwnersBefore(b) && OwnersBefore(c)
    requires CutBetween(a, b, addr, end) && CutBetween(b, c, addr, end)
    ensures CutBetween(a, c, addr, end)
  {
  }

  /** The step over a hit k that was not cut off completely. */
  lemma CutStep(es0: seq<Entry>, es: seq<Entry>, es': seq<Entry>, k: nat, addr: nat, end: nat)
    requires OwnersBefore(es0) && Scanned(es0, es, k, addr, end) && k < |es|
    requires OwnersBefore(es') && ProperRanges(es') && KeepsOwners(es, es')
    requires CutBetween(es, es', addr, end)
    requires forall i :: 0 <= i < |es| && i != k ==> SameButKids(es[i], es'[i])
    requires ClearOf(es'[k], addr, end) && !(addr <= es[k].start && es[k].end <= end)
    requires forall i :: |es| <= i < |es'| ==> ClearOf(es'[i], addr, end)
    ensures Scanned(es0, es', k + 1, addr, end)
  {
    CutCompose(es0, es, es', addr, end);
    forall i | 0 <= i < |es'| && (i < k + 1 || |es0| <= i) && Match(es', i, "sysram")
      ensures ClearOf(es'[i], addr, end)
    {
      if i < |es| {
        MatchStable(es, es', i, "sysram");
      }
    }
  }

  /** The rescan at the end: no "sysram" entry meets the range any more. */
  lemma ScanDone(es0: seq<Entry>, es: seq<Entry>, addr: nat, end: nat)
    requires OwnersBefore(es0) && Scanned(es0, es, |es|, addr, end)
    ensures forall x :: Named(es, "sysram", x) <==> Named(es0, "sysram", x) && !(addr <= x <= end)
    ensures !SwallowsEntry(es0, addr, end)
  {
  }

  /** The body of alloc_ram's rescan for the hit k. */
  method CutEntry(as_: AddressSpace, k: nat, addr: nat, end: nat) returns (o: Outcome)
    requires as_.Valid() && k < |as_.entries| && addr <= end + 1 && end < TWO64 - 1
    requires Hit(as_.entries, k, addr, end, "sysram")
    modifies as_
    ensures as_.Valid() && KeepsOwners(old(as_.entries), as_.entries)
    ensures o.Crash? <==> addr <= old(as_.entries)[k].start && old(as_.entries)[k].end <= end
    ensures o.Crash? ==> as_.entries == old(as_.entries)
    ensures o.Done? ==>
      var es, es' := old(as_.entries), as_.entries;
      && CutBetween(es, es', addr, end)
      && (forall i :: 0 <= i < |es| && i != k ==> SameButKids(es[i], es'[i]))
      && ClearOf(es'[k], addr, end)
      && (forall i :: |es| <= i < |es'| ==> ClearOf(es'[i], addr, end))
      && (ClearOf(es[k], addr, end) ==> |es'| == |es|)
      && (Backed(es) ==> Backed(es') && OthersKept(es, es'))
  {
    hide Named, CutBetween, Backed, OthersKept;
    ghost var es := as_.entries;
    var e0 := as_.entries[k];
    var s, e := e0.start, e0.end;
    if end > e {
      e := end;
    }
    if addr < s {
      s := addr;
    }
    if addr == s && end == e {
      return Crash;
    } else if addr == s {
      as_.entries := as_.entries[k := e0.(start := end + 1)];
    } else {
      as_.entries := as_.entries[k := e0.(end := addr - 1)];
      if e != end {
        var _ := as_.Add(end + 1, e, PLAIN, "sysram", e0.owner);
      }
    }
    CutKeepsView(es, as_.entries, k, addr, end);
    if Backed(es) {
      CutKeepsOthers(es, as_.entries, k);
    }
    return Done;
  }

  /** The rescan: on success exactly the allocated addresses have left the "sysram" entries; it
      crashes exactly when an entry would vanish altogether. */
  method CutSysram(as_: AddressSpace, addr: nat, size: nat) returns (o: Outcome)
    requires as_.Valid() && 0 < addr + size < TWO64
    modifies as_
    ensures as_.Valid() && KeepsOwners(old(as_.entries), as_.entries)
    ensures o.Crash? <==> SwallowsEntry(old(as_.entries), addr, addr + size - 1)
    ensures o.Crash? ==> SwallowsEntry(as_.entries, addr, addr + size - 1)
    ensures o.Done? ==> View(as_.entries, "sysram") == View(old(as_.entries), "sysram") - Span(addr, addr + size)
    // and no other name is affected
    ensures o.Done? && Backed(old(as_.entries)) ==> Backed(as_.entries) && OthersKept(old(as_.entries), as_.entries)
  {
    hide Backed, OthersKept, CutBetween, Named;
    var end := addr + size - 1;
    ghost var es0, from := as_.entries, 0;
    NothingCut(es0, addr, end);
    var off := None;
    while true
      invariant as_.Valid() && Scanned(es0, as_.entries, from, addr, end)
      invariant from == if off.Some? then off.value + 1 else 0
      invariant Backed(es0) ==> Backed(as_.entries) && OthersKept(es0, as_.entries)
      decreases if from < |es0| then |es0| - from else 0, |as_.entries| - from
    {
      off := as_.FindContaining(off, addr, end, "sysram");
      if off.None? {
        SkipTo(es0, as_.entries, from, |as_.entries|, addr, end);
        break;
      }
      var k := off.value;
      SkipTo(es0, as_.entries, from, k, addr, end);
      ghost var es := as_.entries;
      o := CutEntry(as_, k, addr, end);
      if o.Crash? {
        MatchStable(es0, es, k, "sysram");
        return;
      }
      CutStep(es0, es, as_.entries, k, addr, end);
      if Backed(es0) {
        OthersTwice(es0, es, as_.entries);
      }
      from := k + 1;
    }
    ScanDone(es0, as_.entries, addr, end);
    return Done;
  }
}
