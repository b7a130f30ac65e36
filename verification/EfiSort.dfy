/** The UEFI memory map of efi_entry_point.c and its in-place heap sort. */
module EfiSort {

  /** The descriptor types init_raminfo_efi tells apart; Other stands for every type its switch
      does not list. */
  datatype Kind =
    | LoaderCode | LoaderData
    | BootServicesCode | BootServicesData
    | RuntimeServicesCode | RuntimeServicesData
    | AcpiReclaimMemory
    | ConventionalMemory
    | Other

  datatype Desc = Desc(start: nat, pages: nat, kind: Kind)

  function Parent(i: nat): nat
    requires i > 0
  {
    (i - 1) / 2
  }

  /** A max-heap by start address. */
  ghost predicate IsHeap(s: seq<Desc>) {
    forall i :: 0 < i < |s| ==> s[Parent(i)].start >= s[i].start
  }

  /** A heap but for the entry at child, which may be too large for its place. */
  ghost predicate SiftingUp(s: seq<Desc>, child: nat) {
    && child < |s|
    && (forall i :: 0 < i < |s| && i != child ==> s[Parent(i)].start >= s[i].start)
    && (forall i :: 0 < i < |s| && child > 0 && Parent(i) == child ==> s[Parent(child)].start >= s[i].start)
  }

  function Swapped(s: seq<Desc>, i: nat, j: nat): seq<Desc>
    requires i < |s| && j < |s|
  {
    s[i := s[j]][j := s[i]]
  }

  lemma SwappedIs(s: seq<Desc>, t: seq<Desc>, i: nat, j: nat)
    requires i < |s| && j < |s| && |t| == |s| && t[i] == s[j] && t[j] == s[i]
    requires forall k :: 0 <= k < |s| && k != i && k != j ==> t[k] == s[k]
    ensures t == Swapped(s, i, j)
  {
  }

  lemma SwapPermutes(s: seq<Desc>, i: nat, j: nat)
    requires i < |s| && j < |s|
    ensures multiset(Swapped(s, i, j)) == multiset(s)
  {
  }

  lemma SiftStep(s: seq<Desc>, child: nat)
    requires SiftingUp(s, child) && child > 0 && s[Parent(child)].start < s[child].start
    ensures SiftingUp(Swapped(s, Parent(child), child), Parent(child))
  {
    var t := Swapped(s, Parent(child), child);
    var parent := Parent(child);
    forall i | 0 < i < |t| && i != parent ensures t[Parent(i)].start >= t[i].start {
      if i != child && Parent(i) == parent {
        assert s[parent].start >= s[i].start;
      }
    }
    forall i | 0 < i < |t| && parent > 0 && Parent(i) == parent ensures t[Parent(parent)].start >= t[i].start {
      assert s[Parent(parent)].start >= s[parent].start;
      if i != child {
        assert s[parent].start >= s[i].start;
      }
    }
  }

  lemma SiftBegins(s: seq<Desc>)
    requires s != [] && IsHeap(s[..|s| - 1])
    ensures SiftingUp(s, |s| - 1)
  {
    var front := s[..|s| - 1];
    assert forall i :: 0 < i < |front| ==> s[i] == front[i] && s[Parent(i)] == front[Parent(i)];
  }

  lemma SiftEnds(s: seq<Desc>, child: nat)
    requires SiftingUp(s, child)
    requires child > 0 ==> s[Parent(child)].start >= s[child].start
    ensures IsHeap(s)
  {
  }

  lemma {:induction false} RootIsLargest(s: seq<Desc>, i: nat)
    requires IsHeap(s) && i < |s|
    ensures s[0].start >= s[i].start
    decreases i
  {
    if i > 0 {
      RootIsLargest(s, Parent(i));
    }
  }

  ghost predicate Ascending(s: seq<Desc>) {
    forall i, j :: 0 <= i < j < |s| ==> s[i].start <= s[j].start
  }

  ghost predicate AllAtMost(s: seq<Desc>, bound: int) {
    forall d :: d in s ==> d.start <= bound
  }

  lemma PermutedAtMost(s: seq<Desc>, t: seq<Desc>, bound: int)
    requires multiset(s) == multiset(t) && AllAtMost(s, bound)
    ensures AllAtMost(t, bound)
  {
    forall d | d in t ensures d.start <= bound {
      assert d in multiset(t);
      assert d in s;
    }
  }

  /** The entry at child and its parent trade places. */
  method MoveUp(descs: array<Desc>, end: nat, child: nat)
    requires 0 < child <= end < descs.Length && SiftingUp(descs[..end + 1], child)
    requires descs[Parent(child)].start < descs[child].start
    modifies descs
    ensures SiftingUp(descs[..end + 1], Parent(child))
    ensures multiset(descs[..end + 1]) == multiset(old(descs[..end + 1]))
    ensures descs[end + 1..] == old(descs[end + 1..])
  {
    hide SiftingUp, Swapped;
    ghost var s := descs[..end + 1];
    var parent := Parent(child);
    SiftStep(s, child);
    SwapPermutes(s, parent, child);
    var desc := descs[parent];
    descs[parent] := descs[child];
    descs[child] := desc;
    SwappedIs(s, descs[..end + 1], parent, child);
  }

  /** One round of heapify: the new entry at `end` moves up to its place. */
  method SiftUp(descs: array<Desc>, end: nat)
    requires end < descs.Length && IsHeap(descs[..end])
    modifies descs
    ensures IsHeap(descs[..end + 1])
    ensures multiset(descs[..end + 1]) == multiset(old(descs[..end + 1]))
    ensures descs[end + 1..] == old(descs[end + 1..])
  {
    var child := end;
    SiftBegins(descs[..end + 1]);
    assert descs[..end + 1][..end] == descs[..end];
    hide SiftingUp, IsHeap, Swapped;
    while child > 0
      invariant 0 <= child <= end
      invariant SiftingUp(descs[..end + 1], child)
      invariant multiset(descs[..end + 1]) == multiset(old(descs[..end + 1]))
      invariant descs[end + 1..] == old(descs[end + 1..])
    {
      var parent := (child - 1) / 2;
      if descs[parent].start >= descs[child].start {
        break;
      }
      MoveUp(descs, end, child);
      child := parent;
    }
    SiftEnds(descs[..end + 1], child);
  }

  lemma WiderPrefix(s: seq<Desc>, t: seq<Desc>, m: nat, n: nat)
    requires m <= n <= |s| == |t| && multiset(s[..m]) == multiset(t[..m]) && s[m..] == t[m..]
    ensures multiset(s[..n]) == multiset(t[..n]) && s[n..] == t[n..]
  {
    assert s[..n] == s[..m] + s[m..][..n - m] && t[..n] == t[..m] + t[m..][..n - m];
    assert s[n..] == s[m..][n - m..] && t[n..] == t[m..][n - m..];
  }

  /** heapify: the first count entries become a heap; the others do not move. */
  method Heapify(descs: array<Desc>, count: nat)
    requires count <= descs.Length
    modifies descs
    ensures IsHeap(descs[..count])
    ensures multiset(descs[..count]) == multiset(old(descs[..count]))
    ensures descs[count..] == old(descs[count..])
  {
    var end := 1;
    while end < count
      invariant 1 <= end
      invariant count == 0 || end <= count
      invariant count > 0 ==> IsHeap(descs[..end])
      invariant multiset(descs[..count]) == multiset(old(descs[..count]))
      invariant descs[count..] == old(descs[count..])
    {
      ghost var before := descs[..];
      SiftUp(descs, end);
      WiderPrefix(before, descs[..], end + 1, count);
      assert descs[..][..count] == descs[..count] && descs[..][count..] == descs[count..];
      end := end + 1;
    }
  }

  /** The state of efi_sort_map's loop: the first `end` + 1 entries are a heap, what follows is in
      order and not below any of them. */
  ghost predicate SortedFrom(s: seq<Desc>, end: nat)
    requires end < |s|
  {
    && IsHeap(s[..end + 1])
    && Ascending(s[end + 1..])
    && forall k :: end < k < |s| ==> AllAtMost(s[..end + 1], s[k].start)
  }

  lemma SortRound(s: seq<Desc>, t: seq<Desc>, end: nat)
    requires 0 < end < |s| && |t| == |s| && SortedFrom(s, end)
    requires IsHeap(t[..end])
    requires multiset(t[..end]) == multiset(Swapped(s, 0, end)[..end])
    requires t[end..] == Swapped(s, 0, end)[end..]
    ensures SortedFrom(t, end - 1)
  {
    var u := Swapped(s, 0, end);
    assert forall k :: end <= k < |s| ==> t[k] == t[end..][k - end] == u[k];
    forall d | d in u[..end] ensures d.start <= s[0].start && d in s[..end + 1] {
      var i :| 0 <= i < end && u[i] == d;
      var j := if i == 0 then end else i;
      assert s[..end + 1][j] == d;
      RootIsLargest(s[..end + 1], j);
    }
    forall k | end - 1 < k < |t| ensures AllAtMost(t[..end], t[k].start) {
      assert k > end ==> AllAtMost(s[..end + 1], s[k].start);
      PermutedAtMost(u[..end], t[..end], t[k].start);
    }
    forall i, j | 0 <= i < j < |t[end..]| ensures t[end..][i].start <= t[end..][j].start {
      assert AllAtMost(s[..end + 1], s[end + j].start);
      assert s[0] == s[..end + 1][0];
      if i > 0 {
        assert s[end + 1..][i - 1].start <= s[end + 1..][j - 1].start;
      }
    }
  }

  /** One round of efi_sort_map: the largest entry goes to the end, the rest is heapified again. */
  method SortOne(descs: array<Desc>, end: nat)
    requires 0 < end < descs.Length && SortedFrom(descs[..], end)
    modifies descs
    ensures SortedFrom(descs[..], end - 1)
    ensures multiset(descs[..]) == multiset(old(descs[..]))
  {
    hide SortedFrom, Swapped;
    ghost var s := descs[..];
    Exchange(descs, end);
    ghost var u := descs[..];
    SwapPermutes(s, 0, end);
    Heapify(descs, end);
    PrefixPermutes(u, descs[..], end);
    SortRound(s, descs[..], end);
  }

  /** The largest entry and the last trade places. */
  method Exchange(descs: array<Desc>, end: nat)
    requires end < descs.Length
    modifies descs
    ensures descs[..] == Swapped(old(descs[..]), 0, end)
  {
    var desc := descs[end];
    descs[end] := descs[0];
    descs[0] := desc;
  }

  lemma PrefixPermutes(s: seq<Desc>, t: seq<Desc>, end: nat)
    requires end <= |s| == |t| && s[end..] == t[end..] && multiset(s[..end]) == multiset(t[..end])
    ensures multiset(s) == multiset(t)
  {
    assert s == s[..end] + s[end..] && t == t[..end] + t[end..];
  }

  /** efi_sort_map: any nonempty map ends up an ascending permutation of itself. */
  method SortMap(descs: array<Desc>)
    requires descs.Length > 0
    modifies descs
    ensures Ascending(descs[..])
    ensures multiset(descs[..]) == multiset(old(descs[..]))
  {
    var ndescs := descs.Length;
    Heapify(descs, ndescs);
    assert descs[..ndescs] == descs[..] && old(descs[..ndescs]) == old(descs[..]);
    var end := ndescs - 1;
    assert descs[..end + 1] == descs[..];
    while end > 0
      invariant 0 <= end < ndescs
      invariant SortedFrom(descs[..], end)
      invariant multiset(descs[..]) == multiset(old(descs[..]))
    {
      SortOne(descs, end);
      end := end - 1;
    }
    WholeAscends(descs[..]);
  }

  lemma WholeAscends(s: seq<Desc>)
    requires |s| > 0 && SortedFrom(s, 0)
    ensures Ascending(s)
  {
    forall i, j | 0 <= i < j < |s| ensures s[i].start <= s[j].start {
      assert s[0] == s[..1][0];
      assert AllAtMost(s[..1], s[j].start);
      assert i > 0 ==> s[1..][i - 1].start <= s[1..][j - 1].start;
    }
  }
}
