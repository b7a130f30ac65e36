/** The free list of ram.c: a sorted, coalesced array of ranges ended by an entry of size zero,
    edited in place while it is being scanned. */
module RamList {
  import opened Ranges
  import opened Wrappers

  // MAX_RAM_LIST_SIZE / sizeof(struct ram_entry)
  const MAX_SLOTS: nat := 192

  // One past the highest physical address: CPU_PADDR_BITS is 48.
  const PADDR_LIMIT: nat := 0x1_0000_0000_0000

  ghost predicate SeparatedBelow(c: seq<Range>, r: nat)
    requires r <= |c|
  {
    forall i, j :: 0 <= i < j < r ==> c[i].End() < c[j].addr
  }

  /** The state of add_mem's second loop: everything before r is already coalesced. */
  ghost predicate Coalescing(c: seq<Range>, r: nat) {
    && 1 <= r <= |c|
    && NonEmpty(c)
    && SortedByAddr(c)
    && Within(c, PADDR_LIMIT)
    && SeparatedBelow(c, r)
  }

  lemma InsertKeepsOrder(c: seq<Range>, k: nat, m: Range)
    requires Normal(c) && Within(c, PADDR_LIMIT) && k <= |c|
    requires m.size > 0 && m.End() <= PADDR_LIMIT
    requires forall i :: 0 <= i < k ==> c[i].addr <= m.addr
    requires k < |c| ==> c[k].addr > m.addr
    ensures Coalescing(c[..k] + [m] + c[k..], 1)
  {
    hide Normal, Within;
    var c' := c[..k] + [m] + c[k..];
    forall i | 0 <= i < |c'| ensures c'[i] == Inserted(c, k, m, i) && c'[i].size > 0 && c'[i].End() <= PADDR_LIMIT {
      InsertedFits(c, k, m, i);
    }
    forall i, j | 0 <= i < j < |c'| ensures c'[i].addr <= c'[j].addr {
      InsertedPair(c, k, m, i, j);
    }
    AllWithin(c');
  }

  lemma AllWithin(c: seq<Range>)
    requires forall i :: 0 <= i < |c| ==> c[i].End() <= PADDR_LIMIT
    ensures Within(c, PADDR_LIMIT)
  {
  }

  /** Element i of c with m inserted at k. */
  function Inserted(c: seq<Range>, k: nat, m: Range, i: nat): Range
    requires k <= |c| && i <= |c|
  {
    if i < k then c[i] else if i == k then m else c[i - 1]
  }

  lemma InsertedFits(c: seq<Range>, k: nat, m: Range, i: nat)
    requires Normal(c) && Within(c, PADDR_LIMIT) && k <= |c| && i <= |c|
    requires m.size > 0 && m.End() <= PADDR_LIMIT
    ensures Inserted(c, k, m, i).size > 0 && Inserted(c, k, m, i).End() <= PADDR_LIMIT
  {
  }

  lemma InsertedPair(c: seq<Range>, k: nat, m: Range, i: nat, j: nat)
    requires Normal(c) && k <= |c| && i < j <= |c|
    requires forall h :: 0 <= h < k ==> c[h].addr <= m.addr
    requires k < |c| ==> c[k].addr > m.addr
    ensures Inserted(c, k, m, i).addr <= Inserted(c, k, m, j).addr
  {
    assert i == k && j - 1 > k ==> c[k].End() < c[j - 1].addr;
  }

  lemma InsertCover(c: seq<Range>, k: nat, m: Range)
    requires k <= |c|
    ensures Covered(c[..k] + [m] + c[k..]) == Covered(c) + Span(m.addr, m.End())
  {
    CoverSplit(c[..k], m, c[k..]);
    CoverConcat(c[..k], c[k..]);
    assert c[..k] + c[k..] == c;
  }

  function Merged(c: seq<Range>, r: nat, e: nat): seq<Range>
    requires 1 <= r < |c| && c[r - 1].addr < e
  {
    c[..r - 1] + [Range(c[r - 1].addr, e - c[r - 1].addr)] + c[r + 1..]
  }

  lemma MergeOrder(c: seq<Range>, r: nat, e: nat)
    requires Coalescing(c, r) && r < |c|
    requires e == if c[r].End() > c[r - 1].End() then c[r].End() else c[r - 1].End()
    ensures Coalescing(Merged(c, r, e), r)
  {
    hide Merged;
    var c' := Merged(c, r, e);
    MergedShape(c, r, e);
    forall i | 0 <= i < |c'| ensures c'[i].size > 0 && c'[i].End() <= PADDR_LIMIT {
      assert i < r ==> c[i].size > 0;
    }
    forall i, j | 0 <= i < j < |c'| ensures c'[i].addr <= c'[j].addr {
      assert c[if i < r then i else i + 1].addr <= c[if j < r then j else j + 1].addr;
    }
    forall i, j | 0 <= i < j < r ensures c'[i].End() < c'[j].addr {
      assert c[i].End() < c[j].addr;
    }
  }

  lemma MergedShape(c: seq<Range>, r: nat, e: nat)
    requires 1 <= r < |c| && c[r - 1].addr < e
    ensures var c' := Merged(c, r, e);
            && |c'| == |c| - 1 && c'[r - 1] == Range(c[r - 1].addr, e - c[r - 1].addr)
            && (forall i :: 0 <= i < r - 1 ==> c'[i] == c[i])
            && (forall i :: r <= i < |c'| ==> c'[i] == c[i + 1])
  {
  }

  lemma MergeCover(c: seq<Range>, r: nat, e: nat)
    requires 1 <= r < |c| && c[r - 1].size > 0 && c[r - 1].addr <= c[r].addr <= c[r - 1].End()
    requires e == if c[r].End() > c[r - 1].End() then c[r].End() else c[r - 1].End()
    ensures Covered(Merged(c, r, e)) == Covered(c)
  {
    MergeCoverPieces(c[..r - 1], c[r - 1], c[r], c[r + 1..], e);
    assert c[..r - 1] + [c[r - 1], c[r]] + c[r + 1..] == c;
  }

  lemma MergeCoverPieces(front: seq<Range>, a: Range, b: Range, back: seq<Range>, e: nat)
    requires a.addr <= b.addr <= a.End()
    requires e == if b.End() > a.End() then b.End() else a.End()
    ensures Covered(front + [Range(a.addr, e - a.addr)] + back) == Covered(front + [a, b] + back)
  {
    CoverSplit(front, Range(a.addr, e - a.addr), back);
    CoverTwo(front, a, b, back);
    SpanUnion(a.addr, a.End(), b.addr, b.End());
  }

  lemma CoverTwo(front: seq<Range>, a: Range, b: Range, back: seq<Range>)
    ensures Covered(front + [a, b] + back)
         == Covered(front) + (Span(a.addr, a.End()) + Span(b.addr, b.End())) + Covered(back)
  {
    CoverSplit(front, a, [b] + back);
    CoverSplit([], b, back);
    assert front + [a] + ([b] + back) == front + [a, b] + back;
    assert [] + [b] + back == [b] + back;
    assert Covered([]) == iset{};
  }

  /** The addresses [addr, end) miss the range m. */
  ghost predicate Misses(m: Range, addr: nat, end: nat) {
    addr < end ==> m.End() <= addr || end <= m.addr
  }

  /** Some range has memory left on both sides of [addr, end). */
  ghost predicate Straddled(c: seq<Range>, addr: nat, end: nat) {
    exists i :: 0 <= i < |c| && c[i].addr < addr && end < c[i].End()
  }

  lemma ReplaceInNormal(c: seq<Range>, r: nat, m: Range)
    requires Normal(c) && r < |c|
    requires m.size > 0 && c[r].addr <= m.addr && m.End() <= c[r].End()
    ensures Normal(c[r := m])
    ensures Covered(c[r := m]) == Covered(c) - Span(c[r].addr, c[r].End()) + Span(m.addr, m.End())
  {
    var rest := Covered(c[..r]) + Covered(c[r + 1..]);
    CoverSplit(c[..r], m, c[r + 1..]);
    assert c[..r] + [m] + c[r + 1..] == c[r := m];
    RestCover(c, r);
  }

  lemma RestCover(c: seq<Range>, r: nat)
    requires Normal(c) && r < |c|
    ensures Covered(c[..r]) + Covered(c[r + 1..]) == Covered(c) - Span(c[r].addr, c[r].End())
  {
    CoverSplit(c[..r], c[r], c[r + 1..]);
    assert c[..r] + [c[r]] + c[r + 1..] == c;
    forall x | In(c[..r], x) || In(c[r + 1..], x) ensures !Between(c[r].addr, x, c[r].End()) {
      if In(c[..r], x) {
        var i :| 0 <= i < r && c[..r][i].addr <= x < c[..r][i].End();
        assert c[i].End() < c[r].addr;
      } else {
        var i :| 0 <= i < |c| - r - 1 && c[r + 1..][i].addr <= x < c[r + 1..][i].End();
        assert c[r].End() < c[r + 1 + i].addr;
      }
    }
  }

  lemma EntryCovered(c: seq<Range>, r: nat)
    requires r < |c|
    ensures Span(c[r].addr, c[r].End()) <= Covered(c)
  {
    forall x: int | Between(c[r].addr, x, c[r].End()) ensures In(c, x) {
    }
  }

  lemma DeleteFromNormal(c: seq<Range>, r: nat)
    requires Normal(c) && r < |c|
    ensures Normal(c[..r] + c[r + 1..])
    ensures Covered(c[..r] + c[r + 1..]) == Covered(c) - Span(c[r].addr, c[r].End())
  {
    CoverConcat(c[..r], c[r + 1..]);
    RestCover(c, r);
    var d := c[..r] + c[r + 1..];
    assert forall i :: 0 <= i < r ==> d[i] == c[i];
    assert forall i :: r <= i < |d| ==> d[i] == c[i + 1];
  }

  /** The range m has memory on both sides of [addr, end). */
  predicate Inside(addr: nat, end: nat, m: Range) {
    m.addr < addr && end < m.End()
  }

  /** One step of alloc_ram's scan: the entry is deleted, trimmed clear of the hole, or split. */
  ghost predicate Stepped(c: seq<Range>, d: seq<Range>, r: nat, next: nat, addr: nat, end: nat)
    requires r < |c|
  {
    || (next == r && d == c[..r] + c[r + 1..])
    || (next == r + 1 && |d| == |c| && d == c[r := d[r]] && Misses(d[r], addr, end))
    || (next == r + 1 && Inside(addr, end, c[r]))
  }

  /** The invariant of alloc_ram's scan. At most one entry can be split, and only before anything
      else has changed; once that has happened nothing of the hole is left. */
  ghost predicate TakeInv(c0: seq<Range>, c: seq<Range>, r: nat, addr: nat, end: nat, split: bool) {
    && r <= |c|
    && Normal(c0) && Normal(c)
    && Covered(c) - Span(addr, end) == Covered(c0) - Span(addr, end)
    && Covered(c) <= Covered(c0)
    && (forall i :: 0 <= i < r ==> Misses(c[i], addr, end))
    && (addr == end ==> c == c0)
    && |c| <= |c0| + 1
    && (if split then
          && Covered(c) !! Span(addr, end)
          && |c0| + 1 < MAX_SLOTS
          && (addr == end ==> exists i :: 0 <= i < r && Inside(addr, end, c[i]))
        else
          && |c| <= |c0|
          && (Straddled(c0, addr, end) ==> c == c0 && forall i :: 0 <= i < r ==> !Inside(addr, end, c[i])))
  }

  lemma TakeInvStart(c: seq<Range>, addr: nat, end: nat)
    requires Normal(c)
    ensures TakeInv(c, c, 0, addr, end, false)
  {
  }

  lemma TakeInvFacts(c0: seq<Range>, c: seq<Range>, r: nat, addr: nat, end: nat, split: bool)
    requires TakeInv(c0, c, r, addr, end, split)
    ensures Covered(c) <= Covered(c0) && Normal(c0) && |c| <= |c0| + 1 && (addr == end ==> c == c0)
    ensures !split ==> |c| <= |c0|
    ensures split ==> |c0| + 1 < MAX_SLOTS
    ensures !split && Straddled(c0, addr, end) ==> c == c0
  {
  }

  lemma TakeInvEnd(c0: seq<Range>, c: seq<Range>, addr: nat, end: nat, split: bool)
    requires TakeInv(c0, c, |c|, addr, end, split) && addr <= end
    ensures Covered(c) == Covered(c0) - Span(addr, end) && |c| <= |c0| + 1
    ensures !(|c0| + 1 >= MAX_SLOTS && Straddled(c0, addr, end))
  {
    AllMiss(c, addr, end);
    if !split && Straddled(c0, addr, end) {
      var i :| 0 <= i < |c0| && c0[i].addr < addr && end < c0[i].End();
      assert Inside(addr, end, c[i]);
    }
  }

  /** An entry around the hole now was part of an entry around the hole from the start. */
  lemma InsideFromStart(c0: seq<Range>, c: seq<Range>, r: nat, addr: nat, end: nat)
    requires Normal(c0) && Covered(c) <= Covered(c0) && r < |c|
    requires addr <= end && Inside(addr, end, c[r])
    ensures Straddled(c0, addr, end)
  {
    assert In(c, addr - 1) && addr - 1 in Covered(c);
    var i :| 0 <= i < |c0| && c0[i].addr <= addr - 1 < c0[i].End();
    if c0[i].End() <= end {
      assert In(c, c0[i].End()) && c0[i].End() in Covered(c);
      EndNotCovered(c0, i);
      assert false;
    }
  }

  lemma EndNotCovered(c: seq<Range>, i: nat)
    requires Normal(c) && i < |c|
    ensures c[i].End() !in Covered(c)
  {
    forall j | 0 <= j < |c| ensures !(c[j].addr <= c[i].End() < c[j].End()) {
      if j < i {
        assert c[j].End() < c[i].addr;
      }
    }
  }

  /** After the one split no entry lies around the hole any more. */
  lemma SplitOnlyOnce(c0: seq<Range>, c: seq<Range>, r: nat, addr: nat, end: nat)
    requires TakeInv(c0, c, r, addr, end, true) && r < |c| && addr <= end
    ensures !Inside(addr, end, c[r])
  {
    if addr < end {
      AllMiss(c, addr, end);
      assert Misses(c[r], addr, end);
    } else {
      var i :| 0 <= i < r && Inside(addr, end, c[i]);
      assert c[i].End() < c[r].addr;
    }
  }

  /** An entry clear of the hole is left as it is. */
  lemma StepOutside(c: seq<Range>, d: seq<Range>, m: Range, addr: nat, end: nat)
    requires Normal(c) && Normal(d) && Misses(m, addr, end)
    requires Covered(d) == Covered(c) - Span(addr, end) * Span(m.addr, m.End())
    ensures c == d
  {
    assert forall x :: !(Between(addr, x, end) && Between(m.addr, x, m.End()));
    assert Span(addr, end) * Span(m.addr, m.End()) == iset{};
    NormalFormUnique(c, d);
  }

  lemma TakeInvStep(c0: seq<Range>, c: seq<Range>, d: seq<Range>, r: nat, next: nat,
                    addr: nat, end: nat, split: bool)
    requires TakeInv(c0, c, r, addr, end, split) && r < |c| && addr <= end
    requires Normal(d) && |d| <= |c| + 1
    requires Covered(d) == Covered(c) - Span(addr, end) * Span(c[r].addr, c[r].End())
    requires Stepped(c, d, r, next, addr, end)
    requires Inside(addr, end, c[r]) ==> |c| + 1 < MAX_SLOTS
    ensures TakeInv(c0, d, next, addr, end, split || Inside(addr, end, c[r]))
  {
    if addr == end {
      StepOutside(c, d, c[r], addr, end);
      if Inside(addr, end, c[r]) {
        InsideFromStart(c0, c, r, addr, end);
        if split {
          SplitOnlyOnce(c0, c, r, addr, end);
        }
      }
    } else if Inside(addr, end, c[r]) {
      StepSplits(c0, c, d, r, next, addr, end, split);
    } else {
      StepTrims(c0, c, d, r, next, addr, end, split);
    }
  }

  lemma StepSplits(c0: seq<Range>, c: seq<Range>, d: seq<Range>, r: nat, next: nat,
                   addr: nat, end: nat, split: bool)
    requires TakeInv(c0, c, r, addr, end, split) && r < |c| && addr < end
    requires Normal(d) && |d| <= |c| + 1 && |c| + 1 < MAX_SLOTS
    requires Covered(d) == Covered(c) - Span(addr, end) * Span(c[r].addr, c[r].End())
    requires Stepped(c, d, r, next, addr, end) && Inside(addr, end, c[r])
    ensures TakeInv(c0, d, next, addr, end, true)
  {
    InsideFromStart(c0, c, r, addr, end);
    if split {
      SplitOnlyOnce(c0, c, r, addr, end);
    }
    assert Span(addr, end) <= Span(c[r].addr, c[r].End());
    AllMiss(d, addr, end);
    SplitIsNormal(c, r, addr, end);
    SplitCover(c, r, addr, end);
    NormalFormUnique(d, SplitAt(c, r, addr, end));
  }

  function SplitAt(c: seq<Range>, r: nat, addr: nat, end: nat): seq<Range>
    requires r < |c| && addr <= end && Inside(addr, end, c[r])
  {
    c[..r] + [Range(c[r].addr, addr - c[r].addr), Range(end, c[r].End() - end)] + c[r + 1..]
  }

  lemma SplitIsNormal(c: seq<Range>, r: nat, addr: nat, end: nat)
    requires Normal(c) && r < |c| && addr < end && Inside(addr, end, c[r])
    ensures Normal(SplitAt(c, r, addr, end))
  {
    var d := SplitAt(c, r, addr, end);
    assert d[..r] == c[..r] && d[r + 2..] == c[r + 1..];
    assert forall i :: 0 <= i < r ==> d[i] == c[i];
    assert forall i :: r + 2 <= i < |d| ==> d[i] == c[i - 1];
    assert d[r] == Range(c[r].addr, addr - c[r].addr) && d[r + 1] == Range(end, c[r].End() - end);
  }

  lemma SplitCover(c: seq<Range>, r: nat, addr: nat, end: nat)
    requires Normal(c) && r < |c| && addr < end && Inside(addr, end, c[r])
    ensures Covered(SplitAt(c, r, addr, end)) == Covered(c) - Span(addr, end)
  {
    CoverTwo(c[..r], Range(c[r].addr, addr - c[r].addr), Range(end, c[r].End() - end), c[r + 1..]);
    RestCover(c, r);
    CutSpan(Covered(c), c[r].addr, c[r].End(), addr, end);
  }

  lemma StepTrims(c0: seq<Range>, c: seq<Range>, d: seq<Range>, r: nat, next: nat,
                  addr: nat, end: nat, split: bool)
    requires TakeInv(c0, c, r, addr, end, split) && r < |c| && addr < end
    requires Normal(d)
    requires Covered(d) == Covered(c) - Span(addr, end) * Span(c[r].addr, c[r].End())
    requires Stepped(c, d, r, next, addr, end) && !Inside(addr, end, c[r])
    ensures TakeInv(c0, d, next, addr, end, split)
  {
    hide Covered;
    assert forall i :: 0 <= i < r ==> d[i] == c[i];
    if !split && Straddled(c0, addr, end) {
      TrimsNothing(c, d, r, addr, end);
    }
  }

  /** As long as an entry lies around the hole, no other entry touches it. */
  lemma TrimsNothing(c: seq<Range>, d: seq<Range>, r: nat, addr: nat, end: nat)
    requires Normal(c) && Normal(d) && r < |c| && addr < end && Straddled(c, addr, end)
    requires forall i :: 0 <= i < r ==> !Inside(addr, end, c[i])
    requires Covered(d) == Covered(c) - Span(addr, end) * Span(c[r].addr, c[r].End()) && !Inside(addr, end, c[r])
    ensures d == c
  {
    var k :| 0 <= k < |c| && c[k].addr < addr && end < c[k].End();
    assert Inside(addr, end, c[k]) && k > r;
    assert c[r].End() < c[k].addr;
    StepOutside(c, d, c[r], addr, end);
  }

  function Min(x: nat, y: nat): nat { if x < y then x else y }

  lemma CutSpan(all: iset<int>, s: nat, e: nat, addr: nat, h: nat)
    requires Span(s, e) <= all && s < addr <= h <= e
    ensures all - Span(s, e) + Span(s, addr) + Span(h, e) == all - Span(addr, h)
  {
    forall x ensures Between(s, x, e) <==> Between(s, x, addr) || Between(addr, x, h) || Between(h, x, e) {
    }
  }

  lemma AllMiss(c: seq<Range>, addr: nat, end: nat)
    requires NonEmpty(c)
    ensures (forall i :: 0 <= i < |c| ==> Misses(c[i], addr, end)) <==> Covered(c) !! Span(addr, end)
  {
    if Covered(c) !! Span(addr, end) {
      forall i | 0 <= i < |c| ensures Misses(c[i], addr, end) {
        var x := if addr < c[i].addr then c[i].addr else addr;
        assert Between(addr, x, end) ==> x in Span(addr, end);
        assert x < c[i].End() ==> In(c, x);
      }
    }
  }

  lemma InsertedAt(c: seq<Range>, d: seq<Range>, k: nat, m: Range)
    requires k <= |c| && |d| == |c| + 1 && d[k] == m
    requires forall i :: 0 <= i < k ==> d[i] == c[i]
    requires forall i :: k < i < |d| ==> d[i] == c[i - 1]
    ensures d == c[..k] + [m] + c[k..]
  {
  }

  class RamList {
    const list: array<Range>
    var len: nat   // ram_list_size in entries; the terminator is counted

    ghost predicate Valid()
      reads this, list
    {
      Shaped() && Normal(Contents()) && Within(Contents(), PADDR_LIMIT)
    }

    /** The terminated array, whatever order its entries are in. */
    ghost predicate Shaped()
      reads this, list
    {
      list.Length == MAX_SLOTS && 1 <= len <= MAX_SLOTS && list[len - 1].size == 0
    }

    function Contents(): seq<Range>
      requires 1 <= len <= list.Length
      reads this, list
    {
      list[..len - 1]
    }

    constructor ()
      ensures Valid() && Contents() == [] && fresh(list)
    {
      list := new Range[MAX_SLOTS](_ => Range(0, 0));
      len := 1;
    }

    /** memmove(&r[1], r, ...): entry k and all behind it move up by one. */
    method MoveUp(k: nat)
      requires Shaped() && k < len < MAX_SLOTS
      modifies this`len, list
      ensures len == old(len) + 1
      ensures forall i :: k < i < len ==> list[i] == old(list[i - 1])
      ensures forall i :: 0 <= i <= k ==> list[i] == old(list[i])
    {
      forall i | k < i <= len {
        list[i] := list[i - 1];
      }
      len := len + 1;
    }

    /** The insertion of add_mem: memmove, then the new entry. */
    method InsertAt(k: nat, m: Range)
      requires Shaped() && k < len < MAX_SLOTS
      modifies this`len, list
      ensures Shaped() && len == old(len) + 1
      ensures Contents() == old(Contents())[..k] + [m] + old(Contents())[k..]
    {
      ghost var c := Contents();
      assert c == list[..len - 1];
      MoveUp(k);
      list[k] := m;
      assert forall i :: 0 <= i < k ==> Contents()[i] == c[i];
      assert forall i :: k < i < |c| + 1 ==> Contents()[i] == c[i - 1];
      InsertedAt(c, Contents(), k, m);
    }

    /** memmove(r, &r[1], ...). */
    method DeleteAt(k: nat)
      requires Shaped() && k < len - 1
      modifies this`len, list
      ensures Shaped() && len == old(len) - 1
      ensures Contents() == old(Contents())[..k] + old(Contents())[k + 1..]
    {
      forall i | k <= i < len - 1 {
        list[i] := list[i + 1];
      }
      len := len - 1;
    }

    /** The insertion scan of add_mem: the first entry that starts above `start`. */
    method InsertionPoint(start: nat) returns (k: nat)
      requires Valid()
      ensures k < len
      ensures forall i :: 0 <= i < k ==> Contents()[i].addr <= start
      ensures k < len - 1 ==> Contents()[k].addr > start
    {
      k := 0;
      while list[k].size != 0
        invariant k < len
        invariant forall i :: 0 <= i < k ==> Contents()[i].addr <= start
        decreases len - k
      {
        assert k < len - 1;
        if list[k].addr > start {
          break;
        }
        k := k + 1;
      }
      assert k < len - 1 ==> list[k] == Contents()[k];
    }

    /** The body of add_mem's merge: delete entry r and stretch the one before it up to e. */
    method MergeAt(r: nat, e: nat)
      requires Shaped() && 1 <= r < len - 1 && list[r - 1].addr < e
      modifies this`len, list
      ensures Shaped() && len == old(len) - 1
      ensures Contents() == Merged(old(Contents()), r, e)
    {
      ghost var c := Contents();
      DeleteAt(r);
      assert list[r - 1] == Contents()[r - 1] == c[r - 1];
      list[r - 1] := Range(list[r - 1].addr, e - list[r - 1].addr);
    }

    /** The coalescing scan of add_mem. */
    method Coalesce()
      requires Shaped() && len >= 2 && Coalescing(Contents(), 1)
      modifies this`len, list
      ensures Valid() && len <= old(len)
      ensures Covered(Contents()) == old(Covered(Contents()))
    {
      var r := 1;
      ghost var target := Covered(Contents());
      while list[r].size != 0
        invariant Shaped() && len <= old(len) && 1 <= r < len
        invariant Coalescing(Contents(), r)
        invariant Covered(Contents()) == target
        decreases len - r
      {
        assert r < len - 1;
        ghost var c := Contents();
        var e := list[r - 1].addr + list[r - 1].size;
        var s := list[r].addr;
        assert list[r - 1] == c[r - 1] && list[r] == c[r];
        if s <= e {
          if s + list[r].size > e {
            e := s + list[r].size;
          }
          MergeOrder(c, r, e);
          MergeCover(c, r, e);
          MergeAt(r, e);
          r := r - 1;
        }
        r := r + 1;
      }
    }

    /** add_mem: the covered set becomes old + [start, start + size), in normal form again. The
        only way out without that is the overflow crash, which leaves the list alone. */
    method AddMem(start: nat, size: nat) returns (o: Outcome)
      requires Valid() && (size > 0 ==> start + size <= PADDR_LIMIT)
      modifies this`len, list
      ensures o == Crash <==> size > 0 && old(len) >= MAX_SLOTS
      ensures o.Crash? ==> len == old(len)
      ensures Valid() && len <= old(len) + 1
      ensures Covered(Contents()) ==
              old(Covered(Contents())) + (if o.Done? then Span(start, start + size) else iset{})
    {
      if size > 0 {
        var k := InsertionPoint(start);
        if len >= MAX_SLOTS {
          return Crash;
        }
        ghost var c := Contents();
        InsertKeepsOrder(c, k, Range(start, size));
        InsertCover(c, k, Range(start, size));
        InsertAt(k, Range(start, size));
        Coalesce();
      } else {
        assert Span(start, start + size) == iset{};
      }
      return Done;
    }

    /** The shortened entry r of alloc_ram's last branch, and the tail put back with add_mem. */
    method CutInside(r: nat, addr: nat, end: nat) returns (o: Outcome)
      requires Valid() && r < len - 1 && addr <= end <= PADDR_LIMIT
      requires list[r].addr < addr < list[r].End()
      modifies this`len, list
      ensures o == Crash <==> old(len) >= MAX_SLOTS && end < old(list[r].End())
      ensures o.Crash? ==> len == old(len)
      ensures Shaped() && len <= old(len) + 1
      ensures o.Done? ==> Valid() && Covered(Contents()) ==
                                     old(Covered(Contents())) - Span(addr, Min(end, old(list[r].End())))
      ensures end >= old(list[r].End()) ==>
                Contents() == old(Contents())[r := Range(old(list[r].addr), addr - old(list[r].addr))]
    {
      ghost var c := Contents();
      var s, e := list[r].addr, list[r].addr + list[r].size;
      if end > e {
        e := end;
      }
      assert list[r] == c[r];
      ReplaceInNormal(c, r, Range(s, addr - s));
      list[r] := Range(s, addr - s);
      assert Contents() == c[r := Range(s, addr - s)];
      o := Done;
      if e != end {
        o := AddMem(end, e - end);
      }
      CutSpan(Covered(c), s, c[r].End(), addr, Min(end, c[r].End()));
      assert c[r].addr in Covered(c);
    }

    /** What alloc_ram's scan does with entry r, and the entry it goes on to. */
    method TakeStep(r: nat, addr: nat, end: nat) returns (o: Outcome, next: nat)
      requires Valid() && r < len - 1 && addr <= end <= PADDR_LIMIT
      modifies this`len, list
      ensures o == Crash <==> old(len) >= MAX_SLOTS && Inside(addr, end, old(Contents())[r])
      ensures o.Crash? ==> len == old(len)
      ensures len <= old(len) + 1
      ensures o.Done? ==> Valid() && Covered(Contents()) == old(Covered(Contents()))
                          - Span(addr, end) * Span(old(Contents())[r].addr, old(Contents())[r].End())
      ensures o.Done? ==> Stepped(old(Contents()), Contents(), r, next, addr, end)
    {
      hide Covered;
      ghost var c := Contents();
      EntryCovered(c, r);
      assert list[r] == c[r];
      o, next := Done, r + 1;
      var s := list[r].addr;
      var e := s + list[r].size;
      if (addr <= s && end > s) || (addr >= s && addr < e) || (end >= s && end < e) {
        if end > e {
          e := end;
        }
        if addr < s {
          s := addr;
        }
        if addr == s && end == e {
          DeleteFromNormal(c, r);
          DeleteAt(r);
          next := r;
        } else if addr == s {
          ReplaceInNormal(c, r, Range(end, e - end));
          list[r] := Range(end, e - end);
          assert Contents() == c[r := Range(end, e - end)];
        } else {
          o := CutInside(r, addr, end);
        }
      } else {
        assert c == c[r := c[r]];
      }
    }

    /** The list half of alloc_ram: the scan that takes [addr, addr + size) out of the free list
        while entries are deleted and inserted under it. It can crash only where a full list would
        have to split an entry in two. */
    method TakeMem(addr: nat, size: nat) returns (o: Outcome)
      requires Valid() && addr + size <= PADDR_LIMIT
      modifies this`len, list
      ensures o == Crash <==> old(len) >= MAX_SLOTS && Straddled(old(Contents()), addr, addr + size)
      ensures o.Crash? ==> len >= MAX_SLOTS
      ensures o.Done? ==> Valid() && len <= old(len) + 1
      ensures o.Done? ==> Covered(Contents()) == old(Covered(Contents())) - Span(addr, addr + size)
    {
      hide Covered, TakeInv, Straddled;
      var end := addr + size;
      ghost var c0, split := Contents(), false;
      var r: nat := 0;
      TakeInvStart(c0, addr, end);
      while list[r].size != 0
        invariant Valid() && r < len
        invariant TakeInv(c0, Contents(), r, addr, end, split)
        decreases if size > 0 && !split then 1 else 0, len - r
      {
        ghost var c := Contents();
        assert r < len - 1 && list[r] == c[r];
        TakeInvFacts(c0, c, r, addr, end, split);
        if split {
          SplitOnlyOnce(c0, c, r, addr, end);
        }
        var next;
        o, next := TakeStep(r, addr, end);
        if o.Crash? {
          InsideFromStart(c0, c, r, addr, end);
          return;
        }
        TakeInvStep(c0, c, Contents(), r, next, addr, end, split);
        TakeInvFacts(c0, Contents(), next, addr, end, split || Inside(addr, end, c[r]));
        split := split || Inside(addr, end, c[r]);
        r := next;
      }
      TakeInvEnd(c0, Contents(), addr, end, split);
      return Done;
    }
  }
}
