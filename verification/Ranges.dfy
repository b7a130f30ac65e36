/** Half-open ranges of physical addresses, and what a list of them covers. */
module Ranges {

  datatype Range = Range(addr: nat, size: nat) {
    function End(): nat { addr + size }
  }

  ghost predicate Between(lo: int, x: int, hi: int) { lo <= x < hi }

  ghost function Span(lo: int, hi: int): iset<int> { iset x: int | Between(lo, x, hi) }

  ghost predicate In(l: seq<Range>, x: int) {
    exists i :: 0 <= i < |l| && l[i].addr <= x < l[i].End()
  }

  /** The set of addresses a list of ranges covers. */
  ghost function Covered(l: seq<Range>): iset<int> { iset x: int | In(l, x) }

  /** Each range ends at or below the limit. */
  ghost predicate Within(l: seq<Range>, limit: nat) {
    forall i :: 0 <= i < |l| ==> l[i].End() <= limit
  }

  ghost predicate NonEmpty(l: seq<Range>) {
    forall i :: 0 <= i < |l| ==> l[i].size > 0
  }

  ghost predicate SortedByAddr(l: seq<Range>) {
    forall i, j :: 0 <= i < j < |l| ==> l[i].addr <= l[j].addr
  }

  /** A gap of at least one address lies between any two ranges. */
  ghost predicate Separated(l: seq<Range>) {
    forall i, j :: 0 <= i < j < |l| ==> l[i].End() < l[j].addr
  }

  /** The normal form of the free list: nonempty ranges, ascending and strictly separated. */
  ghost predicate Normal(l: seq<Range>) {
    NonEmpty(l) && Separated(l)
  }

  /** The normal form is canonical: two lists in it that cover the same addresses are equal. */
  lemma {:induction false} NormalFormUnique(a: seq<Range>, b: seq<Range>)
    requires Normal(a) && Normal(b) && Covered(a) == Covered(b)
    ensures a == b
  {
    HeadCovered(a);
    HeadCovered(b);
    if a == [] {
      assert b == [];
    } else {
      SameHead(a, b);
      SameHead(b, a);
      TailCover(a);
      TailCover(b);
      NormalFormUnique(a[1..], b[1..]);
    }
  }

  lemma HeadCovered(l: seq<Range>)
    requires Normal(l)
    ensures l != [] ==> l[0].addr in Covered(l)
    ensures l != [] ==> l[0].End() !in Covered(l)
    ensures l == [] ==> Covered(l) == iset{}
  {
  }

  lemma SameHead(a: seq<Range>, b: seq<Range>)
    requires Normal(a) && Normal(b) && Covered(a) == Covered(b) && a != []
    ensures b != [] && b[0].addr <= a[0].addr
    ensures b[0].addr == a[0].addr ==> a[0].size <= b[0].size
  {
    assert a[0].addr in Covered(a);
    var i :| 0 <= i < |b| && b[i].addr <= a[0].addr < b[i].End();
    HeadCovered(b);
    var e := b[0].End();
    assert a[0].addr <= e < a[0].End() ==> In(a, e);
    assert e !in Covered(a);
  }

  lemma TailCover(a: seq<Range>)
    requires Normal(a) && a != []
    ensures Normal(a[1..])
    ensures Covered(a[1..]) == Covered(a) - Span(a[0].addr, a[0].End())
  {
    forall x: int ensures In(a[1..], x) <==> In(a, x) && !(a[0].addr <= x < a[0].End()) {
      if In(a[1..], x) {
        var i :| 0 <= i < |a[1..]| && a[1..][i].addr <= x < a[1..][i].End();
        assert a[i + 1].addr <= x < a[i + 1].End();
      }
      if In(a, x) && !(a[0].addr <= x < a[0].End()) {
        var i :| 0 <= i < |a| && a[i].addr <= x < a[i].End();
        assert a[1..][i - 1] == a[i];
      }
    }
  }

  /** Membership in a list cut into a front, one element and a back. */
  lemma InSplit(front: seq<Range>, m: Range, back: seq<Range>, x: int)
    ensures In(front + [m] + back, x) <==> In(front, x) || m.addr <= x < m.End() || In(back, x)
  {
    var l := front + [m] + back;
    assert l[|front|] == m;
    if In(front, x) {
      var i :| 0 <= i < |front| && front[i].addr <= x < front[i].End();
      assert l[i] == front[i];
    }
    if In(back, x) {
      var i :| 0 <= i < |back| && back[i].addr <= x < back[i].End();
      assert l[|front| + 1 + i] == back[i];
    }
    if In(l, x) {
      var i :| 0 <= i < |l| && l[i].addr <= x < l[i].End();
      if i < |front| {
        assert front[i] == l[i];
      } else if i > |front| {
        assert back[i - |front| - 1] == l[i];
      }
    }
  }

  lemma CoverSplit(front: seq<Range>, m: Range, back: seq<Range>)
    ensures Covered(front + [m] + back) == Covered(front) + Span(m.addr, m.End()) + Covered(back)
  {
    forall x: int
      ensures In(front + [m] + back, x) <==> In(front, x) || m.addr <= x < m.End() || In(back, x)
    {
      InSplit(front, m, back, x);
    }
  }

  lemma CoverConcat(a: seq<Range>, b: seq<Range>)
    ensures Covered(a + b) == Covered(a) + Covered(b)
  {
    forall x: int ensures In(a + b, x) <==> In(a, x) || In(b, x) {
      if In(a, x) {
        var i :| 0 <= i < |a| && a[i].addr <= x < a[i].End();
        assert (a + b)[i] == a[i];
      }
      if In(b, x) {
        var i :| 0 <= i < |b| && b[i].addr <= x < b[i].End();
        assert (a + b)[|a| + i] == b[i];
      }
    }
  }

  lemma SpanUnion(a: int, b: int, c: int, d: int)
    requires a <= c <= b
    ensures Span(a, b) + Span(c, d) == Span(a, if d > b then d else b)
  {
  }
}
