/** Properly nested containers: as_add_containing's scratch list is a partition in which every
    address belongs to the innermost container around it. */
module Nesting {
  import opened Bits
  import opened Pieces

  ghost predicate Apart(p: Piece, q: Piece) { p.end < q.start || q.end < p.start }

  ghost predicate InPiece(p: Piece, q: Piece) { q.start <= p.start && p.end <= q.end }

  /** Each later container lies inside each earlier one or clear of it; owners are distinct. */
  ghost predicate Nested(cs: seq<Piece>) {
    && (forall i, j :: 0 <= i < j < |cs| ==> InPiece(cs[j], cs[i]) || Apart(cs[j], cs[i]))
    && (forall i, j :: 0 <= i < j < |cs| ==> cs[i].owner != cs[j].owner)
  }

  ghost predicate PairwiseApart(l: seq<Piece>) {
    forall i, j :: 0 <= i < j < |l| ==> Apart(l[i], l[j])
  }

  /** q is a part of container i that no later container reaches into. */
  ghost predicate Innermost(cs: seq<Piece>, i: nat, q: Piece)
    requires i < |cs|
  {
    && q.owner == cs[i].owner
    && InPiece(q, cs[i])
    && forall j :: i < j < |cs| ==> Apart(cs[j], q)
  }

  /** The list is a partition of the containers' union into innermost parts. Neighbours always
      have different owners, which is what keeps the next container inside one piece. */
  ghost predicate Partition(cs: seq<Piece>, l: seq<Piece>) {
    && (forall q :: q in l ==> q.start <= q.end < TWO64)
    && PairwiseApart(l)
    && (forall q :: q in l ==> InnermostSomewhere(cs, q))
    && CoversAll(cs, l)
    && NeighboursDiffer(l)
  }

  ghost predicate InnermostSomewhere(cs: seq<Piece>, q: Piece) {
    exists i :: 0 <= i < |cs| && Innermost(cs, i, q)
  }

  ghost predicate CoversAll(cs: seq<Piece>, l: seq<Piece>) {
    forall i, x :: 0 <= i < |cs| && cs[i].Has(x) ==> Holds(l, x)
  }

  ghost predicate NeighboursDiffer(l: seq<Piece>) {
    forall q, r :: q in l && r in l && q.end + 1 == r.start ==> q.owner != r.owner
  }

  /** A new container meets the list in one piece or not at all. */
  lemma FallsIntoOnePiece(cs: seq<Piece>, l: seq<Piece>, p: Piece, q: Piece)
    requires Nested(cs + [p]) && Bounded(cs + [p]) && Partition(cs, l)
    requires q in l && !Apart(p, q)
    ensures InPiece(p, q)
  {
    var i :| 0 <= i < |cs| && Innermost(cs, i, q);
    assert (cs + [p])[i] == cs[i] && (cs + [p])[|cs|] == p;
    assert InPiece(p, cs[i]);
    if q.end < p.end {
      var x := q.end + 1;
      assert cs[i].Has(x) && Holds(l, x);
      var k :| 0 <= k < |l| && l[k].Has(x);
      assert !Apart(p, l[k]);
      NeighboursNotShared(cs, l, p, q, l[k]);
      assert false;
    }
    if p.start < q.start {
      var x := q.start - 1;
      assert cs[i].Has(x) && Holds(l, x);
      var k :| 0 <= k < |l| && l[k].Has(x);
      assert !Apart(p, l[k]);
      NeighboursNotShared(cs, l, p, l[k], q);
      assert false;
    }
  }

  /** A new container cannot reach across the border between two neighbouring pieces. */
  lemma NeighboursNotShared(cs: seq<Piece>, l: seq<Piece>, p: Piece, q: Piece, r: Piece)
    requires Nested(cs + [p]) && Bounded(cs + [p]) && Partition(cs, l)
    requires q in l && r in l && (r.Has(q.end + 1) || q.Has(r.start - 1))
    ensures Apart(p, q) || Apart(p, r)
  {
    var a := IndexOf(l, q);
    var b := IndexOf(l, r);
    assert a != b;
    assert a < b ==> Apart(l[a], l[b]);
    assert b < a ==> Apart(l[b], l[a]);
    assert q.end + 1 == r.start;
    var i :| 0 <= i < |cs| && Innermost(cs, i, q);
    var j :| 0 <= j < |cs| && Innermost(cs, j, r);
    assert (cs + [p])[i] == cs[i] && (cs + [p])[j] == cs[j] && (cs + [p])[|cs|] == p;
    assert i != j;
    assert InPiece(p, cs[i]) || Apart(p, cs[i]);
    assert InPiece(p, cs[j]) || Apart(p, cs[j]);
  }

  lemma IndexOf(l: seq<Piece>, q: Piece) returns (k: nat)
    requires q in l
    ensures k < |l| && l[k] == q
  {
    k :| k < |l| && l[k] == q;
  }

  /** Where Place puts p: around the first piece k that contains its start, else at the end. */
  lemma {:induction false} PlaceShape(l: seq<Piece>, p: Piece) returns (k: nat)
    requires p.end < TWO64
    ensures k <= |l|
    ensures forall i :: 0 <= i < k ==> !l[i].Has(p.start)
    ensures k == |l| ==> Place(l, p) == l + [p]
    ensures k < |l| ==> l[k].Has(p.start) && Place(l, p) == l[..k] + Split(l[k], p) + l[k + 1..]
  {
    if l == [] {
      k := 0;
    } else if l[0].Has(p.start) {
      k := 0;
      assert l[..0] + Split(l[0], p) + l[1..] == Split(l[0], p) + l[1..];
    } else {
      var j := PlaceShape(l[1..], p);
      k := j + 1;
      forall i | 0 <= i < k ensures !l[i].Has(p.start) {
        assert i > 0 ==> l[i] == l[1..][i - 1];
      }
      if k < |l| {
        assert l[1..][..j] == l[1..k] && l[1..][j + 1..] == l[k + 1..];
        assert [l[0]] + (l[1..k] + Split(l[k], p) + l[k + 1..]) == l[..k] + Split(l[k], p) + l[k + 1..];
      } else {
        assert [l[0]] + (l[1..] + [p]) == l + [p];
      }
    }
  }

  /** The pieces that Split makes of q when p lies inside it. */
  ghost predicate SplitsInto(q: Piece, p: Piece, s: seq<Piece>) {
    && PairwiseApart(s)
    && (forall r :: r in s ==> r.start <= r.end < TWO64 && InPiece(r, q))
    && (forall r :: r in s ==> r == p || (r.owner == q.owner && Apart(p, r)))
    && (forall x :: q.Has(x) ==> Holds(s, x))
    && p in s
    && (forall r, r' :: r in s && r' in s && r.end + 1 == r'.start ==> r == p || r' == p)
  }

  lemma SplitInside(q: Piece, p: Piece)
    requires InPiece(p, q) && p.start <= p.end && q.end < TWO64
    ensures SplitsInto(q, p, Split(q, p))
  {
    var s := Split(q, p);
    assert s[0] == p || s[1] == p;
    forall x | q.Has(x) ensures Holds(s, x) {
      assert s[0].Has(x) || s[1].Has(x) || s[2].Has(x);
    }
  }

  lemma ApartConcat(a: seq<Piece>, b: seq<Piece>)
    requires PairwiseApart(a) && PairwiseApart(b)
    requires forall q, r :: q in a && r in b ==> Apart(q, r)
    ensures PairwiseApart(a + b)
  {
    var l := a + b;
    forall i, j | 0 <= i < j < |l| ensures Apart(l[i], l[j]) {
      assert l[i] == if i < |a| then a[i] else b[i - |a|];
      assert l[j] == if j < |a| then a[j] else b[j - |a|];
    }
  }

  /** l with the piece at k replaced by s. */
  function Replaced(l: seq<Piece>, k: nat, s: seq<Piece>): seq<Piece>
    requires k < |l|
  {
    l[..k] + s + l[k + 1..]
  }

  lemma ReplacedApart(l: seq<Piece>, k: nat, s: seq<Piece>)
    requires k < |l| && PairwiseApart(l) && PairwiseApart(s)
    requires forall r :: r in s ==> InPiece(r, l[k])
    ensures PairwiseApart(Replaced(l, k, s))
  {
    var a, b := l[..k], l[k + 1..];
    forall q, r | q in a && r in s ensures Apart(q, r) {
      var i := IndexOf(a, q);
      assert Apart(l[i], l[k]);
    }
    forall q, r | q in s && r in b ensures Apart(q, r) {
      var i := IndexOf(b, r);
      assert Apart(l[k], l[k + 1 + i]);
    }
    forall q, r | q in a && r in b ensures Apart(q, r) {
      var i := IndexOf(a, q);
      var j := IndexOf(b, r);
      assert Apart(l[i], l[k + 1 + j]);
    }
    ApartConcat(a, s);
    ApartConcat(a + s, b);
  }

  lemma InnermostKept(cs: seq<Piece>, q: Piece, r: Piece, p: Piece)
    requires InnermostSomewhere(cs, q) && r.owner == q.owner && InPiece(r, q) && Apart(p, r)
    requires r.start <= r.end
    ensures InnermostSomewhere(cs + [p], r)
  {
    var i :| 0 <= i < |cs| && Innermost(cs, i, q);
    assert Innermost(cs + [p], i, r);
  }

  lemma InnermostNew(cs: seq<Piece>, p: Piece)
    ensures InnermostSomewhere(cs + [p], p)
  {
    assert Innermost(cs + [p], |cs|, p);
  }

  lemma OwnerIsNew(cs: seq<Piece>, p: Piece, q: Piece)
    requires Nested(cs + [p]) && InnermostSomewhere(cs, q)
    ensures q.owner != p.owner
  {
    var i :| 0 <= i < |cs| && Innermost(cs, i, q);
    assert (cs + [p])[i] == cs[i] && (cs + [p])[|cs|] == p;
  }

  lemma CoverGrows(cs: seq<Piece>, l: seq<Piece>, l': seq<Piece>, p: Piece)
    requires CoversAll(cs, l) && p in l'
    requires forall x :: Holds(l, x) ==> Holds(l', x)
    ensures CoversAll(cs + [p], l')
  {
    forall i, x | 0 <= i < |cs| + 1 && (cs + [p])[i].Has(x) ensures Holds(l', x) {
      if i < |cs| {
        assert cs[i].Has(x) && Holds(l, x);
      } else {
        var k := IndexOf(l', p);
        assert l'[k].Has(x);
      }
    }
  }

  /** A container that meets no piece so far is added at the end. */
  lemma PartitionAppend(cs: seq<Piece>, l: seq<Piece>, p: Piece)
    requires Nested(cs + [p]) && Bounded(cs + [p]) && Partition(cs, l)
    requires forall q :: q in l ==> Apart(p, q)
    ensures Partition(cs + [p], l + [p])
  {
    assert (cs + [p])[|cs|] == p;
    ApartConcat(l, [p]);
    forall q | q in l + [p] ensures InnermostSomewhere(cs + [p], q) {
      if q in l {
        InnermostKept(cs, q, q, p);
      } else {
        InnermostNew(cs, p);
      }
    }
    forall x | Holds(l, x) ensures Holds(l + [p], x) {
      HoldsConcat(l, [p], x);
    }
    CoverGrows(cs, l, l + [p], p);
    forall q | q in l ensures q.owner != p.owner {
      OwnerIsNew(cs, p, q);
    }
  }

  lemma ReplacedHolds(l: seq<Piece>, k: nat, s: seq<Piece>, x: int)
    requires k < |l| && Holds(l, x) && (l[k].Has(x) ==> Holds(s, x))
    ensures Holds(Replaced(l, k, s), x)
  {
    var i :| 0 <= i < |l| && l[i].Has(x);
    HoldsConcat(l[..k] + s, l[k + 1..], x);
    HoldsConcat(l[..k], s, x);
    if i < k {
      assert l[..k][i] == l[i];
    } else if i > k {
      assert l[k + 1..][i - k - 1] == l[i];
    }
  }

  lemma InReplaced(l: seq<Piece>, k: nat, s: seq<Piece>, r: Piece)
    requires k < |l| && PairwiseApart(l) && r in Replaced(l, k, s)
    ensures r in s || (r in l && Apart(l[k], r))
  {
    if r !in s {
      if r in l[..k] {
        var i := IndexOf(l[..k], r);
        assert Apart(l[i], l[k]);
      } else {
        var i := IndexOf(l[k + 1..], r);
        assert Apart(l[k], l[k + 1 + i]);
      }
    }
  }

  lemma SplitNeighbours(cs: seq<Piece>, l: seq<Piece>, k: nat, p: Piece, s: seq<Piece>)
    requires Nested(cs + [p]) && Partition(cs, l) && k < |l| && SplitsInto(l[k], p, s)
    requires p.start <= p.end
    ensures NeighboursDiffer(Replaced(l, k, s))
  {
    var l' := Replaced(l, k, s);
    OwnerIsNew(cs, p, l[k]);
    forall q, r | q in l' && r in l' && q.end + 1 == r.start ensures q.owner != r.owner {
      InReplaced(l, k, s, q);
      InReplaced(l, k, s, r);
      if q in l {
        OwnerIsNew(cs, p, q);
      }
      if r in l {
        OwnerIsNew(cs, p, r);
      }
    }
  }

  /** A container inside piece k splits it. */
  lemma PartitionSplit(cs: seq<Piece>, l: seq<Piece>, k: nat, p: Piece, s: seq<Piece>)
    requires Nested(cs + [p]) && Bounded(cs + [p]) && Partition(cs, l)
    requires k < |l| && InPiece(p, l[k]) && SplitsInto(l[k], p, s)
    ensures Partition(cs + [p], Replaced(l, k, s))
  {
    var l' := Replaced(l, k, s);
    assert (cs + [p])[|cs|] == p;
    ReplacedApart(l, k, s);
    forall r | r in l' ensures InnermostSomewhere(cs + [p], r) && r.start <= r.end < TWO64 {
      InReplaced(l, k, s, r);
      if r == p {
        InnermostNew(cs, p);
      } else if r in s {
        InnermostKept(cs, l[k], r, p);
      } else {
        InnermostKept(cs, r, r, p);
      }
    }
    forall x | Holds(l, x) ensures Holds(l', x) {
      ReplacedHolds(l, k, s, x);
    }
    CoverGrows(cs, l, l', p);
    SplitNeighbours(cs, l, k, p, s);
  }

  /** The main result: for properly nested containers the list as_add_containing builds is a
      partition of their union into innermost parts. */
  lemma {:induction false} PlaceAllPartitions(cs: seq<Piece>)
    requires Bounded(cs) && Nested(cs)
    ensures Partition(cs, PlaceAll(cs))
  {
    if cs != [] {
      var front, p := cs[..|cs| - 1], cs[|cs| - 1];
      assert front + [p] == cs;
      PlaceAllPartitions(front);
      var l := PlaceAll(front);
      var k := PlaceShape(l, p);
      if k < |l| {
        FallsIntoOnePiece(front, l, p, l[k]);
        SplitInside(l[k], p);
        PartitionSplit(front, l, k, p, Split(l[k], p));
      } else {
        forall q | q in l ensures Apart(p, q) {
          var i := IndexOf(l, q);
          if !Apart(p, q) {
            FallsIntoOnePiece(front, l, p, q);
          }
        }
        PartitionAppend(front, l, p);
      }
    }
  }

  // ---- the order of the pieces ----

  ghost predicate Ascending(l: seq<Piece>) { forall i, j :: 0 <= i < j < |l| ==> l[i].end < l[j].start }

  /** A container outside all earlier ones lies behind them. */
  ghost predicate TopsAscend(cs: seq<Piece>) {
    forall i, j :: 0 <= i < j < |cs| && Outside(cs, j) ==> cs[i].end < cs[j].start
  }

  ghost predicate Outside(cs: seq<Piece>, j: nat)
    requires j < |cs|
  {
    forall i :: 0 <= i < j ==> !InPiece(cs[j], cs[i])
  }

  lemma SplitAscends(q: Piece, p: Piece)
    requires InPiece(p, q) && p.start <= p.end && q.end < TWO64
    ensures Ascending(Split(q, p))
  {
  }

  lemma ReplacedAscends(l: seq<Piece>, k: nat, s: seq<Piece>)
    requires k < |l| && Ascending(l) && Ascending(s)
    requires forall r :: r in s ==> r.start <= r.end && InPiece(r, l[k])
    ensures Ascending(Replaced(l, k, s))
  {
    var t := Replaced(l, k, s);
    forall i, j | 0 <= i < j < |t| ensures t[i].end < t[j].start {
      assert t[i] == if i < k then l[i] else if i < k + |s| then s[i - k] else l[i - |s| + 1];
      assert t[j] == if j < k then l[j] else if j < k + |s| then s[j - k] else l[j - |s| + 1];
    }
  }

  /** Then the entries of nested containers come in ascending order. */
  lemma {:induction false} PlaceAllAscends(cs: seq<Piece>)
    requires Bounded(cs) && Nested(cs) && TopsAscend(cs)
    ensures Ascending(PlaceAll(cs))
  {
    hide Partition, Place, Ascending, TopsAscend;
    if cs == [] {
      NoneAscend();
    } else {
      var front, p := cs[..|cs| - 1], cs[|cs| - 1];
      assert front + [p] == cs;
      FrontAscends(cs);
      PlaceAllAscends(front);
      PlaceAllPartitions(front);
      NextAscends(front, PlaceAll(front), p);
    }
  }

  lemma NoneAscend()
    ensures Ascending([])
  {
  }

  lemma NextAscends(cs: seq<Piece>, l: seq<Piece>, p: Piece)
    requires Nested(cs + [p]) && Bounded(cs + [p]) && Partition(cs, l) && TopsAscend(cs + [p]) && Ascending(l)
    ensures p.end < TWO64 && Ascending(Place(l, p))
  {
    hide Place, Split, Partition, Nested, TopsAscend;
    assert (cs + [p])[|cs|] == p;
    var k := PlaceShape(l, p);
    if k < |l| {
      FallsInto(cs, l, p, l[k]);
      SplitInside(l[k], p);
      SplitAscends(l[k], p);
      ReplacedAscends(l, k, Split(l[k], p));
    } else {
      NotHeld(l, p.start);
      forall q | q in l ensures q.end < p.start {
        BehindAll(cs, l, p, q);
      }
    }
  }

  lemma NotHeld(l: seq<Piece>, x: int)
    requires forall i :: 0 <= i < |l| ==> !l[i].Has(x)
    ensures !Holds(l, x)
  {
  }

  lemma FrontAscends(cs: seq<Piece>)
    requires cs != [] && TopsAscend(cs)
    ensures TopsAscend(cs[..|cs| - 1])
  {
    var front := cs[..|cs| - 1];
    forall i, j | 0 <= i < j < |front| && Outside(front, j) ensures front[i].end < front[j].start {
      OutsideFront(cs, j);
    }
  }

  lemma OutsideFront(cs: seq<Piece>, j: nat)
    requires j < |cs| - 1
    ensures Outside(cs[..|cs| - 1], j) <==> Outside(cs, j)
  {
  }

  lemma FallsInto(cs: seq<Piece>, l: seq<Piece>, p: Piece, q: Piece)
    requires Nested(cs + [p]) && Bounded(cs + [p]) && Partition(cs, l)
    requires q in l && q.Has(p.start)
    ensures InPiece(p, q) && p.start <= p.end && q.end < TWO64
  {
    assert (cs + [p])[|cs|] == p;
    FallsIntoOnePiece(cs, l, p, q);
  }

  /** A container that meets no piece at its start is outside all earlier ones. */
  lemma BehindAll(cs: seq<Piece>, l: seq<Piece>, p: Piece, q: Piece)
    requires Nested(cs + [p]) && Bounded(cs + [p]) && Partition(cs, l) && TopsAscend(cs + [p])
    requires q in l && !Holds(l, p.start)
    ensures q.end < p.start
  {
    var all := cs + [p];
    assert all[|cs|] == p;
    forall i | 0 <= i < |cs| ensures !InPiece(p, all[i]) {
      assert InPiece(p, cs[i]) ==> cs[i].Has(p.start);
    }
    assert Outside(all, |cs|);
    var i :| 0 <= i < |cs| && Innermost(cs, i, q);
    assert all[i] == cs[i];
  }

  /** An input without nesting: the second of these two containers begins before the first, and the
      two pieces made of them share the addresses 10 to 15. Placement says when that happens. */
  lemma OverlapWithoutNesting()
    ensures PlaceAll([Piece(10, 20, 0), Piece(5, 15, 1)]) == [Piece(10, 20, 0), Piece(5, 15, 1)]
    ensures !PairwiseApart(PlaceAll([Piece(10, 20, 0), Piece(5, 15, 1)]))
  {
    var a, b := Piece(10, 20, 0), Piece(5, 15, 1);
    assert [a, b][..1] == [a] && [a][..0] == [];
    assert PlaceAll([a]) == Place(PlaceAll([]), a) == [a];
    assert Place([a], b) == [a] + Place([], b);
    assert !Apart([a, b][0], [a, b][1]);
  }
}
