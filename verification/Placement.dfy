/** Containers of any shape: exactly when the pieces that as_add_containing makes of them do not
    overlap, and who owns them then. */
module Placement {
  import opened Bits
  import opened Pieces
  import opened Nesting

  /** No two pieces hold the same address; a piece that a split has left empty holds none. */
  ghost predicate Disjoint(l: seq<Piece>) {
    forall i, j, x :: 0 <= i < j < |l| && l[i].Has(x) ==> !l[j].Has(x)
  }

  ghost predicate Meet(a: seq<Piece>, b: seq<Piece>) {
    exists x :: Holds(a, x) && Holds(b, x)
  }

  lemma DisjointConcat(a: seq<Piece>, b: seq<Piece>)
    ensures Disjoint(a + b) <==> Disjoint(a) && Disjoint(b) && !Meet(a, b)
  {
    var l := a + b;
    assert forall i :: 0 <= i < |a| ==> l[i] == a[i];
    assert forall i :: 0 <= i < |b| ==> l[|a| + i] == b[i];
    if Disjoint(l) {
      forall i, j, x | 0 <= i < j < |b| && b[i].Has(x) ensures !b[j].Has(x) {
        assert l[|a| + i].Has(x) ==> !l[|a| + j].Has(x);
      }
      forall x | Holds(a, x) ensures !Holds(b, x) {
        var i :| 0 <= i < |a| && a[i].Has(x);
        forall j | 0 <= j < |b| ensures !b[j].Has(x) {
          assert l[i].Has(x) ==> !l[|a| + j].Has(x);
        }
      }
    }
    if Disjoint(a) && Disjoint(b) && !Meet(a, b) {
      forall i, j, x | 0 <= i < j < |l| && l[i].Has(x) ensures !l[j].Has(x) {
        if j < |a| {
          assert a[i].Has(x) ==> !a[j].Has(x);
        } else if i >= |a| {
          assert b[i - |a|].Has(x) ==> !b[j - |a|].Has(x);
        } else {
          assert Holds(a, x) && !Holds(b, x);
          assert l[j] == b[j - |a|];
        }
      }
    }
  }

  lemma OneHolds(p: Piece, x: int)
    ensures Holds([p], x) <==> p.Has(x)
  {
    assert [p][0] == p;
  }

  /** Splitting q around p: the parts are disjoint and hold the addresses of both, unless p ends
      the address space beyond q, where the end plus one wraps to zero. */
  lemma SplitDisjoint(q: Piece, p: Piece)
    requires p.start <= p.end < TWO64 && q.Has(p.start) && q.end < TWO64
    ensures Disjoint(Split(q, p)) <==> (p.end == TWO64 - 1 ==> q.end == p.end)
    ensures forall x :: (p.end == TWO64 - 1 ==> q.end == p.end) ==>
                          (Holds(Split(q, p), x) <==> q.Has(x) || p.Has(x))
    ensures forall x :: p.Has(x) ==> Holds(Split(q, p), x)
  {
    var s := Split(q, p);
    forall x ensures p.Has(x) ==> Holds(s, x) {
      assert s[0].Has(x) || (|s| > 1 && s[1].Has(x)) <== p.Has(x);
    }
    if p.end == TWO64 - 1 && q.end != p.end {
      assert s[|s| - 1].Has(p.start) && s[|s| - 2].Has(p.start);
    } else {
      forall x ensures Holds(s, x) <==> q.Has(x) || p.Has(x) {
        assert s[0].Has(x) || (|s| > 1 && s[1].Has(x)) || (|s| > 2 && s[2].Has(x)) <==> q.Has(x) || p.Has(x);
      }
    }
  }

  /** p meets the list in the piece around its start alone; at the end of the address space it must
      not reach beyond that piece. */
  ghost predicate PlacedWell(l: seq<Piece>, p: Piece) {
    || (forall x :: p.Has(x) ==> !Holds(l, x))
    || exists k :: 0 <= k < |l| && PlacedIn(l, k, p)
  }

  ghost predicate PlacedIn(l: seq<Piece>, k: nat, p: Piece)
    requires k < |l|
  {
    && l[k].Has(p.start)
    && (forall x :: p.Has(x) && Holds(l, x) ==> l[k].Has(x))
    && (p.end == TWO64 - 1 ==> l[k].end == p.end)
  }

  lemma CutOut(l: seq<Piece>, k: nat) returns (a: seq<Piece>, b: seq<Piece>)
    requires k < |l|
    ensures a == l[..k] && b == l[k + 1..] && l == a + [l[k]] + b
    ensures forall x :: Holds(l, x) <==> Holds(a, x) || l[k].Has(x) || Holds(b, x)
    ensures Disjoint(l) <==>
            && Disjoint(a) && Disjoint(b) && !Meet(a, b)
            && forall x :: l[k].Has(x) ==> !Holds(a, x) && !Holds(b, x)
  {
    a, b := l[..k], l[k + 1..];
    Around(a, [l[k]], b);
    forall x ensures Holds([l[k]], x) <==> l[k].Has(x) {
      OneHolds(l[k], x);
    }
    assert Disjoint([l[k]]);
  }

  lemma Around(a: seq<Piece>, s: seq<Piece>, b: seq<Piece>)
    ensures forall x :: Holds(a + s + b, x) <==> Holds(a, x) || Holds(s, x) || Holds(b, x)
    ensures Disjoint(a + s + b) <==>
            && Disjoint(a) && Disjoint(s) && Disjoint(b) && !Meet(a, b)
            && forall x :: Holds(s, x) ==> !Holds(a, x) && !Holds(b, x)
  {
    forall x ensures Holds(a + s + b, x) <==> Holds(a, x) || Holds(s, x) || Holds(b, x) {
      HoldsConcat(a + s, b, x);
      HoldsConcat(a, s, x);
    }
    forall x ensures Holds(a + s, x) <==> Holds(a, x) || Holds(s, x) {
      HoldsConcat(a, s, x);
    }
    DisjointConcat(a + s, b);
    DisjointConcat(a, s);
  }

  ghost predicate EndsInWord(l: seq<Piece>) { forall i :: 0 <= i < |l| ==> l[i].end < TWO64 }

  /** One placement: the list is disjoint afterwards exactly if it was and p is placed well. */
  lemma PlaceDisjoint(l: seq<Piece>, p: Piece)
    requires p.start <= p.end < TWO64 && EndsInWord(l)
    ensures Disjoint(Place(l, p)) <==> Disjoint(l) && PlacedWell(l, p)
  {
    hide Disjoint, Split, Place;
    var k := PlaceShape(l, p);
    if k == |l| {
      DisjointConcat(l, [p]);
      SinglePiece(p);
    } else {
      var a, b := CutOut(l, k);
      SplitDisjoint(l[k], p);
      Around(a, Split(l[k], p), b);
      if Disjoint(Place(l, p)) {
        assert PlacedIn(l, k, p);
      }
      if Disjoint(l) && PlacedWell(l, p) {
        SameHolder(l, k, p);
      }
    }
  }

  lemma SinglePiece(p: Piece)
    ensures Disjoint([p]) && forall x :: Holds([p], x) <==> p.Has(x)
  {
    forall x ensures Holds([p], x) <==> p.Has(x) {
      OneHolds(p, x);
    }
  }

  lemma SameHolder(l: seq<Piece>, k: nat, p: Piece)
    requires k < |l| && l[k].Has(p.start) && Disjoint(l) && PlacedWell(l, p) && p.start <= p.end
    ensures PlacedIn(l, k, p)
  {
    assert Holds(l, p.start);
    var j :| 0 <= j < |l| && PlacedIn(l, j, p);
    OneHolder(l, j, k, p.start);
  }

  lemma OneHolder(l: seq<Piece>, i: nat, j: nat, x: int)
    requires Disjoint(l) && i < |l| && j < |l| && l[i].Has(x) && l[j].Has(x)
    ensures i == j
  {
  }

  /** Container i is the last one around x. */
  ghost predicate LastIs(cs: seq<Piece>, i: nat, x: int) {
    i < |cs| && cs[i].Has(x) && forall j :: i < j < |cs| ==> !cs[j].Has(x)
  }

  /** Container i is the last one around every address of the piece, and no longer just behind it. */
  ghost predicate PartOf(cs: seq<Piece>, i: nat, q: Piece) {
    && i < |cs| && q.owner == cs[i].owner
    && (forall x :: q.Has(x) ==> LastIs(cs, i, x))
    && !LastIs(cs, i, q.end + 1)
  }

  ghost predicate PartSomewhere(cs: seq<Piece>, q: Piece) { exists i: nat :: PartOf(cs, i, q) }

  /** Every address in a container is held by a piece of the last container around it. */
  ghost predicate Owned(cs: seq<Piece>, l: seq<Piece>) {
    && (forall x :: Holds(l, x) <==> Holds(cs, x))
    && (forall q :: q in l && q.start <= q.end ==> PartSomewhere(cs, q))
  }

  /** The earlier containers either miss p, or one of them is the last around p's start and around
      every other address of p that they hold. */
  ghost predicate OneAround(cs: seq<Piece>, p: Piece) {
    || (forall x :: p.Has(x) ==> !Holds(cs, x))
    || exists i: nat :: LastIs(cs, i, p.start) && AroundRest(cs, i, p)
  }

  ghost predicate AroundRest(cs: seq<Piece>, i: nat, p: Piece) {
    && (forall x :: p.Has(x) && Holds(cs, x) ==> LastIs(cs, i, x))
    && (p.end == TWO64 - 1 ==> Holds(cs, p.end))
  }

  lemma WellMeansOneAround(cs: seq<Piece>, l: seq<Piece>, p: Piece)
    requires Owned(cs, l) && p.start <= p.end < TWO64 && EndsInWord(l)
    ensures PlacedWell(l, p) <==> OneAround(cs, p)
  {
    if k :| 0 <= k < |l| && PlacedIn(l, k, p) {
      assert l[k] in l;
      var i: nat :| PartOf(cs, i, l[k]);
      assert p.end == TWO64 - 1 ==> l[k].Has(p.end);
      assert LastIs(cs, i, p.start) && AroundRest(cs, i, p);
    }
    if i: nat :| LastIs(cs, i, p.start) && AroundRest(cs, i, p) {
      assert Holds(cs, p.start) && Holds(l, p.start);
      var k :| 0 <= k < |l| && l[k].Has(p.start);
      assert l[k] in l;
      var i': nat :| PartOf(cs, i', l[k]);
      LastUnique(cs, i, i', p.start);
      forall x | p.Has(x) && Holds(l, x) ensures l[k].Has(x) {
        StaysInside(cs, i, l[k], p, x);
      }
      assert PlacedIn(l, k, p);
    }
  }

  lemma LastUnique(cs: seq<Piece>, i: nat, j: nat, x: int)
    requires LastIs(cs, i, x) && LastIs(cs, j, x)
    ensures i == j
  {
  }

  /** No address of p lies beyond the piece q: container i would reach past the end of q. */
  lemma StaysInside(cs: seq<Piece>, i: nat, q: Piece, p: Piece, x: int)
    requires PartOf(cs, i, q) && q.Has(p.start) && AroundRest(cs, i, p)
    requires p.Has(x) && Holds(cs, x)
    ensures q.Has(x)
  {
    if x > q.end {
      ReachesBeyond(cs, i, p, q.end + 1, x);
      assert false;
    }
  }

  lemma ReachesBeyond(cs: seq<Piece>, i: nat, p: Piece, y: int, x: int)
    requires LastIs(cs, i, p.start) && AroundRest(cs, i, p)
    requires p.start <= y <= x && p.Has(x) && Holds(cs, x)
    ensures LastIs(cs, i, y)
  {
    assert cs[i].Has(y) && p.Has(y);
  }

  /** What p leaves of a piece still belongs to the same container. */
  lemma PartKept(cs: seq<Piece>, p: Piece, q: Piece, r: Piece)
    requires PartSomewhere(cs, q)
    requires r.owner == q.owner && InPiece(r, q) && (r.end == q.end || p.Has(r.end + 1))
    requires forall x :: r.Has(x) ==> !p.Has(x)
    ensures PartSomewhere(cs + [p], r)
  {
    var i: nat :| PartOf(cs, i, q);
    var cs' := cs + [p];
    assert cs'[|cs|] == p;
    forall x ensures LastIs(cs', i, x) <==> LastIs(cs, i, x) && !p.Has(x) {
      if LastIs(cs', i, x) {
        forall j | i < j < |cs| ensures !cs[j].Has(x) {
          assert cs'[j] == cs[j];
        }
      }
    }
    assert PartOf(cs', i, r);
  }

  lemma PartNew(cs: seq<Piece>, p: Piece)
    ensures PartSomewhere(cs + [p], p)
  {
    assert PartOf(cs + [p], |cs|, p);
  }

  lemma HoldsMore(cs: seq<Piece>, p: Piece)
    ensures forall x :: Holds(cs + [p], x) <==> Holds(cs, x) || p.Has(x)
  {
    forall x ensures Holds(cs + [p], x) <==> Holds(cs, x) || p.Has(x) {
      HoldsConcat(cs, [p], x);
      OneHolds(p, x);
    }
  }

  lemma OwnedAppend(cs: seq<Piece>, l: seq<Piece>, p: Piece)
    requires Owned(cs, l) && forall x :: p.Has(x) ==> !Holds(l, x)
    ensures Owned(cs + [p], l + [p])
  {
    hide PartSomewhere;
    HoldsMore(cs, p);
    HoldsMore(l, p);
    forall q | q in l + [p] && q.start <= q.end ensures PartSomewhere(cs + [p], q) {
      if q in l {
        var k := IndexOf(l, q);
        assert forall x :: l[k].Has(x) ==> Holds(l, x);
        PartKept(cs, p, q, q);
      } else {
        PartNew(cs, p);
      }
    }
  }

  /** The pieces that p leaves of q. */
  lemma SplitParts(cs: seq<Piece>, q: Piece, p: Piece, r: Piece)
    requires p.start <= p.end < TWO64 && q.Has(p.start) && q.end < TWO64
    requires p.end == TWO64 - 1 ==> q.end == p.end
    requires r in Split(q, p) && r.start <= r.end && PartSomewhere(cs, q)
    ensures PartSomewhere(cs + [p], r)
  {
    hide PartSomewhere;
    if r == p {
      PartNew(cs, p);
    } else {
      PartKept(cs, p, q, r);
    }
  }

  lemma OwnedSplit(cs: seq<Piece>, l: seq<Piece>, k: nat, p: Piece)
    requires Owned(cs, l) && Disjoint(l) && k < |l| && PlacedIn(l, k, p)
    requires p.start <= p.end < TWO64 && EndsInWord(l)
    ensures Owned(cs + [p], Replaced(l, k, Split(l[k], p)))
  {
    hide PartSomewhere, Split, Disjoint;
    var a, b := CutOut(l, k);
    var s := Split(l[k], p);
    var l' := Replaced(l, k, s);
    SplitDisjoint(l[k], p);
    Around(a, s, b);
    HoldsMore(cs, p);
    assert l[k] in l;
    forall r | r in l' && r.start <= r.end ensures PartSomewhere(cs + [p], r) {
      if r in s {
        SplitParts(cs, l[k], p, r);
      } else {
        ElsewhereInList(l, k, s, r);
        PartKept(cs, p, r, r);
      }
    }
  }

  lemma ElsewhereInList(l: seq<Piece>, k: nat, s: seq<Piece>, r: Piece)
    requires k < |l| && Disjoint(l) && r in Replaced(l, k, s) && r !in s
    ensures r in l && forall x :: r.Has(x) ==> Holds(l, x) && !l[k].Has(x)
  {
    var a, b := l[..k], l[k + 1..];
    var i: nat;
    if r in a {
      i := IndexOf(a, r);
    } else {
      var j := IndexOf(b, r);
      i := k + 1 + j;
    }
    assert l[i] == r;
    forall x | r.Has(x) ensures !l[k].Has(x) {
      if l[k].Has(x) {
        OneHolder(l, i, k, x);
      }
    }
  }

  lemma PlaceEnds(l: seq<Piece>, p: Piece)
    requires p.end < TWO64 && EndsInWord(l)
    ensures EndsInWord(Place(l, p))
  {
    var k := PlaceShape(l, p);
    if k < |l| {
      var s := Split(l[k], p);
      var l' := l[..k] + s + l[k + 1..];
      forall i | 0 <= i < |l'| ensures l'[i].end < TWO64 {
        assert l'[i] in l[..k] || l'[i] in s || l'[i] in l[k + 1..];
      }
    }
  }

  ghost predicate EachOneAround(cs: seq<Piece>) {
    forall j :: 0 <= j < |cs| ==> OneAround(cs[..j], cs[j])
  }

  lemma EachMore(cs: seq<Piece>)
    requires cs != []
    ensures EachOneAround(cs) <==>
            EachOneAround(cs[..|cs| - 1]) && OneAround(cs[..|cs| - 1], cs[|cs| - 1])
  {
    hide OneAround;
    var front := cs[..|cs| - 1];
    assert forall j :: 0 <= j < |front| ==> front[j] == cs[j] && front[..j] == cs[..j];
    if EachOneAround(cs) {
      forall j | 0 <= j < |front| ensures OneAround(front[..j], front[j]) {
        assert OneAround(cs[..j], cs[j]);
      }
    }
  }

  /** The main result: for containers of any shape the pieces do not overlap exactly if each
      container, when it is found, lies clear of the earlier ones or has one of them as the last
      around its start and around all else they hold of it. Every address is then owned by the last
      container around it. */
  lemma {:induction false} DisjointExactly(cs: seq<Piece>)
    requires Bounded(cs)
    ensures EndsInWord(PlaceAll(cs))
    ensures Disjoint(PlaceAll(cs)) <==> EachOneAround(cs)
    ensures Disjoint(PlaceAll(cs)) ==> Owned(cs, PlaceAll(cs))
  {
    hide Disjoint, Place, Owned, OneAround, EachOneAround, PlacedWell;
    if cs == [] {
      NoPieces();
    } else {
      var front, p := cs[..|cs| - 1], cs[|cs| - 1];
      var l := PlaceAll(front);
      DisjointExactly(front);
      EachMore(cs);
      PlaceEnds(l, p);
      PlaceDisjoint(l, p);
      if Disjoint(l) {
        WellMeansOneAround(front, l, p);
      }
      if Disjoint(l) && PlacedWell(l, p) {
        OwnedPlace(front, l, p);
        assert front + [p] == cs;
      }
    }
  }

  lemma NoPieces()
    ensures Disjoint([]) && EachOneAround([]) && Owned([], [])
  {
  }

  lemma OwnedPlace(cs: seq<Piece>, l: seq<Piece>, p: Piece)
    requires Owned(cs, l) && Disjoint(l) && PlacedWell(l, p)
    requires p.start <= p.end < TWO64 && EndsInWord(l)
    ensures Owned(cs + [p], Place(l, p))
  {
    hide Owned, Disjoint, Place, Split;
    var k := PlaceShape(l, p);
    if k < |l| {
      SameHolder(l, k, p);
      OwnedSplit(cs, l, k, p);
    } else {
      OwnedAppend(cs, l, p);
    }
  }
}
