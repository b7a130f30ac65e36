/** The scratch list of as_add_containing: inclusive address pieces, split in place as deeper
    containers are met. */
module Pieces {
  import opened Bits

  datatype Piece = Piece(start: nat, end: nat, owner: nat) {
    predicate Has(x: int) { start <= x <= end }
  }

  /** What becomes of a piece whose range contains the start of the new piece p. */
  function Split(curr: Piece, p: Piece): (r: seq<Piece>)
    requires p.end < TWO64 && curr.start <= p.start <= curr.end
  {
    if curr.start == p.start && curr.end == p.end then
      [curr.(owner := p.owner)]
    else if curr.start == p.start then
      [p, curr.(start := Add64(p.end, 1))]
    else
      [curr.(end := p.start - 1), p]
      + (if curr.end != p.end then [Piece(Add64(p.end, 1), curr.end, curr.owner)] else [])
  }

  /** The list after the inner loop has placed p: the first piece that contains p's start is split
      around it; without one p goes to the end. */
  function Place(list: seq<Piece>, p: Piece): seq<Piece>
    requires p.end < TWO64
  {
    if list == [] then [p]
    else if list[0].start <= p.start <= list[0].end then Split(list[0], p) + list[1..]
    else [list[0]] + Place(list[1..], p)
  }

  /** The inner loop of as_add_containing; k is the position list_owner points at. */
  method PlaceInList(list: seq<Piece>, p: Piece) returns (r: seq<Piece>)
    requires p.end < TWO64
    ensures r == Place(list, p)
  {
    hide Place;
    var k := 0;
    while true
      invariant 0 <= k <= |list|
      invariant Place(list, p) == list[..k] + Place(list[k..], p)
      decreases |list| - k
    {
      PlaceFrom(list, p, k);
      if k == |list| {
        return list + [p];
      }
      var curr := list[k];
      if curr.start <= p.start && curr.end >= p.start {
        var split := SplitPiece(curr, p);
        return list[..k] + split + list[k + 1..];
      }
      k := k + 1;
    }
  }

  /** What replaces the piece that p is placed in. */
  method SplitPiece(curr: Piece, p: Piece) returns (r: seq<Piece>)
    requires p.end < TWO64 && curr.start <= p.start <= curr.end
    ensures r == Split(curr, p)
  {
    if curr.start == p.start && curr.end == p.end {
      return [curr.(owner := p.owner)];
    }
    if curr.start == p.start {
      return [p, curr.(start := Add64(p.end, 1))];
    }
    r := [curr.(end := p.start - 1), p];
    if curr.end != p.end {
      r := r + [Piece(Add64(p.end, 1), curr.end, curr.owner)];
    }
  }

  /** Placing from position k on. */
  lemma PlaceFrom(list: seq<Piece>, p: Piece, k: nat)
    requires p.end < TWO64 && k <= |list|
    ensures k == |list| ==> list[..k] + Place(list[k..], p) == list + [p]
    ensures k < |list| && list[k].start <= p.start <= list[k].end ==>
              list[..k] + Place(list[k..], p) == list[..k] + Split(list[k], p) + list[k + 1..]
    ensures k < |list| && !(list[k].start <= p.start <= list[k].end) ==>
              list[..k] + Place(list[k..], p) == list[..k + 1] + Place(list[k + 1..], p)
  {
    if k < |list| {
      assert list[k..][0] == list[k] && list[k..][1..] == list[k + 1..];
      assert list[..k] + ([list[k]] + Place(list[k + 1..], p)) == list[..k + 1] + Place(list[k + 1..], p);
    }
  }

  ghost predicate Holds(list: seq<Piece>, x: int) {
    exists i :: 0 <= i < |list| && list[i].Has(x)
  }

  lemma HoldsConcat(a: seq<Piece>, b: seq<Piece>, x: int)
    ensures Holds(a + b, x) <==> Holds(a, x) || Holds(b, x)
  {
    if Holds(a, x) {
      var i :| 0 <= i < |a| && a[i].Has(x);
      assert (a + b)[i] == a[i];
    }
    if Holds(b, x) {
      var i :| 0 <= i < |b| && b[i].Has(x);
      assert (a + b)[|a| + i] == b[i];
    }
  }

  lemma SplitHolds(curr: Piece, p: Piece, x: int)
    requires p.start <= p.end < TWO64 - 1 && curr.start <= p.start <= curr.end
    ensures Holds(Split(curr, p), x) <==> curr.Has(x) || p.Has(x)
  {
    var s := Split(curr, p);
    assert s[0].Has(x) || (|s| > 1 && s[1].Has(x)) || (|s| > 2 && s[2].Has(x)) <==> curr.Has(x) || p.Has(x);
  }

  /** Whatever the containers, placing a piece adds exactly its addresses to the list. */
  lemma {:induction false} PlaceHolds(list: seq<Piece>, p: Piece, x: int)
    requires p.start <= p.end < TWO64 - 1
    ensures Holds(Place(list, p), x) <==> Holds(list, x) || p.Has(x)
  {
    if list == [] {
      assert [p][0] == p;
    } else {
      var tail := list[1..];
      HoldsConcat([list[0]], tail, x);
      assert [list[0]] + tail == list;
      assert Holds([list[0]], x) <==> list[0].Has(x) by { assert [list[0]][0] == list[0]; }
      if list[0].start <= p.start <= list[0].end {
        SplitHolds(list[0], p, x);
        HoldsConcat(Split(list[0], p), tail, x);
      } else {
        PlaceHolds(tail, p, x);
        HoldsConcat([list[0]], Place(tail, p), x);
      }
    }
  }

  /** The scratch list after all containers have been placed in the order they were found. */
  ghost function PlaceAll(cs: seq<Piece>): seq<Piece>
    requires InWord(cs)
  {
    if cs == [] then [] else Place(PlaceAll(cs[..|cs| - 1]), cs[|cs| - 1])
  }

  ghost predicate InWord(cs: seq<Piece>) {
    forall i :: 0 <= i < |cs| ==> cs[i].end < TWO64
  }

  ghost predicate Bounded(cs: seq<Piece>) {
    forall i :: 0 <= i < |cs| ==> cs[i].start <= cs[i].end < TWO64
  }

  /** Any containers at all: the list holds exactly the addresses in one of them. */
  lemma {:induction false} PlaceAllHolds(cs: seq<Piece>, x: int)
    requires Bounded(cs) && forall i :: 0 <= i < |cs| ==> cs[i].end < TWO64 - 1
    ensures Holds(PlaceAll(cs), x) <==> Holds(cs, x)
  {
    if cs != [] {
      var front, p := cs[..|cs| - 1], cs[|cs| - 1];
      PlaceAllHolds(front, x);
      PlaceHolds(PlaceAll(front), p, x);
      HoldsConcat(front, [p], x);
      assert front + [p] == cs;
      assert Holds([p], x) <==> p.Has(x) by { assert [p][0] == p; }
    }
  }

  /** Every piece is owned by one of the first n entries and ends inside the word. */
  ghost predicate OwnedBelow(l: seq<Piece>, n: nat) {
    forall q :: q in l ==> q.owner < n && q.end < TWO64
  }

  lemma {:induction false} PlaceOwnedBelow(l: seq<Piece>, p: Piece, n: nat)
    requires OwnedBelow(l, n) && p.owner < n && p.end < TWO64
    ensures OwnedBelow(Place(l, p), n)
  {
    if l != [] && !(l[0].start <= p.start <= l[0].end) {
      PlaceOwnedBelow(l[1..], p, n);
    }
  }

  lemma {:induction false} PlaceAllOwnedBelow(cs: seq<Piece>, n: nat)
    requires InWord(cs) && OwnedBelow(cs, n)
    ensures OwnedBelow(PlaceAll(cs), n)
  {
    if cs != [] {
      PlaceAllOwnedBelow(cs[..|cs| - 1], n);
      PlaceOwnedBelow(PlaceAll(cs[..|cs| - 1]), cs[|cs| - 1], n);
    }
  }
}
