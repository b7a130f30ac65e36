/** What adding a contained range does to the sets of addresses the section describes. */
module Views {
  import opened Bits
  import opened Pieces
  import opened Nesting
  import opened Placement
  import opened AddressSpace
  import opened Wrappers

  /** The containers found hold the addresses of [start, end] in entries with the name. */
  lemma {:induction false} ContainersHold(es: seq<Entry>, n: nat, start: nat, end: nat, name: string, x: int)
    requires OwnersBefore(es) && ProperRanges(es) && n <= |es| && start <= end
    ensures Holds(Containers(es, n, start, end, name), x) <==>
            start <= x <= end && exists i :: 0 <= i < n && Match(es, i, name) && es[i].Has(x)
  {
    if n != 0 {
      var cs := Containers(es, n - 1, start, end, name);
      ContainersHold(es, n - 1, start, end, name, x);
      if Hit(es, n - 1, start, end, name) {
        var p := Clip(es[n - 1], n - 1, start, end);
        HoldsConcat(cs, [p], x);
        assert Holds([p], x) <==> p.Has(x) by { assert [p][0] == p; }
        assert Containers(es, n, start, end, name) == cs + [p];
      } else {
        assert Containers(es, n, start, end, name) == cs;
      }
      if start <= x <= end && Match(es, n - 1, name) && es[n - 1].Has(x) {
        assert Hit(es, n - 1, start, end, name);
      }
    }
  }

  lemma {:induction false} NonEmptyHolds(l: seq<Piece>, x: int)
    ensures Holds(NonEmptyPieces(l), x) <==> Holds(l, x)
  {
    if l != [] {
      var front, p := l[..|l| - 1], l[|l| - 1];
      assert front + [p] == l;
      NonEmptyHolds(front, x);
      HoldsConcat(front, [p], x);
      HoldsConcat(NonEmptyPieces(front), [p], x);
      assert Holds([p], x) <==> p.Has(x) by { assert [p][0] == p; }
      assert p.start > p.end ==> NonEmptyPieces(l) == NonEmptyPieces(front);
    }
  }

  /** The pieces emitted for a container name, as as_add_containing computes them. */
  ghost function Emitted(es: seq<Entry>, start: nat, end: nat, container: string): seq<Piece>
    requires OwnersBefore(es) && InWord(Containers(es, |es|, start, end, container))
  {
    NonEmptyPieces(PlaceAll(Containers(es, |es|, start, end, container)))
  }

  lemma {:induction false} ContainersInWord(es: seq<Entry>, n: nat, start: nat, end: nat, name: string, limit: nat)
    requires OwnersBefore(es) && ProperRanges(es) && n <= |es| && start <= end < limit <= TWO64
    ensures var cs := Containers(es, n, start, end, name);
            Bounded(cs) && forall i :: 0 <= i < |cs| ==> cs[i].end < limit
  {
    if n != 0 {
      ContainersInWord(es, n - 1, start, end, name, limit);
    }
  }

  /** Nested or not, the emitted pieces cover exactly the part of [start, end] in the containers. */
  lemma EmittedIsIntersection(es: seq<Entry>, start: nat, end: nat, container: string, x: int)
    requires OwnersBefore(es) && ProperRanges(es) && start <= end < TWO64 - 1
    requires InWord(Containers(es, |es|, start, end, container))
    ensures Holds(Emitted(es, start, end, container), x) <==> start <= x <= end && Named(es, container, x)
  {
    var cs := Containers(es, |es|, start, end, container);
    ContainersInWord(es, |es|, start, end, container, TWO64 - 1);
    PlaceAllHolds(cs, x);
    NonEmptyHolds(PlaceAll(cs), x);
    ContainersHold(es, |es|, start, end, container, x);
  }

  /** What as_add64 adds to the names: the range carries its own name, those of its owners, and "io"
      if the overlay is asked for. */
  lemma AddedNames(es: seq<Entry>, start: nat, end: nat, req: Request, name: string, owner: Option<nat>, n: string,
                   x: int)
    requires OwnersBefore(es) && (owner.Some? ==> owner.value < |es|)
    ensures var es' := AddedWithOverlay(es, Stored(start, end, req, name, owner), req.overlayIo);
            && OwnersBefore(es')
            && (Named(es', n, x) <==>
                  || Named(es, n, x)
                  || (start <= x <= end
                      && (|| n == name || (owner.Some? && Match(es, owner.value, n)) || (req.overlayIo && n == "io"))))
  {
    var e := Stored(start, end, req, name, owner);
    AddedOneName(es, e, n, x);
    if req.overlayIo {
      var mid := Added(es, e);
      AddedOneName(mid, Entry(start, end, Some(|es|), "io", e.attr), n, x);
      if owner.Some? {
        MatchStable(es, mid, owner.value, n);
      }
      assert Match(mid, |es|, n) <==> n == name || (owner.Some? && Match(es, owner.value, n));
    }
  }

  lemma AddedOneName(es: seq<Entry>, e: Entry, n: string, x: int)
    requires OwnersBefore(es) && (e.owner.Some? ==> e.owner.value < |es|)
    ensures OwnersBefore(Added(es, e)) && KeepsOwners(es, Added(es, e))
    ensures Named(Added(es, e), n, x) <==>
            Named(es, n, x) || (e.Has(x) && (n == e.name || (e.owner.Some? && Match(es, e.owner.value, n))))
  {
    var es' := Added(es, e);
    if e.owner.Some? {
      MatchStable(es, es', e.owner.value, n);
    }
    assert Match(es', |es|, n) <==> n == e.name || (e.owner.Some? && Match(es, e.owner.value, n));
    if Named(es', n, x) {
      var i :| 0 <= i < |es'| && Match(es', i, n) && es'[i].Has(x);
      if i < |es| {
        MatchStable(es, es', i, n);
        assert es[i].Has(x);
      }
    }
    if Named(es, n, x) {
      var i :| 0 <= i < |es| && Match(es, i, n) && es[i].Has(x);
      MatchStable(es, es', i, n);
      assert es'[i].Has(x);
    }
    if e.Has(x) && Match(es', |es|, n) {
      assert es'[|es|].Has(x);
    }
  }

  /** The addresses that carry the new name: those that did and those of the pieces. */
  lemma ContainedNames(es0: seq<Entry>, es: seq<Entry>, ps: seq<Piece>, req: Request, name: string,
                       r: Option<nat>, x: int)
    requires OwnersBefore(es0) && OwnersBefore(es) && !req.overlayIo
    requires Contained(es0, es, ps, req, name, r)
    ensures Named(es, name, x) <==> Named(es0, name, x) || Holds(ps, x)
  {
    if Named(es, name, x) {
      var i :| 0 <= i < |es| && Match(es, i, name) && es[i].Has(x);
      if i < |es0| {
        MatchStable(es0, es, i, name);
        assert es0[i].Has(x);
      } else {
        assert ps[i - |es0|].Has(x);
      }
    }
    if Named(es0, name, x) {
      var i :| 0 <= i < |es0| && Match(es0, i, name) && es0[i].Has(x);
      MatchStable(es0, es, i, name);
      assert es[i].Has(x);
    }
    if Holds(ps, x) {
      var q :| 0 <= q < |ps| && ps[q].Has(x);
      assert es[|es0| + q].Has(x) && Match(es, |es0| + q, name);
    }
  }

  /** Another name's addresses do not change if no piece is owned by an entry that has that name. */
  lemma OtherNamesKept(es0: seq<Entry>, es: seq<Entry>, ps: seq<Piece>, req: Request, name: string,
                       r: Option<nat>, other: string, x: int)
    requires OwnersBefore(es0) && OwnersBefore(es) && !req.overlayIo && name != other
    requires Contained(es0, es, ps, req, name, r)
    requires forall q :: 0 <= q < |ps| ==> ps[q].owner < |es0| && !Match(es0, ps[q].owner, other)
    ensures Named(es, other, x) <==> Named(es0, other, x)
  {
    if Named(es, other, x) {
      var i :| 0 <= i < |es| && Match(es, i, other) && es[i].Has(x);
      if i < |es0| {
        MatchStable(es0, es, i, other);
        assert es0[i].Has(x);
      } else {
        MatchStable(es0, es, ps[i - |es0|].owner, other);
        assert false;
      }
    }
    if Named(es0, other, x) {
      var i :| 0 <= i < |es0| && Match(es0, i, other) && es0[i].Has(x);
      MatchStable(es0, es, i, other);
      assert es[i].Has(x);
    }
  }

  /** The owner of an emitted piece is a container that shares all of the piece's addresses. */
  lemma {:induction false} PlaceOwners(l: seq<Piece>, p: Piece, cs: seq<Piece>)
    requires p.end < TWO64 - 1 && p.start <= p.end && (forall q :: q in l && q.start <= q.end ==> OwnedIn(q, cs))
    requires p in cs
    ensures forall q :: q in Place(l, p) && q.start <= q.end ==> OwnedIn(q, cs)
  {
    if l != [] {
      if l[0].start <= p.start <= l[0].end {
        assert l[0] in l;
        forall q | q in Split(l[0], p) && q.start <= q.end ensures OwnedIn(q, cs) {
        }
      } else {
        PlaceOwners(l[1..], p, cs);
      }
    }
  }

  ghost predicate OwnedIn(q: Piece, cs: seq<Piece>) {
    exists c :: c in cs && c.owner == q.owner && c.start <= q.start && q.end <= c.end
  }

  lemma {:induction false} PlaceAllOwners(cs: seq<Piece>)
    requires Bounded(cs) && forall i :: 0 <= i < |cs| ==> cs[i].end < TWO64 - 1
    ensures forall q :: q in PlaceAll(cs) && q.start <= q.end ==> OwnedIn(q, cs)
  {
    if cs != [] {
      var front, p := cs[..|cs| - 1], cs[|cs| - 1];
      PlaceAllOwners(front);
      var l := PlaceAll(front);
      forall q | q in l && q.start <= q.end ensures OwnedIn(q, cs) {
        assert OwnedIn(q, front);
      }
      PlaceOwners(l, p, cs);
    }
  }

  /** Adding entries takes no address away from any name. */
  lemma NamesGrow(es0: seq<Entry>, es: seq<Entry>, ps: seq<Piece>, req: Request, name: string,
                  r: Option<nat>, any: string, x: int)
    requires OwnersBefore(es0) && OwnersBefore(es)
    requires Contained(es0, es, ps, req, name, r)
    ensures Named(es0, any, x) ==> Named(es, any, x)
  {
    if Named(es0, any, x) {
      var i :| 0 <= i < |es0| && Match(es0, i, any) && es0[i].Has(x);
      MatchStable(es0, es, i, any);
      assert es[i].Has(x);
    }
  }

  /** Entries put inside containers of a name do not add addresses to that name. */
  lemma ContainerNameKept(es0: seq<Entry>, es: seq<Entry>, start: nat, end: nat, name: string,
                          container: string, r: Option<nat>, x: int)
    requires OwnersBefore(es0) && OwnersBefore(es) && ProperRanges(es0) && start <= end < TWO64 - 1
    requires InWord(Containers(es0, |es0|, start, end, container))
    requires Contained(es0, es, Emitted(es0, start, end, container), Request(Attr(0, false, false), false), name, r)
    ensures Named(es, container, x) <==> Named(es0, container, x)
  {
    var ps := Emitted(es0, start, end, container);
    NamesGrow(es0, es, ps, Request(Attr(0, false, false), false), name, r, container, x);
    if Named(es, container, x) {
      var i :| 0 <= i < |es| && Match(es, i, container) && es[i].Has(x);
      if i < |es0| {
        MatchStable(es0, es, i, container);
        assert es0[i].Has(x);
      } else {
        assert ps[i - |es0|].Has(x);
        EmittedIsIntersection(es0, start, end, container, x);
      }
    }
  }

  /** If a name has no address in [start, end], none of the emitted pieces is owned by it. */
  lemma OwnersElsewhere(es: seq<Entry>, start: nat, end: nat, container: string, other: string)
    requires OwnersBefore(es) && ProperRanges(es) && start <= end < TWO64 - 1
    requires InWord(Containers(es, |es|, start, end, container))
    requires forall x :: start <= x <= end ==> !Named(es, other, x)
    ensures forall q :: q in Emitted(es, start, end, container) ==>
              q.owner < |es| && !Match(es, q.owner, other) && es[q.owner].start <= q.start && q.end <= es[q.owner].end
  {
    var cs := Containers(es, |es|, start, end, container);
    ContainersInWord(es, |es|, start, end, container, TWO64 - 1);
    PlaceAllOwners(cs);
    forall q | q in Emitted(es, start, end, container)
      ensures q.owner < |es| && !Match(es, q.owner, other) && es[q.owner].start <= q.start && q.end <= es[q.owner].end
    {
      NonEmptyAmong(PlaceAll(cs), q);
      assert OwnedIn(q, cs);
      var c :| c in cs && c.owner == q.owner && c.start <= q.start && q.end <= c.end;
      ContainerIsClip(es, |es|, start, end, container, c);
      if Match(es, q.owner, other) {
        assert es[q.owner].Has(q.start);
        assert Named(es, other, q.start);
        assert false;
      }
    }
  }

  lemma {:induction false} NonEmptyAmong(l: seq<Piece>, q: Piece)
    requires q in NonEmptyPieces(l)
    ensures q in l && q.start <= q.end
  {
    if l != [] && q in NonEmptyPieces(l[..|l| - 1]) {
      NonEmptyAmong(l[..|l| - 1], q);
    }
  }

  lemma {:induction false} ContainerIsClip(es: seq<Entry>, n: nat, start: nat, end: nat, name: string, c: Piece)
    requires OwnersBefore(es) && n <= |es| && c in Containers(es, n, start, end, name)
    ensures c.owner < n && c == Clip(es[c.owner], c.owner, start, end)
  {
    if n != 0 && c in Containers(es, n - 1, start, end, name) {
      ContainerIsClip(es, n - 1, start, end, name, c);
    }
  }

  /** A window that ends before it starts yields no piece. */
  lemma EmptyWindow(es: seq<Entry>, start: nat, end: nat, container: string)
    requires OwnersBefore(es) && ProperRanges(es) && end < start
    requires InWord(Containers(es, |es|, start, end, container))
    ensures Emitted(es, start, end, container) == []
  {
    var cs := Containers(es, |es|, start, end, container);
    forall c | c in cs ensures c.end < start <= c.start {
      ContainerIsClip(es, |es|, start, end, container, c);
    }
    PlaceEmpties(cs, start);
    NoneNonEmpty(cs, start);
  }

  lemma {:induction false} PlaceEmpties(cs: seq<Piece>, start: nat)
    requires InWord(cs) && forall c :: c in cs ==> c.end < start <= c.start
    ensures PlaceAll(cs) == cs
  {
    if cs != [] {
      var front, p := cs[..|cs| - 1], cs[|cs| - 1];
      PlaceEmpties(front, start);
      PlaceEmptyLast(front, p, start);
    }
  }

  lemma {:induction false} PlaceEmptyLast(l: seq<Piece>, p: Piece, start: nat)
    requires p.end < TWO64 && start <= p.start && forall c :: c in l ==> c.end < start
    ensures Place(l, p) == l + [p]
  {
    if l != [] {
      assert l[0] in l;
      PlaceEmptyLast(l[1..], p, start);
    }
  }

  lemma {:induction false} NoneNonEmpty(l: seq<Piece>, start: nat)
    requires forall c :: c in l ==> c.end < start <= c.start
    ensures NonEmptyPieces(l) == []
  {
    if l != [] {
      assert l[|l| - 1] in l;
      NoneNonEmpty(l[..|l| - 1], start);
    }
  }

  lemma {:induction false} NonEmptyApart(l: seq<Piece>)
    ensures PairwiseApart(NonEmptyPieces(l)) <==> Disjoint(l)
    ensures forall q :: q in NonEmptyPieces(l) ==> q.start <= q.end
  {
    hide Disjoint, PairwiseApart;
    if l == [] {
      NoPieces();
      NoneApart();
    } else {
      var front, p := l[..|l| - 1], l[|l| - 1];
      assert front + [p] == l;
      NonEmptyApart(front);
      DisjointConcat(front, [p]);
      SinglePiece(p);
      forall x ensures Holds(NonEmptyPieces(front), x) <==> Holds(front, x) {
        NonEmptyHolds(front, x);
      }
      if p.start <= p.end {
        ApartMore(NonEmptyPieces(front), p);
        assert Meet(front, [p]) <==> exists x :: Holds(front, x) && p.Has(x);
      } else {
        assert !Meet(front, [p]) && Disjoint([p]);
        assert NonEmptyPieces(l) == NonEmptyPieces(front);
      }
    }
  }

  lemma NoneApart()
    ensures PairwiseApart([])
  {
  }

  lemma ApartMore(l: seq<Piece>, p: Piece)
    requires p.start <= p.end && forall q :: q in l ==> q.start <= q.end
    ensures PairwiseApart(l + [p]) <==> PairwiseApart(l) && forall x :: p.Has(x) ==> !Holds(l, x)
  {
    var l' := l + [p];
    if PairwiseApart(l') {
      forall i, j | 0 <= i < j < |l| ensures Apart(l[i], l[j]) {
        assert Apart(l'[i], l'[j]);
      }
      forall i | 0 <= i < |l| ensures Apart(l[i], p) {
        assert Apart(l'[i], l'[|l|]);
      }
    }
    if forall x :: p.Has(x) ==> !Holds(l, x) {
      forall i | 0 <= i < |l| ensures Apart(l[i], p) {
        assert l[i] in l;
        var x := if l[i].start < p.start then p.start else l[i].start;
        assert l[i].Has(x) && p.Has(x) ==> Holds(l, x);
      }
    }
  }

  /** When the entries of one call do not overlap, for any containers at all; each address then
      belongs to the last container around it. */
  lemma EmittedApartExactly(es: seq<Entry>, start: nat, end: nat, container: string)
    requires OwnersBefore(es) && ProperRanges(es) && start <= end < TWO64
    requires InWord(Containers(es, |es|, start, end, container))
    ensures var cs := Containers(es, |es|, start, end, container);
            && (PairwiseApart(Emitted(es, start, end, container)) <==> EachOneAround(cs))
            && (EachOneAround(cs) ==> forall q :: q in Emitted(es, start, end, container) ==> PartSomewhere(cs, q))
  {
    hide Disjoint, EachOneAround, PartSomewhere, PlaceAll;
    var cs := Containers(es, |es|, start, end, container);
    ContainersInWord(es, |es|, start, end, container, TWO64);
    DisjointExactly(cs);
    NonEmptyApart(PlaceAll(cs));
    forall q | q in Emitted(es, start, end, container) ensures q in PlaceAll(cs) {
      NonEmptyAmong(PlaceAll(cs), q);
    }
  }

  /** Of the entries with the name, each later one lies inside each earlier one or clear of it. */
  ghost predicate NestedEntries(es: seq<Entry>, name: string)
    requires OwnersBefore(es)
  {
    forall i, j :: 0 <= i < j < |es| && Match(es, i, name) && Match(es, j, name) ==>
      (es[i].start <= es[j].start && es[j].end <= es[i].end) || es[j].end < es[i].start || es[i].end < es[j].start
  }

  /** Clipping keeps the nesting, and the owners are distinct entries. */
  lemma {:induction false} ContainersNested(es: seq<Entry>, n: nat, start: nat, end: nat, name: string)
    requires OwnersBefore(es) && ProperRanges(es) && NestedEntries(es, name) && n <= |es| && start <= end
    ensures Nested(Containers(es, n, start, end, name))
    ensures forall c :: c in Containers(es, n, start, end, name) ==>
              c.owner < n && Match(es, c.owner, name) && c == Clip(es[c.owner], c.owner, start, end)
                && Hit(es, c.owner, start, end, name)
  {
    if n != 0 {
      var cs := Containers(es, n - 1, start, end, name);
      ContainersNested(es, n - 1, start, end, name);
      if Hit(es, n - 1, start, end, name) {
        var p := Clip(es[n - 1], n - 1, start, end);
        forall i | 0 <= i < |cs| ensures (InPiece(p, cs[i]) || Apart(p, cs[i])) && cs[i].owner != p.owner {
          assert cs[i] in cs;
        }
        NestedMore(cs, p);
      }
    }
  }

  lemma NestedMore(cs: seq<Piece>, p: Piece)
    requires Nested(cs)
    requires forall i :: 0 <= i < |cs| ==> (InPiece(p, cs[i]) || Apart(p, cs[i])) && cs[i].owner != p.owner
    ensures Nested(cs + [p])
  {
  }

  /** Nested entries: the pieces emitted are a partition of the asked range's part in the
      containers, and each is a part of its container that no later one reaches into. */
  lemma NestedEntriesPartition(es: seq<Entry>, start: nat, end: nat, container: string)
    requires OwnersBefore(es) && ProperRanges(es) && NestedEntries(es, container) && start <= end < TWO64 - 1
    requires InWord(Containers(es, |es|, start, end, container))
    ensures var cs, ps := Containers(es, |es|, start, end, container), Emitted(es, start, end, container);
            && Nested(cs) && PairwiseApart(ps) && (forall q :: q in ps ==> InnermostSomewhere(cs, q))
            && forall x :: Holds(ps, x) <==> start <= x <= end && Named(es, container, x)
  {
    hide Nested, InnermostSomewhere, PairwiseApart, CoversAll, NeighboursDiffer, PlaceAll, Named;
    var cs := Containers(es, |es|, start, end, container);
    ContainersInWord(es, |es|, start, end, container, TWO64);
    ContainersNested(es, |es|, start, end, container);
    PlaceAllPartitions(cs);
    AllNonEmpty(PlaceAll(cs));
    forall x ensures Holds(Emitted(es, start, end, container), x) <==> start <= x <= end && Named(es, container, x) {
      EmittedIsIntersection(es, start, end, container, x);
    }
  }

  /** ...and they come in ascending order, if each container that lies in no earlier one is found
      behind the earlier ones. */
  lemma NestedEntriesAscend(es: seq<Entry>, start: nat, end: nat, container: string)
    requires OwnersBefore(es) && ProperRanges(es) && NestedEntries(es, container) && start <= end < TWO64 - 1
    requires InWord(Containers(es, |es|, start, end, container))
    requires TopsAscend(Containers(es, |es|, start, end, container))
    ensures Ascending(Emitted(es, start, end, container))
  {
    hide Nested, TopsAscend, InnermostSomewhere, PairwiseApart, CoversAll, NeighboursDiffer, PlaceAll;
    var cs := Containers(es, |es|, start, end, container);
    ContainersInWord(es, |es|, start, end, container, TWO64);
    ContainersNested(es, |es|, start, end, container);
    PlaceAllPartitions(cs);
    PlaceAllAscends(cs);
    AllNonEmpty(PlaceAll(cs));
  }

  lemma {:induction false} AllNonEmpty(l: seq<Piece>)
    requires forall q :: q in l ==> q.start <= q.end
    ensures NonEmptyPieces(l) == l
  {
    if l != [] {
      var front, p := l[..|l| - 1], l[|l| - 1];
      assert p in l;
      AllNonEmpty(front);
      assert l == front + [p];
    }
  }
}
