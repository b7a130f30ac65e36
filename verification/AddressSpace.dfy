/** The address space section of the system page: a flat array of inclusive address ranges, each
    naming the entry that owns it (as_add64.c, as_find_containing.c, as_add_containing.c). */
module AddressSpace {
  import opened Bits
  import opened Ranges
  import opened Pieces
  import opened Wrappers

  /** Attribute bits. AS_ATTR_CONTINUED and AS_ATTR_KIDS are kept apart from the others. */
  datatype Attr = Attr(bits: nat, continued: bool, kids: bool)

  /** An entry. Offsets into the section are entry numbers here, AS_NULL_OFF is None. */
  datatype Entry = Entry(start: nat, end: nat, owner: Option<nat>, name: string, attr: Attr) {
    predicate Has(x: int) { start <= x <= end }
  }

  /** The attribute argument of as_add: AS_OVERLAY_IO is no stored bit but a request. */
  datatype Request = Request(attr: Attr, overlayIo: bool)

  ghost predicate OwnersBefore(es: seq<Entry>) {
    forall i :: 0 <= i < |es| && es[i].owner.Some? ==> es[i].owner.value < i
  }

  ghost predicate ProperRanges(es: seq<Entry>) {
    forall i :: 0 <= i < |es| ==> es[i].start <= es[i].end < TWO64
  }

  /** The entry or one of its owners has the name. */
  ghost predicate Match(es: seq<Entry>, i: nat, name: string)
    requires OwnersBefore(es) && i < |es|
    decreases i
  {
    es[i].name == name || (es[i].owner.Some? && Match(es, es[i].owner.value, name))
  }

  /** The three-way comparison of as_find_containing. */
  predicate Touches(e: Entry, start: nat, end: nat) {
    || e.start <= start <= e.end
    || e.start <= end <= e.end
    || (start <= e.start && end >= e.end)
  }

  ghost predicate Hit(es: seq<Entry>, i: nat, start: nat, end: nat, name: string)
    requires OwnersBefore(es) && i < |es|
  {
    Match(es, i, name) && Touches(es[i], start, end)
  }

  /** For proper ranges the three-way comparison says that an address is shared. */
  lemma TouchesIsOverlap(e: Entry, start: nat, end: nat)
    requires start <= end && e.start <= e.end
    ensures Touches(e, start, end) <==> exists x: int :: start <= x <= end && e.Has(x)
  {
    if Touches(e, start, end) {
      var x := if start < e.start then e.start else start;
      assert e.Has(x);
    }
  }

  /** The addresses in entries that have the name or are owned, at any depth, by one that has. */
  ghost function View(es: seq<Entry>, name: string): iset<int>
    requires OwnersBefore(es)
  {
    iset x: int | Named(es, name, x)
  }

  ghost predicate Named(es: seq<Entry>, name: string, x: int)
    requires OwnersBefore(es)
  {
    exists i :: 0 <= i < |es| && Match(es, i, name) && es[i].Has(x)
  }

  /** es' keeps the names and owners of all entries of es. */
  ghost predicate KeepsOwners(es: seq<Entry>, es': seq<Entry>) {
    && |es| <= |es'|
    && forall i :: 0 <= i < |es| ==> es'[i].name == es[i].name && es'[i].owner == es[i].owner
  }

  lemma {:induction false} MatchStable(es: seq<Entry>, es': seq<Entry>, i: nat, name: string)
    requires OwnersBefore(es) && OwnersBefore(es') && KeepsOwners(es, es') && i < |es|
    ensures Match(es, i, name) == Match(es', i, name)
    decreases i
  {
    if es[i].name != name && es[i].owner.Some? {
      MatchStable(es, es', es[i].owner.value, name);
    }
  }

  /** The containers as_add_containing finds among the first n entries, clipped to [start, end]. */
  ghost function Containers(es: seq<Entry>, n: nat, start: nat, end: nat, name: string): seq<Piece>
    requires OwnersBefore(es) && n <= |es|
  {
    if n == 0 then []
    else
      Containers(es, n - 1, start, end, name)
      + (if Hit(es, n - 1, start, end, name) then [Clip(es[n - 1], n - 1, start, end)] else [])
  }

  /** The part of entry i that lies in [start, end]. */
  function Clip(e: Entry, i: nat, start: nat, end: nat): Piece {
    Piece(if e.start > start then e.start else start, if e.end < end then e.end else end, i)
  }

  lemma {:induction false} NoMoreContainers(es: seq<Entry>, n: nat, m: nat, start: nat, end: nat, name: string)
    requires OwnersBefore(es) && n <= m <= |es|
    requires forall i :: n <= i < m ==> !Hit(es, i, start, end, name)
    ensures Containers(es, m, start, end, name) == Containers(es, n, start, end, name)
  {
    if n < m {
      NoMoreContainers(es, n, m - 1, start, end, name);
    }
  }

  lemma NoContainers(es: seq<Entry>, start: nat, end: nat, name: string)
    requires OwnersBefore(es)
    ensures Containers(es, 0, start, end, name) == [] && InWord([]) && PlaceAll([]) == []
  {
  }

  lemma NextContainer(es: seq<Entry>, k: nat, start: nat, end: nat, name: string)
    requires OwnersBefore(es) && ProperRanges(es) && k < |es| && end < TWO64
    requires Hit(es, k, start, end, name) && InWord(Containers(es, k, start, end, name))
    ensures var cs, p := Containers(es, k, start, end, name), Clip(es[k], k, start, end);
            && p.end < TWO64
            && InWord(Containers(es, k + 1, start, end, name))
            && PlaceAll(Containers(es, k + 1, start, end, name)) == Place(PlaceAll(cs), p)
  {
    var cs, p := Containers(es, k, start, end, name), Clip(es[k], k, start, end);
    assert Containers(es, k + 1, start, end, name) == cs + [p];
    assert (cs + [p])[..|cs|] == cs;
  }

  /** An entry as as_add64 stores it. */
  function Stored(start: nat, end: nat, req: Request, name: string, owner: Option<nat>): Entry {
    Entry(start, end, owner, name, req.attr)
  }

  /** The section after as_add64 without an I/O overlay: one more entry, and its owner marked. */
  function Added(es: seq<Entry>, e: Entry): seq<Entry>
    requires e.owner.Some? ==> e.owner.value < |es|
  {
    (if e.owner.Some? then
       es[e.owner.value := es[e.owner.value].(attr := es[e.owner.value].attr.(kids := true))]
     else es)
    + [e]
  }

  /** as_add64 with its optional "io" overlay entry. */
  function AddedWithOverlay(es: seq<Entry>, e: Entry, overlayIo: bool): seq<Entry>
    requires e.owner.Some? ==> e.owner.value < |es|
  {
    if overlayIo then
      Added(Added(es, e), Entry(e.start, e.end, Some(|es|), "io", e.attr))
    else Added(es, e)
  }

  /** The pieces that as_add_containing emits: those that a split has not left empty. */
  function NonEmptyPieces(l: seq<Piece>): seq<Piece> {
    if l == [] then []
    else NonEmptyPieces(l[..|l| - 1]) + (if l[|l| - 1].start <= l[|l| - 1].end then [l[|l| - 1]] else [])
  }

  ghost predicate SameButKids(a: Entry, b: Entry) {
    b == a.(attr := a.attr.(kids := b.attr.kids))
  }

  /** Some of the pieces is owned by entry i. */
  ghost predicate OwnsOneOf(i: nat, ps: seq<Piece>) {
    exists q :: 0 <= q < |ps| && ps[q].owner == i
  }

  /** The old entries after the pieces have been added: nothing but the owners' KIDS marks moved. */
  ghost predicate OldPart(es0: seq<Entry>, es: seq<Entry>, ps: seq<Piece>) {
    && |es0| <= |es|
    && forall i :: 0 <= i < |es0| ==>
         SameButKids(es0[i], es[i]) && (es[i].attr.kids <==> es0[i].attr.kids || OwnsOneOf(i, ps))
  }

  /** The entries of the pieces, one run of consecutive entries in which all but the last are
      CONTINUED (`last` is false while the run is still being written). The first m entries have
      been given an overlay. */
  ghost predicate Run(es: seq<Entry>, n: nat, ps: seq<Piece>, name: string, attr: Attr, last: bool, m: nat)
  {
    && n + |ps| <= |es|
    && forall i :: n <= i < n + |ps| ==> es[i] == RunEntry(ps, i - n, name, attr, last, m)
  }

  function RunEntry(ps: seq<Piece>, q: nat, name: string, attr: Attr, last: bool, m: nat): Entry
    requires q < |ps|
  {
    Entry(ps[q].start, ps[q].end, Some(ps[q].owner), name,
          Attr(attr.bits, !last || q + 1 < |ps|, attr.kids || q < m))
  }

  /** The overlay: one entry per piece, owned by the piece's entry. */
  ghost predicate Overlay(es: seq<Entry>, n: nat, ps: seq<Piece>, m: nat, name: string, attr: Attr) {
    && m <= |ps| && |es| == n + |ps| + m
    && forall i :: n + |ps| <= i < |es| ==> es[i] == OverlayEntry(ps, i - n - |ps|, n, name, attr)
  }

  lemma OneMorePiece(es0: seq<Entry>, es: seq<Entry>, es': seq<Entry>, ps: seq<Piece>, p: Piece)
    requires OldPart(es0, es, ps) && p.owner < |es0| && |es'| == |es| + 1
    requires forall i :: 0 <= i < |es| ==>
               es'[i] == if i == p.owner then es[i].(attr := es[i].attr.(kids := true)) else es[i]
    ensures OldPart(es0, es', ps + [p])
  {
    forall i | 0 <= i < |es0| ensures OwnsOneOf(i, ps + [p]) <==> OwnsOneOf(i, ps) || i == p.owner {
      assert (ps + [p])[|ps|] == p;
      if OwnsOneOf(i, ps) {
        var q :| 0 <= q < |ps| && ps[q].owner == i;
        assert (ps + [p])[q].owner == i;
      }
    }
  }

  /** One more entry of the run. */
  lemma OneMoreEntry(es0: seq<Entry>, es: seq<Entry>, es': seq<Entry>, ps: seq<Piece>, p: Piece, name: string,
                     attr: Attr)
    requires OldPart(es0, es, ps) && Run(es, |es0|, ps, name, attr, false, 0) && |es| == |es0| + |ps|
    requires p.owner < |es0| && attr.continued
    requires es' == Added(es, Stored(p.start, p.end, Request(attr, false), name, Some(p.owner)))
    ensures OldPart(es0, es', ps + [p]) && Run(es', |es0|, ps + [p], name, attr, false, 0) && |es'| == |es| + 1
  {
    OneMorePiece(es0, es, es', ps, p);
  }

  lemma NothingEmitted(es: seq<Entry>, name: string, attr: Attr)
    ensures OldPart(es, es, []) && Run(es, |es|, [], name, attr, false, 0) && NonEmptyPieces([]) == []
  {
  }

  function OverlayEntry(ps: seq<Piece>, q: nat, n: nat, name: string, attr: Attr): Entry
    requires q < |ps|
  {
    Entry(ps[q].start, ps[q].end, Some(n + q), name, attr)
  }

  lemma NothingOverlaid(es: seq<Entry>, n: nat, ps: seq<Piece>, name: string, attr: Attr)
    requires |es| == n + |ps|
    ensures Overlay(es, n, ps, 0, name, attr)
  {
  }

  /** One more overlay entry. */
  lemma OneMoreOverlay(es: seq<Entry>, es': seq<Entry>, n: nat, ps: seq<Piece>, m: nat, name: string, attr: Attr,
                       req: Attr)
    requires m < |ps| && Run(es, n, ps, name, attr, true, m) && Overlay(es, n, ps, m, name, req)
    requires es' == Added(es, Stored(es[n + m].start, es[n + m].end, Request(req, false), name, Some(n + m)))
    ensures es[n + m] == RunEntry(ps, m, name, attr, true, m)
    ensures Run(es', n, ps, name, attr, true, m + 1) && Overlay(es', n, ps, m + 1, name, req)
    ensures forall i :: 0 <= i < n ==> es'[i] == es[i]
    ensures |es'| == |es| + 1
  {
    assert es[n + m] == RunEntry(ps, m, name, attr, true, m);
  }

  /** The old entries are as they were but for KIDS marks, and all others have the name. */
  ghost predicate Extended(es0: seq<Entry>, es: seq<Entry>, name: string) {
    && |es0| <= |es|
    && (forall i :: 0 <= i < |es0| ==> SameButKids(es0[i], es[i]))
    && (forall i :: |es0| <= i < |es| ==> es[i].name == name)
  }

  lemma ContainedExtends(es0: seq<Entry>, es: seq<Entry>, ps: seq<Piece>, req: Request, name: string, r: Option<nat>)
    requires Contained(es0, es, ps, req, name, r) && !req.overlayIo
    ensures Extended(es0, es, name)
  {
  }

  /** What as_add_containing leaves when the nonempty pieces are ps. */
  ghost predicate Contained(es0: seq<Entry>, es: seq<Entry>, ps: seq<Piece>, req: Request, name: string,
                            r: Option<nat>)
  {
    var overlaid := if req.overlayIo then |ps| else 0;
    && r == (if ps == [] then None else Some(|es0|))
    && |es| == |es0| + |ps| + overlaid
    && OldPart(es0, es, ps)
    && Run(es, |es0|, ps, name, Attr(req.attr.bits, true, req.attr.kids), true, overlaid)
    && Overlay(es, |es0|, ps, overlaid, name, req.attr)
  }

  lemma {:induction false} ContainersOwned(es: seq<Entry>, n: nat, start: nat, end: nat, name: string)
    requires OwnersBefore(es) && ProperRanges(es) && n <= |es|
    ensures OwnedBelow(Containers(es, n, start, end, name), n)
  {
    if n != 0 {
      ContainersOwned(es, n - 1, start, end, name);
    }
  }

  lemma EndRun(es0: seq<Entry>, es: seq<Entry>, ps: seq<Piece>, name: string, attr: Attr)
    requires OldPart(es0, es, ps) && ps != [] && |es| == |es0| + |ps|
    requires Run(es, |es0|, ps, name, attr, false, 0)
    ensures var e := es[|es| - 1];
            var es' := es[|es| - 1 := e.(attr := e.attr.(continued := false))];
            OldPart(es0, es', ps) && Run(es', |es0|, ps, name, attr, true, 0)
  {
  }

  lemma OldPartKept(es0: seq<Entry>, es: seq<Entry>, es': seq<Entry>, ps: seq<Piece>)
    requires OldPart(es0, es, ps) && |es| <= |es'|
    requires forall i :: 0 <= i < |es0| ==> es'[i] == es[i]
    ensures OldPart(es0, es', ps)
  {
  }

  class AddressSpace {
    var entries: seq<Entry>

    ghost predicate Valid()
      reads this
    {
      OwnersBefore(entries) && ProperRanges(entries)
    }

    constructor ()
      ensures Valid() && entries == []
    {
      entries := [];
    }

    /** match_name: walks up the owner chain. */
    method MatchName(i: nat, name: string) returns (found: bool)
      requires Valid() && i < |entries|
      ensures found == Match(entries, i, name)
    {
      var k: nat := i;
      while true
        invariant k < |entries|
        invariant Match(entries, i, name) == Match(entries, k, name)
        decreases k
      {
        if entries[k].name == name {
          return true;
        }
        if entries[k].owner.None? {
          return false;
        }
        k := entries[k].owner.value;
      }
    }

    /** as_find_containing: the first entry after `off` that has the name, itself or through an
        owner, and shares an address with [start, end]. */
    method FindContaining(off: Option<nat>, start: nat, end: nat, name: string) returns (r: Option<nat>)
      requires Valid()
      ensures var from := if off.Some? then off.value + 1 else 0;
              match r
              case Some(k) => from <= k < |entries| && Hit(entries, k, start, end, name)
                              && forall i :: from <= i < k ==> !Hit(entries, i, start, end, name)
              case None => forall i :: from <= i < |entries| ==> !Hit(entries, i, start, end, name)
    {
      var k := if off.Some? then off.value + 1 else 0;
      ghost var from := k;
      while true
        invariant from <= k
        invariant forall i :: from <= i < k && i < |entries| ==> !Hit(entries, i, start, end, name)
        decreases |entries| - k
      {
        if k >= |entries| {
          return None;
        }
        var e := entries[k];
        var matched := MatchName(k, name);
        if matched {
          if (start >= e.start && start <= e.end)
             || (end >= e.start && end <= e.end)
             || (start <= e.start && end >= e.end)
          {
            return Some(k);
          }
        }
        k := k + 1;
      }
    }

    /** as_add64: append an entry, mark its owner, and overlay it with an "io" entry if asked. */
    method Add(start: nat, end: nat, req: Request, name: string, owner: Option<nat>) returns (off: nat)
      requires Valid() && start <= end < TWO64
      requires owner.Some? ==> owner.value < |entries|
      modifies this
      ensures Valid()
      ensures off == old(|entries|)
      ensures entries == AddedWithOverlay(old(entries), Stored(start, end, req, name, owner), req.overlayIo)
      ensures KeepsOwners(old(entries), entries)
      decreases req.overlayIo
    {
      off := |entries|;
      entries := entries + [Entry(start, end, owner, name, req.attr)];
      if owner.Some? {
        var o := owner.value;
        entries := entries[o := entries[o].(attr := entries[o].attr.(kids := true))];
      }
      assert entries == Added(old(entries), Stored(start, end, req, name, owner));
      if req.overlayIo {
        var _ := Add(start, end, req.(overlayIo := false), "io", Some(off));
      }
    }

    /** The first loop of as_add_containing. */
    method Collect(start: nat, end: nat, container: string) returns (list: seq<Piece>)
      requires Valid() && start < TWO64 && end < TWO64
      ensures InWord(Containers(entries, |entries|, start, end, container))
      ensures list == PlaceAll(Containers(entries, |entries|, start, end, container))
    {
      hide Containers, PlaceAll, Place, InWord, Hit;
      list := [];
      var owner := None;
      ghost var from := 0;
      NoContainers(entries, start, end, container);
      while true
        invariant from == if owner.Some? then owner.value + 1 else 0
        invariant from <= |entries|
        invariant InWord(Containers(entries, from, start, end, container))
        invariant list == PlaceAll(Containers(entries, from, start, end, container))
        decreases |entries| - from
      {
        owner := FindContaining(owner, start, end, container);
        if owner.None? {
          NoMoreContainers(entries, from, |entries|, start, end, container);
          break;
        }
        var e := entries[owner.value];
        var p := Piece(if e.start > start then e.start else start, if e.end < end then e.end else end, owner.value);
        NoMoreContainers(entries, from, owner.value, start, end, container);
        NextContainer(entries, owner.value, start, end, container);
        list := PlaceInList(list, p);
        from := owner.value + 1;
      }
    }

    /** The loop of as_add_containing that turns the scratch list into entries. */
    method Emit(list: seq<Piece>, name: string, attr: Attr)
      returns (ghost ps: seq<Piece>, first: Option<nat>, last: nat)
      requires Valid() && OwnedBelow(list, |entries|) && attr.continued
      modifies this
      ensures Valid()
      ensures ps == NonEmptyPieces(list)
      ensures |entries| == old(|entries|) + |ps|
      ensures OldPart(old(entries), entries, ps)
      ensures Run(entries, old(|entries|), ps, name, attr, false, 0)
      ensures first == if ps == [] then None else Some(old(|entries|))
      ensures ps != [] ==> last == |entries| - 1
    {
      hide OldPart, Run, Added;
      var k := 0;
      ps, first, last := [], None, 0;
      ghost var n := |entries|;
      NothingEmitted(entries, name, attr);
      assert list[..0] == [];
      while k < |list|
        invariant 0 <= k <= |list| && Valid()
        invariant ps == NonEmptyPieces(list[..k])
        invariant |entries| == n + |ps|
        invariant OldPart(old(entries), entries, ps)
        invariant Run(entries, n, ps, name, attr, false, 0)
        invariant first == if ps == [] then None else Some(n)
        invariant ps != [] ==> last == |entries| - 1
      {
        assert list[..k + 1][..k] == list[..k] && list[k] in list;
        if list[k].start <= list[k].end {
          ghost var es, qs := entries, ps;
          last := Add(list[k].start, list[k].end, Request(attr, false), name, Some(list[k].owner));
          ps := ps + [list[k]];
          OneMoreEntry(old(entries), es, entries, qs, list[k], name, attr);
          if first.None? {
            first := Some(last);
          }
        }
        k := k + 1;
      }
      assert list[..k] == list;
    }

    /** The overlay loop of as_add_containing: walks the run by its CONTINUED marks. */
    method OverlayRun(first: nat, req: Attr, name: string, ghost n: nat, ghost ps: seq<Piece>, ghost attr: Attr)
      requires Valid() && ps != [] && first == n && |entries| == n + |ps|
      requires Run(entries, n, ps, name, attr, true, 0)
      modifies this
      ensures Valid() && |entries| == n + 2 * |ps|
      ensures Run(entries, n, ps, name, attr, true, |ps|)
      ensures Overlay(entries, n, ps, |ps|, name, req)
      ensures forall i :: 0 <= i < n ==> entries[i] == old(entries)[i]
    {
      hide Run, Overlay, Added;
      var off := first;
      ghost var m := 0;
      NothingOverlaid(entries, n, ps, name, req);
      while true
        invariant Valid() && off == n + m && m < |ps|
        invariant |entries| == n + |ps| + m && Run(entries, n, ps, name, attr, true, m)
        invariant Overlay(entries, n, ps, m, name, req)
        invariant forall i :: 0 <= i < n ==> entries[i] == old(entries)[i]
        decreases |ps| - m
      {
        ghost var es := entries;
        var e := entries[off];
        var _ := Add(e.start, e.end, Request(req, false), name, Some(off));
        OneMoreOverlay(es, entries, n, ps, m, name, attr, req);
        m := m + 1;
        if !e.attr.continued {
          break;
        }
        off := off + 1;
      }
    }

    /** The last two steps of as_add_containing: end the run and overlay it if asked. */
    method FinishRun(first: nat, last: nat, req: Request, name: string,
                     ghost es0: seq<Entry>, ghost ps: seq<Piece>, ghost attr: Attr)
      requires Valid() && ps != [] && first == |es0| && |entries| == |es0| + |ps| && last == |entries| - 1
      requires OldPart(es0, entries, ps) && Run(entries, |es0|, ps, name, attr, false, 0)
      modifies this
      ensures Valid()
      ensures OldPart(es0, entries, ps)
      ensures Run(entries, |es0|, ps, name, attr, true, if req.overlayIo then |ps| else 0)
      ensures Overlay(entries, |es0|, ps, if req.overlayIo then |ps| else 0, name, req.attr)
    {
      EndRun(es0, entries, ps, name, attr);
      entries := entries[last := entries[last].(attr := entries[last].attr.(continued := false))];
      if req.overlayIo {
        ghost var es := entries;
        OverlayRun(first, req.attr, name, |es0|, ps, attr);
        OldPartKept(es0, es, entries, ps);
      }
    }

    /** as_add_containing: the parts of [start, end] inside the named containers become one chain
        of new entries, each owned by the container its piece was assigned to. */
    method AddContaining(start: nat, end: nat, req: Request, name: string, container: string)
      returns (r: Option<nat>)
      requires Valid() && start < TWO64 && end < TWO64
      modifies this
      ensures Valid()
      ensures InWord(Containers(old(entries), old(|entries|), start, end, container))
      ensures Contained(old(entries), entries,
                        NonEmptyPieces(PlaceAll(Containers(old(entries), old(|entries|), start, end, container))),
                        req, name, r)
    {
      ghost var es0, n := entries, |entries|;
      var list := Collect(start, end, container);
      ContainersOwned(entries, n, start, end, container);
      PlaceAllOwnedBelow(Containers(entries, n, start, end, container), n);
      var attr := Attr(req.attr.bits, true, req.attr.kids);
      ghost var ps;
      var last;
      ps, r, last := Emit(list, name, attr);
      if r.Some? {
        FinishRun(r.value, last, req, name, es0, ps, attr);
      }
    }
  }
}
