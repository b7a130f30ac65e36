/** hwi_alloc.c: the list of hardware tags in its section. Offsets are counted in words of four bytes
    where the list is concerned. */
module HwTags {
  import Bits
  import opened Wrappers

  const NULL_OFF: nat := 0xFFFF

  /** struct hwi_item without its prefix. */
  datatype Item = Item(name: nat, owner: nat, span: nat, kids: nat)

  /** A tag: its size in words, the offset of its name, and what makes it an item. */
  datatype Tag = Tag(words: nat, name: nat, item: Option<Item>)

  /** Where tag k begins. */
  function Start(tags: seq<Tag>, k: nat): nat
    requires k <= |tags|
  {
    if k == 0 then 0 else Start(tags, k - 1) + tags[k - 1].words
  }

  /** Words from tag j to the next item, or to the end. */
  function Tail(tags: seq<Tag>, j: nat): nat
    requires j <= |tags|
    decreases |tags| - j
  {
    if j == |tags| || tags[j].item.Some? then 0 else tags[j].words + Tail(tags, j + 1)
  }

  /** How many items name the one at `off` as their owner. */
  function KidsOf(tags: seq<Tag>, off: nat): nat {
    if tags == [] then 0
    else
      KidsOf(tags[..|tags| - 1], off) +
      var t := tags[|tags| - 1]; if t.item.Some? && t.item.value.owner == off then 1 else 0
  }

  /** The last item, which the list has as soon as it has a tag. */
  function LastItem(tags: seq<Tag>): (k: nat)
    requires tags != [] && tags[0].item.Some?
    ensures k < |tags| && tags[k].item.Some?
    ensures forall j :: k < j < |tags| ==> tags[j].item.None?
  {
    var n := |tags| - 1;
    if tags[n].item.Some? then n else LastItem(tags[..n])
  }

  ghost predicate Sized(tags: seq<Tag>) {
    && (tags != [] ==> tags[0].item.Some?)
    && forall k :: 0 <= k < |tags| ==> tags[k].words > 0 && (tags[k].item.Some? ==> tags[k].words >= 3)
  }

  /** Each item's size is the distance to the next one. */
  ghost predicate SpansRight(tags: seq<Tag>) {
    forall k :: 0 <= k < |tags| && tags[k].item.Some? ==>
      tags[k].item.value.span == tags[k].words + Tail(tags, k + 1)
  }

  /** Each item's kids are the items that name it as owner. */
  ghost predicate KidsRight(tags: seq<Tag>) {
    forall k :: 0 <= k < |tags| && tags[k].item.Some? ==> tags[k].item.value.kids == KidsOf(tags, Start(tags, k))
  }

  /** Every owner is an earlier item, or none. */
  ghost predicate OwnersRight(tags: seq<Tag>) {
    forall k :: 0 <= k < |tags| && tags[k].item.Some? ==>
      tags[k].item.value.owner == NULL_OFF || tags[k].item.value.owner < Start(tags, k)
  }

  ghost predicate WellFormed(tags: seq<Tag>) {
    Sized(tags) && SpansRight(tags) && KidsRight(tags) && OwnersRight(tags) && Start(tags, |tags|) < NULL_OFF
  }

  // ---- what the calls do to the list ----

  function AddSpan(tags: seq<Tag>, k: nat, words: nat): seq<Tag>
    requires k < |tags| && tags[k].item.Some?
  {
    var i := tags[k].item.value;
    tags[k := tags[k].(item := Some(i.(span := i.span + words)))]
  }

  function AddKid(tags: seq<Tag>, k: nat): seq<Tag>
    requires k < |tags| && tags[k].item.Some?
  {
    var i := tags[k].item.value;
    tags[k := tags[k].(item := Some(i.(kids := i.kids + 1)))]
  }

  /** hwi_alloc_tag, at an aligned offset. */
  function WithTag(tags: seq<Tag>, words: nat, name: nat): seq<Tag>
    requires tags != [] && tags[0].item.Some?
  {
    AddSpan(tags, LastItem(tags), words) + [Tag(words, name, None)]
  }

  /** hwi_alloc_item, at an aligned offset; `o` is the index of the owner. */
  function WithItem(tags: seq<Tag>, words: nat, name: nat, itemname: nat, o: Option<nat>): seq<Tag>
    requires o.Some? ==> o.value < |tags| && tags[o.value].item.Some?
  {
    var owner := if o.Some? then Start(tags, o.value) else NULL_OFF;
    (if o.Some? then AddKid(tags, o.value) else tags) + [Tag(words, name, Some(Item(itemname, owner, words, 0)))]
  }

  // ---- the list stays well formed ----

  /** Same sizes, same starts. */
  lemma {:induction false} StartSame(a: seq<Tag>, b: seq<Tag>, k: nat)
    requires k <= |a| && k <= |b| && forall j :: 0 <= j < k ==> a[j].words == b[j].words
    ensures Start(a, k) == Start(b, k)
  {
    if k > 0 {
      StartSame(a, b, k - 1);
    }
  }

  lemma {:induction false} StartGrows(tags: seq<Tag>, i: nat, j: nat)
    requires Sized(tags) && i < j <= |tags|
    ensures Start(tags, i) < Start(tags, j)
  {
    if i < j - 1 {
      StartGrows(tags, i, j - 1);
    }
  }

  /** One plain tag more: only behind the last item does the distance grow. */
  lemma {:induction false} TailMore(a: seq<Tag>, b: seq<Tag>, j: nat)
    requires |b| == |a| + 1 && j <= |a| && b[|a|].item.None?
    requires forall k :: j <= k < |a| ==> a[k].words == b[k].words && (a[k].item.Some? <==> b[k].item.Some?)
    ensures Tail(b, j) == Tail(a, j) + if (forall k :: j <= k < |a| ==> a[k].item.None?) then b[|a|].words else 0
    decreases |a| - j
  {
    if j < |a| && a[j].item.None? {
      TailMore(a, b, j + 1);
    }
  }

  /** One item more: no distance changes. */
  lemma {:induction false} TailSame(a: seq<Tag>, b: seq<Tag>, j: nat)
    requires |b| == |a| + 1 && j <= |a| && b[|a|].item.Some?
    requires forall k :: j <= k < |a| ==> a[k].words == b[k].words && (a[k].item.Some? <==> b[k].item.Some?)
    ensures Tail(b, j) == Tail(a, j)
    decreases |a| - j
  {
    if j < |a| && a[j].item.None? {
      TailSame(a, b, j + 1);
    }
  }

  lemma {:induction false} KidsSame(a: seq<Tag>, b: seq<Tag>, off: nat)
    requires |a| == |b|
    requires forall k :: 0 <= k < |a| ==>
      (a[k].item.Some? <==> b[k].item.Some?) && (a[k].item.Some? ==> a[k].item.value.owner == b[k].item.value.owner)
    ensures KidsOf(a, off) == KidsOf(b, off)
  {
    if a != [] {
      KidsSame(a[..|a| - 1], b[..|b| - 1], off);
    }
  }

  lemma {:induction false} NoKidsYet(tags: seq<Tag>, off: nat)
    requires forall k :: 0 <= k < |tags| && tags[k].item.Some? ==> tags[k].item.value.owner != off
    ensures KidsOf(tags, off) == 0
  {
    if tags != [] {
      NoKidsYet(tags[..|tags| - 1], off);
    }
  }

  /** A tag or a pad. */
  lemma WithTagWellFormed(tags: seq<Tag>, words: nat, name: nat)
    requires WellFormed(tags) && tags != [] && words > 0 && Start(tags, |tags|) + words < NULL_OFF
    ensures WellFormed(WithTag(tags, words, name))
    ensures Start(WithTag(tags, words, name), |tags| + 1) == Start(tags, |tags|) + words
  {
    hide SpansRight, KidsRight, OwnersRight;
    var b, l := WithTag(tags, words, name), LastItem(tags);
    StartSame(tags, b, |tags|);
    WithTagSpans(tags, b, l, words);
    WithTagKids(tags, b);
  }

  lemma WithTagSpans(tags: seq<Tag>, b: seq<Tag>, l: nat, words: nat)
    requires SpansRight(tags) && |b| == |tags| + 1 && b[|tags|].item.None? && b[|tags|].words == words
    requires l < |tags| && tags[l].item.Some? && forall k :: l < k < |tags| ==> tags[k].item.None?
    requires forall k :: 0 <= k < |tags| ==>
      && b[k].words == tags[k].words && (b[k].item.Some? <==> tags[k].item.Some?)
      && (tags[k].item.Some? ==> b[k].item.value.span == tags[k].item.value.span + if k == l then words else 0)
    ensures SpansRight(b)
  {
    forall k | 0 <= k < |b| && b[k].item.Some? ensures b[k].item.value.span == b[k].words + Tail(b, k + 1) {
      TailMore(tags, b, k + 1);
      if k < l {
        assert tags[l].item.Some?;
      }
    }
  }

  /** Neither owners nor kids change. */
  lemma WithTagKids(tags: seq<Tag>, b: seq<Tag>)
    requires KidsRight(tags) && OwnersRight(tags) && |b| == |tags| + 1 && b[|tags|].item.None?
    requires forall k :: 0 <= k < |tags| ==>
      && b[k].words == tags[k].words && (b[k].item.Some? <==> tags[k].item.Some?)
      && (tags[k].item.Some? ==>
            b[k].item.value.owner == tags[k].item.value.owner && b[k].item.value.kids == tags[k].item.value.kids)
    ensures KidsRight(b) && OwnersRight(b)
  {
    hide KidsOf, Start;
    forall k | 0 <= k < |b| && b[k].item.Some?
      ensures Start(b, k) == Start(tags, k) && KidsOf(b, Start(b, k)) == KidsOf(tags, Start(tags, k))
    {
      StartSame(tags, b, k);
      KidsSame(tags, b[..|tags|], Start(tags, k));
      KidsLast(b, Start(tags, k));
    }
  }

  lemma KidsLast(b: seq<Tag>, off: nat)
    requires b != []
    ensures var t := b[|b| - 1];
            KidsOf(b, off) == KidsOf(b[..|b| - 1], off) + if t.item.Some? && t.item.value.owner == off then 1 else 0
  {
  }

  /** An item. */
  lemma WithItemWellFormed(tags: seq<Tag>, words: nat, name: nat, itemname: nat, o: Option<nat>)
    requires WellFormed(tags) && words >= 3 && Start(tags, |tags|) + words < NULL_OFF
    requires o.Some? ==> o.value < |tags| && tags[o.value].item.Some?
    ensures WellFormed(WithItem(tags, words, name, itemname, o))
    ensures Start(WithItem(tags, words, name, itemname, o), |tags| + 1) == Start(tags, |tags|) + words
  {
    hide SpansRight, KidsRight, OwnersRight;
    var b := WithItem(tags, words, name, itemname, o);
    StartSame(tags, b, |tags|);
    WithItemSpans(tags, b, words);
    WithItemKids(tags, words, name, itemname, o);
    WithItemOwners(tags, words, name, itemname, o);
  }

  lemma WithItemSpans(tags: seq<Tag>, b: seq<Tag>, words: nat)
    requires SpansRight(tags) && |b| == |tags| + 1 && b[|tags|].item.Some?
    requires b[|tags|].words == words == b[|tags|].item.value.span
    requires forall k :: 0 <= k < |tags| ==>
      && b[k].words == tags[k].words && (b[k].item.Some? <==> tags[k].item.Some?)
      && (tags[k].item.Some? ==> b[k].item.value.span == tags[k].item.value.span)
    ensures SpansRight(b)
  {
    forall k | 0 <= k < |b| && b[k].item.Some? ensures b[k].item.value.span == b[k].words + Tail(b, k + 1) {
      if k < |tags| {
        TailSame(tags, b, k + 1);
      }
    }
  }

  lemma WithItemKids(tags: seq<Tag>, words: nat, name: nat, itemname: nat, o: Option<nat>)
    requires WellFormed(tags) && (o.Some? ==> o.value < |tags| && tags[o.value].item.Some?)
    ensures KidsRight(WithItem(tags, words, name, itemname, o))
  {
    hide KidsOf, Start, SpansRight;
    var b, n := WithItem(tags, words, name, itemname, o), |tags|;
    forall k | 0 <= k < |b| && b[k].item.Some? ensures b[k].item.value.kids == KidsOf(b, Start(b, k)) {
      StartSame(tags, b, k);
      if k < n {
        OldKids(tags, b, k, o);
      } else {
        NewItem(tags, b, o);
      }
    }
  }

  lemma WithItemOwners(tags: seq<Tag>, words: nat, name: nat, itemname: nat, o: Option<nat>)
    requires Sized(tags) && OwnersRight(tags) && (o.Some? ==> o.value < |tags| && tags[o.value].item.Some?)
    ensures OwnersRight(WithItem(tags, words, name, itemname, o))
  {
    hide Start;
    var b, n := WithItem(tags, words, name, itemname, o), |tags|;
    forall k | 0 <= k < |b| && b[k].item.Some?
      ensures b[k].item.value.owner == NULL_OFF || b[k].item.value.owner < Start(b, k)
    {
      StartSame(tags, b, k);
      if k == n && o.Some? {
        StartGrows(tags, o.value, n);
      }
    }
  }

  /** Of the items that were there only the owner has a kid more. */
  lemma OldKids(tags: seq<Tag>, b: seq<Tag>, k: nat, o: Option<nat>)
    requires Sized(tags) && Start(tags, |tags|) < NULL_OFF && |b| == |tags| + 1 && k < |tags| && b[|tags|].item.Some?
    requires o.Some? ==> o.value < |tags|
    requires b[|tags|].item.value.owner == if o.Some? then Start(tags, o.value) else NULL_OFF
    requires forall j :: 0 <= j < |tags| ==>
      && (tags[j].item.Some? <==> b[j].item.Some?)
      && (tags[j].item.Some? ==> tags[j].item.value.owner == b[j].item.value.owner)
    ensures KidsOf(b, Start(tags, k)) == KidsOf(tags, Start(tags, k)) + if o == Some(k) then 1 else 0
  {
    hide KidsOf;
    KidsSame(tags, b[..|tags|], Start(tags, k));
    KidsLast(b, Start(tags, k));
    StartGrows(tags, k, |tags|);
    if o.Some? && o.value != k {
      if o.value < k {
        StartGrows(tags, o.value, k);
      } else {
        StartGrows(tags, k, o.value);
      }
    }
  }

  /** The item just added has no kids, and an owner before it. */
  lemma NewItem(tags: seq<Tag>, b: seq<Tag>, o: Option<nat>)
    requires WellFormed(tags) && |b| == |tags| + 1 && b[|tags|].item.Some? && Start(b, |tags|) == Start(tags, |tags|)
    requires o.Some? ==> o.value < |tags|
    requires b[|tags|].item.value.owner == if o.Some? then Start(tags, o.value) else NULL_OFF
    requires forall k :: 0 <= k < |tags| ==>
      && (tags[k].item.Some? <==> b[k].item.Some?)
      && (tags[k].item.Some? ==> tags[k].item.value.owner == b[k].item.value.owner)
    ensures KidsOf(b, Start(b, |tags|)) == 0 && Tail(b, |tags| + 1) == 0
    ensures o.Some? ==> b[|tags|].item.value.owner < Start(tags, |tags|)
  {
    var n := |tags|;
    if o.Some? {
      StartGrows(tags, o.value, n);
    }
    forall k | 0 <= k < |b| && b[k].item.Some? ensures b[k].item.value.owner != Start(tags, n) {
      if k < n {
        StartGrows(tags, k, n);
      }
    }
    NoKidsYet(b, Start(b, n));
  }

  // ---- the section ----

  /** The section in half words, and the statics offset and last_item, which count bytes. */
  datatype Mem = Mem(data: seq<nat>, offset: nat, last: nat)

  function Zeros(n: nat): seq<nat> { seq(n, _ => 0) }

  /** ROUND(x, a) for the offsets in use, where the sum does not wrap. */
  function RoundTo(x: nat, a: nat): (r: nat)
    requires 0 < a < Bits.TWO64
    ensures x <= r < x + a
  {
    Bits.TruncBounds(x + (a - 1), a);
    Bits.Trunc(x + (a - 1), a)
  }

  lemma RoundToIsRound(x: nat, a: nat)
    requires 0 < a < Bits.TWO64 && x + a <= Bits.TWO64
    ensures RoundTo(x, a) == Bits.Round(x, a)
  {
  }

  lemma RoundToPower(x: nat, a: nat)
    requires Bits.PowerOfTwo(a) && 0 < a < Bits.TWO64
    ensures RoundTo(x, a) == Bits.UpTo(x, a)
    ensures a % 4 == 0 || a == 1 || a == 2
  {
    hide Bits.Trunc, Bits.UpTo, Bits.Pow2;
    var k: nat :| a == Bits.Pow2(k);
    Bits.AlignDown(x + (a - 1), k);
    Bits.LastBelow(x, a);
    Bits.WordOrLess(k);
  }

  predicate MemOk(m: Mem) {
    m.offset % 4 == 0 && m.last % 4 == 0 && m.last <= m.offset && m.offset + 4 <= 2 * |m.data|
  }

  /** grow_syspage_section by chunks of 128 bytes, if size bytes and a prefix do not fit. */
  function GrowFor(m: Mem, size: nat): (r: Mem)
    requires MemOk(m)
    ensures MemOk(r) && r.offset == m.offset && r.last == m.last && m.offset + size + 4 <= 2 * |r.data|
  {
    var spare := 2 * |m.data| - m.offset;
    if size + 4 > spare then m.(data := m.data + Zeros(Bits.UpTo(size + 4 - spare, 128) / 2)) else m
  }

  /** The stores of hwi_alloc_tag. */
  function PutTag(m: Mem, words: nat, name: nat): (r: Mem)
    requires MemOk(m) && words > 0 && m.offset + 4 * words + 4 <= 2 * |m.data|
    ensures MemOk(r) && r.offset == m.offset + 4 * words && r.last == m.last && |r.data| == |m.data|
  {
    m.(data := PutData(m.data, m.last / 2, m.offset / 2, words, name), offset := m.offset + 4 * words)
  }

  function PutData(data: seq<nat>, l: nat, o: nat, words: nat, name: nat): (r: seq<nat>)
    requires l + 2 < |data| && o + 1 < |data|
    ensures |r| == |data|
  {
    data[l + 2 := data[l + 2] + words][o := words][o + 1 := name]
  }

  function Gap(offset: nat, align: nat): nat
    requires 0 < align < Bits.TWO64
  {
    RoundTo(offset, align) - offset
  }

  /** align_tag: one pad, however wide the gap. */
  function Aligned(m: Mem, align: nat, pad: nat): (r: Mem)
    requires MemOk(m) && 0 < align < Bits.TWO64
    ensures MemOk(r) && r.last == m.last && r.offset == m.offset + if Gap(m.offset, align) != 0 then 4 else 0
  {
    if Gap(m.offset, align) != 0 then PutTag(GrowFor(m, 4), 1, pad) else m
  }

  function TagMem(m: Mem, name: nat, words: nat, align: nat, pad: nat): (r: Mem)
    requires MemOk(m) && 0 < align < Bits.TWO64 && words > 0
    ensures MemOk(r) && m.offset + 4 * words <= r.offset <= m.offset + 4 + 4 * words && r.last == m.last
  {
    PutTag(GrowFor(Aligned(m, align, pad), 4 * words), words, name)
  }

  /** hwi_alloc_item; the owner is given in words. */
  function ItemMem(m: Mem, name: nat, words: nat, align: nat, pad: nat, itemname: nat, owner: nat): (r: Mem)
    requires MemOk(m) && 0 < align < Bits.TWO64 && words >= 3
    requires owner != NULL_OFF ==> 4 * owner + 12 <= m.offset
    ensures MemOk(r) && m.offset + 4 * words <= r.offset <= m.offset + 8 + 4 * words && r.last >= m.offset
  {
    PlaceItem(Aligned(m, align, pad), name, words, align, pad, itemname, owner)
  }

  /** hwi_alloc_item behind its own call of align_tag. */
  function PlaceItem(m: Mem, name: nat, words: nat, align: nat, pad: nat, itemname: nat, owner: nat): (r: Mem)
    requires MemOk(m) && 0 < align < Bits.TWO64 && words >= 3
    requires owner != NULL_OFF ==> 4 * owner + 12 <= m.offset
    ensures MemOk(r) && m.offset + 4 * words <= r.offset <= m.offset + 4 + 4 * words && r.last == m.offset
  {
    var m2 := TagMem(m.(last := m.offset), name, words, align, pad);
    m2.(data := ItemData(m2.data, (m2.offset - 4 * words) / 2, itemname, owner))
  }

  /** The stores of hwi_alloc_item proper: into the tag at o, and into its owner. */
  function ItemData(data: seq<nat>, o: nat, itemname: nat, owner: nat): (r: seq<nat>)
    requires o + 4 < |data| && (owner != NULL_OFF ==> 2 * owner + 5 < |data|)
    ensures |r| == |data|
  {
    var d := data[o + 3 := itemname][o + 4 := owner];
    if owner != NULL_OFF then d[2 * owner + 5 := d[2 * owner + 5] + 1] else d
  }

  /** Tag k of the list lies where it should, with all its fields. */
  ghost predicate TagAt(data: seq<nat>, tags: seq<Tag>, k: nat)
    requires k < |tags|
  {
    var h, t := 2 * Start(tags, k), tags[k];
    && h + 2 * t.words + 2 <= |data| && data[h] == t.words && data[h + 1] == t.name
    && (t.item.Some? ==>
          && t.words >= 3 && data[h + 2] == t.item.value.span && data[h + 3] == t.item.value.name
          && data[h + 4] == t.item.value.owner && data[h + 5] == t.item.value.kids)
  }

  /** The section shows the list: every tag, then zeros. */
  ghost predicate Shows(m: Mem, tags: seq<Tag>) {
    && MemOk(m) && m.offset == 4 * Start(tags, |tags|)
    && (forall k :: 0 <= k < |tags| ==> TagAt(m.data, tags, k))
    && (forall x :: m.offset / 2 <= x < |m.data| ==> m.data[x] == 0)
  }

  /** ...and the statics are right. */
  ghost predicate Represents(m: Mem, tags: seq<Tag>) {
    && Shows(m, tags) && WellFormed(tags)
    && m.last == if tags == [] then 0 else 4 * Start(tags, LastItem(tags))
  }

  /** The section grows only where the tag does not fit, and then by as many chunks of 128 bytes as it
      takes. */
  lemma GrowsInChunks(m: Mem, size: nat)
    requires MemOk(m)
    ensures var need, was, now := m.offset + size + 4, 2 * |m.data|, 2 * |GrowFor(m, size).data|;
            if need <= was then now == was else need <= now < need + 128 && (now - was) % 128 == 0
  {
    if m.offset + size + 4 > 2 * |m.data| {
      var x: nat := m.offset + size + 4 - 2 * |m.data|;
      Bits.DivMod(x + 127, 128);
      Bits.DivModUnique(Bits.UpTo(x, 128), 128, (x + 127) / 128, 0);
    }
  }

  lemma GrowShows(m: Mem, tags: seq<Tag>, size: nat)
    requires Shows(m, tags)
    ensures Shows(GrowFor(m, size), tags)
  {
    var r := GrowFor(m, size);
    forall k | 0 <= k < |tags| ensures TagAt(r.data, tags, k) {
      assert TagAt(m.data, tags, k);
    }
  }

  /** Tags do not overlap. */
  lemma Before(tags: seq<Tag>, i: nat, j: nat)
    requires Sized(tags) && i < j <= |tags|
    ensures Start(tags, i) + tags[i].words <= Start(tags, j)
  {
    if i + 1 < j {
      StartGrows(tags, i + 1, j);
    }
  }

  /** The stores of hwi_alloc_tag make the new tag and the last item's new size. */
  lemma PutTagShows(m: Mem, tags: seq<Tag>, words: nat, name: nat)
    requires Represents(m, tags) && tags != [] && words > 0 && m.offset + 4 * words + 4 <= 2 * |m.data|
    ensures Shows(PutTag(m, words, name), WithTag(tags, words, name))
  {
    hide SpansRight, KidsRight, OwnersRight, PutData, TagAt;
    var b, l, n := WithTag(tags, words, name), LastItem(tags), |tags|;
    StartSame(tags, b, n);
    Before(tags, l, n);
    assert TagAt(m.data, tags, l) && TagAt(m.data, tags, n - 1);
    PutZeros(m.data, 2 * Start(tags, l), 2 * Start(tags, n), words, name);
    forall k | 0 <= k < |b| ensures TagAt(PutTag(m, words, name).data, b, k) {
      if k < n {
        assert TagAt(m.data, tags, k);
        OldTag(m.data, tags, words, name, k);
      } else {
        NewTag(m.data, tags, words, name);
      }
    }
  }

  lemma PutZeros(data: seq<nat>, l: nat, o: nat, words: nat, name: nat)
    requires l + 6 <= o && o + 2 * words + 2 <= |data| && words > 0
    requires forall x :: o <= x < |data| ==> data[x] == 0
    ensures forall x :: o + 2 * words <= x < |data| ==> PutData(data, l, o, words, name)[x] == 0
  {
  }

  /** A tag depends on its own half words only. */
  lemma SameTag(data: seq<nat>, data': seq<nat>, tags: seq<Tag>, b: seq<Tag>, k: nat)
    requires k < |tags| && k < |b| && TagAt(data, tags, k) && |data'| == |data|
    requires b[k] == tags[k] && Start(b, k) == Start(tags, k) && tags[k].words > 0
    requires var h := 2 * Start(tags, k); forall x :: h <= x < h + 2 * tags[k].words ==> data'[x] == data[x]
    ensures TagAt(data', b, k)
  {
    hide Start;
  }

  /** The last item after its size has grown. */
  lemma LastTag(data: seq<nat>, tags: seq<Tag>, words: nat, name: nat)
    requires Sized(tags) && tags != [] && 2 * Start(tags, |tags|) + 2 <= |data| && TagAt(data, tags, LastItem(tags))
    requires var l := LastItem(tags); Start(tags, l) + tags[l].words <= Start(tags, |tags|) && tags[l].words >= 3
    ensures TagAt(PutData(data, 2 * Start(tags, LastItem(tags)), 2 * Start(tags, |tags|), words, name),
                  WithTag(tags, words, name), LastItem(tags))
  {
    hide Start, PutData, TagAt, AddSpan;
    var l, b := LastItem(tags), WithTag(tags, words, name);
    SpanGrown(tags, words, name);
    StartSame(tags, b, l);
    TagFields(data, tags, l);
    LastAt(data, 2 * Start(tags, l), 2 * Start(tags, |tags|), words, name);
    ItemTag(PutData(data, 2 * Start(tags, l), 2 * Start(tags, |tags|), words, name), b, l);
  }

  lemma TagFields(data: seq<nat>, tags: seq<Tag>, k: nat)
    requires k < |tags| && TagAt(data, tags, k) && tags[k].item.Some?
    ensures var h, t := 2 * Start(tags, k), tags[k];
            && t.words >= 3 && h + 2 * t.words + 2 <= |data| && data[h] == t.words && data[h + 1] == t.name
            && data[h + 2] == t.item.value.span && data[h + 3] == t.item.value.name
            && data[h + 4] == t.item.value.owner && data[h + 5] == t.item.value.kids
  {
  }

  lemma SpanGrown(tags: seq<Tag>, words: nat, name: nat)
    requires Sized(tags) && tags != []
    ensures var l, b := LastItem(tags), WithTag(tags, words, name);
            && |b| == |tags| + 1 && b[l].words == tags[l].words >= 3 && b[l].name == tags[l].name
            && b[l].item == Some(tags[l].item.value.(span := tags[l].item.value.span + words))
            && forall k :: 0 <= k < |tags| ==> b[k].words == tags[k].words
  {
  }

  lemma LastAt(data: seq<nat>, l: nat, o: nat, words: nat, name: nat)
    requires l + 6 <= o && o + 2 <= |data|
    ensures var r := PutData(data, l, o, words, name);
            && r[l] == data[l] && r[l + 1] == data[l + 1] && r[l + 2] == data[l + 2] + words
            && r[l + 3] == data[l + 3] && r[l + 4] == data[l + 4] && r[l + 5] == data[l + 5]
  {
  }

  /** A tag that was there is as before, but for the size of the last item. */
  lemma OldTag(data: seq<nat>, tags: seq<Tag>, words: nat, name: nat, k: nat)
    requires Sized(tags) && k < |tags| && 2 * Start(tags, |tags|) + 2 <= |data|
    requires TagAt(data, tags, k) && TagAt(data, tags, LastItem(tags))
    ensures TagAt(PutData(data, 2 * Start(tags, LastItem(tags)), 2 * Start(tags, |tags|), words, name),
                  WithTag(tags, words, name), k)
  {
    hide TagAt;
    var l, b := LastItem(tags), WithTag(tags, words, name);
    Before(tags, l, |tags|);
    if k == l {
      LastTag(data, tags, words, name);
    } else {
      StartSame(tags, b, k);
      Before(tags, k, |tags|);
      if k < l {
        Before(tags, k, l);
      } else {
        Before(tags, l, k);
      }
      SameTag(data, PutData(data, 2 * Start(tags, l), 2 * Start(tags, |tags|), words, name), tags, b, k);
    }
  }

  lemma NewTag(data: seq<nat>, tags: seq<Tag>, words: nat, name: nat)
    requires Sized(tags) && tags != [] && 2 * Start(tags, |tags|) + 2 * words + 2 <= |data|
    requires TagAt(data, tags, LastItem(tags))
    ensures TagAt(PutData(data, 2 * Start(tags, LastItem(tags)), 2 * Start(tags, |tags|), words, name),
                  WithTag(tags, words, name), |tags|)
  {
    StartSame(tags, WithTag(tags, words, name), |tags|);
  }

  lemma PutTagRepresents(m: Mem, tags: seq<Tag>, words: nat, name: nat)
    requires Represents(m, tags) && tags != [] && words > 0 && m.offset + 4 * words + 4 <= 2 * |m.data|
    requires Start(tags, |tags|) + words < NULL_OFF
    ensures Represents(PutTag(m, words, name), WithTag(tags, words, name))
  {
    hide SpansRight, KidsRight, OwnersRight, Shows, PutTag;
    assert MemOk(m) by { ShowsOk(m, tags); }
    PutTagShows(m, tags, words, name);
    WithTagWellFormed(tags, words, name);
    var b, l := WithTag(tags, words, name), LastItem(tags);
    StartSame(tags, b, l);
    assert forall j :: 0 <= j < |tags| ==> (b[j].item.Some? <==> tags[j].item.Some?);
  }

  lemma Parts(m: Mem, tags: seq<Tag>)
    requires Represents(m, tags)
    ensures Sized(tags) && MemOk(m) && m.offset == 4 * Start(tags, |tags|) && Start(tags, |tags|) < NULL_OFF
  {
  }

  lemma ShowsOk(m: Mem, tags: seq<Tag>)
    requires Shows(m, tags)
    ensures MemOk(m)
  {
  }

  /** The list after align_tag. */
  function Padded(tags: seq<Tag>, gap: nat, pad: nat): seq<Tag>
    requires gap != 0 ==> tags != [] && tags[0].item.Some?
  {
    if gap != 0 then WithTag(tags, 1, pad) else tags
  }

  /** An empty list is at offset 0, which needs no pad. */
  lemma NoGapAtZero(align: nat)
    requires 0 < align < Bits.TWO64
    ensures Gap(0, align) == 0
  {
    Bits.AndSelf(align - 1);
  }

  lemma GrowRepresents(m: Mem, tags: seq<Tag>, size: nat)
    requires Represents(m, tags)
    ensures Represents(GrowFor(m, size), tags)
  {
    hide WellFormed, Shows;
    assert Shows(m, tags);
    GrowShows(m, tags, size);
  }

  lemma HasFirst(m: Mem, tags: seq<Tag>)
    requires Represents(m, tags) && m.offset != 0
    ensures tags != [] && tags[0].item.Some?
  {
  }

  /** align_tag. */
  lemma AlignedRepresents(m: Mem, tags: seq<Tag>, align: nat, pad: nat)
    requires Represents(m, tags) && 0 < align < Bits.TWO64 && Start(tags, |tags|) + 1 < NULL_OFF
    ensures Gap(m.offset, align) != 0 ==> tags != [] && tags[0].item.Some?
    ensures Represents(Aligned(m, align, pad), Padded(tags, Gap(m.offset, align), pad))
  {
    hide SpansRight, KidsRight, OwnersRight, TagAt, Gap;
    if Gap(m.offset, align) != 0 {
      if m.offset == 0 {
        NoGapAtZero(align);
        assert false;
      }
      HasFirst(m, tags);
      GrowRepresents(m, tags, 4);
      PutTagRepresents(GrowFor(m, 4), tags, 1, pad);
    }
  }

  /** One pad reaches the alignment exactly when the gap is one word, or none; up to eight bytes it
      always is. */
  lemma PadReaches(m: Mem, align: nat, pad: nat)
    requires MemOk(m) && 0 < align < Bits.TWO64 && Bits.PowerOfTwo(align)
    ensures Aligned(m, align, pad).offset % align == 0 <==> Gap(m.offset, align) <= 4
    ensures align <= 8 ==> Gap(m.offset, align) <= 4
  {
    hide PutTag, GrowFor;
    WordReaches(m.offset, align);
  }

  lemma WordReaches(o: nat, align: nat)
    requires o % 4 == 0 && 0 < align < Bits.TWO64 && Bits.PowerOfTwo(align)
    ensures var gap := Gap(o, align);
            && (gap == 0 ==> o % align == 0)
            && (gap != 0 ==> (gap <= 4 <==> (o + 4) % align == 0))
            && (align <= 8 ==> gap <= 4)
  {
    hide RoundTo;
    RoundToPower(o, align);
    UpToMultiple(o, align);
    GapReaches(o, align, (o + align - 1) / align, Gap(o, align));
  }

  lemma UpToMultiple(o: nat, align: nat)
    requires align > 0
    ensures Bits.UpTo(o, align) == (o + align - 1) / align * align
  {
  }

  lemma GapReaches(o: nat, align: nat, q: nat, gap: nat)
    requires o % 4 == 0 && q * align == o + gap && 0 <= gap < align
    requires align % 4 == 0 || align == 1 || align == 2
    ensures gap == 0 ==> o % align == 0
    ensures gap != 0 ==> (gap <= 4 <==> (o + 4) % align == 0)
    ensures align <= 8 ==> gap <= 4
  {
    if gap == 0 {
      Bits.DivModUnique(o, align, q, 0);
    } else {
      GapWords(o, align, q, gap);
      PadOrNot(o, align, q, gap);
    }
  }

  lemma PadOrNot(o: nat, align: nat, q: nat, gap: nat)
    requires q * align == o + gap && 4 <= gap < align
    ensures gap == 4 <==> (o + 4) % align == 0
  {
    if gap == 4 {
      Bits.DivModUnique(o + 4, align, q, 0);
    } else {
      assert (q - 1) * align == q * align - align;
      Bits.DivModUnique(o + 4, align, q - 1, align + 4 - gap);
    }
  }

  /** Between word offsets and the alignments in use, gaps are whole words. */
  lemma GapWords(o: nat, align: nat, q: nat, gap: nat)
    requires o % 4 == 0 && q * align == o + gap && 0 < gap < align
    requires align % 4 == 0 || align == 1 || align == 2
    ensures gap % 4 == 0 && q > 0
  {
    if align % 4 == 0 {
      var b := align / 4;
      assert q * align == 4 * (q * b);
      Bits.DivModUnique(gap, 4, q * b - o / 4, 0);
    }
  }

  // ---- items ----

  /** The half words after all stores of hwi_alloc_item, for an item at o. */
  function NewItemData(data: seq<nat>, o: nat, words: nat, name: nat, itemname: nat, owner: nat): (r: seq<nat>)
    requires o + 4 < |data| && (owner != NULL_OFF ==> 2 * owner + 6 <= o)
    ensures |r| == |data|
  {
    ItemData(PutData(data, o, o, words, name), o, itemname, owner)
  }

  lemma NewItemAt(data: seq<nat>, o: nat, words: nat, name: nat, itemname: nat, owner: nat)
    requires words >= 3 && o + 2 * words + 2 <= |data| && (owner != NULL_OFF ==> 2 * owner + 6 <= o)
    requires forall x :: o <= x < |data| ==> data[x] == 0
    ensures var r := NewItemData(data, o, words, name, itemname, owner);
            && r[o] == words && r[o + 1] == name && r[o + 2] == words && r[o + 3] == itemname && r[o + 4] == owner
            && (forall x :: o + 5 <= x < |data| ==> r[x] == 0)
            && (forall x :: 0 <= x < o && !(owner != NULL_OFF && x == 2 * owner + 5) ==> r[x] == data[x])
            && (owner != NULL_OFF ==> r[2 * owner + 5] == data[2 * owner + 5] + 1)
  {
  }

  /** Another tag, or the owner, after the stores. */
  lemma OldTagOfItem(data: seq<nat>, r: seq<nat>, tags: seq<Tag>, b: seq<Tag>, k: nat, o: Option<nat>)
    requires Sized(tags) && k < |tags| && k < |b| && |r| == |data| && TagAt(data, tags, k)
    requires o.Some? ==> o.value < |tags| && tags[o.value].item.Some? && TagAt(data, tags, o.value)
    requires b[k] == if o == Some(k) then AddKid(tags, k)[k] else tags[k]
    requires Start(b, k) == Start(tags, k)
    requires forall x ::
               0 <= x < 2 * Start(tags, |tags|) && x < |data| && !(o.Some? && x == 2 * Start(tags, o.value) + 5)
               ==> r[x] == data[x]
    requires o.Some? ==> r[2 * Start(tags, o.value) + 5] == data[2 * Start(tags, o.value) + 5] + 1
    ensures TagAt(r, b, k)
  {
    Before(tags, k, |tags|);
    if o.Some? && o.value != k {
      if k < o.value {
        Before(tags, k, o.value);
      } else {
        Before(tags, o.value, k);
      }
    }
    if o != Some(k) {
      hide TagAt, Start;
      SameTag(data, r, tags, b, k);
    } else {
      hide Start;
    }
  }

  lemma NewItemShows(data: seq<nat>, tags: seq<Tag>, words: nat, name: nat, itemname: nat, o: Option<nat>)
    requires Sized(tags) && Start(tags, |tags|) < NULL_OFF
    requires words >= 3 && 2 * Start(tags, |tags|) + 2 * words + 2 <= |data|
    requires o.Some? ==> o.value < |tags| && tags[o.value].item.Some?
    requires forall k :: 0 <= k < |tags| ==> TagAt(data, tags, k)
    requires forall x :: 2 * Start(tags, |tags|) <= x < |data| ==> data[x] == 0
    ensures var b := WithItem(tags, words, name, itemname, o);
            var at, owner := 2 * Start(tags, |tags|), if o.Some? then Start(tags, o.value) else NULL_OFF;
            && (owner != NULL_OFF ==> 2 * owner + 6 <= at)
            && var r := NewItemData(data, at, words, name, itemname, owner);
            && (forall k :: 0 <= k < |b| ==> TagAt(r, b, k))
            && (forall x :: at + 2 * words <= x < |r| ==> r[x] == 0)
  {
    hide NewItemData, TagAt;
    var b, n := WithItem(tags, words, name, itemname, o), |tags|;
    var at, owner := 2 * Start(tags, n), if o.Some? then Start(tags, o.value) else NULL_OFF;
    if o.Some? {
      Before(tags, o.value, n);
    }
    NewItemAt(data, at, words, name, itemname, owner);
    var r := NewItemData(data, at, words, name, itemname, owner);
    forall k | 0 <= k < |b| ensures TagAt(r, b, k) {
      StartSame(tags, b, k);
      if k < n {
        OldTagOfItem(data, r, tags, b, k, o);
      } else {
        ItemTag(r, b, n);
      }
    }
  }

  lemma ItemTag(data: seq<nat>, tags: seq<Tag>, k: nat)
    requires k < |tags| && tags[k].item.Some?
    requires var h, t := 2 * Start(tags, k), tags[k];
             && t.words >= 3 && h + 2 * t.words + 2 <= |data| && data[h] == t.words && data[h + 1] == t.name
             && data[h + 2] == t.item.value.span && data[h + 3] == t.item.value.name
             && data[h + 4] == t.item.value.owner && data[h + 5] == t.item.value.kids
    ensures TagAt(data, tags, k)
  {
  }

  /** After the pad of align_tag, if any, no other is needed. */
  predicate OnePad(o: nat, align: nat)
    requires 0 < align < Bits.TWO64
  {
    Gap(if Gap(o, align) != 0 then o + 4 else o, align) == 0
  }

  /** For powers of two that is so exactly if the gap is at most one word. */
  lemma OnePadExactly(o: nat, align: nat)
    requires o % 4 == 0 && 0 < align < Bits.TWO64 && Bits.PowerOfTwo(align)
    ensures OnePad(o, align) <==> Gap(o, align) <= 4
  {
    if Gap(o, align) <= 4 {
      WordReaches(o, align);
      var p := if Gap(o, align) != 0 then o + 4 else o;
      RoundToPower(p, align);
      Bits.UpToStays(p, align);
    } else {
      SecondGap(o, align);
    }
  }

  /** Where no pad is needed, hwi_alloc_item is one set of stores. */
  lemma PlaceItemIs(m: Mem, name: nat, words: nat, align: nat, pad: nat, itemname: nat, owner: nat)
    requires MemOk(m) && 0 < align < Bits.TWO64 && words >= 3 && Gap(m.offset, align) == 0
    requires owner != NULL_OFF ==> 4 * owner + 12 <= m.offset
    ensures var r := PlaceItem(m, name, words, align, pad, itemname, owner);
            && r.offset == m.offset + 4 * words && r.last == m.offset
            && r.data == NewItemData(GrowFor(m, 4 * words).data, m.offset / 2, words, name, itemname, owner)
  {
    hide Gap, ItemData, PutData;
    var m1 := GrowFor(m.(last := m.offset), 4 * words);
    assert TagMem(m.(last := m.offset), name, words, align, pad) == PutTag(m1, words, name);
    assert m1.data == GrowFor(m, 4 * words).data;
    assert (m.offset + 4 * words - 4 * words) / 2 == m.offset / 2;
  }

  /** hwi_alloc_item makes an item, if the alignment takes no more than one pad, power of two or
      not. */
  lemma ItemRepresents(m: Mem, tags: seq<Tag>, name: nat, words: nat, align: nat, pad: nat, itemname: nat,
                       o: Option<nat>)
    requires Represents(m, tags) && words >= 3 && Start(tags, |tags|) + words + 1 < NULL_OFF
    requires 0 < align < Bits.TWO64 && OnePad(m.offset, align)
    requires o.Some? ==> o.value < |tags| && tags[o.value].item.Some?
    ensures Gap(m.offset, align) != 0 ==> tags != [] && tags[0].item.Some?
    ensures var owner := if o.Some? then Start(tags, o.value) else NULL_OFF;
            var padded := Padded(tags, Gap(m.offset, align), pad);
            && (owner != NULL_OFF ==> 4 * owner + 12 <= m.offset)
            && |padded| >= |tags|
            && (o.Some? ==> padded[o.value].item.Some?)
            && Represents(ItemMem(m, name, words, align, pad, itemname, owner),
                          WithItem(padded, words, name, itemname, o))
  {
    hide SpansRight, KidsRight, OwnersRight, TagAt, Shows, Gap, PlaceItem, PutTag, GrowFor, WithItem;
    Parts(m, tags);
    AlignedRepresents(m, tags, align, pad);
    var gap := Gap(m.offset, align);
    OwnerStays(tags, gap, pad, o);
    PlaceRepresents(Aligned(m, align, pad), Padded(tags, gap, pad), name, words, align, pad, itemname, o);
  }

  lemma PlaceRepresents(m: Mem, tags: seq<Tag>, name: nat, words: nat, align: nat, pad: nat, itemname: nat,
                        o: Option<nat>)
    requires Represents(m, tags) && words >= 3 && Start(tags, |tags|) + words < NULL_OFF
    requires 0 < align < Bits.TWO64 && Gap(m.offset, align) == 0
    requires o.Some? ==> o.value < |tags| && tags[o.value].item.Some?
    ensures var owner := if o.Some? then Start(tags, o.value) else NULL_OFF;
            && (owner != NULL_OFF ==> 4 * owner + 12 <= m.offset)
            && Represents(PlaceItem(m, name, words, align, pad, itemname, owner),
                          WithItem(tags, words, name, itemname, o))
  {
    hide WellFormed, TagAt, Gap, GrowFor, NewItemData, PlaceItem, WithItem, Represents;
    Parts(m, tags);
    var owner := if o.Some? then Start(tags, o.value) else NULL_OFF;
    OwnerStays(tags, 0, pad, o);
    PlaceItemIs(m, name, words, align, pad, itemname, owner);
    GrowRepresents(m, tags, 4 * words);
    ItemDone(GrowFor(m, 4 * words), tags, name, words, itemname, o,
             PlaceItem(m, name, words, align, pad, itemname, owner));
  }

  lemma ItemDone(g: Mem, tags: seq<Tag>, name: nat, words: nat, itemname: nat, o: Option<nat>, r: Mem)
    requires Represents(g, tags) && MemOk(r) && words >= 3 && Start(tags, |tags|) + words < NULL_OFF
    requires g.offset + 4 * words + 4 <= 2 * |g.data|
    requires o.Some? ==> o.value < |tags| && tags[o.value].item.Some? && Start(tags, o.value) + 3 <= Start(tags, |tags|)
    requires r.offset == g.offset + 4 * words && r.last == g.offset
    requires r.data == NewItemData(g.data, g.offset / 2, words, name, itemname,
                                   if o.Some? then Start(tags, o.value) else NULL_OFF)
    ensures Represents(r, WithItem(tags, words, name, itemname, o))
  {
    hide SpansRight, KidsRight, OwnersRight, TagAt, NewItemData, WithItem, Start, LastItem;
    WithItemWellFormed(tags, words, name, itemname, o);
    NewItemShows(g.data, tags, words, name, itemname, o);
    ItemIsLast(tags, words, name, itemname, o);
  }

  lemma ItemIsLast(tags: seq<Tag>, words: nat, name: nat, itemname: nat, o: Option<nat>)
    requires tags != [] ==> tags[0].item.Some?
    requires o.Some? ==> o.value < |tags| && tags[o.value].item.Some?
    ensures var b := WithItem(tags, words, name, itemname, o);
            && |b| == |tags| + 1 && LastItem(b) == |tags| && Start(b, |tags|) == Start(tags, |tags|)
  {
    StartSame(tags, WithItem(tags, words, name, itemname, o), |tags|);
  }

  lemma OwnerStays(tags: seq<Tag>, gap: nat, pad: nat, o: Option<nat>)
    requires Sized(tags) && (gap != 0 ==> tags != []) && Start(tags, |tags|) < NULL_OFF
    requires o.Some? ==> o.value < |tags| && tags[o.value].item.Some?
    ensures var padded := Padded(tags, gap, pad);
            && |padded| == |tags| + (if gap != 0 then 1 else 0)
            && Start(padded, |padded|) == Start(tags, |tags|) + (if gap != 0 then 1 else 0)
            && (o.Some? ==> padded[o.value].item.Some? && Start(padded, o.value) == Start(tags, o.value) < NULL_OFF)
            && (o.Some? ==> Start(tags, o.value) + 3 <= Start(tags, |tags|))
  {
    var padded := Padded(tags, gap, pad);
    StartSame(tags, padded, |tags|);
    if o.Some? {
      StartSame(tags, padded, o.value);
      Before(tags, o.value, |tags|);
    }
  }

  /** hwi_alloc_tag. */
  lemma TagRepresents(m: Mem, tags: seq<Tag>, name: nat, words: nat, align: nat, pad: nat)
    requires Represents(m, tags) && tags != [] && words > 0 && 0 < align < Bits.TWO64
    requires Start(tags, |tags|) + words + 1 < NULL_OFF
    ensures Sized(tags) && MemOk(m)
    ensures var padded := Padded(tags, Gap(m.offset, align), pad);
            && padded != [] && padded[0].item.Some?
            && Represents(TagMem(m, name, words, align, pad), WithTag(padded, words, name))
  {
    hide SpansRight, KidsRight, OwnersRight, TagAt, Shows, Gap, PutTag, GrowFor;
    Parts(m, tags);
    AlignedRepresents(m, tags, align, pad);
    OwnerStays(tags, Gap(m.offset, align), pad, None);
    var m1, padded := Aligned(m, align, pad), Padded(tags, Gap(m.offset, align), pad);
    GrowRepresents(m1, padded, 4 * words);
    PutTagRepresents(GrowFor(m1, 4 * words), padded, words, name);
  }

  /** Where the alignment takes more than one pad, hwi_alloc_item pads twice. The second pad lies
      where last_item points, the item behind it has no size, and the tags before are as they were
      but for their owner's kids. */
  lemma WideAlignment(m: Mem, tags: seq<Tag>, name: nat, words: nat, align: nat, pad: nat, itemname: nat, owner: nat)
    requires Represents(m, tags) && words >= 3 && Start(tags, |tags|) + 1 < NULL_OFF
    requires 0 < align < Bits.TWO64 && !OnePad(m.offset, align)
    requires owner != NULL_OFF ==> 4 * owner + 12 <= m.offset
    ensures MemOk(m) && Gap(m.offset, align) != 0 && tags != [] && tags[0].item.Some?
    ensures Represents(Aligned(m, align, pad), WithTag(tags, 1, pad))
    ensures TwoPads(Aligned(m, align, pad), ItemMem(m, name, words, align, pad, itemname, owner), words, owner)
  {
    hide Represents, Aligned, WithTag, Gap, PlaceItem, TwoPads;
    Parts(m, tags);
    AlignedRepresents(m, tags, align, pad);
    var m1 := Aligned(m, align, pad);
    ZerosBehind(m1, Padded(tags, Gap(m.offset, align), pad));
    SecondPad(m1, name, words, align, pad, itemname, owner);
  }

  lemma ZerosBehind(m: Mem, tags: seq<Tag>)
    requires Represents(m, tags)
    ensures forall x :: m.offset / 2 <= x < |m.data| ==> m.data[x] == 0
  {
  }

  /** r is m with a pad at the offset and an item of the given length behind it, which has its
      prefix but no size. */
  ghost predicate TwoPads(m: Mem, r: Mem, words: nat, owner: nat) {
    var o := m.offset / 2;
    && MemOk(r) && |r.data| >= |m.data| && r.last == m.offset && r.offset == m.offset + 4 + 4 * words
    && o + 4 < |r.data| && r.data[o] == 1 && r.data[o + 2] == words && r.data[o + 4] == 0
    && (forall x :: 0 <= x < o && x < |m.data| && !(owner != NULL_OFF && x == 2 * owner + 5) ==> r.data[x] == m.data[x])
    && (forall x :: r.offset / 2 <= x < |r.data| ==> r.data[x] == 0)
  }

  /** The half words after each store. */
  lemma GrowAt(m: Mem, size: nat)
    requires MemOk(m)
    ensures var r := GrowFor(m, size);
            |r.data| >= |m.data| && forall x :: 0 <= x < |r.data| ==> r.data[x] == if x < |m.data| then m.data[x] else 0
  {
  }

  lemma PutAt(data: seq<nat>, l: nat, o: nat, words: nat, name: nat)
    requires l + 2 < |data| && o + 1 < |data|
    ensures var r := PutData(data, l, o, words, name);
            forall x :: 0 <= x < |data| ==>
              r[x] == if x == o + 1 then name else if x == o then words
                      else if x == l + 2 then data[x] + words else data[x]
  {
  }

  lemma ItemStores(data: seq<nat>, o: nat, itemname: nat, owner: nat)
    requires o + 4 < |data| && (owner != NULL_OFF ==> 2 * owner + 5 < o)
    ensures var r := ItemData(data, o, itemname, owner);
            forall x :: 0 <= x < |data| ==>
              r[x] == if x == o + 3 then itemname else if x == o + 4 then owner
                      else if owner != NULL_OFF && x == 2 * owner + 5 then data[x] + 1 else data[x]
  {
  }

  /** The second pad, which counts itself into its own first half word. */
  lemma PadAtItself(m: Mem, align: nat, pad: nat)
    requires MemOk(m) && m.last == m.offset && 0 < align < Bits.TWO64 && Gap(m.offset, align) != 0
    requires forall x :: m.offset / 2 <= x < |m.data| ==> m.data[x] == 0
    ensures var r, o := Aligned(m, align, pad), m.offset / 2;
            && |r.data| >= |m.data| && o + 4 <= |r.data| && r.data[o] == 1
            && (forall x :: 0 <= x < o && x < |m.data| ==> r.data[x] == m.data[x])
            && (forall x :: o + 3 <= x < |r.data| ==> r.data[x] == 0)
  {
    hide Gap, GrowFor, PutData;
    GrowAt(m, 4);
    PutAt(GrowFor(m, 4).data, m.offset / 2, m.offset / 2, 1, pad);
  }

  /** hwi_alloc_item behind a first pad that was not enough. */
  lemma SecondPad(m: Mem, name: nat, words: nat, align: nat, pad: nat, itemname: nat, owner: nat)
    requires MemOk(m) && words >= 3 && 0 < align < Bits.TWO64 && Gap(m.offset, align) != 0
    requires owner != NULL_OFF ==> 4 * owner + 12 <= m.offset
    requires forall x :: m.offset / 2 <= x < |m.data| ==> m.data[x] == 0
    ensures TwoPads(m, PlaceItem(m, name, words, align, pad, itemname, owner), words, owner)
  {
    hide Gap, GrowFor, PutData, ItemData, Aligned;
    var m0, o := m.(last := m.offset), m.offset / 2;
    PadAtItself(m0, align, pad);
    var m2 := Aligned(m0, align, pad);
    GrowAt(m2, 4 * words);
    PutAt(GrowFor(m2, 4 * words).data, o, o + 2, words, name);
    var m4 := TagMem(m0, name, words, align, pad);
    ItemStores(m4.data, o + 2, itemname, owner);
    assert (m4.offset - 4 * words) / 2 == o + 2;
  }

  lemma SecondGap(o: nat, align: nat)
    requires o % 4 == 0 && 0 < align < Bits.TWO64 && Bits.PowerOfTwo(align) && Gap(o, align) > 4
    ensures Gap(o + 4, align) != 0
  {
    hide RoundTo, Bits.UpTo;
    RoundToPower(o, align);
    RoundToPower(o + 4, align);
    SameMultiple(o, align);
  }

  lemma SameMultiple(o: nat, align: nat)
    requires align > 0 && Bits.UpTo(o, align) > o + 4
    ensures Bits.UpTo(o + 4, align) == Bits.UpTo(o, align)
  {
    var x, q := o + align - 1, (o + align - 1) / align;
    Bits.DivMod(x, align);
    Bits.Commutes(q, align);
    Bits.DivModUnique(x + 4, align, q, x % align + 4);
  }
}
