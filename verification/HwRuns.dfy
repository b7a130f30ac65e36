/** Runs of allocations in the hardware section: exactly which of them keep the list well formed, and
    what the others leave behind. */
module HwRuns {
  import Bits
  import opened HwInfo
  import opened HwTags
  import opened Wrappers

  /** The owner of an item is the offset of an earlier one, in words, or NULL_OFF. */
  datatype Op =
    | AllocTag(name: nat, words: nat, align: nat)
    | AllocItem(name: nat, words: nat, align: nat, itemname: nat, owner: nat)

  /** The section, and the offsets in words at which items have been allocated. */
  datatype Hw = Hw(m: Mem, items: set<nat>)

  predicate Fits(h: Hw) {
    MemOk(h.m) && forall i :: i in h.items ==> 4 * i + 12 <= h.m.offset
  }

  /** What the calls ask of their callers: the first is for an item, and owners are items. */
  predicate Proper(h: Hw, op: Op) {
    && 0 < op.align < Bits.TWO64
    && match op
       case AllocTag(name, words, align) => h.items != {} && words > 0
       case AllocItem(name, words, align, itemname, owner) =>
         words >= 3 && (owner == NULL_OFF || owner in h.items)
  }

  function Step(h: Hw, op: Op, pad: nat): (r: Hw)
    requires Fits(h) && Proper(h, op)
    ensures Fits(r) && h.items <= r.items && h.m.offset < r.m.offset
  {
    match op
    case AllocTag(name, words, align) => Hw(TagMem(h.m, name, words, align, pad), h.items)
    case AllocItem(name, words, align, itemname, owner) =>
      var r := ItemMem(h.m, name, words, align, pad, itemname, owner);
      Hw(r, h.items + {(r.offset - 4 * words) / 4})
  }

  predicate AllProper(h: Hw, ops: seq<Op>, pad: nat)
    requires Fits(h)
    decreases |ops|
  {
    ops == [] || (Proper(h, ops[0]) && AllProper(Step(h, ops[0], pad), ops[1..], pad))
  }

  function After(h: Hw, ops: seq<Op>, pad: nat): (r: Hw)
    requires Fits(h) && AllProper(h, ops, pad)
    ensures Fits(r)
    decreases |ops|
  {
    if ops == [] then h else After(Step(h, ops[0], pad), ops[1..], pad)
  }

  /** The alignment of an item takes no second pad. Tags may take any. */
  predicate CleanStep(h: Hw, op: Op)
    requires 0 < op.align < Bits.TWO64
  {
    op.AllocItem? ==> OnePad(h.m.offset, op.align)
  }

  predicate Clean(h: Hw, ops: seq<Op>, pad: nat)
    requires Fits(h) && AllProper(h, ops, pad)
    decreases |ops|
  {
    ops == [] || (CleanStep(h, ops[0]) && Clean(Step(h, ops[0], pad), ops[1..], pad))
  }

  // ---- clean runs ----

  ghost predicate ItemAt(tags: seq<Tag>, i: nat) {
    exists k :: 0 <= k < |tags| && tags[k].item.Some? && Start(tags, k) == i
  }

  /** The section shows the list, and the items are those of the list. */
  ghost predicate Shown(h: Hw, tags: seq<Tag>) {
    Represents(h.m, tags) && forall i: nat :: i in h.items <==> ItemAt(tags, i)
  }

  lemma ShownFits(h: Hw, tags: seq<Tag>)
    requires Shown(h, tags)
    ensures Fits(h) && Sized(tags) && h.m.offset == 4 * Start(tags, |tags|) && Start(tags, |tags|) < NULL_OFF
    ensures h.items == {} <==> tags == []
    ensures tags != [] ==> tags[0].item.Some?
  {
    Parts(h.m, tags);
    forall i | i in h.items ensures 4 * i + 12 <= h.m.offset {
      var k :| 0 <= k < |tags| && tags[k].item.Some? && Start(tags, k) == i;
      Before(tags, k, |tags|);
    }
    if tags != [] {
      assert ItemAt(tags, Start(tags, 0));
    }
  }

  /** Where the owner is in the list. */
  ghost function OwnerIndex(tags: seq<Tag>, owner: nat): (o: Option<nat>)
    requires owner != NULL_OFF ==> ItemAt(tags, owner)
    ensures owner == NULL_OFF ==> o.None?
    ensures owner != NULL_OFF ==>
              o.Some? && o.value < |tags| && tags[o.value].item.Some? && Start(tags, o.value) == owner
  {
    if owner == NULL_OFF then None
    else var k :| 0 <= k < |tags| && tags[k].item.Some? && Start(tags, k) == owner; Some(k)
  }

  ghost predicate ListOk(tags: seq<Tag>, op: Op) {
    && 0 < op.align < Bits.TWO64 && (tags != [] ==> tags[0].item.Some?)
    && (op.AllocTag? ==> tags != [])
    && (op.AllocItem? && op.owner != NULL_OFF ==> ItemAt(tags, op.owner))
  }

  /** What the calls do to the list. */
  ghost function ListStep(tags: seq<Tag>, op: Op, pad: nat): seq<Tag>
    requires ListOk(tags, op)
  {
    NoGapAtZero(op.align);
    var padded := Padded(tags, Gap(4 * Start(tags, |tags|), op.align), pad);
    match op
    case AllocTag(name, words, align) => WithTag(padded, words, name)
    case AllocItem(name, words, align, itemname, owner) =>
      WithItem(padded, words, name, itemname, OwnerIndex(tags, owner))
  }

  /** Tags and pads add no item, an item adds itself. */
  lemma ItemsKept(a: seq<Tag>, b: seq<Tag>, i: nat)
    requires |a| <= |b|
    requires forall k :: 0 <= k < |a| ==> a[k].words == b[k].words && (a[k].item.Some? <==> b[k].item.Some?)
    requires forall k :: |a| <= k < |b| - 1 ==> b[k].item.None?
    ensures ItemAt(b, i) <==>
            ItemAt(a, i) || (|b| > |a| && b[|b| - 1].item.Some? && Start(b, |b| - 1) == i)
  {
    hide Start;
    forall k | 0 <= k < |a| ensures Start(a, k) == Start(b, k) {
      StartSame(a, b, k);
    }
    if ItemAt(a, i) {
      var k :| 0 <= k < |a| && a[k].item.Some? && Start(a, k) == i;
      assert b[k].item.Some? && Start(b, k) == i;
    }
  }

  lemma ListStepShape(tags: seq<Tag>, op: Op, pad: nat)
    requires ListOk(tags, op)
    ensures var b := ListStep(tags, op, pad);
            && |tags| < |b| && b[|b| - 1].words == op.words && (b[|b| - 1].item.Some? <==> op.AllocItem?)
            && (forall k :: 0 <= k < |tags| ==>
                  tags[k].words == b[k].words && (tags[k].item.Some? <==> b[k].item.Some?))
            && (forall k :: |tags| <= k < |b| - 1 ==> b[k].item.None?)
  {
    hide Gap, Start;
    NoGapAtZero(op.align);
  }

  lemma ListItems(tags: seq<Tag>, op: Op, pad: nat, i: nat)
    requires ListOk(tags, op)
    ensures var b := ListStep(tags, op, pad);
            && b != []
            && (ItemAt(b, i) <==> ItemAt(tags, i) || (op.AllocItem? && Start(b, |b| - 1) == i))
  {
    hide ListStep, Start;
    ListStepShape(tags, op, pad);
    ItemsKept(tags, ListStep(tags, op, pad), i);
  }

  /** The list after one clean allocation. */
  lemma StepRepresents(h: Hw, tags: seq<Tag>, op: Op, pad: nat)
    requires Represents(h.m, tags) && ListOk(tags, op) && Fits(h) && Proper(h, op) && CleanStep(h, op)
    requires Start(tags, |tags|) + op.words + 1 < NULL_OFF && h.m.offset == 4 * Start(tags, |tags|)
    ensures Represents(Step(h, op, pad).m, ListStep(tags, op, pad))
  {
    hide Represents, Start, Gap, ItemMem, TagMem, ItemAt, WithTag, WithItem;
    if op.AllocTag? {
      TagRepresents(h.m, tags, op.name, op.words, op.align, pad);
    } else {
      ItemRepresents(h.m, tags, op.name, op.words, op.align, pad, op.itemname, OwnerIndex(tags, op.owner));
    }
  }

  lemma LastAtEnd(m: Mem, b: seq<Tag>)
    requires Represents(m, b) && b != []
    ensures Start(b, |b| - 1) == (m.offset - 4 * b[|b| - 1].words) / 4
  {
  }

  /** The items are still those of the list. */
  lemma StepItems(h: Hw, tags: seq<Tag>, op: Op, pad: nat)
    requires Shown(h, tags) && ListOk(tags, op) && Fits(h) && Proper(h, op)
    requires Represents(Step(h, op, pad).m, ListStep(tags, op, pad))
    ensures Shown(Step(h, op, pad), ListStep(tags, op, pad))
  {
    hide Represents, Start, ListStep, ItemAt, ItemMem, TagMem;
    var b, r := ListStep(tags, op, pad), Step(h, op, pad);
    ListStepShape(tags, op, pad);
    LastAtEnd(r.m, b);
    forall i: nat ensures i in r.items <==> ItemAt(b, i) {
      ListItems(tags, op, pad, i);
    }
  }

  /** One clean allocation. */
  lemma StepShown(h: Hw, tags: seq<Tag>, op: Op, pad: nat)
    requires Shown(h, tags) && Fits(h) && Proper(h, op) && CleanStep(h, op)
    requires Start(tags, |tags|) + op.words + 1 < NULL_OFF
    ensures ListOk(tags, op)
    ensures Shown(Step(h, op, pad), ListStep(tags, op, pad))
    ensures Start(ListStep(tags, op, pad), |ListStep(tags, op, pad)|) <= Start(tags, |tags|) + op.words + 2
  {
    hide Represents, Start, Gap, ListStep, ItemAt, OnePad;
    ShownFits(h, tags);
    StepRepresents(h, tags, op, pad);
    StepItems(h, tags, op, pad);
    ShownFits(Step(h, op, pad), ListStep(tags, op, pad));
  }

  /** An upper bound of the words a run takes. */
  function Budget(ops: seq<Op>): nat {
    if ops == [] then 0 else ops[0].words + 2 + Budget(ops[1..])
  }

  ghost function ListAfter(h: Hw, tags: seq<Tag>, ops: seq<Op>, pad: nat): seq<Tag>
    requires Shown(h, tags) && Fits(h) && AllProper(h, ops, pad) && Clean(h, ops, pad)
    requires Start(tags, |tags|) + Budget(ops) < NULL_OFF
    decreases |ops|
  {
    if ops == [] then tags
    else
      StepShown(h, tags, ops[0], pad);
      ListAfter(Step(h, ops[0], pad), ListStep(tags, ops[0], pad), ops[1..], pad)
  }

  /** After any clean run the list is well formed, the section shows it, and the walk visits all of
      it. */
  lemma {:induction false} RunWellFormed(h: Hw, tags: seq<Tag>, ops: seq<Op>, pad: nat)
    requires Shown(h, tags) && Fits(h) && AllProper(h, ops, pad) && Clean(h, ops, pad)
    requires Start(tags, |tags|) + Budget(ops) < NULL_OFF
    ensures var m, b := After(h, ops, pad).m, ListAfter(h, tags, ops, pad);
            Represents(m, b) && WellFormed(b) && Walk(m.data, 0) == StartsFrom(b, 0)
    decreases |ops|
  {
    hide Step, ListStep, Proper, CleanStep, Shows, WellFormed;
    if ops == [] {
      ShownFits(h, tags);
      WalkVisits(h.m, tags);
    } else {
      StepShown(h, tags, ops[0], pad);
      RunWellFormed(Step(h, ops[0], pad), ListStep(tags, ops[0], pad), ops[1..], pad);
    }
  }

  /** A tag of the list that a call has allocated: its length, its names and its owner. */
  predicate IsOf(t: Tag, op: Op) {
    && t.words == op.words && t.name == op.name
    && match op
       case AllocTag(name, words, align) => t.item.None?
       case AllocItem(name, words, align, itemname, owner) =>
         t.item.Some? && t.item.value.name == itemname && t.item.value.owner == owner
  }

  ghost predicate InList(b: seq<Tag>, op: Op) { exists k :: 0 <= k < |b| && IsOf(b[k], op) }

  /** b is a with more behind it: sizes and kids of items may have grown, and nothing else. */
  ghost predicate Longer(a: seq<Tag>, b: seq<Tag>) {
    && |a| <= |b|
    && forall k :: 0 <= k < |a| ==>
         && b[k].words == a[k].words && b[k].name == a[k].name && (b[k].item.Some? <==> a[k].item.Some?)
         && (a[k].item.Some? ==>
               b[k].item.value.name == a[k].item.value.name && b[k].item.value.owner == a[k].item.value.owner)
  }

  lemma StepKeeps(tags: seq<Tag>, op: Op, pad: nat)
    requires ListOk(tags, op)
    ensures Longer(tags, ListStep(tags, op, pad)) && InList(ListStep(tags, op, pad), op)
  {
    hide Gap, Start;
    NoGapAtZero(op.align);
    var b := ListStep(tags, op, pad);
    OwnerNamed(tags, op, pad);
    assert IsOf(b[|b| - 1], op);
  }

  /** The owner is at the same place in the padded list. */
  lemma OwnerNamed(tags: seq<Tag>, op: Op, pad: nat)
    requires ListOk(tags, op) && (Gap(4 * Start(tags, |tags|), op.align) != 0 ==> tags != [])
    ensures op.AllocItem? && op.owner != NULL_OFF ==>
              var o := OwnerIndex(tags, op.owner).value;
              Start(Padded(tags, Gap(4 * Start(tags, |tags|), op.align), pad), o) == op.owner
  {
    hide Gap;
    if op.AllocItem? && op.owner != NULL_OFF {
      var o := OwnerIndex(tags, op.owner).value;
      StartSame(tags, Padded(tags, Gap(4 * Start(tags, |tags|), op.align), pad), o);
    }
  }

  lemma {:induction false} RunLonger(h: Hw, tags: seq<Tag>, ops: seq<Op>, pad: nat)
    requires Shown(h, tags) && Fits(h) && AllProper(h, ops, pad) && Clean(h, ops, pad)
    requires Start(tags, |tags|) + Budget(ops) < NULL_OFF
    ensures Longer(tags, ListAfter(h, tags, ops, pad))
    decreases |ops|
  {
    hide Step, ListStep, Proper, CleanStep;
    if ops != [] {
      StepShown(h, tags, ops[0], pad);
      StepKeeps(tags, ops[0], pad);
      RunLonger(Step(h, ops[0], pad), ListStep(tags, ops[0], pad), ops[1..], pad);
    }
  }

  /** What a run has allocated is in the list at its end, with the names and the owner it was given. */
  lemma {:induction false} RunKeepsAll(h: Hw, tags: seq<Tag>, ops: seq<Op>, pad: nat, q: nat)
    requires Shown(h, tags) && Fits(h) && AllProper(h, ops, pad) && Clean(h, ops, pad) && q < |ops|
    requires Start(tags, |tags|) + Budget(ops) < NULL_OFF
    ensures InList(ListAfter(h, tags, ops, pad), ops[q])
    decreases |ops|
  {
    hide Step, ListStep, Proper, CleanStep;
    StepShown(h, tags, ops[0], pad);
    var h1, t1 := Step(h, ops[0], pad), ListStep(tags, ops[0], pad);
    if q > 0 {
      RunKeepsAll(h1, t1, ops[1..], pad, q - 1);
    } else {
      StepKeeps(tags, ops[0], pad);
      RunLonger(h1, t1, ops[1..], pad);
      StaysIn(t1, ListAfter(h1, t1, ops[1..], pad), ops[0]);
    }
  }

  lemma StaysIn(a: seq<Tag>, b: seq<Tag>, op: Op)
    requires Longer(a, b) && InList(a, op)
    ensures InList(b, op)
  {
    var k :| 0 <= k < |a| && IsOf(a[k], op);
    assert IsOf(b[k], op);
  }

  // ---- the others ----

  /** Prefix and, for an item, size of tag k. */
  ghost predicate HeadAt(data: seq<nat>, tags: seq<Tag>, k: nat)
    requires k < |tags|
  {
    var h := 2 * Start(tags, k);
    h + 2 < |data| && data[h] == tags[k].words && (tags[k].item.Some? ==> data[h + 2] == tags[k].item.value.span)
  }

  /** Behind the list lies a pad, and last_item is at that pad or behind it. */
  ghost predicate Torn(m: Mem, tags: seq<Tag>) {
    && MemOk(m) && Sized(tags) && SpansRight(tags) && tags != []
    && 4 * Start(tags, |tags|) <= m.last && 4 * Start(tags, |tags|) + 4 <= m.offset
    && m.data[2 * Start(tags, |tags|)] == 1
    && forall k :: 0 <= k < |tags| ==> HeadAt(m.data, tags, k)
  }

  /** Items that were allocated are those of the list, or lie behind it. */
  ghost predicate ItemsBehind(items: set<nat>, tags: seq<Tag>) {
    forall i :: i in items ==> ItemAt(tags, i) || i >= Start(tags, |tags|)
  }

  function NextItem(tags: seq<Tag>, j: nat): (i: nat)
    requires j <= |tags|
    ensures j <= i <= |tags| && (i < |tags| ==> tags[i].item.Some?)
    decreases |tags| - j
  {
    if j == |tags| || tags[j].item.Some? then j else NextItem(tags, j + 1)
  }

  lemma {:induction false} TailIs(tags: seq<Tag>, j: nat)
    requires j <= |tags|
    ensures Tail(tags, j) == Start(tags, NextItem(tags, j)) - Start(tags, j)
    decreases |tags| - j
  {
    if j < |tags| && tags[j].item.None? {
      TailIs(tags, j + 1);
    }
  }

  /** A list that starts with the same words has its next item at the same place, if the distance is
      the same. */
  lemma SameNext(tags: seq<Tag>, b: seq<Tag>, j: nat)
    requires Sized(b) && j <= |tags| < |b| && Tail(tags, j) == Tail(b, j)
    requires forall k :: 0 <= k < |tags| ==> b[k].words == tags[k].words
    ensures NextItem(b, j) == NextItem(tags, j)
  {
    var i, n := NextItem(b, j), NextItem(tags, j);
    TailIs(tags, j);
    TailIs(b, j);
    StartSame(tags, b, j);
    StartSame(tags, b, n);
    if i < n {
      StartGrows(b, i, n);
    } else if n < i {
      StartGrows(b, n, i);
    }
  }

  lemma SizesAgree(m: Mem, tags: seq<Tag>, b: seq<Tag>, k: nat)
    requires Torn(m, tags) && Represents(m, b) && k < |tags| < |b|
    requires tags[k].item.Some? && b[k].item.Some? && b[k].words == tags[k].words && Start(b, k) == Start(tags, k)
    ensures Tail(tags, k + 1) == Tail(b, k + 1)
  {
    hide Start, Tail, KidsRight, OwnersRight;
    assert HeadAt(m.data, tags, k) && TagAt(m.data, b, k);
  }

  /** If an item of the list is one in b as well, then so is the next, because the size of an item says
      where the next begins; and so on, up to the pad behind the list. */
  lemma {:induction false} PadIsItem(m: Mem, tags: seq<Tag>, b: seq<Tag>, k: nat)
    requires Torn(m, tags) && Represents(m, b) && Sized(b) && k < |tags| < |b|
    requires forall j :: 0 <= j < |tags| ==> b[j].words == tags[j].words
    requires tags[k].item.Some? && b[k].item.Some?
    ensures b[|tags|].item.Some?
    decreases |tags| - k
  {
    hide Torn, Represents, Sized;
    StartSame(tags, b, k);
    SizesAgree(m, tags, b, k);
    SameNext(tags, b, k + 1);
    if NextItem(tags, k + 1) < |tags| {
      PadIsItem(m, tags, b, NextItem(tags, k + 1));
    }
  }

  /** The prefixes say where the tags are. */
  lemma {:induction false} WordsAgree(m: Mem, tags: seq<Tag>, b: seq<Tag>, k: nat)
    requires Torn(m, tags) && Represents(m, b) && k <= |tags|
    ensures k < |b| && forall j :: 0 <= j < k ==> b[j].words == tags[j].words
    decreases k
  {
    hide SpansRight, KidsRight, OwnersRight;
    if k > 0 {
      WordsAgree(m, tags, b, k - 1);
      StartSame(tags, b, k - 1);
      assert HeadAt(m.data, tags, k - 1) && TagAt(m.data, b, k - 1);
      StartSame(tags, b, k);
      if k < |tags| {
        StartGrows(tags, k, |tags|);
      }
    }
  }

  /** So the section shows no list at all. */
  lemma TornIsNoList(m: Mem, tags: seq<Tag>, b: seq<Tag>)
    requires Torn(m, tags)
    ensures !Represents(m, b)
  {
    hide SpansRight, KidsRight, OwnersRight;
    if Represents(m, b) {
      WordsAgree(m, tags, b, |tags|);
      StartSame(tags, b, |tags|);
      assert TagAt(m.data, b, |tags|);
      PadIsItem(m, tags, b, 0);
      assert false;
    }
  }

  lemma NoListAtAll(m: Mem, tags: seq<Tag>)
    requires Torn(m, tags)
    ensures !ShowsList(m)
  {
    forall b ensures !Represents(m, b) {
      TornIsNoList(m, tags, b);
    }
  }

  /** Owners are items of the list, or lie behind it. */
  ghost predicate OwnerOk(tags: seq<Tag>, owner: nat) {
    owner == NULL_OFF || ItemAt(tags, owner) || owner >= Start(tags, |tags|)
  }

  /** Counting a kid changes neither prefixes nor sizes. */
  lemma HeadKept(data: seq<nat>, r: seq<nat>, tags: seq<Tag>, k: nat, owner: nat)
    requires Sized(tags) && k < |tags| && HeadAt(data, tags, k) && |r| >= |data| && OwnerOk(tags, owner)
    requires forall x ::
               0 <= x < 2 * Start(tags, |tags|) && x < |data| && !(owner != NULL_OFF && x == 2 * owner + 5)
               ==> r[x] == data[x]
    ensures HeadAt(r, tags, k)
  {
    hide Start;
    Before(tags, k, |tags|);
    if owner != NULL_OFF && owner < Start(tags, |tags|) {
      var j :| 0 <= j < |tags| && tags[j].item.Some? && Start(tags, j) == owner;
      if j < k {
        Before(tags, j, k);
      } else if k < j {
        Before(tags, k, j);
      }
    }
  }

  lemma HeadOfTag(data: seq<nat>, tags: seq<Tag>, k: nat)
    requires k < |tags| && TagAt(data, tags, k) && tags[k].words > 0
    ensures HeadAt(data, tags, k)
  {
  }

  /** An item that takes two pads tears the list. */
  lemma WideTears(h: Hw, tags: seq<Tag>, op: Op, pad: nat)
    requires Shown(h, tags) && Fits(h) && Proper(h, op) && !CleanStep(h, op) && Start(tags, |tags|) + 1 < NULL_OFF
    ensures tags != [] && tags[0].item.Some?
    ensures Torn(Step(h, op, pad).m, WithTag(tags, 1, pad))
    ensures ItemsBehind(Step(h, op, pad).items, WithTag(tags, 1, pad))
  {
    hide OnePad, Gap, Aligned, ItemMem, WithTag;
    WideAlignment(h.m, tags, op.name, op.words, op.align, pad, op.itemname, op.owner);
    var t, m1, r := WithTag(tags, 1, pad), Aligned(h.m, op.align, pad), Step(h, op, pad);
    Padding(tags, pad);
    forall i | i in r.items ensures ItemAt(t, i) || i >= Start(t, |t|) {
      ItemsKept(tags, t, i);
    }
    TwoPadsTear(m1, t, r.m, op.words, op.owner);
  }

  lemma Padding(tags: seq<Tag>, pad: nat)
    requires tags != [] && tags[0].item.Some?
    ensures var t := WithTag(tags, 1, pad);
            && |t| == |tags| + 1 && t[|tags|].item.None?
            && forall k :: 0 <= k < |tags| ==> tags[k].words == t[k].words && (tags[k].item.Some? <==> t[k].item.Some?)
  {
  }

  lemma TwoPadsTear(m: Mem, tags: seq<Tag>, r: Mem, words: nat, owner: nat)
    requires Represents(m, tags) && tags != [] && TwoPads(m, r, words, owner) && OwnerOk(tags, owner)
    ensures Torn(r, tags)
  {
    hide Start, KidsRight, OwnersRight, TagAt, HeadAt, OwnerOk;
    forall k | 0 <= k < |tags| ensures HeadAt(r.data, tags, k) {
      HeadOfTag(m.data, tags, k);
      HeadKept(m.data, r.data, tags, k, owner);
    }
  }

  /** The stores of hwi_alloc_tag lie at last_item and behind the offset. */
  lemma TagKeeps(m: Mem, name: nat, words: nat, align: nat, pad: nat)
    requires MemOk(m) && words > 0 && 0 < align < Bits.TWO64
    ensures var r := TagMem(m, name, words, align, pad);
            && |r.data| >= |m.data|
            && forall x :: 0 <= x < m.offset / 2 && x != m.last / 2 + 2 ==> r.data[x] == m.data[x]
  {
    hide Gap, GrowFor, PutData;
    var m1 := Aligned(m, align, pad);
    if Gap(m.offset, align) != 0 {
      GrowAt(m, 4);
      PutAt(GrowFor(m, 4).data, m.last / 2, m.offset / 2, 1, pad);
    }
    GrowAt(m1, 4 * words);
    PutAt(GrowFor(m1, 4 * words).data, m1.last / 2, m1.offset / 2, words, name);
  }

  /** Those of hwi_alloc_item lie there as well, or count a kid. */
  lemma ItemKeeps(m: Mem, name: nat, words: nat, align: nat, pad: nat, itemname: nat, owner: nat)
    requires MemOk(m) && words >= 3 && 0 < align < Bits.TWO64 && (owner != NULL_OFF ==> 4 * owner + 12 <= m.offset)
    ensures var r := ItemMem(m, name, words, align, pad, itemname, owner);
            && |r.data| >= |m.data|
            && forall x ::
                 0 <= x < m.offset / 2 && x != m.last / 2 + 2 && !(owner != NULL_OFF && x == 2 * owner + 5)
                 ==> r.data[x] == m.data[x]
  {
    hide Gap, GrowFor, PutData, TagMem, ItemData;
    var m1 := Aligned(m, align, pad);
    if Gap(m.offset, align) != 0 {
      GrowAt(m, 4);
      PutAt(GrowFor(m, 4).data, m.last / 2, m.offset / 2, 1, pad);
    }
    TagKeeps(m1.(last := m1.offset), name, words, align, pad);
    var m2 := TagMem(m1.(last := m1.offset), name, words, align, pad);
    ItemAtOffset(m2.data, (m2.offset - 4 * words) / 2, itemname, owner);
  }

  lemma ItemAtOffset(data: seq<nat>, o: nat, itemname: nat, owner: nat)
    requires o + 4 < |data| && (owner != NULL_OFF ==> 2 * owner + 5 < o)
    ensures var r := ItemData(data, o, itemname, owner);
            |r| == |data| && forall x :: 0 <= x < o && !(owner != NULL_OFF && x == 2 * owner + 5) ==> r[x] == data[x]
  {
    ItemStores(data, o, itemname, owner);
  }

  /** A torn list stays torn, whatever is allocated behind it. */
  lemma StaysTorn(h: Hw, tags: seq<Tag>, op: Op, pad: nat)
    requires Torn(h.m, tags) && ItemsBehind(h.items, tags) && Fits(h) && Proper(h, op)
    ensures Torn(Step(h, op, pad).m, tags) && ItemsBehind(Step(h, op, pad).items, tags)
  {
    hide Start, SpansRight, HeadAt, ItemMem, TagMem;
    var owner := if op.AllocItem? then op.owner else NULL_OFF;
    var r := Step(h, op, pad).m;
    if op.AllocItem? {
      ItemKeeps(h.m, op.name, op.words, op.align, pad, op.itemname, op.owner);
    } else {
      TagKeeps(h.m, op.name, op.words, op.align, pad);
    }
    forall k | 0 <= k < |tags| ensures HeadAt(r.data, tags, k) {
      HeadKept(h.m.data, r.data, tags, k, owner);
    }
    PadKept(h.m.data, r.data, tags, owner);
  }

  lemma PadKept(data: seq<nat>, r: seq<nat>, tags: seq<Tag>, owner: nat)
    requires Sized(tags) && OwnerOk(tags, owner) && 2 * Start(tags, |tags|) < |data| <= |r|
    requires !(owner != NULL_OFF && 2 * Start(tags, |tags|) == 2 * owner + 5) ==>
               r[2 * Start(tags, |tags|)] == data[2 * Start(tags, |tags|)]
    ensures r[2 * Start(tags, |tags|)] == data[2 * Start(tags, |tags|)]
  {
  }

  lemma {:induction false} RunStaysTorn(h: Hw, tags: seq<Tag>, ops: seq<Op>, pad: nat)
    requires Torn(h.m, tags) && ItemsBehind(h.items, tags) && Fits(h) && AllProper(h, ops, pad)
    ensures Torn(After(h, ops, pad).m, tags)
    decreases |ops|
  {
    hide Torn, ItemsBehind, Step;
    if ops != [] {
      StaysTorn(h, tags, ops[0], pad);
      RunStaysTorn(Step(h, ops[0], pad), tags, ops[1..], pad);
    }
  }

  /** The section shows some list. */
  ghost predicate ShowsList(m: Mem) { exists b :: Represents(m, b) }

  lemma SomeList(m: Mem, tags: seq<Tag>)
    requires Represents(m, tags)
    ensures ShowsList(m)
  {
  }

  /** The theorem on runs: after any run of proper calls the section shows a list exactly if no item
      of the run took a second pad. Nothing allocated later repairs it. */
  lemma {:induction false} RunExactly(h: Hw, tags: seq<Tag>, ops: seq<Op>, pad: nat)
    requires Shown(h, tags) && Fits(h) && AllProper(h, ops, pad) && Start(tags, |tags|) + Budget(ops) < NULL_OFF
    ensures ShowsList(After(h, ops, pad).m) <==> Clean(h, ops, pad)
    decreases |ops|
  {
    hide Represents, Step, ListStep, CleanStep, Torn, ItemsBehind, ItemAt, ShowsList;
    if ops == [] {
      SomeList(h.m, tags);
    } else if CleanStep(h, ops[0]) {
      StepShown(h, tags, ops[0], pad);
      RunExactly(Step(h, ops[0], pad), ListStep(tags, ops[0], pad), ops[1..], pad);
    } else {
      WideTears(h, tags, ops[0], pad);
      RunStaysTorn(Step(h, ops[0], pad), WithTag(tags, 1, pad), ops[1..], pad);
      NoListAtAll(After(h, ops, pad).m, WithTag(tags, 1, pad));
    }
  }

  /** One allocation of an item, from any list. */
  lemma ItemExactly(h: Hw, tags: seq<Tag>, op: Op, pad: nat)
    requires Shown(h, tags) && Fits(h) && Proper(h, op) && op.AllocItem?
    requires Start(tags, |tags|) + op.words + 2 < NULL_OFF
    ensures ShowsList(Step(h, op, pad).m) <==> OnePad(h.m.offset, op.align)
  {
    hide Represents, Step, OnePad, Start, ShowsList, ItemAt;
    var ops := [op];
    assert ops[1..] == [] && Budget(ops[1..]) == 0;
    assert AllProper(Step(h, op, pad), ops[1..], pad) && After(h, ops, pad) == Step(h, op, pad);
    RunExactly(h, tags, ops, pad);
  }

  // ---- what the walk misses ----

  /** The walk over a list follows the prefixes to its end, and goes on there. */
  lemma {:induction false} WalkThrough(data: seq<nat>, tags: seq<Tag>, k: nat)
    requires Sized(tags) && k <= |tags| && forall j :: 0 <= j < |tags| ==> HeadAt(data, tags, j)
    ensures Walk(data, Start(tags, k)) == StartsFrom(tags, k) + Walk(data, Start(tags, |tags|))
    decreases |tags| - k
  {
    hide Start, Walk, HeadAt;
    if k < |tags| {
      WalkThrough(data, tags, k + 1);
      assert HeadAt(data, tags, k);
      NextHead(data, tags, k);
      WalkOne(data, Start(tags, k));
      var rest, end := StartsFrom(tags, k + 1), Walk(data, Start(tags, |tags|));
      assert [Start(tags, k)] + (rest + end) == [Start(tags, k)] + rest + end;
    }
  }

  lemma NextHead(data: seq<nat>, tags: seq<Tag>, k: nat)
    requires k < |tags| && HeadAt(data, tags, k)
    ensures 2 * Start(tags, k) < |data| && data[2 * Start(tags, k)] == tags[k].words
    ensures Start(tags, k + 1) == Start(tags, k) + tags[k].words
  {
  }

  /** A tag adds its words, and those of its pad, where last_item points. */
  lemma TagAdds(m: Mem, name: nat, words: nat, align: nat, pad: nat)
    requires MemOk(m) && words > 0 && 0 < align < Bits.TWO64 && m.last + 8 <= m.offset
    requires forall x :: m.offset / 2 <= x < |m.data| ==> m.data[x] == 0
    ensures var r := TagMem(m, name, words, align, pad);
            && r.data[m.last / 2 + 2] == m.data[m.last / 2 + 2] + (r.offset - m.offset) / 4
            && r.data[(r.offset - 4 * words) / 2] == words
            && forall x :: r.offset / 2 <= x < |r.data| ==> r.data[x] == 0
  {
    hide Gap, GrowFor, PutData;
    var m1 := Aligned(m, align, pad);
    if Gap(m.offset, align) != 0 {
      GrowAt(m, 4);
      PutAt(GrowFor(m, 4).data, m.last / 2, m.offset / 2, 1, pad);
    }
    GrowAt(m1, 4 * words);
    PutAt(GrowFor(m1, 4 * words).data, m1.last / 2, m1.offset / 2, words, name);
  }

  /** The tag allocated after an item with two pads is added to the prefix of that item instead of
      its size. So the walk by prefixes ends with the item, and never comes to the tag. */
  lemma WalkMissesTag(h: Hw, tags: seq<Tag>, op: Op, next: Op, pad: nat)
    requires Shown(h, tags) && Fits(h) && Proper(h, op) && !CleanStep(h, op) && Start(tags, |tags|) + 1 < NULL_OFF
    requires next.AllocTag? && Proper(Step(h, op, pad), next)
    ensures tags != [] && tags[0].item.Some?
    ensures var t, m := WithTag(tags, 1, pad), Step(Step(h, op, pad), next, pad).m;
            var at := (m.offset - 4 * next.words) / 4;
            && at < m.offset / 4 && 2 * at < |m.data| && m.data[2 * at] == next.words
            && Walk(m.data, 0) == StartsFrom(t, 0) + [Start(t, |t|), Start(t, |t|) + 1]
            && at > Start(t, |t|) + 1
  {
    hide Walk, Start, WithTag, Torn, ItemsBehind, TagMem, ItemMem, OnePad, Represents, ItemAt;
    AfterWide(h, tags, op, pad);
    var t, g := WithTag(tags, 1, pad), Step(h, op, pad);
    StaysTorn(g, t, next, pad);
    TagAdds(g.m, next.name, next.words, next.align, pad);
    EndOfWalk(Step(g, next, pad).m, t);
  }

  /** What an item with two pads leaves. */
  lemma AfterWide(h: Hw, tags: seq<Tag>, op: Op, pad: nat)
    requires Shown(h, tags) && Fits(h) && Proper(h, op) && !CleanStep(h, op) && Start(tags, |tags|) + 1 < NULL_OFF
    ensures tags != [] && tags[0].item.Some?
    ensures var t, g := WithTag(tags, 1, pad), Step(h, op, pad);
            var p := Start(t, |t|);
            && Torn(g.m, t) && ItemsBehind(g.items, t)
            && g.m.last == 4 * p && g.m.offset == 4 * p + 4 + 4 * op.words
            && 2 * p + 2 < |g.m.data| && g.m.data[2 * p + 2] == op.words
            && forall x :: g.m.offset / 2 <= x < |g.m.data| ==> g.m.data[x] == 0
  {
    hide Start, WithTag, Torn, ItemsBehind, ItemMem, Aligned, OnePad, Represents, ItemAt;
    WideTears(h, tags, op, pad);
    WideAlignment(h.m, tags, op.name, op.words, op.align, pad, op.itemname, op.owner);
    Parts(Aligned(h.m, op.align, pad), WithTag(tags, 1, pad));
  }

  lemma EndOfWalk(m: Mem, tags: seq<Tag>)
    requires Torn(m, tags) && m.offset >= 4 * Start(tags, |tags|) + 8
    requires m.data[2 * Start(tags, |tags|) + 2] == m.offset / 4 - Start(tags, |tags|) - 1
    requires forall x :: m.offset / 2 <= x < |m.data| ==> m.data[x] == 0
    ensures Walk(m.data, 0) == StartsFrom(tags, 0) + [Start(tags, |tags|), Start(tags, |tags|) + 1]
  {
    hide SpansRight, HeadAt, Walk, Start, StartsFrom;
    var p, end := Start(tags, |tags|), m.offset / 4;
    assert m.offset == 4 * end && m.offset / 2 == 2 * end;
    TwoMore(m.data, p, end);
    WalkThrough(m.data, tags, 0);
    StartAtZero(tags);
  }

  lemma StartAtZero(tags: seq<Tag>)
    ensures Start(tags, 0) == 0
  {
  }

  lemma TwoMore(data: seq<nat>, p: nat, end: nat)
    requires p + 1 < end && 2 * end < |data| && data[2 * p] == 1 && data[2 * p + 2] == end - p - 1 && data[2 * end] == 0
    ensures Walk(data, p) == [p, p + 1]
  {
    hide Walk;
    WalkOne(data, p);
    WalkOne(data, p + 1);
    WalkOne(data, end);
  }

  /** A run of three calls from the empty section: two items, the second aligned to 32 bytes, and a
      tag of one word at word 8, which the walk does not visit. */
  lemma MissedTagInput()
    ensures var h := Hw(Mem(Zeros(4), 0, 0), {});
            var ops := [AllocItem(0, 3, 4, 0, NULL_OFF), AllocItem(0, 3, 32, 0, NULL_OFF), AllocTag(0, 1, 4)];
            && Fits(h) && AllProper(h, ops, 0) && !Clean(h, ops, 0)
            && After(h, ops, 0).m.offset == 36 && Walk(After(h, ops, 0).m.data, 0) == [0, 3, 4, 5]
  {
    hide Walk, Gap, OnePad, Aligned, ItemMem, TagMem, Represents, ListStep, ItemAt, Step;
    var h := Hw(Mem(Zeros(4), 0, 0), {});
    var op, wide, next := AllocItem(0, 3, 4, 0, NULL_OFF), AllocItem(0, 3, 32, 0, NULL_OFF), AllocTag(0, 1, 4);
    FirstItem(h, op, 0);
    var h1, t1 := Step(h, op, 0), ListStep([], op, 0);
    GapsOfInput(12, 32, 4);
    ShownFits(h1, t1);
    SecondItem(h1, t1, wide);
    var h2 := Step(h1, wide, 0);
    var h3 := Step(h2, next, 0);
    TagOffset(h2, next);
    WalkMissesTag(h1, t1, wide, next, 0);
    OneItemAndPad(t1);
    FirstCall(h2, next, [], 0);
    FirstCall(h1, wide, [next], 0);
    FirstCall(h, op, [wide, next], 0);
    assert [next] + [] == [next] && [wide] + [next] == [wide, next] && [op] + [wide, next] == [op, wide, next];
  }

  lemma FirstCall(h: Hw, op: Op, ops: seq<Op>, pad: nat)
    requires Fits(h) && Proper(h, op) && AllProper(Step(h, op, pad), ops, pad)
    ensures AllProper(h, [op] + ops, pad) && After(h, [op] + ops, pad) == After(Step(h, op, pad), ops, pad)
    ensures Clean(h, [op] + ops, pad) <==> CleanStep(h, op) && Clean(Step(h, op, pad), ops, pad)
  {
    hide Step, Proper, CleanStep;
    assert ([op] + ops)[0] == op && ([op] + ops)[1..] == ops;
  }

  lemma FirstItem(h: Hw, op: Op, pad: nat)
    requires h == Hw(Mem(Zeros(4), 0, 0), {}) && op.AllocItem? && op.owner == NULL_OFF
    requires 3 <= op.words && op.words + 1 < NULL_OFF && 0 < op.align < Bits.TWO64
    ensures Fits(h) && Proper(h, op) && CleanStep(h, op) && ListOk([], op)
    ensures var h1, t1 := Step(h, op, pad), ListStep([], op, pad);
            && t1 == [Tag(op.words, op.name, Some(Item(op.itemname, NULL_OFF, op.words, 0)))]
            && Shown(h1, t1) && Start(t1, 1) == op.words
  {
    hide Gap, Represents, Step, ItemAt, ListStep;
    EmptySection();
    NoItems();
    NoGapAtZero(op.align);
    FirstList(op, pad);
    StepShown(h, [], op, pad);
  }

  lemma FirstList(op: Op, pad: nat)
    requires op.AllocItem? && 0 < op.align < Bits.TWO64 && op.owner == NULL_OFF
    ensures ListStep([], op, pad) == [Tag(op.words, op.name, Some(Item(op.itemname, NULL_OFF, op.words, 0)))]
    ensures Start(ListStep([], op, pad), 1) == op.words
  {
    hide Gap;
    NoGapAtZero(op.align);
    assert Start([], 0) == 0;
  }

  lemma NoItems()
    ensures forall i: nat :: !ItemAt([], i)
  {
  }

  /** Bytes 12 to 32 take more than one pad; from there on a word needs none. */
  lemma GapsOfInput(o: nat, wide: nat, word: nat)
    requires o == 12 && wide == 32 && word == 4
    ensures Gap(o, wide) == 20 && !OnePad(o, wide) && Gap(wide, word) == 0
  {
    hide RoundTo, OnePad, Bits.PowerOfTwo;
    assert Bits.PowerOfTwo(wide) && Bits.PowerOfTwo(word) by { Powers(); }
    RoundToPower(o, wide);
    RoundToPower(wide, word);
    OnePadExactly(o, wide);
  }

  lemma Powers()
    ensures Bits.PowerOfTwo(32) && Bits.PowerOfTwo(4)
  {
    assert Bits.Pow2(2) == 4 && Bits.Pow2(5) == 32;
  }

  lemma SecondItem(h: Hw, tags: seq<Tag>, op: Op)
    requires Shown(h, tags) && Fits(h) && Proper(h, op) && !CleanStep(h, op) && h.m.offset == 12
    requires op == AllocItem(0, 3, 32, 0, NULL_OFF) && Start(tags, |tags|) + 1 < NULL_OFF
    ensures Step(h, op, 0).m.offset == 32
  {
    hide Gap, OnePad, PlaceItem, Represents;
    WideAlignment(h.m, tags, 0, 3, op.align, 0, 0, NULL_OFF);
  }

  lemma TagOffset(h: Hw, op: Op)
    requires Fits(h) && Proper(h, op) && op.AllocTag? && Gap(h.m.offset, op.align) == 0
    ensures Step(h, op, 0).m.offset == h.m.offset + 4 * op.words
  {
    hide Gap;
  }

  lemma OneItemAndPad(tags: seq<Tag>)
    requires tags == [Tag(3, 0, Some(Item(0, NULL_OFF, 3, 0)))]
    ensures var t := WithTag(tags, 1, 0); |t| == 2 && Start(t, 2) == 4 && StartsFrom(t, 0) == [0, 3]
  {
    var t := WithTag(tags, 1, 0);
    assert Start(t, 1) == 3 && Start(t, 2) == 4;
    assert StartsFrom(t, 2) == [] && StartsFrom(t, 1) == [3];
  }
}
