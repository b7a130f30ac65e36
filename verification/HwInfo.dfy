/** hwi_alloc.c over its section, and the walk through the list. */
module HwInfo {
  import Bits
  import opened HwTags
  import opened Wrappers

  const PAD_WORDS: nat := 1
  const PAD_ALIGN: nat := 4

  /** The walk by prefix.size, from word w, until a size is zero. */
  function Walk(data: seq<nat>, w: nat): seq<nat>
    decreases |data| - 2 * w
  {
    if 2 * w < |data| && data[2 * w] != 0 then [w] + Walk(data, w + data[2 * w]) else []
  }

  /** Where the tags from k on begin. */
  function StartsFrom(tags: seq<Tag>, k: nat): seq<nat>
    requires k <= |tags|
    decreases |tags| - k
  {
    if k == |tags| then [] else [Start(tags, k)] + StartsFrom(tags, k + 1)
  }

  /** The walk visits exactly the tags and pads of the list, in order. */
  lemma WalkVisits(m: Mem, tags: seq<Tag>)
    requires Shows(m, tags) && Sized(tags)
    ensures Walk(m.data, 0) == StartsFrom(tags, 0)
  {
    WalkFrom(m.data, tags, 0);
  }

  lemma {:induction false} WalkFrom(data: seq<nat>, tags: seq<Tag>, k: nat)
    requires Sized(tags) && k <= |tags| && forall j :: 0 <= j < |tags| ==> TagAt(data, tags, j)
    requires 2 * Start(tags, |tags|) < |data| && data[2 * Start(tags, |tags|)] == 0
    ensures Walk(data, Start(tags, k)) == StartsFrom(tags, k)
    decreases |tags| - k
  {
    hide TagAt, Start, Walk;
    if k < |tags| {
      WalkFrom(data, tags, k + 1);
      NextStart(data, tags, k);
      assert tags[k].words > 0;
    }
    WalkOne(data, Start(tags, k));
  }

  lemma WalkOne(data: seq<nat>, w: nat)
    requires 2 * w < |data|
    ensures Walk(data, w) == if data[2 * w] != 0 then [w] + Walk(data, w + data[2 * w]) else []
  {
  }

  lemma NextStart(data: seq<nat>, tags: seq<Tag>, k: nat)
    requires k < |tags| && TagAt(data, tags, k)
    ensures 2 * Start(tags, k) < |data| && data[2 * Start(tags, k)] == tags[k].words
    ensures Start(tags, k + 1) == Start(tags, k) + tags[k].words
  {
  }

  class HwInfo {
    var data: seq<nat>   // lsp.hwinfo, in half words
    var offset: nat
    var last: nat        // last_item
    const pad: nat       // the name offset of "pad"

    constructor (pad: nat)
      ensures this.pad == pad && State() == Mem(Zeros(4), 0, 0)
    {
      data, offset, last, this.pad := Zeros(4), 0, 0, pad;
    }

    function State(): Mem
      reads this
    {
      Mem(data, offset, last)
    }

    /** align_tag. It asks for one pad, and hwi_alloc_tag for that pad asks for its own alignment,
        which the offset has. */
    method AlignTag(align: nat)
      requires MemOk(State()) && 0 < align < Bits.TWO64
      modifies this
      ensures State() == Aligned(old(State()), align, pad)
      decreases if Gap(offset, align) == 0 then 0 else 1, 0
    {
      var grow := RoundTo(offset, align) - offset;
      if grow != 0 {
        PadAligned(offset);
        AllocTag(pad, 4 * PAD_WORDS, PAD_ALIGN);
      }
    }

    /** hwi_alloc_tag, with the offset of the name already found by add_string. */
    method AllocTag(name: nat, size: nat, align: nat)
      requires MemOk(State()) && 0 < align < Bits.TWO64 && size > 0 && size % 4 == 0
      modifies this
      ensures State() == TagMem(old(State()), name, size / 4, align, pad)
      decreases if Gap(offset, align) == 0 then 0 else 1, 1
    {
      hide Gap, PutTag, GrowFor, Aligned;
      AlignTag(align);
      Store(name, size);
    }

    /** The rest of hwi_alloc_tag. */
    method Store(name: nat, size: nat)
      requires MemOk(State()) && size > 0 && size % 4 == 0
      modifies this
      ensures State() == PutTag(GrowFor(old(State()), 4 * (size / 4)), size / 4, name)
    {
      var need := size + 4;
      var spare := 2 * |data| - offset;
      if need > spare {
        data := data + Zeros(Bits.UpTo(need - spare, 128) / 2);
      }
      assert State() == GrowFor(old(State()), size) && size == 4 * (size / 4);
      data := data[last / 2 + 2 := data[last / 2 + 2] + size / 4];
      data := data[offset / 2 := size / 4];
      data := data[offset / 2 + 1 := name];
      offset := offset + size;
    }

    /** hwi_alloc_item. */
    method AllocItem(name: nat, size: nat, align: nat, itemname: nat, owner: nat)
      requires MemOk(State()) && 0 < align < Bits.TWO64 && size >= 12 && size % 4 == 0
      requires owner != NULL_OFF ==> 4 * owner + 12 <= offset
      modifies this
      ensures State() == ItemMem(old(State()), name, size / 4, align, pad, itemname, owner)
    {
      hide Gap, PutTag, GrowFor, Aligned;
      AlignTag(align);
      last := offset;
      ghost var m1 := State();
      AllocTag(name, size, align);
      assert size == 4 * (size / 4);
      var o := (offset - size) / 2;
      data := data[o + 3 := itemname];
      data := data[o + 4 := owner];
      if owner != NULL_OFF {
        data := data[2 * owner + 5 := data[2 * owner + 5] + 1];
      }
    }
  }

  lemma PadAligned(offset: nat)
    requires offset % 4 == 0
    ensures Gap(offset, PAD_ALIGN) == 0
  {
    assert Bits.Pow2(2) == PAD_ALIGN;
    RoundToPower(offset, PAD_ALIGN);
    Bits.UpToStays(offset, PAD_ALIGN);
  }

  /** The empty section is where runs start. */
  lemma EmptySection()
    ensures Represents(Mem(Zeros(4), 0, 0), [])
  {
  }
}
