/** strings.c, the typed strings: a finite map from types to strings, packed into a section. */
module TypedStrings {
  import opened Bits
  import opened Texts
  import opened Arena

  const CS_NONE: nat := 0

  datatype Entry = Entry(kind: nat, name: Text)

  /** A uint32_t in memory. */
  function Le32(t: nat): seq<Byte>
    requires t < 0x1_0000_0000
  {
    [t % 256, t / 256 % 256, t / 65536 % 256, t / 16777216]
  }

  function ReadLe32(b: seq<Byte>, i: nat): nat
    requires i + 4 <= |b|
  {
    var b0: nat, b1: nat, b2: nat, b3: nat := b[i], b[i + 1], b[i + 2], b[i + 3];
    b0 + 256 * b1 + 65536 * b2 + 16777216 * b3
  }

  lemma Le32RoundTrip(t: nat, b: seq<Byte>, i: nat)
    requires t < 0x1_0000_0000 && i + 4 <= |b| && b[i..i + 4] == Le32(t)
    ensures ReadLe32(b, i) == t
  {
    assert b[i] == b[i..i + 4][0] && b[i + 1] == b[i..i + 4][1];
    assert b[i + 2] == b[i..i + 4][2] && b[i + 3] == b[i..i + 4][3];
    assert t / 65536 == t / 256 / 256 && t / 16777216 == t / 65536 / 256;
  }

  /** ROUND(x, sizeof(uint32_t)). */
  function Round4(x: nat): nat { UpTo(x, 4) }

  predicate EntryValid(e: Entry) { 0 < e.kind < 0x1_0000_0000 && NoNul(e.name) }

  /** Bytes behind the name that fill its last word. */
  function Pad(name: Text): nat { Round4(|name| + 1) - (|name| + 1) }

  function EncodeEntry(e: Entry): (b: seq<Byte>)
    requires EntryValid(e)
    ensures |b| == 4 + Round4(|e.name| + 1)
  {
    Le32(e.kind) + e.name + [0] + Zeros(Pad(e.name))
  }

  ghost predicate AllValid(es: seq<Entry>) { forall k :: 0 <= k < |es| ==> EntryValid(es[k]) }

  ghost function EncodeAll(es: seq<Entry>): seq<Byte>
    requires AllValid(es)
  {
    if es == [] then [] else EncodeAll(es[..|es| - 1]) + EncodeEntry(es[|es| - 1])
  }

  lemma EncodeLast(es: seq<Entry>, e: Entry)
    requires AllValid(es) && EntryValid(e)
    ensures AllValid(es + [e]) && EncodeAll(es + [e]) == EncodeAll(es) + EncodeEntry(e)
  {
    hide EncodeEntry, EntryValid, Round4;
    assert (es + [e])[..|es|] == es;
  }

  lemma {:induction false} EncodeConcat(a: seq<Entry>, b: seq<Entry>)
    requires AllValid(a) && AllValid(b)
    ensures AllValid(a + b) && EncodeAll(a + b) == EncodeAll(a) + EncodeAll(b)
  {
    hide EncodeEntry, EntryValid;
    if b == [] {
      assert a + b == a;
    } else {
      hide EncodeAll, AllValid, Round4;
      var c, e := b[..|b| - 1], b[|b| - 1];
      LastValid(b);
      EncodeConcat(a, c);
      EncodeLast(c, e);
      EncodeLast(a + c, e);
      assert b == c + [e] && a + b == (a + c) + [e];
      Regroup(EncodeAll(a), EncodeAll(c), EncodeEntry(e));
    }
  }

  lemma LastValid(es: seq<Entry>)
    requires AllValid(es) && es != []
    ensures AllValid(es[..|es| - 1]) && EntryValid(es[|es| - 1])
  {
    hide EntryValid;
  }

  lemma EncodeAt(es: seq<Entry>, k: nat)
    requires AllValid(es) && k < |es|
    ensures EncodeAll(es) == EncodeAll(es[..k]) + EncodeEntry(es[k]) + EncodeAll(es[k + 1..])
    ensures EncodeAll(es[..k + 1]) == EncodeAll(es[..k]) + EncodeEntry(es[k])
  {
    hide EncodeEntry, EntryValid, Round4, EncodeAll;
    assert es[..k + 1] == es[..k] + [es[k]];
    EncodeLast(es[..k], es[k]);
    assert es == es[..k + 1] + es[k + 1..];
    EncodeConcat(es[..k + 1], es[k + 1..]);
  }

  lemma {:induction false} WordAligned(es: seq<Entry>)
    requires AllValid(es)
    ensures |EncodeAll(es)| % 4 == 0
  {
    hide EncodeEntry, EntryValid, Round4;
    if es != [] {
      WordAligned(es[..|es| - 1]);
      Round4Aligned(|es[|es| - 1].name| + 1);
    }
  }

  lemma Round4Aligned(x: nat)
    ensures Round4(x) % 4 == 0 && x <= Round4(x) < x + 4
  {
  }

  ghost predicate Distinct(es: seq<Entry>) {
    forall i, j :: 0 <= i < j < |es| ==> es[i].kind != es[j].kind
  }

  /** The entries, packed, and nothing but zeros behind them, at least one word. */
  ghost predicate Packs(data: seq<Byte>, es: seq<Entry>) {
    && AllValid(es) && Distinct(es)
    && |EncodeAll(es)| + 4 <= |data| && data == EncodeAll(es) + Zeros(|data| - |EncodeAll(es)|)
  }

  ghost function OffsetOf(es: seq<Entry>, k: nat): nat
    requires AllValid(es) && k <= |es|
  {
    |EncodeAll(es[..k])|
  }

  /** The entry of a type, or the number of entries. */
  function Find(es: seq<Entry>, t: nat): (k: nat)
    ensures k <= |es| && (k < |es| ==> es[k].kind == t)
    ensures forall j :: 0 <= j < k ==> es[j].kind != t
  {
    if es == [] then 0 else if es[0].kind == t then 0 else 1 + Find(es[1..], t)
  }

  /** The map the section stands for. */
  function AsMap(es: seq<Entry>): map<nat, Text> {
    if es == [] then map[] else AsMap(es[..|es| - 1])[es[|es| - 1].kind := es[|es| - 1].name]
  }

  function Without(es: seq<Entry>, t: nat): seq<Entry> {
    var k := Find(es, t);
    if k < |es| then es[..k] + es[k + 1..] else es
  }

  lemma {:induction false} MapHas(es: seq<Entry>, t: nat)
    requires Distinct(es)
    ensures t in AsMap(es) <==> Find(es, t) < |es|
    ensures Find(es, t) < |es| ==> AsMap(es)[t] == es[Find(es, t)].name
  {
    if es != [] {
      MapHas(es[..|es| - 1], t);
    }
  }

  lemma WithoutDistinct(es: seq<Entry>, t: nat)
    requires Distinct(es)
    ensures Distinct(Without(es, t)) && Find(Without(es, t), t) == |Without(es, t)|
  {
    var k, w := Find(es, t), Without(es, t);
    if k < |es| {
      assert forall j :: 0 <= j < |w| ==> w[j] == es[if j < k then j else j + 1];
    }
  }

  /** The other types are found as before. */
  lemma WithoutFinds(es: seq<Entry>, t: nat, u: nat)
    requires Distinct(es) && u != t
    ensures var w := Without(es, t);
            && (Find(w, u) < |w| <==> Find(es, u) < |es|)
            && (Find(es, u) < |es| ==> w[Find(w, u)] == es[Find(es, u)])
  {
    var k, w := Find(es, t), Without(es, t);
    if k < |es| {
      var a, b := Find(es, u), Find(w, u);
      if a < |es| {
        assert w[if a < k then a else a - 1] == es[a];
      }
      if b < |w| {
        assert es[if b < k then b else b + 1] == w[b];
      }
    }
  }

  /** Taking the entry out takes the type out of the map. */
  lemma WithoutMap(es: seq<Entry>, t: nat)
    requires Distinct(es)
    ensures AsMap(Without(es, t)) == AsMap(es) - {t}
  {
    hide AsMap, Without, Find;
    WithoutDistinct(es, t);
    var w := Without(es, t);
    MapHas(w, t);
    forall u: nat | u != t
      ensures u in AsMap(w) <==> u in AsMap(es)
      ensures u in AsMap(w) ==> AsMap(w)[u] == AsMap(es)[u]
    {
      MapHas(es, u);
      MapHas(w, u);
      WithoutFinds(es, t, u);
    }
  }

  /** What lies at the offset of entry k. */
  lemma EntryAt(data: seq<Byte>, es: seq<Entry>, k: nat)
    requires Packs(data, es) && k < |es|
    ensures var off, e := OffsetOf(es, k), es[k];
            && off + 4 <= |data| && ReadLe32(data, off) == e.kind != CS_NONE
            && TextAt(data, off + 4, e.name)
            && OffsetOf(es, k + 1) == off + 4 + Round4(|e.name| + 1) == Round4(off + 4 + |e.name| + 1)
            && OffsetOf(es, k + 1) + 4 <= |data|
  {
    hide EncodeEntry, EncodeAll, EntryValid, Round4;
    var off, e := OffsetOf(es, k), es[k];
    EncodeAt(es, k);
    var a, b, c, z := EncodeAll(es[..k]), EncodeEntry(e), EncodeAll(es[k + 1..]), Zeros(|data| - |EncodeAll(es)|);
    assert data == a + b + (c + z);
    AtEntry(data, a, e, c + z);
    WordAligned(es[..k]);
    RoundFrom(off + 4, |e.name| + 1);
    assert EntryValid(e);
    KindSet(e);
  }

  lemma KindSet(e: Entry)
    requires EntryValid(e)
    ensures e.kind != CS_NONE
  {
  }

  lemma RoundFrom(x: nat, y: nat)
    requires x % 4 == 0
    ensures Round4(x + y) == x + Round4(y)
  {
  }

  lemma AtEntry(data: seq<Byte>, a: seq<Byte>, e: Entry, c: seq<Byte>)
    requires EntryValid(e) && data == a + EncodeEntry(e) + c
    ensures ReadLe32(data, |a|) == e.kind && TextAt(data, |a| + 4, e.name)
  {
    var b := Le32(e.kind);
    assert data[|a|..|a| + 4] == b;
    Le32RoundTrip(e.kind, data, |a|);
    assert data[|a| + 4..|a| + 4 + |e.name|] == e.name;
    assert data[|a| + 4 + |e.name|] == 0;
  }

  lemma EndAt(data: seq<Byte>, es: seq<Entry>)
    requires Packs(data, es)
    ensures OffsetOf(es, |es|) == |EncodeAll(es)| && |EncodeAll(es)| % 4 == 0
    ensures |EncodeAll(es)| + 4 <= |data| && ReadLe32(data, |EncodeAll(es)|) == CS_NONE
  {
    assert es[..|es|] == es;
    WordAligned(es);
  }

  class Table {
    var data: seq<Byte>   // lsp.typed_strings

    constructor ()
      ensures Packs(data, [])
    {
      data := Zeros(8);
    }

    /** find_typed_string. */
    method FindTyped(t: nat, ghost es: seq<Entry>) returns (r: int)
      requires Packs(data, es) && t < 0x1_0000_0000
      ensures r == if t == CS_NONE || Find(es, t) < |es| then OffsetOf(es, Find(es, t)) else -1
    {
      hide EncodeAll, Find, Packs, Round4, OffsetOf;
      var i := 0;
      ghost var k := 0;
      StartsAtZero(data, es);
      while true
        invariant AllValid(es) && 0 <= k <= |es| && i == OffsetOf(es, k) && i + 4 <= |data|
        invariant forall j :: 0 <= j < k ==> es[j].kind != t
        decreases |es| - k
      {
        if k < |es| {
          EntryAt(data, es, k);
        } else {
          EndAt(data, es);
        }
        var kind := ReadLe32(data, i);
        if kind == t {
          FoundHere(es, t, k);
          return i;
        }
        if kind == CS_NONE {
          FoundHere(es, t, k);
          return -1;
        }
        i := i + 4;
        var n := StrLen(data, i, es[k].name);
        i := i + (n + 1);
        i := Round4(i);
        k := k + 1;
      }
    }

    /** The first loop of del_typed_string: the bytes [j0, end) move down to i0. */
    method MoveDown(i0: nat, j0: nat, end: nat)
      requires i0 <= j0 <= end <= |data|
      modifies this
      ensures |data| == |old(data)|
      ensures forall x :: i0 <= x < end - (j0 - i0) ==> data[x] == old(data)[x + (j0 - i0)]
      ensures forall x :: 0 <= x < i0 || end <= x < |data| ==> data[x] == old(data)[x]
    {
      var i, j := i0, j0;
      ghost var was, d := data, j0 - i0;
      while j < end
        invariant j0 <= j <= end && i == j - d && |data| == |was|
        invariant forall x :: i0 <= x < i ==> data[x] == was[x + d]
        invariant forall x :: 0 <= x < i0 || i <= x < |was| ==> data[x] == was[x]
      {
        data := data[i := data[j]];
        i, j := i + 1, j + 1;
      }
    }

    /** The second: zeros fill up. */
    method ZeroFill(i0: nat, end: nat)
      requires i0 <= end <= |data|
      modifies this
      ensures |data| == |old(data)|
      ensures forall x :: 0 <= x < |data| ==> data[x] == if i0 <= x < end then 0 else old(data)[x]
    {
      var i := i0;
      ghost var was := data;
      while i < end
        invariant i0 <= i <= end && |data| == |was|
        invariant forall x :: 0 <= x < |data| ==> data[x] == if i0 <= x < i then 0 else was[x]
      {
        data := data[i := 0];
        i := i + 1;
      }
    }

    /** The loops of del_typed_string. */
    method CloseGap(i: nat, j: nat, end: nat)
      requires i <= j <= end <= |data|
      modifies this
      ensures data == old(data)[..i] + old(data)[j..end] + Zeros(j - i) + old(data)[end..]
    {
      MoveDown(i, j, end);
      ZeroFill(end - (j - i), end);
      Closed(old(data), data, i, j, end);
    }

    /** del_typed_string. */
    method Del(t: nat, ghost es: seq<Entry>) returns (r: bool)
      requires Packs(data, es) && CS_NONE < t < 0x1_0000_0000
      modifies this
      ensures Packs(data, Without(es, t)) && r == (Find(es, t) < |es|)
      ensures !r ==> data == old(data)
      ensures |data| == |old(data)|
    {
      hide EncodeAll, Find, Packs, Round4, OffsetOf, Without, Distinct, ReadLe32;
      var i := FindTyped(t, es);
      StartsAtZero(data, es);
      NothingToDo(es, t);
      if i < 0 {
        return false;
      }
      ghost var k := Find(es, t);
      EntryAt(data, es, k);
      EndAt(data, es);
      var j := i + 4;
      var n := StrLen(data, j, es[k].name);
      j := Round4(j + (n + 1));
      var end := FindTyped(CS_NONE, es);
      NoneLast(es);
      OffsetBelowEnd(es, k + 1);
      CloseGap(i, j, end);
      GapClosed(old(data), data, es, t);
      r := true;
    }

    /** The type word and strlcpy, where the string fits. */
    method Put(at: nat, t: nat, name: Text)
      requires at + 4 + |name| + 1 <= |data| && t < 0x1_0000_0000
      modifies this
      ensures data == old(data)[..at] + (Le32(t) + name + [0]) + old(data)[at + 4 + |name| + 1..]
      ensures |data| == |old(data)|
    {
      var b := Le32(t);
      var k := 0;
      ghost var was := data;
      data := data[at := b[0]][at + 1 := b[1]][at + 2 := b[2]][at + 3 := b[3]];
      while k < |name|
        invariant 0 <= k <= |name| && |data| == |was|
        invariant data[at..at + 4] == b
        invariant forall x :: at + 4 <= x < at + 4 + k ==> data[x] == name[x - at - 4]
        invariant forall x :: 0 <= x < at || at + 4 + k <= x < |was| ==> data[x] == was[x]
      {
        data := data[at + 4 + k := name[k]];
        k := k + 1;
      }
      data := data[at + 4 + k := 0];
      PutIs(was, data, at, b, name);
    }

    /** add_typed_string. */
    method Add(t: nat, name: Text, ghost es: seq<Entry>) returns (off: nat)
      requires Packs(data, es) && CS_NONE < t < 0x1_0000_0000 && NoNul(name)
      modifies this
      ensures Packs(data, Without(es, t) + [Entry(t, name)])
      ensures off == OffsetOf(Without(es, t) + [Entry(t, name)], |Without(es, t)|)
      ensures AsMap(Without(es, t) + [Entry(t, name)]) == AsMap(es)[t := name]
      // the section grows only where the entry and the end do not fit, by whole words of eight bytes
      ensures var was, need := |old(data)|, off + 8 + |name| + 1;
              if |data| == was then need <= was else need <= |data| < need + 11 && (|data| - was) % 8 == 0
    {
      hide Round8;
      hide EncodeAll, Find, Packs, OffsetOf, Without, Le32, AsMap;
      var r := Del(t, es);
      ghost var rest := Without(es, t);
      StartsAtZero(data, rest);
      var i := FindTyped(CS_NONE, rest);
      NoneLast(rest);
      EndAt(data, rest);
      off := i;
      var len := Round4(|name| + 1);
      Round4Aligned(|name| + 1);
      var need := len + 8;
      var spare := |data| - off;
      if spare < need {
        GrowPacks(data, rest, Round8(need - spare));
        Round8Exactly(need - spare, Round8(need - spare));
        data := data + Zeros(Round8(need - spare));
      }
      ghost var data1 := data;
      Put(off, t, name);
      StartsAtZero(old(data), es);
      WithoutDistinct(es, t);
      AddedPacks(data1, rest, t, name, data);
      AddedMap(es, t, name);
      AddedOffset(rest, Entry(t, name));
    }
  }

  /** What find_typed_string finds is the string the map has for the type, if it has one. */
  lemma Lookup(data: seq<Byte>, es: seq<Entry>, t: nat)
    requires Packs(data, es)
    ensures t in AsMap(es) <==> Find(es, t) < |es|
    ensures t in AsMap(es) ==> TextAt(data, OffsetOf(es, Find(es, t)) + 4, AsMap(es)[t])
  {
    MapHas(es, t);
    if Find(es, t) < |es| {
      EntryAt(data, es, Find(es, t));
    }
  }

  lemma NothingToDo(es: seq<Entry>, t: nat)
    ensures Find(es, t) == |es| ==> Without(es, t) == es
  {
  }

  lemma NoneLast(es: seq<Entry>)
    requires AllValid(es)
    ensures Find(es, CS_NONE) == |es|
  {
  }

  lemma OffsetBelowEnd(es: seq<Entry>, k: nat)
    requires AllValid(es) && k <= |es|
    ensures OffsetOf(es, k) <= |EncodeAll(es)|
  {
    hide EncodeEntry, Round4;
    if k < |es| {
      EncodeAt(es, k);
    } else {
      assert es[..k] == es;
    }
  }

  /** Without the bytes of its entry, the data packs the other entries. */
  lemma GapClosed(was: seq<Byte>, data: seq<Byte>, es: seq<Entry>, t: nat)
    requires Packs(was, es) && Find(es, t) < |es|
    requires var k, end := Find(es, t), |EncodeAll(es)|;
             var i, j := OffsetOf(es, k), OffsetOf(es, k + 1);
             i <= j <= end && data == was[..i] + was[j..end] + Zeros(j - i) + was[end..]
    ensures Packs(data, Without(es, t))
  {
    hide EncodeEntry, EncodeAll, Round4, Find, EntryValid;
    var k := Find(es, t);
    EncodeAt(es, k);
    EncodeConcat(es[..k], es[k + 1..]);
    WithoutDistinct(es, t);
    GapBytes(was, data, EncodeAll(es[..k]), EncodeEntry(es[k]), EncodeAll(es[k + 1..]), |was| - |EncodeAll(es)|);
  }

  lemma GapBytes(was: seq<Byte>, data: seq<Byte>, a: seq<Byte>, b: seq<Byte>, c: seq<Byte>, n: nat)
    requires was == a + b + c + Zeros(n)
    requires var i, j, end := |a|, |a| + |b|, |a| + |b| + |c|;
             data == was[..i] + was[j..end] + Zeros(j - i) + was[end..]
    ensures data == (a + c) + Zeros(|b| + n)
  {
    var i, j, end := |a|, |a| + |b|, |a| + |b| + |c|;
    assert was[..i] == a && was[j..end] == c && was[end..] == Zeros(n);
  }

  lemma Closed(was: seq<Byte>, data: seq<Byte>, i: nat, j: nat, end: nat)
    requires i <= j <= end <= |was| == |data|
    requires forall x :: i <= x < end - (j - i) ==> data[x] == was[x + (j - i)]
    requires forall x :: end - (j - i) <= x < end ==> data[x] == 0
    requires forall x :: 0 <= x < i || end <= x < |was| ==> data[x] == was[x]
    ensures data == was[..i] + was[j..end] + Zeros(j - i) + was[end..]
  {
    var k := end - (j - i);
    assert data[..i] == was[..i] && data[end..] == was[end..];
    assert data[i..k] == was[j..end] && data[k..end] == Zeros(j - i);
    assert data == data[..i] + data[i..k] + data[k..end] + data[end..];
  }

  lemma PutIs(was: seq<Byte>, data: seq<Byte>, at: nat, b: seq<Byte>, name: Text)
    requires |b| == 4 && at + 4 + |name| + 1 <= |was| == |data|
    requires data[at..at + 4] == b && data[at + 4 + |name|] == 0
    requires forall x :: at + 4 <= x < at + 4 + |name| ==> data[x] == name[x - at - 4]
    requires forall x :: 0 <= x < at || at + 4 + |name| + 1 <= x < |was| ==> data[x] == was[x]
    ensures data == was[..at] + (b + name + [0]) + was[at + 4 + |name| + 1..]
  {
    assert data[at + 4..at + 4 + |name|] == name;
    assert data == data[..at] + data[at..at + 4] + data[at + 4..at + 4 + |name|] + [0] + data[at + 4 + |name| + 1..];
  }

  lemma GrowPacks(data: seq<Byte>, es: seq<Entry>, add: nat)
    requires Packs(data, es)
    ensures Packs(data + Zeros(add), es)
  {
    hide EncodeAll;
    assert data + Zeros(add) == EncodeAll(es) + Zeros(|data| + add - |EncodeAll(es)|);
  }

  /** A new entry behind the others; its padding is already there. */
  lemma AddedPacks(data: seq<Byte>, es: seq<Entry>, t: nat, name: Text, data': seq<Byte>)
    requires Packs(data, es) && CS_NONE < t < 0x1_0000_0000 && NoNul(name) && Find(es, t) == |es|
    requires var n := |EncodeAll(es)|;
             && n + Round4(|name| + 1) + 8 <= |data|
             && data' == data[..n] + (Le32(t) + name + [0]) + data[n + 4 + |name| + 1..]
    ensures Packs(data', es + [Entry(t, name)])
  {
    hide EncodeAll, Find, Le32;
    var e, n := Entry(t, name), |EncodeAll(es)|;
    EncodeLast(es, e);
    Round4Aligned(|name| + 1);
    var z := Zeros(|data| - n - 4 - Round4(|name| + 1));
    assert data[..n] == EncodeAll(es);
    assert data[n + 4 + |name| + 1..] == Zeros(Pad(name)) + z;
    assert data' == EncodeAll(es) + EncodeEntry(e) + z;
    assert Distinct(es + [e]) by { NewDistinct(es, e); }
  }

  lemma NewDistinct(es: seq<Entry>, e: Entry)
    requires Distinct(es) && Find(es, e.kind) == |es|
    ensures Distinct(es + [e])
  {
  }

  lemma AddedMap(es: seq<Entry>, t: nat, name: Text)
    requires Distinct(es)
    ensures AsMap(Without(es, t) + [Entry(t, name)]) == AsMap(es)[t := name]
  {
    hide Without;
    WithoutMap(es, t);
    var w := Without(es, t);
    assert (w + [Entry(t, name)])[..|w|] == w;
    assert AsMap(w)[t := name] == AsMap(es)[t := name];
  }

  lemma AddedOffset(es: seq<Entry>, e: Entry)
    requires AllValid(es) && EntryValid(e)
    ensures AllValid(es + [e]) && OffsetOf(es + [e], |es|) == |EncodeAll(es)|
  {
    assert (es + [e])[..|es|] == es;
  }

  lemma StartsAtZero(data: seq<Byte>, es: seq<Entry>)
    requires Packs(data, es)
    ensures AllValid(es) && Distinct(es) && OffsetOf(es, 0) == 0 && 4 <= |data|
  {
  }

  /** The scan stopped at the first entry of its type, or behind the last. */
  lemma FoundHere(es: seq<Entry>, t: nat, k: nat)
    requires AllValid(es) && k <= |es| && forall j :: 0 <= j < k ==> es[j].kind != t
    requires k < |es| ==> es[k].kind == t
    ensures Find(es, t) == k
  {
  }
}
