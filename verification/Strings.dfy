/** strings.c, the string section: add_string keeps one copy of every name. The section's bytes are
    those of the section in ArenaRuns: growing it puts zeros behind them. */
module Strings {
  import opened Bits
  import opened Texts
  import opened Arena

  ghost predicate Distinct(names: seq<Text>) {
    forall i, j :: 0 <= i < j < |names| ==> names[i] != names[j]
  }

  ghost predicate NonEmpty(names: seq<Text>) { forall k :: 0 <= k < |names| ==> names[k] != [] }

  /** The names, packed, and nothing but zeros behind them, at least one. */
  ghost predicate Lists(data: seq<Byte>, names: seq<Text>) {
    && AllTexts(names) && NonEmpty(names) && Distinct(names)
    && |Encode(names)| < |data| && data == Encode(names) + Zeros(|data| - |Encode(names)|)
  }

  /** Where name k begins. */
  function OffsetOf(names: seq<Text>, k: nat): nat
    requires k <= |names|
  {
    |Encode(names[..k])|
  }

  /** The position of a name, or the length. */
  function Find(names: seq<Text>, name: Text): (k: nat)
    ensures k <= |names| && (k < |names| ==> names[k] == name)
    ensures forall j :: 0 <= j < k ==> names[j] != name
  {
    if names == [] then 0 else if names[0] == name then 0 else 1 + Find(names[1..], name)
  }

  /** The names after add_string. */
  function Added(names: seq<Text>, name: Text): seq<Text> {
    if name in names || name == [] then names else names + [name]
  }

  /** __hwi_find_string: what lies at the offset of a name is that name. */
  lemma ReadBack(data: seq<Byte>, names: seq<Text>, k: nat)
    requires Lists(data, names) && k < |names|
    ensures TextAt(data, OffsetOf(names, k), names[k])
    ensures OffsetOf(names, k + 1) == OffsetOf(names, k) + |names[k]| + 1
  {
    var z := Zeros(|data| - |Encode(names)|);
    assert data[0..0 + |Encode(names)| + |z|] == data;
    TextInPlace(data, 0, names, z, k);
  }

  lemma EndOfNames(data: seq<Byte>, names: seq<Text>)
    requires Lists(data, names)
    ensures OffsetOf(names, |names|) == |Encode(names)| && data[|Encode(names)|] == 0
  {
    assert names[..|names|] == names;
  }

  /** A new name behind the others. */
  lemma AppendHolds(data: seq<Byte>, names: seq<Text>, name: Text, data': seq<Byte>)
    requires Lists(data, names) && NoNul(name) && name != [] && name !in names
    requires var n := |Encode(names)|;
             && n + |name| + 2 <= |data| == |data'|
             && data' == data[..n] + name + [0] + data[n + |name| + 1..]
    ensures Lists(data', names + [name])
  {
    hide Encode;
    var n := |Encode(names)|;
    EncodeConcat(names, [name]);
    EncodeOne(name);
    assert data[..n] == Encode(names);
    assert data[n + |name| + 1..] == Zeros(|data| - n - |name| - 1);
  }

  lemma GrowHolds(data: seq<Byte>, names: seq<Text>, add: nat)
    requires Lists(data, names)
    ensures Lists(data + Zeros(add), names)
  {
    hide Encode;
    assert data + Zeros(add) == Encode(names) + Zeros(|data| + add - |Encode(names)|);
  }

  class Table {
    var data: seq<Byte>   // lsp.strings

    constructor ()
      ensures Lists(data, [])
    {
      data := Zeros(8);
    }

    /** grow_syspage_section on this section. */
    method Grow(add: nat)
      modifies this
      ensures data == old(data) + Zeros(Round8(add))
    {
      data := data + Zeros(Round8(add));
    }

    /** strlcpy, where the string fits. */
    method Put(at: nat, name: Text)
      requires at + |name| + 1 <= |data|
      modifies this
      ensures data == old(data)[..at] + name + [0] + old(data)[at + |name| + 1..]
    {
      var k := 0;
      ghost var rest := data[at + |name| + 1..];
      while k < |name|
        invariant 0 <= k <= |name| && |data| == |old(data)|
        invariant data[..at + k] == old(data)[..at] + name[..k]
        invariant data[at + |name| + 1..] == rest
      {
        data := data[at + k := name[k]];
        k := k + 1;
      }
      data := data[at + k := 0];
      assert data == data[..at + k] + [0] + data[at + k + 1..];
    }

    /** add_string. */
    method AddString(name: Text, ghost names: seq<Text>) returns (off: nat)
      requires Lists(data, names) && NoNul(name)
      modifies this
      ensures Lists(data, Added(names, name))
      ensures off == OffsetOf(names, Find(names, name))
      ensures name in names ==> data == old(data)
      // the section grows only where the name does not fit, by whole chunks of 128 bytes
      ensures name !in names ==>
                var need, was := off + |name| + 2, |old(data)|;
                if need <= was then |data| == was else need <= |data| < need + 128 && (|data| - was) % 128 == 0
    {
      hide Encode, Find, Round8, Round128;
      var i := 0;
      ghost var k := 0;
      NoTexts(names);
      EndOfNames(data, names);
      while data[i] != 0
        invariant 0 <= k <= |names| && i == OffsetOf(names, k) && i < |data| && data == old(data)
        invariant forall j :: 0 <= j < k ==> names[j] != name
        decreases |names| - k
      {
        ReadBack(data, names, k);
        var eq := StrEqual(data, i, name, names[k]);
        if eq {
          return i;
        }
        var n := StrLen(data, i, names[k]);
        i := i + (n + 1);
        k := k + 1;
        NextInside(data, names, k);
      }
      NotAtName(data, names, k);
      var len := |name| + 2;
      var spare := |data| - i;
      if len > spare {
        GrowHolds(data, names, Round8(Round128(len - spare)));
        Chunks(len - spare);
        Grow(Round128(len - spare));
      }
      ghost var data1 := data;
      Put(i, name);
      if name == [] {
        EmptyName(data1, data, i, names);
      } else {
        AppendHolds(data1, names, name, data);
      }
      off := i;
    }
  }

  /** ROUND(x, 128). */
  function Round128(x: nat): nat { UpTo(x, 128) }

  lemma Chunks(x: nat)
    ensures var n := Round8(Round128(x)); x <= n < x + 128 && n % 128 == 0
  {
    var q := (x + 127) / 128;
    DivMod(x + 127, 128);
    DivModUnique(128 * q, 128, q, 0);
    DivModUnique(128 * q, 8, 16 * q, 0);
    Round8Exactly(128 * q, 128 * q);
  }

  lemma NextInside(data: seq<Byte>, names: seq<Text>, k: nat)
    requires Lists(data, names) && k <= |names|
    ensures OffsetOf(names, k) <= |Encode(names)| < |data|
  {
    hide Encode;
    if k < |names| {
      EncodeAt(names, k);
    } else {
      assert names[..k] == names;
    }
  }

  /** A zero where a name would begin is the end of the names. */
  lemma NotAtName(data: seq<Byte>, names: seq<Text>, k: nat)
    requires Lists(data, names) && k <= |names| && OffsetOf(names, k) < |data| && data[OffsetOf(names, k)] == 0
    ensures k == |names|
  {
    if k < |names| {
      NameByte(data, names, k);
    }
  }

  lemma NameByte(data: seq<Byte>, names: seq<Text>, k: nat)
    requires Lists(data, names) && k < |names|
    ensures OffsetOf(names, k) < |data| && data[OffsetOf(names, k)] != 0
  {
    ReadBack(data, names, k);
    TextBytes(data, OffsetOf(names, k), names[k]);
    assert data[OffsetOf(names, k) + 0] == names[k][0];
  }

  lemma EmptyName(data: seq<Byte>, data': seq<Byte>, i: nat, names: seq<Text>)
    requires Lists(data, names) && i == |Encode(names)| && i + 1 <= |data|
    requires data' == data[..i] + [] + [0] + data[i + 1..]
    ensures data' == data
  {
  }

  // ---- interning ----

  /** The names after a run of add_string. */
  function AddedAll(names: seq<Text>, adds: seq<Text>): seq<Text> {
    if adds == [] then names else Added(AddedAll(names, adds[..|adds| - 1]), adds[|adds| - 1])
  }

  /** What the calls of the run returned. */
  function Returned(names: seq<Text>, adds: seq<Text>): (offs: seq<nat>)
    ensures |offs| == |adds|
  {
    if adds == [] then []
    else
      var now, name := AddedAll(names, adds[..|adds| - 1]), adds[|adds| - 1];
      Returned(names, adds[..|adds| - 1]) + [OffsetOf(now, Find(now, name))]
  }

  lemma FindAfter(names: seq<Text>, name: Text, x: Text)
    requires x in names || (x == name && x != [])
    ensures x in Added(names, name)
    ensures Find(Added(names, name), x) == Find(names, x)
    ensures OffsetOf(Added(names, name), Find(names, x)) == OffsetOf(names, Find(names, x))
  {
    var k, now := Find(names, x), Added(names, name);
    var l := Find(now, x);
    if now != names {
      assert now[..|names|] == names;
      assert now[|names|] == name;
    }
    assert k < |names| ==> now[k] == names[k];
    assert now[..k] == names[..k];
  }

  /** Every offset returned is still that of its name at the end of the run. */
  lemma {:induction false} ReturnedStays(names: seq<Text>, adds: seq<Text>, i: nat)
    requires i < |adds| && adds[i] != []
    ensures var all := AddedAll(names, adds);
            adds[i] in all && Returned(names, adds)[i] == OffsetOf(all, Find(all, adds[i]))
  {
    hide Find, OffsetOf;
    var front, name := adds[..|adds| - 1], adds[|adds| - 1];
    var now := AddedAll(names, front);
    if i < |front| {
      ReturnedStays(names, front, i);
    }
    FindAfter(now, name, adds[i]);
  }

  lemma {:induction false} OffsetsGrow(names: seq<Text>, i: nat, j: nat)
    requires i < j <= |names|
    ensures OffsetOf(names, i) < OffsetOf(names, j)
  {
    EncodeAt(names, j - 1);
    if i < j - 1 {
      OffsetsGrow(names, i, j - 1);
    }
  }

  /** Over any run, for nonempty names: equal names got equal offsets, different names different
      ones. */
  lemma Interned(names: seq<Text>, adds: seq<Text>, i: nat, j: nat)
    requires i < |adds| && j < |adds| && adds[i] != [] && adds[j] != []
    ensures Returned(names, adds)[i] == Returned(names, adds)[j] <==> adds[i] == adds[j]
  {
    var all := AddedAll(names, adds);
    ReturnedStays(names, adds, i);
    ReturnedStays(names, adds, j);
    var a, b := Find(all, adds[i]), Find(all, adds[j]);
    if a < b {
      OffsetsGrow(all, a, b);
    } else if b < a {
      OffsetsGrow(all, b, a);
    }
  }

  /** ...and at the end every offset still reads back as its name. */
  lemma InternedReadBack(data: seq<Byte>, names: seq<Text>, adds: seq<Text>, i: nat)
    requires i < |adds| && adds[i] != [] && Lists(data, AddedAll(names, adds))
    ensures TextAt(data, Returned(names, adds)[i], adds[i])
  {
    var all := AddedAll(names, adds);
    ReturnedStays(names, adds, i);
    ReadBack(data, all, Find(all, adds[i]));
  }

  /** The call at j finds a name that is neither empty nor known. */
  ghost predicate NewAt(names: seq<Text>, adds: seq<Text>, j: nat)
    requires j < |adds|
  {
    adds[j] != [] && adds[j] !in AddedAll(names, adds[..j])
  }

  /** No empty name is followed by a new one. */
  ghost predicate EmptyLast(names: seq<Text>, adds: seq<Text>) {
    forall i, j :: 0 <= i < j < |adds| && adds[i] == [] ==> !NewAt(names, adds, j)
  }

  /** Offsets agree exactly where the names do. */
  ghost predicate AllInterned(names: seq<Text>, adds: seq<Text>) {
    forall i, j :: 0 <= i < |adds| && 0 <= j < |adds| ==>
      (Returned(names, adds)[i] == Returned(names, adds)[j] <==> adds[i] == adds[j])
  }

  lemma {:induction false} ReturnedAt(names: seq<Text>, adds: seq<Text>, i: nat)
    requires i < |adds|
    ensures var now := AddedAll(names, adds[..i]); Returned(names, adds)[i] == OffsetOf(now, Find(now, adds[i]))
  {
    hide Find, OffsetOf;
    var front := adds[..|adds| - 1];
    if i < |front| {
      ReturnedAt(names, front, i);
      assert front[..i] == adds[..i];
    }
  }

  lemma {:induction false} NothingNew(names: seq<Text>, adds: seq<Text>, i: nat, m: nat)
    requires i <= m <= |adds| && forall j :: i <= j < m ==> !NewAt(names, adds, j)
    ensures AddedAll(names, adds[..m]) == AddedAll(names, adds[..i])
  {
    if i < m {
      NothingNew(names, adds, i, m - 1);
      assert adds[..m][..m - 1] == adds[..m - 1];
      assert !NewAt(names, adds, m - 1);
    }
  }

  lemma {:induction false} StaysNonEmpty(names: seq<Text>, adds: seq<Text>)
    requires NonEmpty(names)
    ensures NonEmpty(AddedAll(names, adds))
  {
    if adds != [] {
      StaysNonEmpty(names, adds[..|adds| - 1]);
    }
  }

  lemma FindNone(names: seq<Text>, name: Text)
    requires name !in names
    ensures Find(names, name) == |names|
  {
  }

  /** The empty name is given the end of the names known by then. */
  lemma EmptyAtEnd(names: seq<Text>, adds: seq<Text>, i: nat)
    requires NonEmpty(names) && i < |adds| && adds[i] == []
    ensures var now := AddedAll(names, adds[..i]); Returned(names, adds)[i] == OffsetOf(now, |now|)
  {
    var now := AddedAll(names, adds[..i]);
    ReturnedAt(names, adds, i);
    StaysNonEmpty(names, adds[..i]);
    FindNone(now, []);
  }

  /** With no new name behind it, the empty name has an offset of its own. */
  lemma EmptyIsOwn(names: seq<Text>, adds: seq<Text>, i: nat, j: nat)
    requires NonEmpty(names) && EmptyLast(names, adds) && i < |adds| && j < |adds| && adds[i] == []
    ensures Returned(names, adds)[i] == Returned(names, adds)[j] <==> adds[j] == []
  {
    hide OffsetOf, Find;
    var now := AddedAll(names, adds[..i]);
    EmptyAtEnd(names, adds, i);
    if adds[j] == [] {
      EmptyAtEnd(names, adds, j);
      SameNames(names, adds, if i < j then i else j, if i < j then j else i);
    } else {
      if j < i {
        ReturnedPrefix(names, adds, i, j);
        ReturnedStays(names, adds[..i], j);
      } else {
        SameNames(names, adds, i, j);
        assert !NewAt(names, adds, j);
        ReturnedAt(names, adds, j);
      }
      OffsetsGrow(now, Find(now, adds[j]), |now|);
    }
  }

  lemma SameNames(names: seq<Text>, adds: seq<Text>, i: nat, j: nat)
    requires EmptyLast(names, adds) && i <= j < |adds| && adds[i] == []
    ensures AddedAll(names, adds[..i]) == AddedAll(names, adds[..j])
  {
    NothingNew(names, adds, i, j);
  }

  lemma ReturnedPrefix(names: seq<Text>, adds: seq<Text>, i: nat, j: nat)
    requires j < i <= |adds|
    ensures Returned(names, adds[..i])[j] == Returned(names, adds)[j]
  {
    ReturnedAt(names, adds, j);
    ReturnedAt(names, adds[..i], j);
    assert adds[..i][..j] == adds[..j];
  }

  /** The first new name behind an empty one gets the same offset. */
  lemma EmptyNameShared(names: seq<Text>, adds: seq<Text>, i: nat, j: nat)
    requires NonEmpty(names) && i < j < |adds| && adds[i] == [] && NewAt(names, adds, j)
    requires forall m :: i < m < j ==> !NewAt(names, adds, m)
    ensures Returned(names, adds)[i] == Returned(names, adds)[j] && adds[i] != adds[j]
  {
    hide OffsetOf;
    EmptyAtEnd(names, adds, i);
    ReturnedAt(names, adds, j);
    NothingNew(names, adds, i, j);
  }

  lemma {:induction false} FirstNew(names: seq<Text>, adds: seq<Text>, i: nat, j: nat) returns (m: nat)
    requires i < j < |adds| && NewAt(names, adds, j)
    ensures i < m <= j && NewAt(names, adds, m) && forall k :: i < k < m ==> !NewAt(names, adds, k)
    decreases j
  {
    if k :| i < k < j && NewAt(names, adds, k) {
      m := FirstNew(names, adds, i, k);
    } else {
      m := j;
    }
  }

  /** Any run: offsets agree exactly where names do, if and only if no empty name is followed by a
      name that is new at that point. */
  lemma InternedExactly(names: seq<Text>, adds: seq<Text>)
    requires NonEmpty(names)
    ensures AllInterned(names, adds) <==> EmptyLast(names, adds)
  {
    hide NewAt, Returned;
    if EmptyLast(names, adds) {
      forall i, j | 0 <= i < |adds| && 0 <= j < |adds|
        ensures Returned(names, adds)[i] == Returned(names, adds)[j] <==> adds[i] == adds[j]
      {
        if adds[i] == [] {
          EmptyIsOwn(names, adds, i, j);
        } else if adds[j] == [] {
          EmptyIsOwn(names, adds, j, i);
        } else {
          Interned(names, adds, i, j);
        }
      }
    } else {
      var i, j :| 0 <= i < j < |adds| && adds[i] == [] && NewAt(names, adds, j);
      var m := FirstNew(names, adds, i, j);
      EmptyNameShared(names, adds, i, m);
    }
  }

  /** The shortest run that goes wrong. */
  lemma EmptyThenNew(name: Text)
    requires name != []
    ensures Returned([], [[], name]) == [0, 0]
  {
    var adds: seq<Text> := [[], name];
    assert adds[..1] == [[]] && adds[..1][..0] == [];
    assert AddedAll([], adds[..1]) == [];
    assert Returned([], adds[..1]) == [0];
  }
}
