/** bootstrap_cmdline.c: the packed argument and environment strings of a bootstrap executable. */
module BootArgs {
  import opened Bits
  import opened Texts
  import opened Wrappers

  /** What is asked for: None is the NULL pointer. */
  function Edit(list: seq<Text>, was: Option<Text>, new_: Option<Text>): seq<Text> {
    if was.None? then
      if new_.None? then list else list + [new_.value]
    else
      var k := First(list, was.value);
      if k == |list| then list
      else if new_.None? then list[..k] + list[k + 1..]
      else list[k := new_.value]
  }

  /** The first position of s, or the length. */
  function First(list: seq<Text>, s: Text): (k: nat)
    ensures k <= |list| && (k < |list| ==> list[k] == s)
    ensures forall j :: 0 <= j < k ==> list[j] != s
  {
    if list == [] then 0 else if list[0] == s then 0 else 1 + First(list[1..], s)
  }

  /** Adding puts the string behind the others; deleting takes out, and replacing exchanges, the first
      one that is equal to the old string; nothing else moves. */
  lemma EditIs(list: seq<Text>, was: Option<Text>, now: Option<Text>)
    ensures was.None? && now.Some? ==> Edit(list, was, now) == list + [now.value]
    ensures was.Some? && was.value !in list ==> Edit(list, was, now) == list
    ensures was.Some? && was.value in list ==>
              exists k :: 0 <= k < |list| && list[k] == was.value && (forall j :: 0 <= j < k ==> list[j] != was.value)
                && Edit(list, was, now) ==
                   list[..k] + (if now.Some? then [now.value] else []) + list[k + 1..]
  {
    if was.Some? && was.value in list {
      var k := First(list, was.value);
      assert list[k := list[k]] == list;
      if now.Some? {
        assert list[k := now.value] == list[..k] + [now.value] + list[k + 1..];
      } else {
        assert list[..k] + [] + list[k + 1..] == list[..k] + list[k + 1..];
      }
    }
  }

  /** Where an edit happens. */
  function EditPoint(list: seq<Text>, was: Option<Text>): (k: nat)
    ensures k <= |list|
  {
    if was.None? then |list| else First(list, was.value)
  }

  function Insertion(t: Option<Text>): seq<Text> { if t.None? then [] else [t.value] }

  /** An edit takes out n strings, one or none, and puts others there. */
  lemma EditSplices(list: seq<Text>, was: Option<Text>, now: Option<Text>)
    requires was.None? || EditPoint(list, was) < |list|
    ensures var k, n := EditPoint(list, was), if was.None? then 0 else 1;
            Edit(list, was, now) == list[..k] + Insertion(now) + list[k + n..]
  {
    if was.None? {
      assert list[..|list|] == list;
    } else {
      var k := First(list, was.value);
      if now.None? {
        assert Edit(list, was, now) == list[..k] + [] + list[k + 1..];
      } else {
        assert list[k := now.value] == list[..k] + [now.value] + list[k + 1..];
      }
    }
  }

  /** memmove. */
  method Move(buf: array<Byte>, dst: nat, src: nat, len: nat)
    requires dst + len <= buf.Length && src + len <= buf.Length
    modifies buf
    ensures buf[dst..dst + len] == old(buf[src..src + len])
    ensures forall x :: 0 <= x < buf.Length && !(dst <= x < dst + len) ==> buf[x] == old(buf[x])
  {
    if dst <= src {
      var k := 0;
      while k < len
        invariant 0 <= k <= len
        invariant forall x :: dst <= x < dst + k ==> buf[x] == old(buf[src + (x - dst)])
        invariant forall x :: 0 <= x < buf.Length && !(dst <= x < dst + k) ==> buf[x] == old(buf[x])
      {
        buf[dst + k] := buf[src + k];
        k := k + 1;
      }
    } else {
      var k := len;
      while k > 0
        invariant 0 <= k <= len
        invariant forall x :: dst + k <= x < dst + len ==> buf[x] == old(buf[src + (x - dst)])
        invariant forall x :: 0 <= x < buf.Length && !(dst + k <= x < dst + len) ==> buf[x] == old(buf[x])
      {
        k := k - 1;
        buf[dst + k] := buf[src + k];
      }
    }
  }

  /** memcpy of a string with its NUL. */
  method PutText(buf: array<Byte>, at: nat, t: Text)
    requires at + |t| + 1 <= buf.Length
    modifies buf
    ensures buf[at..at + |t| + 1] == t + [0]
    ensures forall x :: 0 <= x < buf.Length && !(at <= x < at + |t| + 1) ==> buf[x] == old(buf[x])
  {
    var k := 0;
    while k < |t|
      invariant 0 <= k <= |t|
      invariant forall x :: at <= x < at + k ==> buf[x] == t[x - at]
      invariant forall x :: 0 <= x < buf.Length && !(at <= x < at + k) ==> buf[x] == old(buf[x])
    {
      buf[at + k] := t[k];
      k := k + 1;
    }
    buf[at + k] := 0;
  }

  function TextBytesOf(t: Option<Text>): seq<Byte> { if t.None? then [] else t.value + [0] }

  /** The memmove and memcpy of do_adjust, for a data area that ends at `end`: sub bytes at p give
      way to the new string. When the data grows, bytes in front of p are moved along, and
      overwritten. */
  method Splice(buf: array<Byte>, p: nat, sub: nat, end: nat, now: Option<Text>) returns (diff: int)
    requires p + sub <= end <= buf.Length
    requires now.Some? ==> |now.value| + 1 <= p && end + |now.value| + 1 <= buf.Length
    modifies buf
    ensures diff == |TextBytesOf(now)| - sub
    ensures buf[p..end + diff] == TextBytesOf(now) + old(buf[p + sub..end])
    ensures forall x :: 0 <= x < buf.Length && !(p <= x < end + diff) ==> buf[x] == old(buf[x])
  {
    var add: nat := if now.None? then 0 else |now.value| + 1;
    diff := add - sub;
    var src: nat := p - diff;
    ghost var was := buf[..];
    Move(buf, p, src, end - src);
    ghost var moved := buf[..];
    if add > 0 {
      PutText(buf, p, now.value);
    }
    Spliced(was, moved, buf[..], p, sub, end, TextBytesOf(now));
  }

  lemma Spliced(was: seq<Byte>, moved: seq<Byte>, b: seq<Byte>, p: nat, sub: nat, end: nat, t: seq<Byte>)
    requires p + sub <= end <= |was| == |moved| == |b| && end + |t| <= |was| && |t| <= p
    requires var src, n := p + sub - |t|, end - p - sub + |t|;
             moved[p..p + n] == was[src..src + n]
    requires b[p..p + |t|] == t && b[p + |t|..] == moved[p + |t|..]
    ensures b[p..end + |t| - sub] == t + was[p + sub..end]
  {
    var src, n := p + sub - |t|, end - p - sub + |t|;
    assert b[p + |t|..p + n] == moved[p..p + n][|t|..] == was[src..src + n][|t|..] == was[p + sub..end];
    assert b[p..p + n] == b[p..p + |t|] + b[p + |t|..p + n];
  }

  /** The strings of both lists after an edit of ss[start..start + num]. */
  function Edited(ss: seq<Text>, start: nat, num: nat, was: Option<Text>, now: Option<Text>): seq<Text>
    requires start + num <= |ss|
  {
    ss[..start] + Edit(ss[start..start + num], was, now) + ss[start + num..]
  }

  lemma EditedIsSplice(ss: seq<Text>, start: nat, num: nat, was: Option<Text>, now: Option<Text>)
    requires start + num <= |ss|
    requires var list := ss[start..start + num]; was.None? || EditPoint(list, was) < num
    ensures var k := start + EditPoint(ss[start..start + num], was);
            var n := if was.None? then 0 else 1;
            k + n <= |ss| && Edited(ss, start, num, was, now) == ss[..k] + Insertion(now) + ss[k + n..]
  {
    hide Edit;
    var list := ss[start..start + num];
    EditSplices(list, was, now);
    Regroup(ss, start, num, EditPoint(list, was), if was.None? then 0 else 1, Insertion(now));
  }

  lemma Regroup(ss: seq<Text>, start: nat, num: nat, k: nat, n: nat, ts: seq<Text>)
    requires start + num <= |ss| && k + n <= num
    ensures var list := ss[start..start + num];
            ss[..start] + (list[..k] + ts + list[k + n..]) + ss[start + num..] ==
                ss[..start + k] + ts + ss[start + k + n..]
  {
    var list := ss[start..start + num];
    assert ss[..start + k] == ss[..start] + list[..k];
    assert ss[start + k + n..] == list[k + n..] + ss[start + num..];
  }

  lemma Slices(a: seq<Byte>, b: seq<Byte>, c: seq<Byte>, rest: seq<Byte>)
    ensures var data := a + b + c + rest; data[..|a|] == a && data[|a| + |b|..] == c + rest
  {
  }

  /** What the splice leaves behind is the edited lists, and the rest. */
  lemma SpliceEdits(ss: seq<Text>, rest: seq<Byte>, start: nat, num: nat, was: Option<Text>, now: Option<Text>)
    requires start + num <= |ss|
    requires var list := ss[start..start + num]; was.None? || EditPoint(list, was) < num
    ensures var k := start + EditPoint(ss[start..start + num], was);
            var n, data := if was.None? then 0 else 1, Encode(ss) + rest;
            var p := |Encode(ss[..k])|;
            && k + n <= |ss|
            && var q := p + |Encode(ss[k..k + n])|;
            && q <= |Encode(ss)|
            && Encode(Edited(ss, start, num, was, now)) + rest == data[..p] + TextBytesOf(now) + data[q..]
  {
    hide Edit, EditPoint, Encode, Edited;
    var k, n := start + EditPoint(ss[start..start + num], was), if was.None? then 0 else 1;
    EditedIsSplice(ss, start, num, was, now);
    EncodeSplice(ss, k, n, Insertion(now));
    InsertionBytes(now);
    Slices(Encode(ss[..k]), Encode(ss[k..k + n]), Encode(ss[k + n..]), rest);
  }

  lemma InsertionBytes(t: Option<Text>)
    ensures Encode(Insertion(t)) == TextBytesOf(t)
  {
    if t.Some? {
      EncodeOne(t.value);
    }
  }

  /** struct bootargs_entry, in memory: args begins at base, hdr bytes behind the start of the
      structure. */
  class Entry {
    const buf: array<Byte>
    const base: nat
    const hdr: nat
    var sizeLo: nat
    var sizeHi: nat
    var argc: int
    var envc: int

    constructor (buf: array<Byte>, base: nat, hdr: nat, sizeLo: nat, sizeHi: nat, argc: int, envc: int)
      ensures this.buf == buf && this.base == base && this.hdr == hdr
      ensures this.sizeLo == sizeLo && this.sizeHi == sizeHi && this.argc == argc && this.envc == envc
    {
      this.buf, this.base, this.hdr := buf, base, hdr;
      this.sizeLo, this.sizeHi, this.argc, this.envc := sizeLo, sizeHi, argc, envc;
    }

    function Total(): nat
      reads this
    {
      sizeLo + 256 * sizeHi
    }

    /** The strings ss are packed at the front of the data, and rest lies behind them. */
    ghost predicate Packed(ss: seq<Text>, rest: seq<Byte>)
      reads this, buf
    {
      && sizeLo < 256 && sizeHi < 256 && AllTexts(ss)
      && Total() == hdr + |Encode(ss) + rest|
      && base + |Encode(ss) + rest| <= buf.Length
      && buf[base..base + |Encode(ss) + rest|] == Encode(ss) + rest
    }

    /** There is memory for a string more on both sides, and the size field can hold it. */
    ghost predicate Room(now: Option<Text>)
      reads this
    {
      now.Some? ==>
        && NoNul(now.value)
        && |now.value| + 1 <= base && base + Total() + |now.value| + 1 <= buf.Length + hdr
        && Total() + |now.value| + 1 < 0x1_0000
    }

    /** The scan of do_adjust past `start` strings. */
    method Skip(start: nat, ghost ss: seq<Text>, ghost rest: seq<Byte>) returns (p: nat)
      requires Packed(ss, rest) && start <= |ss|
      ensures p == base + |Encode(ss[..start])|
    {
      hide Encode;
      p := base;
      var i := 0;
      NoTexts(ss);
      while i < start
        invariant 0 <= i <= start && p == base + |Encode(ss[..i])|
      {
        TextInPlace(buf[..], base, ss, rest, i);
        var n := StrLen(buf[..], p, ss[i]);
        p := p + (n + 1);
        i := i + 1;
      }
    }

    /** The scan through num strings, for `was` if there is one. */
    method FindEntry(was: Option<Text>, start: nat, num: nat, ghost ss: seq<Text>, ghost rest: seq<Byte>)
      returns (p: nat, sub: nat, found: bool)
      requires Packed(ss, rest) && start + num <= |ss| && (was.Some? ==> NoNul(was.value))
      ensures var k := EditPoint(ss[start..start + num], was);
              && found == (was.None? || k < num)
              && p == base + |Encode(ss[..start + k])|
              && (found ==> sub == |Encode(ss[start + k..start + k + if was.None? then 0 else 1])|)
    {
      hide Encode, First;
      p := Skip(start, ss, rest);
      sub := 0;
      ghost var list := ss[start..start + num];
      var i := 0;
      while i < num
        invariant 0 <= i <= num && p == base + |Encode(ss[..start + i])|
        invariant was.Some? ==> forall j :: 0 <= j < i ==> list[j] != was.value
      {
        ghost var s := ss[start + i];
        assert s == list[i];
        TextInPlace(buf[..], base, ss, rest, start + i);
        sub := StrLen(buf[..], p, s);
        sub := sub + 1;
        if was.Some? {
          var eq := StrEqual(buf[..], p, was.value, s);
          if eq {
            EncodeOne(s);
            assert ss[start + i..start + i + 1] == [s];
            return p, sub, true;
          }
        }
        p := p + sub;
        i := i + 1;
      }
      found := was.None?;
      if found {
        sub := 0;
        NoTexts(ss[start + num..]);
        assert ss[start + num..start + num] == ss[start + num..][..0];
      }
    }

    /** The data changes at p, and the size field with it. */
    method Replace(p: nat, sub: nat, now: Option<Text>, ghost data: seq<Byte>, ghost data': seq<Byte>)
      requires sizeLo < 256 && sizeHi < 256 && Total() == hdr + |data| && Room(now)
      requires base <= p && p + sub <= base + |data| <= buf.Length && buf[base..base + |data|] == data
      requires data' == data[..p - base] + TextBytesOf(now) + data[p - base + sub..]
      modifies this`sizeLo, this`sizeHi, buf
      ensures sizeLo < 256 && sizeHi < 256 && Total() == hdr + |data'|
      ensures base + |data'| <= buf.Length && buf[base..base + |data'|] == data'
      ensures forall x :: 0 <= x < buf.Length && !(base <= x < base + |data'|) ==> buf[x] == old(buf[x])
    {
      hide TextBytesOf, NoNul;
      BytesLength(now);
      var total := sizeLo + 256 * sizeHi;
      ghost var b0 := buf[..];
      var end := base + (total - hdr);
      var diff := Splice(buf, p, sub, end, now);
      assert end == base + |data| && end + diff == base + |data'|;
      DataAfter(b0, buf[..], base, p, sub, data, data', TextBytesOf(now));
      PutSize(total + diff);
    }

    method PutSize(total: nat)
      requires total < 0x1_0000
      modifies this`sizeLo, this`sizeHi
      ensures sizeLo < 256 && sizeHi < 256 && Total() == total
    {
      sizeLo, sizeHi := total % 256, total / 256;
    }

    /** do_adjust on num strings from start. The new count is returned instead of stored. */
    method DoAdjust(was: Option<Text>, now: Option<Text>, start: nat, num: nat, ghost ss: seq<Text>,
                    ghost rest: seq<Byte>)
      returns (found: bool, count: int)
      requires Packed(ss, rest) && start + num <= |ss| && (was.Some? ==> NoNul(was.value)) && Room(now)
      modifies this`sizeLo, this`sizeHi, buf
      ensures found <==> was.None? || was.value in ss[start..start + num]
      ensures found ==> Packed(Edited(ss, start, num, was, now), rest)
      ensures !found ==> buf[..] == old(buf[..]) && sizeLo == old(sizeLo) && sizeHi == old(sizeHi) && count == num
      ensures found ==> count == num + (if now.None? then -1 else if was.None? then 1 else 0)
      ensures forall x :: 0 <= x < buf.Length && !(base <= x < base + (Total() - hdr)) ==> buf[x] == old(buf[x])
    {
      hide Encode, First, Edited, Edit;
      var p, sub;
      p, sub, found := FindEntry(was, start, num, ss, rest);
      count := num;
      FoundIsMember(ss[start..start + num], was);
      if !found {
        return;
      }
      if now.None? {
        count := count - 1;
      } else if was.None? {
        count := count + 1;
      }
      hide EditPoint;
      SpliceEdits(ss, rest, start, num, was, now);
      EditedTexts(ss, start, num, was, now);
      Replace(p, sub, now, Encode(ss) + rest, Encode(Edited(ss, start, num, was, now)) + rest);
    }

    /** bootstrap_arg_adjust: the argument list is edited, the environment is as before. With two
        NULL pointers the code drops the count and leaves the string where it is. */
    method ArgAdjust(was: Option<Text>, now: Option<Text>, ghost argv: seq<Text>, ghost envv: seq<Text>,
                     ghost rest: seq<Byte>)
      returns (found: bool)
      requires Packed(argv + envv, rest) && argc == |argv| && envc == |envv|
      requires (was.Some? ==> NoNul(was.value)) && Room(now)
      modifies this`sizeLo, this`sizeHi, this`argc, buf
      ensures found <==> was.None? || was.value in argv
      ensures was.Some? || now.Some? ==> Packed(Edit(argv, was, now) + envv, rest) && argc == |Edit(argv, was, now)|
      ensures was.None? && now.None? ==> Packed(argv + envv, rest) && argc == |argv| - 1
    {
      hide Encode, Edit, Edited;
      ghost var ss := argv + envv;
      assert ss[0..|argv|] == argv;
      EditedLists(argv, envv, was, now);
      NullEdit(argv, was);
      if was.Some? || now.Some? {
        EditLength(argv, was, now);
      }
      found, argc := DoAdjust(was, now, 0, argc, ss, rest);
    }

    /** bootstrap_env_adjust. */
    method EnvAdjust(was: Option<Text>, now: Option<Text>, ghost argv: seq<Text>, ghost envv: seq<Text>,
                     ghost rest: seq<Byte>)
      returns (found: bool)
      requires Packed(argv + envv, rest) && argc == |argv| && envc == |envv|
      requires (was.Some? ==> NoNul(was.value)) && Room(now)
      modifies this`sizeLo, this`sizeHi, this`envc, buf
      ensures found <==> was.None? || was.value in envv
      ensures was.Some? || now.Some? ==> Packed(argv + Edit(envv, was, now), rest) && envc == |Edit(envv, was, now)|
      ensures was.None? && now.None? ==> Packed(argv + envv, rest) && envc == |envv| - 1
    {
      hide Encode, Edit, Edited;
      ghost var ss := argv + envv;
      assert ss[|argv|..|argv| + |envv|] == envv;
      EditedLists(argv, envv, was, now);
      NullEdit(envv, was);
      if was.Some? || now.Some? {
        EditLength(envv, was, now);
      }
      found, envc := DoAdjust(was, now, argc, envc, ss, rest);
    }
  }

  /** Nothing changes without a new string, or where the old one is absent. */
  lemma NullEdit(list: seq<Text>, was: Option<Text>)
    ensures was.None? ==> Edit(list, was, None) == list
    ensures was.Some? && was.value !in list ==> forall now :: Edit(list, was, now) == list
  {
  }

  /** An edit of the first list leaves the second alone, and the other way round. */
  lemma EditedLists(argv: seq<Text>, envv: seq<Text>, was: Option<Text>, now: Option<Text>)
    ensures Edited(argv + envv, 0, |argv|, was, now) == Edit(argv, was, now) + envv
    ensures Edited(argv + envv, |argv|, |envv|, was, now) == argv + Edit(envv, was, now)
  {
    hide Edit;
    var ss := argv + envv;
    assert ss[0..|argv|] == argv && ss[|argv|..] == envv && ss[..|argv|] == argv;
    assert ss[|argv|..|argv| + |envv|] == envv && ss[|argv| + |envv|..] == [];
    assert ss[..0] + Edit(argv, was, now) == Edit(argv, was, now);
  }

  /** One argument, "A", and two NULL pointers: the count becomes zero and the string stays. */
  method TwoNullsInput() returns (e: Entry)
    ensures fresh(e) && e.Packed([[65]], []) && e.argc == 0
  {
    var buf := new Byte[2];
    buf[0], buf[1] := 65, 0;
    e := new Entry(buf, 0, 8, 10, 0, 1, 0);
    ghost var argv: seq<Text> := [[65]];
    EncodeOne(argv[0]);
    assert argv + [] == argv && Encode(argv) + [] == [65, 0];
    var _ := e.ArgAdjust(None, None, argv, [], []);
  }

  lemma EditLength(list: seq<Text>, was: Option<Text>, now: Option<Text>)
    requires was.Some? || now.Some?
    ensures |Edit(list, was, now)| == |list| + if was.None? then 1 else if now.None? && was.value in list then -1 else 0
  {
  }

  lemma BytesLength(t: Option<Text>)
    ensures |TextBytesOf(t)| == if t.None? then 0 else |t.value| + 1
  {
  }

  lemma FoundIsMember(list: seq<Text>, was: Option<Text>)
    ensures was.Some? ==> (EditPoint(list, was) < |list| <==> was.value in list)
  {
  }

  lemma EditedTexts(ss: seq<Text>, start: nat, num: nat, was: Option<Text>, now: Option<Text>)
    requires AllTexts(ss) && start + num <= |ss| && (now.Some? ==> NoNul(now.value))
    requires var list := ss[start..start + num]; was.None? || EditPoint(list, was) < num
    ensures AllTexts(Edited(ss, start, num, was, now))
  {
    hide Edit, Edited, EditPoint, NoNul;
    EditedIsSplice(ss, start, num, was, now);
  }

  lemma DataAfter(b0: seq<Byte>, b: seq<Byte>, base: nat, p: nat, sub: nat, data: seq<Byte>, data': seq<Byte>,
                  t: seq<Byte>)
    requires base <= p && p + sub <= base + |data| <= |b0| == |b|
    requires b0[base..base + |data|] == data
    requires data' == data[..p - base] + t + data[p - base + sub..] && base + |data'| <= |b|
    requires b[p..base + |data'|] == t + b0[p + sub..base + |data|]
    requires forall x :: 0 <= x < p ==> b[x] == b0[x]
    ensures b[base..base + |data'|] == data'
  {
    assert b[base..p] == b0[base..p] == data[..p - base];
    assert b0[p + sub..base + |data|] == data[p - base + sub..];
    assert b[base..base + |data'|] == b[base..p] + b[p..base + |data'|];
  }
}
