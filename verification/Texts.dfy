/** NUL-terminated strings packed one behind the other. */
module Texts {
  import opened Bits

  type Text = seq<Byte>

  predicate NoNul(s: Text) { forall k :: 0 <= k < |s| ==> s[k] != 0 }

  ghost predicate AllTexts(ss: seq<Text>) { forall k :: 0 <= k < |ss| ==> NoNul(ss[k]) }

  lemma Regroup(a: seq<Byte>, b: seq<Byte>, c: seq<Byte>)
    ensures (a + b) + c == a + (b + c)
  {
  }

  /** Strings as they lie in the buffer, each with its NUL. */
  function Encode(ss: seq<Text>): seq<Byte> {
    if ss == [] then [] else Encode(ss[..|ss| - 1]) + ss[|ss| - 1] + [0]
  }

  lemma {:induction false} EncodeConcat(a: seq<Text>, b: seq<Text>)
    ensures Encode(a + b) == Encode(a) + Encode(b)
  {
    if b == [] {
      assert a + b == a;
    } else {
      var c := b[..|b| - 1];
      EncodeConcat(a, c);
      assert (a + b)[..|a + b| - 1] == a + c;
      Regroup(Encode(a), Encode(c), b[|b| - 1] + [0]);
      Regroup(Encode(a + c), b[|b| - 1], [0]);
      Regroup(Encode(c), b[|b| - 1], [0]);
    }
  }

  lemma EncodeOne(s: Text)
    ensures Encode([s]) == s + [0]
  {
    assert [s][..0] == [];
    assert Encode([s]) == Encode([]) + s + [0];
  }

  /** The bytes around string k. */
  lemma EncodeAt(ss: seq<Text>, k: nat)
    requires k < |ss|
    ensures Encode(ss) == Encode(ss[..k]) + ss[k] + [0] + Encode(ss[k + 1..])
    ensures Encode(ss[..k + 1]) == Encode(ss[..k]) + ss[k] + [0]
  {
    hide Encode;
    EncodeNext(ss, k);
    assert ss == ss[..k + 1] + ss[k + 1..];
    EncodeConcat(ss[..k + 1], ss[k + 1..]);
  }

  lemma EncodeNext(ss: seq<Text>, k: nat)
    requires k < |ss|
    ensures Encode(ss[..k + 1]) == Encode(ss[..k]) + ss[k] + [0]
  {
    assert ss[..k + 1][..k] == ss[..k];
  }

  /** The packed form can be read in one way only: the lists and the rest are determined by the bytes
      and the count. */
  lemma {:induction false} DecodeUnique(a: seq<Text>, b: seq<Text>, r: seq<Byte>, s: seq<Byte>)
    requires AllTexts(a) && AllTexts(b) && |a| == |b| && Encode(a) + r == Encode(b) + s
    ensures a == b && r == s
  {
    if a == [] {
      assert Encode(a) + r == r && Encode(b) + s == s;
    } else {
      FrontText(a, r);
      FrontText(b, s);
      SameFront(a[0], b[0], Encode(a[1..]) + r, Encode(b[1..]) + s);
      DecodeUnique(a[1..], b[1..], r, s);
      assert a == [a[0]] + a[1..] && b == [b[0]] + b[1..];
    }
  }

  lemma FrontText(a: seq<Text>, r: seq<Byte>)
    requires a != []
    ensures Encode(a) + r == a[0] + [0] + (Encode(a[1..]) + r)
  {
    assert a == [a[0]] + a[1..];
    EncodeConcat([a[0]], a[1..]);
    EncodeOne(a[0]);
  }

  lemma SameFront(x: Text, y: Text, r: seq<Byte>, s: seq<Byte>)
    requires NoNul(x) && NoNul(y) && x + [0] + r == y + [0] + s
    ensures x == y && r == s
  {
    var all := x + [0] + r;
    assert all[|x|] == 0 && all[|y|] == 0;
    assert forall k :: 0 <= k < |x| ==> all[k] == x[k];
    assert forall k :: 0 <= k < |y| ==> all[k] == (y + [0] + s)[k] == y[k];
    assert x == all[..|x|] && y == all[..|y|];
    assert r == all[|x| + 1..] && s == all[|y| + 1..];
  }

  /** Taking out n strings at k and putting others there. */
  lemma EncodeSplice(ss: seq<Text>, k: nat, n: nat, ts: seq<Text>)
    requires k + n <= |ss|
    ensures Encode(ss) == Encode(ss[..k]) + Encode(ss[k..k + n]) + Encode(ss[k + n..])
    ensures Encode(ss[..k] + ts + ss[k + n..]) == Encode(ss[..k]) + Encode(ts) + Encode(ss[k + n..])
  {
    assert ss == ss[..k] + ss[k..k + n] + ss[k + n..];
    EncodeConcat(ss[..k] + ss[k..k + n], ss[k + n..]);
    EncodeConcat(ss[..k], ss[k..k + n]);
    EncodeConcat(ss[..k] + ts, ss[k + n..]);
    EncodeConcat(ss[..k], ts);
  }

  lemma NoTexts(ss: seq<Text>)
    ensures Encode(ss[..0]) == []
  {
  }

  /** A string s with its NUL lies at p. */
  ghost predicate TextAt(b: seq<Byte>, p: nat, s: Text) {
    NoNul(s) && p + |s| < |b| && b[p..p + |s|] == s && b[p + |s|] == 0
  }

  lemma TextBytes(b: seq<Byte>, p: nat, s: Text)
    requires TextAt(b, p, s)
    ensures forall k :: 0 <= k < |s| ==> b[p + k] == s[k] != 0
  {
    forall k | 0 <= k < |s| ensures b[p + k] == s[k] {
      assert b[p..p + |s|][k] == s[k];
    }
  }

  /** A string of a slice, in the whole. */
  lemma TextInSlice(b: seq<Byte>, base: nat, data: seq<Byte>, n: nat, s: Text)
    requires base + |data| <= |b| && b[base..base + |data|] == data
    requires NoNul(s) && n + |s| < |data| && data[n..n + |s|] == s && data[n + |s|] == 0
    ensures TextAt(b, base + n, s)
  {
    var p := base + n;
    forall i | 0 <= i < |s| ensures b[p + i] == s[i] {
      assert data[n..n + |s|][i] == data[n + i] == b[base + (n + i)];
    }
    assert b[p..p + |s|] == s;
    assert data[n + |s|] == b[base + (n + |s|)];
  }

  /** Where the strings lie: the first k of ss end at base + |Encode(ss[..k])|, and string k begins
      there. */
  lemma TextInPlace(b: seq<Byte>, base: nat, ss: seq<Text>, rest: seq<Byte>, k: nat)
    requires AllTexts(ss) && k < |ss|
    requires base + |Encode(ss)| + |rest| <= |b| && b[base..base + |Encode(ss)| + |rest|] == Encode(ss) + rest
    ensures TextAt(b, base + |Encode(ss[..k])|, ss[k])
    ensures Encode(ss[..k + 1]) == Encode(ss[..k]) + ss[k] + [0]
    ensures |Encode(ss[..k + 1])| <= |Encode(ss)|
  {
    EncodeAt(ss, k);
    var n := |Encode(ss[..k])|;
    var data := Encode(ss) + rest;
    assert data[n..n + |ss[k]|] == ss[k] && data[n + |ss[k]|] == 0;
    TextInSlice(b, base, data, n, ss[k]);
  }

  method StrLen(b: seq<Byte>, p: nat, ghost s: Text) returns (n: nat)
    requires TextAt(b, p, s)
    ensures n == |s|
  {
    TextBytes(b, p, s);
    n := 0;
    while b[p + n] != 0
      invariant 0 <= n <= |s|
      decreases |s| - n
    {
      n := n + 1;
    }
  }

  method StrEqual(b: seq<Byte>, p: nat, t: Text, ghost s: Text) returns (eq: bool)
    requires TextAt(b, p, s) && NoNul(t)
    ensures eq <==> t == s
  {
    TextBytes(b, p, s);
    var k := 0;
    while k < |t| && b[p + k] == t[k]
      invariant 0 <= k <= |t| && k <= |s| && t[..k] == s[..k]
    {
      k := k + 1;
    }
    eq := k == |t| && b[p + k] == 0;
    if k == |t| == |s| {
      assert t == t[..k] && s == s[..k];
    }
  }
}
