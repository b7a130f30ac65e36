/** ultoa_end.c, strtoul.c and the number formatting of kprintf.c. */
module Numbers {
  import opened Bits

  const DIGITS: string := "0123456789abcdef"
  const NUL: char := 0 as char

  /** radix_value. */
  function RadixValue(c: char): nat {
    if '0' <= c <= '9' then c as nat - '0' as nat
    else if 'a' <= c <= 'f' then c as nat - 'a' as nat + 10
    else if 'A' <= c <= 'F' then c as nat - 'A' as nat + 10
    else 37
  }

  function Digit(v: nat, radix: nat): char
    requires 2 <= radix <= 16
  {
    DIGITS[v % radix]
  }

  /** The digits of v, the most significant first. */
  function Digits(v: nat, radix: nat): (s: string)
    requires 2 <= radix <= 16
    ensures |s| > 0
  {
    (if v < radix then [] else Digits(v / radix, radix)) + [Digit(v, radix)]
  }

  /** The number a string of digits stands for. */
  function Value(s: string, base: nat): nat {
    if s == [] then 0 else Value(s[..|s| - 1], base) * base + RadixValue(s[|s| - 1])
  }

  predicate AllDigits(s: string, base: nat) { forall k :: 0 <= k < |s| ==> RadixValue(s[k]) < base }

  lemma DigitValue(v: nat, radix: nat)
    requires 2 <= radix <= 16
    ensures RadixValue(Digit(v, radix)) == v % radix < radix
    ensures Digit(v, radix) == '0' <==> v % radix == 0
    ensures v == v / radix * radix + v % radix && (v / radix == 0 <==> v < radix)
    ensures v < radix ==> v % radix == v
  {
    var d := v % radix;
    assert RadixValue(DIGITS[d]) == d;
    if v < radix {
      DivModUnique(v, radix, 0, v);
    } else {
      assert v / radix * radix > v - radix;
    }
  }

  /** Digits are digits, and stand for the number. */
  lemma {:induction false} DigitsValue(v: nat, radix: nat)
    requires 2 <= radix <= 16
    ensures AllDigits(Digits(v, radix), radix) && Value(Digits(v, radix), radix) == v
    ensures Digits(v, radix)[0] == '0' <==> v == 0
  {
    hide Digit, RadixValue, Value;
    DigitValue(v, radix);
    if v < radix {
      ValueAppend([], Digit(v, radix), radix);
      NoValue(radix);
    } else {
      FewerDigits(v, radix);
      MoreDigits(v, radix);
      DigitsValue(v / radix, radix);
      ValueAppend(Digits(v / radix, radix), Digit(v, radix), radix);
    }
  }

  lemma MoreDigits(v: nat, radix: nat)
    requires 2 <= radix <= v && radix <= 16
    ensures Digits(v, radix) == Digits(v / radix, radix) + [Digit(v, radix)]
  {
  }

  lemma FewerDigits(v: nat, radix: nat)
    requires 2 <= radix <= v
    ensures 0 < v / radix < v
  {
    DivMod(v, radix);
  }

  lemma NoValue(base: nat)
    ensures Value([], base) == 0
  {
  }

  lemma ValueAppend(s: string, c: char, base: nat)
    ensures Value(s + [c], base) == Value(s, base) * base + RadixValue(c)
  {
    assert (s + [c])[..|s|] == s;
  }

  function Zeros(n: nat): string { seq(n, _ => '0') }

  /** Zeros in front change nothing. */
  lemma {:induction false} LeadingZeros(n: nat, s: string, base: nat)
    requires base > 0
    ensures Value(Zeros(n) + s, base) == Value(s, base)
  {
    var t := Zeros(n) + s;
    if s != [] {
      LeadingZeros(n, s[..|s| - 1], base);
      assert t[..|t| - 1] == Zeros(n) + s[..|s| - 1];
    } else if n > 0 {
      LeadingZeros(n - 1, [], base);
      assert t[..|t| - 1] == Zeros(n - 1) + [];
    }
  }

  // ---- printing ----

  /** How many digits a number takes. */
  lemma {:induction false} DigitsFit(v: nat, radix: nat, n: nat)
    requires 4 <= radix <= 16 && v < Power4(n) && n > 0
    ensures |Digits(v, radix)| <= n
    decreases n
  {
    if v >= radix {
      assert v / radix <= v / 4;
      DigitsFit(v / radix, radix, n - 1);
    }
  }

  function Power4(n: nat): nat { if n == 0 then 1 else 4 * Power4(n - 1) }

  lemma ThirtyTwoDigits()
    ensures Power4(32) == TWO64
  {
    assert Power4(8) == 65536;
    assert Power4(16) == 65536 * Power4(8);
    assert Power4(24) == 65536 * Power4(16);
    assert Power4(32) == 65536 * Power4(24);
  }

  /** What the loop still has to print: it runs at least once. */
  function Left(v: nat, radix: nat, first: bool): string
    requires 2 <= radix <= 16
  {
    if !first && v == 0 then [] else Digits(v, radix)
  }

  lemma LeftStep(v: nat, radix: nat, first: bool)
    requires 2 <= radix <= 16 && (first || v != 0)
    ensures Left(v, radix, first) == Left(v / radix, radix, false) + [Digit(v, radix)]
  {
    DigitValue(v, radix);
  }

  /** The loop both printers share: the digits go to the end of the buffer, backwards. p0 is where
      the terminator is. */
  method FillBackwards(buf: array<char>, p0: nat, v0: nat, radix: nat) returns (p: nat)
    requires 2 <= radix <= 16 && |Digits(v0, radix)| <= p0 <= buf.Length
    modifies buf
    ensures p + |Digits(v0, radix)| == p0 && buf[p..p0] == Digits(v0, radix)
    ensures forall x :: 0 <= x < buf.Length && !(p <= x < p0) ==> buf[x] == old(buf[x])
  {
    hide Digits, Digit, Left;
    var v: nat, first := v0, true;
    p := p0;
    ghost var done: string := [];
    LeftEnds(v, radix);
    while first || v != 0
      invariant p <= p0 && buf[p..p0] == done && Digits(v0, radix) == Left(v, radix, first) + done
      invariant forall x :: 0 <= x < buf.Length && !(p <= x < p0) ==> buf[x] == old(buf[x])
      decreases first, v
    {
      LeftStep(v, radix, first);
      var c, q := DivideDigit(v, radix);
      PutBefore(buf, p, p0, c);
      p, done := p - 1, [c] + done;
      v, first := q, false;
    }
    LeftEnds(v, radix);
  }

  method DivideDigit(v: nat, radix: nat) returns (c: char, q: nat)
    requires 2 <= radix <= 16
    ensures c == Digit(v, radix) && q == v / radix && (v > 0 ==> q < v)
  {
    DigitValue(v, radix);
    c := DIGITS[v % radix];
    q := v / radix;
  }

  /** *--p = c */
  method PutBefore(buf: array<char>, p: nat, p0: nat, c: char)
    requires 0 < p <= p0 <= buf.Length
    modifies buf
    ensures buf[p - 1..p0] == [c] + old(buf[p..p0])
    ensures forall x :: 0 <= x < buf.Length && x != p - 1 ==> buf[x] == old(buf[x])
  {
    buf[p - 1] := c;
  }

  lemma LeftEnds(v: nat, radix: nat)
    requires 2 <= radix <= 16
    ensures Left(0, radix, false) == [] && Left(v, radix, true) == Digits(v, radix)
  {
  }

  /** strcpy from p to `at`: the string and its NUL. */
  method CopyText(b: array<char>, p0: nat, d: array<char>, at: nat, ghost text: string) returns (end: nat)
    requires b != d && p0 + |text| < b.Length && at + |text| < d.Length
    requires b[p0..p0 + |text|] == text && b[p0 + |text|] == NUL && NUL !in text
    modifies d
    ensures end == at + |text| && d[at..end] == text && d[end] == NUL
    ensures forall x :: 0 <= x < d.Length && !(at <= x <= end) ==> d[x] == old(d[x])
  {
    assert forall x :: p0 <= x < p0 + |text| ==> b[x] == b[p0..p0 + |text|][x - p0];
    end := at;
    var p := p0;
    d[end] := b[p];
    while d[end] != NUL
      invariant at <= end < d.Length && end - at == p - p0 <= |text|
      invariant d[end] == b[p]
      invariant forall x :: at <= x < end ==> d[x] == text[x - at]
      invariant forall x :: 0 <= x < d.Length && !(at <= x <= end) ==> d[x] == old(d[x])
      decreases p0 + |text| - p
    {
      end := end + 1;
      p := p + 1;
      d[end] := b[p];
    }
  }

  /** ultoa_end: the digits and a NUL go to d from `at` on; the position of the NUL is returned. */
  method UltoaEnd(v: nat, d: array<char>, at: nat, radix: nat) returns (end: nat)
    requires 4 <= radix <= 16 && v < TWO64
    requires at + |Digits(v, radix)| < d.Length
    modifies d
    ensures end == at + |Digits(v, radix)|
    ensures d[at..end] == Digits(v, radix) && d[end] == NUL
    ensures forall x :: 0 <= x < d.Length && !(at <= x <= end) ==> d[x] == old(d[x])
  {
    hide Digits;
    var b := new char[33];
    ThirtyTwoDigits();
    DigitsFit(v, radix, 32);
    b[32] := NUL;
    var p := FillBackwards(b, 32, v, radix);
    NoNul(v, radix);
    end := CopyText(b, p, d, at, Digits(v, radix));
  }

  lemma NoNul(v: nat, radix: nat)
    requires 2 <= radix <= 16
    ensures NUL !in Digits(v, radix) && '\n' !in Digits(v, radix)
  {
    DigitsValue(v, radix);
  }

  // ---- parsing ----

  predicate HexStart(s: string) { |s| >= 2 && s[0] == '0' && (s[1] == 'x' || s[1] == 'X') }

  /** strtopaddr's loop from p on: the value, modulo 2^64, and where it stopped. */
  function Scan(s: string, p: nat, base: nat, value: nat): (r: (nat, nat))
    requires p <= |s|
    ensures p <= r.1 <= |s|
    decreases |s| - p
  {
    if p < |s| && RadixValue(s[p]) < base then Scan(s, p + 1, base, (value * base + RadixValue(s[p])) % TWO64)
    else (value, p)
  }

  /** The base a text is read in, and where its digits begin. */
  function ActualBase(s: string, base: nat): nat {
    if base != 0 then base else if HexStart(s) then 16 else if s != [] && s[0] == '0' then 8 else 10
  }

  function DigitStart(s: string, base: nat): (p: nat)
    ensures p <= |s|
  {
    if ActualBase(s, base) == 16 && HexStart(s) then 2 else 0
  }

  /** The value, and the end pointer, which goes back to the start if there was no digit. */
  function Parsed(s: string, base: nat): (nat, nat) {
    var r := Scan(s, DigitStart(s, base), ActualBase(s, base), 0);
    (r.0, if r.1 == DigitStart(s, base) then 0 else r.1)
  }

  /** strtopaddr on a NUL-terminated text. */
  method StrToPaddr(s: string, base0: nat) returns (value: nat, end: nat)
    requires NUL in s && base0 <= 37
    ensures (value, end) == Parsed(s, base0)
  {
    var base := base0;
    var p := 0;
    if base == 0 {
      if HexStart(s) {
        base := 16;
      } else if s[0] == '0' {
        base := 8;
      } else {
        base := 10;
      }
    }
    if base == 16 {
      if HexStart(s) {
        p := p + 2;
      }
    }
    var startp := p;
    value := 0;
    ghost var nul :| 0 <= nul < |s| && s[nul] == NUL;
    NulBehind(s, nul);
    while true
      invariant startp <= p <= nul
      invariant Scan(s, p, base, value) == Scan(s, startp, base, 0)
      decreases nul - p
    {
      var digit := RadixValue(s[p]);
      if digit >= base {
        break;
      }
      value := (value * base + digit) % TWO64;
      p := p + 1;
    }
    end := if p == startp then 0 else p;
  }

  lemma NulBehind(s: string, nul: nat)
    requires nul < |s| && s[nul] == NUL
    ensures HexStart(s) ==> nul >= 2
    ensures RadixValue(NUL) == 37
  {
  }

  /** Scanning a run of digits gives its value. */
  lemma {:induction false} ScanRun(s: string, p: nat, n: nat, base: nat, k: nat)
    requires 0 < base && k <= n && p + n < |s| && AllDigits(s[p..p + n], base) && RadixValue(s[p + n]) >= base
    ensures Scan(s, p + k, base, Value(s[p..p + k], base) % TWO64) == (Value(s[p..p + n], base) % TWO64, p + n)
    decreases n - k
  {
    if k < n {
      var d := s[p + k];
      assert d == s[p..p + n][k];
      assert s[p..p + k + 1] == s[p..p + k] + [d];
      ValueAppend(s[p..p + k], d, base);
      WrapStep(Value(s[p..p + k], base), base, RadixValue(d));
      ScanRun(s, p, n, base, k + 1);
    }
  }

  lemma WrapStep(x: nat, base: nat, d: nat)
    ensures (x % TWO64 * base + d) % TWO64 == (x * base + d) % TWO64
  {
    var q, r := x / TWO64, x % TWO64;
    var y := r * base + d;
    assert x * base + d == q * base * TWO64 + y;
    DivModUnique(x * base + d, TWO64, q * base + y / TWO64, y % TWO64);
  }

  /** Digits, with zeros in front or without, are read back as the number. */
  lemma ScanDigits(v: nat, radix: nat, zeros: nat, rest: string)
    requires 2 <= radix <= 16 && v < TWO64 && rest != [] && RadixValue(rest[0]) >= radix
    ensures var text := Zeros(zeros) + Digits(v, radix);
            Scan(text + rest, 0, radix, 0) == (v, |text|)
  {
    hide Digits, Value, Scan;
    var digits := Digits(v, radix);
    var text := Zeros(zeros) + digits;
    var s := text + rest;
    DigitsValue(v, radix);
    LeadingZeros(zeros, digits, radix);
    PaddedDigits(zeros, digits, radix);
    assert s[0..0 + |text|] == text && s[0 + |text|] == rest[0];
    NoValue(radix);
    assert s[0..0 + 0] == [];
    ScanRun(s, 0, |text|, radix, 0);
  }

  lemma PaddedDigits(zeros: nat, digits: string, base: nat)
    requires base > 0 && AllDigits(digits, base)
    ensures AllDigits(Zeros(zeros) + digits, base)
  {
    assert RadixValue('0') == 0;
  }

  /** The text in capital letters. */
  function Upper(s: string): (u: string)
    ensures |u| == |s|
  {
    seq(|s|, k requires 0 <= k < |s| =>
      if 'a' <= s[k] <= 'z' then (s[k] as nat - 'a' as nat + 'A' as nat) as char else s[k])
  }

  /** Small and capital letters are read alike, as digits and in the prefix. */
  lemma ParsedUpper(s: string, base: nat)
    ensures Parsed(Upper(s), base) == Parsed(s, base)
  {
    hide Scan;
    ScanUpper(s, DigitStart(s, base), ActualBase(s, base), 0);
  }

  lemma {:induction false} ScanUpper(s: string, p: nat, base: nat, value: nat)
    requires p <= |s|
    ensures Scan(Upper(s), p, base, value) == Scan(s, p, base, value)
    decreases |s| - p
  {
    if p < |s| {
      assert RadixValue(Upper(s)[p]) == RadixValue(s[p]);
      ScanUpper(s, p + 1, base, (value * base + RadixValue(s[p])) % TWO64);
    }
  }

  /** Printing and parsing undo each other, and parsing stops at the end of the digits, unless a
      hexadecimal zero runs into an x. */
  lemma RoundTrip(v: nat, radix: nat, rest: string)
    requires 2 <= radix <= 16 && v < TWO64 && rest != [] && RadixValue(rest[0]) >= radix
    ensures Parsed(Digits(v, radix) + rest, radix) == (v, |Digits(v, radix)|)
            <==> !(radix == 16 && v == 0 && (rest[0] == 'x' || rest[0] == 'X'))
  {
    hide Digits, Value, Scan;
    var text := Digits(v, radix);
    var s := text + rest;
    assert Zeros(0) + text == text;
    ScanDigits(v, radix, 0, rest);
    DigitsValue(v, radix);
    OneZero(radix);
    assert HexStart(s) <==> v == 0 && (rest[0] == 'x' || rest[0] == 'X');
  }

  /** The digit zero with an x behind it: no digit is read, and the end is where the text begins. */
  lemma HexZeroInput()
    ensures Digits(0, 16) + "x" == "0x" && Parsed("0x", 16) == (0, 0)
  {
    OneZero(16);
    var s := "0x";
    assert HexStart(s) && DigitStart(s, 16) == 2;
  }

  /** A text scanned from where digits begin. */
  lemma ScanFrom(s: string, p: nat, v: nat, radix: nat)
    requires 2 <= radix <= 16 && v < TWO64
    requires var n := |Digits(v, radix)|;
             p + n < |s| && s[p..p + n] == Digits(v, radix) && RadixValue(s[p + n]) >= radix
    ensures Scan(s, p, radix, 0) == (v, p + |Digits(v, radix)|)
  {
    hide Digits, Value, Scan, AllDigits, RadixValue;
    DigitsValue(v, radix);
    NoValue(radix);
    assert s[p..p + 0] == [];
    ScanRun(s, p, |Digits(v, radix)|, radix, 0);
  }

  lemma ScanBehind(prefix: string, v: nat, radix: nat, rest: string)
    requires 2 <= radix <= 16 && v < TWO64 && rest != [] && RadixValue(rest[0]) >= radix
    ensures var s := prefix + Digits(v, radix) + rest;
            Scan(s, |prefix|, radix, 0) == (v, |prefix| + |Digits(v, radix)|)
  {
    hide Digits, Scan, RadixValue;
    Middle(prefix, Digits(v, radix), rest);
    ScanFrom(prefix + Digits(v, radix) + rest, |prefix|, v, radix);
  }

  lemma Middle(a: string, b: string, c: string)
    ensures (a + b + c)[|a|..|a| + |b|] == b
    ensures c != [] ==> (a + b + c)[|a| + |b|] == c[0]
  {
  }

  /** With base zero the text itself says its base: 0x and 0X are for sixteen, which may be asked for
      as well, a zero is for eight, and anything else for ten. */
  lemma HexFromText(v: nat, x: char, rest: string)
    requires v < TWO64 && rest != [] && (x == 'x' || x == 'X') && RadixValue(rest[0]) >= 16
    ensures var s := ['0', x] + Digits(v, 16) + rest;
            Parsed(s, 0) == Parsed(s, 16) == (v, 2 + |Digits(v, 16)|)
  {
    hide Digits, Value, Scan, RadixValue;
    ScanBehind(['0', x], v, 16, rest);
  }

  lemma OctalFromText(v: nat, rest: string)
    requires v < TWO64 && rest != [] && RadixValue(rest[0]) >= 8
    ensures Parsed(['0'] + Digits(v, 8) + rest, 0) == (v, 1 + |Digits(v, 8)|)
  {
    hide Digits, Value, Scan;
    ScanBehind(['0'], v, 8, rest);
    DigitsValue(v, 8);
    var s := ['0'] + Digits(v, 8) + rest;
    assert s[1] == Digits(v, 8)[0] && RadixValue(s[1]) < 8;
    assert Scan(s, 0, 8, 0) == Scan(s, 1, 8, 0) by { FirstZero(s); }
  }

  lemma FirstZero(s: string)
    requires s != [] && s[0] == '0'
    ensures Scan(s, 0, 8, 0) == Scan(s, 1, 8, 0)
  {
  }

  lemma DecimalFromText(v: nat, rest: string)
    requires 0 < v < TWO64 && rest != [] && RadixValue(rest[0]) >= 10
    ensures Parsed(Digits(v, 10) + rest, 0) == (v, |Digits(v, 10)|)
  {
    hide Digits, Value, Scan, RadixValue;
    ScanBehind([], v, 10, rest);
    DigitsValue(v, 10);
    assert [] + Digits(v, 10) + rest == Digits(v, 10) + rest;
  }

  lemma OneZero(radix: nat)
    requires 2 <= radix <= 16
    ensures Digits(0, radix) == "0"
  {
    DigitValue(0, radix);
  }

  // ---- kprintf ----

  /** The conversions of vmsg that print numbers. */
  datatype Conversion = ConvB | ConvW | ConvP | ConvX | ConvL | ConvLL | ConvV | ConvD | ConvU

  /** Radix and least number of digits. */
  function Format(c: Conversion): (nat, nat) {
    match c
    case ConvB => (16, 2)
    case ConvW => (16, 4)
    case ConvX => (16, 8)
    case ConvP | ConvL | ConvLL | ConvV => (16, 16)
    case ConvD | ConvU => (10, 0)
  }

  function Padding(c: Conversion, num: nat): nat {
    var (radix, dig) := Format(c);
    var n := |Digits(num, radix)|;
    if dig > n then dig - n else 0
  }

  /** What vmsg prints for a number. */
  function Printed(c: Conversion, num: nat): string {
    Zeros(Padding(c, num)) + Digits(num, Format(c).0)
  }

  lemma Regroup(a: string, b: string, c: string)
    ensures (a + b) + c == a + (b + c)
  {
  }

  /** The characters kprintf has printed. */
  class Console {
    var out: string

    constructor ()
      ensures out == []
    {
      out := [];
    }

    method OneChar(c: char)
      modifies this
      ensures out == old(out) + if c == '\n' then ['\r', c] else [c]
    {
      if c == '\n' {
        out := out + ['\r'];
      }
      out := out + [c];
    }

    /** The part of vmsg that prints a number. */
    method PrintNumber(c: Conversion, num: nat)
      requires num < TWO64
      modifies this
      ensures out == old(out) + Printed(c, num)
    {
      hide Digits, Value, RadixValue, AllDigits, Zeros;
      var (radix, dig0) := Format(c);
      var buf := new char[64];
      ThirtyTwoDigits();
      DigitsFit(num, radix, 32);
      buf[63] := NUL;
      var vs := FillBackwards(buf, 63, num, radix);
      NoNul(num, radix);
      Pad(dig0 - (63 - vs));
      PrintText(buf, vs, Digits(num, radix));
      Regroup(old(out), Zeros(Padding(c, num)), Digits(num, radix));
    }

    method Pad(dig0: int)
      modifies this
      ensures out == old(out) + Zeros(if dig0 > 0 then dig0 else 0)
    {
      var dig := dig0;
      while dig > 0
        invariant dig0 > 0 ==> 0 <= dig <= dig0 && out == old(out) + Zeros(dig0 - dig)
        invariant dig0 <= 0 ==> dig == dig0 && out == old(out)
      {
        OneChar('0');
        dig := dig - 1;
      }
    }

    /** while(*vs) one_char(*vs++) */
    method PrintText(buf: array<char>, vs: nat, ghost text: string)
      requires vs + |text| < buf.Length && buf[vs..vs + |text|] == text && buf[vs + |text|] == NUL
      requires NUL !in text && '\n' !in text
      modifies this
      ensures out == old(out) + text
    {
      assert forall x :: vs <= x < vs + |text| ==> buf[x] == buf[vs..vs + |text|][x - vs];
      var p := vs;
      while buf[p] != NUL
        invariant vs <= p <= vs + |text| && out == old(out) + text[..p - vs]
        decreases vs + |text| - p
      {
        OneChar(buf[p]);
        assert text[..p + 1 - vs] == text[..p - vs] + [text[p - vs]];
        p := p + 1;
      }
      assert text[..|text|] == text;
    }
  }

  /** n hexadecimal digits hold the numbers of 4 * n bits. */
  lemma {:induction false} HexDigits(v: nat, n: nat)
    requires n > 0
    ensures |Digits(v, 16)| <= n <==> v < Pow2(4 * n)
    decreases n
  {
    hide Digit, Value;
    assert Pow2(4) == 16;
    Pow2Adds(4, 4 * (n - 1));
    DivMod(v, 16);
    if v >= 16 {
      MoreDigits(v, 16);
      if n > 1 {
        HexDigits(v / 16, n - 1);
        Sixteenths(v / 16, v % 16, Pow2(4 * (n - 1)));
      }
    } else if n > 1 {
      MulAtMost(16, 0, Pow2(4 * (n - 1)));
    }
  }

  lemma Sixteenths(q: nat, r: nat, p: nat)
    requires r < 16
    ensures 16 * q + r < 16 * p <==> q < p
  {
  }

  /** The signed and unsigned conversions print the decimal number without zeros in front. All others
      print it in hexadecimal, in two digits per byte of the argument or as many as it takes. */
  lemma PrintedForm(c: Conversion, num: nat)
    requires num < TWO64
    ensures var p, decimal := Printed(c, num), c.ConvD? || c.ConvU?;
            && p != [] && (forall k :: 0 <= k < |p| ==> p[k] in "0123456789abcdef")
            && AllDigits(p, if decimal then 10 else 16) && Value(p, if decimal then 10 else 16) == num
            && (decimal ==> (p[0] == '0' <==> num == 0))
            && (c.ConvB? ==> (|p| == 2 <==> num < 0x100))
            && (c.ConvW? ==> (|p| == 4 <==> num < 0x1_0000))
            && (c.ConvX? ==> (|p| == 8 <==> num < 0x1_0000_0000))
            && (c.ConvP? || c.ConvL? || c.ConvLL? || c.ConvV? ==> |p| == 16)
            && (|p| > 16 ==> decimal)
  {
    hide Digits, Value, RadixValue, AllDigits, Pow2;
    var radix := Format(c).0;
    DigitsValue(num, radix);
    DigitChars(num, radix);
    LeadingZeros(Padding(c, num), Digits(num, radix), radix);
    PaddedDigits(Padding(c, num), Digits(num, radix), radix);
    HexWidths(num);
  }

  lemma HexWidths(v: nat)
    ensures |Digits(v, 16)| <= 2 <==> v < 0x100
    ensures |Digits(v, 16)| <= 4 <==> v < 0x1_0000
    ensures |Digits(v, 16)| <= 8 <==> v < 0x1_0000_0000
    ensures |Digits(v, 16)| <= 16 <==> v < TWO64
  {
    hide Digits, Pow2;
    HexDigits(v, 2);
    HexDigits(v, 4);
    HexDigits(v, 8);
    HexDigits(v, 16);
    Pow2Of8();
    Pow2Adds(8, 8);
    Pow2Adds(16, 16);
    Pow2Adds(32, 32);
  }

  lemma {:induction false} DigitChars(v: nat, radix: nat)
    requires 2 <= radix <= 16
    ensures forall k :: 0 <= k < |Digits(v, radix)| ==> Digits(v, radix)[k] in "0123456789abcdef"
  {
    assert Digit(v, radix) == "0123456789abcdef"[v % radix];
    if v >= radix {
      FewerDigits(v, radix);
      DigitChars(v / radix, radix);
    }
  }

  /** What kprintf prints for a number is read back in the same radix. */
  lemma PrintedRoundTrip(c: Conversion, num: nat, rest: string)
    requires num < TWO64 && rest != [] && RadixValue(rest[0]) >= Format(c).0
    ensures Parsed(Printed(c, num) + rest, Format(c).0) == (num, |Printed(c, num)|)
  {
    hide Digits, Value, Scan;
    var radix, text := Format(c).0, Printed(c, num);
    var s := text + rest;
    ScanDigits(num, radix, Padding(c, num), rest);
    DigitsValue(num, radix);
    if radix == 16 {
      PaddedDigits(Padding(c, num), Digits(num, radix), radix);
      assert |text| >= 2 && s[1] == text[1] && RadixValue(text[1]) < 16;
    }
  }
}
